/** Recovering the value of each template variable from the request's parts by
    index arithmetic, and when that is what the template asks for. */
module Bindings {

  import opened Wrappers
  import opened Strings
  import opened PathTrie
  import opened TemplateGrammar
  import opened HttpTemplates
  import opened PercentEncoding

  datatype VariableBinding = VariableBinding(fields: seq<string>, value: string)

  /** The part position a variable ends at; negative ends count from the end. */
  function BoundEnd(v: VariableInfo, parts: nat): int {
    if v.end >= 0 then v.end else parts + v.end + 1
  }

  /** The unsigned index arithmetic of the extraction does not wrap and stays
      inside the parts. */
  predicate InRange(v: VariableInfo, parts: nat) {
    0 <= v.start <= BoundEnd(v, parts) <= parts
  }

  predicate IsMultipart(v: VariableInfo, parts: nat) {
    BoundEnd(v, parts) - v.start > 1 || v.end < 0
  }

  function Texts(slice: Path, keepEscaped: bool, unescapeReserved: bool): (texts: seq<string>)
    ensures |texts| == |slice|
  {
    if keepEscaped then slice else UnescapeAll(slice, unescapeReserved)
  }

  /** The value of a variable: its parts, decoded unless kept, joined by `/`. */
  function Bind(v: VariableInfo, parts: Path, keepEscaped: bool): VariableBinding
    requires InRange(v, |parts|)
  {
    var slice := parts[v.start..BoundEnd(v, |parts|)];
    VariableBinding(v.fields, Join(Texts(slice, keepEscaped, !IsMultipart(v, |parts|))))
  }

  /** A joined prefix, with the separator when more is to come. */
  function JoinedSoFar(all: seq<string>, n: nat): string
    requires n <= |all|
  {
    if 0 < n < |all| then Join(all[..n]) + "/" else Join(all[..n])
  }

  lemma {:induction false} JoinStep(all: seq<string>, n: nat)
    requires n < |all|
    ensures JoinedSoFar(all, n + 1) == JoinedSoFar(all, n) + all[n] + (if n + 1 < |all| then "/" else "")
  {
    assert all[..n + 1] == all[..n] + [all[n]];
    if n > 0 {
      JoinAppend(all[..n], [all[n]]);
    }
    var s := JoinedSoFar(all, n) + all[n];
    assert s + "" == s;
  }

  method ExtractBindingsFromPath(vars: seq<VariableInfo>, parts: Path, keepBindingEscaped: bool)
    returns (bindings: seq<VariableBinding>)
    requires forall i :: 0 <= i < |vars| ==> InRange(vars[i], |parts|)
    ensures |bindings| == |vars|
    ensures forall i :: 0 <= i < |vars| ==> bindings[i] == Bind(vars[i], parts, keepBindingEscaped)
  {
    bindings := [];
    for k := 0 to |vars|
      invariant |bindings| == k
      invariant forall i :: 0 <= i < k ==> bindings[i] == Bind(vars[i], parts, keepBindingEscaped)
    {
      var binding := ExtractBinding(vars[k], parts, keepBindingEscaped);
      bindings := bindings + [binding];
    }
  }

  method ExtractBinding(v: VariableInfo, parts: Path, keepBindingEscaped: bool)
    returns (binding: VariableBinding)
    requires InRange(v, |parts|)
    ensures binding == Bind(v, parts, keepBindingEscaped)
  {
    var endSegment := if v.end >= 0 then v.end else |parts| + v.end + 1;
    var isMultipart := endSegment - v.start > 1 || v.end < 0;
    assert endSegment == BoundEnd(v, |parts|) && isMultipart == IsMultipart(v, |parts|);
    var value := JoinParts(parts, v.start, endSegment, keepBindingEscaped, !isMultipart);
    binding := VariableBinding(v.fields, value);
  }

  /** The inner loop: joins the parts from `start` to `end`. */
  method JoinParts(parts: Path, start: nat, end: nat, keepEscaped: bool, unescapeReserved: bool)
    returns (value: string)
    requires start <= end <= |parts|
    ensures value == Join(Texts(parts[start..end], keepEscaped, unescapeReserved))
  {
    ghost var all := Texts(parts[start..end], keepEscaped, unescapeReserved);
    value := "";
    var i := start;
    while i < end
      invariant start <= i <= end
      invariant value == JoinedSoFar(all, i - start)
    {
      JoinStep(all, i - start);
      assert parts[start..end][i - start] == parts[i];
      var text := parts[i];
      if !keepEscaped {
        text := UrlUnescapeString(parts[i], unescapeReserved);
      }
      assert text == all[i - start];
      value := value + text;
      if i < end - 1 {
        value := value + "/";
      }
      i := i + 1;
    }
    assert all[..i - start] == all;
  }

  // ---------------------------------------------------------------------------
  // Index arithmetic of every accepted template on every request it answers
  // ---------------------------------------------------------------------------

  /** Every key takes a part, but for a trailing `**`. */
  lemma {:induction false} ReachesLength(wild: bool, path: Path, parts: Path)
    requires Reaches(wild, path, parts)
    ensures |parts| + 1 >= |path|
    ensures |parts| + 1 == |path| ==> path[|path| - 1] == WILDCARD_PATH_KEY
    decreases |parts|
  {
    if parts != [] {
      if ReachesVia(path, parts) {
        ReachesLength(path[0] == WILDCARD_PATH_KEY, path[1..], parts[1..]);
      } else if wild {
        ReachesLength(true, path, parts[1..]);
      } else {
        ReachesLength(path[0] == WILDCARD_PATH_KEY, path[1..], parts[1..]);
      }
    }
  }

  /** No wrap-around, no access outside the parts: for every template there is
      and every request whose search ends at it, whatever its verb. */
  lemma {:induction false} BindingsInRange(ht: HttpTemplate, parts: Path, i: nat)
    requires WellPlaced(ht) && Reaches(false, KeyPath(ht), parts) && i < |ht.variables|
    ensures InRange(ht.variables[i], |parts|)
  {
    var path, v := KeyPath(ht), ht.variables[i];
    ReachesLength(false, path, parts);
    if v.end >= 0 {
      forall k | v.start <= k < v.end
        ensures ht.segments[k] != WILDCARD_PATH_KEY
      {
        assert ht.segments[k] == ht.segments[v.start..v.end][k - v.start];
      }
    }
  }

  // ---------------------------------------------------------------------------
  // The parts that belong to a variable
  // ---------------------------------------------------------------------------

  /** Where a boundary between keys falls among the parts: up to `**` it is
      counted from the front, after it from the back. */
  function Align(b: nat, path: Path, parts: Path): int {
    if b <= WildAt(path) then b else b - |path| + |parts|
  }

  lemma {:induction false} AlignMonotone(a: nat, b: nat, path: Path, parts: Path)
    requires Matches(path, parts) && a <= b <= |path|
    ensures 0 <= Align(a, path, parts) <= Align(b, path, parts) <= |parts|
  {}

  lemma {:induction false} AlignEnds(path: Path, parts: Path)
    requires Matches(path, parts)
    ensures Align(0, path, parts) == 0 && Align(|path|, path, parts) == |parts|
  {}

  lemma {:induction false} Ends(s: Path, lo: nat, hi: nat)
    requires lo <= hi <= |s|
    ensures s[0..lo] == s[..lo] && s[hi..|s|] == s[hi..]
  {}

  lemma {:induction false} NoWildIn(path: Path, a: nat, b: nat)
    requires Clean(path) && a <= b <= |path| && !(a <= WildAt(path) < b)
    ensures WildAt(path[a..b]) == b - a
  {
    var w := WildAt(path);
    forall i | a <= i < b
      ensures path[i] != WILDCARD_PATH_KEY
    {
      if path[i] == WILDCARD_PATH_KEY {
        WildUnique(path, i, w);
      }
    }
  }

  lemma {:induction false} WildIn(path: Path, a: nat, b: nat)
    requires a <= WildAt(path) < b <= |path|
    ensures WildAt(path[a..b]) == WildAt(path) - a
  {
    var w, keys := WildAt(path), path[a..b];
    assert keys[w - a] == WILDCARD_PATH_KEY;
    assert forall i :: 0 <= i < w - a ==> keys[i] == path[a + i];
  }

  /** The parts between two aligned boundaries match the keys between the
      boundaries: alignment is how the request was matched. */
  lemma {:induction false} AlignMatches(path: Path, parts: Path, a: nat, b: nat)
    requires Clean(path) && Matches(path, parts) && a <= b <= |path|
    ensures 0 <= Align(a, path, parts) <= Align(b, path, parts) <= |parts|
    ensures Matches(path[a..b], parts[Align(a, path, parts)..Align(b, path, parts)])
  {
    var w := WildAt(path);
    AlignMonotone(a, b, path, parts);
    if a <= w < b {
      AlignMatchesAcross(path, parts, a, b);
    } else {
      AlignMatchesBeside(path, parts, a, b);
    }
  }

  lemma {:induction false} AlignMatchesBeside(path: Path, parts: Path, a: nat, b: nat)
    requires Clean(path) && Matches(path, parts) && a <= b <= |path| && !(a <= WildAt(path) < b)
    requires 0 <= Align(a, path, parts) <= Align(b, path, parts) <= |parts|
    ensures Matches(path[a..b], parts[Align(a, path, parts)..Align(b, path, parts)])
  {
    var w, lo, hi := WildAt(path), Align(a, path, parts), Align(b, path, parts);
    if a == b {
      assert path[a..b] == [] && parts[lo..hi] == [];
    } else {
      assert hi - lo == b - a;
      forall i | a <= i < b
        ensures Fits(path[i], parts[lo + i - a])
      {
        if b <= w {
          FitsBefore(path, parts, i);
        } else {
          EqualsAfter(path, parts, i);
        }
      }
      NoWildIn(path, a, b);
      MatchesKeyByKey(path[a..b], parts[lo..hi]);
    }
  }

  lemma {:induction false} MatchesKeyByKey(keys: Path, slice: Path)
    requires |keys| == |slice| && WildAt(keys) == |keys|
    requires forall i :: 0 <= i < |keys| ==> Fits(keys[i], slice[i])
    ensures Matches(keys, slice)
  {}

  lemma {:induction false} AlignMatchesAcross(path: Path, parts: Path, a: nat, b: nat)
    requires Clean(path) && Matches(path, parts) && a <= WildAt(path) < b <= |path|
    ensures Align(a, path, parts) == a <= Align(b, path, parts) == |parts| - (|path| - b)
    ensures Matches(path[a..b], parts[a..Align(b, path, parts)])
  {
    var hi := Align(b, path, parts);
    var keys, slice := path[a..b], parts[a..hi];
    AlignMonotone(WildAt(path), b, path, parts);
    WildIn(path, a, b);
    SliceFits(path, parts, a, keys, slice);
    SliceEquals(path, parts, a, keys, slice);
    MatchesIntro(keys, slice);
  }

  lemma {:induction false} SliceFits(path: Path, parts: Path, a: nat, keys: Path, slice: Path)
    requires Matches(path, parts) && a + |keys| <= |path| && a + |slice| <= |parts|
    requires keys == path[a..a + |keys|] && slice == parts[a..a + |slice|]
    requires a + WildAt(keys) == WildAt(path) <= a + |slice|
    ensures forall i :: 0 <= i < WildAt(keys) ==> Fits(keys[i], slice[i])
  {
    forall i | 0 <= i < WildAt(keys)
      ensures Fits(keys[i], slice[i])
    {
      FitsBefore(path, parts, a + i);
    }
  }

  lemma {:induction false} SliceEquals(path: Path, parts: Path, a: nat, keys: Path, slice: Path)
    requires Matches(path, parts) && a + |keys| <= |path| && a + |slice| <= |parts|
    requires keys == path[a..a + |keys|] && slice == parts[a..a + |slice|]
    requires a + WildAt(keys) == WildAt(path) && |path| - |keys| == |parts| - |slice|
    requires |slice| >= |keys| - WildAt(keys) - 1
    ensures forall i :: WildAt(keys) < i < |keys| ==> keys[i] == slice[i - |keys| + |slice|]
  {
    forall i | WildAt(keys) < i < |keys|
      ensures keys[i] == slice[i - |keys| + |slice|]
    {
      EqualsAfter(path, parts, a + i);
    }
  }

  /** The part range the extraction uses and the one the match gives. */
  predicate BoundAsMatched(ht: HttpTemplate, v: VariableInfo, parts: Path) {
    var path := KeyPath(ht);
    && v.start >= 0 && KeyEnd(v, |path|) >= 0
    && v.start == Align(v.start, path, parts)
    && BoundEnd(v, |parts|) == Align(KeyEnd(v, |path|), path, parts)
  }

  /** A variable is bound to the parts its own sub-template matched if and only
      if it starts no later than `**` or `**` took exactly one part (or there is
      no `**`). */
  lemma {:induction false} BoundAsMatchedIff(ht: HttpTemplate, parts: Path, i: nat)
    requires WellPlaced(ht) && Clean(KeyPath(ht)) && Matches(KeyPath(ht), parts)
    requires i < |ht.variables|
    ensures BoundAsMatched(ht, ht.variables[i], parts) <==>
            ht.variables[i].start <= WildAt(KeyPath(ht)) || |parts| == |KeyPath(ht)|
  {
    var path, v := KeyPath(ht), ht.variables[i];
    var w, e := WildAt(path), KeyEnd(v, |path|);
    if v.start <= w < e && w < |ht.segments| {
      assert ht.segments[v.start..e][w - v.start] == WILDCARD_PATH_KEY;
    }
    if v.hasWildcardPath {
      var k := WildWithin(ht.segments, v.start, e);
      WildUnique(path, k, k);
    }
  }

  /** Binding correctness: such a variable's value is the join of a slice of the
      parts that its sub-template matches, between a slice that the keys before
      it match and one that the keys after it match. */
  lemma {:induction false} BindingCorrect(ht: HttpTemplate, parts: Path, i: nat)
    requires WellPlaced(ht) && Clean(KeyPath(ht)) && Matches(KeyPath(ht), parts)
    requires i < |ht.variables|
    requires ht.variables[i].start <= WildAt(KeyPath(ht)) || |parts| == |KeyPath(ht)|
    ensures var path, v := KeyPath(ht), ht.variables[i];
            var lo, e, hi := v.start, KeyEnd(v, |path|), BoundEnd(v, |parts|);
            && 0 <= lo <= hi <= |parts| && lo < e <= |path|
            && Bind(v, parts, true).value == Join(parts[lo..hi])
            && Matches(path[..lo], parts[..lo])
            && Matches(path[lo..e], parts[lo..hi])
            && Matches(path[e..], parts[hi..])
  {
    var path, v := KeyPath(ht), ht.variables[i];
    var lo, e, hi := v.start, KeyEnd(v, |path|), BoundEnd(v, |parts|);
    BoundAsMatchedIff(ht, parts, i);
    AlignEnds(path, parts);
    AlignMatches(path, parts, 0, lo);
    AlignMatches(path, parts, lo, e);
    AlignMatches(path, parts, e, |path|);
    Ends(path, lo, e);
    Ends(parts, lo, hi);
  }

  /** The binding of the variable written at position `j` takes the parts from
      `lo` to `hi`: these match the variable's own sub-template, the parts before
      them match the segments before it, and those after them the segments after
      it and the verb. */
  ghost predicate TakesItsParts(binding: VariableBinding, t: Template, j: nat, parts: Path, lo: int, hi: int) {
    && j < |t.segments| && t.segments[j].Variable? && 0 <= lo <= hi <= |parts|
    && binding == VariableBinding(t.segments[j].fields, Join(parts[lo..hi]))
    && Matches(FlatAll(t.segments[..j]), parts[..lo])
    && Matches(Flat(t.segments[j]), parts[lo..hi])
    && Matches(FlatAll(t.segments[j + 1..]) + VerbKeys(t.verb), parts[hi..])
  }

  /** Binding correctness from the template's text: a variable with no `**` before
      it, or on a request where `**` took one part, gets its own parts. */
  lemma {:induction false} WrittenVariableBound(s: string, parts: Path, k: nat)
    requires TemplateOf(s).Some? && !SpoiltByVerb(TemplateOf(s).value)
    requires Matches(KeyPath(TemplateOf(s).value), parts) && k < |TemplateOf(s).value.variables|
    ensures ParseAll(s).Some?
    ensures var ht, t := TemplateOf(s).value, ParseAll(s).value;
            var v, js := ht.variables[k], VariableIndices(t.segments);
            && |js| == |ht.variables|
            && (WILDCARD_PATH_KEY !in FlatAll(t.segments[..js[k]]) || |parts| == |KeyPath(ht)| ==>
                && InRange(v, |parts|)
                && TakesItsParts(Bind(v, parts, true), t, js[k], parts, v.start, BoundEnd(v, |parts|)))
  {
    var ht := TemplateOf(s).value;
    TemplateWellPlaced(s);
    SearchAgreesIff(s);
    assert s != "/";
    TemplateVariables(s);
    VariableAtBound(ht, ParseAll(s).value, parts, k);
  }

  lemma {:induction false} VariableAtBound(ht: HttpTemplate, t: Template, parts: Path, k: nat)
    requires WellPlaced(ht) && Clean(KeyPath(ht)) && Matches(KeyPath(ht), parts)
    requires KeyPath(ht) == FlatAll(t.segments) + VerbKeys(t.verb)
    requires k < |VariableIndices(t.segments)| == |ht.variables|
    requires IsVariableAt(ht.variables[k], t, VariableIndices(t.segments)[k])
    ensures var v, j := ht.variables[k], VariableIndices(t.segments)[k];
            WILDCARD_PATH_KEY !in FlatAll(t.segments[..j]) || |parts| == |KeyPath(ht)| ==>
              && InRange(v, |parts|)
              && TakesItsParts(Bind(v, parts, true), t, j, parts, v.start, BoundEnd(v, |parts|))
  {
    var path, v, j := KeyPath(ht), ht.variables[k], VariableIndices(t.segments)[k];
    if v.start <= WildAt(path) || |parts| == |path| {
      BindingCorrect(ht, parts, k);
    }
  }

  /** Decoded values: a single part is decoded in full, and a value of several
      parts, or of a `**`, splits on `/` back into its parts decoded but for
      reserved characters. */
  lemma {:induction false} BindDecoded(v: VariableInfo, parts: Path)
    requires InRange(v, |parts|) && AllFree(parts, {'/'})
    ensures var slice, value := parts[v.start..BoundEnd(v, |parts|)], Bind(v, parts, false).value;
            && (slice == [] ==> value == "")
            && (|slice| == 1 && v.end >= 0 ==> value == Unescape(slice[0], true))
            && (slice != [] && (|slice| > 1 || v.end < 0) ==> Split(value) == UnescapeAll(slice, false))
  {
    var slice := parts[v.start..BoundEnd(v, |parts|)];
    if slice != [] && (|slice| > 1 || v.end < 0) {
      assert IsMultipart(v, |parts|) && AllFree(slice, {'/'});
      MultipartSplits(slice);
    }
  }

  /** Not so for a variable after `**`: with `**` before `{x=foo}`, the request
      a/b/foo binds x to b. */
  lemma LateVariableMisbound(s: string)
    requires s == "/**/{x=foo}"
    ensures TemplateOf(s) == Some(HttpTemplate(["**", "foo"], "", [VariableInfo(1, 2, ["x"], false)]))
    ensures Matches(["**", "foo"], ["a", "b", "foo"])
    ensures Bind(VariableInfo(1, 2, ["x"], false), ["a", "b", "foo"], true).value == "b"
  {
    var v := Variable(["x"], [Literal("foo")]);
    var t := Template([StarStar, v], "");
    LateVariablePrinted(v);
    LateVariableMeaning(v);
    AcceptsExactlyPrinted(s, t);
    LateVariableBound();
  }

  lemma {:induction false} LateVariableBound()
    ensures Matches(["**", "foo"], ["a", "b", "foo"])
    ensures Bind(VariableInfo(1, 2, ["x"], false), ["a", "b", "foo"], true).value == "b"
  {
    assert ["a", "b", "foo"][2..] == ["foo"] && ["**", "foo"][1..] == ["foo"];
    assert ["a", "b", "foo"][1..2] == ["b"];
  }

  lemma {:induction false} LateVariablePrinted(v: Segment)
    requires v == Variable(["x"], [Literal("foo")])
    ensures Print(Template([StarStar, v], "")) == "/**/{x=foo}"
  {
    assert PrintFields(["x"]) == "x" && PrintSegments([Literal("foo")]) == "foo";
    assert PrintSegment(v) == "{x=foo}";
    assert [StarStar, v][1..] == [v] && PrintSegments([v]) == "{x=foo}";
    assert PrintSegments([StarStar, v]) == "**/{x=foo}";
  }

  lemma {:induction false} LateVariableMeaning(v: Segment)
    requires v == Variable(["x"], [Literal("foo")])
    ensures ValidTemplate(Template([StarStar, v], "")) && Shape(FlatAll([StarStar, v]))
    ensures Meaning(Template([StarStar, v], ""))
         == HttpTemplate(["**", "foo"], "", [VariableInfo(1, 2, ["x"], false)])
  {
    LateVariableKeys(v);
    var info := VariableInfo(1, 2, ["x"], false);
    assert AllFromEnd([info], 2, "") == [info];
    assert ValidSegment(v, false);
  }

  lemma {:induction false} LateVariableKeys(v: Segment)
    requires v == Variable(["x"], [Literal("foo")])
    ensures FlatAll([StarStar, v]) == ["**", "foo"]
    ensures AllVariables([StarStar, v], 0) == [VariableInfo(1, 2, ["x"], false)]
  {
    assert [Literal("foo")][..0] == [] && FlatAll([Literal("foo")]) == ["foo"];
    assert [StarStar][..0] == [] && FlatAll([StarStar]) == ["**"] && AllVariables([StarStar], 0) == [];
    var segments := [StarStar, v];
    assert segments[..1] == [StarStar];
  }
}
