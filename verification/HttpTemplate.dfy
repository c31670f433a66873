/** What a template means to the path matcher: its key segments, its verb and
    the segment ranges its variables bind. */
module HttpTemplates {

  import opened Wrappers
  import opened PathTrie
  import opened TemplateGrammar

  /** `HttpTemplate::Variable`.  A negative `end` counts from the end of the
      request's parts, -1 being the end itself. */
  datatype VariableInfo =
    VariableInfo(start: int, end: int, fields: seq<string>, hasWildcardPath: bool)

  datatype HttpTemplate =
    HttpTemplate(segments: Path, verb: string, variables: seq<VariableInfo>)

  /** The keys a piece of syntax contributes; `{f}` stands for `{f=*}`. */
  function Flat(segment: Segment): Path {
    match segment
    case Star => [WILDCARD_PART_KEY]
    case StarStar => [WILDCARD_PATH_KEY]
    case Literal(text) => [text]
    case Variable(_, pattern) => if pattern == [] then [WILDCARD_PART_KEY] else FlatAll(pattern)
  }

  function FlatAll(segments: seq<Segment>): Path {
    if segments == [] then []
    else FlatAll(segments[..|segments| - 1]) + Flat(segments[|segments| - 1])
  }

  /** The variables of the syntax, placed from key position `base` on. */
  function VariablesOf(segment: Segment, base: nat): seq<VariableInfo> {
    if segment.Variable?
    then [VariableInfo(base, base + |Flat(segment)|, segment.fields, StarStar in segment.pattern)]
    else []
  }

  function AllVariables(segments: seq<Segment>, base: nat): seq<VariableInfo> {
    if segments == [] then []
    else
      var init := segments[..|segments| - 1];
      AllVariables(init, base) + VariablesOf(segments[|segments| - 1], base + |FlatAll(init)|)
  }

  /** A variable with `**` has its end made relative to the end of the keys, the
      verb included. */
  function FromEnd(v: VariableInfo, segments: nat, verb: string): VariableInfo {
    if v.hasWildcardPath
    then v.(end := v.end - segments - 1 - (if verb == "" then 0 else 1))
    else v
  }

  function AllFromEnd(vs: seq<VariableInfo>, segments: nat, verb: string): seq<VariableInfo> {
    seq(|vs|, i requires 0 <= i < |vs| => FromEnd(vs[i], segments, verb))
  }

  function Meaning(t: Template): HttpTemplate {
    var keys := FlatAll(t.segments);
    HttpTemplate(keys, t.verb, AllFromEnd(AllVariables(t.segments, 0), |keys|, t.verb))
  }

  /** The template of a string, if it has one. */
  function TemplateOf(s: string): Option<HttpTemplate> {
    if s == "/" then Some(HttpTemplate([], "", []))
    else
      var t := ParseAll(s);
      if t.Some? && Shape(FlatAll(t.value.segments)) then Some(Meaning(t.value)) else None
  }

  /** The key path the template is stored under: `TransformHttpTemplate`. */
  function KeyPath(ht: HttpTemplate): Path {
    if ht.verb == "" then ht.segments else ht.segments + [ht.verb]
  }

  // ---------------------------------------------------------------------------
  // Properties
  // ---------------------------------------------------------------------------

  lemma {:induction false} FlatNonEmpty(segment: Segment)
    ensures Flat(segment) != []
  {
    if segment.Variable? && segment.pattern != [] {
      FlatNonEmpty(segment.pattern[|segment.pattern| - 1]);
    }
  }

  /** The accepted strings are `/` and the printed forms of well-formed syntax
      with constants only after `**`, and each means what its syntax means. */
  lemma AcceptsExactlyPrinted(s: string, t: Template)
    requires s != "/"
    ensures TemplateOf(s).Some? <==>
            exists u :: ValidTemplate(u) && Print(u) == s && Shape(FlatAll(u.segments))
    ensures ValidTemplate(t) && Print(t) == s && Shape(FlatAll(t.segments)) ==>
            TemplateOf(s) == Some(Meaning(t))
  {
    if ParseAll(s).Some? {
      ParseInvertsPrint(s, ParseAll(s).value);
    }
    forall u | ValidTemplate(u) && Print(u) == s
      ensures ParseAll(s) == Some(u)
    {
      ParseInvertsPrint(s, u);
    }
  }

  /** Where parsed variables lie before their ends are made relative. */
  ghost predicate PlacedOne(v: VariableInfo, keys: Path, base: nat) {
    && base <= v.start < v.end <= base + |keys|
    && v.fields != []
    && (v.hasWildcardPath <==> WILDCARD_PATH_KEY in keys[v.start - base..v.end - base])
  }

  ghost predicate Placed(vs: seq<VariableInfo>, keys: Path, base: nat) {
    && (forall i :: 0 <= i < |vs| ==> PlacedOne(vs[i], keys, base))
    && (forall i, j :: 0 <= i < j < |vs| ==> vs[i].end <= vs[j].start)
  }

  lemma {:induction false} FlatWild(segments: seq<Segment>)
    requires ValidSegments(segments, true)
    ensures WILDCARD_PATH_KEY in FlatAll(segments) <==> StarStar in segments
  {
    if segments != [] {
      var init, last := segments[..|segments| - 1], segments[|segments| - 1];
      FlatWild(init);
      assert segments == init + [last];
      assert last.Literal? ==> last.text[0] != '*' && WILDCARD_PATH_KEY[0] == '*';
    }
  }

  lemma {:induction false} VariablesPlaced(segments: seq<Segment>, base: nat)
    requires ValidSegments(segments, false)
    ensures Placed(AllVariables(segments, base), FlatAll(segments), base)
  {
    if segments != [] {
      var init, last := segments[..|segments| - 1], segments[|segments| - 1];
      VariablesPlaced(init, base);
      assert ValidSegment(last, false);
      var keys, vs := FlatAll(init), AllVariables(init, base);
      PlacedGrows(vs, keys, Flat(last), base);
      if last.Variable? {
        LastPlaced(last, keys, base);
        PlacedAppend(vs, VariablesOf(last, base + |keys|)[0], keys, Flat(last), base);
      } else {
        assert vs + [] == vs;
      }
    }
  }

  lemma {:induction false} PlacedAppend(vs: seq<VariableInfo>, v: VariableInfo, keys: Path, more: Path, base: nat)
    requires Placed(vs, keys, base) && Placed(vs, keys + more, base)
    requires PlacedOne(v, keys + more, base) && v.start == base + |keys|
    ensures Placed(vs + [v], keys + more, base)
  {
    forall i | 0 <= i < |vs|
      ensures vs[i].end <= v.start
    {
      assert PlacedOne(vs[i], keys, base);
    }
  }

  lemma {:induction false} PlacedGrows(vs: seq<VariableInfo>, keys: Path, more: Path, base: nat)
    requires Placed(vs, keys, base)
    ensures Placed(vs, keys + more, base)
  {
    forall i | 0 <= i < |vs|
      ensures PlacedOne(vs[i], keys + more, base)
    {
      assert keys[vs[i].start - base..vs[i].end - base]
          == (keys + more)[vs[i].start - base..vs[i].end - base];
    }
  }

  lemma LastPlaced(last: Segment, keys: Path, base: nat)
    requires last.Variable? && ValidSegment(last, false)
    ensures PlacedOne(VariablesOf(last, base + |keys|)[0], keys + Flat(last), base)
  {
    FlatNonEmpty(last);
    assert (keys + Flat(last))[|keys|..|keys| + |Flat(last)|] == Flat(last);
    if last.pattern != [] {
      FlatWild(last.pattern);
    }
  }

  /** The positions of the variables in the syntax, in order. */
  function VariableIndices(segments: seq<Segment>): (js: seq<nat>)
    ensures forall i :: 0 <= i < |js| ==> js[i] < |segments| && segments[js[i]].Variable?
  {
    if segments == [] then []
    else
      VariableIndices(segments[..|segments| - 1])
      + (if segments[|segments| - 1].Variable? then [|segments| - 1] else [])
  }

  /** Every variable written is among them, and none twice. */
  lemma {:induction false} VariableIndicesComplete(segments: seq<Segment>)
    ensures var js := VariableIndices(segments);
            && (forall j: nat :: j in js <==> j < |segments| && segments[j].Variable?)
            && (forall i, k :: 0 <= i < k < |js| ==> js[i] < js[k])
  {
    if segments != [] {
      VariableIndicesComplete(segments[..|segments| - 1]);
    }
  }

  /** A recorded variable is the one written at position `j`: its field path, and
      from the keys before it to the keys including it. */
  predicate IsWritten(v: VariableInfo, segments: seq<Segment>, j: nat, base: nat) {
    && j < |segments| && segments[j].Variable? && v.fields == segments[j].fields
    && v.hasWildcardPath == (StarStar in segments[j].pattern)
    && v.start == base + |FlatAll(segments[..j])|
    && v.end == v.start + |Flat(segments[j])|
  }

  lemma {:induction false} VariablesAreWritten(segments: seq<Segment>, base: nat)
    ensures var vs, js := AllVariables(segments, base), VariableIndices(segments);
            && |vs| == |js|
            && forall i :: 0 <= i < |vs| ==> IsWritten(vs[i], segments, js[i], base)
  {
    if segments != [] {
      var n := |segments| - 1;
      var init, vs, js := segments[..n], AllVariables(segments, base), VariableIndices(segments);
      VariablesAreWritten(init, base);
      forall i | 0 <= i < |vs|
        ensures IsWritten(vs[i], segments, js[i], base)
      {
        if i < |AllVariables(init, base)| {
          assert init[..js[i]] == segments[..js[i]];
        }
      }
    }
  }

  lemma {:induction false} FlatAllAppend(front: seq<Segment>, back: seq<Segment>)
    ensures FlatAll(front + back) == FlatAll(front) + FlatAll(back)
  {
    if back == [] {
      assert front + back == front && FlatAll(front) + [] == FlatAll(front);
    } else {
      var n, all := |back| - 1, front + back;
      assert all[..|all| - 1] == front + back[..n];
      FlatAllAppend(front, back[..n]);
      KeysRegroup(FlatAll(front), FlatAll(back[..n]), Flat(back[n]));
    }
  }

  lemma KeysRegroup(a: Path, b: Path, c: Path)
    ensures (a + b) + c == a + (b + c)
  {}

  /** The keys of the syntax are those before, of and after any one segment. */
  lemma {:induction false} FlatAround(segments: seq<Segment>, j: nat)
    requires j < |segments|
    ensures FlatAll(segments) == FlatAll(segments[..j]) + Flat(segments[j]) + FlatAll(segments[j + 1..])
  {
    var upto := segments[..j + 1];
    assert upto[..j] == segments[..j] && upto + segments[j + 1..] == segments;
    FlatAllAppend(upto, segments[j + 1..]);
  }

  function VerbKeys(verb: string): Path {
    if verb == "" then [] else [verb]
  }

  /** A variable of a template is the one written at position `j` of its syntax.
      It starts after the keys before it.  Without `**` it ends after its own
      keys; with `**` its end is the number of keys after it, the verb included,
      negated, less one.  Its range of the key path is exactly its own keys. */
  ghost predicate IsVariableAt(v: VariableInfo, t: Template, j: nat) {
    && j < |t.segments| && t.segments[j].Variable? && v.fields == t.segments[j].fields
    && v.hasWildcardPath == (StarStar in t.segments[j].pattern)
    && v.start == |FlatAll(t.segments[..j])|
    && v.end == (if v.hasWildcardPath then -|FlatAll(t.segments[j + 1..]) + VerbKeys(t.verb)| - 1
                 else v.start + |Flat(t.segments[j])|)
    && var path := FlatAll(t.segments) + VerbKeys(t.verb);
       var e := KeyEnd(v, |path|);
       && v.start < e <= |path|
       && path[..v.start] == FlatAll(t.segments[..j])
       && path[v.start..e] == Flat(t.segments[j])
       && path[e..] == FlatAll(t.segments[j + 1..]) + VerbKeys(t.verb)
  }

  lemma {:induction false} WrittenFromEnd(v: VariableInfo, t: Template, j: nat)
    requires IsWritten(v, t.segments, j, 0)
    ensures IsVariableAt(FromEnd(v, |FlatAll(t.segments)|, t.verb), t, j)
  {
    var front, own, back := FlatAll(t.segments[..j]), Flat(t.segments[j]), FlatAll(t.segments[j + 1..]);
    FlatAround(t.segments, j);
    FlatNonEmpty(t.segments[j]);
    Pieces(front, own, back + VerbKeys(t.verb));
    assert FlatAll(t.segments) + VerbKeys(t.verb) == front + own + (back + VerbKeys(t.verb));
  }

  lemma Pieces(a: Path, b: Path, c: Path)
    ensures var s := a + b + c;
            s[..|a|] == a && s[|a|..|a| + |b|] == b && s[|a| + |b|..] == c
  {}

  /** The variables of an accepted template are those written in it, in order. */
  lemma {:induction false} TemplateVariables(s: string)
    requires s != "/" && TemplateOf(s).Some?
    ensures ParseAll(s).Some?
    ensures var ht, t := TemplateOf(s).value, ParseAll(s).value;
            var js := VariableIndices(t.segments);
            && KeyPath(ht) == FlatAll(t.segments) + VerbKeys(t.verb)
            && |ht.variables| == |js|
            && forall i :: 0 <= i < |js| ==> IsVariableAt(ht.variables[i], t, js[i])
  {
    MeaningVariables(ParseAll(s).value);
  }

  lemma {:induction false} MeaningVariables(t: Template)
    ensures var ht, js := Meaning(t), VariableIndices(t.segments);
            && KeyPath(ht) == FlatAll(t.segments) + VerbKeys(t.verb)
            && |ht.variables| == |js|
            && forall i :: 0 <= i < |js| ==> IsVariableAt(ht.variables[i], t, js[i])
  {
    var vs, js := AllVariables(t.segments, 0), VariableIndices(t.segments);
    VariablesAreWritten(t.segments, 0);
    forall i | 0 <= i < |js|
      ensures IsVariableAt(Meaning(t).variables[i], t, js[i])
    {
      WrittenFromEnd(vs[i], t, js[i]);
    }
  }

  /** The parsed variables are in order, disjoint, non-empty and inside the keys.
      Exactly those with `**` have a negative end; with constants only after `**`
      there is at most one such variable. */
  ghost predicate WellPlaced(ht: HttpTemplate) {
    var vs, n := ht.variables, |KeyPath(ht)|;
    && (forall i :: 0 <= i < |vs| ==>
          && 0 <= vs[i].start < KeyEnd(vs[i], n) <= |ht.segments|
          && vs[i].fields != []
          && (vs[i].hasWildcardPath <==> vs[i].end < 0)
          && (vs[i].hasWildcardPath <==>
              WILDCARD_PATH_KEY in ht.segments[vs[i].start..KeyEnd(vs[i], n)]))
    && (forall i, j :: 0 <= i < j < |vs| ==>
          && KeyEnd(vs[i], n) <= vs[j].start
          && !(vs[i].hasWildcardPath && vs[j].hasWildcardPath))
  }

  /** The key position a variable ends at, in a key path of `n` keys. */
  function KeyEnd(v: VariableInfo, n: nat): int {
    if v.end < 0 then v.end + n + 1 else v.end
  }

  lemma WildUnique(path: Path, i: nat, j: nat)
    requires Clean(path) && i < |path| && j < |path|
    requires path[i] == WILDCARD_PATH_KEY && path[j] == WILDCARD_PATH_KEY
    ensures i == j == WildAt(path)
  {
    var w := WildAt(path);
    forall k | w < k < |path|
      ensures path[k] != WILDCARD_PATH_KEY
    {
      var after := path[w + 1..];
      assert path[k] == after[k - w - 1];
      assert k > w + 1 ==> after[k - w - 1] == after[1..][k - w - 2];
    }
  }

  lemma TemplateWellPlaced(s: string)
    requires TemplateOf(s).Some?
    ensures WellPlaced(TemplateOf(s).value) && Shape(TemplateOf(s).value.segments)
  {
    if s != "/" {
      var t := ParseAll(s).value;
      ParseInvertsPrint(s, t);
      VariablesPlaced(t.segments, 0);
      var ht, vs, keys := TemplateOf(s).value, AllVariables(t.segments, 0), FlatAll(t.segments);
      forall i | 0 <= i < |vs|
        ensures ht.variables[i] == FromEnd(vs[i], |keys|, t.verb)
        ensures KeyEnd(ht.variables[i], |KeyPath(ht)|) == vs[i].end
      {
        assert PlacedOne(vs[i], keys, 0);
      }
      forall i, j | 0 <= i < j < |vs|
        ensures !(vs[i].hasWildcardPath && vs[j].hasWildcardPath)
      {
        ShapeClean(keys);
        OneWild(vs[i], vs[j], keys);
      }
    }
  }

  lemma OneWild(v: VariableInfo, u: VariableInfo, keys: Path)
    requires PlacedOne(v, keys, 0) && PlacedOne(u, keys, 0) && v.end <= u.start && Clean(keys)
    ensures !(v.hasWildcardPath && u.hasWildcardPath)
  {
    if v.hasWildcardPath && u.hasWildcardPath {
      var a := WildWithin(keys, v.start, v.end);
      var b := WildWithin(keys, u.start, u.end);
      WildUnique(keys, a, b);
    }
  }

  lemma WildWithin(keys: Path, lo: nat, hi: nat) returns (k: nat)
    requires lo <= hi <= |keys| && WILDCARD_PATH_KEY in keys[lo..hi]
    ensures lo <= k < hi && keys[k] == WILDCARD_PATH_KEY
  {
    var i :| 0 <= i < hi - lo && keys[lo..hi][i] == WILDCARD_PATH_KEY;
    k := lo + i;
  }

  /** The verb is not validated.  It spoils a template with a `**` segment if it
      is `**`, or if it is `*` and constants stand between the two. */
  predicate SpoiltByVerb(ht: HttpTemplate) {
    && WILDCARD_PATH_KEY in ht.segments
    && (ht.verb == WILDCARD_PATH_KEY ||
        (ht.verb == WILDCARD_PART_KEY && ht.segments[|ht.segments| - 1] != WILDCARD_PATH_KEY))
  }

  /** Exactly the templates not spoilt by their verb are found by the search on
      the requests they match and on no others. */
  lemma {:induction false} SearchAgreesIff(s: string)
    requires TemplateOf(s).Some?
    ensures var ht := TemplateOf(s).value;
            && (Clean(KeyPath(ht)) <==> !SpoiltByVerb(ht))
            && ((forall parts :: Reaches(false, KeyPath(ht), parts) <==> Matches(KeyPath(ht), parts))
                <==> !SpoiltByVerb(ht))
  {
    var ht := TemplateOf(s).value;
    TemplateWellPlaced(s);
    VerbIsNoParameter(s);
    CleanIff(ht);
    ReachesMatchesIff(KeyPath(ht));
  }

  lemma {:induction false} VerbIsNoParameter(s: string)
    requires TemplateOf(s).Some?
    ensures TemplateOf(s).value.verb != SINGLE_PARAMETER_KEY
  {
    if s != "/" {
      ParseInvertsPrint(s, ParseAll(s).value);
      assert SINGLE_PARAMETER_KEY[0] == '/';
    }
  }

  lemma {:induction false} CleanIff(ht: HttpTemplate)
    requires Shape(ht.segments) && ht.verb != SINGLE_PARAMETER_KEY
    ensures Clean(KeyPath(ht)) <==> !SpoiltByVerb(ht)
  {
    var w := WildAt(ht.segments);
    if ht.verb == "" {
      ShapeClean(ht.segments);
    } else if w < |ht.segments| {
      assert ht.segments[w] == WILDCARD_PATH_KEY;
      CleanAfterWild(ht.segments, ht.verb);
      assert w < |ht.segments| - 1 ==> IsConstant(ht.segments[|ht.segments| - 1]) by {
        var after := ht.segments[w + 1..];
        assert after != [] ==> after[|after| - 1] == ht.segments[|ht.segments| - 1];
      }
    } else {
      CleanWithoutWild(ht.segments, ht.verb);
    }
  }

  lemma {:induction false} CleanAfterWild(keys: Path, verb: string)
    requires Shape(keys) && WildAt(keys) < |keys|
    ensures Clean(keys + [verb]) <==>
            if WildAt(keys) == |keys| - 1 then verb != WILDCARD_PATH_KEY else IsConstant(verb)
  {
    var w, path := WildAt(keys), keys + [verb];
    assert forall i :: 0 <= i < |keys| ==> path[i] == keys[i];
    assert WildAt(path) == w;
    assert path[w + 1..] == keys[w + 1..] + [verb];
    SearchableSnoc(keys[w + 1..], verb);
  }

  lemma {:induction false} CleanWithoutWild(keys: Path, verb: string)
    requires WildAt(keys) == |keys|
    ensures Clean(keys + [verb])
  {
    var path := keys + [verb];
    assert forall i :: 0 <= i < |keys| ==> path[i] == keys[i] != WILDCARD_PATH_KEY;
    assert WildAt(path) >= |keys|;
  }

  lemma {:induction false} SearchableSnoc(constants: Path, verb: string)
    requires AllConstant(constants)
    ensures Searchable(constants + [verb]) <==>
            if constants == [] then verb != WILDCARD_PATH_KEY else IsConstant(verb)
  {
    var after := constants + [verb];
    if constants != [] {
      assert after[1..] == constants[1..] + [verb];
      assert after[1..][|constants| - 1] == verb;
    }
  }

  /** The template with segment `**` and verb `**` is accepted, and its search
      ends on requests that its key path, read as `**` and a constant, does not
      match. */
  lemma VerbWildcardMatchesMore(s: string)
    requires s == "/**:**"
    ensures TemplateOf(s) == Some(HttpTemplate(["**"], "**", []))
    ensures Reaches(false, ["**", "**"], ["a"]) && !Matches(["**", "**"], ["a"])
  {
    var t := Template([StarStar], "**");
    VerbWildcardSyntax(t);
    AcceptsExactlyPrinted(s, t);
    VerbWildcardReaches();
  }

  lemma {:induction false} VerbWildcardSyntax(t: Template)
    requires t == Template([StarStar], "**")
    ensures ValidTemplate(t) && Print(t) == "/**:**" && Shape(FlatAll(t.segments))
    ensures Meaning(t) == HttpTemplate(["**"], "**", [])
  {
    assert PrintSegments(t.segments) == "**" && PrintVerb(t.verb) == ":**";
    assert t.segments[..0] == [] && FlatAll(t.segments) == ["**"] && AllVariables(t.segments, 0) == [];
    assert AllFromEnd([], 1, "**") == [];
  }

  lemma {:induction false} VerbWildcardReaches()
    ensures Reaches(false, ["**", "**"], ["a"]) && !Matches(["**", "**"], ["a"])
  {
    assert ["**", "**"][1..] == ["**"] && ["a"][1..] == [];
    assert Reaches(true, ["**"], []);
  }

  // ---------------------------------------------------------------------------
  // A field path alone stands for one part
  // ---------------------------------------------------------------------------

  /** `{f}` written out as `{f=*}`. */
  function WrittenOut(segment: Segment): Segment {
    if segment.Variable? && segment.pattern == [] then Variable(segment.fields, [Star]) else segment
  }

  function AllWrittenOut(segments: seq<Segment>): seq<Segment> {
    seq(|segments|, i requires 0 <= i < |segments| => WrittenOut(segments[i]))
  }

  lemma {:induction false} WrittenOutOne(segment: Segment, base: nat)
    ensures Flat(WrittenOut(segment)) == Flat(segment)
    ensures VariablesOf(WrittenOut(segment), base) == VariablesOf(segment, base)
  {
    assert [Star][..0] == [] && FlatAll([Star]) == ["*"];
  }

  lemma {:induction false} WrittenOutKeys(segments: seq<Segment>)
    ensures FlatAll(AllWrittenOut(segments)) == FlatAll(segments)
  {
    if segments != [] {
      var n, out := |segments| - 1, AllWrittenOut(segments);
      WrittenOutKeys(segments[..n]);
      assert out[..n] == AllWrittenOut(segments[..n]) && out[n] == WrittenOut(segments[n]) && |out| == n + 1;
      WrittenOutOne(segments[n], 0);
    }
  }

  lemma {:induction false} WrittenOutVariables(segments: seq<Segment>, base: nat)
    ensures AllVariables(AllWrittenOut(segments), base) == AllVariables(segments, base)
  {
    if segments != [] {
      var n, out := |segments| - 1, AllWrittenOut(segments);
      WrittenOutVariables(segments[..n], base);
      WrittenOutKeys(segments[..n]);
      assert out[..n] == AllWrittenOut(segments[..n]) && out[n] == WrittenOut(segments[n]) && |out| == n + 1;
      WrittenOutOne(segments[n], base + |FlatAll(segments[..n])|);
    }
  }

  /** Every template means what it means written out, and so do the texts. */
  lemma {:induction false} FieldPathMeansStar(t: Template)
    ensures Meaning(t.(segments := AllWrittenOut(t.segments))) == Meaning(t)
    ensures ValidTemplate(t) ==>
              TemplateOf(Print(t.(segments := AllWrittenOut(t.segments)))) == TemplateOf(Print(t))
  {
    var u := t.(segments := AllWrittenOut(t.segments));
    WrittenOutKeys(t.segments);
    WrittenOutVariables(t.segments, 0);
    if ValidTemplate(t) {
      forall i | 0 <= i < |u.segments|
        ensures ValidSegment(u.segments[i], false)
      {
        assert ValidSegment(t.segments[i], false);
      }
      TemplateOfPrinted(t);
      TemplateOfPrinted(u);
    }
  }

  lemma {:induction false} TemplateOfPrinted(t: Template)
    requires ValidTemplate(t)
    ensures TemplateOf(Print(t)) == if Shape(FlatAll(t.segments)) then Some(Meaning(t)) else None
  {
    ParseInvertsPrint(Print(t), t);
    PrintedIsNotRoot(t);
  }

  lemma {:induction false} PrintedIsNotRoot(t: Template)
    requires ValidTemplate(t)
    ensures Print(t) != "/"
  {
    assert ValidSegment(t.segments[0], false);
    assert PrintSegment(t.segments[0]) != "";
    assert PrintSegments(t.segments) != "";
  }

  // ---------------------------------------------------------------------------
  // Some texts and their templates, character by character
  // ---------------------------------------------------------------------------

  predicate IsFieldName(id: string) {
    id != "" && forall i :: 0 <= i < |id| ==> id[i] != '.' && id[i] != '}' && id[i] != '='
  }

  predicate IsVerbText(verb: string) {
    verb != "" && forall i :: 0 <= i < |verb| ==> verb[i] != '/' && verb[i] != ':' && verb[i] != '}'
  }

  predicate IsLiteralText(text: string) {
    IsVerbText(text) && text[0] != '*' && text[0] != '{'
  }

  /** The root is a template without segments. */
  lemma {:induction false} RootText(s: string)
    requires s == "/"
    ensures TemplateOf(s) == Some(HttpTemplate([], "", []))
  {}

  /** A field name in braces takes one part, whatever characters are in it but the
      three that end it. */
  lemma {:induction false} FieldText(id: string)
    requires IsFieldName(id)
    ensures TemplateOf("/{" + id + "}") == Some(HttpTemplate(["*"], "", [VariableInfo(0, 1, [id], false)]))
  {
    var v := Variable([id], []);
    var t := Template([v], "");
    FieldTextMeaning(v, id);
    assert Print(t) == "/{" + id + "}" by {
      assert PrintSegment(v) == "{" + id + "" + "}" && PrintSegments([v]) == PrintSegment(v);
    }
    assert ValidSegment(v, false);
    TemplateOfPrinted(t);
  }

  lemma {:induction false} FieldTextMeaning(v: Segment, id: string)
    requires v == Variable([id], [])
    ensures FlatAll([v]) == ["*"] && Meaning(Template([v], "")) == HttpTemplate(["*"], "", [VariableInfo(0, 1, [id], false)])
  {
    assert [v][..0] == [] && FlatAll([v]) == ["*"];
    var info := VariableInfo(0, 1, [id], false);
    assert AllVariables([v], 0) == [info] && AllFromEnd([info], 1, "") == [info];
  }

  /** A literal is its own key, and a verb is kept apart from it. */
  lemma {:induction false} LiteralText(text: string, verb: string)
    requires IsLiteralText(text)
    ensures TemplateOf("/" + text) == Some(HttpTemplate([text], "", []))
    ensures IsVerbText(verb) ==> TemplateOf("/" + text + ":" + verb) == Some(HttpTemplate([text], verb, []))
  {
    LiteralTextOf(text, "");
    assert "/" + text + "" == "/" + text;
    if IsVerbText(verb) {
      LiteralTextOf(text, verb);
      assert "/" + text + (":" + verb) == "/" + text + ":" + verb;
    }
  }

  lemma {:induction false} LiteralTextOf(text: string, verb: string)
    requires IsLiteralText(text) && (verb == "" || IsVerbText(verb))
    ensures TemplateOf("/" + text + PrintVerb(verb)) == Some(HttpTemplate([text], verb, []))
  {
    var t := Template([Literal(text)], verb);
    LiteralMeaning(text, verb, t);
    TemplateOfPrinted(t);
  }

  lemma {:induction false} LiteralMeaning(text: string, verb: string, t: Template)
    requires IsLiteralText(text) && (verb == "" || IsVerbText(verb)) && t == Template([Literal(text)], verb)
    ensures ValidTemplate(t) && Print(t) == "/" + text + PrintVerb(verb)
    ensures Shape(FlatAll(t.segments)) && Meaning(t) == HttpTemplate([text], verb, [])
  {
    assert ValidSegment(t.segments[0], false);
    assert PrintSegments(t.segments) == text;
    assert t.segments[..0] == [] && FlatAll(t.segments) == FlatAll([]) + Flat(t.segments[0]) == [text];
    assert AllVariables(t.segments, 0) == AllVariables([], 0) + VariablesOf(t.segments[0], 0) == [];
    assert AllFromEnd([], 1, verb) == [];
    OneKeyShape([text]);
  }

  lemma {:induction false} OneKeyShape(keys: Path)
    requires |keys| == 1
    ensures Shape(keys)
  {
    assert keys[1..] == [];
  }

  /** All the punctuation at once. */
  lemma {:induction false} PatternText(text: string, a: string, b: string, inner: string, verb: string)
    requires IsLiteralText(text) && IsFieldName(a) && IsFieldName(b) && IsLiteralText(inner) && IsVerbText(verb)
    ensures var variable := "{" + (a + "." + b) + ("=" + (inner + "/" + "**")) + "}";
            TemplateOf("/" + (text + "/" + variable) + (":" + verb))
            == Some(HttpTemplate([text, inner, "**"], verb, [VariableInfo(1, -2, [a, b], true)]))
  {
    var v := Variable([a, b], [Literal(inner), StarStar]);
    PatternPrinted(text, a, b, inner, v);
    PatternMeaning(text, a, b, inner, verb, v);
    TemplateOfPrinted(Template([Literal(text), v], verb));
  }

  lemma {:induction false} PatternPrinted(text: string, a: string, b: string, inner: string, v: Segment)
    requires v == Variable([a, b], [Literal(inner), StarStar])
    ensures PrintSegments([Literal(text), v]) == text + "/" + ("{" + (a + "." + b) + ("=" + (inner + "/" + "**")) + "}")
  {
    assert [a, b][1..] == [b] && PrintFields([b]) == b && PrintFields([a, b]) == a + "." + b;
    var pattern := [Literal(inner), StarStar];
    assert pattern[1..] == [StarStar] && PrintSegments([StarStar]) == "**";
    assert PrintSegments(pattern) == inner + "/" + "**";
    assert [Literal(text), v][1..] == [v] && PrintSegments([v]) == PrintSegment(v);
  }

  lemma {:induction false} PatternMeaning(text: string, a: string, b: string, inner: string, verb: string, v: Segment)
    requires v == Variable([a, b], [Literal(inner), StarStar])
    requires IsLiteralText(text) && IsFieldName(a) && IsFieldName(b) && IsLiteralText(inner) && IsVerbText(verb)
    ensures ValidTemplate(Template([Literal(text), v], verb)) && Shape(FlatAll([Literal(text), v]))
    ensures Meaning(Template([Literal(text), v], verb))
         == HttpTemplate([text, inner, "**"], verb, [VariableInfo(1, -2, [a, b], true)])
  {
    PatternKeys(text, inner, v);
    PatternValid(text, a, b, inner, verb, v);
    var info, end := VariableInfo(1, 3, [a, b], true), VariableInfo(1, -2, [a, b], true);
    assert AllFromEnd([info], 3, verb) == [end];
    LastWildShape([text, inner, "**"]);
  }

  lemma {:induction false} PatternValid(text: string, a: string, b: string, inner: string, verb: string, v: Segment)
    requires v == Variable([a, b], [Literal(inner), StarStar])
    requires IsLiteralText(text) && IsFieldName(a) && IsFieldName(b) && IsLiteralText(inner) && IsVerbText(verb)
    ensures ValidTemplate(Template([Literal(text), v], verb)) && text != "**" && inner != "**"
  {
    assert ValidSegment(Literal(inner), true) && ValidSegment(StarStar, true) && ValidSegment(v, false);
    assert text[0] != '*' && inner[0] != '*' && "**"[0] == '*';
  }

  lemma {:induction false} LastWildShape(keys: Path)
    requires |keys| == 3 && keys[0] != "**" && keys[1] != "**" && keys[2] == "**"
    ensures Shape(keys)
  {
    assert WildAt(keys) == 2;
  }

  lemma {:induction false} PatternKeys(text: string, inner: string, v: Segment)
    requires v.Variable? && v.pattern == [Literal(inner), StarStar]
    ensures FlatAll([Literal(text), v]) == [text, inner, "**"]
    ensures AllVariables([Literal(text), v], 0) == [VariableInfo(1, 3, v.fields, true)]
  {
    var pattern, segments := v.pattern, [Literal(text), v];
    FlatTwo(pattern, Literal(inner), StarStar);
    assert pattern[1] == StarStar;
    assert Flat(v) == [inner, "**"];
    FlatTwo(segments, Literal(text), v);
    assert segments[..1] == [Literal(text)];
    FlatOne(Literal(text));
    assert AllVariables(segments, 0) == AllVariables([Literal(text)], 0) + VariablesOf(v, 1);
  }

  lemma {:induction false} FlatOne(a: Segment)
    ensures FlatAll([a]) == Flat(a) && AllVariables([a], 0) == VariablesOf(a, 0)
  {
    assert [a][..0] == [] && FlatAll([]) + Flat(a) == Flat(a);
  }

  lemma {:induction false} FlatTwo(segments: seq<Segment>, a: Segment, b: Segment)
    requires segments == [a, b]
    ensures FlatAll(segments) == Flat(a) + Flat(b)
  {
    assert segments[..1] == [a];
    FlatOne(a);
  }
}
