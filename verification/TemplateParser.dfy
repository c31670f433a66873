/** The hand-written parser of src/api_proxy/path_matcher/http_template.cc.

    `tb` is the position of the next character to consume and `te` the end of
    the lookahead, so `tb <= te <= tb + 1`.  Every method is proved against the
    scanner of TemplateGrammar on the input that is left. */
module TemplateParsers {

  import opened Wrappers
  import opened Strings
  import opened PathTrie
  import opened TemplateGrammar
  import opened HttpTemplates

  /** Marks the variable being parsed when `**` was seen inside it. */
  function Mark(vs: seq<VariableInfo>, wild: bool): seq<VariableInfo>
    requires vs != []
  {
    if wild then vs[|vs| - 1 := vs[|vs| - 1].(hasWildcardPath := true)] else vs
  }

  /** What the parser has collected. */
  datatype Built = Built(segments: Path, variables: seq<VariableInfo>)

  function BuildOne(b: Built, inVariable: bool, s: Segment): Built
    requires inVariable ==> b.variables != []
  {
    Built(b.segments + Flat(s),
          if inVariable then Mark(b.variables, s == StarStar)
          else b.variables + VariablesOf(s, |b.segments|))
  }

  function Build(b: Built, inVariable: bool, segments: seq<Segment>): (r: Built)
    requires inVariable ==> b.variables != []
    ensures inVariable ==> r.variables != []
  {
    if segments == [] then b
    else BuildOne(Build(b, inVariable, segments[..|segments| - 1]), inVariable, segments[|segments| - 1])
  }

  lemma BuildLast(b: Built, inVariable: bool, segments: seq<Segment>, s: Segment)
    requires inVariable ==> b.variables != []
    ensures Build(b, inVariable, segments + [s]) == BuildOne(Build(b, inVariable, segments), inVariable, s)
  {
    assert (segments + [s])[..|segments|] == segments;
  }

  /** Collecting segment by segment gives the keys and variables of the whole. */
  lemma {:induction false} BuildAll(b: Built, inVariable: bool, segments: seq<Segment>)
    requires inVariable ==> b.variables != []
    ensures Build(b, inVariable, segments) ==
            Built(b.segments + FlatAll(segments),
                  if inVariable then Mark(b.variables, StarStar in segments)
                  else b.variables + AllVariables(segments, |b.segments|))
  {
    if segments == [] {
      assert b.segments + [] == b.segments && b.variables + [] == b.variables;
    } else {
      var init, last := segments[..|segments| - 1], segments[|segments| - 1];
      BuildAll(b, inVariable, init);
      KeysRegroup(b.segments, FlatAll(init), Flat(last));
      if inVariable {
        MarkMore(b.variables, segments);
      } else {
        VariablesMore(b, segments);
      }
    }
  }

  lemma {:induction false} MarkMore(vs: seq<VariableInfo>, segments: seq<Segment>)
    requires vs != [] && segments != []
    ensures var init, last := segments[..|segments| - 1], segments[|segments| - 1];
            Mark(Mark(vs, StarStar in init), last == StarStar) == Mark(vs, StarStar in segments)
  {
    assert segments == segments[..|segments| - 1] + [segments[|segments| - 1]];
  }

  lemma {:induction false} VariablesMore(b: Built, segments: seq<Segment>)
    requires segments != []
    ensures var init, last := segments[..|segments| - 1], segments[|segments| - 1];
            b.variables + AllVariables(segments, |b.segments|)
            == b.variables + AllVariables(init, |b.segments|) + VariablesOf(last, |b.segments + FlatAll(init)|)
  {
    var init, last := segments[..|segments| - 1], segments[|segments| - 1];
    VariablesRegroup(b.variables, AllVariables(init, |b.segments|), VariablesOf(last, |b.segments + FlatAll(init)|));
  }

  lemma VariablesRegroup(a: seq<VariableInfo>, b: seq<VariableInfo>, c: seq<VariableInfo>)
    ensures a + b + c == a + (b + c)
  {}

  function WithFields(vs: seq<VariableInfo>, ids: seq<string>): seq<VariableInfo>
    requires vs != []
  {
    vs[|vs| - 1 := vs[|vs| - 1].(fields := vs[|vs| - 1].fields + ids)]
  }

  lemma WithFieldsTwice(vs: seq<VariableInfo>, a: seq<string>, b: seq<string>)
    requires vs != []
    ensures WithFields(WithFields(vs, a), b) == WithFields(vs, a + b)
  {
    var last := vs[|vs| - 1];
    assert last.fields + a + b == last.fields + (a + b);
  }

  lemma LastReplaced(vs: seq<VariableInfo>, v: VariableInfo, u: VariableInfo)
    ensures (vs + [v])[|vs| := u] == vs + [u]
  {}

  class Parser {
    const input: string
    var tb: nat
    var te: nat
    var inVariable: bool
    var segments: Path
    var verb: string
    var variables: seq<VariableInfo>

    ghost predicate Valid()
      reads this
    {
      tb <= te <= tb + 1 && te <= |input| && (inVariable ==> variables != [])
    }

    ghost function Rest(): string
      requires Valid()
      reads this
    {
      input[tb..]
    }

    ghost function Collected(): Built
      reads this
    {
      Built(segments, variables)
    }

    constructor (input: string)
      ensures Valid() && Rest() == input && this.input == input
      ensures !inVariable && segments == [] && verb == "" && variables == []
    {
      this.input := input;
      tb, te, inVariable, segments, verb, variables := 0, 0, false, [], "", [];
    }

    // -------------------------------------------------------------------------
    // Lookahead
    // -------------------------------------------------------------------------

    method NextChar() returns (ok: bool)
      requires Valid() && tb == te
      modifies this`te
      ensures Valid() && ok == (Rest() != "") && te == tb + (if ok then 1 else 0)
    {
      if te < |input| {
        te := te + 1;
        ok := true;
      } else {
        ok := false;
      }
    }

    function CurrentChar(): (c: char)
      requires Valid() && tb < te
      reads this
      ensures StartsWith(Rest(), c)
    {
      input[te - 1]
    }

    method EnsureCurrent() returns (ok: bool)
      requires Valid()
      modifies this`te
      ensures Valid() && ok == (Rest() != "") && (ok ==> tb < te)
    {
      ok := tb < te;
      if !ok {
        ok := NextChar();
      }
    }

    method Consume(c: char) returns (ok: bool)
      requires Valid()
      modifies this`tb, this`te
      ensures Valid() && ok == StartsWith(old(Rest()), c)
      ensures ok ==> tb == te == old(tb) + 1 && Rest() == old(Rest())[1..]
      ensures !ok ==> tb == old(tb)
    {
      if tb >= te {
        ok := NextChar();
        if !ok {
          return;
        }
      }
      if CurrentChar() != c {
        return false;
      }
      tb := tb + 1;
      ok := true;
    }

    method ConsumedAllInput() returns (ok: bool)
      requires Valid()
      ensures ok == (Rest() == "")
    {
      ok := tb >= |input|;
    }

    // -------------------------------------------------------------------------
    // Variables
    // -------------------------------------------------------------------------

    method StartVariable() returns (ok: bool)
      requires Valid()
      modifies this`variables, this`inVariable
      ensures Valid() && inVariable && ok == !old(inVariable)
      ensures variables == if ok then old(variables) + [VariableInfo(|segments|, 0, [], false)]
                           else old(variables)
    {
      if !inVariable {
        variables := variables + [VariableInfo(|segments|, 0, [], false)];
        inVariable := true;
        ok := true;
      } else {
        ok := false;
      }
    }

    /** Closes the current variable; it must have a field path and a segment. */
    method EndVariable() returns (ok: bool)
      requires Valid()
      modifies this`variables, this`inVariable
      ensures Valid() && !inVariable
      ensures old(inVariable) ==>
                var last := old(variables)[|old(variables)| - 1];
                && variables == old(variables)[|old(variables)| - 1 := last.(end := |segments|)]
                && ok == (last.fields != [] && last.start < |segments|)
      ensures !old(inVariable) ==> !ok && variables == old(variables)
    {
      if inVariable && variables != [] {
        var n := |variables| - 1;
        variables := variables[n := variables[n].(end := |segments|)];
        inVariable := false;
        ok := ValidateVariable(variables[n]);
      } else {
        ok := false;
      }
    }

    predicate ValidateVariable(v: VariableInfo)
      reads this
    {
      v.fields != [] && v.start < v.end && v.end <= |segments|
    }

    method AddFieldIdentifier(id: string) returns (ok: bool)
      requires Valid()
      modifies this`variables
      ensures Valid() && ok == inVariable
      ensures variables == if ok then WithFields(old(variables), [id]) else old(variables)
    {
      if inVariable && variables != [] {
        var n := |variables| - 1;
        variables := variables[n := variables[n].(fields := variables[n].fields + [id])];
        ok := true;
      } else {
        ok := false;
      }
    }

    method MarkVariableHasWildCardPath() returns (ok: bool)
      requires Valid()
      modifies this`variables
      ensures Valid() && ok == inVariable
      ensures variables == if ok then Mark(old(variables), true) else old(variables)
    {
      if inVariable && variables != [] {
        var n := |variables| - 1;
        variables := variables[n := variables[n].(hasWildcardPath := true)];
        ok := true;
      } else {
        ok := false;
      }
    }

    // -------------------------------------------------------------------------
    // Runs of characters
    // -------------------------------------------------------------------------

    method ParseIdentifier() returns (ok: bool)
      requires Valid() && inVariable && tb == te
      modifies this`tb, this`te, this`variables
      ensures Valid() && (ok ==> tb > old(tb))
      ensures var r := ScanRun(old(Rest()), IDENTIFIER_STOPS);
              && ok == r.Got?
              && (ok ==> Rest() == r.rest && variables == WithFields(old(variables), [r.value]))
    {
      var id := "";
      var more := NextChar();
      while more
        invariant Valid() && inVariable && variables == old(variables)
        invariant more == (Rest() != "") && (more ==> tb < te)
        invariant old(tb) <= tb && id == input[old(tb)..tb] && Free(id, IDENTIFIER_STOPS)
        decreases |input| - tb
      {
        var c := CurrentChar();
        if c in IDENTIFIER_STOPS {
          break;
        }
        var consumed := Consume(c);
        id := id + [c];
        more := NextChar();
      }
      RunScanned(old(tb), tb, IDENTIFIER_STOPS);
      if id == "" {
        return false;
      }
      ok := AddFieldIdentifier(id);
    }

    method ParseLiteral() returns (ok: bool, text: string)
      requires Valid()
      modifies this`tb, this`te
      ensures Valid()
      ensures var r := ScanRun(old(Rest()), LITERAL_STOPS);
              ok == r.Got? && (ok ==> Rest() == r.rest && text == r.value)
    {
      ok, text := false, "";
      var more := EnsureCurrent();
      while more
        invariant Valid() && ok == (text != "")
        invariant more == (Rest() != "") && (more ==> tb < te)
        invariant old(tb) <= tb && text == input[old(tb)..tb] && Free(text, LITERAL_STOPS)
        decreases |input| - tb
      {
        var c := CurrentChar();
        if c in LITERAL_STOPS {
          break;
        }
        var consumed := Consume(c);
        text := text + [c];
        ok := true;
        more := NextChar();
      }
      RunScanned(old(tb), tb, LITERAL_STOPS);
    }

    /** The run from `lo` to `hi` is what the scanner takes at `lo`. */
    lemma RunScanned(lo: nat, hi: nat, stops: set<char>)
      requires lo <= hi <= |input| && Free(input[lo..hi], stops) && EndsRun(input[hi..], stops)
      ensures ScanRun(input[lo..], stops) ==
              if lo == hi then Fail else Got(input[lo..hi], input[hi..])
    {
      assert input[lo..] == input[lo..hi] + input[hi..];
      if lo == hi {
        SpanComplete(input[lo..hi], input[hi..], stops);
      } else {
        RunComplete(input[lo..hi], input[hi..], stops);
      }
    }

    // -------------------------------------------------------------------------
    // The grammar
    // -------------------------------------------------------------------------

    method ParseFieldPath() returns (ok: bool)
      requires Valid() && inVariable && tb == te
      modifies this`tb, this`te, this`variables
      ensures Valid() && (ok ==> tb > old(tb))
      ensures var r := ScanFields(old(Rest()));
              && ok == r.Got?
              && (ok ==> Rest() == r.rest && variables == WithFields(old(variables), r.value))
    {
      ghost var goal, first := ScanFields(Rest()), ScanRun(Rest(), IDENTIFIER_STOPS);
      ok := ParseIdentifier();
      if !ok {
        return;
      }
      ghost var done, left := [first.value], Rest();
      var more := Consume('.');
      while more
        invariant Valid() && inVariable && more == StartsWith(left, '.') && tb > old(tb)
        invariant if more then tb == te && Rest() == left[1..] else Rest() == left
        invariant variables == WithFields(old(variables), done)
        invariant goal == Prepend(done, ScanMoreFields(left))
        decreases |input| - tb
      {
        ghost var r := ScanRun(Rest(), IDENTIFIER_STOPS);
        ok := ParseIdentifier();
        if !ok {
          return;
        }
        WithFieldsTwice(old(variables), done, [r.value]);
        PrependTwice(done, [r.value], ScanMoreFields(Rest()));
        done, left := done + [r.value], Rest();
        more := Consume('.');
      }
      assert done + [] == done;
    }

    method ParseVerb() returns (ok: bool)
      requires Valid()
      modifies this`tb, this`te, this`verb
      ensures Valid()
      ensures var s := old(Rest());
              if !StartsWith(s, ':') then !ok
              else
                var r := ScanRun(s[1..], LITERAL_STOPS);
                ok == r.Got? && (ok ==> Rest() == r.rest && verb == r.value)
    {
      ok := Consume(':');
      if ok {
        ok, verb := ParseLiteral();
      }
    }

    /** Parses segments; inside a variable a further variable is refused. */
    method ParseSegments() returns (ok: bool)
      requires Valid()
      modifies this`tb, this`te, this`segments, this`variables, this`inVariable
      ensures Valid() && (ok ==> tb > old(tb))
      ensures ok == ScanSegments(old(Rest()), old(inVariable)).Got?
      ensures ok ==>
                var r := ScanSegments(old(Rest()), old(inVariable));
                && Rest() == r.rest && inVariable == old(inVariable)
                && Collected() == Build(old(Collected()), inVariable, r.value)
      decreases |input| - tb, 2
    {
      ghost var goal, first := ScanSegments(Rest(), inVariable), ScanSegment(Rest(), inVariable);
      ok := ParseSegment();
      if !ok {
        return;
      }
      ghost var start, done, left := old(Collected()), [first.value], Rest();
      BuildLast(start, inVariable, [], first.value);
      assert [] + done == done;
      var more := Consume('/');
      while more
        invariant Valid() && inVariable == old(inVariable) && more == StartsWith(left, '/')
        invariant tb > old(tb) && done != []
        invariant Rest() == if more then left[1..] else left
        invariant goal == Prepend(done, ScanMoreSegments(left, inVariable))
        invariant Collected() == Build(start, inVariable, done)
        decreases |input| - tb
      {
        ghost var r := ScanSegment(Rest(), inVariable);
        ok := ParseSegment();
        if !ok {
          return;
        }
        BuildLast(start, inVariable, done, r.value);
        PrependTwice(done, [r.value], ScanMoreSegments(Rest(), inVariable));
        done, left := done + [r.value], Rest();
        more := Consume('/');
      }
      assert done + [] == done;
    }

    method ParseSegment() returns (ok: bool)
      requires Valid()
      modifies this`tb, this`te, this`segments, this`variables, this`inVariable
      ensures Valid() && (ok ==> tb > old(tb))
      ensures ok == ScanSegment(old(Rest()), old(inVariable)).Got?
      ensures ok ==>
                var r := ScanSegment(old(Rest()), old(inVariable));
                && Rest() == r.rest && inVariable == old(inVariable)
                && Collected() == BuildOne(old(Collected()), inVariable, r.value)
      decreases |input| - tb, 1
    {
      ok := EnsureCurrent();
      if !ok {
        return;
      }
      var c := CurrentChar();
      if c == '*' {
        var one := Consume('*');
        var two := Consume('*');
        if two {
          segments := segments + ["**"];
          if inVariable {
            ok := MarkVariableHasWildCardPath();
          }
        } else {
          segments := segments + ["*"];
        }
      } else if c == '{' {
        ok := ParseVariable();
      } else {
        ok := ParseLiteralSegment();
      }
    }

    method ParseLiteralSegment() returns (ok: bool)
      requires Valid()
      modifies this`tb, this`te, this`segments
      ensures Valid() && (ok ==> tb > old(tb))
      ensures var r := ScanRun(old(Rest()), LITERAL_STOPS);
              ok == r.Got? && (ok ==> Rest() == r.rest && segments == old(segments) + [r.value])
    {
      var text: string;
      ok, text := ParseLiteral();
      if ok {
        segments := segments + [text];
      }
    }

    method ParseVariable() returns (ok: bool)
      requires Valid() && StartsWith(Rest(), '{')
      modifies this`tb, this`te, this`segments, this`variables, this`inVariable
      ensures Valid() && (ok ==> tb > old(tb))
      ensures ok == ScanVariable(old(Rest()), old(inVariable)).Got?
      ensures ok ==>
                var r := ScanVariable(old(Rest()), old(inVariable));
                && Rest() == r.rest && !old(inVariable) && !inVariable
                && segments == old(segments) + Flat(r.value)
                && variables == old(variables) + VariablesOf(r.value, |old(segments)|)
      decreases |input| - tb, 0
    {
      ghost var vs, base, fields := variables, |segments|, ScanFields(Rest()[1..]);
      ok := ParseVariableHead();
      if !ok {
        return;
      }
      ghost var pattern := ScanPattern(Rest());
      ok := ParsePattern();
      if !ok {
        return;
      }
      ghost var parsed := Variable(fields.value, pattern.value);
      ghost var v := VariableInfo(base, 0, fields.value, StarStar in pattern.value);
      LastReplaced(vs, VariableInfo(base, 0, fields.value, false), v);
      assert variables == vs + [v];
      FlatNonEmpty(parsed);
      ok := EndVariable();
      LastReplaced(vs, v, v.(end := |segments|));
      assert ok && variables == vs + VariablesOf(parsed, base);
      ok := Consume('}');
    }

    /** The opening brace and the field path. */
    method ParseVariableHead() returns (ok: bool)
      requires Valid() && StartsWith(Rest(), '{')
      modifies this`tb, this`te, this`variables, this`inVariable
      ensures Valid() && ok == (!old(inVariable) && ScanFields(old(Rest())[1..]).Got?)
      ensures ok ==>
                var r := ScanFields(old(Rest())[1..]);
                && Rest() == r.rest && inVariable && tb > old(tb)
                && variables == old(variables) + [VariableInfo(|segments|, 0, r.value, false)]
    {
      ok := Consume('{');
      ok := StartVariable();
      if !ok {
        return;
      }
      ghost var fields := ScanFields(Rest());
      ok := ParseFieldPath();
      if ok {
        assert [] + fields.value == fields.value;
        LastReplaced(old(variables), VariableInfo(|segments|, 0, [], false),
                     VariableInfo(|segments|, 0, fields.value, false));
      }
    }

    /** The optional `= Segments` of a variable; without it, as if `=*`. */
    method ParsePattern() returns (ok: bool)
      requires Valid() && inVariable
      modifies this`tb, this`te, this`segments, this`variables, this`inVariable
      ensures Valid()
      ensures ok == ScanPattern(old(Rest())).Got?
      ensures ok ==>
                var r := ScanPattern(old(Rest()));
                && Rest() == r.rest && inVariable && tb >= old(tb)
                && segments == old(segments) + Flat(Variable([], r.value))
                && variables == Mark(old(variables), StarStar in r.value)
      decreases |input| - tb, 3
    {
      ok := Consume('=');
      if ok {
        ghost var r := ScanSegments(Rest(), true);
        ok := ParseSegments();
        if ok {
          BuildAll(old(Collected()), true, r.value);
        }
      } else {
        segments := segments + ["*"];
        ok := true;
      }
    }

    // -------------------------------------------------------------------------
    // Whole templates
    // -------------------------------------------------------------------------

    method ParseTemplate() returns (ok: bool)
      requires Valid() && !inVariable && segments == [] && verb == "" && variables == []
      modifies this
      ensures Valid() && ok == ScanTemplate(old(Rest())).Got?
      ensures ok ==>
                var r := ScanTemplate(old(Rest()));
                && Rest() == r.rest && verb == r.value.verb
                && segments == FlatAll(r.value.segments)
                && variables == AllVariables(r.value.segments, 0)
    {
      ok := Consume('/');
      if !ok {
        return;
      }
      ghost var r := ScanSegments(Rest(), false);
      ok := ParseSegments();
      if !ok {
        return;
      }
      BuildAll(Built([], []), false, r.value);
      assert segments == FlatAll(r.value) && variables == AllVariables(r.value, 0);
      var more := EnsureCurrent();
      if more && CurrentChar() == ':' {
        ok := ParseVerb();
      }
    }

    /** Makes the ends of variables with `**` relative to the end. */
    method PostProcessVariables()
      requires Valid()
      modifies this`variables
      ensures Valid() && variables == AllFromEnd(old(variables), |segments|, verb)
    {
      var i := 0;
      while i < |variables|
        invariant 0 <= i <= |variables| == |old(variables)|
        invariant forall j :: 0 <= j < i ==> variables[j] == FromEnd(old(variables)[j], |segments|, verb)
        invariant forall j :: i <= j < |variables| ==> variables[j] == old(variables)[j]
      {
        var v := variables[i];
        if v.hasWildcardPath {
          v := v.(end := v.end - |segments| - 1);
          if verb != "" {
            v := v.(end := v.end - 1);
          }
        }
        variables := variables[i := v];
        i := i + 1;
      }
    }

    method Parse() returns (ok: bool)
      requires Valid() && !inVariable && segments == [] && verb == "" && variables == []
      requires Rest() == input
      modifies this
      ensures ok == ParseAll(input).Some?
      ensures ok ==> HttpTemplate(segments, verb, variables) == Meaning(ParseAll(input).value)
    {
      ghost var r := ScanTemplate(input);
      ok := ParseTemplate();
      if ok {
        ok := ConsumedAllInput();
        if ok {
          PostProcessVariables();
          assert ParseAll(input) == Some(r.value);
          assert variables == AllFromEnd(AllVariables(r.value.segments, 0), |segments|, verb);
        }
      }
    }

    /** Only constant segments are allowed after `**`. */
    method ValidateParts() returns (ok: bool)
      ensures ok == Shape(segments)
    {
      var foundWildCard := false;
      var i := 0;
      while i < |segments|
        invariant 0 <= i <= |segments|
        invariant foundWildCard == (WildAt(segments) < i)
        invariant forall k :: WildAt(segments) < k < i ==> IsConstant(segments[k])
      {
        if !foundWildCard {
          if segments[i] == WILDCARD_PATH_KEY {
            foundWildCard := true;
          }
        } else if !IsConstant(segments[i]) {
          assert segments[i] == segments[WildAt(segments) + 1..][i - WildAt(segments) - 1];
          return false;
        }
        i := i + 1;
      }
      ok := true;
    }
  }

  /** `HttpTemplate::Parse`. */
  method ParseHttpTemplate(s: string) returns (ht: Option<HttpTemplate>)
    ensures ht == TemplateOf(s)
  {
    if s == "/" {
      return Some(HttpTemplate([], "", []));
    }
    var p := new Parser(s);
    var ok := p.Parse();
    if !ok {
      return None;
    }
    ok := p.ValidateParts();
    if !ok {
      return None;
    }
    ht := Some(HttpTemplate(p.segments, p.verb, p.variables));
  }
}
