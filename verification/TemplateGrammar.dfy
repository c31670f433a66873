/** The HTTP template language of src/api_proxy/path_matcher/http_template.cc:
    its abstract syntax, the printed form, a recursive-descent scanner over the
    remaining input, and the proof that scanning and printing are inverse. */
module TemplateGrammar {

  import opened Wrappers
  import opened Strings

  /** The empty pattern stands for a variable without one. */
  datatype Segment =
    | Star
    | StarStar
    | Literal(text: string)
    | Variable(fields: seq<string>, pattern: seq<Segment>)

  /** The empty verb stands for no verb. */
  datatype Template = Template(segments: seq<Segment>, verb: string)

  const LITERAL_STOPS := {'/', ':', '}'}
  const IDENTIFIER_STOPS := {'.', '}', '='}

  // ---------------------------------------------------------------------------
  // Printing
  // ---------------------------------------------------------------------------

  function PrintFields(fields: seq<string>): string {
    if fields == [] then ""
    else if |fields| == 1 then fields[0]
    else fields[0] + "." + PrintFields(fields[1..])
  }

  function PrintSegment(segment: Segment): string {
    match segment
    case Star => "*"
    case StarStar => "**"
    case Literal(text) => text
    case Variable(fields, pattern) =>
      "{" + PrintFields(fields) + (if pattern == [] then "" else "=" + PrintSegments(pattern)) + "}"
  }

  function PrintSegments(segments: seq<Segment>): string {
    if segments == [] then ""
    else if |segments| == 1 then PrintSegment(segments[0])
    else PrintSegment(segments[0]) + "/" + PrintSegments(segments[1..])
  }

  function PrintVerb(verb: string): string {
    if verb == "" then "" else ":" + verb
  }

  function Print(t: Template): string {
    "/" + PrintSegments(t.segments) + PrintVerb(t.verb)
  }

  // ---------------------------------------------------------------------------
  // Well-formed syntax
  // ---------------------------------------------------------------------------

  predicate ValidIdentifier(id: string) {
    id != "" && Free(id, IDENTIFIER_STOPS)
  }

  predicate ValidSegment(segment: Segment, inVariable: bool) {
    match segment
    case Star => true
    case StarStar => true
    case Literal(text) =>
      text != "" && Free(text, LITERAL_STOPS) && text[0] != '*' && text[0] != '{'
    case Variable(fields, pattern) =>
      && !inVariable
      && fields != [] && (forall i :: 0 <= i < |fields| ==> ValidIdentifier(fields[i]))
      && forall i :: 0 <= i < |pattern| ==> ValidSegment(pattern[i], true)
  }

  predicate ValidSegments(segments: seq<Segment>, inVariable: bool) {
    forall i :: 0 <= i < |segments| ==> ValidSegment(segments[i], inVariable)
  }

  /** A verb may be any literal; unlike a segment it may start with `*` or `{`. */
  predicate ValidTemplate(t: Template) {
    t.segments != [] && ValidSegments(t.segments, false) && Free(t.verb, LITERAL_STOPS)
  }

  // ---------------------------------------------------------------------------
  // Scanning
  // ---------------------------------------------------------------------------

  /** A parsed value and the input that is left. */
  datatype Scan<+T> = Fail | Got(value: T, rest: string)

  predicate StartsWith(s: string, c: char) {
    s != "" && s[0] == c
  }

  function ScanRun(s: string, stops: set<char>): Scan<string> {
    var n := Span(s, stops);
    if n == 0 then Fail else Got(s[..n], s[n..])
  }

  function Prepend<T>(prefix: seq<T>, tail: Scan<seq<T>>): Scan<seq<T>> {
    if tail.Fail? then Fail else Got(prefix + tail.value, tail.rest)
  }

  lemma PrependTwice<T>(a: seq<T>, b: seq<T>, tail: Scan<seq<T>>)
    ensures Prepend(a, Prepend(b, tail)) == Prepend(a + b, tail)
  {
    if tail.Got? {
      assert a + (b + tail.value) == (a + b) + tail.value;
    }
  }

  function ScanFields(s: string): (r: Scan<seq<string>>)
    ensures r.Got? ==> |r.rest| < |s|
    decreases |s|, 1
  {
    var first := ScanRun(s, IDENTIFIER_STOPS);
    if first.Fail? then Fail else Prepend([first.value], ScanMoreFields(first.rest))
  }

  function ScanMoreFields(s: string): (r: Scan<seq<string>>)
    ensures r.Got? ==> |r.rest| <= |s|
    decreases |s|, 0
  {
    if StartsWith(s, '.') then ScanFields(s[1..]) else Got([], s)
  }

  function ScanSegments(s: string, inVariable: bool): (r: Scan<seq<Segment>>)
    ensures r.Got? ==> |r.rest| < |s|
    decreases |s|, 2
  {
    var first := ScanSegment(s, inVariable);
    if first.Fail? then Fail else Prepend([first.value], ScanMoreSegments(first.rest, inVariable))
  }

  function ScanMoreSegments(s: string, inVariable: bool): (r: Scan<seq<Segment>>)
    ensures r.Got? ==> |r.rest| <= |s|
    decreases |s|, 0
  {
    if StartsWith(s, '/') then ScanSegments(s[1..], inVariable) else Got([], s)
  }

  function ScanSegment(s: string, inVariable: bool): (r: Scan<Segment>)
    ensures r.Got? ==> |r.rest| < |s|
    decreases |s|, 1
  {
    if s == "" then Fail
    else if s[0] == '*' then
      if StartsWith(s[1..], '*') then Got(StarStar, s[2..]) else Got(Star, s[1..])
    else if s[0] == '{' then ScanVariable(s, inVariable)
    else
      var text := ScanRun(s, LITERAL_STOPS);
      if text.Fail? then Fail else Got(Literal(text.value), text.rest)
  }

  function ScanVariable(s: string, inVariable: bool): (r: Scan<Segment>)
    requires StartsWith(s, '{')
    ensures r.Got? ==> |r.rest| < |s|
    decreases |s|, 0
  {
    if inVariable then Fail
    else
      var fields := ScanFields(s[1..]);
      if fields.Fail? then Fail
      else
        var pattern := ScanPattern(fields.rest);
        if pattern.Got? && StartsWith(pattern.rest, '}')
        then Got(Variable(fields.value, pattern.value), pattern.rest[1..])
        else Fail
  }

  function ScanPattern(s: string): (r: Scan<seq<Segment>>)
    ensures r.Got? ==> |r.rest| <= |s|
    decreases |s|, 0
  {
    if StartsWith(s, '=') then ScanSegments(s[1..], true) else Got([], s)
  }

  function ScanTemplate(s: string): Scan<Template> {
    if !StartsWith(s, '/') then Fail
    else
      var segments := ScanSegments(s[1..], false);
      if segments.Fail? then Fail
      else if StartsWith(segments.rest, ':') then
        var verb := ScanRun(segments.rest[1..], LITERAL_STOPS);
        if verb.Fail? then Fail else Got(Template(segments.value, verb.value), verb.rest)
      else Got(Template(segments.value, ""), segments.rest)
  }

  // ---------------------------------------------------------------------------
  // Whatever is scanned is the printed form of what the scan returns
  // ---------------------------------------------------------------------------

  lemma Regroup(a: string, b: string, c: string, d: string)
    ensures a + b + c + d == a + (b + (c + d)) == a + (b + c) + d
  {}

  /** What follows a variable's field path in the printed form. */
  function PrintPattern(pattern: seq<Segment>, rest: string): string {
    if pattern == [] then "}" + rest else "=" + (PrintSegments(pattern) + ("}" + rest))
  }

  lemma PrintVariable(fields: seq<string>, pattern: seq<Segment>, rest: string)
    ensures PrintSegment(Variable(fields, pattern)) + rest
         == "{" + (PrintFields(fields) + PrintPattern(pattern, rest))
  {
    var f := PrintFields(fields);
    if pattern == [] {
      assert f + "" == f;
      Regroup("{", f, "}", rest);
    } else {
      var p := PrintSegments(pattern);
      Regroup("{", f + ("=" + p), "}", rest);
      Regroup(f, "=", p, "}" + rest);
      assert "{" + f + ("=" + p) == "{" + (f + ("=" + p));
    }
  }

  lemma {:induction false} FieldsSound(s: string)
    requires ScanFields(s).Got?
    ensures var r := ScanFields(s);
            && r.value != [] && (forall i :: 0 <= i < |r.value| ==> ValidIdentifier(r.value[i]))
            && s == PrintFields(r.value) + r.rest
    decreases |s|
  {
    var first := ScanRun(s, IDENTIFIER_STOPS);
    assert s == first.value + first.rest;
    var r := ScanFields(s);
    if StartsWith(first.rest, '.') {
      FieldsSound(first.rest[1..]);
      var more := ScanFields(first.rest[1..]);
      assert r.value == [first.value] + more.value && r.value[1..] == more.value;
      Regroup(first.value, ".", PrintFields(more.value), more.rest);
      assert first.rest == "." + first.rest[1..];
    }
  }

  lemma {:induction false} SegmentsSound(s: string, inVariable: bool)
    requires ScanSegments(s, inVariable).Got?
    ensures var r := ScanSegments(s, inVariable);
            r.value != [] && ValidSegments(r.value, inVariable) && s == PrintSegments(r.value) + r.rest
    decreases |s|, 2
  {
    SegmentSound(s, inVariable);
    var first := ScanSegment(s, inVariable);
    var r := ScanSegments(s, inVariable);
    if StartsWith(first.rest, '/') {
      SegmentsSound(first.rest[1..], inVariable);
      var more := ScanSegments(first.rest[1..], inVariable);
      assert r.value == [first.value] + more.value && r.value[1..] == more.value;
      Regroup(PrintSegment(first.value), "/", PrintSegments(more.value), more.rest);
      assert first.rest == "/" + first.rest[1..];
    }
  }

  lemma {:induction false} SegmentSound(s: string, inVariable: bool)
    requires ScanSegment(s, inVariable).Got?
    ensures var r := ScanSegment(s, inVariable);
            ValidSegment(r.value, inVariable) && s == PrintSegment(r.value) + r.rest
    decreases |s|, 1
  {
    if s[0] == '{' {
      VariableSound(s);
    } else if s[0] != '*' {
      var text := ScanRun(s, LITERAL_STOPS);
      assert s == text.value + text.rest;
    }
  }

  lemma {:induction false} VariableSound(s: string)
    requires StartsWith(s, '{') && ScanVariable(s, false).Got?
    ensures var r := ScanVariable(s, false);
            ValidSegment(r.value, false) && s == PrintSegment(r.value) + r.rest
    decreases |s|, 0
  {
    FieldsSound(s[1..]);
    var fields := ScanFields(s[1..]);
    assert s == "{" + s[1..];
    assert fields.rest == [fields.rest[0]] + fields.rest[1..];
    if StartsWith(fields.rest, '=') {
      SegmentsSound(fields.rest[1..], true);
      var pattern := ScanSegments(fields.rest[1..], true);
      assert pattern.rest == "}" + pattern.rest[1..];
      PrintVariable(fields.value, pattern.value, pattern.rest[1..]);
    } else {
      PrintVariable(fields.value, [], fields.rest[1..]);
    }
  }

  lemma TemplateSound(s: string)
    requires ScanTemplate(s).Got?
    ensures var r := ScanTemplate(s);
            ValidTemplate(r.value) && s == Print(r.value) + r.rest
  {
    SegmentsSound(s[1..], false);
    var segments := ScanSegments(s[1..], false);
    assert s == "/" + s[1..];
    if StartsWith(segments.rest, ':') {
      var verb := ScanRun(segments.rest[1..], LITERAL_STOPS);
      assert segments.rest == ":" + segments.rest[1..];
      assert segments.rest[1..] == verb.value + verb.rest;
      PrintWithVerb(PrintSegments(segments.value), verb.value, verb.rest);
    } else {
      PrintWithoutVerb(PrintSegments(segments.value), segments.rest);
    }
  }

  lemma PrintWithVerb(printed: string, verb: string, rest: string)
    ensures "/" + (printed + (":" + (verb + rest))) == "/" + printed + (":" + verb) + rest
  {
    assert ":" + (verb + rest) == ":" + verb + rest;
  }

  lemma PrintWithoutVerb(printed: string, rest: string)
    ensures "/" + (printed + rest) == "/" + printed + "" + rest
  {}

  // ---------------------------------------------------------------------------
  // Whatever is printed scans back
  // ---------------------------------------------------------------------------

  lemma {:induction false} RunComplete(text: string, rest: string, stops: set<char>)
    requires text != "" && Free(text, stops) && EndsRun(rest, stops)
    ensures ScanRun(text + rest, stops) == Got(text, rest)
  {
    SpanComplete(text, rest, stops);
    assert (text + rest)[..|text|] == text && (text + rest)[|text|..] == rest;
  }

  lemma {:induction false} FieldsCons(id: string, tail: string)
    requires ValidIdentifier(id)
    ensures ScanFields(id + ("." + tail)) == Prepend([id], ScanFields(tail))
  {
    RunComplete(id, "." + tail, IDENTIFIER_STOPS);
    assert ("." + tail)[1..] == tail;
  }

  lemma {:induction false} SegmentsCons(printed: string, segment: Segment, inVariable: bool, tail: string)
    requires ScanSegment(printed + ("/" + tail), inVariable) == Got(segment, "/" + tail)
    ensures ScanSegments(printed + ("/" + tail), inVariable) == Prepend([segment], ScanSegments(tail, inVariable))
  {
    assert ("/" + tail)[1..] == tail;
  }

  lemma {:induction false} FieldsComplete(fields: seq<string>, rest: string)
    requires fields != [] && forall i :: 0 <= i < |fields| ==> ValidIdentifier(fields[i])
    requires EndsRun(rest, IDENTIFIER_STOPS - {'.'})
    ensures ScanFields(PrintFields(fields) + rest) == Got(fields, rest)
    decreases |fields|
  {
    if |fields| == 1 {
      RunComplete(fields[0], rest, IDENTIFIER_STOPS);
      assert [fields[0]] + [] == fields;
    } else {
      FieldsComplete(fields[1..], rest);
      Regroup(fields[0], ".", PrintFields(fields[1..]), rest);
      FieldsCons(fields[0], PrintFields(fields[1..]) + rest);
      assert [fields[0]] + fields[1..] == fields;
    }
  }

  lemma {:induction false} SegmentsComplete(segments: seq<Segment>, inVariable: bool, rest: string)
    requires segments != [] && ValidSegments(segments, inVariable)
    requires EndsRun(rest, LITERAL_STOPS - {'/'})
    ensures ScanSegments(PrintSegments(segments) + rest, inVariable) == Got(segments, rest)
    decreases segments, 1
  {
    if |segments| == 1 {
      SegmentComplete(segments[0], inVariable, rest);
      assert [segments[0]] + [] == segments;
    } else {
      var tail := PrintSegments(segments[1..]) + rest;
      SegmentsComplete(segments[1..], inVariable, rest);
      SegmentComplete(segments[0], inVariable, "/" + tail);
      Regroup(PrintSegment(segments[0]), "/", PrintSegments(segments[1..]), rest);
      SegmentsCons(PrintSegment(segments[0]), segments[0], inVariable, tail);
      assert [segments[0]] + segments[1..] == segments;
    }
  }

  lemma {:induction false} SegmentComplete(segment: Segment, inVariable: bool, rest: string)
    requires ValidSegment(segment, inVariable) && EndsRun(rest, LITERAL_STOPS)
    ensures ScanSegment(PrintSegment(segment) + rest, inVariable) == Got(segment, rest)
    decreases segment, 0
  {
    match segment
    case Star =>
      assert ("*" + rest)[1..] == rest;
    case StarStar =>
      assert ("**" + rest)[1..] == "*" + rest && ("**" + rest)[2..] == rest;
    case Literal(text) =>
      RunComplete(text, rest, LITERAL_STOPS);
    case Variable(fields, pattern) =>
      VariableComplete(fields, pattern, rest);
  }

  lemma {:induction false} VariableComplete(fields: seq<string>, pattern: seq<Segment>, rest: string)
    requires ValidSegment(Variable(fields, pattern), false)
    ensures ScanSegment(PrintSegment(Variable(fields, pattern)) + rest, false)
         == Got(Variable(fields, pattern), rest)
    decreases pattern, 2
  {
    PrintVariable(fields, pattern, rest);
    var s, tail := PrintSegment(Variable(fields, pattern)) + rest, PrintPattern(pattern, rest);
    assert s[1..] == PrintFields(fields) + tail;
    assert ("}" + rest)[1..] == rest;
    assert ScanPattern(tail) == Got(pattern, "}" + rest) by {
      if pattern != [] {
        SegmentsComplete(pattern, true, "}" + rest);
        assert tail[1..] == PrintSegments(pattern) + ("}" + rest);
      }
    }
    FieldsComplete(fields, tail);
    assert ScanVariable(s, false) == Got(Variable(fields, pattern), rest);
  }

  lemma TemplateComplete(t: Template)
    requires ValidTemplate(t)
    ensures ScanTemplate(Print(t)) == Got(t, "")
  {
    var tail := PrintVerb(t.verb);
    SegmentsComplete(t.segments, false, tail);
    assert Print(t)[1..] == PrintSegments(t.segments) + tail;
    if t.verb != "" {
      assert tail[1..] == t.verb == t.verb + "";
      RunComplete(t.verb, "", LITERAL_STOPS);
    }
  }

  // ---------------------------------------------------------------------------
  // The language
  // ---------------------------------------------------------------------------

  /** The syntax tree of a complete string. */
  function ParseAll(s: string): Option<Template> {
    var r := ScanTemplate(s);
    if r.Got? && r.rest == "" then Some(r.value) else None
  }

  /** Round trip, both ways: a string parses to a tree exactly when it is that
      tree's printed form. */
  lemma ParseInvertsPrint(s: string, t: Template)
    ensures ParseAll(s) == Some(t) <==> ValidTemplate(t) && Print(t) == s
  {
    if ParseAll(s) == Some(t) {
      TemplateSound(s);
      assert Print(t) + "" == Print(t);
    }
    if ValidTemplate(t) && Print(t) == s {
      TemplateComplete(t);
    }
  }
}
