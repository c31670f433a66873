/** Splitting, joining and searching character strings. */
module Strings {

  predicate Free(s: string, stops: set<char>) {
    forall i :: 0 <= i < |s| ==> s[i] !in stops
  }

  /** The length of the longest prefix without a stop character. */
  function Span(s: string, stops: set<char>): (n: nat)
    ensures n <= |s| && Free(s[..n], stops)
    ensures n < |s| ==> s[n] in stops
  {
    if s == "" || s[0] in stops then 0 else 1 + Span(s[1..], stops)
  }

  predicate EndsRun(rest: string, stops: set<char>) {
    rest == "" || rest[0] in stops
  }

  lemma {:induction false} SpanComplete(text: string, rest: string, stops: set<char>)
    requires Free(text, stops) && EndsRun(rest, stops)
    ensures Span(text + rest, stops) == |text|
  {
    if text == "" {
      assert text + rest == rest;
    } else {
      assert (text + rest)[1..] == text[1..] + rest;
      SpanComplete(text[1..], rest, stops);
    }
  }

  // ---------------------------------------------------------------------------
  // Joining and splitting
  // ---------------------------------------------------------------------------

  function Join(parts: seq<string>): string {
    if parts == [] then ""
    else if |parts| == 1 then parts[0]
    else parts[0] + "/" + Join(parts[1..])
  }

  /** `absl::StrSplit` at `/`: the empty string splits into one empty part. */
  function Split(s: string): (parts: seq<string>)
    ensures parts != []
    decreases |s|
  {
    var n := Span(s, {'/'});
    if n == |s| then [s] else [s[..n]] + Split(s[n + 1..])
  }

  predicate AllFree(parts: seq<string>, stops: set<char>) {
    forall i :: 0 <= i < |parts| ==> Free(parts[i], stops)
  }

  /** Splitting undoes joining parts without a slash. */
  lemma {:induction false} SplitJoin(parts: seq<string>)
    requires parts != [] && AllFree(parts, {'/'})
    ensures Split(Join(parts)) == parts
  {
    if |parts| == 1 {
      SpanComplete(parts[0], "", {'/'});
      assert parts[0] + "" == parts[0] && [parts[0]] == parts;
    } else {
      var s, rest := Join(parts), Join(parts[1..]);
      SplitJoin(parts[1..]);
      assert s == parts[0] + ("/" + rest);
      SpanComplete(parts[0], "/" + rest, {'/'});
      assert s[..|parts[0]|] == parts[0] && s[|parts[0]| + 1..] == rest;
      assert [parts[0]] + parts[1..] == parts;
    }
  }

  /** Appending text to a joined list appends it to the last part, after
      splitting the text itself. */
  lemma {:induction false} JoinAppend(parts: seq<string>, more: seq<string>)
    requires parts != [] && more != []
    ensures Join(parts + more) == Join(parts) + "/" + Join(more)
  {
    if |parts| == 1 {
      assert (parts + more)[1..] == more;
    } else {
      assert (parts + more)[1..] == parts[1..] + more;
      JoinAppend(parts[1..], more);
      var a, b, c := parts[0], Join(parts[1..]), Join(more);
      assert a + "/" + (b + "/" + c) == (a + "/" + b) + "/" + c;
    }
  }

  // ---------------------------------------------------------------------------
  // The last occurrence of a character
  // ---------------------------------------------------------------------------

  /** `std::string::find_last_of`, with -1 for `npos`. */
  function LastIndexOf(s: string, c: char): (i: int)
    ensures -1 <= i < |s|
    ensures i >= 0 ==> s[i] == c
    ensures forall j :: i < j < |s| ==> s[j] != c
  {
    if s == "" then -1
    else if s[|s| - 1] == c then |s| - 1
    else LastIndexOf(s[..|s| - 1], c)
  }

  /** The last occurrence in a concatenation lies in the second string if that
      has one. */
  lemma {:induction false} LastIndexInSuffix(a: string, b: string, c: char)
    ensures LastIndexOf(b, c) >= 0 ==> LastIndexOf(a + b, c) == |a| + LastIndexOf(b, c)
    ensures LastIndexOf(b, c) < 0 ==> LastIndexOf(a + b, c) < |a|
  {
    var k, i := LastIndexOf(b, c), LastIndexOf(a + b, c);
    if k >= 0 {
      assert (a + b)[|a| + k] == c;
    }
    if i >= |a| {
      assert b[i - |a|] == c;
    }
  }
}
