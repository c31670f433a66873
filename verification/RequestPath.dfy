/** Turning a request path into the parts the trie is searched with. */
module RequestPaths {

  import opened Strings

  type Path = seq<string>

  /** The path up to the query string. */
  function CutQuery(path: string): string {
    path[..Span(path, {'?'})]
  }

  /** Whether the path ends in `:verb` with a registered verb; a colon before the
      last slash does not count, and neither does one without any slash. */
  predicate EndsInVerb(path: string, verbs: set<string>) {
    var colon, slash := LastIndexOf(path, ':'), LastIndexOf(path, '/');
    0 <= slash < colon && path[colon + 1..] in verbs
  }

  function SplitVerb(path: string, verbs: set<string>): string {
    if EndsInVerb(path, verbs) then path[LastIndexOf(path, ':') := '/'] else path
  }

  function StripEmpty(parts: Path): Path {
    if parts != [] && parts[|parts| - 1] == "" then StripEmpty(parts[..|parts| - 1]) else parts
  }

  function RequestParts(path: string, verbs: set<string>): Path {
    var p := SplitVerb(CutQuery(path), verbs);
    StripEmpty(if p == "" then [] else Split(p[1..]))
  }

  method ExtractRequestParts(path: string, customVerbs: set<string>) returns (result: Path)
    ensures result == RequestParts(path, customVerbs)
  {
    var p := path[..Span(path, {'?'})];
    var lastColonPos := LastIndexOf(p, ':');
    var lastSlashPos := LastIndexOf(p, '/');
    if lastColonPos != -1 && lastSlashPos != -1 && lastColonPos > lastSlashPos {
      var verb := p[lastColonPos + 1..];
      if verb in customVerbs {
        p := p[lastColonPos := '/'];
      }
    }
    assert p == SplitVerb(CutQuery(path), customVerbs);
    result := [];
    if p != "" {
      result := Split(p[1..]);
    }
    result := RemoveTrailingEmpty(result);
  }

  method RemoveTrailingEmpty(parts: Path) returns (result: Path)
    ensures result == StripEmpty(parts)
  {
    result := parts;
    while result != [] && result[|result| - 1] == ""
      invariant StripEmpty(result) == StripEmpty(parts)
      decreases |result|
    {
      result := result[..|result| - 1];
    }
  }

  // ---------------------------------------------------------------------------
  // Round trips
  // ---------------------------------------------------------------------------

  function Slashes(n: nat): string {
    seq(n, _ => '/')
  }

  /** Nothing, or a query string. */
  predicate IsQuery(q: string) {
    q == "" || q[0] == '?'
  }

  lemma {:induction false} CutQueryOf(p: string, q: string)
    requires Free(p, {'?'}) && IsQuery(q)
    ensures CutQuery(p + q) == p
  {
    SpanComplete(p, q, {'?'});
    assert (p + q)[..|p|] == p;
  }

  lemma {:induction false} JoinFree(parts: Path, stops: set<char>)
    requires AllFree(parts, stops) && '/' !in stops
    ensures Free(Join(parts), stops)
  {
    if |parts| > 1 {
      JoinFree(parts[1..], stops);
    }
  }

  /** A joined path is its directory, which ends in a slash, and its last part. */
  function Directory(parts: Path): string
    requires parts != []
  {
    if |parts| == 1 then "/" else "/" + Join(parts[..|parts| - 1]) + "/"
  }

  lemma {:induction false} DirectoryAndLast(parts: Path)
    requires parts != []
    ensures "/" + Join(parts) == Directory(parts) + parts[|parts| - 1]
    ensures EndsInSlash(Directory(parts))
  {
    var n := |parts| - 1;
    if n > 0 {
      JoinAppend(parts[..n], [parts[n]]);
      assert parts[..n] + [parts[n]] == parts;
      Regroup3("/", Join(parts[..n]), "/", parts[n]);
    }
  }

  predicate EndsInSlash(dir: string) {
    dir != "" && dir[|dir| - 1] == '/'
  }

  lemma Regroup3(a: string, b: string, c: string, d: string)
    ensures a + (b + c + d) == a + b + c + d
  {}

  /** The verb test on a path depends on its last part alone. */
  lemma {:induction false} EndsInVerbLast(dir: string, last: string, verbs: set<string>)
    requires EndsInSlash(dir) && Free(last, {'/'})
    ensures EndsInVerb(dir + last, verbs) <==> !NoVerb(last, verbs)
    ensures LastIndexOf(last, ':') >= 0 ==> LastIndexOf(dir + last, ':') == |dir| + LastIndexOf(last, ':')
  {
    LastIndexInSuffix(dir, last, ':');
    LastSlash(dir, last);
    if LastIndexOf(last, ':') >= 0 {
      DropInSuffix(dir, last, LastIndexOf(last, ':') + 1);
    }
  }

  lemma {:induction false} LastSlash(dir: string, last: string)
    requires EndsInSlash(dir) && Free(last, {'/'})
    ensures LastIndexOf(dir + last, '/') == |dir| - 1
  {
    LastIndexInSuffix(dir, last, '/');
    assert (dir + last)[|dir| - 1] == '/';
    assert LastIndexOf(last, '/') == -1;
  }

  lemma {:induction false} DropInSuffix(a: string, b: string, n: nat)
    requires n <= |b|
    ensures (a + b)[|a| + n..] == b[n..]
  {}

  lemma {:induction false} StripPadding(parts: Path, n: nat)
    requires parts == [] || parts[|parts| - 1] != ""
    ensures StripEmpty(parts + seq(n, _ => "")) == parts
  {
    var padded := parts + seq(n, _ => "");
    if n == 0 {
      assert padded == parts;
    } else {
      StripPadding(parts, n - 1);
      assert padded[..|padded| - 1] == parts + seq(n - 1, _ => "");
    }
  }

  /** Trailing slashes are further empty parts. */
  lemma {:induction false} JoinSlashes(parts: Path, n: nat)
    requires parts != []
    ensures Join(parts) + Slashes(n) == Join(parts + seq(n, _ => ""))
  {
    if n == 0 {
      assert parts + seq(n, _ => "") == parts;
    } else {
      JoinSlashes(parts, n - 1);
      var padded := parts + seq(n - 1, _ => "");
      JoinAppend(padded, [""]);
      assert parts + seq(n, _ => "") == padded + [""];
      assert Slashes(n) == Slashes(n - 1) + "/";
    }
  }

  /** The last part does not end in a registered verb. */
  predicate NoVerb(part: string, verbs: set<string>) {
    LastIndexOf(part, ':') < 0 || part[LastIndexOf(part, ':') + 1..] !in verbs
  }

  /** The stages of the extraction, put together. */
  lemma {:induction false} PartsOf(p: string, query: string, verbs: set<string>, q: string, parts: Path)
    requires Free(p, {'?'}) && IsQuery(query)
    requires SplitVerb(p, verbs) == "/" + q && Split(q) == parts
    ensures RequestParts(p + query, verbs) == StripEmpty(parts)
  {
    CutQueryOf(p, query);
    assert ("/" + q)[1..] == q;
  }

  lemma FreeOfBoth(parts: Path)
    requires AllFree(parts, {'/', '?'})
    ensures AllFree(parts, {'/'}) && AllFree(parts, {'?'})
  {}

  lemma FreeConcat(a: string, b: string, stops: set<char>)
    requires Free(a, stops) && Free(b, stops)
    ensures Free(a + b, stops)
  {}

  lemma {:induction false} NoVerbParts(parts: Path, query: string, verbs: set<string>)
    requires parts != [] && AllFree(parts, {'/', '?'}) && IsQuery(query)
    requires NoVerb(parts[|parts| - 1], verbs)
    ensures RequestParts("/" + Join(parts) + query, verbs) == StripEmpty(parts)
  {
    FreeOfBoth(parts);
    JoinFree(parts, {'?'});
    FreeConcat("/", Join(parts), {'?'});
    DirectoryAndLast(parts);
    EndsInVerbLast(Directory(parts), parts[|parts| - 1], verbs);
    SplitJoin(parts);
    PartsOf("/" + Join(parts), query, verbs, Join(parts), parts);
  }

  lemma {:induction false} VerbParts(parts: Path, verb: string, query: string, verbs: set<string>)
    requires parts != [] && AllFree(parts, {'/', '?'}) && IsQuery(query)
    requires verb in verbs && Free(verb, {':', '/', '?'})
    ensures RequestParts("/" + Join(parts) + ":" + verb + query, verbs) == StripEmpty(parts + [verb])
  {
    var joined := Join(parts);
    FreeOfBoth(parts);
    JoinFree(parts, {'?'});
    FreeConcat("/", joined, {'?'});
    FreeConcat("/" + joined, ":", {'?'});
    FreeConcat("/" + joined + ":", verb, {'?'});
    VerbFound(parts, verb, verbs);
    JoinAppend(parts, [verb]);
    Regroup3("/", joined, "/", verb);
    SplitJoin(parts + [verb]);
    PartsOf("/" + joined + ":" + verb, query, verbs, Join(parts + [verb]), parts + [verb]);
  }

  lemma {:induction false} VerbFound(parts: Path, verb: string, verbs: set<string>)
    requires parts != [] && AllFree(parts, {'/'})
    requires verb in verbs && Free(verb, {':', '/'})
    ensures SplitVerb("/" + Join(parts) + ":" + verb, verbs) == "/" + Join(parts) + "/" + verb
  {
    var dir, last := Directory(parts), parts[|parts| - 1];
    DirectoryAndLast(parts);
    Regroup3(dir, last, ":", verb);
    Regroup3(dir, last, "/", verb);
    SplitVerbOf(dir, last, verb, verbs);
  }

  lemma {:induction false} SplitVerbOf(dir: string, last: string, verb: string, verbs: set<string>)
    requires EndsInSlash(dir) && Free(last, {'/'}) && Free(verb, {':', '/'}) && verb in verbs
    ensures SplitVerb(dir + (last + ":" + verb), verbs) == dir + (last + "/" + verb)
  {
    var tail := last + ":" + verb;
    FreeConcat(last, ":", {'/'});
    FreeConcat(last + ":", verb, {'/'});
    LastColon(last, verb);
    EndsInVerbLast(dir, tail, verbs);
    assert tail[|last| := '/'] == last + "/" + verb;
    assert (dir + tail)[|dir| + |last| := '/'] == dir + tail[|last| := '/'];
  }

  lemma {:induction false} LastColon(head: string, verb: string)
    requires Free(verb, {':'})
    ensures LastIndexOf(head + ":" + verb, ':') == |head|
    ensures (head + ":" + verb)[|head| + 1..] == verb
  {
    assert head + ":" + verb == head + (":" + verb);
    LastIndexInSuffix(":", verb, ':');
    assert (":" + verb)[0] == ':';
    LastIndexInSuffix(head, ":" + verb, ':');
  }

  lemma {:induction false} StripIsPrefix(parts: Path)
    ensures StripEmpty(parts) <= parts
  {
    if parts != [] && parts[|parts| - 1] == "" {
      StripIsPrefix(parts[..|parts| - 1]);
    }
  }

  /** Parts survive the way through a request path: with trailing slashes always,
      and without them exactly when the last part does not end in a registered
      verb.  The query string is ignored. */
  lemma {:induction false} PartsRoundTrip(parts: Path, slashes: nat, query: string, verbs: set<string>)
    requires parts != [] && AllFree(parts, {'/', '?'}) && parts[|parts| - 1] != ""
    requires IsQuery(query)
    ensures RequestParts("/" + Join(parts) + Slashes(slashes) + query, verbs) == parts
            <==> slashes > 0 || NoVerb(parts[|parts| - 1], verbs)
  {
    var n, last := |parts| - 1, parts[|parts| - 1];
    if slashes > 0 || NoVerb(last, verbs) {
      var padded := parts + seq(slashes, _ => "");
      JoinSlashes(parts, slashes);
      assert "/" + Join(parts) + Slashes(slashes) == "/" + Join(padded);
      NoVerbParts(padded, query, verbs);
      StripPadding(parts, slashes);
    } else {
      var p := "/" + Join(parts);
      assert Slashes(0) == "" && p + "" == p;
      VerbLost(parts, query, verbs);
    }
  }

  /** A last part that ends in a registered verb is taken apart. */
  lemma {:induction false} VerbLost(parts: Path, query: string, verbs: set<string>)
    requires parts != [] && AllFree(parts, {'/', '?'}) && IsQuery(query)
    requires !NoVerb(parts[|parts| - 1], verbs)
    ensures RequestParts("/" + Join(parts) + query, verbs) != parts
  {
    var n, last := |parts| - 1, parts[|parts| - 1];
    var c := LastIndexOf(last, ':');
    var head, verb := last[..c], last[c + 1..];
    var cut := parts[..n] + [head];
    assert last == head + ":" + verb;
    JoinLastCut(parts, head, verb);
    VerbParts(cut, verb, query, verbs);
    StripIsPrefix(cut + [verb]);
    assert (cut + [verb])[n] == head && |head| < |last|;
  }

  lemma {:induction false} JoinLastCut(parts: Path, head: string, verb: string)
    requires parts != [] && parts[|parts| - 1] == head + ":" + verb
    ensures "/" + Join(parts) == "/" + Join(parts[..|parts| - 1] + [head]) + ":" + verb
  {
    var n := |parts| - 1;
    var cut := parts[..n] + [head];
    DirectoryAndLast(parts);
    DirectoryAndLast(cut);
    assert cut[..n] == parts[..n] && Directory(cut) == Directory(parts);
    Regroup3(Directory(parts), head, ":", verb);
  }

  /** A registered verb after the last part becomes a part of its own. */
  lemma {:induction false} VerbRoundTrip(parts: Path, verb: string, query: string, verbs: set<string>)
    requires parts != [] && AllFree(parts, {'/', '?'}) && IsQuery(query)
    requires verb in verbs && verb != "" && Free(verb, {':', '/', '?'})
    ensures RequestParts("/" + Join(parts) + ":" + verb + query, verbs) == parts + [verb]
  {
    VerbParts(parts, verb, query, verbs);
  }

  /** A path of slashes has no parts. */
  lemma {:induction false} RootRoundTrip(slashes: nat, query: string, verbs: set<string>)
    requires IsQuery(query)
    ensures RequestParts("/" + Slashes(slashes) + query, verbs) == []
  {
    var padded := [""] + seq(slashes, _ => "");
    assert Join(padded) == Slashes(slashes) by {
      JoinSlashes([""], slashes);
      assert "" + Slashes(slashes) == Slashes(slashes);
    }
    assert StripEmpty(padded) == [] by {
      assert padded == [] + seq(slashes + 1, _ => "");
      StripPadding([], slashes + 1);
    }
    forall i | 0 <= i < |padded|
      ensures padded[i] == ""
    {}
    NoVerbParts(padded, query, verbs);
  }

  /** The first character is dropped even if it is no slash, and without a slash
      after it there is one part or none, verb or not. */
  lemma {:induction false} FirstCharDropped(c: char, rest: string, verbs: set<string>)
    requires c != '?' && c != '/'
    ensures var q := CutQuery(rest);
            RequestParts([c] + rest, verbs) ==
            if LastIndexOf(q, '/') >= 0 then RequestParts("/" + rest, verbs)
            else if q == "" then [] else [q]
  {
    var q := CutQuery(rest);
    CutQueryFirst(c, rest);
    CutQueryFirst('/', rest);
    if LastIndexOf(q, '/') >= 0 {
      SplitVerbCons(c, q, verbs);
      SplitVerbCons('/', q, verbs);
      var p := SplitVerb(q, verbs);
      assert ([c] + p)[1..] == p == ("/" + p)[1..];
    } else {
      LastIndexInSuffix([c], q, '/');
      assert SplitVerb([c] + q, verbs) == [c] + q && ([c] + q)[1..] == q;
      SpanComplete(q, "", {'/'});
      assert q + "" == q && Split(q) == [q];
      StripPadding([], 1);
      assert [] + seq(1, _ => "") == [""];
    }
  }

  lemma {:induction false} CutQueryFirst(c: char, rest: string)
    requires c != '?'
    ensures CutQuery([c] + rest) == [c] + CutQuery(rest)
  {
    assert ([c] + rest)[1..] == rest;
  }

  lemma {:induction false} SplitVerbCons(c: char, q: string, verbs: set<string>)
    requires LastIndexOf(q, '/') >= 0
    ensures SplitVerb([c] + q, verbs) == [c] + SplitVerb(q, verbs)
  {
    var whole, i := [c] + q, LastIndexOf(q, ':');
    EndsInVerbCons(c, q, whole, verbs);
    if EndsInVerb(q, verbs) {
      assert whole[i + 1 := '/'] == [c] + q[i := '/'];
    }
  }

  lemma {:induction false} EndsInVerbCons(c: char, q: string, whole: string, verbs: set<string>)
    requires LastIndexOf(q, '/') >= 0 && whole == [c] + q
    ensures EndsInVerb(whole, verbs) <==> EndsInVerb(q, verbs)
    ensures EndsInVerb(q, verbs) ==> LastIndexOf(whole, ':') == LastIndexOf(q, ':') + 1
  {
    LastIndexInSuffix([c], q, '/');
    LastIndexInSuffix([c], q, ':');
    if LastIndexOf(q, ':') >= 0 {
      DropInSuffix([c], q, LastIndexOf(q, ':') + 1);
    }
  }

  // ---------------------------------------------------------------------------
  // What another verb changes
  // ---------------------------------------------------------------------------

  function SlashCount(s: string): nat {
    if s == "" then 0 else SlashCount(s[1..]) + (if s[0] == '/' then 1 else 0)
  }

  lemma {:induction false} SlashCountFree(text: string, rest: string)
    requires Free(text, {'/'})
    ensures SlashCount(text + rest) == SlashCount(rest)
  {
    if text == "" {
      assert text + rest == rest;
    } else {
      assert (text + rest)[1..] == text[1..] + rest;
      SlashCountFree(text[1..], rest);
    }
  }

  lemma {:induction false} SlashCountSplit(text: string, rest: string)
    requires Free(text, {'/'})
    ensures SlashCount(text + ("/" + rest)) == SlashCount(rest) + 1
  {
    SlashCountFree(text, "/" + rest);
    assert ("/" + rest)[1..] == rest;
  }

  lemma {:induction false} SlashCountUpdate(s: string, c: nat)
    requires c < |s| && s[c] != '/'
    ensures SlashCount(s[c := '/']) == SlashCount(s) + 1
  {
    if c == 0 {
      assert s[c := '/'][1..] == s[1..];
    } else {
      SlashCountUpdate(s[1..], c - 1);
      assert s[c := '/'][1..] == s[1..][c - 1 := '/'];
    }
  }

  /** As many parts as slashes and one. */
  lemma {:induction false} SplitLength(s: string)
    ensures |Split(s)| == SlashCount(s) + 1
    decreases |s|
  {
    var n := Span(s, {'/'});
    if n < |s| {
      SplitLength(s[n + 1..]);
      SlashCountSplit(s[..n], s[n + 1..]);
      assert s == s[..n] + ("/" + s[n + 1..]);
    } else {
      SlashCountFree(s, "");
      assert s[..n] == s == s + "";
    }
  }

  /** The last part of a string that does not end in a slash is not empty. */
  lemma {:induction false} SplitLast(s: string)
    requires s != "" && s[|s| - 1] != '/'
    ensures Split(s)[|Split(s)| - 1] != ""
    decreases |s|
  {
    var n := Span(s, {'/'});
    if n < |s| {
      var back := s[n + 1..];
      assert back[|back| - 1] == s[|s| - 1];
      SplitLast(back);
    }
  }

  lemma {:induction false} AnotherSlash(s: string, c: nat)
    requires c + 1 < |s| && s[c] != '/' && s[|s| - 1] != '/'
    ensures StripEmpty(Split(s[c := '/'])) != StripEmpty(Split(s))
  {
    SlashCountUpdate(s, c);
    SplitLength(s);
    SplitLength(s[c := '/']);
    SplitLast(s);
    SplitLast(s[c := '/']);
  }

  /** Recognising one more verb changes the parts of exactly those requests that
      end in it, unless it was recognised before. */
  lemma {:induction false} AnotherVerb(path: string, verbs: set<string>, verb: string)
    requires verb != ""
    ensures RequestParts(path, verbs + {verb}) == RequestParts(path, verbs) <==>
            verb in verbs || !EndsInVerb(CutQuery(path), {verb})
  {
    var p := CutQuery(path);
    if verb in verbs {
      assert verbs + {verb} == verbs;
    } else if EndsInVerb(p, {verb}) {
      NewVerbSplits(p, verbs, verb);
    } else {
      assert SplitVerb(p, verbs + {verb}) == SplitVerb(p, verbs);
    }
  }

  lemma {:induction false} NewVerbSplits(p: string, verbs: set<string>, verb: string)
    requires verb != "" && verb !in verbs && EndsInVerb(p, {verb})
    ensures var q := SplitVerb(p, verbs + {verb});
            && SplitVerb(p, verbs) == p && p != "" && q != ""
            && StripEmpty(Split(q[1..])) != StripEmpty(Split(p[1..]))
  {
    var c := LastIndexOf(p, ':');
    assert p[c + 1..] == verb;
    assert p[1..][c - 1 := '/'] == p[c := '/'][1..];
    AnotherSlash(p[1..], c - 1);
  }
}
