/** The path matcher: registering templates and looking requests up, from
    strings to strings. */
module PathMatchers {

  import opened Wrappers
  import opened Strings
  import opened PathTrie
  import opened PathMatcherNodes
  import opened TemplateGrammar
  import opened HttpTemplates
  import opened TemplateParsers
  import opened RequestPaths
  import opened Bindings

  datatype MethodData<M> = MethodData(op: M, variables: seq<VariableInfo>, bodyFieldPath: string)

  /** One call to `Register`: the text of the template, and the template parsed. */
  datatype Registration<M> =
    Registration(httpMethod: string, text: string, template: Option<HttpTemplate>, bodyFieldPath: string, op: M)

  predicate Parsed<M>(r: Registration<M>) {
    r.template == TemplateOf(r.text)
  }

  predicate AllParsed<M>(rs: seq<Registration<M>>) {
    forall i :: 0 <= i < |rs| ==> Parsed(rs[i])
  }

  // ---------------------------------------------------------------------------
  // What a sequence of registrations amounts to
  // ---------------------------------------------------------------------------

  datatype Table<M> = Table(trie: Trie, verbs: set<string>, methods: seq<MethodData<M>>)

  function DataOf<M>(r: Registration<M>): MethodData<M>
    requires r.template.Some?
  {
    MethodData(r.op, r.template.value.variables, r.bodyFieldPath)
  }

  /** The method data are those of the registration, all its variables included. */
  ghost predicate IsDataOf<M>(data: MethodData<M>, r: Registration<M>) {
    && r.template.Some? && data.op == r.op && data.bodyFieldPath == r.bodyFieldPath
    && data.variables == r.template.value.variables
  }

  /** Whether the template is valid and its key path and method are still free. */
  predicate Accepts<M>(t: Table<M>, r: Registration<M>) {
    r.template.Some? && Find(t.trie, Key(r), r.httpMethod).None?
  }

  function After<M>(t: Table<M>, r: Registration<M>): Table<M> {
    if r.template.None? then t
    else
      var trie, verb := Insert(t.trie, Key(r), r.httpMethod, |t.methods|), r.template.value.verb;
      if !Accepts(t, r) then t.(trie := trie)
      else Table(trie, if verb == "" then t.verbs else t.verbs + {verb}, t.methods + [DataOf(r)])
  }

  function AfterAll<M>(rs: seq<Registration<M>>): Table<M> {
    if rs == [] then Table(EMPTY, {}, []) else After(AfterAll(rs[..|rs| - 1]), rs[|rs| - 1])
  }

  /** What a lookup leads to. */
  function Lookup<M>(t: Table<M>, parts: PathTrie.Path, httpMethod: string): Option<nat> {
    Data(Search(t.trie, false, parts, httpMethod))
  }

  // ---------------------------------------------------------------------------
  // The same, said of the registrations alone
  // ---------------------------------------------------------------------------

  function Key<M>(r: Registration<M>): PathTrie.Path
    requires r.template.Some?
  {
    KeyPath(r.template.value)
  }

  predicate Clash<M>(r: Registration<M>, s: Registration<M>) {
    && r.template.Some? && s.template.Some?
    && Key(r) == Key(s) && r.httpMethod == s.httpMethod
  }

  /** The i-th registration counts: it is valid and the first of its key path
      and method. */
  predicate Counts<M>(rs: seq<Registration<M>>, i: nat) {
    && i < |rs| && rs[i].template.Some?
    && forall j :: 0 <= j < i ==> !Clash(rs[j], rs[i])
  }

  lemma {:induction false} FirstClash<M>(rs: seq<Registration<M>>, j: nat) returns (k: nat)
    requires j < |rs| && rs[j].template.Some?
    ensures Counts(rs, k) && Clash(rs[k], rs[j])
  {
    k := j;
    if i :| 0 <= i < j && Clash(rs[i], rs[j]) {
      k := FirstClash(rs, i);
    }
  }

  /** The trie holds the counting registrations and nothing else. */
  lemma {:induction false} HoldsCounting<M>(rs: seq<Registration<M>>, i: nat)
    requires Counts(rs, i)
    ensures var t, r := AfterAll(rs), rs[i];
            var hit := Find(t.trie, Key(r), r.httpMethod);
            && hit.Some? && hit.value.data < |t.methods|
            && IsDataOf(t.methods[hit.value.data], r)
    decreases |rs|
  {
    var n := |rs| - 1;
    var t, last, r := AfterAll(rs[..n]), rs[n], rs[i];
    if i == n && Find(t.trie, Key(r), r.httpMethod).Some? {
      var j := OnlyCounting(rs[..n], Key(r), r.httpMethod);
      assert Clash(rs[j], rs[i]);
    }
    if i < n {
      assert Counts(rs[..n], i);
      HoldsCounting(rs[..n], i);
    }
    if last.template.Some? {
      InsertFind(t.trie, Key(last), last.httpMethod, |t.methods|, Key(r), r.httpMethod);
    }
  }

  lemma {:induction false} OnlyCounting<M>(rs: seq<Registration<M>>, path: PathTrie.Path, m: string)
    returns (i: nat)
    requires Find(AfterAll(rs).trie, path, m).Some?
    ensures Counts(rs, i) && Key(rs[i]) == path && rs[i].httpMethod == m
    ensures var t := AfterAll(rs);
            var hit := Find(t.trie, path, m).value;
            hit.data < |t.methods| && IsDataOf(t.methods[hit.data], rs[i])
    decreases |rs|
  {
    if rs == [] {
      FindEmpty(path, m);
    }
    var n := |rs| - 1;
    var t, last := AfterAll(rs[..n]), rs[n];
    if last.template.Some? {
      InsertFind(t.trie, Key(last), last.httpMethod, |t.methods|, path, m);
    }
    if Find(t.trie, path, m).Some? {
      i := OnlyCounting(rs[..n], path, m);
      assert Counts(rs, i);
    } else {
      i := n;
      forall j | 0 <= j < n
        ensures !Clash(rs[j], last)
      {
        if Clash(rs[j], last) {
          var k := FirstClash(rs[..n], j);
          HoldsCounting(rs[..n], k);
          assert false;
        }
      }
    }
  }

  /** A registration is accepted exactly when it counts. */
  lemma {:induction false} AcceptedCounts<M>(rs: seq<Registration<M>>, r: Registration<M>)
    ensures Accepts(AfterAll(rs), r) <==> Counts(rs + [r], |rs|)
  {
    var all := rs + [r];
    if r.template.Some? {
      if Find(AfterAll(rs).trie, Key(r), r.httpMethod).Some? {
        var i := OnlyCounting(rs, Key(r), r.httpMethod);
        assert Clash(all[i], all[|rs|]);
      }
      forall j | 0 <= j < |rs| && Clash(all[j], r)
        ensures Find(AfterAll(rs).trie, Key(r), r.httpMethod).Some?
      {
        var k := FirstClash(rs, j);
        HoldsCounting(rs, k);
      }
    }
  }

  /** The custom verbs are those of the counting registrations. */
  lemma {:induction false} VerbsOfCounting<M>(rs: seq<Registration<M>>, verb: string)
    ensures verb in AfterAll(rs).verbs <==>
            verb != "" && exists i :: 0 <= i < |rs| && Counts(rs, i) && rs[i].template.value.verb == verb
  {
    if rs != [] {
      var n := |rs| - 1;
      var init, last := rs[..n], rs[n];
      VerbsOfCounting(init, verb);
      AcceptedCounts(init, last);
      assert init + [last] == rs;
      assert forall i: nat :: i < n ==> (Counts(init, i) <==> Counts(rs, i));
    }
  }

  /** A verb registered once is split off every request that ends in it. */
  lemma {:induction false} RegisteredVerbRecognised<M>(rs: seq<Registration<M>>, i: nat, parts: PathTrie.Path,
                                                       query: string)
    requires Counts(rs, i) && parts != [] && AllFree(parts, {'/', '?'}) && IsQuery(query)
    requires var verb := rs[i].template.value.verb; verb != "" && Free(verb, {':', '/', '?'})
    ensures var verb := rs[i].template.value.verb;
            RequestParts("/" + Join(parts) + ":" + verb + query, AfterAll(rs).verbs) == parts + [verb]
  {
    var verb := rs[i].template.value.verb;
    VerbsOfCounting(rs, verb);
    VerbRoundTrip(parts, verb, query, AfterAll(rs).verbs);
  }

  // ---------------------------------------------------------------------------
  // Lookups, said of the registrations alone
  // ---------------------------------------------------------------------------

  ghost predicate Answers<M>(rs: seq<Registration<M>>, i: nat, parts: PathTrie.Path, httpMethod: string) {
    && Counts(rs, i) && Matches(Key(rs[i]), parts)
    && rs[i].httpMethod in {httpMethod, "*"}
  }

  /** The preference between two answering registrations: the better key path,
      and on one key path the exact method. */
  ghost predicate Prefers<M>(rs: seq<Registration<M>>, i: nat, j: nat, parts: PathTrie.Path, httpMethod: string)
    requires Counts(rs, i) && Counts(rs, j)
  {
    if Key(rs[i]) == Key(rs[j]) then rs[i].httpMethod == httpMethod != rs[j].httpMethod
    else Precedes(Key(rs[i]), Key(rs[j]), parts)
  }

  /** No template is spoilt by its verb (`SearchAgreesIff`). */
  ghost predicate AllClean<M>(rs: seq<Registration<M>>) {
    forall i :: 0 <= i < |rs| && rs[i].template.Some? ==> Clean(Key(rs[i]))
  }

  /** The registration behind the answer at a key path. */
  lemma {:induction false} AnswerCounts<M>(rs: seq<Registration<M>>, path: PathTrie.Path, httpMethod: string)
    returns (i: nat)
    requires AnswerAt(AfterAll(rs).trie, path, httpMethod).Some?
    ensures Counts(rs, i) && Key(rs[i]) == path && rs[i].httpMethod in {httpMethod, WILDCARD_METHOD}
    ensures var t := AfterAll(rs);
            var data := AnswerAt(t.trie, path, httpMethod).value.data;
            data < |t.methods| && IsDataOf(t.methods[data], rs[i])
    ensures forall j: nat :: Counts(rs, j) && Key(rs[j]) == path && j != i
                        && rs[j].httpMethod in {httpMethod, WILDCARD_METHOD}
                        ==> rs[i].httpMethod == httpMethod != rs[j].httpMethod
  {
    var t := AfterAll(rs);
    var m := if Find(t.trie, path, httpMethod).Some? then httpMethod else WILDCARD_METHOD;
    i := OnlyCounting(rs, path, m);
    forall j: nat | Counts(rs, j) && Key(rs[j]) == path && j != i
               && rs[j].httpMethod in {httpMethod, WILDCARD_METHOD}
      ensures rs[i].httpMethod == httpMethod != rs[j].httpMethod
    {
      HoldsCounting(rs, j);
      assert rs[j].httpMethod == rs[i].httpMethod ==> Clash(rs[i], rs[j]) && Clash(rs[j], rs[i]);
    }
  }

  lemma {:induction false} HoldsClean<M>(rs: seq<Registration<M>>)
    requires AllClean(rs)
    ensures forall p, m :: Find(AfterAll(rs).trie, p, m).Some? ==> Clean(p)
  {
    forall p, m | Find(AfterAll(rs).trie, p, m).Some?
      ensures Clean(p)
    {
      var i := OnlyCounting(rs, p, m);
    }
  }

  /** What it finds is the registration preferred to every other that answers. */
  lemma {:induction false} LookupFindsBest<M>(rs: seq<Registration<M>>, parts: PathTrie.Path, httpMethod: string)
    returns (i: nat)
    requires AllClean(rs) && Lookup(AfterAll(rs), parts, httpMethod).Some?
    ensures Answers(rs, i, parts, httpMethod)
    ensures var t := AfterAll(rs);
            var data := Lookup(t, parts, httpMethod).value;
            data < |t.methods| && IsDataOf(t.methods[data], rs[i])
    ensures forall j: nat :: Answers(rs, j, parts, httpMethod) && j != i ==> Prefers(rs, i, j, parts, httpMethod)
  {
    var trie := AfterAll(rs).trie;
    HoldsClean(rs);
    var p := SearchReturnsBest(trie, parts, httpMethod);
    i := AnswerCounts(rs, p, httpMethod);
    forall j: nat | Answers(rs, j, parts, httpMethod) && j != i
      ensures Prefers(rs, i, j, parts, httpMethod)
    {
      HoldsCounting(rs, j);
      assert AnswerAt(trie, Key(rs[j]), httpMethod).Some?;
    }
  }

  /** The trie is an index: a lookup finds nothing exactly when no counting
      registration matches the parts under the method or every method. */
  lemma {:induction false} LookupFindsMatch<M>(rs: seq<Registration<M>>, parts: PathTrie.Path, httpMethod: string)
    requires AllClean(rs)
    ensures Lookup(AfterAll(rs), parts, httpMethod).None? <==>
            forall i :: 0 <= i < |rs| ==> !Answers(rs, i, parts, httpMethod)
  {
    if Lookup(AfterAll(rs), parts, httpMethod).Some? {
      var i := LookupFindsBest(rs, parts, httpMethod);
      assert Answers(rs, i, parts, httpMethod);
    }
    forall i | 0 <= i < |rs| && Answers(rs, i, parts, httpMethod)
      ensures Lookup(AfterAll(rs), parts, httpMethod).Some?
    {
      HoldsCounting(rs, i);
      ReachesMatches(Key(rs[i]), parts);
      SearchSome(AfterAll(rs).trie, false, parts, httpMethod, Key(rs[i]));
    }
  }

  /** A rejected registration changes no lookup, no verb and no method data. */
  lemma {:induction false} RejectedChangesNothing<M>(t: Table<M>, r: Registration<M>,
                                                     parts: PathTrie.Path, httpMethod: string)
    requires !Accepts(t, r)
    ensures Lookup(After(t, r), parts, httpMethod) == Lookup(t, parts, httpMethod)
    ensures After(t, r).verbs == t.verbs && After(t, r).methods == t.methods
  {
    if r.template.Some? {
      InsertDuplicate(t.trie, Key(r), r.httpMethod, |t.methods|, parts, httpMethod);
    }
  }

  /** An accepted one changes lookups only of parts its key path matches and
      methods it answers. */
  lemma {:induction false} AcceptedChangesOnlyMatches<M>(t: Table<M>, r: Registration<M>,
                                                         parts: PathTrie.Path, httpMethod: string)
    requires Accepts(t, r) && Clean(Key(r))
    requires !(Matches(Key(r), parts) && r.httpMethod in {httpMethod, WILDCARD_METHOD})
    ensures Lookup(After(t, r), parts, httpMethod) == Lookup(t, parts, httpMethod)
    ensures t.methods <= After(t, r).methods
  {
    ReachesMatches(Key(r), parts);
    InsertLeavesOthers(t.trie, Key(r), r.httpMethod, |t.methods|, parts, httpMethod);
  }

  /** What the lookup of a request path leads to. */
  function LookupPathOf<M>(t: Table<M>, path: string, httpMethod: string): Option<nat> {
    Lookup(t, RequestParts(path, t.verbs), httpMethod)
  }

  /** On request paths an accepted registration also changes how those that end
      in its verb are split, and no others, unless the verb was registered
      before.  Where the split stays, only matching requests are affected. */
  lemma {:induction false} AcceptedChangesOnlyRequests<M>(t: Table<M>, r: Registration<M>,
                                                          path: string, httpMethod: string)
    requires Accepts(t, r) && Clean(Key(r))
    ensures var verb, parts := r.template.value.verb, RequestParts(path, t.verbs);
            var same := verb == "" || verb in t.verbs || !EndsInVerb(CutQuery(path), {verb});
            && (RequestParts(path, After(t, r).verbs) == parts <==> same)
            && (same && !(Matches(Key(r), parts) && r.httpMethod in {httpMethod, WILDCARD_METHOD}) ==>
                LookupPathOf(After(t, r), path, httpMethod) == LookupPathOf(t, path, httpMethod))
  {
    var verb, parts := r.template.value.verb, RequestParts(path, t.verbs);
    if verb != "" {
      AnotherVerb(path, t.verbs, verb);
    }
    if !(Matches(Key(r), parts) && r.httpMethod in {httpMethod, WILDCARD_METHOD}) {
      AcceptedChangesOnlyMatches(t, r, parts, httpMethod);
    }
  }

  /** Not so where the split changes: with the template of one `*` registered, a
      second template of a literal and a new verb makes every one-part request
      that ends in this verb disappear, though the literal is not the request's. */
  lemma {:induction false} NewVerbChangesOthers<M>(first: Registration<M>, second: Registration<M>,
                                                   literal: string, verb: string, head: string)
    requires IsLiteralText(literal) && IsVerbText(verb) && Free(verb, {'?'})
    requires Free(head, {'/', '?'}) && head != literal
    requires Parsed(first) && first.text == "/*" && first.httpMethod == "GET"
    requires Parsed(second) && second.text == "/" + literal + ":" + verb && second.httpMethod == "GET"
    ensures var before, after, path := AfterAll([first]), AfterAll([first, second]), "/" + head + ":" + verb;
            && second.template.Some? && Accepts(before, second)
            && LookupPathOf(before, path, "GET").Some? && LookupPathOf(after, path, "GET").None?
            && !Matches(Key(second), RequestParts(path, before.verbs))
            && !Matches(Key(second), RequestParts(path, after.verbs))
  {
    StarTemplate(first.text);
    LiteralText(literal, verb);
    assert IsConstant(literal) by {
      assert SINGLE_PARAMETER_KEY[0] == '/' && WILDCARD_PART_KEY[0] == '*' && WILDCARD_PATH_KEY[0] == '*';
    }
    VerbReadings(head, verb);
    assert (head + ":" + verb)[|head|] == ':';
    ReadingsLookedUp(first, second, literal, verb, head, head + ":" + verb);
    TwoTables(first, second, verb);
  }

  lemma {:induction false} TwoTables<M>(first: Registration<M>, second: Registration<M>, verb: string)
    requires first.template == Some(HttpTemplate(["*"], "", []))
    requires second.template.Some? && second.template.value.verb == verb != "" && Key(second) != ["*"]
    ensures AfterAll([first]).verbs == {} && AfterAll([first, second]).verbs == {verb}
    ensures Accepts(AfterAll([first]), second)
  {
    var rs, one := [first, second], [first];
    assert rs[..1] == one && one + [second] == rs && one[..0] == [];
    AcceptedCounts(one, second);
  }

  lemma {:induction false} ReadingsLookedUp<M>(first: Registration<M>, second: Registration<M>,
                                               literal: string, verb: string, head: string, whole: string)
    requires first.template == Some(HttpTemplate(["*"], "", [])) && first.httpMethod == "GET"
    requires second.template == Some(HttpTemplate([literal], verb, [])) && verb != ""
    requires IsConstant(literal) && head != literal && whole != literal
    ensures !Matches(Key(second), [whole]) && !Matches(Key(second), [head, verb])
    ensures Lookup(AfterAll([first]), [whole], "GET").Some?
    ensures Lookup(AfterAll([first, second]), [head, verb], "GET").None?
  {
    var rs, one := [first, second], [first];
    assert Key(first) == ["*"] && Key(second) == [literal, verb];
    LiteralVerb(literal, verb, head, whole);
    assert Answers(one, 0, [whole], "GET");
    LookupFindsMatch(one, [whole], "GET");
    LookupFindsMatch(rs, [head, verb], "GET");
  }

  lemma {:induction false} LiteralVerb(literal: string, verb: string, head: string, whole: string)
    requires IsConstant(literal) && head != literal && whole != literal
    ensures Clean(["*"]) && Clean([literal, verb])
    ensures Matches(["*"], [whole]) && !Matches(["*"], [head, verb])
    ensures !Matches([literal, verb], [whole]) && !Matches([literal, verb], [head, verb])
  {
    var path := [literal, verb];
    assert WildAt(path) >= 1;
    if WildAt(path) < 2 {
      assert path[..1][0] == literal;
      MatchesTail(path, [whole]);
    }
    MatchesTail(path, [head, verb]);
  }

  lemma {:induction false} VerbReadings(head: string, verb: string)
    requires IsVerbText(verb) && Free(verb, {'?'}) && Free(head, {'/', '?'})
    ensures var path := "/" + head + ":" + verb;
            RequestParts(path, {}) == [head + ":" + verb] && RequestParts(path, {verb}) == [head, verb]
  {
    var whole, path := head + ":" + verb, "/" + head + ":" + verb;
    assert "/" + whole == path && path + "" == path;
    NoVerbParts([whole], "", {});
    VerbRoundTrip([head], verb, "", {verb});
    assert [head] + [verb] == [head, verb];
  }

  lemma {:induction false} StarTemplate(s: string)
    requires s == "/*"
    ensures TemplateOf(s) == Some(HttpTemplate(["*"], "", []))
  {
    var t := Template([Star], "");
    assert PrintSegments(t.segments) == "*" && Print(t) == s;
    assert t.segments[..0] == [] && FlatAll(t.segments) == ["*"] && AllVariables(t.segments, 0) == [];
    assert AllFromEnd([], 1, "") == [];
    AcceptsExactlyPrinted(s, t);
  }

  function LiteralTexts(segments: seq<Segment>): PathTrie.Path
    requires forall i :: 0 <= i < |segments| ==> segments[i].Literal?
  {
    seq(|segments|, i requires 0 <= i < |segments| => segments[i].text)
  }

  lemma {:induction false} LiteralsPrinted(segments: seq<Segment>)
    requires forall i :: 0 <= i < |segments| ==> segments[i].Literal?
    ensures PrintSegments(segments) == Join(LiteralTexts(segments))
  {
    if |segments| > 1 {
      LiteralsPrinted(segments[1..]);
      assert LiteralTexts(segments)[1..] == LiteralTexts(segments[1..]);
    }
  }

  lemma {:induction false} LiteralsFlat(segments: seq<Segment>)
    requires forall i :: 0 <= i < |segments| ==> segments[i].Literal?
    ensures FlatAll(segments) == LiteralTexts(segments)
  {
    if segments != [] {
      var n := |segments| - 1;
      LiteralsFlat(segments[..n]);
      assert LiteralTexts(segments) == LiteralTexts(segments[..n]) + [segments[n].text];
    }
  }

  lemma {:induction false} MatchesItself(path: PathTrie.Path)
    requires WildAt(path) >= |path| - 1
    ensures Matches(path, path)
  {
    var w := WildAt(path);
    if w < |path| {
      assert path[|path|..] == [] && path[w + 1..] == [];
      assert forall i :: 0 <= i < w ==> path[..w][i] == path[i];
    }
  }

  /** Round trip through everything: a registered template of literals, with or
      without a verb, answers the request for its own text. */
  lemma {:induction false} LiteralTemplateAnswersItself<M>(rs: seq<Registration<M>>, i: nat, t: Template)
    requires Counts(rs, i) && Parsed(rs[i]) && ValidTemplate(t) && rs[i].text == Print(t)
    requires forall j :: 0 <= j < |t.segments| ==> t.segments[j].Literal? && Free(t.segments[j].text, {'?'})
    requires Free(t.verb, {'?'})
    ensures Answers(rs, i, RequestParts(rs[i].text, AfterAll(rs).verbs), rs[i].httpMethod)
  {
    var texts, verbs := LiteralTexts(t.segments), AfterAll(rs).verbs;
    TemplateOfPrinted(t);
    LiteralsFlat(t.segments);
    LiteralsPrinted(t.segments);
    TextsAreParts(t, texts);
    assert t.verb != "" ==> t.verb in verbs by {
      VerbsOfCounting(rs, t.verb);
    }
    LiteralRequestParts(texts, t.verb, verbs);
    assert Print(t) == "/" + Join(texts) + PrintVerb(t.verb);
    assert Key(rs[i]) == texts + VerbKeys(t.verb);
    LiteralsBeforeWild(texts, t.verb);
    MatchesItself(Key(rs[i]));
  }

  lemma {:induction false} TextsAreParts(t: Template, texts: PathTrie.Path)
    requires ValidTemplate(t)
    requires forall j :: 0 <= j < |t.segments| ==> t.segments[j].Literal? && Free(t.segments[j].text, {'?'})
    requires texts == LiteralTexts(t.segments)
    ensures texts != [] && AllFree(texts, {'/', '?'})
    ensures forall j :: 0 <= j < |texts| ==> texts[j] != "" && texts[j] != "**" && Free(texts[j], {':'})
  {
    forall j | 0 <= j < |texts|
      ensures texts[j] != "" && texts[j] != "**" && Free(texts[j], {':'}) && Free(texts[j], {'/', '?'})
    {
      assert ValidSegment(t.segments[j], false);
      assert "**"[0] == '*';
    }
  }

  lemma {:induction false} LiteralRequestParts(texts: PathTrie.Path, verb: string, verbs: set<string>)
    requires texts != [] && AllFree(texts, {'/', '?'})
    requires forall j :: 0 <= j < |texts| ==> texts[j] != "" && Free(texts[j], {':'})
    requires Free(verb, {'/', ':', '}'}) && Free(verb, {'?'}) && (verb != "" ==> verb in verbs)
    ensures RequestParts("/" + Join(texts) + PrintVerb(verb), verbs) == texts + VerbKeys(verb)
  {
    if verb == "" {
      PlainRequestParts(texts, verbs);
      EmptyEnd("/" + Join(texts));
      assert texts + [] == texts;
    } else {
      VerbRoundTrip(texts, verb, "", verbs);
      EmptyEnd("/" + Join(texts) + ":" + verb);
      StringsRegroup("/" + Join(texts), ":", verb);
    }
  }

  lemma {:induction false} PlainRequestParts(texts: PathTrie.Path, verbs: set<string>)
    requires texts != [] && AllFree(texts, {'/', '?'})
    requires forall j :: 0 <= j < |texts| ==> texts[j] != "" && Free(texts[j], {':'})
    ensures RequestParts("/" + Join(texts), verbs) == texts
  {
    assert LastIndexOf(texts[|texts| - 1], ':') == -1;
    NoVerbParts(texts, "", verbs);
    EmptyEnd("/" + Join(texts));
  }

  lemma EmptyEnd(s: string)
    ensures s + "" == s
  {}

  lemma StringsRegroup(a: string, b: string, c: string)
    ensures a + b + c == a + (b + c)
  {}

  lemma {:induction false} LiteralsBeforeWild(texts: PathTrie.Path, verb: string)
    requires forall j :: 0 <= j < |texts| ==> texts[j] != "**"
    ensures var path := texts + VerbKeys(verb); WildAt(path) >= |path| - 1
  {
    var path := texts + VerbKeys(verb);
    assert forall j :: 0 <= j < |texts| ==> path[j] == texts[j];
    assert WildAt(path) >= |texts|;
  }

  /** Spelling out `{f}` as `{f=*}` does not make a new template: after either text
      the other is refused under the same method. */
  lemma {:induction false} SpellingIsRefused<M>(rs: seq<Registration<M>>, i: nat, r: Registration<M>, t: Template)
    requires AllParsed(rs + [r]) && i < |rs| && rs[i].httpMethod == r.httpMethod && ValidTemplate(t)
    requires var long := Print(t.(segments := AllWrittenOut(t.segments)));
             (rs[i].text == Print(t) && r.text == long) || (rs[i].text == long && r.text == Print(t))
    ensures !Accepts(AfterAll(rs), r)
  {
    FieldPathMeansStar(t);
    var all := rs + [r];
    assert Parsed(all[i]) && Parsed(all[|rs|]) && all[i] == rs[i];
    AcceptedCounts(rs, r);
    assert r.template.Some? ==> Clash(all[i], all[|rs|]);
  }

  /** What the registrations promise for a request: the i-th is the preferred one
      that answers. */
  ghost predicate IsPreferred<M>(rs: seq<Registration<M>>, i: nat, parts: PathTrie.Path, httpMethod: string) {
    && Answers(rs, i, parts, httpMethod)
    && forall j: nat :: Answers(rs, j, parts, httpMethod) && j != i ==> Prefers(rs, i, j, parts, httpMethod)
  }

  /** The variables written in a template's text. */
  function WrittenVariables(text: string): seq<Segment> {
    if ParseAll(text).None? then []
    else
      var segments := ParseAll(text).value.segments;
      var js := VariableIndices(segments);
      seq(|js|, k requires 0 <= k < |js| => segments[js[k]])
  }

  /** There is one binding for each variable written, in order and with its field
      path.  If no `**` is written before it or `**` took one part, its value is
      the join of exactly the parts its own sub-template matched. */
  ghost predicate BindsAsWritten(text: string, bindings: seq<VariableBinding>, parts: PathTrie.Path) {
    && |bindings| == |WrittenVariables(text)|
    && forall k :: 0 <= k < |bindings| ==> BindsOne(text, bindings[k], parts, k)
  }

  ghost predicate BindsOne(text: string, binding: VariableBinding, parts: PathTrie.Path, k: nat)
    requires k < |WrittenVariables(text)|
  {
    var t := ParseAll(text).value;
    var j := VariableIndices(t.segments)[k];
    && binding.fields == t.segments[j].fields
    && (WILDCARD_PATH_KEY !in FlatAll(t.segments[..j])
        || |parts| == |FlatAll(t.segments)| + |VerbKeys(t.verb)| ==>
        exists lo, hi :: TakesItsParts(binding, t, j, parts, lo, hi))
  }

  /** End to end, from registered texts: a lookup leads to the preferred
      registration, and what is bound by it is all that its text asks for. */
  lemma {:induction false} LookupBindsMatched<M>(rs: seq<Registration<M>>, parts: PathTrie.Path,
                                                 httpMethod: string, bindings: seq<VariableBinding>)
    returns (i: nat)
    requires AllParsed(rs) && AllClean(rs) && Lookup(AfterAll(rs), parts, httpMethod).Some?
    requires BoundBy(AfterAll(rs), Lookup(AfterAll(rs), parts, httpMethod).value, parts, bindings)
    ensures IsPreferred(rs, i, parts, httpMethod)
    ensures AfterAll(rs).methods[Lookup(AfterAll(rs), parts, httpMethod).value].op == rs[i].op
    ensures BindsAsWritten(rs[i].text, bindings, parts)
  {
    i := LookupFindsBest(rs, parts, httpMethod);
    AllBindsWritten(rs[i], parts, bindings);
  }

  /** The bindings extracted for the variables stored with a method. */
  ghost predicate BoundBy<M>(t: Table<M>, data: nat, parts: PathTrie.Path, bindings: seq<VariableBinding>) {
    && data < |t.methods| && |bindings| == |t.methods[data].variables|
    && forall k :: 0 <= k < |bindings| ==>
         && InRange(t.methods[data].variables[k], |parts|)
         && bindings[k] == Bind(t.methods[data].variables[k], parts, true)
  }

  lemma {:induction false} WrittenCount<M>(r: Registration<M>)
    requires Parsed(r) && r.template.Some?
    ensures |WrittenVariables(r.text)| == |r.template.value.variables|
    ensures forall k :: 0 <= k < |r.template.value.variables| ==>
              r.template.value.variables[k].fields == WrittenVariables(r.text)[k].fields
  {
    if r.text == "/" {
      RootHasNoTree(r.text);
    } else {
      TemplateVariables(r.text);
    }
  }

  lemma {:induction false} RootHasNoTree(s: string)
    requires s == "/"
    ensures ParseAll(s).None?
  {
    if ParseAll(s).Some? {
      ParseInvertsPrint(s, ParseAll(s).value);
      PrintedIsNotRoot(ParseAll(s).value);
    }
  }

  lemma {:induction false} AllBindsWritten<M>(r: Registration<M>, parts: PathTrie.Path,
                                              bindings: seq<VariableBinding>)
    requires Parsed(r) && r.template.Some? && Clean(Key(r)) && Matches(Key(r), parts)
    requires |bindings| == |r.template.value.variables|
    requires forall k :: 0 <= k < |bindings| ==>
               && InRange(r.template.value.variables[k], |parts|)
               && bindings[k] == Bind(r.template.value.variables[k], parts, true)
    ensures BindsAsWritten(r.text, bindings, parts)
  {
    WrittenCount(r);
    forall k | 0 <= k < |bindings|
      ensures BindsOne(r.text, bindings[k], parts, k)
    {
      OneBindsWritten(r, parts, k);
    }
  }

  lemma {:induction false} OneBindsWritten<M>(r: Registration<M>, parts: PathTrie.Path, k: nat)
    requires Parsed(r) && r.template.Some? && Clean(Key(r)) && Matches(Key(r), parts)
    requires k < |WrittenVariables(r.text)| && k < |r.template.value.variables|
    requires InRange(r.template.value.variables[k], |parts|)
    ensures BindsOne(r.text, Bind(r.template.value.variables[k], parts, true), parts, k)
  {
    SearchAgreesIff(r.text);
    WrittenVariableBound(r.text, parts, k);
    WrittenCount(r);
    if r.text == "/" {
      RootHasNoTree(r.text);
    } else {
      TemplateVariables(r.text);
    }
  }

  lemma {:induction false} ParsedPlaced<M>(r: Registration<M>)
    requires Parsed(r) && r.template.Some?
    ensures WellPlaced(r.template.value)
  {
    TemplateWellPlaced(r.text);
  }

  // ---------------------------------------------------------------------------
  // The matcher
  // ---------------------------------------------------------------------------

  /** Whatever a lookup leads to, whether or not a verb spoils a template, comes
      from one registration and can be bound without leaving the parts. */
  lemma {:induction false} LookupInRange<M>(rs: seq<Registration<M>>, parts: PathTrie.Path, httpMethod: string)
    returns (i: nat)
    requires AllParsed(rs)
    requires Lookup(AfterAll(rs), parts, httpMethod).Some?
    ensures Counts(rs, i) && Reaches(false, Key(rs[i]), parts)
    ensures var t, data := AfterAll(rs), Lookup(AfterAll(rs), parts, httpMethod).value;
            && data < |t.methods| && IsDataOf(t.methods[data], rs[i])
            && |t.methods[data].variables| == |WrittenVariables(rs[i].text)|
            && forall k :: 0 <= k < |t.methods[data].variables| ==>
                 InRange(t.methods[data].variables[k], |parts|)
  {
    var t := AfterAll(rs);
    var p := SearchBest(t.trie, false, parts, httpMethod);
    i := AnswerCounts(rs, p, httpMethod);
    ParsedPlaced(rs[i]);
    WrittenCount(rs[i]);
    forall k | 0 <= k < |rs[i].template.value.variables|
      ensures InRange(rs[i].template.value.variables[k], |parts|)
    {
      BindingsInRange(rs[i].template.value, parts, k);
    }
  }

  class PathMatcher<M> {
    var root: PathMatcherNode
    var customVerbs: set<string>
    var methods: seq<MethodData<M>>
    ghost var History: seq<Registration<M>>

    ghost predicate Valid()
      reads this, root, root.Repr
    {
      && root.Valid() && this !in root.Repr && !root.wildcard
      && Table(root.Value, customVerbs, methods) == AfterAll(History)
      && AllParsed(History)
    }

    constructor ()
      ensures Valid() && History == [] && fresh(root.Repr)
    {
      root := new PathMatcherNode();
      customVerbs, methods, History := {}, [], [];
    }

    /** Registers a template; false when it is invalid or a duplicate. */
    method Register(httpMethod: string, httpTemplate: string, bodyFieldPath: string, op: M)
      returns (ok: bool)
      requires Valid()
      modifies this, root.Repr
      ensures Valid() && root == old(root) && fresh(root.Repr - old(root.Repr))
      ensures History == old(History) +
                [Registration(httpMethod, httpTemplate, TemplateOf(httpTemplate), bodyFieldPath, op)]
      ensures ok == Counts(History, |old(History)|)
    {
      var ht := ParseHttpTemplate(httpTemplate);
      ghost var r := Registration(httpMethod, httpTemplate, ht, bodyFieldPath, op);
      if ht.None? {
        Record(r);
        return false;
      }
      ok := RegisterTemplate(httpMethod, ht.value, bodyFieldPath, op, r);
    }

    method RegisterTemplate(httpMethod: string, ht: HttpTemplate, bodyFieldPath: string, op: M,
                            ghost r: Registration<M>)
      returns (ok: bool)
      requires Valid() && Parsed(r) && r == Registration(httpMethod, r.text, Some(ht), bodyFieldPath, op)
      modifies this, root.Repr
      ensures Valid() && root == old(root) && fresh(root.Repr - old(root.Repr))
      ensures History == old(History) + [r]
      ensures ok == Counts(History, |old(History)|)
    {
      AcceptedCounts(History, r);
      var path := TransformHttpTemplate(ht);
      ok := InsertPath(path, httpMethod);
      StoreMethod(ok, ht, MethodData(op, ht.variables, bodyFieldPath), r);
    }

    /** What follows the insertion: the method data and the custom verb. */
    method StoreMethod(ok: bool, ht: HttpTemplate, data: MethodData<M>, ghost r: Registration<M>)
      requires root.Valid() && this !in root.Repr && !root.wildcard
      requires AllParsed(History) && Parsed(r) && r.template == Some(ht) && data == DataOf(r)
      requires var t := AfterAll(History);
               && ok == Accepts(t, r) && root.Value == After(t, r).trie
               && customVerbs == t.verbs && methods == t.methods
      modifies this`methods, this`customVerbs, this`History
      ensures Valid() && History == old(History) + [r]
    {
      if ok {
        methods := methods + [data];
        if ht.verb != "" {
          customVerbs := customVerbs + {ht.verb};
        }
      }
      Record(r);
    }

    method InsertPath(path: PathTrie.Path, httpMethod: string) returns (ok: bool)
      requires Valid()
      modifies root.Repr
      ensures unchanged(this) && root.Valid() && this !in root.Repr && !root.wildcard
      ensures fresh(root.Repr - old(root.Repr))
      ensures root.Value == Insert(old(root.Value), path, httpMethod, |methods|)
      ensures ok == Find(old(root.Value), path, httpMethod).None?
    {
      assert path[0..] == path;
      ok := root.InsertTemplate(path, 0, httpMethod, |methods|);
    }

    ghost method Record(r: Registration<M>)
      requires root.Valid() && this !in root.Repr && !root.wildcard
      requires Table(root.Value, customVerbs, methods) == After(AfterAll(History), r)
      requires AllParsed(History) && Parsed(r)
      modifies this`History
      ensures Valid() && History == old(History) + [r]
    {
      assert (History + [r])[..|History|] == History;
      History := History + [r];
    }

    /** Looks a request up and binds its template's variables. */
    method LookupRequest(httpMethod: string, path: string)
      returns (op: Option<M>, bindings: seq<VariableBinding>)
      requires Valid()
      ensures var parts := RequestParts(path, customVerbs);
              var found := Lookup(AfterAll(History), parts, httpMethod);
              if found.None? then op == None && bindings == []
              else BoundBy(AfterAll(History), found.value, parts, bindings)
                   && op == Some(methods[found.value].op)
      ensures op.Some? ==> exists i: nat :: && Counts(History, i) && op.value == History[i].op
                                            && |bindings| == |WrittenVariables(History[i].text)|
      ensures AllClean(History) ==>
                Serves(History, RequestParts(path, customVerbs), httpMethod, op, bindings)
    {
      var parts := ExtractRequestParts(path, customVerbs);
      assert parts[0..] == parts;
      var result := root.LookupPath(parts, 0, httpMethod);
      if result.None? {
        NothingServes(History, parts, httpMethod);
        return None, [];
      }
      ghost var i := LookupInRange(History, parts, httpMethod);
      var data := methods[result.value.data];
      bindings := ExtractBindingsFromPath(data.variables, parts, true);
      op := Some(data.op);
      FoundServes(History, parts, httpMethod, bindings);
    }
  }

  /** What a request is answered with, from the registered texts alone: nothing if
      none answers, and otherwise the operation of the preferred registration with
      all the bindings its text asks for. */
  ghost predicate Serves<M>(rs: seq<Registration<M>>, parts: PathTrie.Path, httpMethod: string,
                                  op: Option<M>, bindings: seq<VariableBinding>)
  {
    if op.None? then bindings == [] && forall i :: 0 <= i < |rs| ==> !Answers(rs, i, parts, httpMethod)
    else exists i: nat :: && IsPreferred(rs, i, parts, httpMethod) && op.value == rs[i].op
                          && BindsAsWritten(rs[i].text, bindings, parts)
  }

  lemma {:induction false} NothingServes<M>(rs: seq<Registration<M>>, parts: PathTrie.Path, httpMethod: string)
    requires Lookup(AfterAll(rs), parts, httpMethod).None?
    ensures AllClean(rs) ==> Serves(rs, parts, httpMethod, None, [])
  {
    if AllClean(rs) {
      LookupFindsMatch(rs, parts, httpMethod);
    }
  }

  lemma {:induction false} FoundServes<M>(rs: seq<Registration<M>>, parts: PathTrie.Path, httpMethod: string,
                                                bindings: seq<VariableBinding>)
    requires AllParsed(rs) && Lookup(AfterAll(rs), parts, httpMethod).Some?
    requires BoundBy(AfterAll(rs), Lookup(AfterAll(rs), parts, httpMethod).value, parts, bindings)
    ensures var op := Some(AfterAll(rs).methods[Lookup(AfterAll(rs), parts, httpMethod).value].op);
            AllClean(rs) ==> Serves(rs, parts, httpMethod, op, bindings)
  {
    if AllClean(rs) {
      var i := LookupBindsMatched(rs, parts, httpMethod, bindings);
    }
  }

  /** Builds the key path, segment by segment. */
  method TransformHttpTemplate(ht: HttpTemplate) returns (path: PathTrie.Path)
    ensures path == KeyPath(ht)
  {
    path := [];
    for i := 0 to |ht.segments|
      invariant path == ht.segments[..i]
    {
      path := path + [ht.segments[i]];
    }
    assert path == ht.segments;
    if ht.verb != "" {
      path := path + [ht.verb];
    }
  }
}
