/** The trie of path keys behind the path matcher, as a value.

    `Insert` and `Search` follow `PathMatcherNode::InsertTemplate` and
    `PathMatcherNode::LookupPath` branch by branch; the class in
    PathMatcherNode.dfy is proved to compute them in place.  Everything a caller
    relies on is stated here against two definitions that know nothing of tries:
    `Matches`, which key paths fit a request, and `Precedes`, which of two
    fitting key paths is preferred. */
module PathTrie {

  import opened Wrappers

  /** The keys with a special meaning in a template's key path. */
  const SINGLE_PARAMETER_KEY := "/."
  const WILDCARD_PART_KEY := "*"
  const WILDCARD_PATH_KEY := "**"

  /** The HTTP method under which a template answers for every method. */
  const WILDCARD_METHOD := "*"

  type Path = seq<string>

  /** `PathMatcherLookupResult`; `data` stands for a non-null pointer. */
  datatype Hit = Hit(data: nat, isMultiple: bool)

  datatype Trie = Trie(results: map<string, Hit>, kids: map<string, Trie>)

  const EMPTY := Trie(map[], map[])

  // ---------------------------------------------------------------------------
  // The operations
  // ---------------------------------------------------------------------------

  /** The result for `httpMethod`, or else the one for every method. */
  function Answer(results: map<string, Hit>, httpMethod: string): Option<Hit> {
    if httpMethod in results then Some(results[httpMethod])
    else if WILDCARD_METHOD in results then Some(results[WILDCARD_METHOD])
    else None
  }

  function Kid(t: Trie, key: string): Trie {
    if key in t.kids then t.kids[key] else EMPTY
  }

  /** Depth-first search: the literal child first, then either the node itself
      again (a `**` node swallows one more part) or the three special children. */
  function Search(t: Trie, wild: bool, parts: Path, httpMethod: string): Option<Hit>
    decreases |parts|, 1
  {
    if parts == [] then
      var here := Answer(t.results, httpMethod);
      if here.Some? then here else Answer(Kid(t, WILDCARD_PATH_KEY).results, httpMethod)
    else
      var literal := SearchKid(t, parts[0], parts, httpMethod);
      if literal.Some? then literal
      else if wild then Search(t, true, parts[1..], httpMethod)
      else
        var single := SearchKid(t, SINGLE_PARAMETER_KEY, parts, httpMethod);
        if single.Some? then single
        else
          var star := SearchKid(t, WILDCARD_PART_KEY, parts, httpMethod);
          if star.Some? then star else SearchKid(t, WILDCARD_PATH_KEY, parts, httpMethod)
  }

  function SearchKid(t: Trie, key: string, parts: Path, httpMethod: string): Option<Hit>
    requires parts != []
    decreases |parts|, 0
  {
    if key in t.kids then Search(t.kids[key], key == WILDCARD_PATH_KEY, parts[1..], httpMethod)
    else None
  }

  /** Walks to the node of `path`, creating what is missing, and stores the
      result there unless the method already has one, which is then marked. */
  function Insert(t: Trie, path: Path, httpMethod: string, data: nat): Trie
    decreases |path|
  {
    if path == [] then
      t.(results := t.results[httpMethod := if httpMethod in t.results
                                        then t.results[httpMethod].(isMultiple := true)
                                        else Hit(data, false)])
    else
      t.(kids := t.kids[path[0] := Insert(Kid(t, path[0]), path[1..], httpMethod, data)])
  }

  // ---------------------------------------------------------------------------
  // What a trie contains
  // ---------------------------------------------------------------------------

  /** The result stored under exactly this key path and method. */
  function Find(t: Trie, path: Path, httpMethod: string): Option<Hit> {
    if path == [] then
      if httpMethod in t.results then Some(t.results[httpMethod]) else None
    else if path[0] in t.kids then Find(t.kids[path[0]], path[1..], httpMethod)
    else None
  }

  /** The result a request with `httpMethod` gets at key path `path`: the exact
      method's, or else the one registered for every method. */
  function AnswerAt(t: Trie, path: Path, httpMethod: string): Option<Hit> {
    var exact := Find(t, path, httpMethod);
    if exact.Some? then exact else Find(t, path, WILDCARD_METHOD)
  }

  /** Inserting changes the entry of its own key path and method and no other;
      an existing entry keeps its data and is marked. */
  lemma {:induction false} InsertFind(t: Trie, path: Path, httpMethod: string, data: nat, q: Path, m: string)
    ensures Find(Insert(t, path, httpMethod, data), q, m) ==
            if q != path || m != httpMethod then Find(t, q, m)
            else if Find(t, q, m).Some? then Some(Find(t, q, m).value.(isMultiple := true))
            else Some(Hit(data, false))
    decreases |path|
  {
    if path != [] && q != [] {
      assert q == path <==> q[0] == path[0] && q[1..] == path[1..] by {
        assert q == [q[0]] + q[1..] && path == [path[0]] + path[1..];
      }
      if q[0] == path[0] {
        InsertFind(Kid(t, path[0]), path[1..], httpMethod, data, q[1..], m);
        FindEmpty(q[1..], m);
      }
    }
  }

  lemma FindEmpty(path: Path, httpMethod: string)
    ensures Find(EMPTY, path, httpMethod).None?
  {}

  lemma AnswerAtKid(t: Trie, key: string, path: Path, httpMethod: string)
    ensures AnswerAt(t, [key] + path, httpMethod) == AnswerAt(Kid(t, key), path, httpMethod)
  {
    assert ([key] + path)[1..] == path;
    FindEmpty(path, httpMethod);
    FindEmpty(path, WILDCARD_METHOD);
  }

  // ---------------------------------------------------------------------------
  // One key path against one request
  // ---------------------------------------------------------------------------

  predicate IsConstant(key: string) {
    key != SINGLE_PARAMETER_KEY && key != WILDCARD_PART_KEY && key != WILDCARD_PATH_KEY
  }

  predicate AllConstant(path: Path) {
    forall i :: 0 <= i < |path| ==> IsConstant(path[i])
  }

  /** The position of the first `**`, or the length when there is none. */
  function WildAt(path: Path): (w: nat)
    ensures w <= |path|
    ensures forall i :: 0 <= i < w ==> path[i] != WILDCARD_PATH_KEY
    ensures w < |path| ==> path[w] == WILDCARD_PATH_KEY
  {
    if path == [] then 0
    else if path[0] == WILDCARD_PATH_KEY then 0
    else 1 + WildAt(path[1..])
  }

  /** Nothing but constants after the first `**`. */
  predicate Shape(path: Path) {
    var w := WildAt(path);
    w < |path| ==> AllConstant(path[w + 1..])
  }

  /** That is, after a `**` anywhere neither it nor a key for any one part. */
  lemma {:induction false} ShapeMeans(path: Path)
    ensures Shape(path) <==>
            forall i, j :: 0 <= i < j < |path| && path[i] == "**" ==>
              path[j] != "*" && path[j] != "**" && path[j] != "/."
  {
    var w := WildAt(path);
    if w < |path| {
      var after := path[w + 1..];
      assert forall j :: w < j < |path| ==> path[j] == after[j - w - 1];
      assert forall k :: 0 <= k < |after| ==> after[k] == path[w + 1 + k];
    }
  }

  /** Keys that the search reads literally after a `**`.  On a `**` node it tries
      no special children, so the first key may be `*` and stand for itself; the
      keys after that one have to be constants. */
  predicate Searchable(after: Path) {
    after == [] || (after[0] != WILDCARD_PATH_KEY && AllConstant(after[1..]))
  }

  /** The key paths whose keys after the first `**` are read literally. */
  predicate Clean(path: Path) {
    var w := WildAt(path);
    w < |path| ==> Searchable(path[w + 1..])
  }

  lemma ShapeClean(path: Path)
    requires Shape(path)
    ensures Clean(path)
  {}

  predicate Fits(key: string, part: string) {
    key == part || key == WILDCARD_PART_KEY || key == SINGLE_PARAMETER_KEY
  }

  predicate AllFit(path: Path, parts: Path)
    requires |path| <= |parts|
  {
    forall i :: 0 <= i < |path| ==> Fits(path[i], parts[i])
  }

  /** The reference meaning of a key path.  The keys before `**` fit the parts
      one to one; `**` takes what is left, at least one part when keys follow;
      the keys after it are the request's last parts. */
  predicate Matches(path: Path, parts: Path) {
    var w := WildAt(path);
    if w == |path| then |parts| == |path| && AllFit(path, parts)
    else
      var after := path[w + 1..];
      && |parts| >= w + |after| + (if after == [] then 0 else 1)
      && AllFit(path[..w], parts)
      && parts[|parts| - |after|..] == after
  }

  /** Whether the search can reach the node of `path` on `parts`; `wild` tells
      whether the search stands on a `**` node. */
  predicate Reaches(wild: bool, path: Path, parts: Path)
    decreases |parts|
  {
    if parts == [] then path == [] || path == [WILDCARD_PATH_KEY]
    else
      || ReachesVia(path, parts)
      || (if wild then Reaches(true, path, parts[1..])
          else path != [] && !IsConstant(path[0])
               && Reaches(path[0] == WILDCARD_PATH_KEY, path[1..], parts[1..]))
  }

  /** Reaching through the child named like the next part. */
  predicate ReachesVia(path: Path, parts: Path)
    requires parts != []
    decreases |parts|, 0
  {
    path != [] && path[0] == parts[0] && Reaches(path[0] == WILDCARD_PATH_KEY, path[1..], parts[1..])
  }

  lemma {:induction false} ReachesConstant(path: Path, parts: Path)
    requires AllConstant(path)
    ensures Reaches(false, path, parts) <==> path == parts
    decreases |parts|
  {
    if parts == [] && path != [] {
      assert IsConstant(path[0]);
    } else if path != [] {
      ReachesConstant(path[1..], parts[1..]);
      assert path == [path[0]] + path[1..] && parts == [parts[0]] + parts[1..];
    }
  }

  predicate IsSuffix(path: Path, parts: Path) {
    |path| <= |parts| && parts[|parts| - |path|..] == path
  }

  lemma {:induction false} SuffixTail(path: Path, parts: Path)
    requires |path| < |parts|
    ensures IsSuffix(path, parts) <==> IsSuffix(path, parts[1..])
  {
    assert parts[1..][|parts[1..]| - |path|..] == parts[|parts| - |path|..];
  }

  lemma {:induction false} ReachesViaSearchable(path: Path, parts: Path)
    requires Searchable(path) && parts != []
    ensures ReachesVia(path, parts) <==> path == parts
  {
    if path != [] {
      ReachesConstant(path[1..], parts[1..]);
      assert path == [path[0]] + path[1..] && parts == [parts[0]] + parts[1..];
    }
  }

  lemma {:induction false} ReachesWildSuffix(path: Path, parts: Path)
    requires Searchable(path)
    ensures Reaches(true, path, parts) <==> IsSuffix(path, parts)
    decreases |parts|
  {
    if parts != [] {
      ReachesWildSuffix(path, parts[1..]);
      ReachesViaSearchable(path, parts);
      if |path| < |parts| {
        SuffixTail(path, parts);
      } else if |path| == |parts| {
        assert parts[0..] == parts;
      }
    }
  }

  lemma {:induction false} FitsBefore(path: Path, parts: Path, i: nat)
    requires Matches(path, parts) && i < WildAt(path)
    ensures i < |parts| && Fits(path[i], parts[i])
  {
    var w := WildAt(path);
    if w < |path| {
      assert path[..w][i] == path[i];
    }
  }

  lemma {:induction false} EqualsAfter(path: Path, parts: Path, i: nat)
    requires Matches(path, parts) && WildAt(path) < i < |path|
    ensures 0 <= i - |path| + |parts| < |parts| && path[i] == parts[i - |path| + |parts|]
  {
    var w := WildAt(path);
    var after := path[w + 1..];
    assert path[i] == after[i - w - 1] == parts[|parts| - |after|..][i - w - 1];
  }

  /** Position by position, what makes a match. */
  lemma {:induction false} MatchesIntro(path: Path, parts: Path)
    requires var w := WildAt(path);
             && (w == |path| ==> |parts| == |path|)
             && (w < |path| ==> |parts| >= |path| - (if w + 1 == |path| then 1 else 0))
             && (forall i :: 0 <= i < w ==> Fits(path[i], parts[i]))
             && (forall i :: w < i < |path| ==> path[i] == parts[i - |path| + |parts|])
    ensures Matches(path, parts)
  {
    var w := WildAt(path);
    if w < |path| {
      var after := path[w + 1..];
      forall i | 0 <= i < |after|
        ensures after[i] == parts[|parts| - |after|..][i]
      {
        assert after[i] == path[w + 1 + i];
      }
    }
  }

  lemma {:induction false} WildAtTail(path: Path)
    requires path != [] && path[0] != WILDCARD_PATH_KEY
    ensures WildAt(path[1..]) == WildAt(path) - 1
    ensures Clean(path) <==> Clean(path[1..])
  {
    var w := WildAt(path);
    if w < |path| {
      assert path[w + 1..] == path[1..][w..];
    }
  }

  lemma {:induction false} MatchesDropFirst(path: Path, parts: Path)
    requires path != [] && path[0] != WILDCARD_PATH_KEY && Matches(path, parts)
    ensures parts != [] && Fits(path[0], parts[0]) && Matches(path[1..], parts[1..])
  {
    WildAtTail(path);
    var tail, rest := path[1..], parts[1..];
    FitsBefore(path, parts, 0);
    forall i | 0 <= i < WildAt(tail)
      ensures Fits(tail[i], rest[i])
    {
      FitsBefore(path, parts, i + 1);
    }
    forall i | WildAt(tail) < i < |tail|
      ensures tail[i] == rest[i - |tail| + |rest|]
    {
      EqualsAfter(path, parts, i + 1);
    }
    MatchesIntro(tail, rest);
  }

  lemma {:induction false} MatchesAddFirst(path: Path, parts: Path)
    requires path != [] && path[0] != WILDCARD_PATH_KEY
    requires parts != [] && Fits(path[0], parts[0]) && Matches(path[1..], parts[1..])
    ensures Matches(path, parts)
  {
    WildAtTail(path);
    var tail, rest := path[1..], parts[1..];
    forall i | 0 <= i < WildAt(path)
      ensures Fits(path[i], parts[i])
    {
      if i > 0 {
        FitsBefore(tail, rest, i - 1);
      }
    }
    forall i | WildAt(path) < i < |path|
      ensures path[i] == parts[i - |path| + |parts|]
    {
      EqualsAfter(tail, rest, i - 1);
    }
    MatchesIntro(path, parts);
  }

  /** A key path that does not start with `**` matches key by key. */
  lemma {:induction false} MatchesTail(path: Path, parts: Path)
    requires path != [] && parts != [] && path[0] != WILDCARD_PATH_KEY
    ensures Matches(path, parts) <==> Fits(path[0], parts[0]) && Matches(path[1..], parts[1..])
  {
    if Matches(path, parts) {
      MatchesDropFirst(path, parts);
    }
    if Fits(path[0], parts[0]) && Matches(path[1..], parts[1..]) {
      MatchesAddFirst(path, parts);
    }
  }

  /** A key path without `**` matches part by part; one with `**` matches what
      splits into parts for the keys before it, parts for `**`, at least one if
      keys follow, and those keys themselves. */
  lemma {:induction false} MatchesForms(front: Path, after: Path, parts: Path)
    requires forall i :: 0 <= i < |front| ==> front[i] != "**"
    ensures Matches(front, parts) <==>
            |parts| == |front| && forall i :: 0 <= i < |front| ==> front[i] in {parts[i], "*", "/."}
    ensures Matches(front + (["**"] + after), parts) <==>
            exists x, y :: && parts == x + y + after && |x| == |front| && (y != [] || after == [])
                           && forall i :: 0 <= i < |front| ==> front[i] in {x[i], "*", "/."}
  {
    var path, n := front + (["**"] + after), |front|;
    assert forall i :: 0 <= i < n ==> path[i] == front[i];
    assert path[n] == "**" && WildAt(path) == n && WildAt(front) == n;
    assert path[n + 1..] == after && path[..n] == front;
    if Matches(path, parts) {
      var x, y := parts[..n], parts[n..|parts| - |after|];
      assert parts == x + y + after && |x| == |front| && (y != [] || after == []);
    }
    forall x, y | && parts == x + y + after && |x| == n && (y != [] || after == [])
                  && forall i :: 0 <= i < n ==> front[i] in {x[i], "*", "/."}
      ensures Matches(path, parts)
    {
      assert parts[|parts| - |after|..] == after;
      assert forall i :: 0 <= i < n ==> parts[i] == x[i];
    }
  }

  /** For clean key paths the search's reachability is the reference meaning. */
  lemma {:induction false} ReachesMatches(path: Path, parts: Path)
    requires Clean(path)
    ensures Reaches(false, path, parts) <==> Matches(path, parts)
    decreases |parts|
  {
    if parts == [] || path == [] {
      if parts == [] && path != [] {
        assert path == [WILDCARD_PATH_KEY] <==> |path| == 1 && path[0] == WILDCARD_PATH_KEY;
      }
    } else if path[0] == WILDCARD_PATH_KEY {
      ReachesWildSuffix(path[1..], parts[1..]);
      if |parts| > |path[1..]| {
        assert parts[1..][|parts| - 1 - |path[1..]|..] == parts[|parts| - |path[1..]|..];
      }
      assert path[..0] == [];
    } else {
      WildAtTail(path);
      MatchesTail(path, parts);
      ReachesMatches(path[1..], parts[1..]);
    }
  }

  /** Any key path is reached by its own keys taken as parts. */
  lemma {:induction false} ReachesItself(wild: bool, path: Path)
    ensures Reaches(wild, path, path)
    decreases |path|
  {
    if path != [] {
      ReachesItself(path[0] == WILDCARD_PATH_KEY, path[1..]);
    }
  }

  /** Keys other than `**` are walked through by themselves. */
  lemma {:induction false} ReachesThrough(front: Path, path: Path, parts: Path)
    requires forall i :: 0 <= i < |front| ==> front[i] != WILDCARD_PATH_KEY
    requires Reaches(false, path, parts)
    ensures Reaches(false, front + path, front + parts)
    decreases |front|
  {
    if front == [] {
      assert front + path == path && front + parts == parts;
    } else {
      ReachesThrough(front[1..], path, parts);
      assert (front + path)[1..] == front[1..] + path && (front + parts)[1..] == front[1..] + parts;
      assert ReachesVia(front + path, front + parts);
    }
  }

  /** Parts that reach keys after `**` without ending in them, if there are any. */
  lemma {:induction false} WildReachesMore(after: Path) returns (parts: Path)
    requires !Searchable(after)
    ensures Reaches(true, after, parts) && !IsSuffix(after, parts)
  {
    if after[0] == WILDCARD_PATH_KEY {
      var more := after[1..];
      parts := [WILDCARD_PATH_KEY, "a"] + more;
      assert parts[1..] == ["a"] + more && parts[1..][1..] == more;
      ReachesItself(true, more);
      assert ReachesVia(after, parts);
      assert parts[|parts| - |after|..] == ["a"] + more;
    } else {
      var k := FirstSpecial(after, 1);
      parts := after[k := "a"];
      ReachesItself(after[k] == WILDCARD_PATH_KEY, after[k + 1..]);
      assert after[k..][1..] == after[k + 1..] == parts[k..][1..];
      ReachesThrough(after[1..k], after[k..], parts[k..]);
      assert after[1..] == after[1..k] + after[k..] && parts[1..] == after[1..k] + parts[k..];
      assert ReachesVia(after, parts);
      assert parts[|parts| - |after|..] == parts;
    }
  }

  lemma {:induction false} FirstSpecial(path: Path, from: nat) returns (k: nat)
    requires from <= |path| && !AllConstant(path[from..])
    ensures from <= k < |path| && !IsConstant(path[k])
    ensures forall i :: from <= i < k ==> IsConstant(path[i])
    decreases |path| - from
  {
    if !IsConstant(path[from]) {
      k := from;
    } else {
      assert path[from..][1..] == path[from + 1..];
      k := FirstSpecial(path, from + 1);
    }
  }

  lemma {:induction false} UncleanReachesMore(path: Path) returns (parts: Path)
    requires !Clean(path)
    ensures Reaches(false, path, parts) && !Matches(path, parts)
  {
    var w := WildAt(path);
    var front, after := path[..w], path[w + 1..];
    var rest := WildReachesMore(after);
    parts := front + (["a"] + rest);
    assert (["a"] + rest)[1..] == rest && path[w..][1..] == after;
    assert Reaches(false, path[w..], ["a"] + rest);
    ReachesThrough(front, path[w..], ["a"] + rest);
    assert front + path[w..] == path;
    if |after| <= |rest| {
      assert parts[|parts| - |after|..] == rest[|rest| - |after|..];
    }
  }

  /** Exactly for the clean key paths is the search's reachability the reference
      meaning on every request. */
  lemma {:induction false} ReachesMatchesIff(path: Path)
    ensures (forall parts :: Reaches(false, path, parts) <==> Matches(path, parts)) <==> Clean(path)
  {
    if Clean(path) {
      forall parts
        ensures Reaches(false, path, parts) <==> Matches(path, parts)
      {
        ReachesMatches(path, parts);
      }
    } else {
      var parts := UncleanReachesMore(path);
    }
  }

  // ---------------------------------------------------------------------------
  // Which of two fitting key paths is preferred
  // ---------------------------------------------------------------------------

  /** A constant equal to the part is preferred to `/.`, then `*`, then `**`. */
  function Rank(key: string, part: string): nat {
    if key == part then 0
    else if key == SINGLE_PARAMETER_KEY then 1
    else if key == WILDCARD_PART_KEY then 2
    else 3
  }

  /** The reference order on fitting key paths: decided at the first key where
      they differ; a path that ends there beats its own extension by `**`; and
      past a shared `**` the longer constant suffix wins. */
  predicate Precedes(p: Path, q: Path, parts: Path)
    decreases |p|
  {
    if p == [] then q == [WILDCARD_PATH_KEY]
    else if q == [] then false
    else if p[0] == q[0] then
      if p[0] == WILDCARD_PATH_KEY then |p| > |q|
      else parts != [] && Precedes(p[1..], q[1..], parts[1..])
    else parts != [] && Rank(p[0], parts[0]) < Rank(q[0], parts[0])
  }

  /** The order on key paths that share their first keys, key by key: the part
      itself before `/.` before `*` before `**`, nothing before `**`, and past `**`
      the longer path. */
  lemma {:induction false} PrecedesAfter(front: Path, p: Path, q: Path, head: Path, part: string, rest: Path)
    requires |front| == |head| && forall i :: 0 <= i < |front| ==> front[i] != "**"
    ensures part != "/." ==> Precedes(front + ([part] + p), front + (["/."] + q), head + ([part] + rest))
    ensures part != "*" ==> Precedes(front + ([part] + p), front + (["*"] + q), head + ([part] + rest))
                            && Precedes(front + (["/."] + p), front + (["*"] + q), head + ([part] + rest))
    ensures part != "**" ==> Precedes(front + (["*"] + p), front + (["**"] + q), head + ([part] + rest))
    ensures Precedes(front + [], front + ["**"], head + rest)
    ensures Precedes(front + (["**"] + p), front + (["**"] + q), head + rest) <==> |p| > |q|
    decreases |front|
  {
    PrecedesSkip(front, [part] + p, ["/."] + q, head, [part] + rest);
    PrecedesSkip(front, ["/."] + p, ["*"] + q, head, [part] + rest);
    PrecedesSkip(front, [part] + p, ["*"] + q, head, [part] + rest);
    PrecedesSkip(front, ["*"] + p, ["**"] + q, head, [part] + rest);
    PrecedesSkip(front, [], ["**"], head, rest);
    PrecedesSkip(front, ["**"] + p, ["**"] + q, head, rest);
  }

  lemma {:induction false} PrecedesSkip(front: Path, p: Path, q: Path, head: Path, rest: Path)
    requires |front| == |head| && forall i :: 0 <= i < |front| ==> front[i] != "**"
    ensures Precedes(front + p, front + q, head + rest) <==> Precedes(p, q, rest)
    decreases |front|
  {
    if front == [] {
      assert front + p == p && front + q == q && head + rest == rest;
    } else {
      PrecedesSkip(front[1..], p, q, head[1..], rest);
      assert (front + p)[1..] == front[1..] + p && (front + q)[1..] == front[1..] + q;
      assert (head + rest)[1..] == head[1..] + rest;
    }
  }

  /** Of two key paths at most one precedes the other, so a best one is unique. */
  lemma {:induction false} PrecedesAsymmetric(p: Path, q: Path, parts: Path)
    requires Precedes(p, q, parts)
    ensures p != q && !Precedes(q, p, parts)
    decreases |p|
  {
    if p != [] && q != [] && p[0] == q[0] && p[0] != WILDCARD_PATH_KEY {
      PrecedesAsymmetric(p[1..], q[1..], parts[1..]);
    }
  }

  /** The order in which the search tries the key paths it can reach. */
  predicate Beats(wild: bool, p: Path, q: Path, parts: Path)
    decreases |parts|
  {
    if parts == [] then p == [] && q == [WILDCARD_PATH_KEY]
    else if ReachesVia(p, parts) != ReachesVia(q, parts) then ReachesVia(p, parts)
    else if ReachesVia(p, parts) then
      Beats(p[0] == WILDCARD_PATH_KEY, p[1..], q[1..], parts[1..])
    else if wild then Beats(true, p, q, parts[1..])
    else
      p != [] && q != [] &&
      if p[0] != q[0] then Rank(p[0], parts[0]) < Rank(q[0], parts[0])
      else Beats(p[0] == WILDCARD_PATH_KEY, p[1..], q[1..], parts[1..])
  }

  lemma {:induction false} BeatsAsymmetric(wild: bool, p: Path, q: Path, parts: Path)
    requires Beats(wild, p, q, parts)
    ensures !Beats(wild, q, p, parts)
    decreases |parts|
  {
    if parts != [] && ReachesVia(p, parts) == ReachesVia(q, parts) {
      if !ReachesVia(p, parts) && wild {
        BeatsAsymmetric(true, p, q, parts[1..]);
      } else if p[0] == q[0] {
        BeatsAsymmetric(p[0] == WILDCARD_PATH_KEY, p[1..], q[1..], parts[1..]);
      }
    }
  }

  lemma {:induction false} BeatsWildSuffix(p: Path, q: Path, parts: Path)
    requires Searchable(p) && Searchable(q) && p != q
    requires Reaches(true, p, parts) && Reaches(true, q, parts)
    requires Beats(true, p, q, parts)
    ensures |p| > |q|
    decreases |parts|
  {
    ReachesWildSuffix(p, parts);
    ReachesWildSuffix(q, parts);
    if parts != [] {
      if ReachesVia(p, parts) {
        ReachesConstant(p[1..], parts[1..]);
        assert p == [p[0]] + p[1..] && parts == [parts[0]] + parts[1..];
      } else {
        BeatsWildSuffix(p, q, parts[1..]);
      }
    }
  }

  /** On clean key paths the search order is the reference order. */
  lemma {:induction false} BeatsPrecedes(p: Path, q: Path, parts: Path)
    requires Clean(p) && Clean(q) && p != q
    requires Reaches(false, p, parts) && Reaches(false, q, parts)
    requires Beats(false, p, q, parts)
    ensures Precedes(p, q, parts)
    decreases |parts|
  {
    if parts != [] {
      assert p != [] && q != [];
      if p[0] == q[0] {
        assert p == [p[0]] + p[1..] && q == [q[0]] + q[1..];
        if p[0] == WILDCARD_PATH_KEY {
          BeatsWildSuffix(p[1..], q[1..], parts[1..]);
        } else {
          WildAtTail(p);
          WildAtTail(q);
          BeatsPrecedes(p[1..], q[1..], parts[1..]);
        }
      }
    }
  }

  // ---------------------------------------------------------------------------
  // The search against the reference definitions
  // ---------------------------------------------------------------------------

  /** No reachable key path has an answer: the search finds nothing. */
  lemma {:induction false} SearchSome(t: Trie, wild: bool, parts: Path, httpMethod: string, q: Path)
    requires Reaches(wild, q, parts) && AnswerAt(t, q, httpMethod).Some?
    ensures Search(t, wild, parts, httpMethod).Some?
    decreases |parts|
  {
    if q != [] {
      assert q == [q[0]] + q[1..];
      AnswerAtKid(t, q[0], q[1..], httpMethod);
      FindEmpty(q[1..], httpMethod);
      FindEmpty(q[1..], WILDCARD_METHOD);
    }
    if parts != [] {
      if ReachesVia(q, parts) {
        SearchSome(Kid(t, q[0]), q[0] == WILDCARD_PATH_KEY, parts[1..], httpMethod, q[1..]);
      } else if wild {
        SearchSome(t, true, parts[1..], httpMethod, q);
      } else {
        SearchSome(Kid(t, q[0]), q[0] == WILDCARD_PATH_KEY, parts[1..], httpMethod, q[1..]);
      }
    }
  }

  /** The child the search descends to, when it does not stay on a `**` node. */
  ghost function ChosenKey(t: Trie, parts: Path, httpMethod: string): string
    requires parts != []
  {
    if SearchKid(t, parts[0], parts, httpMethod).Some? then parts[0]
    else if SearchKid(t, SINGLE_PARAMETER_KEY, parts, httpMethod).Some? then SINGLE_PARAMETER_KEY
    else if SearchKid(t, WILDCARD_PART_KEY, parts, httpMethod).Some? then WILDCARD_PART_KEY
    else WILDCARD_PATH_KEY
  }

  lemma SearchKidSome(t: Trie, parts: Path, httpMethod: string, q: Path)
    requires parts != [] && q != []
    requires Reaches(q[0] == WILDCARD_PATH_KEY, q[1..], parts[1..])
    requires AnswerAt(t, q, httpMethod).Some?
    ensures q[0] in t.kids && AnswerAt(Kid(t, q[0]), q[1..], httpMethod).Some?
    ensures SearchKid(t, q[0], parts, httpMethod).Some?
  {
    assert q == [q[0]] + q[1..];
    AnswerAtKid(t, q[0], q[1..], httpMethod);
    FindEmpty(q[1..], httpMethod);
    FindEmpty(q[1..], WILDCARD_METHOD);
    SearchSome(Kid(t, q[0]), q[0] == WILDCARD_PATH_KEY, parts[1..], httpMethod, q[1..]);
  }

  /** A path through the chosen child beats every answering path but those the
      child itself has to decide. */
  lemma ChosenBeats(t: Trie, wild: bool, parts: Path, httpMethod: string, p: Path, q: Path)
    requires parts != []
    requires SearchKid(t, parts[0], parts, httpMethod).None? ==> !wild
    requires var key := ChosenKey(t, parts, httpMethod);
             SearchKid(t, key, parts, httpMethod).Some?
             && p != [] && p[0] == key && Reaches(key == WILDCARD_PATH_KEY, p[1..], parts[1..])
    requires Reaches(wild, q, parts) && AnswerAt(t, q, httpMethod).Some?
    ensures Beats(wild, p, q, parts) ||
            (&& q != [] && q[0] == p[0]
             && Reaches(q[0] == WILDCARD_PATH_KEY, q[1..], parts[1..])
             && AnswerAt(Kid(t, q[0]), q[1..], httpMethod).Some?
             && (Beats(p[0] == WILDCARD_PATH_KEY, p[1..], q[1..], parts[1..]) ==> Beats(wild, p, q, parts)))
  {
    if ReachesVia(q, parts) {
      SearchKidSome(t, parts, httpMethod, q);
    } else if !wild {
      SearchKidSome(t, parts, httpMethod, q);
    }
  }

  /** What the search returns is the answer of one reachable key path, and that
      path beats every other reachable one that has an answer. */
  lemma {:induction false} SearchBest(t: Trie, wild: bool, parts: Path, httpMethod: string)
    returns (p: Path)
    requires Search(t, wild, parts, httpMethod).Some?
    ensures Reaches(wild, p, parts)
    ensures AnswerAt(t, p, httpMethod) == Search(t, wild, parts, httpMethod)
    ensures forall q :: Reaches(wild, q, parts) && AnswerAt(t, q, httpMethod).Some? && q != p
                        ==> Beats(wild, p, q, parts)
    decreases |parts|
  {
    if parts == [] {
      p := if Answer(t.results, httpMethod).Some? then [] else [WILDCARD_PATH_KEY];
      AnswerAtKid(t, WILDCARD_PATH_KEY, [], httpMethod);
      assert [WILDCARD_PATH_KEY] + [] == [WILDCARD_PATH_KEY];
    } else if SearchKid(t, parts[0], parts, httpMethod).None? && wild {
      p := SearchBest(t, true, parts[1..], httpMethod);
      forall q | Reaches(wild, q, parts) && AnswerAt(t, q, httpMethod).Some? && q != p
        ensures Beats(wild, p, q, parts)
      {
        if ReachesVia(q, parts) {
          SearchKidSome(t, parts, httpMethod, q);
        }
      }
      if ReachesVia(p, parts) {
        SearchKidSome(t, parts, httpMethod, p);
      }
    } else {
      var key := ChosenKey(t, parts, httpMethod);
      var tail := SearchBest(Kid(t, key), key == WILDCARD_PATH_KEY, parts[1..], httpMethod);
      p := [key] + tail;
      AnswerAtKid(t, key, tail, httpMethod);
      assert p[1..] == tail;
      forall q | Reaches(wild, q, parts) && AnswerAt(t, q, httpMethod).Some? && q != p
        ensures Beats(wild, p, q, parts)
      {
        ChosenBeats(t, wild, parts, httpMethod, p, q);
        assert q != [] ==> q == [q[0]] + q[1..];
      }
    }
  }

  /** The search finds something exactly when some stored key path that fits the
      request has an answer for the method. */
  lemma SearchFindsMatch(t: Trie, parts: Path, httpMethod: string)
    requires forall p, m :: Find(t, p, m).Some? ==> Clean(p)
    ensures Search(t, false, parts, httpMethod).Some? <==>
            exists p :: Matches(p, parts) && AnswerAt(t, p, httpMethod).Some?
  {
    if Search(t, false, parts, httpMethod).Some? {
      var p := SearchBest(t, false, parts, httpMethod);
      assert Clean(p);
      ReachesMatches(p, parts);
    }
    if p :| Matches(p, parts) && AnswerAt(t, p, httpMethod).Some? {
      assert Clean(p);
      ReachesMatches(p, parts);
      SearchSome(t, false, parts, httpMethod, p);
    }
  }

  ghost predicate IsBest(t: Trie, parts: Path, httpMethod: string, p: Path) {
    && Matches(p, parts) && AnswerAt(t, p, httpMethod).Some?
    && forall q :: Matches(q, parts) && AnswerAt(t, q, httpMethod).Some? && q != p
                   ==> Precedes(p, q, parts)
  }

  /** Precedence: what the search returns is the answer of the one fitting key
      path that precedes all the others that have an answer. */
  lemma SearchReturnsBest(t: Trie, parts: Path, httpMethod: string) returns (p: Path)
    requires forall p, m :: Find(t, p, m).Some? ==> Clean(p)
    requires Search(t, false, parts, httpMethod).Some?
    ensures IsBest(t, parts, httpMethod, p)
    ensures Search(t, false, parts, httpMethod) == AnswerAt(t, p, httpMethod)
  {
    p := SearchBest(t, false, parts, httpMethod);
    assert Clean(p);
    ReachesMatches(p, parts);
    forall q | Matches(q, parts) && AnswerAt(t, q, httpMethod).Some? && q != p
      ensures Precedes(p, q, parts)
    {
      assert Clean(q);
      ReachesMatches(q, parts);
      BeatsPrecedes(p, q, parts);
    }
  }

  /** Lookups see nothing but the answers of reachable key paths: two tries that
      agree on those give the same result. */
  lemma SearchDependsOnReachable(t: Trie, u: Trie, parts: Path, httpMethod: string)
    requires forall q :: Reaches(false, q, parts) ==> AnswerAt(t, q, httpMethod) == AnswerAt(u, q, httpMethod)
    ensures Search(t, false, parts, httpMethod) == Search(u, false, parts, httpMethod)
  {
    if Search(t, false, parts, httpMethod).Some? {
      var p := SearchBest(t, false, parts, httpMethod);
      SearchSome(u, false, parts, httpMethod, p);
    }
    if Search(u, false, parts, httpMethod).Some? {
      var q := SearchBest(u, false, parts, httpMethod);
      SearchSome(t, false, parts, httpMethod, q);
      var p := SearchBest(t, false, parts, httpMethod);
      if p != q {
        BeatsAsymmetric(false, p, q, parts);
      }
    }
  }

  /** An insertion leaves alone every lookup its key path does not reach or its
      method does not answer. */
  lemma InsertLeavesOthers(t: Trie, path: Path, m: string, data: nat, parts: Path, httpMethod: string)
    requires !(Reaches(false, path, parts) && m in {httpMethod, WILDCARD_METHOD})
    ensures Search(Insert(t, path, m, data), false, parts, httpMethod) ==
            Search(t, false, parts, httpMethod)
  {
    forall q | Reaches(false, q, parts)
      ensures AnswerAt(Insert(t, path, m, data), q, httpMethod) == AnswerAt(t, q, httpMethod)
    {
      InsertFind(t, path, m, data, q, httpMethod);
      InsertFind(t, path, m, data, q, WILDCARD_METHOD);
    }
    SearchDependsOnReachable(Insert(t, path, m, data), t, parts, httpMethod);
  }

  /** The data a lookup leads to, without the duplicate mark. */
  function Data(r: Option<Hit>): Option<nat> {
    if r.Some? then Some(r.value.data) else None
  }

  /** First registration wins: inserting under a key path and method that is
      already taken changes the data of no lookup whatever. */
  lemma InsertDuplicate(t: Trie, path: Path, m: string, data: nat, parts: Path, httpMethod: string)
    requires Find(t, path, m).Some?
    ensures Data(Search(Insert(t, path, m, data), false, parts, httpMethod)) ==
            Data(Search(t, false, parts, httpMethod))
  {
    var u := Insert(t, path, m, data);
    forall q
      ensures Data(AnswerAt(u, q, httpMethod)) == Data(AnswerAt(t, q, httpMethod))
    {
      InsertFind(t, path, m, data, q, httpMethod);
      InsertFind(t, path, m, data, q, WILDCARD_METHOD);
    }
    if Search(t, false, parts, httpMethod).Some? {
      var p := SearchBest(t, false, parts, httpMethod);
      SearchSome(u, false, parts, httpMethod, p);
      var q := SearchBest(u, false, parts, httpMethod);
      if p != q {
        BeatsAsymmetric(false, p, q, parts);
      }
    } else if Search(u, false, parts, httpMethod).Some? {
      var q := SearchBest(u, false, parts, httpMethod);
      SearchSome(t, false, parts, httpMethod, q);
    }
  }
}
