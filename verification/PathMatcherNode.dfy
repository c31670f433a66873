/** The mutable trie of src/api_proxy/path_matcher/path_matcher_node.cc: nodes
    that own their children and are updated in place.  Each node carries its
    value as a `Trie` and the set of objects it is made of. */
module PathMatcherNodes {

  import opened Wrappers
  import opened PathTrie

  class PathMatcherNode {
    var resultMap: map<string, Hit>
    var children: map<string, PathMatcherNode>
    var wildcard: bool

    ghost var Value: Trie
    ghost var Repr: set<object>

    ghost predicate Valid()
      reads this, Repr
      ensures Valid() ==> this in Repr
      decreases Repr
    {
      && this in Repr
      && Value.results == resultMap
      && Value.kids.Keys == children.Keys
      && (forall k :: k in children ==> ValidChild(k))
      && (forall j, k :: j in children && k in children && j != k ==>
            children[j].Repr !! children[k].Repr)
    }

    /** The child belongs to this node and represents its value's kid. */
    ghost predicate ValidChild(key: string)
      requires this in Repr && Value.kids.Keys == children.Keys && key in children
      reads this, Repr
      decreases Repr, 0
    {
      var child := children[key];
      && child in Repr && child.Repr <= Repr && this !in child.Repr
      && child.Valid()
      && child.Value == Value.kids[key]
      && child.wildcard == (key == WILDCARD_PATH_KEY)
    }

    constructor ()
      ensures Valid() && fresh(Repr)
      ensures Value == EMPTY && !wildcard
    {
      resultMap, children, wildcard := map[], map[], false;
      Value, Repr := EMPTY, {this};
    }

    method GetResultForHttpMethod(key: string) returns (r: Option<Hit>)
      requires Valid()
      ensures r == Answer(Value.results, key)
    {
      if key in resultMap {
        r := Some(resultMap[key]);
      } else if WILDCARD_METHOD in resultMap {
        r := Some(resultMap[WILDCARD_METHOD]);
      } else {
        r := None;
      }
    }

    /** The search over the nodes computes the search over the value. */
    method LookupPath(parts: Path, current: nat, httpMethod: string) returns (r: Option<Hit>)
      requires Valid() && current <= |parts|
      ensures r == Search(Value, wildcard, parts[current..], httpMethod)
      decreases |parts| - current, 1
    {
      if current == |parts| {
        r := GetResultForHttpMethod(httpMethod);
        if r.None? && WILDCARD_PATH_KEY in children {
          r := children[WILDCARD_PATH_KEY].GetResultForHttpMethod(httpMethod);
        }
        return;
      }
      assert parts[current..][1..] == parts[current + 1..];
      r := LookupPathFromChild(parts[current], parts, current, httpMethod);
      if r.Some? {
        return;
      }
      if wildcard {
        r := LookupPath(parts, current + 1, httpMethod);
        return;
      }
      var keys := [SINGLE_PARAMETER_KEY, WILDCARD_PART_KEY, WILDCARD_PATH_KEY];
      for i := 0 to |keys|
        invariant r.None?
        invariant forall j :: 0 <= j < i ==> SearchKid(Value, keys[j], parts[current..], httpMethod).None?
      {
        r := LookupPathFromChild(keys[i], parts, current, httpMethod);
        if r.Some? {
          assert i == 0 ==> keys[i] == SINGLE_PARAMETER_KEY;
          assert i >= 1 ==> SearchKid(Value, keys[0], parts[current..], httpMethod).None?;
          assert i >= 2 ==> SearchKid(Value, keys[1], parts[current..], httpMethod).None?;
          return;
        }
      }
      assert SearchKid(Value, keys[0], parts[current..], httpMethod).None?;
      assert SearchKid(Value, keys[1], parts[current..], httpMethod).None?;
      assert SearchKid(Value, keys[2], parts[current..], httpMethod).None?;
    }

    method LookupPathFromChild(key: string, parts: Path, current: nat, httpMethod: string)
      returns (r: Option<Hit>)
      requires Valid() && current < |parts|
      ensures r == SearchKid(Value, key, parts[current..], httpMethod)
      decreases |parts| - current, 0
    {
      assert parts[current..][1..] == parts[current + 1..];
      if key in children {
        r := children[key].LookupPath(parts, current + 1, httpMethod);
      } else {
        r := None;
      }
    }

    /** Returns the child for `key`, creating it if it is missing. */
    method LookupOrInsertNew(key: string) returns (child: PathMatcherNode)
      requires Valid()
      modifies this
      ensures Valid() && fresh(Repr - old(Repr)) && old(Repr) <= Repr
      ensures key in children && child == children[key]
      ensures child.Value == Kid(old(Value), key)
      ensures Value == old(Value).(kids := old(Value).kids[key := child.Value])
      ensures wildcard == old(wildcard)
    {
      if key !in children {
        InsertNew(key);
      }
      assert ValidChild(key);
      child := children[key];
      assert Value.kids[key := child.Value] == Value.kids;
    }

    /** The new child's `**` flag is set here rather than by the caller. */
    method InsertNew(key: string)
      requires Valid() && key !in children
      modifies this
      ensures Valid() && fresh(Repr - old(Repr)) && old(Repr) <= Repr
      ensures key in children && wildcard == old(wildcard)
      ensures Value == old(Value).(kids := old(Value).kids[key := EMPTY])
    {
      var child := new PathMatcherNode();
      child.wildcard := key == WILDCARD_PATH_KEY;
      children := children[key := child];
      Value := Value.(kids := Value.kids[key := EMPTY]);
      forall j | j in children && j != key
        ensures ValidChild(j)
      {
        assert old(ValidChild(j));
      }
      Readopt(key);
      assert Value.kids == old(Value).kids[key := EMPTY];
    }

    /** Valid, except that the child for `key` may have changed its value and
        grown since this node last looked. */
    ghost predicate ValidButFor(key: string)
      reads this, Repr, if key in children then {children[key]} + children[key].Repr else {}
    {
      && this in Repr && key in children
      && Value.results == resultMap && Value.kids.Keys == children.Keys
      && (forall j :: j in children && j != key ==>
            ValidChild(j) && children[j].Repr !! children[key].Repr)
      && (forall i, j :: i in children && j in children && i != j && i != key && j != key ==>
            children[i].Repr !! children[j].Repr)
      && this !in children[key].Repr && children[key].Valid()
      && children[key].wildcard == (key == WILDCARD_PATH_KEY)
    }

    /** A change confined to one child leaves the others as they were. */
    twostate lemma SiblingsKept(key: string)
      requires old(Valid()) && unchanged(this) && key in children
      requires forall o :: o in old(Repr) && o !in old(children[key].Repr) ==> unchanged(o)
      requires children[key].Valid() && fresh(children[key].Repr - old(children[key].Repr))
      requires children[key].wildcard == old(children[key].wildcard)
      ensures ValidButFor(key)
    {
      assert old(ValidChild(key));
      forall j | j in children && j != key
        ensures ValidChild(j) && children[j].Repr !! children[key].Repr
      {
        assert old(ValidChild(j));
        assert children[j].Repr !! old(children[key].Repr);
      }
    }

    /** Brings this node's ghost state up to date with its child. */
    ghost method Readopt(key: string)
      requires ValidButFor(key)
      modifies this`Value, this`Repr
      ensures Valid() && Repr == old(Repr) + children[key].Repr
      ensures Value == old(Value).(kids := old(Value).kids[key := children[key].Value])
    {
      Repr := Repr + children[key].Repr;
      Value := Value.(kids := Value.kids[key := children[key].Value]);
      forall j | j in children
        ensures ValidChild(j)
      {
        if j != key {
          assert old(ValidChild(j));
        }
      }
    }

    /** Inserts a template's key path; false when its method was already
        registered there. */
    method InsertTemplate(path: Path, current: nat, httpMethod: string, data: nat) returns (ok: bool)
      requires Valid() && current <= |path|
      modifies Repr
      ensures Valid() && fresh(Repr - old(Repr)) && old(Repr) <= Repr
      ensures wildcard == old(wildcard)
      ensures Value == Insert(old(Value), path[current..], httpMethod, data)
      ensures ok == Find(old(Value), path[current..], httpMethod).None?
      decreases |path| - current, 1
    {
      if current == |path| {
        ok := StoreResult(httpMethod, data);
      } else {
        assert path[current..][1..] == path[current + 1..];
        ok := InsertBelow(path, current, httpMethod, data);
      }
    }

    method InsertBelow(path: Path, current: nat, httpMethod: string, data: nat) returns (ok: bool)
      requires Valid() && current < |path|
      modifies Repr
      ensures Valid() && fresh(Repr - old(Repr)) && old(Repr) <= Repr
      ensures wildcard == old(wildcard)
      ensures Value == old(Value).(kids := old(Value).kids[path[current] :=
                         Insert(Kid(old(Value), path[current]), path[current + 1..], httpMethod, data)])
      ensures ok == Find(Kid(old(Value), path[current]), path[current + 1..], httpMethod).None?
      decreases |path| - current, 0
    {
      var child := LookupOrInsertNew(path[current]);
      label before:
      assert ValidChild(path[current]);
      ok := child.InsertTemplate(path, current + 1, httpMethod, data);
      SiblingsKept@before(path[current]);
      Readopt(path[current]);
      assert old(Value).kids[path[current] := old@before(child.Value)][path[current] := child.Value]
          == old(Value).kids[path[current] := child.Value];
      assert fresh(child.Repr - old@before(child.Repr));
    }

    method StoreResult(httpMethod: string, data: nat) returns (ok: bool)
      requires Valid()
      modifies this
      ensures Valid() && Repr == old(Repr) && wildcard == old(wildcard)
      ensures Value == Insert(old(Value), [], httpMethod, data)
      ensures ok == Find(old(Value), [], httpMethod).None?
    {
      ok := httpMethod !in resultMap;
      resultMap := resultMap[httpMethod := if ok then Hit(data, false)
                                           else resultMap[httpMethod].(isMultiple := true)];
      Value := Value.(results := resultMap);
      forall j | j in children
        ensures ValidChild(j)
      {
        assert old(ValidChild(j));
      }
    }
  }
}
