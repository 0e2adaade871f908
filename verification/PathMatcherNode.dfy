/** The nodes of the path trie as linked objects that insertion changes in place. */
module PathMatcherNodes {
  import opened PathTrie
  import opened Wrappers

  /** Insert on a path that goes on. */
  lemma {:induction false} InsertBelow(t: Trie, path: seq<string>, method_: string, data: nat, mark: bool)
    requires path != []
    ensures var (child, added) := Insert(ChildOrNew(t, path[0]), path[1..], method_, data, mark);
            Insert(t, path, method_, data, mark) == (t.(children := t.children[path[0] := child]), added)
  {
  }

  class PathMatcherNode {
    var resultMap: map<string, LookupResult>
    var children: map<string, PathMatcherNode>
    var wildcard: bool

    ghost var repr: set<PathMatcherNode>   // the nodes of the subtrie
    ghost var tree: Trie                   // the subtrie as a value

    ghost predicate ChildOk(key: string)
      requires key in children
      reads this, repr, children[key]
    {
      && key in tree.children
      && children[key] in repr && children[key].repr <= repr && this !in children[key].repr
      && children[key].tree == tree.children[key]
    }

    ghost predicate Local()
      reads this, repr
    {
      && this in repr
      && resultMap == tree.results && wildcard == tree.wildcard && children.Keys == tree.children.Keys
      && (forall k {:trigger children[k]} :: k in children ==> children[k] in repr && ChildOk(k))
    }

    ghost predicate Apart()
      reads this, repr
      requires Local()
    {
      forall j, k {:trigger children[j], children[k]} :: j in children && k in children && j != k ==>
        children[j].repr !! children[k].repr
    }

    ghost predicate Valid()
      reads this, repr
      decreases repr
    {
      Local() && Apart() && forall k {:trigger children[k]} :: k in children ==> children[k].Valid()
    }

    lemma {:induction false} ValidIntro()
      requires Local() && Apart() && forall k {:trigger children[k]} :: k in children ==> children[k].Valid()
      ensures Valid()
    {
    }

    lemma {:induction false} ValidParts()
      requires Valid()
      ensures Local() && Apart()
      ensures forall k {:trigger children[k]} :: k in children ==>
                children[k].Valid() && children[k] in children[k].repr
    {
    }

    constructor ()
      ensures Valid() && fresh(repr) && tree == EMPTY
    {
      resultMap, children, wildcard := map[], map[], false;
      repr, tree := {this}, EMPTY;
    }

    method SetWildcard(wildcard: bool)
      requires Valid()
      modifies this`wildcard, this`tree
      ensures Valid() && tree == old(tree).(wildcard := wildcard)
    {
      this.wildcard := wildcard;
      tree := tree.(wildcard := wildcard);
    }

    /** Stores data under the path from position current on, unless something is there. */
    method InsertTemplate(path: seq<string>, current: nat, httpMethod: string, data: nat, mark: bool)
        returns (added: bool)
      requires Valid() && current <= |path|
      modifies repr
      ensures Valid() && fresh(repr - old(repr)) && old(repr) <= repr
      ensures (tree, added) == Insert(old(tree), path[current..], httpMethod, data, mark)
      decreases |path| - current, 0
    {
      hide Insert, Valid;
      ValidParts();
      if current == |path| {
        assert path[current..] == [];
        added := StoreResult(httpMethod, data, mark);
        return;
      }
      ghost var t := tree;
      var key := path[current];
      InsertBelow(t, path[current..], httpMethod, data, mark);
      assert path[current..][1..] == path[current + 1..];
      var child := LookupOrInsertNew(key);
      label found:
      ValidParts();
      added := child.InsertAsChild(key, path, current + 1, httpMethod, data, mark);
      forall k | k in children && k != key
        ensures children[k].Valid() && children[k].repr == old@found(children[k].repr)
        ensures children[k].tree == old@found(children[k].tree)
        ensures children[k].repr !! child.repr
      {
        assert children[k].repr !! old@found(child.repr);
      }
      Adopt(key, t);
    }

    /** The subtrie grows with the child under a key. */
    ghost method Adopt(key: string, t: Trie)
      requires this in repr && key in children
      requires resultMap == t.results && wildcard == t.wildcard && children.Keys == t.children.Keys + {key}
      requires forall k {:trigger children[k]} :: k in children ==>
                 && children[k] in children[k].repr && children[k].Valid() && this !in children[k].repr
                 && (k != key ==> children[k].repr <= repr && children[k].tree == t.children[k])
      requires forall j, k {:trigger children[j], children[k]} :: j in children && k in children && j != k ==>
                 children[j].repr !! children[k].repr
      modifies this`repr, this`tree
      ensures Valid() && repr == old(repr) + children[key].repr
      ensures tree == t.(children := t.children[key := children[key].tree])
    {
      hide Valid;
      repr := repr + children[key].repr;
      tree := t.(children := t.children[key := children[key].tree]);
      forall k | k in children
        ensures children[k].Valid() && children[k].repr == old(children[k].repr)
        ensures children[k].repr <= repr && children[k].tree == tree.children[k]
      {
      }
      assert Local() by { assert children.Keys == tree.children.Keys; }
      assert Apart();
      ValidIntro();
    }

    /** InsertTemplate on the child under a key, which marks a `**` child. */
    method InsertAsChild(key: string, path: seq<string>, current: nat, httpMethod: string, data: nat, mark: bool)
        returns (added: bool)
      requires Valid() && current <= |path|
      modifies repr
      ensures Valid() && fresh(repr - old(repr)) && old(repr) <= repr
      ensures (tree, added) ==
              Insert(if key == WILD_CARD_PATH_KEY then old(tree).(wildcard := true) else old(tree),
                     path[current..], httpMethod, data, mark)
      decreases |path| - current, 1
    {
      if key == WILD_CARD_PATH_KEY {
        SetWildcard(true);
      }
      added := InsertTemplate(path, current, httpMethod, data, mark);
    }

    /** The end of a path: the first data stored under a method stays. */
    method StoreResult(httpMethod: string, data: nat, mark: bool) returns (added: bool)
      requires Valid()
      modifies this`resultMap, this`tree
      ensures Valid() && repr == old(repr)
      ensures (tree, added) == Insert(old(tree), [], httpMethod, data, mark)
    {
      added := httpMethod !in resultMap;
      if added {
        resultMap := resultMap[httpMethod := LookupResult(data, false)];
      } else if mark {
        resultMap := resultMap[httpMethod := resultMap[httpMethod].(isMultiple := true)];
      }
      tree := Insert(tree, [], httpMethod, data, mark).0;
    }

    /** The child under a key, created empty if need be. */
    method LookupOrInsertNew(key: string) returns (child: PathMatcherNode)
      requires Valid()
      modifies this
      ensures Valid() && fresh(repr - old(repr)) && old(repr) <= repr
      ensures key in children && child == children[key]
      ensures children == old(children)[key := child]
      ensures child.tree == if key in old(tree).children then old(tree).children[key] else EMPTY
      ensures tree == old(tree).(children := old(tree).children[key := child.tree])
    {
      hide Valid;
      ValidParts();
      if key in children {
        child := children[key];
        assert tree == tree.(children := tree.children[key := child.tree]);
      } else {
        child := new PathMatcherNode();
        child.ValidParts();
        children := children[key := child];
        Adopt(key, tree);
      }
    }

    method GetResultForHttpMethod(httpMethod: string) returns (result: Option<LookupResult>)
      requires Valid()
      ensures result == ResultFor(tree, httpMethod)
    {
      if httpMethod in resultMap { return Some(resultMap[httpMethod]); }
      if HTTP_METHOD_WILD_CARD in resultMap { return Some(resultMap[HTTP_METHOD_WILD_CARD]); }
      return None;
    }

    method LookupPathFromChild(key: string, parts: seq<string>, current: nat, httpMethod: string)
        returns (result: Option<LookupResult>)
      requires Valid() && current < |parts|
      ensures result == LookupFromChild(tree, key, parts[current..], httpMethod)
      decreases |parts| - current, 0
    {
      assert parts[current..][1..] == parts[current + 1..];
      if key in children {
        result := children[key].LookupPath(parts, current + 1, httpMethod);
      } else {
        result := None;
      }
    }

    method LookupPath(parts: seq<string>, current: nat, httpMethod: string)
        returns (result: Option<LookupResult>)
      requires Valid() && current <= |parts|
      ensures result == Lookup(tree, parts[current..], httpMethod)
      decreases |parts| - current, 1
    {
      if current == |parts| {
        result := GetResultForHttpMethod(httpMethod);
        if result.None? && WILD_CARD_PATH_KEY in children {
          result := children[WILD_CARD_PATH_KEY].GetResultForHttpMethod(httpMethod);
        }
        return;
      }
      assert parts[current..][1..] == parts[current + 1..] && parts[current..][0] == parts[current];
      result := LookupPathFromChild(parts[current], parts, current, httpMethod);
      if result.Some? { return; }
      if wildcard {
        result := LookupPath(parts, current + 1, httpMethod);
        return;
      }
      result := LookupPathFromChild(SINGLE_PARAMETER_KEY, parts, current, httpMethod);
      if result.Some? { return; }
      result := LookupPathFromChild(WILD_CARD_PATH_PART_KEY, parts, current, httpMethod);
      if result.Some? { return; }
      result := LookupPathFromChild(WILD_CARD_PATH_KEY, parts, current, httpMethod);
    }
  }
}
