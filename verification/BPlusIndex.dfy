/** The index as its callers see it: creation, insertion, point search and the two
    range visits, each stated on the sorted list of entries. */
module BPlusIndex {
  import opened Wrappers
  import opened SortedEntries
  import opened BPlusTree
  import opened LeafChain
  import T = TreeSpec

  method InsertAt(node: Node, key: int, offset: int) returns (ok: bool, top: Node, ghost created: nat)
    requires node.Valid() && node.model.last != null && node.model.last.next == null
    modifies node.model.repr
    ensures top.Valid() && top.order == node.order && fresh(top.model.repr - old(node.model.repr))
    ensures top.model.last != null && top.model.last.next == null
    ensures T.InsertRoot(node.order, Some(old(node.model.tree)), key, offset) == (ok, top.model.tree)
    ensures !ok ==> top == node && unchanged(old(node.model.repr))
    ensures created == T.CreatedAtRoot(node.order, Some(old(node.model.tree)), key, offset)
  {
    hide Node.Valid, T.Insert, T.Shaped, T.Created;
    var result;
    result, created := InsertRecursive(node, key, offset);
    if result.duplicate {
      return false, node, created;
    }
    if result.split {
      ghost var more;
      top, more := NewRoot(node.order, node, result.promotedKey, result.rightNode);
      created := created + more;
    } else {
      top := node;
    }
    ok := true;
  }

  lemma PairLinked(row: Row, order: nat)
    requires |row.keys| == 1 && |row.kids| == |row.trees| == 2
    requires var l, r := row.kids[0], row.kids[1];
             && l.Valid() && r.Valid() && l.order == order && r.order == order
             && l.model.last != null && r.model.last != null
             && l.model.repr !! r.model.repr && l.model.last.next == r.model.first
             && row.trees[0] == l.model.tree && row.trees[1] == r.model.tree
             && row.below == l.model.repr + r.model.repr && row.first == l.model.first && row.last == r.model.last
    ensures Linked(row, order)
  {
    hide Node.Valid;
  }

  /** The root grows by one level. */
  method NewRoot(order: nat, left: Node, sep: int, right: Node) returns (node: Node, ghost created: nat)
    requires order >= 3 && left.Valid() && right.Valid() && left.order == order && right.order == order
    requires left.model.last != null && right.model.last != null
    requires left.model.repr !! right.model.repr && left.model.last.next == right.model.first
    ensures node.Valid() && node.order == order && created == 1
    ensures node.model.tree == T.Node([sep], [left.model.tree, right.model.tree])
    ensures node.model.last == right.model.last
    ensures fresh(node.model.repr - left.model.repr - right.model.repr)
  {
    hide Node.Valid, Members, Tied;
    ghost var row := Row([sep], [left, right], [left.model.tree, right.model.tree],
                         left.model.repr + right.model.repr, left.model.first, right.model.last);
    PairLinked(row, order);
    node := new Node(order, false);
    created := 1;
    node.keys[0] := sep;
    node.children[0] := left;
    node.children[1] := right;
    node.keyCount := 1;
    Assemble(node, row);
  }

  /** Calls a visitor on the entries in turn, until it answers false. */
  function VisitAll<U>(visit: (U, Entry) -> (U, bool), u: U, es: seq<Entry>): (U, bool) {
    if es == [] then (u, true)
    else
      var (v, more) := visit(u, es[0]);
      if more then VisitAll(visit, v, es[1..]) else (v, false)
  }

  /** A visitor that also keeps a log of its calls. */
  function Logged<U>(visit: (U, Entry) -> (U, bool)): ((U, seq<Entry>), Entry) -> ((U, seq<Entry>), bool) {
    (s: (U, seq<Entry>), e) => var (v, more) := visit(s.0, e); ((v, s.1 + [e]), more)
  }

  /** The calls made are all entries, each once and in order, when every call answers
      true; otherwise they are a prefix that ends with the first call that did not. */
  lemma {:induction false} VisitsArePrefix<U>(visit: (U, Entry) -> (U, bool), u: U, log: seq<Entry>, es: seq<Entry>)
    returns (n: nat)
    ensures n <= |es|
    ensures VisitAll(Logged(visit), (u, log), es)
            == ((VisitAll(visit, u, es).0, log + es[..n]), VisitAll(visit, u, es).1)
    ensures VisitAll(visit, u, es).1 ==> n == |es|
    ensures !VisitAll(visit, u, es).1 ==> n > 0 && VisitAll(visit, u, es[..n - 1]).1
    ensures !VisitAll(visit, u, es).1 ==> !visit(VisitAll(visit, u, es[..n - 1]).0, es[n - 1]).1
    decreases |es|
  {
    if es == [] {
      n := 0;
      assert log + es[..0] == log;
    } else {
      var (v, more) := visit(u, es[0]);
      if more {
        var rest := es[1..];
        var m := VisitsArePrefix(visit, v, log + [es[0]], rest);
        n := m + 1;
        assert log + [es[0]] + rest[..m] == log + es[..n];
        if m > 0 {
          assert es[..n - 1][1..] == rest[..m - 1];
        }
      } else {
        n := 1;
        assert es[..1] == [es[0]];
      }
    }
  }

  lemma LeafHolds(node: Node)
    requires node.Valid() && node.isLeaf
    ensures node.HoldsEntries(node.model.tree.entries) && node.model.first == node && Leaves(node) == [node]
  {
    hide T.Shaped;
  }

  /** The leaves on either side of the child the search descends into cannot hold the key. */
  lemma Neighbours(node: Node, height: nat, top: bool, p: nat, key: int) returns (a: seq<Node>, b: seq<Node>)
    requires node.Valid() && !node.isLeaf && T.Valid(node.order, node.model.tree, height, top)
    requires p == T.ChildPosition(node.model.tree.keys, key)
    ensures |node.model.kids| == node.keyCount + 1 && node.model.kids[p].Valid()
    ensures Narrowed(Leaves(node), a, Leaves(node.model.kids[p]), b, key)
    ensures height > 0 && T.Valid(node.order, node.model.kids[p].model.tree, height - 1, false)
  {
    hide Leaves, EntriesIn, T.Within, T.Increasing, T.ChildPosition, AllBelow, AllAbove;
    AboutChild(node, p);
    hide Node.Valid, Linked;
    a, b := LeavesAround(node, p);
    T.OnlyChild(node.order, node.model.tree.keys, node.model.tree.children, height - 1, key);
  }

  /** Among the leaves `ls`, those of interest are `mid`; the others cannot hold the key. */
  ghost predicate Narrowed(ls: seq<Node>, before: seq<Node>, mid: seq<Node>, after: seq<Node>, key: int)
    reads before, after
  {
    && ls == before + mid + after
    && (forall l | l in before :: l.model.tree.Leaf?) && AllBelow(EntriesIn(before), key)
    && (forall l | l in after :: l.model.tree.Leaf?) && AllAbove(EntriesIn(after), key)
  }

  lemma StartAnywhere(ls: seq<Node>, key: int)
    ensures Narrowed(ls, [], ls, [], key)
  {
    assert ls == [] + ls + [];
  }

  lemma NarrowFurther(ls: seq<Node>, before: seq<Node>, mid: seq<Node>, after: seq<Node>, key: int, a: seq<Node>,
                      x: seq<Node>, b: seq<Node>)
    requires Narrowed(ls, before, mid, after, key) && Narrowed(mid, a, x, b, key)
    ensures Narrowed(ls, before + a, x, b + after, key)
  {
    EntriesInConcat(before, a);
    EntriesInConcat(b, after);
    assert ls == (before + a) + x + (b + after);
    hide EntriesIn;
  }

  /** The leaf a key belongs to. */
  ghost function LeafFor(node: Node, key: int): Node
    requires node.Valid()
    reads node, node.model.repr
    decreases node.model.repr
  {
    if node.isLeaf then node else LeafFor(ChildFor(node, key), key)
  }

  ghost function ChildFor(node: Node, key: int): (child: Node)
    requires node.Valid() && !node.isLeaf
    reads node, node.model.repr
    ensures child.Valid() && child.model.repr < node.model.repr && child.order == node.order
    ensures T.ChildPosition(node.model.tree.keys, key) < |node.model.kids|
    ensures child == node.model.kids[T.ChildPosition(node.model.tree.keys, key)]
  {
    AboutChild(node, T.ChildPosition(node.model.tree.keys, key));
    node.model.kids[T.ChildPosition(node.model.tree.keys, key)]
  }

  lemma {:induction false} LeafForNarrows(node: Node, height: nat, top: bool, key: int)
    returns (before: seq<Node>, after: seq<Node>)
    requires node.Valid() && T.Valid(node.order, node.model.tree, height, top)
    ensures LeafFor(node, key).Valid() && LeafFor(node, key).isLeaf
    ensures Narrowed(Leaves(node), before, [LeafFor(node, key)], after, key)
    decreases node.model.repr
  {
    hide Node.Valid, T.Valid, Leaves, Narrowed;
    if node.isLeaf {
      LeafHolds(node);
      before, after := [], [];
      StartAnywhere(Leaves(node), key);
    } else {
      var child := ChildFor(node, key);
      var a, b := Neighbours(node, height, top, T.ChildPosition(node.model.tree.keys, key), key);
      before, after := LeafForNarrows(child, height - 1, false, key);
      NarrowFurther(Leaves(node), a, Leaves(child), b, key, before, [LeafFor(node, key)], after);
      before, after := a + before, after + b;
    }
  }

  /** The first position in a leaf whose key is above `key`. */
  method FindFirstAbove(leaf: Node, key: int) returns (position: nat)
    requires leaf.Valid() && leaf.isLeaf
    ensures var es := leaf.model.tree.entries;
            && position <= |es| == leaf.keyCount
            && (forall i | 0 <= i < position :: es[i].key <= key)
            && (position < |es| ==> key < es[position].key)
  {
    LeafHolds(leaf);
    hide Node.Valid;
    ghost var es := leaf.model.tree.entries;
    position := FindLeafPosition(leaf, key);
    while position < leaf.keyCount && leaf.keys[position] <= key
      invariant position <= leaf.keyCount
      invariant forall i | 0 <= i < position :: es[i].key <= key
    {
      assert es[position].key == leaf.keys[position];
      position := position + 1;
    }
    assert position < leaf.keyCount ==> es[position].key == leaf.keys[position];
  }

  // ---------- The walks of the range visits ----------

  lemma VisitFirst<U>(visit: (U, Entry) -> (U, bool), u: U, e: Entry, es: seq<Entry>)
    ensures VisitAll(visit, u, [e] + es)
            == if visit(u, e).1 then VisitAll(visit, visit(u, e).0, es) else (visit(u, e).0, false)
  {
    assert ([e] + es)[1..] == es;
  }

  ghost predicate LeafIs(node: Node?)
    reads node, if node == null then {} else {node.keys, node.offsets}
  {
    node != null ==> node.Capacity() && node.model.tree.Leaf? && node.HoldsEntries(node.model.tree.entries)
  }

  lemma LeafAt(ls: seq<Node>, k: nat, node: Node?)
    requires Walkable(ls) && WalkedTo(ls, k, node)
    ensures LeafIs(node) && forall l | l in ls :: l.model.tree.Leaf?
  {
  }

  lemma VisitNothing<U>(visit: (U, Entry) -> (U, bool), u: U)
    ensures VisitAll(visit, u, []) == (u, true)
  {
  }

  lemma NothingRemains<U>(ls: seq<Node>, k: nat, i: nat, visit: (U, Entry) -> (U, bool), u: U)
    requires Walkable(ls) && WalkedTo(ls, k, null)
    ensures (forall l | l in ls :: l.model.tree.Leaf?) && k == |ls|
    ensures forall key :: Below(Remaining(ls, k, i), key) == []
    ensures VisitAll(visit, u, []) == (u, true) && Remaining(ls, k, i) == []
  {
  }

  /** Visits everything from `position` of leaf `start` to the end of the chain. */
  method WalkToEnd<U>(start: Node, position: nat, visit: (U, Entry) -> (U, bool), user: U, ghost ls: seq<Node>,
                      ghost from: nat)
    returns (ok: bool, u: U)
    requires Walkable(ls) && from < |ls| && WalkedTo(ls, from, start) && position <= start.keyCount
    ensures (u, ok) == VisitAll(visit, user, Remaining(ls, from, position))
  {
    hide VisitAll, Remaining, EntriesIn, Walkable;
    LeafAt(ls, from, start);
    u := user;
    var node: Node? := start;
    var first: nat := position;
    ghost var k := from;
    ghost var all := Remaining(ls, from, position);
    while node != null
      invariant WalkedTo(ls, k, node) && LeafIs(node)
      invariant node != null ==> first <= node.keyCount
      invariant VisitAll(visit, user, all) == VisitAll(visit, u, Remaining(ls, k, first))
      decreases |ls| - k
    {
      var i: nat := first;
      while i < node.keyCount
        invariant first <= i <= node.keyCount
        invariant VisitAll(visit, user, all) == VisitAll(visit, u, Remaining(ls, k, i))
      {
        RemainingStep(ls, k, i);
        VisitFirst(visit, u, node.model.tree.entries[i], Remaining(ls, k, i + 1));
        var (v, more) := visit(u, Entry(node.keys[i], node.offsets[i]));
        u := v;
        if !more {
          return false, u;
        }
        i := i + 1;
      }
      RemainingNext(ls, k);
      WalkOn(ls, k, node);
      node := node.next;
      first := 0;
      k := k + 1;
      LeafAt(ls, k, node);
    }
    NothingRemains(ls, k, first, visit, u);
    ok := true;
  }

  lemma BelowFirst(e: Entry, es: seq<Entry>, key: int)
    requires Sorted([e] + es)
    ensures Sorted(es)
    ensures e.key >= key ==> Below([e] + es, key) == []
    ensures e.key < key ==> Below([e] + es, key) == [e] + Below(es, key)
  {
    var all := [e] + es;
    assert all[0] == e && all[1..] == es;
    assert forall i | 0 <= i < |es| :: all[i + 1] == es[i];
    if e.key >= key {
      BelowOfHigh(all, key);
    }
  }

  /** Visits the chain from its first leaf up to the first key that is not below `key`. */
  method WalkBelow<U>(start: Node, key: int, visit: (U, Entry) -> (U, bool), user: U, ghost ls: seq<Node>)
    returns (ok: bool, u: U)
    requires Walkable(ls) && WalkedTo(ls, 0, start) && Sorted(EntriesIn(ls))
    ensures (u, ok) == VisitAll(visit, user, Below(EntriesIn(ls), key))
  {
    hide VisitAll, Remaining, EntriesIn, Walkable, Below, Sorted;
    LeafAt(ls, 0, start);
    u := user;
    var node: Node? := start;
    ghost var k := 0;
    ghost var all := Below(EntriesIn(ls), key);
    RemainingAll(ls);
    while node != null
      invariant WalkedTo(ls, k, node) && LeafIs(node)
      invariant Sorted(Remaining(ls, k, 0))
      invariant VisitAll(visit, user, all) == VisitAll(visit, u, Below(Remaining(ls, k, 0), key))
      decreases |ls| - k
    {
      var i: nat := 0;
      while i < node.keyCount
        invariant i <= node.keyCount
        invariant Sorted(Remaining(ls, k, i))
        invariant VisitAll(visit, user, all) == VisitAll(visit, u, Below(Remaining(ls, k, i), key))
      {
        RemainingStep(ls, k, i);
        BelowFirst(node.model.tree.entries[i], Remaining(ls, k, i + 1), key);
        if node.keys[i] >= key {
          VisitNothing(visit, u);
          return true, u;
        }
        VisitFirst(visit, u, node.model.tree.entries[i], Below(Remaining(ls, k, i + 1), key));
        var (v, more) := visit(u, Entry(node.keys[i], node.offsets[i]));
        u := v;
        if !more {
          return false, u;
        }
        i := i + 1;
      }
      RemainingNext(ls, k);
      WalkOn(ls, k, node);
      node := node.next;
      k := k + 1;
      LeafAt(ls, k, node);
    }
    NothingRemains(ls, k, 0, visit, u);
    ok := true;
  }

  lemma RangeInChain(ls: seq<Node>, before: seq<Node>, node: Node, after: seq<Node>, key: int, position: nat)
    requires Narrowed(ls, before, [node], after, key) && node.model.tree.Leaf? && Sorted(EntriesIn(ls))
    requires var es := node.model.tree.entries;
             && position <= |es|
             && (forall i | 0 <= i < position :: es[i].key <= key) && (position < |es| ==> key < es[position].key)
    ensures Above(EntriesIn(ls), key) == node.model.tree.entries[position..] + EntriesIn(after)
  {
    var es, a, b := node.model.tree.entries, EntriesIn(before), EntriesIn(after);
    assert AllBelow(a, key) && AllAbove(b, key) && EntriesIn(ls) == a + es + b by {
      hide AllBelow, AllAbove, Above, Sorted;
      EntriesInConcat(before + [node], after);
      EntriesInConcat(before, [node]);
      assert EntriesIn([node]) == es + EntriesIn([]);
    }
    hide Narrowed, EntriesIn, Above, Below;
    RangeAround(a, es, b, key, position);
  }

  lemma RangeAround(a: seq<Entry>, es: seq<Entry>, b: seq<Entry>, key: int, position: nat)
    requires AllBelow(a, key) && AllAbove(b, key) && Sorted(a + es + b) && position <= |es|
    requires (forall i | 0 <= i < position :: es[i].key <= key) && (position < |es| ==> key < es[position].key)
    ensures Above(a + es + b, key) == es[position..] + b
  {
    hide Above, Below;
    MiddleSorted(a, es, b);
    AboveConcat(a + es, b, key);
    AboveConcat(a, es, key);
    BelowOfLow(a, key);
    AboveOfHigh(b, key);
    AboveIsSuffix(es, key, position);
  }

  lemma MiddleSorted(a: seq<Entry>, es: seq<Entry>, b: seq<Entry>)
    requires Sorted(a + es + b)
    ensures Sorted(es)
  {
    assert forall i | 0 <= i < |es| :: (a + es + b)[|a| + i] == es[i];
  }

  class Index {
    const order: nat
    var root: Node?

    /** The nodes created so far. */
    ghost var created: nat

    constructor (order: nat)
      requires order >= 3
      ensures Valid() && Entries() == [] && fresh(Repr()) && this.order == order
    {
      this.order := order;
      root := null;
      created := 0;
    }

    ghost function Repr(): set<object>
      reads this, root
    {
      {this} + if root == null then {} else root.model.repr
    }

    ghost predicate Valid()
      reads this, root, Repr()
    {
      && order >= 3 && created == T.RootNodes(Tree())
      && (root != null ==>
            && root.order == order && this !in root.model.repr
            && root.Valid()
            && root.model.last != null && root.model.last.next == null
            && T.ValidRoot(order, Some(root.model.tree)))
    }

    ghost function Tree(): Option<T.Tree>
      reads this, root
    {
      if root == null then None else Some(root.model.tree)
    }

    /** What the index stands for: its entries in ascending key order. */
    ghost function Entries(): (es: seq<Entry>)
      reads this, root
    {
      T.RootEntries(Tree())
    }

    lemma EntriesAreSorted()
      requires Valid()
      ensures Sorted(Entries())
    {
      if root != null {
        var h: nat :| T.Valid(order, root.model.tree, h, true);
        T.EntriesSorted(order, root.model.tree, h, true);
      }
    }

    /** Every node ever created is in the tree, and there are few of them. */
    lemma NoNodeIsLost()
      requires Valid() && root != null
      ensures created == T.NodeCount(root.model.tree)
      ensures order >= 4 ==> created <= if |Entries()| <= 2 then 1 else |Entries()| - 1
    {
      if order >= 4 {
        var h := Height();
        T.NodesBounded(order, root.model.tree, h);
      }
    }

    /** The leaves from the leftmost one through `next` are exactly the leaves of the
        tree in order, each once, and they hold the entries of the index. */
    lemma ChainIsLeaves() returns (ls: seq<Node>)
      requires Valid() && root != null
      ensures ls == Leaves(root) && LeavesAre(ls, root.model.repr, root.model.first, root.model.last, Entries())
      ensures ls[|ls| - 1].next == null
      ensures forall i, j | 0 <= i < j < |ls| :: ls[i] != ls[j]
      ensures forall l | l in ls :: l.Valid()
    {
      hide Node.Valid;
      ls := Leaves(root);
      LeavesFacts(root);
      LeavesValid(root);
      ChainAcyclic(ls);
    }

    method Insert(key: int, offset: int) returns (ok: bool)
      requires Valid()
      modifies Repr()
      ensures Valid() && fresh(Repr() - old(Repr())) && created >= old(created)
      ensures ok <==> !HasKey(old(Entries()), key)
      ensures Entries() == if ok then Inserted(old(Entries()), key, offset) else old(Entries())
      ensures !ok ==> unchanged(old(Repr()))
    {
      hide Node.Valid, T.Insert, T.InsertRoot, T.ValidRoot, Inserted, T.Shaped, T.NodeCount, T.CreatedAtRoot;
      T.InsertRootCorrect(order, Tree(), key, offset);
      T.RootNodesConserved(order, Tree(), key, offset);
      if root == null {
        T.EmptyRoot(order, key, offset);
        root := new Node(order, true);
        created := created + 1;
      }
      ghost var more;
      ok, root, more := InsertAt(root, key, offset);
      created := created + more;
    }

    /** A point search: one walk from the root to a leaf, with a count of the nodes read. */
    method Search(key: int) returns (r: Option<int>, ghost visited: nat)
      requires Valid()
      ensures r == Lookup(Entries(), key)
      ensures T.FewVisited(order, visited, |Entries()|)
      ensures root != null && T.Shaped(root.model.tree) ==> visited == T.Visited(root.model.tree, key)
    {
      hide Node.Valid, T.Shaped, T.Valid, T.FewVisited;
      if root == null {
        NoneVisited();
        return None, 0;
      }
      SearchIsLookup(key);
      ReadsFewNodes(key);
      visited := 1;
      var node: Node := root;
      while !node.isLeaf
        invariant node.Valid() && T.Search(node.model.tree, key) == T.Search(root.model.tree, key)
        invariant T.Shaped(node.model.tree) && T.Shaped(root.model.tree)
        invariant visited + T.Visited(node.model.tree, key) == T.Visited(root.model.tree, key) + 1
        decreases node.model.repr
      {
        AboutChild(node, 0);
        var position := FindChildPosition(node, key);
        AboutChild(node, position);
        node := node.children[position];
        visited := visited + 1;
      }
      var position := FindLeafPosition(node, key);
      LeafHolds(node);
      if position >= node.keyCount || node.keys[position] != key {
        return None, visited;
      }
      return Some(node.offsets[position]), visited;
    }

    lemma Height() returns (h: nat)
      requires Valid() && root != null
      ensures T.Valid(order, root.model.tree, h, true)
    {
      h :| T.Valid(order, root.model.tree, h, true);
    }

    lemma SearchIsLookup(key: int)
      requires Valid() && root != null
      ensures T.Search(root.model.tree, key) == Lookup(Entries(), key)
    {
      var h: nat :| T.Valid(order, root.model.tree, h, true);
      T.SearchCorrect(order, root.model.tree, h, true, key);
    }

    lemma NoneVisited()
      ensures T.FewVisited(order, 0, |Entries()|)
    {
    }

    lemma ReadsFewNodes(key: int)
      requires Valid() && root != null
      ensures T.Shaped(root.model.tree) && T.FewVisited(order, T.Visited(root.model.tree, key), |Entries()|)
    {
      var h := Height();
      T.SearchIsLogarithmic(order, root.model.tree, h, key);
    }

    method LeftmostLeaf() returns (node: Node)
      requires Valid() && root != null
      ensures node == root.model.first
    {
      hide T.Shaped;
      node := root;
      while !node.isLeaf
        invariant node.Valid() && node.model.first == root.model.first
        decreases node.model.repr
      {
        AboutChild(node, 0);
        node := node.children[0];
      }
    }

    method FindLeaf(key: int) returns (node: Node)
      requires Valid() && root != null
      ensures node == LeafFor(root, key)
    {
      hide Node.Valid, T.Shaped;
      node := root;
      while !node.isLeaf
        invariant node.Valid() && LeafFor(node, key) == LeafFor(root, key)
        decreases node.model.repr
      {
        AboutChild(node, 0);
        var position := FindChildPosition(node, key);
        AboutChild(node, position);
        node := node.children[position];
      }
    }

    lemma WholeChain() returns (ls: seq<Node>)
      requires Valid() && root != null
      ensures ls == Leaves(root) && Walkable(ls) && EntriesIn(ls) == Entries() && ls != [] && ls[0] == root.model.first
    {
      ls := ChainIsLeaves();
      forall l | l in ls
        ensures l.Capacity() && l.model.tree.Leaf? && l.HoldsEntries(l.model.tree.entries)
      {
        hide Leaves, LeavesAre;
      }
    }

    lemma AboutLeaf(node: Node, key: int)
      requires Valid() && root != null && node == LeafFor(root, key)
      ensures node.Valid() && node.isLeaf && node.model.tree.Leaf?
    {
      hide Node.Valid, T.Valid, Narrowed, LeafFor;
      var h := Height();
      var before, after := LeafForNarrows(root, h, true, key);
    }

    /** The entries above a key start in the leaf of the key and go on to the end of the chain. */
    lemma AboveFrom(key: int, node: Node, position: nat) returns (ls: seq<Node>, k: nat)
      requires Valid() && root != null && node == LeafFor(root, key) && node.model.tree.Leaf?
      requires var es := node.model.tree.entries;
               && position <= |es|
               && (forall i | 0 <= i < position :: es[i].key <= key) && (position < |es| ==> key < es[position].key)
      ensures Walkable(ls) && k < |ls| && WalkedTo(ls, k, node)
      ensures Above(Entries(), key) == Remaining(ls, k, position)
    {
      ls := WholeChain();
      EntriesAreSorted();
      var h := Height();
      hide Node.Valid, T.Valid, Leaves, LeafFor, Walkable, Index.Valid;
      var before, after := LeafForNarrows(root, h, true, key);
      k := |before|;
      assert ls[k + 1..] == after;
      RangeInChain(ls, before, node, after, key, position);
    }

    /** Calls `visit` on the entries above `key`, in ascending order, until it answers false. */
    method VisitGreaterThan<U>(key: int, visit: (U, Entry) -> (U, bool), user: U) returns (ok: bool, u: U)
      requires Valid()
      ensures (u, ok) == VisitAll(visit, user, Above(Entries(), key))
    {
      u := user;
      if root == null {
        return true, u;
      }
      var leaf := FindLeaf(key);
      AboutLeaf(leaf, key);
      var position := FindFirstAbove(leaf, key);
      ghost var ls, k := AboveFrom(key, leaf, position);
      ok, u := WalkToEnd(leaf, position, visit, user, ls, k);
    }

    /** Calls `visit` on the entries below `key`, in ascending order, until it answers false. */
    method VisitLessThan<U>(key: int, visit: (U, Entry) -> (U, bool), user: U) returns (ok: bool, u: U)
      requires Valid()
      ensures (u, ok) == VisitAll(visit, user, Below(Entries(), key))
    {
      u := user;
      if root == null {
        return true, u;
      }
      var leaf := LeftmostLeaf();
      ghost var ls := WholeChain();
      EntriesAreSorted();
      ok, u := WalkBelow(leaf, key, visit, user, ls);
    }
  }
}
