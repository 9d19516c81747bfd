/** The second structure over the same nodes: the list of leaves through `next`. It is
    proved to be the in-order sequence of the leaves of the tree. */
module LeafChain {
  import opened SortedEntries
  import opened BPlusTree
  import T = TreeSpec

  /** The leaves of a subtree, left to right. */
  ghost function Leaves(node: Node): (ls: seq<Node>)
    requires node.Valid()
    reads node, node.model.repr
    decreases node.model.repr, 0
  {
    if node.isLeaf then [node] else LeavesOf(node.model.kids, node.model.below, node.order)
  }

  ghost function LeavesOf(cs: seq<Node>, R: set<object>, order: nat): (ls: seq<Node>)
    requires Members(cs, R, order)
    reads R
    decreases R, 1, |cs|
  {
    if cs == [] then [] else LeavesOf(cs[..|cs| - 1], R, order) + Leaves(cs[|cs| - 1])
  }

  ghost function EntriesIn(ls: seq<Node>): seq<Entry>
    requires forall l | l in ls :: l.model.tree.Leaf?
    reads ls
  {
    if ls == [] then [] else ls[0].model.tree.entries + EntriesIn(ls[1..])
  }

  /** `ls` is a list of leaves of the subtree, each followed by the next one. */
  ghost predicate Chain(ls: seq<Node>)
    reads ls
  {
    && (forall l | l in ls :: l.isLeaf && l.model.tree.Leaf?)
    && forall i, j {:trigger ls[i], ls[j]} | 0 <= i < j < |ls| && j == i + 1 :: ls[i].next == ls[j]
  }

  lemma {:induction false} EntriesInConcat(a: seq<Node>, b: seq<Node>)
    requires forall l | l in a :: l.model.tree.Leaf?
    requires forall l | l in b :: l.model.tree.Leaf?
    ensures EntriesIn(a + b) == EntriesIn(a) + EntriesIn(b)
  {
    if a == [] {
      assert a + b == b;
    } else {
      var rest, c := a[1..], a + b;
      EntriesInConcat(rest, b);
      assert c[0] == a[0] && c[1..] == rest + b;
      ConcatAssoc(a[0].model.tree.entries, EntriesIn(rest), EntriesIn(b));
    }
  }

  lemma {:induction false} ChainConcat(a: seq<Node>, b: seq<Node>)
    requires Chain(a) && Chain(b) && a != [] && b != [] && a[|a| - 1].next == b[0]
    ensures Chain(a + b)
  {
  }

  /** What the leaves of a subtree are: a chain from its first to its last leaf that
      holds its entries in order. */
  ghost predicate LeavesAre(ls: seq<Node>, R: set<object>, first: Node?, last: Node?, es: seq<Entry>)
    reads ls
  {
    && ls != [] && ls[0] == first && ls[|ls| - 1] == last
    && (forall l | l in ls :: l in R)
    && Chain(ls) && EntriesIn(ls) == es
  }

  lemma {:induction false} LeavesFacts(node: Node)
    requires node.Valid()
    ensures LeavesAre(Leaves(node), node.model.repr, node.model.first, node.model.last, T.Entries(node.model.tree))
    decreases node.model.repr, 0
  {
    if node.isLeaf {
      assert EntriesIn([node]) == node.model.tree.entries + EntriesIn([]);
    } else {
      AboutChild(node, 0);
      hide Node.Valid, Apart;
      LeavesOfFacts(node.model.kids, node.model.tree.children, node.model.below, node.order);
    }
  }

  lemma {:induction false} LeavesOfFacts(cs: seq<Node>, ts: seq<T.Tree>, R: set<object>, order: nat)
    requires Members(cs, R, order) && Chained(cs, R) && cs != []
    requires |ts| == |cs| && forall i | 0 <= i < |cs| :: ts[i] == cs[i].model.tree
    ensures LeavesAre(LeavesOf(cs, R, order), R, cs[0].model.first, cs[|cs| - 1].model.last, T.EntriesOf(ts))
    decreases R, 1, |cs|
  {
    hide Node.Valid;
    var n := |cs| - 1;
    var c := cs[n];
    LeavesFacts(c);
    assert ts == ts[..n] + [ts[n]];
    T.EntriesConcat(ts[..n], [ts[n]]);
    assert T.EntriesOf([ts[n]]) == T.Entries(ts[n]);
    if n > 0 {
      LeavesOfFacts(cs[..n], ts[..n], R, order);
      var a, b := LeavesOf(cs[..n], R, order), Leaves(c);
      ChainConcat(a, b);
      EntriesInConcat(a, b);
    } else {
      assert cs[..n] == [];
      assert LeavesOf(cs, R, order) == [] + Leaves(c) == Leaves(c);
    }
  }

  lemma {:induction false} LeavesValid(node: Node)
    requires node.Valid()
    ensures forall l | l in Leaves(node) :: l.Valid() && l.isLeaf
    decreases node.model.repr, 0
  {
    if !node.isLeaf {
      AboutChild(node, 0);
      hide Node.Valid, Apart;
      LeavesOfValid(node.model.kids, node.model.below, node.order);
    }
  }

  lemma {:induction false} LeavesOfValid(cs: seq<Node>, R: set<object>, order: nat)
    requires Members(cs, R, order)
    ensures forall l | l in LeavesOf(cs, R, order) :: l.Valid() && l.isLeaf
    decreases R, 1, |cs|
  {
    hide Node.Valid;
    if cs != [] {
      LeavesOfValid(cs[..|cs| - 1], R, order);
      LeavesValid(cs[|cs| - 1]);
    }
  }

  /** A chain that ends never meets a node twice: two equal nodes would have equal
      successors all the way to the end. */
  lemma {:induction false} SameSuccessors(ls: seq<Node>, i: nat, j: nat, k: nat)
    requires Chain(ls) && i < j && j + k < |ls| && ls[i] == ls[j]
    ensures ls[i + k] == ls[j + k]
    decreases k
  {
    if k > 0 {
      SameSuccessors(ls, i, j, k - 1);
      assert ls[i + k - 1].next == ls[i + k] && ls[j + k - 1].next == ls[j + k];
    }
  }

  lemma HasNext(ls: seq<Node>, k: nat)
    requires Chain(ls) && k + 1 < |ls|
    ensures ls[k].next != null
  {
    var j := k + 1;
    assert ls[k].next == ls[j];
  }

  lemma {:induction false} ChainAcyclic(ls: seq<Node>)
    requires Chain(ls) && ls != [] && ls[|ls| - 1].next == null
    ensures forall i, j | 0 <= i < j < |ls| :: ls[i] != ls[j]
  {
    forall i, j | 0 <= i < j < |ls|
      ensures ls[i] != ls[j]
    {
      if ls[i] == ls[j] {
        var k := |ls| - 1 - j;
        SameSuccessors(ls, i, j, k);
        HasNext(ls, i + k);
        assert false;
      }
    }
  }

  lemma ChildrenRow(node: Node)
    requires node.Valid() && !node.isLeaf
    ensures var cs, ts, R := node.model.kids, node.model.tree.children, node.model.below;
            && Members(cs, R, node.order) && Chained(cs, R) && Leaves(node) == LeavesOf(cs, R, node.order)
            && |ts| == |cs| == node.keyCount + 1 && forall i | 0 <= i < |cs| :: ts[i] == cs[i].model.tree
  {
    hide Apart, T.Shaped;
  }

  /** The leaves of a node around those of one child. */
  lemma {:induction false} LeavesAround(node: Node, p: nat) returns (a: seq<Node>, b: seq<Node>)
    requires node.Valid() && !node.isLeaf && p <= node.keyCount
    ensures |node.model.kids| == |node.model.tree.children| == node.keyCount + 1 && node.model.kids[p].Valid()
    ensures Leaves(node) == a + Leaves(node.model.kids[p]) + b
    ensures (forall l | l in a :: l.model.tree.Leaf?) && EntriesIn(a) == T.EntriesOf(node.model.tree.children[..p])
    ensures (forall l | l in b :: l.model.tree.Leaf?) && EntriesIn(b) == T.EntriesOf(node.model.tree.children[p + 1..])
  {
    hide *;
    AboutChild(node, p);
    ChildrenRow(node);
    var cs, ts, R := node.model.kids, node.model.tree.children, node.model.below;
    PartHolds(cs, ts, R, node.order, 0, p);
    PartHolds(cs, ts, R, node.order, p + 1, |cs|);
    a, b := LeavesOf(cs[0..p], R, node.order), LeavesOf(cs[p + 1..|cs|], R, node.order);
    LeavesOfAround(cs, R, node.order, p);
    assert ts[0..p] == ts[..p] && ts[p + 1..|cs|] == ts[p + 1..];
  }

  /** A stretch of neighbouring subtrees holds the entries of their trees. */
  lemma PartHolds(cs: seq<Node>, ts: seq<T.Tree>, R: set<object>, order: nat, lo: nat, hi: nat)
    requires Members(cs, R, order) && Chained(cs, R) && lo <= hi <= |cs|
    requires |ts| == |cs| && forall i | 0 <= i < |cs| :: ts[i] == cs[i].model.tree
    ensures Members(cs[lo..hi], R, order)
    ensures var ls := LeavesOf(cs[lo..hi], R, order);
            (forall l | l in ls :: l.model.tree.Leaf?) && EntriesIn(ls) == T.EntriesOf(ts[lo..hi])
  {
    MembersSlice(cs, R, order, lo, hi);
    ChainedSlice(cs, R, R, order, lo, hi);
    hide Node.Valid, Members, Chained;
    if lo < hi {
      LeavesOfFacts(cs[lo..hi], ts[lo..hi], R, order);
    }
  }

  lemma {:induction false} LeavesOfConcat(a: seq<Node>, b: seq<Node>, R: set<object>, order: nat)
    requires Members(a, R, order) && Members(b, R, order) && Members(a + b, R, order)
    ensures LeavesOf(a + b, R, order) == LeavesOf(a, R, order) + LeavesOf(b, R, order)
    decreases |b|
  {
    hide Node.Valid, Leaves;
    if b == [] {
      assert a + b == a;
    } else {
      var n := |b| - 1;
      var front, c := b[..n], a + b;
      assert c[..|c| - 1] == a + front && c[|c| - 1] == b[n];
      MembersSlice(c, R, order, 0, |c| - 1);
      MembersSlice(b, R, order, 0, n);
      LeavesOfConcat(a, front, R, order);
      assert LeavesOf(c, R, order) == LeavesOf(a + front, R, order) + Leaves(b[n]);
      hide Members, LeavesOf;
      ConcatAssoc(LeavesOf(a, R, order), LeavesOf(front, R, order), Leaves(b[n]));
    }
  }

  lemma {:induction false} LeavesOfAround(cs: seq<Node>, R: set<object>, order: nat, p: nat)
    requires Members(cs, R, order) && p < |cs|
    ensures Members(cs[0..p], R, order) && Members(cs[p + 1..|cs|], R, order) && cs[p].Valid()
    ensures LeavesOf(cs, R, order) == LeavesOf(cs[0..p], R, order) + Leaves(cs[p]) + LeavesOf(cs[p + 1..|cs|], R, order)
  {
    MembersSlice(cs, R, order, 0, p);
    MembersSlice(cs, R, order, 0, p + 1);
    MembersSlice(cs, R, order, p + 1, |cs|);
    hide Node.Valid, Leaves;
    var front := cs[0..p + 1];
    assert front[..p] == cs[0..p] && front[p] == cs[p];
    assert LeavesOf(front, R, order) == LeavesOf(cs[0..p], R, order) + Leaves(cs[p]);
    hide LeavesOf, Members;
    assert front + cs[p + 1..|cs|] == cs;
    LeavesOfConcat(front, cs[p + 1..|cs|], R, order);
  }

  // ---------- Walking the chain ----------

  /** The entries from position `i` of leaf `k` of a chain to its end. */
  ghost function Remaining(ls: seq<Node>, k: nat, i: nat): seq<Entry>
    requires forall l | l in ls :: l.model.tree.Leaf?
    requires k < |ls| ==> i <= |ls[k].model.tree.entries|
    reads ls
  {
    if k >= |ls| then [] else ls[k].model.tree.entries[i..] + EntriesIn(ls[k + 1..])
  }

  lemma RemainingStep(ls: seq<Node>, k: nat, i: nat)
    requires forall l | l in ls :: l.model.tree.Leaf?
    requires k < |ls| && i < |ls[k].model.tree.entries|
    ensures Remaining(ls, k, i) == [ls[k].model.tree.entries[i]] + Remaining(ls, k, i + 1)
  {
    var es := ls[k].model.tree.entries;
    assert es[i..] == [es[i]] + es[i + 1..];
    var rest := EntriesIn(ls[k + 1..]);
    hide EntriesIn;
    ConcatAssoc([es[i]], es[i + 1..], rest);
  }

  lemma RemainingNext(ls: seq<Node>, k: nat)
    requires forall l | l in ls :: l.model.tree.Leaf?
    requires k < |ls|
    ensures Remaining(ls, k, |ls[k].model.tree.entries|) == Remaining(ls, k + 1, 0)
  {
    var rest := ls[k + 1..];
    if k + 1 < |ls| {
      assert rest[0] == ls[k + 1] && rest[1..] == ls[k + 2..];
    }
  }

  lemma RemainingAll(ls: seq<Node>)
    requires forall l | l in ls :: l.model.tree.Leaf?
    ensures Remaining(ls, 0, 0) == EntriesIn(ls)
  {
    if ls != [] {
      assert ls[0].model.tree.entries[0..] == ls[0].model.tree.entries;
    }
  }

  /** A whole chain, as a walk through `next` meets it: every leaf holds its entries in
      its arrays and is followed by the next one, the last by nothing. */
  ghost predicate Walkable(ls: seq<Node>)
    reads ls, set l | l in ls :: l.keys, set l | l in ls :: l.offsets
  {
    && (forall l | l in ls :: l.Capacity() && l.model.tree.Leaf? && l.HoldsEntries(l.model.tree.entries))
    && (forall i, j {:trigger ls[i], ls[j]} | 0 <= i < j < |ls| && j == i + 1 :: ls[i].next == ls[j])
    && (ls != [] ==> ls[|ls| - 1].next == null)
  }

  /** The walk has come to leaf `k`. */
  ghost predicate WalkedTo(ls: seq<Node>, k: nat, node: Node?) {
    k <= |ls| && node == if k < |ls| then ls[k] else null
  }

  lemma WalkOn(ls: seq<Node>, k: nat, node: Node)
    requires Walkable(ls) && WalkedTo(ls, k, node)
    ensures k < |ls| && WalkedTo(ls, k + 1, node.next)
  {
    var j := k + 1;
    if j < |ls| {
      assert ls[k].next == ls[j];
    }
  }
}
