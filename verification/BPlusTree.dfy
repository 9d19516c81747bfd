/** The in-memory B+ tree as the program builds it: nodes with fixed-size arrays,
    linked downwards through `children` and, at leaf level, sideways through `next`. */
module BPlusTree {
  import opened SortedEntries
  import T = TreeSpec

  datatype InsertResult = InsertResult(split: bool, duplicate: bool, promotedKey: int, rightNode: Node?)

  /** What a node stands for. `below` is the footprint of the children of an internal
      node, `repr` that of the whole subtree; `first` and `last` are the leftmost and
      rightmost leaf of the subtree. */
  datatype Model = Model(tree: T.Tree, kids: seq<Node>, below: set<object>, repr: set<object>, first: Node?,
                         last: Node?)

  /** A row of neighbouring subtrees with the separators between them. */
  datatype Row = Row(keys: seq<int>, kids: seq<Node>, trees: seq<T.Tree>, below: set<object>, first: Node?, last: Node?)

  class Node {
    const order: nat
    const isLeaf: bool
    const keys: array<int>
    const offsets: array<int>
    const children: array<Node?>
    var keyCount: nat
    var next: Node?

    ghost var model: Model

    constructor (order: nat, isLeaf: bool)
      requires order >= 3
      ensures fresh(this) && fresh(keys) && fresh(offsets) && fresh(children)
      ensures InsideOf(model.repr) && forall o | o in model.repr :: IsOwn(o)
      ensures Capacity() && keyCount == 0 && next == null
      ensures this.order == order && this.isLeaf == isLeaf
      ensures isLeaf ==> Valid() && model.tree == T.Leaf([])
    {
      this.order := order;
      this.isLeaf := isLeaf;
      keys := new int[order - 1](_ => 0);
      offsets := new int[order - 1](_ => 0);
      children := new Node?[order](_ => null);
      keyCount := 0;
      next := null;
      model := Model(T.Leaf([]), [], {}, {}, this, this);
      new;
      model := model.(repr := {this, keys, offsets, children});
    }

    /** The node itself is four objects: in the source one struct. */
    ghost predicate IsOwn(o: object) {
      o == this || o == keys || o == offsets || o == children
    }

    ghost predicate InsideOf(objects: set<object>) {
      this in objects && keys in objects && offsets in objects && children in objects
    }

    ghost predicate OutsideOf(objects: set<object>) {
      this !in objects && keys !in objects && offsets !in objects && children !in objects
    }

    /** The footprint is the node itself and `objects`. */
    ghost predicate ReprIs(objects: set<object>)
      reads this
    {
      InsideOf(model.repr) && objects <= model.repr && forall o | o in model.repr :: o in objects || IsOwn(o)
    }

    ghost predicate Capacity() {
      && order >= 3
      && keys.Length == offsets.Length == order - 1
      && children.Length == order
      && keys != offsets
    }

    /** The used part of the arrays of a leaf is the list `es`. */
    ghost predicate HoldsEntries(es: seq<Entry>)
      requires Capacity()
      reads this, keys, offsets
    {
      && |es| == keyCount <= order - 1
      && forall i {:trigger es[i]} | 0 <= i < |es| :: es[i].key == keys[i] && es[i].offset == offsets[i]
    }

    /** The used part of the arrays of an internal node is `ks` and `cs`. */
    ghost predicate HoldsChildren(ks: seq<int>, cs: seq<Node>)
      requires Capacity()
      reads this, keys, children
    {
      && |ks| == keyCount <= order - 1
      && |cs| == keyCount + 1
      && (forall i {:trigger ks[i]} | 0 <= i < |ks| :: ks[i] == keys[i])
      && (forall i {:trigger cs[i]} | 0 <= i < |cs| :: cs[i] == children[i])
    }

    /** The children as a row; meaningful for internal nodes. */
    ghost function Children(): Row
      requires model.tree.Node?
      reads this
    {
      Row(model.tree.keys, model.kids, model.tree.children, model.below, model.first, model.last)
    }

    /** The node is the root of a proper subtree whose value is `model.tree` and whose
        leaves form the chain segment from `model.first` to `model.last`. */
    ghost predicate Valid()
      reads this, model.repr
      decreases model.repr, 0
      ensures Valid() ==> this in model.repr
      ensures Valid() ==>
                model.first != null && model.last != null && model.first in model.repr && model.last in model.repr
      ensures Valid() ==> T.Shaped(model.tree) && model.tree.Leaf? == isLeaf && Capacity() && keyCount <= order - 1
    {
      && ReprIs(model.below)
      && OutsideOf(model.below)
      && Capacity()
      && model.tree.Leaf? == isLeaf
      && match model.tree
         case Leaf(es) =>
           && HoldsEntries(es)
           && model.first == model.last == this
         case Node(ks, ts) =>
           && HoldsChildren(ks, model.kids)
           && Members(model.kids, model.below, order)
           && Tied(Children())
    }
  }

  /** The nodes are valid subtrees inside R. */
  ghost predicate Members(cs: seq<Node>, R: set<object>, order: nat)
    reads R
    decreases R, 1
  {
    forall i | 0 <= i < |cs| ::
      && cs[i] in R && cs[i].model.repr <= R && cs[i].order == order && cs[i].Valid()
      && cs[i].model.last != null && cs[i].model.last in R
  }

  ghost predicate Apart(cs: seq<Node>)
    reads cs
  {
    forall i, j | 0 <= i < j < |cs| :: cs[i].model.repr !! cs[j].model.repr
  }

  /** The last leaf of each subtree is followed by the first leaf of the next. */
  ghost predicate Chained(cs: seq<Node>, R: set<object>)
    requires forall i | 0 <= i < |cs| :: cs[i] in R && cs[i].model.last != null && cs[i].model.last in R
    reads R
  {
    forall i, j {:trigger cs[i], cs[j]} | 0 <= i < j < |cs| && j == i + 1 :: cs[i].model.last.next == cs[j].model.first
  }

  ghost predicate Labelled(row: Row)
    requires row.kids != []
    reads row.kids
  {
    && |row.kids| == |row.trees|
    && (forall i | 0 <= i < |row.kids| :: row.trees[i] == row.kids[i].model.tree)
    && row.first == row.kids[0].model.first
    && row.last == row.kids[|row.kids| - 1].model.last
  }

  /** The parts of a row belong together. */
  ghost predicate Tied(row: Row)
    requires forall i | 0 <= i < |row.kids| ::
               row.kids[i] in row.below && row.kids[i].model.last != null && row.kids[i].model.last in row.below
    reads row.below
  {
    && |row.kids| == |row.trees| == |row.keys| + 1
    && Apart(row.kids)
    && Chained(row.kids, row.below)
    && Labelled(row)
  }

  /** The subtrees of a row are valid, have disjoint footprints inside `below`, and each
      is chained to the next. */
  ghost predicate Linked(row: Row, order: nat)
    reads row.below
  {
    Members(row.kids, row.below, order) && Tied(row)
  }

  // ---------- Positions inside one node ----------

  method FindLeafPosition(node: Node, key: int) returns (position: nat)
    requires node.Valid() && node.isLeaf
    ensures position == Position(node.model.tree.entries, key)
  {
    ghost var es := node.model.tree.entries;
    position := 0;
    while position < node.keyCount && node.keys[position] < key
      invariant position <= node.keyCount
      invariant forall i | 0 <= i < position :: es[i].key < key
    {
      assert es[position].key == node.keys[position];
      position := position + 1;
    }
    PositionUnique(es, key, position);
  }

  method FindChildPosition(node: Node, key: int) returns (position: nat)
    requires node.Valid() && !node.isLeaf
    ensures position == T.ChildPosition(node.model.tree.keys, key) && position <= node.keyCount
  {
    ghost var ks := node.model.tree.keys;
    position := 0;
    while position < node.keyCount && key >= node.keys[position]
      invariant position <= node.keyCount
      invariant forall i | 0 <= i < position :: ks[i] <= key
    {
      assert ks[position] == node.keys[position];
      position := position + 1;
    }
    T.ChildPositionUnique(ks, key, position);
  }

  // ---------- Array loops ----------

  /** Moves a[from..to] one place to the right, from the right end down. */
  method ShiftRight<E>(a: array<E>, from: nat, to: nat)
    requires from <= to < a.Length
    modifies a
    ensures forall j {:trigger a[j]} | 0 <= j < a.Length :: a[j] == old(a[if from < j <= to then j - 1 else j])
  {
    var i := to;
    while i > from
      invariant from <= i <= to
      invariant forall j {:trigger a[j]} | 0 <= j < a.Length :: a[j] == old(a[if i < j <= to then j - 1 else j])
    {
      a[i] := a[i - 1];
      i := i - 1;
    }
  }

  /** Copies src[from..from + count] to dst[at..at + count]. */
  method Copy<E>(src: array<E>, from: nat, dst: array<E>, at: nat, count: nat)
    requires src != dst && from + count <= src.Length && at + count <= dst.Length
    modifies dst
    ensures forall j {:trigger dst[j]} | 0 <= j < dst.Length ::
              dst[j] == if at <= j < at + count then src[from + j - at] else old(dst[j])
  {
    var i := 0;
    while i < count
      invariant i <= count
      invariant forall j {:trigger dst[j]} | 0 <= j < dst.Length ::
                  dst[j] == if at <= j < at + i then src[from + j - at] else old(dst[j])
    {
      dst[at + i] := src[from + i];
      i := i + 1;
    }
  }

  // ---------- Insertion into a leaf ----------

  method InsertLeafWithoutSplit(leaf: Node, position: nat, key: int, offset: int)
    requires leaf.Valid() && leaf.isLeaf && leaf.keyCount < leaf.order - 1
    requires position == Position(leaf.model.tree.entries, key)
    modifies leaf`keyCount, leaf`model, leaf.keys, leaf.offsets
    ensures leaf.Valid() && leaf.next == old(leaf.next)
    ensures leaf.model == old(leaf.model).(tree := T.Leaf(Inserted(old(leaf.model.tree.entries), key, offset)))
  {
    hide Members, Tied, T.Shaped, Inserted;
    ghost var es := leaf.model.tree.entries;
    ghost var all := Inserted(es, key, offset);
    InsertedAt(es, key, offset);
    ShiftRight(leaf.keys, position, leaf.keyCount);
    ShiftRight(leaf.offsets, position, leaf.keyCount);
    leaf.keys[position] := key;
    leaf.offsets[position] := offset;
    leaf.keyCount := leaf.keyCount + 1;
    leaf.model := leaf.model.(tree := T.Leaf(all));
    assert leaf.HoldsEntries(all);
  }

  ghost predicate Columns(es: seq<Entry>, ks: array<int>, os: array<int>)
    reads ks, os
  {
    && |es| == ks.Length == os.Length && ks != os
    && forall i {:trigger es[i]} | 0 <= i < |es| :: es[i].key == ks[i] && es[i].offset == os[i]
  }

  /** A copy of src[..count], one longer, of what stands before `position`, `value`, and the rest. */
  method CopyAround(src: array<int>, count: nat, position: nat, value: int) returns (temp: array<int>)
    requires position <= count <= src.Length
    ensures fresh(temp) && temp.Length == count + 1
    ensures forall j {:trigger temp[j]} | 0 <= j < temp.Length ::
              temp[j] == if j < position then src[j] else if j == position then value else src[j - 1]
  {
    temp := new int[count + 1](_ => 0);
    Copy(src, 0, temp, 0, position);
    temp[position] := value;
    Copy(src, position, temp, position + 1, count - position);
  }

  /** The overfull leaf: its entries with the new one in place, in temporary arrays. */
  method WithNewEntry(leaf: Node, position: nat, key: int, offset: int)
    returns (tempKeys: array<int>, tempOffsets: array<int>)
    requires leaf.Valid() && leaf.isLeaf && leaf.keyCount == leaf.order - 1
    requires position == Position(leaf.model.tree.entries, key)
    ensures fresh(tempKeys) && fresh(tempOffsets)
    ensures Columns(Inserted(leaf.model.tree.entries, key, offset), tempKeys, tempOffsets)
  {
    ghost var es := leaf.model.tree.entries;
    ghost var all := Inserted(es, key, offset);
    assert |es| == leaf.keyCount == leaf.keys.Length == leaf.offsets.Length == leaf.order - 1 && position <= |es|;
    assert forall i {:trigger es[i]} | 0 <= i < |es| :: es[i].key == leaf.keys[i] && es[i].offset == leaf.offsets[i];
    hide *;
    tempKeys := CopyAround(leaf.keys, leaf.keyCount, position, key);
    tempOffsets := CopyAround(leaf.offsets, leaf.keyCount, position, offset);
    InsertedAt(es, key, offset);
    ColumnsAre(all, tempKeys, tempOffsets);
  }

  lemma ColumnsAre(es: seq<Entry>, ks: array<int>, os: array<int>)
    requires |es| == ks.Length == os.Length && ks != os
    requires forall i {:trigger es[i]} | 0 <= i < |es| :: es[i].key == ks[i] && es[i].offset == os[i]
    ensures Columns(es, ks, os)
  {
  }

  /** Makes the temporary entries from..to the contents of a leaf, followed by `next`. */
  method StoreEntries(leaf: Node, tempKeys: array<int>, tempOffsets: array<int>, from: nat, to: nat, next: Node?,
                      ghost all: seq<Entry>)
    requires leaf.Valid() && leaf.isLeaf && !leaf.IsOwn(tempKeys) && !leaf.IsOwn(tempOffsets)
    requires Columns(all, tempKeys, tempOffsets) && from <= to <= |all| && to - from <= leaf.order - 1
    modifies leaf`keyCount, leaf`next, leaf`model, leaf.keys, leaf.offsets
    ensures leaf.Valid() && leaf.next == next && leaf.model == old(leaf.model).(tree := T.Leaf(all[from..to]))
  {
    hide Members, Tied;
    leaf.next := next;
    leaf.keyCount := to - from;
    Copy(tempKeys, from, leaf.keys, 0, leaf.keyCount);
    Copy(tempOffsets, from, leaf.offsets, 0, leaf.keyCount);
    leaf.model := leaf.model.(tree := T.Leaf(all[from..to]));
    assert forall i {:trigger all[from..to][i]} | 0 <= i < to - from :: all[from..to][i] == all[from + i];
  }

  /** The new right sibling of a split leaf. */
  method RightLeaf(order: nat, next: Node?, tempKeys: array<int>, tempOffsets: array<int>, from: nat, to: nat,
                   ghost all: seq<Entry>)
    returns (right: Node, ghost created: nat)
    requires order >= 3 && Columns(all, tempKeys, tempOffsets) && from < to <= |all| && to - from <= order - 1
    ensures fresh(right.model.repr) && right.Valid() && right.isLeaf && right.order == order && right.next == next
    ensures right.model.tree == T.Leaf(all[from..to]) && right.keys[0] == all[from].key && created == 1
  {
    right := new Node(order, true);
    created := 1;
    StoreEntries(right, tempKeys, tempOffsets, from, to, next, all);
    assert right.model.tree.entries[0] == all[from];
  }

  method SplitLeafAndInsert(leaf: Node, key: int, offset: int) returns (result: InsertResult, ghost created: nat)
    requires leaf.Valid() && leaf.isLeaf && leaf.keyCount == leaf.order - 1
    requires Lookup(leaf.model.tree.entries, key).None?
    modifies leaf`keyCount, leaf`next, leaf`model, leaf.keys, leaf.offsets
    ensures result.split && !result.duplicate && created == 1
    ensures leaf.Valid() && leaf.next == result.rightNode && leaf.model == old(leaf.model).(tree := leaf.model.tree)
    ensures var right := result.rightNode;
            && right != null && fresh(right.model.repr) && right.Valid() && right.isLeaf
            && right.order == leaf.order && right.next == old(leaf.next)
    ensures var all, s := Inserted(old(leaf.model.tree.entries), key, offset), leaf.order / 2;
            && leaf.model.tree == T.Leaf(all[0..s])
            && result.promotedKey == all[s].key
            && result.rightNode.model.tree == T.Leaf(all[s..leaf.order])
  {
    hide Members, Tied, Columns, T.Shaped, Inserted, Lookup;
    ghost var all := Inserted(leaf.model.tree.entries, key, offset);
    assert |all| == leaf.order && leaf.model.first == leaf.model.last == leaf;
    hide Node.Valid, Node.HoldsEntries;
    var insertPosition := FindLeafPosition(leaf, key);
    var tempKeys, tempOffsets := WithNewEntry(leaf, insertPosition, key, offset);
    var totalCount := leaf.keyCount + 1;
    var splitIndex := totalCount / 2;
    var right;
    right, created := RightLeaf(leaf.order, leaf.next, tempKeys, tempOffsets, splitIndex, totalCount, all);
    StoreEntries(leaf, tempKeys, tempOffsets, 0, splitIndex, right, all);
    result := InsertResult(true, false, right.keys[0], right);
  }

  method InsertIntoLeaf(leaf: Node, key: int, offset: int) returns (result: InsertResult, ghost created: nat)
    requires leaf.Valid() && leaf.isLeaf
    modifies leaf`keyCount, leaf`next, leaf`model, leaf.keys, leaf.offsets
    ensures created == if result.split then 1 else 0
    ensures leaf.Valid() && leaf.model == old(leaf.model).(tree := leaf.model.tree)
    ensures var o := T.Insert(leaf.order, old(leaf.model.tree), key, offset);
            match o
            case Duplicate => result == InsertResult(false, true, 0, null) && unchanged(leaf, leaf.keys, leaf.offsets)
            case Stay(t) =>
              result == InsertResult(false, false, 0, null) && leaf.model.tree == t && leaf.next == old(leaf.next)
            case Split(l, sep, r) =>
              var right := result.rightNode;
              && right != null && result == InsertResult(true, false, sep, right)
              && leaf.model.tree == l && leaf.next == right
              && fresh(right.model.repr) && right.Valid() && right.isLeaf
              && right.order == leaf.order && right.model.tree == r && right.next == old(leaf.next)
  {
    var position := FindLeafPosition(leaf, key);
    assert position < leaf.keyCount ==> leaf.model.tree.entries[position].key == leaf.keys[position];
    if position < leaf.keyCount && leaf.keys[position] == key {
      return InsertResult(false, true, 0, null), 0;
    }
    if leaf.keyCount < leaf.order - 1 {
      InsertLeafWithoutSplit(leaf, position, key, offset);
      return InsertResult(false, false, 0, null), 0;
    }
    T.LeafSplits(leaf.order, leaf.model.tree.entries, key, offset);
    result, created := SplitLeafAndInsert(leaf, key, offset);
  }


  // ---------- Rows across an insertion ----------

  /** Child `p` of a row grew in place. */
  ghost function RowKept(row: Row, p: nat): Row
    requires p < |row.kids| == |row.trees|
    reads row.kids
  {
    var c := row.kids[p].model;
    row.(trees := row.trees[p := c.tree],
         below := row.below + c.repr,
         last := if p == |row.kids| - 1 then c.last else row.last)
  }

  /** Child `p` of a row split, and `right` is its new neighbour. */
  ghost function RowSplit(row: Row, p: nat, sep: int, right: Node): Row
    requires p < |row.kids| == |row.trees| == |row.keys| + 1
    reads row.kids, right
  {
    var c := row.kids[p].model;
    Row(T.SpliceKeys(row.keys, p, sep),
        T.SpliceChildren(row.kids, p, row.kids[p], right),
        T.SpliceChildren(row.trees, p, c.tree, right.model.tree),
        row.below + c.repr + right.model.repr,
        row.first,
        if p == |row.kids| - 1 then right.model.last else row.last)
  }

  /** An insertion took place below child `p` of a linked row and left a valid child there. */
  twostate predicate GrownAt(row: Row, new order: nat, new p: nat)
    reads row.kids, row.below, if p < |row.kids| then row.kids[p].model.repr else {}
  {
    && old(Linked(row, order)) && p < |row.kids|
    && unchanged(row.below - old(row.kids[p].model.repr))
    && row.kids[p].Valid() && row.kids[p].model.last != null && row.kids[p].order == order
    && fresh(row.kids[p].model.repr - old(row.kids[p].model.repr))
    && row.kids[p].model.first == old(row.kids[p].model.first)
  }

  /** What it leaves alone: every other child. */
  twostate lemma OtherChildren(row: Row, new order: nat, new p: nat)
    requires GrownAt(row, order, p)
    ensures forall i | 0 <= i < |row.kids| && i != p ::
              && row.kids[i].Valid() && row.kids[i].model == old(row.kids[i].model)
              && row.kids[i].model.repr !! row.kids[p].model.repr
              && row.kids[i].model.last.next == old(row.kids[i].model.last.next)
  {
    forall i | 0 <= i < |row.kids| && i != p
      ensures old(row.kids[i].model.repr) !! old(row.kids[p].model.repr)
    {
    }
  }

  twostate lemma MembersKept(row: Row, new order: nat, new p: nat)
    requires GrownAt(row, order, p)
    ensures Members(row.kids, row.below + row.kids[p].model.repr, order)
  {
    hide Node.Valid, Tied;
    OtherChildren(row, order, p);
  }

  twostate lemma ApartKept(row: Row, new order: nat, new p: nat)
    requires GrownAt(row, order, p)
    ensures Apart(row.kids)
  {
    hide Node.Valid, Members, Chained, Labelled;
    OtherChildren(row, order, p);
  }

  twostate lemma ChainedKept(row: Row, new order: nat, new p: nat)
    requires GrownAt(row, order, p)
    requires row.kids[p].model.last.next == old(row.kids[p].model.last.next)
    requires Members(row.kids, row.below + row.kids[p].model.repr, order)
    ensures Chained(row.kids, row.below + row.kids[p].model.repr)
  {
    hide Node.Valid, Apart;
    OtherChildren(row, order, p);
  }

  twostate lemma LabelledKept(row: Row, new order: nat, new p: nat)
    requires GrownAt(row, order, p)
    ensures Labelled(RowKept(row, p))
  {
    hide Node.Valid, Apart, Members, Chained;
    OtherChildren(row, order, p);
  }

  twostate lemma LinkedKept(row: Row, new order: nat, new p: nat)
    requires GrownAt(row, order, p)
    requires row.kids[p].model.last.next == old(row.kids[p].model.last.next)
    ensures Linked(RowKept(row, p), order)
  {
    hide Node.Valid, Apart, Members, Chained, Labelled;
    MembersKept(row, order, p);
    ApartKept(row, order, p);
    ChainedKept(row, order, p);
    LabelledKept(row, order, p);
  }

  /** As GrownAt, but the child split and `right` is the new part. */
  twostate predicate SplitAt(row: Row, new order: nat, new p: nat, new right: Node)
    reads row.kids, row.below, if p < |row.kids| then row.kids[p].model.repr else {}, right, right.model.repr
  {
    && GrownAt(row, order, p)
    && right.Valid() && right.model.last != null && right.order == order
    && fresh(right.model.repr - old(row.kids[p].model.repr)) && right.model.repr !! row.kids[p].model.repr
    && row.kids[p].model.last.next == right.model.first
    && right.model.last.next == old(row.kids[p].model.last.next)
  }

  lemma SplicedAt<E>(cs: seq<E>, p: nat, left: E, right: E)
    requires p < |cs|
    ensures |T.SpliceChildren(cs, p, left, right)| == |cs| + 1
    ensures forall i {:trigger T.SpliceChildren(cs, p, left, right)[i]} | 0 <= i <= |cs| ::
              T.SpliceChildren(cs, p, left, right)[i]
              == if i < p then cs[i] else if i == p then left else if i == p + 1 then right else cs[i - 1]
  {
  }

  twostate lemma MembersSplit(row: Row, new order: nat, new p: nat, new right: Node)
    requires SplitAt(row, order, p, right)
    ensures Members(T.SpliceChildren(row.kids, p, row.kids[p], right),
                    row.below + row.kids[p].model.repr + right.model.repr, order)
  {
    hide Node.Valid, Tied, T.SpliceChildren;
    OtherChildren(row, order, p);
    SplicedAt(row.kids, p, row.kids[p], right);
  }

  twostate lemma ApartFromRight(row: Row, new order: nat, new p: nat, new right: Node)
    requires SplitAt(row, order, p, right)
    ensures Apart(row.kids) && forall i | 0 <= i < |row.kids| :: row.kids[i].model.repr !! right.model.repr
  {
    hide Node.Valid, Chained, Labelled;
    OtherChildren(row, order, p);
  }

  lemma ApartSpliced(cs: seq<Node>, p: nat, right: Node)
    requires p < |cs| && Apart(cs)
    requires forall i | 0 <= i < |cs| :: cs[i].model.repr !! right.model.repr
    ensures Apart(T.SpliceChildren(cs, p, cs[p], right))
  {
    hide T.SpliceChildren;
    SplicedAt(cs, p, cs[p], right);
  }

  twostate lemma ChainedSplit(row: Row, new order: nat, new p: nat, new right: Node)
    requires SplitAt(row, order, p, right)
    requires Members(T.SpliceChildren(row.kids, p, row.kids[p], right),
                     row.below + row.kids[p].model.repr + right.model.repr, order)
    ensures Chained(T.SpliceChildren(row.kids, p, row.kids[p], right),
                    row.below + row.kids[p].model.repr + right.model.repr)
  {
    hide Node.Valid, Apart, T.SpliceChildren;
    OtherChildren(row, order, p);
    SplicedAt(row.kids, p, row.kids[p], right);
  }

  twostate lemma LabelledSplit(row: Row, new order: nat, new p: nat, new right: Node, new sep: int)
    requires SplitAt(row, order, p, right)
    ensures Labelled(RowSplit(row, p, sep, right))
  {
    hide Node.Valid, Apart, Members, Chained, T.SpliceChildren;
    OtherChildren(row, order, p);
    SplicedAt(row.kids, p, row.kids[p], right);
    SplicedAt(row.trees, p, row.kids[p].model.tree, right.model.tree);
  }

  twostate lemma LinkedSplit(row: Row, new order: nat, new p: nat, new right: Node, new sep: int)
    requires SplitAt(row, order, p, right)
    ensures Linked(RowSplit(row, p, sep, right), order)
  {
    hide Node.Valid, Apart, Members, Chained, Labelled, T.SpliceChildren;
    MembersSplit(row, order, p, right);
    ApartFromRight(row, order, p, right);
    ApartSpliced(row.kids, p, right);
    ChainedSplit(row, order, p, right);
    LabelledSplit(row, order, p, right, sep);
    SplicedAt(row.trees, p, row.kids[p].model.tree, right.model.tree);
    SplicedAt(row.kids, p, row.kids[p], right);
  }

  // ---------- Insertion into an internal node ----------

  method InsertInternalWithoutSplit(node: Node, position: nat, promotedKey: int, rightChild: Node,
                                    ghost ks: seq<int>, ghost cs: seq<Node>)
    requires node.Capacity() && node.HoldsChildren(ks, cs) && node.keyCount < node.order - 1
    requires position <= node.keyCount
    modifies node`keyCount, node.keys, node.children
    ensures node.HoldsChildren(T.SpliceKeys(ks, position, promotedKey),
                               T.SpliceChildren(cs, position, cs[position], rightChild))
  {
    hide T.SpliceKeys, T.SpliceChildren;
    ShiftRight(node.keys, position, node.keyCount);
    ShiftRight(node.children, position + 1, node.keyCount + 1);
    node.keys[position] := promotedKey;
    node.children[position + 1] := rightChild;
    node.keyCount := node.keyCount + 1;
    KeysSplicedAt(ks, position, promotedKey);
    SplicedAt(cs, position, cs[position], rightChild);
  }

  lemma KeysSplicedAt(ks: seq<int>, p: nat, sep: int)
    requires p <= |ks|
    ensures |T.SpliceKeys(ks, p, sep)| == |ks| + 1
    ensures forall i {:trigger T.SpliceKeys(ks, p, sep)[i]} | 0 <= i <= |ks| ::
              T.SpliceKeys(ks, p, sep)[i] == if i < p then ks[i] else if i == p then sep else ks[i - 1]
  {
  }

  ghost predicate Slots(ks: seq<int>, cs: seq<Node>, tempKeys: array<int>, tempChildren: array<Node?>)
    reads tempKeys, tempChildren
  {
    && |ks| == tempKeys.Length && |cs| == tempChildren.Length == |ks| + 1
    && (forall i {:trigger ks[i]} | 0 <= i < |ks| :: ks[i] == tempKeys[i])
    && (forall i {:trigger cs[i]} | 0 <= i < |cs| :: cs[i] == tempChildren[i])
  }

  /** A copy of src[..count], one longer, with `value` at `position` and the rest moved up. */
  method CopyWithGap<E>(src: array<E>, count: nat, position: nat, value: E) returns (temp: array<E>)
    requires position <= count <= src.Length
    ensures fresh(temp) && temp.Length == count + 1
    ensures forall j {:trigger temp[j]} | 0 <= j < temp.Length ::
              temp[j] == if j < position then src[j] else if j == position then value else src[j - 1]
  {
    temp := new E[count + 1](_ => value);
    Copy(src, 0, temp, 0, count);
    ShiftRight(temp, position, count);
    temp[position] := value;
  }

  /** The overfull internal node, in temporary arrays. */
  method WithNewChild(node: Node, position: nat, promotedKey: int, rightChild: Node, ghost ks: seq<int>,
                      ghost cs: seq<Node>)
    returns (tempKeys: array<int>, tempChildren: array<Node?>)
    requires node.Capacity() && node.HoldsChildren(ks, cs) && node.keyCount == node.order - 1
    requires position <= node.keyCount
    ensures fresh(tempKeys) && fresh(tempChildren)
    ensures Slots(T.SpliceKeys(ks, position, promotedKey), T.SpliceChildren(cs, position, cs[position], rightChild),
                  tempKeys, tempChildren)
  {
    hide T.SpliceKeys, T.SpliceChildren;
    tempKeys := CopyWithGap(node.keys, node.keyCount, position, promotedKey);
    tempChildren := CopyWithGap(node.children, node.keyCount + 1, position + 1, rightChild);
    KeysSplicedAt(ks, position, promotedKey);
    SplicedAt(cs, position, cs[position], rightChild);
  }

  /** Makes the temporary keys from..to and the children around them the contents of a node. */
  method StoreChildren(node: Node, tempKeys: array<int>, tempChildren: array<Node?>, from: nat, to: nat,
                       ghost ks: seq<int>, ghost cs: seq<Node>)
    requires node.Capacity() && !node.IsOwn(tempKeys) && !node.IsOwn(tempChildren)
    requires Slots(ks, cs, tempKeys, tempChildren) && from <= to <= |ks| && to - from <= node.order - 1
    modifies node`keyCount, node.keys, node.children
    ensures node.HoldsChildren(ks[from..to], cs[from..to + 1])
  {
    node.keyCount := to - from;
    Copy(tempKeys, from, node.keys, 0, node.keyCount);
    Copy(tempChildren, from, node.children, 0, node.keyCount + 1);
    assert forall i {:trigger ks[from..to][i]} | 0 <= i < to - from :: ks[from..to][i] == ks[from + i];
    assert forall i {:trigger cs[from..to + 1][i]} | 0 <= i <= to - from :: cs[from..to + 1][i] == cs[from + i];
  }

  /** Brings the ghost field of an internal node up to date with its arrays. */
  ghost method Assemble(node: Node, row: Row)
    requires node.Capacity() && !node.isLeaf && node.HoldsChildren(row.keys, row.kids)
    requires Linked(row, node.order) && node.OutsideOf(row.below)
    modifies node`model
    ensures node.Valid() && node.model.tree.Node? && node.Children() == row && node.ReprIs(row.below)
  {
    hide Apart, Chained, Labelled;
    node.model := Model(T.Node(row.keys, row.trees), row.kids, row.below,
                        {node, node.keys, node.offsets, node.children} + row.below, row.first, row.last);
  }

  // ---------- Halves of a row ----------

  ghost function Footprint(cs: seq<Node>): set<object>
    reads cs
  {
    set i, o | 0 <= i < |cs| && o in cs[i].model.repr :: o
  }

  /** The keys from..to of a row with the subtrees around them. */
  ghost function RowSlice(row: Row, from: nat, to: nat): Row
    requires from <= to <= |row.keys| && |row.kids| == |row.trees| == |row.keys| + 1
    reads row.kids
  {
    Row(row.keys[from..to], row.kids[from..to + 1], row.trees[from..to + 1], Footprint(row.kids[from..to + 1]),
        row.kids[from].model.first, row.kids[to].model.last)
  }

  lemma SliceAt<E>(s: seq<E>, lo: nat, hi: nat)
    requires lo <= hi <= |s|
    ensures |s[lo..hi]| == hi - lo
    ensures forall i {:trigger s[lo..hi][i]} | 0 <= i < hi - lo :: s[lo..hi][i] == s[lo + i]
  {
  }

  lemma MembersSlice(cs: seq<Node>, R: set<object>, order: nat, lo: nat, hi: nat)
    requires Members(cs, R, order) && lo <= hi <= |cs|
    ensures Members(cs[lo..hi], R, order)
  {
    hide Node.Valid;
    SliceAt(cs, lo, hi);
  }

  lemma MembersNarrow(cs: seq<Node>, R: set<object>, order: nat)
    requires Members(cs, R, order)
    ensures Members(cs, Footprint(cs), order) && Footprint(cs) <= R
  {
    hide Node.Valid, Footprint;
    forall i | 0 <= i < |cs|
      ensures cs[i] in cs[i].model.repr && cs[i].model.last in cs[i].model.repr && cs[i].model.repr <= Footprint(cs)
    {
      assert cs[i].Valid();
      FootprintHas(cs, i);
    }
    FootprintWithin(cs, R);
  }

  lemma FootprintHas(cs: seq<Node>, i: nat)
    requires i < |cs|
    ensures cs[i].model.repr <= Footprint(cs)
  {
  }

  lemma FootprintWithin(cs: seq<Node>, R: set<object>)
    requires forall i | 0 <= i < |cs| :: cs[i].model.repr <= R
    ensures Footprint(cs) <= R
  {
  }

  lemma ApartSlice(cs: seq<Node>, lo: nat, hi: nat)
    requires Apart(cs) && lo <= hi <= |cs|
    ensures Apart(cs[lo..hi])
  {
    SliceAt(cs, lo, hi);
  }

  lemma ChainedSlice(cs: seq<Node>, R: set<object>, F: set<object>, order: nat, lo: nat, hi: nat)
    requires Members(cs, R, order) && Chained(cs, R) && lo <= hi <= |cs|
    requires Members(cs[lo..hi], F, order)
    ensures Chained(cs[lo..hi], F)
  {
    hide Node.Valid;
    SliceAt(cs, lo, hi);
  }

  lemma LabelledSlice(row: Row, from: nat, to: nat)
    requires |row.kids| == |row.keys| + 1 && Labelled(row) && from <= to <= |row.keys|
    ensures Labelled(RowSlice(row, from, to))
  {
    SliceAt(row.kids, from, to + 1);
    SliceAt(row.trees, from, to + 1);
  }

  lemma LinkedSlice(row: Row, order: nat, from: nat, to: nat)
    requires Linked(row, order) && from <= to <= |row.keys|
    ensures Linked(RowSlice(row, from, to), order) && RowSlice(row, from, to).below <= row.below
  {
    hide Node.Valid, Members, Apart, Chained, Labelled, Footprint;
    var ds := row.kids[from..to + 1];
    MembersSlice(row.kids, row.below, order, from, to + 1);
    MembersNarrow(ds, row.below, order);
    ApartSlice(row.kids, from, to + 1);
    ChainedSlice(row.kids, row.below, Footprint(ds), order, from, to + 1);
    LabelledSlice(row, from, to);
  }

  lemma FootprintsApart(cs: seq<Node>, m: nat, n: nat)
    requires Apart(cs) && m <= n == |cs|
    ensures Footprint(cs[0..m]) !! Footprint(cs[m..n])
  {
  }

  /** A row cut around the separator at `s`. */
  lemma RowHalves(row: Row, order: nat, s: nat) returns (a: Row, b: Row)
    requires Linked(row, order) && s < |row.keys|
    ensures a.keys == row.keys[0..s] && a.kids == row.kids[0..s + 1] && a.trees == row.trees[0..s + 1]
    ensures a.first == row.first
    ensures b.keys == row.keys[s + 1..|row.keys|] && b.kids == row.kids[s + 1..|row.kids|]
    ensures b.trees == row.trees[s + 1..|row.trees|] && b.last == row.last
    ensures Linked(a, order) && Linked(b, order)
    ensures a.below <= row.below && b.below <= row.below && a.below !! b.below
    ensures a.last != null && a.last in a.below && a.last.next == b.first
  {
    hide Node.Valid, Footprint;
    a, b := RowSlice(row, 0, s), RowSlice(row, s + 1, |row.keys|);
    LinkedSlice(row, order, 0, s);
    LinkedSlice(row, order, s + 1, |row.keys|);
    FootprintsApart(row.kids, s + 1, |row.kids|);
    assert row.kids[0..s + 1][s] == row.kids[s];
    assert a.last != null && a.last in a.below && a.last.next == b.first;
    hide Apart, Members, Tied;
  }

  // ---------- The recursion ----------

  /** An internal node with room takes in a new child. */
  method AbsorbInPlace(node: Node, p: nat, sep: int, right: Node, ghost ks: seq<int>, ghost cs: seq<Node>,
                       ghost next: Row)
    requires node.Capacity() && !node.isLeaf && node.HoldsChildren(ks, cs) && p <= node.keyCount < node.order - 1
    requires next.keys == T.SpliceKeys(ks, p, sep) && next.kids == T.SpliceChildren(cs, p, cs[p], right)
    requires Linked(next, node.order) && node.OutsideOf(next.below)
    modifies node`keyCount, node`model, node.keys, node.children
    ensures node.Valid() && node.model.tree.Node? && node.Children() == next && node.ReprIs(next.below)
  {
    hide Node.Valid, Members, Tied, T.SpliceKeys, T.SpliceChildren;
    InsertInternalWithoutSplit(node, p, sep, right, ks, cs);
    Assemble(node, next);
  }

  /** A node that keeps the part from..to of the temporary arrays. */
  method KeepChildren(node: Node, tempKeys: array<int>, tempChildren: array<Node?>, from: nat, to: nat,
                      ghost ks: seq<int>, ghost cs: seq<Node>, ghost part: Row)
    requires node.Capacity() && !node.isLeaf && !node.IsOwn(tempKeys) && !node.IsOwn(tempChildren)
    requires Slots(ks, cs, tempKeys, tempChildren) && from <= to <= |ks| && to - from <= node.order - 1
    requires part.keys == ks[from..to] && part.kids == cs[from..to + 1]
    requires Linked(part, node.order) && node.OutsideOf(part.below)
    modifies node`keyCount, node`model, node.keys, node.children
    ensures node.Valid() && node.model.tree.Node? && node.Children() == part && node.ReprIs(part.below)
  {
    hide Node.Valid, Members, Tied;
    StoreChildren(node, tempKeys, tempChildren, from, to, ks, cs);
    Assemble(node, part);
  }

  /** The new right sibling of a split internal node. */
  method RightNode(order: nat, tempKeys: array<int>, tempChildren: array<Node?>, from: nat, to: nat,
                   ghost ks: seq<int>, ghost cs: seq<Node>, ghost part: Row)
    returns (right: Node, ghost created: nat)
    requires order >= 3 && Slots(ks, cs, tempKeys, tempChildren) && from <= to <= |ks| && to - from <= order - 1
    requires part.keys == ks[from..to] && part.kids == cs[from..to + 1] && Linked(part, order)
    ensures fresh(right) && fresh(right.keys) && fresh(right.offsets) && fresh(right.children) && right.order == order
    ensures right.Valid() && right.model.tree.Node? && right.Children() == part && right.ReprIs(part.below)
    ensures created == 1
  {
    hide Node.Valid, Members, Tied;
    right := new Node(order, false);
    created := 1;
    KeepChildren(right, tempKeys, tempChildren, from, to, ks, cs, part);
  }

  lemma HeldChildren(node: Node, ks: seq<int>, cs: seq<Node>)
    requires node.Capacity() && node.HoldsChildren(ks, cs)
    ensures |ks| == node.keyCount && |cs| == node.keyCount + 1
  {
  }

  lemma SlotAt(ks: seq<int>, cs: seq<Node>, tempKeys: array<int>, tempChildren: array<Node?>, i: nat)
    requires Slots(ks, cs, tempKeys, tempChildren) && i < |ks|
    ensures |cs| == |ks| + 1 && tempKeys.Length == |ks| && ks[i] == tempKeys[i]
  {
  }

  /** A full internal node takes in a new child by splitting. */
  method SplitInternalAndInsert(node: Node, p: nat, sep: int, right: Node, ghost ks: seq<int>, ghost cs: seq<Node>,
                                ghost next: Row)
    returns (result: InsertResult, ghost created: nat)
    requires node.Capacity() && !node.isLeaf && node.HoldsChildren(ks, cs) && p <= node.keyCount == node.order - 1
    requires next.keys == T.SpliceKeys(ks, p, sep) && next.kids == T.SpliceChildren(cs, p, cs[p], right)
    requires Linked(next, node.order) && node.OutsideOf(next.below)
    modifies node`keyCount, node`model, node.keys, node.children
    ensures created == 1
    ensures node.Valid() && (forall o | o in node.model.repr :: o in next.below || node.IsOwn(o))
    ensures var s, n := node.order / 2, result.rightNode;
            && n != null && result == InsertResult(true, false, next.keys[s], n)
            && n.Valid() && n.order == node.order && n.model.repr !! node.model.repr && fresh(n.model.repr - next.below)
            && node.model.tree == T.Node(next.keys[0..s], next.trees[0..s + 1])
            && n.model.tree == T.Node(next.keys[s + 1..|next.keys|], next.trees[s + 1..|next.trees|])
            && node.model.first == next.first && n.model.last == next.last
            && node.model.last != null && node.model.last.next == n.model.first
  {
    hide Node.Valid, Linked, Slots, Node.HoldsChildren, T.SpliceKeys, T.SpliceChildren;
    var tempKeys, tempChildren := WithNewChild(node, p, sep, right, ks, cs);
    var totalKeys := node.keyCount + 1;
    var splitIndex := totalKeys / 2;
    HeldChildren(node, ks, cs);
    KeysSplicedAt(ks, p, sep);
    SlotAt(next.keys, next.kids, tempKeys, tempChildren, splitIndex);
    ghost var a, b := RowHalves(next, node.order, splitIndex);
    var n;
    n, created := RightNode(node.order, tempKeys, tempChildren, splitIndex + 1, totalKeys, next.keys, next.kids, b);
    result := InsertResult(true, false, tempKeys[splitIndex], n);
    KeepChildren(node, tempKeys, tempChildren, 0, splitIndex, next.keys, next.kids, a);
  }

  ghost predicate Answers(o: T.Outcome, result: InsertResult) {
    && result.duplicate == o.Duplicate? && result.split == o.Split?
    && (if o.Split? then result.promotedKey == o.sep && result.rightNode != null else result.rightNode == null)
  }

  /** An insertion below `node` did what `o` says and left the chain of leaves around the
      subtree alone; it did not reach outside the subtree. */
  twostate predicate Achieved(node: Node, new o: T.Outcome, new result: InsertResult)
    reads node, node.model.repr
    reads if result.rightNode != null then {result.rightNode} + result.rightNode.model.repr else {}
  {
    && node.Valid() && fresh(node.model.repr - old(node.model.repr))
    && node.model.first == old(node.model.first)
    && node.model.last != null && old(node.model.last) != null
    && Answers(o, result)
    && match o
       case Duplicate => node.model == old(node.model) && node.model.last.next == old(node.model.last.next)
       case Stay(t) => node.model.tree == t && node.model.last.next == old(node.model.last.next)
       case Split(l, sep, r) =>
         var n := result.rightNode;
         && n.Valid() && n.order == node.order
         && node.model.tree == l && n.model.tree == r
         && n.model.repr !! node.model.repr && fresh(n.model.repr - old(node.model.repr))
         && n.model.last != null
         && node.model.last.next == n.model.first && n.model.last.next == old(node.model.last.next)
  }

  method InsertBelowLeaf(node: Node, key: int, offset: int) returns (result: InsertResult, ghost created: nat)
    requires node.Valid() && node.isLeaf
    modifies node.model.repr
    ensures Achieved(node, T.Insert(node.order, old(node.model.tree), key, offset), result)
    ensures Answers(T.Insert(node.order, old(node.model.tree), key, offset), result)
    ensures result.duplicate ==> unchanged(old(node.model.repr))
    ensures created == T.Created(node.order, old(node.model.tree), key, offset)
  {
    result, created := InsertIntoLeaf(node, key, offset);
  }

  lemma AboutChild(node: Node, p: nat)
    requires node.Valid() && !node.isLeaf && p <= node.keyCount
    ensures var row := node.Children();
            && Linked(row, node.order) && |row.kids| == |row.trees| == node.keyCount + 1
            && node.HoldsChildren(row.keys, row.kids) && node.OutsideOf(row.below) && node.ReprIs(row.below)
            && node.children[p] == row.kids[p] && row.kids[p].Valid() && row.kids[p].order == node.order
            && row.kids[p].model.repr <= row.below
            && row.trees[p] == row.kids[p].model.tree
            && row.kids[p].model.repr < node.model.repr
  {
    hide Apart, Chained, T.Shaped;
  }

  /** Below an internal node, child `p` took the insertion; the node itself is as before. */
  twostate predicate Descended(node: Node, new p: nat)
    reads node, node.keys, node.children, node.model.repr
  {
    && old(node.Valid()) && !node.isLeaf
    && node.model == old(node.model) && node.keyCount == old(node.keyCount) && p <= node.keyCount
    && node.Capacity() && node.HoldsChildren(node.model.tree.keys, node.model.kids)
    && node.OutsideOf(node.model.below) && node.ReprIs(node.model.below)
    && unchanged(node.model.below - old(node.model.kids[p].model.repr))
  }

  twostate lemma ChildHandledIt(node: Node, new p: nat, new o: T.Outcome, new result: InsertResult)
    requires old(node.Valid()) && !node.isLeaf && p <= old(node.keyCount)
    requires unchanged(old(node.model.repr) - old(node.model.kids[p].model.repr))
    ensures Descended(node, p)
  {
    hide Apart, Chained, T.Shaped;
    AboutOldChild(node, p);
  }

  twostate lemma AboutOldChild(node: Node, new p: nat)
    requires old(node.Valid()) && !node.isLeaf && p <= old(node.keyCount)
    ensures old(node.OutsideOf(node.model.below) && node.ReprIs(node.model.below)
                && node.HoldsChildren(node.model.tree.keys, node.model.kids)
                && node.model.kids[p].Valid() && node.model.kids[p].model.repr <= node.model.below)
    ensures |old(node.model.kids)| == |old(node.model.tree.children)| == old(node.keyCount) + 1
    ensures old(node.model.last) != null && old(node.model.kids[p].model.last) != null
    ensures p == old(node.keyCount) ==> old(node.model.last) == old(node.model.kids[p].model.last)
  {
    hide T.Shaped;
  }

  /** The last leaf is not below child `p`, unless `p` is the last child. */
  twostate lemma LastKept(node: Node, new p: nat)
    requires Descended(node, p) && p < node.keyCount
    ensures old(node.model.last) != null && old(node.model.last).next == old(node.model.last.next)
  {
    hide Chained, T.Shaped;
    AboutOldChild(node, node.keyCount);
    var c := old(node.model.kids[node.keyCount]);
    assert old(node.model.last == c.model.last && c.Valid() && c.model.repr <= node.model.below);
    hide Node.Valid, Members;
    assert old(c.model.repr) !! old(node.model.kids[p].model.repr);
    assert old(c.model.last) in old(c.model.repr);
  }

  twostate lemma DescendedGrown(node: Node, new p: nat, new o: T.Outcome, new result: InsertResult)
    requires Descended(node, p) && Achieved(node.model.kids[p], o, result)
    ensures GrownAt(node.Children(), node.order, p)
    ensures !o.Split? ==> node.model.kids[p].model.last.next == old(node.model.kids[p].model.last.next)
    ensures o.Split? ==> result.rightNode != null && SplitAt(node.Children(), node.order, p, result.rightNode)
  {
    hide Apart, Chained, T.Shaped;
    AboutOldChild(node, p);
  }

  /** `next` is what the row of `node` becomes when its child `p` was replaced by the
      trees `ts`: same first leaf, same end of the chain, nothing but new objects added. */
  twostate predicate Follows(node: Node, new next: Row)
    reads next.last
  {
    && old(node.model.last) != null && next.last != null
    && next.first == old(node.model.first)
    && next.last.next == old(node.model.last.next)
    && fresh(next.below - old(node.model.repr))
  }

  twostate lemma KeptFollows(node: Node, new p: nat, new o: T.Outcome, new result: InsertResult)
    requires old(node.Valid()) && Descended(node, p) && Achieved(node.model.kids[p], o, result) && !o.Split?
    ensures Follows(node, RowKept(node.Children(), p))
  {
    hide Node.Valid;
    AboutOldChild(node, p);
    if p < node.keyCount {
      LastKept(node, p);
    }
  }

  twostate lemma SplitFollows(node: Node, new p: nat, new o: T.Outcome, new result: InsertResult)
    requires old(node.Valid()) && Descended(node, p) && Achieved(node.model.kids[p], o, result) && o.Split?
    ensures Follows(node, RowSplit(node.Children(), p, o.sep, result.rightNode))
  {
    hide Node.Valid, T.SpliceKeys, T.SpliceChildren;
    AboutOldChild(node, p);
    if p < node.keyCount {
      LastKept(node, p);
    }
  }

  /** The node, or the node and its new right sibling, hold the row `next`. */
  ghost predicate Took(node: Node, next: Row, result: InsertResult)
    reads node, node.model.repr
    reads if result.rightNode != null then {result.rightNode} + result.rightNode.model.repr else {}
  {
    && node.Valid() && (forall o | o in node.model.repr :: o in next.below || node.IsOwn(o))
    && node.model.first == next.first && node.model.last != null
    && |next.trees| == |next.keys| + 1
    && !result.duplicate && (!result.split ==> result.rightNode == null)
    && result.split == (|next.keys| > node.order - 1)
    && if !result.split then
         node.model.tree == T.Node(next.keys, next.trees) && node.model.last == next.last
       else
         var s, n := node.order / 2, result.rightNode;
         && n != null && s < |next.keys| && result.promotedKey == next.keys[s]
         && n.Valid() && n.order == node.order && n.model.repr !! node.model.repr
         && node.model.tree == T.Node(next.keys[0..s], next.trees[0..s + 1])
         && n.model.tree == T.Node(next.keys[s + 1..|next.keys|], next.trees[s + 1..|next.trees|])
         && n.model.last == next.last && node.model.last.next == n.model.first
  }

  twostate lemma TookAchieved(node: Node, new next: Row, new result: InsertResult)
    requires Took(node, next, result) && old(node.InsideOf(node.model.repr)) && Follows(node, next)
    requires result.split ==> result.rightNode != null && fresh(result.rightNode.model.repr - next.below)
    ensures Achieved(node, T.Fit(node.order, next.keys, next.trees), result)
    ensures Answers(T.Fit(node.order, next.keys, next.trees), result)
  {
    hide Node.Valid;
  }

  /** The children below the node are the row `next`; the node has yet to take it in. */
  ghost predicate Ready(node: Node, next: Row)
    reads node, next.below
  {
    && node.Capacity() && !node.isLeaf && node.keyCount <= node.order - 1
    && Linked(next, node.order) && node.OutsideOf(next.below) && |next.trees| == |next.kids|
  }

  /** A node takes in the new child `right` after its child `p`, splitting if it is full. */
  method TakeChild(node: Node, p: nat, sep: int, right: Node, ghost ks: seq<int>, ghost cs: seq<Node>, ghost next: Row)
    returns (result: InsertResult, ghost created: nat)
    requires Ready(node, next) && node.HoldsChildren(ks, cs) && p <= node.keyCount
    requires next.keys == T.SpliceKeys(ks, p, sep) && next.kids == T.SpliceChildren(cs, p, cs[p], right)
    modifies node`keyCount, node`model, node.keys, node.children
    ensures Took(node, next, result) && (next.last != null ==> next.last.next == old(next.last.next))
    ensures result.split ==> result.rightNode != null && fresh(result.rightNode.model.repr - next.below)
    ensures !result.duplicate && created == if result.split then 1 else 0
  {
    hide Node.Valid, Members, Tied;
    KeysSplicedAt(ks, p, sep);
    SplicedAt(cs, p, cs[p], right);
    hide T.SpliceKeys, T.SpliceChildren;
    if node.keyCount < node.order - 1 {
      AbsorbInPlace(node, p, sep, right, ks, cs, next);
      result, created := InsertResult(false, false, sep, null), 0;
    } else {
      result, created := SplitInternalAndInsert(node, p, sep, right, ks, cs, next);
    }
  }

  ghost method KeepRow(node: Node, next: Row, result: InsertResult)
    requires Ready(node, next) && |next.keys| == node.keyCount && node.HoldsChildren(next.keys, next.kids)
    requires !result.split && !result.duplicate && result.rightNode == null
    modifies node`model
    ensures Took(node, next, result) && (next.last != null ==> next.last.next == old(next.last.next))
  {
    hide Node.Valid, Members, Tied;
    Assemble(node, next);
  }

  /** After the recursive call on child `p`, when the key was there already. */
  twostate lemma DuplicateAchieved(node: Node, new p: nat, new o: T.Outcome, new result: InsertResult)
    requires Descended(node, p) && Achieved(node.model.kids[p], o, result) && o.Duplicate?
    requires unchanged(old(node.model.repr))
    ensures Achieved(node, o, result)
  {
    hide Members, Tied;
    assert node.model.last in old(node.model.repr);
  }

  /** After the recursive call on child `p`, when the child did not split. */
  twostate lemma AfterStay(node: Node, new p: nat, new o: T.Outcome, new result: InsertResult)
    requires Descended(node, p) && Achieved(node.model.kids[p], o, result) && o.Stay?
    ensures Ready(node, RowKept(node.Children(), p)) && Follows(node, RowKept(node.Children(), p))
    ensures RowKept(node.Children(), p).trees == node.Children().trees[p := o.tree]
  {
    hide Node.Valid, Members, Tied, GrownAt;
    DescendedGrown(node, p, o, result);
    KeptFollows(node, p, o, result);
    LinkedKept(node.Children(), node.order, p);
    AboutOldChild(node, p);
  }

  /** After the recursive call on child `p`, when the child split. */
  twostate lemma AfterSplit(node: Node, new p: nat, new o: T.Outcome, new result: InsertResult)
    requires Descended(node, p) && Achieved(node.model.kids[p], o, result) && o.Split?
    ensures result.rightNode != null
    ensures Ready(node, RowSplit(node.Children(), p, o.sep, result.rightNode))
    ensures Follows(node, RowSplit(node.Children(), p, o.sep, result.rightNode))
    ensures RowSplit(node.Children(), p, o.sep, result.rightNode).trees
            == T.SpliceChildren(node.Children().trees, p, o.left, o.right)
  {
    hide Node.Valid, Members, Tied, GrownAt, SplitAt, T.SpliceKeys, T.SpliceChildren;
    DescendedGrown(node, p, o, result);
    SplitFollows(node, p, o, result);
    LinkedSplit(node.Children(), node.order, p, result.rightNode, o.sep);
    AboutOldChild(node, p);
  }

  /** Insertion below an internal node. */
  method InsertBelowNode(node: Node, key: int, offset: int) returns (result: InsertResult, ghost created: nat)
    requires node.Valid() && !node.isLeaf
    modifies node.model.repr
    ensures Achieved(node, T.Insert(node.order, old(node.model.tree), key, offset), result)
    ensures Answers(T.Insert(node.order, old(node.model.tree), key, offset), result)
    ensures result.duplicate ==> unchanged(old(node.model.repr))
    ensures created == T.Created(node.order, old(node.model.tree), key, offset)
    decreases node.model.repr, 1
  {
    hide Node.Valid, T.Shaped, T.Insert, T.Created;
    var position := FindChildPosition(node, key);
    result, created := InsertBelowChild(node, position, key, offset);
  }

  /** Insertion into child `p`, and what the node does about it. */
  method InsertBelowChild(node: Node, p: nat, key: int, offset: int) returns (result: InsertResult, ghost created: nat)
    requires node.Valid() && !node.isLeaf && p <= node.keyCount && p == T.ChildPosition(node.model.tree.keys, key)
    modifies node.model.repr
    ensures Achieved(node, T.Insert(node.order, old(node.model.tree), key, offset), result)
    ensures Answers(T.Insert(node.order, old(node.model.tree), key, offset), result)
    ensures result.duplicate ==> unchanged(old(node.model.repr))
    ensures created == T.Created(node.order, old(node.model.tree), key, offset)
    decreases node.model.repr, 0
  {
    hide Node.Valid, Members, Tied, Took, Ready, Linked, Achieved, Descended;
    hide T.Shaped, T.Insert, T.Absorb, T.SpliceKeys, T.SpliceChildren, T.ChildPosition, T.Created;
    ghost var row := node.Children();
    AboutChild(node, p);
    var child := node.children[p];
    ghost var o := T.Insert(node.order, child.model.tree, key, offset);
    T.InsertBelow(node.order, row.keys, row.trees, key, offset, o);
    result, created := InsertRecursive(child, key, offset);
    T.CreatedBelow(node.order, row.keys, row.trees, key, offset);
    ChildHandledIt(node, p, o, result);
    hide Node.HoldsChildren, Node.ReprIs;
    if result.duplicate {
      DuplicateAchieved(node, p, o, result);
    } else if !result.split {
      AfterStay(node, p, o, result);
      ghost var next := RowKept(row, p);
      KeepRow(node, next, result);
      TookAchieved(node, next, result);
    } else {
      AfterSplit(node, p, o, result);
      T.AbsorbFits(node.order, row.keys, row.trees, p, o.left, o.sep, o.right);
      ghost var next := RowSplit(row, p, result.promotedKey, result.rightNode);
      ghost var more;
      result, more := TakeChild(node, p, result.promotedKey, result.rightNode, row.keys, row.kids, next);
      created := created + more;
      TookAchieved(node, next, result);
    }
  }

  method InsertRecursive(node: Node, key: int, offset: int) returns (result: InsertResult, ghost created: nat)
    requires node.Valid()
    modifies node.model.repr
    ensures Achieved(node, T.Insert(node.order, old(node.model.tree), key, offset), result)
    ensures Answers(T.Insert(node.order, old(node.model.tree), key, offset), result)
    ensures result.duplicate ==> unchanged(old(node.model.repr))
    ensures created == T.Created(node.order, old(node.model.tree), key, offset)
    decreases node.model.repr, 2
  {
    hide Node.Valid, T.Created;
    if node.isLeaf {
      result, created := InsertBelowLeaf(node, key, offset);
    } else {
      result, created := InsertBelowNode(node, key, offset);
    }
  }
}
