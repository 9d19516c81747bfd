/** The B+ tree as a value: its shape invariant, insertion as a function, and what
    insertion does to the sorted list of entries. The linked structure in BPlusTree
    is proved to compute exactly these functions. `order` is the maximal number of
    children of a node; every result holds for each order from 3 up. */
module TreeSpec {
  import opened Wrappers
  import opened SortedEntries

  datatype Tree =
    | Leaf(entries: seq<Entry>)
    | Node(keys: seq<int>, children: seq<Tree>)

  datatype Outcome =
    | Duplicate
    | Stay(tree: Tree)
    | Split(left: Tree, sep: int, right: Tree)

  // ---------- Reading a tree ----------

  ghost predicate Shaped(t: Tree) {
    match t
    case Leaf(_) => true
    case Node(keys, cs) => |cs| == |keys| + 1 && forall c | c in cs :: Shaped(c)
  }

  /** All entries, left to right. */
  ghost function Entries(t: Tree): seq<Entry>
    decreases t, 1
  {
    match t
    case Leaf(es) => es
    case Node(_, cs) => EntriesOf(cs)
  }

  ghost function EntriesOf(cs: seq<Tree>): seq<Entry>
    decreases cs, 0
  {
    if cs == [] then [] else Entries(cs[0]) + EntriesOf(cs[1..])
  }

  /** The child to descend into: the first position whose separator exceeds the key. */
  function ChildPosition(keys: seq<int>, key: int): (p: nat)
    ensures p <= |keys|
    ensures forall i | 0 <= i < p :: keys[i] <= key
    ensures p < |keys| ==> key < keys[p]
  {
    if keys == [] || key < keys[0] then 0 else 1 + ChildPosition(keys[1..], key)
  }

  lemma ChildPositionUnique(keys: seq<int>, key: int, p: nat)
    requires p <= |keys|
    requires forall i | 0 <= i < p :: keys[i] <= key
    requires p < |keys| ==> key < keys[p]
    ensures ChildPosition(keys, key) == p
  {
  }

  /** Point search: descend to one leaf and look there. */
  ghost function Search(t: Tree, key: int): Option<int>
    requires Shaped(t)
  {
    match t
    case Leaf(es) => Lookup(es, key)
    case Node(keys, cs) => Search(cs[ChildPosition(keys, key)], key)
  }

  // ---------- Insertion ----------

  ghost function LeafInsert(order: nat, es: seq<Entry>, key: int, offset: int): Outcome {
    var p := Position(es, key);
    if p < |es| && es[p].key == key then Duplicate
    else
      var all := es[..p] + [Entry(key, offset)] + es[p..];
      if |es| < order - 1 then Stay(Leaf(all))
      else Split(Leaf(all[..|all| / 2]), all[|all| / 2].key, Leaf(all[|all| / 2..]))
  }

  function SpliceKeys(keys: seq<int>, p: nat, sep: int): (ks: seq<int>)
    requires p <= |keys|
    ensures |ks| == |keys| + 1
  {
    keys[..p] + [sep] + keys[p..]
  }

  function SpliceChildren<T>(cs: seq<T>, p: nat, left: T, right: T): (ts: seq<T>)
    requires p < |cs|
    ensures |ts| == |cs| + 1
  {
    cs[..p] + [left, right] + cs[p + 1..]
  }

  /** An internal node whose child `p` has split into `left` and `right`. */
  ghost function Absorb(order: nat, keys: seq<int>, cs: seq<Tree>, p: nat, left: Tree, sep: int, right: Tree): Outcome
    requires |cs| == |keys| + 1 && p <= |keys|
  {
    var ks := SpliceKeys(keys, p, sep);
    var ts := SpliceChildren(cs, p, left, right);
    if |keys| < order - 1 then Stay(Node(ks, ts))
    else
      var s := |ks| / 2;
      Split(Node(ks[0..s], ts[0..s + 1]), ks[s], Node(ks[s + 1..|ks|], ts[s + 1..|ts|]))
  }

  ghost function Insert(order: nat, t: Tree, key: int, offset: int): Outcome
    requires Shaped(t)
  {
    match t
    case Leaf(es) => LeafInsert(order, es, key, offset)
    case Node(keys, cs) =>
      var p := ChildPosition(keys, key);
      match Insert(order, cs[p], key, offset)
      case Duplicate => Duplicate
      case Stay(c) => Stay(Node(keys, cs[p := c]))
      case Split(l, sep, r) => Absorb(order, keys, cs, p, l, sep, r)
  }

  /** One level of the recursion. */
  lemma InsertBelow(order: nat, keys: seq<int>, cs: seq<Tree>, key: int, offset: int, o: Outcome)
    requires Shaped(Node(keys, cs)) && |cs| == |keys| + 1 && Shaped(cs[ChildPosition(keys, key)])
    requires o == Insert(order, cs[ChildPosition(keys, key)], key, offset)
    ensures Insert(order, Node(keys, cs), key, offset)
         == match o
            case Duplicate => Duplicate
            case Stay(c) => Stay(Node(keys, cs[ChildPosition(keys, key) := c]))
            case Split(l, sep, r) => Absorb(order, keys, cs, ChildPosition(keys, key), l, sep, r)
  {
  }

  /** A node with these keys and children, split around the middle key if it is overfull. */
  ghost function Fit(order: nat, ks: seq<int>, ts: seq<Tree>): Outcome
    requires |ts| == |ks| + 1
  {
    if |ks| <= order - 1 || |ks| <= order / 2 then Stay(Node(ks, ts))
    else
      var s := order / 2;
      Split(Node(ks[0..s], ts[0..s + 1]), ks[s], Node(ks[s + 1..|ks|], ts[s + 1..|ts|]))
  }

  lemma AbsorbFits(order: nat, keys: seq<int>, cs: seq<Tree>, p: nat, l: Tree, sep: int, r: Tree)
    requires order >= 3 && |cs| == |keys| + 1 && p <= |keys| <= order - 1
    ensures Absorb(order, keys, cs, p, l, sep, r) == Fit(order, SpliceKeys(keys, p, sep), SpliceChildren(cs, p, l, r))
  {
  }

  /** A whole tree: the empty tree has no root, and a root that splits gets a parent. */
  ghost function InsertRoot(order: nat, root: Option<Tree>, key: int, offset: int): (bool, Tree)
    requires root.Some? ==> Shaped(root.value)
  {
    var t := if root.Some? then root.value else Leaf([]);
    match Insert(order, t, key, offset)
    case Duplicate => (false, t)
    case Stay(u) => (true, u)
    case Split(l, sep, r) => (true, Node([sep], [l, r]))
  }

  /** The split of a full leaf, as the temporary arrays are cut. */
  lemma LeafSplits(order: nat, es: seq<Entry>, key: int, offset: int)
    requires order >= 3 && |es| == order - 1 && Lookup(es, key).None?
    ensures var all, s := Inserted(es, key, offset), order / 2;
            Insert(order, Leaf(es), key, offset) == Split(Leaf(all[0..s]), all[s].key, Leaf(all[s..order]))
  {
    var all, s := Inserted(es, key, offset), order / 2;
    assert all[s..order] == all[s..];
  }

  /** Inserting into no tree is inserting into an empty leaf, which always succeeds. */
  lemma EmptyRoot(order: nat, key: int, offset: int)
    ensures InsertRoot(order, None, key, offset) == InsertRoot(order, Some(Leaf([])), key, offset)
    ensures InsertRoot(order, None, key, offset).0
    ensures CreatedAtRoot(order, None, key, offset) == 1 + CreatedAtRoot(order, Some(Leaf([])), key, offset)
  {
  }

  // ---------- The invariant ----------

  ghost predicate AtLeast(es: seq<Entry>, key: int) {
    forall i | 0 <= i < |es| :: key <= es[i].key
  }

  ghost predicate Increasing(keys: seq<int>) {
    forall i, j | 0 <= i < j < |keys| :: keys[i] < keys[j]
  }

  /** The i-th child lies between the separators around it: left < sep <= right. */
  ghost predicate Within(es: seq<Entry>, keys: seq<int>, i: nat) {
    && (i < |keys| ==> AllBelow(es, keys[i]))
    && (0 < i <= |keys| ==> AtLeast(es, keys[i - 1]))
  }

  ghost predicate Interior(order: nat, keys: seq<int>, cs: seq<Tree>, height: nat)
    decreases cs, 0
  {
    && |cs| == |keys| + 1
    && Increasing(keys)
    && (forall i | 0 <= i < |cs| :: Valid(order, cs[i], height, false))
    && (forall i | 0 <= i < |cs| :: Within(Entries(cs[i]), keys, i))
  }

  /** Sorted nodes, separated children, all leaves at depth `height`, and the
      occupancy bounds; the lower bounds do not apply to the root. */
  ghost predicate Valid(order: nat, t: Tree, height: nat, root: bool)
    decreases t, 1
  {
    match t
    case Leaf(es) =>
      && height == 0
      && Sorted(es)
      && |es| <= order - 1
      && (!root ==> order / 2 <= |es|)
    case Node(keys, cs) =>
      && 0 < height
      && 1 <= |keys| <= order - 1
      && (!root ==> order - order / 2 - 1 <= |keys|)
      && Interior(order, keys, cs, height - 1)
  }

  ghost predicate ValidRoot(order: nat, root: Option<Tree>) {
    root.None? || exists h: nat :: Valid(order, root.value, h, true)
  }

  ghost function RootEntries(root: Option<Tree>): seq<Entry> {
    if root.None? then [] else Entries(root.value)
  }

  lemma {:induction false} ValidIsShaped(order: nat, t: Tree, height: nat, root: bool)
    requires Valid(order, t, height, root)
    ensures Shaped(t)
    decreases t
  {
    if t.Node? {
      forall c | c in t.children
        ensures Shaped(c)
      {
        var i :| 0 <= i < |t.children| && t.children[i] == c;
        ValidIsShaped(order, c, height - 1, false);
      }
    }
  }

  // ---------- Lists of children ----------

  lemma {:induction false} EntriesConcat(a: seq<Tree>, b: seq<Tree>)
    ensures EntriesOf(a + b) == EntriesOf(a) + EntriesOf(b)
  {
    if a == [] {
      assert a + b == b;
    } else {
      var rest, c := a[1..], a + b;
      EntriesConcat(rest, b);
      assert c[0] == a[0] && c[1..] == rest + b;
      ConcatAssoc(Entries(a[0]), EntriesOf(rest), EntriesOf(b));
    }
  }

  lemma {:induction false} EntriesAround(cs: seq<Tree>, p: nat)
    requires p < |cs|
    ensures EntriesOf(cs) == EntriesOf(cs[..p]) + Entries(cs[p]) + EntriesOf(cs[p + 1..])
  {
    assert cs == cs[..p] + cs[p..];
    EntriesConcat(cs[..p], cs[p..]);
    assert cs[p..][1..] == cs[p + 1..];
  }

  lemma {:induction false} SplicedEntries(cs: seq<Tree>, p: nat, l: Tree, r: Tree)
    requires p < |cs|
    ensures EntriesOf(SpliceChildren(cs, p, l, r))
         == EntriesOf(cs[..p]) + (Entries(l) + Entries(r)) + EntriesOf(cs[p + 1..])
  {
    EntriesConcat(cs[..p] + [l, r], cs[p + 1..]);
    EntriesConcat(cs[..p], [l, r]);
    EntriesConcat([l], [r]);
    assert [l, r] == [l] + [r];
    assert EntriesOf([l]) == Entries(l) && EntriesOf([r]) == Entries(r);
  }

  lemma {:induction false} UpdatedEntries(cs: seq<Tree>, p: nat, c: Tree)
    requires p < |cs|
    ensures EntriesOf(cs[p := c]) == EntriesOf(cs[..p]) + Entries(c) + EntriesOf(cs[p + 1..])
  {
    var ds := cs[p := c];
    EntriesAround(ds, p);
    assert ds[..p] == cs[..p] && ds[p + 1..] == cs[p + 1..];
  }

  /** Everything left of a separator is below it. */
  lemma {:induction false} LeftOf(order: nat, keys: seq<int>, cs: seq<Tree>, height: nat, i: nat, n: nat)
    requires Interior(order, keys, cs, height)
    requires n <= i + 1 && i < |keys|
    ensures AllBelow(EntriesOf(cs[..n]), keys[i])
    decreases n
  {
    if n > 0 {
      LeftOf(order, keys, cs, height, i, n - 1);
      assert cs[..n] == cs[..n - 1] + [cs[n - 1]];
      EntriesConcat(cs[..n - 1], [cs[n - 1]]);
      assert EntriesOf([cs[n - 1]]) == Entries(cs[n - 1]);
      assert Within(Entries(cs[n - 1]), keys, n - 1);
      assert keys[n - 1] <= keys[i];
    }
  }

  /** Everything right of a separator is at or above it. */
  lemma {:induction false} RightOf(order: nat, keys: seq<int>, cs: seq<Tree>, height: nat, i: nat, n: nat)
    requires Interior(order, keys, cs, height)
    requires i < n <= |cs| && i < |keys|
    ensures AtLeast(EntriesOf(cs[n..]), keys[i])
    decreases |cs| - n
  {
    if n < |cs| {
      RightOf(order, keys, cs, height, i, n + 1);
      assert cs[n..][1..] == cs[n + 1..];
      assert Within(Entries(cs[n]), keys, n);
      assert keys[i] <= keys[n - 1];
    }
  }

  /** The child the search descends into is the only one that can hold the key. */
  lemma {:induction false} OnlyChild(order: nat, keys: seq<int>, cs: seq<Tree>, height: nat, key: int)
    requires Interior(order, keys, cs, height)
    ensures var p := ChildPosition(keys, key);
            AllBelow(EntriesOf(cs[..p]), key) && AllAbove(EntriesOf(cs[p + 1..]), key)
  {
    var p := ChildPosition(keys, key);
    if p > 0 {
      LeftOf(order, keys, cs, height, p - 1, p);
    }
    if p < |keys| {
      RightOf(order, keys, cs, height, p, p + 1);
    }
  }

  lemma {:induction false} LeafNotEmpty(order: nat, t: Tree, height: nat)
    requires order >= 3 && Valid(order, t, height, false)
    ensures Entries(t) != []
    decreases t
  {
    if t.Node? {
      assert Valid(order, t.children[0], height - 1, false);
      LeafNotEmpty(order, t.children[0], height - 1);
    }
  }

  lemma {:induction false} ConcatSorted(a: seq<Entry>, b: seq<Entry>, key: int)
    requires Sorted(a) && Sorted(b) && AllBelow(a, key) && AtLeast(b, key)
    ensures Sorted(a + b)
  {
  }

  lemma {:induction false} ChildrenSorted(order: nat, keys: seq<int>, cs: seq<Tree>, height: nat, n: nat)
    requires Interior(order, keys, cs, height)
    requires n < |cs|
    ensures Sorted(EntriesOf(cs[..n + 1]))
    decreases cs, 0, n
  {
    assert cs[..n + 1] == cs[..n] + [cs[n]];
    EntriesConcat(cs[..n], [cs[n]]);
    assert EntriesOf([cs[n]]) == Entries(cs[n]);
    EntriesSorted(order, cs[n], height, false);
    if n > 0 {
      ChildrenSorted(order, keys, cs, height, n - 1);
      LeftOf(order, keys, cs, height, n - 1, n);
      assert Within(Entries(cs[n]), keys, n);
      ConcatSorted(EntriesOf(cs[..n]), Entries(cs[n]), keys[n - 1]);
    }
  }

  /** The leaves read left to right hold the keys in ascending order. */
  lemma {:induction false} EntriesSorted(order: nat, t: Tree, height: nat, root: bool)
    requires Valid(order, t, height, root)
    ensures Sorted(Entries(t))
    decreases t, 1
  {
    if t.Node? {
      ChildrenSorted(order, t.keys, t.children, height - 1, |t.children| - 1);
      assert t.children[..|t.children|] == t.children;
    }
  }

  // ---------- Search ----------

  /** Search sees the whole tree although it reads one leaf. */
  lemma {:induction false} SearchCorrect(order: nat, t: Tree, height: nat, root: bool, key: int)
    requires Valid(order, t, height, root) && Shaped(t)
    ensures Search(t, key) == Lookup(Entries(t), key)
    decreases t
  {
    if t.Node? {
      var p := ChildPosition(t.keys, key);
      SearchCorrect(order, t.children[p], height - 1, false, key);
      OnlyChild(order, t.keys, t.children, height - 1, key);
      EntriesAround(t.children, p);
      PositionBetween(EntriesOf(t.children[..p]), Entries(t.children[p]), EntriesOf(t.children[p + 1..]), key);
    }
  }

  // ---------- Insertion keeps the invariant and inserts into the list ----------

  ghost predicate Correct(order: nat, before: seq<Entry>, height: nat, root: bool, key: int, offset: int, r: Outcome) {
    match r
    case Duplicate => HasKey(before, key)
    case Stay(t) =>
      && !HasKey(before, key)
      && Valid(order, t, height, root)
      && Entries(t) == Inserted(before, key, offset)
    case Split(left, sep, right) =>
      && !HasKey(before, key)
      && Valid(order, left, height, false) && Valid(order, right, height, false)
      && AllBelow(Entries(left), sep) && AtLeast(Entries(right), sep)
      && Entries(left) + Entries(right) == Inserted(before, key, offset)
  }

  lemma {:induction false} LeafSplitCorrect(order: nat, all: seq<Entry>)
    requires order >= 3 && Sorted(all) && |all| == order
    ensures var s := |all| / 2;
            && Valid(order, Leaf(all[..s]), 0, false) && Valid(order, Leaf(all[s..]), 0, false)
            && AllBelow(all[..s], all[s].key) && AtLeast(all[s..], all[s].key)
            && all[..s] + all[s..] == all
  {
  }

  lemma {:induction false} LeafInsertCorrect(order: nat, es: seq<Entry>, root: bool, key: int, offset: int)
    requires order >= 3 && Valid(order, Leaf(es), 0, root)
    ensures Correct(order, es, 0, root, key, offset, LeafInsert(order, es, key, offset))
  {
    LookupContents(es, key);
    if !HasKey(es, key) {
      InsertedContents(es, key, offset);
      if |es| == order - 1 {
        LeafSplitCorrect(order, Inserted(es, key, offset));
      }
    }
  }

  /** Replacing child `p` by one with the entries of the old one plus the new key. */
  lemma {:induction false} InsertedWithin(es: seq<Entry>, keys: seq<int>, key: int, offset: int)
    requires Within(es, keys, ChildPosition(keys, key))
    ensures Within(Inserted(es, key, offset), keys, ChildPosition(keys, key))
  {
    InsertedAt(es, key, offset);
    hide Inserted, Position;
  }

  lemma {:induction false} StayInterior(order: nat, keys: seq<int>, cs: seq<Tree>, height: nat, key: int,
                                        offset: int, c: Tree)
    requires Interior(order, keys, cs, height)
    requires Correct(order, Entries(cs[ChildPosition(keys, key)]), height, false, key, offset, Stay(c))
    ensures Interior(order, keys, cs[ChildPosition(keys, key) := c], height)
  {
    var p := ChildPosition(keys, key);
    InsertedWithin(Entries(cs[p]), keys, key, offset);
  }

  /** The entries of the whole node after its child `p` was replaced. */
  lemma {:induction false} ChildInserted(order: nat, keys: seq<int>, cs: seq<Tree>, height: nat, key: int, offset: int)
    requires Interior(order, keys, cs, height)
    ensures var p := ChildPosition(keys, key);
            && (HasKey(EntriesOf(cs), key) <==> HasKey(Entries(cs[p]), key))
            && Inserted(EntriesOf(cs), key, offset)
               == EntriesOf(cs[..p]) + Inserted(Entries(cs[p]), key, offset) + EntriesOf(cs[p + 1..])
  {
    var p := ChildPosition(keys, key);
    OnlyChild(order, keys, cs, height, key);
    EntriesAround(cs, p);
    HasKeyBetween(EntriesOf(cs[..p]), Entries(cs[p]), EntriesOf(cs[p + 1..]), key);
    InsertedBetween(EntriesOf(cs[..p]), Entries(cs[p]), EntriesOf(cs[p + 1..]), key, offset);
  }

  /** The promoted key fits strictly between its neighbours. */
  lemma {:induction false} SepBetween(order: nat, keys: seq<int>, p: nat, height: nat, l: Tree, sep: int, r: Tree)
    requires order >= 3 && p <= |keys|
    requires Valid(order, l, height, false) && Valid(order, r, height, false)
    requires AllBelow(Entries(l), sep) && AtLeast(Entries(r), sep)
    requires Within(Entries(l) + Entries(r), keys, p)
    ensures p > 0 ==> keys[p - 1] < sep
    ensures p < |keys| ==> sep < keys[p]
    ensures p > 0 ==> AtLeast(Entries(l), keys[p - 1])
    ensures p < |keys| ==> AllBelow(Entries(r), keys[p])
  {
    LeafNotEmpty(order, l, height);
    LeafNotEmpty(order, r, height);
    var all := Entries(l) + Entries(r);
    assert all[0] == Entries(l)[0];
    assert all[|Entries(l)|] == Entries(r)[0];
    assert forall i | 0 <= i < |Entries(l)| :: Entries(l)[i] == all[i];
    assert forall i | 0 <= i < |Entries(r)| :: Entries(r)[i] == all[|Entries(l)| + i];
  }

  lemma {:induction false} SpliceIncreasing(keys: seq<int>, p: nat, sep: int)
    requires Increasing(keys) && p <= |keys|
    requires p > 0 ==> keys[p - 1] < sep
    requires p < |keys| ==> sep < keys[p]
    ensures Increasing(SpliceKeys(keys, p, sep))
  {
    var ks := SpliceKeys(keys, p, sep);
    forall i, j | 0 <= i < j < |ks|
      ensures ks[i] < ks[j]
    {
      assert ks[i] == if i < p then keys[i] else if i == p then sep else keys[i - 1];
      assert ks[j] == if j < p then keys[j] else if j == p then sep else keys[j - 1];
      assert p > 0 && i < p ==> keys[i] <= keys[p - 1];
      assert p < j ==> keys[p] <= keys[j - 1];
    }
  }

  lemma {:induction false} SpliceInterior(order: nat, keys: seq<int>, cs: seq<Tree>, height: nat, p: nat, l: Tree,
                                          sep: int, r: Tree)
    requires order >= 3 && Interior(order, keys, cs, height) && p <= |keys|
    requires Valid(order, l, height, false) && Valid(order, r, height, false)
    requires AllBelow(Entries(l), sep) && AtLeast(Entries(r), sep)
    requires Within(Entries(l) + Entries(r), keys, p)
    ensures Interior(order, SpliceKeys(keys, p, sep), SpliceChildren(cs, p, l, r), height)
  {
    SepBetween(order, keys, p, height, l, sep, r);
    SpliceIncreasing(keys, p, sep);
    var ks, ts := SpliceKeys(keys, p, sep), SpliceChildren(cs, p, l, r);
    assert |ts| == |ks| + 1;
    forall i | 0 <= i < |ts|
      ensures Valid(order, ts[i], height, false) && Within(Entries(ts[i]), ks, i)
    {
      SpliceChild(order, keys, cs, height, p, l, sep, r, i);
    }
  }

  lemma {:induction false} SpliceChild(order: nat, keys: seq<int>, cs: seq<Tree>, height: nat, p: nat, l: Tree,
                                       sep: int, r: Tree, i: nat)
    requires Interior(order, keys, cs, height) && p <= |keys| && i <= |cs|
    requires Valid(order, l, height, false) && Valid(order, r, height, false)
    requires AllBelow(Entries(l), sep) && AtLeast(Entries(r), sep)
    requires p > 0 ==> AtLeast(Entries(l), keys[p - 1])
    requires p < |keys| ==> AllBelow(Entries(r), keys[p])
    ensures var ts := SpliceChildren(cs, p, l, r);
            Valid(order, ts[i], height, false) && Within(Entries(ts[i]), SpliceKeys(keys, p, sep), i)
  {
    var ks, ts := SpliceKeys(keys, p, sep), SpliceChildren(cs, p, l, r);
    if i < p {
      assert ts[i] == cs[i];
      assert Within(Entries(cs[i]), keys, i);
      assert ks[i] == keys[i];
    } else if i == p {
      assert ts[i] == l;
    } else if i == p + 1 {
      assert ts[i] == r;
    } else {
      assert ts[i] == cs[i - 1];
      assert Within(Entries(cs[i - 1]), keys, i - 1);
      assert ks[i - 1] == keys[i - 2];
    }
  }

  lemma {:induction false} SliceInterior(order: nat, keys: seq<int>, cs: seq<Tree>, height: nat, lo: nat, hi: nat)
    requires Interior(order, keys, cs, height)
    requires lo <= hi <= |keys|
    ensures Interior(order, keys[lo..hi], cs[lo..hi + 1], height)
  {
    var ks, ts := keys[lo..hi], cs[lo..hi + 1];
    forall i | 0 <= i < |ts|
      ensures Valid(order, ts[i], height, false) && Within(Entries(ts[i]), ks, i)
    {
      assert ts[i] == cs[lo + i];
      assert Within(Entries(cs[lo + i]), keys, lo + i);
    }
  }

  lemma {:induction false} HalfValid(order: nat, ks: seq<int>, ts: seq<Tree>, height: nat, lo: nat, hi: nat)
    requires Interior(order, ks, ts, height) && lo < hi <= |ks|
    requires order - order / 2 - 1 <= hi - lo <= order - 1
    ensures Valid(order, Node(ks[lo..hi], ts[lo..hi + 1]), height + 1, false)
  {
    SliceInterior(order, ks, ts, height, lo, hi);
    assert |ks[lo..hi]| == hi - lo;
    hide Interior;
  }

  /** The two halves of an overfull node around its middle separator. */
  lemma {:induction false} HalvesCorrect(order: nat, ks: seq<int>, ts: seq<Tree>, height: nat, s: nat)
    requires order >= 3 && Interior(order, ks, ts, height) && |ks| == order && s == order / 2
    ensures Valid(order, Node(ks[0..s], ts[0..s + 1]), height + 1, false)
    ensures Valid(order, Node(ks[s + 1..order], ts[s + 1..order + 1]), height + 1, false)
    ensures AllBelow(EntriesOf(ts[0..s + 1]), ks[s]) && AtLeast(EntriesOf(ts[s + 1..order + 1]), ks[s])
    ensures EntriesOf(ts[0..s + 1]) + EntriesOf(ts[s + 1..order + 1]) == EntriesOf(ts)
  {
    assert |ts| == order + 1;
    HalfValid(order, ks, ts, height, 0, s);
    HalfValid(order, ks, ts, height, s + 1, order);
    LeftOf(order, ks, ts, height, s, s + 1);
    RightOf(order, ks, ts, height, s, s + 1);
    hide *;
    assert ts == ts[0..s + 1] + ts[s + 1..order + 1];
    assert ts[s + 1..order + 1] == ts[s + 1..] && ts[0..s + 1] == ts[..s + 1];
    EntriesConcat(ts[0..s + 1], ts[s + 1..order + 1]);
  }

  lemma {:induction false} AbsorbCorrect(order: nat, keys: seq<int>, cs: seq<Tree>, height: nat, root: bool, p: nat,
                                         l: Tree, sep: int, r: Tree, before: seq<Entry>, key: int, offset: int)
    requires order >= 3 && |cs| == |keys| + 1 && p <= |keys|
    requires 1 <= |keys| <= order - 1 && (!root ==> order - order / 2 - 1 <= |keys|)
    requires Interior(order, SpliceKeys(keys, p, sep), SpliceChildren(cs, p, l, r), height)
    requires !HasKey(before, key)
    requires EntriesOf(SpliceChildren(cs, p, l, r)) == Inserted(before, key, offset)
    ensures Correct(order, before, height + 1, root, key, offset, Absorb(order, keys, cs, p, l, sep, r))
  {
    var ks, ts := SpliceKeys(keys, p, sep), SpliceChildren(cs, p, l, r);
    assert |ks| == |keys| + 1 && |ts| == |cs| + 1;
    hide HasKey, Inserted, SpliceKeys, SpliceChildren, Interior, AllBelow, AtLeast, Correct;
    if |keys| == order - 1 {
      HalvesAreCorrect(order, ks, ts, height, root, before, key, offset);
    } else {
      WholeIsCorrect(order, ks, ts, height, root, before, key, offset);
    }
  }

  lemma HalvesAreCorrect(order: nat, ks: seq<int>, ts: seq<Tree>, height: nat, root: bool,
                         before: seq<Entry>, key: int, offset: int)
    requires order >= 3 && Interior(order, ks, ts, height) && |ks| == order && |ts| == order + 1
    requires !HasKey(before, key) && EntriesOf(ts) == Inserted(before, key, offset)
    ensures var s := order / 2;
            Correct(order, before, height + 1, root, key, offset,
                    Split(Node(ks[0..s], ts[0..s + 1]), ks[s], Node(ks[s + 1..order], ts[s + 1..order + 1])))
  {
    HalvesCorrect(order, ks, ts, height, order / 2);
    hide HasKey, Inserted, Interior, AllBelow, AtLeast, Valid;
  }

  lemma WholeIsCorrect(order: nat, ks: seq<int>, ts: seq<Tree>, height: nat, root: bool,
                       before: seq<Entry>, key: int, offset: int)
    requires order >= 3 && Interior(order, ks, ts, height) && |ts| == |ks| + 1
    requires |ks| <= order - 1 && |ks| >= 1 && (!root ==> order - order / 2 - 1 <= |ks|)
    requires !HasKey(before, key) && EntriesOf(ts) == Inserted(before, key, offset)
    ensures Correct(order, before, height + 1, root, key, offset, Stay(Node(ks, ts)))
  {
    assert Valid(order, Node(ks, ts), height + 1, root);
    hide HasKey, Inserted, Interior, Valid;
  }

  lemma {:induction false} StayCorrect(order: nat, keys: seq<int>, cs: seq<Tree>, height: nat, root: bool, key: int,
                                       offset: int, c: Tree)
    requires order >= 3 && |cs| == |keys| + 1 && Valid(order, Node(keys, cs), height + 1, root)
    requires Correct(order, Entries(cs[ChildPosition(keys, key)]), height, false, key, offset, Stay(c))
    ensures Correct(order, EntriesOf(cs), height + 1, root, key, offset,
                    Stay(Node(keys, cs[ChildPosition(keys, key) := c])))
  {
    StayInterior(order, keys, cs, height, key, offset, c);
    ChildInserted(order, keys, cs, height, key, offset);
    UpdatedEntries(cs, ChildPosition(keys, key), c);
  }

  lemma {:induction false} SplitCorrect(order: nat, keys: seq<int>, cs: seq<Tree>, height: nat, root: bool, key: int,
                                        offset: int, l: Tree, sep: int, r: Tree)
    requires order >= 3 && |cs| == |keys| + 1 && Valid(order, Node(keys, cs), height + 1, root)
    requires Correct(order, Entries(cs[ChildPosition(keys, key)]), height, false, key, offset, Split(l, sep, r))
    ensures Correct(order, EntriesOf(cs), height + 1, root, key, offset,
                    Absorb(order, keys, cs, ChildPosition(keys, key), l, sep, r))
  {
    var p := ChildPosition(keys, key);
    assert Within(Entries(cs[p]), keys, p);
    InsertedWithin(Entries(cs[p]), keys, key, offset);
    SpliceInterior(order, keys, cs, height, p, l, sep, r);
    SplicedEntries(cs, p, l, r);
    ChildInserted(order, keys, cs, height, key, offset);
    AbsorbCorrect(order, keys, cs, height, root, p, l, sep, r, EntriesOf(cs), key, offset);
  }

  lemma {:induction false} DuplicateCorrect(order: nat, keys: seq<int>, cs: seq<Tree>, height: nat, root: bool,
                                            key: int, offset: int)
    requires |cs| == |keys| + 1 && Interior(order, keys, cs, height)
    requires Correct(order, Entries(cs[ChildPosition(keys, key)]), height, false, key, offset, Duplicate)
    ensures Correct(order, EntriesOf(cs), height + 1, root, key, offset, Duplicate)
  {
    ChildInserted(order, keys, cs, height, key, offset);
  }

  /** Inserting an absent key keeps the invariant at every level and adds exactly
      that entry; inserting a present key is reported. */
  lemma {:induction false} InsertCorrect(order: nat, t: Tree, height: nat, root: bool, key: int, offset: int)
    requires order >= 3 && Valid(order, t, height, root) && Shaped(t)
    ensures Correct(order, Entries(t), height, root, key, offset, Insert(order, t, key, offset))
    decreases t
  {
    match t
    case Leaf(es) => LeafInsertCorrect(order, es, root, key, offset);
    case Node(keys, cs) =>
      var p := ChildPosition(keys, key);
      assert Interior(order, keys, cs, height - 1) && Valid(order, cs[p], height - 1, false) && Shaped(cs[p]);
      assert Entries(t) == EntriesOf(cs);
      hide Valid, Interior, Correct, Entries, EntriesOf, ChildPosition, Absorb, Shaped, LeafInsert;
      InsertCorrect(order, cs[p], height - 1, false, key, offset);
      match Insert(order, cs[p], key, offset)
      case Duplicate => DuplicateCorrect(order, keys, cs, height - 1, root, key, offset);
      case Stay(c) => StayCorrect(order, keys, cs, height - 1, root, key, offset, c);
      case Split(l, sep, r) => SplitCorrect(order, keys, cs, height - 1, root, key, offset, l, sep, r);
  }

  /** One call of the public insert. */
  lemma {:induction false} InsertRootCorrect(order: nat, root: Option<Tree>, key: int, offset: int)
    requires order >= 3 && ValidRoot(order, root) && (root.Some? ==> Shaped(root.value))
    ensures var (ok, t) := InsertRoot(order, root, key, offset);
            && (ok <==> !HasKey(RootEntries(root), key))
            && ValidRoot(order, Some(t))
            && Sorted(RootEntries(root))
            && Entries(t) == (if ok then Inserted(RootEntries(root), key, offset) else RootEntries(root))
  {
    var t := if root.Some? then root.value else Leaf([]);
    var h: nat :| if root.None? then h == 0 else Valid(order, t, h, true);
    EntriesSorted(order, t, h, true);
    InsertCorrect(order, t, h, true, key, offset);
    match Insert(order, t, key, offset)
    case Duplicate =>
    case Stay(u) =>
    case Split(l, sep, r) =>
      assert [l, r][1..] == [r] && EntriesOf([r]) == Entries(r);
      NewRootValid(order, l, sep, r, h);
      assert Valid(order, Node([sep], [l, r]), h + 1, true);
  }

  lemma {:induction false} NewRootValid(order: nat, l: Tree, sep: int, r: Tree, height: nat)
    requires order >= 3
    requires Valid(order, l, height, false) && Valid(order, r, height, false)
    requires AllBelow(Entries(l), sep) && AtLeast(Entries(r), sep)
    ensures Valid(order, Node([sep], [l, r]), height + 1, true)
  {
    var cs := [l, r];
    assert cs[0] == l && cs[1] == r;
    assert Interior(order, [sep], cs, height);
  }

  // ---------- Occupancy, height, number of nodes ----------

  ghost function Pow(b: nat, n: nat): nat {
    if n == 0 then 1 else b * Pow(b, n - 1)
  }

  ghost function NodeCount(t: Tree): nat
    decreases t, 1
  {
    match t
    case Leaf(_) => 1
    case Node(_, cs) => 1 + NodeCountOf(cs)
  }

  ghost function NodeCountOf(cs: seq<Tree>): nat
    decreases cs, 0
  {
    if cs == [] then 0 else NodeCount(cs[0]) + NodeCountOf(cs[1..])
  }

  /** Nodes that an insertion allocates below a given root. */
  ghost function Created(order: nat, t: Tree, key: int, offset: int): nat
    requires Shaped(t)
  {
    match t
    case Leaf(es) => if Insert(order, t, key, offset).Split? then 1 else 0
    case Node(keys, cs) =>
      Created(order, cs[ChildPosition(keys, key)], key, offset)
      + if Insert(order, t, key, offset).Split? then 1 else 0
  }

  /** One level of the count. */
  lemma CreatedBelow(order: nat, keys: seq<int>, cs: seq<Tree>, key: int, offset: int)
    requires Shaped(Node(keys, cs)) && |cs| == |keys| + 1 && Shaped(cs[ChildPosition(keys, key)])
    ensures Created(order, Node(keys, cs), key, offset)
         == Created(order, cs[ChildPosition(keys, key)], key, offset)
            + if Insert(order, Node(keys, cs), key, offset).Split? then 1 else 0
  {
  }

  /** Nodes that a point search reads. */
  ghost function Visited(t: Tree, key: int): nat
    requires Shaped(t)
  {
    match t
    case Leaf(_) => 1
    case Node(keys, cs) => 1 + Visited(cs[ChildPosition(keys, key)], key)
  }

  lemma {:induction false} ManyChildren(cs: seq<Tree>, m: nat)
    requires forall i | 0 <= i < |cs| :: m <= |Entries(cs[i])|
    ensures |cs| * m <= |EntriesOf(cs)|
  {
    if cs != [] {
      ManyChildren(cs[1..], m);
      assert |cs| * m == m + |cs[1..]| * m;
    }
  }

  lemma MulMonotone(a: nat, b: nat, c: nat, d: nat)
    requires a <= b && c <= d
    ensures a * c <= b * d
  {
    assert a * c <= b * c;
    assert b * c <= b * d;
  }

  /** A subtree of height h below the root is at least this full. */
  lemma {:induction false} SubtreeIsFull(order: nat, t: Tree, height: nat)
    requires order >= 3 && Valid(order, t, height, false)
    ensures (order / 2) * Pow(order - order / 2, height) <= |Entries(t)|
    decreases t
  {
    if t.Node? {
      var m := (order / 2) * Pow(order - order / 2, height - 1);
      forall i | 0 <= i < |t.children|
        ensures m <= |Entries(t.children[i])|
      {
        SubtreeIsFull(order, t.children[i], height - 1);
      }
      ManyChildren(t.children, m);
      assert order - order / 2 <= |t.children| && Entries(t) == EntriesOf(t.children);
      assert Pow(order - order / 2, height) == (order - order / 2) * Pow(order - order / 2, height - 1);
      hide *;
      MulMonotone(order - order / 2, |t.children|, m, m);
      Regroup(order / 2, order - order / 2, Pow(order - order / 2, height - 1));
    }
  }

  lemma Regroup(a: nat, b: nat, c: nat)
    ensures b * (a * c) == a * (b * c)
  {
  }

  /** A tree with at least two levels holds at least this many entries. */
  lemma {:induction false} TreeIsFull(order: nat, t: Tree, height: nat)
    requires order >= 3 && height >= 1 && Valid(order, t, height, true)
    ensures 2 * ((order / 2) * Pow(order - order / 2, height - 1)) <= |Entries(t)|
  {
    var m := (order / 2) * Pow(order - order / 2, height - 1);
    forall i | 0 <= i < |t.children|
      ensures m <= |Entries(t.children[i])|
    {
      SubtreeIsFull(order, t.children[i], height - 1);
    }
    ManyChildren(t.children, m);
    MulMonotone(2, |t.children|, m, m);
  }

  lemma {:induction false} VisitedIsHeight(order: nat, t: Tree, height: nat, root: bool, key: int)
    requires Valid(order, t, height, root) && Shaped(t)
    ensures Visited(t, key) == height + 1
    decreases t
  {
    if t.Node? {
      VisitedIsHeight(order, t.children[ChildPosition(t.keys, key)], height - 1, false, key);
    }
  }

  /** So many nodes are on the way from the root to a leaf only in a tree with so many entries.
      With the shipped order 4 a search in n entries that are more than one leaf reads at most
      log2(n) nodes. */
  ghost predicate FewVisited(order: nat, visited: nat, n: nat) {
    && (visited >= 2 && order >= 3 ==> 2 * ((order / 2) * Pow(order - order / 2, visited - 2)) <= n)
    && (visited >= 2 && order == 4 ==> Pow(2, visited) <= n)
  }

  lemma {:induction false} SearchIsLogarithmic(order: nat, t: Tree, height: nat, key: int)
    requires order >= 3 && Valid(order, t, height, true) && Shaped(t)
    ensures FewVisited(order, Visited(t, key), |Entries(t)|)
  {
    VisitedIsHeight(order, t, height, true, key);
    if height >= 1 {
      TreeIsFull(order, t, height);
      assert Pow(2, height + 1) == 2 * (2 * Pow(2, height - 1));
    }
  }

  lemma {:induction false} FewNodes(order: nat, t: Tree, height: nat)
    requires order >= 4 && Valid(order, t, height, false)
    ensures NodeCount(t) + 1 <= |Entries(t)|
    decreases t, 1
  {
    if t.Node? {
      FewNodesOf(order, t.keys, t.children, height - 1, 0);
    }
  }

  lemma {:induction false} FewNodesOf(order: nat, keys: seq<int>, cs: seq<Tree>, height: nat, n: nat)
    requires order >= 4 && Interior(order, keys, cs, height) && n <= |cs|
    ensures NodeCountOf(cs[n..]) + (|cs| - n) <= |EntriesOf(cs[n..])|
    decreases cs, 0, |cs| - n
  {
    if n < |cs| {
      FewNodes(order, cs[n], height);
      FewNodesOf(order, keys, cs, height, n + 1);
      assert cs[n..][1..] == cs[n + 1..];
    }
  }

  /** The tree never has more nodes than max(1, entries - 1). */
  lemma {:induction false} NodesBounded(order: nat, t: Tree, height: nat)
    requires order >= 4 && Valid(order, t, height, true)
    ensures NodeCount(t) <= (if |Entries(t)| <= 2 then 1 else |Entries(t)| - 1)
  {
    if t.Node? {
      FewNodesOf(order, t.keys, t.children, height - 1, 0);
      assert t.children[0..] == t.children;
    }
  }

  lemma {:induction false} NodeCountConcat(a: seq<Tree>, b: seq<Tree>)
    ensures NodeCountOf(a + b) == NodeCountOf(a) + NodeCountOf(b)
  {
    if a == [] {
      assert a + b == b;
    } else {
      NodeCountConcat(a[1..], b);
      assert (a + b)[1..] == a[1..] + b;
    }
  }

  lemma {:induction false} NodeCountAround(cs: seq<Tree>, p: nat)
    requires p < |cs|
    ensures NodeCountOf(cs) == NodeCountOf(cs[..p]) + NodeCount(cs[p]) + NodeCountOf(cs[p + 1..])
  {
    assert cs == cs[..p] + cs[p..];
    NodeCountConcat(cs[..p], cs[p..]);
    assert cs[p..][1..] == cs[p + 1..];
  }

  lemma {:induction false} NodeCountSpliced(cs: seq<Tree>, p: nat, l: Tree, r: Tree)
    requires p < |cs|
    ensures NodeCountOf(SpliceChildren(cs, p, l, r))
         == NodeCountOf(cs[..p]) + NodeCount(l) + NodeCount(r) + NodeCountOf(cs[p + 1..])
  {
    NodeCountConcat(cs[..p] + [l, r], cs[p + 1..]);
    NodeCountConcat(cs[..p], [l, r]);
    assert [l, r][1..] == [r];
    assert NodeCountOf([r]) == NodeCount(r);
  }

  ghost function OutcomeNodes(t: Tree, r: Outcome): nat {
    match r
    case Duplicate => NodeCount(t)
    case Stay(u) => NodeCount(u)
    case Split(left, _, right) => NodeCount(left) + NodeCount(right)
  }

  lemma {:induction false} AbsorbNodes(order: nat, keys: seq<int>, cs: seq<Tree>, p: nat, l: Tree, sep: int, r: Tree)
    requires order >= 1 && |cs| == |keys| + 1 && p <= |keys|
    ensures var o := Absorb(order, keys, cs, p, l, sep, r);
            OutcomeNodes(Node(keys, cs), o)
            == NodeCount(Node(keys, cs)) - NodeCount(cs[p]) + NodeCount(l) + NodeCount(r)
                                               + if o.Split? then 1 else 0
  {
    NodeCountAround(cs, p);
    NodeCountSpliced(cs, p, l, r);
    var ts := SpliceChildren(cs, p, l, r);
    assert |ts| == |cs| + 1;
    hide SpliceChildren, NodeCountOf;
    if |keys| >= order - 1 {
      var s := (|keys| + 1) / 2;
      assert ts == ts[0..s + 1] + ts[s + 1..|ts|];
      NodeCountConcat(ts[0..s + 1], ts[s + 1..|ts|]);
    }
  }

  /** No node is lost or leaked: the nodes afterwards are the nodes before plus
      exactly the ones allocated. */
  lemma {:induction false} NodesConserved(order: nat, t: Tree, key: int, offset: int)
    requires order >= 1 && Shaped(t)
    ensures OutcomeNodes(t, Insert(order, t, key, offset)) == NodeCount(t) + Created(order, t, key, offset)
    decreases t
  {
    match t
    case Leaf(es) =>
    case Node(keys, cs) =>
      var p := ChildPosition(keys, key);
      NodesConserved(order, cs[p], key, offset);
      match Insert(order, cs[p], key, offset)
      case Duplicate =>
        NoSplitNoNode(order, cs[p], key, offset);
      case Stay(c) =>
        NodeCountAround(cs, p);
        NodeCountAround(cs[p := c], p);
        assert cs[p := c][..p] == cs[..p] && cs[p := c][p + 1..] == cs[p + 1..];
      case Split(l, sep, r) =>
        AbsorbNodes(order, keys, cs, p, l, sep, r);
  }

  lemma {:induction false} NoSplitNoNode(order: nat, t: Tree, key: int, offset: int)
    requires Shaped(t) && Insert(order, t, key, offset).Duplicate?
    ensures Created(order, t, key, offset) == 0
    decreases t
  {
    if t.Node? {
      NoSplitNoNode(order, t.children[ChildPosition(t.keys, key)], key, offset);
    }
  }

  /** Nodes that one call of the public insert allocates: the first root, one right
      sibling per split, and a new root when the old one splits. */
  ghost function CreatedAtRoot(order: nat, root: Option<Tree>, key: int, offset: int): nat
    requires root.Some? ==> Shaped(root.value)
  {
    var t := if root.Some? then root.value else Leaf([]);
    (if root.None? then 1 else 0) + Created(order, t, key, offset)
    + if Insert(order, t, key, offset).Split? then 1 else 0
  }

  ghost function RootNodes(root: Option<Tree>): nat {
    if root.None? then 0 else NodeCount(root.value)
  }

  lemma {:induction false} RootNodesConserved(order: nat, root: Option<Tree>, key: int, offset: int)
    requires order >= 3 && ValidRoot(order, root) && (root.Some? ==> Shaped(root.value))
    ensures NodeCount(InsertRoot(order, root, key, offset).1)
            == RootNodes(root) + CreatedAtRoot(order, root, key, offset)
  {
    var t := if root.Some? then root.value else Leaf([]);
    NodesConserved(order, t, key, offset);
    match Insert(order, t, key, offset)
    case Duplicate => NoSplitNoNode(order, t, key, offset);
    case Stay(u) =>
    case Split(l, sep, r) => assert [l, r][1..] == [r] && NodeCountOf([r]) == NodeCount(r);
  }

  /** An empty tree after a run of inserts, successful or not, with what it cost. */
  datatype Built = Built(root: Option<Tree>, created: nat, stored: nat)

  ghost function Build(order: nat, es: seq<Entry>): (b: Built)
    requires order >= 3
    ensures ValidRoot(order, b.root) && (b.root.Some? ==> Shaped(b.root.value))
  {
    if es == [] then Built(None, 0, 0)
    else
      var n := |es| - 1;
      var b := Build(order, es[..n]);
      InsertRootCorrect(order, b.root, es[n].key, es[n].offset);
      var (ok, t) := InsertRoot(order, b.root, es[n].key, es[n].offset);
      ValidRootIsShaped(order, t);
      Built(Some(t), b.created + CreatedAtRoot(order, b.root, es[n].key, es[n].offset), b.stored + if ok then 1 else 0)
  }

  lemma ValidRootIsShaped(order: nat, t: Tree)
    requires ValidRoot(order, Some(t))
    ensures Shaped(t)
  {
    var h: nat :| Valid(order, t, h, true);
    ValidIsShaped(order, t, h, true);
  }

  /** Over any run, every node ever created is still in the tree, the successful inserts
      are the entries stored, and together they bound the allocations. */
  lemma {:induction false} BuildConserves(order: nat, es: seq<Entry>)
    requires order >= 3
    ensures var b := Build(order, es);
            b.created == RootNodes(b.root) && b.stored == |RootEntries(b.root)| && (es != [] ==> b.stored >= 1)
  {
    if es != [] {
      var n := |es| - 1;
      var b := Build(order, es[..n]);
      BuildConserves(order, es[..n]);
      InsertRootCorrect(order, b.root, es[n].key, es[n].offset);
      RootNodesConserved(order, b.root, es[n].key, es[n].offset);
    }
  }

  lemma {:induction false} AllocationsBounded(order: nat, es: seq<Entry>)
    requires order >= 4 && es != []
    ensures var b := Build(order, es); b.created <= if b.stored <= 2 then 1 else b.stored - 1
  {
    BuildConserves(order, es);
    var t := Build(order, es).root.value;
    var h: nat :| Valid(order, t, h, true);
    NodesBounded(order, t, h);
  }
}
