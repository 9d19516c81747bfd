/** What an index means to its callers: a list of (key, offset) pairs in strictly
    ascending key order. The B+ tree is proved against this list, and everything
    the executor does with an index is stated on it. */
module SortedEntries {
  import opened Wrappers

  datatype Entry = Entry(key: int, offset: int)

  ghost predicate Sorted(es: seq<Entry>) {
    forall i, j | 0 <= i < j < |es| :: es[i].key < es[j].key
  }

  ghost predicate HasKey(es: seq<Entry>, key: int) {
    exists i | 0 <= i < |es| :: es[i].key == key
  }

  ghost predicate AllBelow(es: seq<Entry>, key: int) {
    forall i | 0 <= i < |es| :: es[i].key < key
  }

  ghost predicate AllAbove(es: seq<Entry>, key: int) {
    forall i | 0 <= i < |es| :: key < es[i].key
  }

  /** The first position whose key is not below `key`. */
  function Position(es: seq<Entry>, key: int): (p: nat)
    ensures p <= |es|
    ensures forall i | 0 <= i < p :: es[i].key < key
    ensures p < |es| ==> key <= es[p].key
  {
    if es == [] || key <= es[0].key then 0 else 1 + Position(es[1..], key)
  }

  function Inserted(es: seq<Entry>, key: int, offset: int): (all: seq<Entry>)
    ensures |all| == |es| + 1
  {
    var p := Position(es, key);
    es[..p] + [Entry(key, offset)] + es[p..]
  }

  function Lookup(es: seq<Entry>, key: int): Option<int> {
    var p := Position(es, key);
    if p < |es| && es[p].key == key then Some(es[p].offset) else None
  }

  function Above(es: seq<Entry>, key: int): seq<Entry> {
    if es == [] then []
    else (if es[0].key > key then [es[0]] else []) + Above(es[1..], key)
  }

  function Below(es: seq<Entry>, key: int): seq<Entry> {
    if es == [] then []
    else (if es[0].key < key then [es[0]] else []) + Below(es[1..], key)
  }

  /** The finite map an index stands for. */
  ghost function Contents(es: seq<Entry>): map<int, int>
    requires Sorted(es)
  {
    map i | 0 <= i < |es| :: es[i].key := es[i].offset
  }

  /** Position is the only split of a sorted list into "below" and "not below". */
  lemma PositionUnique(es: seq<Entry>, key: int, p: nat)
    requires p <= |es|
    requires forall i | 0 <= i < p :: es[i].key < key
    requires p < |es| ==> key <= es[p].key
    ensures Position(es, key) == p
  {
  }

  /** Inserted, element by element. */
  lemma InsertedAt(es: seq<Entry>, key: int, offset: int)
    ensures forall i {:trigger Inserted(es, key, offset)[i]} | 0 <= i <= |es| ::
              Inserted(es, key, offset)[i]
              == if i < Position(es, key) then es[i]
                 else if i == Position(es, key) then Entry(key, offset)
                 else es[i - 1]
  {
  }

  lemma {:induction false} PositionBetween(a: seq<Entry>, es: seq<Entry>, b: seq<Entry>, key: int)
    requires AllBelow(a, key) && AllAbove(b, key)
    ensures Position(a + es + b, key) == |a| + Position(es, key)
    ensures Lookup(a + es + b, key) == Lookup(es, key)
  {
    var p, all := Position(es, key), a + es + b;
    assert forall i | 0 <= i < |all| ::
             all[i] == if i < |a| then a[i] else if i < |a| + |es| then es[i - |a|] else b[i - |a| - |es|];
    PositionUnique(all, key, |a| + p);
  }

  lemma {:induction false} HasKeyBetween(a: seq<Entry>, es: seq<Entry>, b: seq<Entry>, key: int)
    requires AllBelow(a, key) && AllAbove(b, key)
    ensures HasKey(a + es + b, key) <==> HasKey(es, key)
  {
    var all := a + es + b;
    assert forall i | 0 <= i < |all| ::
             all[i] == if i < |a| then a[i] else if i < |a| + |es| then es[i - |a|] else b[i - |a| - |es|];
    if HasKey(es, key) {
      var i :| 0 <= i < |es| && es[i].key == key;
      assert all[|a| + i].key == key;
    }
  }

  /** Inserting into a list is inserting into the middle piece, when the pieces
      around it lie on either side of the key. */
  lemma {:induction false} InsertedBetween(a: seq<Entry>, es: seq<Entry>, b: seq<Entry>, key: int, offset: int)
    requires AllBelow(a, key) && AllAbove(b, key)
    ensures Inserted(a + es + b, key, offset) == a + Inserted(es, key, offset) + b
  {
    PositionBetween(a, es, b, key);
    var p, all := Position(es, key), a + es + b;
    hide *;
    assert all[..|a| + p] == a + es[..p];
    assert all[|a| + p..] == es[p..] + b;
    SpliceConcat(a, es[..p], [Entry(key, offset)], es[p..], b);
  }

  lemma SpliceConcat<E>(a: seq<E>, l: seq<E>, x: seq<E>, r: seq<E>, b: seq<E>)
    ensures (a + l) + x + (r + b) == a + (l + x + r) + b
  {
  }

  lemma {:induction false} InsertedSorted(es: seq<Entry>, key: int, offset: int)
    requires Sorted(es) && !HasKey(es, key)
    ensures Sorted(Inserted(es, key, offset))
  {
    InsertedAt(es, key, offset);
    var p, r := Position(es, key), Inserted(es, key, offset);
    assert p < |es| ==> es[p].key != key;
    hide Position, Inserted;
  }

  lemma {:induction false} InsertedMember(es: seq<Entry>, key: int, offset: int, e: Entry)
    ensures e in Inserted(es, key, offset) <==> e in es || e == Entry(key, offset)
  {
    var p := Position(es, key);
    hide Position;
    assert es == es[..p] + es[p..];
  }

  /** The pairs of the map are the entries of the list. */
  lemma ContentsMember(es: seq<Entry>, e: Entry)
    requires Sorted(es)
    ensures e in es <==> Maps(Contents(es), e)
  {
    if e.key in Contents(es) {
      var i :| 0 <= i < |es| && es[i].key == e.key;
      assert es[i] in es;
    }
  }

  /** Inserting an absent key updates the map at that key and nowhere else. */
  lemma {:induction false} InsertedContents(es: seq<Entry>, key: int, offset: int)
    requires Sorted(es) && !HasKey(es, key)
    ensures Sorted(Inserted(es, key, offset))
    ensures Contents(Inserted(es, key, offset)) == Contents(es)[key := offset]
  {
    InsertedSorted(es, key, offset);
    HasKeyContents(es, key);
    var r := Inserted(es, key, offset);
    forall e
      ensures Maps(Contents(r), e) <==> Maps(Contents(es)[key := offset], e)
    {
      InsertedMember(es, key, offset, e);
      ContentsMember(r, e);
      ContentsMember(es, e);
    }
    SamePairs(Contents(r), Contents(es)[key := offset]);
  }

  ghost predicate Maps(m: map<int, int>, e: Entry) {
    e.key in m && m[e.key] == e.offset
  }

  lemma SamePairs(m: map<int, int>, n: map<int, int>)
    requires forall e :: Maps(m, e) <==> Maps(n, e)
    ensures m == n
  {
    forall k | k in m
      ensures k in n && m[k] == n[k]
    {
      assert Maps(m, Entry(k, m[k]));
    }
    forall k | k in n
      ensures k in m
    {
      assert Maps(n, Entry(k, n[k]));
    }
  }

  lemma HasKeyContents(es: seq<Entry>, key: int)
    requires Sorted(es)
    ensures HasKey(es, key) <==> key in Contents(es)
  {
  }

  /** Lookup is map lookup. */
  lemma {:induction false} LookupContents(es: seq<Entry>, key: int)
    requires Sorted(es)
    ensures Lookup(es, key) == if key in Contents(es) then Some(Contents(es)[key]) else None
    ensures HasKey(es, key) <==> Lookup(es, key).Some?
  {
    var p := Position(es, key);
    if HasKey(es, key) {
      var i :| 0 <= i < |es| && es[i].key == key;
      assert i == p;
    }
  }

  lemma ConcatAssoc<E>(a: seq<E>, b: seq<E>, c: seq<E>)
    ensures (a + b) + c == a + (b + c)
  {
  }

  lemma {:induction false} AboveConcat(a: seq<Entry>, b: seq<Entry>, key: int)
    ensures Above(a + b, key) == Above(a, key) + Above(b, key)
  {
    if a == [] {
      assert a + b == b;
    } else {
      var rest, c := a[1..], a + b;
      AboveConcat(rest, b, key);
      assert c[0] == a[0] && c[1..] == rest + b;
      var h := if a[0].key > key then [a[0]] else [];
      assert Above(c, key) == h + Above(c[1..], key);
      assert Above(a, key) == h + Above(rest, key);
      hide *;
      ConcatAssoc(h, Above(rest, key), Above(b, key));
    }
  }

  lemma {:induction false} BelowConcat(a: seq<Entry>, b: seq<Entry>, key: int)
    ensures Below(a + b, key) == Below(a, key) + Below(b, key)
  {
    if a == [] {
      assert a + b == b;
    } else {
      var rest, c := a[1..], a + b;
      BelowConcat(rest, b, key);
      assert c[0] == a[0] && c[1..] == rest + b;
      var h := if a[0].key < key then [a[0]] else [];
      assert Below(c, key) == h + Below(c[1..], key);
      assert Below(a, key) == h + Below(rest, key);
      hide *;
      ConcatAssoc(h, Below(rest, key), Below(b, key));
    }
  }

  lemma {:induction false} AboveOfHigh(es: seq<Entry>, key: int)
    requires AllAbove(es, key)
    ensures Above(es, key) == es && Below(es, key) == []
  {
    if es != [] {
      AboveOfHigh(es[1..], key);
    }
  }

  lemma {:induction false} AboveOfLow(es: seq<Entry>, key: int)
    requires forall i | 0 <= i < |es| :: es[i].key <= key
    ensures Above(es, key) == []
  {
    if es != [] {
      AboveOfLow(es[1..], key);
    }
  }

  lemma {:induction false} BelowOfLow(es: seq<Entry>, key: int)
    requires AllBelow(es, key)
    ensures Below(es, key) == es && Above(es, key) == []
  {
    if es != [] {
      BelowOfLow(es[1..], key);
    }
  }

  lemma {:induction false} BelowOfHigh(es: seq<Entry>, key: int)
    requires forall i | 0 <= i < |es| :: key <= es[i].key
    ensures Below(es, key) == []
  {
    if es != [] {
      BelowOfHigh(es[1..], key);
    }
  }

  lemma {:induction false} BelowIsPrefix(es: seq<Entry>, key: int, p: nat)
    requires p == Position(es, key) && Sorted(es)
    ensures Below(es, key) == es[..p]
  {
    var l, r := es[..p], es[p..];
    assert forall i | 0 <= i < |r| :: key <= r[i].key;
    assert AllBelow(l, key);
    hide *;
    assert es == l + r;
    BelowConcat(l, r, key);
    BelowOfLow(l, key);
    BelowOfHigh(r, key);
  }

  lemma {:induction false} AboveIsSuffix(es: seq<Entry>, key: int, q: nat)
    requires Sorted(es) && q <= |es|
    requires forall i | 0 <= i < q :: es[i].key <= key
    requires q < |es| ==> key < es[q].key
    ensures Above(es, key) == es[q..]
  {
    var l, r := es[..q], es[q..];
    assert AllAbove(r, key);
    hide *;
    assert es == l + r;
    AboveConcat(l, r, key);
    AboveOfLow(l, key);
    AboveOfHigh(r, key);
  }

  /** On a sorted list the two ranges are a prefix and a suffix. */
  lemma {:induction false} RangesAreSlices(es: seq<Entry>, key: int)
    requires Sorted(es)
    ensures var p := Position(es, key);
            Below(es, key) == es[..p] &&
            Above(es, key) == es[if p < |es| && es[p].key == key then p + 1 else p..]
  {
    var p := Position(es, key);
    BelowIsPrefix(es, key, p);
    AboveIsSuffix(es, key, if p < |es| && es[p].key == key then p + 1 else p);
  }

  /** Below the key, at the key and above the key together are the whole list. */
  lemma {:induction false} RangesPartition(es: seq<Entry>, key: int)
    requires Sorted(es)
    ensures es == Below(es, key)
                  + (match Lookup(es, key) case Some(o) => [Entry(key, o)] case None => [])
                  + Above(es, key)
  {
    RangesAreSlices(es, key);
    var p := Position(es, key);
    if p < |es| && es[p].key == key {
      assert es == es[..p] + [es[p]] + es[p + 1..];
    }
  }

  /** Two sorted lists with the same members are the same list. */
  lemma {:induction false} SortedUnique(a: seq<Entry>, b: seq<Entry>)
    requires Sorted(a) && Sorted(b)
    requires forall e :: e in a <==> e in b
    ensures a == b
  {
    assert |a| > 0 <==> |b| > 0 by {
      if |a| > 0 { assert a[0] in a; }
      if |b| > 0 { assert b[0] in b; }
    }
    if a != [] {
      assert a[0] in b && b[0] in a;
      assert a[0] == b[0];
      forall e
        ensures e in a[1..] <==> e in b[1..]
      {
        if e in a[1..] {
          assert e in a && e != a[0];
          assert e in b;
        }
        if e in b[1..] {
          assert e in b && e != b[0];
          assert e in a;
        }
      }
      SortedUnique(a[1..], b[1..]);
    }
  }
}
