/** What the rows of a table say about its primary key: the index they give, the largest
    id, whether an id occurs, and which rows a WHERE condition selects. */
module RowIndex {
  import opened Wrappers
  import opened SortedEntries
  import opened TableFile
  import opened Numbers

  function Id(row: Row, pk: nat): Option<int> {
    if pk < |row.values| then ParseInt(row.values[pk]) else None
  }

  // ---------- The index of a list of rows ----------

  predicate Holds(es: seq<Entry>, key: int) {
    Lookup(es, key).Some?
  }

  /** The entries an index holds after the rows were added one by one; none when a row has
      no id or an id occurs twice. */
  function Indexed(rows: seq<Row>, pk: nat): Option<seq<Entry>> {
    if rows == [] then Some([])
    else AndEntry(Indexed(rows[..|rows| - 1], pk), rows[|rows| - 1], pk)
  }

  ghost predicate AllHaveIds(rows: seq<Row>, pk: nat) {
    forall r | r in rows :: Id(r, pk).Some?
  }

  ghost predicate IdsDistinct(rows: seq<Row>, pk: nat) {
    forall i, j | 0 <= i < j < |rows| :: Id(rows[i], pk) != Id(rows[j], pk)
  }

  /** Every entry is a row with its id and the offset of its line, and the other way round. */
  ghost predicate Describes(es: seq<Entry>, rows: seq<Row>, pk: nat) {
    && Sorted(es) && |es| == |rows|
    && (forall r | r in rows :: Id(r, pk).Some? && Entry(Id(r, pk).value, r.offset) in es)
    && (forall e | e in es :: exists r | r in rows :: Id(r, pk) == Some(e.key) && r.offset == e.offset)
  }

  lemma {:induction false} HoldsIsMember(es: seq<Entry>, key: int)
    requires Sorted(es)
    ensures Holds(es, key) <==> HasKey(es, key)
    ensures HasKey(es, key) <==> exists e | e in es :: e.key == key
  {
    LookupContents(es, key);
    if HasKey(es, key) {
      var i :| 0 <= i < |es| && es[i].key == key;
      assert es[i] in es;
    }
  }

  /** One more row. */
  function AndEntry(index: Option<seq<Entry>>, row: Row, pk: nat): Option<seq<Entry>> {
    if index.None? || Id(row, pk).None? || Holds(index.value, Id(row, pk).value) then None
    else Some(Inserted(index.value, Id(row, pk).value, row.offset))
  }

  lemma IndexedStep(rows: seq<Row>, row: Row, pk: nat)
    ensures Indexed(rows + [row], pk) == AndEntry(Indexed(rows, pk), row, pk)
  {
    assert (rows + [row])[..|rows|] == rows;
  }

  /** The index of the rows is exactly the map from ids to line offsets. */
  lemma {:induction false} IndexedDescribes(rows: seq<Row>, pk: nat)
    requires Indexed(rows, pk).Some?
    ensures Describes(Indexed(rows, pk).value, rows, pk)
  {
    if rows != [] {
      var n := |rows| - 1;
      var front, last := rows[..n], rows[n];
      assert rows == front + [last];
      hide Describes, Indexed, Id, Holds, Inserted;
      IndexedStep(front, last, pk);
      IndexedDescribes(front, pk);
      DescribesMore(Indexed(front, pk).value, front, last, pk);
    }
  }

  lemma {:induction false} DescribesMore(es: seq<Entry>, rows: seq<Row>, last: Row, pk: nat)
    requires Describes(es, rows, pk) && Id(last, pk).Some? && !Holds(es, Id(last, pk).value)
    ensures Describes(Inserted(es, Id(last, pk).value, last.offset), rows + [last], pk)
  {
    var id := Id(last, pk).value;
    var more, all := Inserted(es, id, last.offset), rows + [last];
    HoldsIsMember(es, id);
    InsertedSorted(es, id, last.offset);
    InsertedAt(es, id, last.offset);
    hide Id, Inserted, Holds, Sorted;
    forall r | r in all
      ensures Id(r, pk).Some? && Entry(Id(r, pk).value, r.offset) in more
    {
      InsertedMember(es, id, last.offset, Entry(Id(r, pk).value, r.offset));
    }
    forall e | e in more
      ensures exists r | r in all :: Id(r, pk) == Some(e.key) && r.offset == e.offset
    {
      InsertedMember(es, id, last.offset, e);
      if e in es {
        var r :| r in rows && Id(r, pk) == Some(e.key) && r.offset == e.offset;
        assert r in all;
      } else {
        assert last in all;
      }
    }
  }

  /** There is an index exactly when every row has an id and no two rows share one. */
  lemma {:induction false} IndexedExactly(rows: seq<Row>, pk: nat)
    ensures Indexed(rows, pk).Some? <==> AllHaveIds(rows, pk) && IdsDistinct(rows, pk)
  {
    if rows != [] {
      var n := |rows| - 1;
      var front, last := rows[..n], rows[n];
      IndexedExactly(front, pk);
      assert rows == front + [last];
      if Indexed(front, pk).Some? && Id(last, pk).Some? {
        var es, id := Indexed(front, pk).value, Id(last, pk).value;
        IndexedDescribes(front, pk);
        HoldsIsMember(es, id);
        FrontHolds(es, front, pk, id);
      } else if Id(last, pk).None? {
        assert last in rows;
      }
      hide Id, Holds;
    }
  }

  lemma FrontHolds(es: seq<Entry>, rows: seq<Row>, pk: nat, id: int)
    requires Describes(es, rows, pk)
    ensures HasKey(es, id) <==> exists i | 0 <= i < |rows| :: Id(rows[i], pk) == Some(id)
  {
    HoldsIsMember(es, id);
    hide Id;
    if HasKey(es, id) {
      var e :| e in es && e.key == id;
      var r :| r in rows && Id(r, pk) == Some(e.key);
      var i :| 0 <= i < |rows| && rows[i] == r;
    }
    if i :| 0 <= i < |rows| && Id(rows[i], pk) == Some(id) {
      assert rows[i] in rows;
      assert Entry(id, rows[i].offset) in es;
    }
  }

  /** Once the rows so far have no index, further rows do not bring one back. */
  lemma {:induction false} NoIndexLater(rows: seq<Row>, n: nat, pk: nat)
    requires n <= |rows| && Indexed(rows[..n], pk).None?
    ensures Indexed(rows, pk).None?
    decreases |rows| - n
  {
    if n < |rows| {
      assert rows[..n + 1] == rows[..n] + [rows[n]];
      IndexedStep(rows[..n], rows[n], pk);
      NoIndexLater(rows, n + 1, pk);
    } else {
      assert rows[..n] == rows;
    }
  }

  // ---------- The largest id ----------

  /** 0 for no entries at all. */
  function MaxKey(es: seq<Entry>): int {
    if es == [] then 0 else es[|es| - 1].key
  }

  lemma {:induction false} MaxKeyInserted(es: seq<Entry>, key: int, offset: int)
    requires Sorted(es) && !HasKey(es, key)
    ensures MaxKey(Inserted(es, key, offset)) == if es == [] || key > MaxKey(es) then key else MaxKey(es)
  {
    InsertedAt(es, key, offset);
    var p := Position(es, key);
    assert p < |es| ==> es[p].key != key;
    hide Inserted, Position, HasKey;
  }

  /** The largest id of the rows, 0 if there are none; none when a row has no id. */
  function MaxId(rows: seq<Row>, pk: nat): Option<int> {
    if rows == [] then Some(0)
    else
      var front, last := rows[..|rows| - 1], rows[|rows| - 1];
      if MaxId(front, pk).None? || Id(last, pk).None? then None
      else if front == [] || Id(last, pk).value > MaxId(front, pk).value then Id(last, pk)
      else MaxId(front, pk)
  }

  lemma MaxIdStep(rows: seq<Row>, row: Row, pk: nat)
    ensures MaxId(rows + [row], pk)
         == if MaxId(rows, pk).None? || Id(row, pk).None? then None
            else if rows == [] || Id(row, pk).value > MaxId(rows, pk).value then Id(row, pk)
            else MaxId(rows, pk)
  {
    assert (rows + [row])[..|rows|] == rows;
  }

  lemma {:induction false} NoMaxLater(rows: seq<Row>, n: nat, pk: nat)
    requires n <= |rows| && MaxId(rows[..n], pk).None?
    ensures MaxId(rows, pk).None?
    decreases |rows| - n
  {
    if n < |rows| {
      assert rows[..n + 1] == rows[..n] + [rows[n]];
      MaxIdStep(rows[..n], rows[n], pk);
      NoMaxLater(rows, n + 1, pk);
    } else {
      assert rows[..n] == rows;
    }
  }

  /** It is what it says: the maximum over all rows. */
  lemma {:induction false} MaxIdIsMaximum(rows: seq<Row>, pk: nat)
    requires MaxId(rows, pk).Some?
    ensures AllHaveIds(rows, pk) && forall r | r in rows :: Id(r, pk).value <= MaxId(rows, pk).value
    ensures rows != [] ==> exists r | r in rows :: Id(r, pk) == MaxId(rows, pk)
  {
    if rows != [] {
      var front, last := rows[..|rows| - 1], rows[|rows| - 1];
      assert rows == front + [last];
      MaxIdIsMaximum(front, pk);
      assert last in rows;
    }
  }

  /** On every table that can be indexed, the linear scan for the largest id finds the
      last key of the index. */
  lemma {:induction false} MaxIdIsMaxKey(rows: seq<Row>, pk: nat)
    requires Indexed(rows, pk).Some?
    ensures MaxId(rows, pk) == Some(MaxKey(Indexed(rows, pk).value))
  {
    if rows != [] {
      var n := |rows| - 1;
      var front, last := rows[..n], rows[n];
      assert rows == front + [last];
      IndexedStep(front, last, pk);
      MaxIdStep(front, last, pk);
      hide Indexed, MaxId, Id, MaxKey, Inserted;
      IndexedDescribes(front, pk);
      var es, id := Indexed(front, pk).value, Id(last, pk).value;
      HoldsIsMember(es, id);
      MaxIdIsMaxKey(front, pk);
      MaxKeyInserted(es, id, last.offset);
    }
  }

  // ---------- Does an id occur ----------

  /** The linear search: stops at the first hit, fails at the first row without an id. */
  function Occurs(scan: Scan, pk: nat, target: int): Option<bool>
    decreases |scan.rows|
  {
    if scan.rows == [] then if scan.complete then Some(false) else None
    else
      match Id(scan.rows[0], pk)
      case None => None
      case Some(id) => if id == target then Some(true) else Occurs(Scan(scan.rows[1..], scan.complete), pk, target)
  }

  lemma {:induction false} OccursIsMembership(scan: Scan, pk: nat, target: int)
    requires scan.complete && AllHaveIds(scan.rows, pk)
    ensures Occurs(scan, pk, target) == Some(exists r | r in scan.rows :: Id(r, pk) == Some(target))
    decreases |scan.rows|
  {
    if scan.rows != [] {
      var rest := scan.rows[1..];
      OccursIsMembership(Scan(rest, true), pk, target);
      assert scan.rows == [scan.rows[0]] + rest;
    }
  }

  /** On every table that can be indexed, the linear search and the index agree. */
  lemma {:induction false} OccursIsLookup(scan: Scan, pk: nat, target: int)
    requires scan.complete && Indexed(scan.rows, pk).Some?
    ensures Occurs(scan, pk, target) == Some(Lookup(Indexed(scan.rows, pk).value, target).Some?)
  {
    var es := Indexed(scan.rows, pk).value;
    IndexedDescribes(scan.rows, pk);
    hide Occurs, Indexed, Id;
    OccursIsMembership(scan, pk, target);
    FrontHolds(es, scan.rows, pk, target);
    HoldsIsMember(es, target);
    if r :| r in scan.rows && Id(r, pk) == Some(target) {
      var i :| 0 <= i < |scan.rows| && scan.rows[i] == r;
      assert Id(scan.rows[i], pk) == Some(target);
    }
  }
}
