/** The run-time states of the tables used so far: a fixed array of slots, each with the
    next automatic id of its table and the table's index. */
module TableStates {
  import opened Wrappers
  import opened Limits
  import opened SortedEntries
  import opened BPlusIndex
  import opened Database
  import opened RowIndex

  datatype Slot = Free | Used(name: string, nextId: int, index: Index)

  /** A slot holds the state `t`, and its index lies inside the footprint. */
  ghost predicate HoldsTable(slot: Slot, t: Table, footprint: set<object>)
    reads footprint
  {
    && slot.Used? && slot.name == t.name && slot.nextId == t.nextId
    && slot.index in footprint && (slot.index.root != null ==> slot.index.root in footprint)
    && slot.index.Repr() <= footprint
    && slot.index.Valid() && slot.index.Entries() == t.entries
  }

  /** The slots hold the states, in order and from the first slot on, and no two of their
      indexes share an object. */
  ghost predicate Holding(slots: seq<Slot>, tables: seq<Table>, footprint: set<object>)
    reads footprint
  {
    && |tables| <= |slots|
    && (forall i | |tables| <= i < |slots| :: slots[i].Free?)
    && (forall i | 0 <= i < |tables| :: HoldsTable(slots[i], tables[i], footprint))
    && (forall i, j | 0 <= i < j < |tables| :: slots[i].index.Repr() !! slots[j].index.Repr())
  }

  /** One more slot. */
  lemma HoldingOneMore(slots: seq<Slot>, tables: seq<Table>, footprint: set<object>, name: string, nextId: int,
                       index: Index, more: set<object>)
    requires Holding(slots, tables, footprint) && |tables| < |slots|
    requires index.Valid() && index.Repr() !! footprint && footprint <= more && index.Repr() <= more
    ensures Holding(slots[|tables| := Used(name, nextId, index)], tables + [Table(name, nextId, index.Entries())], more)
  {
    NowHolds(name, nextId, index, more);
    forall i | 0 <= i < |tables|
      ensures HoldsTable(slots[i], tables[i], more) && slots[i].Used? && slots[i].index.Repr() <= footprint
    {
      HoldsInMore(slots[i], tables[i], footprint, more);
      HoldsMeans(slots[i], tables[i], footprint);
    }
    hide HoldsTable, Index.Valid, Index.Entries, Index.Repr;
  }

  lemma HoldingAt(slots: seq<Slot>, tables: seq<Table>, footprint: set<object>, k: nat)
    requires Holding(slots, tables, footprint) && k < |tables|
    ensures slots[k].Used? && HoldsTable(slots[k], tables[k], footprint)
    ensures slots[k].name == tables[k].name && slots[k].nextId == tables[k].nextId
  {
    hide Index.Valid, Index.Entries;
  }

  lemma HoldsInMore(slot: Slot, t: Table, footprint: set<object>, more: set<object>)
    requires HoldsTable(slot, t, footprint) && footprint <= more
    ensures HoldsTable(slot, t, more)
  {
    hide Index.Valid, Index.Entries;
  }

  lemma NowHolds(name: string, nextId: int, index: Index, footprint: set<object>)
    requires index.Valid() && index.Repr() <= footprint
    ensures HoldsTable(Used(name, nextId, index), Table(name, nextId, index.Entries()), footprint)
  {
    IndexOwnsItself(index);
    hide Index.Valid, Index.Entries;
  }

  lemma IndexOwnsItself(index: Index)
    requires index.Valid()
    ensures index in index.Repr() && (index.root != null ==> index.root in index.Repr())
  {
  }

  class States {
    const slots: array<Slot>

    /** The slots in use as values, in the order they were taken. */
    ghost var tables: seq<Table>

    /** Everything the indexes consist of. */
    ghost var footprint: set<object>

    constructor ()
      ensures Valid() && tables == [] && fresh(Repr())
    {
      slots := new Slot[MAX_TABLES](_ => Free);
      tables := [];
      footprint := {};
    }

    ghost function Repr(): set<object>
      reads this
    {
      {this, slots} + footprint
    }

    ghost predicate Valid()
      reads this, slots, footprint
    {
      && slots.Length == MAX_TABLES
      && this !in footprint && slots !in footprint
      && Holding(slots[..], tables, footprint)
    }

    method FindTableState(name: string) returns (k: Option<nat>)
      requires Valid()
      ensures k == if Find(tables, name) < |tables| then Some(Find(tables, name)) else None
    {
      hide Index.Valid, Index.Entries;
      for i := 0 to MAX_TABLES
        invariant forall j | 0 <= j < i && j < |tables| :: tables[j].name != name
      {
        if slots[i].Used? && slots[i].name == name {
          FindIs(tables, name, i);
          return Some(i);
        }
      }
      k := None;
    }

    method FirstFree() returns (k: Option<nat>)
      requires Valid()
      ensures k == if |tables| < MAX_TABLES then Some(|tables|) else None
    {
      hide HoldsTable;
      for i := 0 to MAX_TABLES
        invariant i <= |tables|
      {
        if i < |tables| {
          HoldingAt(slots[..], tables, footprint, i);
        }
        if slots[i].Free? {
          return Some(i);
        }
      }
      k := None;
    }

    method Occupy(k: nat, name: string, nextId: int, index: Index)
      requires Valid() && k == |tables| < MAX_TABLES
      requires index.Valid() && index.Repr() !! Repr()
      modifies this, slots
      ensures Valid() && tables == old(tables) + [Table(name, nextId, index.Entries())]
      ensures footprint == old(footprint) + index.Repr()
    {
      ghost var more := footprint + index.Repr();
      hide Holding, Index.Valid, Index.Entries, Index.Repr;
      HoldingOneMore(slots[..], tables, footprint, name, nextId, index, more);
      ghost var before := slots[..];
      slots[k] := Used(name, nextId, index);
      assert slots[..] == before[k := Used(name, nextId, index)];
      tables := tables + [Table(name, nextId, index.Entries())];
      footprint := more;
    }

    method NextId(k: nat) returns (nextId: int)
      requires Valid() && k < |tables|
      ensures nextId == tables[k].nextId
    {
      hide Index.Valid, Index.Entries;
      nextId := slots[k].nextId;
    }

    method SearchEntry(k: nat, key: int) returns (r: Option<int>)
      requires Valid() && k < |tables|
      ensures r == Lookup(tables[k].entries, key)
    {
      HoldsMeans(slots[k], tables[k], footprint);
      hide HoldsTable, Index.Valid, Index.Entries, Lookup;
      ghost var visited;
      r, visited := slots[k].index.Search(key);
    }

    /** Calls a visitor on the entries above or below a key of the index of slot `k`. */
    method VisitRange<U>(k: nat, above: bool, key: int, visit: (U, Entry) -> (U, bool), user: U)
      returns (ok: bool, u: U)
      requires Valid() && k < |tables|
      ensures var found := if above then Above(tables[k].entries, key) else Below(tables[k].entries, key);
              (u, ok) == VisitAll(visit, user, found)
    {
      HoldsMeans(slots[k], tables[k], footprint);
      hide HoldsTable, Index.Valid, Index.Entries, VisitAll, Above, Below;
      if above {
        ok, u := slots[k].index.VisitGreaterThan(key, visit, user);
      } else {
        ok, u := slots[k].index.VisitLessThan(key, visit, user);
      }
    }

    method SetNextId(k: nat, nextId: int)
      requires Valid() && k < |tables|
      modifies this`tables, slots
      ensures Valid() && tables == old(tables)[k := old(tables)[k].(nextId := nextId)] && Repr() == old(Repr())
    {
      hide HoldsTable, Index.Valid, Index.Entries, Index.Repr;
      HoldsMeans(slots[k], tables[k], footprint);
      NextIdReplaced(slots[k], tables[k], nextId, footprint);
      tables := tables[k := tables[k].(nextId := nextId)];
      slots[k] := slots[k].(nextId := nextId);
    }

    /** A slot whose index was not touched holds what it held. */
    twostate lemma OtherSlotKept(new i: nat, new more: set<object>)
      requires old(Valid()) && i < |old(tables)| && unchanged(slots) && slots[i].Used?
      requires unchanged(old(slots[i].index.Repr())) && old(footprint) <= more
      ensures HoldsTable(slots[i], old(tables)[i], more) && slots[i].index.Repr() == old(slots[i].index.Repr())
      ensures slots[i].index.Repr() <= old(footprint)
    {
      assert old(HoldsTable(slots[i], tables[i], footprint));
      OtherIndexKept(slots[i].index);
      hide Index.Valid, Index.Entries;
    }

    /** Adds an entry to the index of slot `k`. */
    method InsertEntry(k: nat, key: int, offset: int) returns (ok: bool)
      requires Valid() && k < |tables|
      modifies Repr()
      ensures Valid() && fresh(Repr() - old(Repr())) && slots[k].Used?
      ensures ok <==> !Holds(old(tables)[k].entries, key)
      ensures var t := old(tables)[k];
              tables == if ok then old(tables)[k := t.(entries := Inserted(t.entries, key, offset))] else old(tables)
    {
      hide HoldsTable, Index.Valid, Index.Entries, Index.Repr, Inserted, Holds, HasKey, Sorted;
      HoldsMeans(slots[k], tables[k], footprint);
      var index := slots[k].index;
      index.EntriesAreSorted();
      HoldsIsMember(index.Entries(), key);
      forall i | 0 <= i < |tables| && i != k
        ensures slots[i].Used? && slots[i].index.Repr() !! index.Repr() && slots[i].index.Repr() <= footprint
      {
        HoldsMeans(slots[i], tables[i], footprint);
      }
      ok := index.Insert(key, offset);
      ghost var more := footprint + index.Repr();
      forall i | 0 <= i < |tables| && i != k
        ensures HoldsTable(slots[i], tables[i], more)
        ensures slots[i].index.Repr() == old(slots[i].index.Repr()) <= old(footprint)
      {
        OtherSlotKept(i, more);
      }
      NowHolds(slots[k].name, slots[k].nextId, index, more);
      tables := tables[k := tables[k].(entries := index.Entries())];
      footprint := more;
    }
  }

  lemma NextIdReplaced(slot: Slot, t: Table, nextId: int, footprint: set<object>)
    requires HoldsTable(slot, t, footprint)
    ensures HoldsTable(slot.(nextId := nextId), t.(nextId := nextId), footprint)
  {
    hide Index.Valid, Index.Entries;
  }

  /** An index whose objects did not change is what it was. */
  twostate lemma OtherIndexKept(index: Index)
    requires old(index.Valid()) && unchanged(old(index.Repr()))
    ensures index.Valid() && index.Entries() == old(index.Entries()) && index.Repr() == old(index.Repr())
    ensures index.root == old(index.root)
  {
    assert old(index in index.Repr() && (index.root != null ==> index.root in index.Repr()));
  }

  lemma HoldsMeans(slot: Slot, t: Table, footprint: set<object>)
    requires HoldsTable(slot, t, footprint)
    ensures slot.Used? && slot.name == t.name && slot.nextId == t.nextId
    ensures slot.index.Valid() && slot.index.Repr() <= footprint && slot.index.Entries() == t.entries
  {
  }
}
