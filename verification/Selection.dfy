/** WHERE conditions, the rows a linear scan selects, the rows an index lookup fetches,
    and why the two agree. */
module Selection {
  import opened Wrappers
  import opened SortedEntries
  import opened Schemas
  import opened Sql
  import opened TableFile
  import opened RowIndex
  import opened Numbers

  /** The rows shown, as values, and whether the statement came to its end. */
  datatype Output = Output(rows: seq<seq<string>>, ok: bool)

  /** Whether a stored value meets a condition; none when they cannot be compared. */
  function Matches(dataType: DataType, value: string, operator: Operator, literal: Literal): Option<bool> {
    if dataType.StringType? then
      match operator
      case Equal => Some(value == literal.text)
      case NotEqual => Some(value != literal.text)
      case _ => None
    else if !literal.literalType.IntLiteral? then None
    else if ParseInt(value).None? || ParseInt(literal.text).None? then None
    else
      var row, target := ParseInt(value).value, ParseInt(literal.text).value;
      match operator
      case Equal => Some(row == target)
      case Greater => Some(row > target)
      case Less => Some(row < target)
      case NotEqual => Some(row != target)
  }

  /** Where the condition is to be looked up: a column and its type. */
  datatype Test = Test(column: nat, dataType: DataType, operator: Operator, literal: Literal)

  function Meets(row: Row, test: Test): Option<bool> {
    if test.column < |row.values| then Matches(test.dataType, row.values[test.column], test.operator, test.literal)
    else None
  }

  /** The linear scan: the matching rows up to the first row that cannot be compared. */
  function Filtered(scan: Scan, test: Test): Scan
    decreases |scan.rows|
  {
    if scan.rows == [] then scan
    else
      match Meets(scan.rows[0], test)
      case None => Scan([], false)
      case Some(meets) =>
        var rest := Filtered(Scan(scan.rows[1..], scan.complete), test);
        Scan((if meets then [scan.rows[0]] else []) + rest.rows, rest.complete)
  }

  function Values(rows: seq<Row>): seq<seq<string>> {
    if rows == [] then [] else [rows[0].values] + Values(rows[1..])
  }

  /** Reading a row at each offset in turn, up to the first that cannot be read. */
  function Fetched(file: string, offsets: seq<int>, width: nat): Output {
    if offsets == [] then Output([], true)
    else if !(0 <= offsets[0] < |file|) then Output([], false)
    else
      match ReadRow(file, offsets[0], width)
      case None => Output([], false)
      case Some(values) =>
        var rest := Fetched(file, offsets[1..], width);
        Output([values] + rest.rows, rest.ok)
  }

  function Offsets(es: seq<Entry>): (offsets: seq<int>)
    ensures |offsets| == |es|
  {
    seq(|es|, i requires 0 <= i < |es| => es[i].offset)
  }

  // ---------- Filtering ----------

  ghost predicate Comparable(rows: seq<Row>, test: Test) {
    forall r | r in rows :: Meets(r, test).Some?
  }

  /** The rows that meet the condition, in file order. */
  ghost function Meeting(rows: seq<Row>, test: Test): seq<Row> {
    if rows == [] then []
    else
      var n := |rows| - 1;
      Meeting(rows[..n], test) + if Meets(rows[n], test) == Some(true) then [rows[n]] else []
  }

  lemma {:induction false} MeetingFirst(rows: seq<Row>, test: Test)
    requires rows != []
    ensures Meeting(rows, test)
            == (if Meets(rows[0], test) == Some(true) then [rows[0]] else []) + Meeting(rows[1..], test)
  {
    var n := |rows| - 1;
    if n > 0 {
      var front := rows[..n];
      MeetingFirst(front, test);
      assert front[1..] == rows[1..][..n - 1];
      var h := if Meets(rows[0], test) == Some(true) then [rows[0]] else [];
      var l := if Meets(rows[n], test) == Some(true) then [rows[n]] else [];
      assert Meeting(rows, test) == h + Meeting(front[1..], test) + l;
      assert Meeting(rows[1..], test) == Meeting(front[1..], test) + l;
      hide *;
      ConcatAssoc(h, Meeting(front[1..], test), l);
    }
  }

  /** When every row can be compared, the scan shows exactly the rows that meet the condition. */
  lemma {:induction false} FilteredIsMeeting(scan: Scan, test: Test)
    requires Comparable(scan.rows, test)
    ensures Filtered(scan, test) == Scan(Meeting(scan.rows, test), scan.complete)
    decreases |scan.rows|
  {
    if scan.rows != [] {
      assert scan.rows[0] in scan.rows;
      FilteredIsMeeting(Scan(scan.rows[1..], scan.complete), test);
      MeetingFirst(scan.rows, test);
    }
  }

  // ---------- Fetching ----------

  /** Every entry leads to a readable row whose id is its key. */
  ghost predicate Leads(es: seq<Entry>, file: string, pk: nat, width: nat) {
    forall e | e in es ::
      && 0 <= e.offset < |file|
      && ReadRow(file, e.offset, width).Some?
      && Id(Row(e.offset, ReadRow(file, e.offset, width).value), pk) == Some(e.key)
  }

  ghost function At(file: string, e: Entry, width: nat): seq<string> {
    if 0 <= e.offset < |file| && ReadRow(file, e.offset, width).Some? then ReadRow(file, e.offset, width).value else []
  }

  ghost function AllAt(file: string, es: seq<Entry>, width: nat): (vs: seq<seq<string>>)
    ensures |vs| == |es| && forall i | 0 <= i < |es| :: vs[i] == At(file, es[i], width)
  {
    seq(|es|, i requires 0 <= i < |es| => At(file, es[i], width))
  }

  lemma {:induction false} FetchedIsAllAt(file: string, es: seq<Entry>, pk: nat, width: nat)
    requires Leads(es, file, pk, width)
    ensures Fetched(file, Offsets(es), width) == Output(AllAt(file, es, width), true)
  {
    assert es == [] ==> Fetched(file, Offsets(es), width) == Output([], true);
    if es != [] {
      FetchedFirst(file, es, pk, width);
      hide *;
      FetchedIsAllAt(file, es[1..], pk, width);
      AllAtFirst(file, es, width);
    }
  }

  lemma FetchedFirst(file: string, es: seq<Entry>, pk: nat, width: nat)
    requires Leads(es, file, pk, width) && es != []
    ensures Leads(es[1..], file, pk, width)
    ensures var rest := Fetched(file, Offsets(es[1..]), width);
            Fetched(file, Offsets(es), width) == Output([At(file, es[0], width)] + rest.rows, rest.ok)
  {
    assert es[0] in es;
    assert Offsets(es)[1..] == Offsets(es[1..]);
    hide ReadRow, Id;
  }

  lemma AllAtFirst(file: string, es: seq<Entry>, width: nat)
    requires es != []
    ensures AllAt(file, es, width) == [At(file, es[0], width)] + AllAt(file, es[1..], width)
  {
    hide At;
  }

  /** The index of rows that stand in the file leads to them. */
  lemma {:induction false} IndexLeads(es: seq<Entry>, rows: seq<Row>, file: string, pk: nat, width: nat)
    requires Describes(es, rows, pk)
    requires forall r | r in rows :: r.offset < |file| && ReadRow(file, r.offset, width) == Some(r.values)
    ensures Leads(es, file, pk, width)
  {
    hide ReadRow;
    forall e | e in es
      ensures 0 <= e.offset < |file| && ReadRow(file, e.offset, width).Some?
      ensures Id(Row(e.offset, ReadRow(file, e.offset, width).value), pk) == Some(e.key)
    {
      var r :| r in rows && Id(r, pk) == Some(e.key) && r.offset == e.offset;
      assert r == Row(e.offset, ReadRow(file, e.offset, width).value);
    }
  }

  // ---------- The range of an index against the scan ----------

  /** The part of an index that a comparison with `target` asks for. */
  function Range(es: seq<Entry>, operator: Operator, target: int): seq<Entry> {
    match operator
    case Equal => (match Lookup(es, target) case Some(o) => [Entry(target, o)] case None => [])
    case Greater => Above(es, target)
    case Less => Below(es, target)
    case NotEqual => []
  }

  ghost predicate InRangeOf(key: int, operator: Operator, target: int) {
    match operator
    case Equal => key == target
    case Greater => key > target
    case Less => key < target
    case NotEqual => key != target
  }

  lemma {:induction false} AboveKeys(es: seq<Entry>, key: int)
    ensures forall e | e in Above(es, key) :: e in es && e.key > key
  {
    if es != [] {
      AboveKeys(es[1..], key);
    }
  }

  lemma {:induction false} BelowKeys(es: seq<Entry>, key: int)
    ensures forall e | e in Below(es, key) :: e in es && e.key < key
  {
    if es != [] {
      BelowKeys(es[1..], key);
    }
  }

  /** A range of an index is a sorted list of entries of the index. */
  lemma {:induction false} RangeIsPart(es: seq<Entry>, operator: Operator, target: int)
    requires Sorted(es)
    ensures Sorted(Range(es, operator, target)) && forall e | e in Range(es, operator, target) :: e in es
  {
    match operator
    case Equal =>
      var p := Position(es, target);
      assert p < |es| ==> es[p] in es;
    case Greater =>
      RangesAreSlices(es, target);
      AboveKeys(es, target);
      var p := Position(es, target);
      SliceSorted(es, if p < |es| && es[p].key == target then p + 1 else p, |es|);
    case Less =>
      RangesAreSlices(es, target);
      BelowKeys(es, target);
      SliceSorted(es, 0, Position(es, target));
    case NotEqual =>
  }

  lemma SliceSorted(es: seq<Entry>, lo: nat, hi: nat)
    requires Sorted(es) && lo <= hi <= |es|
    ensures Sorted(es[lo..hi]) && (lo == 0 ==> Sorted(es[..hi])) && (hi == |es| ==> Sorted(es[lo..]))
  {
  }

  lemma {:induction false} AboveInserted(l: seq<Entry>, e: Entry, r: seq<Entry>, target: int)
    ensures Above(l + r, target) == Above(l, target) + Above(r, target)
    ensures Above(l + [e] + r, target)
            == (if e.key > target then Above(l, target) + [e] + Above(r, target)
                else Above(l, target) + Above(r, target))
  {
    AboveOne(e.key, e.offset, target);
    hide Above;
    AboveConcat(l, r, target);
    AboveConcat(l + [e], r, target);
    AboveConcat(l, [e], target);
    assert Above(l, target) + [] == Above(l, target);
  }

  lemma {:induction false} BelowInserted(l: seq<Entry>, e: Entry, r: seq<Entry>, target: int)
    ensures Below(l + r, target) == Below(l, target) + Below(r, target)
    ensures Below(l + [e] + r, target)
            == (if e.key < target then Below(l, target) + [e] + Below(r, target)
                else Below(l, target) + Below(r, target))
  {
    AboveOne(e.key, e.offset, target);
    hide Below;
    BelowConcat(l, r, target);
    BelowConcat(l + [e], r, target);
    BelowConcat(l, [e], target);
    assert Below(l, target) + [] == Below(l, target);
  }

  /** `range` became `more` by the insertion of `e`, if `e` belongs there. */
  ghost predicate Grew(range: seq<Entry>, more: seq<Entry>, a: seq<Entry>, e: Entry, b: seq<Entry>, belongs: bool) {
    range == a + b && more == if belongs then a + [e] + b else a + b
  }

  /** Inserting an entry puts it into a range exactly when its key is in the range. */
  lemma {:induction false} RangeInserted(es: seq<Entry>, key: int, offset: int, operator: Operator, target: int)
    returns (a: seq<Entry>, b: seq<Entry>)
    requires Sorted(es) && !Holds(es, key) && !operator.NotEqual?
    ensures Grew(Range(es, operator, target), Range(Inserted(es, key, offset), operator, target),
                 a, Entry(key, offset), b, InRangeOf(key, operator, target))
  {
    var p := Position(es, key);
    var l, e, r := es[..p], Entry(key, offset), es[p..];
    assert es == l + r && Inserted(es, key, offset) == l + [e] + r;
    hide *;
    match operator
    case Equal =>
      a, b := if key == target then [] else Range(es, operator, target), [];
      EqualGrew(es, key, offset, target);
    case Greater =>
      a, b := Above(l, target), Above(r, target);
      AboveInserted(l, e, r, target);
      RangeMeans(es, key, operator, target);
      RangeMeans(l + [e] + r, key, operator, target);
      Grown(Above(es, target), Above(l + [e] + r, target), a, e, b, key > target);
    case Less =>
      a, b := Below(l, target), Below(r, target);
      BelowInserted(l, e, r, target);
      RangeMeans(es, key, operator, target);
      RangeMeans(l + [e] + r, key, operator, target);
      Grown(Below(es, target), Below(l + [e] + r, target), a, e, b, key < target);
  }

  lemma EqualGrew(es: seq<Entry>, key: int, offset: int, target: int)
    requires Sorted(es) && !Holds(es, key)
    ensures var range := Range(es, Equal, target);
            Grew(range, Range(Inserted(es, key, offset), Equal, target),
                 if key == target then [] else range, Entry(key, offset), [],
                 InRangeOf(key, Equal, target))
  {
    HoldsIsMember(es, key);
    EqualInserted(es, key, offset, target);
    hide Inserted, Lookup, Holds, Sorted;
    var range := Range(es, Equal, target);
    assert range + [] == range;
    assert [] + [Entry(key, offset)] + [] == [Entry(key, offset)];
  }

  lemma RangeMeans(es: seq<Entry>, key: int, operator: Operator, target: int)
    ensures operator.Greater? ==>
              Range(es, operator, target) == Above(es, target) && InRangeOf(key, operator, target) == (key > target)
    ensures operator.Less? ==>
              Range(es, operator, target) == Below(es, target) && InRangeOf(key, operator, target) == (key < target)
  {
  }

  lemma Grown(range: seq<Entry>, more: seq<Entry>, a: seq<Entry>, e: Entry, b: seq<Entry>, belongs: bool)
    requires range == a + b && more == if belongs then a + [e] + b else a + b
    ensures Grew(range, more, a, e, b, belongs)
  {
  }

  lemma AboveOne(key: int, offset: int, target: int)
    ensures var e := [Entry(key, offset)];
            Above(e, target) == (if key > target then e else []) && Below(e, target) == if key < target then e else []
  {
    var e := [Entry(key, offset)];
    assert Above(e[1..], target) == [] && Below(e[1..], target) == [];
  }

  lemma {:induction false} EqualInserted(es: seq<Entry>, key: int, offset: int, target: int)
    requires Sorted(es) && !HasKey(es, key)
    ensures Lookup(Inserted(es, key, offset), target) == if key == target then Some(offset) else Lookup(es, target)
    ensures key == target ==> Lookup(es, target) == None
  {
    hide Inserted, Lookup, Contents, HasKey, Sorted;
    InsertedContents(es, key, offset);
    HasKeyContents(es, key);
    LookupContents(es, target);
    LookupContents(Inserted(es, key, offset), target);
  }

  lemma {:induction false} ValuesConcat(a: seq<Row>, b: seq<Row>)
    ensures Values(a + b) == Values(a) + Values(b)
  {
    if a == [] {
      assert a + b == b;
    } else {
      var rest, c := a[1..], a + b;
      ValuesConcat(rest, b);
      assert c[0] == a[0] && c[1..] == rest + b;
      ConcatAssoc([a[0].values], Values(rest), Values(b));
    }
  }

  /** One more row on either side of the comparison. */
  lemma {:induction false} OneMoreFetched(file: string, a: seq<Entry>, e: Entry, b: seq<Entry>, width: nat)
    ensures multiset(AllAt(file, a + [e] + b, width))
            == multiset(AllAt(file, a + b, width)) + multiset([At(file, e, width)])
  {
    hide At;
    assert AllAt(file, a + [e] + b, width) == AllAt(file, a, width) + [At(file, e, width)] + AllAt(file, b, width);
    assert AllAt(file, a + b, width) == AllAt(file, a, width) + AllAt(file, b, width);
  }

  /** A condition on the primary key is a condition on the id. */
  lemma IdTest(row: Row, pk: nat, test: Test, target: int)
    requires test.column == pk && test.dataType.IntType? && test.literal.literalType.IntLiteral?
    requires ParseInt(test.literal.text) == Some(target)
    ensures Meets(row, test)
            == if Id(row, pk).None? then None else Some(InRangeOf(Id(row, pk).value, test.operator, target))
  {
  }

  ghost predicate OnPrimaryKey(test: Test, pk: nat, target: int) {
    && test.column == pk && test.dataType.IntType? && test.literal.literalType.IntLiteral?
    && ParseInt(test.literal.text) == Some(target)
    && !test.operator.NotEqual?
  }

  ghost predicate StandsIn(rows: seq<Row>, file: string, width: nat) {
    forall r | r in rows :: r.offset < |file| && ReadRow(file, r.offset, width) == Some(r.values)
  }

  /** The index range and the scan find the same rows, each as often. */
  lemma {:induction false} RangeFindsTheSame(rows: seq<Row>, file: string, pk: nat, width: nat, test: Test, target: int)
    requires Indexed(rows, pk).Some? && StandsIn(rows, file, width) && OnPrimaryKey(test, pk, target)
    ensures multiset(AllAt(file, Range(Indexed(rows, pk).value, test.operator, target), width))
            == multiset(Values(Meeting(rows, test)))
  {
    if rows == [] {
      assert Range([], test.operator, target) == [];
    } else {
      var n := |rows| - 1;
      var front, last := rows[..n], rows[n];
      assert rows == front + [last] && last in rows;
      assert StandsIn(front, file, width) && StandsIn([last], file, width);
      hide *;
      IndexedStep(front, last, pk);
      HasIndex(Indexed(front, pk), last, pk);
      RangeFindsTheSame(front, file, pk, width, test, target);
      IndexedDescribes(front, pk);
      OneMoreFound(Indexed(front, pk).value, front, last, file, pk, width, test, target);
    }
  }

  lemma HasIndex(index: Option<seq<Entry>>, row: Row, pk: nat)
    requires AndEntry(index, row, pk).Some?
    ensures index.Some? && Id(row, pk).Some? && !Holds(index.value, Id(row, pk).value)
    ensures AndEntry(index, row, pk) == Some(Inserted(index.value, Id(row, pk).value, row.offset))
  {
  }

  lemma MeetingLast(rows: seq<Row>, last: Row, test: Test)
    ensures Values(Meeting(rows + [last], test))
            == Values(Meeting(rows, test)) + if Meets(last, test) == Some(true) then [last.values] else []
  {
    var rs := Meeting(rows, test);
    assert (rows + [last])[..|rows|] == rows;
    assert Values([last]) == [last.values] + Values([]);
    hide Meets, Values;
    assert rs + [] == rs && Values(rs) + [] == Values(rs);
    ValuesConcat(rs, [last]);
  }

  lemma {:induction false} OneMoreFound(es: seq<Entry>, rows: seq<Row>, last: Row, file: string, pk: nat,
                                        width: nat, test: Test, target: int)
    requires Describes(es, rows, pk) && Id(last, pk).Some? && !Holds(es, Id(last, pk).value)
    requires StandsIn([last], file, width) && OnPrimaryKey(test, pk, target)
    requires multiset(AllAt(file, Range(es, test.operator, target), width)) == multiset(Values(Meeting(rows, test)))
    ensures multiset(AllAt(file, Range(Inserted(es, Id(last, pk).value, last.offset), test.operator, target), width))
         == multiset(Values(Meeting(rows + [last], test)))
  {
    var id := Id(last, pk).value;
    var e := Entry(id, last.offset);
    assert last in [last];
    assert At(file, e, width) == last.values;
    IdTest(last, pk, test, target);
    assert Sorted(es) && !test.operator.NotEqual?;
    hide *;
    assert multiset(AllAt(file, Range(es, test.operator, target), width)) == multiset(Values(Meeting(rows, test)));
    var a, b := RangeInserted(es, id, last.offset, test.operator, target);
    OneMoreFetched(file, a, e, b, width);
    MeetingLast(rows, last, test);
    SameBag(file, Range(es, test.operator, target), Range(Inserted(es, id, last.offset), test.operator, target),
            a, e, b,
            InRangeOf(id, test.operator, target), width, Values(Meeting(rows, test)));
  }

  lemma SameBag(file: string, range: seq<Entry>, more: seq<Entry>, a: seq<Entry>, e: Entry, b: seq<Entry>,
                belongs: bool, width: nat, vs: seq<seq<string>>)
    requires Grew(range, more, a, e, b, belongs) && multiset(AllAt(file, range, width)) == multiset(vs)
    requires multiset(AllAt(file, a + [e] + b, width))
             == multiset(AllAt(file, a + b, width)) + multiset([At(file, e, width)])
    ensures multiset(AllAt(file, more, width)) == multiset(vs + if belongs then [At(file, e, width)] else [])
  {
    hide AllAt, At;
    assert vs + [] == vs;
  }

  lemma SingletonBag<E>(s: seq<E>, t: seq<E>)
    requires multiset(s) == multiset(t) && |s| <= 1
    ensures s == t
  {
    assert |multiset(s)| == |s| && |multiset(t)| == |t|;
    if |s| == 1 {
      assert s[0] in multiset(s);
      assert s[0] in multiset(t);
      assert s[0] in t;
    }
  }

  /** The ids of the rows shown increase. */
  ghost predicate IdsIncrease(rows: seq<seq<string>>, pk: nat) {
    forall i, j | 0 <= i < j < |rows| ::
      && pk < |rows[i]| && pk < |rows[j]|
      && ParseInt(rows[i][pk]).Some? && ParseInt(rows[j][pk]).Some?
      && ParseInt(rows[i][pk]).value < ParseInt(rows[j][pk]).value
  }

  lemma {:induction false} FetchedInOrder(file: string, es: seq<Entry>, pk: nat, width: nat)
    requires Leads(es, file, pk, width) && Sorted(es)
    ensures IdsIncrease(AllAt(file, es, width), pk)
  {
    var vs := AllAt(file, es, width);
    forall i | 0 <= i < |es|
      ensures pk < |vs[i]| && ParseInt(vs[i][pk]) == Some(es[i].key)
    {
      assert es[i] in es;
      assert Id(Row(es[i].offset, vs[i]), pk) == Some(es[i].key);
    }
    hide ParseInt, ReadRow;
  }

  /** Looking ids up in the index shows what the linear scan shows: the same list for
      `=`, and for `>` and `<` the same rows in ascending id order. */
  lemma {:induction false} IndexRefinesScan(file: string, schema: Schema, pk: nat, test: Test, target: int)
    requires OnPrimaryKey(test, pk, target)
    requires TableRows(Some(file), schema).complete && Indexed(TableRows(Some(file), schema).rows, pk).Some?
    ensures var scan, width := TableRows(Some(file), schema), |schema.columns|;
            var fetched := Fetched(file, Offsets(Range(Indexed(scan.rows, pk).value, test.operator, target)), width);
            var filtered := Filtered(scan, test);
            && fetched.ok && filtered.complete
            && multiset(fetched.rows) == multiset(Values(filtered.rows))
            && (test.operator.Equal? ==> fetched.rows == Values(filtered.rows))
            && IdsIncrease(fetched.rows, pk)
  {
    var scan, width := TableRows(Some(file), schema), |schema.columns|;
    var rows := scan.rows;
    var es := Indexed(rows, pk).value;
    TableRowsAreAtTheirOffsets(file, schema);
    assert StandsIn(rows, file, width);
    forall r | r in rows
      ensures Meets(r, test).Some?
    {
      IndexedDescribes(rows, pk);
      IdTest(r, pk, test, target);
    }
    assert Comparable(rows, test);
    assert test.operator.Equal? ==> |Range(es, test.operator, target)| <= 1;
    hide *;
    IndexedDescribes(rows, pk);
    RangeFindsTheSame(rows, file, pk, width, test, target);
    FilteredIsMeeting(scan, test);
    LeadsInRange(es, rows, file, pk, width, test.operator, target);
    var range := Range(es, test.operator, target);
    FetchedIsAllAt(file, range, pk, width);
    FetchedInOrder(file, range, pk, width);
    if test.operator.Equal? {
      SingletonBag(AllAt(file, range, width), Values(Meeting(rows, test)));
    }
  }

  lemma {:induction false} LeadsInRange(es: seq<Entry>, rows: seq<Row>, file: string, pk: nat, width: nat,
                                        operator: Operator, target: int)
    requires Describes(es, rows, pk) && StandsIn(rows, file, width)
    ensures Leads(Range(es, operator, target), file, pk, width) && Sorted(Range(es, operator, target))
  {
    IndexLeads(es, rows, file, pk, width);
    RangeIsPart(es, operator, target);
    hide Range, Id, ReadRow;
  }
}
