/** Table schemas as the schema loader hands them out. */
module Schemas {
  import opened Wrappers
  import opened Limits
  import Csv

  datatype DataType = IntType | StringType

  datatype Column = Column(name: string, dataType: DataType)

  datatype Schema = Schema(table: string, columns: seq<Column>, primaryKey: Option<nat>)

  function Names(schema: Schema): (names: seq<string>)
    ensures |names| == |schema.columns|
  {
    seq(|schema.columns|, i requires 0 <= i < |schema.columns| => schema.columns[i].name)
  }

  /** A column name that the header line can carry: it is written as it is, but read
      back with quote handling. */
  ghost predicate PlainName(name: string) {
    0 < |name| <= MAX_TEXT_LEN && Csv.Clean(name) && !Csv.NeedsQuote(name)
  }

  /** What the loader guarantees, and that no column name holds a quote. */
  ghost predicate WellFormed(schema: Schema) {
    && 1 <= |schema.columns| <= MAX_COLUMNS
    && (forall c | c in schema.columns :: PlainName(c.name))
    && (forall i, j | 0 <= i < j < |schema.columns| :: schema.columns[i].name != schema.columns[j].name)
    && (schema.primaryKey.Some? ==>
          schema.primaryKey.value < |schema.columns| && schema.columns[schema.primaryKey.value].dataType == IntType)
  }

  /** What the loader guarantees. */
  ghost predicate FromLoader(schema: Schema) {
    && 1 <= |schema.columns| <= MAX_COLUMNS
    && (forall c | c in schema.columns :: 0 < |c.name| <= MAX_TEXT_LEN && Csv.Clean(c.name) && ',' !in c.name)
    && (forall i, j | 0 <= i < j < |schema.columns| :: schema.columns[i].name != schema.columns[j].name)
    && (schema.primaryKey.Some? ==>
          schema.primaryKey.value < |schema.columns| && schema.columns[schema.primaryKey.value].dataType == IntType)
  }

  lemma PlainExactly(name: string)
    ensures PlainName(name) <==> 0 < |name| <= MAX_TEXT_LEN && Csv.Clean(name) && ',' !in name && '"' !in name
  {
  }

  lemma WellFormedExactly(schema: Schema)
    ensures WellFormed(schema) <==> FromLoader(schema) && forall c | c in schema.columns :: '"' !in c.name
  {
    hide Csv.Clean, PlainName;
    forall c | c in schema.columns
      ensures PlainName(c.name)
              <==> 0 < |c.name| <= MAX_TEXT_LEN && Csv.Clean(c.name) && ',' !in c.name && '"' !in c.name
    {
      PlainExactly(c.name);
    }
  }

  /** The position of a column, or the number of columns. */
  function ColumnIndex(columns: seq<Column>, name: string): (i: nat)
    ensures i <= |columns|
    ensures i < |columns| ==> columns[i].name == name
    ensures forall j | 0 <= j < i :: columns[j].name != name
  {
    if columns == [] || columns[0].name == name then 0 else 1 + ColumnIndex(columns[1..], name)
  }

  method FindSchemaColumn(schema: Schema, name: string) returns (r: Option<nat>)
    ensures r == var i := ColumnIndex(schema.columns, name); if i < |schema.columns| then Some(i) else None
  {
    for i := 0 to |schema.columns|
      invariant forall j | 0 <= j < i :: schema.columns[j].name != name
    {
      if schema.columns[i].name == name {
        return Some(i);
      }
    }
    r := None;
  }
}
