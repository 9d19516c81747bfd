/** SQL statements as the parser hands them to the executor. */
module Sql {
  import opened Wrappers

  datatype LiteralType = IntLiteral | StringLiteral

  datatype Literal = Literal(literalType: LiteralType, text: string)

  datatype Operator = Equal | Greater | Less | NotEqual

  datatype Where = Where(column: string, operator: Operator, value: Literal)

  datatype Statement =
    | Insert(table: string, columns: Option<seq<string>>, values: seq<Literal>)
    | Select(table: string, columns: Option<seq<string>>, condition: Option<Where>)
}
