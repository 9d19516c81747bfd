/** The sizes of the program's fixed buffers and tables. */
module Limits {
  const MAX_NAME_LEN: nat := 64
  const MAX_VALUE_LEN: nat := 64
  const MAX_COLUMNS: nat := 16
  const MAX_TOKENS: nat := 512
  const MAX_STATEMENTS: nat := 32
  const MAX_TABLES: nat := 32

  /** The longest value that fits a value array with its terminator. */
  const MAX_TEXT_LEN: nat := MAX_VALUE_LEN - 1

  /** A field with every byte doubled, in quotes. */
  const MAX_FIELD_LEN: nat := MAX_TEXT_LEN * 2 + 2

  /** Size of the line buffer: every field quoted and doubled, the commas, the
      newline and the terminator. */
  const MAX_ROW_LEN: nat := MAX_COLUMNS * MAX_FIELD_LEN + (MAX_COLUMNS - 1) + 2
}
