/** Fixed geometry of the row store: the five column widths, their cumulative
    offsets inside a row, the 4 KiB page and the table capacity.  The in-memory
    table and the disk-backed table share these constants unchanged. */
module Layout {

  /** Byte widths of the columns, in declaration order of the row record. */
  const SLNO_SIZE: nat := 4       // uint32_t serial number
  const YEAR_SIZE: nat := 4       // uint32_t year
  const COMPANY_SIZE: nat := 32   // fixed company-name column
  const MODEL_SIZE: nat := 128    // fixed model-name column
  const POWER_SIZE: nat := 4      // float, copied as raw bytes

  /** The derived constants are written as numbers; `Geometry` proves that
      they are the sums and quotients the program computes them as. */
  const ROW_SIZE: nat := 172

  const SLNO_OFFSET: nat := 0
  const YEAR_OFFSET: nat := 4
  const COMPANY_OFFSET: nat := 8
  const MODEL_OFFSET: nat := 40
  const POWER_OFFSET: nat := 168

  const PAGE_SIZE: nat := 4096
  const ROWS_PER_PAGE: nat := 23
  const TABLE_MAX_PAGES: nat := 100
  const TABLE_MAX_ROWS: nat := 2300

  datatype Column = SlNo | Year | Company | Model | Power

  function Width(c: Column): nat {
    match c
    case SlNo => SLNO_SIZE
    case Year => YEAR_SIZE
    case Company => COMPANY_SIZE
    case Model => MODEL_SIZE
    case Power => POWER_SIZE
  }

  function Offset(c: Column): nat {
    match c
    case SlNo => SLNO_OFFSET
    case Year => YEAR_OFFSET
    case Company => COMPANY_OFFSET
    case Model => MODEL_OFFSET
    case Power => POWER_OFFSET
  }

  /** Byte `b` of a row lies in column `c`. */
  predicate InColumn(c: Column, b: int) {
    Offset(c) <= b < Offset(c) + Width(c)
  }

  /** The row size is the sum of the column widths, each offset is the
      previous offset plus the previous width, a page holds as many whole rows
      as fit, and the row capacity is the page capacity times that. */
  lemma Geometry()
    ensures ROW_SIZE == SLNO_SIZE + YEAR_SIZE + COMPANY_SIZE + MODEL_SIZE + POWER_SIZE
    ensures SLNO_OFFSET == 0 && YEAR_OFFSET == SLNO_OFFSET + SLNO_SIZE
    ensures COMPANY_OFFSET == YEAR_OFFSET + YEAR_SIZE && MODEL_OFFSET == COMPANY_OFFSET + COMPANY_SIZE
    ensures POWER_OFFSET == MODEL_OFFSET + MODEL_SIZE && POWER_OFFSET + POWER_SIZE == ROW_SIZE
    ensures ROWS_PER_PAGE == PAGE_SIZE / ROW_SIZE
    ensures ROWS_PER_PAGE * ROW_SIZE <= PAGE_SIZE < (ROWS_PER_PAGE + 1) * ROW_SIZE
    ensures TABLE_MAX_ROWS == TABLE_MAX_PAGES * ROWS_PER_PAGE
  {
  }

  /** Every byte of a row belongs to some column ... */
  function ColumnAt(b: nat): (c: Column)
    requires b < ROW_SIZE
    ensures InColumn(c, b)
  {
    if b < YEAR_OFFSET then SlNo
    else if b < COMPANY_OFFSET then Year
    else if b < MODEL_OFFSET then Company
    else if b < POWER_OFFSET then Model
    else Power
  }

  /** ... to only one column, and no column reaches past the row. */
  lemma ColumnsPartitionRow(c: Column, d: Column, b: int)
    ensures Offset(c) + Width(c) <= ROW_SIZE
    ensures InColumn(c, b) && InColumn(d, b) ==> c == d
  {
  }
}
