/** The earlier, purely in-memory table: an array of `TABLE_MAX_PAGES` page
    pointers, each empty or one page, allocated lazily when a row first
    lands in it.  Rows, the codec and the addressing are those of the
    disk-backed table. */
module InMemory {
  import opened Layout
  import opened Codec
  import opened Addressing
  import opened Pager
  import Table

  /** One slot of the page array: an empty pointer or an allocated page. */
  datatype PageSlot = Null | Held(page: Page)

  datatype MemTable = MemTable(numRows: nat, pages: seq<PageSlot>)

  /** What an executed statement leaves: its result, the table, and the rows
      it printed. */
  datatype Run = Run(result: Table.ExecuteResult, table: MemTable, printed: seq<Row>)

  /** The page array has exactly `TABLE_MAX_PAGES` slots. */
  predicate Shaped(t: MemTable) {
    |t.pages| == TABLE_MAX_PAGES
  }

  /** The allocated pages are exactly the pages the rows occupy, a prefix of
      the array. */
  predicate Valid(t: MemTable) {
    && Shaped(t)
    && t.numRows <= TABLE_MAX_ROWS
    && forall i | 0 <= i < TABLE_MAX_PAGES :: t.pages[i].Held? <==> i < PagesFor(t.numRows)
  }

  /** `t` holds `rows`: it is valid, counts them, and the slot of every row
      decodes to that row. */
  predicate HoldsRows(t: MemTable, rows: seq<Row>) {
    && Valid(t)
    && t.numRows == |rows|
    && forall k | 0 <= k < |rows| ::
         && RowSlot(k).page < TABLE_MAX_PAGES
         && t.pages[RowSlot(k).page].Held?
         && DeserializeRow(t.pages[RowSlot(k).page].page, RowSlot(k).offset) == rows[k]
  }

  /** A new table: no rows and every page slot empty. */
  function NewTable(): (t: MemTable)
    ensures Shaped(t) && t.numRows == 0
    ensures forall i | 0 <= i < TABLE_MAX_PAGES :: t.pages[i].Null?
  {
    MemTable(0, seq(TABLE_MAX_PAGES, _ => Null))
  }

  /** A new table holds no rows. */
  lemma NewTableHoldsNothing()
    ensures HoldsRows(NewTable(), [])
  {
  }

  /** The page of the lazily allocating row lookup, with the table it leaves. */
  datatype Located = Located(table: MemTable, page: Page)

  /** The page row `k` lives in, allocated first (with the junk of a fresh
      buffer) when its slot is empty; the row starts at `RowSlot(k).offset`.
      The page array has no slot past `TABLE_MAX_PAGES`. */
  function RowSlotMem(t: MemTable, k: nat, g: Garbage): (r: Located)
    requires Shaped(t) && RowSlot(k).page < TABLE_MAX_PAGES
    ensures Shaped(r.table) && r.table.numRows == t.numRows
    ensures r.table.pages[RowSlot(k).page] == Held(r.page)
    ensures t.pages[RowSlot(k).page].Held? ==> r.table == t
    ensures t.pages[RowSlot(k).page].Null? ==> r.page == g(RowSlot(k).page)
    ensures forall i | 0 <= i < TABLE_MAX_PAGES && i != RowSlot(k).page :: r.table.pages[i] == t.pages[i]
  {
    var n := RowSlot(k).page;
    match t.pages[n]
    case Held(page) => Located(t, page)
    case Null => Located(t.(pages := t.pages[n := Held(g(n))]), g(n))
  }

  /** The lookup allocates at most once: asking again for any row of the same
      page returns the same page and changes nothing, whatever a new buffer
      would have held. */
  lemma RowSlotStable(t: MemTable, k: nat, j: nat, g: Garbage, g': Garbage)
    requires Shaped(t) && RowSlot(k).page < TABLE_MAX_PAGES
    requires RowSlot(j).page == RowSlot(k).page
    ensures var l := RowSlotMem(t, k, g);
      RowSlotMem(l.table, j, g') == l
  {
  }

  /** Rows `0..n` occupy one more page than rows `0..n-1` exactly when row
      `n` starts a page, and row `n` lives in the last of them. */
  lemma PagesForStep(n: nat)
    ensures PagesFor(n + 1) == if n % ROWS_PER_PAGE == 0 then PagesFor(n) + 1 else PagesFor(n)
    ensures RowSlot(n).page == PagesFor(n + 1) - 1
  {
    var p, r := n / ROWS_PER_PAGE, n % ROWS_PER_PAGE;
    assert n == p * ROWS_PER_PAGE + r;
    if r == 0 {
      assert (n + (ROWS_PER_PAGE - 1)) / ROWS_PER_PAGE == p;
    } else {
      assert (n + (ROWS_PER_PAGE - 1)) / ROWS_PER_PAGE == p + 1;
    }
  }

  /** Insert `row`: refuse when the table is full, otherwise serialize it
      into the slot of row `numRows` and count it. */
  function ExecuteInsertMem(t: MemTable, row: Row, g: Garbage): (r: Run)
    requires Shaped(t)
    ensures Shaped(r.table) && r.printed == []
    ensures t.numRows >= TABLE_MAX_ROWS ==> r == Run(Table.TableFull, t, [])
    ensures t.numRows < TABLE_MAX_ROWS ==>
      && r.result == Table.Success
      && r.table.numRows == t.numRows + 1
      && r.table.pages[RowSlot(t.numRows).page].Held?
      && DeserializeRow(r.table.pages[RowSlot(t.numRows).page].page, RowSlot(t.numRows).offset) == row
      && forall i | 0 <= i < TABLE_MAX_PAGES && i != RowSlot(t.numRows).page :: r.table.pages[i] == t.pages[i]
  {
    if t.numRows >= TABLE_MAX_ROWS then Run(Table.TableFull, t, [])
    else
      CapacityMatchesPages(t.numRows);
      var s := RowSlot(t.numRows);
      var l := RowSlotMem(t, t.numRows, g);
      var page: Page := SerializeRow(row, l.page, s.offset);
      SlotRoundTrip(row, l.page, s.offset);
      Run(Table.Success, MemTable(t.numRows + 1, l.table.pages[s.page := Held(page)]), [])
  }

  /** An insert leaves every earlier row readable as before. */
  lemma InsertKeepsRowsMem(t: MemTable, row: Row, g: Garbage, k: nat)
    requires Shaped(t) && k < t.numRows < TABLE_MAX_ROWS
    requires RowSlot(k).page < TABLE_MAX_PAGES && t.pages[RowSlot(k).page].Held?
    ensures var q := ExecuteInsertMem(t, row, g).table;
      && q.pages[RowSlot(k).page].Held?
      && DeserializeRow(q.pages[RowSlot(k).page].page, RowSlot(k).offset)
         == DeserializeRow(t.pages[RowSlot(k).page].page, RowSlot(k).offset)
  {
    var n := t.numRows;
    if RowSlot(k).page == RowSlot(n).page {
      CapacityMatchesPages(n);
      SlotsDisjoint(k, n);
      SerializeFrame(row, t.pages[RowSlot(n).page].page, RowSlot(n).offset, RowSlot(k).offset);
    }
  }

  /** An insert into a valid table with room keeps the allocated pages a
      prefix: the one page it may allocate is the next one. */
  lemma InsertKeepsValid(t: MemTable, row: Row, g: Garbage)
    requires Valid(t) && t.numRows < TABLE_MAX_ROWS
    ensures Valid(ExecuteInsertMem(t, row, g).table)
  {
    var n := t.numRows;
    var q := ExecuteInsertMem(t, row, g).table;
    PagesForStep(n);
    CapacityMatchesPages(n);
    forall i | 0 <= i < TABLE_MAX_PAGES
      ensures q.pages[i].Held? <==> i < PagesFor(n + 1)
    {
      if i != RowSlot(n).page {
        assert q.pages[i] == t.pages[i];
      }
    }
  }

  /** An insert into a table with room appends its row to the rows the table
      holds. */
  lemma InsertHoldsMem(t: MemTable, rows: seq<Row>, row: Row, g: Garbage)
    requires HoldsRows(t, rows) && |rows| < TABLE_MAX_ROWS
    ensures HoldsRows(ExecuteInsertMem(t, row, g).table, rows + [row])
  {
    var n := |rows|;
    var q := ExecuteInsertMem(t, row, g).table;
    InsertKeepsValid(t, row, g);
    CapacityMatchesPages(n);
    forall k | 0 <= k < n
      ensures RowSlot(k).page < TABLE_MAX_PAGES && q.pages[RowSlot(k).page].Held?
      ensures DeserializeRow(q.pages[RowSlot(k).page].page, RowSlot(k).offset) == rows[k]
    {
      InsertKeepsRowsMem(t, row, g, k);
    }
  }

  /** Visit rows `from..to-1` in order through the lazily allocating lookup;
      the result is the table the lookups leave. */
  function VisitMem(t: MemTable, from: nat, to: nat, g: Garbage): (r: MemTable)
    requires Shaped(t) && to <= TABLE_MAX_ROWS
    ensures Shaped(r) && r.numRows == t.numRows
    ensures forall i | 0 <= i < TABLE_MAX_PAGES && t.pages[i].Held? :: r.pages[i] == t.pages[i]
    ensures forall k | from <= k < to ::
      (RowSlot(k).page < TABLE_MAX_PAGES && r.pages[RowSlot(k).page].Held?)
    decreases (to as int) - (from as int)
  {
    if from >= to then t
    else
      CapacityMatchesPages(from);
      VisitMem(RowSlotMem(t, from, g).table, from + 1, to, g)
  }

  /** The rows `0..n-1` decoded from their slots. */
  function DecodedMem(t: MemTable, n: nat): (rows: seq<Row>)
    requires Shaped(t)
    requires forall k | 0 <= k < n :: RowSlot(k).page < TABLE_MAX_PAGES && t.pages[RowSlot(k).page].Held?
    ensures |rows| == n
  {
    seq(n, k requires 0 <= k < n => DeserializeRow(t.pages[RowSlot(k).page].page, RowSlot(k).offset))
  }

  /** Select: visit every row in order and print it.  A lookup never changes
      an allocated page, so decoding after the visit prints what decoding
      during it would. */
  function ExecuteSelectMem(t: MemTable, g: Garbage): (r: Run)
    requires Shaped(t) && t.numRows <= TABLE_MAX_ROWS
    ensures r.result == Table.Success && Shaped(r.table) && r.table.numRows == t.numRows
    ensures |r.printed| == t.numRows
    ensures forall k | 0 <= k < t.numRows ::
      && RowSlot(k).page < TABLE_MAX_PAGES
      && r.table.pages[RowSlot(k).page].Held?
      && r.printed[k] == DeserializeRow(r.table.pages[RowSlot(k).page].page, RowSlot(k).offset)
  {
    var q := VisitMem(t, 0, t.numRows, g);
    Run(Table.Success, q, DecodedMem(q, t.numRows))
  }

  /** Visiting rows whose pages are all allocated allocates nothing. */
  lemma {:induction false} VisitAllocated(t: MemTable, from: nat, to: nat, g: Garbage)
    requires Shaped(t) && to <= TABLE_MAX_ROWS
    requires forall k | from <= k < to :: RowSlot(k).page < TABLE_MAX_PAGES && t.pages[RowSlot(k).page].Held?
    ensures VisitMem(t, from, to, g) == t
    decreases (to as int) - (from as int)
  {
    if from < to {
      CapacityMatchesPages(from);
      VisitAllocated(t, from + 1, to, g);
    }
  }

  /** A select on a table that holds `rows` prints exactly those rows, in
      order, and leaves the table as it was. */
  lemma SelectPrintsRowsMem(t: MemTable, rows: seq<Row>, g: Garbage)
    requires HoldsRows(t, rows)
    ensures ExecuteSelectMem(t, g) == Run(Table.Success, t, rows)
  {
    VisitAllocated(t, 0, t.numRows, g);
    assert DecodedMem(t, t.numRows) == rows;
  }

  /** On a valid table a select allocates nothing: it is read-only. */
  lemma SelectReadOnlyMem(t: MemTable, g: Garbage)
    requires Valid(t)
    ensures ExecuteSelectMem(t, g).table == t
  {
    forall k | 0 <= k < t.numRows
      ensures RowSlot(k).page < TABLE_MAX_PAGES && t.pages[RowSlot(k).page].Held?
    {
      PagesForCovers(t.numRows, k);
      AllPagesIff(t.numRows);
    }
    VisitAllocated(t, 0, t.numRows, g);
  }

  /** Selecting twice prints the same rows twice: the first select allocates
      every page the second needs. */
  lemma SelectTwiceMem(t: MemTable, g: Garbage, g': Garbage)
    requires Shaped(t) && t.numRows <= TABLE_MAX_ROWS
    ensures var r := ExecuteSelectMem(t, g);
      ExecuteSelectMem(r.table, g') == r
  {
    var r := ExecuteSelectMem(t, g);
    VisitAllocated(r.table, 0, t.numRows, g');
  }

  /** Execute one statement. */
  function ExecuteStatementMem(t: MemTable, st: Table.Statement, g: Garbage): (r: Run)
    requires Shaped(t) && t.numRows <= TABLE_MAX_ROWS
    ensures r.result == Table.TableFull <==> st.Insert? && t.numRows >= TABLE_MAX_ROWS
    ensures st.Select? ==> |r.printed| == t.numRows && r.table.numRows == t.numRows
    ensures st.Insert? ==> r.printed == [] && r.table.numRows == (if t.numRows < TABLE_MAX_ROWS then t.numRows + 1 else t.numRows)
  {
    match st
    case Insert(row) => ExecuteInsertMem(t, row, g)
    case Select => ExecuteSelectMem(t, g)
  }

  /** Insert `rows` one after another. */
  function InsertAllMem(t: MemTable, rows: seq<Row>, g: Garbage): (r: MemTable)
    requires Shaped(t)
    ensures Shaped(r)
    decreases |rows|
  {
    if rows == [] then t
    else InsertAllMem(ExecuteInsertMem(t, rows[0], g).table, rows[1..], g)
  }

  /** Inserting rows into a new table while there is room, then selecting,
      prints exactly the inserted rows. */
  lemma {:induction false} InsertAllHoldsMem(t: MemTable, prior: seq<Row>, rows: seq<Row>, g: Garbage)
    requires HoldsRows(t, prior) && |prior| + |rows| <= TABLE_MAX_ROWS
    ensures HoldsRows(InsertAllMem(t, rows, g), prior + rows)
    decreases |rows|
  {
    if rows == [] {
      assert prior + rows == prior;
    } else {
      var t' := ExecuteInsertMem(t, rows[0], g).table;
      InsertHoldsMem(t, prior, rows[0], g);
      assert InsertAllMem(t, rows, g) == InsertAllMem(t', rows[1..], g);
      InsertAllHoldsMem(t', prior + [rows[0]], rows[1..], g);
      AppendFirst(prior, rows);
    }
  }

  lemma InsertThenSelectMem(rows: seq<Row>, g: Garbage)
    requires |rows| <= TABLE_MAX_ROWS
    ensures var t := InsertAllMem(NewTable(), rows, g);
      t.numRows <= TABLE_MAX_ROWS && ExecuteSelectMem(t, g) == Run(Table.Success, t, rows)
  {
    NewTableHoldsNothing();
    InsertAllHoldsMem(NewTable(), [], rows, g);
    assert [] + rows == rows;
    SelectPrintsRowsMem(InsertAllMem(NewTable(), rows, g), rows, g);
  }

  /** Rows `0..n-1` fill all `TABLE_MAX_PAGES` pages exactly when there are
      more than `TABLE_MAX_ROWS - ROWS_PER_PAGE` of them. */
  lemma AllPagesIff(n: nat)
    requires n <= TABLE_MAX_ROWS
    ensures PagesFor(n) <= TABLE_MAX_PAGES
    ensures PagesFor(n) == TABLE_MAX_PAGES <==> n > TABLE_MAX_ROWS - ROWS_PER_PAGE
  {
  }

  /** In a valid table the first empty slot, or the end of the array when
      there is none, is the number of pages the rows occupy. */
  lemma FirstEmptyIsPagesFor(t: MemTable, i: nat)
    requires Valid(t) && i <= TABLE_MAX_PAGES
    requires forall j | 0 <= j < i :: t.pages[j].Held?
    requires i < TABLE_MAX_PAGES ==> t.pages[i].Null?
    ensures i == PagesFor(t.numRows)
    ensures i == TABLE_MAX_PAGES <==> t.numRows > TABLE_MAX_ROWS - ROWS_PER_PAGE
  {
    var m := PagesFor(t.numRows);
    AllPagesIff(t.numRows);
    assert m < TABLE_MAX_PAGES ==> t.pages[m].Null?;
    assert i < TABLE_MAX_PAGES ==> (t.pages[i].Held? <==> i < m);
  }

  /** Free the table as the program does: release pages from slot 0 up,
      stopping at the first empty slot.  The result is the number of pages
      released, or `Undefined(TABLE_MAX_PAGES)` when every slot is allocated
      and the loop test reads the slot one past the array. */
  method FreeTable(t: MemTable) returns (r: Outcome<nat>)
    requires Shaped(t)
    ensures r.Done? || r == Undefined(TABLE_MAX_PAGES)
    ensures r == Undefined(TABLE_MAX_PAGES) <==> forall i | 0 <= i < TABLE_MAX_PAGES :: t.pages[i].Held?
    ensures r.Done? ==> r.value < TABLE_MAX_PAGES && t.pages[r.value].Null?
    ensures r.Done? ==> forall i | 0 <= i < r.value :: t.pages[i].Held?
    ensures Valid(t) ==> (r.Undefined? <==> t.numRows > TABLE_MAX_ROWS - ROWS_PER_PAGE)
    ensures Valid(t) && r.Done? ==> r.value == PagesFor(t.numRows)
  {
    var i := 0;
    while i < TABLE_MAX_PAGES && t.pages[i].Held?
      invariant 0 <= i <= TABLE_MAX_PAGES
      invariant forall j | 0 <= j < i :: t.pages[j].Held?
    {
      i := i + 1;
    }
    if Valid(t) {
      FirstEmptyIsPagesFor(t, i);
    }
    if i == TABLE_MAX_PAGES {
      return Undefined(TABLE_MAX_PAGES);
    }
    return Done(i);
  }

  /** The corrected free: the loop also stops at the end of the array, so it
      releases every allocated page of a valid table and never reads past
      the array. */
  method FreeTableBounded(t: MemTable) returns (freed: nat)
    requires Shaped(t)
    ensures freed <= TABLE_MAX_PAGES
    ensures forall i | 0 <= i < freed :: t.pages[i].Held?
    ensures freed < TABLE_MAX_PAGES ==> t.pages[freed].Null?
    ensures Valid(t) ==> freed == PagesFor(t.numRows)
  {
    freed := 0;
    while freed < TABLE_MAX_PAGES && t.pages[freed].Held?
      invariant 0 <= freed <= TABLE_MAX_PAGES
      invariant forall j | 0 <= j < freed :: t.pages[j].Held?
    {
      freed := freed + 1;
    }
    if Valid(t) {
      FirstEmptyIsPagesFor(t, freed);
    }
  }

  /** As written, freeing a table that holds more than 2277 rows reads past
      the page array: all 100 slots are allocated, so no empty slot stops
      the loop. */
  lemma FullTableHasNoEmptySlot(t: MemTable, rows: seq<Row>)
    requires HoldsRows(t, rows) && |rows| > TABLE_MAX_ROWS - ROWS_PER_PAGE
    ensures forall i | 0 <= i < TABLE_MAX_PAGES :: t.pages[i].Held?
  {
    AllPagesIff(|rows|);
  }
}
