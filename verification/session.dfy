/** A session against the disk-backed table: the rows a table holds, inserts
    that append to them, and selects that print them back. */
module Session {
  import opened Layout
  import opened Codec
  import opened Addressing
  import opened Disk
  import opened Pager
  import opened Table

  /** `t` holds `rows`: its row count is theirs, and the slot of every row is
      in a cached page and decodes to that row. */
  predicate Holds(t: Table, rows: seq<Row>) {
    && t.numRows == |rows| <= TABLE_MAX_ROWS
    && Valid(t.pager)
    && forall k | 0 <= k < |rows| ::
         && RowSlot(k).page in t.pager.pages
         && DeserializeRow(t.pager.pages[RowSlot(k).page], RowSlot(k).offset) == rows[k]
  }

  /** An insert into a table with room appends its row to the rows the table
      holds and leaves the backing file alone. */
  lemma InsertHolds(t: Table, rows: seq<Row>, row: Row, g: Garbage)
    requires Holds(t, rows) && |rows| < TABLE_MAX_ROWS
    requires Read !in t.pager.fd.failing
    ensures ExecuteInsert(t, row, g).Done?
    ensures ExecuteInsert(t, row, g).value.result == Success
    ensures Holds(ExecuteInsert(t, row, g).value.table, rows + [row])
    ensures ExecuteInsert(t, row, g).value.table.pager.fd == t.pager.fd
  {
    var e := ExecuteInsert(t, row, g).value;
    var q := e.table.pager;
    var rows' := rows + [row];
    CapacityMatchesPages(|rows|);
    forall k | 0 <= k < |rows'|
      ensures RowSlot(k).page in q.pages
      ensures DeserializeRow(q.pages[RowSlot(k).page], RowSlot(k).offset) == rows'[k]
    {
      if k < |rows| {
        InsertKeepsOtherRows(t, row, g, k);
      }
    }
  }

  /** Insert `rows` one after another. */
  function InsertAll(t: Table, rows: seq<Row>, g: Garbage): (r: Outcome<Table>)
    decreases |rows|
  {
    if rows == [] then Done(t)
    else
      var e :- ExecuteInsert(t, rows[0], g);
      InsertAll(e.table, rows[1..], g)
  }

  /** Inserting rows while there is room appends them all, in order. */
  lemma {:induction false} InsertAllHolds(t: Table, prior: seq<Row>, rows: seq<Row>, g: Garbage)
    requires Holds(t, prior) && |prior| + |rows| <= TABLE_MAX_ROWS
    requires Read !in t.pager.fd.failing
    ensures InsertAll(t, rows, g).Done?
    ensures Holds(InsertAll(t, rows, g).value, prior + rows)
    ensures InsertAll(t, rows, g).value.pager.fd == t.pager.fd
    decreases |rows|
  {
    if rows == [] {
      assert prior + rows == prior;
    } else {
      InsertHolds(t, prior, rows[0], g);
      var t' := ExecuteInsert(t, rows[0], g).value.table;
      assert InsertAll(t, rows, g) == InsertAll(t', rows[1..], g);
      InsertAllHolds(t', prior + [rows[0]], rows[1..], g);
      AppendFirst(prior, rows);
    }
  }

  /** A visit of rows whose pages are all cached fetches nothing and leaves
      the pager as it is. */
  lemma {:induction false} VisitCached(p: Pager, from: nat, to: nat, g: Garbage)
    requires to <= TABLE_MAX_ROWS
    requires forall k | from <= k < to :: RowSlot(k).page in p.pages
    ensures VisitRows(p, from, to, g) == Done(p)
    decreases (to as int) - (from as int)
  {
    if from < to {
      var n := RowSlot(from).page;
      CapacityMatchesPages(from);
      assert p.pages[n := p.pages[n]] == p.pages;
      assert FetchRow(p, from, g) == Done(Loaded(p, p.pages[n]));
      VisitCached(p, from + 1, to, g);
    }
  }

  /** A select on a table that holds `rows` prints exactly those rows, in
      order, and changes nothing, whatever the state of the file. */
  lemma SelectPrintsRows(t: Table, rows: seq<Row>, g: Garbage)
    requires Holds(t, rows)
    ensures ExecuteSelect(t, g) == Done(Executed(Success, t, rows))
  {
    VisitCached(t.pager, 0, t.numRows, g);
    assert t.(pager := t.pager) == t;
    var printed := Decoded(t.pager, t.numRows);
    assert printed == rows;
  }

  /** Selecting twice prints the same rows twice: the first select loads
      every page the second needs, so the second reads nothing and the
      junk of fresh buffers no longer matters. */
  lemma SelectTwice(t: Table, g: Garbage, g': Garbage)
    requires ExecuteSelect(t, g).Done?
    ensures var e := ExecuteSelect(t, g).value;
      ExecuteSelect(e.table, g') == Done(Executed(Success, e.table, e.printed))
  {
    var e := ExecuteSelect(t, g).value;
    VisitCached(e.table.pager, 0, t.numRows, g');
    assert e.table.(pager := e.table.pager) == e.table;
  }

  /** A session that opens a new file, inserts rows while there is room and
      then selects prints back exactly the inserted rows. */
  lemma InsertThenSelect(rows: seq<Row>, g: Garbage)
    requires |rows| <= TABLE_MAX_ROWS
    ensures DbOpen(Missing).Done?
    ensures InsertAll(DbOpen(Missing).value, rows, g).Done?
    ensures var t := InsertAll(DbOpen(Missing).value, rows, g).value;
      ExecuteSelect(t, g) == Done(Executed(Success, t, rows))
  {
    var t0 := DbOpen(Missing).value;
    assert Holds(t0, []);
    InsertAllHolds(t0, [], rows, g);
    assert [] + rows == rows;
    SelectPrintsRows(InsertAll(t0, rows, g).value, rows, g);
  }
}
