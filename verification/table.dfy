/** The disk-backed table: a row count over a pager, the two statements insert
    and select, and the open/close lifecycle that moves pages between the
    cache and the backing file. */
module Table {
  import opened Layout
  import opened Codec
  import opened Addressing
  import opened Disk
  import opened Pager

  /** The two outcomes of executing a statement. */
  datatype ExecuteResult = Success | TableFull

  /** The two statement kinds; an insert carries the parsed row. */
  datatype Statement = Insert(row: Row) | Select

  datatype Table = Table(numRows: nat, pager: Pager)

  /** What an executed statement leaves: its result, the table, and the rows
      it printed (select prints every row, insert none). */
  datatype Executed = Executed(result: ExecuteResult, table: Table, printed: seq<Row>)

  /** Open the table: the row count is the file length divided by the row
      size, so a trailing partial row is not counted. */
  function DbOpen(e: Entry): (r: Outcome<Table>)
    ensures r.Exit? <==> e.Inaccessible?
    ensures !r.Undefined?
    ensures r.Done? ==>
      && r.value.pager.pages == map[]
      && r.value.pager.fileLength == |r.value.pager.fd.bytes|
      && r.value.numRows * ROW_SIZE <= r.value.pager.fileLength < (r.value.numRows + 1) * ROW_SIZE
  {
    var p :- PagerOpen(e);
    Done(Table(p.fileLength / ROW_SIZE, p))
  }

  /** The page holding row `k`, fetched through the pager; the row's bytes
      start at `RowSlot(k).offset` in it. */
  function FetchRow(p: Pager, k: nat, g: Garbage): (r: Outcome<Loaded>)
    ensures k < TABLE_MAX_ROWS ==> !r.Undefined? && r != Exit(PageOutOfBound)
    ensures k < TABLE_MAX_ROWS && Read !in p.fd.failing ==> r.Done?
    ensures r.Done? ==>
      && RowSlot(k).page in r.value.pager.pages
      && r.value.pager.pages[RowSlot(k).page] == r.value.page
      && r.value.pager.pages.Keys == p.pages.Keys + {RowSlot(k).page}
      && CacheExtends(p, r.value.pager)
      && r.value.pager.fd == p.fd
      && r.value.pager.fileLength == p.fileLength
  {
    CapacityMatchesPages(k);
    var s := RowSlot(k);
    GetPage(p, s.page, g(s.page))
  }

  /** What a successful insert of `row` into `t` leaves in `e`: one more row,
      the new row readable in slot `t.numRows`, every other byte of every page
      as before. */
  predicate InsertedAt(t: Table, e: Executed, row: Row) {
    var s := RowSlot(t.numRows);
    var q := e.table.pager;
    && e.result == Success && e.printed == []
    && e.table.numRows == t.numRows + 1
    && q.fd == t.pager.fd && q.fileLength == t.pager.fileLength
    && q.pages.Keys == t.pager.pages.Keys + {s.page}
    && s.page in q.pages
    && DeserializeRow(q.pages[s.page], s.offset) == row
    && (forall n | n in t.pager.pages && n != s.page :: q.pages[n] == t.pager.pages[n])
    && (s.page in t.pager.pages ==>
          forall i | 0 <= i < PAGE_SIZE && !(s.offset <= i < s.offset + ROW_SIZE) ::
            q.pages[s.page][i] == t.pager.pages[s.page][i])
  }

  function ExecuteInsert(t: Table, row: Row, g: Garbage): (r: Outcome<Executed>)
    ensures t.numRows >= TABLE_MAX_ROWS ==> r == Done(Executed(TableFull, t, []))
    ensures t.numRows < TABLE_MAX_ROWS ==> !r.Undefined? && (r.Done? ==> InsertedAt(t, r.value, row))
    ensures t.numRows < TABLE_MAX_ROWS && Read !in t.pager.fd.failing ==> r.Done?
    ensures r.Exit? ==> r.cause == ReadFailed
  {
    if t.numRows >= TABLE_MAX_ROWS then Done(Executed(TableFull, t, []))
    else
      var s := RowSlot(t.numRows);
      var l :- FetchRow(t.pager, t.numRows, g);
      var page: Page := SerializeRow(row, l.page, s.offset);
      SlotRoundTrip(row, l.page, s.offset);
      Done(Executed(Success, Table(t.numRows + 1, l.pager.(pages := l.pager.pages[s.page := page])), []))
  }

  /** An insert rewrites no slot but its own: every row already in a cached
      page reads back as before. */
  lemma InsertKeepsOtherRows(t: Table, row: Row, g: Garbage, k: nat)
    requires ExecuteInsert(t, row, g).Done? && t.numRows < TABLE_MAX_ROWS
    requires k != t.numRows && RowSlot(k).page in t.pager.pages
    ensures var q := ExecuteInsert(t, row, g).value.table.pager;
      RowSlot(k).page in q.pages
      && DeserializeRow(q.pages[RowSlot(k).page], RowSlot(k).offset)
         == DeserializeRow(t.pager.pages[RowSlot(k).page], RowSlot(k).offset)
  {
    var s, sk := RowSlot(t.numRows), RowSlot(k);
    var q := ExecuteInsert(t, row, g).value.table.pager;
    if sk.page == s.page {
      SlotsDisjoint(k, t.numRows);
      DeserializeLocal(q.pages[sk.page], t.pager.pages[sk.page], sk.offset);
    }
  }

  /** Visit rows `from..to-1` in order, fetching the page of each.  Nothing
      is written to a page during the visit, so the row printed for row `k`
      is the decoding of its slot in the cache the visit leaves behind. */
  function VisitRows(p: Pager, from: nat, to: nat, g: Garbage): (r: Outcome<Pager>)
    decreases to - from
    ensures r.Done? ==>
      && CacheExtends(p, r.value)
      && r.value.fd == p.fd && r.value.fileLength == p.fileLength
      && (Valid(p) ==> Valid(r.value))
      && forall k | from <= k < to :: RowSlot(k).page in r.value.pages
    ensures r.Done? ==> from >= to || to <= TABLE_MAX_ROWS
    ensures to <= TABLE_MAX_ROWS && Read !in p.fd.failing ==> r.Done?
    ensures from <= TABLE_MAX_ROWS < to && Read !in p.fd.failing ==> r == Undefined(TABLE_MAX_PAGES)
    ensures from <= TABLE_MAX_ROWS && r.Exit? ==> r.cause == ReadFailed
  {
    if from >= to then Done(p)
    else
      var l :- FetchRow(p, from, g);
      VisitRows(l.pager, from + 1, to, g)
  }

  /** A visit that does not stop at its first row fetches that row's page
      and visits the rest with the pager the fetch left. */
  lemma VisitUnfold(p: Pager, from: nat, to: nat, g: Garbage)
    requires VisitRows(p, from, to, g).Done? && from < to
    ensures FetchRow(p, from, g).Done?
    ensures VisitRows(p, from, to, g) == VisitRows(FetchRow(p, from, g).value.pager, from + 1, to, g)
  {
  }

  /** Rows `0..n-1` decoded from their slots in the cache of `q`. */
  function Decoded(q: Pager, n: nat): (rows: seq<Row>)
    requires forall k | 0 <= k < n :: RowSlot(k).page in q.pages
    ensures |rows| == n
  {
    seq(n, k requires 0 <= k < n => DeserializeRow(q.pages[RowSlot(k).page], RowSlot(k).offset))
  }

  /** Select visits rows `0..numRows-1` in order and prints each.  It fetches
      pages it needs but changes neither the row count nor any cached byte. */
  function ExecuteSelect(t: Table, g: Garbage): (r: Outcome<Executed>)
    ensures r.Done? ==>
      && r.value.result == Success
      && r.value.table.numRows == t.numRows
      && CacheExtends(t.pager, r.value.table.pager)
      && r.value.table.pager.fd == t.pager.fd
      && r.value.table.pager.fileLength == t.pager.fileLength
      && |r.value.printed| == t.numRows
    ensures r.Done? ==> forall k | 0 <= k < t.numRows ::
      && RowSlot(k).page in r.value.table.pager.pages
      && r.value.printed[k] == DeserializeRow(r.value.table.pager.pages[RowSlot(k).page], RowSlot(k).offset)
    ensures t.numRows <= TABLE_MAX_ROWS && Read !in t.pager.fd.failing ==> r.Done?
    ensures TABLE_MAX_ROWS < t.numRows && Read !in t.pager.fd.failing ==> r == Undefined(TABLE_MAX_PAGES)
    ensures r.Exit? ==> r.cause == ReadFailed
  {
    var q :- VisitRows(t.pager, 0, t.numRows, g);
    Done(Executed(Success, t.(pager := q), Decoded(q, t.numRows)))
  }

  /** Dispatch on the statement kind. */
  function ExecuteStatement(t: Table, st: Statement, g: Garbage): (r: Outcome<Executed>)
    ensures (r.Done? && r.value.result == TableFull) <==> (st.Insert? && t.numRows >= TABLE_MAX_ROWS)
    ensures st.Select? && r.Done? ==> |r.value.printed| == t.numRows && r.value.table.numRows == t.numRows
    ensures st.Insert? && r.Done? ==> r.value.printed == []
  {
    match st
    case Insert(row) => ExecuteInsert(t, row, g)
    case Select => ExecuteSelect(t, g)
  }

  /** One write performed while closing: `data` written at byte `offset`. */
  datatype Flush = Flush(page: nat, offset: nat, data: Bytes)

  /** The closed file and the writes, in order, that produced it. */
  datatype Closed = Closed(file: File, flushes: seq<Flush>)

  /** Where the partial last page is written: as the program does it
      (`page * size`) or at its own page position (`page * PAGE_SIZE`). */
  datatype Placement = AsWritten | Aligned

  /** The file after the writes of `log`, in order. */
  function ApplyFlushes(bytes: Bytes, log: seq<Flush>): Bytes
    decreases |log|
  {
    if log == [] then bytes else ApplyFlushes(WriteAt(bytes, log[0].offset, log[0].data), log[1..])
  }

  /** Writing two logs one after the other is writing their concatenation. */
  lemma {:induction false} ApplyFlushesAppend(bytes: Bytes, a: seq<Flush>, b: seq<Flush>)
    ensures ApplyFlushes(bytes, a + b) == ApplyFlushes(ApplyFlushes(bytes, a), b)
    decreases |a|
  {
    if a == [] {
      assert a + b == b;
    } else {
      assert (a + b)[0] == a[0] && (a + b)[1..] == a[1..] + b;
      ApplyFlushesAppend(WriteAt(bytes, a[0].offset, a[0].data), a[1..], b);
    }
  }

  /** The page numbers a log writes. */
  function LogPages(log: seq<Flush>): set<nat> {
    set j | 0 <= j < |log| :: log[j].page
  }

  lemma LogPagesAppend(a: seq<Flush>, b: seq<Flush>)
    ensures LogPages(a + b) == LogPages(a) + LogPages(b)
  {
    var c := a + b;
    forall n | n in LogPages(c) ensures n in LogPages(a) + LogPages(b) {
      var j :| 0 <= j < |c| && c[j].page == n;
      if j >= |a| { assert b[j - |a|].page == n; }
    }
    forall n | n in LogPages(a) + LogPages(b) ensures n in LogPages(c) {
      if n in LogPages(a) {
        var j :| 0 <= j < |a| && a[j].page == n;
        assert c[j].page == n;
      } else {
        var j :| 0 <= j < |b| && b[j].page == n;
        assert c[|a| + j].page == n;
      }
    }
  }

  lemma LogPagesSingle(f: Flush)
    ensures LogPages([f]) == {f.page}
  {
    assert [f][0].page == f.page;
  }

  /** The cached page numbers in `lo..hi-1`. */
  function CachedIn(pages: map<nat, Page>, lo: nat, hi: nat): set<nat> {
    set n | n in pages && lo <= n < hi
  }

  /** One planned write of the close: a whole page `< full` at its page
      position, or the used part of page `full` at the placement's offset. */
  predicate Planned(f: Flush, page: Page, full: nat, rem: nat, place: Placement) {
    if f.page < full then f.offset == f.page * PAGE_SIZE && f.data == page
    else
      && f.page == full && 0 < rem < ROWS_PER_PAGE
      && f.data == page[..rem * ROW_SIZE]
      && f.offset == if place.AsWritten? then f.page * |f.data| else f.page * PAGE_SIZE
  }

  /** The pages the close of a table with `numRows` rows must write: the
      cached full pages and the cached partial last page. */
  function DuePages(pages: map<nat, Page>, numRows: nat): set<nat> {
    CachedIn(pages, 0, numRows / ROWS_PER_PAGE + (if numRows % ROWS_PER_PAGE > 0 then 1 else 0))
  }

  /** The writes the close of `t` performs, described without its loops: one
      per due page, in increasing page order, each as `Planned`. */
  predicate FlushPlan(t: Table, log: seq<Flush>, place: Placement) {
    var full := t.numRows / ROWS_PER_PAGE;
    var rem := t.numRows % ROWS_PER_PAGE;
    var pages := t.pager.pages;
    && (forall j | 0 <= j < |log| :: log[j].page in pages && Planned(log[j], pages[log[j].page], full, rem, place))
    && (forall j, j' | 0 <= j < j' < |log| :: log[j].page < log[j'].page)
    && LogPages(log) == DuePages(pages, t.numRows)
  }

  /** The writes of the loop over the full pages `i..full-1`: each cached
      page, whole, at its page position, in page order. */
  function FullPageFlushes(pages: map<nat, Page>, i: nat, full: nat): seq<Flush>
    decreases full - i
  {
    if i >= full then []
    else if i !in pages then FullPageFlushes(pages, i + 1, full)
    else [Flush(i, i * PAGE_SIZE, pages[i])] + FullPageFlushes(pages, i + 1, full)
  }

  /** The writes depend only on the pages in `i..full-1`. */
  lemma {:induction false} FullPageFlushesFrame(a: map<nat, Page>, b: map<nat, Page>, i: nat, full: nat)
    requires forall n | i <= n < full :: (n in a <==> n in b) && (n in a ==> a[n] == b[n])
    ensures FullPageFlushes(a, i, full) == FullPageFlushes(b, i, full)
    decreases full - i
  {
    if i < full {
      FullPageFlushesFrame(a, b, i + 1, full);
    }
  }

  /** The writes of the full-page loop are one whole-page write at its own
      position per cached page in `i..full-1`, in increasing page order. */
  lemma {:induction false} FullPageFlushesPlan(pages: map<nat, Page>, i: nat, full: nat)
    ensures var log := FullPageFlushes(pages, i, full);
      && (forall j | 0 <= j < |log| ::
            && i <= log[j].page < full && log[j].page in pages
            && log[j].offset == log[j].page * PAGE_SIZE && log[j].data == pages[log[j].page])
      && (forall j, j' | 0 <= j < j' < |log| :: log[j].page < log[j'].page)
      && LogPages(log) == CachedIn(pages, i, full)
    decreases full - i
  {
    var log := FullPageFlushes(pages, i, full);
    if i >= full {
      assert CachedIn(pages, i, full) == {};
    } else {
      var rest := FullPageFlushes(pages, i + 1, full);
      FullPageFlushesPlan(pages, i + 1, full);
      if i !in pages {
        assert CachedIn(pages, i, full) == CachedIn(pages, i + 1, full);
      } else {
        var f := Flush(i, i * PAGE_SIZE, pages[i]);
        assert log == [f] + rest;
        LogPagesAppend([f], rest);
        LogPagesSingle(f);
        assert CachedIn(pages, i, full) == {i} + CachedIn(pages, i + 1, full);
        forall j | 0 <= j < |log|
          ensures i <= log[j].page < full && log[j].page in pages
          ensures log[j].offset == log[j].page * PAGE_SIZE && log[j].data == pages[log[j].page]
        {
          if j > 0 { assert log[j] == rest[j - 1]; }
        }
        forall j, j' | 0 <= j < j' < |log|
          ensures log[j].page < log[j'].page
        {
          assert log[j'] == rest[j' - 1];
          if j > 0 { assert log[j] == rest[j - 1]; }
        }
      }
    }
  }

  /** The loop over the full pages `i..full-1`: flush each cached one whole
      and drop it from the cache. */
  function FlushFullPages(p: Pager, i: nat, full: nat): (r: Outcome<(Pager, seq<Flush>)>)
    decreases full - i
    ensures r.Done? ==>
      && r.value.0.fd.failing == p.fd.failing
      && r.value.0.fileLength == p.fileLength
      && r.value.1 == FullPageFlushes(p.pages, i, full)
      && r.value.0.fd.bytes == ApplyFlushes(p.fd.bytes, r.value.1)
    ensures r.Done? ==>
      && (forall n | n in r.value.0.pages :: n in p.pages && r.value.0.pages[n] == p.pages[n] && !(i <= n < full))
      && (forall n | n in p.pages && !(i <= n < full) :: n in r.value.0.pages)
    ensures Seek !in p.fd.failing && Write !in p.fd.failing ==>
      (full <= TABLE_MAX_PAGES ==> r.Done?)
      && (i <= TABLE_MAX_PAGES < full ==> r == Undefined(TABLE_MAX_PAGES))
    ensures r.Undefined? ==> TABLE_MAX_PAGES < full
    ensures r.Exit? ==> r.cause == SeekFailed || r.cause == WriteFailed
  {
    if i >= full then Done((p, []))
    else if i >= TABLE_MAX_PAGES then Undefined(i)
    else if i !in p.pages then FlushFullPages(p, i + 1, full)
    else
      var q :- PagerFlush(p, i, PAGE_SIZE);
      var q' := q.(pages := q.pages - {i});
      var rest :- FlushFullPages(q', i + 1, full);
      assert p.pages[i][..PAGE_SIZE] == p.pages[i];
      var f := Flush(i, i * PAGE_SIZE, p.pages[i]);
      assert ([f] + rest.1)[1..] == rest.1;
      FullPageFlushesFrame(q'.pages, p.pages, i + 1, full);
      Done((rest.0, [f] + rest.1))
  }

  /** The partial last page `full`, holding `rem` rows: if cached, flush its
      used bytes and drop it from the cache. */
  function FlushPartialPage(p: Pager, full: nat, rem: nat, place: Placement): (r: Outcome<(Pager, seq<Flush>)>)
    requires rem < ROWS_PER_PAGE
    ensures r.Done? ==>
      && r.value.0.fd.failing == p.fd.failing
      && r.value.0.fd.bytes == ApplyFlushes(p.fd.bytes, r.value.1)
    ensures r.Done? && (rem == 0 || full !in p.pages) ==> r.value.1 == []
    ensures r.Done? && rem > 0 && full in p.pages ==>
      && |r.value.1| == 1 && r.value.1[0].page == full
      && Planned(r.value.1[0], p.pages[full], full, rem, place)
    ensures Seek !in p.fd.failing && Write !in p.fd.failing ==> (r.Undefined? <==> rem > 0 && full >= TABLE_MAX_PAGES)
    ensures r.Undefined? ==> rem > 0 && full >= TABLE_MAX_PAGES
    ensures r.Exit? ==> r.cause == SeekFailed || r.cause == WriteFailed
  {
    if rem == 0 then Done((p, []))
    else if full >= TABLE_MAX_PAGES then Undefined(full)
    else if full !in p.pages then Done((p, []))
    else
      var size := rem * ROW_SIZE;
      var q :- if place.AsWritten? then PagerFlush(p, full, size) else PagerFlushAligned(p, full, size);
      var offset := if place.AsWritten? then full * size else full * PAGE_SIZE;
      var log := [Flush(full, offset, p.pages[full][..size])];
      assert ApplyFlushes(p.fd.bytes, log) == ApplyFlushes(q.fd.bytes, []);
      Done((q.(pages := q.pages - {full}), log))
  }

  /** Close: flush the cached full pages, then the cached partial page, then
      close the descriptor.  The remaining buffers are released without being
      written. */
  function CloseWith(t: Table, place: Placement): (r: Outcome<Closed>)
    ensures r.Done? ==> FlushPlan(t, r.value.flushes, place)
    ensures r.Done? ==> r.value.file == File(ApplyFlushes(t.pager.fd.bytes, r.value.flushes), t.pager.fd.failing)
    ensures t.pager.fd.failing == {} ==> !r.Exit? && (r.Undefined? <==> t.numRows > TABLE_MAX_ROWS)
    ensures r.Exit? ==> r.cause in {SeekFailed, WriteFailed, CloseFailed}
  {
    var full := t.numRows / ROWS_PER_PAGE;
    var rem := t.numRows % ROWS_PER_PAGE;
    var whole :- FlushFullPages(t.pager, 0, full);
    var part :- FlushPartialPage(whole.0, full, rem, place);
    if Close in part.0.fd.failing then Exit(CloseFailed)
    else
      assert full in t.pager.pages ==> full in whole.0.pages && whole.0.pages[full] == t.pager.pages[full];
      CloseWithPlan(t, place, whole.1, part.1);
      ApplyFlushesAppend(t.pager.fd.bytes, whole.1, part.1);
      Done(Closed(part.0.fd, whole.1 + part.1))
  }

  /** The log of the full pages followed by the log of the partial page is
      the plan of the close. */
  lemma CloseWithPlan(t: Table, place: Placement, whole: seq<Flush>, part: seq<Flush>)
    requires whole == FullPageFlushes(t.pager.pages, 0, t.numRows / ROWS_PER_PAGE)
    requires var full, rem := t.numRows / ROWS_PER_PAGE, t.numRows % ROWS_PER_PAGE;
      if rem > 0 && full in t.pager.pages then
        |part| == 1 && part[0].page == full && Planned(part[0], t.pager.pages[full], full, rem, place)
      else part == []
    ensures FlushPlan(t, whole + part, place)
  {
    var full := t.numRows / ROWS_PER_PAGE;
    var rem := t.numRows % ROWS_PER_PAGE;
    var pages := t.pager.pages;
    var log := whole + part;
    FullPageFlushesPlan(pages, 0, full);
    LogPagesAppend(whole, part);
    if rem > 0 && full in pages {
      assert part == [part[0]];
      LogPagesSingle(part[0]);
      assert DuePages(pages, t.numRows) == CachedIn(pages, 0, full) + {full};
    } else {
      assert DuePages(pages, t.numRows) == CachedIn(pages, 0, full);
    }
    forall j | 0 <= j < |log|
      ensures log[j].page in pages && Planned(log[j], pages[log[j].page], full, rem, place)
    {
      if j >= |whole| {
        assert log[j] == part[j - |whole|];
      } else {
        assert log[j] == whole[j];
        assert whole[j].page < full && whole[j].page in pages;
        assert whole[j].offset == whole[j].page * PAGE_SIZE && whole[j].data == pages[whole[j].page];
      }
    }
    forall j, j' | 0 <= j < j' < |log|
      ensures log[j].page < log[j'].page
    {
      if j' >= |whole| {
        assert log[j'] == part[0] && j < |whole|;
        assert log[j] == whole[j] && whole[j].page < full;
      } else {
        assert log[j] == whole[j] && log[j'] == whole[j'];
      }
    }
  }

  /** Close as the program does it. */
  function DbClose(t: Table): (r: Outcome<Closed>)
    ensures r.Done? ==> FlushPlan(t, r.value.flushes, AsWritten)
    ensures r.Done? ==> r.value.file == File(ApplyFlushes(t.pager.fd.bytes, r.value.flushes), t.pager.fd.failing)
    ensures t.pager.fd.failing == {} ==> !r.Exit? && (r.Undefined? <==> t.numRows > TABLE_MAX_ROWS)
    ensures r.Exit? ==> r.cause in {SeekFailed, WriteFailed, CloseFailed}
  {
    CloseWith(t, AsWritten)
  }

  /** Close with the partial last page written at its own page position. */
  function DbCloseAligned(t: Table): (r: Outcome<Closed>)
    ensures r.Done? ==> FlushPlan(t, r.value.flushes, Aligned)
    ensures r.Done? ==> r.value.file == File(ApplyFlushes(t.pager.fd.bytes, r.value.flushes), t.pager.fd.failing)
    ensures t.pager.fd.failing == {} ==> !r.Exit? && (r.Undefined? <==> t.numRows > TABLE_MAX_ROWS)
  {
    CloseWith(t, Aligned)
  }

  /** The two placements coincide when there is no partial page or the
      partial page is page 0, i.e. with fewer than 23 rows or a multiple of 23. */
  lemma CloseAgreesWhenNoMisplacement(t: Table)
    requires t.numRows < ROWS_PER_PAGE || t.numRows % ROWS_PER_PAGE == 0
    ensures DbClose(t) == DbCloseAligned(t)
  {
  }
}
