/** Three defects of the disk-backed table, each shown on a concrete session
    of the program as written and set beside the corrected behaviour:

    - the page-number guard of the fetch lets page numbers 100..2300 reach
      past the page array;
    - the close writes the partial last page at `page * bytes`, not at
      `page * PAGE_SIZE`, so from the second page on it overwrites rows of
      an earlier page;
    - the open counts rows as `length / ROW_SIZE`, which counts the padding
      at the end of full pages as rows once there are two of them. */
module Defects {
  import opened Layout
  import opened Codec
  import opened Addressing
  import opened Disk
  import opened Pager
  import opened Table
  import opened Session
  import opened Persistence

  /** A new file filled with `rows`: the table holds them and its file is
      still empty. */
  lemma FreshTableHolds(rows: seq<Row>, g: Garbage)
    requires |rows| <= TABLE_MAX_ROWS
    ensures DbOpen(Missing).Done? && InsertAll(DbOpen(Missing).value, rows, g).Done?
    ensures var t := InsertAll(DbOpen(Missing).value, rows, g).value;
      Holds(t, rows) && t.pager.fd == File([], {})
  {
    var t0 := DbOpen(Missing).value;
    assert Holds(t0, []);
    InsertAllHolds(t0, [], rows, g);
    assert [] + rows == rows;
  }

  // ---------------------------------------------------------------------
  // The fetch guard.

  /** As written: a file of 2301 rows opens, and its select asks for page
      100, one past the page array. */
  lemma OversizedFileReachesPastPages(f: File, g: Garbage)
    requires |f.bytes| == (TABLE_MAX_ROWS + 1) * ROW_SIZE && Read !in f.failing
    ensures DbOpen(Present(f)).Done?
    ensures DbOpen(Present(f)).value.numRows == TABLE_MAX_ROWS + 1
    ensures ExecuteSelect(DbOpen(Present(f)).value, g) == Undefined(TABLE_MAX_PAGES)
  {
  }

  /** Corrected: the bounded fetch rejects every page a row past the capacity
      lives in and agrees with the fetch as written on every other row. */
  lemma BoundedFetchOfRow(p: Pager, k: nat, junk: Page)
    ensures GetPageBounded(p, RowSlot(k).page, junk)
         == if k < TABLE_MAX_ROWS then GetPage(p, RowSlot(k).page, junk) else Exit(PageOutOfBound)
  {
    CapacityMatchesPages(k);
  }

  // ---------------------------------------------------------------------
  // The misplaced partial page.

  /** The close as written of 25 rows writes page 0 whole at offset 0 and
      the 344 used bytes of page 1 at offset `1 * 344`. */
  lemma MisplacedLog(t: Table, rows: seq<Row>, log: seq<Flush>)
    requires Holds(t, rows) && |rows| == 25 && FlushPlan(t, log, AsWritten)
    ensures 0 in t.pager.pages && 1 in t.pager.pages
    ensures log == [Flush(0, 0, t.pager.pages[0]), Flush(1, 344, t.pager.pages[1][..344])]
  {
    CloseWritesEveryPage(t, rows, log, AsWritten);
    assert Planned(log[0], t.pager.pages[0], 1, 2, AsWritten);
    assert Planned(log[1], t.pager.pages[1], 1, 2, AsWritten);
  }

  /** Writing a whole page at 0 and then 344 bytes at 344 into an empty file
      leaves one page whose bytes 344..687 are the second write. */
  lemma MisplacedBytes(page0: Page, d: Bytes)
    requires |d| == 344
    ensures var out := ApplyFlushes([], [Flush(0, 0, page0), Flush(1, 344, d)]);
      && |out| == PAGE_SIZE
      && out[344..516] == d[0..172] && out[516..688] == d[172..344]
  {
    var log := [Flush(0, 0, page0), Flush(1, 344, d)];
    var w0 := WriteAt([], 0, page0);
    var out := WriteAt(w0, 344, d);
    assert ApplyFlushes([], log) == ApplyFlushes(w0, log[1..]);
    assert ApplyFlushes(w0, log[1..]) == ApplyFlushes(out, log[2..]);
    forall b | 0 <= b < 344
      ensures LandsAt(out, 344, d, b)
    {
    }
    LandsAsSlice(out, 344, d, 0, 172);
    LandsAsSlice(out, 344, d, 172, 344);
  }

  /** The file the close as written leaves for 25 rows stores rows 23 and 24
      at the file positions of rows 2 and 3. */
  lemma MisplacedFile(t: Table, rows: seq<Row>)
    requires Holds(t, rows) && |rows| == 25 && t.pager.fd == File([], {})
    ensures DbClose(t).Done?
    ensures var f := DbClose(t).value.file;
      && f.failing == {} && |f.bytes| == PAGE_SIZE
      && StoredRow(f.bytes, 2) == rows[23] && StoredRow(f.bytes, 3) == rows[24]
  {
    var log := DbClose(t).value.flushes;
    MisplacedLog(t, rows, log);
    var page1 := t.pager.pages[1];
    MisplacedBytes(t.pager.pages[0], page1[..344]);
    assert page1[..344][0..172] == page1[0..172];
    assert page1[..344][172..344] == page1[172..344];
    assert RowSlot(23) == Slot(1, 0) && RowSlot(24) == Slot(1, 172);
    assert FilePos(2) == 344 && FilePos(3) == 516;
  }

  /** Reopening with the open as written: the row count is the file length
      over the row size, and the select prints, for every row, the row
      stored at its file position when the file reaches that far, and the
      row decoded from the fresh buffer when its page lies wholly past the
      end of the file. */
  lemma ReopenAsWritten(f: File, g: Garbage)
    requires Read !in f.failing && |f.bytes| / ROW_SIZE <= TABLE_MAX_ROWS
    ensures DbOpen(Present(f)).Done? && DbOpen(Present(f)).value.numRows == |f.bytes| / ROW_SIZE
    ensures ExecuteSelect(DbOpen(Present(f)).value, g).Done?
    ensures var e := ExecuteSelect(DbOpen(Present(f)).value, g).value;
      && (forall k | 0 <= k < |f.bytes| / ROW_SIZE && FilePos(k) + ROW_SIZE <= |f.bytes| ::
            e.printed[k] == StoredRow(f.bytes, k))
      && (forall k | 0 <= k < |f.bytes| / ROW_SIZE && |f.bytes| <= RowSlot(k).page * PAGE_SIZE ::
            e.printed[k] == DeserializeRow(g(RowSlot(k).page), RowSlot(k).offset))
  {
    var t := DbOpen(Present(f)).value;
    SelectReadsFile(t, g);
    VisitLoadedFrom(t.pager, 0, t.numRows, g);
    var q := ExecuteSelect(t, g).value.table.pager;
    forall k | 0 <= k < t.numRows && |f.bytes| <= RowSlot(k).page * PAGE_SIZE
      ensures q.pages[RowSlot(k).page] == g(RowSlot(k).page)
    {
      PastFileIsJunk(q, g, RowSlot(k).page);
    }
  }

  /** A page loaded from wholly past the end of the file is the fresh
      buffer's junk. */
  lemma PastFileIsJunk(q: Pager, g: Garbage, n: nat)
    requires LoadedFrom(q, g) && n in q.pages && |q.fd.bytes| <= n * PAGE_SIZE
    ensures q.pages[n] == g(n)
  {
    forall b | 0 <= b < PAGE_SIZE ensures q.pages[n][b] == g(n)[b] {
    }
  }

  /** As written: 25 rows fill page 0 and two slots of page 1.  The close
      writes those 344 bytes at offset `1 * 344`, onto rows 2 and 3 of page
      0, and leaves a 4096-byte file.  Reopened, the table has 23 rows, rows
      23 and 24 print in the places of rows 2 and 3, and rows 2 and 3 are
      lost. */
  lemma PartialPageMisplaced(rows: seq<Row>, g: Garbage)
    requires |rows| == 25
    ensures DbOpen(Missing).Done? && InsertAll(DbOpen(Missing).value, rows, g).Done?
    ensures DbClose(InsertAll(DbOpen(Missing).value, rows, g).value).Done?
    ensures var f := DbClose(InsertAll(DbOpen(Missing).value, rows, g).value).value.file;
      && |f.bytes| == PAGE_SIZE
      && DbOpen(Present(f)).Done? && DbOpen(Present(f)).value.numRows == 23
      && ExecuteSelect(DbOpen(Present(f)).value, g).Done?
      && ExecuteSelect(DbOpen(Present(f)).value, g).value.printed[2] == rows[23]
      && ExecuteSelect(DbOpen(Present(f)).value, g).value.printed[3] == rows[24]
  {
    FreshTableHolds(rows, g);
    var t := InsertAll(DbOpen(Missing).value, rows, g).value;
    MisplacedFile(t, rows);
    var f := DbClose(t).value.file;
    ReopenAsWritten(f, g);
    assert FilePos(2) == 344 && FilePos(3) == 516;
  }

  /** Corrected: the aligned close of the same 25 rows keeps the partial
      page after page 0, in a file of one page plus the 344 used bytes, with
      rows 2 and 23 each at its own file position. */
  lemma PartialPageKept(rows: seq<Row>, g: Garbage)
    requires |rows| == 25
    ensures DbOpen(Missing).Done? && InsertAll(DbOpen(Missing).value, rows, g).Done?
    ensures DbCloseAligned(InsertAll(DbOpen(Missing).value, rows, g).value).Done?
    ensures var f := DbCloseAligned(InsertAll(DbOpen(Missing).value, rows, g).value).value.file;
      && |f.bytes| == PAGE_SIZE + 2 * ROW_SIZE
      && FilePos(2) == 2 * ROW_SIZE && FilePos(23) == PAGE_SIZE
      && StoredRow(f.bytes, 2) == rows[2] && StoredRow(f.bytes, 23) == rows[23]
  {
    FreshTableHolds(rows, g);
    var t := InsertAll(DbOpen(Missing).value, rows, g).value;
    AlignedCloseImage(t, rows);
    assert ImageSize(25) == PAGE_SIZE + 2 * ROW_SIZE;
    assert RowSlot(23) == Slot(1, 0);
  }

  // ---------------------------------------------------------------------
  // The row count of the open.

  /** As written, the open counts the image of `n` rows as `n` rows exactly
      when the image has fewer than two full pages, and never as fewer. */
  lemma AsWrittenCountOfImage(n: nat)
    ensures ImageSize(n) / ROW_SIZE >= n
    ensures ImageSize(n) / ROW_SIZE == n <==> n < 2 * ROWS_PER_PAGE
  {
    var p, r := n / ROWS_PER_PAGE, n % ROWS_PER_PAGE;
    assert n == p * ROWS_PER_PAGE + r;
    var len := p * PAGE_SIZE + r * ROW_SIZE;
    assert len == n * ROW_SIZE + p * (PAGE_SIZE - ROWS_PER_PAGE * ROW_SIZE);
    assert len / ROW_SIZE == n + (p * (PAGE_SIZE - ROWS_PER_PAGE * ROW_SIZE)) / ROW_SIZE;
    assert (p * (PAGE_SIZE - ROWS_PER_PAGE * ROW_SIZE)) / ROW_SIZE == 0 <==> p < 2;
  }

  /** As written: 46 rows fill two pages and close to an 8192-byte file;
      reopened, the table counts 47 rows, and the 47th is decoded from the
      fresh buffer of page 2, which no byte of the file reaches. */
  lemma PhantomRowAfterReopen(rows: seq<Row>, g: Garbage)
    requires |rows| == 2 * ROWS_PER_PAGE
    ensures DbOpen(Missing).Done? && InsertAll(DbOpen(Missing).value, rows, g).Done?
    ensures DbClose(InsertAll(DbOpen(Missing).value, rows, g).value).Done?
    ensures var f := DbClose(InsertAll(DbOpen(Missing).value, rows, g).value).value.file;
      && |f.bytes| == 2 * PAGE_SIZE
      && DbOpen(Present(f)).Done? && DbOpen(Present(f)).value.numRows == 47
      && ExecuteSelect(DbOpen(Present(f)).value, g).Done?
      && ExecuteSelect(DbOpen(Present(f)).value, g).value.printed[..46] == rows
      && ExecuteSelect(DbOpen(Present(f)).value, g).value.printed[46] == DeserializeRow(g(2), 0)
  {
    FreshTableHolds(rows, g);
    var t := InsertAll(DbOpen(Missing).value, rows, g).value;
    CloseAgreesWhenNoMisplacement(t);
    AlignedCloseImage(t, rows);
    var f := DbClose(t).value.file;
    PhantomReopen(f, rows, g);
  }

  /** Reopening the image of 46 rows with the open as written. */
  lemma PhantomReopen(f: File, rows: seq<Row>, g: Garbage)
    requires Image(f, rows) && |rows| == 46 && f.failing == {}
    ensures |f.bytes| == 2 * PAGE_SIZE
    ensures DbOpen(Present(f)).Done? && DbOpen(Present(f)).value.numRows == 47
    ensures ExecuteSelect(DbOpen(Present(f)).value, g).Done?
    ensures ExecuteSelect(DbOpen(Present(f)).value, g).value.printed[..46] == rows
    ensures ExecuteSelect(DbOpen(Present(f)).value, g).value.printed[46] == DeserializeRow(g(2), 0)
  {
    assert |f.bytes| == 8192;
    ReopenAsWritten(f, g);
    assert RowSlot(46) == Slot(2, 0);
    var e := ExecuteSelect(DbOpen(Present(f)).value, g).value;
    assert forall k | 0 <= k < 46 :: FilePos(k) + ROW_SIZE <= |f.bytes|;
    assert e.printed[..46] == rows;
  }

  /** Corrected: with the page-by-page count the same session reopens to its
      46 rows, and any number of rows up to the capacity survives. */
  lemma PagedCountAfterReopen(rows: seq<Row>, g: Garbage)
    requires |rows| <= TABLE_MAX_ROWS
    ensures DbOpen(Missing).Done? && InsertAll(DbOpen(Missing).value, rows, g).Done?
    ensures DbCloseAligned(InsertAll(DbOpen(Missing).value, rows, g).value).Done?
    ensures var f := DbCloseAligned(InsertAll(DbOpen(Missing).value, rows, g).value).value.file;
      && DbOpenPaged(Present(f)).Done? && DbOpenPaged(Present(f)).value.numRows == |rows|
      && ExecuteSelect(DbOpenPaged(Present(f)).value, g).Done?
      && ExecuteSelect(DbOpenPaged(Present(f)).value, g).value.printed == rows
  {
    FreshTableHolds(rows, g);
    AlignedCloseReopen(InsertAll(DbOpen(Missing).value, rows, g).value, rows, g);
  }

  /** The program as written does keep a table of at most one page: its
      close and its open agree with the corrected ones there. */
  lemma AsWrittenKeepsOnePage(t: Table, rows: seq<Row>, g: Garbage)
    requires Holds(t, rows) && |rows| <= ROWS_PER_PAGE && t.pager.fd.failing == {}
    requires |t.pager.fd.bytes| <= ImageSize(|rows|)
    ensures DbClose(t).Done?
    ensures var f := DbClose(t).value.file;
      && DbOpen(Present(f)).Done? && DbOpen(Present(f)).value.numRows == |rows|
      && ExecuteSelect(DbOpen(Present(f)).value, g).Done?
      && ExecuteSelect(DbOpen(Present(f)).value, g).value.printed == rows
  {
    CloseAgreesWhenNoMisplacement(t);
    AlignedCloseImage(t, rows);
    var f := DbClose(t).value.file;
    FirstPageCounts(|f.bytes|);
    RowsInImageSize(|rows|);
    assert DbOpen(Present(f)) == DbOpenPaged(Present(f));
    ReopenImage(f, rows, g);
  }
}
