/** What survives a close and a reopen: where the close puts each row in the
    file, how many rows the reopened table counts, and what its select
    prints. */
module Persistence {
  import opened Layout
  import opened Codec
  import opened Addressing
  import opened Disk
  import opened Pager
  import opened Table
  import opened Session

  /** Byte position of row `k` in a file whose pages are laid out one after
      another. */
  function FilePos(k: nat): nat {
    RowSlot(k).page * PAGE_SIZE + RowSlot(k).offset
  }

  /** Length of the file that holds `n` rows page by page: the full pages,
      then the used part of the last page. */
  function ImageSize(n: nat): (len: nat)
    ensures forall k | 0 <= k < n :: FilePos(k) + ROW_SIZE <= len
  {
    var len := (n / ROWS_PER_PAGE) * PAGE_SIZE + (n % ROWS_PER_PAGE) * ROW_SIZE;
    assert forall k | 0 <= k < n :: FilePos(k) + ROW_SIZE <= len by {
      forall k | 0 <= k < n ensures FilePos(k) + ROW_SIZE <= len {
        RowInImage(k, n);
      }
    }
    len
  }

  /** The row stored at row `k`'s file position. */
  function StoredRow(bytes: Bytes, k: nat): Row
    requires FilePos(k) + ROW_SIZE <= |bytes|
  {
    DecodeRow(bytes[FilePos(k)..FilePos(k) + ROW_SIZE])
  }

  /** Rows in a file of `len` bytes laid out page by page: whole rows of every
      full page plus the whole rows of the trailing partial page. */
  function RowsIn(len: nat): nat {
    (len / PAGE_SIZE) * ROWS_PER_PAGE + (len % PAGE_SIZE) / ROW_SIZE
  }

  /** Counting rows page by page undoes laying them out page by page. */
  lemma RowsInImageSize(n: nat)
    ensures RowsIn(ImageSize(n)) == n
  {
    var full, rem := n / ROWS_PER_PAGE, n % ROWS_PER_PAGE;
    assert rem * ROW_SIZE < PAGE_SIZE;
    var len := full * PAGE_SIZE + rem * ROW_SIZE;
    assert len / PAGE_SIZE == full && len % PAGE_SIZE == rem * ROW_SIZE;
    assert (rem * ROW_SIZE) / ROW_SIZE == rem;
  }

  /** Every row below `n` lies inside the image of `n` rows. */
  lemma RowInImage(k: nat, n: nat)
    requires k < n
    ensures FilePos(k) + ROW_SIZE <= (n / ROWS_PER_PAGE) * PAGE_SIZE + (n % ROWS_PER_PAGE) * ROW_SIZE
  {
    var pk, rk := k / ROWS_PER_PAGE, k % ROWS_PER_PAGE;
    var pn, rn := n / ROWS_PER_PAGE, n % ROWS_PER_PAGE;
    assert k == pk * ROWS_PER_PAGE + rk && n == pn * ROWS_PER_PAGE + rn;
    assert pk <= pn;
    if pk < pn {
      assert pk * PAGE_SIZE + PAGE_SIZE <= pn * PAGE_SIZE;
    } else {
      assert rk < rn;
    }
  }

  /** Whole rows counted page by page lie inside the file. */
  lemma RowInFile(k: nat, len: nat)
    requires k < RowsIn(len)
    ensures FilePos(k) + ROW_SIZE <= len
  {
    var full, rest := len / PAGE_SIZE, len % PAGE_SIZE;
    assert len == full * PAGE_SIZE + rest;
    var whole := rest / ROW_SIZE;
    assert whole * ROW_SIZE <= rest && whole <= ROWS_PER_PAGE;
    assert k < full * ROWS_PER_PAGE + whole;
    var pk, rk := k / ROWS_PER_PAGE, k % ROWS_PER_PAGE;
    assert k == pk * ROWS_PER_PAGE + rk;
    if pk < full {
      assert pk * PAGE_SIZE + PAGE_SIZE <= full * PAGE_SIZE;
    } else {
      assert pk == full && rk < whole;
    }
  }

  /** Up to one page of rows, counting by the row size alone agrees with
      counting page by page. */
  lemma FirstPageCounts(len: nat)
    requires len <= PAGE_SIZE
    ensures len / ROW_SIZE == RowsIn(len)
  {
    if len < PAGE_SIZE {
      assert len / PAGE_SIZE == 0 && len % PAGE_SIZE == len;
    } else {
      assert len / PAGE_SIZE == 1 && len % PAGE_SIZE == 0;
    }
  }

  lemma PageStartsOrdered(a: nat, b: nat)
    requires a < b
    ensures a * PAGE_SIZE + PAGE_SIZE <= b * PAGE_SIZE
  {
    assert (b - a) * PAGE_SIZE >= PAGE_SIZE;
  }

  /** The corrected open: the row count is taken page by page, so the padding
      at the end of every full page is not counted as rows.  Every counted row
      lies inside the file and the next one does not. */
  function DbOpenPaged(e: Entry): (r: Outcome<Table>)
    ensures r.Exit? <==> e.Inaccessible?
    ensures !r.Undefined?
    ensures r.Done? ==>
      && r.value.pager.pages == map[]
      && r.value.pager.fileLength == |r.value.pager.fd.bytes|
      && (forall k | 0 <= k < r.value.numRows :: FilePos(k) + ROW_SIZE <= r.value.pager.fileLength)
      && FilePos(r.value.numRows) + ROW_SIZE > r.value.pager.fileLength
  {
    var p :- PagerOpen(e);
    assert forall k | 0 <= k < RowsIn(p.fileLength) :: FilePos(k) + ROW_SIZE <= p.fileLength by {
      forall k | 0 <= k < RowsIn(p.fileLength) ensures FilePos(k) + ROW_SIZE <= p.fileLength {
        RowInFile(k, p.fileLength);
      }
    }
    Done(Table(RowsIn(p.fileLength), p))
  }

  /** Every cached page of `p` holds what a load from the file put there: the
      file's bytes where the file reaches, the fresh buffer's junk beyond. */
  predicate LoadedFrom(p: Pager, g: Garbage) {
    && p.fileLength == |p.fd.bytes|
    && forall n, b | n in p.pages && 0 <= b < PAGE_SIZE ::
         p.pages[n][b] == if n * PAGE_SIZE + b < |p.fd.bytes| then p.fd.bytes[n * PAGE_SIZE + b] else g(n)[b]
  }

  lemma FetchLoadedFrom(p: Pager, k: nat, g: Garbage)
    requires LoadedFrom(p, g) && FetchRow(p, k, g).Done?
    ensures LoadedFrom(FetchRow(p, k, g).value.pager, g)
  {
    var n0 := RowSlot(k).page;
    var l := FetchRow(p, k, g).value;
    assert l == GetPage(p, n0, g(n0)).value;
    if n0 !in p.pages && n0 > FilePages(p.fileLength) {
      PageStartsOrdered(FilePages(p.fileLength), n0);
    }
    forall n, b | n in l.pager.pages && 0 <= b < PAGE_SIZE
      ensures l.pager.pages[n][b]
           == if n * PAGE_SIZE + b < |l.pager.fd.bytes| then l.pager.fd.bytes[n * PAGE_SIZE + b] else g(n)[b]
    {
      if n != n0 || n0 in p.pages {
        assert n in p.pages && l.pager.pages[n] == p.pages[n];
      }
    }
  }

  /** Visiting rows keeps every cached page as loaded from the file. */
  lemma {:induction false} VisitLoadedFrom(p: Pager, from: nat, to: nat, g: Garbage)
    requires LoadedFrom(p, g) && VisitRows(p, from, to, g).Done?
    ensures LoadedFrom(VisitRows(p, from, to, g).value, g)
    decreases (to as int) - (from as int)
  {
    if from < to {
      VisitUnfold(p, from, to, g);
      FetchLoadedFrom(p, from, g);
      VisitLoadedFrom(FetchRow(p, from, g).value.pager, from + 1, to, g);
    }
  }

  /** A slot inside the file, in a page loaded from the file, decodes to the
      row stored at the slot's file position. */
  lemma LoadedSlot(p: Pager, g: Garbage, k: nat)
    requires LoadedFrom(p, g) && RowSlot(k).page in p.pages
    requires FilePos(k) + ROW_SIZE <= |p.fd.bytes|
    ensures DeserializeRow(p.pages[RowSlot(k).page], RowSlot(k).offset)
         == StoredRow(p.fd.bytes, k)
  {
    var s := RowSlot(k);
    var page := p.pages[s.page];
    var a, b := page[s.offset..s.offset + ROW_SIZE], p.fd.bytes[FilePos(k)..FilePos(k) + ROW_SIZE];
    forall i | 0 <= i < ROW_SIZE
      ensures a[i] == b[i]
    {
      assert a[i] == page[s.offset + i];
      assert page[s.offset + i] == p.fd.bytes[s.page * PAGE_SIZE + (s.offset + i)];
    }
    assert a == b;
  }

  /** A select on a table just opened prints, for every row whose bytes lie
      inside the file, the row decoded from those bytes. */
  lemma SelectReadsFile(t: Table, g: Garbage)
    requires t.pager.pages == map[] && t.pager.fileLength == |t.pager.fd.bytes|
    requires t.numRows <= TABLE_MAX_ROWS && Read !in t.pager.fd.failing
    ensures ExecuteSelect(t, g).Done?
    ensures var e := ExecuteSelect(t, g).value;
      forall k | 0 <= k < t.numRows && FilePos(k) + ROW_SIZE <= |t.pager.fd.bytes| ::
        e.printed[k] == StoredRow(t.pager.fd.bytes, k)
  {
    var e := ExecuteSelect(t, g).value;
    var q := e.table.pager;
    VisitLoadedFrom(t.pager, 0, t.numRows, g);
    forall k | 0 <= k < t.numRows && FilePos(k) + ROW_SIZE <= |t.pager.fd.bytes|
      ensures e.printed[k] == StoredRow(t.pager.fd.bytes, k)
    {
      LoadedSlot(q, g, k);
    }
  }

  /** One past the last byte any write of `log` touches. */
  function LogEnd(log: seq<Flush>): nat
    decreases |log|
  {
    if log == [] then 0 else Max(log[0].offset + |log[0].data|, LogEnd(log[1..]))
  }

  /** A sequence of writes leaves the file as long as the longer of the old
      file and the furthest write. */
  lemma {:induction false} ApplyLength(bytes: Bytes, log: seq<Flush>)
    ensures |ApplyFlushes(bytes, log)| == Max(|bytes|, LogEnd(log))
    decreases |log|
  {
    if log != [] {
      ApplyLength(WriteAt(bytes, log[0].offset, log[0].data), log[1..]);
    }
  }

  /** Writes at or after `m` leave every existing byte before `m` as it was. */
  lemma {:induction false} ApplyFrame(bytes: Bytes, log: seq<Flush>, m: nat, i: nat)
    requires forall j | 0 <= j < |log| :: m <= log[j].offset
    requires i < m && i < |bytes|
    ensures i < |ApplyFlushes(bytes, log)| && ApplyFlushes(bytes, log)[i] == bytes[i]
    decreases |log|
  {
    if log != [] {
      var w := WriteAt(bytes, log[0].offset, log[0].data);
      ApplyFrame(w, log[1..], m, i);
    }
  }

  /** Each write of `log` stays inside the page it names, and the pages
      strictly increase. */
  predicate PageAligned(log: seq<Flush>) {
    && (forall j | 0 <= j < |log| :: log[j].offset == log[j].page * PAGE_SIZE && |log[j].data| <= PAGE_SIZE)
    && (forall j, j' | 0 <= j < j' < |log| :: log[j].page < log[j'].page)
  }

  lemma PageAlignedTail(log: seq<Flush>)
    requires PageAligned(log) && log != []
    ensures PageAligned(log[1..])
    ensures forall i | 0 <= i < |log| - 1 :: log[0].page * PAGE_SIZE + PAGE_SIZE <= log[1..][i].offset
  {
    var rest := log[1..];
    forall i | 0 <= i < |rest|
      ensures rest[i] == log[i + 1]
      ensures log[0].page * PAGE_SIZE + PAGE_SIZE <= rest[i].offset
    {
      PageStartsOrdered(log[0].page, log[i + 1].page);
    }
  }

  /** The first write of a page-aligned log survives the rest of the log. */
  lemma ApplyLandingFirst(bytes: Bytes, log: seq<Flush>, b: nat)
    requires PageAligned(log)
    requires 0 < |log| && b < |log[0].data|
    ensures log[0].offset + b < |ApplyFlushes(bytes, log)|
    ensures ApplyFlushes(bytes, log)[log[0].offset + b] == log[0].data[b]
  {
    var w := WriteAt(bytes, log[0].offset, log[0].data);
    assert ApplyFlushes(bytes, log) == ApplyFlushes(w, log[1..]);
    PageAlignedTail(log);
    ApplyFrame(w, log[1..], log[0].page * PAGE_SIZE + PAGE_SIZE, log[0].offset + b);
  }

  /** After page-aligned writes in increasing page order, every written
      byte is still in the file: no later write lands on an earlier one. */
  lemma {:induction false} ApplyLanding(bytes: Bytes, log: seq<Flush>, j: nat, b: nat)
    requires PageAligned(log)
    requires j < |log| && b < |log[j].data|
    ensures log[j].offset + b < |ApplyFlushes(bytes, log)|
    ensures ApplyFlushes(bytes, log)[log[j].offset + b] == log[j].data[b]
    decreases |log|
  {
    if j == 0 {
      ApplyLandingFirst(bytes, log, b);
    } else {
      var w := WriteAt(bytes, log[0].offset, log[0].data);
      var rest := log[1..];
      assert ApplyFlushes(bytes, log) == ApplyFlushes(w, rest);
      PageAlignedTail(log);
      assert rest[j - 1] == log[j];
      ApplyLanding(w, rest, j - 1, b);
    }
  }

  /** The furthest page-aligned write is the write of the last page. */
  lemma {:induction false} AlignedLogEnd(log: seq<Flush>)
    requires PageAligned(log) && log != []
    ensures LogEnd(log) == log[|log| - 1].offset + |log[|log| - 1].data|
    decreases |log|
  {
    if |log| > 1 {
      PageAlignedTail(log);
      AlignedLogEnd(log[1..]);
      assert log[1..][|log| - 2] == log[|log| - 1];
    }
  }

  /** In a log whose pages strictly increase, entry `j` names a page at
      least `j`. */
  lemma {:induction false} PagesAtLeastIndex(log: seq<Flush>, j: nat)
    requires forall i, i' | 0 <= i < i' < |log| :: log[i].page < log[i'].page
    requires j < |log|
    ensures j <= log[j].page
  {
    if j > 0 {
      PagesAtLeastIndex(log, j - 1);
    }
  }

  /** A log whose pages strictly increase and are exactly `0..count-1`
      writes page `j` as its entry `j`. */
  lemma {:induction false} LogIsPlanned(log: seq<Flush>, count: nat, n: nat)
    requires forall i, i' | 0 <= i < i' < |log| :: log[i].page < log[i'].page
    requires forall m | 0 <= m < count :: m in LogPages(log)
    requires n <= count
    ensures n <= |log| && forall i | 0 <= i < n :: log[i].page == i
  {
    if n > 0 {
      LogIsPlanned(log, count, n - 1);
      assert n - 1 in LogPages(log);
      var j :| 0 <= j < |log| && log[j].page == n - 1;
      PagesAtLeastIndex(log, j);
    }
  }

  /** ... and has no other entry. */
  lemma LogIsPlannedExactly(log: seq<Flush>, count: nat)
    requires forall i, i' | 0 <= i < i' < |log| :: log[i].page < log[i'].page
    requires forall m | 0 <= m < count :: m in LogPages(log)
    requires forall i | 0 <= i < |log| :: log[i].page < count
    ensures |log| == count && forall i | 0 <= i < count :: log[i].page == i
  {
    LogIsPlanned(log, count, count);
    if |log| > count {
      PagesAtLeastIndex(log, |log| - 1);
    }
  }

  /** The close of a table that holds `rows` is due to write exactly the
      pages `0..PagesFor(|rows|)-1`, since every one of them is cached. */
  lemma DueIsEveryPage(t: Table, rows: seq<Row>)
    requires Holds(t, rows)
    ensures forall m | 0 <= m < PagesFor(|rows|) :: m in DuePages(t.pager.pages, |rows|)
    ensures forall m | m in DuePages(t.pager.pages, |rows|) :: m < PagesFor(|rows|)
  {
    var n := |rows|;
    assert n / ROWS_PER_PAGE + (if n % ROWS_PER_PAGE > 0 then 1 else 0) == PagesFor(n);
    forall m | 0 <= m < PagesFor(n) ensures m in DuePages(t.pager.pages, n) {
      assert m * ROWS_PER_PAGE < n && RowSlot(m * ROWS_PER_PAGE).page == m;
    }
  }

  /** The writes of the close of a table that holds `rows` are one per page,
      in page order: entry `j` writes page `j`. */
  lemma CloseWritesEveryPage(t: Table, rows: seq<Row>, log: seq<Flush>, place: Placement)
    requires Holds(t, rows) && FlushPlan(t, log, place)
    ensures |log| == PagesFor(|rows|) && forall j | 0 <= j < |log| :: log[j].page == j
  {
    DueIsEveryPage(t, rows);
    forall j | 0 <= j < |log| ensures log[j].page < PagesFor(|rows|) {
      assert log[j].page in LogPages(log);
    }
    LogIsPlannedExactly(log, PagesFor(|rows|));
  }

  /** The aligned close writes every page inside its own page of the file. */
  lemma AlignedPlanIsPageAligned(t: Table, log: seq<Flush>)
    requires FlushPlan(t, log, Aligned)
    ensures PageAligned(log)
  {
    forall j | 0 <= j < |log|
      ensures log[j].offset == log[j].page * PAGE_SIZE && |log[j].data| <= PAGE_SIZE
    {
      var full, rem := t.numRows / ROWS_PER_PAGE, t.numRows % ROWS_PER_PAGE;
      assert Planned(log[j], t.pager.pages[log[j].page], full, rem, Aligned);
    }
  }

  /** Byte `b` of `d` is at position `off + b` of `out`. */
  predicate LandsAt(out: Bytes, off: nat, d: Bytes, b: nat) {
    off + b < |out| && b < |d| && out[off + b] == d[b]
  }

  /** Bytes that land one by one land as a slice. */
  lemma LandsAsSlice(out: Bytes, off: nat, d: Bytes, lo: nat, hi: nat)
    requires lo < hi && forall b | lo <= b < hi :: LandsAt(out, off, d, b)
    ensures off + hi <= |out| && hi <= |d|
    ensures out[off + lo..off + hi] == d[lo..hi]
  {
    assert LandsAt(out, off, d, hi - 1);
    var a, c := out[off + lo..off + hi], d[lo..hi];
    forall i | 0 <= i < hi - lo
      ensures a[i] == c[i]
    {
      assert LandsAt(out, off, d, lo + i);
    }
    assert a == c;
  }

  /** A whole range of a page-aligned write survives the rest of the log. */
  lemma ApplyLandingRange(bytes: Bytes, log: seq<Flush>, j: nat, lo: nat, hi: nat)
    requires PageAligned(log)
    requires j < |log| && lo < hi <= |log[j].data|
    ensures log[j].offset + hi <= |ApplyFlushes(bytes, log)|
    ensures ApplyFlushes(bytes, log)[log[j].offset + lo..log[j].offset + hi] == log[j].data[lo..hi]
  {
    var out := ApplyFlushes(bytes, log);
    var off, d := log[j].offset, log[j].data;
    forall b | lo <= b < hi
      ensures LandsAt(out, off, d, b)
    {
      ApplyLanding(bytes, log, j, b);
    }
    LandsAsSlice(out, off, d, lo, hi);
  }

  /** Under the aligned plan, the write of row `k`'s page starts at that
      page's file position and carries the row's bytes from the cache. */
  lemma RowInFlush(t: Table, log: seq<Flush>, k: nat)
    requires FlushPlan(t, log, Aligned)
    requires |log| == PagesFor(t.numRows) && forall j | 0 <= j < |log| :: log[j].page == j
    requires k < t.numRows
    ensures RowSlot(k).page < |log| && RowSlot(k).page in t.pager.pages
    ensures log[RowSlot(k).page].offset == RowSlot(k).page * PAGE_SIZE
    ensures RowSlot(k).offset + ROW_SIZE <= |log[RowSlot(k).page].data|
    ensures log[RowSlot(k).page].data[RowSlot(k).offset..RowSlot(k).offset + ROW_SIZE]
         == t.pager.pages[RowSlot(k).page][RowSlot(k).offset..RowSlot(k).offset + ROW_SIZE]
  {
    var n := t.numRows;
    var full, rem := n / ROWS_PER_PAGE, n % ROWS_PER_PAGE;
    var s := RowSlot(k);
    PagesForCovers(n, k);
    var f := log[s.page];
    assert f.page in LogPages(log);
    var page := t.pager.pages[s.page];
    assert Planned(f, page, full, rem, Aligned);
    if s.page == full {
      assert k % ROWS_PER_PAGE < rem;
      assert (k % ROWS_PER_PAGE) * ROW_SIZE + ROW_SIZE <= rem * ROW_SIZE;
    }
  }

  /** A row whose page is written at that page's file position, with the
      row's bytes as they are in `page`, is stored at its file position. */
  lemma RowLands(out: Bytes, k: nat, f: Flush, page: Page)
    requires f.offset == RowSlot(k).page * PAGE_SIZE
    requires RowSlot(k).offset + ROW_SIZE <= |f.data|
    requires f.offset + RowSlot(k).offset + ROW_SIZE <= |out|
    requires out[f.offset + RowSlot(k).offset..f.offset + RowSlot(k).offset + ROW_SIZE]
          == f.data[RowSlot(k).offset..RowSlot(k).offset + ROW_SIZE]
    requires f.data[RowSlot(k).offset..RowSlot(k).offset + ROW_SIZE]
          == page[RowSlot(k).offset..RowSlot(k).offset + ROW_SIZE]
    ensures FilePos(k) + ROW_SIZE <= |out|
    ensures StoredRow(out, k) == DeserializeRow(page, RowSlot(k).offset)
  {
    assert FilePos(k) == f.offset + RowSlot(k).offset;
  }

  /** A row whose bytes a page-aligned log writes at the start of the row's
      page is stored at its file position after the log. */
  lemma AlignedRowLands(bytes: Bytes, log: seq<Flush>, k: nat, page: Page)
    requires PageAligned(log) && RowSlot(k).page < |log|
    requires log[RowSlot(k).page].offset == RowSlot(k).page * PAGE_SIZE
    requires RowSlot(k).offset + ROW_SIZE <= |log[RowSlot(k).page].data|
    requires log[RowSlot(k).page].data[RowSlot(k).offset..RowSlot(k).offset + ROW_SIZE]
          == page[RowSlot(k).offset..RowSlot(k).offset + ROW_SIZE]
    ensures FilePos(k) + ROW_SIZE <= |ApplyFlushes(bytes, log)|
    ensures StoredRow(ApplyFlushes(bytes, log), k) == DeserializeRow(page, RowSlot(k).offset)
  {
    var s := RowSlot(k);
    ApplyLandingRange(bytes, log, s.page, s.offset, s.offset + ROW_SIZE);
    RowLands(ApplyFlushes(bytes, log), k, log[s.page], page);
  }

  /** The image the aligned close leaves has exactly the length of `n` rows
      laid out page by page. */
  lemma AlignedImageLength(t: Table, rows: seq<Row>, log: seq<Flush>)
    requires Holds(t, rows) && FlushPlan(t, log, Aligned) && PageAligned(log)
    requires |log| == PagesFor(|rows|) && forall j | 0 <= j < |log| :: log[j].page == j
    requires |t.pager.fd.bytes| <= ImageSize(|rows|)
    ensures |ApplyFlushes(t.pager.fd.bytes, log)| == ImageSize(|rows|)
  {
    var n := |rows|;
    var full, rem := n / ROWS_PER_PAGE, n % ROWS_PER_PAGE;
    ApplyLength(t.pager.fd.bytes, log);
    if log != [] {
      AlignedLogEnd(log);
      var last := log[|log| - 1];
      assert Planned(last, t.pager.pages[last.page], full, rem, Aligned);
      if rem > 0 {
        assert last.page == full;
      } else {
        assert last.page == full - 1;
      }
    }
  }

  /** `f` is the page-by-page image of `rows`: exactly as long as the rows
      laid out page by page, with every row stored at its file position. */
  predicate Image(f: File, rows: seq<Row>) {
    && |f.bytes| == ImageSize(|rows|)
    && forall k | 0 <= k < |rows| :: StoredRow(f.bytes, k) == rows[k]
  }

  /** The corrected close of a table that holds `rows`, over a file no longer
      than their image, leaves the image of `rows`. */
  lemma AlignedCloseImage(t: Table, rows: seq<Row>)
    requires Holds(t, rows) && t.pager.fd.failing == {}
    requires |t.pager.fd.bytes| <= ImageSize(|rows|)
    ensures DbCloseAligned(t).Done?
    ensures DbCloseAligned(t).value.file.failing == {}
    ensures Image(DbCloseAligned(t).value.file, rows)
  {
    var log := DbCloseAligned(t).value.flushes;
    CloseWritesEveryPage(t, rows, log, Aligned);
    AlignedPlanIsPageAligned(t, log);
    AlignedImageLength(t, rows, log);
    forall k | 0 <= k < |rows|
      ensures StoredRow(ApplyFlushes(t.pager.fd.bytes, log), k) == rows[k]
    {
      RowInFlush(t, log, k);
      AlignedRowLands(t.pager.fd.bytes, log, k, t.pager.pages[RowSlot(k).page]);
    }
  }

  /** Reopening the image of `rows` with the corrected open counts exactly
      those rows, a select prints them in order, and afterwards the table
      holds them with every page cached. */
  lemma ReopenImage(f: File, rows: seq<Row>, g: Garbage)
    requires Image(f, rows) && |rows| <= TABLE_MAX_ROWS && Read !in f.failing
    ensures DbOpenPaged(Present(f)).Done?
    ensures var t := DbOpenPaged(Present(f)).value;
      && t.numRows == |rows|
      && ExecuteSelect(t, g).Done?
      && ExecuteSelect(t, g).value.printed == rows
      && Holds(ExecuteSelect(t, g).value.table, rows)
  {
    RowsInImageSize(|rows|);
    var t := DbOpenPaged(Present(f)).value;
    SelectReadsFile(t, g);
    var e := ExecuteSelect(t, g).value;
    assert e.printed == rows;
    assert Valid(e.table.pager);
  }

  /** What the corrected close writes, the corrected open reads back. */
  lemma AlignedCloseReopen(t: Table, rows: seq<Row>, g: Garbage)
    requires Holds(t, rows) && t.pager.fd.failing == {}
    requires |t.pager.fd.bytes| <= ImageSize(|rows|)
    ensures DbCloseAligned(t).Done?
    ensures var t' := DbOpenPaged(Present(DbCloseAligned(t).value.file));
      && t'.Done? && t'.value.numRows == |rows|
      && ExecuteSelect(t'.value, g).Done?
      && ExecuteSelect(t'.value, g).value.printed == rows
  {
    AlignedCloseImage(t, rows);
    ReopenImage(DbCloseAligned(t).value.file, rows, g);
  }

  /** The image grows with the number of rows. */
  lemma ImageSizeGrows(a: nat, b: nat)
    requires a <= b
    ensures ImageSize(a) <= ImageSize(b)
  {
    var pa, ra, pb, rb := a / ROWS_PER_PAGE, a % ROWS_PER_PAGE, b / ROWS_PER_PAGE, b % ROWS_PER_PAGE;
    assert a == pa * ROWS_PER_PAGE + ra && b == pb * ROWS_PER_PAGE + rb;
    if pa < pb {
      assert ra * ROW_SIZE < PAGE_SIZE;
      assert pa * PAGE_SIZE + PAGE_SIZE <= pb * PAGE_SIZE;
    }
  }

  /** One session on an image: open it with the corrected open, select, insert
      `more` rows and close with the corrected close. */
  function OneSession(f: File, more: seq<Row>, g: Garbage): Outcome<File> {
    var t :- DbOpenPaged(Present(f));
    var e :- ExecuteSelect(t, g);
    var t' :- InsertAll(e.table, more, g);
    var c :- DbCloseAligned(t');
    Done(c.file)
  }

  /** Sessions accumulate: a session on the image of `rows` that inserts
      `more` leaves the image of `rows + more`, ready for the next one. */
  lemma SessionsAccumulate(f: File, rows: seq<Row>, more: seq<Row>, g: Garbage)
    requires Image(f, rows) && f.failing == {}
    requires |rows| + |more| <= TABLE_MAX_ROWS
    ensures OneSession(f, more, g).Done?
    ensures Image(OneSession(f, more, g).value, rows + more)
  {
    ReopenImage(f, rows, g);
    var t := DbOpenPaged(Present(f)).value;
    var e := ExecuteSelect(t, g).value;
    InsertAllHolds(e.table, rows, more, g);
    var t' := InsertAll(e.table, more, g).value;
    ImageSizeGrows(|rows|, |rows + more|);
    AlignedCloseImage(t', rows + more);
  }

  /** A first session on a missing file leaves the image of what it inserted. */
  lemma FirstSessionImage(rows: seq<Row>, g: Garbage)
    requires |rows| <= TABLE_MAX_ROWS
    ensures OneSession(File([], {}), rows, g).Done?
    ensures Image(OneSession(File([], {}), rows, g).value, rows)
  {
    assert Image(File([], {}), []);
    SessionsAccumulate(File([], {}), [], rows, g);
    assert [] + rows == rows;
  }
}
