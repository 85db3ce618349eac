/** The pager of the disk-backed table: a cache of 4 KiB page buffers in front
    of the backing file.  Pages are loaded on first use and never reloaded; the
    file length is captured once, at open. */
module Pager {
  import opened Layout
  import opened Codec
  import opened Disk

  type Page = s: Bytes | |s| == PAGE_SIZE witness Zeros(PAGE_SIZE)

  /** The contents of a freshly allocated, never-initialised page buffer: one
      unspecified page per page number. */
  type Garbage = nat -> Page

  /** The conditions on which the program prints a message and exits. */
  datatype Fatal = OpenFailed | PageOutOfBound | ReadFailed | FlushedNullPage
                 | SeekFailed | WriteFailed | CloseFailed

  /** Result of a pager or table operation: a value, a fatal exit, or an
      index into the 100-slot page array that lies outside it (undefined
      behaviour in the program; the model stops there). */
  datatype Outcome<+T> = Done(value: T) | Exit(cause: Fatal) | Undefined(index: nat) {
    predicate IsFailure() {
      !Done?
    }

    function PropagateFailure<U>(): Outcome<U>
      requires !Done?
    {
      if Exit? then Exit(cause) else Undefined(index)
    }

    function Extract(): T
      requires Done?
    {
      value
    }
  }

  datatype Pager = Pager(fd: File, fileLength: nat, pages: map<nat, Page>)

  /** Every cached page sits in one of the `TABLE_MAX_PAGES` array slots. */
  predicate Valid(p: Pager) {
    forall n | n in p.pages :: n < TABLE_MAX_PAGES
  }

  /** `q` holds every page `p` holds, byte for byte. */
  predicate CacheExtends(p: Pager, q: Pager) {
    forall n | n in p.pages :: n in q.pages && q.pages[n] == p.pages[n]
  }

  /** Open (creating if absent) the backing file and start with an empty cache. */
  function PagerOpen(e: Entry): (r: Outcome<Pager>)
    ensures r.Exit? <==> e.Inaccessible?
    ensures !r.Undefined?
    ensures r.Done? ==> r.value.pages == map[] && r.value.fileLength == |r.value.fd.bytes|
    ensures r.Done? ==> r.value.fd == if e.Present? then e.file else File([], {})
  {
    match e
    case Inaccessible => Exit(OpenFailed)
    case Missing => Done(Pager(File([], {}), 0, map[]))
    case Present(f) => Done(Pager(f, |f.bytes|, map[]))
  }

  /** Number of pages a file of `len` bytes spans, counting a partial last page. */
  function FilePages(len: nat): (r: nat)
    ensures len <= r * PAGE_SIZE
    ensures r == 0 || (r - 1) * PAGE_SIZE < len
  {
    len / PAGE_SIZE + (if len % PAGE_SIZE != 0 then 1 else 0)
  }

  datatype Loaded = Loaded(pager: Pager, page: Page)

  /** Fetch page `pageNum`.  On a miss a fresh buffer (holding `junk`) is
      filled by one read of up to a page at `pageNum * PAGE_SIZE`, provided the
      page is not past the page count of the file; bytes the read does not
      reach keep their junk.  The bound check compares the page number with
      the ROW capacity, so page numbers from `TABLE_MAX_PAGES` to
      `TABLE_MAX_ROWS` pass it and index past the page array. */
  function GetPage(p: Pager, pageNum: nat, junk: Page): (r: Outcome<Loaded>)
    ensures r == Exit(PageOutOfBound) <==> pageNum > TABLE_MAX_ROWS
    ensures r.Undefined? <==> TABLE_MAX_PAGES <= pageNum <= TABLE_MAX_ROWS
    ensures r == Exit(ReadFailed) <==>
      pageNum < TABLE_MAX_PAGES && pageNum !in p.pages
      && pageNum <= FilePages(p.fileLength) && Read in p.fd.failing
    ensures r.Done? ==> r.value.pager == p.(pages := p.pages[pageNum := r.value.page])
    ensures r.Done? && pageNum in p.pages ==> r.value.page == p.pages[pageNum]
    ensures r.Done? && pageNum !in p.pages && pageNum <= FilePages(p.fileLength) ==>
      forall b | 0 <= b < PAGE_SIZE ::
        r.value.page[b] == if pageNum * PAGE_SIZE + b < |p.fd.bytes| then p.fd.bytes[pageNum * PAGE_SIZE + b] else junk[b]
    ensures r.Done? && pageNum !in p.pages && pageNum > FilePages(p.fileLength) ==> r.value.page == junk
  {
    if pageNum > TABLE_MAX_ROWS then Exit(PageOutOfBound)
    else if pageNum >= TABLE_MAX_PAGES then Undefined(pageNum)
    else if pageNum in p.pages then Done(Loaded(p, p.pages[pageNum]))
    else if pageNum <= FilePages(p.fileLength) then
      if Read in p.fd.failing then Exit(ReadFailed)
      else
        var got := ReadAt(p.fd.bytes, pageNum * PAGE_SIZE, PAGE_SIZE);
        var page: Page := got + junk[|got|..];
        Done(Loaded(p.(pages := p.pages[pageNum := page]), page))
    else Done(Loaded(p.(pages := p.pages[pageNum := junk]), junk))
  }

  /** The corrected fetch: a page number at or above the page capacity is
      rejected before the page array is indexed, so no request reaches past
      the array. */
  function GetPageBounded(p: Pager, pageNum: nat, junk: Page): (r: Outcome<Loaded>)
    ensures !r.Undefined?
    ensures r == Exit(PageOutOfBound) <==> pageNum >= TABLE_MAX_PAGES
    ensures pageNum < TABLE_MAX_PAGES ==> r == GetPage(p, pageNum, junk)
  {
    if pageNum >= TABLE_MAX_PAGES then Exit(PageOutOfBound) else GetPage(p, pageNum, junk)
  }

  /** A loaded page is never reloaded: asking again returns the cached buffer
      and leaves the pager as it is, whatever a new buffer would have held. */
  lemma GetPageNeverReloads(p: Pager, pageNum: nat, junk: Page, junk': Page)
    requires GetPage(p, pageNum, junk).Done?
    ensures GetPage(GetPage(p, pageNum, junk).value.pager, pageNum, junk') == GetPage(p, pageNum, junk)
  {
  }

  /** Fetching a page keeps every other cached page and keeps the pager valid. */
  lemma GetPageKeepsCache(p: Pager, pageNum: nat, junk: Page)
    requires GetPage(p, pageNum, junk).Done?
    ensures CacheExtends(p, GetPage(p, pageNum, junk).value.pager)
    ensures Valid(p) ==> Valid(GetPage(p, pageNum, junk).value.pager)
  {
  }

  /** Write the first `size` bytes of cached page `pageNum` at byte `offset`
      of the file.  Shared by the flush as written and the corrected flush,
      which differ only in the offset they pass. */
  function FlushTo(p: Pager, pageNum: nat, size: nat, offset: nat): (r: Outcome<Pager>)
    requires size <= PAGE_SIZE
  {
    if pageNum >= TABLE_MAX_PAGES then Undefined(pageNum)
    else if pageNum !in p.pages then Exit(FlushedNullPage)
    else if Seek in p.fd.failing then Exit(SeekFailed)
    else if Write in p.fd.failing then Exit(WriteFailed)
    else Done(p.(fd := p.fd.(bytes := WriteAt(p.fd.bytes, offset, p.pages[pageNum][..size]))))
  }

  /** Flush as the program does it: the file offset is `pageNum * size`, the
      page number times the number of bytes written, not times the page size. */
  function PagerFlush(p: Pager, pageNum: nat, size: nat): (r: Outcome<Pager>)
    requires size <= PAGE_SIZE
    ensures r.Done? <==> pageNum < TABLE_MAX_PAGES && pageNum in p.pages && Seek !in p.fd.failing && Write !in p.fd.failing
    ensures pageNum < TABLE_MAX_PAGES && pageNum !in p.pages ==> r == Exit(FlushedNullPage)
    ensures r.Done? ==>
      && r.value.pages == p.pages
      && r.value.fileLength == p.fileLength
      && r.value.fd.failing == p.fd.failing
      && r.value.fd.bytes == WriteAt(p.fd.bytes, pageNum * size, p.pages[pageNum][..size])
  {
    FlushTo(p, pageNum, size, pageNum * size)
  }

  /** The corrected flush: page `pageNum` is written where it was read from,
      at `pageNum * PAGE_SIZE`. */
  function PagerFlushAligned(p: Pager, pageNum: nat, size: nat): (r: Outcome<Pager>)
    requires size <= PAGE_SIZE
    ensures r.Done? <==> pageNum < TABLE_MAX_PAGES && pageNum in p.pages && Seek !in p.fd.failing && Write !in p.fd.failing
    ensures r.Done? ==>
      && r.value.pages == p.pages
      && r.value.fileLength == p.fileLength
      && r.value.fd.failing == p.fd.failing
      && r.value.fd.bytes == WriteAt(p.fd.bytes, pageNum * PAGE_SIZE, p.pages[pageNum][..size])
  {
    FlushTo(p, pageNum, size, pageNum * PAGE_SIZE)
  }

  /** The aligned flush puts the written bytes inside the page's own byte
      range of the file, and a later read of that page finds them. */
  lemma AlignedFlushStaysInPage(p: Pager, pageNum: nat, size: nat, b: nat)
    requires size <= PAGE_SIZE && b < size
    requires PagerFlushAligned(p, pageNum, size).Done?
    ensures var bytes := PagerFlushAligned(p, pageNum, size).value.fd.bytes;
      pageNum * PAGE_SIZE + b < |bytes| && bytes[pageNum * PAGE_SIZE + b] == p.pages[pageNum][b]
  {
  }
}
