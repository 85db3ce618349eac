/** Row addressing shared by both table versions: row `k` lives in page
    `k / ROWS_PER_PAGE` at byte `(k % ROWS_PER_PAGE) * ROW_SIZE`. */
module Addressing {
  import opened Layout

  datatype Slot = Slot(page: nat, offset: nat)

  /** The page and in-page byte offset of row `k`.  The result is the only
      pair that places a whole row inside one page at a row boundary and
      counts back to `k`. */
  function RowSlot(k: nat): (s: Slot)
    ensures s.offset % ROW_SIZE == 0
    ensures s.offset + ROW_SIZE <= PAGE_SIZE
    ensures s.page * ROWS_PER_PAGE + s.offset / ROW_SIZE == k
  {
    Slot(k / ROWS_PER_PAGE, (k % ROWS_PER_PAGE) * ROW_SIZE)
  }

  /** Row number of a slot; the inverse of `RowSlot`. */
  function RowAt(s: Slot): nat {
    s.page * ROWS_PER_PAGE + s.offset / ROW_SIZE
  }

  /** Slots that place a whole row at a row boundary inside one page. */
  predicate WellPlaced(s: Slot) {
    s.offset % ROW_SIZE == 0 && s.offset + ROW_SIZE <= PAGE_SIZE
  }

  /** `RowSlot` and `RowAt` are inverse bijections between row numbers and
      well-placed slots. */
  lemma SlotBijection(k: nat, s: Slot)
    ensures RowAt(RowSlot(k)) == k
    ensures WellPlaced(s) ==> RowSlot(RowAt(s)) == s
  {
    if WellPlaced(s) {
      var j := s.offset / ROW_SIZE;
      assert s.offset == j * ROW_SIZE && j < ROWS_PER_PAGE;
      var k' := s.page * ROWS_PER_PAGE + j;
      assert RowAt(s) == k';
      assert k' / ROWS_PER_PAGE == s.page && k' % ROWS_PER_PAGE == j;
    }
  }

  /** Two different rows on the same page occupy disjoint byte ranges. */
  lemma SlotsDisjoint(j: nat, k: nat)
    requires j != k && RowSlot(j).page == RowSlot(k).page
    ensures RowSlot(j).offset + ROW_SIZE <= RowSlot(k).offset
         || RowSlot(k).offset + ROW_SIZE <= RowSlot(j).offset
  {
    var a, b := RowSlot(j), RowSlot(k);
    assert a.offset / ROW_SIZE != b.offset / ROW_SIZE;
  }

  /** A row number is below the table capacity exactly when its page number is
      below the page capacity. */
  lemma CapacityMatchesPages(k: nat)
    ensures k < TABLE_MAX_ROWS <==> RowSlot(k).page < TABLE_MAX_PAGES
  {
  }

  /** Number of pages that rows `0..n-1` touch. */
  function PagesFor(n: nat): nat {
    (n + ROWS_PER_PAGE - 1) / ROWS_PER_PAGE
  }

  lemma PagesForCovers(n: nat, k: nat)
    ensures k < n ==> RowSlot(k).page < PagesFor(n)
    ensures RowSlot(k).page < PagesFor(n) ==> k < n + ROWS_PER_PAGE - 1
  {
  }
}
