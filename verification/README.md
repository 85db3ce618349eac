# spdb paged row store — a Dafny model

This project models the storage core of spdb, a one-table record store. It
proves properties of that model.

spdb rows have five fixed-width columns:
- a serial number and a year (unsigned 32-bit);
- a 32-byte company name and a 128-byte model name;
- a 4-byte float.

Each row is copied into a 172-byte slot. 23 slots fit in a 4096-byte page,
and a table has at most 100 pages, so at most 2300 rows.

The model covers two versions of the table:

- **The disk-backed table** (`repl5/src/spdbutil.c`):
  - a pager caches pages of a backing file;
  - `db_open` derives the row count from the file length;
  - insert serializes a row into slot `num_rows` of the page it fetches;
  - select fetches and deserializes every row in order;
  - `db_close` flushes the full pages whole and the partial last page up to its used bytes.
- **The earlier in-memory table** (`repl4/src/spdbutil.c`, `repl4/inc/spdbutil.h`):
  - an array of 100 page pointers, with pages allocated lazily by `row_slot`;
  - insert and select as above;
  - `new_table` and `free_table`.

Modelling choices:

- **Values and exits.** Everything is an immutable value, and every operation is a pure function.
  - A condition on which the program prints a message and calls `exit` becomes `Exit(cause)`.
  - An index into the 100-slot page array that lies outside it becomes `Undefined(index)`. This is where the model stops, because C gives the rest no meaning.
- **The file.** It is a byte sequence plus the set of system calls that fail on its descriptor.
- **Fresh buffers.** `malloc`'d page buffers are never initialised in the source. A `Garbage` parameter supplies one arbitrary page per page number. Bytes that a short read leaves untouched keep that junk, and no proof assumes they are zero.

Modules, in dependency order:

- `Layout`: column widths, offsets and capacities.
- `Codec`: the row record and the serializer and deserializer.
- `Addressing`: row number to page and offset.
- `Disk`: the file.
- `Pager`: open, page fetch, flush.
- `Table`: open, insert, select, statement dispatch, close.
- `Session`: the rows a table holds across inserts and selects.
- `Persistence`: what a close and a reopen preserve.
- `Defects`: the disk-backed defects, each shown as written and as corrected.
- `InMemory`: the in-memory version.

What the program sets out to do with the last page, and what it does:

- **The partial last page.** `db_close` notes that a partially filled page may be left at the end of the file (repl5/src/spdbutil.c:341). `pager_flush` takes a size so that those few rows are saved to the file too (repl5/src/spdbutil.c:366-370). Its offset `page_num * size` (repl5/src/spdbutil.c:378) defeats this.
  - With `full = num_rows / 23` full pages and `rem = num_rows % 23` rows left over, the `rem * 172` used bytes are written at `full * rem * 172`, not at `full * 4096`. From 23 rows on, unless the count is a multiple of 23, that is inside or across earlier pages.
  - For 25 rows, the 344 bytes go to offset 344 inside page 0, and the file stays 4096 bytes long: `Defects.MisplacedFile`.
  - The corrected close writes them at 4096, giving a file of `4096 + 344` bytes with every row at its own position: `Defects.PartialPageKept` and, for every row count, `Persistence.AlignedCloseImage`.
- **The reopened row count.** `db_open` counts `file_length / 172` rows (repl5/src/spdbutil.c:241).
  - On the page-by-page image of n rows, that count is n exactly when n < 46, and larger from 46 rows on: `Defects.AsWrittenCountOfImage`.
  - After a close as written, the count is that of whatever length the close left. It may also fall short: for example, 25 rows reopen as 23.
  - 46 rows reopen as 47, and the 47th is decoded from an uninitialised buffer: `Defects.PhantomRowAfterReopen`.
- **Persistence.** As written, rows survive a close and a reopen for tables of at most one page: `Defects.AsWrittenKeepsOnePage`. With the corrected close and open they survive for every count up to the capacity: `Persistence.AlignedCloseReopen`.

The model keeps the fetch as written, including its guard, in
`Table.FetchRow` and therefore in select and insert.
`Defects.BoundedFetchOfRow` shows that the corrected guard agrees with it
on every row below the capacity. That is the only case insert and select
reach when the row count is within capacity.

## Model

| member | source | states |
|---|---|---|
| Layout.Geometry | repl5/src/spdbutil.c:18-39 | the row size is the sum of the column widths 4+4+32+128+4, each offset is the previous offset plus the previous width, a page holds 23 = 4096/172 whole rows, and the capacity is 100 pages of 23 rows |
| Layout.ColumnAt | repl5/src/spdbutil.c:23-28 | every byte of a row lies in some column's byte range |
| Layout.ColumnsPartitionRow | repl5/src/spdbutil.c:23-28 | no column reaches past the row, and no byte lies in two columns |
| Codec.EncodeRow | repl5/src/spdbutil.c:155-161 | the row image is 172 bytes and each column's range holds that column's bytes |
| Codec.U32RoundTrip | repl4/inc/spdbutil.h:57-58 | decoding the four bytes of an unsigned 32-bit field gives the field back |
| Codec.U32BytesRoundTrip | repl4/inc/spdbutil.h:57-58 | every four bytes are the encoding of the value they decode to |
| Codec.FieldsDetermineRow | repl5/src/spdbutil.c:155-172 | two row images that agree on all five columns are equal, so the five copies cover the whole slot |
| Codec.RowRoundTrip | repl5/src/spdbutil.c:155-172 | deserializing a serialized row gives the row back |
| Codec.ImageRoundTrip | repl5/src/spdbutil.c:155-172 | serializing a deserialized 172-byte image gives the image back: the codec is a lossless raw copy in both directions |
| Codec.SerializeRow | repl5/src/spdbutil.c:155-161 | the page keeps its length, the slot holds the row's image, and every byte outside the 172-byte slot is unchanged |
| Codec.SlotRoundTrip | repl4/src/spdbutil.c:144-163 | a row serialized into a slot of a page deserializes from that slot unchanged |
| Codec.SerializeFrame | repl4/src/spdbutil.c:144-150 | serializing into one slot leaves every non-overlapping slot reading as before |
| Codec.DeserializeLocal | repl5/src/spdbutil.c:166-172 | deserializing reads only the 172 bytes of its slot |
| Addressing.RowSlot | repl5/src/spdbutil.c:177-183 | row k's offset is a multiple of 172, the row ends inside its 4096-byte page, and page*23 + offset/172 counts back to k |
| Addressing.SlotBijection | repl5/src/spdbutil.c:177-183 | row numbers and well-placed slots are in one-to-one correspondence |
| Addressing.SlotsDisjoint | repl5/src/spdbutil.c:177-183 | two different rows on one page occupy disjoint byte ranges |
| Addressing.CapacityMatchesPages | repl5/src/spdbutil.c:37-39 | a row number is below 2300 exactly when its page number is below 100 |
| Addressing.PagesForCovers | repl4/src/spdbutil.c:171-180 | every row below n lies in one of the first ceil(n/23) pages, and nothing beyond a page's last row does |
| Disk.ReadAt | repl5/src/spdbutil.c:311 | a read delivers the file's bytes from the offset, short at end of file and empty past it |
| Disk.WriteAt | repl5/src/spdbutil.c:383 | a write puts its bytes at the offset, leaves other bytes alone, and extends the file with a zero gap when it starts past the end |
| Pager.PagerOpen | repl5/src/spdbutil.c:256-285 | an inaccessible path exits; otherwise the cache is empty and the recorded file length is the file's length; a missing file opens as an empty one |
| Pager.FilePages | repl5/src/spdbutil.c:302-306 | the page count is the least number of pages covering the file |
| Pager.GetPage | repl5/src/spdbutil.c:294-320 | the fetch exits exactly for pages above 2300 and is undefined exactly for pages 100..2300. A hit returns the cached page. A miss within the file's page count reads it: file bytes where the file reaches, junk beyond. A miss past it caches the junk page. A read error exits, and nothing but the fetched page changes |
| Pager.GetPageBounded | repl5/src/spdbutil.c:295-298 | the corrected guard never indexes past the array, rejects exactly the pages from 100 up, and agrees with the fetch as written below 100 |
| Pager.GetPageNeverReloads | repl5/src/spdbutil.c:299-319 | a loaded page is never reloaded, whatever a new buffer would hold |
| Pager.GetPageKeepsCache | repl5/src/spdbutil.c:294-320 | a fetch keeps every other cached page and keeps all cached pages inside the array |
| Pager.PagerFlush | repl5/src/spdbutil.c:373-388 | the flush succeeds exactly when the page is in the array, cached, and seek and write succeed. Flushing an uncached page exits. On success it writes the page's first `size` bytes at `page * size` and changes nothing else |
| Pager.PagerFlushAligned | repl5/src/spdbutil.c:373-388 | the corrected flush writes the same bytes at `page * 4096` |
| Pager.AlignedFlushStaysInPage | repl5/src/spdbutil.c:378-383 | every byte of a corrected flush lands in the page's own byte range of the file |
| Table.DbOpen | repl5/src/spdbutil.c:239-246 | the cache starts empty, and the row count is the largest count whose rows fit in the file length (a trailing partial row is invisible) |
| Table.FetchRow | repl5/src/spdbutil.c:177-183 | below the capacity the fetch of a row's page is never out of bound and fails only on a read error; the row's page is cached and nothing else changes |
| Table.ExecuteInsert | repl5/src/spdbutil.c:190-202 | a full table returns TableFull unchanged. Otherwise the row reads back from slot `num_rows`, the count grows by one, and every other byte of every page and the file stay as they were. Only a read error can stop it |
| Table.InsertKeepsOtherRows | repl5/src/spdbutil.c:190-202 | every other row in a cached page reads back as before an insert |
| Table.VisitRows | repl5/src/spdbutil.c:209-216 | the visit caches the page of every row it passes and keeps the cache. It succeeds within capacity unless a read fails, and a visit that passes row 2300 reaches page 100, outside the array |
| Table.ExecuteSelect | repl5/src/spdbutil.c:209-216 | a select prints one row per row number, each decoded from its slot. It keeps the row count, every cached page and the file. Above capacity it is undefined, and it fails only on a read error |
| Table.ExecuteStatement | repl5/src/spdbutil.c:222-230 | dispatch: TableFull exactly for an insert into a full table; select prints `num_rows` rows; insert prints nothing |
| Table.ApplyFlushesAppend | repl5/src/spdbutil.c:328-350 | the close's writes compose: two write sequences in a row are their concatenation |
| Table.FullPageFlushesPlan | repl5/src/spdbutil.c:330-340 | the full-page loop writes each cached page below the full-page count whole, at its own position, in increasing page order, and no other page |
| Table.FlushFullPages | repl5/src/spdbutil.c:330-340 | the loop's file is the file after those writes, and the flushed pages leave the cache. More than 100 full pages reach past the array. Only seek or write errors exit |
| Table.FlushPartialPage | repl5/src/spdbutil.c:342-350 | with no remainder or no cached page nothing is written. Otherwise one write of the used `rem*172` bytes at the placement's offset. Undefined exactly when the remainder page is at index 100 or above |
| Table.CloseWith | repl5/src/spdbutil.c:328-365 | the close's writes are exactly the plan: one per due cached page, in page order. The file is the result of those writes. Without I/O errors the close is undefined exactly above 2300 rows |
| Table.CloseWithPlan | repl5/src/spdbutil.c:328-350 | the full-page writes followed by the partial-page write make up the plan |
| Table.DbClose | repl5/src/spdbutil.c:328-365 | the close as written follows the plan with the partial page at `page * size` |
| Table.DbCloseAligned | repl5/src/spdbutil.c:328-365 | the corrected close follows the plan with the partial page at `page * 4096` |
| Table.CloseAgreesWhenNoMisplacement | repl5/src/spdbutil.c:342-350 | with fewer than 23 rows, or a multiple of 23, both closes are the same |
| Session.InsertHolds | repl5/src/spdbutil.c:190-202 | an insert into a table with room appends its row to the rows the table holds and leaves the file alone |
| Session.InsertAllHolds | repl5/src/spdbutil.c:190-202 | inserts while there is room append their rows in order |
| Session.VisitCached | repl5/src/spdbutil.c:299-319 | a visit over rows whose pages are cached reads nothing and changes nothing |
| Session.SelectPrintsRows | repl5/src/spdbutil.c:209-216 | a select on a table that holds some rows prints exactly those rows, in order, and changes nothing |
| Session.SelectTwice | repl5/src/spdbutil.c:209-216 | a second select prints what the first printed and changes nothing |
| Session.InsertThenSelect | repl5/src/spdbutil.c:190-216 | on a new file, inserting rows and then selecting prints exactly the inserted rows |
| Persistence.ImageSize | repl5/src/spdbutil.c:330-350 | in the length of n rows laid out page by page, every row below n fits |
| Persistence.RowsInImageSize | repl5/src/spdbutil.c:241 | the page-by-page row count of that length gives back n |
| Persistence.RowInFile | repl5/src/spdbutil.c:241 | every row the page-by-page count admits lies inside the file |
| Persistence.FirstPageCounts | repl5/src/spdbutil.c:241 | up to one page, the count as written equals the page-by-page count |
| Persistence.DbOpenPaged | repl5/src/spdbutil.c:239-246 | the corrected open counts exactly the whole rows laid out page by page in the file: every counted row lies inside the file, and the next row does not |
| Persistence.FetchLoadedFrom | repl5/src/spdbutil.c:299-319 | after a fetch, every cached page still holds the file's bytes where the file reaches and junk beyond |
| Persistence.VisitLoadedFrom | repl5/src/spdbutil.c:209-216 | the same holds after a whole select visit |
| Persistence.LoadedSlot | repl5/src/spdbutil.c:310-311 | a slot of a loaded page that lies inside the file decodes to the row stored at its file position |
| Persistence.SelectReadsFile | repl5/src/spdbutil.c:209-216 | a select right after open prints, for every row inside the file, the row stored at its file position |
| Persistence.ApplyLength | repl5/src/spdbutil.c:378-383 | the writes leave the file as long as the longer of the old file and the furthest write |
| Persistence.ApplyLanding | repl5/src/spdbutil.c:328-350 | with page-aligned writes in increasing page order, no write overwrites an earlier one |
| Persistence.CloseWritesEveryPage | repl5/src/spdbutil.c:330-350 | the close of a table that holds n rows writes pages 0..ceil(n/23)-1, page j as its j-th write |
| Persistence.AlignedPlanIsPageAligned | repl5/src/spdbutil.c:378 | the corrected close writes every page inside its own page of the file |
| Persistence.AlignedRowLands | repl5/src/spdbutil.c:328-350 | a row carried by a page-aligned write at its page's position is stored at its file position |
| Persistence.AlignedImageLength | repl5/src/spdbutil.c:342-350 | the corrected close leaves a file of exactly the full pages plus the used bytes of the partial page |
| Persistence.AlignedCloseImage | repl5/src/spdbutil.c:328-365 | the corrected close of a table holding some rows leaves their page-by-page image: exact length, every row at its file position |
| Persistence.ReopenImage | repl5/src/spdbutil.c:239-246 | reopening an image with the corrected open counts its rows, and a select prints them in order |
| Persistence.AlignedCloseReopen | repl5/src/spdbutil.c:239-365 | what the corrected close writes, the corrected open and a select read back |
| Persistence.ImageSizeGrows | repl5/src/spdbutil.c:330-350 | the image grows with the number of rows |
| Persistence.SessionsAccumulate | repl5/src/spdbutil.c:190-365 | a session of open, select, inserts and close on the image of some rows leaves the image of those rows followed by the inserted ones |
| Persistence.FirstSessionImage | repl5/src/spdbutil.c:256-285 | a first session on a missing file leaves the image of the rows it inserted |
| Defects.FreshTableHolds | repl5/src/spdbutil.c:190-202 | inserting into a new file fills the table and leaves the file empty until close |
| Defects.OversizedFileReachesPastPages | repl5/src/spdbutil.c:295-298 | a file of 2301 rows opens, and its select asks for page 100, past the array |
| Defects.BoundedFetchOfRow | repl5/src/spdbutil.c:295-298 | the corrected guard rejects every row at or past the capacity and agrees with the guard as written on every other row |
| Defects.MisplacedLog | repl5/src/spdbutil.c:342-350 | closing 25 rows as written writes page 0 whole at 0 and 344 bytes of page 1 at 344 |
| Defects.MisplacedBytes | repl5/src/spdbutil.c:378-383 | those two writes into an empty file leave one page, with the second write at bytes 344..687 |
| Defects.MisplacedFile | repl5/src/spdbutil.c:328-388 | the close as written of 25 rows leaves a 4096-byte file that stores rows 23 and 24 at the positions of rows 2 and 3 |
| Defects.PartialPageKept | repl5/src/spdbutil.c:341-370 | the corrected close of the same 25 rows leaves a file of 4096 + 344 bytes, with row 2 at byte 344 and row 23 at byte 4096, each as inserted |
| Defects.ReopenAsWritten | repl5/src/spdbutil.c:239-320 | reopened as written, a select prints each row stored in the file where the file reaches it, and junk-decoded rows for pages wholly past the file |
| Defects.PastFileIsJunk | repl5/src/spdbutil.c:299-318 | a page loaded from wholly past the file is the fresh buffer's junk |
| Defects.PartialPageMisplaced | repl5/src/spdbutil.c:239-388 | a 25-row session closes to a 4096-byte file that reopens as 23 rows, printing rows 23 and 24 in the places of rows 2 and 3 |
| Defects.AsWrittenCountOfImage | repl5/src/spdbutil.c:241 | the open as written counts the image of n rows as at least n, and exactly n iff n < 46 |
| Defects.PhantomRowAfterReopen | repl5/src/spdbutil.c:239-246 | 46 rows close to 8192 bytes and reopen as 47 rows; the 47th is decoded from the junk of page 2 |
| Defects.PhantomReopen | repl5/src/spdbutil.c:239-246 | the 46-row image reopened as written prints the 46 rows and then a junk row |
| Defects.PagedCountAfterReopen | repl5/src/spdbutil.c:239-388 | with the corrected close and open, any number of rows up to the capacity reopens to exactly those rows |
| Defects.AsWrittenKeepsOnePage | repl5/src/spdbutil.c:239-388 | as written, a table of at most 23 rows survives close and reopen |
| InMemory.NewTable | repl4/src/spdbutil.c:243-250 | a new table has no rows and all 100 page slots empty |
| InMemory.NewTableHoldsNothing | repl4/src/spdbutil.c:243-250 | a new table satisfies the allocated-prefix invariant and holds no rows |
| InMemory.RowSlotMem | repl4/src/spdbutil.c:171-180 | the lookup allocates the row's page only if its slot is empty, filled with the fresh buffer's junk, and changes no other slot |
| InMemory.RowSlotStable | repl4/src/spdbutil.c:171-180 | a second lookup of any row on the same page returns the same page and changes nothing |
| InMemory.PagesForStep | repl4/src/spdbutil.c:171-180 | row n starts a new page exactly when n is a multiple of 23, and lives in the last page rows 0..n occupy |
| InMemory.ExecuteInsertMem | repl4/src/spdbutil.c:190-202 | a full table returns TableFull unchanged; otherwise the row reads back from slot `num_rows`, the count grows by one and no other page slot changes |
| InMemory.InsertKeepsRowsMem | repl4/src/spdbutil.c:190-202 | an insert keeps every earlier row readable as before |
| InMemory.InsertKeepsValid | repl4/src/spdbutil.c:190-202 | an insert keeps the allocated pages exactly the prefix the rows occupy |
| InMemory.InsertHoldsMem | repl4/src/spdbutil.c:190-202 | an insert into a table with room appends its row to the rows the table holds |
| InMemory.VisitMem | repl4/src/spdbutil.c:211-218 | the visit allocates the page of every row it passes and keeps every allocated page |
| InMemory.ExecuteSelectMem | repl4/src/spdbutil.c:211-218 | a select prints one row per row number, each decoded from its slot, and keeps the row count |
| InMemory.VisitAllocated | repl4/src/spdbutil.c:171-180 | a visit over allocated pages allocates nothing |
| InMemory.SelectPrintsRowsMem | repl4/src/spdbutil.c:211-218 | a select on a table holding some rows prints exactly them, in order, and changes nothing |
| InMemory.SelectReadOnlyMem | repl4/src/spdbutil.c:211-218 | on a table with the allocated-prefix invariant a select is read-only |
| InMemory.SelectTwiceMem | repl4/src/spdbutil.c:211-218 | selecting twice prints the same rows and leaves the same table |
| InMemory.ExecuteStatementMem | repl4/src/spdbutil.c:227-235 | dispatch: TableFull exactly for an insert into a full table; select prints `num_rows` rows; insert prints nothing and counts one more row when there is room |
| InMemory.InsertAllHoldsMem | repl4/src/spdbutil.c:190-202 | inserts while there is room append their rows in order |
| InMemory.InsertThenSelectMem | repl4/src/spdbutil.c:190-218 | a new table filled with some rows selects them back exactly |
| InMemory.AllPagesIff | repl4/inc/spdbutil.h:17 | rows 0..n-1 occupy all 100 pages exactly when n > 2277 |
| InMemory.FirstEmptyIsPagesFor | repl4/src/spdbutil.c:259-260 | in a table with the allocated-prefix invariant, the first empty slot is the number of pages the rows occupy |
| InMemory.FreeTable | repl4/src/spdbutil.c:257-263 | as written, the free releases the pages before the first empty slot. It reads slot 100, past the array, exactly when all 100 are allocated, which on a valid table is exactly above 2277 rows |
| InMemory.FreeTableBounded | repl4/src/spdbutil.c:257-263 | the corrected free stops at the end of the array and releases exactly the pages the rows occupy |
| InMemory.FullTableHasNoEmptySlot | repl4/src/spdbutil.c:259-260 | a table holding more than 2277 rows has no empty slot to stop the free's loop |

## Left out

- The command loop and its I/O: `new_input_buffer`, `read_input`, `print_prompt`, `print_row`, `close_input_buffer`, `do_meta_command` and repl4/src/main.c. Printing is modelled as the sequence of rows printed.
- Command parsing (`prepare_statement`, `prepare_insert`). The model starts from a parsed `Statement`, because parsing wraps `strtok`, `sscanf`, `atoi` and `atof`.
- The float column's meaning. Its four bytes are copied and never interpreted.
- Host byte order. The integer columns are encoded little-endian. The source copies the host's representation, and any fixed four-byte scheme behaves the same under the round trips.
- `errno` and message texts. Each fatal exit is one `Fatal` cause.
- Pager.GetPage: the `lseek` before the read is unchecked in the source and is modelled as always succeeding. The read is one call that delivers what the file holds at that offset. The model does not cover a read that stops short before end of file.
- Pager.PagerOpen: the `lseek(file_desc, 0, SEEK_END)` that measures the file (repl5/src/spdbutil.c:275) is unchecked in the source. A failing call would store -1 as the length, and the model does not cover that case: it always records the true length.
- Pager.PagerOpen: a file created for a missing path is modelled as healthy, with no failing calls. So `Persistence.FirstSessionImage` does not cover a new file whose later system calls fail.
- Pager.PagerFlush: a write either fails (-1, a fatal exit) or writes all `size` bytes. The source checks only for -1 (repl5/src/spdbutil.c:383-387), so a short write would pass unnoticed; the model does not cover short writes.
- `malloc` and `free`: a malloc failure is not modelled. The closes return the file and their write log but drop the cache, which is what freeing every buffer amounts to. `free_table` returns the number of pages it releases.
- The final loop of `db_close` frees buffers left in the cache, including pages loaded past the row count. It writes nothing, so the model has no counterpart for it beyond dropping the cache.
- 32-bit arithmetic: `num_rows`, the file length and the page arithmetic are unbounded naturals. Files whose length or row count exceeds 32 bits are not modelled. The count is computed at open (repl5/src/spdbutil.c:241) from the length `pager_open` stores (repl5/src/spdbutil.c:275-279), so such a file would wrap before any page is indexed.
- Select's decoding order: a select in the model visits every row (`VisitRows`) and then decodes them from the resulting cache. The program decodes each row right after fetching its page. The two agree because a visit never writes a cached byte (`Table.ExecuteSelect`'s contract).
- Persistence.OneSession: a session selects once before inserting. `Persistence.SessionsAccumulate` covers only such sessions. A session that inserts into a freshly opened table without selecting first is not covered.
- Defects.AsWrittenKeepsOnePage: persistence as written is proved only for at most 23 rows. Beyond that, the defects below make it fail.
- InMemory.RowSlotMem: it requires the row's page to be inside the array. The source calls `row_slot` only for rows below the capacity, whose pages are always inside it.

## Findings

| source | as written | input that shows it | evidently intended | confidence | as-written member | corrected member |
|---|---|---|---|---|---|---|
| repl5/src/spdbutil.c:295 | `get_page` exits only when `page_num > TABLE_MAX_ROWS` (2300) | a file of 2301 rows: the select asks for page 100 of a 100-slot array | reject `page_num >= TABLE_MAX_PAGES` | high (not executed) | Defects.OversizedFileReachesPastPages | Pager.GetPageBounded, Defects.BoundedFetchOfRow |
| repl5/src/spdbutil.c:378 | `pager_flush` seeks to `page_num * size` | 25 rows: the 344 bytes of page 1 are written at offset 344. The file stays 4096 bytes and reopens as 23 rows, with rows 23 and 24 in place of rows 2 and 3 | seek to `page_num * PAGE_SIZE` | high (not executed) | Defects.PartialPageMisplaced | Pager.PagerFlushAligned, Table.DbCloseAligned, Persistence.AlignedCloseReopen |
| repl5/src/spdbutil.c:241 | `db_open` counts `file_length / ROW_SIZE` rows, counting the 140 padding bytes of every full page | 46 rows close to 8192 bytes, which reopen as 47 rows. The 47th is decoded from an uninitialised buffer | count whole rows page by page | high (not executed) | Defects.PhantomRowAfterReopen, Defects.AsWrittenCountOfImage | Persistence.DbOpenPaged, Defects.PagedCountAfterReopen |
| repl4/src/spdbutil.c:259 | the `free_table` loop stops only at an empty slot | a table of 2278 rows: all 100 slots are allocated and the loop test reads `pages[100]` | also stop at `TABLE_MAX_PAGES` | high (not executed) | InMemory.FreeTable, InMemory.FullTableHasNoEmptySlot | InMemory.FreeTableBounded |
