# A verified model of the storage stack

This project models the storage stack of a small embedded database in Dafny and proves what it promises:
slotted heap pages edited in place in an 8192-byte buffer, the database file and its header page, a bounded
page cache with pins, least-recently-used eviction and dirty write-back, heap files as linked chains of pages,
the row and schema codecs, and the catalog that is rebuilt from its own heap when a database is opened.

Each layer has a meaning, and each layer's code is proved against the meaning of the layer below.

| layer | files | meaning |
|---|---|---|
| bytes and ranges | `Bytes`, `Bits`, `Numbers`, `Utf8`, `Ranges`, `Page` | numbers by their digits, bits, text as code points, an in-place page buffer |
| slotted page | `PageModel`, `PageLayout`, `PageEdits`, `PageFormat`, `SlottedPage`, `PageTheorems` | a list of slots, each free, live with its bytes, or retired, and a link |
| database file | `Disk` | a byte string that stands for a header and a map of pages |
| buffer pool | `BufferPool` | one map from page ids to bytes, whatever is cached |
| heap file | `HeapModel`, `HeapFile`, `HeapHistory` | a chain of pages, its rows by address, the order of a scan |
| codecs | `Columns`, `Row`, `Schema`, `CatalogRecord`, `Formats`, `RoundTrips` | a relation between values and bytes, one to one |
| catalog | `CatalogModel`, `CatalogHistory`, `Catalog` | a map of tables that the pages of the database determine, and what runs of creations lead to |
| all of it | `EndToEnd`, `FullStack`, `Database` | what is written by any run is what is read after reopening |

## Main results

- `Databases.RunDatabase`: after any run of creating tables, storing rows and removing rows, in any number of
  tables of one database and through a pool of any capacity, closing, and reopening with any other capacity,
  the catalog has exactly the tables of the run, and each table gives exactly its own rows, decoded, each once and in scan order.
  `Databases.RowStaysUntilRemoved` says of every such run that a row keeps its address and its values until it is
  removed from its table.
- `EndToEnd.RunAndReopen`: after any run of insertions, deletions and allocations through a pool of any
  capacity, closing, and reopening with any other capacity, the heap has the same pages, a scan lists exactly
  the rows of the run, reading any address gives the bytes of its row in that scan or an error when there is
  none, and the addresses that insertions returned are those of the run, no two equal.
- `Formats`, `PageFormat`, `Disk.DiskInBytes`, `Utf8Text.Utf8IffEncoded`: every format in plain numbers. A file, a
  page, a row, a schema or a table record has its meaning if and only if its bytes stand at literal offsets with
  literal widths, tags, flags and limits, every number given by its base-256 digits; what each edit writes, which
  name or value is accepted and which error any other raises are said in the same way. None of these statements
  uses the layout functions and constants that code and specification have in common.
- `EndToEnd.CreateTablesAndReopen`: after any run of table creations, closing and reopening, the catalog read
  back has exactly the tables, ids and next id of `CatalogHistory.CreateAll`, and so do the catalog's heap and
  the next page id.
- `FullStack.StoreAndReadBack`: through every layer at once, the values read from a table of a new database
  after it is closed and opened again are exactly those of `FullStack.StoreAll`: each list that can be encoded
  and whose row the heap accepts, at the address the heap hands out, none of them overwritten.
- `BufferPools`: to its clients the pool is a plain map. Pinning, eviction, flushing and every failure leave
  that map alone; allocation adds one zeroed page; an edit changes its own page only. Pinning and allocating
  drop a page from the cache only when it is full, one at most, which is never pinned and was touched no later
  than any other candidate, except that a clock wrap forgets older order.
- `SlottedPages`: every in-place method computes exactly the function of `PageModel` that it should, for every
  page that validates. Compaction never fails, keeps every address and its bytes, leaves all the slack as one
  gap, and is byte-for-byte idempotent. Validation's sort-and-look-at-neighbours test decides overlap exactly.
- `PageTheorems` and `HeapHistory`: pages that the engine builds always validate again, and no row address is
  ever handed out twice, on a page or in a heap, whatever else the database does meanwhile. A row keeps its bytes
  until it is deleted and is gone from then on, and its slot is used again under the next generation.
- `HeapFiles`: insertion is first fit; every operation has an exact outcome, changes nothing when it fails,
  gives back every pin, and needs only one frame. Opening ends on any file, finds a chain exactly when
  there is one, and otherwise meets the first fault along the links.
- `Rows`, `Schemas`, `CatalogRecords`: decoding undoes encoding and encoding undoes decoding, with the exact
  domain of each.
- `Catalogs`: opening succeeds exactly when the database registers some tables, and with those. Creating a table
  takes exactly the step of `CatalogHistory.CreateStep` and leaves the heap of every other table as it was.

## Where the code surprises

- ARCHITECTURE.md says that a heap with no room for a record gets a new page. A page with no free slot and less
  than one directory entry of slack, however, answers an insertion with a corruption error rather than with "no
  space", and the search for room stops there. `PageModel.InsertResult` and `HeapModel.Place` keep that branch,
  `HeapModel.RefusedExactlyWhenJammed` says exactly when it is taken, and `HeapModel.LargestRecordStopsTheHeap`
  gives a heap that refuses every record from its first one on.
- Validation accepts a free slot whose generation is zero, and reusing that slot makes a page that validation
  refuses. `PageTheorems.ReuseBreaksValidation` gives such a page. `PageEdits.InsertedMeaning` and
  `SlottedPages.SlottedPage.Insert` say that the result validates exactly when the slot's generation is not
  zero, and `PageTheorems.RunsFromNewPage` that pages built by the engine never have such a slot.
- ARCHITECTURE.md calls row encoding canonical. Row validation ignores the unused bits of the null bitmap:
  `Rows.PaddingIsIgnored` sets such a bit in any accepted row and gets another accepted row with the same
  values. `Rows.RowsAreCanonical` says that two rows with the same values are equal exactly when these bits
  agree, and `RoundTrips.RowBackAndThere` that re-encoding a decoded row gives it back exactly when they are clear.
- Creating a table makes the table's heap before it writes the table's record. When writing the record fails,
  the catalog is unchanged but a page stays allocated that nobody owns. `CatalogHistory.PageSpentExactlyWhenRefused`
  says exactly when that happens, `Catalogs.Catalog.CreateTable` what the database looks like then, and
  `CatalogHistory.FailedCreationChangesDatabase` gives two schemas of which the second fails in this way: the
  first, `CatalogHistory.LargestTable`, has a record of the largest size, and no table is ever made after it.
- Opening a database does not look at whether the catalog root is an allocated page; following it does.
  `Disk.OpeningIgnoresTheRoot` gives such a file for every root, and `EndToEnd.OpenWithUnallocatedRoot` opens it
  and has its catalog refused because that page is not allocated.

## Model

| member | source | states |
|---|---|---|
| Pages.Page.Read | src/storage/page.rs:72-75 | reading succeeds exactly inside the page and gives the bytes at that range |
| Pages.Page.Write | src/storage/page.rs:77-82 | a write inside the page replaces exactly its range and marks the page dirty; any other changes nothing |
| Pages.Page.WriteU16 | src/storage/page.rs:89-91 | a two-byte little-endian write, with the same bounds and frame |
| Pages.Page.WriteU32 | src/storage/page.rs:98-100 | a four-byte little-endian write, with the same bounds and frame |
| Numbers.FieldsAreLittleEndian | src/storage/page.rs:84-100 | the two-, four- and eight-byte fields of any byte string are the numbers whose base-256 digits the bytes are, lowest first |
| Utf8Text.Utf8IffEncoded | src/schema/row.rs:241-246 | the byte strings that count as text are exactly the encodings of sequences of Unicode scalar values |
| Ranges.WindowTestIsExact | src/heap/slotted_page.rs:336-339 | sorting by start and comparing neighbours decides pairwise disjointness of non-empty ranges, in both directions |
| PageLayout.RangesDecide | src/heap/slotted_page.rs:293-330 | the ranges that validation collects are apart exactly when no two live non-empty records overlap |
| PageLayout.Packing | src/heap/slotted_page.rs:362-381 | records that do not overlap and lie past the free end total no more than the space there |
| PageLayout.FreeSpaceWithinSlack | src/heap/slotted_page.rs:112-114 | on a valid page the contiguous gap is never more than what compaction can free, so compaction cannot underflow |
| PageModel.InsertAddsOneRow | src/heap/slotted_page.rs:130-190 | insertion adds exactly one row at an address that named nothing, spends exactly the record and at most one entry, and keeps the invariant |
| PageModel.DeleteRemovesOneRow | src/heap/slotted_page.rs:207-227 | deletion removes exactly the named row, gives back exactly its bytes, and keeps the invariant |
| PageModel.NeverIssuedTwice | src/heap/slotted_page.rs:155-167 | over any run no address is handed out twice and a dead address stays dead |
| PageModel.DeletedForever | src/heap/slotted_page.rs:207-227 | a deleted address never resolves again and is never handed out again |
| PageModel.RetiredForever | src/heap/slotted_page.rs:207-214 | a slot that ran out of generations is never used again |
| PageModel.DeletedSlotIsUsedAgain | src/heap/slotted_page.rs:155-167 | after a deletion below the last generation an insertion that fits takes that slot under the generation that follows, unless a free slot comes before it, and the directory does not grow |
| PageModel.LastGenerationIsRetired | src/heap/slotted_page.rs:207-219 | a slot deleted in generation 65535 is handed out by no run |
| PageModel.InsertionTakesFirstFree | src/heap/slotted_page.rs:130-190 | an insertion takes the first free slot under its generation, or a new last slot under generation one, and changes no other slot |
| PageEdits.InsertedMeaning | src/heap/slotted_page.rs:164-190 | the bytes an insertion writes mean the stored record, and the page stays valid exactly when the slot has a generation |
| PageEdits.DeletedMeaning | src/heap/slotted_page.rs:207-227 | the bytes a deletion writes are valid and mean the page without that row |
| PageEdits.RelinkedMeaning | src/heap/slotted_page.rs:124-128 | changing the link changes nothing else |
| PageEdits.InitializedMeaning | src/heap/slotted_page.rs:440-465 | a freshly initialized page is valid, keeps the invariant and is empty |
| PageEdits.CompactedMeaning | src/heap/slotted_page.rs:231-265 | compaction keeps the page valid and its meaning, and ends with the free end at the page size less the live bytes |
| PageEdits.CompactionIsIdempotent | src/heap/slotted_page.rs:231-265 | compacting twice gives the same bytes as compacting once |
| PageTheorems.RunsFromNewPage | src/heap/slotted_page.rs:130-341 | any run of insert, delete, compact and relink from an initialized page validates, keeps the invariant and means what the run means |
| PageTheorems.InsertOutcomeInBytes | src/heap/slotted_page.rs:130-153 | with S bytes beside directory and live records and growth g: success iff length + g fits in S, corruption iff g is one entry and S is less, otherwise no space |
| PageTheorems.ReuseBreaksValidation | src/heap/slotted_page.rs:321-327 | a page that validates, on which insertion succeeds with a result that does not validate |
| PageTheorems.ValidPageListsItsRows | src/heap/slotted_page.rs:199-205 | a valid page lists exactly live-count addresses, in slot order, and those are the ones that resolve |
| PageFormat.ValidPageInBytes | src/heap/slotted_page.rs:267-341 | a page is valid if and only if its bytes say so: magic, version and kind, directory and gap bounds, allowed entries, records apart, and the number of live entries, all at literal offsets |
| PageFormat.PageMeaningInBytes | src/heap/slotted_page.rs:104-122 | what a valid page means, slot by slot, read from literal offsets: flags, generation, length and the record's own bytes, and the link |
| PageFormat.InsertionInBytes | src/heap/slotted_page.rs:130-167 | which entry and generation an insertion into a valid page gets, or which error with which sizes, read from the page's bytes |
| PageFormat.InsertedInBytes | src/heap/slotted_page.rs:164-190 | the bytes after an insertion: record, entry, header fields, and everything else as it was |
| PageFormat.DeletedInBytes | src/heap/slotted_page.rs:207-227 | the bytes after a deletion: a cleared entry one generation on and free, or retired in generation 65535, one live entry less, and everything else as it was |
| PageFormat.CompactedInBytes | src/heap/slotted_page.rs:231-265 | the bytes after compaction: records side by side at the page end in entry order, entries with new offsets only, zeros in the gap, and everything else as it was |
| PageFormat.RelinkedInBytes | src/heap/slotted_page.rs:124-128 | the four bytes of the link and no others |
| PageFormat.InitializedInBytes | src/heap/slotted_page.rs:440-465 | every byte of an initialized page |
| SlottedPages.SlottedPage.FindReusableSlot | src/heap/slotted_page.rs:356-360 | the first free slot, if there is one |
| SlottedPages.SlottedPage.FreeSpaceAfterCompaction | src/heap/slotted_page.rs:362-381 | the slack less the growth, or the underflow error when it would be negative |
| SlottedPages.SlottedPage.IsLive | src/heap/slotted_page.rs:343-354 | an address passes validation exactly when it resolves on this page |
| SlottedPages.SlottedPage.Get | src/heap/slotted_page.rs:192-197 | the bytes of the row, or an invalid-address error; never out of bounds |
| SlottedPages.SlottedPage.LiveRidsListed | src/heap/slotted_page.rs:199-205 | the listing is exactly the live addresses in slot order |
| SlottedPages.SlottedPage.NextPageId | src/heap/slotted_page.rs:116-122 | the link of the page's meaning |
| SlottedPages.SlottedPage.SetNextPageId | src/heap/slotted_page.rs:124-128 | changes the link only, and of the bytes only the four at offset 16; refused on a shared view without changing a byte |
| SlottedPages.SlottedPage.Insert | src/heap/slotted_page.rs:130-190 | the exact outcome and address for every valid page and record, the new meaning, the bytes that may change and what stands there, compaction only when the gap is too small, and no change at all on error |
| SlottedPages.SlottedPage.Delete | src/heap/slotted_page.rs:207-227 | removes exactly the addressed row and leaves its entry free one generation on, or retired after the last, in bytes; or changes nothing |
| SlottedPages.DeleteThenInsert | src/heap/slotted_page.rs:155-227 | deleting a row and inserting a record that fits gives the same slot one generation later, unless a free slot comes before it or generations ran out |
| SlottedPages.SlottedPage.Compact | src/heap/slotted_page.rs:231-265 | computes the packed page in place, in bytes; fails only on a shared view |
| SlottedPages.SlottedPage.MakeRoom | src/heap/slotted_page.rs:140-153 | after it the gap is big enough, or the exact error; the meaning never changes, and the second space check of insertion never fires |
| SlottedPages.SlottedPage.Validate | src/heap/slotted_page.rs:267-341 | accepts exactly the well-formed pages |
| SlottedPages.SlottedPage.FromPage | src/heap/slotted_page.rs:80-94 | a view of a page exactly when it validates |
| SlottedPages.SlottedPage.Initialize | src/heap/slotted_page.rs:440-465 | overwrites any page with the empty heap page |
| Disk.HeaderRoundTrip | src/storage/disk.rs:293-336 | decoding an encoded header gives it back |
| Disk.DecodesIffStands | src/storage/disk.rs:312-336 | header page decodes to a header if and only if magic, version, page size, next page id and root stand at offsets 0, 8, 12, 16 and 20 |
| Disk.DiskInBytes | src/storage/disk.rs:169-254 | a file stands for a header and a map of pages if and only if the header stands in its first bytes and page k is the 8192 bytes at 8192 times k |
| Disk.OpensInBytes | src/storage/disk.rs:169-206 | a file opens exactly when it is whole pages, some header stands in it, and it has every page that the header counts |
| Disk.PageWriteOk | src/storage/disk.rs:240-254 | writing one page changes that page of the file and no other |
| Disk.HeaderWriteOk | src/storage/disk.rs:225-227 | persisting the header keeps every data page |
| Disk.DiskManager.Open | src/storage/disk.rs:169-206 | opens exactly the files with whole pages, a valid header and every page the header counts, and with the next page id and root that stand at offsets 16 and 20 |
| Disk.OpeningIgnoresTheRoot | src/storage/disk.rs:169-206 | a file without data pages opens whatever catalog root its header names |
| Disk.DiskManager.SetCatalogRoot | src/storage/disk.rs:109-117 | sets the root once, to an allocated page, or gives the exact error; the header then stands in the file at literal offsets, and no other page changed |
| Disk.DiskManager.AllocatePage | src/storage/disk.rs:121-135 | appends one zeroed page with the next id, never the last id of the range, keeps every other page, and leaves the new header in the file at literal offsets |
| Disk.DiskManager.ReadPage | src/storage/disk.rs:137-150 | the bytes of an allocated data page, or why there are none |
| Disk.DiskManager.WritePage | src/storage/disk.rs:152-157 | replaces one page of the file and marks the cached page clean |
| Disk.OneReading | src/storage/disk.rs:169-206 | a written file stands for one header and one map of pages |
| Disk.WrittenFileOpens | src/storage/disk.rs:169-206 | every file the engine wrote opens again |
| BufferPools.BufferPool.Create | src/storage/buffer_pool.rs:53-66 | a pool of any positive capacity shows exactly the pages of the disk |
| BufferPools.BufferPool.Pin | src/storage/buffer_pool.rs:68-103 | succeeds exactly when the page exists, can be cached and is not pinned to the limit; the view never changes, exactly one pin is added on success, only this page becomes the most recently touched, a page leaves the cache only when the page was not cached and the cache is full, unpinned and least recently used, and only such a page is written to disk |
| BufferPools.BufferPool.AllocatePage | src/storage/buffer_pool.rs:106-130 | adds one zeroed page to the view, cached and pinned once, or changes nothing; the exact error; the same order of eviction as pinning |
| BufferPools.BufferPool.EnsureSpace | src/storage/buffer_pool.rs:197-219 | makes room exactly when fewer pages are pinned than the pool has frames, evicting at most one page, which is unpinned and was touched no later than any other unpinned one, and never changes the view |
| BufferPools.BufferPool.EvictOldest | src/storage/buffer_pool.rs:202-219 | the victim is unpinned and was touched no later than any other unpinned frame, up to the latest clock wrap; with none, every frame is pinned |
| BufferPools.BufferPool.PickVictim | src/storage/buffer_pool.rs:202-208 | an unpinned frame of smallest tick, or proof that all are pinned |
| BufferPools.BufferPool.SmallestTickIsOldest | src/storage/buffer_pool.rs:202-208 | the smallest stored tick belongs to a frame touched no later than the others, except for order lost at a wrap |
| BufferPools.BufferPool.RoomIffFree | src/storage/buffer_pool.rs:197-208 | counting pages that guards hold tells whether a frame is free or can be freed |
| BufferPools.BufferPool.NextTick | src/storage/buffer_pool.rs:242-251 | ticks go up, and when the clock wraps every stored tick restarts from zero |
| BufferPools.BufferPool.FlushFrame | src/storage/buffer_pool.rs:229-240 | writes this frame back, no other page of the disk changes, and cleans it; the view does not change |
| BufferPools.BufferPool.FlushPage | src/storage/buffer_pool.rs:132-138 | afterwards the disk has the cached bytes of this page and is otherwise as it was, or the page was not cached |
| BufferPools.BufferPool.FlushAll | src/storage/buffer_pool.rs:142-153 | afterwards the disk holds exactly the view |
| BufferPools.BufferPool.Close | src/storage/buffer_pool.rs:156-160 | hands back a disk whose pages are exactly what clients saw |
| BufferPools.BufferPool.Edited | src/storage/buffer_pool.rs:266-274 | edits through one guard disturb no other frame, count or tick |
| BufferPools.BufferPool.EndEdit | src/storage/buffer_pool.rs:277-282 | an ended edit changes the view at its own page and nowhere else, and takes back its pin |
| BufferPools.BufferPool.Release | src/storage/buffer_pool.rs:277-282 | dropping a guard takes back exactly one pin |
| BufferPools.BufferPool.SetCatalogRoot | src/storage/buffer_pool.rs:182-187 | sets the root under the disk's conditions, with the exact error, and leaves the cache alone |
| HeapModel.FirstFit | src/heap/heap_file.rs:78-94 | the record goes to the first page whose slack admits it, a page is appended only when none does, and the search stops early exactly at a page with no free slot and less than one entry of slack |
| HeapModel.RefusedExactlyWhenJammed | src/heap/heap_file.rs:85-89 | an insertion is refused as corrupt exactly when some page has no free slot and less than one entry of slack, and no page before it admits the record |
| HeapModel.LargestRecordStopsTheHeap | src/heap/heap_file.rs:85-89 | after one record of the largest size, a one-page heap refuses every record |
| HeapModel.InsertAddsRow | src/heap/heap_file.rs:70-94 | insertion keeps the chain invariant and adds one row at an address that named nothing |
| HeapModel.DeleteRemovesRow | src/heap/heap_file.rs:104-110 | deletion keeps the chain invariant and removes exactly the named row |
| HeapModel.ScanIsExact | src/heap/heap_file.rs:112-125 | a scan lists every row with its bytes, nothing else, each once, in chain order and then slot order |
| HeapFiles.HeapFile.Create | src/heap/heap_file.rs:23-33 | a heap of one new empty page, exactly when a page can be had |
| HeapFiles.HeapFile.Open | src/heap/heap_file.rs:35-56 | ends on any file; gives the chain that links lead to, or the cycle, bad link or bad page met first |
| HeapFiles.WalkIsExact | src/heap/heap_file.rs:35-56 | following links finds a list of pages exactly when it is a whole chain without repeats from the first page |
| HeapFiles.WalkFails | src/heap/heap_file.rs:35-56 | following links stops at a page met before, a page that is not allocated or a page that is not valid exactly when the links lead there along distinct valid pages |
| HeapFiles.FirstPageMissing | src/heap/heap_file.rs:35-56 | following links stops at the first page itself exactly when that page is not allocated |
| HeapFiles.EngineChainIsFound | src/heap/heap_file.rs:35-56 | a chain the engine built is found again from its first page |
| HeapFiles.HeapFile.Insert | src/heap/heap_file.rs:70-94 | the exact outcome, exactly one row more on success, the new chain, pages of other heaps untouched, all pins given back, and no change at all on error |
| HeapFiles.InsertionEnds | src/heap/heap_file.rs:70-94 | each outcome of an insertion with the exact condition for it: too large beyond 8152 bytes, read-only, stopped by a jammed page, no page id left, the first page that admits the record, or a new page |
| HeapFiles.HeapFile.AppendPageWithRecord | src/heap/heap_file.rs:127-149 | links a new last page that holds the record; once the page is allocated nothing can fail |
| HeapFiles.HeapFile.Get | src/heap/heap_file.rs:96-102 | exactly the bytes that the heap's rows have at the address, or, when they have none, an invalid address on a member page and a foreign address on any other; on any chain that opens |
| HeapFiles.HeapFile.Delete | src/heap/heap_file.rs:104-110 | exactly the addressed row goes when there is one; otherwise the exact error, and nothing changes |
| HeapFiles.HeapFile.Scan | src/heap/heap_file.rs:112-125 | the rows in scan order, on any chain that opens |
| HeapFiles.OneFrameIsEnough | src/storage/buffer_pool.rs:197-208 | without guards held elsewhere a pool of one frame can serve any page, which is the condition under which the heap operations state their exact outcomes |
| HeapHistory.AddressesAreNeverReused | src/storage/disk.rs:121-135 | over any run of a heap, whatever else is allocated, no address is handed out twice and dead addresses stay dead |
| HeapHistory.DeletedRowStaysDead | src/heap/heap_file.rs:104-110 | once deleted, an address names nothing for the rest of any run |
| HeapHistory.RowStaysUntilDeleted | src/heap/heap_file.rs:70-110 | over any run a row keeps its address and its bytes until the run deletes it |
| HeapHistory.DeletedRowIsGone | src/heap/heap_file.rs:104-110 | a row that a run deletes is not there at its end |
| HeapHistory.InsertRows | src/heap/heap_file.rs:70-94 | an accepted insertion changes the rows by one entry, a refused one not at all |
| HeapHistory.DeleteRows | src/heap/heap_file.rs:104-110 | a deletion changes the rows by at most the entry it names |
| Rows.Compile | src/schema/row.rs:61-82 | the layout of the columns, with bitmap, fields and payload area |
| Rows.FieldsApart | src/schema/row.rs:61-82 | fields follow one another without overlap, after the bitmap and before the payload |
| Rows.SetNull | src/schema/row.rs:332-336 | sets one null bit and changes no other bit or byte |
| Rows.Encode | src/schema/row.rs:93-153 | succeeds exactly when the count matches, every value fits and the size is within a page; the result means the values and has clear padding; otherwise the first problem in column order |
| Rows.NoProblemIffEncodable | src/schema/row.rs:93-153 | encoding meets a problem exactly when the values have no row |
| Rows.Validate | src/schema/row.rs:203-258 | accepts exactly the rows that mean some list of values |
| Rows.AcceptsIffRepresents | src/schema/row.rs:203-258 | the checks of validation, column by column, are complete and sound for that meaning |
| Rows.Decode | src/schema/row.rs:155-164 | gives the values the row means, or there are none |
| Rows.Project | src/schema/row.rs:166-186 | an out-of-range index first, then a bad row, otherwise exactly the decoded values at the indices |
| Rows.DecodeColumn | src/schema/row.rs:188-201 | agrees with full decoding at one index |
| Rows.RowMeansOneList | src/schema/row.rs:260-289 | a row means at most one list of values |
| Rows.RowsAreCanonical | src/schema/row.rs:203-258 | two rows with the same values are equal exactly when their unused bitmap bits agree |
| Rows.PaddingIsIgnored | src/schema/row.rs:203-258 | setting a clear unused bit of an accepted row gives a different row that is accepted with the same values |
| Rows.EncodedRowIsUnique | src/schema/row.rs:93-153 | a row that means the values and has clear unused bits is the encoding of these values |
| Formats.RowInBytes | src/schema/row.rs:93-289 | a row means its values if and only if version, null bits, fields and payloads stand at literal places: integers modulo two to the 64, booleans as 0 or 1, descriptors of place and length |
| Formats.IntegerInBytes | src/schema/row.rs:121-122 | byte k of a stored integer is its k-th base-256 digit, also below zero |
| Formats.EncodableInWords | src/schema/row.rs:93-153 | exactly the lists that have a row: one value a column, of its type or null where allowed, in at most 8152 bytes |
| Formats.ValueRefused | src/schema/row.rs:93-153 | which error encoding reports, by the first value that is not taken |
| Formats.LayoutInNumbers | src/schema/row.rs:61-79 | the compiled layout in plain numbers: bitmap size, the place and width of each field, and the size of the rest |
| RoundTrips.RowThereAndBack | src/schema/row.rs:93-164 | decoding an encoded row gives the values back |
| RoundTrips.RowBackAndThere | src/schema/row.rs:93-164 | decoding a row and re-encoding the values gives the row back exactly when its unused bits are clear; a row that does not decode means nothing |
| Schemas.New | src/schema/table.rs:120-164 | accepts exactly the declarable tables and reports the first problem of any other |
| Schemas.OneColumnTable | src/schema/table.rs:82-89 | a required key column of any type is a table by itself |
| Formats.NamesInBytes | src/schema/table.rs:277-300 | a table of one required key column is accepted exactly when both names have 1 to 255 bytes, a letter or underscore first, and then letters, digits and underscores, by byte value |
| Formats.DeclarableInWords | src/schema/table.rs:120-164 | exactly the accepted declarations: names, 1 to 1024 sound columns, a key, and fields that fit in 8152 bytes |
| Formats.UnsoundColumn | src/schema/table.rs:132-150 | the one error that the first unsound column raises: bad name, repeated name, second key or nullable key, in this order |
| Formats.OtherRefusals | src/schema/table.rs:120-164 | the one error of any other refused declaration: table name, no or too many columns, no key, too wide a row |
| Schemas.FindKey | src/schema/table.rs:132-150 | one non-null key, distinct names and valid identifiers, or the first column that breaks this |
| Schemas.FromTag | src/schema/table.rs:38-57 | tags and types correspond one to one |
| Schemas.Encode | src/schema/table.rs:217-239 | writes the declarations in order |
| Schemas.ParsesIffEncodes | src/schema/table.rs:241-274 | parsing finds declarations exactly in their encoding |
| Formats.SchemaInBytes | src/schema/table.rs:217-275 | bytes encode a declaration if and only if magic, version, counts, names, type tags 1 to 5 and flags stand at literal places and the bytes end there |
| Schemas.Decode | src/schema/table.rs:241-275 | decodes exactly the encodings of accepted declarations |
| Schemas.Cursor.Take | src/schema/table.rs:317-326 | advances over exactly the bytes it gives, or stays |
| Schemas.Cursor.ReadString | src/schema/table.rs:337-343 | a length-prefixed UTF-8 string, or none |
| Schemas.SchemaRoundTrip | src/schema/table.rs:217-275 | no two schemas share an encoding |
| Schemas.DeclarationsDetermineSchema | src/schema/table.rs:215-216 | key column and layout are determined by the declarations |
| Schemas.PrimaryKeyValue | src/schema/table.rs:210-213 | the key of any valid row, which is never null |
| RoundTrips.SchemaThereAndBack | src/schema/table.rs:217-275 | decoding an encoded schema gives it back, layout included |
| RoundTrips.SchemaBackAndThere | src/schema/table.rs:217-275 | encoding a decoded schema gives the bytes back |
| CatalogRecords.EncodeTableRecord | src/catalog/mod.rs:168-179 | the record of a definition |
| CatalogRecords.DecodeTableRecord | src/catalog/mod.rs:181-222 | decodes exactly the records of valid definitions |
| CatalogRecords.RecordIsUnique | src/catalog/mod.rs:168-222 | no two definitions share a record |
| Formats.RecordInBytes | src/catalog/mod.rs:168-222 | bytes are the record of a table if and only if magic, version, id, first page and length stand at literal offsets, id and page are not zero, and the rest encodes the schema |
| RoundTrips.RecordThereAndBack | src/catalog/mod.rs:168-222 | decoding an encoded record gives the definition back |
| CatalogModel.OpensOneWay | src/catalog/mod.rs:73-108 | the pages of a database determine its tables and the next id |
| CatalogModel.NextFollowsIds | src/catalog/mod.rs:80-103 | an opened catalog goes on with 1, or with the id after the largest one, or stays at the last id |
| CatalogModel.CatalogReopens | src/catalog/mod.rs:73-108 | a catalog that agrees with its database opens again as it is |
| CatalogModel.OpenedAgrees | src/catalog/mod.rs:73-108 | whatever opens a database whose catalog agrees with it gets exactly that catalog's heap, tables and next id |
| CatalogModel.TableAdded | src/catalog/mod.rs:126-158 | writing a record makes the table part of the catalog: unique name, next id, a heap that shares no page |
| CatalogModel.TableHeapChanged | src/catalog/mod.rs:160-165 | work on one table's heap through any handle keeps the catalog, and its own heap and every other table's heap hold what they held |
| CatalogModel.TableHeapsKept | src/catalog/mod.rs:126-158 | changes to the catalog's own heap leave every table's heap as it was |
| CatalogHistory.FailedCreation | src/catalog/mod.rs:126-158 | a creation changes nothing when it stops early, makes the table when the catalog's heap accepts its record, and otherwise spends one page id |
| CatalogHistory.PageSpentExactlyWhenRefused | src/catalog/mod.rs:137-151 | a page is spent without a table exactly when creation does not stop early and inserting the record fails |
| CatalogHistory.LargestTableStopsTheCatalog | src/catalog/mod.rs:133-151 | a first table whose record has the largest size is made, and jams the catalog's heap |
| CatalogHistory.StoppedForGood | src/catalog/mod.rs:133-151 | a jammed catalog makes no table again, however many are tried |
| CatalogHistory.FailedCreationChangesDatabase | src/catalog/mod.rs:133-151 | two schemas of which the first is made and the second fails and leaves a page behind |
| CatalogHistory.IdsWithoutGaps | src/catalog/mod.rs:126-158 | a run of creations leaves no gap in the ids, keeps every table it had, and makes only tables it was asked for |
| Catalogs.Catalog.Create | src/catalog/mod.rs:57-71 | an empty catalog, exactly when the database has none and a page can be had |
| Catalogs.Catalog.Open | src/catalog/mod.rs:73-108 | succeeds exactly when the database registers some tables, with those tables and their next id; a root that starts no whole chain is refused by what is wrong with the chain, one that is not allocated by that, and any other refusal names the first record of the scan with which something is wrong |
| Catalogs.Catalog.CreateTable | src/catalog/mod.rs:126-158 | the exact outcome and the exact next state of tables, ids, catalog heap and next page; a repeated name, spent ids and too large a record are each reported exactly when they occur; every other table's heap stays; a failure changes nothing when it stops early, and otherwise adds one empty page that no chain has |
| Catalogs.CreationEnds | src/catalog/mod.rs:126-158 | each outcome of a creation with the condition that decides it, in order, in plain numbers |
| Catalogs.Catalog.OpenTableHeap | src/catalog/mod.rs:160-165 | the table's heap as it is now, or that there is no such table |
| EndToEnd.InsertRunGet | src/heap/heap_file.rs:70-110 | what an accepted insertion stored is read back at its address after any run that does not delete it, and an error once the run deletes it |
| EndToEnd.RunAndReopen | src/heap/heap_file.rs:23-149 | any run, any two capacities: after closing and reopening, the same pages, a scan of exactly the run's rows, the bytes of any address that the scan lists and an error for any other; the addresses returned on the way are the run's, all distinct |
| EndToEnd.CreateTablesAndReopen | src/catalog/mod.rs:57-158 | any schemas: after closing and reopening, exactly the tables, ids, catalog heap and next page that the run of creations leads to, heaps apart, every table's heap empty |
| EndToEnd.OpenWithUnallocatedRoot | src/catalog/mod.rs:73-80 | a database whose root is not allocated opens, and opening its catalog says which page is missing |
| FullStack.StoreRow | src/heap/heap_file.rs:70-94 | a list of values is taken exactly when it is encodable and the heap accepts its row, at the address the heap hands out; otherwise nothing changes; the catalog's heap and every other table's heap stay |
| FullStack.RemoveRow | src/heap/heap_file.rs:104-110 | exactly the addressed row of the table goes, or nothing when there is none; the catalog's heap and every other table's heap stay |
| FullStack.NothingOverwritten | src/heap/heap_file.rs:70-94 | over a run every list taken adds one row at a new address, and every earlier row stays |
| FullStack.ReadRows | src/heap/heap_file.rs:112-125 | reading a table decodes exactly the stored rows, each once, page by page along the chain and slot by slot |
| FullStack.FirstTableFits | src/catalog/mod.rs:133-151 | the first table of a new database is refused only when its record is too large |
| FullStack.StoreAndReadBack | src/catalog/mod.rs:57-165 | lists stored in a table, then close and reopen with any pools: what is read is exactly what the run of encodable and accepted lists leads to, as many rows as lists taken |
| Databases.Make | src/catalog/mod.rs:126-158 | creating a table takes the database, with the rows of all its tables, exactly one step further |
| Databases.Store | src/heap/heap_file.rs:70-94 | storing in one table takes the database exactly one step further, and says whether and where the row was taken |
| Databases.Remove | src/heap/heap_file.rs:104-110 | removing from one table takes the database exactly one step further, and says whether there was such a row |
| Databases.DbStepKeeps | src/catalog/mod.rs:126-165 | every step keeps the invariant of the catalog and of every table's heap |
| Databases.StepMakes | src/catalog/mod.rs:126-158 | a step makes the table, empty, under the next id and at the next page, exactly when name, id, page, record size and the catalog's heap allow it, and touches no other table |
| Databases.StepStores | src/heap/heap_file.rs:70-94 | a step stores the values at one address that had none exactly when they have a row and the table's heap takes it, and otherwise changes nothing |
| Databases.StepRemoves | src/heap/heap_file.rs:104-110 | a step removes exactly the addressed row of the table and changes nothing else |
| Databases.RowStaysUntilRemoved | src/heap/heap_file.rs:70-110 | over any run of the database, a row of any table keeps its address and its values until it is removed from that table |
| Databases.RunDatabase | src/catalog/mod.rs:57-165 | any run over any number of tables, any two capacities: after closing and reopening, exactly the run's tables, and each table's scan decodes to exactly its own rows, each once and in the order of a scan |

## Left out

- Operating-system failures, paths, synchronization and crashes: the file is a byte string that every read and write reaches; nothing is promised about what survives a crash.
- Borrow checking at run time (a borrowed pool or page, forgotten guards): a page is edited only through a guard that is not yet released, and flushing and closing happen while no page is being edited.
- The owned backing of a slotted page: a page is either writable or a shared read-only view.
- Counters of the pool, error messages and error conversions; where an error carries only a reason text, contracts state the kind of error and when it arises, not the text.
- SlottedPages.SlottedPage.Validate: states exactly when a page is accepted, not which of several faults is reported.
- HeapFiles.HeapFile.Insert: is stated for chains that the engine built; on a chain with a foreign page that has a free slot of generation zero, the page-level contract of insertion applies, and the result may not validate.
- A second live handle on the same heap: a heap file keeps its own list of pages, and another handle that appends makes that list stale; one live handle per heap is assumed while it is written to.
- HeapFiles.HeapFile.Get: says nothing more than "refused because of pins held elsewhere" when other guards hold every frame; the same holds for the other heap and catalog operations.
- Capacity hints and hash-map iteration order: eviction among equal ticks and the order of write-back are left open.
- Sorting in page validation is a specification function, since the original calls its library.
- Floating-point values are 64-bit patterns; UTF-8 follows section 4 of RFC 3629 as a predicate on bytes, and text is kept as its bytes.
- Encoding of row addresses, display names, configuration, the command line, and everything planned but not written (the tree index, the query language, the log).
