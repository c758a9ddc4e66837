/**
 * The database file and its header page (src/storage/disk.rs). The file is a byte string that every
 * read and write reaches; operating-system failures are not part of this model.
 */
module Disk {
  import opened Wrappers
  import opened Bytes
  import opened Pages
  import opened Numbers

  const DATABASE_MAGIC: seq<byte> := [0x4E, 0x4F, 0x52, 0x54, 0x48, 0x44, 0x42, 0]
  const DATABASE_FORMAT_VERSION: u16 := 1
  const FIRST_DATA_PAGE_ID: u32 := 1
  const NO_CATALOG_ROOT: u32 := U32_MAX

  datatype DatabaseHeader = DatabaseHeader(nextPageId: u32, catalogRoot: Option<PageId>)

  datatype DiskError =
    | InvalidFileLength(length: nat)
    | CorruptHeader(reason: string)
    | ReadOnlyDatabase
    | HeaderPageIsReserved
    | PageNotAllocated(id: PageId)
    | PageIdExhausted
    | CatalogRootAlreadySet(id: PageId)

  predicate HeaderValid(h: DatabaseHeader) {
    h.nextPageId >= FIRST_DATA_PAGE_ID && h.catalogRoot != Some(NO_CATALOG_ROOT)
  }

  /** The root, once set, names an allocated page. */
  predicate RootAllocated(h: DatabaseHeader) {
    h.catalogRoot.Some? ==> FIRST_DATA_PAGE_ID <= h.catalogRoot.value < h.nextPageId
  }

  function HeaderFields(h: DatabaseHeader): (b: seq<byte>)
    ensures |b| == 32
  {
    DATABASE_MAGIC + Le16(DATABASE_FORMAT_VERSION) + Zeros(2) + Le32(PAGE_SIZE) + Le32(h.nextPageId)
    + Le32(if h.catalogRoot.Some? then h.catalogRoot.value else NO_CATALOG_ROOT) + Le32(0) + Le32(0)
  }

  function EncodeHeader(h: DatabaseHeader): PageBytes {
    HeaderFields(h) + Zeros(PAGE_SIZE - 32)
  }

  function DecodeHeader(b: PageBytes): Result<DatabaseHeader, DiskError> {
    if b[..8] != DATABASE_MAGIC then Err(CorruptHeader("invalid database magic"))
    else if U16At(b, 8) != DATABASE_FORMAT_VERSION then Err(CorruptHeader("unsupported database format version"))
    else if U32At(b, 12) != PAGE_SIZE then Err(CorruptHeader("incompatible database page size"))
    else if U32At(b, 16) < FIRST_DATA_PAGE_ID then Err(CorruptHeader("invalid next page ID"))
    else
      var root := U32At(b, 20);
      Ok(DatabaseHeader(U32At(b, 16), if root == NO_CATALOG_ROOT then None else Some(root)))
  }

  lemma HeaderField(b: seq<byte>, o: nat, v: u32)
    requires o + 4 <= |b| && b[o..o + 4] == Le32(v)
    ensures U32At(b, o) == v
  {
    Le32RoundTrip(v);
    assert Le32(v)[0..4] == Le32(v);
    U32Shift(b, o, Le32(v), 0);
  }

  /** Encoding a header and decoding the page gives the header back, for every header the engine keeps. */
  lemma HeaderRoundTrip(h: DatabaseHeader)
    requires HeaderValid(h)
    ensures DecodeHeader(EncodeHeader(h)) == Ok(h)
  {
    var b, f := EncodeHeader(h), HeaderFields(h);
    var root := if h.catalogRoot.Some? then h.catalogRoot.value else NO_CATALOG_ROOT;
    assert b[..8] == DATABASE_MAGIC;
    assert b[8] == f[8] == 1 && b[9] == f[9] == 0;
    assert b[12..16] == f[12..16] == Le32(PAGE_SIZE);
    assert b[16..20] == f[16..20] == Le32(h.nextPageId);
    assert b[20..24] == f[20..24] == Le32(root);
    hide HeaderFields, EncodeHeader, Le32;
    HeaderField(b, 12, PAGE_SIZE);
    HeaderField(b, 16, h.nextPageId);
    HeaderField(b, 20, root);
    hide U32At;
  }

  // ----- The header and the file in plain numbers -----

  /** Page zero of the file says what the header says: the high-water mark at 16 and the root at 20. */
  ghost predicate HeaderStandsIn(file: seq<byte>, h: DatabaseHeader) {
    && |file| >= 8192
    && file[..8] == [0x4E, 0x4F, 0x52, 0x54, 0x48, 0x44, 0x42, 0]
    && Field(file, 8, 2) == 1 && Field(file, 12, 4) == 8192
    && Field(file, 16, 4) == h.nextPageId
    && Field(file, 20, 4) == if h.catalogRoot.Some? then h.catalogRoot.value else 0xFFFF_FFFF
  }

  /** The bytes of page zero that no field uses are zero, as the engine writes them. */
  ghost predicate HeaderPadded(file: seq<byte>) {
    |file| >= 8192 && file[10] == 0 && file[11] == 0 && forall i | 24 <= i < 8192 :: file[i] == 0
  }

  lemma FieldInPage(file: seq<byte>, o: nat, n: nat)
    requires |file| >= PAGE_SIZE && o + n <= PAGE_SIZE
    ensures Field(PageInFile(file, 0), o, n) == Field(file, o, n)
  {
    assert PageInFile(file, 0)[o..o + n] == file[o..o + n];
  }

  /** A header decodes from page zero exactly when it stands there. */
  lemma {:induction false} DecodesIffStands(file: seq<byte>, h: DatabaseHeader)
    requires |file| >= PAGE_SIZE
    ensures DecodeHeader(PageInFile(file, 0)) == Ok(h) <==>
      HeaderStandsIn(file, h) && h.nextPageId >= 1 && h.catalogRoot != Some(0xFFFF_FFFF)
  {
    var b := PageInFile(file, 0);
    assert b[..8] == file[..8];
    FieldInPage(file, 8, 2);
    FieldInPage(file, 12, 4);
    FieldInPage(file, 16, 4);
    FieldInPage(file, 20, 4);
    FieldsAreLittleEndian(b, 8);
    FieldsAreLittleEndian(b, 12);
    FieldsAreLittleEndian(b, 16);
    FieldsAreLittleEndian(b, 20);
    hide PageInFile, Field, U16At, U32At;
  }

  // ----- Pages inside the file -----

  predicate HoldsPage(file: seq<byte>, id: PageId) {
    PAGE_SIZE * id + PAGE_SIZE <= |file|
  }

  function PageInFile(file: seq<byte>, id: PageId): PageBytes
    requires HoldsPage(file, id)
  {
    file[PAGE_SIZE * id..PAGE_SIZE * id + PAGE_SIZE]
  }

  /** Writing a page at its offset, overwriting or extending the file. */
  function WritePageAt(file: seq<byte>, id: PageId, content: PageBytes): (f: seq<byte>)
    requires PAGE_SIZE * id <= |file|
    ensures HoldsPage(f, id)
    ensures |f| == if HoldsPage(file, id) then |file| else PAGE_SIZE * id + PAGE_SIZE
  {
    file[..PAGE_SIZE * id] + content + if HoldsPage(file, id) then file[PAGE_SIZE * id + PAGE_SIZE..] else []
  }

  lemma PageReadsBack(file: seq<byte>, id: PageId, content: PageBytes)
    requires PAGE_SIZE * id <= |file|
    ensures PageInFile(WritePageAt(file, id, content), id) == content
  {
  }

  lemma OtherPagesUntouched(file: seq<byte>, id: PageId, content: PageBytes, other: PageId)
    requires PAGE_SIZE * id <= |file| && other != id && HoldsPage(file, other)
    ensures HoldsPage(WritePageAt(file, id, content), other)
    ensures PageInFile(WritePageAt(file, id, content), other) == PageInFile(file, other)
  {
    var f := WritePageAt(file, id, content);
    if other < id {
      assert f[..PAGE_SIZE * id] == file[..PAGE_SIZE * id];
      assert PageInFile(f, other) == f[..PAGE_SIZE * id][PAGE_SIZE * other..PAGE_SIZE * other + PAGE_SIZE];
    } else {
      var o := PAGE_SIZE * id + PAGE_SIZE;
      assert f[o..] == file[o..];
      assert PageInFile(f, other) == f[o..][PAGE_SIZE * other - o..PAGE_SIZE * other + PAGE_SIZE - o];
      assert PageInFile(file, other) == file[o..][PAGE_SIZE * other - o..PAGE_SIZE * other + PAGE_SIZE - o];
    }
  }

  /** A file that opens: whole pages, a decodable header, and every page the header counts. */
  ghost predicate FileOpens(file: seq<byte>) {
    && |file| % PAGE_SIZE == 0 && |file| >= PAGE_SIZE
    && DecodeHeader(PageInFile(file, 0)).Ok?
    && PAGE_SIZE * DecodeHeader(PageInFile(file, 0)).value.nextPageId <= |file|
  }

  /**
   * Opening does not look at the catalog root: the file of a database without data pages opens whatever
   * root its header names, although no page is allocated.
   */
  lemma {:induction false} OpeningIgnoresTheRoot(root: PageId)
    requires root != NO_CATALOG_ROOT
    ensures var file := WritePageAt([], 0, EncodeHeader(DatabaseHeader(FIRST_DATA_PAGE_ID, Some(root))));
      && FileOpens(file)
      && DecodeHeader(PageInFile(file, 0)) == Ok(DatabaseHeader(FIRST_DATA_PAGE_ID, Some(root)))
      && !RootAllocated(DatabaseHeader(FIRST_DATA_PAGE_ID, Some(root)))
  {
    var header := DatabaseHeader(FIRST_DATA_PAGE_ID, Some(root));
    HeaderRoundTrip(header);
    hide EncodeHeader, DecodeHeader, PageInFile, WritePageAt;
    PageReadsBack([], 0, EncodeHeader(header));
  }

  /**
   * A file, its header in memory, and the data pages it stands for agree: page zero decodes to the
   * header, and the file holds every allocated page.
   */
  ghost predicate DiskOk(file: seq<byte>, header: DatabaseHeader, pages: map<PageId, PageBytes>) {
    && HeaderValid(header)
    && |file| % PAGE_SIZE == 0 && PAGE_SIZE * header.nextPageId <= |file|
    && DecodeHeader(PageInFile(file, 0)) == Ok(header)
    && (forall id :: id in pages <==> FIRST_DATA_PAGE_ID <= id < header.nextPageId)
    && (forall id | id in pages :: pages[id] == PageInFile(file, id))
  }

  /** What a database file is, in plain numbers: page `id` is the 8192 bytes from 8192 times `id` on. */
  lemma {:induction false} DiskInBytes(file: seq<byte>, header: DatabaseHeader, pages: map<PageId, PageBytes>)
    ensures DiskOk(file, header, pages) <==>
      && |file| % 8192 == 0 && HeaderStandsIn(file, header)
      && header.nextPageId >= 1 && header.catalogRoot != Some(0xFFFF_FFFF) && 8192 * header.nextPageId <= |file|
      && (forall id :: id in pages <==> 1 <= id < header.nextPageId)
      && (forall id: PageId | id in pages :: 8192 * id + 8192 <= |file| && pages[id] == file[8192 * id..8192 * id + 8192])
  {
    if |file| >= PAGE_SIZE {
      DecodesIffStands(file, header);
    }
    hide DecodeHeader, HeaderStandsIn;
  }

  /** What opening asks of a file, in plain numbers. */
  lemma {:induction false} OpensInBytes(file: seq<byte>)
    ensures FileOpens(file) <==>
      && |file| % 8192 == 0
      && exists header :: HeaderStandsIn(file, header) && header.nextPageId >= 1 && 8192 * header.nextPageId <= |file|
  {
    if FileOpens(file) {
      DecodedHeaderValid(PageInFile(file, 0));
      DecodesIffStands(file, DecodeHeader(PageInFile(file, 0)).value);
    }
    if h: DatabaseHeader :| HeaderStandsIn(file, h) && h.nextPageId >= 1 && 8192 * h.nextPageId <= |file| {
      var plain := if h.catalogRoot == Some(0xFFFF_FFFF) then h.(catalogRoot := None) else h;
      assert HeaderStandsIn(file, plain);
      DecodesIffStands(file, plain);
    }
    hide DecodeHeader, PageInFile, HeaderStandsIn;
  }

  lemma HeaderRewritten(file: seq<byte>, b: PageBytes)
    requires |file| >= PAGE_SIZE
    ensures |WritePageAt(file, 0, b)| == |file| && forall i | 8192 <= i < |file| :: WritePageAt(file, 0, b)[i] == file[i]
  {
  }

  lemma HeaderIsPadded(file: seq<byte>, h: DatabaseHeader)
    ensures HeaderPadded(WritePageAt(file, 0, EncodeHeader(h)))
  {
    var b := EncodeHeader(h);
    assert b[10] == HeaderFields(h)[10] == 0 && b[11] == HeaderFields(h)[11] == 0;
    assert forall i | 24 <= i < 28 :: b[i] == HeaderFields(h)[i] == Le32(0)[i - 24];
    assert forall i | 28 <= i < 32 :: b[i] == HeaderFields(h)[i] == Le32(0)[i - 28];
    hide HeaderFields, EncodeHeader;
    assert forall i | 0 <= i < 8192 :: WritePageAt(file, 0, b)[i] == b[i];
  }

  /** The data pages below `n`. */
  ghost function PagesBelow(file: seq<byte>, n: u32): (m: map<PageId, PageBytes>)
    requires FIRST_DATA_PAGE_ID <= n && PAGE_SIZE * n <= |file|
    ensures forall id :: id in m <==> FIRST_DATA_PAGE_ID <= id < n
    ensures forall id | id in m :: m[id] == PageInFile(file, id)
  {
    if n == FIRST_DATA_PAGE_ID then map[] else PagesBelow(file, n - 1)[n - 1 := PageInFile(file, n - 1)]
  }

  /** Writing the header to page zero keeps every data page. */
  lemma HeaderWriteOk(file: seq<byte>, header: DatabaseHeader, pages: map<PageId, PageBytes>)
    requires HeaderValid(header) && |file| % PAGE_SIZE == 0 && PAGE_SIZE * header.nextPageId <= |file|
    requires forall id :: id in pages <==> FIRST_DATA_PAGE_ID <= id < header.nextPageId
    requires forall id | id in pages :: pages[id] == PageInFile(file, id)
    ensures DiskOk(WritePageAt(file, 0, EncodeHeader(header)), header, pages)
  {
    HeaderRoundTrip(header);
    hide EncodeHeader, DecodeHeader, PageInFile, WritePageAt;
    PageReadsBack(file, 0, EncodeHeader(header));
    forall id | id in pages ensures pages[id] == PageInFile(WritePageAt(file, 0, EncodeHeader(header)), id) {
      OtherPagesUntouched(file, 0, EncodeHeader(header), id);
    }
  }

  /** Writing one data page, an old one or the next one, changes that page only. */
  lemma PageWriteOk(file: seq<byte>, header: DatabaseHeader, pages: map<PageId, PageBytes>, id: PageId, content: PageBytes)
    requires DiskOk(file, header, pages) && FIRST_DATA_PAGE_ID <= id <= header.nextPageId
    ensures PAGE_SIZE * id <= |file|
    ensures var f, m := WritePageAt(file, id, content), pages[id := content];
      && |f| % PAGE_SIZE == 0 && PAGE_SIZE * id + PAGE_SIZE <= |f|
      && PAGE_SIZE * header.nextPageId <= |f|
      && DecodeHeader(PageInFile(f, 0)) == Ok(header)
      && (forall j | j in m :: HoldsPage(f, j) && m[j] == PageInFile(f, j))
      && (id in pages ==> DiskOk(f, header, m))
  {
    hide DecodeHeader, PageInFile, WritePageAt;
    PageReadsBack(file, id, content);
    OtherPagesUntouched(file, id, content, 0);
    var f, m := WritePageAt(file, id, content), pages[id := content];
    forall j | j in m ensures HoldsPage(f, j) && m[j] == PageInFile(f, j) {
      if j != id {
        OtherPagesUntouched(file, id, content, j);
      }
    }
  }

  class DiskManager {
    var file: seq<byte>
    var header: DatabaseHeader
    const readOnly: bool
    /** The allocated data pages with their bytes. */
    ghost var pages: map<PageId, PageBytes>

    ghost predicate Valid()
      reads this
    {
      DiskOk(file, header, pages)
    }

    constructor Create()
      ensures Valid() && !readOnly && pages == map[]
      ensures header == DatabaseHeader(FIRST_DATA_PAGE_ID, None) && RootAllocated(header)
      ensures |file| == 8192 && HeaderStandsIn(file, header) && HeaderPadded(file)
    {
      var h := DatabaseHeader(FIRST_DATA_PAGE_ID, None);
      header := h;
      file := WritePageAt([], 0, EncodeHeader(h));
      readOnly := false;
      pages := map[];
      HeaderRoundTrip(h);
      PageReadsBack([], 0, EncodeHeader(h));
      HeaderIsPadded([], h);
      new;
      DecodesIffStands(file, header);
    }

    constructor Attach(file: seq<byte>, header: DatabaseHeader, readOnly: bool)
      requires HeaderValid(header) && |file| % PAGE_SIZE == 0 && PAGE_SIZE * header.nextPageId <= |file|
      requires DecodeHeader(PageInFile(file, 0)) == Ok(header)
      ensures this.file == file && this.header == header && this.readOnly == readOnly
      ensures Valid() && pages == PagesBelow(file, header.nextPageId)
    {
      this.file := file;
      this.header := header;
      this.readOnly := readOnly;
      this.pages := PagesBelow(file, header.nextPageId);
      hide DecodeHeader, PageInFile;
    }

    /** Opens an existing file, refusing one whose length or header does not fit. */
    static method Open(file: seq<byte>, readOnly: bool) returns (r: Result<DiskManager, DiskError>)
      ensures r.Ok? <==> FileOpens(file)
      ensures r.Ok? ==> fresh(r.value) && r.value.Valid() && r.value.readOnly == readOnly
      ensures |file| < PAGE_SIZE || |file| % PAGE_SIZE != 0 ==> r == Err(InvalidFileLength(|file|))
      ensures r.Err? && !r.error.InvalidFileLength? ==> r.error.CorruptHeader?
      ensures r.Ok? ==> r.value.file == file && DecodeHeader(PageInFile(file, 0)) == Ok(r.value.header)
      ensures r.Ok? <==> |file| % 8192 == 0 && exists header ::
        HeaderStandsIn(file, header) && header.nextPageId >= 1 && 8192 * header.nextPageId <= |file|
      ensures r.Ok? ==> HeaderStandsIn(file, r.value.header)
    {
      if |file| < PAGE_SIZE || |file| % PAGE_SIZE != 0 {
        return Err(InvalidFileLength(|file|));
      }
      OpensInBytes(file);
      DecodedHeaderValid(PageInFile(file, 0));
      hide DecodeHeader, PageInFile, HeaderStandsIn;
      var h := DecodeHeader(PageInFile(file, 0));
      if h.Err? {
        return Err(h.error);
      }
      if |file| / PAGE_SIZE < h.value.nextPageId {
        return Err(CorruptHeader("database header references pages beyond the end of the file"));
      }
      DecodesIffStands(file, h.value);
      var disk := new DiskManager.Attach(file, h.value, readOnly);
      return Ok(disk);
    }

    /** Sets the catalog root, once, to an allocated page. */
    method SetCatalogRoot(id: PageId) returns (r: Result<Unit, DiskError>)
      requires Valid()
      modifies this`file, this`header
      ensures Valid() && header.nextPageId == old(header.nextPageId)
      ensures r.Ok? <==> !readOnly && FIRST_DATA_PAGE_ID <= id < header.nextPageId && old(header.catalogRoot).None?
      ensures header.catalogRoot == if r.Ok? then Some(id) else old(header.catalogRoot)
      ensures r.Ok? || old(RootAllocated(header)) ==> RootAllocated(header)
      ensures HeaderStandsIn(file, header) && (r.Ok? ==> HeaderPadded(file))
      ensures r.Ok? ==> |file| == |old(file)| && forall i | 8192 <= i < |file| :: file[i] == old(file)[i]
      ensures r.Err? ==> file == old(file)
      ensures readOnly <==> r == Err(ReadOnlyDatabase)
      ensures !readOnly && id == 0 <==> r == Err(HeaderPageIsReserved)
      ensures !readOnly && id != 0 && id >= header.nextPageId <==> r == Err(PageNotAllocated(id))
      ensures r.Err? && !readOnly && 0 < id < header.nextPageId ==>
        old(header.catalogRoot).Some? && r.error == CatalogRootAlreadySet(old(header.catalogRoot).value)
    {
      hide DecodeHeader, EncodeHeader, PageInFile, WritePageAt, HeaderStandsIn, HeaderPadded;
      DiskInBytes(file, header, pages);
      if readOnly {
        return Err(ReadOnlyDatabase);
      }
      if id == 0 {
        return Err(HeaderPageIsReserved);
      }
      if id >= header.nextPageId {
        return Err(PageNotAllocated(id));
      }
      if header.catalogRoot.Some? {
        return Err(CatalogRootAlreadySet(header.catalogRoot.value));
      }
      header := header.(catalogRoot := Some(id));
      HeaderWriteOk(file, header, pages);
      HeaderRewritten(file, EncodeHeader(header));
      HeaderIsPadded(file, header);
      file := WritePageAt(file, 0, EncodeHeader(header));
      DiskInBytes(file, header, pages);
      return Ok(Unit);
    }

    /** Appends one zeroed page at the high-water mark and advances it. */
    method AllocatePage() returns (r: Result<Page, DiskError>)
      requires Valid()
      modifies this
      ensures Valid() && header.catalogRoot == old(header.catalogRoot)
      ensures old(RootAllocated(header)) ==> RootAllocated(header)
      ensures HeaderStandsIn(file, header) && (r.Ok? ==> HeaderPadded(file))
      ensures r.Ok? <==> !readOnly && old(header.nextPageId) < U32_MAX
      ensures r.Ok? ==> fresh(r.value) && r.value.Valid() && fresh(r.value.bytes) && !r.value.dirty
      ensures r.Ok? ==> r.value.id == old(header.nextPageId) && header.nextPageId == old(header.nextPageId) + 1
      ensures r.Ok? ==> r.value.Content() == Zeros(PAGE_SIZE)
      ensures r.Ok? ==> pages == old(pages)[r.value.id := Zeros(PAGE_SIZE)]
      ensures r.Err? ==> r.error == (if readOnly then ReadOnlyDatabase else PageIdExhausted)
      ensures r.Err? ==> file == old(file) && header == old(header) && pages == old(pages)
    {
      hide DecodeHeader, EncodeHeader, PageInFile, WritePageAt, HeaderStandsIn, HeaderPadded;
      DiskInBytes(file, header, pages);
      if readOnly {
        return Err(ReadOnlyDatabase);
      }
      if header.nextPageId == U32_MAX {
        return Err(PageIdExhausted);
      }
      var id := header.nextPageId;
      var page := new Page.Zeroed(id);
      PageWriteOk(file, header, pages, id, Zeros(PAGE_SIZE));
      file := WritePageAt(file, id, page.bytes[..]);
      header := header.(nextPageId := id + 1);
      pages := pages[id := Zeros(PAGE_SIZE)];
      HeaderWriteOk(file, header, pages);
      HeaderIsPadded(file, header);
      file := WritePageAt(file, 0, EncodeHeader(header));
      DiskInBytes(file, header, pages);
      return Ok(page);
    }

    method ReadPage(id: PageId) returns (r: Result<Page, DiskError>)
      requires Valid()
      ensures r.Ok? <==> id in pages
      ensures r.Ok? ==> fresh(r.value) && r.value.Valid() && fresh(r.value.bytes) && !r.value.dirty
      ensures r.Ok? ==> r.value.id == id && r.value.Content() == pages[id]
      ensures r.Err? ==> r.error == if id == 0 then HeaderPageIsReserved else PageNotAllocated(id)
    {
      hide DecodeHeader, PageInFile;
      if id == 0 {
        return Err(HeaderPageIsReserved);
      }
      if id >= header.nextPageId {
        return Err(PageNotAllocated(id));
      }
      assert id in pages;
      var page := new Page.FromBytes(id, PageInFile(file, id));
      return Ok(page);
    }

    /** Writes a cached page back and marks it clean. */
    method WritePage(page: Page) returns (r: Result<Unit, DiskError>)
      requires Valid() && page.Valid()
      modifies this`file, this`pages, page`dirty
      ensures Valid()
      ensures r.Ok? <==> !readOnly && page.id in pages
      ensures r.Ok? ==> pages == old(pages)[page.id := page.Content()] && !page.dirty
      ensures r.Err? ==> file == old(file) && pages == old(pages) && page.dirty == old(page.dirty)
      ensures r.Err? ==> r.error == (if readOnly then ReadOnlyDatabase else if page.id == 0 then HeaderPageIsReserved else PageNotAllocated(page.id))
    {
      hide DecodeHeader, PageInFile, WritePageAt;
      if readOnly {
        return Err(ReadOnlyDatabase);
      }
      if page.id == 0 {
        return Err(HeaderPageIsReserved);
      }
      if page.id >= header.nextPageId {
        return Err(PageNotAllocated(page.id));
      }
      assert page.id in pages;
      PageWriteOk(file, header, pages, page.id, page.bytes[..]);
      file := WritePageAt(file, page.id, page.bytes[..]);
      pages := pages[page.id := page.bytes[..]];
      page.MarkClean();
      return Ok(Unit);
    }
  }

  lemma DecodedHeaderValid(b: PageBytes)
    ensures DecodeHeader(b).Ok? ==> HeaderValid(DecodeHeader(b).value)
  {
  }

  /** A written file has one reading: whoever opens it gets the same header and the same pages. */
  lemma OneReading(disk: DiskManager)
    requires disk.Valid()
    ensures forall header, stored :: DiskOk(disk.file, header, stored) ==> header == disk.header && stored == disk.pages
  {
    hide DecodeHeader, PageInFile;
    forall header, stored | DiskOk(disk.file, header, stored) ensures header == disk.header && stored == disk.pages {
      assert header == disk.header;
      assert stored.Keys == disk.pages.Keys;
    }
  }

  /** And it opens. */
  lemma WrittenFileOpens(disk: DiskManager)
    requires disk.Valid()
    ensures FileOpens(disk.file)
  {
  }
}
