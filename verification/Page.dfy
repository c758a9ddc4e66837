/** Fixed-size raw pages with checked, little-endian byte access (src/storage/page.rs). */
module Pages {
  import opened Wrappers
  import opened Bytes

  const PAGE_SIZE := 8192
  const PAGE_HEADER_SIZE := 32

  type PageBytes = b: seq<byte> | |b| == PAGE_SIZE witness seq(PAGE_SIZE, i => 0)

  type PageId = u32

  /** Names a row: the page, the slot in it, and the generation of that slot. */
  datatype Rid = Rid(page: PageId, slot: u16, generation: u16)

  datatype PageError = OutOfBounds(offset: nat, length: nat)

  /** `b` with one 16-bit field overwritten. */
  function Put16(b: PageBytes, o: nat, v: u16): PageBytes
    requires o + 2 <= PAGE_SIZE
  {
    Splice(b, o, Le16(v))
  }

  function Put32(b: PageBytes, o: nat, v: u32): PageBytes
    requires o + 4 <= PAGE_SIZE
  {
    Splice(b, o, Le32(v))
  }

  class Page {
    const id: PageId
    const bytes: array<byte>
    var dirty: bool

    ghost predicate Valid() {
      bytes.Length == PAGE_SIZE
    }

    function Content(): (c: PageBytes)
      requires Valid()
      reads bytes
    {
      bytes[..]
    }

    constructor Zeroed(id: PageId)
      ensures Valid() && fresh(bytes)
      ensures this.id == id && !dirty && Content() == Zeros(PAGE_SIZE)
    {
      this.id := id;
      this.bytes := new byte[PAGE_SIZE](i => 0);
      this.dirty := false;
    }

    constructor FromBytes(id: PageId, content: PageBytes)
      ensures Valid() && fresh(bytes)
      ensures this.id == id && !dirty && Content() == content
    {
      this.id := id;
      this.bytes := new byte[PAGE_SIZE](i requires 0 <= i < PAGE_SIZE => content[i]);
      this.dirty := false;
    }

    method MarkClean()
      modifies this`dirty
      ensures !dirty
    {
      dirty := false;
    }

    function Read(offset: nat, length: nat): (r: Result<seq<byte>, PageError>)
      requires Valid()
      reads bytes
      ensures r.Ok? <==> offset + length <= PAGE_SIZE
      ensures r.Ok? ==> r.value == Content()[offset..offset + length]
    {
      if offset + length > PAGE_SIZE then Err(OutOfBounds(offset, length))
      else Ok(bytes[offset..offset + length])
    }

    /** Overwrites a range and marks the page dirty, or changes nothing when the range leaves the page. */
    method Write(offset: nat, source: seq<byte>) returns (r: Result<Unit, PageError>)
      requires Valid()
      modifies this`dirty, bytes
      ensures r.Ok? <==> offset + |source| <= PAGE_SIZE
      ensures r.Ok? ==> dirty && Content() == Splice(old(Content()), offset, source)
      ensures r.Err? ==> r.error == OutOfBounds(offset, |source|)
      ensures r.Err? ==> dirty == old(dirty) && Content() == old(Content())
    {
      if offset + |source| > PAGE_SIZE {
        return Err(OutOfBounds(offset, |source|));
      }
      forall i | 0 <= i < |source| {
        bytes[offset + i] := source[i];
      }
      dirty := true;
      assert Content() == Splice(old(Content()), offset, source);
      return Ok(Unit);
    }

    method WriteU16(offset: nat, value: u16) returns (r: Result<Unit, PageError>)
      requires Valid()
      modifies this`dirty, bytes
      ensures r.Ok? <==> offset + 2 <= PAGE_SIZE
      ensures r.Ok? ==> dirty && Content() == Put16(old(Content()), offset, value)
      ensures r.Err? ==> dirty == old(dirty) && Content() == old(Content())
    {
      r := Write(offset, Le16(value));
    }

    method WriteU32(offset: nat, value: u32) returns (r: Result<Unit, PageError>)
      requires Valid()
      modifies this`dirty, bytes
      ensures r.Ok? <==> offset + 4 <= PAGE_SIZE
      ensures r.Ok? ==> dirty && Content() == Put32(old(Content()), offset, value)
      ensures r.Err? ==> dirty == old(dirty) && Content() == old(Content())
    {
      r := Write(offset, Le32(value));
    }
  }
}
