/** The fixed-slot page store of src/storage.rs.

    The database file is a byte sequence; page `id` occupies bytes
    `[id * PAGE_SIZE, (id + 1) * PAGE_SIZE)`. bincode's `serialize` and
    `deserialize` are the two abstract functions of a `Codec`; the one fact the
    store relies on, that decoding an encoding (followed by any bytes) gives the
    page back, is the hypothesis `RoundTrips`. */
module Storage {
  import opened Wrappers

  type Byte = b: int | 0 <= b < 0x100
  type U32 = n: int | 0 <= n < 0x1_0000_0000
  type U64 = n: int | 0 <= n < 0x1_0000_0000_0000_0000
  type I32 = n: int | -0x8000_0000 <= n < 0x8000_0000

  /** Keys of the B+ tree. */
  type Key = I32

  /** Values of the B+ tree. */
  type Value = U64

  /** Size of one page slot, 4 KiB. */
  const PAGE_SIZE: nat := 4096

  datatype NodeType = Internal | Leaf

  datatype PageData = PageData(
    id: U32,
    nodeType: NodeType,
    keys: seq<Key>,
    children: seq<U32>,
    values: seq<Value>,
    next: Option<U32>,
    parentId: Option<U32>)

  /** `PageData::new`: a page with no content and no links. */
  function NewPageData(id: U32, nodeType: NodeType): (p: PageData)
    ensures p.id == id && p.nodeType == nodeType
    ensures p.keys == [] && p.children == [] && p.values == []
    ensures p.next == None && p.parentId == None
  {
    PageData(id, nodeType, [], [], [], None, None)
  }

  /** A page; the lock around its data is not modelled. */
  class Page {
    var data: PageData

    /** `Page::new`. */
    constructor (id: U32, nodeType: NodeType)
      ensures data == NewPageData(id, nodeType)
    {
      data := NewPageData(id, nodeType);
    }

    /** The struct literal `Page { data: RwLock::new(page_data) }`. */
    constructor FromData(pageData: PageData)
      ensures data == pageData
    {
      data := pageData;
    }
  }

  /** bincode's `serialize` and `deserialize` for page records. */
  datatype Codec = Codec(encode: PageData -> seq<Byte>, decode: seq<Byte> -> Option<PageData>)

  /** Decoding an encoding gives the page back, whatever bytes follow it. */
  ghost predicate RoundTrips(codec: Codec) {
    forall p: PageData, tail: seq<Byte> :: codec.decode(codec.encode(p) + tail) == Some(p)
  }

  /** The `std::io::Error` kinds the store can return. */
  datatype IoError = UnexpectedEof | InvalidData | PageSizeExceeded

  function Max(a: nat, b: nat): nat {
    if a < b then b else a
  }

  function Zeros(n: nat): (z: seq<Byte>)
    ensures |z| == n
    ensures forall i | 0 <= i < n :: z[i] == 0
  {
    if n == 0 then [] else [0] + Zeros(n - 1)
  }

  /** First byte of page id's slot. */
  function SlotStart(id: U32): nat {
    id * PAGE_SIZE
  }

  /** The file after `seek(off)` and `write_all(buf)`: buf lands at off, every
      other existing byte is kept, and a gap between the old end of file and
      off reads as zeros. */
  function WriteAt(file: seq<Byte>, off: nat, buf: seq<Byte>): (r: seq<Byte>)
    ensures |r| == Max(|file|, off + |buf|)
    ensures r[off..off + |buf|] == buf
    ensures forall i | 0 <= i < |file| && !(off <= i < off + |buf|) :: r[i] == file[i]
    ensures forall i | |file| <= i < off :: r[i] == 0
  {
    if off <= |file| then
      var r := file[..off] + buf + (if off + |buf| < |file| then file[off + |buf|..] else []);
      assert r[off..off + |buf|] == buf;
      r
    else
      var r := file + Zeros(off - |file|) + buf;
      assert r[off..off + |buf|] == buf;
      r
  }

  /** `buffer.resize(PAGE_SIZE, 0)` on an encoding that fits. */
  function Padded(enc: seq<Byte>): (buf: seq<Byte>)
    requires |enc| <= PAGE_SIZE
    ensures |buf| == PAGE_SIZE
    ensures buf[..|enc|] == enc
    ensures forall i | |enc| <= i < PAGE_SIZE :: buf[i] == 0
  {
    var buf := enc + Zeros(PAGE_SIZE - |enc|);
    assert buf[..|enc|] == enc;
    buf
  }

  /** `read_page`: decode the PAGE_SIZE bytes of the slot; a slot that does not
      lie wholly inside the file is an unexpected end of file. */
  function ReadSlot(file: seq<Byte>, codec: Codec, id: U32): (r: Result<PageData, IoError>)
    ensures r == Failure(UnexpectedEof) <==> |file| < SlotStart(id) + PAGE_SIZE
    ensures r == Failure(InvalidData) <==>
      SlotStart(id) + PAGE_SIZE <= |file| && codec.decode(file[SlotStart(id)..SlotStart(id) + PAGE_SIZE]).None?
    ensures SlotStart(id) + PAGE_SIZE <= |file| ==>
      (r.Success? <==> codec.decode(file[SlotStart(id)..SlotStart(id) + PAGE_SIZE]).Some?)
    ensures r.Success? ==> codec.decode(file[SlotStart(id)..SlotStart(id) + PAGE_SIZE]) == Some(r.value)
  {
    var off := SlotStart(id);
    if off + PAGE_SIZE > |file| then Failure(UnexpectedEof)
    else
      match codec.decode(file[off..off + PAGE_SIZE])
      case None => Failure(InvalidData)
      case Some(p) => Success(p)
  }

  /** `write_page`: the file after writing page p, or the error. */
  function StoreSlot(file: seq<Byte>, codec: Codec, p: PageData): (r: Result<seq<Byte>, IoError>)
    ensures r.Failure? <==> |codec.encode(p)| > PAGE_SIZE
    ensures r.Failure? ==> r.error == PageSizeExceeded
    ensures r.Success? ==>
      var start := SlotStart(p.id);
      |r.value| == Max(|file|, start + PAGE_SIZE) &&
      r.value[start..start + PAGE_SIZE] == Padded(codec.encode(p)) &&
      (forall i | 0 <= i < |file| && !(start <= i < start + PAGE_SIZE) :: r.value[i] == file[i])
  {
    var encoded := codec.encode(p);
    if |encoded| > PAGE_SIZE then Failure(PageSizeExceeded)
    else Success(WriteAt(file, SlotStart(p.id), Padded(encoded)))
  }

  /** `allocate_page`'s id: the number of whole pages in the file, truncated
      to 32 bits by `as u32`. */
  function AllocatedId(len: nat): (id: U32)
    ensures len / PAGE_SIZE < 0x1_0000_0000 ==> id * PAGE_SIZE <= len < (id + 1) * PAGE_SIZE
  {
    (len / PAGE_SIZE) % 0x1_0000_0000
  }

  /** `allocate_page`: the new empty page and the file after writing it. */
  function AllocateSlot(file: seq<Byte>, codec: Codec, nodeType: NodeType): (r: Result<(PageData, seq<Byte>), IoError>)
    ensures r.Success? ==> r.value.0 == NewPageData(AllocatedId(|file|), nodeType)
  {
    var p := NewPageData(AllocatedId(|file|), nodeType);
    match StoreSlot(file, codec, p)
    case Failure(e) => Failure(e)
    case Success(f) => Success((p, f))
  }

  /** Page slots are disjoint: writing one page leaves every other slot that
      lay inside the file as it was. */
  lemma WriteKeepsOtherSlots(file: seq<Byte>, codec: Codec, p: PageData, id: U32)
    requires StoreSlot(file, codec, p).Success?
    requires id != p.id && SlotStart(id) + PAGE_SIZE <= |file|
    ensures ReadSlot(StoreSlot(file, codec, p).value, codec, id) == ReadSlot(file, codec, id)
  {
    var f := StoreSlot(file, codec, p).value;
    var start := SlotStart(id);
    assert start + PAGE_SIZE <= SlotStart(p.id) || SlotStart(p.id) + PAGE_SIZE <= start by {
      if id < p.id {
        assert (id + 1) * PAGE_SIZE <= p.id * PAGE_SIZE;
      } else {
        assert (p.id + 1) * PAGE_SIZE <= id * PAGE_SIZE;
      }
    }
    assert f[start..start + PAGE_SIZE] == file[start..start + PAGE_SIZE];
  }

  /** Reading a slot just written gives back the page written. */
  lemma ReadAfterWrite(file: seq<Byte>, codec: Codec, p: PageData)
    requires RoundTrips(codec)
    requires StoreSlot(file, codec, p).Success?
    ensures ReadSlot(StoreSlot(file, codec, p).value, codec, p.id) == Success(p)
  {
    var enc := codec.encode(p);
    var buf := Padded(enc);
    assert buf == enc + buf[|enc|..];
    assert codec.decode(enc + buf[|enc|..]) == Some(p);
  }

  /** When the file holds whole pages and the page count fits in 32 bits,
      `allocate_page` appends exactly one page, the padded encoding of an
      empty page whose id is the old page count. */
  lemma AllocateAppendsOnePage(file: seq<Byte>, codec: Codec, nodeType: NodeType)
    requires |file| % PAGE_SIZE == 0 && |file| / PAGE_SIZE < 0x1_0000_0000
    requires |codec.encode(NewPageData(|file| / PAGE_SIZE, nodeType))| <= PAGE_SIZE
    ensures var p := NewPageData(|file| / PAGE_SIZE, nodeType);
      AllocateSlot(file, codec, nodeType) == Success((p, file + Padded(codec.encode(p))))
  {
    var p := NewPageData(|file| / PAGE_SIZE, nodeType);
    var f := StoreSlot(file, codec, p).value;
    assert SlotStart(p.id) == |file|;
    assert f[..|file|] == file;
    assert f == f[..|file|] + f[|file|..|file| + PAGE_SIZE];
  }

  /** Without 32-bit wrap-around, a successful allocation leaves the file a
      whole number of pages long, ending with the new page, and the new page
      reads back as written. A partial last page is overwritten and padded. */
  lemma AllocateRoundsUp(file: seq<Byte>, codec: Codec, nodeType: NodeType)
    requires |file| / PAGE_SIZE < 0x1_0000_0000
    requires AllocateSlot(file, codec, nodeType).Success?
    requires RoundTrips(codec)
    ensures var (p, f) := AllocateSlot(file, codec, nodeType).value;
      |f| == (|file| / PAGE_SIZE + 1) * PAGE_SIZE &&
      p.id == |file| / PAGE_SIZE &&
      f[..p.id * PAGE_SIZE] == file[..p.id * PAGE_SIZE] &&
      ReadSlot(f, codec, p.id) == Success(p)
  {
    var p := NewPageData(AllocatedId(|file|), nodeType);
    ReadAfterWrite(file, codec, p);
    var f := StoreSlot(file, codec, p).value;
    assert f[..p.id * PAGE_SIZE] == file[..p.id * PAGE_SIZE];
  }

  /** The `as u32` truncation: a file of 2^32 pages allocates page 0 again,
      overwriting the first slot. */
  lemma AllocateWrapsAround(file: seq<Byte>, codec: Codec, nodeType: NodeType)
    requires |file| == 0x1_0000_0000 * PAGE_SIZE
    ensures AllocatedId(|file|) == 0
    ensures AllocateSlot(file, codec, nodeType).Success? ==>
      AllocateSlot(file, codec, nodeType).value.0.id == 0 &&
      |AllocateSlot(file, codec, nodeType).value.1| == |file|
  {
  }

  /** The database file and the codec used for its pages. The file cursor is
      not modelled: every operation seeks before it reads or writes. */
  class StorageEngine {
    var file: seq<Byte>
    const codec: Codec

    /** `StorageEngine::new` on a file whose current content is `contents`. */
    constructor (codec: Codec, contents: seq<Byte>)
      ensures this.codec == codec && file == contents
    {
      this.codec := codec;
      file := contents;
    }

    method ReadPage(pageId: U32) returns (r: Result<PageData, IoError>)
      ensures r == ReadSlot(file, codec, pageId)
    {
      var offset := pageId * PAGE_SIZE;
      if offset + PAGE_SIZE > |file| {
        return Failure(UnexpectedEof);
      }
      var buffer := file[offset..offset + PAGE_SIZE];
      var decoded := codec.decode(buffer);
      if decoded.None? {
        return Failure(InvalidData);
      }
      r := Success(decoded.value);
    }

    method WritePage(pageData: PageData) returns (r: Result<(), IoError>)
      modifies this`file
      ensures StoreSlot(old(file), codec, pageData).Failure? ==>
        r == Failure(StoreSlot(old(file), codec, pageData).error) && file == old(file)
      ensures StoreSlot(old(file), codec, pageData).Success? ==>
        r == Success(()) && file == StoreSlot(old(file), codec, pageData).value
    {
      var encoded := codec.encode(pageData);
      if |encoded| > PAGE_SIZE {
        return Failure(PageSizeExceeded);
      }
      var buffer := encoded + Zeros(PAGE_SIZE - |encoded|);
      file := WriteAt(file, pageData.id * PAGE_SIZE, buffer);
      r := Success(());
    }

    method AllocatePage(nodeType: NodeType) returns (r: Result<PageData, IoError>)
      modifies this`file
      ensures AllocateSlot(old(file), codec, nodeType).Failure? ==>
        r == Failure(AllocateSlot(old(file), codec, nodeType).error) && file == old(file)
      ensures AllocateSlot(old(file), codec, nodeType).Success? ==>
        r == Success(AllocateSlot(old(file), codec, nodeType).value.0) &&
        file == AllocateSlot(old(file), codec, nodeType).value.1
    {
      var pageId := (|file| / PAGE_SIZE) % 0x1_0000_0000;
      var pageData := NewPageData(pageId, nodeType);
      var written := WritePage(pageData);
      if written.Failure? {
        return Failure(written.error);
      }
      r := Success(pageData);
    }
  }
}
