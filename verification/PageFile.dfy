/** The page file: where each page lies, and the file header, application header and pages stored in it. */
module PageFile {
  import opened Bytes
  import opened LittleEndian
  import opened PageLists
  import opened Wrappers

  const FORMAT_TYPE: nat := 0xB0BA
  const FILE_HEADER_SIZE: nat := 22

  datatype FileHeader = FileHeader(formatType: nat, offsetToData: nat, pageSize: nat, pageAmount: nat)

  // ---- addresses ----

  // resolve_page_offset: computed in 64 bits, returned in 32.
  function Offset(h: FileHeader, id: PageId): (p: nat)
    requires id >= 1
    ensures p < U32_LIMIT
  {
    (h.offsetToData + h.pageSize * (id - 1)) % U32_LIMIT
  }

  // The page's offset fits in 32 bits.
  predicate Addressable(h: FileHeader, id: PageId)
  {
    id >= 1 && h.offsetToData + h.pageSize * (id - 1) < U32_LIMIT
  }

  // No two of pages 1..n share a byte and none reaches into the headers.
  ghost predicate Apart(h: FileHeader, n: nat)
  {
    && (forall a :: 1 <= a <= n ==> h.offsetToData <= Offset(h, a))
    && (forall a, b :: 1 <= a < b <= n ==>
          Offset(h, a) + h.pageSize <= Offset(h, b) || Offset(h, b) + h.pageSize <= Offset(h, a))
  }

  lemma Product(a: nat, b: nat, size: nat)
    requires a <= b
    ensures size * a <= size * b
    ensures a < b ==> size * a + size <= size * b
  {
    assert size * b - size * a == size * (b - a);
    if a < b {
      assert size * (b - a) == size + size * (b - a - 1);
    }
  }

  lemma OffsetFits(h: FileHeader, n: nat, a: nat)
    requires 1 <= a <= n && h.offsetToData + h.pageSize * (n - 1) < U32_LIMIT
    ensures Offset(h, a) == h.offsetToData + h.pageSize * (a - 1)
  {
    Product(a - 1, n - 1, h.pageSize);
  }

  lemma ApartWhenFits(h: FileHeader, n: nat)
    requires n >= 1 && h.offsetToData + h.pageSize * (n - 1) < U32_LIMIT
    ensures Apart(h, n)
  {
    hide Offset;
    forall a | 1 <= a <= n
      ensures h.offsetToData <= Offset(h, a)
    {
      OffsetFits(h, n, a);
      Product(0, a - 1, h.pageSize);
    }
    forall a, b | 1 <= a < b <= n
      ensures Offset(h, a) + h.pageSize <= Offset(h, b)
    {
      OffsetFits(h, n, a);
      OffsetFits(h, n, b);
      Product(a - 1, b - 1, h.pageSize);
    }
  }

  // The first page whose offset no longer fits in 32 bits.
  lemma {:induction false} FirstWrapped(h: FileHeader, n: nat) returns (k: nat)
    requires n >= 1 && h.offsetToData < U32_LIMIT <= h.offsetToData + h.pageSize * (n - 1)
    ensures 2 <= k <= n
    ensures h.offsetToData + h.pageSize * (k - 2) < U32_LIMIT <= h.offsetToData + h.pageSize * (k - 1)
  {
    if h.offsetToData + h.pageSize * (n - 2) < U32_LIMIT {
      k := n;
    } else {
      k := FirstWrapped(h, n - 1);
    }
  }

  // Pages 1..n keep out of each other's way and out of the headers exactly while the offset of the
  // last one fits in 32 bits; the first page past that lies in the headers or on page 1.
  lemma ApartExactly(h: FileHeader, n: nat)
    requires n >= 1 && h.pageSize > 0 && h.offsetToData < U32_LIMIT
    ensures Apart(h, n) <==> h.offsetToData + h.pageSize * (n - 1) < U32_LIMIT
  {
    if h.offsetToData + h.pageSize * (n - 1) < U32_LIMIT {
      ApartWhenFits(h, n);
    } else {
      var k := FirstWrapped(h, n);
      WrappedCollides(h, k);
      assert Offset(h, 1) == h.offsetToData;
    }
  }

  lemma WrappedCollides(h: FileHeader, k: nat)
    requires k >= 2 && h.pageSize > 0 && h.offsetToData < U32_LIMIT
    requires h.offsetToData + h.pageSize * (k - 2) < U32_LIMIT <= h.offsetToData + h.pageSize * (k - 1)
    ensures Offset(h, k) < h.offsetToData || Offset(h, k) < h.offsetToData + h.pageSize
  {
    var at := h.offsetToData + h.pageSize * (k - 1);
    assert at == h.offsetToData + h.pageSize * (k - 2) + h.pageSize;
    assert at - U32_LIMIT < h.pageSize;
    Modulo(at);
  }

  lemma Modulo(at: nat)
    requires at >= U32_LIMIT
    ensures at % U32_LIMIT <= at - U32_LIMIT
  {
  }

  // ---- the file as bytes ----

  // fseek and fwrite: a write past the end fills the gap with zeroes.
  function WriteAt(file: seq<byte>, p: nat, b: seq<byte>): (r: seq<byte>)
    ensures |r| == if p + |b| <= |file| then |file| else p + |b|
    ensures forall k :: 0 <= k < |r| ==>
              r[k] == if p <= k < p + |b| then b[k - p] else if k < |file| then file[k] else 0
  {
    var long := if p + |b| <= |file| then file else file + seq(p + |b| - |file|, _ => 0);
    Overwrite(long, p, b)
  }

  // fseek and fread: nothing is read unless all of it is there.
  function ReadAt(file: seq<byte>, p: nat, size: nat): Option<seq<byte>>
  {
    if p + size <= |file| then Some(file[p..p + size]) else None
  }

  // The bytes b lie at p.
  predicate Stored(file: seq<byte>, p: nat, b: seq<byte>)
  {
    ReadAt(file, p, |b|) == Some(b)
  }

  lemma StoredByWrite(file: seq<byte>, p: nat, b: seq<byte>)
    ensures Stored(WriteAt(file, p, b), p, b)
  {
  }

  lemma StoredElsewhere(file: seq<byte>, p: nat, b: seq<byte>, q: nat, c: seq<byte>)
    requires Stored(file, q, c) && (p + |b| <= q || q + |c| <= p)
    ensures Stored(WriteAt(file, p, b), q, c)
  {
    var file' := WriteAt(file, p, b);
    assert file'[q..q + |c|] == file[q..q + |c|];
  }

  // ---- the file header ----

  predicate Fits(h: FileHeader)
  {
    h.formatType < U16_LIMIT && h.offsetToData < U32_LIMIT && h.pageSize < U64_LIMIT && h.pageAmount < U64_LIMIT
  }

  function HeaderBytes(h: FileHeader): (b: seq<byte>)
    ensures |b| == FILE_HEADER_SIZE
  {
    Encode(h.formatType, 2) + Encode(h.offsetToData, 4) + Encode(h.pageSize, 8) + Encode(h.pageAmount, 8)
  }

  function HeaderOf(b: seq<byte>): FileHeader
    requires |b| == FILE_HEADER_SIZE
  {
    FileHeader(Value(b[..2]), Value(b[2..6]), Value(b[6..14]), Value(b[14..]))
  }

  lemma HeaderRoundTrip(h: FileHeader)
    requires Fits(h)
    ensures HeaderOf(HeaderBytes(h)) == h
  {
    Limits();
    ValueOfEncode(h.formatType, 2);
    ValueOfEncode(h.offsetToData, 4);
    ValueOfEncode(h.pageSize, 8);
    ValueOfEncode(h.pageAmount, 8);
    hide Encode, Value, Pow256;
    Parts(Encode(h.formatType, 2), Encode(h.offsetToData, 4), Encode(h.pageSize, 8), Encode(h.pageAmount, 8));
  }

  // Where the fields lie: the type in two bytes, the offset in four, size and amount in eight, lowest byte first.
  lemma HeaderLayout(h: FileHeader)
    requires Fits(h)
    ensures var b := HeaderBytes(h);
            && h.formatType == b[0] as nat + 0x100 * b[1] as nat && h.offsetToData == Number(b[2..6])
            && h.pageSize == Number(b[6..10]) + 0x1_0000_0000 * Number(b[10..14])
            && h.pageAmount == Number(b[14..18]) + 0x1_0000_0000 * Number(b[18..22])
  {
    var b := HeaderBytes(h);
    var type', offset, size, amount :=
      Encode(h.formatType, 2), Encode(h.offsetToData, 4), Encode(h.pageSize, 8), Encode(h.pageAmount, 8);
    Limits();
    Parts(type', offset, size, amount);
    EncodeTwo(h.formatType);
    ValueOfEncode(h.offsetToData, 4);
    ValueDigits(offset);
    EncodeBytes(h.pageSize);
    EncodeBytes(h.pageAmount);
    hide Encode, Value, Pow256, Number, HeaderBytes;
    assert b[0] == type'[0] && b[1] == type'[1] && b[2..6] == offset;
    assert b[6..10] == b[6..14][..4] == size[..4] && b[10..14] == b[6..14][4..] == size[4..];
    assert b[14..18] == b[14..][..4] == amount[..4] && b[18..22] == b[14..][4..] == amount[4..];
  }

  // Any 22 bytes are the packing of the header read from them.
  lemma HeaderOfRoundTrip(b: seq<byte>)
    requires |b| == FILE_HEADER_SIZE
    ensures Fits(HeaderOf(b)) && HeaderBytes(HeaderOf(b)) == b
  {
    Limits();
    ValueBound(b[..2]);
    ValueBound(b[2..6]);
    ValueBound(b[6..14]);
    ValueBound(b[14..]);
    EncodeOfValue(b[..2]);
    EncodeOfValue(b[2..6]);
    EncodeOfValue(b[6..14]);
    EncodeOfValue(b[14..]);
    hide Encode, Value, Pow256;
    Whole(b);
  }

  lemma Whole(b: seq<byte>)
    requires |b| == FILE_HEADER_SIZE
    ensures b == b[..2] + b[2..6] + b[6..14] + b[14..]
  {
  }

  lemma Parts(a: seq<byte>, b: seq<byte>, c: seq<byte>, d: seq<byte>)
    requires |a| == 2 && |b| == 4 && |c| == 8 && |d| == 8
    ensures var s := a + b + c + d;
            |s| == FILE_HEADER_SIZE && s[..2] == a && s[2..6] == b && s[6..14] == c && s[14..] == d
  {
  }

  // ---- pages stored in a file ----

  ghost predicate PageStored(file: seq<byte>, h: FileHeader, id: PageId, b: seq<byte>)
  {
    id >= 1 && |b| == h.pageSize && Stored(file, Offset(h, id), b)
  }

  ghost predicate PagesStored(file: seq<byte>, h: FileHeader, pages: map<PageId, seq<byte>>)
  {
    forall id :: id in pages ==> PageStored(file, h, id, pages[id])
  }

  // Writing one page leaves every other page and both headers as they were.
  lemma WriteKeepsOthers(file: seq<byte>, h: FileHeader, n: nat, pages: map<PageId, seq<byte>>, id: PageId,
                         b: seq<byte>)
    requires Apart(h, n) && 1 <= id <= n && |b| == h.pageSize
    requires PagesStored(file, h, pages) && forall q :: q in pages ==> 1 <= q <= n
    ensures PagesStored(WriteAt(file, Offset(h, id), b), h, pages[id := b])
    ensures forall p: nat, c :: p + |c| <= h.offsetToData && Stored(file, p, c) ==>
              Stored(WriteAt(file, Offset(h, id), b), p, c)
  {
    hide Offset, WriteAt, ReadAt, Stored;
    var file', pages' := WriteAt(file, Offset(h, id), b), pages[id := b];
    assert h.offsetToData <= Offset(h, id);
    forall q | q in pages'
      ensures PageStored(file', h, q, pages'[q])
    {
      if q == id {
        StoredByWrite(file, Offset(h, id), b);
      } else {
        assert PageStored(file, h, q, pages[q]);
        OneApart(h, n, id, q);
        StoredElsewhere(file, Offset(h, id), b, Offset(h, q), pages[q]);
      }
    }
    forall p: nat, c | p + |c| <= h.offsetToData && Stored(file, p, c)
      ensures Stored(file', p, c)
    {
      StoredElsewhere(file, Offset(h, id), b, p, c);
    }
  }

  lemma OneApart(h: FileHeader, n: nat, a: PageId, b: PageId)
    requires Apart(h, n) && 1 <= a <= n && 1 <= b <= n && a != b
    ensures Offset(h, a) + h.pageSize <= Offset(h, b) || Offset(h, b) + h.pageSize <= Offset(h, a)
  {
    hide Offset;
  }

  lemma HeaderWriteKeepsPages(file: seq<byte>, h: FileHeader, n: nat, pages: map<PageId, seq<byte>>, p: nat,
                              b: seq<byte>)
    requires Apart(h, n) && p + |b| <= h.offsetToData
    requires PagesStored(file, h, pages) && forall q :: q in pages ==> 1 <= q <= n
    ensures PagesStored(WriteAt(file, p, b), h, pages)
  {
    hide Offset, WriteAt, ReadAt, Stored;
    forall q | q in pages
      ensures PageStored(WriteAt(file, p, b), h, q, pages[q])
    {
      assert PageStored(file, h, q, pages[q]);
      StoredElsewhere(file, p, b, Offset(h, q), pages[q]);
    }
  }

  // ---- the page resolver ----

  class PageResolver {
    var file: seq<byte>
    var header: FileHeader
    var wasFileHeaderAltered: bool
    var applicationHeader: seq<byte>
    // what the file holds: the pages written and the application header last flushed
    ghost var pages: map<PageId, seq<byte>>
    ghost var flushed: seq<byte>

    ghost predicate Valid()
      reads this
    {
      && Fits(header) && header.formatType == FORMAT_TYPE && header.pageSize > 0
      && header.offsetToData == FILE_HEADER_SIZE + |applicationHeader| && |flushed| == |applicationHeader|
      && (forall id :: id in pages ==> 1 <= id <= header.pageAmount && Addressable(header, id))
      && PagesStored(file, header, pages)
      && Stored(file, FILE_HEADER_SIZE, flushed)
      && |file| >= FILE_HEADER_SIZE
      && (!wasFileHeaderAltered ==> Stored(file, 0, HeaderBytes(header)))
    }

    // A new file; the original has pages of 128 bytes and a 24-byte application header.
    constructor Create(pageSize: nat, defaultHeader: seq<byte>)
      requires 0 < pageSize < U64_LIMIT && FILE_HEADER_SIZE + |defaultHeader| < U32_LIMIT
      ensures Valid() && pages == map[] && flushed == applicationHeader == defaultHeader
      ensures header == FileHeader(FORMAT_TYPE, FILE_HEADER_SIZE + |defaultHeader|, pageSize, 0)
      ensures Stored(file, 0, HeaderBytes(header))
    {
      var h := FileHeader(FORMAT_TYPE, FILE_HEADER_SIZE + |defaultHeader|, pageSize, 0);
      wasFileHeaderAltered := true;
      header := h;
      applicationHeader := defaultHeader;
      file := WriteAt(WriteAt([], 0, HeaderBytes(h)), FILE_HEADER_SIZE, defaultHeader);
      pages, flushed := map[], defaultHeader;
      new;
      StoredByWrite([], 0, HeaderBytes(h));
      StoredElsewhere(WriteAt([], 0, HeaderBytes(h)), FILE_HEADER_SIZE, defaultHeader, 0, HeaderBytes(h));
      StoredByWrite(WriteAt([], 0, HeaderBytes(h)), FILE_HEADER_SIZE, defaultHeader);
    }

    // A file that is not new, whose header is of this format.
    constructor Reopen(bytes: seq<byte>, applicationHeaderSize: nat, ghost written: map<PageId, seq<byte>>)
      requires var o := Open(bytes, applicationHeaderSize);
               && o.Opened? && o.header.pageSize > 0
               && o.header.offsetToData == FILE_HEADER_SIZE + applicationHeaderSize
               && forall id :: id in written ==>
                    && 1 <= id <= o.header.pageAmount && Addressable(o.header, id)
                    && ReadAt(bytes, Offset(o.header, id), o.header.pageSize) == Some(written[id])
      ensures Valid() && pages == written && Stored(file, 0, HeaderBytes(header))
      ensures Open(bytes, applicationHeaderSize) == Opened(header, applicationHeader) && flushed == applicationHeader
    {
      var start := bytes[..FILE_HEADER_SIZE];
      assert bytes[0..FILE_HEADER_SIZE] == start;
      HeaderOfRoundTrip(start);
      hide HeaderOf, HeaderBytes, Offset, Addressable;
      wasFileHeaderAltered := false;
      header := HeaderOf(start);
      applicationHeader := bytes[FILE_HEADER_SIZE..FILE_HEADER_SIZE + applicationHeaderSize];
      file := bytes;
      pages, flushed := written, bytes[FILE_HEADER_SIZE..FILE_HEADER_SIZE + applicationHeaderSize];
    }

    method WriteHeader()
      requires Valid()
      modifies `file, `wasFileHeaderAltered
      ensures Valid() && !wasFileHeaderAltered
    {
      hide PagesStored, Stored, HeaderBytes, WriteAt, Offset, Apart, Addressable;
      ghost var n := Highest(pages);
      AddressableApart(n);
      wasFileHeaderAltered := false;
      var b := HeaderBytes(header);
      HeaderWriteKeepsPages(file, header, n, pages, 0, b);
      StoredByWrite(file, 0, b);
      StoredElsewhere(file, 0, b, FILE_HEADER_SIZE, flushed);
      file := WriteAt(file, 0, b);
    }

    lemma AddressableApart(n: nat)
      requires Valid() && (n in pages || Addressable(header, n) || n == 0)
      ensures Apart(header, n)
    {
      if n > 0 {
        ApartWhenFits(header, n);
      }
    }

    method GetNewPageId() returns (id: PageId)
      requires Valid() && header.pageAmount + 1 < U64_LIMIT
      modifies `header, `wasFileHeaderAltered
      ensures Valid() && id == header.pageAmount == old(header.pageAmount) + 1
      ensures header == old(header).(pageAmount := id) && id !in pages
    {
      header := header.(pageAmount := header.pageAmount + 1);
      wasFileHeaderAltered := true;
      id := header.pageAmount;
      forall q | q in pages
        ensures PageStored(file, header, q, pages[q])
      {
        assert PageStored(file, old(header), q, pages[q]);
        assert Offset(header, q) == Offset(old(header), q);
      }
    }

    // Every other page and the application header stay as they were, and the header on file is current.
    method WritePage(id: PageId, data: seq<byte>)
      requires Valid() && 1 <= id <= header.pageAmount && Addressable(header, id) && |data| == header.pageSize
      modifies `file, `wasFileHeaderAltered, `pages
      ensures Valid() && !wasFileHeaderAltered && pages == old(pages)[id := data]
    {
      hide PagesStored, Stored, HeaderBytes, WriteAt, Offset, Apart, Addressable;
      if wasFileHeaderAltered {
        WriteHeader();
      }
      ghost var n := Highest(pages[id := data]);
      assert id in pages[id := data];
      AddressableApart(n);
      assert forall q :: q in pages ==> q in pages[id := data];
      WriteKeepsOthers(file, header, n, pages, id, data);
      file := WriteAt(file, Offset(header, id), data);
      pages := pages[id := data];
    }

    // A page that was written reads as it was written last.
    method ReadPage(id: PageId) returns (r: Option<seq<byte>>)
      requires Valid() && id >= 1
      ensures id in pages ==> r == Some(pages[id])
      ensures r == ReadAt(file, Offset(header, id), header.pageSize)
    {
      if id in pages {
        assert PageStored(file, header, id, pages[id]);
      }
      r := ReadAt(file, Offset(header, id), header.pageSize);
    }

    method FlushApplicationHeader()
      requires Valid()
      modifies `file, `flushed
      ensures Valid() && flushed == applicationHeader
    {
      ghost var n := Highest(pages);
      AddressableApart(n);
      HeaderWriteKeepsPages(file, header, n, pages, FILE_HEADER_SIZE, applicationHeader);
      StoredByWrite(file, FILE_HEADER_SIZE, applicationHeader);
      if !wasFileHeaderAltered {
        StoredElsewhere(file, FILE_HEADER_SIZE, applicationHeader, 0, HeaderBytes(header));
      }
      file := WriteAt(file, FILE_HEADER_SIZE, applicationHeader);
      flushed := applicationHeader;
    }
  }

  // The largest page id stored.
  ghost function Highest(pages: map<PageId, seq<byte>>): (n: nat)
    ensures n in pages || (n == 0 && pages == map[])
    ensures forall q :: q in pages ==> q <= n
    decreases |pages|
  {
    if pages == map[] then 0
    else
      var q :| q in pages;
      var rest := map p | p in pages && p != q :: pages[p];
      assert rest.Keys == pages.Keys - {q};
      assert forall x :: x in pages ==> x == q || x in rest;
      var n := Highest(rest);
      if n > q then n else q
  }

  datatype Opened = Opened(header: FileHeader, applicationHeader: seq<byte>) | InvalidHeader | ReadError

  // What the constructor finds in a file that is not new.
  function Open(file: seq<byte>, applicationHeaderSize: nat): Opened
  {
    match ReadAt(file, 0, FILE_HEADER_SIZE)
    case None => ReadError
    case Some(b) =>
      if HeaderOf(b).formatType != FORMAT_TYPE then InvalidHeader
      else
        match ReadAt(file, FILE_HEADER_SIZE, applicationHeaderSize)
        case None => ReadError
        case Some(a) => Opened(HeaderOf(b), a)
  }

  // Which files open, by their bytes: a file shorter than its headers is not read, and one of another type is refused.
  lemma OpenExactly(file: seq<byte>, applicationHeaderSize: nat)
    ensures var n, o := 22 + applicationHeaderSize, Open(file, applicationHeaderSize);
            && (o.InvalidHeader? <==> |file| >= 22 && file[0] as nat + 0x100 * file[1] as nat != 0xB0BA)
            && (o.Opened? <==> |file| >= n && file[0] as nat + 0x100 * file[1] as nat == 0xB0BA)
            && (o.Opened? ==> o.applicationHeader == file[22..n] && HeaderBytes(o.header) == file[..22])
  {
    if |file| >= 22 {
      var h := HeaderOf(file[..22]);
      HeaderOfRoundTrip(file[..22]);
      HeaderLayout(h);
      hide HeaderOf, HeaderBytes, Value, Encode, Number;
      assert file[0..22] == file[..22];
    }
  }

  // A file whose header is current opens with the same page size and page amount and the application
  // header flushed last, and every page written reads back.
  lemma Reopened(r: PageResolver)
    requires r.Valid() && Stored(r.file, 0, HeaderBytes(r.header))
    ensures Open(r.file, |r.applicationHeader|) == Opened(r.header, r.flushed)
    ensures forall id :: id in r.pages ==> ReadAt(r.file, Offset(r.header, id), r.header.pageSize) == Some(r.pages[id])
  {
    HeaderRoundTrip(r.header);
    forall id | id in r.pages
      ensures PageStored(r.file, r.header, id, r.pages[id])
    {
    }
    hide HeaderOf, HeaderBytes, Offset;
  }
}
