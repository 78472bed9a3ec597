/**
 DIME (Direct Internet Message Encapsulation, draft-nielsen-dime-02) record
 builder and parser.

 A record on the wire is a 12-byte header followed by four segments
 (options, id, type, data), each padded with zero bytes to a multiple of 4.
 Header layout:
   byte 0      version << 3 | MB | ME | CF
   byte 1      type_t << 4 | reserved nibble
   bytes 2..3  options length, big-endian
   bytes 4..5  id length, big-endian
   bytes 6..7  type length, big-endian
   bytes 8..11 data length, big-endian
 Bit operations on single bytes are written with division and remainder by
 powers of two (`b >> 3` is `b / 8`, `b & 0x0F` is `b % 16`).
 */
module Dime {
  import opened Options
  import opened Bytes

  const DimeVersion: byte := 1
  const HeaderSize: nat := 12

  /** Header flag bits of byte 0. */
  const FlagCF: byte := 1
  const FlagME: byte := 2
  const FlagMB: byte := 4

  /** Values of the type_t nibble. */
  const TypeUnchanged: byte := 0
  const TypeMime: byte := 1
  const TypeUri: byte := 2
  const TypeUnknown: byte := 3
  const TypeNone: byte := 4

  /** Largest values of the 16- and 32-bit length fields. */
  const MaxU16: nat := 0xFFFF
  const MaxU32: nat := 0xFFFF_FFFF

  /**
   A record. Each segment stands for a pointer/length pair of the C structure:
   the segment's length is the value of the corresponding length field.
   */
  datatype Record = Record(
    data: seq<byte>,
    options: seq<byte>,
    rtype: seq<byte>,
    id: seq<byte>,
    flags: byte,
    version: byte,
    typeT: byte,
    resrvd: byte)

  /** The segment lengths fit the 16-bit and 32-bit length fields. */
  predicate ValidLengths(r: Record) {
    |r.options| <= MaxU16 && |r.id| <= MaxU16 && |r.rtype| <= MaxU16 && |r.data| <= MaxU32
  }

  /** The all-zero record handed out by the allocator. */
  const ZeroRecord: Record := Record([], [], [], [], 0, 0, 0, 0)

  /** The record carries the message-begin flag (`flags & MB`). */
  predicate BeginsMessage(r: Record) {
    (r.flags / 4) % 2 == 1
  }

  /** The record carries the message-end flag (`flags & ME`). */
  predicate EndsMessage(r: Record) {
    (r.flags / 2) % 2 == 1
  }

  /** The record carries the chunk flag (`flags & CF`). */
  predicate Chunked(r: Record) {
    r.flags % 2 == 1
  }

  /** The number of 4-byte words needed to hold v bytes. */
  function Words(v: nat): (w: nat)
    ensures v <= 4 * w < v + 4
  {
    (v + 3) / 4
  }

  /** Rounds up to a multiple of 4: (v + 3) with its two low bits cleared. */
  function Ceil4(v: nat): (r: nat)
    ensures v <= r < v + 4
  {
    4 * Words(v)
  }

  /** dime_ceil rounds up to the least multiple of 4 not below v. */
  lemma Ceil4Aligned(v: nat)
    ensures Ceil4(v) % 4 == 0 && v <= Ceil4(v) < v + 4
  {
  }

  lemma {:induction false} Ceil4Least(v: nat, m: nat)
    requires v <= m && m % 4 == 0
    ensures Ceil4(v) <= m
  {
    assert m == 4 * (m / 4);
  }

  /** A header followed by four padded segments spans a multiple of 4 bytes. */
  lemma AlignedSum(a: nat, b: nat, c: nat, d: nat)
    ensures (HeaderSize + Ceil4(a) + Ceil4(b) + Ceil4(c) + Ceil4(d)) % 4 == 0
  {
    assert HeaderSize + Ceil4(a) + Ceil4(b) + Ceil4(c) + Ceil4(d) == 4 * (3 + Words(a) + Words(b) + Words(c) + Words(d));
  }

  function Zeros(n: nat): (z: seq<byte>)
    ensures |z| == n
    ensures forall i :: 0 <= i < n ==> z[i] == 0
  {
    seq(n, _ => 0)
  }

  /** Bitwise OR of two values below 16, bit by bit. */
  function Or4(x: nat, y: nat): (r: nat)
    requires x < 16 && y < 16
    ensures r < 16
    ensures y == 0 ==> r == x
  {
    (if x % 2 == 1 || y % 2 == 1 then 1 else 0)
    + (if (x / 2) % 2 == 1 || (y / 2) % 2 == 1 then 2 else 0)
    + (if (x / 4) % 2 == 1 || (y / 4) % 2 == 1 then 4 else 0)
    + (if (x / 8) % 2 == 1 || (y / 8) % 2 == 1 then 8 else 0)
  }

  /**
   Byte 1 of the header: `(type_t << 4) | resrvd` truncated to 8 bits. The
   shift keeps the low nibble of type_t; a reserved value of 16 or more
   also sets bits of the type nibble.
   */
  function TypeByte(typeT: byte, resrvd: byte): (b: byte)
    ensures b % 16 == resrvd % 16
    ensures resrvd < 16 ==> b / 16 == typeT % 16
  {
    Or4(typeT % 16, resrvd / 16) * 16 + resrvd % 16
  }

  /** The header flags for a record built at position first/last of a message. */
  function CreateFlags(first: bool, last: bool): byte {
    (if first then FlagMB else 0) + (if last then FlagME else 0)
  }

  /**
   Fills the 12-byte header: version and flags in byte 0, type_t and the
   reserved nibble in byte 1, then the four lengths.
   */
  function FillRecordHeader(r: Record, flags: byte): (h: seq<byte>)
    requires ValidLengths(r)
    ensures |h| == HeaderSize
  {
    [DimeVersion * 8 + flags % 8, TypeByte(r.typeT, r.resrvd)]
      + Be16(|r.options|) + Be16(|r.id|) + Be16(|r.rtype|) + Be32(|r.data|)
  }

  /** What each field of a filled header holds. */
  lemma HeaderFields(r: Record, flags: byte)
    requires ValidLengths(r)
    ensures var h := FillRecordHeader(r, flags);
      && h[0] / 8 == DimeVersion
      && h[0] % 8 == flags % 8
      && h[1] % 16 == r.resrvd % 16
      && (r.resrvd < 16 ==> h[1] / 16 == r.typeT % 16)
      && PeekBe16(h, 2) == |r.options|
      && PeekBe16(h, 4) == |r.id|
      && PeekBe16(h, 6) == |r.rtype|
      && PeekBe32(h, 8) == |r.data|
  {
    var h := FillRecordHeader(r, flags);
    var o, i, t, d := Be16(|r.options|), Be16(|r.id|), Be16(|r.rtype|), Be32(|r.data|);
    assert h == [h[0], h[1]] + o + i + t + d;
    assert h[2..4] == o && h[4..6] == i && h[6..8] == t && h[8..12] == d;
    assert PeekBe16(h, 2) == PeekBe16(o, 0);
    assert PeekBe16(h, 4) == PeekBe16(i, 0);
    assert PeekBe16(h, 6) == PeekBe16(t, 0);
    assert PeekBe16(h, 8) == PeekBe16(d, 0) && PeekBe16(h, 10) == PeekBe16(d, 2);
  }

  /** Copies a segment and pads it with zero bytes to a multiple of 4. */
  function CopyAndPad(src: seq<byte>): (dst: seq<byte>)
    ensures |dst| == Ceil4(|src|)
    ensures |src| <= |dst| && dst[..|src|] == src
  {
    if |src| > 0 then src + Zeros(Ceil4(|src|) - |src|) else assert Words(0) == 0; []
  }

  /** The bytes added by `CopyAndPad` are all zero. */
  lemma PaddingIsZero(src: seq<byte>)
    ensures forall i :: |src| <= i < |CopyAndPad(src)| ==> CopyAndPad(src)[i] == 0
  {
  }

  /** Offsets of the id, type and data segments and of the record's end. */
  function IdAt(optionsLength: nat): nat {
    HeaderSize + Ceil4(optionsLength)
  }

  function TypeAt(optionsLength: nat, idLength: nat): nat {
    IdAt(optionsLength) + Ceil4(idLength)
  }

  function DataAt(optionsLength: nat, idLength: nat, typeLength: nat): nat {
    TypeAt(optionsLength, idLength) + Ceil4(typeLength)
  }

  function EndAt(optionsLength: nat, idLength: nat, typeLength: nat, dataLength: nat): nat {
    DataAt(optionsLength, idLength, typeLength) + Ceil4(dataLength)
  }

  /** The number of bytes a record occupies once encoded. */
  function CreateSize(r: Record): nat {
    EndAt(|r.options|, |r.id|, |r.rtype|, |r.data|)
  }

  /** The encoded record: header, then the four padded segments. */
  function CreateBytes(r: Record, first: bool, last: bool): (b: seq<byte>)
    requires ValidLengths(r)
    ensures |b| == CreateSize(r)
  {
    FillRecordHeader(r, CreateFlags(first, last))
      + CopyAndPad(r.options) + CopyAndPad(r.id) + CopyAndPad(r.rtype) + CopyAndPad(r.data)
  }

  /**
   dime_create_record: the encoded size is always returned; the bytes only
   when the caller asks for them (a non-NULL `data_ptr`).
   */
  function CreateRecord(r: Record, wantBytes: bool, first: bool, last: bool): (res: (nat, Option<seq<byte>>))
    requires ValidLengths(r)
    ensures res.0 == HeaderSize + Ceil4(|r.options|) + Ceil4(|r.id|) + Ceil4(|r.rtype|) + Ceil4(|r.data|)
    ensures res.0 % 4 == 0
    ensures res.1.Some? <==> wantBytes
    ensures res.1.Some? ==> |res.1.value| == res.0
  {
    AlignedSum(|r.options|, |r.id|, |r.rtype|, |r.data|);
    (CreateSize(r), if wantBytes then Some(CreateBytes(r, first, last)) else None)
  }

  /** A successfully parsed record and the number of bytes it spans. */
  datatype Parsed = Parsed(record: Record, length: nat)

  /** The raw header fields as the parser reads them. */
  datatype Header = Header(byte0: byte, byte1: byte,
    optionsLength: nat, idLength: nat, typeLength: nat, dataLength: nat)
  {
    function End(): nat {
      EndAt(optionsLength, idLength, typeLength, dataLength)
    }
  }

  function ReadHeader(data: seq<byte>): (h: Header)
    requires |data| >= HeaderSize
    ensures h.optionsLength <= MaxU16 && h.idLength <= MaxU16 && h.typeLength <= MaxU16
    ensures h.dataLength <= MaxU32
  {
    Header(data[0], data[1], PeekBe16(data, 2), PeekBe16(data, 4), PeekBe16(data, 6), PeekBe32(data, 8))
  }

  /**
   The four truncation checks of the parser, made in order against the bytes
   remaining after each padded segment; together they say the whole padded
   record fits.
   */
  function SegmentsFit(size: nat, h: Header): (fits: bool)
    ensures fits <==> h.End() <= size
  {
    && size - HeaderSize >= Ceil4(h.optionsLength)
    && size - IdAt(h.optionsLength) >= Ceil4(h.idLength)
    && size - TypeAt(h.optionsLength, h.idLength) >= Ceil4(h.typeLength)
    && size - DataAt(h.optionsLength, h.idLength, h.typeLength) >= Ceil4(h.dataLength)
  }

  /** The record whose segments lie in `data` where the header says. */
  function Segments(data: seq<byte>, h: Header): Record
    requires h.End() <= |data|
  {
    var idAt := IdAt(h.optionsLength);
    var typeAt := TypeAt(h.optionsLength, h.idLength);
    var dataAt := DataAt(h.optionsLength, h.idLength, h.typeLength);
    Record(
      data := data[dataAt .. dataAt + h.dataLength],
      options := data[HeaderSize .. HeaderSize + h.optionsLength],
      rtype := data[typeAt .. typeAt + h.typeLength],
      id := data[idAt .. idAt + h.idLength],
      flags := h.byte0 % 8,
      version := h.byte0 / 8,
      typeT := h.byte1 / 16,
      resrvd := h.byte1 % 16)
  }

  /**
   dime_parse_record_header: reads the header at the start of `data`, then
   checks one padded segment after the other against the bytes remaining.
   Fails on a short header, an unsupported version or a truncated segment.
   */
  function ParseRecordHeader(data: seq<byte>): (res: Option<Parsed>)
    ensures res.Some? ==> HeaderSize <= res.value.length <= |data|
  {
    if |data| < HeaderSize then None
    else
      var h := ReadHeader(data);
      if h.byte0 / 8 != DimeVersion then None
      else if !SegmentsFit(|data|, h) then None
      else Some(Parsed(Segments(data, h), h.End()))
  }

  /**
   The parser fails exactly on a short header, an unsupported version, or a
   segment running past the end of the input.
   */
  lemma ParseRecordHeaderFails(data: seq<byte>)
    ensures ParseRecordHeader(data).None? <==>
      (|data| < HeaderSize || data[0] / 8 != DimeVersion || |data| < ReadHeader(data).End())
  {
  }

  /** A parsed record has the supported version and lengths its header can state. */
  lemma ParsedRecordValid(data: seq<byte>)
    ensures var res := ParseRecordHeader(data);
      res.Some? ==> ValidLengths(res.value.record) && res.value.record.version == DimeVersion
  {
  }

  /** A parsed record always spans a whole number of 4-byte words. */
  lemma ParsedLengthAligned(data: seq<byte>)
    ensures ParseRecordHeader(data).Some? ==> ParseRecordHeader(data).value.length % 4 == 0
  {
    if |data| >= HeaderSize {
      var h := ReadHeader(data);
      AlignedSum(h.optionsLength, h.idLength, h.typeLength, h.dataLength);
    }
  }

  /** What a parser sees of a record built with `CreateBytes`. */
  function Received(r: Record, first: bool, last: bool): Record {
    r.(flags := CreateFlags(first, last), version := DimeVersion)
  }

  /** Only MB and ME are ever set on a created record, as asked. */
  lemma ReceivedFlags(r: Record, first: bool, last: bool)
    ensures BeginsMessage(Received(r, first, last)) <==> first
    ensures EndsMessage(Received(r, first, last)) <==> last
    ensures !Chunked(Received(r, first, last))
  {
  }

  /** The header bytes determine the header fields the parser reads. */
  lemma HeaderFieldsOf(bytes: seq<byte>, h: seq<byte>)
    requires |h| == HeaderSize <= |bytes| && bytes[..HeaderSize] == h
    ensures bytes[0] == h[0] && bytes[1] == h[1]
    ensures PeekBe16(bytes, 2) == PeekBe16(h, 2) && PeekBe16(bytes, 4) == PeekBe16(h, 4)
    ensures PeekBe16(bytes, 6) == PeekBe16(h, 6) && PeekBe32(bytes, 8) == PeekBe32(h, 8)
  {
    assert forall i :: 0 <= i < HeaderSize ==> bytes[i] == h[i];
  }

  /**
   Where four padded segments sit in their concatenation, given the offsets
   at which the second, third and fourth begin.
   */
  lemma LayoutSlices(h: seq<byte>, po: seq<byte>, pi: seq<byte>, pt: seq<byte>, pd: seq<byte>,
                     o: seq<byte>, i: seq<byte>, t: seq<byte>, d: seq<byte>,
                     idAt: nat, typeAt: nat, dataAt: nat)
    requires |o| <= |po| && po[..|o|] == o
    requires |i| <= |pi| && pi[..|i|] == i
    requires |t| <= |pt| && pt[..|t|] == t
    requires |d| <= |pd| && pd[..|d|] == d
    requires idAt == |h| + |po| && typeAt == idAt + |pi| && dataAt == typeAt + |pt|
    ensures var bytes := h + po + pi + pt + pd;
      && bytes[..|h|] == h
      && bytes[|h| .. |h| + |o|] == o
      && bytes[idAt .. idAt + |i|] == i
      && bytes[typeAt .. typeAt + |t|] == t
      && bytes[dataAt .. dataAt + |d|] == d
  {
    var bytes := h + po + pi + pt + pd;
    assert bytes[..|h|] == h by {
      assert forall k :: 0 <= k < |h| ==> bytes[k] == h[k];
    }
    assert bytes[|h| .. |h| + |o|] == o by {
      assert forall k :: 0 <= k < |o| ==> bytes[|h| + k] == po[k];
    }
    assert bytes[idAt .. idAt + |i|] == i by {
      assert forall k :: 0 <= k < |i| ==> bytes[idAt + k] == pi[k];
    }
    assert bytes[typeAt .. typeAt + |t|] == t by {
      assert forall k :: 0 <= k < |t| ==> bytes[typeAt + k] == pt[k];
    }
    assert bytes[dataAt .. dataAt + |d|] == d by {
      assert forall k :: 0 <= k < |d| ==> bytes[dataAt + k] == pd[k];
    }
  }

  /** The header and the four segments sit where the layout puts them. */
  lemma CreatedLayout(r: Record, first: bool, last: bool)
    requires ValidLengths(r)
    ensures var b := CreateBytes(r, first, last);
      && b[..HeaderSize] == FillRecordHeader(r, CreateFlags(first, last))
      && b[HeaderSize .. HeaderSize + |r.options|] == r.options
      && b[IdAt(|r.options|) .. IdAt(|r.options|) + |r.id|] == r.id
      && b[TypeAt(|r.options|, |r.id|) .. TypeAt(|r.options|, |r.id|) + |r.rtype|] == r.rtype
      && b[DataAt(|r.options|, |r.id|, |r.rtype|) .. DataAt(|r.options|, |r.id|, |r.rtype|) + |r.data|] == r.data
  {
    var h := FillRecordHeader(r, CreateFlags(first, last));
    var po, pi, pt, pd := CopyAndPad(r.options), CopyAndPad(r.id), CopyAndPad(r.rtype), CopyAndPad(r.data);
    assert CreateBytes(r, first, last) == h + po + pi + pt + pd;
    LayoutSlices(h, po, pi, pt, pd, r.options, r.id, r.rtype, r.data,
      IdAt(|r.options|), TypeAt(|r.options|, |r.id|), DataAt(|r.options|, |r.id|, |r.rtype|));
  }

  /** Appending bytes leaves the slices of a prefix unchanged. */
  lemma SliceOfPrefix(b: seq<byte>, trailer: seq<byte>, from: nat, to: nat)
    requires from <= to <= |b|
    ensures (b + trailer)[from..to] == b[from..to]
  {
    assert forall k :: from <= k < to ==> (b + trailer)[k] == b[k];
  }

  /** The segments of an encoded record sit at the offsets the parser computes. */
  lemma SegmentsOfCreated(r: Record, first: bool, last: bool, trailer: seq<byte>)
    requires ValidLengths(r)
    ensures var bytes := CreateBytes(r, first, last) + trailer;
      var idAt := IdAt(|r.options|);
      var typeAt := TypeAt(|r.options|, |r.id|);
      var dataAt := DataAt(|r.options|, |r.id|, |r.rtype|);
      && bytes[HeaderSize .. HeaderSize + |r.options|] == r.options
      && bytes[idAt .. idAt + |r.id|] == r.id
      && bytes[typeAt .. typeAt + |r.rtype|] == r.rtype
      && bytes[dataAt .. dataAt + |r.data|] == r.data
  {
    var b := CreateBytes(r, first, last);
    CreatedLayout(r, first, last);
    var idAt := IdAt(|r.options|);
    var typeAt := TypeAt(|r.options|, |r.id|);
    var dataAt := DataAt(|r.options|, |r.id|, |r.rtype|);
    SliceOfPrefix(b, trailer, HeaderSize, HeaderSize + |r.options|);
    SliceOfPrefix(b, trailer, idAt, idAt + |r.id|);
    SliceOfPrefix(b, trailer, typeAt, typeAt + |r.rtype|);
    SliceOfPrefix(b, trailer, dataAt, dataAt + |r.data|);
  }

  /**
   The first two header bytes of a created record: version and flags, the
   reserved nibble, and type_t's low nibble when the reserved value fits.
   */
  lemma CreatedHeaderBytes(r: Record, first: bool, last: bool)
    requires ValidLengths(r)
    ensures var h := FillRecordHeader(r, CreateFlags(first, last));
      && h[0] / 8 == DimeVersion && h[0] % 8 == CreateFlags(first, last)
      && h[1] % 16 == r.resrvd % 16
      && (r.resrvd < 16 ==> h[1] / 16 == r.typeT % 16)
  {
    HeaderFields(r, CreateFlags(first, last));
  }

  /** The header the parser reads back from a created record. */
  lemma CreatedReadHeader(r: Record, first: bool, last: bool, trailer: seq<byte>)
    requires ValidLengths(r)
    ensures var bytes := CreateBytes(r, first, last) + trailer;
      && |bytes| >= HeaderSize
      && ReadHeader(bytes) == Header(bytes[0], bytes[1], |r.options|, |r.id|, |r.rtype|, |r.data|)
      && bytes[0] / 8 == DimeVersion && bytes[0] % 8 == CreateFlags(first, last)
      && bytes[1] % 16 == r.resrvd % 16
      && (r.resrvd < 16 ==> bytes[1] / 16 == r.typeT % 16)
  {
    var h := FillRecordHeader(r, CreateFlags(first, last));
    var bytes := CreateBytes(r, first, last) + trailer;
    CreatedLayout(r, first, last);
    assert bytes[..HeaderSize] == h;
    HeaderFieldsOf(bytes, h);
    HeaderFields(r, CreateFlags(first, last));
    CreatedHeaderBytes(r, first, last);
  }

  /**
   The record the parser slices out of a created record: the four segments,
   MB/ME as asked, version 1 and the reserved nibble; the whole record as
   received when type_t and the reserved value are nibbles.
   */
  lemma CreatedSegments(r: Record, first: bool, last: bool, trailer: seq<byte>)
    requires ValidLengths(r)
    ensures var bytes := CreateBytes(r, first, last) + trailer;
      && |bytes| >= HeaderSize
      && ReadHeader(bytes).End() == CreateSize(r) <= |bytes|
      && var got := Segments(bytes, ReadHeader(bytes));
         && got.options == r.options && got.id == r.id && got.rtype == r.rtype && got.data == r.data
         && got.flags == CreateFlags(first, last) && got.version == DimeVersion
         && got.resrvd == r.resrvd % 16
         && (r.resrvd < 16 ==> got.typeT == r.typeT % 16)
         && (r.typeT < 16 && r.resrvd < 16 ==> got == Received(r, first, last))
  {
    var bytes := CreateBytes(r, first, last) + trailer;
    CreatedReadHeader(r, first, last, trailer);
    SegmentsOfCreated(r, first, last, trailer);
    var got := Segments(bytes, ReadHeader(bytes));
    assert got.options == r.options && got.id == r.id;
    assert got.rtype == r.rtype && got.data == r.data;
    if r.typeT < 16 && r.resrvd < 16 {
      var want := Received(r, first, last);
      NibbleUnchanged(r.typeT);
      NibbleUnchanged(r.resrvd);
      assert got.typeT == want.typeT;
      assert got.resrvd == want.resrvd;
      assert got.flags == want.flags && got.version == want.version;
      RecordsEqual(got, want);
    }
  }

  lemma NibbleUnchanged(x: nat)
    requires x < 16
    ensures x % 16 == x
  {
  }

  /** Two records with the same fields are the same record. */
  lemma RecordsEqual(a: Record, b: Record)
    requires a.data == b.data && a.options == b.options && a.rtype == b.rtype && a.id == b.id
    requires a.flags == b.flags && a.version == b.version && a.typeT == b.typeT && a.resrvd == b.resrvd
    ensures a == b
  {
  }

  /**
   Round trip: the parser accepts every created record followed by anything,
   reports exactly the created size, and recovers the four segments, the
   MB/ME flags (CF clear), version 1 and the reserved nibble. type_t comes
   back as its low nibble when the reserved value fits a nibble, and the
   record is recovered whole when both are nibbles.
   */
  lemma ParseCreatedRecord(r: Record, first: bool, last: bool, trailer: seq<byte>)
    requires ValidLengths(r)
    ensures var p := ParseRecordHeader(CreateBytes(r, first, last) + trailer);
      && p.Some? && p.value.length == CreateSize(r)
      && p.value.record.options == r.options && p.value.record.id == r.id
      && p.value.record.rtype == r.rtype && p.value.record.data == r.data
      && p.value.record.flags == CreateFlags(first, last) && p.value.record.version == DimeVersion
      && p.value.record.resrvd == r.resrvd % 16
      && (r.resrvd < 16 ==> p.value.record.typeT == r.typeT % 16)
    ensures r.typeT < 16 && r.resrvd < 16 ==>
      ParseRecordHeader(CreateBytes(r, first, last) + trailer) == Some(Parsed(Received(r, first, last), CreateSize(r)))
  {
    CreatedSegments(r, first, last, trailer);
    CreatedReadHeader(r, first, last, trailer);
  }

  /** A record parser: the record at the front of the input and its length. */
  type RecordParser = seq<byte> -> Option<Parsed>

  /** The parser never accepts an empty record and never reads past the input. */
  ghost predicate Advances(parse: RecordParser) {
    forall data :: parse(data).Some? ==> 0 < parse(data).value.length <= |data|
  }

  lemma HeaderParserAdvances()
    ensures Advances(ParseRecordHeader)
  {
    forall data | ParseRecordHeader(data).Some?
      ensures 0 < ParseRecordHeader(data).value.length <= |data|
    {
    }
  }

  /**
   dime_parse_records, with `parse` the record parser and `consumed` the
   distance of the read position from the start of the input. Records come
   out in input order; parsing stops after the first record carrying ME, and
   any parse failure, including running out of input before such a record,
   fails the whole list.

   The message-begin test is written as in the source: it compares the start
   of the input with the position already advanced past the record just
   parsed, so it never rejects anything (see ParseRecordsStrict).
   */
  function ParseRecordsWith(parse: RecordParser, rest: seq<byte>, consumed: nat): Option<seq<Record>>
    requires Advances(parse)
    decreases |rest|
  {
    match parse(rest)
    case None => None
    case Some(p) =>
      var advanced := consumed + p.length;
      if advanced == 0 && !BeginsMessage(p.record) then None
      else if EndsMessage(p.record) then Some([p.record])
      else Prepend(p.record, ParseRecordsWith(parse, rest[p.length..], advanced))
  }

  /** A record in front of a parsed list; a failed parse stays failed. */
  function Prepend(r: Record, tail: Option<seq<Record>>): (res: Option<seq<Record>>)
    ensures res.Some? <==> tail.Some?
    ensures res.Some? ==> res.value == [r] + tail.value
  {
    match tail
    case None => None
    case Some(t) => Some([r] + t)
  }

  function ParseRecords(data: seq<byte>): Option<seq<Record>> {
    HeaderParserAdvances();
    ParseRecordsWith(ParseRecordHeader, data, 0)
  }

  /**
   A parsed message is never empty, its last record carries ME and no
   earlier record does.
   */
  lemma {:induction false} ParsedMessageShape(parse: RecordParser, rest: seq<byte>, consumed: nat)
    requires Advances(parse)
    ensures var res := ParseRecordsWith(parse, rest, consumed);
      res.Some? ==>
        && |res.value| >= 1
        && EndsMessage(res.value[|res.value| - 1])
        && (forall i :: 0 <= i < |res.value| - 1 ==> !EndsMessage(res.value[i]))
    decreases |rest|
  {
    var res := ParseRecordsWith(parse, rest, consumed);
    if res.Some? {
      var p := parse(rest).value;
      if !EndsMessage(p.record) {
        var tail := ParseRecordsWith(parse, rest[p.length..], consumed + p.length);
        ParsedMessageShape(parse, rest[p.length..], consumed + p.length);
        assert res.value == [p.record] + tail.value;
      }
    }
  }

  /** The bytes `block` parse as `rec`, whatever follows them. */
  ghost predicate ParsesAs(parse: RecordParser, block: seq<byte>, rec: Record) {
    forall trailer :: parse(block + trailer) == Some(Parsed(rec, |block|))
  }

  function Concat(blocks: seq<seq<byte>>): (out: seq<byte>)
    decreases |blocks|
  {
    if |blocks| == 0 then [] else blocks[0] + Concat(blocks[1..])
  }

  /** One turn of the loop over a block that parses as `rec`. */
  lemma ParseStep(parse: RecordParser, block: seq<byte>, rest: seq<byte>, rec: Record, consumed: nat)
    requires Advances(parse)
    requires |block| > 0 && ParsesAs(parse, block, rec)
    ensures ParseRecordsWith(parse, block + rest, consumed)
         == if EndsMessage(rec) then Some([rec])
            else Prepend(rec, ParseRecordsWith(parse, rest, consumed + |block|))
  {
    assert parse(block + rest) == Some(Parsed(rec, |block|));
    assert (block + rest)[|block|..] == rest;
  }

  /** Concatenation from block `k` on peels off block `k`. */
  lemma ConcatFrom(blocks: seq<seq<byte>>, k: nat)
    requires k < |blocks|
    ensures Concat(blocks[k..]) == blocks[k] + Concat(blocks[k + 1..])
  {
    assert blocks[k..][1..] == blocks[k + 1..];
  }

  /**
   Blocks that each parse as one record, ME on the last only, parse as the
   list of those records; the loop stops there whatever follows. Stated for
   the blocks from index `k` on.
   */
  lemma {:induction false} ParseBlocksFrom(parse: RecordParser, blocks: seq<seq<byte>>, recs: seq<Record>,
                                           k: nat, trailer: seq<byte>, consumed: nat)
    requires Advances(parse)
    requires |blocks| == |recs| && k < |blocks|
    requires forall i :: 0 <= i < |blocks| ==> |blocks[i]| > 0 && ParsesAs(parse, blocks[i], recs[i])
    requires forall i :: 0 <= i < |recs| - 1 ==> !EndsMessage(recs[i])
    requires EndsMessage(recs[|recs| - 1])
    ensures ParseRecordsWith(parse, Concat(blocks[k..]) + trailer, consumed) == Some(recs[k..])
    decreases |blocks| - k
  {
    var rest := Concat(blocks[k + 1..]) + trailer;
    ConcatFrom(blocks, k);
    assert Concat(blocks[k..]) + trailer == blocks[k] + rest;
    ParseStep(parse, blocks[k], rest, recs[k], consumed);
    SuffixFrom(recs, k);
    if k + 1 < |blocks| {
      ParseBlocksFrom(parse, blocks, recs, k + 1, trailer, consumed + |blocks[k]|);
    }
  }

  /** A suffix of a sequence is its first element followed by the rest. */
  lemma SuffixFrom<T>(s: seq<T>, k: nat)
    requires k < |s|
    ensures s[k..] == [s[k]] + s[k + 1..]
    ensures k + 1 == |s| ==> s[k..] == [s[k]]
  {
  }

  lemma ParseBlocks(parse: RecordParser, blocks: seq<seq<byte>>, recs: seq<Record>, trailer: seq<byte>)
    requires Advances(parse)
    requires |blocks| == |recs| >= 1
    requires forall i :: 0 <= i < |blocks| ==> |blocks[i]| > 0 && ParsesAs(parse, blocks[i], recs[i])
    requires forall i :: 0 <= i < |recs| - 1 ==> !EndsMessage(recs[i])
    requires EndsMessage(recs[|recs| - 1])
    ensures ParseRecordsWith(parse, Concat(blocks) + trailer, 0) == Some(recs)
  {
    ParseBlocksFrom(parse, blocks, recs, 0, trailer, 0);
    assert blocks[0..] == blocks && recs[0..] == recs;
  }

  /** Blocks none of which carries ME run out of input: the parse fails. */
  lemma {:induction false} ParseBlocksUnclosed(parse: RecordParser, blocks: seq<seq<byte>>, recs: seq<Record>,
                                               consumed: nat)
    requires Advances(parse)
    requires |blocks| == |recs|
    requires forall i :: 0 <= i < |blocks| ==> |blocks[i]| > 0 && ParsesAs(parse, blocks[i], recs[i])
    requires forall i :: 0 <= i < |recs| ==> !EndsMessage(recs[i])
    ensures ParseRecordsWith(parse, Concat(blocks), consumed) == None
    decreases |blocks|
  {
    if |blocks| == 0 {
      assert parse([]).None?;
    } else {
      var rest := Concat(blocks[1..]);
      assert Concat(blocks) == blocks[0] + rest;
      assert parse(blocks[0] + rest) == Some(Parsed(recs[0], |blocks[0]|));
      assert Concat(blocks)[|blocks[0]|..] == rest;
      ParseBlocksUnclosed(parse, blocks[1..], recs[1..], consumed + |blocks[0]|);
    }
  }

  /** The encoded records of a message, MB on the first when `first`, ME on the last when `closed`. */
  function MessageBlocks(rs: seq<Record>, first: bool, closed: bool): (blocks: seq<seq<byte>>)
    requires forall i :: 0 <= i < |rs| ==> ValidLengths(rs[i])
    ensures |blocks| == |rs|
    ensures forall i :: 0 <= i < |rs| ==>
      blocks[i] == CreateBytes(rs[i], first && i == 0, closed && i == |rs| - 1)
  {
    seq(|rs|, i requires 0 <= i < |rs| => CreateBytes(rs[i], first && i == 0, closed && i == |rs| - 1))
  }

  /** A message: its records encoded one after the other. */
  function EncodeMessage(rs: seq<Record>, first: bool, closed: bool): seq<byte>
    requires forall i :: 0 <= i < |rs| ==> ValidLengths(rs[i])
  {
    Concat(MessageBlocks(rs, first, closed))
  }

  /** What a parser sees of the records of `EncodeMessage(rs, first, closed)`. */
  function ReceivedMessage(rs: seq<Record>, first: bool, closed: bool): (out: seq<Record>)
    ensures |out| == |rs|
    ensures forall i :: 0 <= i < |rs| ==> out[i] == Received(rs[i], first && i == 0, closed && i == |rs| - 1)
  {
    seq(|rs|, i requires 0 <= i < |rs| => Received(rs[i], first && i == 0, closed && i == |rs| - 1))
  }

  /** Every encoded record parses back as what the parser sees of it. */
  lemma MessageBlocksParse(rs: seq<Record>, first: bool, closed: bool)
    requires forall i :: 0 <= i < |rs| ==> ValidLengths(rs[i]) && rs[i].typeT < 16 && rs[i].resrvd < 16
    ensures var blocks := MessageBlocks(rs, first, closed);
      var recs := ReceivedMessage(rs, first, closed);
      && (forall i :: 0 <= i < |rs| ==> |blocks[i]| > 0 && ParsesAs(ParseRecordHeader, blocks[i], recs[i]))
      && (forall i :: 0 <= i < |rs| ==> (EndsMessage(recs[i]) <==> closed && i == |rs| - 1))
  {
    var blocks := MessageBlocks(rs, first, closed);
    var recs := ReceivedMessage(rs, first, closed);
    forall i | 0 <= i < |rs|
      ensures |blocks[i]| > 0 && ParsesAs(ParseRecordHeader, blocks[i], recs[i])
      ensures EndsMessage(recs[i]) <==> closed && i == |rs| - 1
    {
      var f, l := first && i == 0, closed && i == |rs| - 1;
      ReceivedFlags(rs[i], f, l);
      forall trailer
        ensures ParseRecordHeader(blocks[i] + trailer) == Some(Parsed(recs[i], |blocks[i]|))
      {
        ParseCreatedRecord(rs[i], f, l, trailer);
      }
    }
  }

  /**
   Round trip for a whole message: a closed message followed by anything
   parses as the list of its records, with MB on the first exactly when it
   was asked for, ME on the last and CF on none.
   */
  lemma ParseEncodedMessage(rs: seq<Record>, first: bool, trailer: seq<byte>)
    requires |rs| >= 1
    requires forall i :: 0 <= i < |rs| ==> ValidLengths(rs[i]) && rs[i].typeT < 16 && rs[i].resrvd < 16
    ensures ParseRecords(EncodeMessage(rs, first, true) + trailer) == Some(ReceivedMessage(rs, first, true))
  {
    HeaderParserAdvances();
    MessageBlocksParse(rs, first, true);
    ParseBlocks(ParseRecordHeader, MessageBlocks(rs, first, true), ReceivedMessage(rs, first, true), trailer);
  }

  /** A message whose last record lacks ME runs out of input and fails. */
  lemma ParseUnclosedMessageFails(rs: seq<Record>, first: bool)
    requires forall i :: 0 <= i < |rs| ==> ValidLengths(rs[i]) && rs[i].typeT < 16 && rs[i].resrvd < 16
    ensures ParseRecords(EncodeMessage(rs, first, false)) == None
  {
    HeaderParserAdvances();
    MessageBlocksParse(rs, first, false);
    ParseBlocksUnclosed(ParseRecordHeader, MessageBlocks(rs, first, false), ReceivedMessage(rs, first, false), 0);
  }

  /**
   The parse loop as written accepts a message whose first record lacks MB:
   a lone empty record carrying only ME parses successfully.
   */
  lemma MessageBeginNotEnforced()
    ensures var lone := Received(ZeroRecord, false, true);
            !BeginsMessage(lone) && ParseRecords(EncodeMessage([ZeroRecord], false, true)) == Some([lone])
  {
    ParseEncodedMessage([ZeroRecord], false, []);
    assert EncodeMessage([ZeroRecord], false, true) + [] == EncodeMessage([ZeroRecord], false, true);
    assert ReceivedMessage([ZeroRecord], false, true) == [Received(ZeroRecord, false, true)];
  }

  /** The parse loop with the message-begin test made on the first record itself. */
  function ParseRecordsStrict(data: seq<byte>): (res: Option<seq<Record>>)
    ensures res.Some? ==> |res.value| >= 1 && BeginsMessage(res.value[0])
    ensures res.Some? ==> res == ParseRecords(data)
  {
    match ParseRecordHeader(data)
    case None => None
    case Some(p) =>
      if !BeginsMessage(p.record) then None
      else
        var res := ParseRecords(data);
        if res.Some? then assert res.value[0] == p.record; res else res
  }

  /** The corrected loop still accepts every properly begun closed message. */
  lemma ParseEncodedMessageStrict(rs: seq<Record>, trailer: seq<byte>)
    requires |rs| >= 1
    requires forall i :: 0 <= i < |rs| ==> ValidLengths(rs[i]) && rs[i].typeT < 16 && rs[i].resrvd < 16
    ensures ParseRecordsStrict(EncodeMessage(rs, true, true) + trailer) == Some(ReceivedMessage(rs, true, true))
  {
    var bytes := EncodeMessage(rs, true, true) + trailer;
    ParseEncodedMessage(rs, true, trailer);
    var recs := ReceivedMessage(rs, true, true);
    ReceivedFlags(rs[0], true, |rs| == 1);
    assert BeginsMessage(recs[0]);
  }

  /** The corrected loop rejects every message whose first record lacks MB. */
  lemma StrictRejectsUnbegunMessage(rs: seq<Record>, trailer: seq<byte>)
    requires |rs| >= 1
    requires forall i :: 0 <= i < |rs| ==> ValidLengths(rs[i]) && rs[i].typeT < 16 && rs[i].resrvd < 16
    ensures ParseRecordsStrict(EncodeMessage(rs, false, true) + trailer) == None
  {
    ParseEncodedMessage(rs, false, trailer);
    ReceivedFlags(rs[0], false, |rs| == 1);
  }

  /** dime_record_set_data: refuses a size of 0xFFFFFFFF or more. */
  function SetData(r: Record, data: seq<byte>): (res: Option<Record>)
    ensures res.Some? <==> |data| < MaxU32
    ensures res.Some? ==> res.value.data == data && res.value.(data := r.data) == r
    ensures res.Some? && ValidLengths(r) ==> ValidLengths(res.value)
  {
    if |data| < MaxU32 then Some(r.(data := data)) else None
  }

  /**
   dime_record_set_id: a NULL id is an empty one; an id of 0xFFFF bytes or
   more is refused. The id is a C string, so its length is its strlen.
   */
  function SetId(r: Record, id: Option<seq<byte>>): (res: Option<Record>)
    requires id.Some? ==> IsCString(id.value)
    ensures res.Some? <==> (id.None? || |id.value| < MaxU16)
    ensures res.Some? ==> res.value.id == (if id.Some? then id.value else [])
    ensures res.Some? ==> res.value.(id := r.id) == r
    ensures res.Some? && ValidLengths(r) ==> ValidLengths(res.value)
  {
    var bytes := if id.Some? then id.value else [];
    if |bytes| < MaxU16 then Some(r.(id := bytes)) else None
  }

  /**
   dime_record_set_type: sets the type segment, a C string like the id, and
   the type_t nibble.
   */
  function SetType(r: Record, typeT: byte, rtype: Option<seq<byte>>): (res: Option<Record>)
    requires rtype.Some? ==> IsCString(rtype.value)
    ensures res.Some? <==> (rtype.None? || |rtype.value| < MaxU16)
    ensures res.Some? ==> res.value.typeT == typeT
    ensures res.Some? ==> res.value.rtype == (if rtype.Some? then rtype.value else [])
    ensures res.Some? ==> res.value.(rtype := r.rtype, typeT := r.typeT) == r
    ensures res.Some? && ValidLengths(r) ==> ValidLengths(res.value)
  {
    var bytes := if rtype.Some? then rtype.value else [];
    if |bytes| < MaxU16 then Some(r.(rtype := bytes, typeT := typeT)) else None
  }

  function SetTypeUri(r: Record, rtype: Option<seq<byte>>): (res: Option<Record>)
    requires rtype.Some? ==> IsCString(rtype.value)
    ensures res.Some? ==> res.value.typeT == TypeUri
    ensures res.Some? <==> (rtype.None? || |rtype.value| < MaxU16)
  {
    SetType(r, TypeUri, rtype)
  }

  function SetTypeMime(r: Record, rtype: Option<seq<byte>>): (res: Option<Record>)
    requires rtype.Some? ==> IsCString(rtype.value)
    ensures res.Some? ==> res.value.typeT == TypeMime
    ensures res.Some? <==> (rtype.None? || |rtype.value| < MaxU16)
  {
    SetType(r, TypeMime, rtype)
  }

  /**
   A record assembled with the setters from the zero record can be encoded,
   and parsing its encoding gives back what the setters stored.
   */
  lemma SetRecordRoundTrip(id: seq<byte>, rtype: seq<byte>, data: seq<byte>, uri: bool)
    requires IsCString(id) && IsCString(rtype)
    requires |id| < MaxU16 && |rtype| < MaxU16 && |data| < MaxU32
    ensures var r1 := SetId(ZeroRecord, Some(id));
            var r2 := if uri then SetTypeUri(r1.value, Some(rtype)) else SetTypeMime(r1.value, Some(rtype));
            var r3 := SetData(r2.value, data);
            && r1.Some? && r2.Some? && r3.Some?
            && var p := ParseRecordHeader(CreateBytes(r3.value, true, true));
               && p.Some?
               && p.value.record.id == id && p.value.record.rtype == rtype && p.value.record.data == data
               && p.value.record.typeT == (if uri then TypeUri else TypeMime)
  {
    var r1 := SetId(ZeroRecord, Some(id));
    var r2 := if uri then SetTypeUri(r1.value, Some(rtype)) else SetTypeMime(r1.value, Some(rtype));
    var r3 := SetData(r2.value, data);
    assert r3.value.resrvd == 0 && r3.value.typeT < 16;
    ParseCreatedRecord(r3.value, true, true, []);
    assert CreateBytes(r3.value, true, true) + [] == CreateBytes(r3.value, true, true);
  }
}
