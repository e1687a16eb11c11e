/**
 * The binary layout of one FILE_FULL_EA_INFORMATION record (section 2.4.15
 * of Microsoft's [MS-FSCC]):
 *
 *   offset 0      4 bytes  NextEntryOffset (little-endian, 0 = last record)
 *   offset 4      1 byte   Flags
 *   offset 5      1 byte   EaNameLength (N)
 *   offset 6      2 bytes  EaValueLength (V, little-endian)
 *   offset 8      N bytes  EaName
 *   offset 8+N    1 byte   terminator of the name (0)
 *   offset 9+N    V bytes  the value
 */
module EaLayout {

  newtype byte = b: int | 0 <= b < 256

  /** Bytes of the fixed header that precede the name. */
  const HeaderSize: nat := 8
  /** Largest name the one-byte EaNameLength can describe. */
  const MaxNameLength: nat := 255
  const U16Limit: nat := 0x1_0000
  const U32Limit: nat := 0x1_0000_0000

  /** A C string: no byte of it is the terminator. */
  predicate NoNul(s: seq<byte>)
  {
    forall i :: 0 <= i < |s| ==> s[i] != 0
  }

  // ---------------------------------------------------------------------
  // Little-endian fields

  function LeU16(x: nat): (r: seq<byte>)
    requires x < U16Limit
    ensures |r| == 2
  {
    [(x % 0x100) as byte, (x / 0x100) as byte]
  }

  function LeU32(x: nat): (r: seq<byte>)
    requires x < U32Limit
    ensures |r| == 4
  {
    [(x % 0x100) as byte, (x / 0x100 % 0x100) as byte,
     (x / 0x1_0000 % 0x100) as byte, (x / 0x100_0000) as byte]
  }

  /** The unsigned 16-bit field stored little-endian at `buf[i..i+2]`. */
  function U16At(buf: seq<byte>, i: nat): (r: nat)
    requires i + 2 <= |buf|
    ensures r < U16Limit
  {
    buf[i] as nat + 0x100 * buf[i + 1] as nat
  }

  /** The unsigned 32-bit field stored little-endian at `buf[i..i+4]`. */
  function U32At(buf: seq<byte>, i: nat): (r: nat)
    requires i + 4 <= |buf|
    ensures r < U32Limit
  {
    buf[i] as nat + 0x100 * buf[i + 1] as nat
      + 0x1_0000 * buf[i + 2] as nat + 0x100_0000 * buf[i + 3] as nat
  }

  /** Reading back a 16-bit field gives the number written, wherever it sits. */
  lemma U16RoundTrip(x: nat, pre: seq<byte>, post: seq<byte>)
    requires x < U16Limit
    ensures U16At(pre + LeU16(x) + post, |pre|) == x
  {
    var buf := pre + LeU16(x) + post;
    assert buf[|pre|] == (x % 0x100) as byte && buf[|pre| + 1] == (x / 0x100) as byte;
  }

  /** Reading back a 32-bit field gives the number written, wherever it sits. */
  lemma U32RoundTrip(x: nat, pre: seq<byte>, post: seq<byte>)
    requires x < U32Limit
    ensures U32At(pre + LeU32(x) + post, |pre|) == x
  {
    var buf := pre + LeU32(x) + post;
    var b0, b1, b2, b3 := x % 0x100, x / 0x100 % 0x100, x / 0x1_0000 % 0x100, x / 0x100_0000;
    assert buf[|pre|] as nat == b0 && buf[|pre| + 1] as nat == b1;
    assert buf[|pre| + 2] as nat == b2 && buf[|pre| + 3] as nat == b3;
    assert x / 0x100 == b1 + 0x100 * (x / 0x1_0000);
    assert x / 0x1_0000 == b2 + 0x100 * b3;
  }

  // ---------------------------------------------------------------------
  // Header

  datatype Header = Header(nextEntryOffset: nat, flags: byte, eaNameLength: nat, eaValueLength: nat)

  /** The header fields fit their on-disk widths. */
  predicate ValidHeader(h: Header)
  {
    h.nextEntryOffset < U32Limit && h.eaNameLength <= MaxNameLength && h.eaValueLength < U16Limit
  }

  /** The header of the record that starts at `p` (`EA_get_header`, a cast of the cursor). */
  function GetHeader(buf: seq<byte>, p: nat): (h: Header)
    requires p + HeaderSize <= |buf|
    ensures ValidHeader(h)
  {
    Header(U32At(buf, p), buf[p + 4], buf[p + 5] as nat, U16At(buf, p + 6))
  }

  /** The eight header bytes that describe `h`. */
  function HeaderBytes(h: Header): (r: seq<byte>)
    requires ValidHeader(h)
    ensures |r| == HeaderSize
  {
    LeU32(h.nextEntryOffset) + [h.flags, h.eaNameLength as byte] + LeU16(h.eaValueLength)
  }

  /** `GetHeader` reads back every field that `HeaderBytes` wrote. */
  lemma HeaderRoundTrip(h: Header, pre: seq<byte>, post: seq<byte>)
    requires ValidHeader(h)
    ensures GetHeader(pre + HeaderBytes(h) + post, |pre|) == h
  {
    var tail := [h.flags, h.eaNameLength as byte] + LeU16(h.eaValueLength) + post;
    var buf := pre + HeaderBytes(h) + post;
    assert buf == pre + LeU32(h.nextEntryOffset) + tail;
    U32RoundTrip(h.nextEntryOffset, pre, tail);
    var pre2 := pre + LeU32(h.nextEntryOffset) + [h.flags, h.eaNameLength as byte];
    assert buf == pre2 + LeU16(h.eaValueLength) + post;
    U16RoundTrip(h.eaValueLength, pre2, post);
    assert buf[|pre| + 4] == h.flags && buf[|pre| + 5] == h.eaNameLength as byte;
  }

  // ---------------------------------------------------------------------
  // Record

  /** One decoded record, in the order the fields sit on disk. */
  datatype EaRecord = EaRecord(nextEntryOffset: nat, flags: byte, name: seq<byte>, value: seq<byte>)

  /** The record's fields fit the widths of its header. */
  predicate ValidRecord(r: EaRecord)
  {
    r.nextEntryOffset < U32Limit && |r.name| <= MaxNameLength && |r.value| < U16Limit
  }

  /** Header, name, terminator byte, value. */
  function RecordSize(nameLength: nat, valueLength: nat): nat
  {
    HeaderSize + nameLength + 1 + valueLength
  }

  /** Where the name of the record at `p` starts. */
  function NameOffset(p: nat): nat
  {
    p + HeaderSize
  }

  /** Where the value of the record at `p` starts: past the name and its terminator. */
  function ValueOffset(p: nat, nameLength: nat): nat
  {
    p + HeaderSize + nameLength + 1
  }

  /** The header at `p` and the name and value it describes all lie within `buf`. */
  predicate RecordFits(buf: seq<byte>, p: nat)
  {
    && p + HeaderSize <= |buf|
    && p + RecordSize(GetHeader(buf, p).eaNameLength, GetHeader(buf, p).eaValueLength) <= |buf|
  }

  /** The `len` bytes of `buf` from `from` on, copied one at a time. */
  function Bytes(buf: seq<byte>, from: nat, len: nat): (s: seq<byte>)
    requires from + len <= |buf|
    ensures |s| == len
    decreases len
  {
    if len == 0 then [] else [buf[from]] + Bytes(buf, from + 1, len - 1)
  }

  lemma {:induction false} BytesIsSlice(buf: seq<byte>, from: nat, len: nat)
    requires from + len <= |buf|
    ensures Bytes(buf, from, len) == buf[from .. from + len]
    decreases len
  {
    if len > 0 {
      BytesIsSlice(buf, from + 1, len - 1);
      assert buf[from .. from + len] == [buf[from]] + buf[from + 1 .. from + len];
    }
  }

  /** The record that starts at `p`. */
  function DecodeRecord(buf: seq<byte>, p: nat): (r: EaRecord)
    requires RecordFits(buf, p)
    ensures ValidRecord(r)
  {
    var h := GetHeader(buf, p);
    var v := ValueOffset(p, h.eaNameLength);
    EaRecord(h.nextEntryOffset, h.flags,
             Bytes(buf, NameOffset(p), h.eaNameLength),
             Bytes(buf, v, h.eaValueLength))
  }

  /** The wire form of `r`: its header, its name, one 0 byte, its value. */
  function RecordBytes(r: EaRecord): (s: seq<byte>)
    requires ValidRecord(r)
    ensures |s| == RecordSize(|r.name|, |r.value|)
  {
    HeaderBytes(Header(r.nextEntryOffset, r.flags, |r.name|, |r.value|)) + r.name + [0] + r.value
  }

  /**
   * Wherever a record's bytes sit in a buffer, the record fits there and
   * decodes to itself: the name is read from byte 8 of the record, and the
   * value from byte 8 + EaNameLength + 1, past the 0 that ends the name.
   */
  lemma DecodeRecordBytes(r: EaRecord, pre: seq<byte>, post: seq<byte>)
    requires ValidRecord(r)
    ensures RecordFits(pre + RecordBytes(r) + post, |pre|)
    ensures DecodeRecord(pre + RecordBytes(r) + post, |pre|) == r
    ensures (pre + RecordBytes(r) + post)[ValueOffset(|pre|, |r.name|) - 1] == 0
  {
    var h := Header(r.nextEntryOffset, r.flags, |r.name|, |r.value|);
    var buf := pre + RecordBytes(r) + post;
    RecordParts(pre, HeaderBytes(h), r.name, r.value, post);
    HeaderRoundTrip(h, pre, r.name + [0] + r.value + post);
    assert GetHeader(buf, |pre|) == h;
    var n, v := NameOffset(|pre|), ValueOffset(|pre|, |r.name|);
    BytesIsSlice(buf, n, |r.name|);
    BytesIsSlice(buf, v, |r.value|);
    assert Bytes(buf, n, |r.name|) == r.name;
    assert Bytes(buf, v, |r.value|) == r.value;
  }

  /** Where the pieces of a record's bytes sit once the record is placed after `pre`. */
  lemma RecordParts(pre: seq<byte>, hb: seq<byte>, name: seq<byte>, value: seq<byte>, post: seq<byte>)
    ensures var buf, n := pre + (hb + name + [0] + value) + post, |pre| + |hb|;
      && buf == pre + hb + (name + [0] + value + post)
      && buf[n .. n + |name|] == name
      && buf[n + |name|] == 0
      && buf[n + |name| + 1 .. n + |name| + 1 + |value|] == value
  {
    var buf, n := pre + (hb + name + [0] + value) + post, |pre| + |hb|;
    assert buf == (pre + hb + name) + [0] + (value + post);
    assert buf == pre + hb + (name + [0] + value + post);
    assert buf[n + |name|] == 0;
  }
}
