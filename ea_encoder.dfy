/**
 * Writing side of the EA tool: `EA_write` builds one
 * FILE_FULL_EA_INFORMATION record for a name and a value and hands it to
 * the kernel's set primitive, which inserts or replaces the attribute.
 */
module EaEncoder {
  import opened EaLayout
  import opened EaResult
  import opened EaStatus
  import opened EaDecoder

  /** The `(USHORT)` cast that stores the value's size in the 16-bit EaValueLength. */
  function ValueLength16(size: nat): (n: nat)
    ensures n < U16Limit && n <= size
    ensures size < U16Limit ==> n == size
  {
    size % U16Limit
  }

  /**
   * The record `EA_write` builds: NextEntryOffset 0, Flags 0, the name's
   * length, the value's size cut to 16 bits, the name, one 0 byte, and as
   * many bytes of the value as that 16-bit size says.
   */
  function EncodeRecord(name: seq<byte>, value: seq<byte>): seq<byte>
    requires |name| <= MaxNameLength
  {
    RecordBytes(EaRecord(0, 0, name, value[..ValueLength16(|value|)]))
  }

  /**
   * The bytes of the built record: a header that reads back as
   * NextEntryOffset 0, Flags 0, EaNameLength = the name's length and
   * EaValueLength = the value's size mod 2^16; then the name from byte 8,
   * exactly one 0 byte, and the value's bytes unchanged up to that size.
   */
  lemma EncodeRecordLayout(name: seq<byte>, value: seq<byte>)
    requires |name| <= MaxNameLength
    ensures var enc := EncodeRecord(name, value);
      var n, v := |name|, ValueLength16(|value|);
      && |enc| == RecordSize(n, v)
      && GetHeader(enc, 0) == Header(0, 0, n, v)
      && enc[HeaderSize .. HeaderSize + n] == name
      && enc[HeaderSize + n] == 0
      && enc[HeaderSize + n + 1 ..] == value[..v]
  {
    var n, v := |name|, ValueLength16(|value|);
    var h, val := Header(0, 0, n, v), value[..v];
    var enc := EncodeRecord(name, value);
    assert enc == HeaderBytes(h) + name + [0] + val;
    RecordParts([], HeaderBytes(h), name, val, []);
    assert [] + (HeaderBytes(h) + name + [0] + val) + [] == enc;
    HeaderRoundTrip(h, [], name + [0] + val + []);
    assert [] + HeaderBytes(h) + (name + [0] + val + []) == enc;
    assert enc[HeaderSize + n + 1 ..] == enc[HeaderSize + n + 1 .. HeaderSize + n + 1 + v];
  }

  /**
   * Decoding the record `EA_write` builds gives back one record with the
   * name and the value, cut to the 16-bit size.
   */
  lemma EncodeDecodeRoundTrip(name: seq<byte>, value: seq<byte>)
    requires |name| <= MaxNameLength
    ensures DecodeAll(EncodeRecord(name, value)) == Ok([EaRecord(0, 0, name, value[..ValueLength16(|value|)])])
  {
    var r := EaRecord(0, 0, name, value[..ValueLength16(|value|)]);
    SingleRecordChain(r);
    assert Serialize([r]) == EncodeRecord(name, value);
  }

  /**
   * Looking the name up in the record `EA_write` builds yields the value,
   * or nothing when the value is empty; for values that fit the 16-bit
   * size, that is the value written.
   */
  lemma EncodeLookupRoundTrip(name: seq<byte>, value: seq<byte>)
    requires |name| <= MaxNameLength && |value| < U16Limit
    ensures FindValueFrom(EncodeRecord(name, value), 0, name) == Ok(if |value| > 0 then Some(value) else None)
  {
    EncodeDecodeWhole(name, value);
    LookupInSingleRecord(EncodeRecord(name, value), EaRecord(0, 0, name, value), name);
  }

  /** A value that fits the 16-bit size decodes back whole. */
  lemma EncodeDecodeWhole(name: seq<byte>, value: seq<byte>)
    requires |name| <= MaxNameLength && |value| < U16Limit
    ensures DecodeAll(EncodeRecord(name, value)) == Ok([EaRecord(0, 0, name, value)])
  {
    assert value[..ValueLength16(|value|)] == value;
    EncodeDecodeRoundTrip(name, value);
  }

  /** In a buffer that holds one record, the lookup finds that record's value if it is wanted. */
  lemma LookupInSingleRecord(buf: seq<byte>, r: EaRecord, name: seq<byte>)
    requires DecodeAll(buf) == Ok([r])
    ensures FindValueFrom(buf, 0, name) == Ok(if HasValueNamed(r, name) then Some(r.value) else None)
  {
    FindValueIsFirstMatch(buf, 0, name);
    assert FirstValue([r], name) == if HasValueNamed(r, name) then Some(r.value) else None;
  }

  /** A lone record whose NextEntryOffset is 0 decodes to itself. */
  lemma SingleRecordChain(r: EaRecord)
    requires ValidRecord(r) && r.nextEntryOffset == 0
    ensures DecodeAll(Serialize([r])) == Ok([r])
  {
    DecodeAllSerialized([r]);
  }

  /**
   * The length handed to the set primitive: exactly the bytes of the
   * record, counting the 8-byte header.
   */
  function SubmittedLength(name: seq<byte>, value: seq<byte>): (n: nat)
    requires |name| <= MaxNameLength
    ensures n == |EncodeRecord(name, value)|
  {
    HeaderSize + |name| + 1 + ValueLength16(|value|)
  }

  /**
   * `sizeof(FILE_FULL_EA_INFORMATION)` as the C compiler lays the struct
   * out on Windows: the 8-byte header, the one-byte `EaName[1]` and three
   * bytes of padding.
   */
  const SizeofFullEaInformation: nat := 12

  /** The length the source hands to the set primitive, counted with the C struct's size. */
  function SubmittedLengthAsWritten(name: seq<byte>, value: seq<byte>): nat
  {
    SizeofFullEaInformation + |name| + 1 + ValueLength16(|value|)
  }

  /**
   * The length counted with the struct's size claims four bytes more than
   * the record holds, for every name and value: with the name "a" and the
   * value "b" the record has 11 bytes and the length says 15.
   */
  lemma SubmittedLengthOverrunsRecord(name: seq<byte>, value: seq<byte>)
    requires |name| <= MaxNameLength
    ensures SubmittedLengthAsWritten(name, value) == |EncodeRecord(name, value)| + 4
    ensures SubmittedLengthAsWritten([97], [98]) == 15 && |EncodeRecord([97], [98])| == 11
  {
    assert ValueLength16(1) == 1;
  }

  /** The record `EA_write` builds, as the pieces it writes one after another. */
  lemma EncodeRecordPieces(name: seq<byte>, value: seq<byte>)
    requires |name| <= MaxNameLength
    ensures EncodeRecord(name, value) ==
      HeaderBytes(Header(0, 0, |name|, ValueLength16(|value|))) + (name + [0]) + value[..ValueLength16(|value|)]
  {
  }

  /**
   * The header `EA_write` fills in field by field: NextEntryOffset 0,
   * Flags 0, the name's length and the 16-bit value length.
   */
  method PutHeader(a: array<byte>, nameLength: nat, valueLength: nat)
    requires HeaderSize <= a.Length && nameLength <= MaxNameLength && valueLength < U16Limit
    modifies a
    ensures a[..] == HeaderBytes(Header(0, 0, nameLength, valueLength)) + old(a[HeaderSize..])
  {
    var lengthBytes := LeU16(valueLength);
    a[0], a[1], a[2], a[3] := 0, 0, 0, 0;
    a[4] := 0;
    a[5] := nameLength as byte;
    a[6], a[7] := lengthBytes[0], lengthBytes[1];
    assert LeU32(0) == [0, 0, 0, 0];
    assert a[..] == a[..HeaderSize] + a[HeaderSize..];
  }

  /**
   * `strcpy_s`/`memcpy` into the record: `src` lands at `at`, every other
   * byte stays as it was.
   */
  method CopyInto(a: array<byte>, at: nat, src: seq<byte>)
    requires at + |src| <= a.Length
    modifies a
    ensures a[..] == old(a[..at]) + src + old(a[at + |src| ..])
  {
    var i := 0;
    while i < |src|
      invariant 0 <= i <= |src|
      invariant forall k :: 0 <= k < a.Length && !(at <= k < at + i) ==> a[k] == old(a[k])
      invariant forall k :: 0 <= k < i ==> a[at + k] == src[k]
    {
      a[at + i] := src[i];
      i := i + 1;
    }
    assert a[..] == a[..at] + a[at .. at + |src|] + a[at + |src| ..];
  }

  /**
   * A buffer given a header, then a name with its terminator, then a value,
   * each written over the last, holds exactly those pieces.
   */
  lemma BuildSteps(zeros: seq<byte>, header: seq<byte>, cstr: seq<byte>, val: seq<byte>,
                   s1: seq<byte>, s2: seq<byte>, s3: seq<byte>)
    requires |zeros| == |header| + |cstr| + |val| && |header| == HeaderSize
    requires s1 == header + zeros[HeaderSize..]
    requires s2 == s1[..HeaderSize] + cstr + s1[HeaderSize + |cstr| ..]
    requires s3 == s2[..HeaderSize + |cstr|] + val + s2[HeaderSize + |cstr| + |val| ..]
    ensures s3 == header + cstr + val
  {
    assert s1[..HeaderSize] == header;
    assert s2[..HeaderSize + |cstr|] == header + cstr;
  }

  /**
   * `EA_write`: refuse a name longer than 255 bytes before building
   * anything, else build the record in a zeroed buffer field by field, hand
   * it to the set primitive and judge the status it returns. `submitted` is
   * what reached the primitive, None when it was not called. The name is a
   * C string, so it holds no 0 byte; the value is a sized buffer and may.
   */
  method EaWrite(name: seq<byte>, value: seq<byte>, setEa: seq<byte> -> NtStatus)
    returns (s: WriteStatus, submitted: Option<seq<byte>>)
    requires NoNul(name)
    ensures s == NameTooLong <==> |name| > MaxNameLength
    ensures |name| > MaxNameLength ==> submitted == None
    ensures |name| <= MaxNameLength ==>
      && submitted == Some(EncodeRecord(name, value))
      && s == ClassifySet(setEa(EncodeRecord(name, value)))
  {
    if |name| > MaxNameLength {
      return NameTooLong, None;
    }
    var nameLength := |name|;
    var valueLength := ValueLength16(|value|);
    var length := SubmittedLength(name, value);
    var record := new byte[length](_ => 0);
    ghost var zeros := record[..];
    PutHeader(record, nameLength, valueLength);
    ghost var s1 := record[..];

    // strcpy_s: the name and its terminator
    CopyInto(record, HeaderSize, name + [0]);
    ghost var s2 := record[..];

    // memcpy: EaValueLength bytes of the value
    CopyInto(record, HeaderSize + nameLength + 1, value[..valueLength]);
    ghost var header := HeaderBytes(Header(0, 0, nameLength, valueLength));
    BuildSteps(zeros, header, name + [0], value[..valueLength], s1, s2, record[..]);
    EncodeRecordPieces(name, value);

    var status := setEa(record[..]);
    s := ClassifySet(status);
    submitted := Some(record[..]);
  }
}
