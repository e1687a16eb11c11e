# EA record codec of EATool

EATool reads and writes NTFS extended attributes (EAs) through the
kernel's query and set primitives. The primitives exchange buffers of
FILE_FULL_EA_INFORMATION records, the layout of section 2.4.15 of
Microsoft's [MS-FSCC]:

| offset | size | field |
|---|---|---|
| 0 | 4 | NextEntryOffset (little-endian; 0 marks the last record) |
| 4 | 1 | Flags |
| 5 | 1 | EaNameLength (N) |
| 6 | 2 | EaValueLength (V, little-endian) |
| 8 | N | EaName |
| 8+N | 1 | 0, the terminator of the name |
| 9+N | V | the value |

Records follow one another in the buffer. Each NextEntryOffset says how
many bytes after its own record's start the next record begins. That can
be more than the record's size, because the records of a buffer are
aligned to 4 bytes and padding fills the gap.

This project models the codec of `eatool.h` in Dafny. It covers:

- `EA_get_header` and the little-endian field reads, as functions.
- The `while (TRUE)` walks of `EA_get_value_raw` and `EA_print`, as loop
  methods. Each is proved equal to a recursive specification function.
  Lemmas tie those functions to the decoded list of records.
- `EA_write`, as a method that fills a zeroed `array<byte>` field by field.
  Its result is proved to be exactly the encoded record. Lemmas prove that
  the record decodes back to the name and the value.
- The judgement of the NTSTATUS that `EA_read` and `EA_write` receive.

Modules:

- `EaResult`: the `Option` and `Result` types. A `Result` is `Ok` or
  `Malformed`.
- `EaStatus`: the NTSTATUS values and the read and write outcomes, with
  their C return codes.
- `EaLayout`: bytes, little-endian fields, the header and one record. It
  proves the round trips between encoding and decoding.
- `EaDecoder`: the chain walk, lookup by name, selection for printing, the
  `strncmp` name window, and `EA_read`.
- `EaEncoder`: `EA_write`, the record it builds and the length it submits.

The source walks the chain without bounds checks. Here each record the
walk reaches must lie wholly inside the buffer: its header, its name, the
name's terminator and its value. If one does not, the walk yields
`Malformed`. A nonzero NextEntryOffset that reaches or passes the end of
the buffer is also `Malformed`. Because the offset is strictly positive
and the buffer is bounded, every walk terminates.

## Model

| member | source | states |
|---|---|---|
| EaLayout.U16RoundTrip | eatool.h:272 | The 16-bit little-endian field reads back the number written, wherever it sits in the buffer |
| EaLayout.U32RoundTrip | eatool.h:233-235 | The 32-bit little-endian field reads back the number written, wherever it sits in the buffer |
| EaLayout.GetHeader | eatool.h:243-246 | The header at a cursor has fields within their on-disk widths: offset < 2^32, name length <= 255, value length < 2^16 |
| EaLayout.HeaderRoundTrip | eatool.h:243-246 | Reading the header at a cursor gives back every field that was written there |
| EaLayout.DecodeRecord | eatool.h:212-214 | A record read from the buffer has fields within their on-disk widths |
| EaLayout.DecodeRecordBytes | eatool.h:212-227 | Wherever a record's bytes sit, the record fits there and reads back as itself: name from byte 8, a 0 at byte 8+N, value from byte 8+N+1 |
| EaDecoder.ChainFrom | eatool.h:233-237 | A chain that is not malformed is non-empty and starts at the cursor it was walked from |
| EaDecoder.ChainOrder | eatool.h:233-237 | Every record of the chain fits the buffer. Each record but the last has a nonzero NextEntryOffset, and the next one starts that many bytes later. The chain ends at the first record whose offset is 0 |
| EaDecoder.ChainFromIsChain | eatool.h:233-237 | Conversely, any list of offsets that starts at the cursor, whose records all fit, each nonzero NextEntryOffset leading to the next offset inside the buffer and the last offset 0, is exactly the walk from the cursor |
| EaDecoder.ChainIsWalk | eatool.h:233-237 | The walk from a cursor succeeds with a list of offsets if and only if that list is such a chain |
| EaDecoder.DecodeFollowsChain | eatool.h:233-237 | Decoding record by record fails exactly when the chain of offsets does. Otherwise it yields the records at the chain's offsets, in chain order |
| EaDecoder.DecodeSerialized | eatool.h:233-237 | Well-chained records, each followed by the padding up to the next record, decode to exactly those records wherever they sit in a buffer. Any NextEntryOffset at least the record's size is allowed, so 4-byte-aligned chains are included |
| EaDecoder.DecodeAllSerialized | eatool.h:233-237 | A buffer holding exactly a well-chained, possibly padded list of records decodes to that list |
| EaDecoder.AlignedChainDecodes | eatool.h:233-237 | A 23-byte buffer of two records, where the first (11 bytes) points 12 bytes on past one byte of padding, decodes to both records |
| EaDecoder.FirstValueIsFirst | eatool.h:216-230 | The lookup over a list finds nothing exactly when no record has the name and a non-empty value. Otherwise it finds the value of the first record that has both |
| EaDecoder.FindValueIsFirstMatch | eatool.h:211-240 | On a well-formed chain, the walk of `EA_get_value_raw` yields the first matching value of the decoded records. A matching record with an empty value is skipped |
| EaDecoder.GetValueRaw | eatool.h:201-241 | The loop computes the lookup's specification. On a well-formed chain, that is the value of the first record with the name and a non-empty value, or nothing |
| EaDecoder.FirstNamedIsFirst | eatool.h:373-404 | The named selection is empty exactly when no record has the name. Otherwise it is the first record that has it |
| EaDecoder.VisitAllIsDecode | eatool.h:373 | With no name, the print walk shows every record of the chain, and fails exactly where decoding fails |
| EaDecoder.VisitNamedIsFirstNamed | eatool.h:373-404 | With a name, on a well-formed chain, the print walk shows only the first record with that name |
| EaDecoder.VisitRecords | eatool.h:358-415 | The loop of `EA_print` shows exactly the records its specification selects, in chain order |
| EaDecoder.LoadNameWindow | eatool.h:212-214 | After the local 256-byte array is cleared and the name is copied in, the array holds the record's name followed by zeros to 256 bytes |
| EaDecoder.WindowMatchIsExact | eatool.h:213-216 | For names without a 0 byte, `strncmp` against the zero-filled 256-byte window holds exactly when the names are equal |
| EaDecoder.EaRead | eatool.h:167-195 | The query's bytes land at the front of the buffer and the rest is untouched. The outcome is the judgement of the query's status |
| EaStatus.ClassifyQuery | eatool.h:182-194 | Success exactly for status 0 and "no EAs" exactly for 0xC0000052. Any other status is a failure that carries the status. The exit code is 0 exactly for those two statuses |
| EaStatus.ClassifySet | eatool.h:293-298 | Return code 0 exactly when the set primitive returns 0. Otherwise a failure that carries the status |
| EaEncoder.ValueLength16 | eatool.h:272 | The `(USHORT)` cast gives a number below 2^16 that is at most the size, and equal to the size when the size fits |
| EaEncoder.EncodeRecordLayout | eatool.h:269-279 | The built record has header 0, 0, the name's length and the value length mod 2^16. Then come the name from byte 8, exactly one 0 byte, and the value's bytes unchanged up to that length |
| EaEncoder.EncodeDecodeRoundTrip | eatool.h:269-279 | Decoding the built record gives back one record with the name and the value, cut to 16 bits |
| EaEncoder.EncodeLookupRoundTrip | eatool.h:269-279 | Looking the name up in the built record yields the value written, or nothing when that value is empty |
| EaEncoder.SubmittedLength | eatool.h:288-291 | The corrected submitted length is exactly the number of bytes in the built record |
| EaEncoder.SubmittedLengthOverrunsRecord | eatool.h:288-291 | The length as written, counted with the 12-byte struct, is 4 bytes more than the record for every name and value. With name "a" and value "b" it is 15 against 11 |
| EaEncoder.PutHeader | eatool.h:269-272 | Filling the header fields leaves the eight header bytes of NextEntryOffset 0, Flags 0 and the two lengths in front of the untouched rest |
| EaEncoder.CopyInto | eatool.h:274-279 | The copy places the source bytes at the offset and leaves every other byte as it was |
| EaEncoder.EaWrite | eatool.h:251-299 | The name is a C string, holding no 0 byte. A name over 255 bytes is refused before anything is built or submitted, and a 255-byte name is accepted. Otherwise exactly the encoded record is submitted, and the outcome is the judgement of the set primitive's status |

## Left out

- `win32API_init`, `open_read`, `open_read_write` and `data_read`: these resolve ntdll entry points and do file-handle I/O. The query and set primitives are function parameters instead (`query` of `EaRead`, `setEa` of `EaWrite`), and the file handle is folded into them.
- `EA_print_data`: hex and ASCII output only. `VisitRecords` yields the records `EA_print` would show, and nothing is printed.
- eatool.cpp (`main`, `getopt`, `help`) is not part of this model, including the fixed read buffer it passes and the read-back after a write.
- The `exit()` calls of `EA_read` and `EA_write` are modelled as the outcomes `NoEasOnFile` and `NameTooLong`, with the exit codes 0 and -1 their `ExitCode` members give.
- `EaWrite`: the record is built in a fresh array of its own size. The source's fixed-size struct on the stack, which `memcpy` overruns, is not modelled.
- `GetValueRaw`: returns the value's bytes. The `malloc` of EaValueLength bytes with an `snprintf` of EaValueLength + 1 bytes (one byte past the allocation), and the `%s` copy that stops at the first 0 byte of the value, are not modelled.
- `GetValueRaw` and `VisitRecords` compare names exactly. The source compares with `strncmp` over a zero-filled 256-byte copy of the record's name. `WindowMatchIsExact` proves the two agree whenever neither name holds a 0 byte. The model does not follow the source for names with embedded 0 bytes.
- `GetValueRaw` and `VisitRecords`: the source reads without bounds checks, and reads past the buffer are undefined behaviour. The model demands that every record the walk reaches fits wholly in the buffer, value included, and returns `Malformed` otherwise. That is stricter than the source: the source reads the value only of a record it matches (eatool.h:218-227, 395-401) and passes over the others after reading their header and name. So a record whose value runs past the end of the buffer is `Malformed` here even where the source would skip it unread. A buffer shorter than one header is `Malformed` as well. The case "the file has no EAs" is the `NoEasOnFile` outcome of `EaRead`.
- `GetValueRaw`, `VisitRecords` and `ReadRecord` work on a `seq<byte>` holding the buffer, not on the `array` that `EaRead` fills: the walks only read it.
- The `buff_size` parameter of `EA_get_value_raw` and `EA_print` is never used by the source, and the model has no counterpart.
- `EaRead`: the primitive is asked with the buffer's full size and is trusted to write no more than that. The IO_STATUS_BLOCK it fills is not modelled.

## Findings

| source | as written | input that shows it | evidently intended | confidence | as-written member | corrected member |
|---|---|---|---|---|---|---|
| eatool.h:288 | the length submitted to the set primitive is `sizeof(FILE_FULL_EA_INFORMATION)` (12 on Windows) + N + 1 + V | name "a", value "b": the record holds 11 bytes but the length says 15 | the 8-byte header + N + 1 + V, the size of the record the decoder reads (eatool.h:212) | not executed | EaEncoder.SubmittedLengthOverrunsRecord | EaEncoder.SubmittedLength |

The same count with the 12-byte struct appears at eatool.h:377. There `EA_print` dumps 12 + N + V + 1 bytes from the record's start, 4 bytes past the record's end. The dump itself is output only and is not modelled.
