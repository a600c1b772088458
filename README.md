# FCS 3.0 segment codecs, modelled in Dafny

This project models the three segment codecs of the `fcs` library for the Flow
Cytometry Standard (FCS 3.0) file format, and proves properties about them:

- **Header** (`header.dfy`, module `HeaderCodec`). The fixed-width ASCII preamble
  holds a 6-character version, 4 ignored characters, and six 8-character decimal
  fields. Those fields give the inclusive byte ranges of the text, data and
  analysis segments. `Parse` is `Header::try_from`: each field is trimmed of
  leading white space and read with `usize::from_str`. A blank analysis field
  means 0 (`zero_when_empty`). `Format` is `Display for Header`: the version is
  left-justified to width 10 and the six offsets are right-justified to width 8.
- **Decimal numbers** (`decimal.dfy`, module `Decimal`). This is the part of
  Rust's `usize::from_str` and of `usize`'s `Display` that the header uses. It
  covers an optional leading `+`, the error kinds `Empty`, `InvalidDigit` and
  `PosOverflow`, and the 64-bit bound.
- **Text-segment scanner** (`text.dfy`, module `TextCodec`). These are the `nom`
  combinators `not_separator`, `escaped_separator`, `unseparated_string` and
  `kv_pair`. Each is a function from a string to nothing, or to the unconsumed
  rest and what was matched. A reference grammar (`Escaped`: ordinary characters
  and doubled commas) characterises exactly what they accept. So does the
  equivalent "every maximal run of commas is even".
- **Data-segment decoder** (`data.dfy`, module `DataDecoder`). `Dispatch` checks
  `$MODE`, then `$DATATYPE`, then `$BYTEORD`. `Cursor` is the byte reader whose
  position advances. `ReadWordsInto` fills a preallocated array with 32-bit words,
  as `read_f32_into` does. `Decode` is `Data::try_from` written imperatively, and
  it is proved equal to the functional `Decoded`. An event is modelled as its
  32-bit pattern.

The modules `HeaderLemmas`, `TextLemmas` and `DataLemmas` hold the properties that
relate several operations. `HeaderExamples` and `TextExamples` restate the unit
tests of src/header.rs and src/text.rs as lemmas. `DataExamples` states what the
decoder gives on the little-endian bytes of 1.0 and 2.0, and on three rejected
metadata variants. src/data.rs has no unit tests.

Two behaviours of the code are easy to miss:

- A header parse error is the bare `ParseIntError` kind. It does not say which
  field failed (src/header.rs:21).
- The version is padded to width 10 when it is written. A version shorter than 6
  characters therefore comes back padded with spaces to 6 characters, and the
  round trip holds only for exactly 6 characters (`ShortVersionComesBackPadded`).

The model's types:

- Integers are unbounded. `usize` is taken to be 64 bits wide (`UsizeMax`).
- Bytes and words are the subset types `Byte` (below 2^8) and `Word` (below 2^32).
- Strings are `seq<char>`.

## Model

| member | source | states |
|---|---|---|
| Decimal.ParseUsize | src/header.rs:25 | `usize::from_str`: `Empty` exactly for the empty string; success exactly for a numeral (digits with an optional leading `+`) whose value is at most 2^64-1, with that value; a failure of a non-empty string of at most 19 characters is `InvalidDigit` |
| Decimal.Accumulate | src/header.rs:25 | the digit loop of `from_str`: succeeds iff the remaining characters are digits and the value stays within 2^64-1; never reports `Empty` |
| Decimal.NatToString | src/header.rs:53-58 | `Display` for `usize`: a non-empty digit string with no leading zero (unless it is "0") whose decimal value is the number |
| Decimal.ParseDisplayed | src/header.rs:25 | `from_str` reads back what `Display` printed, for every value up to 2^64-1 |
| Decimal.NatToStringLength | src/header.rs:51 | a printed number has at most k digits iff it is below 10^k |
| Decimal.FitsEightDigits | src/header.rs:51 | a printed number fits an 8-character field iff it is below 10^8 |
| Decimal.ShortValueFits | src/header.rs:25 | a digit string of at most 19 characters never overflows `usize` |
| Decimal.ShortNumeralFits | src/header.rs:25 | a numeral of at most 19 characters never overflows `usize` |
| Decimal.ValueBelowPow10 | src/header.rs:25 | the value of k digits is below 10^k |
| Decimal.PrefixValueAtMost | src/header.rs:25 | a prefix of a digit string has no larger value than the whole |
| Decimal.Pow10Monotone | src/header.rs:51 | 10^j is at most 10^k for j at most k |
| HeaderCodec.TrimStart | src/header.rs:25 | `trim_start` removes a white-space prefix and nothing more: the result is a suffix, what was removed is all white space, and the result is empty or starts with a non-space |
| HeaderCodec.ZeroWhenEmpty | src/header.rs:65-71 | an `Empty` error becomes offset 0; every other error is returned unchanged |
| HeaderCodec.ParseField | src/header.rs:25-28 | a text or data field: `Empty` iff the field is blank; success iff the trimmed field is a numeral that fits, with its value; for an 8-character field, success iff the trimmed field is a numeral, and otherwise `InvalidDigit` |
| HeaderCodec.ParseAnalysisField | src/header.rs:29-36 | an analysis field: 0 when blank; otherwise exactly `ParseField`, so a non-digit is still an error |
| HeaderCodec.Parse | src/header.rs:23-44 | `try_from`: the version is the first 6 characters, copied verbatim |
| HeaderCodec.Assemble | src/header.rs:25-43 | the `?` chain: success iff all six fields parse, with the record of their values; otherwise the error of the first field, in order, that failed |
| HeaderCodec.PadRight | src/header.rs:51 | `{:<w}`: the text followed by spaces up to width w |
| HeaderCodec.PadLeft | src/header.rs:51 | `{:>w}`: spaces up to width w followed by the text |
| HeaderCodec.FormatOffset | src/header.rs:51-57 | `{:>8}` of a `usize`: its decimal text right-justified with spaces; exactly 8 characters iff the offset is below 10^8, longer otherwise |
| HeaderCodec.Format | src/header.rs:47-61 | `Display for Header`; its length, its 58-character layout and its round trip through `try_from` are stated by FormatLength, FormatIs58, FormatLayout and RoundTrip |
| HeaderLemmas.ParseSucceedsExactly | src/header.rs:23-44 | the header parses iff every text and data field is a numeral after its leading white space and each analysis field is that or blank |
| HeaderLemmas.ParseFieldValues | src/header.rs:24-43 | each parsed offset is the numeral of its own slice 10..18, 18..26, 26..34, 34..42, 42..50 or 50..58 (0 for a blank analysis slice) |
| HeaderLemmas.ParseErrors | src/header.rs:25-36 | a header error is `Empty` or `InvalidDigit`, and `Empty` only when a text or data field is blank |
| HeaderLemmas.BadTextStart | src/header.rs:25 | a blank text-start field fails with `Empty`, a non-numeral one with `InvalidDigit`, whatever follows |
| HeaderLemmas.BadAnalysisField | src/header.rs:29-36 | with good text and data fields, a non-blank, non-numeral analysis field fails with `InvalidDigit` |
| HeaderLemmas.ParseIgnoresReserved | src/header.rs:24-36 | two headers that agree on characters 0..6 and 10..58 parse alike: characters 6 to 9 and those after 57 are never read |
| HeaderLemmas.FormatLength | src/header.rs:47-61 | the formatted length is the sum of each part's width or its text's length, whichever is larger |
| HeaderLemmas.FormatIs58 | src/header.rs:51 | the formatted header has exactly 58 characters iff the version has at most 10 and every offset is below 10^8 |
| HeaderLemmas.FormattedOffsetParses | src/header.rs:25-36 | an offset below 10^8, right-justified to 8, is read back as itself by both field parsers |
| HeaderLemmas.TrimSpaces | src/header.rs:25 | `trim_start` removes exactly the padding added by `{:>8}` |
| HeaderLemmas.FormatAscii | src/header.rs:47-61 | an ASCII version and fitting offsets format to ASCII text |
| HeaderLemmas.FormatLayout | src/header.rs:51 | each formatted offset lands in the slice that `try_from` reads it from |
| HeaderLemmas.ParseFormat | src/header.rs:23-61 | parsing the formatted header gives the record back, with the version as the first 6 characters of the version padded to 10 |
| HeaderLemmas.RoundTrip | src/header.rs:23-61 | `try_from(h.to_string()) == Ok(h)` for an ASCII 6-character version and offsets below 10^8 |
| HeaderLemmas.ShortVersionComesBackPadded | src/header.rs:24 | a version shorter than 6 characters comes back padded with spaces to 6, so it is not returned as it was |
| HeaderExamples.Header1 | src/header.rs:77-89 | the `header1` fixture parses to its record, which formats back to the same string (`write_header1`, src/header.rs:133-147) |
| HeaderExamples.Header1Spaces | src/header.rs:91-103 | an all-blank analysis area parses as `0..=0` |
| HeaderExamples.Header2 | src/header.rs:105-117 | the `header2` fixture, in both directions (`write_header2`, src/header.rs:149-163) |
| HeaderExamples.Header3 | src/header.rs:119-131 | the `header3` fixture, in both directions (`write_header3`, src/header.rs:165-179) |
| TextCodec.NotSeparator | src/text.rs:19-21 | `is_not(",")` succeeds iff the input is non-empty and does not start with a comma; it matches a non-empty comma-free prefix, the rest is empty or starts with a comma, and match + rest is the input |
| TextCodec.EscapedSeparator | src/text.rs:23-25 | `tag(",,")` succeeds iff the input starts with two commas, and it consumes exactly those |
| TextCodec.Piece | src/text.rs:16-24 | the `alt` fails iff the input is at a field end (empty, or a comma not followed by another); otherwise it matches a non-empty prefix that is `,,` or comma-free, and on a non-comma start the text left over is empty or starts with a comma, so the match is `not_separator`'s maximal run |
| TextCodec.PiecesRest | src/text.rs:16 | the `many1` repetition returns a suffix of the input that is a field end |
| TextCodec.PiecesRestEscaped | src/text.rs:16 | everything the `many1` repetition consumes is escaped text |
| TextCodec.UnseparatedString | src/text.rs:15-17 | fails iff the input is at a field end (so on empty input and on a lone leading comma); on success the match is a non-empty escaped field, the rest is a field end, and match + rest is the input |
| TextCodec.KvPair | src/text.rs:11-13 | on success the input is key + "," + value + rest, with both fields escaped and non-empty and the rest a field end |
| TextLemmas.PieceTakesFirstAlternative | src/text.rs:16-24 | `alt` tries `not_separator` first: on a non-comma start the piece is `not_separator`'s result, on a comma start it is `escaped_separator`'s |
| TextLemmas.PieceIsMaximalRun | src/text.rs:16-21 | on a non-comma start, the piece is `(rest, out)` iff the input is `out + rest` with `out` non-empty and comma-free and `rest` empty or starting with a comma |
| TextLemmas.EscapedIffEvenRuns | src/text.rs:15-17 | the escaping grammar accepts a string iff every maximal run of commas in it has even length |
| TextLemmas.UnseparatedStringExactly | src/text.rs:15-17 | `unseparated_string` returns (rest, m) iff the input is m + rest, m is a non-empty escaped field and rest is a field end |
| TextLemmas.UnseparatedStringEvenRuns | src/text.rs:15-17 | every maximal run of commas in a match of `unseparated_string` has even length |
| TextLemmas.KvPairExactly | src/text.rs:11-13 | `kv_pair` returns (rest, (k, v)) iff the input is k + "," + v + rest with both fields non-empty and escaped, v not starting with a comma (the key takes comma pairs greedily), and rest a field end |
| TextLemmas.PiecesRestOfEscaped | src/text.rs:16 | on escaped text followed by a field end, the repetition consumes exactly the escaped text |
| TextExamples.KvPairBasic | src/text.rs:31-35 | `kv_pair("ab,cd")` is `("", ("ab", "cd"))` |
| TextExamples.KvPairEscapedMiddle | src/text.rs:37-41 | `kv_pair("a,,b,cd")` is `("", ("a,,b", "cd"))` |
| TextExamples.KvPairEscapedEnd | src/text.rs:43-47 | `kv_pair("ab,,,cd")` is `("", ("ab,,", "cd"))` |
| TextExamples.KvPairEscapedOverflow | src/text.rs:49-53 | `kv_pair("ab,cd,e")` is `(",e", ("ab", "cd"))` |
| TextExamples.UnseparatedStringEasy | src/text.rs:55-59 | `unseparated_string("ab")` is `("", "ab")` |
| TextExamples.UnseparatedStringEscapedStart | src/text.rs:61-65 | `unseparated_string(",,ab")` is `("", ",,ab")` |
| TextExamples.UnseparatedStringEscapedMiddle | src/text.rs:67-71 | `unseparated_string("a,,b")` is `("", "a,,b")` |
| TextExamples.UnseparatedStringEscapedEnd | src/text.rs:73-77 | `unseparated_string("ab,,")` is `("", "ab,,")` |
| TextExamples.UnseparatedStringEscapedOnly | src/text.rs:79-83 | `unseparated_string(",,")` is `("", ",,")` |
| TextExamples.UnseparatedStringEscapedMultiple | src/text.rs:85-89 | `unseparated_string("a,,,,b")` is `("", "a,,,,b")` |
| TextExamples.UnseparatedStringUnescaped | src/text.rs:91-95 | `unseparated_string("a,b")` is `(",b", "a")` |
| TextExamples.UnseparatedStringEscapedUnescapedOne | src/text.rs:97-101 | `unseparated_string("a,,,b")` is `(",b", "a,,")`: commas pair from the left |
| TextExamples.NotSeparatorExamples | src/text.rs:103-125 | `not_separator` on "a", "ab", "ab," and "ab,cd" |
| TextExamples.EscapedSeparatorSingle | src/text.rs:127-131 | `escaped_separator(",,")` is `("", ",,")` |
| DataDecoder.LookupOr | src/data.rs:17-21 | `get(key).unwrap_or("undefined")`: the stored value, or "undefined" for an absent key |
| DataDecoder.Dispatch | src/data.rs:17-43 | `UnsupportedMode` iff `$MODE` is absent or not "L"; `UnsupportedDataType` iff the mode is good and `$DATATYPE` is absent or not "F"; `UnsupportedByteOrder` iff both are good and `$BYTEORD` is neither "1,2,3,4" nor "4,3,2,1"; otherwise little-endian for the first and big-endian for the second; never `BadRead` |
| DataDecoder.LittleEndianWord | src/data.rs:38-39 | the word's lowest byte is the first byte and its highest byte is the fourth |
| DataDecoder.Reverse4 | src/data.rs:41 | the four bytes in reverse order |
| DataDecoder.WordFrom | src/data.rs:38-41 | one element of `read_f32_into`: for `1,2,3,4` the first byte is the lowest and the fourth the highest; for `4,3,2,1` the reverse |
| DataDecoder.DecodeWords | src/data.rs:35-44 | `|data| / 4` events, event i being bytes 4i..4i+4 read in the given order |
| DataDecoder.Cursor.constructor | src/data.rs:36 | `Cursor::new(data)`: a reader at position 0 over the data |
| DataDecoder.Cursor.ReadExact | src/data.rs:39-44 | `read_exact`: the next n bytes and the position advanced by n, or nothing and the position at the end when fewer remain |
| DataDecoder.Cursor.ReadWordsInto | src/data.rs:38-44 | `read_f32_into`: succeeds iff 4 bytes per slot remain; then slot k holds the word from the k-th four bytes after the old position, and the position advances past them |
| DataDecoder.Decoded | src/data.rs:16-47 | `try_from` as a function: succeeds iff `$MODE` is "L", `$DATATYPE` is "F" and `$BYTEORD` is one of the two supported orders; a success holds `|data| / 4` events; never `BadRead` |
| DataDecoder.Decode | src/data.rs:16-47 | `try_from` as written (checks, a zeroed buffer of `|data| / 4` slots, a cursor) yields exactly `Decoded` |
| DataLemmas.DecodedOutcome | src/data.rs:17-44 | success iff the three checks pass; otherwise the first failing check in the order mode, data type, byte order; never `BadRead` |
| DataLemmas.DecodedEvents | src/data.rs:35-46 | on success there are `|data| / 4` events, event i being bytes 4i..4i+4, little-endian for "1,2,3,4" and big-endian for "4,3,2,1" |
| DataLemmas.DecodedIgnoresTrailingBytes | src/data.rs:35 | the data decodes as its longest prefix of whole words does: 1 to 3 trailing bytes are dropped |
| DataLemmas.TrailingBytesIgnored | src/data.rs:35 | appending fewer than 4 bytes to whole words does not change the events |
| DataLemmas.WordBytesOfWord | src/data.rs:38-41 | four bytes turned into a word and back are the same bytes, in either order |
| DataLemmas.WordOfWordBytes | src/data.rs:38-41 | a word turned into four bytes and back is the same word, in either order |
| DataLemmas.BigEndianIsReversed | src/data.rs:38-41 | big-endian reading is little-endian reading of the reversed bytes |
| DataLemmas.DecodeEncode | src/data.rs:35-44 | decoding the concatenated byte encodings of any events gives the events back |
| DataLemmas.DecodedEncoding | src/data.rs:16-47 | `try_from` with good metadata decodes the encoding of any events back to them |
| DataExamples.DecodesOneTwo | src/data.rs:38-39 | the little-endian bytes of 1.0 and 2.0 decode to the bit patterns 0x3F800000 and 0x40000000 |
| DataExamples.RejectsOneTwo | src/data.rs:22-42 | the same bytes with `$MODE` "H", `$BYTEORD` "2,1,4,3" or `$DATATYPE` "I" fail with `UnsupportedMode`, `UnsupportedByteOrder` and `UnsupportedDataType` |

## Left out

- The command-line examples (`examples/csv.rs`, `examples/metadata.rs`, `examples/rewrite.rs`) are file and console I/O around the codecs, so they are not modelled.
- `src/lib.rs` only wires up modules. The `Text` type and `TextError` that it and `src/data.rs` name are not defined in `src/text.rs`, so they are not part of this model. The decoder takes an abstract `Text` record holding only `pairs`.
- Building the key/value map, upper-casing keys, and turning `,,` back into `,` are not done by the text combinators, so the model does not do them either.
- Events are 32-bit patterns, not IEEE-754 floats. `read_f32_into` only reinterprets those bits.
- `nom`'s internals and error values are not modelled. A failed combinator is `None`, and the `Incomplete` case does not arise for these `complete` parsers.
- `HeaderCodec.Parse`: the model takes only ASCII headers of at least 58 characters, where byte and character positions agree. Rust indexes by byte: it panics when a slice bound is past the end or inside a multi-byte character, but a bad field before that point is returned as an error first. The callers pass exactly 58 bytes (examples/csv.rs:22).
- `usize` is taken to be 64 bits wide. A 32-bit platform would overflow sooner, but an 8-character field cannot overflow on either.
- `DataDecoder.Cursor.ReadWordsInto`: when too few bytes remain, the model leaves the buffer unchanged. `byteorder` does not promise what the buffer holds after a failed read. This case is unreachable from `Decode`.
- `src/text.rs` holds only the four combinators. It has no text-segment encoder and no whole-segment decoder, so neither is modelled.
