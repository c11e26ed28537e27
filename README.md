# EOF container decoder, modelled and verified in Dafny

This project models the decoder of an EOF-style container (after the
Ethereum Object Format of EIP-3540) found in `src/parser.rs`. Its layout
differs from the EIPs: the header holds one `code_size` for all
`num_code_sections` code sections rather than one size per section, and
`container_size` is a single byte. The decoder reads a byte
source once, forwards only: a 19-byte header (magic `EF 00`, version 1,
section kind tags, little-endian two-byte sizes and a code-section count in
1..1024), a types table of 4-byte rows `(inputs, outputs, max_stack_height)`,
and then the code, container and data sections as opaque bytes. The first
failing step ends the decode with its own error kind.

The project has five modules:

- `EofTypes` (`eof_types.dfy`): the records `EofHeader`, `TypeMetadata`,
  `Body` and `EofContainer`, the error kinds, and the constants `EOF_MAGIC` and
  `MAX_CODE_SECTIONS`. `u8` and `u16` are subset types of `int`.
- `EofSpec` (`eof_spec.dfy`): a reference decoder `Decode` stated on the
  wire layout. Every field is read at its fixed offset. The order of the
  checks reproduces which error the parser meets first. Its postcondition
  `WellFormed` collects what a successful decode guarantees.
- `EofEncoding` (`eof_encoding.dfy`): the layout written forwards as an
  encoder, with both round trips proved. The parser has no encoder; this one
  exists only to state what the decoder reads: every field in its place,
  two-byte fields little-endian, sections byte for byte.
- `EofProperties` (`eof_properties.dfy`): the error kinds for each bad field,
  IoError for every truncated input, and the two inputs of the parser's tests.
- `EofParser` (`eof_parser.dfy`): the `Parser` class. It holds the source's
  bytes `data` and a read position `pos`. On success its read primitives
  advance `pos` the way `read_u8`, `read_u16::<LittleEndian>` and
  `read_exact` do; they are specified directly against slices of `data`, and
  so is `ReadUncheckedFields`. `ReadExact` fills a caller's zeroed array in a
  loop. `ParseTypesSection` loops while the remaining size is positive and
  pushes one row per pass. `ParseHeader`, `ParseTypesSection`, `ParseBody`
  and `Parse` are proved to return the matching `EofSpec` function of the
  bytes left at the call, and to advance `pos` by exactly the bytes a success
  consumes.

The byte source is a sequence of bytes known in advance. A short read fails
with `IoError` and, in this model, consumes nothing (see "## Left out").

The test row `00 01 02 00` at offset 19 decodes to inputs 0, outputs 1, max
stack height 2 (`EofProperties.MockDecodes`).

## Model

| member | source | states |
|---|---|---|
| `EofSpec.LeU16Bytes` | src/parser.rs:33-35 | a two-byte little-endian field is the value whose low byte is the first byte and high byte the second |
| `EofSpec.DecodeHeader` | src/parser.rs:20-64 | a decoded header has magic EF 00 taken from the first two bytes, version 1, 1..1024 code sections, and needs all 19 header bytes |
| `EofSpec.DecodeTypes` | src/parser.rs:83-110 | a decoded types table is non-empty, has exactly type_size / 4 rows, type_size is a multiple of 4, and its bytes are all present |
| `EofSpec.DecodeBody` | src/parser.rs:66-81 | a decoded body needs every byte of the types table and of the three sections the header declares |
| `EofSpec.DecodeBodyOk` | src/parser.rs:66-81 | a decoded body holds the rows of its first type_size bytes, then the code, container and data spans that follow in that order, ending at exactly the declared total |
| `EofSpec.Decode` | src/parser.rs:13-18 | a successful decode is well formed (valid header, table of type_size / 4 rows, scalar fields equal to row 0, sections of the declared lengths) and consumed no more than the input holds |
| `EofEncoding.DecodeEncodeU16` | src/parser.rs:33-35 | the two bytes of an encoded u16 read back as that u16 |
| `EofEncoding.EncodeDecodeU16` | src/parser.rs:33-35 | every pair of bytes read as a u16 encodes back to that pair |
| `EofEncoding.EncodeDecode` | src/parser.rs:13-116 | a successful decode read exactly 19 + type_size + code_size + container_size + data_size bytes and they are the re-encoding of its result: every header field in order, two-byte fields little-endian, rows in order, sections byte for byte |
| `EofEncoding.DecodeEncode` | src/parser.rs:13-116 | every well-formed container, followed by any bytes, decodes back to itself |
| `EofEncoding.EncodeDecodeHeader` | src/parser.rs:20-64 | the decoded header re-encodes to the 19 bytes it was read from, so each u16 field is byte 0 + 256 * byte 1 |
| `EofEncoding.EncodeDecodeBody` | src/parser.rs:66-116 | the decoded body re-encodes to the bytes it was read from: the rows are the table bytes and the sections are the input spans that follow, unchanged |
| `EofEncoding.DecodeEncodeHeader` | src/parser.rs:20-64 | a valid header encoded and followed by anything decodes to itself |
| `EofEncoding.DecodeEncodeTypes` | src/parser.rs:83-110 | a non-empty encoded types table of 4 * n bytes decodes to its n rows |
| `EofEncoding.DecodeEncodeBody` | src/parser.rs:66-81 | the encoded body of a well-formed container decodes back to that body |
| `EofEncoding.RowAtEncodeRows` | src/parser.rs:92-100 | row i of a table decodes from bytes 4i..4i+3 of its encoding |
| `EofEncoding.RowsOfEncodeRows` | src/parser.rs:87-103 | decoding the rows of an encoded table gives the table back |
| `EofEncoding.EncodeRowsOfRows` | src/parser.rs:87-103 | the first k decoded rows re-encode to the first 4k bytes |
| `EofEncoding.EncodedLength` | src/parser.rs:66-116 | a well-formed container occupies exactly Consumed(header) bytes |
| `EofEncoding.TrailingBytesIgnored` | src/parser.rs:13-18 | bytes after the data section are never read: appending to a decodable input does not change its result |
| `EofEncoding.DecodedIsEncodedPrefix` | src/parser.rs:13-116 | a decodable input starts with the encoding of its well-formed result |
| `EofEncoding.EncodedPrefixDecodes` | src/parser.rs:13-116 | an input that starts with the encoding of a well-formed container decodes to that container |
| `EofEncoding.DecodeSucceedsIff` | src/parser.rs:13-116 | decode succeeds if and only if the input starts with the encoding of a well-formed container |
| `EofProperties.BadMagicRejected` | src/parser.rs:21-25 | two first bytes other than EF 00 give InvalidMagic whatever follows them |
| `EofProperties.BadVersionRejected` | src/parser.rs:27-30 | after a good magic, a version byte other than 1 gives InvalidVersion whatever follows |
| `EofProperties.BadCodeSectionCountRejected` | src/parser.rs:32-39 | after a good magic and version, a code-section count of 0 or above 1024 gives InvalidCodeSectionCount whatever the later fields hold |
| `EofProperties.MisalignedTypeSizeRejected` | src/parser.rs:87-90 | a valid header whose type_size is not a multiple of 4, with all whole rows present, gives InvalidTypeSectionSize |
| `EofProperties.ZeroTypeSizeRejected` | src/parser.rs:105-107 | a valid header with type_size 0 gives InvalidZeroSectionMetadata |
| `EofProperties.RowsOfPrefix` | src/parser.rs:92-94 | rows read from a prefix that holds them equal the rows read from the whole input |
| `EofProperties.TruncatedHeaderIsIoError` | src/parser.rs:20-47 | a prefix shorter than 19 bytes of a valid header gives IoError |
| `EofProperties.TruncatedBodyIsIoError` | src/parser.rs:66-116 | a prefix of a decodable body shorter than its declared size gives IoError |
| `EofProperties.TruncatedIsIoError` | src/parser.rs:13-116 | every strict prefix of the consumed part of a decodable input gives IoError, never a truncated result |
| `EofProperties.MockHeaderDecodes` | src/parser.rs:126-140 | the header of the test container decodes to version 1, four bytes of types, one code section of ten bytes and empty container and data sections |
| `EofProperties.MockTypesDecode` | src/parser.rs:141-142 | the test row 00 01 02 00 decodes to inputs 0, outputs 1, max stack height 2 |
| `EofProperties.MockBodyDecodes` | src/parser.rs:141-143 | the test body decodes to its single row and exactly its ten code bytes |
| `EofProperties.MockDecodes` | src/parser.rs:124-153 | the test container decodes to exactly MOCK_CONTAINER: magic EF 00, version 1, the single row (0, 1, 2) and the ten code bytes |
| `EofProperties.ZeroMagicRejected` | src/parser.rs:156-161 | the input 00 00 gives InvalidMagic |
| `EofParser.Parser.constructor` | src/parser.rs:9-11 | a new parser reads from the start of its bytes |
| `EofParser.Parser.ReadU8` | src/parser.rs:27 | returns the next byte and advances by one, or IoError with nothing consumed at the end of the input |
| `EofParser.Parser.ReadU16LE` | src/parser.rs:33 | returns byte 0 + 256 * byte 1 of the next two and advances by two, or IoError if fewer remain |
| `EofParser.Parser.ReadExact` | src/parser.rs:22 | fills the buffer with exactly the next buffer-length bytes and advances by that many, or IoError with buffer and position unchanged |
| `EofParser.Parser.ReadSection` | src/parser.rs:112-116 | returns exactly the next n bytes unchanged and advances by n, or IoError if fewer than n remain |
| `EofParser.Parser.ParseHeader` | src/parser.rs:20-64 | returns DecodeHeader of the bytes left, advancing by 19 on success and by exactly 2 on InvalidMagic |
| `EofParser.Parser.ReadUncheckedFields` | src/parser.rs:41-63 | reads code size, container kind and count, container size, data kind and size and the terminator as they come, advancing by ten, or IoError if fewer than ten bytes remain |
| `EofParser.Parser.ParseTypesSection` | src/parser.rs:83-110 | returns DecodeTypes of the bytes left, advancing by type_size on success; the loop keeps remaining + 4 * rows == type_size |
| `EofParser.Parser.ParseBody` | src/parser.rs:66-81 | returns DecodeBody of the bytes left, reading table, code, container and data in that order, advancing by their total size |
| `EofParser.Parser.Parse` | src/parser.rs:13-18 | returns Decode of the bytes left, advancing by Consumed(header) on success and by exactly 2 on InvalidMagic |
| `EofParser.ParseValidMock` | src/parser.rs:124-153 | parsing the test container returns exactly MOCK_CONTAINER, so it succeeds with magic EF 00, version 1 and ten bytes of code |
| `EofParser.ParseZeroMagic` | src/parser.rs:156-161 | parsing 00 00 gives InvalidMagic |

## Left out

- `ParseError(String)` (src/error.rs:27-29): nothing in the parser produces it, so the error type has no such kind.
- The payload of `IoError` (src/error.rs:31-33): every failure of the byte source is the single kind `IoError`.
- The generic `Read` source and the `byteorder` crate (src/constants.rs:4-5): the source is a sequence of bytes fixed in advance, read through `ReadU8`, `ReadU16LE` and `ReadExact`. Sources that fail for other reasons than running out of bytes, or deliver fewer bytes per call, are not modelled.
- The position after a failed read: `ReadU8`, `ReadU16LE`, `ReadExact` and `ReadSection` leave `pos` unchanged on a short read (and `ReadExact` leaves the buffer untouched). That is this model's choice: the `Cursor` the tests read from moves to the end of its data after a short read, and a general `Read` leaves the position unspecified. The parse steps (`ParseHeader`, `ReadUncheckedFields`, `ParseTypesSection`, `ParseBody`, `Parse`) promise after a failure only `old(pos) <= pos`, plus exactly `old(pos) + 2` after `InvalidMagic`.
- `MAX_RETURN_STACK_SIZE` (src/constants.rs:3) is unused by the parser; the `prelude` module is not part of this model.
- Error message texts, the derived `Debug`/`Clone`/`PartialEq` implementations and the crate's lint settings have no behaviour to model.
- The `TypesSection` wrapper (src/lib.rs:52-55) is modelled as the sequence of rows it wraps.
- Checks the parser does not make are not added: kind tags, the terminator, `num_container_sections` against `container_size`, and the row count against `num_code_sections` are decoded and kept as read.
