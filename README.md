# yas archive header codec — a Dafny model

This project models the archive-header layer of the yas serialization
library (`include/yas/detail/io/information.hpp`). That layer does three things:

- It packs the library version, the archive type (binary, text or json) and the
  writer's word width (32 or 64 bit) into a one-byte header.
- It writes that header at the start of an archive, and validates and parses it
  on read. Binary archives carry `y a s <byte>`. Text archives carry
  `y a s <hex hi> <hex lo> ' '`. Json archives carry nothing.
- It gives each archive an input view or an output view. The view reports
  the version and word width afterwards.

The three modules follow the three parts of the file:

- `header.dfy`, module `ArchiveHeaders`: the `archive_header` union. A byte is
  its unsigned value 0..255. The bit-fields are laid out LSB-first: version in
  bits 0-3, type in bits 4-6, the 64-bit flag in bit 7. C++ leaves bit-field
  allocation order to the implementation, so this layout is a modelling choice.
  Shifts and masks are written as division and remainder by powers of two.
  The datatype constructor `ArchiveHeader(c)` is the `archive_header(char)`
  constructor: it takes the byte verbatim.
- `codec.dfy`, module `HeaderCodec`: `yas_id`, `hex_alpha` (with its NUL
  terminator), `std::lower_bound` as a verified binary search, and the
  binary, text and json codecs. An input stream is the sequence of bytes still
  available. A read returns `Ok(Parsed(header, rest))` or an error tag. A
  write returns the bytes it appends. `full_header_size` is `FullHeaderSize`.
- `views.dfy`, module `ArchiveInformation`: `archive_information<fmt, in>` is
  the class `InputView`. Its `header` field is set by `InitHeader`.
  `archive_information<fmt, out>` is the class `OutputView`. Each class fixes
  its archive type in a `const format` field, which is what `archive_type()`
  returns. `header_size()` is each class's `HeaderSize()`.

The errors `empty_archive`, `bad_archive_information`, `no_header` and the
`std::invalid_argument` thrown for a bad hex digit are the distinct tags
`EmptyArchive`, `BadArchiveInformation`, `NoHeader` and `NotAHexDigit`.

Modelling choices:

- The numeric codes of `e_archive_type` are defined outside this file. The
  model takes binary = 0, text = 1, json = 2.
- `archive_version` and `YAS_PLATFORM_BITS_IS_64()` are also defined elsewhere.
  They are the fields of a `Platform` value passed to every writer and to the
  output view. The version is taken as an `unsigned char` value (0..255).
- `YAS_PLATFORM_BITS()` is assumed to be 64 exactly when
  `YAS_PLATFORM_BITS_IS_64()` holds and 32 otherwise; `OutputView.Bits`
  derives it from the `is64` flag.

Consequences of the code as written:

- Under the layout above, version 3, binary, 64-bit packs to the byte `0x83`.
- Version 1, text, 32-bit is written `y a s '1' '1' ' '`, because the type
  field of a text header is 1 and sits in the high digit.
- A json input view never reads a header. So its `version()` and `bits()`
  always fail with `no_header`, even for an archive written with a header
  (`WriteThenRead`).
- A writer whose version has low four bits 0 writes the sentinel, and an
  input view reading it back answers `no_header` (`WriteThenRead`).

## Model

| member | source | states |
|---|---|---|
| ArchiveHeaders.ArchiveHeader.Version | include/yas/detail/io/information.hpp:82 | the version field is a 4-bit value (< 16) |
| ArchiveHeaders.ArchiveHeader.Type | include/yas/detail/io/information.hpp:83 | the type field is a 3-bit value (< 8) |
| ArchiveHeaders.ArchiveHeader.Bits | include/yas/detail/io/information.hpp:84 | the word-width field is one bit (< 2) |
| ArchiveHeaders.Zero | include/yas/detail/io/information.hpp:72-74 | the default header has all three fields 0, so its version is the sentinel |
| ArchiveHeaders.FromFields | include/yas/detail/io/information.hpp:78-79 | the triple constructor stores each value truncated to its field width: version mod 16, type mod 8, bits mod 2 |
| ArchiveHeaders.Repack | include/yas/detail/io/information.hpp:71-87 | every one of the 256 bytes unpacks into its fields and repacks to itself |
| ArchiveHeaders.Unpack | include/yas/detail/io/information.hpp:78-85 | packing in-range fields (v<16, t<8, b<2) and unpacking returns the same fields |
| ArchiveHeaders.PackBijective | include/yas/detail/io/information.hpp:70-90 | packing is a bijection between in-range triples and headers: injective, and every header is the packing of its own in-range fields, so the header is exactly one byte |
| HeaderCodec.FullHeaderSize | include/yas/detail/io/information.hpp:104-178 | `full_header_size` is 4 (the magic plus one byte) for binary, 5 (the magic plus two digits) for text, and 17 for json |
| HeaderCodec.TypeCode | include/yas/detail/io/information.hpp:124 | the archive type stored in the header is one of three codes, below 3, so it fits the 3-bit field |
| HeaderCodec.LowerBound | include/yas/detail/io/information.hpp:149 | on a sorted range, the result is the partition point: every element before it is less than the value, every element from it on is not less, and it lies within the range |
| HeaderCodec.HexDigitsRanges | include/yas/detail/io/information.hpp:95 | the sixteen digits are '0'..'9' and 'A'..'F' only, with no lower-case letters |
| HeaderCodec.HexDigitsIncreasing | include/yas/detail/io/information.hpp:95 | the sixteen digits of the alphabet are strictly increasing, as `lower_bound` needs |
| HeaderCodec.ExactMatchIsMembership | include/yas/detail/io/information.hpp:149-152 | `lower_bound` followed by `*p == a` succeeds exactly when the byte is one of the sixteen digits; a miss that lands on the NUL terminator is a miss |
| HeaderCodec.HexDigit | include/yas/detail/io/information.hpp:147-152 | a digit is accepted exactly when it is in `0-9A-F`; an accepted digit's index is below 16 and indexes that digit; every other byte fails with the invalid-digit error |
| HeaderCodec.HexDigitOfAlpha | include/yas/detail/io/information.hpp:149-150 | each of the sixteen digits is found at its own position |
| HeaderCodec.WrittenHeader | include/yas/detail/io/information.hpp:122-126 | the written header holds the library version mod 16, the archive type's code, and the 64-bit flag exactly when the platform is 64-bit |
| HeaderCodec.BinaryRead | include/yas/detail/io/information.hpp:107-117 | under `no_header`, nothing is consumed and the header is unchanged; a successful read consumes exactly the first 4 bytes |
| HeaderCodec.BinaryWrite | include/yas/detail/io/information.hpp:120-129 | nothing is written under `no_header`; otherwise 4 bytes are written, starting with `y a s` |
| HeaderCodec.BinaryReadOutcomes | include/yas/detail/io/information.hpp:108-116 | with a header: fewer than 4 bytes iff `EmptyArchive`; otherwise a magic mismatch iff `BadArchiveInformation`; otherwise success for any fourth byte, which becomes the header verbatim |
| HeaderCodec.BinaryRoundTrip | include/yas/detail/io/information.hpp:107-129 | binary read of what binary write emitted, followed by anything, yields the written header and leaves the following bytes unread |
| HeaderCodec.TextRead | include/yas/detail/io/information.hpp:137-155 | under `no_header`, nothing is consumed and the header is unchanged; a successful read consumes exactly 5 bytes, and the header's high and low nibbles are the indices of bytes 4 and 5 |
| HeaderCodec.TextWrite | include/yas/detail/io/information.hpp:158-173 | nothing is written under `no_header`; otherwise exactly 6 bytes: `y a s`, two digits of the alphabet, and a space |
| HeaderCodec.TextReadOutcomes | include/yas/detail/io/information.hpp:138-152 | with a header: fewer than 5 bytes iff `EmptyArchive`; else a magic mismatch iff `BadArchiveInformation`; else a byte 4 or 5 outside `0-9A-F` iff `NotAHexDigit`, with lower-case rejected; success otherwise |
| HeaderCodec.TextReadValue | include/yas/detail/io/information.hpp:154 | a successful text read stores idx(byte 4) * 16 + idx(byte 5) |
| HeaderCodec.TextReadDigits | include/yas/detail/io/information.hpp:147-154 | two alphabet digits after the magic decode to the byte with those nibbles, and the rest is left unread |
| HeaderCodec.TextRoundTripOf | include/yas/detail/io/information.hpp:166-171 | the text encoding of any header byte reads back to that byte, with the trailing space left unread |
| HeaderCodec.TextRoundTrip | include/yas/detail/io/information.hpp:137-173 | text read of what text write emitted yields the written header; the trailing space stays in the stream |
| HeaderCodec.JsonRead | include/yas/detail/io/information.hpp:181-185 | json read never fails, consumes nothing and leaves the header unchanged, whatever `op` is |
| HeaderCodec.JsonWrite | include/yas/detail/io/information.hpp:188-192 | json write emits nothing, whatever `op` is |
| HeaderCodec.Read | include/yas/detail/io/information.hpp:218 | the view's own codec reads: nothing is consumed and the header kept for json or under `no_header`; only binary and text with a header can fail; a success consumes exactly `full_header_size` bytes |
| HeaderCodec.Write | include/yas/detail/io/information.hpp:244 | the view's own codec writes: nothing for json or under `no_header`; otherwise the magic first, 4 bytes in all for binary and `full_header_size` + 1 for text |
| HeaderCodec.HeaderSizeConsumed | include/yas/detail/io/information.hpp:104-178 | a successful binary or text read consumes exactly `full_header_size` bytes (4, 5); json consumes none although its size is 17; text write emits one byte more than its size |
| HeaderCodec.NoHeaderIsNoOp | include/yas/detail/io/information.hpp:108-159 | under `no_header`, every codec's read consumes nothing and keeps the header, and every write emits nothing |
| HeaderCodec.RoundTrip | include/yas/detail/io/information.hpp:107-173 | for binary and text, reading back a view's own written header succeeds, yields that header, and leaves what followed it (after the text codec's trailing space) unread |
| HeaderCodec.DecodedFields | include/yas/detail/io/information.hpp:122-126 | when the library version is below 16, the written header carries exactly that version, the archive type's code and the word-width flag |
| HeaderCodec.BinaryExample | include/yas/detail/io/information.hpp:107-129 | version 3, binary, 64-bit is written `79 61 73 83` and read back; a 2-byte stream is `EmptyArchive`; `x y z 00` is `BadArchiveInformation` |
| HeaderCodec.TextExample | include/yas/detail/io/information.hpp:137-173 | version 1, text, 32-bit is written `y a s 1 1 ' '`, and `y a s 1 1` reads back header 0x11 |
| HeaderCodec.TextRejectExample | include/yas/detail/io/information.hpp:147-152 | `G` and lower-case `a` in a digit position fail with `NotAHexDigit` |
| ArchiveInformation.InputView.constructor | include/yas/detail/io/information.hpp:200-202 | a new input view's header is zero |
| ArchiveInformation.InputView.HeaderSize | include/yas/detail/io/information.hpp:204 | `header_size()` is 4, 5 or 17 for binary, text or json |
| ArchiveInformation.InputView.Bits | include/yas/detail/io/information.hpp:206 | fails with `NoHeader` exactly when the version nibble is 0; otherwise returns 64 when the flag is set and 32 when it is not |
| ArchiveInformation.InputView.Version | include/yas/detail/io/information.hpp:207 | fails with `NoHeader` exactly when the version nibble is 0; otherwise returns that nibble, 1..15 |
| ArchiveInformation.InputView.InitHeader | include/yas/detail/io/information.hpp:217-219 | runs the view's own codec; on success the header becomes the one read and the unread rest is returned; on failure the header is unchanged and the codec's error is returned; a success with a header on binary or text consumes exactly `header_size()` bytes; json and `no_header` change nothing |
| ArchiveInformation.OutputView.constructor | include/yas/detail/io/information.hpp:227-228 | the output view holds only its archive type and the platform constants |
| ArchiveInformation.OutputView.HeaderSize | include/yas/detail/io/information.hpp:230 | `header_size()` is 4, 5 or 17 for binary, text or json |
| ArchiveInformation.OutputView.Bits | include/yas/detail/io/information.hpp:232 | never fails; returns 32 or 64, and 64 exactly when the written header's flag is set |
| ArchiveInformation.OutputView.Version | include/yas/detail/io/information.hpp:233 | never fails; returns `archive_version`, whose low four bits are the written header's version field |
| ArchiveInformation.OutputView.InitHeader | include/yas/detail/io/information.hpp:243-245 | appends the view's own codec output for its own archive type; appends nothing under `no_header` or for json; with a header, binary appends `header_size()` bytes and text `header_size()` + 1 |
| ArchiveInformation.WriteThenRead | include/yas/detail/io/information.hpp:206-245 | an input view reading an output view's header reports the writer's version nibble and word width for binary and text; it reports `NoHeader` for json and for a version whose low four bits are 0; the bytes after the header (after the text space) are left unread |
| ArchiveInformation.ReadSentinelHeader | include/yas/detail/io/information.hpp:206-207 | after a successful binary read of `y a s` plus a byte whose version nibble is 0, `version()` and `bits()` still fail with `NoHeader` |
| ArchiveInformation.SuppressedHeader | include/yas/detail/io/information.hpp:206-219 | under `no_header` an input view consumes nothing, and `version()` and `bits()` fail with `NoHeader` for every archive type |

## Left out

- The stream object (`sgetn`, `sputn`, `sputc`, `Archive::char_type`) is not part of this model. Input is the sequence of bytes available; output is the sequence appended to.
- How many bytes a failed read consumed is not modelled. The exception ends the archive before anything reads on.
- The preprocessor generation (`YAS_PP_REPEAT`, `YAS_PP_SEQ_ELEM`) is not modelled. The two view classes are written out once, each with the archive type as a constant field, and the template dispatch on that type is the `match` in `Read` and `Write`.
- The function-local `static const` caching of the written header is not modelled. The header is a pure function of the archive type and the platform. C++ would keep the first call's header if one codec were called with several archive types; the views always pass their own type.
- `archive_version` and `YAS_PLATFORM_BITS_IS_64()` are not part of this model. They are the two fields of `Platform`. `YAS_PLATFORM_BITS()` is not part of this model either; it is assumed to be 64 exactly when the 64-bit flag holds and 32 otherwise.
- OutputView.Version: returns the version as an `unsigned char` value (0..255), not the full `int` range of `archive_version`.
- The `what()` strings of the exceptions are not modelled; only the distinct error tags are.
- The `static const` metadata members (`_header_size`, `_version`, `_archive_type`, `_direction`, `_is_readable`, `_is_writable`) are not modelled. The direction is given by the class.
- `reinterpret_cast`, `char` signedness and memory layout are not modelled. Bytes are unsigned. With a signed `char`, `lower_bound` would return the start of the alphabet for bytes 0x80..0xFF instead of its end, but the exact-match test rejects those bytes either way.
