/** The header codecs (`header_reader_writer<binary|text|json>`).

    A stream being read is the sequence of bytes still available in it; a
    read returns the header it produced and the bytes it left unconsumed.
    A write returns the bytes it appends to the output stream. */
module HeaderCodec {
  import opened ArchiveHeaders

  /** The exceptions of the codec layer, as distinct tags:
      `empty_archive`, `bad_archive_information`,
      `std::invalid_argument("not a hex digit")` and `no_header`. */
  datatype Error = EmptyArchive | BadArchiveInformation | NotAHexDigit | NoHeader

  datatype Result<T> = Ok(value: T) | Err(error: Error)

  /** `e_archive_type::type`. */
  datatype ArchiveType = Binary | Text | Json

  /** `header_t::type`: whether the archive carries a header at all. */
  datatype HeaderOp = WithHeader | WithoutHeader

  /** The build constants `archive_version` and `YAS_PLATFORM_BITS_IS_64()`. */
  datatype Platform = Platform(archiveVersion: byte, is64: bool)

  /** What a successful read produces: the header and the unread input. */
  datatype Parsed = Parsed(header: ArchiveHeader, rest: seq<byte>)

  /** The numeric value of an archive type, as stored in the type field. */
  function TypeCode(at: ArchiveType): (c: byte)
    ensures c < 3
  {
    match at
    case Binary => 0
    case Text => 1
    case Json => 2
  }

  /** `yas_id`: the three magic bytes 'y', 'a', 's'. */
  const YasId: seq<byte> := [0x79, 0x61, 0x73]

  /** `hex_alpha`: the sixteen upper-case hex digits followed by the NUL
      terminator of the C string literal (17 bytes). */
  const HexAlpha: seq<byte> := [
    0x30, 0x31, 0x32, 0x33, 0x34, 0x35, 0x36, 0x37,  // '0' .. '7'
    0x38, 0x39, 0x41, 0x42, 0x43, 0x44, 0x45, 0x46,  // '8', '9', 'A' .. 'F'
    0x00]

  /** The digits proper: `[hex_alpha, hex_alpha + 16)`. */
  const HexDigits: seq<byte> := HexAlpha[..16]

  const Space: byte := 0x20

  /** `full_header_size` of each codec: the magic plus one raw byte for
      binary, the magic plus two hex digits for text, and 17 for json,
      whose codec nevertheless reads and writes nothing. */
  function FullHeaderSize(at: ArchiveType): (n: nat)
    ensures at == Binary <==> n == |YasId| + 1
    ensures at == Text <==> n == |YasId| + 2
    ensures at == Json <==> n == 17
  {
    match at
    case Binary => 4
    case Text => 5
    case Json => 17
  }

  // ---------------------------------------------------------------------
  // The hex digit lookup: std::lower_bound followed by an exact test.
  // ---------------------------------------------------------------------

  predicate SortedBetween(s: seq<byte>, lo: nat, hi: nat)
    requires lo <= hi <= |s|
  {
    forall i, j :: lo <= i < j < hi ==> s[i] <= s[j]
  }

  /** `std::lower_bound(s + lo, s + hi, value)`, as a binary search: the
      first position in [lo, hi) whose element is not less than `value`,
      or `hi` when there is none. */
  function LowerBound(s: seq<byte>, lo: nat, hi: nat, value: byte): (p: nat)
    requires lo <= hi <= |s|
    requires SortedBetween(s, lo, hi)
    ensures lo <= p <= hi
    ensures forall i :: lo <= i < p ==> s[i] < value
    ensures forall i :: p <= i < hi ==> value <= s[i]
    decreases hi - lo
  {
    if lo == hi then lo
    else
      var mid := lo + (hi - lo) / 2;
      if s[mid] < value then LowerBound(s, mid + 1, hi, value)
      else LowerBound(s, lo, mid, value)
  }

  /** The digits are '0'..'9' (0x30..0x39) and 'A'..'F' (0x41..0x46). */
  lemma HexDigitsRanges()
    ensures forall i :: 0 <= i < 16 ==> 0x30 <= HexDigits[i] <= 0x39 || 0x41 <= HexDigits[i] <= 0x46
  {
  }

  /** The sixteen digits of `hex_alpha` are strictly increasing. */
  lemma HexDigitsIncreasing()
    ensures forall i, j :: 0 <= i < j < 16 ==> HexAlpha[i] < HexAlpha[j]
  {
  }

  /** One hex digit as read by the text codec: `lower_bound` over the
      sixteen digits, then `*p != a` rejects the byte. A byte above 'F'
      makes `p` the end of the range, where the NUL terminator sits. The
      result is the digit's position `p - hex_alpha`. */
  function HexDigit(c: byte): (r: Result<byte>)
    ensures r.Ok? <==> c in HexDigits
    ensures r.Ok? ==> r.value < 16 && HexAlpha[r.value] == c
    ensures r.Err? ==> r.error == NotAHexDigit
  {
    HexDigitsIncreasing();
    var p := LowerBound(HexAlpha, 0, 16, c);
    ExactMatchIsMembership(c, p);
    if HexAlpha[p] != c then Err(NotAHexDigit) else Ok(p)
  }

  /** Because the digits are strictly increasing, the exact test after
      `lower_bound` succeeds precisely for the sixteen digits; it fails on
      the NUL terminator, which `lower_bound` returns only for bytes above
      'F'. */
  lemma ExactMatchIsMembership(c: byte, p: nat)
    requires p <= 16
    requires forall i :: 0 <= i < p ==> HexAlpha[i] < c
    requires forall i :: p <= i < 16 ==> c <= HexAlpha[i]
    ensures HexAlpha[p] == c <==> c in HexDigits
  {
    HexDigitsIncreasing();
    assert HexAlpha[0] == 0x30 && HexAlpha[16] == 0;
    if HexAlpha[p] == c {
      if p == 16 {
        assert false;
      }
      assert HexDigits[p] == c;
    }
    if c in HexDigits {
      var k :| 0 <= k < 16 && HexDigits[k] == c;
      assert HexAlpha[k] == c;
      assert p <= k;  // no digit before p reaches c
      assert p == k;  // a digit after p would exceed c
    }
  }

  /** Every digit is found at its own position. */
  lemma HexDigitOfAlpha(n: byte)
    requires n < 16
    ensures HexDigit(HexAlpha[n]) == Ok(n)
  {
    HexDigitsIncreasing();
  }

  // ---------------------------------------------------------------------
  // The header each writer emits.
  // ---------------------------------------------------------------------

  /** The header every writer emits: built from the library version, the
      archive type's code and the 64-bit flag, each first narrowed to an
      unsigned byte. */
  function WrittenHeader(at: ArchiveType, p: Platform): (h: ArchiveHeader)
    ensures h.Version() == p.archiveVersion % 16
    ensures h.Type() == TypeCode(at)
    ensures h.Bits() == 1 <==> p.is64
  {
    FromFields(p.archiveVersion, TypeCode(at), if p.is64 then 1 else 0)
  }

  // ---------------------------------------------------------------------
  // Binary codec.
  // ---------------------------------------------------------------------

  function BinaryRead(input: seq<byte>, op: HeaderOp, header: ArchiveHeader): (r: Result<Parsed>)
    ensures op == WithoutHeader ==> r == Ok(Parsed(header, input))
    ensures op == WithHeader && r.Ok? ==> |input| >= 4 && input == input[..4] + r.value.rest
  {
    if op == WithoutHeader then Ok(Parsed(header, input))
    else if |input| < FullHeaderSize(Binary) then Err(EmptyArchive)
    else if input[..3] != YasId then Err(BadArchiveInformation)
    else Ok(Parsed(ArchiveHeader(input[3]), input[4..]))
  }

  function BinaryWrite(op: HeaderOp, at: ArchiveType, p: Platform): (w: seq<byte>)
    ensures op == WithoutHeader ==> w == []
    ensures op == WithHeader ==> |w| == 4 && w[..3] == YasId
  {
    if op == WithoutHeader then []
    else YasId + [WrittenHeader(at, p).asChar]
  }

  /** The three outcomes of a binary read with a header, and their order:
      length first, then the magic, then any fourth byte is accepted. */
  lemma BinaryReadOutcomes(input: seq<byte>, header: ArchiveHeader)
    ensures BinaryRead(input, WithHeader, header) == Err(EmptyArchive) <==> |input| < 4
    ensures BinaryRead(input, WithHeader, header) == Err(BadArchiveInformation)
            <==> |input| >= 4 && input[..3] != YasId
    ensures BinaryRead(input, WithHeader, header).Ok? <==> |input| >= 4 && input[..3] == YasId
    ensures |input| >= 4 && input[..3] == YasId ==>
            BinaryRead(input, WithHeader, header) == Ok(Parsed(ArchiveHeader(input[3]), input[4..]))
  {
  }

  /** Reading back what the binary writer wrote yields the written header
      and leaves the following bytes untouched. */
  lemma BinaryRoundTrip(at: ArchiveType, p: Platform, header: ArchiveHeader, tail: seq<byte>)
    ensures BinaryRead(BinaryWrite(WithHeader, at, p) + tail, WithHeader, header)
            == Ok(Parsed(WrittenHeader(at, p), tail))
  {
  }

  // ---------------------------------------------------------------------
  // Text codec.
  // ---------------------------------------------------------------------

  function TextRead(input: seq<byte>, op: HeaderOp, header: ArchiveHeader): (r: Result<Parsed>)
    ensures op == WithoutHeader ==> r == Ok(Parsed(header, input))
    ensures op == WithHeader && r.Ok? ==> |input| >= 5 && input == input[..5] + r.value.rest
    ensures op == WithHeader && r.Ok? ==>
            HexDigit(input[3]).Ok? && HexDigit(input[4]).Ok?
            && r.value.header.asChar / 16 == HexDigit(input[3]).value
            && r.value.header.Version() == HexDigit(input[4]).value
  {
    if op == WithoutHeader then Ok(Parsed(header, input))
    else if |input| < FullHeaderSize(Text) then Err(EmptyArchive)
    else if input[..3] != YasId then Err(BadArchiveInformation)
    else
      match HexDigit(input[3])
      case Err(e) => Err(e)
      case Ok(hi) =>
        match HexDigit(input[4])
        case Err(e) => Err(e)
        case Ok(lo) => Ok(Parsed(ArchiveHeader(hi * 16 + lo), input[5..]))
  }

  function TextWrite(op: HeaderOp, at: ArchiveType, p: Platform): (w: seq<byte>)
    ensures op == WithoutHeader ==> w == []
    ensures op == WithHeader ==>
            |w| == 6 && w[..3] == YasId && w[3] in HexDigits && w[4] in HexDigits && w[5] == Space
  {
    if op == WithoutHeader then []
    else
      var c := WrittenHeader(at, p).asChar;
      YasId + [HexAlpha[c / 16], HexAlpha[c % 16], Space]
  }

  /** The outcomes of a text read with a header, in the order the code
      checks them: length, magic, first digit, second digit. Upper-case
      digits only: any other byte, lower-case included, is rejected. */
  lemma TextReadOutcomes(input: seq<byte>, header: ArchiveHeader)
    ensures TextRead(input, WithHeader, header) == Err(EmptyArchive) <==> |input| < 5
    ensures TextRead(input, WithHeader, header) == Err(BadArchiveInformation)
            <==> |input| >= 5 && input[..3] != YasId
    ensures TextRead(input, WithHeader, header) == Err(NotAHexDigit)
            <==> |input| >= 5 && input[..3] == YasId && (input[3] !in HexDigits || input[4] !in HexDigits)
    ensures TextRead(input, WithHeader, header).Ok?
            <==> |input| >= 5 && input[..3] == YasId && input[3] in HexDigits && input[4] in HexDigits
  {
  }

  /** A successful text read stores `idx(a) * 16 + idx(b)`. */
  lemma TextReadValue(input: seq<byte>, header: ArchiveHeader)
    ensures TextRead(input, WithHeader, header).Ok? ==>
            TextRead(input, WithHeader, header).value.header.asChar
            == HexDigit(input[3]).value * 16 + HexDigit(input[4]).value
  {
  }

  /** Reading the first five bytes the text writer wrote yields the
      written header; the trailing space is left in the stream. */
  lemma TextRoundTrip(at: ArchiveType, p: Platform, header: ArchiveHeader, tail: seq<byte>)
    ensures TextRead(TextWrite(WithHeader, at, p) + tail, WithHeader, header)
            == Ok(Parsed(WrittenHeader(at, p), [Space] + tail))
  {
    TextRoundTripOf(WrittenHeader(at, p), tail, header);
  }

  /** The text encoding of any header byte decodes to that byte. */
  lemma TextRoundTripOf(h: ArchiveHeader, tail: seq<byte>, header: ArchiveHeader)
    ensures TextRead(YasId + [HexAlpha[h.asChar / 16], HexAlpha[h.asChar % 16], Space] + tail, WithHeader, header)
            == Ok(Parsed(h, [Space] + tail))
  {
    var c := h.asChar;
    var hi, lo := c / 16, c % 16;
    assert hi * 16 + lo == c;
    var input := YasId + [HexAlpha[hi], HexAlpha[lo], Space] + tail;
    assert input[..3] == YasId && input[3] == HexAlpha[hi] && input[4] == HexAlpha[lo];
    assert input[5..] == [Space] + tail;
    assert ArchiveHeader(hi * 16 + lo) == h;
    TextReadDigits(input, hi, lo, header);
    assert TextRead(input, WithHeader, header) == Ok(Parsed(h, [Space] + tail));
  }

  /** The text reader decodes two digits of the alphabet after the magic
      to the byte with those nibbles. */
  lemma TextReadDigits(input: seq<byte>, hi: byte, lo: byte, header: ArchiveHeader)
    requires hi < 16 && lo < 16
    requires |input| >= 5 && input[..3] == YasId && input[3] == HexAlpha[hi] && input[4] == HexAlpha[lo]
    ensures TextRead(input, WithHeader, header) == Ok(Parsed(ArchiveHeader(hi * 16 + lo), input[5..]))
  {
    HexDigitOfAlpha(hi);
    HexDigitOfAlpha(lo);
    assert !(|input| < FullHeaderSize(Text)) && !(input[..3] != YasId);
    var r := TextRead(input, WithHeader, header);
    assert r.Ok? && r.value.rest == input[5..];
    assert r.value.header == ArchiveHeader(hi * 16 + lo);
  }

  // ---------------------------------------------------------------------
  // Json codec: no header on the wire.
  // ---------------------------------------------------------------------

  function JsonRead(input: seq<byte>, op: HeaderOp, header: ArchiveHeader): (r: Result<Parsed>)
    ensures r == Ok(Parsed(header, input))
  {
    Ok(Parsed(header, input))
  }

  function JsonWrite(op: HeaderOp, at: ArchiveType, p: Platform): (w: seq<byte>)
    ensures w == []
  {
    []
  }

  // ---------------------------------------------------------------------
  // Dispatch on the codec's own format.
  // ---------------------------------------------------------------------

  /** `header_reader_writer<fmt>::read`, chosen by the view's format. Only
      binary and text can fail, and only when a header is expected; each
      success with a header consumes exactly `full_header_size` bytes. */
  function Read(fmt: ArchiveType, input: seq<byte>, op: HeaderOp, header: ArchiveHeader): (r: Result<Parsed>)
    ensures op == WithoutHeader || fmt == Json ==> r == Ok(Parsed(header, input))
    ensures r.Err? ==> op == WithHeader && fmt != Json
    ensures op == WithHeader && fmt != Json && r.Ok? ==>
            |input| >= FullHeaderSize(fmt) && input == input[..FullHeaderSize(fmt)] + r.value.rest
  {
    match fmt
    case Binary => BinaryRead(input, op, header)
    case Text => TextRead(input, op, header)
    case Json => JsonRead(input, op, header)
  }

  /** `header_reader_writer<fmt>::write`, chosen by the view's format:
      nothing for json or under `no_header`, otherwise the magic followed
      by the header in the codec's own encoding. */
  function Write(fmt: ArchiveType, op: HeaderOp, at: ArchiveType, p: Platform): (w: seq<byte>)
    ensures op == WithoutHeader || fmt == Json ==> w == []
    ensures op == WithHeader && fmt == Binary ==> |w| == FullHeaderSize(fmt) && w[..3] == YasId
    ensures op == WithHeader && fmt == Text ==> |w| == FullHeaderSize(fmt) + 1 && w[..3] == YasId
  {
    match fmt
    case Binary => BinaryWrite(op, at, p)
    case Text => TextWrite(op, at, p)
    case Json => JsonWrite(op, at, p)
  }

  /** `full_header_size` is what a successful read with a header consumes
      for binary and text; json consumes nothing although its size is 17.
      The text writer emits one byte more than the size. */
  lemma HeaderSizeConsumed(fmt: ArchiveType, input: seq<byte>, header: ArchiveHeader, p: Platform)
    requires Read(fmt, input, WithHeader, header).Ok?
    ensures fmt != Json ==>
            |input| - |Read(fmt, input, WithHeader, header).value.rest| == FullHeaderSize(fmt)
    ensures fmt == Json ==> Read(fmt, input, WithHeader, header).value.rest == input && FullHeaderSize(fmt) == 17
    ensures |Write(fmt, WithHeader, fmt, p)| == if fmt == Text then FullHeaderSize(fmt) + 1
                                                 else if fmt == Binary then FullHeaderSize(fmt) else 0
  {
  }

  /** Under `no_header` no codec consumes or produces anything, and the
      header is left as it was. */
  lemma NoHeaderIsNoOp(fmt: ArchiveType, input: seq<byte>, header: ArchiveHeader, at: ArchiveType, p: Platform)
    ensures Read(fmt, input, WithoutHeader, header) == Ok(Parsed(header, input))
    ensures Write(fmt, WithoutHeader, at, p) == []
  {
  }

  /** A write followed by a read round-trips for binary and text: the
      header comes back, and so does everything after it except the text
      codec's trailing space, which stays in the stream. */
  lemma RoundTrip(fmt: ArchiveType, p: Platform, header: ArchiveHeader, tail: seq<byte>)
    requires fmt != Json
    ensures Read(fmt, Write(fmt, WithHeader, fmt, p) + tail, WithHeader, header).Ok?
    ensures Read(fmt, Write(fmt, WithHeader, fmt, p) + tail, WithHeader, header).value.header
            == WrittenHeader(fmt, p)
    ensures Read(fmt, Write(fmt, WithHeader, fmt, p) + tail, WithHeader, header).value.rest
            == if fmt == Text then [Space] + tail else tail
  {
    if fmt == Binary {
      BinaryRoundTrip(fmt, p, header, tail);
    } else {
      TextRoundTrip(fmt, p, header, tail);
    }
  }

  /** The decoded fields are the platform's when its version fits in the
      four-bit field. */
  lemma DecodedFields(at: ArchiveType, p: Platform)
    requires p.archiveVersion < 16
    ensures WrittenHeader(at, p).Version() == p.archiveVersion
    ensures WrittenHeader(at, p).Type() == TypeCode(at)
    ensures WrittenHeader(at, p).Bits() == if p.is64 then 1 else 0
  {
  }

  // ---------------------------------------------------------------------
  // Worked examples.
  // ---------------------------------------------------------------------

  /** Binary, version 3, 64-bit: bits 0-3 = 3, bits 4-6 = 0, bit 7 = 1. */
  lemma BinaryExample()
    ensures BinaryWrite(WithHeader, Binary, Platform(3, true)) == [0x79, 0x61, 0x73, 0x83]
    ensures BinaryRead([0x79, 0x61, 0x73, 0x83], WithHeader, Zero())
            == Ok(Parsed(ArchiveHeader(0x83), []))
    ensures ArchiveHeader(0x83).Version() == 3 && ArchiveHeader(0x83).Bits() == 1
    ensures BinaryRead([0x79, 0x61], WithHeader, Zero()) == Err(EmptyArchive)
    ensures BinaryRead([0x78, 0x79, 0x7A, 0], WithHeader, Zero()) == Err(BadArchiveInformation)
  {
    assert [0x79, 0x61, 0x73, 0x83][..3] == YasId;
    var foreign: seq<byte> := [0x78, 0x79, 0x7A, 0];
    assert foreign[..3][0] != YasId[0];
  }

  /** Text, version 1, type text, 32-bit: the header byte is 0x11,
      written "yas11 " and read back from "yas11". */
  lemma TextExample()
    ensures TextWrite(WithHeader, Text, Platform(1, false))
            == [0x79, 0x61, 0x73, 0x31, 0x31, 0x20]
    ensures TextRead([0x79, 0x61, 0x73, 0x31, 0x31], WithHeader, Zero())
            == Ok(Parsed(ArchiveHeader(0x11), []))
  {
  }

  /** 'G' and the lower-case 'a' are not hex digits. */
  lemma TextRejectExample()
    ensures TextRead([0x79, 0x61, 0x73, 0x47, 0x30], WithHeader, Zero()) == Err(NotAHexDigit)
    ensures TextRead([0x79, 0x61, 0x73, 0x30, 0x61], WithHeader, Zero()) == Err(NotAHexDigit)
  {
    HexDigitsRanges();
    var g: seq<byte> := [0x79, 0x61, 0x73, 0x47, 0x30];
    assert g[..3] == YasId;
    assert 0x47 !in HexDigits;
    var lower: seq<byte> := [0x79, 0x61, 0x73, 0x30, 0x61];
    assert lower[..3] == YasId;
    assert 0x61 !in HexDigits;
  }
}
