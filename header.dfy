/** The one-byte archive header (union `archive_header`).

    The C++ union overlays three bit-fields on one `char`. Bit-field
    allocation order is implementation-defined in C++; this model fixes the
    LSB-first layout used by the common ABIs:

      bit 7     bits 4-6        bits 0-3
      [ bits ] [   type   ] [  version  ]

    A byte is its unsigned value 0..255, and the shifts and masks of the
    bit-fields are written as division and remainder by powers of two
    (`c >> 4` is `c / 16`, `c & 15` is `c % 16`, `x << 4` is `x * 16`).
    The header IS its byte: `asChar` is the whole state and the three
    fields are views of it. */
module ArchiveHeaders {

  type byte = x: int | 0 <= x < 256

  datatype ArchiveHeader = ArchiveHeader(asChar: byte)
  {
    /** `bits.version`, 4 bits; 0 is the "no header" sentinel. */
    function Version(): (v: byte)
      ensures v < 16
    {
      asChar % 16
    }

    /** `bits.type`, 3 bits: the archive type code. */
    function Type(): (t: byte)
      ensures t < 8
    {
      (asChar / 16) % 8
    }

    /** `bits.bits`, 1 bit: 0 for 32-bit, 1 for 64-bit. */
    function Bits(): (b: byte)
      ensures b < 2
    {
      asChar / 128
    }
  }

  /** Default constructor: the all-zero byte, whose version is the
      sentinel. */
  function Zero(): (h: ArchiveHeader)
    ensures h.Version() == 0 && h.Type() == 0 && h.Bits() == 0
  {
    ArchiveHeader(0)
  }

  /** Constructor from a (version, type, bits) triple of `unsigned char`s:
      each value is truncated to the width of its bit-field, as assigning
      to a C++ bit-field does, and the three fields make up the whole
      byte. */
  function FromFields(v: byte, t: byte, b: byte): (h: ArchiveHeader)
    ensures h.Version() == v % 16
    ensures h.Type() == t % 8
    ensures h.Bits() == b % 2
  {
    ArchiveHeader(v % 16 + 16 * (t % 8) + 128 * (b % 2))
  }

  /** Every one of the 256 bytes unpacks and repacks to itself. */
  lemma Repack(h: ArchiveHeader)
    ensures FromFields(h.Version(), h.Type(), h.Bits()) == h
  {
    var c := h.asChar;
    var high := c / 16;
    var v, t, b := c % 16, high % 8, high / 8;
    assert c == 16 * high + v && 0 <= v < 16;
    assert high == 8 * b + t && 0 <= t < 8 && 0 <= b < 2;
    assert c == 128 * b + (16 * t + v) && 0 <= 16 * t + v < 128;
    assert h.Version() == v && h.Type() == t;
    assert h.Bits() == b;
    assert v % 16 == v && t % 8 == t && b % 2 == b;
    assert FromFields(v, t, b).asChar == v + 16 * t + 128 * b;
  }

  /** Packing in-range fields and unpacking returns the same fields. */
  lemma Unpack(v: byte, t: byte, b: byte)
    requires v < 16 && t < 8 && b < 2
    ensures FromFields(v, t, b).Version() == v
    ensures FromFields(v, t, b).Type() == t
    ensures FromFields(v, t, b).Bits() == b
  {
  }

  /** The packing is a bijection between in-range triples and headers, so
      16 * 8 * 2 = 256 headers fill exactly one byte: two in-range triples
      give the same header exactly when they are equal, and every header
      is the packing of an in-range triple, namely its own fields. */
  lemma PackBijective(v: byte, t: byte, b: byte, v': byte, t': byte, b': byte, h: ArchiveHeader)
    requires v < 16 && t < 8 && b < 2
    requires v' < 16 && t' < 8 && b' < 2
    ensures FromFields(v, t, b) == FromFields(v', t', b') <==> v == v' && t == t' && b == b'
    ensures h.Version() < 16 && h.Type() < 8 && h.Bits() < 2
    ensures FromFields(h.Version(), h.Type(), h.Bits()) == h
  {
    Unpack(v, t, b);
    Unpack(v', t', b');
    Repack(h);
  }
}
