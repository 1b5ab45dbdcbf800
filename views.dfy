/** The per-(format, direction) views (`archive_information<fmt, in|out>`).

    The C++ generates one input and one output specialisation per archive
    type; here each direction is one class whose archive type is a
    constant field fixed at construction, so an input view has no write
    operation and an output view no read operation. */
module ArchiveInformation {
  import opened ArchiveHeaders
  import opened HeaderCodec

  /** The input view: owns the header read from the archive. */
  class InputView {
    const format: ArchiveType
    var header: ArchiveHeader

    /** The header starts zeroed: the "no header" sentinel. */
    constructor (format: ArchiveType)
      ensures this.format == format
      ensures header == Zero()
    {
      this.format := format;
      header := Zero();
    }

    /** `header_size()`: the `full_header_size` of this view's codec. */
    function HeaderSize(): (n: nat)
      ensures format == Binary ==> n == 4
      ensures format == Text ==> n == 5
      ensures format == Json ==> n == 17
    {
      FullHeaderSize(format)
    }

    /** `bits()`: the word width recorded in the header, or `no_header`
        while the version field holds the sentinel. */
    function Bits(): (r: Result<int>)
      reads this
      ensures r.Ok? <==> header.Version() != 0
      ensures r.Err? ==> r.error == NoHeader
      ensures r.Ok? ==> (r.value == 64 <==> header.Bits() == 1) && (r.value == 32 || r.value == 64)
    {
      if header.Version() != 0 then Ok(if header.Bits() != 0 then 64 else 32)
      else Err(NoHeader)
    }

    /** `version()`: the version recorded in the header, or `no_header`
        while it is the sentinel 0. */
    function Version(): (r: Result<int>)
      reads this
      ensures r.Ok? <==> header.Version() != 0
      ensures r.Err? ==> r.error == NoHeader
      ensures r.Ok? ==> 1 <= r.value < 16 && r.value == header.asChar % 16
    {
      if header.Version() != 0 then Ok(header.Version()) else Err(NoHeader)
    }

    /** `init_header`: runs the codec of this view's archive type on the
        input. On success the header is the one read and the result is the
        input left unread; on failure the header is unchanged and the
        result is the codec's error. */
    method InitHeader(input: seq<byte>, op: HeaderOp) returns (r: Result<seq<byte>>)
      modifies this
      ensures r.Ok? <==> Read(format, input, op, old(header)).Ok?
      ensures r.Ok? ==> header == Read(format, input, op, old(header)).value.header
                        && r.value == Read(format, input, op, old(header)).value.rest
      ensures r.Err? ==> header == old(header) && r.error == Read(format, input, op, old(header)).error
      ensures r.Ok? && op == WithHeader && format != Json ==> |input| == HeaderSize() + |r.value|
      ensures op == WithoutHeader || format == Json ==> r == Ok(input) && header == old(header)
    {
      var parsed := Read(format, input, op, header);
      match parsed
      case Ok(p) =>
        header := p.header;
        r := Ok(p.rest);
      case Err(e) =>
        r := Err(e);
    }
  }

  /** The output view: stateless, it reports the platform's constants. */
  class OutputView {
    const format: ArchiveType
    const platform: Platform

    constructor (format: ArchiveType, platform: Platform)
      ensures this.format == format && this.platform == platform
    {
      this.format := format;
      this.platform := platform;
    }

    /** `header_size()`: the `full_header_size` of this view's codec. */
    function HeaderSize(): (n: nat)
      ensures format == Binary ==> n == 4
      ensures format == Text ==> n == 5
      ensures format == Json ==> n == 17
    {
      FullHeaderSize(format)
    }

    /** `bits()`: `YAS_PLATFORM_BITS()`, never failing, and in agreement
        with the word-width flag of the header this view writes. */
    function Bits(): (r: int)
      ensures r == 32 || r == 64
      ensures r == 64 <==> WrittenHeader(format, platform).Bits() == 1
    {
      if platform.is64 then 64 else 32
    }

    /** `version()`: `archive_version`, never failing; its low four bits
        are the version field of the header this view writes. */
    function Version(): (r: int)
      ensures r == platform.archiveVersion
      ensures 0 <= r < 256
      ensures r % 16 == WrittenHeader(format, platform).Version()
    {
      platform.archiveVersion
    }

    /** `init_header`: appends to the output what the codec of this view's
        archive type writes for a header of that type. */
    method InitHeader(output: seq<byte>, op: HeaderOp) returns (output': seq<byte>)
      ensures output' == output + Write(format, op, format, platform)
      ensures op == WithoutHeader || format == Json ==> output' == output
      ensures op == WithHeader && format == Binary ==> |output'| == |output| + HeaderSize()
      ensures op == WithHeader && format == Text ==> |output'| == |output| + HeaderSize() + 1
    {
      output' := output + Write(format, op, format, platform);
    }
  }

  /** What an input view reports once an output view's header has been
      read back. For binary and text the reader gets the writer's version
      nibble and word width, except that a version whose low four bits are
      0 reads back as the sentinel, so both accessors then fail. Json
      carries no header, so the reader always answers `no_header`. The
      bytes after the header are left for the archive body. */
  method WriteThenRead(fmt: ArchiveType, p: Platform, tail: seq<byte>)
    returns (rest: Result<seq<byte>>, version: Result<int>, bits: Result<int>)
    ensures rest == Ok(if fmt == Text then [Space] + tail else tail)
    ensures fmt != Json && p.archiveVersion % 16 != 0 ==>
            version == Ok(p.archiveVersion % 16) && bits == Ok(if p.is64 then 64 else 32)
    ensures fmt == Json || p.archiveVersion % 16 == 0 ==>
            version == Err(NoHeader) && bits == Err(NoHeader)
  {
    var writer := new OutputView(fmt, p);
    var bytes := writer.InitHeader([], WithHeader);
    var reader := new InputView(fmt);
    assert bytes == Write(fmt, WithHeader, fmt, p);
    if fmt != Json {
      RoundTrip(fmt, p, Zero(), tail);
    } else {
      assert bytes + tail == tail;
    }
    rest := reader.InitHeader(bytes + tail, WithHeader);
    assert fmt != Json ==> reader.header == WrittenHeader(fmt, p);
    assert fmt == Json ==> reader.header == Zero();
    ghost var h := WrittenHeader(fmt, p);
    assert h.Version() == p.archiveVersion % 16 && (h.Bits() == 1 <==> p.is64);
    version := reader.Version();
    bits := reader.Bits();
  }

  /** A header is read, but its version nibble is 0: the view still
      answers `no_header`, exactly as before any read. */
  method ReadSentinelHeader(b: byte, tail: seq<byte>)
    returns (rest: Result<seq<byte>>, version: Result<int>, bits: Result<int>)
    requires b % 16 == 0
    ensures rest == Ok(tail)
    ensures version == Err(NoHeader) && bits == Err(NoHeader)
  {
    var reader := new InputView(Binary);
    var input := YasId + [b] + tail;
    assert input[..3] == YasId && input[3] == b && input[4..] == tail;
    rest := reader.InitHeader(input, WithHeader);
    version := reader.Version();
    bits := reader.Bits();
  }

  /** Under `no_header` the input view reads nothing and keeps its zeroed
      header, so `version()` and `bits()` fail for every archive type. */
  method SuppressedHeader(fmt: ArchiveType, input: seq<byte>)
    returns (rest: Result<seq<byte>>, version: Result<int>, bits: Result<int>)
    ensures rest == Ok(input)
    ensures version == Err(NoHeader) && bits == Err(NoHeader)
  {
    var reader := new InputView(fmt);
    rest := reader.InitHeader(input, WithoutHeader);
    version := reader.Version();
    bits := reader.Bits();
  }
}
