/**
 The parser itself: a byte source with a forward-only read position, the
 three read primitives the decoder uses, and the decoder's steps as methods
 that advance the position as the source's reads do. Each step is proved to
 compute the matching function of module EofSpec on the bytes that remain.
 */
module EofParser {
  import opened EofTypes
  import opened EofSpec
  import EofProperties

  class Parser {
    /** The bytes the source delivers, from its start. */
    const data: seq<u8>
    /** How many of them have been read. */
    var pos: nat

    ghost predicate Valid()
      reads this
    {
      pos <= |data|
    }

    /** The bytes still to be read. */
    ghost function Remaining(): seq<u8>
      reads this
      requires Valid()
    {
      data[pos..]
    }

    constructor (data: seq<u8>)
      ensures Valid() && this.data == data && pos == 0
    {
      this.data := data;
      pos := 0;
    }

    /** Reads one byte, or fails with IoError at the end of the source. */
    method ReadU8() returns (r: Result<u8>)
      requires Valid()
      modifies this`pos
      ensures Valid()
      ensures r.Ok? <==> old(pos) < |data|
      ensures r.Ok? ==> r.value == data[old(pos)] && pos == old(pos) + 1
      ensures r.Err? ==> r.error == IoError && pos == old(pos)
    {
      if pos == |data| {
        return Err(IoError);
      }
      r := Ok(data[pos]);
      pos := pos + 1;
    }

    /** Reads a little-endian two-byte integer, or fails with IoError if fewer than two bytes remain. */
    method ReadU16LE() returns (r: Result<u16>)
      requires Valid()
      modifies this`pos
      ensures Valid()
      ensures r.Ok? <==> old(pos) + 2 <= |data|
      ensures r.Ok? ==> r.value == data[old(pos)] as int + 0x100 * data[old(pos) + 1] as int && pos == old(pos) + 2
      ensures r.Err? ==> r.error == IoError && pos == old(pos)
    {
      if pos + 2 > |data| {
        return Err(IoError);
      }
      r := Ok(LeU16(data[pos], data[pos + 1]));
      pos := pos + 2;
    }

    /**
     Fills buf with the next buf.Length bytes, or fails with IoError and
     leaves buf untouched if fewer remain.
     */
    method ReadExact(buf: array<u8>) returns (r: Result<()>)
      requires Valid()
      modifies this`pos, buf
      ensures Valid()
      ensures r.Ok? <==> old(pos) + buf.Length <= |data|
      ensures r.Ok? ==> buf[..] == data[old(pos)..old(pos) + buf.Length] && pos == old(pos) + buf.Length
      ensures r.Err? ==> r.error == IoError && pos == old(pos) && buf[..] == old(buf[..])
    {
      if pos + buf.Length > |data| {
        return Err(IoError);
      }
      var i := 0;
      while i < buf.Length
        invariant 0 <= i <= buf.Length
        invariant pos == old(pos)
        invariant buf[..i] == data[pos..pos + i]
      {
        buf[i] := data[pos + i];
        i := i + 1;
      }
      assert buf[..] == buf[..buf.Length];
      pos := pos + buf.Length;
      r := Ok(());
    }

    /** Reads the next size bytes into a zeroed buffer of that size. */
    method ReadSection(size: nat) returns (r: Result<seq<u8>>)
      requires Valid()
      modifies this`pos
      ensures Valid()
      ensures r.Ok? <==> old(pos) + size <= |data|
      ensures r.Ok? ==> r.value == data[old(pos)..old(pos) + size] && pos == old(pos) + size
      ensures r.Err? ==> r.error == IoError && pos == old(pos)
    {
      var buffer := new u8[size](_ => 0);
      var filled := ReadExact(buffer);
      if filled.Err? {
        return Err(filled.error);
      }
      r := Ok(buffer[..]);
    }

    /** Reads the 19-byte header, stopping at the first field that fails its check. */
    method ParseHeader() returns (r: Result<EofHeader>)
      requires Valid()
      modifies this`pos
      ensures Valid() && old(pos) <= pos
      ensures r == DecodeHeader(old(Remaining()))
      ensures r.Ok? ==> pos == old(pos) + HEADER_SIZE
      ensures r == Err(InvalidMagic) ==> pos == old(pos) + 2
    {
      ghost var s := Remaining();
      var magic := new u8[2](_ => 0);
      var readMagic := ReadExact(magic);
      if readMagic.Err? {
        return Err(readMagic.error);
      }
      assert magic[..] == s[..2];
      if magic[..] != EOF_MAGIC {
        return Err(InvalidMagic);
      }
      var version :- ReadU8();
      assert version == s[2];
      if version != 1 {
        return Err(InvalidVersion);
      }
      var kindType :- ReadU8();
      var typeSize :- ReadU16LE();
      var kindCode :- ReadU8();
      var numCodeSections :- ReadU16LE();
      assert kindType == s[3] && typeSize == LeU16(s[4], s[5]);
      assert kindCode == s[6] && numCodeSections == LeU16(s[7], s[8]);
      if numCodeSections == 0 || numCodeSections > MAX_CODE_SECTIONS {
        return Err(InvalidCodeSectionCount);
      }
      r := ReadUncheckedFields(magic[..], version, kindType, typeSize, kindCode, numCodeSections);
    }

    /**
     The second half of ParseHeader: reads the ten bytes of header fields after
     the code-section count, none of which is checked, and completes the header.
     */
    method ReadUncheckedFields(magic: seq<u8>, version: u8, kindType: u8, typeSize: u16, kindCode: u8, numCodeSections: u16)
      returns (r: Result<EofHeader>)
      requires Valid()
      modifies this`pos
      ensures Valid() && old(pos) <= pos
      ensures r.Err? ==> r.error == IoError && old(pos) + 10 > |data|
      ensures r.Ok? ==> old(pos) + 10 <= |data| && pos == old(pos) + 10
      ensures r.Ok? ==> r.value == EofHeader(magic, version, kindType, typeSize, kindCode, numCodeSections,
        LeU16(data[old(pos)], data[old(pos) + 1]), data[old(pos) + 2], LeU16(data[old(pos) + 3], data[old(pos) + 4]),
        data[old(pos) + 5], data[old(pos) + 6], LeU16(data[old(pos) + 7], data[old(pos) + 8]), data[old(pos) + 9])
    {
      var codeSize :- ReadU16LE();
      var kindContainer :- ReadU8();
      var numContainerSections :- ReadU16LE();
      var containerSize :- ReadU8();
      var kindData :- ReadU8();
      var dataSize :- ReadU16LE();
      var terminator :- ReadU8();
      r := Ok(EofHeader(
                magic := magic,
                version := version,
                kindType := kindType,
                typeSize := typeSize,
                kindCode := kindCode,
                numCodeSections := numCodeSections,
                codeSize := codeSize,
                kindContainer := kindContainer,
                numContainerSections := numContainerSections,
                containerSize := containerSize,
                kindData := kindData,
                dataSize := dataSize,
                terminator := terminator));
    }

    /**
     Reads 4-byte records while header.typeSize bytes remain to be read;
     a remainder below 4 is misaligned, and an empty table is rejected.
     */
    method ParseTypesSection(header: EofHeader) returns (r: Result<seq<TypeMetadata>>)
      requires Valid()
      modifies this`pos
      ensures Valid() && old(pos) <= pos
      ensures r == DecodeTypes(old(Remaining()), header.typeSize)
      ensures r.Ok? ==> pos == old(pos) + header.typeSize
    {
      ghost var s := Remaining();
      ghost var start := pos;
      var types: seq<TypeMetadata> := [];
      var remainingSize: nat := header.typeSize;
      while remainingSize > 0
        invariant Valid() && s == data[start..]
        invariant remainingSize + 4 * |types| == header.typeSize
        invariant pos == start + 4 * |types| <= |data|
        invariant types == Rows(s, |types|)
      {
        if remainingSize < 4 {
          return Err(InvalidTypeSectionSize);
        }
        var inputs :- ReadU8();
        var outputs :- ReadU8();
        var maxStackHeight :- ReadU16LE();
        ghost var k := |types|;
        types := types + [TypeMetadata(inputs, outputs, maxStackHeight)];
        assert types[k] == RowAt(s, k);
        remainingSize := remainingSize - 4;
      }
      if |types| == 0 {
        return Err(InvalidZeroSectionMetadata);
      }
      r := Ok(types);
    }

    /**
     Reads the types table, then the code, container and data sections, and
     copies row 0 of the table into the body's scalar fields.
     */
    method ParseBody(header: EofHeader) returns (r: Result<Body>)
      requires Valid()
      modifies this`pos
      ensures Valid() && old(pos) <= pos
      ensures r == DecodeBody(old(Remaining()), header)
      ensures r.Ok? ==> pos == old(pos) + Consumed(header) - HEADER_SIZE
    {
      ghost var s := Remaining();
      ghost var start := pos;
      var typesSection :- ParseTypesSection(header);
      var codeSection :- ReadSection(header.codeSize);
      var containerSection :- ReadSection(header.containerSize);
      var dataSection :- ReadSection(header.dataSize);
      ghost var codeStart := header.typeSize;
      ghost var containerStart := codeStart + header.codeSize;
      ghost var dataStart := containerStart + header.containerSize;
      SliceOfSuffix(data, start, codeStart, containerStart);
      SliceOfSuffix(data, start, containerStart, dataStart);
      SliceOfSuffix(data, start, dataStart, dataStart + header.dataSize);
      r := Ok(Body(
                typesSection := typesSection,
                inputs := typesSection[0].inputs,
                outputs := typesSection[0].outputs,
                maxStackHeight := typesSection[0].maxStackHeight,
                codeSection := codeSection,
                containerSection := containerSection,
                dataSection := dataSection));
    }

    /**
     Decodes one container from the current position: the header, then the
     body. On success exactly Consumed(header) bytes have been read; a bad
     magic is reported after reading two bytes.
     */
    method Parse() returns (r: Result<EofContainer>)
      requires Valid()
      modifies this`pos
      ensures Valid() && old(pos) <= pos
      ensures r == Decode(old(Remaining()))
      ensures r.Ok? ==> pos == old(pos) + Consumed(r.value.header)
      ensures r == Err(InvalidMagic) ==> pos == old(pos) + 2
    {
      ghost var s := Remaining();
      var header :- ParseHeader();
      assert Remaining() == s[HEADER_SIZE..];
      var body :- ParseBody(header);
      r := Ok(EofContainer(header, body));
    }
  }

  /** The parser's first test: the mock container decodes, with version 1 and ten bytes of code. */
  method ParseValidMock() returns (r: Result<EofContainer>)
    ensures r == Ok(EofProperties.MOCK_CONTAINER)
    ensures r.value.header.magic == [0xEF, 0x00] && r.value.header.version == 1
    ensures |r.value.body.codeSection| == 10
  {
    EofProperties.MockDecodes();
    var parser := new Parser(EofProperties.MOCK_EOF);
    r := parser.Parse();
  }

  /** The parser's second test: the input 00 00 is rejected with InvalidMagic. */
  method ParseZeroMagic() returns (r: Result<EofContainer>)
    ensures r == Err(InvalidMagic)
  {
    EofProperties.ZeroMagicRejected();
    var parser := new Parser([0x00, 0x00]);
    r := parser.Parse();
  }
}
