/**
 A reference definition of the EOF container decoder, stated on the byte
 layout of the wire format rather than on a moving read cursor: every field
 is read at its fixed offset, and the first failing step of the parser
 decides which error comes back. The imperative parser in module EofParser
 is proved to compute exactly these functions.
 */
module EofSpec {
  import opened EofTypes

  /** The value of a little-endian two-byte field. */
  function LeU16(lo: u8, hi: u8): u16 {
    lo + 0x100 * hi
  }

  /** The first byte of a little-endian field is its low byte, the second its high byte. */
  lemma LeU16Bytes(lo: u8, hi: u8)
    ensures LeU16(lo, hi) % 0x100 == lo && LeU16(lo, hi) / 0x100 == hi
  {
  }

  /** What the header check admits: the magic, version 1 and 1..1024 code sections. */
  predicate ValidHeader(h: EofHeader) {
    && h.magic == EOF_MAGIC
    && h.version == 1
    && 1 <= h.numCodeSections <= MAX_CODE_SECTIONS
  }

  /** Number of bytes a successful decode of a container with header h consumes. */
  function Consumed(h: EofHeader): nat {
    HEADER_SIZE + h.typeSize + h.codeSize + h.containerSize + h.dataSize
  }

  /**
   What a successful decode guarantees of its result: a header that passed the
   checks, a non-empty types table with exactly one row per four bytes of
   `typeSize`, the scalar fields equal to row 0, and each raw section exactly
   as long as its header field declares.
   */
  predicate WellFormed(c: EofContainer) {
    var h, b := c.header, c.body;
    && ValidHeader(h)
    && |b.typesSection| > 0
    && h.typeSize == 4 * |b.typesSection|
    && b.inputs == b.typesSection[0].inputs
    && b.outputs == b.typesSection[0].outputs
    && b.maxStackHeight == b.typesSection[0].maxStackHeight
    && |b.codeSection| == h.codeSize
    && |b.containerSection| == h.containerSize
    && |b.dataSection| == h.dataSize
  }

  /** The header fields at their fixed offsets in the first 19 bytes of s. */
  function HeaderAt(s: seq<u8>): EofHeader
    requires HEADER_SIZE <= |s|
  {
    EofHeader(
      magic := s[..2],
      version := s[2],
      kindType := s[3],
      typeSize := LeU16(s[4], s[5]),
      kindCode := s[6],
      numCodeSections := LeU16(s[7], s[8]),
      codeSize := LeU16(s[9], s[10]),
      kindContainer := s[11],
      numContainerSections := LeU16(s[12], s[13]),
      containerSize := s[14],
      kindData := s[15],
      dataSize := LeU16(s[16], s[17]),
      terminator := s[18])
  }

  /**
   The header decoder on the bytes s of the source: reads stop at the first
   failure, so a short source gives IoError only if every field before the
   missing byte passed its check.
   */
  function DecodeHeader(s: seq<u8>): (r: Result<EofHeader>)
    ensures r.Ok? ==> ValidHeader(r.value) && HEADER_SIZE <= |s|
    ensures r.Ok? ==> r.value.magic == s[..2]
  {
    if |s| < 2 then Err(IoError)
    else if s[0] != EOF_MAGIC[0] || s[1] != EOF_MAGIC[1] then Err(InvalidMagic)
    else if |s| < 3 then Err(IoError)
    else if s[2] != 1 then Err(InvalidVersion)
    else if |s| < 9 then Err(IoError)
    else if LeU16(s[7], s[8]) == 0 || LeU16(s[7], s[8]) > MAX_CODE_SECTIONS then Err(InvalidCodeSectionCount)
    else if |s| < HEADER_SIZE then Err(IoError)
    else Ok(HeaderAt(s))
  }

  /** Row i of a types table laid out back to back from the start of s. */
  function RowAt(s: seq<u8>, i: nat): TypeMetadata
    requires 4 * i + 4 <= |s|
  {
    var o := 4 * i;
    TypeMetadata(s[o], s[o + 1], LeU16(s[o + 2], s[o + 3]))
  }

  /** The first k rows of a types table laid out from the start of s. */
  function Rows(s: seq<u8>, k: nat): seq<TypeMetadata>
    requires 4 * k <= |s|
  {
    seq(k, i requires 0 <= i < k => RowAt(s, i))
  }

  /**
   The types-table decoder on the bytes s that follow the header. The parser
   reads all typeSize / 4 whole records before it notices a misaligned tail,
   so a short source wins over a misaligned size, which wins over an empty
   table.
   */
  function DecodeTypes(s: seq<u8>, typeSize: nat): (r: Result<seq<TypeMetadata>>)
    ensures r.Ok? ==> |r.value| > 0 && typeSize == 4 * |r.value| <= |s|
  {
    var k := typeSize / 4;
    if |s| < 4 * k then Err(IoError)
    else if typeSize % 4 != 0 then Err(InvalidTypeSectionSize)
    else if k == 0 then Err(InvalidZeroSectionMetadata)
    else Ok(Rows(s, k))
  }

  /**
   The body decoder on the bytes s that follow the header: the types table,
   then the code, container and data sections, each of exactly the length its
   header field gives.
   */
  function DecodeBody(s: seq<u8>, h: EofHeader): (r: Result<Body>)
    ensures r.Ok? ==> Consumed(h) - HEADER_SIZE <= |s|
  {
    var types :- DecodeTypes(s, h.typeSize);
    var codeStart := h.typeSize;
    var containerStart := codeStart + h.codeSize;
    var dataStart := containerStart + h.containerSize;
    var end := dataStart + h.dataSize;
    if |s| < end then Err(IoError)
    else
      Ok(Body(
           typesSection := types,
           inputs := types[0].inputs,
           outputs := types[0].outputs,
           maxStackHeight := types[0].maxStackHeight,
           codeSection := s[codeStart..containerStart],
           containerSection := s[containerStart..dataStart],
           dataSection := s[dataStart..end]))
  }

  /** What a successful body decode returns, field by field, in terms of the bytes it read. */
  lemma DecodeBodyOk(s: seq<u8>, h: EofHeader)
    requires DecodeBody(s, h).Ok?
    ensures var b, k := DecodeBody(s, h).value, |DecodeBody(s, h).value.typesSection|;
      && h.typeSize == 4 * k
      && Consumed(h) - HEADER_SIZE <= |s|
      && b.typesSection == Rows(s, k)
      && b.codeSection == s[h.typeSize..h.typeSize + h.codeSize]
      && b.containerSection == s[h.typeSize + h.codeSize..h.typeSize + h.codeSize + h.containerSize]
      && b.dataSection == s[h.typeSize + h.codeSize + h.containerSize..Consumed(h) - HEADER_SIZE]
  {
  }

  /** The whole decoder: the header, then the body from the bytes after it. */
  function Decode(s: seq<u8>): (r: Result<EofContainer>)
    ensures r.Ok? ==> WellFormed(r.value) && Consumed(r.value.header) <= |s|
  {
    var header :- DecodeHeader(s);
    var body :- DecodeBody(s[HEADER_SIZE..], header);
    Ok(EofContainer(header, body))
  }

  /** A slice of a suffix of d is the slice of d shifted by the suffix's start. */
  lemma SliceOfSuffix(d: seq<u8>, start: nat, i: nat, j: nat)
    requires i <= j && start + j <= |d|
    ensures d[start..][i..j] == d[start + i..start + j]
  {
  }

  /** The first j bytes of s are its first i bytes followed by bytes i..j. */
  lemma PrefixSplit(s: seq<u8>, i: nat, j: nat)
    requires i <= j <= |s|
    ensures s[..j] == s[..i] + s[i..j]
  {
  }

  /** Four consecutive slices of s from its start put back together. */
  lemma ConcatSlices(s: seq<u8>, a: nat, b: nat, c: nat, d: nat)
    requires a <= b <= c <= d <= |s|
    ensures s[..a] + s[a..b] + s[b..c] + s[c..d] == s[..d]
  {
    PrefixSplit(s, a, b);
    PrefixSplit(s, b, c);
    PrefixSplit(s, c, d);
  }

  /** The pieces of r + x + y + z + t found back at their offsets. */
  lemma SlicesOfConcat(r: seq<u8>, x: seq<u8>, y: seq<u8>, z: seq<u8>, t: seq<u8>)
    ensures var s, i := r + x + y + z + t, |r|;
      && s == r + (x + y + z + t)
      && s[i..i + |x|] == x
      && s[i + |x|..i + |x| + |y|] == y
      && s[i + |x| + |y|..i + |x| + |y| + |z|] == z
  {
    var s, i := r + x + y + z + t, |r|;
    assert s == r + (x + y + z + t);
    assert s[i..i + |x|] == x;
    assert s[i + |x|..i + |x| + |y|] == y;
    assert s[i + |x| + |y|..i + |x| + |y| + |z|] == z;
  }

  /** Appending t to s appends it to what follows the first n bytes of s. */
  lemma AppendAfterPrefix(s: seq<u8>, n: nat, t: seq<u8>)
    requires n <= |s|
    ensures s + t == s[..n] + (s[n..] + t)
  {
    assert s == s[..n] + s[n..];
  }
}
