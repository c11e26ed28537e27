/**
 What the decoder promises about each failure kind, about short inputs and
 about the two inputs its own tests use, proved on the reference decoder.
 */
module EofProperties {
  import opened EofTypes
  import opened EofSpec

  /** A bad magic is reported from the first two bytes alone: nothing after them matters. */
  lemma BadMagicRejected(m: seq<u8>, t: seq<u8>)
    requires |m| == 2 && m != EOF_MAGIC
    ensures Decode(m + t) == Err(InvalidMagic)
  {
    assert (m + t)[..2] == m;
  }

  /** Behind a good magic, a version other than 1 is reported whatever follows it. */
  lemma BadVersionRejected(p: seq<u8>, t: seq<u8>)
    requires |p| == 3 && p[..2] == EOF_MAGIC && p[2] != 1
    ensures Decode(p + t) == Err(InvalidVersion)
  {
    assert (p + t)[..2] == p[..2];
  }

  /**
   Behind a good magic and version, a code-section count of 0 or above 1024
   in bytes 7 and 8 is reported whatever the later fields hold.
   */
  lemma BadCodeSectionCountRejected(p: seq<u8>, t: seq<u8>)
    requires |p| == 9 && p[..2] == EOF_MAGIC && p[2] == 1
    requires LeU16(p[7], p[8]) == 0 || LeU16(p[7], p[8]) > MAX_CODE_SECTIONS
    ensures Decode(p + t) == Err(InvalidCodeSectionCount)
  {
    assert (p + t)[..2] == p[..2];
  }

  /** With all whole records present, a type size that is not a multiple of 4 is reported. */
  lemma MisalignedTypeSizeRejected(s: seq<u8>)
    requires DecodeHeader(s).Ok?
    requires DecodeHeader(s).value.typeSize % 4 != 0
    requires HEADER_SIZE + 4 * (DecodeHeader(s).value.typeSize / 4) <= |s|
    ensures Decode(s) == Err(InvalidTypeSectionSize)
  {
  }

  /** A type size of 0 is reported as missing metadata for code section 0. */
  lemma ZeroTypeSizeRejected(s: seq<u8>)
    requires DecodeHeader(s).Ok? && DecodeHeader(s).value.typeSize == 0
    ensures Decode(s) == Err(InvalidZeroSectionMetadata)
  {
  }

  /** Rows read from a prefix that holds them equal the rows read from the whole input. */
  lemma RowsOfPrefix(s: seq<u8>, m: nat, k: nat)
    requires 4 * k <= m <= |s|
    ensures Rows(s[..m], k) == Rows(s, k)
  {
    var a, b := Rows(s[..m], k), Rows(s, k);
    forall i | 0 <= i < k ensures a[i] == b[i] {
      var o := 4 * i;
      assert o + 4 <= m;
    }
  }

  /** The body read from a prefix of its bytes that is too short fails with IoError. */
  lemma TruncatedBodyIsIoError(s: seq<u8>, h: EofHeader, n: nat)
    requires DecodeBody(s, h).Ok? && n < Consumed(h) - HEADER_SIZE
    ensures DecodeBody(s[..n], h) == Err(IoError)
  {
    var u := s[..n];
    var k := h.typeSize / 4;
    if 4 * k <= n {
      RowsOfPrefix(s, n, k);
    }
  }

  /** The header read from a prefix that is too short fails with IoError. */
  lemma TruncatedHeaderIsIoError(s: seq<u8>, n: nat)
    requires DecodeHeader(s).Ok? && n < HEADER_SIZE
    ensures DecodeHeader(s[..n]) == Err(IoError)
  {
    var u := s[..n];
    if 2 <= n {
      assert u[..2] == s[..2];
    }
  }

  /**
   An input that stops before the end of the sections its header declares is
   rejected with IoError, never decoded to a truncated result.
   */
  lemma TruncatedIsIoError(s: seq<u8>, n: nat)
    requires Decode(s).Ok? && n < Consumed(Decode(s).value.header)
    ensures Decode(s[..n]) == Err(IoError)
  {
    var h := Decode(s).value.header;
    var u := s[..n];
    if n < HEADER_SIZE {
      TruncatedHeaderIsIoError(s, n);
    } else {
      assert u[..HEADER_SIZE] == s[..HEADER_SIZE];
      assert DecodeHeader(u) == DecodeHeader(s);
      assert u[HEADER_SIZE..] == s[HEADER_SIZE..][..n - HEADER_SIZE];
      TruncatedBodyIsIoError(s[HEADER_SIZE..], h, n - HEADER_SIZE);
    }
  }

  /** The valid container of the parser's own test: one type row and ten bytes of code. */
  const MOCK_EOF: seq<u8> := [
    0xEF, 0x00, 0x01, 0x01, 0x04, 0x00, 0x02, 0x01, 0x00, 0x0A, 0x00,
    0x03, 0x00, 0x00, 0x00, 0x04, 0x00, 0x00, 0x00,
    0x00, 0x01, 0x02, 0x00,
    0x60, 0x00, 0x60, 0x00, 0x60, 0x00, 0x60, 0x00, 0x60, 0x00]

  /** The header of MOCK_EOF: four bytes of types, one code section of ten bytes, nothing else. */
  const MOCK_HEADER: EofHeader := EofHeader([0xEF, 0x00], 1, 1, 4, 2, 1, 10, 3, 0, 0, 4, 0, 0)

  /** The ten code bytes of MOCK_EOF: five times PUSH1 0. */
  const MOCK_CODE: seq<u8> := [0x60, 0x00, 0x60, 0x00, 0x60, 0x00, 0x60, 0x00, 0x60, 0x00]

  /**
   What MOCK_EOF decodes to. The code reads its single row 00 01 02 00 as
   inputs 0, outputs 1 and max stack height 2.
   */
  const MOCK_CONTAINER: EofContainer :=
    EofContainer(MOCK_HEADER, Body([TypeMetadata(0, 1, 2)], 0, 1, 2, MOCK_CODE, [], []))

  lemma MockMagic()
    ensures MOCK_EOF[..2] == EOF_MAGIC
  {
  }

  lemma MockHeaderFields()
    ensures HeaderAt(MOCK_EOF) == MOCK_HEADER
  {
    MockMagic();
  }

  lemma MockHeaderDecodes()
    ensures DecodeHeader(MOCK_EOF) == Ok(MOCK_HEADER)
  {
    MockMagic();
    MockHeaderFields();
  }

  lemma MockTypesDecode()
    ensures DecodeTypes(MOCK_EOF[HEADER_SIZE..], 4) == Ok([TypeMetadata(0, 1, 2)])
  {
    var rest := MOCK_EOF[HEADER_SIZE..];
    assert rest[..4] == [0x00, 0x01, 0x02, 0x00];
    assert RowAt(rest, 0) == TypeMetadata(0, 1, 2);
    assert Rows(rest, 1) == [RowAt(rest, 0)];
  }

  lemma MockBodyDecodes()
    ensures DecodeBody(MOCK_EOF[HEADER_SIZE..], MOCK_HEADER) == Ok(MOCK_CONTAINER.body)
  {
    MockTypesDecode();
    assert MOCK_EOF[HEADER_SIZE..][4..14] == MOCK_CODE;
  }

  /** The parser's first test: MOCK_EOF decodes, with version 1, ten bytes of code and the row (0, 1, 2). */
  lemma MockDecodes()
    ensures Decode(MOCK_EOF) == Ok(MOCK_CONTAINER)
  {
    MockHeaderDecodes();
    MockBodyDecodes();
  }

  lemma ZeroMagicRejected()
    ensures Decode([0x00, 0x00]) == Err(InvalidMagic)
  {
    assert [0x00, 0x00] != EOF_MAGIC;
  }
}
