/**
 The wire layout written forwards: a reference encoder for EOF containers,
 and the two round trips that tie it to the decoder. Together they say that
 the decoder reads every field at its place in the layout, little-endian
 where the field is two bytes wide, and copies every section byte for byte.
 */
module EofEncoding {
  import opened EofTypes
  import opened EofSpec

  /** The two bytes of a little-endian u16, low byte first. */
  function EncodeU16(v: u16): (b: seq<u8>)
    ensures |b| == 2
  {
    [v % 0x100, v / 0x100]
  }

  /** The two bytes of an encoded u16 read back as that u16. */
  lemma DecodeEncodeU16(v: u16)
    ensures LeU16(EncodeU16(v)[0], EncodeU16(v)[1]) == v
  {
  }

  /** Two bytes read as a u16 encode back to themselves. */
  lemma EncodeDecodeU16(lo: u8, hi: u8)
    ensures EncodeU16(LeU16(lo, hi)) == [lo, hi]
  {
    LeU16Bytes(lo, hi);
  }

  function EncodeHeader(h: EofHeader): (b: seq<u8>)
    requires |h.magic| == 2
    ensures |b| == HEADER_SIZE
  {
    h.magic + [h.version, h.kindType] + EncodeU16(h.typeSize)
    + [h.kindCode] + EncodeU16(h.numCodeSections) + EncodeU16(h.codeSize)
    + [h.kindContainer] + EncodeU16(h.numContainerSections)
    + [h.containerSize, h.kindData] + EncodeU16(h.dataSize) + [h.terminator]
  }

  function EncodeRow(t: TypeMetadata): (b: seq<u8>)
    ensures |b| == 4
  {
    [t.inputs, t.outputs] + EncodeU16(t.maxStackHeight)
  }

  /** The types table: the rows back to back, in order. */
  function EncodeRows(rows: seq<TypeMetadata>): (b: seq<u8>)
    ensures |b| == 4 * |rows|
  {
    if rows == [] then []
    else EncodeRows(rows[..|rows| - 1]) + EncodeRow(rows[|rows| - 1])
  }

  /** The body: the types table, then the code, container and data sections. */
  function EncodeBody(b: Body): (r: seq<u8>)
    ensures |r| == 4 * |b.typesSection| + |b.codeSection| + |b.containerSection| + |b.dataSection|
  {
    EncodeRows(b.typesSection) + b.codeSection + b.containerSection + b.dataSection
  }

  function Encode(c: EofContainer): (b: seq<u8>)
    requires |c.header.magic| == 2
  {
    EncodeHeader(c.header) + EncodeBody(c.body)
  }

  lemma EncodedLength(c: EofContainer)
    requires WellFormed(c)
    ensures |Encode(c)| == Consumed(c.header)
  {
  }

  /** Row i of an encoded table, whatever follows it, decodes to rows[i]. */
  lemma {:induction false} RowAtEncodeRows(rows: seq<TypeMetadata>, t: seq<u8>, i: nat)
    requires i < |rows|
    ensures RowAt(EncodeRows(rows) + t, i) == rows[i]
  {
    var n := |rows| - 1;
    var init := rows[..n];
    assert EncodeRows(rows) + t == EncodeRows(init) + (EncodeRow(rows[n]) + t);
    if i < n {
      RowAtEncodeRows(init, EncodeRow(rows[n]) + t, i);
    } else {
      var b := EncodeRows(rows) + t;
      var o := 4 * i;
      assert |EncodeRows(init)| == o;
      assert b[o..o + 4] == EncodeRow(rows[n]);
      DecodeEncodeU16(rows[n].maxStackHeight);
    }
  }

  /** Decoding the rows of an encoded table gives the table back. */
  lemma RowsOfEncodeRows(rows: seq<TypeMetadata>, t: seq<u8>)
    ensures Rows(EncodeRows(rows) + t, |rows|) == rows
  {
    var r := Rows(EncodeRows(rows) + t, |rows|);
    forall i | 0 <= i < |rows| ensures r[i] == rows[i] {
      RowAtEncodeRows(rows, t, i);
    }
  }

  /** Encoding the first k decoded rows gives back the 4 * k bytes they came from. */
  lemma {:induction false} EncodeRowsOfRows(s: seq<u8>, k: nat)
    requires 4 * k <= |s|
    ensures EncodeRows(Rows(s, k)) == s[..4 * k]
  {
    if k > 0 {
      var rows := Rows(s, k);
      assert rows[..k - 1] == Rows(s, k - 1);
      EncodeRowsOfRows(s, k - 1);
      var o := 4 * (k - 1);
      EncodeDecodeU16(s[o + 2], s[o + 3]);
      assert EncodeRow(rows[k - 1]) == s[o..o + 4];
      assert s[..o + 4] == s[..o] + s[o..o + 4];
    }
  }

  /** The header of an encoded container, whatever follows it, decodes to itself. */
  lemma DecodeEncodeHeader(h: EofHeader, t: seq<u8>)
    requires ValidHeader(h)
    ensures DecodeHeader(EncodeHeader(h) + t) == Ok(h)
  {
    var s := EncodeHeader(h) + t;
    assert s[..2] == h.magic;
    DecodeEncodeU16(h.typeSize);
    DecodeEncodeU16(h.numCodeSections);
    DecodeEncodeU16(h.codeSize);
    DecodeEncodeU16(h.numContainerSections);
    DecodeEncodeU16(h.dataSize);
  }

  /** A non-empty encoded table, whatever follows it, decodes to itself. */
  lemma DecodeEncodeTypes(rows: seq<TypeMetadata>, t: seq<u8>)
    requires |rows| > 0
    ensures DecodeTypes(EncodeRows(rows) + t, 4 * |rows|) == Ok(rows)
  {
    var n := 4 * |rows|;
    assert n / 4 == |rows| && n % 4 == 0;
    RowsOfEncodeRows(rows, t);
  }

  /** The body of a well-formed container, whatever follows it, decodes to itself. */
  lemma DecodeEncodeBody(c: EofContainer, t: seq<u8>)
    requires WellFormed(c)
    ensures DecodeBody(EncodeBody(c.body) + t, c.header) == Ok(c.body)
  {
    var h, b := c.header, c.body;
    var rows := EncodeRows(b.typesSection);
    SlicesOfConcat(rows, b.codeSection, b.containerSection, b.dataSection, t);
    DecodeEncodeTypes(b.typesSection, b.codeSection + b.containerSection + b.dataSection + t);
  }

  /** Every well-formed container survives encoding then decoding, whatever follows it. */
  lemma DecodeEncode(c: EofContainer, t: seq<u8>)
    requires WellFormed(c)
    ensures Decode(Encode(c) + t) == Ok(c)
  {
    var s := Encode(c) + t;
    assert s == EncodeHeader(c.header) + (EncodeBody(c.body) + t);
    DecodeEncodeHeader(c.header, EncodeBody(c.body) + t);
    assert s[HEADER_SIZE..] == EncodeBody(c.body) + t;
    DecodeEncodeBody(c, t);
  }

  /** A decoded header encodes back to the 19 bytes it was read from. */
  lemma EncodeDecodeHeader(s: seq<u8>)
    requires DecodeHeader(s).Ok?
    ensures EncodeHeader(DecodeHeader(s).value) == s[..HEADER_SIZE]
  {
    EncodeDecodeU16(s[4], s[5]);
    EncodeDecodeU16(s[7], s[8]);
    EncodeDecodeU16(s[9], s[10]);
    EncodeDecodeU16(s[12], s[13]);
    EncodeDecodeU16(s[16], s[17]);
  }

  /** A decoded body encodes back to the bytes it was read from. */
  lemma EncodeDecodeBody(s: seq<u8>, h: EofHeader)
    requires DecodeBody(s, h).Ok?
    ensures EncodeBody(DecodeBody(s, h).value) == s[..Consumed(h) - HEADER_SIZE]
  {
    var b := DecodeBody(s, h).value;
    var codeStart := h.typeSize;
    var containerStart := codeStart + h.codeSize;
    var dataStart := containerStart + h.containerSize;
    var end := dataStart + h.dataSize;
    DecodeBodyOk(s, h);
    EncodeRowsOfRows(s, |b.typesSection|);
    ConcatSlices(s, codeStart, containerStart, dataStart, end);
  }

  /**
   A successful decode read exactly the bytes the encoder writes for its
   result: the header fields, the table rows and every section byte for byte.
   */
  lemma EncodeDecode(s: seq<u8>)
    requires Decode(s).Ok?
    ensures Encode(Decode(s).value) == s[..Consumed(Decode(s).value.header)]
  {
    var c := Decode(s).value;
    var rest := s[HEADER_SIZE..];
    EncodeDecodeHeader(s);
    EncodeDecodeBody(rest, c.header);
    var n := Consumed(c.header);
    PrefixSplit(s, HEADER_SIZE, n);
    SliceOfSuffix(s, HEADER_SIZE, 0, n - HEADER_SIZE);
    assert rest[..n - HEADER_SIZE] == s[HEADER_SIZE..n];
  }

  /** Bytes after the last section are never read: appending to a decodable input changes nothing. */
  lemma TrailingBytesIgnored(s: seq<u8>, t: seq<u8>)
    requires Decode(s).Ok?
    ensures Decode(s + t) == Decode(s)
  {
    var c := Decode(s).value;
    var n := Consumed(c.header);
    EncodeDecode(s);
    AppendAfterPrefix(s, n, t);
    DecodeEncode(c, s[n..] + t);
  }

  /** A decodable input starts with the encoding of its well-formed result. */
  lemma DecodedIsEncodedPrefix(s: seq<u8>)
    requires Decode(s).Ok?
    ensures WellFormed(Decode(s).value) && Encode(Decode(s).value) <= s
  {
    EncodeDecode(s);
  }

  /** An input that starts with the encoding of a well-formed container decodes to it. */
  lemma EncodedPrefixDecodes(c: EofContainer, s: seq<u8>)
    requires WellFormed(c) && Encode(c) <= s
    ensures Decode(s) == Ok(c)
  {
    var e := Encode(c);
    var rest := s[|e|..];
    assert s == e + rest;
    DecodeEncode(c, rest);
  }

  /** The decoder accepts exactly the inputs that start with the encoding of a well-formed container. */
  lemma DecodeSucceedsIff(s: seq<u8>)
    ensures Decode(s).Ok? <==> exists c :: WellFormed(c) && Encode(c) <= s
  {
    if Decode(s).Ok? {
      DecodedIsEncodedPrefix(s);
    }
    if exists c :: WellFormed(c) && Encode(c) <= s {
      var c :| WellFormed(c) && Encode(c) <= s;
      EncodedPrefixDecodes(c, s);
    }
  }
}
