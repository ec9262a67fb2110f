/** The PICTURE block. After a four-byte picture type come the MIME type and the
    description, each as a four-byte big-endian length and that many bytes, then
    sixteen bytes of width, height, colour depth and palette size, and then the
    picture data, again prefixed by its four-byte big-endian length. The parser
    reads the MIME subtype (used as the file extension) and the data. */
module PictureDecoder {
  import opened Arith
  import opened Bytes
  import opened Results
  import opened Pattern
  import opened Utf8

  /** The file extension (the MIME subtype) and the picture data. */
  datatype Picture = Picture(extension: string, data: seq<byte>)

  /** What the parser reads in front of the picture data. */
  datatype Layout = Layout(extension: string, mimeLength: nat, descriptionLength: nat, dataLength: nat)

  /** The offset of the picture data: 4 + 4 + mime + 4 + description + 16 + 4. */
  function DataStart(l: Layout): nat
  {
    32 + l.mimeLength + l.descriptionLength
  }

  /** The group of `.+?/(.+)` on a MIME type; a type without one raises AttributeError. */
  function Subtype(mime: string): Result<string>
  {
    match Split(mime, '/')
    case None => Err(MimeWithoutSubtype)
    case Some(parts) => Ok(parts.1)
  }

  /** The MIME type image/png gives the extension png; a type without a '/' has none. */
  lemma SubtypeExample()
    ensures Subtype("image/png") == Ok("png")
    ensures Subtype("image") == Err(MimeWithoutSubtype)
  {
    assert "image" + ['/'] + "png" == "image/png";
    SplitJoin("image", '/', "png");
    SplitNeedsSeparator("image", '/');
  }

  /** Everything up to the data: the subtype of the decoded MIME type, the two string
      lengths, and the data length. The description is decoded, and so may fail,
      although its text is not used. */
  function ReadLayout(decode: Decoder, block: seq<byte>): Result<Layout>
  {
    var mimeLength := BigEndian(Slice(block, 4, 8));
    var mime :- DecodeText(decode, Slice(block, 8, 8 + mimeLength));
    var extension :- Subtype(mime);
    var descriptionLength := BigEndian(Slice(block, 8 + mimeLength, 12 + mimeLength));
    var description :- DecodeText(decode, Slice(block, 12 + mimeLength, 12 + mimeLength + descriptionLength));
    var dataLength := BigEndian(Slice(block, 28 + mimeLength + descriptionLength, 32 + mimeLength + descriptionLength));
    Ok(Layout(extension, mimeLength, descriptionLength, dataLength))
  }

  /** The picture with its data taken from its offset for its full length. */
  function DecodePicture(decode: Decoder, block: seq<byte>): Result<Picture>
  {
    var l :- ReadLayout(decode, block);
    Ok(Picture(l.extension, Slice(block, DataStart(l), DataStart(l) + l.dataLength)))
  }

  /** The picture as the parser slices it: the end offset leaves out the 20 bytes
      between the description and the data, so the slice ends 20 bytes early. */
  function DecodePictureAsWritten(decode: Decoder, block: seq<byte>): Result<Picture>
  {
    var l :- ReadLayout(decode, block);
    Ok(Picture(l.extension, Slice(block, DataStart(l), 12 + l.mimeLength + l.descriptionLength + l.dataLength)))
  }

  /** Both readings fail alike and agree on the extension; the data as written is a
      prefix of the full data, and when the block holds all of it, exactly 20 bytes
      (or all bytes, for data shorter than that) are missing from its end. */
  lemma AsWrittenDropsTwenty(decode: Decoder, block: seq<byte>)
    ensures DecodePictureAsWritten(decode, block).Ok? <==> DecodePicture(decode, block).Ok?
    ensures DecodePicture(decode, block).Err? ==>
      DecodePictureAsWritten(decode, block) == DecodePicture(decode, block)
    ensures DecodePicture(decode, block).Ok? ==>
      var l := ReadLayout(decode, block).value;
      var full := DecodePicture(decode, block).value;
      var short := DecodePictureAsWritten(decode, block).value;
      && short.extension == full.extension == l.extension
      && |short.data| <= |full.data| && short.data == full.data[..|short.data|]
      && (DataStart(l) + l.dataLength <= |block| ==>
            |full.data| == l.dataLength
            && |short.data| == (if l.dataLength < 20 then 0 else l.dataLength - 20))
  {
    if ReadLayout(decode, block).Ok? {
      var l := ReadLayout(decode, block).value;
      var s := DataStart(l);
      var full := Slice(block, s, s + l.dataLength);
      var short := Slice(block, s, 12 + l.mimeLength + l.descriptionLength + l.dataLength);
      assert short == full[..|short|];
    }
  }

  /** A PICTURE block with the given picture type, MIME type, description, the 16
      bytes of dimensions and palette size, and data. */
  function EncodePicture(kind: seq<byte>, mime: seq<byte>, description: seq<byte>, details: seq<byte>, data: seq<byte>): (block: seq<byte>)
    requires |kind| == 4 && |details| == 16
    requires |mime| < MAX_LENGTH && |description| < MAX_LENGTH && |data| < MAX_LENGTH
    ensures |block| == 32 + |mime| + |description| + |data|
  {
    kind + ToBigEndian(|mime|, 4) + mime + ToBigEndian(|description|, 4) + description
    + details + ToBigEndian(|data|, 4) + data
  }

  /** Where a block holds the fields, and its four-byte lengths say where they end,
      the layout reads back. */
  lemma LayoutOfFields(decode: Decoder, block: seq<byte>, mime: seq<byte>, description: seq<byte>, data: seq<byte>, extension: string)
    requires |mime| < MAX_LENGTH && |description| < MAX_LENGTH && |data| < MAX_LENGTH
    requires BigEndian(Slice(block, 4, 8)) == |mime|
    requires Slice(block, 8, 8 + |mime|) == mime
    requires BigEndian(Slice(block, 8 + |mime|, 12 + |mime|)) == |description|
    requires Slice(block, 12 + |mime|, 12 + |mime| + |description|) == description
    requires BigEndian(Slice(block, 28 + |mime| + |description|, 32 + |mime| + |description|)) == |data|
    requires decode(mime).Some? && Subtype(decode(mime).value) == Ok(extension)
    requires decode(description).Some?
    ensures ReadLayout(decode, block) == Ok(Layout(extension, |mime|, |description|, |data|))
  {
  }

  /** A slice holding a length below 2^32 in four big-endian bytes reads back as it. */
  lemma FourBytes(block: seq<byte>, i: nat, j: nat, x: nat)
    requires x < MAX_LENGTH && Slice(block, i, j) == ToBigEndian(x, 4)
    ensures BigEndian(Slice(block, i, j)) == x
  {
    Pow2Values();
    SliceValue(block, i, j, x, 4, 32);
  }

  /** The offsets of the fields of an encoded block. */
  lemma EncodedFields(kind: seq<byte>, mime: seq<byte>, description: seq<byte>, details: seq<byte>, data: seq<byte>)
    requires |kind| == 4 && |details| == 16
    requires |mime| < MAX_LENGTH && |description| < MAX_LENGTH && |data| < MAX_LENGTH
    ensures var block := EncodePicture(kind, mime, description, details, data);
      var m, d := |mime|, |description|;
      && BigEndian(Slice(block, 4, 8)) == m
      && Slice(block, 8, 8 + m) == mime
      && BigEndian(Slice(block, 8 + m, 12 + m)) == d
      && Slice(block, 12 + m, 12 + m + d) == description
      && BigEndian(Slice(block, 28 + m + d, 32 + m + d)) == |data|
      && Slice(block, 32 + m + d, 32 + m + d + |data|) == data
  {
    var block := EncodePicture(kind, mime, description, details, data);
    var m, d := |mime|, |description|;
    EightPieces(kind, ToBigEndian(m, 4), mime, ToBigEndian(d, 4), description,
                details, ToBigEndian(|data|, 4), data);
    FourBytes(block, 4, 8, m);
    FourBytes(block, 8 + m, 12 + m, d);
    FourBytes(block, 28 + m + d, 32 + m + d, |data|);
  }

  /** The pieces of a PICTURE block, sliced back out at their offsets. */
  lemma EightPieces<T>(a: seq<T>, b: seq<T>, c: seq<T>, d: seq<T>, e: seq<T>, f: seq<T>, g: seq<T>, h: seq<T>)
    requires |a| == 4 && |b| == 4 && |d| == 4 && |f| == 16 && |g| == 4
    ensures var s := a + b + c + d + e + f + g + h;
      var m, n := |c|, |e|;
      && s[4..8] == b && s[8..8 + m] == c && s[8 + m..12 + m] == d && s[12 + m..12 + m + n] == e
      && s[28 + m + n..32 + m + n] == g && s[32 + m + n..] == h
  {
    var s := a + b + c + d + e + f + g + h;
    var m, n := |c|, |e|;
    var head, middle, tail := a + b + c, d + e + f, g + h;
    assert s == head + middle + tail;
    assert s[4..8] == head[4..8] == b;
    assert s[8..8 + m] == head[8..8 + m] == c;
    assert s[8 + m..12 + m] == middle[..4] == d;
    assert s[12 + m..12 + m + n] == middle[4..4 + n] == e;
    assert s[28 + m + n..32 + m + n] == tail[..4] == g;
    assert s[32 + m + n..] == tail[4..] == h;
  }

  /** Encoding a picture and decoding the block gives back the subtype of its MIME
      type and its data. */
  lemma PictureRoundTrip(decode: Decoder, kind: seq<byte>, mime: seq<byte>, description: seq<byte>, details: seq<byte>, data: seq<byte>, extension: string)
    requires |kind| == 4 && |details| == 16
    requires |mime| < MAX_LENGTH && |description| < MAX_LENGTH && |data| < MAX_LENGTH
    requires decode(mime).Some? && Subtype(decode(mime).value) == Ok(extension)
    requires decode(description).Some?
    ensures DecodePicture(decode, EncodePicture(kind, mime, description, details, data)) == Ok(Picture(extension, data))
  {
    var block := EncodePicture(kind, mime, description, details, data);
    EncodedFields(kind, mime, description, details, data);
    LayoutOfFields(decode, block, mime, description, data, extension);
  }

  /** On every well-formed block the parser as written loses the last 20 bytes of
      the picture data (all of it, when there are fewer), so the written file is
      never the picture unless the data is empty. */
  lemma AsWrittenLosesTail(decode: Decoder, kind: seq<byte>, mime: seq<byte>, description: seq<byte>, details: seq<byte>, data: seq<byte>, extension: string)
    requires |kind| == 4 && |details| == 16
    requires |mime| < MAX_LENGTH && |description| < MAX_LENGTH && |data| < MAX_LENGTH
    requires decode(mime).Some? && Subtype(decode(mime).value) == Ok(extension)
    requires decode(description).Some?
    ensures var block := EncodePicture(kind, mime, description, details, data);
      DecodePictureAsWritten(decode, block)
        == Ok(Picture(extension, if |data| < 20 then [] else data[..|data| - 20]))
    ensures data != [] ==>
      var block := EncodePicture(kind, mime, description, details, data);
      DecodePictureAsWritten(decode, block) != DecodePicture(decode, block)
  {
    var block := EncodePicture(kind, mime, description, details, data);
    EncodedFields(kind, mime, description, details, data);
    LayoutOfFields(decode, block, mime, description, data, extension);
    var s := 32 + |mime| + |description|;
    if |data| >= 20 {
      assert block[s..s + |data| - 20] == block[s..][..|data| - 20];
    }
  }

  /** The picture fails on a MIME type or description that is not UTF-8, and on a
      MIME type that `.+?/(.+)` does not match, and in no other way. */
  lemma PictureFailures(decode: Decoder, block: seq<byte>)
    ensures var mime := Slice(block, 8, 8 + BigEndian(Slice(block, 4, 8)));
      decode(mime).None? ==> DecodePicture(decode, block) == Err(InvalidUtf8)
    ensures var mime := Slice(block, 8, 8 + BigEndian(Slice(block, 4, 8)));
      decode(mime).Some? && (forall k :: !SplitsAt(decode(mime).value, '/', k)) ==>
        DecodePicture(decode, block) == Err(MimeWithoutSubtype)
    ensures var m := BigEndian(Slice(block, 4, 8));
      var mime := Slice(block, 8, 8 + m);
      var d := BigEndian(Slice(block, 8 + m, 12 + m));
      decode(mime).Some? && Subtype(decode(mime).value).Ok? && decode(Slice(block, 12 + m, 12 + m + d)).None? ==>
        DecodePicture(decode, block) == Err(InvalidUtf8)
    ensures DecodePicture(decode, block).Err? ==>
      DecodePicture(decode, block).error == InvalidUtf8 || DecodePicture(decode, block).error == MimeWithoutSubtype
  {
    var mime := Slice(block, 8, 8 + BigEndian(Slice(block, 4, 8)));
    if decode(mime).Some? {
      SplitMatches(decode(mime).value, '/');
    }
  }
}
