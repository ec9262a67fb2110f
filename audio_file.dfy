/** The class AudioFile. Opening a file checks its marker, walks its metadata
    blocks recording where the STREAMINFO, VORBIS_COMMENT and PICTURE blocks
    are, decodes the STREAMINFO block and, when there is one, the
    VORBIS_COMMENT block. The PICTURE block is decoded on request. The file's
    bytes are a field: every parse reads the same bytes, as the parser
    re-reads the same file. */
module Flac {
  import opened Bytes
  import opened Results
  import opened Utf8
  import opened Metadata
  import opened StreamInfoDecoder
  import opened VorbisComment
  import opened PictureDecoder

  /** The four bytes "fLaC" that start every FLAC file. */
  const FLAC_MARKER: seq<byte> := [0x66, 0x4C, 0x61, 0x43]

  /** file[0:4].decode() == 'fLaC'. The marker is ASCII, so the four bytes decode
      to it exactly when they are its four bytes. */
  predicate IsFlac(file: seq<byte>)
  {
    Slice(file, 0, 4) == FLAC_MARKER
  }

  /** A file is FLAC exactly when it has at least four bytes and they are the marker's. */
  lemma IsFlacBytes(file: seq<byte>)
    ensures IsFlac(file) <==>
      |file| >= 4 && file[0] == 0x66 && file[1] == 0x4C && file[2] == 0x61 && file[3] == 0x43
  {
    if |file| >= 4 {
      assert Slice(file, 0, 4) == [file[0], file[1], file[2], file[3]];
    } else {
      assert |Slice(file, 0, 4)| < 4;
    }
  }

  /** file[begin:end] for a recorded range. */
  function BlockBytes(file: seq<byte>, r: Range): seq<byte>
  {
    Slice(file, r.start, r.end)
  }

  /** What the constructor leaves in the object. */
  datatype Loaded = Loaded(positions: Positions, streaminfo: StreamInfo, tags: Option<Tags>)

  /** The constructor as a function of the file: the marker, the block walk, and
      then the blocks it recorded, each of which may raise. */
  function Load(file: seq<byte>, decode: Decoder): Result<Loaded>
  {
    if !IsFlac(file) then Err(NotFlac)
    else
      match BlocksFrom(file, 4)
      case Err(e) => Err(e)
      case Ok(blocks) => LoadBlocks(file, decode, Index(NoPositions, blocks))
  }

  /** The steps after the walk: the STREAMINFO block, which must have been
      recorded, and the VORBIS_COMMENT block when it was. */
  function LoadBlocks(file: seq<byte>, decode: Decoder, positions: Positions): Result<Loaded>
  {
    if positions.streaminfo.None? then Err(MissingStreamInfo)
    else
      var streaminfo := DecodeStreamInfo(BlockBytes(file, positions.streaminfo.value));
      if positions.vorbisComment.None? then Ok(Loaded(positions, streaminfo, None))
      else
        match DecodeVorbisComment(decode, BlockBytes(file, positions.vorbisComment.value))
        case Err(e) => Err(e)
        case Ok(tags) => Ok(Loaded(positions, streaminfo, Some(tags)))
  }

  class AudioFile {
    /** The bytes of the file and the UTF-8 decoding applied to its strings. */
    const file: seq<byte>
    const decode: Decoder
    var positions: Positions
    var streaminfo: Option<StreamInfo>
    var tags: Option<Tags>

    /** An object over the file with nothing parsed yet. */
    constructor (file: seq<byte>, decode: Decoder)
      ensures this.file == file && this.decode == decode
      ensures positions == NoPositions && streaminfo == None && tags == None
    {
      this.file := file;
      this.decode := decode;
      positions := NoPositions;
      streaminfo := None;
      tags := None;
    }

    /** The constructor: the marker check, the walk, and then the recorded
        blocks, stopping at the first step that raises. */
    static method Open(file: seq<byte>, decode: Decoder) returns (r: Result<AudioFile>)
      ensures r.Ok? <==> Load(file, decode).Ok?
      ensures r.Err? ==> r.error == Load(file, decode).error
      ensures r.Ok? ==>
        var a, l := r.value, Load(file, decode).value;
        && fresh(a) && a.file == file && a.decode == decode
        && a.positions == l.positions && a.streaminfo == Some(l.streaminfo) && a.tags == l.tags
    {
      if !IsFlac(file) {
        return Err(NotFlac);
      }
      var a := new AudioFile(file, decode);
      var err := a.ParseMetadata();
      if err.Some? {
        return Err(err.value);
      }
      assert Load(file, decode) == LoadBlocks(file, decode, a.positions);
      err := a.ParseBlocks();
      if err.Some? {
        return Err(err.value);
      }
      return Ok(a);
    }

    /** The rest of the constructor once the positions are recorded: the
        STREAMINFO block, then the comments when a VORBIS_COMMENT block was seen. */
    method ParseBlocks() returns (err: Option<Error>)
      modifies this
      ensures positions == old(positions)
      ensures var l := LoadBlocks(file, decode, positions);
        && (err.None? <==> l.Ok?)
        && (err.Some? ==> err.value == l.error)
        && (err.None? ==> streaminfo == Some(l.value.streaminfo) && tags == l.value.tags)
    {
      streaminfo := None;
      err := ParseStreaminfo();
      if err.Some? {
        return;
      }
      tags := None;
      if positions.vorbisComment.Some? {
        var comments := ParseVorbisComment();
        if comments.Err? {
          return Some(comments.error);
        }
        tags := Some(comments.value);
      }
    }

    /** The block walk from offset 4: it records the blocks the walk visits into
      the positions, and fails as the walk does. */
    method ParseMetadata() returns (err: Option<Error>)
      modifies this
      ensures err.None? <==> BlocksFrom(file, 4).Ok?
      ensures err.Some? ==> err.value == BlocksFrom(file, 4).error
      ensures err.None? ==> positions == Index(old(positions), BlocksFrom(file, 4).value)
      ensures streaminfo == old(streaminfo) && tags == old(tags)
    {
      var pos: nat := 4;
      var isLast := false;
      ghost var visited: seq<Block> := [];
      ghost var start := positions;
      assert Prepend(visited, BlocksFrom(file, pos)) == BlocksFrom(file, 4) by {
        if BlocksFrom(file, 4).Ok? {
          assert [] + BlocksFrom(file, 4).value == BlocksFrom(file, 4).value;
        }
      }
      while !isLast
        invariant !isLast ==> BlocksFrom(file, 4) == Prepend(visited, BlocksFrom(file, pos))
        invariant isLast ==> BlocksFrom(file, 4) == Ok(visited)
        invariant positions == Index(start, visited)
        invariant streaminfo == old(streaminfo) && tags == old(tags)
        decreases if pos <= |file| then |file| + 1 - pos else 0
      {
        var header := Slice(file, pos, pos + 4);
        if header == [] {
          return Some(HeaderPastEnd(pos));
        }
        var h := DecodeBlockHeader(header);
        HeaderAtDecodes(file, pos);
        var range := Range(pos + 4, pos + 4 + h.size);
        if h.blockType == STREAMINFO {
          positions := positions.(streaminfo := Some(range));
        }
        if h.blockType == VORBIS_COMMENT {
          positions := positions.(vorbisComment := Some(range));
        }
        if h.blockType == PICTURE {
          positions := positions.(pictures := positions.pictures + [range]);
        }
        IndexSnoc(start, visited, Block(h, range));
        PrependPrepend(visited, [Block(h, range)], BlocksFrom(file, pos + 4 + h.size));
        visited := visited + [Block(h, range)];
        isLast := h.isLast;
        pos := pos + h.size + 4;
      }
      return None;
    }

    /** The STREAMINFO block's values, or MissingStreamInfo when the walk recorded none. */
    method ParseStreaminfo() returns (err: Option<Error>)
      modifies this
      ensures positions == old(positions) && tags == old(tags)
      ensures positions.streaminfo.None? ==> err == Some(MissingStreamInfo) && streaminfo == old(streaminfo)
      ensures positions.streaminfo.Some? ==>
        err.None? && streaminfo == Some(DecodeStreamInfo(BlockBytes(file, positions.streaminfo.value)))
    {
      if positions.streaminfo.None? {
        return Some(MissingStreamInfo);
      }
      var block := BlockBytes(file, positions.streaminfo.value);
      streaminfo := Some(DecodeStreamInfo(block));
      return None;
    }

    /** The comments of the recorded VORBIS_COMMENT block, read one by one. */
    method ParseVorbisComment() returns (r: Result<Tags>)
      ensures positions.vorbisComment.None? ==> r == Err(MissingVorbisComment)
      ensures positions.vorbisComment.Some? ==>
        r == DecodeVorbisComment(decode, BlockBytes(file, positions.vorbisComment.value))
    {
      if positions.vorbisComment.None? {
        return Err(MissingVorbisComment);
      }
      var block := BlockBytes(file, positions.vorbisComment.value);
      DecodeVorbisCommentParts(decode, block);
      var vendorLength := LittleEndian(Slice(block, 0, 4));
      var vendor := DecodeText(decode, Slice(block, 4, 4 + vendorLength));
      if vendor.Err? {
        return Err(vendor.error);
      }
      var count := LittleEndian(Slice(block, 4 + vendorLength, 8 + vendorLength));
      var fields := ReadComments(block, 8 + vendorLength, count);
      if fields.Err? {
        return Err(fields.error);
      }
      return Ok(Tags(vendor.value, fields.value));
    }

    /** The loop over the count comments from start: each is parsed and added
        under its name, and the first failure ends the loop. */
    method ReadComments(block: seq<byte>, start: nat, count: nat) returns (r: Result<map<string, set<string>>>)
      ensures r == TagsFrom(decode, block, start, count, map[])
    {
      ghost var expected := TagsFrom(decode, block, start, count, map[]);
      var pos := start;
      var fields: map<string, set<string>> := map[];
      for i := 0 to count
        invariant pos == Cursor(block, start, i)
        invariant expected == TagsFrom(decode, block, pos, count - i, fields)
      {
        TagsFromStep(decode, block, pos, count - i, fields);
        var tag := ParseTag(decode, TagText(block, pos));
        if tag.Err? {
          return Err(tag.error);
        }
        var (name, value) := tag.value;
        if name == VENDOR {
          return Err(VendorNameInComment);
        }
        fields := Insert(fields, name, value);
        CursorStep(block, start, i);
        pos := NextTag(block, pos);
      }
      return Ok(fields);
    }

    /** The first recorded PICTURE block's extension and data, or MissingPicture. */
    method ParsePicture() returns (r: Result<Picture>)
      ensures positions.pictures == [] ==> r == Err(MissingPicture)
      ensures positions.pictures != [] ==>
        r == DecodePicture(decode, BlockBytes(file, positions.pictures[0]))
    {
      if positions.pictures == [] {
        return Err(MissingPicture);
      }
      var block := BlockBytes(file, positions.pictures[0]);
      r := DecodePicture(decode, block);
    }
  }

  /** Opening fails with NotFlac exactly when the file does not start with the
      marker: no later step raises that failure. */
  lemma LoadNotFlac(file: seq<byte>, decode: Decoder)
    ensures Load(file, decode) == Err(NotFlac) <==> !IsFlac(file)
  {
    WalkFailsPastEnd(file, 4);
    if IsFlac(file) && BlocksFrom(file, 4).Ok? {
      var positions := Index(NoPositions, BlocksFrom(file, 4).value);
      if positions.vorbisComment.Some? {
        DecodeVorbisCommentErrors(decode, BlockBytes(file, positions.vorbisComment.value));
      }
    }
  }

  /** A FLAC file whose walk succeeds opens exactly when the walk met a STREAMINFO
      block; the values are then read from the last one, the comments from the
      last VORBIS_COMMENT block if there is one, and the pictures are all
      PICTURE blocks in file order, without overlap. */
  lemma LoadRecordsBlocks(file: seq<byte>, decode: Decoder)
    requires IsFlac(file) && BlocksFrom(file, 4).Ok?
    ensures var blocks := BlocksFrom(file, 4).value;
      RangesOfType(blocks, STREAMINFO) == [] <==> Load(file, decode) == Err(MissingStreamInfo)
    ensures var blocks := BlocksFrom(file, 4).value;
      Load(file, decode).Ok? ==>
        var l := Load(file, decode).value;
        var infos := RangesOfType(blocks, STREAMINFO);
        var comments := RangesOfType(blocks, VORBIS_COMMENT);
        && l.positions == Index(NoPositions, blocks)
        && infos != [] && l.streaminfo == DecodeStreamInfo(BlockBytes(file, infos[|infos| - 1]))
        && (l.tags.None? <==> comments == [])
        && (l.tags.Some? ==> Ok(l.tags.value) == DecodeVorbisComment(decode, BlockBytes(file, comments[|comments| - 1])))
        && l.positions.pictures == RangesOfType(blocks, PICTURE)
        && Ordered(l.positions.pictures)
  {
    var blocks := BlocksFrom(file, 4).value;
    IndexByType(NoPositions, blocks);
    WalkPositionsOrdered(file);
    var positions := Index(NoPositions, blocks);
    if positions.vorbisComment.Some? {
      DecodeVorbisCommentErrors(decode, BlockBytes(file, positions.vorbisComment.value));
    }
  }

  /** A FLAC file whose walk succeeds opens exactly when the walk met a STREAMINFO
      block and the last VORBIS_COMMENT block, if any, decodes; when that block
      does not decode, opening fails with its failure. */
  lemma LoadOutcome(file: seq<byte>, decode: Decoder)
    requires IsFlac(file) && BlocksFrom(file, 4).Ok?
    ensures var blocks := BlocksFrom(file, 4).value;
      var infos, comments := RangesOfType(blocks, STREAMINFO), RangesOfType(blocks, VORBIS_COMMENT);
      Load(file, decode).Ok? <==>
        infos != [] && (comments == [] || DecodeVorbisComment(decode, BlockBytes(file, comments[|comments| - 1])).Ok?)
    ensures var blocks := BlocksFrom(file, 4).value;
      var infos, comments := RangesOfType(blocks, STREAMINFO), RangesOfType(blocks, VORBIS_COMMENT);
      infos != [] && comments != [] && DecodeVorbisComment(decode, BlockBytes(file, comments[|comments| - 1])).Err? ==>
        Load(file, decode) == Err(DecodeVorbisComment(decode, BlockBytes(file, comments[|comments| - 1])).error)
  {
    IndexByType(NoPositions, BlocksFrom(file, 4).value);
  }

  /** A FLAC file whose walk runs off the end of the file does not open: the
      header read at a cursor at or past the end fails. */
  lemma LoadWalkFails(file: seq<byte>, decode: Decoder)
    requires IsFlac(file) && BlocksFrom(file, 4).Err?
    ensures Load(file, decode) == Err(BlocksFrom(file, 4).error)
    ensures Load(file, decode).error.HeaderPastEnd? && |file| <= Load(file, decode).error.pos
  {
    WalkFailsPastEnd(file, 4);
  }

  /** The smallest FLAC file: the marker, the header 0x80 0x00 0x00 0x22 of a
      STREAMINFO block of 34 bytes flagged last, and those 34 bytes, the 18 that
      hold si followed by the 16 of the MD5 signature. It opens with si, no
      comments and no pictures. */
  lemma LoadMinimalFile(si: StreamInfo, md5: seq<byte>, decode: Decoder)
    requires Valid(si) && |md5| == 16
    ensures var file := FLAC_MARKER + [0x80, 0x00, 0x00, 0x22] + (EncodeStreamInfo(si) + md5);
      Load(file, decode) == Ok(Loaded(Positions(Some(Range(8, 42)), None, []), si, None))
  {
    var payload := EncodeStreamInfo(si) + md5;
    var file := FLAC_MARKER + [0x80, 0x00, 0x00, 0x22] + payload;
    MinimalLayout(file, payload);
    var blocks := [Block(BlockHeader(true, STREAMINFO, 34), Range(8, 42))];
    assert BlocksFrom(file, 4) == Ok(blocks);
    IndexSnoc(NoPositions, [], blocks[0]);
    assert [] + [blocks[0]] == blocks;
    var positions := Index(NoPositions, blocks);
    assert positions == Positions(Some(Range(8, 42)), None, []);
    assert payload[..18] == EncodeStreamInfo(si);
    FirstEighteenBytes(payload);
    StreamInfoRoundTrip(si);
    assert DecodeStreamInfo(BlockBytes(file, Range(8, 42))) == si;
    assert LoadBlocks(file, decode, positions) == Ok(Loaded(positions, si, None));
  }

  /** Where the marker, the header and the payload of a single-block file lie. */
  lemma MinimalLayout(file: seq<byte>, payload: seq<byte>)
    requires |payload| == 34 && file == FLAC_MARKER + [0x80, 0x00, 0x00, 0x22] + payload
    ensures IsFlac(file)
    ensures HeaderAt(file, 4) == BlockHeader(true, STREAMINFO, 34)
    ensures BlockBytes(file, Range(8, 42)) == payload
  {
    assert file[..4] == FLAC_MARKER;
    assert file[4] == 0x80;
    assert Slice(file, 5, 8) == [0x00, 0x00, 0x22];
    BigEndianShort([0x00, 0x00, 0x22]);
    assert file[8..42] == payload;
  }

  /** A file with a STREAMINFO block followed by an empty VORBIS_COMMENT block
      flagged last (no vendor string and no comments) opens with both ranges
      recorded, si, and an empty vendor string with no comments. */
  lemma LoadEmptyComments(si: StreamInfo, md5: seq<byte>, decode: Decoder)
    requires Valid(si) && |md5| == 16 && decode([]) == Some("")
    ensures var file := FLAC_MARKER + [0x00, 0x00, 0x00, 0x22] + (EncodeStreamInfo(si) + md5)
                        + [0x84, 0x00, 0x00, 0x08] + EncodeVorbisComment([], []);
      Load(file, decode) == Ok(Loaded(Positions(Some(Range(8, 42)), Some(Range(46, 54)), []), si, Some(Tags("", map[]))))
  {
    var payload := EncodeStreamInfo(si) + md5;
    var comment := EncodeVorbisComment([], []);
    var file := FLAC_MARKER + [0x00, 0x00, 0x00, 0x22] + payload + [0x84, 0x00, 0x00, 0x08] + comment;
    TwoBlockLayout(file, payload, comment);
    var b0, b1 := Block(BlockHeader(false, STREAMINFO, 34), Range(8, 42)), Block(BlockHeader(true, VORBIS_COMMENT, 8), Range(46, 54));
    assert BlocksFrom(file, 42) == Ok([b1]);
    assert BlocksFrom(file, 4) == Prepend([b0], BlocksFrom(file, 42));
    assert [b0] + [b1] == [b0, b1];
    assert BlocksFrom(file, 4) == Ok([b0, b1]);
    IndexSnoc(NoPositions, [], b0);
    IndexSnoc(NoPositions, [b0], b1);
    assert [b0, b1][..1] == [b0] && [] + [b0] == [b0];
    var positions := Index(NoPositions, [b0, b1]);
    assert positions == Positions(Some(Range(8, 42)), Some(Range(46, 54)), []);
    assert payload[..18] == EncodeStreamInfo(si);
    FirstEighteenBytes(payload);
    StreamInfoRoundTrip(si);
    EmptyComments(decode);
    assert LoadBlocks(file, decode, positions) == Ok(Loaded(positions, si, Some(Tags("", map[]))));
  }

  /** The block with no vendor string and no comments decodes to an empty vendor
      string with no fields. */
  lemma EmptyComments(decode: Decoder)
    requires decode([]) == Some("")
    ensures DecodeVorbisComment(decode, EncodeVorbisComment([], [])) == Ok(Tags("", map[]))
  {
    var block := EncodeVorbisComment([], []);
    assert block == [0, 0, 0, 0, 0, 0, 0, 0];
    assert Slice(block, 0, 4) == [0, 0, 0, 0];
    assert Slice(block, 4, 4) == [];
  }

  /** Where the headers and payloads of the two-block file lie. */
  lemma TwoBlockLayout(file: seq<byte>, payload: seq<byte>, comment: seq<byte>)
    requires |payload| == 34 && |comment| == 8
    requires file == FLAC_MARKER + [0x00, 0x00, 0x00, 0x22] + payload + [0x84, 0x00, 0x00, 0x08] + comment
    ensures |file| == 54 && IsFlac(file)
    ensures HeaderAt(file, 4) == BlockHeader(false, STREAMINFO, 34)
    ensures HeaderAt(file, 42) == BlockHeader(true, VORBIS_COMMENT, 8)
    ensures BlockBytes(file, Range(8, 42)) == payload && BlockBytes(file, Range(46, 54)) == comment
  {
    assert file[..4] == FLAC_MARKER;
    assert file[4] == 0x00 && file[42] == 0x84;
    assert Slice(file, 5, 8) == [0x00, 0x00, 0x22];
    assert Slice(file, 43, 46) == [0x00, 0x00, 0x08];
    BigEndianShort([0x00, 0x00, 0x22]);
    BigEndianShort([0x00, 0x00, 0x08]);
    assert file[8..42] == payload;
    assert file[46..54] == comment;
  }
}
