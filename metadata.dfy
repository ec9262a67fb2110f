/** Metadata block headers and the walk over the metadata blocks that follow
    the marker (section 8.1 of RFC 9639). */
module Metadata {
  import opened Arith
  import opened Bytes
  import opened Bits
  import opened Results

  /** The three fields of a block header; isLast is the source's is_last == 1. */
  datatype BlockHeader = BlockHeader(isLast: bool, blockType: nat, size: nat)

  const STREAMINFO: nat := 0
  const VORBIS_COMMENT: nat := 4
  const PICTURE: nat := 6

  /** parse_metadata_block_header: the first byte is written out as eight binary
      digits; the first digit is the last-block flag and the other seven the
      block type. The remaining bytes are a big-endian size. The walk hands in
      file[pos:pos+4], which is shorter than four bytes near the end of a file. */
  function DecodeBlockHeader(header: seq<byte>): BlockHeader
    requires 1 <= |header|
  {
    var flagAndType := BinaryDigits(header[0], 8);
    BlockHeader(ParseBinary(flagAndType[..1]) == 1, ParseBinary(flagAndType[1..]), BigEndian(header[1..]))
  }

  /** The flag is the top bit of the first byte, the type its low seven bits,
      and the size the big-endian value of the (up to three) bytes after it. */
  lemma HeaderFields(header: seq<byte>)
    requires 1 <= |header| <= 4
    ensures DecodeBlockHeader(header).isLast <==> 128 <= header[0]
    ensures DecodeBlockHeader(header).blockType == header[0] % 128 < 128
    ensures DecodeBlockHeader(header).size == BigEndian(header[1..]) < Pow2(24)
    ensures |header| == 4 ==>
      DecodeBlockHeader(header).size == header[1] as int * 65536 + header[2] as int * 256 + header[3]
  {
    FlagAndTypeDigits(header[0]);
    BigEndianBound(header[1..]);
    Pow2Monotone(8 * (|header| - 1), 24);
    BigEndianShort(header[1..]);
  }

  /** The first binary digit of a byte is its top bit, the other seven its low bits. */
  lemma FlagAndTypeDigits(b: byte)
    ensures ParseBinary(BinaryDigits(b, 8)[..1]) == b / 128
    ensures ParseBinary(BinaryDigits(b, 8)[1..]) == b % 128
  {
    TopDigit(b);
    LowDigits(b);
  }

  lemma TopDigit(b: byte)
    ensures ParseBinary(BinaryDigits(b, 8)[..1]) == b / 128
  {
    Pow2Values();
    DigitField(b, 8, 0, 1);
    DivModUnique(b, 256, 0, b);
  }

  lemma LowDigits(b: byte)
    ensures ParseBinary(BinaryDigits(b, 8)[1..]) == b % 128
  {
    Pow2Values();
    DigitField(b, 8, 1, 8);
    assert BinaryDigits(b, 8)[1..] == BinaryDigits(b, 8)[1..8];
  }

  /** The four header bytes of a block: flag and type in the first byte, then the size. */
  function EncodeBlockHeader(h: BlockHeader): (header: seq<byte>)
    requires h.blockType < 128 && h.size < Pow2(24)
    ensures |header| == 4
  {
    [(if h.isLast then 128 else 0) + h.blockType] + ToBigEndian(h.size, 3)
  }

  lemma HeaderRoundTrip(h: BlockHeader)
    requires h.blockType < 128 && h.size < Pow2(24)
    ensures DecodeBlockHeader(EncodeBlockHeader(h)) == h
  {
    var first := (if h.isLast then 128 else 0) + h.blockType;
    var header := EncodeBlockHeader(h);
    assert header[0] == first && header[1..] == ToBigEndian(h.size, 3);
    BigEndianOfToBigEndian(h.size, 3);
    HeaderFields(header);
    DivModUnique(first, 128, if h.isLast then 1 else 0, h.blockType);
    var d := DecodeBlockHeader(header);
    assert d.isLast == h.isLast && d.blockType == h.blockType && d.size == h.size;
  }

  lemma HeaderBytesRoundTrip(header: seq<byte>)
    requires |header| == 4
    ensures var h := DecodeBlockHeader(header);
            h.blockType < 128 && h.size < Pow2(24) && EncodeBlockHeader(h) == header
  {
    HeaderFields(header);
    var fields := BlockHeader(128 <= header[0], header[0] % 128, BigEndian(header[1..]));
    assert DecodeBlockHeader(header) == fields;
    EncodeFields(header[0], header[1..]);
    HeadTail(header);
  }

  lemma EncodeFields(first: byte, sizeBytes: seq<byte>)
    requires |sizeBytes| == 3
    ensures var h := BlockHeader(128 <= first, first % 128, BigEndian(sizeBytes));
            h.size < Pow2(24) && EncodeBlockHeader(h) == [first] + sizeBytes
  {
    var h := BlockHeader(128 <= first, first % 128, BigEndian(sizeBytes));
    DivMod(first, 128);
    DivBelow(first, 128, 2);
    assert (if h.isLast then 128 else 0) + h.blockType == first;
    BigEndianBound(sizeBytes);
    ToBigEndianOfBigEndian(sizeBytes);
    assert ToBigEndian(h.size, 3) == sizeBytes;
  }

  /** A byte range of the file, end exclusive. */
  datatype Range = Range(start: nat, end: nat)

  /** Where the walk found the blocks the parser reads later: the last
      STREAMINFO and the last VORBIS_COMMENT block, and every PICTURE block in
      file order (an empty list where the source has no 'picture' key). */
  datatype Positions = Positions(streaminfo: Option<Range>, vorbisComment: Option<Range>, pictures: seq<Range>)

  const NoPositions := Positions(None, None, [])

  /** A block the walk visited: its header and the range of its payload. */
  datatype Block = Block(header: BlockHeader, range: Range)

  /** The header at cursor pos, read field by field from file[pos:pos+4]; the
      same as decoding that slice (HeaderAtDecodes). */
  function HeaderAt(file: seq<byte>, pos: nat): BlockHeader
    requires pos < |file|
  {
    BlockHeader(128 <= file[pos], file[pos] % 128, BigEndian(Slice(file, pos + 1, pos + 4)))
  }

  lemma HeaderAtDecodes(file: seq<byte>, pos: nat)
    requires pos < |file|
    ensures HeaderAt(file, pos) == DecodeBlockHeader(Slice(file, pos, pos + 4))
  {
    var header := Slice(file, pos, pos + 4);
    HeaderFields(header);
    assert header[1..] == Slice(file, pos + 1, pos + 4);
  }

  /** The blocks the walk visits from cursor pos, up to and including the first
      one flagged last. The walk fails when its cursor reaches the end of the
      file before that, as header[0] fails on an empty slice. A size running past
      the end of the file is not checked. */
  function BlocksFrom(file: seq<byte>, pos: nat): Result<seq<Block>>
    decreases |file| - pos
  {
    if |file| <= pos then Err(HeaderPastEnd(pos))
    else
      var h := HeaderAt(file, pos);
      var b := Block(h, Range(pos + 4, pos + 4 + h.size));
      if h.isLast then Ok([b]) else Prepend([b], BlocksFrom(file, pos + 4 + h.size))
  }

  /** Records one block: STREAMINFO and VORBIS_COMMENT overwrite, PICTURE appends,
      any other type leaves the positions as they are. */
  function Classify(p: Positions, b: Block): Positions
  {
    if b.header.blockType == STREAMINFO then p.(streaminfo := Some(b.range))
    else if b.header.blockType == VORBIS_COMMENT then p.(vorbisComment := Some(b.range))
    else if b.header.blockType == PICTURE then p.(pictures := p.pictures + [b.range])
    else p
  }

  /** The positions after recording the blocks bs in order into p. */
  function Index(p: Positions, bs: seq<Block>): Positions
  {
    if bs == [] then p else Classify(Index(p, bs[..|bs| - 1]), bs[|bs| - 1])
  }

  /** Recording one more block is classifying it into what was recorded before. */
  lemma IndexSnoc(p: Positions, bs: seq<Block>, b: Block)
    ensures Index(p, bs + [b]) == Classify(Index(p, bs), b)
  {
    assert (bs + [b])[..|bs|] == bs;
  }

  /** The ranges of the blocks of type t, in the order of bs. */
  function RangesOfType(bs: seq<Block>, t: nat): seq<Range>
  {
    if bs == [] then []
    else
      var init := RangesOfType(bs[..|bs| - 1], t);
      var last := bs[|bs| - 1];
      if last.header.blockType == t then init + [last.range] else init
  }

  /** A range is kept for type t exactly when some block of type t has it. */
  lemma {:induction false} RangesOfTypeMembers(bs: seq<Block>, t: nat, r: Range)
    ensures r in RangesOfType(bs, t) <==> exists b :: b in bs && b.header.blockType == t && b.range == r
  {
    if bs != [] {
      var init := bs[..|bs| - 1];
      RangesOfTypeMembers(init, t, r);
      assert bs == init + [bs[|bs| - 1]];
    }
  }

  function LastOr(rs: seq<Range>, default: Option<Range>): Option<Range>
  {
    if rs == [] then default else Some(rs[|rs| - 1])
  }

  /** What the walk records is the last STREAMINFO, the last VORBIS_COMMENT and
      all PICTURE blocks in order; no other block changes the positions. */
  lemma {:induction false} IndexByType(p: Positions, bs: seq<Block>)
    ensures Index(p, bs).streaminfo == LastOr(RangesOfType(bs, STREAMINFO), p.streaminfo)
    ensures Index(p, bs).vorbisComment == LastOr(RangesOfType(bs, VORBIS_COMMENT), p.vorbisComment)
    ensures Index(p, bs).pictures == p.pictures + RangesOfType(bs, PICTURE)
  {
    if bs != [] {
      IndexByType(p, bs[..|bs| - 1]);
    }
  }

  /** A successful walk from pos: consecutive blocks, each payload range as long
      as its header says and right after its header, only the final block flagged last. */
  ghost predicate Chained(file: seq<byte>, bs: seq<Block>, pos: nat)
  {
    && |bs| > 0 && bs[0].range.start == pos + 4
    && (forall k :: 0 <= k < |bs| ==> ReadAt(file, bs[k]))
    && (forall k :: 0 <= k < |bs| - 1 ==> Follows(bs[k], bs[k + 1]))
    && bs[|bs| - 1].header.isLast
  }

  /** Block b is the header in the file four bytes before its payload, and its
      payload is as long as that header says. */
  predicate ReadAt(file: seq<byte>, b: Block)
  {
    && 4 <= b.range.start && b.range.start - 4 < |file|
    && b.header == HeaderAt(file, b.range.start - 4)
    && b.range.end == b.range.start + b.header.size
  }

  /** Block b comes right after block a: a is not flagged last, and b's header
      starts where a's payload ends. */
  predicate Follows(a: Block, b: Block)
  {
    !a.header.isLast && b.range.start == a.range.end + 4
  }

  /** The walk fails only when its cursor has run to or past the end of the file. */
  lemma {:induction false} WalkFailsPastEnd(file: seq<byte>, pos: nat)
    ensures BlocksFrom(file, pos).Err? ==>
      BlocksFrom(file, pos).error.HeaderPastEnd?
      && pos <= BlocksFrom(file, pos).error.pos && |file| <= BlocksFrom(file, pos).error.pos
    decreases |file| - pos
  {
    if pos < |file| {
      var h := HeaderAt(file, pos);
      if !h.isLast {
        WalkFailsPastEnd(file, pos + 4 + h.size);
      }
    }
  }

  lemma {:induction false} WalkIsChained(file: seq<byte>, pos: nat)
    requires BlocksFrom(file, pos).Ok?
    ensures Chained(file, BlocksFrom(file, pos).value, pos)
    decreases |file| - pos
  {
    var h := HeaderAt(file, pos);
    var b := Block(h, Range(pos + 4, pos + 4 + h.size));
    var bs := BlocksFrom(file, pos).value;
    if h.isLast {
      assert bs == [b];
    } else {
      var next := pos + 4 + h.size;
      WalkIsChained(file, next);
      var rest := BlocksFrom(file, next).value;
      assert bs == [b] + rest;
      ChainedCons(file, b, rest, pos, next);
    }
  }

  lemma ChainedCons(file: seq<byte>, b: Block, rest: seq<Block>, pos: nat, next: nat)
    requires pos < |file| && b.header == HeaderAt(file, pos) && !b.header.isLast
    requires b.range == Range(pos + 4, pos + 4 + b.header.size) && next == b.range.end
    requires Chained(file, rest, next)
    ensures Chained(file, [b] + rest, pos)
  {
    ConsReadAt(file, b, rest);
    ConsFollows(b, rest);
    assert ([b] + rest)[|rest|] == rest[|rest| - 1];
  }

  lemma ConsReadAt(file: seq<byte>, b: Block, rest: seq<Block>)
    requires ReadAt(file, b) && forall k :: 0 <= k < |rest| ==> ReadAt(file, rest[k])
    ensures forall k :: 0 <= k < |[b] + rest| ==> ReadAt(file, ([b] + rest)[k])
  {
    var bs := [b] + rest;
    forall k | 0 <= k < |bs|
      ensures ReadAt(file, bs[k])
    {
      if k > 0 { assert bs[k] == rest[k - 1]; }
    }
  }

  lemma ConsFollows(b: Block, rest: seq<Block>)
    requires rest != [] && Follows(b, rest[0]) && forall k :: 0 <= k < |rest| - 1 ==> Follows(rest[k], rest[k + 1])
    ensures forall k :: 0 <= k < |[b] + rest| - 1 ==> Follows(([b] + rest)[k], ([b] + rest)[k + 1])
  {
    var bs := [b] + rest;
    forall k | 0 <= k < |bs| - 1
      ensures Follows(bs[k], bs[k + 1])
    {
      if k > 0 { assert bs[k] == rest[k - 1] && bs[k + 1] == rest[k]; }
    }
  }

  /** A range that ends at least a header before another one starts. */
  predicate Before(a: Range, b: Range)
  {
    a.start <= a.end && a.end + 4 <= b.start
  }

  /** Every range of rs ends a header before last starts. */
  ghost predicate AllBefore(rs: seq<Range>, last: Range)
  {
    forall r :: r in rs ==> Before(r, last)
  }

  /** Payload ranges in file order, each separated from the next by at least a header. */
  ghost predicate Ordered(rs: seq<Range>)
  {
    forall i, j :: 0 <= i < j < |rs| ==> Before(rs[i], rs[j])
  }

  /** The payload ranges of the blocks are Ordered. */
  ghost predicate BlocksOrdered(bs: seq<Block>)
  {
    forall i, j :: 0 <= i < j < |bs| ==> Before(bs[i].range, bs[j].range)
  }

  lemma {:induction false} ChainedIsOrdered(file: seq<byte>, bs: seq<Block>, pos: nat)
    requires Chained(file, bs, pos)
    ensures BlocksOrdered(bs)
  {
    forall i, j | 0 <= i < j < |bs|
      ensures Before(bs[i].range, bs[j].range)
    {
      ChainedStep(file, bs, pos, i, j);
    }
  }

  lemma {:induction false} ChainedStep(file: seq<byte>, bs: seq<Block>, pos: nat, i: nat, j: nat)
    requires Chained(file, bs, pos) && i < j < |bs|
    ensures bs[i].range.end + 4 <= bs[j].range.start
    decreases j - i
  {
    if i + 1 < j {
      ChainedStep(file, bs, pos, i, j - 1);
      assert Follows(bs[j - 1], bs[j]);
    }
  }

  /** Keeping the ranges of one type keeps them in order. */
  lemma {:induction false} RangesOfTypeOrdered(bs: seq<Block>, t: nat)
    requires BlocksOrdered(bs)
    ensures Ordered(RangesOfType(bs, t))
  {
    if bs != [] {
      var init := bs[..|bs| - 1];
      OrderedInit(bs);
      RangesOfTypeOrdered(init, t);
      RangesOfTypeBefore(bs, t);
      OrderedSnoc(RangesOfType(init, t), bs[|bs| - 1].range);
    }
  }

  lemma OrderedInit(bs: seq<Block>)
    requires BlocksOrdered(bs) && bs != []
    ensures BlocksOrdered(bs[..|bs| - 1])
  {
    var init := bs[..|bs| - 1];
    forall i, j | 0 <= i < j < |init|
      ensures Before(init[i].range, init[j].range)
    {
      assert init[i] == bs[i] && init[j] == bs[j];
    }
  }

  /** Every range kept from the blocks before the last ends a header before the last block's range. */
  lemma RangesOfTypeBefore(bs: seq<Block>, t: nat)
    requires BlocksOrdered(bs) && bs != []
    ensures AllBefore(RangesOfType(bs[..|bs| - 1], t), bs[|bs| - 1].range)
  {
    var init := bs[..|bs| - 1];
    forall r | r in RangesOfType(init, t)
      ensures Before(r, bs[|bs| - 1].range)
    {
      RangesOfTypeMembers(init, t, r);
      var b :| b in init && b.header.blockType == t && b.range == r;
      var k :| 0 <= k < |init| && init[k] == b;
      assert bs[k] == b;
    }
  }

  lemma OrderedSnoc(rs: seq<Range>, last: Range)
    requires Ordered(rs)
    requires AllBefore(rs, last)
    ensures Ordered(rs + [last])
  {
    forall i, j | 0 <= i < j < |rs| + 1
      ensures Before((rs + [last])[i], (rs + [last])[j])
    {
      assert rs[i] in rs;
    }
  }

  /** The walk from offset 4 records each block type's ranges in increasing file
      order, without overlap: the PICTURE list is ordered, and the payload ranges
      of all visited blocks are. */
  lemma WalkPositionsOrdered(file: seq<byte>)
    requires BlocksFrom(file, 4).Ok?
    ensures BlocksOrdered(BlocksFrom(file, 4).value)
    ensures Ordered(Index(NoPositions, BlocksFrom(file, 4).value).pictures)
  {
    var bs := BlocksFrom(file, 4).value;
    WalkIsChained(file, 4);
    ChainedIsOrdered(file, bs, 4);
    RangesOfTypeOrdered(bs, PICTURE);
    IndexByType(NoPositions, bs);
    assert NoPositions.pictures + RangesOfType(bs, PICTURE) == RangesOfType(bs, PICTURE);
  }
}
