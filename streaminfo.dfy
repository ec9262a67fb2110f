/** The STREAMINFO block (section 8.2 of RFC 9639) as the parser reads it: four
    big-endian sizes, then one 64-bit big-endian word that is written out as 64
    binary digits and cut into the sample rate, channel count, bit depth and
    total sample count. The MD5 signature after byte 18 is not read. */
module StreamInfoDecoder {
  import opened Arith
  import opened Bytes
  import opened Bits

  datatype StreamInfo = StreamInfo(
    blockMinSize: nat, blockMaxSize: nat,
    frameMinSize: nat, frameMaxSize: nat,
    rate: nat, channels: nat, bitsPerSample: nat, samplesInFlow: nat)

  /** parse_streaminfo on the bytes file[begin:end] of the block. Every slice is
      clamped and missing bytes read as nothing (the value of no bytes is 0), so
      a short block is not an error: a field wholly past its end is 0, and one
      cut short is the value of the bytes that remain. */
  function DecodeStreamInfo(block: seq<byte>): StreamInfo
  {
    var data := BinaryDigits(BigEndian(Slice(block, 10, 18)), 64);
    StreamInfo(
      BigEndian(Slice(block, 0, 2)), BigEndian(Slice(block, 2, 4)),
      BigEndian(Slice(block, 4, 7)), BigEndian(Slice(block, 7, 10)),
      ParseBinary(data[0..20]), ParseBinary(data[20..23]) + 1,
      ParseBinary(data[23..28]) + 1, ParseBinary(data[28..64]))
  }

  /** The digits of the 64-bit word: 20 of rate, 3 of channels - 1, 5 of
      bits per sample - 1 and 36 of total samples, most significant first. */
  function WordDigits(rate: nat, channelCode: nat, depthCode: nat, samples: nat): (data: string)
    ensures |data| == 64
  {
    BinaryDigits(rate, 20) + BinaryDigits(channelCode, 3) + BinaryDigits(depthCode, 5) + BinaryDigits(samples, 36)
  }

  /** The 64-bit word those digits spell. */
  function PackWord(rate: nat, channelCode: nat, depthCode: nat, samples: nat): nat
  {
    ParseBinary(WordDigits(rate, channelCode, depthCode, samples))
  }

  predicate WordFields(rate: nat, channelCode: nat, depthCode: nat, samples: nat)
  {
    rate < 1048576 && channelCode < 8 && depthCode < 32 && samples < 68719476736
  }

  /** A packed word has 64 bits, and writing it out gives back its digits. */
  lemma PackDigits(rate: nat, channelCode: nat, depthCode: nat, samples: nat)
    ensures PackWord(rate, channelCode, depthCode, samples) < Pow2(64)
    ensures BinaryDigits(PackWord(rate, channelCode, depthCode, samples), 64) == WordDigits(rate, channelCode, depthCode, samples)
  {
    var data := WordDigits(rate, channelCode, depthCode, samples);
    BinaryDigitsAreBinary(rate, 20);
    BinaryDigitsAreBinary(channelCode, 3);
    BinaryDigitsAreBinary(depthCode, 5);
    BinaryDigitsAreBinary(samples, 36);
    BinaryConcat(BinaryDigits(rate, 20), BinaryDigits(channelCode, 3));
    BinaryConcat(BinaryDigits(rate, 20) + BinaryDigits(channelCode, 3), BinaryDigits(depthCode, 5));
    BinaryConcat(BinaryDigits(rate, 20) + BinaryDigits(channelCode, 3) + BinaryDigits(depthCode, 5), BinaryDigits(samples, 36));
    ParseBinaryBound(data);
    DigitsOfParse(data);
  }

  /** A packed word has 64 bits. */
  lemma PackBound(rate: nat, channelCode: nat, depthCode: nat, samples: nat)
    ensures PackWord(rate, channelCode, depthCode, samples) < 0x1_0000_0000_0000_0000
  {
    ParseBinaryBound(WordDigits(rate, channelCode, depthCode, samples));
    Pow2Values();
  }

  /** Every word below 2^64 packs the four fields its digits hold. */
  lemma UnpackWord(w: nat) returns (rate: nat, channelCode: nat, depthCode: nat, samples: nat)
    requires w < Pow2(64)
    ensures WordFields(rate, channelCode, depthCode, samples)
    ensures w == PackWord(rate, channelCode, depthCode, samples)
  {
    var data := BinaryDigits(w, 64);
    Pow2Values();
    BinaryDigitsAreBinary(w, 64);
    rate := DigitsField(data, 0, 20, 20);
    channelCode := DigitsField(data, 20, 23, 3);
    depthCode := DigitsField(data, 23, 28, 5);
    samples := DigitsField(data, 28, 64, 36);
    FourPieces(data, 20, 23, 28, 64);
    ParseBinaryDigits(w, 64);
  }

  /** Cutting the digits of a packed word at 20, 23 and 28 gives back its fields. */
  lemma FieldsOfPack(rate: nat, channelCode: nat, depthCode: nat, samples: nat)
    requires WordFields(rate, channelCode, depthCode, samples)
    ensures var data := BinaryDigits(PackWord(rate, channelCode, depthCode, samples), 64);
      && ParseBinary(data[0..20]) == rate && ParseBinary(data[20..23]) == channelCode
      && ParseBinary(data[23..28]) == depthCode && ParseBinary(data[28..64]) == samples
  {
    Pow2Values();
    PackDigits(rate, channelCode, depthCode, samples);
    var data := BinaryDigits(PackWord(rate, channelCode, depthCode, samples), 64);
    SliceFour(BinaryDigits(rate, 20), BinaryDigits(channelCode, 3), BinaryDigits(depthCode, 5), BinaryDigits(samples, 36));
    ParseBinaryDigits(rate, 20);
    ParseBinaryDigits(channelCode, 3);
    ParseBinaryDigits(depthCode, 5);
    ParseBinaryDigits(samples, 36);
  }

  /** The field widths of STREAMINFO: 16-bit block sizes, 24-bit frame sizes,
      a 20-bit rate, one to eight channels, one to 32 bits per sample, and a
      36-bit sample count. */
  predicate Valid(si: StreamInfo)
  {
    && si.blockMinSize < 65536 && si.blockMaxSize < 65536
    && si.frameMinSize < 16777216 && si.frameMaxSize < 16777216
    && 1 <= si.channels && 1 <= si.bitsPerSample
    && WordFields(si.rate, si.channels - 1, si.bitsPerSample - 1, si.samplesInFlow)
  }

  /** The 64-bit word of si: rate, channels - 1, bits per sample - 1 and total samples. */
  function Word(si: StreamInfo): nat
    requires Valid(si)
  {
    PackWord(si.rate, si.channels - 1, si.bitsPerSample - 1, si.samplesInFlow)
  }

  /** The four fields cut from the 64 digits of a word are the fields it packs. */
  lemma WordFieldsOf(w: nat)
    requires w < Pow2(64)
    ensures var data := BinaryDigits(w, 64);
      && WordFields(ParseBinary(data[0..20]), ParseBinary(data[20..23]), ParseBinary(data[23..28]), ParseBinary(data[28..64]))
      && w == PackWord(ParseBinary(data[0..20]), ParseBinary(data[20..23]), ParseBinary(data[23..28]), ParseBinary(data[28..64]))
  {
    Pow2Values();
    var rate, channelCode, depthCode, samples := UnpackWord(w);
    FieldsOfPack(rate, channelCode, depthCode, samples);
  }

  /** Whatever the block holds, the decoded values fit their fields: channels
      are one to eight and bits per sample one to 32, and bytes 10..18 are
      exactly the word packed from rate, channels, bit depth and sample count. */
  lemma StreamInfoFields(block: seq<byte>)
    ensures var si := DecodeStreamInfo(block);
      && Valid(si) && 1 <= si.channels <= 8 && 1 <= si.bitsPerSample <= 32
      && BigEndian(Slice(block, 10, 18)) == PackWord(si.rate, si.channels - 1, si.bitsPerSample - 1, si.samplesInFlow)
  {
    Pow2Values();
    var w := BigEndian(Slice(block, 10, 18));
    BigEndianSliceBound(block, 10, 18, 64);
    WordFieldsOf(w);
    var data := BinaryDigits(w, 64);
    var si := DecodeStreamInfo(block);
    assert si.rate == ParseBinary(data[0..20]) && si.channels == ParseBinary(data[20..23]) + 1;
    assert si.bitsPerSample == ParseBinary(data[23..28]) + 1 && si.samplesInFlow == ParseBinary(data[28..64]);
    BigEndianSliceBound(block, 0, 2, 16);
    BigEndianSliceBound(block, 2, 4, 16);
    BigEndianSliceBound(block, 4, 7, 24);
    BigEndianSliceBound(block, 7, 10, 24);
  }

  /** The four values cut from the word W in bytes 10..18 are bit fields of it:
      rate is W >> 44, channels ((W >> 41) & 7) + 1, bits per sample
      ((W >> 36) & 31) + 1 and the sample count the low 36 bits. */
  lemma StreamInfoShifts(block: seq<byte>)
    ensures var w, si := BigEndian(Slice(block, 10, 18)), DecodeStreamInfo(block);
      && si.rate == w / 0x1000_0000_0000
      && si.channels == w % 0x1000_0000_0000 / 0x200_0000_0000 + 1
      && si.bitsPerSample == w % 0x200_0000_0000 / 0x10_0000_0000 + 1
      && si.samplesInFlow == w % 0x10_0000_0000
  {
    var w := BigEndian(Slice(block, 10, 18));
    BigEndianSliceBound(block, 10, 18, 64);
    RateShift(w);
    ChannelsShift(w);
    DepthShift(w);
    SamplesShift(w);
  }

  lemma RateShift(w: nat)
    requires w < Pow2(64)
    ensures ParseBinary(BinaryDigits(w, 64)[0..20]) == w / 0x1000_0000_0000
  {
    DigitField(w, 64, 0, 20);
    Pow2Values();
    DivModUnique(w, Pow2(64), 0, w);
  }

  lemma ChannelsShift(w: nat)
    requires w < Pow2(64)
    ensures ParseBinary(BinaryDigits(w, 64)[20..23]) == w % 0x1000_0000_0000 / 0x200_0000_0000
  {
    DigitField(w, 64, 20, 23);
    Pow2Values();
  }

  lemma DepthShift(w: nat)
    requires w < Pow2(64)
    ensures ParseBinary(BinaryDigits(w, 64)[23..28]) == w % 0x200_0000_0000 / 0x10_0000_0000
  {
    DigitField(w, 64, 23, 28);
    Pow2Values();
  }

  lemma SamplesShift(w: nat)
    requires w < Pow2(64)
    ensures ParseBinary(BinaryDigits(w, 64)[28..64]) == w % 0x10_0000_0000
  {
    DigitField(w, 64, 28, 64);
    Pow2Values();
  }

  /** The four values repack into the word W in bytes 10..18:
      W == rate << 44 | (channels - 1) << 41 | (bits per sample - 1) << 36 | samples. */
  lemma RepackShifts(block: seq<byte>)
    ensures var w, si := BigEndian(Slice(block, 10, 18)), DecodeStreamInfo(block);
      w == si.rate * 0x1000_0000_0000 + (si.channels - 1) * 0x200_0000_0000
           + (si.bitsPerSample - 1) * 0x10_0000_0000 + si.samplesInFlow
  {
    StreamInfoShifts(block);
    Repack(BigEndian(Slice(block, 10, 18)));
  }

  /** Cutting w at bits 44, 41 and 36 and putting the pieces back gives w. */
  lemma Repack(w: nat)
    ensures w == w / 0x1000_0000_0000 * 0x1000_0000_0000
      + w % 0x1000_0000_0000 / 0x200_0000_0000 * 0x200_0000_0000
      + w % 0x200_0000_0000 / 0x10_0000_0000 * 0x10_0000_0000 + w % 0x10_0000_0000
  {
    DivMod(w, 0x1000_0000_0000);
    DivMod(w % 0x1000_0000_0000, 0x200_0000_0000);
    DivMod(w % 0x200_0000_0000, 0x10_0000_0000);
    ModOfMod(w, 0x200_0000_0000, 8);
    ModOfMod(w, 0x10_0000_0000, 32);
  }

  /** Only the first 18 bytes are read: the MD5 signature after them, or anything
      else, does not change the values. */
  lemma FirstEighteenBytes(block: seq<byte>)
    requires |block| >= 18
    ensures DecodeStreamInfo(block) == DecodeStreamInfo(block[..18])
  {
    var head := block[..18];
    assert Slice(block, 0, 2) == Slice(head, 0, 2) && Slice(block, 2, 4) == Slice(head, 2, 4);
    assert Slice(block, 4, 7) == Slice(head, 4, 7) && Slice(block, 7, 10) == Slice(head, 7, 10);
    assert Slice(block, 10, 18) == Slice(head, 10, 18);
  }

  /** The first 18 bytes of a STREAMINFO block holding si. */
  function EncodeStreamInfo(si: StreamInfo): (block: seq<byte>)
    requires Valid(si)
    ensures |block| == 18
  {
    ToBigEndian(si.blockMinSize, 2) + ToBigEndian(si.blockMaxSize, 2)
    + ToBigEndian(si.frameMinSize, 3) + ToBigEndian(si.frameMaxSize, 3)
    + ToBigEndian(Word(si), 8)
  }

  lemma StreamInfoRoundTrip(si: StreamInfo)
    requires Valid(si)
    ensures DecodeStreamInfo(EncodeStreamInfo(si)) == si
  {
    var block := EncodeStreamInfo(si);
    EncodedSlices(si, block);
    EncodedSizes(si, block);
    WordReadBack(si, block);
    DecodedWordOf(si, block);
  }

  /** Bytes 10..18 holding the word of si read back as it. */
  lemma WordReadBack(si: StreamInfo, block: seq<byte>)
    requires Valid(si) && Slice(block, 10, 18) == ToBigEndian(Word(si), 8)
    ensures BigEndian(Slice(block, 10, 18)) == Word(si)
  {
    PackBound(si.rate, si.channels - 1, si.bitsPerSample - 1, si.samplesInFlow);
    EncodedWord(Word(si), block);
  }

  /** A block whose bytes 10..18 read as the word of si decodes to its last four values. */
  lemma DecodedWordOf(si: StreamInfo, block: seq<byte>)
    requires Valid(si) && BigEndian(Slice(block, 10, 18)) == Word(si)
    ensures DecodeStreamInfo(block).rate == si.rate
    ensures DecodeStreamInfo(block).channels == si.channels
    ensures DecodeStreamInfo(block).bitsPerSample == si.bitsPerSample
    ensures DecodeStreamInfo(block).samplesInFlow == si.samplesInFlow
  {
    DecodedWordFields(block, si.rate, si.channels - 1, si.bitsPerSample - 1, si.samplesInFlow);
  }

  /** Where the encoding puts each value. */
  lemma EncodedSlices(si: StreamInfo, block: seq<byte>)
    requires Valid(si) && block == EncodeStreamInfo(si)
    ensures Slice(block, 0, 2) == ToBigEndian(si.blockMinSize, 2)
    ensures Slice(block, 2, 4) == ToBigEndian(si.blockMaxSize, 2)
    ensures Slice(block, 4, 7) == ToBigEndian(si.frameMinSize, 3)
    ensures Slice(block, 7, 10) == ToBigEndian(si.frameMaxSize, 3)
    ensures Slice(block, 10, 18) == ToBigEndian(Word(si), 8)
  {
    var w := Word(si);
    SlicesOfConcat(ToBigEndian(si.blockMinSize, 2), ToBigEndian(si.blockMaxSize, 2),
      ToBigEndian(si.frameMinSize, 3), ToBigEndian(si.frameMaxSize, 3), ToBigEndian(w, 8), 2, 4, 7, 10, 18);
  }

  /** A block holding the four sizes of si decodes to them. */
  lemma EncodedSizes(si: StreamInfo, block: seq<byte>)
    requires Valid(si)
    requires Slice(block, 0, 2) == ToBigEndian(si.blockMinSize, 2)
    requires Slice(block, 2, 4) == ToBigEndian(si.blockMaxSize, 2)
    requires Slice(block, 4, 7) == ToBigEndian(si.frameMinSize, 3)
    requires Slice(block, 7, 10) == ToBigEndian(si.frameMaxSize, 3)
    ensures DecodeStreamInfo(block).blockMinSize == si.blockMinSize
    ensures DecodeStreamInfo(block).blockMaxSize == si.blockMaxSize
    ensures DecodeStreamInfo(block).frameMinSize == si.frameMinSize
    ensures DecodeStreamInfo(block).frameMaxSize == si.frameMaxSize
  {
    Pow2Values();
    BigEndianOfToBigEndianBits(si.blockMinSize, 2, 16);
    BigEndianOfToBigEndianBits(si.blockMaxSize, 2, 16);
    BigEndianOfToBigEndianBits(si.frameMinSize, 3, 24);
    BigEndianOfToBigEndianBits(si.frameMaxSize, 3, 24);
  }

  /** The encoded word reads back as the packed word. */
  lemma EncodedWord(w: nat, block: seq<byte>)
    requires w < 0x1_0000_0000_0000_0000 && Slice(block, 10, 18) == ToBigEndian(w, 8)
    ensures BigEndian(Slice(block, 10, 18)) == w
  {
    Pow2Values();
    SliceValue(block, 10, 18, w, 8, 64);
  }

  /** A block whose bytes 10..18 hold a packed word decodes to that word's fields. */
  lemma DecodedWordFields(block: seq<byte>, rate: nat, channelCode: nat, depthCode: nat, samples: nat)
    requires WordFields(rate, channelCode, depthCode, samples)
    requires BigEndian(Slice(block, 10, 18)) == PackWord(rate, channelCode, depthCode, samples)
    ensures DecodeStreamInfo(block).rate == rate
    ensures DecodeStreamInfo(block).channels == channelCode + 1
    ensures DecodeStreamInfo(block).bitsPerSample == depthCode + 1
    ensures DecodeStreamInfo(block).samplesInFlow == samples
  {
    FieldsOfPack(rate, channelCode, depthCode, samples);
  }

  lemma StreamInfoBytesRoundTrip(block: seq<byte>)
    requires |block| == 18
    ensures Valid(DecodeStreamInfo(block)) && EncodeStreamInfo(DecodeStreamInfo(block)) == block
  {
    StreamInfoFields(block);
    EncodeOfFields(block, DecodeStreamInfo(block));
  }

  /** Encoding the values an 18-byte block holds gives the block back. */
  lemma EncodeOfFields(block: seq<byte>, si: StreamInfo)
    requires |block| == 18 && Valid(si)
    requires si.blockMinSize == BigEndian(Slice(block, 0, 2)) && si.blockMaxSize == BigEndian(Slice(block, 2, 4))
    requires si.frameMinSize == BigEndian(Slice(block, 4, 7)) && si.frameMaxSize == BigEndian(Slice(block, 7, 10))
    requires BigEndian(Slice(block, 10, 18)) == PackWord(si.rate, si.channels - 1, si.bitsPerSample - 1, si.samplesInFlow)
    ensures EncodeStreamInfo(si) == block
  {
    SizesWrittenBack(block, si);
    WordWrittenBack(block, si);
    Reassemble(block, ToBigEndian(si.blockMinSize, 2), ToBigEndian(si.blockMaxSize, 2),
      ToBigEndian(si.frameMinSize, 3), ToBigEndian(si.frameMaxSize, 3), ToBigEndian(Word(si), 8));
  }

  lemma SizesWrittenBack(block: seq<byte>, si: StreamInfo)
    requires |block| == 18
    requires si.blockMinSize == BigEndian(Slice(block, 0, 2)) && si.blockMaxSize == BigEndian(Slice(block, 2, 4))
    requires si.frameMinSize == BigEndian(Slice(block, 4, 7)) && si.frameMaxSize == BigEndian(Slice(block, 7, 10))
    ensures ToBigEndian(si.blockMinSize, 2) == Slice(block, 0, 2) && ToBigEndian(si.blockMaxSize, 2) == Slice(block, 2, 4)
    ensures ToBigEndian(si.frameMinSize, 3) == Slice(block, 4, 7) && ToBigEndian(si.frameMaxSize, 3) == Slice(block, 7, 10)
  {
    ToBigEndianOfBigEndian(Slice(block, 0, 2));
    ToBigEndianOfBigEndian(Slice(block, 2, 4));
    ToBigEndianOfBigEndian(Slice(block, 4, 7));
    ToBigEndianOfBigEndian(Slice(block, 7, 10));
  }

  lemma WordWrittenBack(block: seq<byte>, si: StreamInfo)
    requires |block| == 18 && Valid(si)
    requires BigEndian(Slice(block, 10, 18)) == Word(si)
    ensures ToBigEndian(Word(si), 8) == Slice(block, 10, 18)
  {
    ToBigEndianOfBigEndian(Slice(block, 10, 18));
  }

  /** An 18-byte block is the concatenation of its five value slices. */
  lemma Reassemble(block: seq<byte>, a: seq<byte>, b: seq<byte>, c: seq<byte>, d: seq<byte>, e: seq<byte>)
    requires |block| == 18
    requires a == Slice(block, 0, 2) && b == Slice(block, 2, 4) && c == Slice(block, 4, 7)
    requires d == Slice(block, 7, 10) && e == Slice(block, 10, 18)
    ensures a + b + c + d + e == block
  {
    ConcatOfSlices(block, 2, 4, 7, 10);
  }
}
