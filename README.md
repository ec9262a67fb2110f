# FLAC metadata parser

A Dafny model of the metadata parser of `flac.py`, the class `AudioFile`.
Opening a file checks the four-byte marker `fLaC`. It then walks the
metadata blocks that follow the marker (section 8.1 of RFC 9639) and records
the byte ranges of the STREAMINFO, VORBIS_COMMENT and PICTURE blocks. Next it
decodes the STREAMINFO block (section 8.2 of RFC 9639) and, when there is one,
the VORBIS_COMMENT block (section 8.6 of RFC 9639). A PICTURE block
(section 8.8 of RFC 9639) is decoded on request.

The file is a byte sequence held by the object. UTF-8 decoding is a function
parameter: every string the parser decodes goes through it, and it may fail.
The one exception is the marker, which is compared as the four bytes of `fLaC`.
Python's clamped slicing (`Bytes.Slice`), `int.from_bytes`, `bin(x)[2:].zfill(n)`
with `int(s, 2)`, and `re.match` of the two patterns `(.+?)=(.+)` and
`.+?/(.+)` are written out. Every exception the parser can raise becomes an
`Error` value.

Modules, in dependency order:

- `Arith`: powers of two and facts about division.
- `Results`: `Option`, `Result` and the parser's failures.
- `Bytes`: bytes, slicing, and big- and little-endian values.
- `Bits`: binary digit strings.
- `Pattern`: the two regular expressions.
- `Utf8`: text decoding.
- `Metadata`: block headers and the block walk.
- `StreamInfoDecoder`: the STREAMINFO block.
- `VorbisComment`: the VORBIS_COMMENT block.
- `PictureDecoder`: the PICTURE block.
- `Flac`: the class `AudioFile` and its constructor.

The code does not check the following, and neither does the model:

- The walk has no truncation check. A block whose size runs past the end of the file is recorded with its declared range, and its payload is then read through clamped slices.
- STREAMINFO never fails. Missing bytes read as nothing: slices are clamped and `int.from_bytes(b'')` is 0. A field wholly past the end of a short block is 0, a field cut short is the value of the bytes that remain, and a zero sample rate is accepted.
- A length field that points past the end of a VORBIS_COMMENT or PICTURE block is not checked; the slice is clamped, and the clamped text is then decoded and matched like any other.
- The extension is the text after the first `/` of the MIME type that follows a non-empty type. A MIME type with several `/` keeps the later ones in the extension.

## Model

| member | source | states |
|---|---|---|
| Bytes.Slice | flac.py:19-85 | Python's `s[i:j]` for the non-negative bounds the parser uses: both bounds clamped to the length, and the empty sequence when j ≤ i; its ensures give the three cases |
| Bytes.BigEndian | flac.py:27-84 | `int.from_bytes(s, byteorder='big')`, 0 for no bytes; BigEndianBound, BigEndianOfToBigEndian and ToBigEndianOfBigEndian state it |
| Bytes.LittleEndian | flac.py:36-44 | `int.from_bytes(s, byteorder='little')`, 0 for no bytes, so the four-byte lengths and count are below 2^32; LittleEndianBound, LittleEndianOfToLittleEndian and ToLittleEndianOfLittleEndian state it |
| Bits.BinaryDigits | flac.py:24-68 | `bin(x)[2:].zfill(n)` for a value below 2^n; its ensures and BinaryDigitsAreBinary state its length and digits |
| Bits.ParseBinary | flac.py:25-72 | `int(s, 2)` on a string of binary digits; ParseBinaryDigits, ParseBinaryBound and DigitsOfParse state it |
| Utf8.DecodeText | flac.py:37-83 | `bytes.decode()`, with UnicodeDecodeError as InvalidUtf8 where the decoder finds no text |
| Pattern.Split | flac.py:42-81 | `re.match` of `(.+?)<sep>(.+)` as the parser uses it with `=` and `/`: the two groups, or no match; SplitMatches, SplitJoin and SplitNeedsSeparator state it |
| Flac.IsFlac | flac.py:16-20 | the marker check: the first four bytes of the file, clamped, are `fLaC`; IsFlacBytes states it byte by byte |
| Flac.IsFlacBytes | flac.py:16-20 | the marker check passes exactly when the file has at least four bytes and they are 0x66 0x4C 0x61 0x43 (`fLaC`) |
| Metadata.DecodeBlockHeader | flac.py:22-28 | parse_metadata_block_header with `bin`, `zfill(8)`, `int(s, 2)` and `int.from_bytes` written out; HeaderFields and the round trips below state what it computes |
| Metadata.HeaderFields | flac.py:22-28 | every header of one to four bytes decodes: the last-block flag is set iff byte 0 is at least 128, the type is byte 0 mod 128 (below 128), and the size is the big-endian value of the remaining bytes, below 2^24, which is b1·65536 + b2·256 + b3 for four bytes |
| Metadata.HeaderRoundTrip | flac.py:22-28 | encoding any header whose type is below 128 and whose size is below 2^24, then decoding it, gives the header back |
| Metadata.HeaderBytesRoundTrip | flac.py:22-28 | every four-byte header decodes to fields within those bounds that encode back to the same four bytes |
| Metadata.HeaderAt | flac.py:95-96 | the header at the walk's cursor, read field by field from `file[pos:pos+4]`; HeaderAtDecodes states that it is the decoding of that slice |
| Metadata.HeaderAtDecodes | flac.py:95-96 | the header the walk reads field by field at a cursor is the decoding of `file[pos:pos+4]` |
| Metadata.BlocksFrom | flac.py:92-107 | the while loop as a recursive walk over the file from a cursor, reading a header at each cursor and failing where `file[pos]` raises IndexError; WalkIsChained and WalkFailsPastEnd state what it visits |
| Metadata.Classify | flac.py:97-106 | how one visited block is recorded in the positions by its type; IndexByType states it for a list of blocks |
| Metadata.Index | flac.py:97-106 | the positions after recording every visited block in order; IndexByType and RangesOfTypeMembers state it |
| Metadata.WalkIsChained | flac.py:92-107 | a successful walk from cursor p visits a non-empty list of blocks. The first payload starts at p + 4. Each block's header is the one read at its cursor, and its range is (cursor + 4, cursor + 4 + size). Each next block starts one header after the previous payload ends. Every block except the last has the flag clear, and the last has it set |
| Metadata.WalkFailsPastEnd | flac.py:94-96 | the walk fails only by reaching a cursor at or past the end of the file, not before the cursor it started from, where `file[pos]` raises IndexError |
| Metadata.WalkPositionsOrdered | flac.py:97-107 | the payload ranges of the visited blocks, and the recorded PICTURE ranges, are in increasing file order. Each range has start ≤ end, and there is at least a header's four bytes between one range and the next |
| Metadata.IndexByType | flac.py:98-106 | after recording a list of blocks, the STREAMINFO and VORBIS_COMMENT entries are the ranges of the last block of that type, or the previous entry when there is none. The picture list is the previous list followed by every type-6 range in file order. Other types change nothing |
| Metadata.RangesOfTypeMembers | flac.py:98-106 | a range is among those kept for a type exactly when some visited block of that type has it |
| StreamInfoDecoder.DecodeStreamInfo | flac.py:60-72 | parse_streaminfo on the block's bytes, with the 64 binary digits of bytes 10..18 cut at 20, 23, 28 and 64; StreamInfoFields, StreamInfoShifts and the round trips state what it computes |
| StreamInfoDecoder.StreamInfoFields | flac.py:60-72 | every block decodes. The block sizes are below 2^16 and the frame sizes below 2^24. Channels are 1..8 and bits per sample 1..32. Bytes 10..18 are exactly the word packed from rate, channels − 1, bits per sample − 1 and sample count |
| StreamInfoDecoder.StreamInfoShifts | flac.py:68-72 | with W the big-endian value of bytes 10..18: rate = W >> 44, channels = ((W >> 41) & 7) + 1, bits per sample = ((W >> 36) & 31) + 1, and sample count = W mod 2^36 |
| StreamInfoDecoder.RepackShifts | flac.py:68-72 | the four values repack into W: W = rate·2^44 + (channels − 1)·2^41 + (bits per sample − 1)·2^36 + sample count, the bit fields laid side by side |
| StreamInfoDecoder.StreamInfoRoundTrip | flac.py:60-72 | encoding any STREAMINFO within the field widths, then decoding it, gives the same values back |
| StreamInfoDecoder.StreamInfoBytesRoundTrip | flac.py:60-72 | every 18-byte block decodes to values within the field widths that encode back to the same 18 bytes, so repacking the fields gives W exactly |
| StreamInfoDecoder.FirstEighteenBytes | flac.py:58-68 | only the first 18 bytes of the block are read; the MD5 signature after them has no effect |
| Pattern.SplitMatches | flac.py:42-47 | `(.+?)<sep>(.+)` matches iff some position k ≥ 1 has the separator, is followed by a non-newline character, and has no newline before it. When it matches, the name is the prefix before the first such position. The value is the longest non-empty run of non-newline characters after the separator |
| Pattern.SplitJoin | flac.py:42-47 | a non-empty name without the separator or a newline, joined by the separator to a non-empty value without a newline, splits back into the same name and value |
| Pattern.SplitNeedsSeparator | flac.py:45-46 | a text without the separator does not match |
| VorbisComment.LengthAt | flac.py:44 | the length of the comment at the cursor, `int.from_bytes(block[pos:pos+4], 'little')` |
| VorbisComment.TagText | flac.py:45 | the comment's bytes `block[pos+4:pos+4+length]`; EncodedLength states that an encoded comment is read whole |
| VorbisComment.NextTag | flac.py:52 | the cursor step `pos += 4 + length`; CursorStep and CursorSum state where n steps lead |
| VorbisComment.ParseTag | flac.py:45-47 | one comment decoded and matched against `(.+?)=(.+)`, failing on text that is not UTF-8 and on no match; TagExample and TagNeedsSeparator state it |
| VorbisComment.TagsFrom | flac.py:43-52 | the for loop as a recursive function from a cursor: read, match and record each comment, then advance by 4 + its length; TagsFromSplits, TagsFromErrors and VendorCommentFails state it |
| VorbisComment.DecodeVorbisComment | flac.py:36-53 | parse_vorbis_comment on the block's bytes, the vendor string apart from the comments; DecodedFields, DecodeVorbisCommentErrors and VorbisCommentRoundTrip state it |
| VorbisComment.Insert | flac.py:48-51 | recording a value keeps every other name's set, adds the name if new, and adds the value to its set |
| VorbisComment.VendorCommentFails | flac.py:38-51 | after the loop has read i comments, a comment named `vendor` at the cursor they leave makes the loop fail, because `tags['vendor']` holds the vendor string, a str with no `add` |
| VorbisComment.VendorCommentFailsBlock | flac.py:36-51 | a block whose vendor string decodes fails with that failure when one of its comments, after comments that read, is named `vendor` |
| VorbisComment.BadCommentFails | flac.py:43-47 | after the loop has read i comments, a comment at the cursor they leave that is not UTF-8 or has no name=value match makes the loop fail with that failure |
| VorbisComment.BadCommentFailsBlock | flac.py:36-47 | a block whose vendor string decodes fails with the failure of a comment that does not decode or match, reached after comments that read |
| VorbisComment.VendorNotUtf8Fails | flac.py:36-37 | a vendor string that is not UTF-8 fails the block with InvalidUtf8 |
| VorbisComment.CursorStep | flac.py:44-52 | reading one more comment moves the cursor from where n comments left it by 4 + that comment's length |
| VorbisComment.CursorSum | flac.py:41-52 | after n comments read from pos, the cursor is at pos + 4n + the sum of the n length fields, i.e. 8 + L0 + Σ(4 + Li) from the block start |
| VorbisComment.TagsFromSplits | flac.py:43-52 | the comment loop is the same as reading all the (name, value) pairs and then recording them: it fails with the same failure, and otherwise records the same sets |
| VorbisComment.AddAllCollects | flac.py:48-51 | after recording a list of pairs, a name's set is its earlier set plus exactly the values the pairs give it, and earlier values are kept |
| VorbisComment.AddAllOrder | flac.py:48-51 | the recorded sets depend neither on the order of the comments nor on repeated comments |
| VorbisComment.ReadPairsNames | flac.py:43-51 | a successful read of n comments gives n pairs, each with a non-empty name other than `vendor` and a non-empty value |
| VorbisComment.DecodedFields | flac.py:36-53 | in a decoded block no comment is filed under `vendor`, and every recorded name has at least one value |
| VorbisComment.TagsFromErrors | flac.py:43-51 | the comment loop fails only on text that is not UTF-8, a comment that does not match name=value, or a comment named `vendor` |
| VorbisComment.DecodeVorbisCommentErrors | flac.py:36-53 | decoding the block fails only in those three ways |
| VorbisComment.VorbisCommentRoundTrip | flac.py:36-52 | encoding a vendor string and comments that decode to name=value pairs, then decoding the block, gives back the vendor string and, for every name, the set of values its comments give it |
| VorbisComment.TagExample | flac.py:45-47 | the comment `TITLE=My=Song` gives name `TITLE` and value `My=Song` |
| VorbisComment.TagNeedsSeparator | flac.py:45-46 | a comment without `=` fails |
| PictureDecoder.Subtype | flac.py:79-81 | the group of `.+?/(.+)` on a MIME type, failing where `.group` is taken on no match; SubtypeExample states it |
| PictureDecoder.SubtypeExample | flac.py:79-81 | the MIME type `image/png` gives the extension `png`, and a MIME type without `/` fails to match |
| PictureDecoder.ReadLayout | flac.py:80-84 | the MIME subtype and the three lengths read in front of the data, the description decoded but unused; PictureFailures states its failures |
| PictureDecoder.DecodePicture | flac.py:79-85 | the picture with the payload slice ending at its full length; PictureRoundTrip states it |
| PictureDecoder.DecodePictureAsWritten | flac.py:79-85 | the picture with the payload slice exactly as written; AsWrittenDropsTwenty and AsWrittenLosesTail state it |
| PictureDecoder.PictureRoundTrip | flac.py:79-85 | encoding a picture, then decoding the block with the payload taken for its full length, gives back the MIME subtype as the extension and exactly the data |
| PictureDecoder.AsWrittenDropsTwenty | flac.py:84-85 | the slice as written and the full-length slice fail alike and agree on the extension. The slice as written is a prefix of the full data. When the block holds the whole payload, it is 20 bytes shorter, or empty for payloads under 20 bytes |
| PictureDecoder.AsWrittenLosesTail | flac.py:85 | on every encoded picture, the slice as written yields the data without its last 20 bytes, so it differs from the picture whenever the data is non-empty |
| PictureDecoder.PictureFailures | flac.py:79-83 | decoding fails with InvalidUtf8 on a MIME type that is not UTF-8, and with MimeWithoutSubtype on one that `.+?/(.+)` does not match. A description that is not UTF-8 also gives InvalidUtf8. There is no other failure |
| Flac.AudioFile.constructor | flac.py:5-8 | a new object over the file has no positions, no STREAMINFO values and no tags |
| Flac.AudioFile.Open | flac.py:5-14 | the constructor succeeds exactly when Load does, fails with Load's failure, and otherwise leaves the positions, the STREAMINFO values and the tags that Load gives |
| Flac.AudioFile.ParseBlocks | flac.py:10-14 | after the walk: the STREAMINFO block is decoded, then the VORBIS_COMMENT block when one was recorded. It fails as LoadBlocks does and otherwise stores its values. The positions do not change |
| Flac.AudioFile.ParseMetadata | flac.py:89-107 | the while loop fails exactly when the walk from offset 4 does, with the same failure. Otherwise the positions are the old ones with every visited block recorded in file order (Index). STREAMINFO and tags do not change |
| Flac.AudioFile.ParseStreaminfo | flac.py:55-72 | fails with MissingStreamInfo (the KeyError) when no STREAMINFO block was recorded, and otherwise stores the decoding of its bytes; nothing else changes |
| Flac.AudioFile.ParseVorbisComment | flac.py:30-53 | fails with MissingVorbisComment when no VORBIS_COMMENT block was recorded, and otherwise returns the decoding of its bytes |
| Flac.AudioFile.ReadComments | flac.py:41-52 | the for loop over the count comments gives what the comment loop function gives from the first comment |
| Flac.AudioFile.ParsePicture | flac.py:74-85 | fails with MissingPicture when no PICTURE block was recorded, and otherwise decodes the first recorded one |
| Flac.Load | flac.py:5-14 | the constructor as a function of the file: the marker check, the walk from offset 4, then LoadBlocks; LoadNotFlac, LoadRecordsBlocks and LoadMinimalFile state it |
| Flac.LoadBlocks | flac.py:10-14 | the STREAMINFO values, then the tags when a VORBIS_COMMENT block was recorded; LoadRecordsBlocks states it |
| Flac.LoadNotFlac | flac.py:5-20 | opening fails with NotFlac exactly when the marker check fails; no later step raises that failure |
| Flac.LoadRecordsBlocks | flac.py:8-14 | for a FLAC file whose walk succeeds, opening fails with MissingStreamInfo exactly when no STREAMINFO block was met. Otherwise the values are read from the last STREAMINFO block. The tags are present exactly when a VORBIS_COMMENT block was met and come from the last one. The pictures are every PICTURE block, in file order and without overlap |
| Flac.LoadOutcome | flac.py:10-14 | for a FLAC file whose walk succeeds, opening succeeds exactly when a STREAMINFO block was met and the last VORBIS_COMMENT block, if any, decodes; when it does not, opening fails with that block's failure |
| Flac.LoadWalkFails | flac.py:7-9 | for a FLAC file whose walk fails, opening fails with the walk's failure, a header read at or past the end of the file |
| Flac.LoadMinimalFile | flac.py:5-14 | the smallest file, the marker followed by one STREAMINFO block marked last, opens with that block's values at range (8, 42), with no comments and no pictures |
| Flac.LoadEmptyComments | flac.py:5-14 | a file with a STREAMINFO block and then an empty VORBIS_COMMENT block flagged last opens with ranges (8, 42) and (46, 54), no pictures, those STREAMINFO values, and an empty vendor string with no comments |

## Left out

- File I/O: the repeated `open(...).read()` calls are the `file` field, and the write of `pic.<ext>` (flac.py:86-87) is not modelled. `ParsePicture` returns the extension and the full picture data; the source writes the data that `PictureDecoder.DecodePictureAsWritten` gives.
- `player.py` and `player_cli.py` are not part of this model: they are a Qt interface and a command-line loop around an external media player.
- UTF-8 decoding is the `Decoder` parameter, a function that may fail. The model does not check UTF-8 validity itself.
- Flac.IsFlac: a marker that is not valid UTF-8 raises UnicodeDecodeError in the source. The model reports it as NotFlac, like any other wrong marker.
- Flac.AudioFile.ParseMetadata: on failure, its contract does not state which positions the blocks visited before the failure left behind.
- Flac.AudioFile.Open: a Dafny constructor cannot fail, so the raising constructor is the static `Open` over an unnamed constructor that only sets up the blank object.
- Flac.AudioFile.ParsePicture: it uses the corrected payload slice. The slice as written is `PictureDecoder.DecodePictureAsWritten` (see Findings).
- The MD5 signature and the audio frames after the metadata are not read by the parser, and are not modelled.

## Findings

| source | as written | input that shows it | evidently intended | confidence | as-written member | corrected member |
|---|---|---|---|---|---|---|
| flac.py:85 | the picture payload slice ends at `8+ext_len+4+descr_len+pic_len`, leaving out the 20 bytes of dimensions, palette size and payload length that the start offset counts | any PICTURE block with a 30-byte payload: 10 bytes are taken. Payloads of at most 20 bytes give nothing | the payload ends at `8+ext_len+4+descr_len+20+pic_len`, so exactly `pic_len` bytes are taken | high; not executed | PictureDecoder.AsWrittenLosesTail | PictureDecoder.PictureRoundTrip |
