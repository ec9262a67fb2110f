/** The VORBIS_COMMENT block (section 8.6 of RFC 9639) as the parser reads it:
    a four-byte little-endian length and the vendor string, a four-byte
    little-endian count, then that many comments, each a four-byte
    little-endian length followed by a name=value text. */
module VorbisComment {
  import opened Bytes
  import opened Results
  import opened Pattern
  import opened Utf8

  /** The parser's tags dictionary: the vendor string, kept under the key
      'vendor', and for every comment name the set of its values. */
  datatype Tags = Tags(vendor: string, fields: map<string, set<string>>)

  const VENDOR: string := "vendor"

  /** The comment length at pos: int.from_bytes(block[pos:pos+4], 'little'). */
  function LengthAt(block: seq<byte>, pos: nat): nat
  {
    LittleEndian(Slice(block, pos, pos + 4))
  }

  /** The bytes of the comment whose length is at pos. */
  function TagText(block: seq<byte>, pos: nat): seq<byte>
  {
    Slice(block, pos + 4, pos + 4 + LengthAt(block, pos))
  }

  /** The cursor step of the loop: pos += 4 + length. */
  function NextTag(block: seq<byte>, pos: nat): nat
  {
    pos + 4 + LengthAt(block, pos)
  }

  /** The cursor after n comments read from pos. */
  function Cursor(block: seq<byte>, pos: nat, n: nat): nat
    decreases n
  {
    if n == 0 then pos else Cursor(block, NextTag(block, pos), n - 1)
  }

  /** The lengths of the n comments read from pos. */
  function Lengths(block: seq<byte>, pos: nat, n: nat): (ls: seq<nat>)
    ensures |ls| == n
    decreases n
  {
    if n == 0 then [] else [LengthAt(block, pos)] + Lengths(block, NextTag(block, pos), n - 1)
  }

  function Sum(xs: seq<nat>): nat
  {
    if xs == [] then 0 else xs[0] + Sum(xs[1..])
  }

  /** After n comments the cursor has moved past n length fields and n texts. */
  lemma {:induction false} CursorSum(block: seq<byte>, pos: nat, n: nat)
    ensures Cursor(block, pos, n) == pos + 4 * n + Sum(Lengths(block, pos, n))
    decreases n
  {
    if n > 0 {
      CursorSum(block, NextTag(block, pos), n - 1);
      assert Lengths(block, pos, n)[1..] == Lengths(block, NextTag(block, pos), n - 1);
    }
  }

  /** Reading one more comment moves the cursor one step from where n comments left it. */
  lemma {:induction false} CursorStep(block: seq<byte>, pos: nat, n: nat)
    ensures Cursor(block, pos, n + 1) == NextTag(block, Cursor(block, pos, n))
    decreases n
  {
    if n > 0 {
      CursorStep(block, NextTag(block, pos), n - 1);
    }
  }

  /** One comment, decoded and matched against (.+?)=(.+): its name and value. */
  function ParseTag(decode: Decoder, text: seq<byte>): Result<(string, string)>
  {
    var s :- DecodeText(decode, text);
    match Split(s, '=')
    case None => Err(TagWithoutSeparator)
    case Some(tag) => Ok(tag)
  }

  /** The values recorded for a name so far; none for a name not seen. */
  function Get(fields: map<string, set<string>>, name: string): set<string>
  {
    if name in fields then fields[name] else {}
  }

  /** tags[name].add(value) for a name already seen, tags[name] = {value} for a new one. */
  function Insert(fields: map<string, set<string>>, name: string, value: string): (r: map<string, set<string>>)
    ensures r.Keys == fields.Keys + {name}
    ensures r[name] == Get(fields, name) + {value}
    ensures forall k :: k in fields && k != name ==> r[k] == fields[k]
  {
    if name in fields then fields[name := fields[name] + {value}] else fields[name := {value}]
  }

  /** Records one comment in the dictionary that also holds the vendor string.
      A comment named "vendor" finds that string, which has no add, and fails. */
  function AddTag(fields: map<string, set<string>>, name: string, value: string): (r: Result<map<string, set<string>>>)
    ensures r.Err? <==> name == VENDOR
    ensures r.Ok? ==> r.value == Insert(fields, name, value)
  {
    if name == VENDOR then Err(VendorNameInComment) else Ok(Insert(fields, name, value))
  }

  /** The loop over n comments from pos, one comment at a time: decode it,
      match it, record it, advance. The first failure ends the loop. */
  function TagsFrom(decode: Decoder, block: seq<byte>, pos: nat, n: nat, fields: map<string, set<string>>): Result<map<string, set<string>>>
    decreases n
  {
    if n == 0 then Ok(fields)
    else
      var tag :- ParseTag(decode, TagText(block, pos));
      var fields' :- AddTag(fields, tag.0, tag.1);
      TagsFrom(decode, block, NextTag(block, pos), n - 1, fields')
  }

  /** parse_vorbis_comment on the bytes of the block. */
  function DecodeVorbisComment(decode: Decoder, block: seq<byte>): Result<Tags>
  {
    var vendorLength := LittleEndian(Slice(block, 0, 4));
    var vendor :- DecodeText(decode, Slice(block, 4, 4 + vendorLength));
    var count := LittleEndian(Slice(block, 4 + vendorLength, 8 + vendorLength));
    var fields :- TagsFrom(decode, block, 8 + vendorLength, count, map[]);
    Ok(Tags(vendor, fields))
  }

  /** The comments from pos as (name, value) pairs, failing where the loop fails. */
  function ReadPairs(decode: Decoder, block: seq<byte>, pos: nat, n: nat): Result<seq<(string, string)>>
    decreases n
  {
    if n == 0 then Ok([])
    else
      var tag :- ParseTag(decode, TagText(block, pos));
      if tag.0 == VENDOR then Err(VendorNameInComment)
      else Prepend([tag], ReadPairs(decode, block, NextTag(block, pos), n - 1))
  }

  /** Records the pairs in order. */
  function AddAll(fields: map<string, set<string>>, pairs: seq<(string, string)>): map<string, set<string>>
    decreases |pairs|
  {
    if pairs == [] then fields else AddAll(Insert(fields, pairs[0].0, pairs[0].1), pairs[1..])
  }

  /** The values the pairs give a name. */
  function ValuesOf(pairs: seq<(string, string)>, name: string): set<string>
  {
    if pairs == [] then {}
    else (if pairs[0].0 == name then {pairs[0].1} else {}) + ValuesOf(pairs[1..], name)
  }

  lemma {:induction false} ValuesOfMembers(pairs: seq<(string, string)>, name: string, value: string)
    ensures value in ValuesOf(pairs, name) <==> (name, value) in pairs
  {
    if pairs != [] {
      ValuesOfMembers(pairs[1..], name, value);
      assert pairs == [pairs[0]] + pairs[1..];
    }
  }

  /** Recording pairs keeps every earlier value and adds exactly the values the
      pairs give each name; a name is present once it has a value. */
  lemma {:induction false} AddAllCollects(fields: map<string, set<string>>, pairs: seq<(string, string)>, name: string)
    ensures name in AddAll(fields, pairs) <==> name in fields || ValuesOf(pairs, name) != {}
    ensures Get(AddAll(fields, pairs), name) == Get(fields, name) + ValuesOf(pairs, name)
    decreases |pairs|
  {
    if pairs != [] {
      AddAllCollects(Insert(fields, pairs[0].0, pairs[0].1), pairs[1..], name);
    }
  }

  /** The recorded sets depend neither on the order of the comments nor on repeats. */
  lemma AddAllOrder(fields: map<string, set<string>>, pairs: seq<(string, string)>, pairs': seq<(string, string)>)
    requires forall p :: p in pairs <==> p in pairs'
    ensures AddAll(fields, pairs) == AddAll(fields, pairs')
  {
    var m, m' := AddAll(fields, pairs), AddAll(fields, pairs');
    forall name
      ensures ValuesOf(pairs, name) == ValuesOf(pairs', name)
    {
      forall v
        ensures v in ValuesOf(pairs, name) <==> v in ValuesOf(pairs', name)
      {
        ValuesOfMembers(pairs, name, v);
        ValuesOfMembers(pairs', name, v);
      }
    }
    forall name
      ensures (name in m <==> name in m') && (name in m ==> m[name] == m'[name])
    {
      AddAllCollects(fields, pairs, name);
      AddAllCollects(fields, pairs', name);
    }
    assert m.Keys == m'.Keys;
  }

  /** One turn of the comment loop: the comment at pos fails, is named "vendor",
      or is recorded before the loop goes on from the next comment. */
  lemma TagsFromStep(decode: Decoder, block: seq<byte>, pos: nat, n: nat, fields: map<string, set<string>>)
    requires n > 0
    ensures var tag := ParseTag(decode, TagText(block, pos));
      TagsFrom(decode, block, pos, n, fields) ==
        if tag.Err? then Err(tag.error)
        else if tag.value.0 == VENDOR then Err(VendorNameInComment)
        else TagsFrom(decode, block, NextTag(block, pos), n - 1, Insert(fields, tag.value.0, tag.value.1))
  {
  }

  /** The block decodes as its vendor string and the comments that follow it. */
  lemma DecodeVorbisCommentParts(decode: Decoder, block: seq<byte>)
    ensures var vendorLength := LittleEndian(Slice(block, 0, 4));
      var vendor := DecodeText(decode, Slice(block, 4, 4 + vendorLength));
      var count := LittleEndian(Slice(block, 4 + vendorLength, 8 + vendorLength));
      var fields := TagsFrom(decode, block, 8 + vendorLength, count, map[]);
      DecodeVorbisComment(decode, block) ==
        if vendor.Err? then Err(vendor.error)
        else if fields.Err? then Err(fields.error)
        else Ok(Tags(vendor.value, fields.value))
  {
  }

  /** The comment loop fails only on text that is not UTF-8, a comment without
      name=value, and a comment named "vendor". */
  lemma {:induction false} TagsFromErrors(decode: Decoder, block: seq<byte>, pos: nat, n: nat, fields: map<string, set<string>>)
    ensures TagsFrom(decode, block, pos, n, fields).Err? ==>
      TagsFrom(decode, block, pos, n, fields).error in {InvalidUtf8, TagWithoutSeparator, VendorNameInComment}
    decreases n
  {
    if n > 0 {
      var tag := ParseTag(decode, TagText(block, pos));
      if tag.Ok? && AddTag(fields, tag.value.0, tag.value.1).Ok? {
        TagsFromErrors(decode, block, NextTag(block, pos), n - 1, AddTag(fields, tag.value.0, tag.value.1).value);
      }
    }
  }

  /** A comment named "vendor" ends the loop with a failure: once the loop has
      read the i comments before it, the comment at Cursor(block, pos, i) meets
      the vendor string, whatever the comments after it hold. */
  lemma {:induction false} VendorCommentFails(decode: Decoder, block: seq<byte>, pos: nat, i: nat, n: nat, fields: map<string, set<string>>, v: string)
    requires i < n && ReadPairs(decode, block, pos, i).Ok?
    requires ParseTag(decode, TagText(block, Cursor(block, pos, i))) == Ok((VENDOR, v))
    ensures TagsFrom(decode, block, pos, n, fields) == Err(VendorNameInComment)
    decreases i
  {
    if i > 0 {
      var tag := ParseTag(decode, TagText(block, pos)).value;
      VendorCommentFails(decode, block, NextTag(block, pos), i - 1, n - 1, Insert(fields, tag.0, tag.1), v);
    }
  }

  /** A block whose vendor string decodes fails when one of its comments, after
      comments that read, is named "vendor". */
  lemma VendorCommentFailsBlock(decode: Decoder, block: seq<byte>, i: nat, v: string)
    requires var l := LittleEndian(Slice(block, 0, 4));
      && DecodeText(decode, Slice(block, 4, 4 + l)).Ok?
      && i < LittleEndian(Slice(block, 4 + l, 8 + l))
      && ReadPairs(decode, block, 8 + l, i).Ok?
      && ParseTag(decode, TagText(block, Cursor(block, 8 + l, i))) == Ok((VENDOR, v))
    ensures DecodeVorbisComment(decode, block) == Err(VendorNameInComment)
  {
    var l := LittleEndian(Slice(block, 0, 4));
    var count := LittleEndian(Slice(block, 4 + l, 8 + l));
    VendorCommentFails(decode, block, 8 + l, i, count, map[], v);
  }

  /** A comment that is not UTF-8 or does not match name=value ends the loop with
      its failure, once the loop has read the i comments before it. */
  lemma {:induction false} BadCommentFails(decode: Decoder, block: seq<byte>, pos: nat, i: nat, n: nat, fields: map<string, set<string>>, e: Error)
    requires i < n && ReadPairs(decode, block, pos, i).Ok?
    requires ParseTag(decode, TagText(block, Cursor(block, pos, i))) == Err(e)
    ensures TagsFrom(decode, block, pos, n, fields) == Err(e)
    decreases i
  {
    if i > 0 {
      var tag := ParseTag(decode, TagText(block, pos)).value;
      BadCommentFails(decode, block, NextTag(block, pos), i - 1, n - 1, Insert(fields, tag.0, tag.1), e);
    }
  }

  /** A block whose vendor string decodes fails with the failure of the first of
      its comments that does not decode or match. */
  lemma BadCommentFailsBlock(decode: Decoder, block: seq<byte>, i: nat, e: Error)
    requires var l := LittleEndian(Slice(block, 0, 4));
      && DecodeText(decode, Slice(block, 4, 4 + l)).Ok?
      && i < LittleEndian(Slice(block, 4 + l, 8 + l))
      && ReadPairs(decode, block, 8 + l, i).Ok?
      && ParseTag(decode, TagText(block, Cursor(block, 8 + l, i))) == Err(e)
    ensures DecodeVorbisComment(decode, block) == Err(e)
  {
    var l := LittleEndian(Slice(block, 0, 4));
    var count := LittleEndian(Slice(block, 4 + l, 8 + l));
    BadCommentFails(decode, block, 8 + l, i, count, map[], e);
  }

  /** A vendor string that is not UTF-8 fails the block before any comment is read. */
  lemma VendorNotUtf8Fails(decode: Decoder, block: seq<byte>)
    requires decode(Slice(block, 4, 4 + LittleEndian(Slice(block, 0, 4)))).None?
    ensures DecodeVorbisComment(decode, block) == Err(InvalidUtf8)
  {
  }

  lemma DecodeVorbisCommentErrors(decode: Decoder, block: seq<byte>)
    ensures DecodeVorbisComment(decode, block).Err? ==>
      DecodeVorbisComment(decode, block).error in {InvalidUtf8, TagWithoutSeparator, VendorNameInComment}
  {
    var vendorLength := LittleEndian(Slice(block, 0, 4));
    var count := LittleEndian(Slice(block, 4 + vendorLength, 8 + vendorLength));
    TagsFromErrors(decode, block, 8 + vendorLength, count, map[]);
  }

  /** The loop is reading the pairs first and recording them all afterwards:
      it fails with the same failure, and otherwise records the same sets. */
  lemma {:induction false} TagsFromSplits(decode: Decoder, block: seq<byte>, pos: nat, n: nat, fields: map<string, set<string>>)
    ensures TagsFrom(decode, block, pos, n, fields) ==
      match ReadPairs(decode, block, pos, n)
      case Ok(pairs) => Ok(AddAll(fields, pairs))
      case Err(e) => Err(e)
    decreases n
  {
    if n > 0 {
      var tag := ParseTag(decode, TagText(block, pos));
      if tag.Ok? && tag.value.0 != VENDOR {
        var next := NextTag(block, pos);
        TagsFromSplits(decode, block, next, n - 1, Insert(fields, tag.value.0, tag.value.1));
        var rest := ReadPairs(decode, block, next, n - 1);
        if rest.Ok? {
          assert ([tag.value] + rest.value)[1..] == rest.value;
        }
      }
    }
  }

  /** No pair that was read is named "vendor". */
  lemma {:induction false} ReadPairsNames(decode: Decoder, block: seq<byte>, pos: nat, n: nat)
    requires ReadPairs(decode, block, pos, n).Ok?
    ensures |ReadPairs(decode, block, pos, n).value| == n
    ensures forall p :: p in ReadPairs(decode, block, pos, n).value ==> p.0 != VENDOR && p.0 != [] && p.1 != []
    decreases n
  {
    if n > 0 {
      var s := DecodeText(decode, TagText(block, pos));
      if s.Ok? {
        SplitMatches(s.value, '=');
      }
      ReadPairsNames(decode, block, NextTag(block, pos), n - 1);
    }
  }

  /** A decoded block keeps the vendor string apart from the comments: no
      comment is named "vendor", and every recorded name has a value. */
  lemma DecodedFields(decode: Decoder, block: seq<byte>)
    requires DecodeVorbisComment(decode, block).Ok?
    ensures VENDOR !in DecodeVorbisComment(decode, block).value.fields
    ensures forall name :: name in DecodeVorbisComment(decode, block).value.fields ==>
      DecodeVorbisComment(decode, block).value.fields[name] != {}
  {
    var vendorLength := LittleEndian(Slice(block, 0, 4));
    var start := 8 + vendorLength;
    var count := LittleEndian(Slice(block, 4 + vendorLength, 8 + vendorLength));
    TagsFromSplits(decode, block, start, count, map[]);
    var pairs := ReadPairs(decode, block, start, count).value;
    ReadPairsNames(decode, block, start, count);
    var fields := DecodeVorbisComment(decode, block).value.fields;
    assert fields == AddAll(map[], pairs);
    forall name | name in fields
      ensures name != VENDOR && fields[name] != {}
    {
      AddAllCollects(map[], pairs, name);
      var v :| v in ValuesOf(pairs, name);
      ValuesOfMembers(pairs, name, v);
    }
  }

  /** The comments as the format lays them out: each text after its length. */
  function EncodeTags(texts: seq<seq<byte>>): seq<byte>
  {
    if texts == [] then [] else ToLittleEndian(|texts[0]|, 4) + texts[0] + EncodeTags(texts[1..])
  }

  /** A VORBIS_COMMENT block holding the vendor bytes and the comment texts. */
  function EncodeVorbisComment(vendor: seq<byte>, texts: seq<seq<byte>>): seq<byte>
  {
    ToLittleEndian(|vendor|, 4) + vendor + ToLittleEndian(|texts|, 4) + EncodeTags(texts)
  }

  /** A text that fits a length field and decodes to name=value, where the
      name has no '=' and neither part has a newline, so that the pattern
      takes it apart again; the name is not "vendor". */
  ghost predicate CommentOf(decode: Decoder, text: seq<byte>, tag: (string, string))
  {
    && |text| < MAX_LENGTH && decode(text) == Some(tag.0 + "=" + tag.1)
    && tag.0 != [] && tag.1 != [] && tag.0 != VENDOR
    && (forall j :: 0 <= j < |tag.0| ==> tag.0[j] != '=' && tag.0[j] != '\n')
    && (forall j :: 0 <= j < |tag.1| ==> tag.1[j] != '\n')
  }

  /** The comment texts lie one after another from pos, each after its length field. */
  ghost predicate EncodedAt(block: seq<byte>, pos: nat, texts: seq<seq<byte>>)
    decreases |texts|
  {
    texts != [] ==>
      && |texts[0]| < MAX_LENGTH && pos + 4 + |texts[0]| <= |block|
      && block[pos..pos + 4] == ToLittleEndian(|texts[0]|, 4)
      && block[pos + 4..pos + 4 + |texts[0]|] == texts[0]
      && EncodedAt(block, pos + 4 + |texts[0]|, texts[1..])
  }

  /** An encoded list of texts that fit their length fields lies, as EncodedAt
      says, wherever it sits in a block. */
  lemma {:induction false} EncodeTagsAt(prefix: seq<byte>, texts: seq<seq<byte>>, suffix: seq<byte>)
    requires forall i :: 0 <= i < |texts| ==> |texts[i]| < MAX_LENGTH
    ensures EncodedAt(prefix + EncodeTags(texts) + suffix, |prefix|, texts)
    decreases |texts|
  {
    if texts != [] {
      var t, rest := texts[0], EncodeTags(texts[1..]);
      var len := ToLittleEndian(|t|, 4);
      assert EncodeTags(texts) == len + t + rest;
      Regroup(prefix, len, t, rest, suffix);
      SliceSecondThird(prefix, len, t, rest + suffix);
      assert forall i :: 0 <= i < |texts[1..]| ==> |texts[1..][i]| < MAX_LENGTH by {
        forall i | 0 <= i < |texts[1..]|
          ensures |texts[1..][i]| < MAX_LENGTH
        {
          assert texts[1..][i] == texts[i + 1];
        }
      }
      EncodeTagsAt(prefix + len + t, texts[1..], suffix);
    }
  }

  /** The comment that CommentOf describes reads back as its pair. */
  lemma ParseComment(decode: Decoder, text: seq<byte>, tag: (string, string))
    requires CommentOf(decode, text, tag)
    ensures ParseTag(decode, text) == Ok(tag)
  {
    SplitJoin(tag.0, '=', tag.1);
    assert tag.0 + "=" + tag.1 == tag.0 + ['='] + tag.1;
  }

  /** The comments lying from pos read back as the pairs they spell. */
  lemma {:induction false} ReadEncodedTags(decode: Decoder, block: seq<byte>, pos: nat, texts: seq<seq<byte>>, pairs: seq<(string, string)>)
    requires EncodedAt(block, pos, texts) && |texts| == |pairs|
    requires forall i :: 0 <= i < |texts| ==> CommentOf(decode, texts[i], pairs[i])
    ensures ReadPairs(decode, block, pos, |texts|) == Ok(pairs)
    decreases |texts|
  {
    if texts == [] {
      assert pairs == [];
    } else {
      EncodedLength(block, pos, texts);
      CommentsOfTail(decode, texts, pairs);
      var next, n := NextTag(block, pos), |texts| - 1;
      assert EncodedAt(block, next, texts[1..]) && |texts[1..]| == n;
      ReadEncodedTags(decode, block, next, texts[1..], pairs[1..]);
      ReadFirstTag(decode, block, pos, |texts|, texts[0], pairs[0], pairs[1..]);
      assert pairs == [pairs[0]] + pairs[1..];
    }
  }

  /** The comment text at pos, read in front of the pairs the rest spell. */
  lemma ReadFirstTag(decode: Decoder, block: seq<byte>, pos: nat, n: nat, text: seq<byte>, tag: (string, string), rest: seq<(string, string)>)
    requires n > 0 && TagText(block, pos) == text && CommentOf(decode, text, tag)
    requires ReadPairs(decode, block, NextTag(block, pos), n - 1) == Ok(rest)
    ensures ReadPairs(decode, block, pos, n) == Ok([tag] + rest)
  {
    ParseComment(decode, text, tag);
    ReadPairsStep(decode, block, pos, n, tag);
  }

  /** A comment that parses, under a name other than "vendor", is the first of the pairs read. */
  lemma ReadPairsStep(decode: Decoder, block: seq<byte>, pos: nat, n: nat, tag: (string, string))
    requires n > 0 && ParseTag(decode, TagText(block, pos)) == Ok(tag) && tag.0 != VENDOR
    ensures ReadPairs(decode, block, pos, n) == Prepend([tag], ReadPairs(decode, block, NextTag(block, pos), n - 1))
  {
  }

  lemma CommentsOfTail(decode: Decoder, texts: seq<seq<byte>>, pairs: seq<(string, string)>)
    requires |texts| == |pairs| && texts != []
    requires forall i :: 0 <= i < |texts| ==> CommentOf(decode, texts[i], pairs[i])
    ensures forall i :: 0 <= i < |texts[1..]| ==> CommentOf(decode, texts[1..][i], pairs[1..][i])
  {
    forall i | 0 <= i < |texts[1..]|
      ensures CommentOf(decode, texts[1..][i], pairs[1..][i])
    {
      assert texts[1..][i] == texts[i + 1] && pairs[1..][i] == pairs[i + 1];
    }
  }

  /** The first comment lying at pos is read whole, and the cursor steps past it. */
  lemma EncodedLength(block: seq<byte>, pos: nat, texts: seq<seq<byte>>)
    requires EncodedAt(block, pos, texts) && texts != []
    ensures TagText(block, pos) == texts[0] && NextTag(block, pos) == pos + 4 + |texts[0]|
  {
    LittleEndianOfFour(|texts[0]|);
    assert Slice(block, pos, pos + 4) == ToLittleEndian(|texts[0]|, 4);
  }

  /** Decoding an encoded block gives back the vendor string and, for every
      name, the set of the values the comments give it. */
  lemma VorbisCommentRoundTrip(decode: Decoder, vendorBytes: seq<byte>, vendor: string, texts: seq<seq<byte>>, pairs: seq<(string, string)>)
    requires |vendorBytes| < MAX_LENGTH && decode(vendorBytes) == Some(vendor)
    requires |texts| < MAX_LENGTH && |texts| == |pairs|
    requires forall i :: 0 <= i < |texts| ==> CommentOf(decode, texts[i], pairs[i])
    ensures DecodeVorbisComment(decode, EncodeVorbisComment(vendorBytes, texts)) == Ok(Tags(vendor, AddAll(map[], pairs)))
  {
    var block := EncodeVorbisComment(vendorBytes, texts);
    var l := |vendorBytes|;
    VendorRead(vendorBytes, texts);
    CommentsFit(decode, texts, pairs);
    CommentsLieAfter(vendorBytes, texts);
    CommentsRead(decode, block, 8 + l, texts, pairs);
    DecodeOfParts(decode, block, l, vendor, |texts|, AddAll(map[], pairs));
  }

  /** A block whose vendor string decodes and whose comments are recorded decodes to both. */
  lemma DecodeOfParts(decode: Decoder, block: seq<byte>, l: nat, vendor: string, count: nat, fields: map<string, set<string>>)
    requires LittleEndian(Slice(block, 0, 4)) == l && DecodeText(decode, Slice(block, 4, 4 + l)) == Ok(vendor)
    requires LittleEndian(Slice(block, 4 + l, 8 + l)) == count
    requires TagsFrom(decode, block, 8 + l, count, map[]) == Ok(fields)
    ensures DecodeVorbisComment(decode, block) == Ok(Tags(vendor, fields))
  {
  }

  /** The vendor length, the vendor string and the count of an encoded block read back. */
  lemma VendorRead(vendor: seq<byte>, texts: seq<seq<byte>>)
    requires |vendor| < MAX_LENGTH && |texts| < MAX_LENGTH
    ensures var block := EncodeVorbisComment(vendor, texts);
      && LittleEndian(Slice(block, 0, 4)) == |vendor|
      && Slice(block, 4, 4 + |vendor|) == vendor
      && LittleEndian(Slice(block, 4 + |vendor|, 8 + |vendor|)) == |texts|
  {
    VendorLayout(vendor, |texts|, EncodeTags(texts));
    LittleEndianOfFour(|vendor|);
    LittleEndianOfFour(|texts|);
  }

  lemma CommentsFit(decode: Decoder, texts: seq<seq<byte>>, pairs: seq<(string, string)>)
    requires |texts| == |pairs|
    requires forall i :: 0 <= i < |texts| ==> CommentOf(decode, texts[i], pairs[i])
    ensures forall i :: 0 <= i < |texts| ==> |texts[i]| < MAX_LENGTH
  {
    forall i | 0 <= i < |texts|
      ensures |texts[i]| < MAX_LENGTH
    {
      assert CommentOf(decode, texts[i], pairs[i]);
    }
  }

  /** The comments of an encoded block lie after the vendor string and the count. */
  lemma CommentsLieAfter(vendor: seq<byte>, texts: seq<seq<byte>>)
    requires forall i :: 0 <= i < |texts| ==> |texts[i]| < MAX_LENGTH
    ensures EncodedAt(EncodeVorbisComment(vendor, texts), 8 + |vendor|, texts)
  {
    var prefix := ToLittleEndian(|vendor|, 4) + vendor + ToLittleEndian(|texts|, 4);
    assert EncodeVorbisComment(vendor, texts) == prefix + EncodeTags(texts) + [];
    EncodeTagsAt(prefix, texts, []);
  }

  /** The comments lying from pos are recorded as the pairs they spell. */
  lemma CommentsRead(decode: Decoder, block: seq<byte>, pos: nat, texts: seq<seq<byte>>, pairs: seq<(string, string)>)
    requires EncodedAt(block, pos, texts) && |texts| == |pairs|
    requires forall i :: 0 <= i < |texts| ==> CommentOf(decode, texts[i], pairs[i])
    ensures TagsFrom(decode, block, pos, |texts|, map[]) == Ok(AddAll(map[], pairs))
  {
    ReadEncodedTags(decode, block, pos, texts, pairs);
    TagsFromSplits(decode, block, pos, |texts|, map[]);
  }

  /** Where the vendor length, the vendor string and the count sit. */
  lemma VendorLayout(vendor: seq<byte>, count: nat, tags: seq<byte>)
    ensures var block := ToLittleEndian(|vendor|, 4) + vendor + ToLittleEndian(count, 4) + tags;
      && Slice(block, 0, 4) == ToLittleEndian(|vendor|, 4)
      && Slice(block, 4, 4 + |vendor|) == vendor
      && Slice(block, 4 + |vendor|, 8 + |vendor|) == ToLittleEndian(count, 4)
  {
    var block := ToLittleEndian(|vendor|, 4) + vendor + ToLittleEndian(count, 4) + tags;
    assert block[0..4] == ToLittleEndian(|vendor|, 4);
    assert block[4..4 + |vendor|] == vendor;
    assert block[4 + |vendor|..8 + |vendor|] == ToLittleEndian(count, 4);
  }

  /** The comment `TITLE=My=Song` keeps every `=` after the first. */
  lemma TagExample(decode: Decoder, text: seq<byte>)
    requires decode(text) == Some("TITLE=My=Song")
    ensures ParseTag(decode, text) == Ok(("TITLE", "My=Song"))
  {
    SplitExampleTitle();
  }

  /** A comment with no '=' fails. */
  lemma TagNeedsSeparator(decode: Decoder, text: seq<byte>)
    requires decode(text).Some? && forall j :: 0 <= j < |decode(text).value| ==> decode(text).value[j] != '='
    ensures ParseTag(decode, text) == Err(TagWithoutSeparator)
  {
    SplitNeedsSeparator(decode(text).value, '=');
  }
}
