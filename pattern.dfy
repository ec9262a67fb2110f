/** The two regular expressions of the parser, `(.+?)=(.+)` for a comment and
    `.+?/(.+)` for a MIME type, both of the form `(.+?)<sep>(.+)` applied with
    re.match: anchored at the start of the text, not at its end, with `.`
    matching any character except a newline. */
module Pattern {
  import opened Results

  /** Can the lazy first group stop at k? The group is k >= 1 characters without
      a newline, then comes the separator, then at least one character that the
      greedy second group can take. */
  predicate SplitsAt(t: string, sep: char, k: nat)
  {
    1 <= k && k + 1 < |t| && t[k] == sep && t[k + 1] != '\n'
    && forall j :: 0 <= j < k ==> t[j] != '\n'
  }

  /** The end of the run of non-newline characters starting at i
      (characterised by LineEndStops). */
  function LineEnd(t: string, i: nat): (e: nat)
    requires i <= |t|
    ensures i <= e <= |t|
    decreases |t| - i
  {
    if i == |t| || t[i] == '\n' then i else LineEnd(t, i + 1)
  }

  lemma LineEndStops(t: string, i: nat)
    requires i <= |t|
    ensures forall j :: i <= j < LineEnd(t, i) ==> t[j] != '\n'
    ensures LineEnd(t, i) == |t| || t[LineEnd(t, i)] == '\n'
    decreases |t| - i
  {
    if i < |t| && t[i] != '\n' {
      LineEndStops(t, i + 1);
    }
  }

  /** The smallest stop of the lazy group at or after k, as the regex engine
      finds it by trying k, k + 1, ... in turn (characterised by FirstSplitIsFirst). */
  function FirstSplit(t: string, sep: char, k: nat): (r: Option<nat>)
    ensures r.Some? ==> k <= r.value && r.value + 1 < |t|
    decreases |t| - k
  {
    if |t| <= k + 1 then None
    else if SplitsAt(t, sep, k) then Some(k)
    else FirstSplit(t, sep, k + 1)
  }

  lemma FirstSplitIsFirst(t: string, sep: char, k: nat)
    ensures FirstSplit(t, sep, k).Some? ==> SplitsAt(t, sep, FirstSplit(t, sep, k).value)
    ensures forall j :: k <= j && (FirstSplit(t, sep, k).None? || j < FirstSplit(t, sep, k).value) ==> !SplitsAt(t, sep, j)
    decreases |t| - k
  {
    if |t| > k + 1 && !SplitsAt(t, sep, k) {
      FirstSplitIsFirst(t, sep, k + 1);
    }
  }

  /** The two groups of a match of `(.+?)<sep>(.+)` against t, or None when the
      pattern does not match (characterised by SplitMatches). */
  function Split(t: string, sep: char): Option<(string, string)>
  {
    match FirstSplit(t, sep, 1)
    case None => None
    case Some(k) => Some((t[..k], t[k + 1 .. LineEnd(t, k + 1)]))
  }

  /** The pattern matches exactly when some stop splits t; the first group is
      then the shortest prefix that lets the whole pattern match, and the
      second the longest run of non-newline characters after the separator. */
  lemma SplitMatches(t: string, sep: char)
    ensures Split(t, sep).None? <==> forall k :: !SplitsAt(t, sep, k)
    ensures Split(t, sep).Some? ==>
      var (name, value) := Split(t, sep).value;
      var k := |name|;
      && SplitsAt(t, sep, k) && t[..k] == name
      && (forall j: nat :: j < k ==> !SplitsAt(t, sep, j))
      && value != [] && k + 1 + |value| <= |t| && t[k + 1 .. k + 1 + |value|] == value
      && (forall j :: 0 <= j < |value| ==> value[j] != '\n')
      && (k + 1 + |value| == |t| || t[k + 1 + |value|] == '\n')
  {
    FirstSplitIsFirst(t, sep, 1);
    match FirstSplit(t, sep, 1)
    case None =>
    case Some(k) =>
      LineEndStops(t, k + 1);
      var value := t[k + 1 .. LineEnd(t, k + 1)];
      forall j | 0 <= j < |value|
        ensures value[j] != '\n'
      {
        assert value[j] == t[k + 1 + j];
      }
  }

  /** Joining a name and a value that the pattern can take apart, and splitting
      the result again, gives them back. */
  lemma SplitJoin(name: string, sep: char, value: string)
    requires name != [] && value != []
    requires forall j :: 0 <= j < |name| ==> name[j] != sep && name[j] != '\n'
    requires forall j :: 0 <= j < |value| ==> value[j] != '\n'
    ensures Split(name + [sep] + value, sep) == Some((name, value))
  {
    var t := name + [sep] + value;
    var k := |name|;
    SplitMatches(t, sep);
    assert t[k] == sep && t[..k] == name;
    assert SplitsAt(t, sep, k);
    assert forall j :: k < j < |t| ==> t[j] == value[j - k - 1];
    var r := Split(t, sep);
    assert r.Some?;
    var (name', value') := r.value;
    assert |name'| == k by {
      assert t[|name'|] == sep;
    }
    assert k + 1 + |value'| == |t|;
    assert t[k + 1 ..] == value;
    assert name' == name;
    assert value' == value;
  }

  /** The comment `TITLE=My=Song` keeps every `=` after the first. */
  lemma SplitExampleTitle()
    ensures Split("TITLE=My=Song", '=') == Some(("TITLE", "My=Song"))
  {
    assert "TITLE" + ['='] + "My=Song" == "TITLE=My=Song";
    SplitJoin("TITLE", '=', "My=Song");
  }

  /** A text with no separator does not match. */
  lemma SplitNeedsSeparator(t: string, sep: char)
    requires forall j :: 0 <= j < |t| ==> t[j] != sep
    ensures Split(t, sep) == None
  {
    SplitMatches(t, sep);
  }
}
