/**
 * Turning one fixed-width line of the places file into a record: the state
 * in columns [0, 2), the name in [9, 73) with its last word (the kind of
 * place) removed, the coordinates in [143, 153) and [153, 163).
 */
module PlaceLines {
  import opened Ascii
  import opened Places

  const LINE_LENGTH := 164

  /** The value-initialised record `{}`: empty name, so the loader drops it. */
  const EMPTY_RECORD := CityRecord("", "", Location("", ""))

  /** Length of s once its trailing whitespace is cut off. */
  function TrimmedLength(s: string): (n: nat)
    ensures n <= |s|
    ensures forall i | n <= i < |s| :: IsSpace(s[i])
    ensures n == 0 || !IsSpace(s[n - 1])
    decreases |s|
  {
    if |s| > 0 && IsSpace(s[|s| - 1]) then TrimmedLength(s[..|s| - 1]) else |s|
  }

  /** Start of the longest suffix of t without whitespace. */
  function WordStart(t: string): (k: nat)
    ensures k <= |t|
    ensures forall i | k <= i < |t| :: !IsSpace(t[i])
    ensures k == 0 || IsSpace(t[k - 1])
    decreases |t|
  {
    if |t| > 0 && !IsSpace(t[|t| - 1]) then WordStart(t[..|t| - 1]) else |t|
  }

  /** The last word of s: the whitespace-free tail of s once trailing whitespace is gone. */
  function LastWord(s: string): string {
    var t := s[..TrimmedLength(s)];
    t[WordStart(t)..]
  }

  /** What is left of s once its last word and the whitespace around it are gone. */
  function WithoutLastWord(s: string): string {
    var t := s[..TrimmedLength(s)];
    var u := t[..WordStart(t)];
    u[..TrimmedLength(u)]
  }

  /** trimRight: erases the trailing whitespace of s. */
  method TrimRight(s: string) returns (t: string)
    ensures t == s[..TrimmedLength(s)]
  {
    var n := |s|;
    while n > 0 && IsSpace(s[n - 1])
      invariant 0 <= n <= |s|
      invariant TrimmedLength(s[..n]) == TrimmedLength(s)
    {
      assert s[..n][..n - 1] == s[..n - 1];
      n := n - 1;
    }
    t := s[..n];
  }

  /**
   * removeLastWord: trims s, splits off the word after its last whitespace
   * (all of it when there is none), trims what remains.  Returns both the
   * new s and the word.
   */
  method RemoveLastWord(s: string) returns (rest: string, word: string)
    ensures word == LastWord(s)
    ensures rest == WithoutLastWord(s)
  {
    var t := TrimRight(s);
    var k := |t|;
    while k > 0 && !IsSpace(t[k - 1])
      invariant 0 <= k <= |t|
      invariant WordStart(t[..k]) == WordStart(t)
    {
      assert t[..k][..k - 1] == t[..k - 1];
      k := k - 1;
    }
    assert WordStart(t[..k]) == k;
    word := t[k..];
    rest := TrimRight(t[..k]);
  }

  /** The word removeLastWord returns holds no whitespace. */
  lemma LastWordHasNoSpace(s: string)
    ensures forall i | 0 <= i < |LastWord(s)| :: !IsSpace(LastWord(s)[i])
  {
    var t := s[..TrimmedLength(s)];
    var k := WordStart(t);
    assert forall i | k <= i < |t| :: !IsSpace(t[i]);
  }

  /** The string removeLastWord leaves behind has no trailing whitespace. */
  lemma RestIsTrimmed(s: string)
    ensures WithoutLastWord(s) == [] || !IsSpace(WithoutLastWord(s)[|WithoutLastWord(s)| - 1])
  {
    var t := s[..TrimmedLength(s)];
    var u := t[..WordStart(t)];
    var m := TrimmedLength(u);
    assert m == 0 || u[..m][m - 1] == u[m - 1];
  }

  /**
   * The word is empty only for an input that is all whitespace, and without
   * any whitespace inside, the whole trimmed input is the word.
   */
  lemma LastWordSplit(s: string)
    ensures var t := s[..TrimmedLength(s)];
      && (LastWord(s) == [] <==> t == [])
      && ((forall i | 0 <= i < |t| :: !IsSpace(t[i])) ==> LastWord(s) == t && WithoutLastWord(s) == [])
  {
    var n := TrimmedLength(s);
    var t := s[..n];
    var k := WordStart(t);
    assert t != [] ==> t[|t| - 1] == s[n - 1];
    if forall i | 0 <= i < |t| :: !IsSpace(t[i]) {
      assert k == 0;
    }
  }

  /**
   * Nothing is lost: the rest, a gap of whitespace and the word put together
   * give back the trimmed input.
   */
  lemma LastWordGap(s: string)
    ensures var t, rest, word := s[..TrimmedLength(s)], WithoutLastWord(s), LastWord(s);
      && |rest| + |word| <= |t|
      && t == rest + t[|rest|..|t| - |word|] + word
      && (forall i | |rest| <= i < |t| - |word| :: IsSpace(t[i]))
  {
    var t := s[..TrimmedLength(s)];
    var k := WordStart(t);
    TrimmedSplit(t, k);
    assert t[..k][..TrimmedLength(t[..k])] == t[..TrimmedLength(t[..k])];
  }

  /** t cut at k, with the trailing whitespace of its first part set apart. */
  lemma TrimmedSplit(t: string, k: nat)
    requires k <= |t|
    ensures var m := TrimmedLength(t[..k]);
      && m <= k
      && t == t[..m] + t[m..k] + t[k..]
      && forall i | m <= i < k :: IsSpace(t[i])
  {
    var u := t[..k];
    var m := TrimmedLength(u);
    assert forall i | m <= i < k :: t[i] == u[i];
  }

  /**
   * cityRecordFromLine without the std::stod conversions: a line of the
   * wrong length is an error; a name whose last word is "CDP" gives the
   * empty record; otherwise the record has the name without its last word,
   * the state and the two coordinate fields.
   */
  method CityRecordFromLine(line: string) returns (r: Result<CityRecord>)
    ensures r.Err? <==> |line| != LINE_LENGTH
    ensures r.Ok? && LastWord(line[9..73]) == "CDP" ==> r.value == EMPTY_RECORD
    ensures r.Ok? && LastWord(line[9..73]) != "CDP" ==>
      r.value == CityRecord(WithoutLastWord(line[9..73]), line[0..2], Location(line[143..153], line[153..163]))
  {
    if |line| != LINE_LENGTH {
      return Err("Places file is mangled, each line needs to be 164 chars");
    }
    var name, lastWord := RemoveLastWord(line[9..73]);
    if lastWord == "CDP" {
      return Ok(EMPTY_RECORD);
    }
    return Ok(CityRecord(name, line[0..2], Location(line[143..153], line[153..163])));
  }
}
