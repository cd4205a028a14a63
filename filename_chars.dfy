/** The filename blacklist of FileUtils: finding the characters a filename
    may not contain, and stripping them. */
module FilenameChars {

  /** The fixed blacklist, in the order FileUtils lists it: seven printable
      characters, backspace, NUL, TAB, and the control codes 0x10-0x12 and
      0x14-0x19 (0x13 is not on the list). */
  const InvalidFileNameChars: seq<char> :=
    ['\\', '/', ':', '"', '<', '>', '|', '\U{8}', '\0', '\t',
     '\U{10}', '\U{11}', '\U{12}', '\U{14}', '\U{15}', '\U{16}', '\U{17}', '\U{18}', '\U{19}']

  predicate IsInvalidChar(c: char) {
    c in InvalidFileNameChars
  }

  /** The blacklist holds 19 distinct characters, and they are exactly the
      ones named here; in particular 0x13 is allowed in a filename. */
  lemma BlacklistContents(c: char)
    ensures |InvalidFileNameChars| == 19
    ensures forall i, j :: 0 <= i < j < |InvalidFileNameChars| ==> InvalidFileNameChars[i] != InvalidFileNameChars[j]
    ensures IsInvalidChar(c) <==>
              c in "\\/:\"<>|" || c == '\U{8}' || c == '\0' || c == '\t' ||
              ('\U{10}' <= c <= '\U{19}' && c != '\U{13}')
  {
  }

  /** The blacklisted characters of `s`, in order, duplicates kept. */
  function InvalidCharsOf(s: string): (r: string)
    ensures |r| <= |s|
    ensures forall i :: 0 <= i < |r| ==> IsInvalidChar(r[i])
  {
    if s == [] then []
    else
      var last := s[|s| - 1];
      InvalidCharsOf(s[..|s| - 1]) + (if IsInvalidChar(last) then [last] else [])
  }

  /** `s` without its blacklisted characters, the rest in order. */
  function ValidCharsOf(s: string): (r: string)
    ensures |r| <= |s|
    ensures forall i :: 0 <= i < |r| ==> !IsInvalidChar(r[i])
  {
    if s == [] then []
    else
      var last := s[|s| - 1];
      ValidCharsOf(s[..|s| - 1]) + (if IsInvalidChar(last) then [] else [last])
  }

  /** `r` can be obtained from `s` by deleting characters (matched greedily from the end). */
  predicate IsSubsequence(r: string, s: string)
    decreases |s|
  {
    if r == [] then true
    else if s == [] then false
    else if r[|r| - 1] == s[|s| - 1] then IsSubsequence(r[..|r| - 1], s[..|s| - 1])
    else IsSubsequence(r, s[..|s| - 1])
  }

  predicate NoInvalidChars(s: string) {
    forall i :: 0 <= i < |s| ==> !IsInvalidChar(s[i])
  }

  /** isValidFilename: the blacklisted characters found in `value`. */
  method IsValidFilename(value: string) returns (badCharacters: string)
    ensures badCharacters == InvalidCharsOf(value)
  {
    badCharacters := "";
    for i := 0 to |value|
      invariant badCharacters == InvalidCharsOf(value[..i])
    {
      var c := value[i];
      assert value[..i + 1][..i] == value[..i];
      for j := 0 to |InvalidFileNameChars|
        invariant badCharacters == InvalidCharsOf(value[..i])
        invariant forall k :: 0 <= k < j ==> InvalidFileNameChars[k] != c
      {
        if c == InvalidFileNameChars[j] {
          badCharacters := badCharacters + [c];
          break;
        }
      }
    }
    assert value[..|value|] == value;
  }

  /** removeInvalidChars: `value` with every blacklisted character removed. */
  method RemoveInvalidChars(value: string) returns (newValue: string)
    ensures newValue == ValidCharsOf(value)
  {
    newValue := "";
    for i := 0 to |value|
      invariant newValue == ValidCharsOf(value[..i])
    {
      var c := value[i];
      assert value[..i + 1][..i] == value[..i];
      var matches := false;
      for j := 0 to |InvalidFileNameChars|
        invariant matches == false
        invariant forall k :: 0 <= k < j ==> InvalidFileNameChars[k] != c
      {
        if c == InvalidFileNameChars[j] {
          matches := true;
          break;
        }
      }
      if !matches {
        newValue := newValue + [c];
      }
    }
    assert value[..|value|] == value;
  }

  /** The two filters split `s`: every character goes to exactly one of them. */
  lemma {:induction false} FiltersPartition(s: string)
    ensures |InvalidCharsOf(s)| + |ValidCharsOf(s)| == |s|
    ensures multiset(InvalidCharsOf(s)) + multiset(ValidCharsOf(s)) == multiset(s)
  {
    if s != [] {
      var init, last := s[..|s| - 1], s[|s| - 1];
      FiltersPartition(init);
      assert s == init + [last];
    }
  }

  /** Each blacklisted character occurs in `InvalidCharsOf(s)` as often as in
      `s` (duplicates kept), and no other character occurs there at all;
      dually for `ValidCharsOf`. */
  lemma FiltersCount(s: string, c: char)
    ensures multiset(InvalidCharsOf(s))[c] == if IsInvalidChar(c) then multiset(s)[c] else 0
    ensures multiset(ValidCharsOf(s))[c] == if IsInvalidChar(c) then 0 else multiset(s)[c]
  {
    FiltersPartition(s);
    var bad, good := InvalidCharsOf(s), ValidCharsOf(s);
    if IsInvalidChar(c) {
      assert c !in good;
      assert multiset(good)[c] == 0;
    } else {
      assert c !in bad;
      assert multiset(bad)[c] == 0;
    }
  }

  /** isValidFilename keeps the original order of the characters it finds. */
  lemma {:induction false} InvalidCharsKeepOrder(s: string)
    ensures IsSubsequence(InvalidCharsOf(s), s)
  {
    if s != [] {
      var init, last := s[..|s| - 1], s[|s| - 1];
      InvalidCharsKeepOrder(init);
      var bad := InvalidCharsOf(init);
      if IsInvalidChar(last) {
        assert InvalidCharsOf(s) == bad + [last];
        assert (bad + [last])[..|bad|] == bad;
      } else {
        assert InvalidCharsOf(s) == bad;
        assert bad == [] || bad[|bad| - 1] != last;
      }
    }
  }

  /** removeInvalidChars keeps the original order of the characters it keeps. */
  lemma {:induction false} ValidCharsKeepOrder(s: string)
    ensures IsSubsequence(ValidCharsOf(s), s)
  {
    if s != [] {
      var init, last := s[..|s| - 1], s[|s| - 1];
      ValidCharsKeepOrder(init);
      var good := ValidCharsOf(init);
      if IsInvalidChar(last) {
        assert ValidCharsOf(s) == good;
        assert good == [] || good[|good| - 1] != last;
      } else {
        assert ValidCharsOf(s) == good + [last];
        assert (good + [last])[..|good|] == good;
      }
    }
  }

  /** A string without blacklisted characters is exactly one on which
      isValidFilename finds nothing, and removeInvalidChars returns it unchanged. */
  lemma {:induction false} NoInvalidCharsIff(s: string)
    ensures NoInvalidChars(s) <==> InvalidCharsOf(s) == []
    ensures NoInvalidChars(s) <==> ValidCharsOf(s) == s
  {
    if s != [] {
      var init, last := s[..|s| - 1], s[|s| - 1];
      NoInvalidCharsIff(init);
      assert s == init + [last];
      if NoInvalidChars(s) {
        assert NoInvalidChars(init);
      }
      if ValidCharsOf(s) == s {
        FiltersPartition(s);
        assert NoInvalidChars(s);
      }
    }
  }

  /** After removeInvalidChars, isValidFilename finds nothing. */
  lemma RemovedIsValid(s: string)
    ensures InvalidCharsOf(ValidCharsOf(s)) == []
  {
    NoInvalidCharsIff(ValidCharsOf(s));
  }

  /** removeInvalidChars is idempotent. */
  lemma RemoveIdempotent(s: string)
    ensures ValidCharsOf(ValidCharsOf(s)) == ValidCharsOf(s)
  {
    NoInvalidCharsIff(ValidCharsOf(s));
  }

  /** Both filters work piece by piece: filtering a concatenation is
      concatenating the filtered pieces. */
  lemma {:induction false} FiltersDistribute(a: string, b: string)
    ensures InvalidCharsOf(a + b) == InvalidCharsOf(a) + InvalidCharsOf(b)
    ensures ValidCharsOf(a + b) == ValidCharsOf(a) + ValidCharsOf(b)
  {
    if b == [] {
      assert a + b == a;
    } else {
      var init, last := b[..|b| - 1], b[|b| - 1];
      FiltersDistribute(a, init);
      var ab := a + b;
      assert ab[..|ab| - 1] == a + init;
      assert ab[|ab| - 1] == last;
      var bad := if IsInvalidChar(last) then [last] else [];
      var good := if IsInvalidChar(last) then [] else [last];
      assert InvalidCharsOf(ab) == InvalidCharsOf(a + init) + bad;
      assert InvalidCharsOf(b) == InvalidCharsOf(init) + bad;
      assert ValidCharsOf(ab) == ValidCharsOf(a + init) + good;
      assert ValidCharsOf(b) == ValidCharsOf(init) + good;
    }
  }

  /** A single character goes to exactly one of the two filters. */
  lemma FiltersOfChar(c: char)
    ensures InvalidCharsOf([c]) == if IsInvalidChar(c) then [c] else []
    ensures ValidCharsOf([c]) == if IsInvalidChar(c) then [] else [c]
  {
    assert [c][..0] == [];
  }

  /** isValidFilename("a:b:c") is "::". */
  lemma InvalidCharsExample()
    ensures InvalidCharsOf("a:b:c") == "::"
  {
    assert "a:b:c"[..4] == "a:b:";
    assert "a:b:"[..3] == "a:b";
    assert "a:b"[..2] == "a:";
    assert "a:"[..1] == "a";
    assert "a"[..0] == "";
  }

  /** A blacklisted character between two clean strings is all that
      removeInvalidChars takes out. */
  lemma RemoveOneInvalidChar(a: string, c: char, b: string)
    requires NoInvalidChars(a) && NoInvalidChars(b) && IsInvalidChar(c)
    ensures ValidCharsOf(a + [c] + b) == a + b
  {
    NoInvalidCharsIff(a);
    NoInvalidCharsIff(b);
    FiltersOfChar(c);
    FiltersDistribute(a, [c]);
    assert ValidCharsOf(a + [c]) == a;
    FiltersDistribute(a + [c], b);
  }

  /** removeInvalidChars("report:2024.csv") is "report2024.csv". */
  lemma ValidCharsExample()
    ensures ValidCharsOf("report:2024.csv") == "report2024.csv"
  {
    var a, b := "report", "2024.csv";
    assert NoInvalidChars(a);
    assert NoInvalidChars(b);
    assert IsInvalidChar(':');
    RemoveOneInvalidChar(a, ':', b);
    assert a + [':'] + b == "report:2024.csv";
    assert a + b == "report2024.csv";
  }
}
