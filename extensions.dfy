/** Filename extensions as FileUtils sees them: everything from the last '.'
    of the name on. */
module Extensions {

  /** String.lastIndexOf for a single character: the last position holding
      `c`, or -1 when `s` has none. */
  function LastIndexOf(s: string, c: char): (i: int)
    ensures -1 <= i < |s|
    ensures i == -1 <==> c !in s
    ensures i != -1 ==> s[i] == c && forall j :: i < j < |s| ==> s[j] != c
  {
    if s == [] then -1
    else if s[|s| - 1] == c then |s| - 1
    else LastIndexOf(s[..|s| - 1], c)
  }

  /** getExtension(String): the suffix of `name` from its last '.', or "" when
      `name` has no '.'. */
  function GetExtension(name: string): (ext: string)
    ensures '.' !in name ==> ext == ""
    ensures '.' in name ==>
              1 <= |ext| <= |name| && ext[0] == '.' && '.' !in ext[1..] &&
              ext == name[|name| - |ext|..]
  {
    var i := LastIndexOf(name, '.');
    if i != -1 then name[i..] else ""
  }

  /** getFilenameWithoutExtension: the part of the name before its
      extension, so that putting the extension back gives the name. */
  function GetFilenameWithoutExtension(name: string): (base: string)
    ensures base + GetExtension(name) == name
    ensures '.' !in name ==> base == name
  {
    var i := LastIndexOf(name, '.');
    if i != -1 then name[..i] else name
  }

  /** Splitting a name built from a base, a '.' and an extension without '.'
      gives back the base and '.' followed by that extension. */
  lemma {:induction false} SplitJoin(base: string, e: string)
    requires '.' !in e
    ensures GetExtension(base + "." + e) == "." + e
    ensures GetFilenameWithoutExtension(base + "." + e) == base
  {
    var name := base + "." + e;
    var i := LastIndexOf(name, '.');
    assert name[|base|] == '.';
    assert forall j :: |base| < j < |name| ==> name[j] == e[j - |base| - 1];
    assert i == |base|;
    assert name[i..] == "." + e;
  }

  function ToUpperAscii(c: char): char {
    if 'a' <= c <= 'z' then (c as int - 32) as char else c
  }

  /** The character comparison of equals(ignoreCase = true): equal, or equal
      after upper-casing. */
  predicate CharsEqualIgnoreCase(a: char, b: char) {
    a == b || ToUpperAscii(a) == ToUpperAscii(b)
  }

  function UpperAscii(s: string): (r: string)
    ensures |r| == |s|
    ensures forall i :: 0 <= i < |s| ==> r[i] == ToUpperAscii(s[i])
  {
    if s == [] then [] else UpperAscii(s[..|s| - 1]) + [ToUpperAscii(s[|s| - 1])]
  }

  /** Pairwise comparison up to case is comparison of the upper-cased strings. */
  lemma PairwiseUpperCase(a: string, b: string)
    ensures (|a| == |b| && forall i :: 0 <= i < |a| ==> CharsEqualIgnoreCase(a[i], b[i])) <==>
            UpperAscii(a) == UpperAscii(b)
  {
    if UpperAscii(a) == UpperAscii(b) {
      assert |a| == |b|;
      forall i | 0 <= i < |a| ensures CharsEqualIgnoreCase(a[i], b[i]) {
        assert UpperAscii(a)[i] == UpperAscii(b)[i];
      }
    }
    if |a| == |b| && forall i :: 0 <= i < |a| ==> CharsEqualIgnoreCase(a[i], b[i]) {
      assert forall i :: 0 <= i < |a| ==> UpperAscii(a)[i] == UpperAscii(b)[i];
    }
  }

  /** equals(ignoreCase = true): same length, and pairwise equal characters
      up to case; that is, the upper-cased strings are the same. */
  predicate EqualsIgnoreCase(a: string, b: string): (eq: bool)
    ensures eq <==> UpperAscii(a) == UpperAscii(b)
  {
    PairwiseUpperCase(a, b);
    |a| == |b| && forall i :: 0 <= i < |a| ==> CharsEqualIgnoreCase(a[i], b[i])
  }

  /** hasExtension(String, String): the name's extension equals `ext` up to
      case. Only an `ext` of the extension's length can match: "" for a name
      without '.', otherwise '.' followed by characters other than '.'. */
  predicate HasExtension(name: string, ext: string): (h: bool)
    ensures h ==> |ext| == |GetExtension(name)|
    ensures h ==> (ext == "" <==> '.' !in name)
    ensures h && ext != "" ==> ext[0] == '.' && '.' !in ext[1..]
  {
    var e := GetExtension(name);
    assert EqualsIgnoreCase(e, ext) && e != "" ==> ext[0] == '.' && '.' !in ext[1..] by {
      if EqualsIgnoreCase(e, ext) && e != "" {
        assert CharsEqualIgnoreCase(e[0], ext[0]);
        forall j | 1 <= j < |ext| ensures ext[j] != '.' {
          assert CharsEqualIgnoreCase(e[j], ext[j]) && e[j] == e[1..][j - 1];
        }
      }
    }
    EqualsIgnoreCase(e, ext)
  }

  /** hasExtension holds exactly when the upper-cased extension of the name
      and the upper-cased `ext` are the same string. */
  lemma HasExtensionIff(name: string, ext: string)
    ensures HasExtension(name, ext) <==> UpperAscii(GetExtension(name)) == UpperAscii(ext)
  {
  }

  /** A name has its own extension, and also its upper-cased extension. */
  lemma HasOwnExtension(name: string)
    ensures HasExtension(name, GetExtension(name))
    ensures HasExtension(name, UpperAscii(GetExtension(name)))
  {
    var e := GetExtension(name);
    var u := UpperAscii(e);
    assert forall i :: 0 <= i < |u| ==> ToUpperAscii(u[i]) == u[i];
    assert UpperAscii(u) == u;
    assert EqualsIgnoreCase(e, u);
  }

  /** A name without '.' has the empty extension and no other. */
  lemma HasExtensionNoDot(name: string, ext: string)
    requires '.' !in name
    ensures HasExtension(name, ext) <==> ext == ""
  {
  }

  /** A name ending in '.' and an extension has that extension, up to case,
      and nothing longer or shorter. */
  lemma HasExtensionOfJoin(base: string, e: string, ext: string)
    requires '.' !in e
    ensures HasExtension(base + "." + e, ext) <==> EqualsIgnoreCase("." + e, ext)
  {
    SplitJoin(base, e);
  }

  /** getExtension("archive.tar.gz") is ".gz", the rest being "archive.tar". */
  lemma ExtensionExamples()
    ensures GetExtension("archive.tar.gz") == ".gz"
    ensures GetFilenameWithoutExtension("archive.tar.gz") == "archive.tar"
  {
    var base, e := "archive.tar", "gz";
    SplitJoin(base, e);
    assert base + "." + e == "archive.tar.gz";
  }

  /** getExtension("README") is "", and the name is its own base. */
  lemma NoExtensionExample()
    ensures GetExtension("README") == ""
    ensures GetFilenameWithoutExtension("README") == "README"
  {
    var name := "README";
    assert forall k :: 0 <= k < |name| ==> name[k] != '.';
  }
}
