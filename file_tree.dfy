/** An in-memory stand-in for a java.io.File subtree, and the size walk and
    emptiness test FileUtils runs over it. */
module FileTree {

  /** A regular file with its length in bytes, or a directory with its
      entries in the order a listing returns them. */
  datatype Node = FileN(name: string, len: nat) | DirN(name: string, children: seq<Node>)

  /** What getDirectoryOrFileSize returns: a file's length; for a directory,
      the lengths of its direct files plus, in recursive mode only, the sizes
      of its subdirectories. */
  function Size(n: Node, recursive: bool): nat
    decreases n, 1
  {
    match n
    case FileN(_, len) => len
    case DirN(_, children) => EntriesSize(children, recursive)
  }

  /** The sum the loop over a directory's entries accumulates. */
  function EntriesSize(entries: seq<Node>, recursive: bool): nat
    decreases entries, 0
  {
    if entries == [] then 0
    else
      var entry := entries[|entries| - 1];
      EntriesSize(entries[..|entries| - 1], recursive) +
      (if entry.FileN? then entry.len else if recursive then Size(entry, recursive) else 0)
  }

  /** getDirectoryOrFileSize. */
  method GetDirectoryOrFileSize(file: Node, recursive: bool) returns (size: nat)
    decreases file
    ensures size == Size(file, recursive)
  {
    size := 0;
    if file.DirN? {
      var entries := file.children;
      for i := 0 to |entries|
        invariant size == EntriesSize(entries[..i], recursive)
      {
        var entry := entries[i];
        assert entries[..i + 1][..i] == entries[..i];
        if entry.DirN? {
          if recursive {
            var sub := GetDirectoryOrFileSize(entry, recursive);
            size := size + sub;
          }
        } else {
          size := size + entry.len;
        }
      }
      assert entries[..|entries|] == entries;
    } else {
      size := file.len;
    }
  }

  /** A regular file's size is its length, whatever the mode. */
  lemma FileSizeInBothModes(name: string, len: nat)
    ensures Size(FileN(name, len), true) == len && Size(FileN(name, len), false) == len
  {
  }

  function Sum(s: seq<nat>): nat {
    if s == [] then 0 else Sum(s[..|s| - 1]) + s[|s| - 1]
  }

  /** The lengths of every regular file reachable from `n`, in walk order. */
  function AllFileLengths(n: Node): seq<nat>
    decreases n, 1
  {
    match n
    case FileN(_, len) => [len]
    case DirN(_, children) => EntriesFileLengths(children)
  }

  function EntriesFileLengths(entries: seq<Node>): seq<nat>
    decreases entries, 0
  {
    if entries == [] then []
    else EntriesFileLengths(entries[..|entries| - 1]) + AllFileLengths(entries[|entries| - 1])
  }

  /** The lengths of the regular files among `entries` only. */
  function DirectFileLengths(entries: seq<Node>): seq<nat> {
    if entries == [] then []
    else
      var entry := entries[|entries| - 1];
      DirectFileLengths(entries[..|entries| - 1]) + (if entry.FileN? then [entry.len] else [])
  }

  lemma {:induction false} SumAppend(a: seq<nat>, b: seq<nat>)
    ensures Sum(a + b) == Sum(a) + Sum(b)
    decreases |b|
  {
    if b == [] {
      assert a + b == a;
    } else {
      SumAppend(a, b[..|b| - 1]);
      assert (a + b)[..|a + b| - 1] == a + b[..|b| - 1];
    }
  }

  /** A sum of lengths is 0 exactly when every length in it is 0. */
  lemma {:induction false} SumZeroIff(s: seq<nat>)
    ensures Sum(s) == 0 <==> forall k :: 0 <= k < |s| ==> s[k] == 0
  {
    if s != [] {
      SumZeroIff(s[..|s| - 1]);
    }
  }

  /** In recursive mode the size is the total length of all reachable files. */
  lemma {:induction false} RecursiveSizeIsAllFiles(n: Node)
    ensures Size(n, true) == Sum(AllFileLengths(n))
    decreases n, 1
  {
    match n
    case FileN(_, _) =>
    case DirN(_, children) => EntriesRecursiveSizeIsAllFiles(children);
  }

  lemma {:induction false} EntriesRecursiveSizeIsAllFiles(entries: seq<Node>)
    ensures EntriesSize(entries, true) == Sum(EntriesFileLengths(entries))
    decreases entries, 0
  {
    if entries != [] {
      var init, entry := entries[..|entries| - 1], entries[|entries| - 1];
      EntriesRecursiveSizeIsAllFiles(init);
      RecursiveSizeIsAllFiles(entry);
      SumAppend(EntriesFileLengths(init), AllFileLengths(entry));
    }
  }

  /** In non-recursive mode a directory's size is the total length of its
      direct files; subdirectories add nothing. */
  lemma {:induction false} ShallowSizeIsDirectFiles(entries: seq<Node>)
    ensures EntriesSize(entries, false) == Sum(DirectFileLengths(entries))
  {
    if entries != [] {
      var init, entry := entries[..|entries| - 1], entries[|entries| - 1];
      ShallowSizeIsDirectFiles(init);
      SumAppend(DirectFileLengths(init), if entry.FileN? then [entry.len] else []);
    }
  }

  /** The non-recursive size never exceeds the recursive one. */
  lemma {:induction false} ShallowAtMostRecursive(n: Node)
    ensures Size(n, false) <= Size(n, true)
    decreases n, 1
  {
    match n
    case FileN(_, _) =>
    case DirN(_, children) => EntriesShallowAtMostRecursive(children);
  }

  lemma {:induction false} EntriesShallowAtMostRecursive(entries: seq<Node>)
    ensures EntriesSize(entries, false) <= EntriesSize(entries, true)
    decreases entries, 0
  {
    if entries != [] {
      EntriesShallowAtMostRecursive(entries[..|entries| - 1]);
    }
  }

  /** Without subdirectories both modes agree. */
  lemma {:induction false} FlatDirectorySize(entries: seq<Node>)
    requires forall k :: 0 <= k < |entries| ==> entries[k].FileN?
    ensures EntriesSize(entries, false) == EntriesSize(entries, true)
  {
    if entries != [] {
      FlatDirectorySize(entries[..|entries| - 1]);
    }
  }

  /** A subdirectory holding at least one byte makes the recursive size of
      its parent strictly larger than the non-recursive one. */
  lemma {:induction false} NonEmptySubdirectoryCounts(entries: seq<Node>, k: nat)
    requires k < |entries| && entries[k].DirN? && Size(entries[k], true) > 0
    ensures EntriesSize(entries, false) < EntriesSize(entries, true)
  {
    var init, entry := entries[..|entries| - 1], entries[|entries| - 1];
    if k == |entries| - 1 {
      EntriesShallowAtMostRecursive(init);
    } else {
      assert init[k] == entries[k];
      NonEmptySubdirectoryCounts(init, k);
      if entry.DirN? {
        assert EntriesSize(entries, false) == EntriesSize(init, false);
      }
    }
  }

  /** isEmptyDirectory: a directory whose recursive size is 0, that is, one
      in which every reachable file (at any depth) has length 0. */
  function IsEmptyDirectory(n: Node): (empty: bool)
    ensures empty <==> n.DirN? && forall k :: 0 <= k < |AllFileLengths(n)| ==> AllFileLengths(n)[k] == 0
  {
    RecursiveSizeIsAllFiles(n);
    SumZeroIff(AllFileLengths(n));
    n.DirN? && Size(n, true) == 0
  }

  /** A directory holding an empty file and an empty subdirectory is empty
      and has size 0; a regular file is never an empty directory. */
  lemma EmptyDirectoryExamples(len: nat)
    ensures var d := DirN("d", [FileN("a.txt", 0), DirN("e", [])]);
            IsEmptyDirectory(d) && Size(d, true) == 0
    ensures !IsEmptyDirectory(FileN("f", len))
  {
    var d := DirN("d", [FileN("a.txt", 0), DirN("e", [])]);
    assert d.children[..1] == [FileN("a.txt", 0)];
    assert d.children[..1][..0] == [];
  }
}
