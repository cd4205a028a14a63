/** deleteDirectoryOrFile: depth-first deletion of a subtree that stops at
    the first entry it fails to delete. */
module FileDeletion {
  import opened FileTree

  /** The names leading from the root of the walk down to an entry. */
  type Path = seq<string>

  /** Whether a deletion reported success, and which paths exist afterwards. */
  datatype Outcome = Outcome(ok: bool, existing: set<Path>)

  /** The names of `entries`. */
  function NamesOf(entries: seq<Node>): set<string> {
    set k | 0 <= k < |entries| :: entries[k].name
  }

  /** The path of `node` placed at `path`, and the paths of everything under it. */
  function Paths(path: Path, node: Node): (ps: set<Path>)
    decreases node, 1
    ensures path in ps
    ensures forall p :: p in ps ==> |path| <= |p| && p[..|path|] == path
  {
    match node
    case FileN(_, _) => {path}
    case DirN(_, children) => {path} + EntriesPaths(path, children)
  }

  /** The paths of the entries of the directory at `path`, and of everything
      under them; each one lies strictly below `path`, through one of the
      entries' names. */
  function EntriesPaths(path: Path, entries: seq<Node>): (ps: set<Path>)
    decreases entries, 0
    ensures forall p :: p in ps ==> |path| < |p| && p[..|path|] == path && p[|path|] in NamesOf(entries)
  {
    if entries == [] then {}
    else
      var entry := entries[0];
      var here := Paths(path + [entry.name], entry);
      assert forall p :: p in here ==> p[..|path| + 1][..|path|] == p[..|path|];
      assert forall p :: p in here ==> p[|path|] == p[..|path| + 1][|path|];
      assert NamesOf(entries[1..]) <= NamesOf(entries) by {
        forall s | s in NamesOf(entries[1..]) ensures s in NamesOf(entries) {
          var k :| 0 <= k < |entries[1..]| && entries[1..][k].name == s;
          assert entries[k + 1].name == s;
        }
      }
      assert entry.name in NamesOf(entries) by { assert entries[0].name == entry.name; }
      here + EntriesPaths(path, entries[1..])
  }

  /** No two entries of any directory share a name, as in a real directory. */
  predicate WellFormed(node: Node)
    decreases node, 1
  {
    node.DirN? ==> EntriesWellFormed(node.children)
  }

  predicate EntriesWellFormed(entries: seq<Node>)
    decreases entries, 0
  {
    entries == [] ||
    (entries[0].name !in NamesOf(entries[1..]) && WellFormed(entries[0]) && EntriesWellFormed(entries[1..]))
  }

  /** Nothing exists below a path that does not exist, at any level of the tree. */
  predicate Closed(existing: set<Path>, path: Path, node: Node)
    decreases node, 1
  {
    (path !in existing ==> Paths(path, node) !! existing) &&
    (node.DirN? ==> EntriesClosed(existing, path, node.children))
  }

  predicate EntriesClosed(existing: set<Path>, path: Path, entries: seq<Node>)
    decreases entries, 0
  {
    entries == [] ||
    (Closed(existing, path + [entries[0].name], entries[0]) && EntriesClosed(existing, path, entries[1..]))
  }

  /** Some existing path lies strictly below `path`: `path` is a directory
      that is not empty. */
  predicate HasExistingBelow(existing: set<Path>, path: Path) {
    exists q :: q in existing && |path| < |q| && q[..|path|] == path
  }

  /** File.delete() on one path: it fails, and changes nothing, when the path
      does not exist, when it is a directory that still has something in it,
      or when the file system refuses to delete it. */
  function DeleteOne(existing: set<Path>, refused: set<Path>, path: Path): (r: Outcome)
    ensures r.ok <==> path in existing && !HasExistingBelow(existing, path) && path !in refused
    ensures r.existing == existing - (if r.ok then {path} else {})
  {
    if path in existing && !HasExistingBelow(existing, path) && path !in refused then Outcome(true, existing - {path})
    else Outcome(false, existing)
  }

  /** What deleteDirectoryOrFile does to the file system. An absent path is
      a success that changes nothing; otherwise the entries are deleted first,
      and the path itself only when all of them were. Nothing outside the
      subtree is touched, and a failure leaves the path itself in place. */
  function Delete(existing: set<Path>, refused: set<Path>, path: Path, node: Node): (r: Outcome)
    decreases node, 1
    ensures path !in existing ==> r == Outcome(true, existing)
    ensures r.existing <= existing
    ensures existing - r.existing <= Paths(path, node)
    ensures r.ok ==> path !in r.existing
    ensures r.ok && path in existing ==> !HasExistingBelow(r.existing, path)
    ensures !r.ok ==> path in r.existing
  {
    if path !in existing then Outcome(true, existing)
    else
      match node
      case FileN(_, _) => DeleteOne(existing, refused, path)
      case DirN(_, children) =>
        var r := DeleteEntries(existing, refused, path, children);
        assert path !in EntriesPaths(path, children);
        if !r.ok then r else DeleteOne(r.existing, refused, path)
  }

  /** The loop over a directory's entries: each entry in turn, stopping at the
      first one that cannot be deleted. */
  function DeleteEntries(existing: set<Path>, refused: set<Path>, path: Path, entries: seq<Node>): (r: Outcome)
    decreases entries, 0
    ensures r.existing <= existing
    ensures existing - r.existing <= EntriesPaths(path, entries)
  {
    if entries == [] then Outcome(true, existing)
    else
      var entry := entries[0];
      var first := Delete(existing, refused, path + [entry.name], entry);
      if !first.ok then first else DeleteEntries(first.existing, refused, path, entries[1..])
  }

  /** Two siblings with different names have no path in common. */
  lemma SiblingsDisjoint(path: Path, entry: Node, rest: seq<Node>)
    requires entry.name !in NamesOf(rest)
    ensures Paths(path + [entry.name], entry) !! EntriesPaths(path, rest)
  {
    var here := Paths(path + [entry.name], entry);
    forall p | p in here ensures p !in EntriesPaths(path, rest) {
      assert p[..|path| + 1][|path|] == p[|path|];
    }
  }

  /** `ex1` and `ex2` agree on which of the paths `ps` exist. */
  predicate AgreeOn(ex1: set<Path>, ex2: set<Path>, ps: set<Path>) {
    forall p :: p in ps ==> (p in ex1 <==> p in ex2)
  }

  /** Whether a subtree is closed depends only on which of its own paths exist. */
  lemma {:induction false} ClosedFrame(ex1: set<Path>, ex2: set<Path>, path: Path, node: Node)
    requires AgreeOn(ex1, ex2, Paths(path, node))
    ensures Closed(ex1, path, node) == Closed(ex2, path, node)
    decreases node, 1
  {
    if node.DirN? {
      EntriesClosedFrame(ex1, ex2, path, node.children);
    }
  }

  lemma {:induction false} EntriesClosedFrame(ex1: set<Path>, ex2: set<Path>, path: Path, entries: seq<Node>)
    requires AgreeOn(ex1, ex2, EntriesPaths(path, entries))
    ensures EntriesClosed(ex1, path, entries) == EntriesClosed(ex2, path, entries)
    decreases entries, 0
  {
    if entries != [] {
      var entry := entries[0];
      ClosedFrame(ex1, ex2, path + [entry.name], entry);
      EntriesClosedFrame(ex1, ex2, path, entries[1..]);
    }
  }

  /** A deletion that reports success has removed the path and every path
      below it, and nothing else (in a tree whose absent directories have
      nothing under them and whose sibling names are distinct). */
  lemma {:induction false} DeleteSuccess(existing: set<Path>, refused: set<Path>, path: Path, node: Node)
    requires WellFormed(node) && Closed(existing, path, node)
    ensures Delete(existing, refused, path, node).ok ==>
              Delete(existing, refused, path, node).existing == existing - Paths(path, node)
    decreases node, 1
  {
    if path in existing && node.DirN? {
      EntriesDeleteSuccess(existing, refused, path, node.children);
    }
  }

  lemma {:induction false} EntriesDeleteSuccess(existing: set<Path>, refused: set<Path>, path: Path, entries: seq<Node>)
    requires EntriesWellFormed(entries) && EntriesClosed(existing, path, entries)
    ensures DeleteEntries(existing, refused, path, entries).ok ==>
              DeleteEntries(existing, refused, path, entries).existing == existing - EntriesPaths(path, entries)
    decreases entries, 0
  {
    if entries != [] {
      var entry, rest := entries[0], entries[1..];
      var here := path + [entry.name];
      var first := Delete(existing, refused, here, entry);
      DeleteSuccess(existing, refused, here, entry);
      if first.ok {
        SiblingsDisjoint(path, entry, rest);
        var restPaths := EntriesPaths(path, rest);
        EntriesClosedFrame(existing, first.existing, path, rest);
        EntriesDeleteSuccess(first.existing, refused, path, rest);
      }
    }
  }

  /** Once an entry cannot be deleted, the entries after it are never
      visited: the outcome is that of the entries up to and including the
      failing one, and only their subtrees can have changed. */
  lemma {:induction false} StopsAtFirstFailure(existing: set<Path>, refused: set<Path>, path: Path, entries: seq<Node>, k: nat)
    requires k < |entries|
    requires !DeleteEntries(existing, refused, path, entries[..k + 1]).ok
    ensures DeleteEntries(existing, refused, path, entries) == DeleteEntries(existing, refused, path, entries[..k + 1])
    ensures existing - DeleteEntries(existing, refused, path, entries).existing <= EntriesPaths(path, entries[..k + 1])
  {
    var entry := entries[0];
    var prefix := entries[..k + 1];
    assert prefix[0] == entry;
    var first := Delete(existing, refused, path + [entry.name], entry);
    if first.ok {
      if k == 0 {
        assert false;
      }
      assert prefix[1..] == entries[1..][..k];
      StopsAtFirstFailure(first.existing, refused, path, entries[1..], k - 1);
    }
  }

  /** Deletion keeps the file system consistent: whether it succeeds or
      stops half-way, no path of the tree is left existing below a path of
      the tree that is gone. */
  lemma {:induction false} DeletePreservesClosed(existing: set<Path>, refused: set<Path>, path: Path, node: Node)
    requires WellFormed(node) && Closed(existing, path, node)
    ensures Closed(Delete(existing, refused, path, node).existing, path, node)
    decreases node, 1
  {
    if path in existing {
      match node
      case FileN(_, _) =>
      case DirN(_, children) =>
        var r := DeleteEntries(existing, refused, path, children);
        EntriesDeletePreservesClosed(existing, refused, path, children);
        if r.ok {
          EntriesDeleteSuccess(existing, refused, path, children);
          var after := DeleteOne(r.existing, refused, path).existing;
          EntriesClosedFrame(r.existing, after, path, children);
        }
    }
  }

  lemma {:induction false} EntriesDeletePreservesClosed(existing: set<Path>, refused: set<Path>, path: Path, entries: seq<Node>)
    requires EntriesWellFormed(entries) && EntriesClosed(existing, path, entries)
    ensures EntriesClosed(DeleteEntries(existing, refused, path, entries).existing, path, entries)
    decreases entries, 0
  {
    if entries != [] {
      var entry, rest := entries[0], entries[1..];
      var here := path + [entry.name];
      var first := Delete(existing, refused, here, entry);
      DeletePreservesClosed(existing, refused, here, entry);
      SiblingsDisjoint(path, entry, rest);
      EntriesClosedFrame(existing, first.existing, path, rest);
      if first.ok {
        var final := DeleteEntries(first.existing, refused, path, rest);
        EntriesDeletePreservesClosed(first.existing, refused, path, rest);
        ClosedFrame(first.existing, final.existing, here, entry);
      }
    }
  }

  /** Deleting again after a successful deletion succeeds and changes nothing. */
  lemma DeleteIdempotent(existing: set<Path>, refused: set<Path>, path: Path, node: Node)
    requires Delete(existing, refused, path, node).ok
    ensures var after := Delete(existing, refused, path, node).existing;
            Delete(after, refused, path, node) == Outcome(true, after)
  {
  }

  /** A directory that holds an existing path the walk does not visit is
      never deleted: its own File.delete() finds it not empty. */
  lemma UnlistedEntryBlocksDeletion(existing: set<Path>, refused: set<Path>, path: Path, node: Node, q: Path)
    requires path in existing && q in existing && q !in Paths(path, node)
    requires |path| < |q| && q[..|path|] == path
    ensures !Delete(existing, refused, path, node).ok
  {
    match node
    case FileN(_, _) =>
      assert HasExistingBelow(existing, path);
    case DirN(_, children) =>
      var r := DeleteEntries(existing, refused, path, children);
      assert q in r.existing;
      assert HasExistingBelow(r.existing, path);
  }

  /** The empty listing of a directory that still holds ["x"]: the deletion
      reports failure and removes nothing. */
  lemma UnlistedEntryExample()
    ensures Delete({[], ["x"]}, {}, [], DirN("r", [])) == Outcome(false, {[], ["x"]})
  {
    var q: Path := ["x"];
    assert q[..0] == [];
    UnlistedEntryBlocksDeletion({[], ["x"]}, {}, [], DirN("r", []), q);
  }

  /** The file system the deletion acts on: the paths that currently exist,
      and the paths whose File.delete() will fail (permissions, locks, ...). */
  class FileSystem {
    var existing: set<Path>
    const refused: set<Path>

    constructor (existing: set<Path>, refused: set<Path>)
      ensures this.existing == existing && this.refused == refused
    {
      this.existing := existing;
      this.refused := refused;
    }

    /** File.delete(). */
    method DeleteFile(file: Path) returns (ok: bool)
      modifies this
      ensures Outcome(ok, existing) == DeleteOne(old(existing), refused, file)
    {
      ok := file in existing && !HasExistingBelow(existing, file) && file !in refused;
      if ok {
        existing := existing - {file};
      }
    }

    /** deleteDirectoryOrFile, on the entry `node` found at path `file`. */
    method DeleteDirectoryOrFile(file: Path, node: Node) returns (ok: bool)
      modifies this
      decreases node
      ensures Outcome(ok, existing) == Delete(old(existing), refused, file, node)
      ensures WellFormed(node) && Closed(old(existing), file, node) ==> Closed(existing, file, node)
    {
      if WellFormed(node) && Closed(existing, file, node) {
        DeletePreservesClosed(existing, refused, file, node);
      }
      if file !in existing {
        return true;
      }
      if node.DirN? {
        var entries := node.children;
        for i := 0 to |entries|
          invariant DeleteEntries(old(existing), refused, file, entries) ==
                    DeleteEntries(existing, refused, file, entries[i..])
        {
          var entry := entries[i];
          assert entries[i..][0] == entry && entries[i..][1..] == entries[i + 1..];
          var deleted := DeleteDirectoryOrFile(file + [entry.name], entry);
          if !deleted {
            return false;
          }
        }
      }
      ok := DeleteFile(file);
    }
  }
}
