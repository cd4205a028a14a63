# FileUtils of kilamea, modelled in Dafny

This project models the logic of the `FileUtils` object of kilamea
(`src/com/github/kilamea/util/FileUtils.kt`), a set of file helpers used by
the rest of the kilamea application. It covers three components and one formatting branch.

- **Filename blacklist** (`filename_chars.dfy`, module `FilenameChars`).
  The fixed list of 19 characters that may not appear in a filename.
  `isValidFilename` returns the blacklisted characters found in a name.
  `removeInvalidChars` returns the name without them. Both are methods with
  the source's nested loops and `break`. Each is proved equal to a
  filter function. The lemmas show that the two filters partition the
  input, keep order and duplicates, and that removal is idempotent.
- **Extensions** (`extensions.dfy`, module `Extensions`). `getExtension`
  returns the suffix from the last `.` of the name. `getFilenameWithoutExtension`
  returns the part before it. `hasExtension` compares extensions ignoring case.
  The lemmas give the split/join round trip and the meaning of the
  case-insensitive test.
- **Tree walk** (`file_tree.dfy`, module `FileTree`; `file_deletion.dfy`,
  module `FileDeletion`). A live `java.io.File` is replaced by an in-memory
  tree `Node`: a file with a length, or a directory with its entries in
  listing order.
  - `getDirectoryOrFileSize` is a recursive method with the source's loop.
    It is proved equal to the function `Size`.
  - `isEmptyDirectory` is a function.
  - `deleteDirectoryOrFile` is a recursive method of the class
    `FileSystem`. The class holds the set of existing paths and the set of
    paths whose `File.delete()` fails for reasons outside the model
    (permissions, locks). As on a real file system, `File.delete()` also
    fails on a directory that still holds something. The method is proved equal to the
    function `Delete`, and the lemmas about `Delete` state what a deletion
    does.
- **Size formatting** (`file_size_format.dfy`, module `FileSizeFormat`).
  Which branch of `formatFileSize` a value takes, and the exact text
  `"<value> Bytes"` of the byte branch.

Behaviour kept exactly as the code has it:

- The blacklist leaves out 0x13 although it holds 0x10-0x12 and 0x14-0x19
  (`BlacklistContents`).
- In `formatFileSize`, exactly 1048576 bytes matches neither the KB test
  (`< 1048576`) nor the MB test (`> 1048576`). It is shown as
  `"1048576 Bytes"`, between `1048575` in KB and `1048577` in MB
  (`BoundaryFallsThrough`). The model follows the code.
- Non-recursive size mode skips subdirectories entirely. It does not count
  their direct files either (`ShallowSizeIsDirectFiles`).
- A directory whose reachable files all have length 0 is "empty", even when
  it holds files or subdirectories (`IsEmptyDirectory`).

## Model

| member | source | states |
|---|---|---|
| `FilenameChars.BlacklistContents` | src/com/github/kilamea/util/FileUtils.kt:23-24 | the blacklist has 19 distinct characters: backslash, slash, colon, double quote, `<`, `>`, vertical bar, backspace, NUL, TAB, 0x10-0x12 and 0x14-0x19; 0x13 is not on it |
| `FilenameChars.InvalidCharsOf` | src/com/github/kilamea/util/FileUtils.kt:226-240 | the characters isValidFilename reports are all blacklisted, and there are at most as many as in the input |
| `FilenameChars.ValidCharsOf` | src/com/github/kilamea/util/FileUtils.kt:278-296 | the result of removeInvalidChars holds no blacklisted character and is no longer than the input |
| `FilenameChars.IsValidFilename` | src/com/github/kilamea/util/FileUtils.kt:226-240 | the nested loop with `break` builds exactly the blacklisted subsequence of the input |
| `FilenameChars.RemoveInvalidChars` | src/com/github/kilamea/util/FileUtils.kt:278-296 | the nested loop with the `matches` flag builds exactly the input minus its blacklisted characters |
| `FilenameChars.FiltersPartition` | src/com/github/kilamea/util/FileUtils.kt:226-296 | the two results together have the input's length and, as multisets, make up the input |
| `FilenameChars.FiltersCount` | src/com/github/kilamea/util/FileUtils.kt:226-240 | each blacklisted character occurs in isValidFilename's result as often as in the input (duplicates kept); no other character occurs; dually for removeInvalidChars |
| `FilenameChars.InvalidCharsKeepOrder` | src/com/github/kilamea/util/FileUtils.kt:226-240 | isValidFilename's result is a subsequence of the input (original order) |
| `FilenameChars.ValidCharsKeepOrder` | src/com/github/kilamea/util/FileUtils.kt:278-296 | removeInvalidChars' result is a subsequence of the input (original order) |
| `FilenameChars.NoInvalidCharsIff` | src/com/github/kilamea/util/FileUtils.kt:226-296 | a name has no blacklisted character iff isValidFilename returns "" iff removeInvalidChars returns it unchanged |
| `FilenameChars.RemovedIsValid` | src/com/github/kilamea/util/FileUtils.kt:226-296 | isValidFilename finds nothing in the output of removeInvalidChars |
| `FilenameChars.RemoveIdempotent` | src/com/github/kilamea/util/FileUtils.kt:278-296 | applying removeInvalidChars twice is applying it once |
| `FilenameChars.FiltersDistribute` | src/com/github/kilamea/util/FileUtils.kt:226-296 | both filters act character by character: the result for a concatenation is the concatenation of the results |
| `FilenameChars.FiltersOfChar` | src/com/github/kilamea/util/FileUtils.kt:229-236 | a single character goes to isValidFilename's result if blacklisted, to removeInvalidChars' result otherwise |
| `FilenameChars.RemoveOneInvalidChar` | src/com/github/kilamea/util/FileUtils.kt:278-296 | one blacklisted character between two clean strings is all that is removed |
| `FilenameChars.InvalidCharsExample` | src/com/github/kilamea/util/FileUtils.kt:226-240 | isValidFilename("a:b:c") is "::" |
| `FilenameChars.ValidCharsExample` | src/com/github/kilamea/util/FileUtils.kt:278-296 | removeInvalidChars("report:2024.csv") is "report2024.csv" |
| `Extensions.LastIndexOf` | src/com/github/kilamea/util/FileUtils.kt:135 | -1 iff the character is absent; otherwise a position holding it with none after it |
| `Extensions.GetExtension` | src/com/github/kilamea/util/FileUtils.kt:134-141 | "" when the name has no '.'; otherwise a suffix of the name that starts with '.' and has no further '.' |
| `Extensions.GetFilenameWithoutExtension` | src/com/github/kilamea/util/FileUtils.kt:149-156 | the result followed by the extension is the name; a name without '.' is returned whole |
| `Extensions.SplitJoin` | src/com/github/kilamea/util/FileUtils.kt:134-156 | for base + "." + e with no '.' in e, the extension is "." + e and the rest is base |
| `Extensions.EqualsIgnoreCase` | src/com/github/kilamea/util/FileUtils.kt:207 | `equals(ignoreCase = true)` holds iff the two strings upper-case to the same string (same length, each pair of characters equal up to case) |
| `Extensions.HasExtension` | src/com/github/kilamea/util/FileUtils.kt:206-208 | a name can only have an extension `ext` as long as its own extension: "" exactly when the name has no '.', otherwise '.' followed by characters other than '.' |
| `Extensions.HasExtensionIff` | src/com/github/kilamea/util/FileUtils.kt:206-208 | hasExtension holds iff the upper-cased extension equals the upper-cased argument |
| `Extensions.HasOwnExtension` | src/com/github/kilamea/util/FileUtils.kt:206-208 | a name has its own extension, and its upper-cased extension too |
| `Extensions.HasExtensionNoDot` | src/com/github/kilamea/util/FileUtils.kt:206-208 | a name without '.' has the extension "" and no other |
| `Extensions.HasExtensionOfJoin` | src/com/github/kilamea/util/FileUtils.kt:206-208 | base + "." + e (no '.' in e) has extension ext iff "." + e equals ext ignoring case |
| `Extensions.ExtensionExamples` | src/com/github/kilamea/util/FileUtils.kt:134-156 | getExtension("archive.tar.gz") is ".gz" and getFilenameWithoutExtension of it is "archive.tar" |
| `Extensions.NoExtensionExample` | src/com/github/kilamea/util/FileUtils.kt:134-156 | getExtension("README") is "" and getFilenameWithoutExtension("README") is "README" |
| `FileTree.GetDirectoryOrFileSize` | src/com/github/kilamea/util/FileUtils.kt:98-116 | the loop and recursion compute `Size`: a file's length; for a directory, its direct files plus, in recursive mode only, its subdirectories' sizes |
| `FileTree.FileSizeInBothModes` | src/com/github/kilamea/util/FileUtils.kt:111-113 | a regular file's size is its length in both modes |
| `FileTree.RecursiveSizeIsAllFiles` | src/com/github/kilamea/util/FileUtils.kt:98-116 | the recursive size is the sum of the lengths of all reachable files |
| `FileTree.ShallowSizeIsDirectFiles` | src/com/github/kilamea/util/FileUtils.kt:101-110 | the non-recursive size of a directory is the sum of the lengths of its direct files only |
| `FileTree.ShallowAtMostRecursive` | src/com/github/kilamea/util/FileUtils.kt:98-116 | the non-recursive size never exceeds the recursive size |
| `FileTree.FlatDirectorySize` | src/com/github/kilamea/util/FileUtils.kt:101-110 | a directory with only file entries has the same size in both modes |
| `FileTree.NonEmptySubdirectoryCounts` | src/com/github/kilamea/util/FileUtils.kt:103-106 | a subdirectory with at least one byte makes the non-recursive size strictly smaller |
| `FileTree.IsEmptyDirectory` | src/com/github/kilamea/util/FileUtils.kt:216-218 | true iff the node is a directory and every reachable file has length 0 |
| `FileTree.EmptyDirectoryExamples` | src/com/github/kilamea/util/FileUtils.kt:216-218 | a directory holding a 0-byte file and an empty subdirectory is empty with size 0; a file is never an empty directory |
| `FileDeletion.DeleteOne` | src/com/github/kilamea/util/FileUtils.kt:45 | File.delete() succeeds iff the path exists, nothing exists below it (a file or an empty directory) and the file system does not refuse it; then exactly that path is removed |
| `FileDeletion.Delete` | src/com/github/kilamea/util/FileUtils.kt:32-46 | an absent path gives true and no change; only paths of the subtree are removed; true means the path is gone and, if it existed, nothing at all exists below it any more; false means it is still there |
| `FileDeletion.DeleteEntries` | src/com/github/kilamea/util/FileUtils.kt:38-42 | the loop over entries removes only paths of those entries' subtrees |
| `FileDeletion.DeleteSuccess` | src/com/github/kilamea/util/FileUtils.kt:32-46 | a true result means the path and every descendant no longer exist, and nothing else was removed |
| `FileDeletion.StopsAtFirstFailure` | src/com/github/kilamea/util/FileUtils.kt:38-42 | after the first entry that fails, later siblings are never visited: the outcome is that of the entries up to the failing one |
| `FileDeletion.DeletePreservesClosed` | src/com/github/kilamea/util/FileUtils.kt:32-46 | whether it succeeds or stops half-way, a deletion leaves no path of the given tree existing below a path of that tree that is gone |
| `FileDeletion.UnlistedEntryBlocksDeletion` | src/com/github/kilamea/util/FileUtils.kt:37-45 | a directory holding an existing path that its listing does not show (an empty or null listing included) is never deleted: the final delete finds it not empty |
| `FileDeletion.UnlistedEntryExample` | src/com/github/kilamea/util/FileUtils.kt:37-45 | with ["x"] existing under a directory listed as empty, the deletion returns false and removes nothing |
| `FileDeletion.DeleteIdempotent` | src/com/github/kilamea/util/FileUtils.kt:33-35 | deleting again after a successful deletion returns true and changes nothing |
| `FileDeletion.FileSystem.DeleteFile` | src/com/github/kilamea/util/FileUtils.kt:45 | the new set of existing paths and the result are those of `DeleteOne` |
| `FileDeletion.FileSystem.DeleteDirectoryOrFile` | src/com/github/kilamea/util/FileUtils.kt:32-46 | the early return, the loop with its early `return false`, and the final delete give exactly the result and new state of `Delete`; a consistent file system stays consistent |
| `FileSizeFormat.FormatFileSize` | src/com/github/kilamea/util/FileUtils.kt:54-60 | the plain form is chosen exactly in the bytes branch and is the value's decimal text (a '-' for negatives, no leading zeros) followed by " Bytes"; the KB amount times 1024 is the value and lies in [1, 1024); the MB amount times 1048576 is the value and exceeds 1 |
| `FileSizeFormat.FileSizeUnit` | src/com/github/kilamea/util/FileUtils.kt:55-58 | KB exactly on [1024, 1048576), MB exactly above 1048576, bytes for everything else including negatives and 1048576 |
| `FileSizeFormat.BoundaryFallsThrough` | src/com/github/kilamea/util/FileUtils.kt:56-58 | 1048575 is KB, 1048576 renders "1048576 Bytes", 1048577 is MB |
| `FileSizeFormat.DecimalRoundTrip` | src/com/github/kilamea/util/FileUtils.kt:58 | reading back the decimal digits of a number gives the number |
| `FileSizeFormat.LongToString` | src/com/github/kilamea/util/FileUtils.kt:58 | `"$value"` is a '-' exactly for negatives, then decimal digits with no leading zero except in "0" |
| `FileSizeFormat.LongToStringRoundTrip` | src/com/github/kilamea/util/FileUtils.kt:58 | Long.toString's text reads back as the value, and starts with '-' iff the value is negative |
| `FileSizeFormat.FormatExamples` | src/com/github/kilamea/util/FileUtils.kt:54-60 | 500 gives "500 Bytes"; 2048 gives 2.0 KB; 3000000 is shown in MB |

## Left out

- `readAllLines` (both overloads): stream and charset I/O.
- `showFolder`: it launches an external process.
- `getAppDataFolder`, `getStartupFile`, `getUserHomeFolder`: they read environment variables and system properties, decode URLs and create directories.
- `formatLastModified`: date formatting of a clock value.
- The `File` overloads `getExtension(File)` and `hasExtension(File, String)`: they only pass `file.name` on. `getFilenameWithoutExtension` is modelled on the name it reads from the `File`.
- `FormatFileSize`: the `%.1f` rendering of the KB and MB amounts is not modelled. The model returns the exact real amount and the suffix.
- `Extensions.EqualsIgnoreCase`: case-insensitive comparison is modelled with ASCII case mapping only. The JVM's comparison also folds non-ASCII letters.
- `Extensions.HasExtension`: it inherits the ASCII-only case mapping of `EqualsIgnoreCase`.
- `Extensions.HasExtensionIff`: the upper-casing it states is the ASCII one.
- Strings are sequences of Unicode scalar values, while Kotlin strings are UTF-16 code units. No behaviour of the blacklist filters or the '.' search is lost, but a name holding a lone surrogate cannot be represented.
- `FileTree.GetDirectoryOrFileSize`: sizes are unbounded naturals. The source's `Long` sum can overflow, and that is not modelled.
- `FileTree.GetDirectoryOrFileSize`: a path that does not exist is not modelled. Every `Node` exists, and its listing is fixed for the whole walk. Concurrent changes during a walk are not modelled either. `listFiles()` returning null is modelled by a `Node` with no entries, which adds nothing to the size, as `?: emptyArray()` does.
- `FileTree.GetDirectoryOrFileSize`: symbolic links are not modelled: each path is its own entry. The source follows a link to a directory, so a link to an ancestor makes the walk revisit that directory and count its files again.
- `FileDeletion.FileSystem.DeleteDirectoryOrFile`: the entries visited are those of the `Node` given for the path. The real method lists the directory at call time. Permissions are reduced to the set of paths whose delete fails.
- `FileDeletion.FileSystem.DeleteDirectoryOrFile`: symbolic links are not modelled: each path is its own entry. The source follows a link to a directory, so it deletes the target's contents, and a link to an ancestor makes both walks revisit a directory.
- `FileDeletion.FileSystem.DeleteDirectoryOrFile`: `listFiles()` returning null is modelled by a `Node` with no entries. The loop then visits nothing, and the final delete fails if anything exists below the path (`UnlistedEntryBlocksDeletion`).
- `FileDeletion.DeleteSuccess`: it assumes two things of the tree. Sibling names are distinct. No path exists below a path that does not exist. Both hold on a real file system.
- `SystemUtils` and `SendException`: thin wrappers over JVM properties and `Throwable`, outside this model.
