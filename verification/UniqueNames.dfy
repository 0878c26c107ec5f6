/** Names inside an archive: a name that is taken gets the first number that makes it unique. */
module UniqueNames {
  import opened Wrappers

  // ---------------------------------------------------------------- decimal numbers

  function Digit(d: nat): char
    requires d < 10
  {
    ['0', '1', '2', '3', '4', '5', '6', '7', '8', '9'][d]
  }

  /** The decimal digits of a number. */
  function Itoa(n: nat): (s: string)
    ensures |s| > 0
  {
    if n < 10 then [Digit(n)] else Itoa(n / 10) + [Digit(n % 10)]
  }

  function ValueOf(c: char): nat {
    if '0' <= c <= '9' then (c - '0') as nat else 0
  }

  /** The number that a string of digits stands for. */
  function Atoi(s: string): nat {
    if s == "" then 0 else Atoi(s[..|s| - 1]) * 10 + ValueOf(s[|s| - 1])
  }

  lemma {:induction false} AtoiUndoesItoa(n: nat)
    ensures Atoi(Itoa(n)) == n
  {
    if n < 10 {
      assert Itoa(n)[..0] == "";
    } else {
      AtoiUndoesItoa(n / 10);
      assert Itoa(n)[..|Itoa(n)| - 1] == Itoa(n / 10);
    }
  }

  /** Numbers are written in digits, without zeros in front. */
  lemma {:induction false} ItoaIsDecimal(n: nat)
    ensures |Itoa(n)| > 0 && (Itoa(n)[0] == '0' ==> n == 0)
    ensures forall i :: 0 <= i < |Itoa(n)| ==> '0' <= Itoa(n)[i] <= '9'
  {
    if n < 10 {
    } else {
      ItoaIsDecimal(n / 10);
    }
  }

  // ---------------------------------------------------------------- searching for a free number

  function Numbered(prefix: string, n: nat, suffix: string): string {
    prefix + Itoa(n) + suffix
  }

  lemma NumberedIsInjective(prefix: string, m: nat, n: nat, suffix: string)
    requires Numbered(prefix, m, suffix) == Numbered(prefix, n, suffix)
    ensures m == n
  {
    var s := Numbered(prefix, m, suffix);
    assert s[|prefix|..|s| - |suffix|] == Itoa(m);
    assert Numbered(prefix, n, suffix)[|prefix|..|s| - |suffix|] == Itoa(n);
    AtoiUndoesItoa(m);
    AtoiUndoesItoa(n);
  }

  /** `n` is the first number from `start` on that gives a name not in use. */
  predicate IsFirstFree(used: set<string>, prefix: string, suffix: string, start: nat, n: nat) {
    && start <= n
    && Numbered(prefix, n, suffix) !in used
    && forall k :: start <= k < n ==> Numbered(prefix, k, suffix) in used
  }

  /** Different numbers give different names, so at most as many probes fail as there are names in use. */
  method FirstFree(used: set<string>, prefix: string, suffix: string, start: nat) returns (n: nat)
    ensures IsFirstFree(used, prefix, suffix, start, n)
    ensures n - start <= |used|
  {
    n := start;
    ghost var tried: set<string> := {};
    while Numbered(prefix, n, suffix) in used
      invariant start <= n && forall k :: start <= k < n ==> Numbered(prefix, k, suffix) in used
      invariant forall name :: name in tried ==> exists k :: start <= k < n && name == Numbered(prefix, k, suffix)
      invariant tried <= used && |tried| == n - start
      decreases |used| - |tried|
    {
      var name := Numbered(prefix, n, suffix);
      if name in tried {
        var k :| start <= k < n && name == Numbered(prefix, k, suffix);
        NumberedIsInjective(prefix, k, n, suffix);
      }
      tried := tried + {name};
      SubsetIsNotLarger(tried, used);
      n := n + 1;
    }
    SubsetIsNotLarger(tried, used);
  }

  // ---------------------------------------------------------------- archives made by the server

  /** Where the extension starts: the last dot after the last slash, or the end. */
  function ExtStart(name: string): (i: nat)
    ensures i <= |name|
    ensures i < |name| ==> name[i] == '.' && '.' !in name[i + 1..] && '/' !in name[i..]
    ensures i == |name| ==> forall k :: 0 <= k < |name| && name[k] == '.' ==> '/' in name[k..]
  {
    ExtStartBefore(name, |name|)
  }

  function ExtStartBefore(name: string, end: nat): (i: nat)
    requires end <= |name| && '.' !in name[end..] && '/' !in name[end..]
    ensures i <= |name|
    ensures i < |name| ==> name[i] == '.' && '.' !in name[i + 1..] && '/' !in name[i..]
    ensures i == |name| ==> forall k :: 0 <= k < |name| && name[k] == '.' ==> '/' in name[k..]
    decreases end
  {
    if end == 0 || name[end - 1] == '/' then
      assert end > 0 ==> forall k :: 0 <= k < end ==> name[k..][end - 1 - k] == '/';
      assert forall k :: end <= k < |name| ==> name[k] == name[end..][k - end];
      |name|
    else if name[end - 1] == '.' then end - 1
    else ExtStartBefore(name, end - 1)
  }

  /** The name, or "Name (x).ext" if it is taken. */
  ghost predicate IsUniqueNameFor(used: set<string>, filename: string, name: string) {
    if filename !in used then name == filename
    else
      var base, ext := filename[..ExtStart(filename)], filename[ExtStart(filename)..];
      exists n: nat :: IsFirstFree(used, base + " (", ")" + ext, 2, n) && n <= |used| + 2 && name == Numbered(base + " (", n, ")" + ext)
  }

  class NameMap {
    var used: set<string>

    constructor ()
      ensures used == {}
    {
      used := {};
    }

    method MakeFilenameUnique(filename: string) returns (name: string)
      modifies this
      ensures IsUniqueNameFor(old(used), filename, name)
      ensures name !in old(used) && used == old(used) + {name}
    {
      var ext := filename[ExtStart(filename)..];
      var base := filename[..ExtStart(filename)];
      if filename !in used {
        used := used + {filename};
        return filename;
      }
      var count := FirstFree(used, base + " (", ")" + ext, 2);
      name := Numbered(base + " (", count, ")" + ext);
      used := used + {name};
    }
  }

  predicate AreDistinct(names: seq<string>) {
    forall i, j :: 0 <= i < j < |names| ==> names[i] != names[j]
  }

  function NamesIn(names: seq<string>): set<string> {
    set name | name in names
  }

  lemma DistinctWithLast(names: seq<string>)
    requires names != [] && AreDistinct(names[..|names| - 1]) && names[|names| - 1] !in NamesIn(names[..|names| - 1])
    ensures AreDistinct(names)
  {
    assert forall i :: 0 <= i < |names| - 1 ==> names[i] == names[..|names| - 1][i];
  }

  /** Every entry has the unique name for its file, given the entries before it. */
  ghost predicate AreUniqueNames(filenames: seq<string>, entries: seq<string>)
    decreases |entries|
  {
    |entries| <= |filenames|
    && (entries == [] ||
        var n := |entries| - 1;
        AreUniqueNames(filenames, entries[..n]) && IsUniqueNameFor(NamesIn(entries[..n]), filenames[n], entries[n]))
  }

  lemma UniqueNameIsUnused(used: set<string>, filename: string, name: string)
    requires IsUniqueNameFor(used, filename, name)
    ensures name !in used
  {}

  lemma {:induction false} UniqueNamesAreDistinct(filenames: seq<string>, entries: seq<string>)
    requires AreUniqueNames(filenames, entries)
    ensures AreDistinct(entries)
    decreases |entries|
  {
    if entries == [] {
    } else {
      var n := |entries| - 1;
      UniqueNamesAreDistinct(filenames, entries[..n]);
      UniqueNameIsUnused(NamesIn(entries[..n]), filenames[n], entries[n]);
      DistinctWithLast(entries);
    }
  }

  /** The entries of an archive. */
  method ServeFilesAsZip(filenames: seq<string>) returns (entries: seq<string>)
    ensures |entries| == |filenames| && AreUniqueNames(filenames, entries) && AreDistinct(entries)
  {
    var names := new NameMap();
    entries := [];
    for i := 0 to |filenames|
      invariant |entries| == i && AreUniqueNames(filenames, entries)
      invariant names.used == NamesIn(entries)
    {
      var name := names.MakeFilenameUnique(filenames[i]);
      assert (entries + [name])[..i] == entries;
      entries := entries + [name];
    }
    UniqueNamesAreDistinct(filenames, entries);
  }

  /** The second of two files of one name gets the number 2, in front of its extension. */
  lemma TwoEqualNames(filename: string, entries: seq<string>)
    requires AreUniqueNames([filename, filename], entries) && |entries| == 2
    ensures entries == [filename, filename[..ExtStart(filename)] + " (2)" + filename[ExtStart(filename)..]]
  {
    var base, ext := filename[..ExtStart(filename)], filename[ExtStart(filename)..];
    assert entries[..1][..0] == [] && NamesIn([]) == {};
    assert entries[..1] == [filename] && NamesIn([filename]) == {filename};
    assert Itoa(2) == "2";
    assert base + ext == filename;
    assert |Numbered(base + " (", 2, ")" + ext)| > |filename|;
    assert entries[1] == Numbered(base + " (", 2, ")" + ext);
    NumberInBrackets(base, ext);
  }

  lemma NumberInBrackets(base: string, ext: string)
    ensures base + " (" + "2" + (")" + ext) == base + " (2)" + ext
  {
    assert " (" + "2" + ")" == " (2)";
  }

  // ---------------------------------------------------------------- archives made in the browser

  function LastIndexOf(s: string, c: char): (i: int)
    ensures -1 <= i < |s|
  {
    LastIndexBefore(s, c, |s|)
  }

  function LastIndexBefore(s: string, c: char, end: nat): (i: int)
    requires end <= |s|
    ensures -1 <= i < end
  {
    if end == 0 then -1
    else if s[end - 1] == c then end - 1
    else LastIndexBefore(s, c, end - 1)
  }

  lemma {:induction false} LastIndexIsLast(s: string, c: char, end: nat)
    requires end <= |s|
    ensures var i := LastIndexBefore(s, c, end); (i >= 0 ==> s[i] == c) && forall k :: i < k < end ==> s[k] != c
  {
    if end == 0 || s[end - 1] == c {
    } else {
      LastIndexIsLast(s, c, end - 1);
    }
  }

  /** The path up to its last slash. */
  function Directory(path: string): string {
    path[..LastIndexOf(path, '/') + 1]
  }

  function NameOf(path: string): string {
    path[LastIndexOf(path, '/') + 1..]
  }

  /** Where the extension of a name starts; a dot at the first position is not one. */
  function DotIndex(name: string): (i: nat)
    ensures i <= |name|
  {
    if LastIndexOf(name, '.') > 0 then LastIndexOf(name, '.') else |name|
  }

  function Stem(path: string): string {
    Directory(path) + NameOf(path)[..DotIndex(NameOf(path))] + "_"
  }

  function Extension(path: string): string {
    NameOf(path)[DotIndex(NameOf(path))..]
  }

  /** The path, or the path with the first free number in front of its extension. */
  ghost predicate IsUniquePathFor(used: set<string>, path: string, newPath: string) {
    if path !in used then newPath == path
    else exists n: nat :: IsFirstFree(used, Stem(path), Extension(path), 1, n) && n <= |used| + 1 && newPath == Numbered(Stem(path), n, Extension(path))
  }

  /** No slash in the text. */
  predicate IsFlat(s: string) {
    forall k :: 0 <= k < |s| ==> s[k] != '/'
  }

  lemma {:induction false} ItoaIsFlat(n: nat)
    ensures IsFlat(Itoa(n))
  {
    if n < 10 {
    } else {
      ItoaIsFlat(n / 10);
    }
  }

  lemma FlatConcat(a: string, b: string)
    requires IsFlat(a) && IsFlat(b)
    ensures IsFlat(a + b)
  {}

  lemma DirectoryOfPath(directory: string, name: string)
    requires IsFlat(name) && (|directory| > 0 ==> directory[|directory| - 1] == '/')
    ensures Directory(directory + name) == directory
  {
    var path := directory + name;
    LastIndexIsLast(path, '/', |path|);
    assert forall k :: |directory| <= k < |path| ==> path[k] == name[k - |directory|];
    assert |directory| > 0 ==> path[|directory| - 1] == '/';
    assert LastIndexOf(path, '/') == |directory| - 1;
    assert path[..|directory|] == directory;
  }

  lemma PartsAt(path: string, i: int)
    requires -1 <= i < |path| && (i >= 0 ==> path[i] == '/') && forall k :: i < k < |path| ==> path[k] != '/'
    ensures IsFlat(path[i + 1..]) && (|path[..i + 1]| > 0 ==> path[..i + 1][i] == '/')
  {}

  lemma PartsOfPath(path: string)
    ensures IsFlat(NameOf(path)) && (|Directory(path)| > 0 ==> Directory(path)[|Directory(path)| - 1] == '/')
  {
    LastIndexIsLast(path, '/', |path|);
    PartsAt(path, LastIndexOf(path, '/'));
  }

  lemma PartsOfName(name: string, dot: nat)
    requires IsFlat(name) && dot <= |name|
    ensures IsFlat(name[..dot]) && IsFlat(name[dot..])
  {}

  lemma NumberedInParts(directory: string, base: string, number: string, extension: string)
    ensures directory + base + "_" + number + extension == directory + (base + "_" + number + extension)
  {}

  /** A numbered path stays in its directory. */
  lemma NumberedKeepsDirectory(path: string, n: nat)
    ensures Directory(Numbered(Stem(path), n, Extension(path))) == Directory(path)
  {
    var directory, base, number, extension := Directory(path), NameOf(path)[..DotIndex(NameOf(path))], Itoa(n), Extension(path);
    ItoaIsFlat(n);
    PartsOfPath(path);
    PartsOfName(NameOf(path), DotIndex(NameOf(path)));
    FlatConcat(base, "_");
    FlatConcat(base + "_", number);
    FlatConcat(base + "_" + number, extension);
    NumberedInParts(directory, base, number, extension);
    DirectoryOfPath(directory, base + "_" + number + extension);
  }

  /** The extension of a name: from its last dot on, unless that is its first character; otherwise there is none. */
  predicate IsExtStartOf(name: string, k: nat) {
    && k <= |name|
    && (forall i :: k < i < |name| ==> name[i] != '.')
    && (k < |name| ==> k > 0 && name[k] == '.')
    && (k == |name| ==> forall i :: 0 < i < |name| ==> name[i] != '.')
  }

  /** The directory of a path ends with its last slash; behind it is the name. */
  predicate IsDirectoryAndName(path: string, directory: string, name: string) {
    && path == directory + name && IsFlat(name)
    && (directory != "" ==> directory[|directory| - 1] == '/')
  }

  /** A numbered path has an underscore and the number in front of the extension of its name. */
  lemma NumberedPathIs(path: string, n: nat)
    ensures var directory, name, k := Directory(path), NameOf(path), DotIndex(NameOf(path));
            && IsDirectoryAndName(path, directory, name) && IsExtStartOf(name, k)
            && Numbered(Stem(path), n, Extension(path)) == directory + (name[..k] + "_" + Itoa(n) + name[k..])
  {
    var name := NameOf(path);
    PartsOfPath(path);
    LastIndexIsLast(name, '.', |name|);
    NumberedInParts(Directory(path), name[..DotIndex(name)], Itoa(n), Extension(path));
  }

  /** The second of two equal paths gets the number 1. */
  lemma TwoEqualPaths(path: string, paths: seq<string>)
    requires AreUniquePaths([path, path], paths) && |paths| == 2
    ensures var name, k := NameOf(path), DotIndex(NameOf(path));
            paths == [path, Directory(path) + (name[..k] + "_" + "1" + name[k..])]
  {
    OnePath([path, path], paths[..1]);
    assert NamesIn([path]) == {path};
    NumberOneIsFree(path, paths[1]);
    NumberedPathIs(path, 1);
    assert Itoa(1) == "1";
  }

  lemma NumberOneIsFree(path: string, newPath: string)
    requires IsUniquePathFor({path}, path, newPath)
    ensures newPath == Numbered(Stem(path), 1, Extension(path))
  {
    NumberedIsLonger(path, 1);
  }

  lemma NumberedIsLonger(path: string, n: nat)
    ensures |Numbered(Stem(path), n, Extension(path))| > |path|
  {}

  lemma OnePath(originals: seq<string>, paths: seq<string>)
    requires AreUniquePaths(originals, paths) && |paths| == 1
    ensures paths == [originals[0]]
  {
    assert paths[..0] == [] && NamesIn([]) == {};
  }

  class Item {
    var path: string

    constructor (path: string)
      ensures this.path == path
    {
      this.path := path;
    }
  }

  /** Every path is the unique one for the original path, given the paths before it, and in the same directory. */
  ghost predicate AreUniquePaths(originals: seq<string>, paths: seq<string>)
    decreases |paths|
  {
    |paths| <= |originals|
    && (paths == [] ||
        var n := |paths| - 1;
        AreUniquePaths(originals, paths[..n]) && IsUniquePathFor(NamesIn(paths[..n]), originals[n], paths[n]))
  }

  lemma UniquePathIsUnused(used: set<string>, path: string, newPath: string)
    requires IsUniquePathFor(used, path, newPath)
    ensures newPath !in used
  {}

  lemma UniquePathKeepsDirectory(used: set<string>, path: string, newPath: string)
    requires IsUniquePathFor(used, path, newPath)
    ensures Directory(newPath) == Directory(path)
  {
    if path in used {
      var n: nat :| IsFirstFree(used, Stem(path), Extension(path), 1, n) && newPath == Numbered(Stem(path), n, Extension(path));
      NumberedKeepsDirectory(path, n);
    }
  }

  lemma {:induction false} UniquePathsAreDistinct(originals: seq<string>, paths: seq<string>)
    requires AreUniquePaths(originals, paths)
    ensures AreDistinct(paths)
    decreases |paths|
  {
    if paths == [] {
    } else {
      var n := |paths| - 1;
      UniquePathsAreDistinct(originals, paths[..n]);
      UniquePathIsUnused(NamesIn(paths[..n]), originals[n], paths[n]);
      DistinctWithLast(paths);
    }
  }

  lemma {:induction false} UniquePathsKeepDirectories(originals: seq<string>, paths: seq<string>, i: nat)
    requires AreUniquePaths(originals, paths) && i < |paths|
    ensures Directory(paths[i]) == Directory(originals[i])
    decreases |paths|
  {
    var n := |paths| - 1;
    if i == n {
      UniquePathKeepsDirectory(NamesIn(paths[..n]), originals[n], paths[n]);
    } else {
      UniquePathsKeepDirectories(originals, paths[..n], i);
    }
  }

  lemma OneMorePath(originals: seq<string>, paths: seq<string>, path: string)
    requires AreUniquePaths(originals, paths) && |paths| < |originals|
    requires IsUniquePathFor(NamesIn(paths), originals[|paths|], path)
    ensures AreUniquePaths(originals, paths + [path]) && NamesIn(paths + [path]) == NamesIn(paths) + {path}
  {
    assert (paths + [path])[..|paths|] == paths;
  }

  function Paths(items: seq<Item>): (paths: seq<string>)
    reads items
    ensures |paths| == |items| && forall i :: 0 <= i < |items| ==> paths[i] == items[i].path
  {
    seq(|items|, i requires 0 <= i < |items| reads items => items[i].path)
  }

  /** Renames the items in place. */
  method DeduplicateNames(items: seq<Item>)
    requires forall i, j :: 0 <= i < j < |items| ==> items[i] != items[j]
    modifies items
    ensures AreUniquePaths(old(Paths(items)), Paths(items)) && AreDistinct(Paths(items))
  {
    var usedPaths: set<string> := {};
    ghost var originals, paths: seq<string> := Paths(items), [];
    for i := 0 to |items|
      invariant |paths| == i && AreUniquePaths(originals, paths) && usedPaths == NamesIn(paths)
      invariant forall j :: 0 <= j < i ==> items[j].path == paths[j]
      invariant forall j :: i <= j < |items| ==> items[j].path == originals[j]
    {
      usedPaths, paths := DeduplicateName(items[i], usedPaths, originals, paths);
    }
    assert Paths(items) == paths;
    UniquePathsAreDistinct(originals, paths);
  }

  /** Renames one item if an earlier one has its path. */
  method DeduplicateName(item: Item, usedPaths: set<string>, ghost originals: seq<string>, ghost paths: seq<string>)
    returns (used: set<string>, ghost more: seq<string>)
    requires |paths| < |originals| && item.path == originals[|paths|]
    requires AreUniquePaths(originals, paths) && usedPaths == NamesIn(paths)
    modifies item
    ensures more == paths + [item.path] && AreUniquePaths(originals, more) && used == NamesIn(more)
  {
    var path := item.path;
    if path in usedPaths {
      var counter := FirstFree(usedPaths, Stem(path), Extension(path), 1);
      item.path := Numbered(Stem(path), counter, Extension(path));
    }
    OneMorePath(originals, paths, item.path);
    used, more := usedPaths + {item.path}, paths + [item.path];
  }
}
