/** Day 7, directories of the file system (day-7/Directory.swift), kept in a registry: a
    sequence of directories in creation order, in which a directory names its parent and its
    child directories by their indices. The index-based registry stands for the object graph
    of the source, whose children point back at their parent. */
module Day7Directory {
  import opened Wrappers
  import opened Text
  import opened Day7File

  datatype Directory = Directory(name: string, parent: Option<nat>, files: seq<File>, directories: seq<nat>)

  type Registry = seq<Directory>

  /** Every child directory comes after its parent in the registry. */
  ghost predicate ChildrenAfter(dirs: Registry) {
    forall i, k :: 0 <= i < |dirs| && 0 <= k < |dirs[i].directories| ==>
      i < dirs[i].directories[k] < |dirs|
  }

  /** The registry is a forest: parent and child links agree, a parent precedes its children,
      and no directory is listed twice by its parent. */
  ghost predicate IsTree(dirs: Registry) {
    && ChildrenAfter(dirs)
    && (forall i, k :: 0 <= i < |dirs| && 0 <= k < |dirs[i].directories| ==>
          dirs[dirs[i].directories[k]].parent == Some(i))
    && (forall i :: 0 <= i < |dirs| && dirs[i].parent.Some? ==>
          dirs[i].parent.value < i && i in dirs[dirs[i].parent.value].directories)
    && (forall i, k, l :: 0 <= i < |dirs| && 0 <= k < l < |dirs[i].directories| ==>
          dirs[i].directories[k] != dirs[i].directories[l])
  }

  ghost predicate NonNegativeFileSizes(dirs: Registry) {
    forall i, j :: 0 <= i < |dirs| && 0 <= j < |dirs[i].files| ==> dirs[i].files[j].size >= 0
  }

  /** The sizes of `files` added up from the left. */
  function FilesSize(files: seq<File>): int {
    if |files| == 0 then 0 else FilesSize(files[..|files| - 1]) + files[|files| - 1].size
  }

  /** `size`: the sizes of the directory's own files plus the sizes of its child directories,
      recomputed on every call. */
  function Size(dirs: Registry, i: nat): int
    requires ChildrenAfter(dirs) && i < |dirs|
    decreases |dirs| - i, 1
  {
    FilesSize(dirs[i].files) + SubdirectoriesSize(dirs, i, |dirs[i].directories|)
  }

  /** The sizes of the first `k` child directories of directory `i`, added up from the left. */
  function SubdirectoriesSize(dirs: Registry, i: nat, k: nat): int
    requires ChildrenAfter(dirs) && i < |dirs| && k <= |dirs[i].directories|
    decreases |dirs| - i, 0, k
  {
    if k == 0 then 0
    else SubdirectoriesSize(dirs, i, k - 1) + Size(dirs, dirs[i].directories[k - 1])
  }

  /** Directory `d` is `x` or lies below it, following parent links upwards. */
  ghost predicate InSubtree(dirs: Registry, x: nat, d: nat)
    requires d < |dirs|
    decreases d
  {
    d == x || (dirs[d].parent.Some? && dirs[d].parent.value < d && InSubtree(dirs, x, dirs[d].parent.value))
  }

  // ---------------------------------------------------------------------------------------
  // Sizes are non-negative and dominate their parts

  lemma {:induction false} FilesSizeNonNegative(files: seq<File>)
    requires forall j :: 0 <= j < |files| ==> files[j].size >= 0
    ensures FilesSize(files) >= 0
    ensures forall j :: 0 <= j < |files| ==> FilesSize(files) >= files[j].size
    decreases |files|
  {
    if |files| > 0 {
      FilesSizeNonNegative(files[..|files| - 1]);
      assert forall j :: 0 <= j < |files| - 1 ==> files[..|files| - 1][j] == files[j];
    }
  }

  /** With no negative file size, a directory's size is non-negative and at least the size of
      each of its files and of each of its child directories. */
  lemma {:induction false} SizeBounds(dirs: Registry, i: nat)
    requires ChildrenAfter(dirs) && NonNegativeFileSizes(dirs) && i < |dirs|
    ensures Size(dirs, i) >= 0
    ensures forall j :: 0 <= j < |dirs[i].files| ==> Size(dirs, i) >= dirs[i].files[j].size
    ensures forall k :: 0 <= k < |dirs[i].directories| ==> Size(dirs, i) >= Size(dirs, dirs[i].directories[k])
    decreases |dirs| - i, 1
  {
    FilesSizeNonNegative(dirs[i].files);
    SubdirectoriesSizeBounds(dirs, i, |dirs[i].directories|);
  }

  lemma {:induction false} SubdirectoriesSizeBounds(dirs: Registry, i: nat, k: nat)
    requires ChildrenAfter(dirs) && NonNegativeFileSizes(dirs) && i < |dirs| && k <= |dirs[i].directories|
    ensures SubdirectoriesSize(dirs, i, k) >= 0
    ensures forall l :: 0 <= l < k ==> SubdirectoriesSize(dirs, i, k) >= Size(dirs, dirs[i].directories[l])
    decreases |dirs| - i, 0, k
  {
    if k > 0 {
      SubdirectoriesSizeBounds(dirs, i, k - 1);
      SizeBounds(dirs, dirs[i].directories[k - 1]);
    }
  }

  // ---------------------------------------------------------------------------------------
  // The shape of subtrees

  lemma {:induction false} InSubtreeBelow(dirs: Registry, x: nat, d: nat)
    requires d < |dirs| && InSubtree(dirs, x, d)
    ensures x <= d
    decreases d
  {
    if d != x {
      InSubtreeBelow(dirs, x, dirs[d].parent.value);
    }
  }

  /** What lies below a child lies below its parent. */
  lemma {:induction false} InSubtreeOfParent(dirs: Registry, x: nat, c: nat, d: nat)
    requires d < |dirs| && c < |dirs| && dirs[c].parent == Some(x) && x < c
    requires InSubtree(dirs, c, d)
    ensures InSubtree(dirs, x, d)
    decreases d
  {
    if d != c {
      InSubtreeOfParent(dirs, x, c, dirs[d].parent.value);
    }
  }

  /** What lies strictly below `x` lies below one of its children. */
  lemma {:induction false} InSubtreeOfChild(dirs: Registry, x: nat, d: nat) returns (k: nat)
    requires IsTree(dirs) && d < |dirs| && InSubtree(dirs, x, d) && x != d
    ensures x < |dirs| && k < |dirs[x].directories| && InSubtree(dirs, dirs[x].directories[k], d)
    decreases d
  {
    var p := dirs[d].parent.value;
    InSubtreeBelow(dirs, x, p);
    if p == x {
      assert d in dirs[x].directories;
      k :| 0 <= k < |dirs[x].directories| && dirs[x].directories[k] == d;
    } else {
      k := InSubtreeOfChild(dirs, x, p);
    }
  }

  /** The directories above `d` form a chain: of two of them, one lies below the other. */
  lemma {:induction false} InSubtreeChain(dirs: Registry, a: nat, b: nat, d: nat)
    requires d < |dirs| && InSubtree(dirs, a, d) && InSubtree(dirs, b, d)
    ensures a < |dirs| && b < |dirs|
    ensures InSubtree(dirs, a, b) || InSubtree(dirs, b, a)
    decreases d
  {
    InSubtreeBelow(dirs, a, d);
    InSubtreeBelow(dirs, b, d);
    if d != a && d != b {
      InSubtreeChain(dirs, a, b, dirs[d].parent.value);
    }
  }

  /** At most one child of `x` has `d` below it. */
  lemma OneChildOnPath(dirs: Registry, x: nat, k: nat, l: nat, d: nat)
    requires IsTree(dirs) && x < |dirs| && d < |dirs|
    requires k < l < |dirs[x].directories|
    ensures !(InSubtree(dirs, dirs[x].directories[k], d) && InSubtree(dirs, dirs[x].directories[l], d))
  {
    var a, b := dirs[x].directories[k], dirs[x].directories[l];
    if InSubtree(dirs, a, d) && InSubtree(dirs, b, d) {
      InSubtreeChain(dirs, a, b, d);
      if InSubtree(dirs, a, b) {
        assert InSubtree(dirs, a, dirs[b].parent.value);
        InSubtreeBelow(dirs, a, x);
      } else {
        assert InSubtree(dirs, b, dirs[a].parent.value);
        InSubtreeBelow(dirs, b, x);
      }
    }
  }

  /** Subtrees only look at parent links, so registries that agree on those agree on them. */
  lemma {:induction false} InSubtreeSameParents(dirs: Registry, dirs': Registry, x: nat, d: nat)
    requires d < |dirs| <= |dirs'|
    requires forall i :: 0 <= i < |dirs| ==> dirs'[i].parent == dirs[i].parent
    ensures InSubtree(dirs', x, d) == InSubtree(dirs, x, d)
    decreases d
  {
    if d != x && dirs[d].parent.Some? && dirs[d].parent.value < d {
      InSubtreeSameParents(dirs, dirs', x, dirs[d].parent.value);
    }
  }

  // ---------------------------------------------------------------------------------------
  // Creating directories and files

  /** A name made of the letters `[a-zA-Z]`, at least one. */
  predicate IsDirectoryName(s: string) {
    |s| > 0 && forall i :: 0 <= i < |s| ==> IsLetter(s[i])
  }

  /** `parseInformation`: the name in a line that wholly matches `dir ([a-zA-Z]+)`; any other
      line is fatal. */
  function ParseDirectoryInformation(line: string): (r: Result<string>)
    ensures r.Ok? ==> IsDirectoryName(r.value) && line == "dir " + r.value
  {
    if StartsWith(line, "dir ") && IsDirectoryName(line[4..]) then Ok(line[4..])
    else Fatal("Invalid directory information format!")
  }

  /** Every `dir` line with a well-formed name parses back to that name. */
  lemma ParseDirectoryInformationRoundTrip(name: string)
    requires IsDirectoryName(name)
    ensures ParseDirectoryInformation("dir " + name) == Ok(name)
  {
    assert ("dir " + name)[4..] == name;
  }

  /** The registry after a new, empty directory is created at its end and, when it has a
      parent, appended to the parent's child directories. */
  function WithDirectory(dirs: Registry, name: string, parent: Option<nat>): Registry
    requires parent.Some? ==> parent.value < |dirs|
  {
    var created := Directory(name, parent, [], []);
    if parent.Some? then
      var p := parent.value;
      dirs[p := dirs[p].(directories := dirs[p].directories + [|dirs|])] + [created]
    else dirs + [created]
  }

  /** The registry after `file` is appended to the files of directory `d`. */
  function WithFile(dirs: Registry, d: nat, file: File): Registry
    requires d < |dirs|
  {
    dirs[d := dirs[d].(files := dirs[d].files + [file])]
  }

  /** `init(from:in:)`: the directory named by a `dir` line. Only the new directory, at the end
      of the registry, and the parent's child list, which gains it at its end, change; without
      a parent the directory is attached nowhere. A line that does not match is fatal. */
  function AttachDirectory(dirs: Registry, line: string, parent: Option<nat>): (r: Result<Registry>)
    requires parent.Some? ==> parent.value < |dirs|
    ensures r.Ok? <==> ParseDirectoryInformation(line).Ok?
    ensures r.Ok? ==>
      && |r.value| == |dirs| + 1
      && r.value[|dirs|] == Directory(ParseDirectoryInformation(line).value, parent, [], [])
      && (forall i :: 0 <= i < |dirs| && parent != Some(i) ==> r.value[i] == dirs[i])
      && (parent.Some? ==>
            r.value[parent.value] == dirs[parent.value].(directories := dirs[parent.value].directories + [|dirs|]))
  {
    var name :- ParseDirectoryInformation(line);
    Ok(WithDirectory(dirs, name, parent))
  }

  /** File's `init(from:in:)`: the file named by a file line, appended at the end of its
      directory's files; nothing else changes. A line that does not match is fatal. */
  function AttachFile(dirs: Registry, line: string, parent: nat): (r: Result<(Registry, File)>)
    requires parent < |dirs|
    ensures r.Ok? <==> MatchesFilePattern(line)
    ensures r.Ok? ==>
      var info := ParseFileInformation(line).value;
      && r.value.1 == File(info.0, info.1, parent)
      && |r.value.0| == |dirs|
      && (forall i :: 0 <= i < |dirs| && i != parent ==> r.value.0[i] == dirs[i])
      && r.value.0[parent] == dirs[parent].(files := dirs[parent].files + [r.value.1])
  {
    var info :- ParseFileInformation(line);
    var file := File(info.0, info.1, parent);
    Ok((WithFile(dirs, parent, file), file))
  }

  // ---------------------------------------------------------------------------------------
  // What creating a file or a directory does to the tree and to sizes

  /** Adding a file keeps the forest and every parent and child link. */
  lemma WithFileKeepsTree(dirs: Registry, d: nat, file: File)
    requires IsTree(dirs) && d < |dirs|
    ensures |WithFile(dirs, d, file)| == |dirs|
    ensures forall i :: 0 <= i < |dirs| ==>
      WithFile(dirs, d, file)[i].parent == dirs[i].parent &&
      WithFile(dirs, d, file)[i].directories == dirs[i].directories
    ensures IsTree(WithFile(dirs, d, file))
  {
  }

  /** Adding a file of size `s` to `d` adds `s` to the size of `d` and of every directory above
      it, and leaves every other directory's size alone. */
  lemma {:induction false} WithFileSize(dirs: Registry, d: nat, file: File, x: nat)
    requires IsTree(dirs) && d < |dirs| && x < |dirs|
    ensures ChildrenAfter(WithFile(dirs, d, file))
    ensures Size(WithFile(dirs, d, file), x) == Size(dirs, x) + (if InSubtree(dirs, x, d) then file.size else 0)
    decreases |dirs| - x, 1
  {
    WithFileKeepsTree(dirs, d, file);
    var dirs' := WithFile(dirs, d, file);
    var n := |dirs[x].directories|;
    WithFileSubdirectoriesSize(dirs, d, file, x, n);
    if x == d {
      var files := dirs[d].files;
      assert (files + [file])[..|files|] == files;
      forall j | 0 <= j < n ensures !InSubtree(dirs, dirs[x].directories[j], d) {
        if InSubtree(dirs, dirs[x].directories[j], d) {
          InSubtreeBelow(dirs, dirs[x].directories[j], d);
        }
      }
    } else if InSubtree(dirs, x, d) {
      var k := InSubtreeOfChild(dirs, x, d);
    } else {
      forall j | 0 <= j < n ensures !InSubtree(dirs, dirs[x].directories[j], d) {
        if InSubtree(dirs, dirs[x].directories[j], d) {
          InSubtreeOfParent(dirs, x, dirs[x].directories[j], d);
        }
      }
    }
  }

  /** Some one of the first `k` children of `x` has `d` below it. */
  ghost predicate ChildOnPath(dirs: Registry, x: nat, k: nat, d: nat)
    requires x < |dirs| && k <= |dirs[x].directories| && d < |dirs|
  {
    exists j :: 0 <= j < k && InSubtree(dirs, dirs[x].directories[j], d)
  }

  /** The first `k` children lead to `d` when the first `k - 1` do or child `k - 1` does, and
      never both. */
  lemma ChildOnPathStep(dirs: Registry, x: nat, k: nat, d: nat)
    requires IsTree(dirs) && x < |dirs| && d < |dirs| && 0 < k <= |dirs[x].directories|
    ensures ChildOnPath(dirs, x, k, d) <==>
      ChildOnPath(dirs, x, k - 1, d) || InSubtree(dirs, dirs[x].directories[k - 1], d)
    ensures InSubtree(dirs, dirs[x].directories[k - 1], d) ==> !ChildOnPath(dirs, x, k - 1, d)
  {
    var c := dirs[x].directories[k - 1];
    if InSubtree(dirs, c, d) {
      forall j | 0 <= j < k - 1 ensures !InSubtree(dirs, dirs[x].directories[j], d) {
        OneChildOnPath(dirs, x, j, k - 1, d);
      }
    }
    if ChildOnPath(dirs, x, k - 1, d) {
      var j :| 0 <= j < k - 1 && InSubtree(dirs, dirs[x].directories[j], d);
      assert ChildOnPath(dirs, x, k, d);
    }
    if ChildOnPath(dirs, x, k, d) && !InSubtree(dirs, c, d) {
      var j :| 0 <= j < k && InSubtree(dirs, dirs[x].directories[j], d);
      assert j < k - 1;
      assert ChildOnPath(dirs, x, k - 1, d);
    }
  }

  lemma {:induction false} WithFileSubdirectoriesSize(dirs: Registry, d: nat, file: File, x: nat, k: nat)
    requires IsTree(dirs) && d < |dirs| && x < |dirs| && k <= |dirs[x].directories|
    ensures ChildrenAfter(WithFile(dirs, d, file))
    ensures SubdirectoriesSize(WithFile(dirs, d, file), x, k) ==
      SubdirectoriesSize(dirs, x, k) + (if ChildOnPath(dirs, x, k, d) then file.size else 0)
    decreases |dirs| - x, 0, k
  {
    WithFileKeepsTree(dirs, d, file);
    if k > 0 {
      var c := dirs[x].directories[k - 1];
      WithFileSubdirectoriesSize(dirs, d, file, x, k - 1);
      WithFileSize(dirs, d, file, c);
      ChildOnPathStep(dirs, x, k, d);
      assert WithFile(dirs, d, file)[x].directories[k - 1] == c;
    }
  }

  /** Creating a directory keeps the forest; the old directories keep their parents and files. */
  lemma WithDirectoryKeepsTree(dirs: Registry, name: string, parent: Option<nat>)
    requires IsTree(dirs) && (parent.Some? ==> parent.value < |dirs|)
    ensures |WithDirectory(dirs, name, parent)| == |dirs| + 1
    ensures forall i :: 0 <= i < |dirs| ==>
      WithDirectory(dirs, name, parent)[i].parent == dirs[i].parent &&
      WithDirectory(dirs, name, parent)[i].files == dirs[i].files
    ensures IsTree(WithDirectory(dirs, name, parent))
  {
    var dirs' := WithDirectory(dirs, name, parent);
    var n := |dirs|;
    if parent.Some? {
      var p := parent.value;
      assert forall i :: 0 <= i < n && i != p ==> dirs'[i] == dirs[i];
      AppendedChildKeepsTree(dirs, dirs', p);
    } else {
      RootAppendKeepsTree(dirs, Directory(name, None, [], []));
    }
  }

  /** A new childless directory without a parent, added at the end, keeps a forest. */
  lemma RootAppendKeepsTree(dirs: Registry, created: Directory)
    requires IsTree(dirs) && created.parent.None? && created.directories == []
    ensures IsTree(dirs + [created])
  {
    var dirs' := dirs + [created];
    assert forall i :: 0 <= i < |dirs| ==> dirs'[i] == dirs[i];
  }

  /** `dirs'` is `dirs` with one new childless directory at the end, listed last among the
      children of `p`. */
  ghost predicate AppendedChild(dirs: Registry, dirs': Registry, p: nat) {
    && p < |dirs|
    && |dirs'| == |dirs| + 1
    && (forall i :: 0 <= i < |dirs| && i != p ==> dirs'[i] == dirs[i])
    && dirs'[p] == dirs[p].(directories := dirs[p].directories + [|dirs|])
    && dirs'[|dirs|].parent == Some(p)
    && dirs'[|dirs|].directories == []
  }

  lemma AppendedChildKeepsTree(dirs: Registry, dirs': Registry, p: nat)
    requires IsTree(dirs) && AppendedChild(dirs, dirs', p)
    ensures IsTree(dirs')
  {
    AppendedChildKeepsOrder(dirs, dirs', p);
    AppendedChildKeepsLinks(dirs, dirs', p);
    AppendedChildKeepsDistinct(dirs, dirs', p);
  }

  lemma AppendedChildKeepsOrder(dirs: Registry, dirs': Registry, p: nat)
    requires ChildrenAfter(dirs) && AppendedChild(dirs, dirs', p)
    ensures ChildrenAfter(dirs')
  {
    forall i, k | 0 <= i < |dirs'| && 0 <= k < |dirs'[i].directories|
      ensures i < dirs'[i].directories[k] < |dirs'|
    {
      if i != p {
        assert dirs'[i].directories[k] == dirs[i].directories[k];
      }
    }
  }

  lemma AppendedChildKeepsLinks(dirs: Registry, dirs': Registry, p: nat)
    requires IsTree(dirs) && AppendedChild(dirs, dirs', p)
    ensures forall i, k :: 0 <= i < |dirs'| && 0 <= k < |dirs'[i].directories| ==>
      dirs'[dirs'[i].directories[k]].parent == Some(i)
    ensures forall i :: 0 <= i < |dirs'| && dirs'[i].parent.Some? ==>
      dirs'[i].parent.value < i && i in dirs'[dirs'[i].parent.value].directories
  {
    var n := |dirs|;
    forall i, k | 0 <= i < |dirs'| && 0 <= k < |dirs'[i].directories|
      ensures dirs'[dirs'[i].directories[k]].parent == Some(i)
    {
      var c := dirs'[i].directories[k];
      if c < n {
        assert c == dirs[i].directories[k];
      }
    }
    forall i | 0 <= i < |dirs'| && dirs'[i].parent.Some?
      ensures dirs'[i].parent.value < i && i in dirs'[dirs'[i].parent.value].directories
    {
      if i < n {
        var q := dirs[i].parent.value;
        assert i in dirs[q].directories;
      }
    }
  }

  lemma AppendedChildKeepsDistinct(dirs: Registry, dirs': Registry, p: nat)
    requires IsTree(dirs) && AppendedChild(dirs, dirs', p)
    ensures forall i, k, l :: 0 <= i < |dirs'| && 0 <= k < l < |dirs'[i].directories| ==>
      dirs'[i].directories[k] != dirs'[i].directories[l]
  {
    forall i, k, l | 0 <= i < |dirs'| && 0 <= k < l < |dirs'[i].directories|
      ensures dirs'[i].directories[k] != dirs'[i].directories[l]
    {
      if i == p && l == |dirs[p].directories| {
        assert dirs'[i].directories[k] == dirs[p].directories[k] < |dirs|;
      }
    }
  }

  /** Creating a directory keeps children after parents, and changes an old directory at most
      by one more child at the end of its list. */
  lemma WithDirectoryKeepsOrder(dirs: Registry, name: string, parent: Option<nat>)
    requires ChildrenAfter(dirs) && (parent.Some? ==> parent.value < |dirs|)
    ensures ChildrenAfter(WithDirectory(dirs, name, parent))
    ensures forall x :: 0 <= x < |dirs| ==>
      WithDirectory(dirs, name, parent)[x].files == dirs[x].files &&
      WithDirectory(dirs, name, parent)[x].directories[..|dirs[x].directories|] == dirs[x].directories
  {
    var dirs' := WithDirectory(dirs, name, parent);
    forall x | 0 <= x < |dirs|
      ensures dirs'[x].directories[..|dirs[x].directories|] == dirs[x].directories
    {
      if parent == Some(x) {
        assert dirs'[x].directories == dirs[x].directories + [|dirs|];
      }
    }
  }

  /** A new directory is empty, and creating it changes no other directory's size. */
  lemma {:induction false} WithDirectorySize(dirs: Registry, name: string, parent: Option<nat>, x: nat)
    requires ChildrenAfter(dirs) && (parent.Some? ==> parent.value < |dirs|) && x <= |dirs|
    ensures ChildrenAfter(WithDirectory(dirs, name, parent))
    ensures Size(WithDirectory(dirs, name, parent), x) == if x < |dirs| then Size(dirs, x) else 0
    decreases |dirs| - x, 1
  {
    WithDirectoryKeepsOrder(dirs, name, parent);
    var dirs' := WithDirectory(dirs, name, parent);
    if x < |dirs| {
      var n := |dirs[x].directories|;
      WithDirectorySubdirectoriesSize(dirs, name, parent, x, n);
      if parent == Some(x) {
        assert dirs'[x].directories == dirs[x].directories + [|dirs|];
        WithDirectorySize(dirs, name, parent, |dirs|);
      } else {
        assert dirs'[x] == dirs[x];
      }
    }
  }

  lemma {:induction false} WithDirectorySubdirectoriesSize(dirs: Registry, name: string, parent: Option<nat>, x: nat, k: nat)
    requires ChildrenAfter(dirs) && (parent.Some? ==> parent.value < |dirs|) && x < |dirs| && k <= |dirs[x].directories|
    ensures ChildrenAfter(WithDirectory(dirs, name, parent))
    ensures k <= |WithDirectory(dirs, name, parent)[x].directories|
    ensures SubdirectoriesSize(WithDirectory(dirs, name, parent), x, k) == SubdirectoriesSize(dirs, x, k)
    decreases |dirs| - x, 0, k
  {
    WithDirectoryKeepsOrder(dirs, name, parent);
    var dirs' := WithDirectory(dirs, name, parent);
    assert dirs'[x].directories[..|dirs[x].directories|] == dirs[x].directories;
    if k > 0 {
      WithDirectorySubdirectoriesSize(dirs, name, parent, x, k - 1);
      assert dirs'[x].directories[k - 1] == dirs[x].directories[k - 1];
      WithDirectorySize(dirs, name, parent, dirs[x].directories[k - 1]);
    }
  }
}
