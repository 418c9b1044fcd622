/** Day 7, the file system rebuilt from a shell transcript (day-7/FileSystem.swift). The
    transcript is replayed line by line against a registry of directories, a registry of files
    and a working-directory cursor; the replay is specified one line at a time by `Step`, and
    the imperative `FileSystem.ParseFileSystem` is proved to perform exactly that replay. */
module Day7FileSystem {
  import opened Wrappers
  import opened Text
  import opened Day7File
  import opened Day7Directory

  /** `diskSize`. */
  const DiskSize: int := 70_000_000

  /** What a transcript replay has built so far: the registry of every directory created (the
      root first), the registry of every file created, and the working directory, if any. */
  datatype State = State(directories: Registry, files: seq<File>, workingDirectory: Option<nat>)

  /** What a replay step needs of its state to be defined: a root, child and parent indices
      that point forwards and backwards in the registry, and a cursor inside it. */
  ghost predicate Basic(st: State) {
    && |st.directories| > 0
    && ChildrenAfter(st.directories)
    && (forall i :: 0 <= i < |st.directories| && st.directories[i].parent.Some? ==>
          st.directories[i].parent.value < i)
    && (st.workingDirectory.Some? ==> st.workingDirectory.value < |st.directories|)
  }

  /** The shell lines the interpreter recognises; in the source they are tried in this order,
      and no line has two of these shapes. */
  predicate IsDirectoryLine(line: string) {
    ParseDirectoryInformation(line).Ok?
  }

  /** `$ cd <name>` with `<name>` made of `[a-zA-Z./]`, at least one. */
  predicate IsChangeDirectoryLine(line: string) {
    && StartsWith(line, "$ cd ")
    && |line| > 5
    && forall i :: 5 <= i < |line| ==> IsLetter(line[i]) || line[i] == '.' || line[i] == '/'
  }

  /** `$ ls` and empty lines are skipped. */
  predicate IsIgnoredLine(line: string) {
    line == "$ ls" || line == ""
  }

  /** The `k`th child is named `name` and no earlier child is. */
  predicate FirstNamedAt(dirs: Registry, children: seq<nat>, name: string, k: nat)
    requires forall k :: 0 <= k < |children| ==> children[k] < |dirs|
  {
    && k < |children|
    && dirs[children[k]].name == name
    && forall j :: 0 <= j < k ==> dirs[children[j]].name != name
  }

  /** `first(where:)` on the child directories: the first child named `name`, if any. */
  function FirstChildNamed(dirs: Registry, children: seq<nat>, name: string): (found: Option<nat>)
    requires forall k :: 0 <= k < |children| ==> children[k] < |dirs|
    ensures found.Some? ==> exists k: nat :: FirstNamedAt(dirs, children, name, k) && children[k] == found.value
    ensures found.None? <==> forall k :: 0 <= k < |children| ==> dirs[children[k]].name != name
  {
    if |children| == 0 then None
    else if dirs[children[0]].name == name then
      assert FirstNamedAt(dirs, children, name, 0);
      Some(children[0])
    else
      var found := FirstChildNamed(dirs, children[1..], name);
      if found.Some? then
        var k: nat :| FirstNamedAt(dirs, children[1..], name, k) && children[1..][k] == found.value;
        assert FirstNamedAt(dirs, children, name, k + 1) by {
          forall j | 0 <= j < k + 1 ensures dirs[children[j]].name != name {
            if j > 0 { assert children[j] == children[1..][j - 1]; }
          }
        }
        found
      else
        assert forall k :: 0 <= k < |children| ==> dirs[children[k]].name != name by {
          forall k | 0 <= k < |children| ensures dirs[children[k]].name != name {
            if k > 0 { assert children[k] == children[1..][k - 1]; }
          }
        }
        found
  }

  /** A file line: with a working directory, the file joins it and the file registry; nothing
      else changes. Without one, the source stops with a fatal error. */
  function CreateFile(st: State, line: string): (r: Result<State>)
    requires Basic(st) && MatchesFilePattern(line)
    ensures r.Fatal? <==> st.workingDirectory.None?
    ensures r.Ok? ==>
      var info := ParseFileInformation(line).value;
      var file := File(info.0, info.1, st.workingDirectory.value);
      && Basic(r.value)
      && r.value.files == st.files + [file]
      && r.value.directories == WithFile(st.directories, st.workingDirectory.value, file)
      && r.value.workingDirectory == st.workingDirectory
  {
    if st.workingDirectory.None? then Fatal("Files cannot exist at root level!")
    else
      var attached := AttachFile(st.directories, line, st.workingDirectory.value).value;
      Ok(State(attached.0, st.files + [attached.1], st.workingDirectory))
  }

  /** A `dir` line: a new directory joins the registry and, when there is a working directory,
      its child list; nothing else changes. */
  function CreateDirectory(st: State, line: string): (r: Result<State>)
    requires Basic(st) && IsDirectoryLine(line)
    ensures r.Ok?
    ensures Basic(r.value)
    ensures r.value == st.(directories := WithDirectory(st.directories, ParseDirectoryInformation(line).value, st.workingDirectory))
  {
    var dirs' := AttachDirectory(st.directories, line, st.workingDirectory).value;
    WithDirectoryKeepsOrder(st.directories, ParseDirectoryInformation(line).value, st.workingDirectory);
    Ok(st.(directories := dirs'))
  }

  /** `cd <name>`: `/` moves to the root, `..` to the working directory's parent (none above the
      root), any other name to the first child so named (none when no child is). Only the
      cursor changes; the force-unwrap of a missing working directory is fatal. */
  function ChangeDirectory(st: State, name: string): (r: Result<State>)
    requires Basic(st)
    ensures r.Fatal? <==> name != "/" && st.workingDirectory.None?
    ensures r.Ok? ==>
      && Basic(r.value)
      && r.value.directories == st.directories
      && r.value.files == st.files
      && (name == "/" ==> r.value.workingDirectory == Some(0))
      && (name == ".." ==> r.value.workingDirectory == st.directories[st.workingDirectory.value].parent)
      && (name != "/" && name != ".." ==>
            r.value.workingDirectory == FirstChildNamed(st.directories, st.directories[st.workingDirectory.value].directories, name))
  {
    var dirs, wd := st.directories, st.workingDirectory;
    if name == ".." then
      if wd.None? then Fatal(NilUnwrap)
      else Ok(st.(workingDirectory := dirs[wd.value].parent))
    else if name == "/" then Ok(st.(workingDirectory := Some(0)))
    else if wd.None? then Fatal(NilUnwrap)
    else Ok(st.(workingDirectory := FirstChildNamed(dirs, dirs[wd.value].directories, name)))
  }

  /** There is at most one first position of a name among the children. */
  lemma FirstNamedAtUnique(dirs: Registry, children: seq<nat>, name: string, k: nat, k': nat)
    requires forall k :: 0 <= k < |children| ==> children[k] < |dirs|
    requires FirstNamedAt(dirs, children, name, k) && FirstNamedAt(dirs, children, name, k')
    ensures k == k'
  {
    assert !(k < k') by { assert k < |children| && dirs[children[k]].name == name; }
    assert !(k' < k) by { assert k' < |children| && dirs[children[k']].name == name; }
  }

  /** `cd ..` then `cd <name>` returns to the working directory when it is the first child of
      its parent with that name; with an earlier namesake sibling the cursor lands there. */
  lemma ChangeDirectoryUpAndBack(st: State, k: nat)
    requires Basic(st) && st.workingDirectory.Some?
    requires st.directories[st.workingDirectory.value].parent.Some?
    requires var dirs, w := st.directories, st.workingDirectory.value;
      var p := dirs[w].parent.value;
      FirstNamedAt(dirs, dirs[p].directories, dirs[w].name, k) && dirs[p].directories[k] == w
    requires st.directories[st.workingDirectory.value].name !in {"..", "/"}
    ensures ChangeDirectory(st, "..").Ok?
    ensures ChangeDirectory(ChangeDirectory(st, "..").value, st.directories[st.workingDirectory.value].name) == Ok(st)
  {
    var dirs, w := st.directories, st.workingDirectory.value;
    var p := dirs[w].parent.value;
    var up := ChangeDirectory(st, "..").value;
    assert up.workingDirectory == Some(p);
    var found := FirstChildNamed(dirs, dirs[p].directories, dirs[w].name);
    assert found.Some?;
    var k': nat :| FirstNamedAt(dirs, dirs[p].directories, dirs[w].name, k') && dirs[p].directories[k'] == found.value;
    FirstNamedAtUnique(dirs, dirs[p].directories, dirs[w].name, k, k');
  }

  /** One iteration of `parseFileSystem`'s loop: the line's shape picks the action; `$ ls` and
      empty lines change nothing, and a line of no known shape is fatal. */
  function Step(st: State, line: string): (r: Result<State>)
    requires Basic(st)
    ensures r.Ok? ==> Basic(r.value)
    ensures r.Fatal? <==>
      || (MatchesFilePattern(line) && st.workingDirectory.None?)
      || (IsChangeDirectoryLine(line) && line[5..] != "/" && st.workingDirectory.None?)
      || (!MatchesFilePattern(line) && !IsDirectoryLine(line) && !IsChangeDirectoryLine(line) && !IsIgnoredLine(line))
    ensures IsIgnoredLine(line) ==> r == Ok(st)
  {
    if MatchesFilePattern(line) then CreateFile(st, line)
    else if IsDirectoryLine(line) then CreateDirectory(st, line)
    else if IsChangeDirectoryLine(line) then ChangeDirectory(st, line[5..])
    else if IsIgnoredLine(line) then Ok(st)
    else Fatal("Unknown terminal output: " + line)
  }

  /** The whole loop: the lines replayed from the left, stopping at the first fatal one. */
  function Replay(st: State, lines: seq<string>): (r: Result<State>)
    requires Basic(st)
    ensures r.Ok? ==> Basic(r.value)
    decreases |lines|
  {
    if |lines| == 0 then Ok(st)
    else
      var before :- Replay(st, lines[..|lines| - 1]);
      Step(before, lines[|lines| - 1])
  }

  /** Replaying one more line steps from the state reached so far. */
  lemma ReplayStep(st: State, lines: seq<string>, i: nat, current: State)
    requires Basic(st) && i < |lines| && Replay(st, lines[..i]) == Ok(current)
    ensures Replay(st, lines[..i + 1]) == Step(current, lines[i])
  {
    assert lines[..i + 1][..i] == lines[..i];
  }

  /** Once a prefix of the transcript is fatal, so is the whole transcript. */
  lemma {:induction false} ReplayFatalPersists(st: State, lines: seq<string>, n: nat)
    requires Basic(st) && n <= |lines| && Replay(st, lines[..n]).Fatal?
    ensures Replay(st, lines).Fatal?
    decreases |lines|
  {
    if n < |lines| {
      var shorter := lines[..|lines| - 1];
      assert shorter[..n] == lines[..n];
      ReplayFatalPersists(st, shorter, n);
    } else {
      assert lines[..n] == lines;
    }
  }

  /** What every state reached from a fresh file system satisfies: the registry is a forest
      whose first entry is the root `/`, the cursor and every file lie in the root's subtree,
      sizes are non-negative, and the root's size is the total size of all registered files. */
  ghost predicate Invariant(st: State) {
    && Basic(st)
    && IsTree(st.directories)
    && st.directories[0].name == "/" && st.directories[0].parent.None?
    && NonNegativeFileSizes(st.directories)
    && (st.workingDirectory.Some? ==> InSubtree(st.directories, 0, st.workingDirectory.value))
    && (forall i :: 0 <= i < |st.files| ==>
          st.files[i].size >= 0 && st.files[i].parent < |st.directories| &&
          InSubtree(st.directories, 0, st.files[i].parent))
    && Size(st.directories, 0) == FilesSize(st.files)
  }

  /** The state of a fresh file system: only the root, no files, no working directory. */
  function Initial(): (st: State)
    ensures Invariant(st)
  {
    State([Directory("/", None, [], [])], [], None)
  }

  lemma FilesSizeAppend(files: seq<File>, file: File)
    ensures FilesSize(files + [file]) == FilesSize(files) + file.size
  {
    assert (files + [file])[..|files|] == files;
  }

  /** Subtree membership of old directories survives a step that keeps their parent links. */
  lemma KeepsSubtrees(st: State, st': State)
    requires Invariant(st) && Basic(st)
    requires |st.directories| <= |st'.directories|
    requires forall i :: 0 <= i < |st.directories| ==> st'.directories[i].parent == st.directories[i].parent
    ensures st.workingDirectory.Some? ==> InSubtree(st'.directories, 0, st.workingDirectory.value)
    ensures forall i :: 0 <= i < |st.files| ==> InSubtree(st'.directories, 0, st.files[i].parent)
  {
    if st.workingDirectory.Some? {
      InSubtreeSameParents(st.directories, st'.directories, 0, st.workingDirectory.value);
    }
    forall i | 0 <= i < |st.files| ensures InSubtree(st'.directories, 0, st.files[i].parent) {
      InSubtreeSameParents(st.directories, st'.directories, 0, st.files[i].parent);
    }
  }

  lemma CreateFilePreservesInvariant(st: State, line: string)
    requires Invariant(st) && MatchesFilePattern(line)
    ensures CreateFile(st, line).Ok? ==> Invariant(CreateFile(st, line).value)
  {
    if st.workingDirectory.Some? {
      var st' := CreateFile(st, line).value;
      var w := st.workingDirectory.value;
      var file := st'.files[|st.files|];
      var dirs := st.directories;
      var dirs' := st'.directories;
      assert dirs' == WithFile(dirs, w, file) && st'.files == st.files + [file];
      assert file.size >= 0 && file.parent == w;
      WithFileKeepsTree(dirs, w, file);
      assert NonNegativeFileSizes(dirs') by {
        assert dirs'[w].files == dirs[w].files + [file];
      }
      assert Size(dirs', 0) == FilesSize(st'.files) by {
        WithFileSize(dirs, w, file, 0);
        FilesSizeAppend(st.files, file);
      }
      KeepsSubtrees(st, st');
      InSubtreeSameParents(dirs, dirs', 0, w);
    }
  }

  lemma CreateDirectoryPreservesInvariant(st: State, line: string)
    requires Invariant(st) && IsDirectoryLine(line)
    ensures Invariant(CreateDirectory(st, line).value)
  {
    var st' := CreateDirectory(st, line).value;
    var name := ParseDirectoryInformation(line).value;
    WithDirectoryKeepsTree(st.directories, name, st.workingDirectory);
    WithDirectorySize(st.directories, name, st.workingDirectory, 0);
    KeepsSubtrees(st, st');
    if st.workingDirectory.Some? {
      InSubtreeSameParents(st.directories, st'.directories, 0, st.workingDirectory.value);
    }
  }

  lemma ChangeDirectoryPreservesInvariant(st: State, name: string)
    requires Invariant(st)
    ensures ChangeDirectory(st, name).Ok? ==> Invariant(ChangeDirectory(st, name).value)
  {
    var r := ChangeDirectory(st, name);
    if r.Ok? {
      var dirs, wd := st.directories, st.workingDirectory;
      if name == ".." {
        assert InSubtree(dirs, 0, wd.value);
      } else if name != "/" && r.value.workingDirectory.Some? {
        var c := r.value.workingDirectory.value;
        var k: nat :| FirstNamedAt(dirs, dirs[wd.value].directories, name, k) && dirs[wd.value].directories[k] == c;
        assert dirs[c].parent == Some(wd.value);
      }
    }
  }

  /** Every line of the transcript keeps the invariant. */
  lemma StepPreservesInvariant(st: State, line: string)
    requires Invariant(st)
    ensures Step(st, line).Ok? ==> Invariant(Step(st, line).value)
  {
    if MatchesFilePattern(line) {
      CreateFilePreservesInvariant(st, line);
    } else if IsDirectoryLine(line) {
      CreateDirectoryPreservesInvariant(st, line);
    } else if IsChangeDirectoryLine(line) {
      ChangeDirectoryPreservesInvariant(st, line[5..]);
    }
  }

  /** Replaying any transcript from a state that keeps the invariant keeps it. */
  lemma {:induction false} ReplayPreservesInvariant(st: State, lines: seq<string>)
    requires Invariant(st)
    ensures Replay(st, lines).Ok? ==> Invariant(Replay(st, lines).value)
    decreases |lines|
  {
    if |lines| > 0 {
      var prefix := lines[..|lines| - 1];
      ReplayPreservesInvariant(st, prefix);
      if Replay(st, prefix).Ok? {
        StepPreservesInvariant(Replay(st, prefix).value, lines[|lines| - 1]);
      }
    }
  }

  /** The conditions the size queries are asked with: below a limit, or at least a threshold. */
  datatype SizeCondition = Below(limit: int) | AtLeast(threshold: int) {
    predicate Holds(size: int) {
      match this
      case Below(limit) => size < limit
      case AtLeast(threshold) => size >= threshold
    }
  }

  /** The smallest size among the first `n` registered directories whose size satisfies
      `condition`, if any does: `filter(condition).min(by:)` read off as a size. */
  function SmallestSizeAmong(dirs: Registry, condition: SizeCondition, n: nat): Option<int>
    requires ChildrenAfter(dirs) && n <= |dirs|
  {
    if n == 0 then None
    else
      var before := SmallestSizeAmong(dirs, condition, n - 1);
      var size := Size(dirs, n - 1);
      if condition.Holds(size) && (before.None? || size < before.value) then Some(size)
      else before
  }

  /** There is a smallest matching size exactly when some directory matches; it is the size of
      a matching directory and no larger than any matching size. */
  lemma {:induction false} SmallestSizeAmongIsMinimum(dirs: Registry, condition: SizeCondition, n: nat)
    requires ChildrenAfter(dirs) && n <= |dirs|
    ensures (exists i :: 0 <= i < n && condition.Holds(Size(dirs, i))) ==> SmallestSizeAmong(dirs, condition, n).Some?
    ensures SmallestSizeAmong(dirs, condition, n).Some? ==>
      (exists i :: 0 <= i < n && condition.Holds(Size(dirs, i)) && Size(dirs, i) == SmallestSizeAmong(dirs, condition, n).value) &&
      (forall i :: 0 <= i < n && condition.Holds(Size(dirs, i)) ==> SmallestSizeAmong(dirs, condition, n).value <= Size(dirs, i))
  {
    if n > 0 {
      SmallestSizeAmongIsMinimum(dirs, condition, n - 1);
    }
  }

  /** The total size of the first `n` registered directories whose size satisfies `condition`,
      added up from the left: `calculateSizeOfDirectories`' `reduce`. */
  function SizeAmong(dirs: Registry, condition: SizeCondition, n: nat): int
    requires ChildrenAfter(dirs) && n <= |dirs|
  {
    if n == 0 then 0
    else SizeAmong(dirs, condition, n - 1) + (if condition.Holds(Size(dirs, n - 1)) then Size(dirs, n - 1) else 0)
  }

  /** With non-negative file sizes the total is non-negative, at least each matching size, and
      zero when nothing matches. */
  lemma {:induction false} SizeAmongBounds(dirs: Registry, condition: SizeCondition, n: nat)
    requires ChildrenAfter(dirs) && NonNegativeFileSizes(dirs) && n <= |dirs|
    ensures SizeAmong(dirs, condition, n) >= 0
    ensures forall i :: 0 <= i < n && condition.Holds(Size(dirs, i)) ==> Size(dirs, i) <= SizeAmong(dirs, condition, n)
    ensures (forall i :: 0 <= i < n ==> !condition.Holds(Size(dirs, i))) ==> SizeAmong(dirs, condition, n) == 0
  {
    if n > 0 {
      SizeAmongBounds(dirs, condition, n - 1);
      SizeBounds(dirs, n - 1);
    }
  }

  /** `FileSystem`: the two registries and the working directory. */
  class FileSystem {
    var directories: Registry
    var files: seq<File>
    var workingDirectory: Option<nat>

    function Snapshot(): State
      reads this
    {
      State(directories, files, workingDirectory)
    }

    ghost predicate Valid()
      reads this
    {
      Invariant(Snapshot())
    }

    /** `init()`: the registry holds only the root `/`, and there are no files. */
    constructor ()
      ensures Valid()
      ensures directories == [Directory("/", None, [], [])] && files == [] && workingDirectory == None
    {
      directories := [Directory("/", None, [], [])];
      files := [];
      workingDirectory := None;
    }

    /** `parseFileSystem(input:)`: replays the newline-separated transcript; the result is fatal
        exactly when the replay is, and otherwise the new state is the replay's. */
    method ParseFileSystem(input: string) returns (r: Result<()>)
      requires Valid()
      modifies this
      ensures r.Ok? <==> Replay(old(Snapshot()), Split(input, "\n")).Ok?
      ensures r.Ok? ==> Replay(old(Snapshot()), Split(input, "\n")) == Ok(Snapshot()) && Valid()
    {
      var lines := Split(input, "\n");
      ghost var start := Snapshot();
      var i := 0;
      while i < |lines|
        invariant 0 <= i <= |lines|
        invariant Basic(Snapshot())
        invariant Replay(start, lines[..i]) == Ok(Snapshot())
      {
        ReplayStep(start, lines, i, Snapshot());
        var step := InterpretLine(lines[i]);
        if step.Fatal? {
          ReplayFatalPersists(start, lines, i + 1);
          return step;
        }
        i := i + 1;
      }
      assert lines[..|lines|] == lines;
      ReplayPreservesInvariant(start, lines);
      return Ok(());
    }

    /** One iteration of `parseFileSystem`'s loop, on the fields: the line's shape picks the
        action, and the new state, or the failure, is the one `Step` gives. */
    method InterpretLine(line: string) returns (r: Result<()>)
      requires Basic(Snapshot())
      modifies this
      ensures r.Ok? ==> Step(old(Snapshot()), line) == Ok(Snapshot())
      ensures r.Fatal? ==> Step(old(Snapshot()), line) == Fatal(r.message)
    {
      if MatchesFilePattern(line) {
        if workingDirectory.None? {
          return Fatal("Files cannot exist at root level!");
        }
        var attached := AttachFile(directories, line, workingDirectory.value);
        directories := attached.value.0;
        files := files + [attached.value.1];
      } else if IsDirectoryLine(line) {
        var attached := AttachDirectory(directories, line, workingDirectory);
        directories := attached.value;
      } else if IsChangeDirectoryLine(line) {
        var name := line[5..];
        if name == ".." {
          if workingDirectory.None? {
            return Fatal(NilUnwrap);
          }
          workingDirectory := directories[workingDirectory.value].parent;
        } else if name == "/" {
          workingDirectory := Some(0);
        } else {
          if workingDirectory.None? {
            return Fatal(NilUnwrap);
          }
          workingDirectory := FirstChildNamed(directories, directories[workingDirectory.value].directories, name);
        }
      } else if !IsIgnoredLine(line) {
        return Fatal("Unknown terminal output: " + line);
      }
      return Ok(());
    }

    /** `size`: the root's size, which is the total size of every registered file. */
    function Size(): (size: int)
      reads this
      requires Valid()
      ensures size == FilesSize(files)
      ensures size >= 0
    {
      SizeBounds(directories, 0);
      Day7Directory.Size(directories, 0)
    }

    /** `remainingSpace`. */
    function RemainingSpace(): (space: int)
      reads this
      requires Valid()
      ensures space == DiskSize - FilesSize(files)
    {
      DiskSize - Size()
    }

    /** `calculateSizeOfDirectories(where:)`: the total size of the registered directories
        whose size satisfies `condition`. */
    function SizeOfDirectories(condition: SizeCondition): (total: int)
      reads this
      requires Valid()
      ensures total >= 0
      ensures forall i :: 0 <= i < |directories| && condition.Holds(Day7Directory.Size(directories, i)) ==>
        Day7Directory.Size(directories, i) <= total
      ensures (forall i :: 0 <= i < |directories| ==> !condition.Holds(Day7Directory.Size(directories, i))) ==> total == 0
    {
      SizeAmongBounds(directories, condition, |directories|);
      SizeAmong(directories, condition, |directories|)
    }

    /** `calculateSizeOfSmallestDirectory(where:)`: the size of a registered directory that
        satisfies `condition` and is no larger than any other that does; the force-unwrap is
        fatal when none does. */
    function SizeOfSmallestDirectory(condition: SizeCondition): (r: Result<int>)
      reads this
      requires Valid()
      ensures (exists i :: 0 <= i < |directories| && condition.Holds(Day7Directory.Size(directories, i))) ==> r.Ok?
      ensures r.Ok? ==>
        (exists i :: 0 <= i < |directories| && condition.Holds(Day7Directory.Size(directories, i)) &&
           Day7Directory.Size(directories, i) == r.value) &&
        (forall i :: 0 <= i < |directories| && condition.Holds(Day7Directory.Size(directories, i)) ==>
           r.value <= Day7Directory.Size(directories, i))
    {
      SmallestSizeAmongIsMinimum(directories, condition, |directories|);
      match SmallestSizeAmong(directories, condition, |directories|)
      case None => Fatal(NilUnwrap)
      case Some(size) => Ok(size)
    }
  }
}
