/** Day 7, the two answers (day-7/main.swift), read off a file system built from a transcript. */
module Day7 {
  import opened Wrappers
  import opened Day7Directory
  import opened Day7FileSystem

  /** `partOne`: the total size of the directories smaller than 100 000. */
  function PartOne(fileSystem: FileSystem): (total: int)
    reads fileSystem
    requires fileSystem.Valid()
    ensures total >= 0
    ensures forall i :: 0 <= i < |fileSystem.directories| && Size(fileSystem.directories, i) < 100_000 ==>
      Size(fileSystem.directories, i) <= total
    ensures (forall i :: 0 <= i < |fileSystem.directories| ==> Size(fileSystem.directories, i) >= 100_000) ==> total == 0
  {
    fileSystem.SizeOfDirectories(Below(100_000))
  }

  /** `partTwo`: the size of the smallest directory whose deletion leaves 30 000 000 free. The
      root always qualifies, because the threshold is the root's size less 40 000 000, so the
      force-unwrap never fails. */
  function PartTwo(fileSystem: FileSystem): (smallest: int)
    reads fileSystem
    requires fileSystem.Valid()
    ensures exists i :: 0 <= i < |fileSystem.directories| && Size(fileSystem.directories, i) == smallest &&
                        Size(fileSystem.directories, i) >= 30_000_000 - fileSystem.RemainingSpace()
    ensures forall i :: 0 <= i < |fileSystem.directories| ==>
      (Size(fileSystem.directories, i) >= 30_000_000 - fileSystem.RemainingSpace() ==> smallest <= Size(fileSystem.directories, i))
    ensures smallest <= fileSystem.Size()
  {
    var threshold := 30_000_000 - fileSystem.RemainingSpace();
    assert AtLeast(threshold).Holds(Size(fileSystem.directories, 0));
    var smallest := fileSystem.SizeOfSmallestDirectory(AtLeast(threshold));
    assert smallest.Ok?;
    smallest.value
  }
}
