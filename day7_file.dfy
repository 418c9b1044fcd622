/** Day 7, a file listed in the shell transcript (day-7/File.swift). */
module Day7File {
  import opened Wrappers
  import opened Text

  /** A file: its name, its size and its directory, given as the directory's index in the
      file system's registry of directories. */
  datatype File = File(name: string, size: int, parent: nat)

  predicate IsFileNameChar(c: char) {
    IsLetter(c) || c == '.'
  }

  /** A name made of the characters `[a-zA-Z.]`, at least one. */
  predicate IsFileName(s: string) {
    |s| > 0 && forall i :: 0 <= i < |s| ==> IsFileNameChar(s[i])
  }

  /** `line` is `<digits> <name>` with the size taking its first `k` characters: a whole
      match of the pattern `(\d+) ([a-zA-Z.]+)`. */
  predicate FileLineAt(line: string, k: nat) {
    0 < k < |line| && AllDigits(line[..k]) && line[k] == ' ' && IsFileName(line[k + 1..])
  }

  /** Whether `line` wholly matches the file pattern; the size field can only end where the
      leading digits end. */
  predicate MatchesFilePattern(line: string) {
    FileLineAt(line, DigitPrefixLength(line))
  }

  /** The executable test agrees with the pattern read as "some split point exists". */
  lemma MatchesFilePatternExactly(line: string)
    ensures MatchesFilePattern(line) <==> exists k :: FileLineAt(line, k)
  {
    if exists k :: FileLineAt(line, k) {
      var k: nat :| FileLineAt(line, k);
      var n := DigitPrefixLength(line);
      if n < k {
        assert IsDigit(line[..k][n]);
      } else if k < n {
        assert IsDigit(line[..n][k]);
      }
    }
  }

  /** `parseInformation`: the name and the size of a file line; anything that does not wholly
      match the pattern is fatal. */
  function ParseFileInformation(line: string): (r: Result<(string, nat)>)
    ensures r.Ok? <==> MatchesFilePattern(line)
    ensures r.Ok? ==>
      var k := |line| - |r.value.0| - 1;
      0 < k && FileLineAt(line, k) && r.value.0 == line[k + 1..] && r.value.1 == ParseNat(line[..k])
  {
    var k := DigitPrefixLength(line);
    if FileLineAt(line, k) then Ok((line[k + 1..], ParseNat(line[..k])))
    else Fatal("Invalid directory information format!")
  }

  /** Writing a size in decimal, a space and a name, and parsing the line, gives back the
      name and the size. */
  lemma ParseFileInformationRoundTrip(size: nat, name: string)
    requires IsFileName(name)
    ensures ParseFileInformation(Decimal(size) + " " + name) == Ok((name, size))
  {
    var d := Decimal(size);
    var line := d + " " + name;
    assert line == d + (" " + name);
    DigitPrefixOf(d, " " + name);
    assert line[..|d|] == d;
    assert line[|d| + 1..] == name;
    ParseDecimal(size);
  }
}
