/** Day 6, Tuning Trouble: the start-of-packet and start-of-message markers of a datastream,
    the first run of n characters that are all different. */
module Day6 {
  import opened Sequences

  /** The `n` characters from offset `i` are all inside `datastream` and pairwise different. */
  predicate IsMarkerAt(datastream: string, n: nat, i: nat) {
    i + n <= |datastream| && AllDistinct(datastream[i..i + n])
  }

  /** `r` is what the search reports: the offset just past the first marker, or 0 when no
      offset of the datastream starts a marker. */
  predicate IsFirstMarkerEnd(datastream: string, n: nat, r: nat) {
    if r == 0 then
      n == 0 || forall i :: 0 <= i < |datastream| ==> !IsMarkerAt(datastream, n, i)
    else
      n <= r <= |datastream| && IsMarkerAt(datastream, n, r - n) &&
      forall i :: 0 <= i < r - n ==> !IsMarkerAt(datastream, n, i)
  }

  /** The report is determined by the datastream: no two different results both qualify. */
  lemma FirstMarkerEndUnique(datastream: string, n: nat, r: nat, r': nat)
    requires IsFirstMarkerEnd(datastream, n, r) && IsFirstMarkerEnd(datastream, n, r')
    ensures r == r'
  {
    if n == 0 {
      if r != 0 {
        assert IsMarkerAt(datastream, n, 0);
      }
      if r' != 0 {
        assert IsMarkerAt(datastream, n, 0);
      }
    }
  }

  /** A window of at most `n` characters holds `n` different characters exactly when it is
      `n` long and has no repeat. */
  lemma WindowCount(window: string, n: nat)
    requires |window| <= n
    ensures |ElementsOf(window)| == n <==> |window| == n && AllDistinct(window)
  {
    DistinctCount(window);
  }

  /** `findIndexAfterNUniqueConsecutiveCharacters`: for each offset, the set of the next `n`
      characters (fewer near the end); the first set of size `n` gives the answer. */
  method FindIndexAfterNUniqueConsecutiveCharacters(n: nat, datastream: string) returns (r: nat)
    ensures IsFirstMarkerEnd(datastream, n, r)
  {
    r := 0;
    for index := 0 to |datastream|
      invariant forall i :: 0 <= i < index ==> !IsMarkerAt(datastream, n, i)
    {
      var end := if index + n <= |datastream| then index + n else |datastream|;
      var startMarker := ElementsOf(datastream[index..end]);
      WindowCount(datastream[index..end], n);
      if |startMarker| == n {
        r := index + n;
        break;
      }
    }
  }

  /** `findPacketStartMarker`: markers of four characters. */
  method FindPacketStartMarker(datastream: string) returns (r: nat)
    ensures IsFirstMarkerEnd(datastream, 4, r)
  {
    r := FindIndexAfterNUniqueConsecutiveCharacters(4, datastream);
  }

  /** `findMessageStartMarker`: markers of fourteen characters. */
  method FindMessageStartMarker(datastream: string) returns (r: nat)
    ensures IsFirstMarkerEnd(datastream, 14, r)
  {
    r := FindIndexAfterNUniqueConsecutiveCharacters(14, datastream);
  }

  method PartOne(datastream: string) returns (r: nat)
    ensures IsFirstMarkerEnd(datastream, 4, r)
  {
    r := FindPacketStartMarker(datastream);
  }

  method PartTwo(datastream: string) returns (r: nat)
    ensures IsFirstMarkerEnd(datastream, 14, r)
  {
    r := FindMessageStartMarker(datastream);
  }
}
