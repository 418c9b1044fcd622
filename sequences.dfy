/** Sequence operations the solutions share: reversal, and the elements of a sequence as a
    set, what Swift's `Set(_:)` keeps of an array or string. */
module Sequences {

  /** The elements of `s` in the opposite order: `reversed()`. */
  function Reversed<T>(s: seq<T>): (r: seq<T>)
    ensures |r| == |s|
    ensures forall i :: 0 <= i < |s| ==> r[i] == s[|s| - 1 - i]
  {
    if |s| == 0 then [] else [s[|s| - 1]] + Reversed(s[..|s| - 1])
  }

  /** Reversing twice gives the sequence back. */
  lemma ReversedTwice<T>(s: seq<T>)
    ensures Reversed(Reversed(s)) == s
  {
  }

  /** Reversing keeps the elements. */
  lemma InReversed<T>(s: seq<T>, x: T)
    ensures x in Reversed(s) <==> x in s
  {
    if x in s {
      var i :| 0 <= i < |s| && s[i] == x;
      assert Reversed(s)[|s| - 1 - i] == x;
    }
  }

  function ElementsOf<T>(s: seq<T>): set<T> {
    set x | x in s
  }

  /** No element occurs twice. */
  predicate AllDistinct<T(==)>(s: seq<T>) {
    forall i, j :: 0 <= i < j < |s| ==> s[i] != s[j]
  }

  /** A set built from a sequence is never larger than it, and is as large exactly when no
      element repeats. */
  lemma {:induction false} DistinctCount<T>(s: seq<T>)
    ensures |ElementsOf(s)| <= |s|
    ensures |ElementsOf(s)| == |s| <==> AllDistinct(s)
    ensures |s| > 0 ==> |ElementsOf(s)| >= 1
    decreases |s|
  {
    if |s| > 0 {
      assert s[0] in ElementsOf(s);
      var prefix := s[..|s| - 1];
      var last := s[|s| - 1];
      DistinctCount(prefix);
      assert s == prefix + [last];
      assert ElementsOf(s) == ElementsOf(prefix) + {last};
      if last in prefix {
        var k :| 0 <= k < |prefix| && prefix[k] == last;
        assert s[k] == s[|s| - 1];
        assert ElementsOf(s) == ElementsOf(prefix);
      } else {
        assert last !in ElementsOf(prefix);
        if AllDistinct(prefix) {
          forall i, j | 0 <= i < j < |s| ensures s[i] != s[j] {
            if j < |s| - 1 {
              assert s[i] == prefix[i] && s[j] == prefix[j];
            } else {
              assert s[i] == prefix[i];
            }
          }
        } else {
          var i, j :| 0 <= i < j < |prefix| && prefix[i] == prefix[j];
          assert s[i] == s[j];
        }
      }
    }
  }

  /** The sequences of `parts` one after the other. */
  function Concat<T>(parts: seq<seq<T>>): seq<T> {
    if |parts| == 0 then [] else parts[0] + Concat(parts[1..])
  }

  /** `s` cut from the front into pieces of `length`, the last one shorter when `length` does
      not divide `|s|`: what a stride from 0 by `length`, each index mapped to the slice of
      at most `length` elements starting there, gives. The stride traps on a zero step. */
  function Chunks<T>(s: seq<T>, length: nat): (chunks: seq<seq<T>>)
    requires length > 0
    ensures |s| == 0 <==> |chunks| == 0
    decreases |s|
  {
    if |s| == 0 then []
    else if |s| <= length then [s]
    else [s[..length]] + Chunks(s[length..], length)
  }

  /** The chunks put back together give `s`; every chunk but the last has exactly `length`
      elements and the last has between one and `length`. */
  lemma {:induction false} ChunksShape<T>(s: seq<T>, length: nat)
    requires length > 0
    ensures Concat(Chunks(s, length)) == s
    ensures forall i :: 0 <= i < |Chunks(s, length)| - 1 ==> |Chunks(s, length)[i]| == length
    ensures |Chunks(s, length)| > 0 ==> 0 < |Chunks(s, length)[|Chunks(s, length)| - 1]| <= length
    decreases |s|
  {
    if |s| > length {
      ChunksShape(s[length..], length);
      var chunks := Chunks(s, length);
      assert chunks[1..] == Chunks(s[length..], length);
      assert s[..length] + s[length..] == s;
    }
  }

  /** A sequence twice as long as `length` falls into two chunks of `length`. */
  lemma ChunksInHalves<T>(s: seq<T>, length: nat)
    requires length > 0 && |s| == 2 * length
    ensures Chunks(s, length) == [s[..length], s[length..]]
  {
    assert |s[length..]| == length;
  }
}
