/** The few Foundation string operations the solutions rely on, over ASCII text:
    splitting into pieces, character classes and decimal numbers. */
module Text {
  import opened Wrappers

  predicate StartsWith(s: string, prefix: string) {
    |prefix| <= |s| && s[..|prefix|] == prefix
  }

  /** The pieces of `s` between the non-overlapping occurrences of `sep`, found from the
      left, empty pieces included: `components(separatedBy:)`. */
  function Split(s: string, sep: string): (pieces: seq<string>)
    requires |sep| > 0
    ensures |pieces| >= 1
    decreases |s|
  {
    if |s| == 0 then [""]
    else if StartsWith(s, sep) then [""] + Split(s[|sep|..], sep)
    else
      var rest := Split(s[1..], sep);
      [[s[0]] + rest[0]] + rest[1..]
  }

  /** Pieces glued back together with `sep` between consecutive pieces. */
  function Join(pieces: seq<string>, sep: string): string {
    if |pieces| == 0 then ""
    else if |pieces| == 1 then pieces[0]
    else pieces[0] + sep + Join(pieces[1..], sep)
  }

  /** Splitting loses nothing: joining the pieces with the separator gives `s` back. */
  lemma {:induction false} SplitJoin(s: string, sep: string)
    requires |sep| > 0
    ensures Join(Split(s, sep), sep) == s
    decreases |s|
  {
    if |s| == 0 {
    } else if StartsWith(s, sep) {
      SplitJoin(s[|sep|..], sep);
      var rest := Split(s[|sep|..], sep);
      assert Split(s, sep) == [""] + rest;
      assert ([""] + rest)[1..] == rest;
      assert s == sep + s[|sep|..];
    } else {
      SplitJoin(s[1..], sep);
      var rest := Split(s[1..], sep);
      assert s == [s[0]] + s[1..];
      if |rest| == 1 {
      } else {
        assert Join(rest, sep) == rest[0] + sep + Join(rest[1..], sep);
        assert ([[s[0]] + rest[0]] + rest[1..])[1..] == rest[1..];
      }
    }
  }

  /** Splitting on a single character leaves that character in no piece. */
  lemma {:induction false} SplitOnCharacter(s: string, c: char)
    ensures forall p :: p in Split(s, [c]) ==> c !in p
    decreases |s|
  {
    if |s| == 0 {
    } else if StartsWith(s, [c]) {
      SplitOnCharacter(s[1..], c);
    } else {
      SplitOnCharacter(s[1..], c);
      var rest := Split(s[1..], [c]);
      assert s[0] != c by { assert s[..1] == [s[0]]; }
      forall p | p in Split(s, [c]) ensures c !in p {
        if p == [s[0]] + rest[0] {
          assert rest[0] in rest;
        } else {
          assert p in rest[1..];
        }
      }
    }
  }

  /** Text without the separator character is a single piece. */
  lemma {:induction false} SplitWithoutSeparator(s: string, c: char)
    requires c !in s
    ensures Split(s, [c]) == [s]
    decreases |s|
  {
    if |s| > 0 {
      assert s[0] in s;
      assert !StartsWith(s, [c]) by { assert s[..1] == [s[0]]; }
      assert forall k :: 0 <= k < |s[1..]| ==> s[1..][k] in s;
      SplitWithoutSeparator(s[1..], c);
      assert [s[0]] + s[1..] == s;
    }
  }

  /** A piece free of the separator, the separator, then more text: the piece comes first and
      the pieces of the rest follow. */
  lemma {:induction false} SplitAfterPiece(piece: string, c: char, rest: string)
    requires c !in piece
    ensures Split(piece + [c] + rest, [c]) == [piece] + Split(rest, [c])
    decreases |piece|
  {
    var s := piece + [c] + rest;
    if |piece| == 0 {
      assert s == [c] + rest;
      assert StartsWith(s, [c]);
      assert s[1..] == rest;
    } else {
      assert piece[0] in piece;
      assert !StartsWith(s, [c]) by { assert s[..1] == [piece[0]]; }
      assert forall k :: 0 <= k < |piece[1..]| ==> piece[1..][k] in piece;
      SplitAfterPiece(piece[1..], c, rest);
      assert s[1..] == piece[1..] + [c] + rest;
      assert [piece[0]] + piece[1..] == piece;
    }
  }

  /** Joining pieces free of a separator character and splitting again gives the pieces. */
  lemma {:induction false} SplitOfJoin(pieces: seq<string>, c: char)
    requires |pieces| >= 1
    requires forall i :: 0 <= i < |pieces| ==> c !in pieces[i]
    ensures Split(Join(pieces, [c]), [c]) == pieces
    decreases |pieces|
  {
    if |pieces| == 1 {
      SplitWithoutSeparator(pieces[0], c);
    } else {
      SplitOfJoin(pieces[1..], c);
      SplitAfterPiece(pieces[0], c, Join(pieces[1..], [c]));
      assert [pieces[0]] + pieces[1..] == pieces;
    }
  }

  /** The non-empty pieces, in order: what `split(separator:)` keeps. */
  function NonEmpty(pieces: seq<string>): (kept: seq<string>)
    ensures forall p :: p in kept <==> p in pieces && p != ""
    ensures |kept| <= |pieces|
  {
    if |pieces| == 0 then []
    else if pieces[0] == "" then NonEmpty(pieces[1..])
    else [pieces[0]] + NonEmpty(pieces[1..])
  }

  /** Pieces that are all non-empty are all kept. */
  lemma {:induction false} NonEmptyKeepsAll(pieces: seq<string>)
    requires forall i :: 0 <= i < |pieces| ==> pieces[i] != ""
    ensures NonEmpty(pieces) == pieces
  {
    if |pieces| > 0 {
      NonEmptyKeepsAll(pieces[1..]);
      assert [pieces[0]] + pieces[1..] == pieces;
    }
  }

  /** `split(separator:)` of the standard library: the non-empty pieces between separators. */
  function SplitOmittingEmpty(s: string, sep: string): seq<string>
    requires |sep| > 0
  {
    NonEmpty(Split(s, sep))
  }

  predicate IsDigit(c: char) {
    '0' <= c <= '9'
  }

  predicate IsLetter(c: char) {
    'a' <= c <= 'z' || 'A' <= c <= 'Z'
  }

  predicate AllDigits(s: string) {
    forall i :: 0 <= i < |s| ==> IsDigit(s[i])
  }

  function DigitValue(c: char): (d: nat)
    requires IsDigit(c)
    ensures d <= 9
  {
    c as int - '0' as int
  }

  function DigitChar(d: nat): (c: char)
    requires d <= 9
    ensures IsDigit(c) && DigitValue(c) == d
  {
    ('0' as int + d) as char
  }

  /** A digit is the character of its own value. */
  lemma DigitCharOfValue(c: char)
    requires IsDigit(c)
    ensures DigitChar(DigitValue(c)) == c
  {
  }

  /** The value of a string of decimal digits, most significant first (leading zeros allowed). */
  function ParseNat(s: string): nat
    requires AllDigits(s)
  {
    if |s| == 0 then 0 else ParseNat(s[..|s| - 1]) * 10 + DigitValue(s[|s| - 1])
  }

  /** The decimal notation of `n`, without leading zeros. */
  function Decimal(n: nat): (s: string)
    ensures |s| > 0 && AllDigits(s)
  {
    if n < 10 then [DigitChar(n)] else Decimal(n / 10) + [DigitChar(n % 10)]
  }

  /** Reading back a number's decimal notation gives the number. */
  lemma {:induction false} ParseDecimal(n: nat)
    ensures ParseNat(Decimal(n)) == n
  {
    if n >= 10 {
      ParseDecimal(n / 10);
      var s := Decimal(n);
      assert s[..|s| - 1] == Decimal(n / 10);
    }
  }

  /** The number of leading decimal digits of `s`. */
  function DigitPrefixLength(s: string): (k: nat)
    ensures k <= |s| && AllDigits(s[..k])
    ensures k < |s| ==> !IsDigit(s[k])
  {
    if |s| == 0 || !IsDigit(s[0]) then 0
    else
      var k := 1 + DigitPrefixLength(s[1..]);
      assert s[..k] == [s[0]] + s[1..][..k - 1];
      k
  }

  /** The values of the maximal runs of decimal digits in `s`, from the left: what the
      matches of the pattern `\d+` read as integers give. */
  function DigitRuns(s: string): seq<nat>
    decreases |s|
  {
    if |s| == 0 then []
    else if IsDigit(s[0]) then
      var k := DigitPrefixLength(s);
      [ParseNat(s[..k])] + DigitRuns(s[k..])
    else DigitRuns(s[1..])
  }

  /** Text with no digit contributes no run. */
  lemma {:induction false} DigitRunsOfNoDigits(s: string)
    requires forall i :: 0 <= i < |s| ==> !IsDigit(s[i])
    ensures DigitRuns(s) == []
    decreases |s|
  {
    if |s| > 0 {
      DigitRunsOfNoDigits(s[1..]);
    }
  }

  /** Text without digits, then a number, then text starting with a non-digit: the number is
      the first run and the rest are the runs of the remainder. */
  lemma {:induction false} DigitRunsAppend(prefix: string, n: nat, rest: string)
    requires forall i :: 0 <= i < |prefix| ==> !IsDigit(prefix[i])
    requires |rest| == 0 || !IsDigit(rest[0])
    ensures DigitRuns(prefix + Decimal(n) + rest) == [n] + DigitRuns(rest)
    decreases |prefix|
  {
    var s := prefix + Decimal(n) + rest;
    if |prefix| > 0 {
      assert s[1..] == prefix[1..] + Decimal(n) + rest;
      DigitRunsAppend(prefix[1..], n, rest);
    } else {
      var d := Decimal(n);
      assert s == d + rest;
      assert DigitPrefixLength(s) == |d| by {
        DigitPrefixOf(d, rest);
      }
      assert s[..|d|] == d;
      assert s[|d|..] == rest;
      ParseDecimal(n);
    }
  }

  lemma {:induction false} DigitPrefixOf(d: string, rest: string)
    requires AllDigits(d)
    requires |rest| == 0 || !IsDigit(rest[0])
    ensures DigitPrefixLength(d + rest) == |d|
    decreases |d|
  {
    if |d| > 0 {
      assert (d + rest)[1..] == d[1..] + rest;
      DigitPrefixOf(d[1..], rest);
    }
  }

  /** `Int(_:)` of the standard library on ASCII text: an optional sign and at least one
      decimal digit; anything else is not a number. */
  function ParseInt(s: string): (r: Option<int>)
    ensures r.Some? ==> |s| > 0
    ensures r.Some? <==>
      (|s| > 0 && AllDigits(s)) || (|s| > 1 && (s[0] == '+' || s[0] == '-') && AllDigits(s[1..]))
    ensures r.Some? && IsDigit(s[0]) ==> AllDigits(s) && r.value == ParseNat(s)
    ensures r.Some? && s[0] == '+' ==> AllDigits(s[1..]) && r.value == ParseNat(s[1..])
    ensures r.Some? && s[0] == '-' ==> AllDigits(s[1..]) && r.value == -(ParseNat(s[1..]) as int)
  {
    if |s| > 1 && (s[0] == '+' || s[0] == '-') && AllDigits(s[1..]) then
      Some(if s[0] == '-' then -(ParseNat(s[1..]) as int) else ParseNat(s[1..]))
    else if |s| > 0 && AllDigits(s) then Some(ParseNat(s))
    else None
  }

  /** Every number's decimal notation, with or without a minus sign, parses back to it. */
  lemma ParseIntDecimal(n: nat)
    ensures ParseInt(Decimal(n)) == Some(n)
    ensures n > 0 ==> ParseInt("-" + Decimal(n)) == Some(-(n as int))
  {
    ParseDecimal(n);
    var d := Decimal(n);
    assert ("-" + d)[1..] == d;
  }

  /** String interpolation of an integer: a minus sign for negative values, then the digits. */
  function IntText(i: int): (s: string)
    ensures |s| > 0
  {
    if i < 0 then "-" + Decimal(-i) else Decimal(i)
  }

  /** `Int(_:)` reads back every integer's interpolated text. */
  lemma IntTextParses(i: int)
    ensures ParseInt(IntText(i)) == Some(i)
  {
    if i < 0 {
      ParseIntDecimal(-i);
    } else {
      ParseIntDecimal(i);
    }
  }
}
