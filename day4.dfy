/** Day 4, Camp Cleanup: pairs of elves are each assigned a closed range of section numbers;
    count the pairs where one range contains the other, and the pairs whose ranges overlap. */
module Day4 {
  import opened Wrappers
  import opened Text
  import opened Sums

  /** The bounds of a `ClosedRange<Int>`. */
  datatype Bounds = Bounds(lower: int, upper: int)

  /** A `ClosedRange<Int>`: the range operator `...` only builds one whose lower bound does
      not exceed its upper bound. */
  type ClosedRange = r: Bounds | r.lower <= r.upper witness Bounds(0, 0)

  /** `lower ... upper`, which traps on inverted bounds. */
  function MakeRange(lower: int, upper: int): (r: Result<ClosedRange>)
    ensures r.Ok? <==> lower <= upper
    ensures r.Ok? ==> r.value.lower == lower && r.value.upper == upper
    ensures r.Fatal? ==> r.message == InvertedRange
  {
    if lower <= upper then Ok(Bounds(lower, upper)) else Fatal(InvertedRange)
  }

  predicate Contains(r: ClosedRange, x: int) {
    r.lower <= x <= r.upper
  }

  /** `ClosedRange.overlaps`: neither range ends before the other starts. */
  predicate RangesOverlap(a: ClosedRange, b: ClosedRange) {
    !(b.upper < a.lower || a.upper < b.lower)
  }

  /** Two ranges overlap exactly when some section lies in both. */
  lemma RangesOverlapShare(a: ClosedRange, b: ClosedRange)
    ensures RangesOverlap(a, b) ==> exists x :: Contains(a, x) && Contains(b, x)
    ensures (exists x :: Contains(a, x) && Contains(b, x)) ==> RangesOverlap(a, b)
  {
    if RangesOverlap(a, b) {
      var x := if a.lower < b.lower then b.lower else a.lower;
      assert Contains(a, x) && Contains(b, x);
    }
  }

  /** The sections one elf is assigned. Equality is equality of the ranges, which is the
      datatype's own equality. */
  datatype SectionAssignment = SectionAssignment(sections: ClosedRange) {

    function FirstSection(): int {
      sections.lower
    }

    function LastSection(): int {
      sections.upper
    }

    /** "first-last", as string interpolation writes the bounds. */
    function Description(): string {
      IntText(sections.lower) + "-" + IntText(sections.upper)
    }

    predicate Overlaps(other: SectionAssignment) {
      RangesOverlap(sections, other.sections)
    }
  }

  /** `SectionAssignment(from:to:)`, which traps on inverted bounds. */
  function NewSectionAssignment(first: int, last: int): (r: Result<SectionAssignment>)
    ensures r.Ok? <==> first <= last
    ensures r.Ok? ==> r.value.FirstSection() == first && r.value.LastSection() == last
    ensures r.Fatal? ==> r.message == InvertedRange
  {
    var sections :- MakeRange(first, last);
    Ok(SectionAssignment(sections))
  }

  /** Every section of `inner` is a section of `outer`. */
  ghost predicate Covers(outer: SectionAssignment, inner: SectionAssignment) {
    forall x :: Contains(inner.sections, x) ==> Contains(outer.sections, x)
  }

  /** The assignments of one pair of elves. */
  datatype AssignmentPair = AssignmentPair(first: SectionAssignment, second: SectionAssignment) {

    /** "first,second". */
    function Description(): string {
      first.Description() + "," + second.Description()
    }

    /** The smallest range spanning both assignments is one of the two. */
    predicate IsFullyContained() {
      var minFirstSection := if first.FirstSection() <= second.FirstSection() then first.FirstSection() else second.FirstSection();
      var maxLastSection := if first.LastSection() >= second.LastSection() then first.LastSection() else second.LastSection();
      var minMaxSection := SectionAssignment(Bounds(minFirstSection, maxLastSection));
      minMaxSection == first || minMaxSection == second
    }

    predicate Overlaps() {
      first.Overlaps(second)
    }
  }

  /** A pair is fully contained exactly when one elf's sections all belong to the other's. */
  lemma FullyContainedCovers(pair: AssignmentPair)
    ensures pair.IsFullyContained() ==> Covers(pair.first, pair.second) || Covers(pair.second, pair.first)
    ensures Covers(pair.first, pair.second) || Covers(pair.second, pair.first) ==> pair.IsFullyContained()
  {
    var a, b := pair.first.sections, pair.second.sections;
    if Covers(pair.first, pair.second) {
      assert Contains(b, b.lower) && Contains(b, b.upper);
    }
    if Covers(pair.second, pair.first) {
      assert Contains(a, a.lower) && Contains(a, a.upper);
    }
  }

  /** The pair's assignments overlap exactly when some section is assigned to both elves. */
  lemma OverlapsShare(pair: AssignmentPair)
    ensures pair.Overlaps() ==> exists x :: Contains(pair.first.sections, x) && Contains(pair.second.sections, x)
    ensures (exists x :: Contains(pair.first.sections, x) && Contains(pair.second.sections, x)) ==> pair.Overlaps()
  {
    RangesOverlapShare(pair.first.sections, pair.second.sections);
  }

  /** Neither question depends on which elf of the pair is listed first. */
  lemma PairSymmetric(pair: AssignmentPair)
    ensures AssignmentPair(pair.second, pair.first).IsFullyContained() == pair.IsFullyContained()
    ensures AssignmentPair(pair.second, pair.first).Overlaps() == pair.Overlaps()
  {
  }

  /** A pair where one assignment contains the other also overlaps. */
  lemma ContainedOverlaps(pair: AssignmentPair)
    ensures pair.IsFullyContained() ==> pair.Overlaps()
  {
  }

  /** One "first-last" assignment: both force-unwraps (`first!`, `last!`, `Int(_:)!`) trap
      when there is no such piece or it is not a number, and the range traps when inverted. */
  function ParseSectionAssignment(raw: string): (r: Result<SectionAssignment>)
    ensures r.Fatal? ==> r.message == NilUnwrap || r.message == InvertedRange
    ensures var pieces := SplitOmittingEmpty(raw, "-");
      r.Fatal? && r.message == NilUnwrap <==>
        |pieces| == 0 || ParseInt(pieces[0]).None? || ParseInt(pieces[|pieces| - 1]).None?
    ensures var pieces := SplitOmittingEmpty(raw, "-");
      r.Ok? <==>
        && |pieces| > 0 && ParseInt(pieces[0]).Some? && ParseInt(pieces[|pieces| - 1]).Some?
        && ParseInt(pieces[0]).value <= ParseInt(pieces[|pieces| - 1]).value
    ensures var pieces := SplitOmittingEmpty(raw, "-");
      r.Ok? ==>
        && r.value.FirstSection() == ParseInt(pieces[0]).value
        && r.value.LastSection() == ParseInt(pieces[|pieces| - 1]).value
  {
    var assignedSections := SplitOmittingEmpty(raw, "-");
    if |assignedSections| == 0 then Fatal(NilUnwrap)
    else
      match (ParseInt(assignedSections[0]), ParseInt(assignedSections[|assignedSections| - 1]))
      case (Some(firstSection), Some(lastSection)) => NewSectionAssignment(firstSection, lastSection)
      case _ => Fatal(NilUnwrap)
  }

  /** The message of the trap on a line that does not hold exactly two assignments. */
  function NotAPair(line: string): string {
    "Assignments must be in pairs! Got: " + line
  }

  /** One line of the input: two assignments separated by a comma. */
  function ParseAssignmentPair(line: string): (r: Result<AssignmentPair>)
    ensures |SplitOmittingEmpty(line, ",")| != 2 ==> r == Fatal(NotAPair(line))
    ensures var sides := SplitOmittingEmpty(line, ",");
      |sides| == 2 ==>
        && (r.Ok? <==> ParseSectionAssignment(sides[0]).Ok? && ParseSectionAssignment(sides[1]).Ok?)
        && (r.Ok? ==> r.value == AssignmentPair(ParseSectionAssignment(sides[0]).value, ParseSectionAssignment(sides[1]).value))
        && (r.Fatal? ==> r.message == (if ParseSectionAssignment(sides[0]).Fatal? then ParseSectionAssignment(sides[0]).message
                                       else ParseSectionAssignment(sides[1]).message))
  {
    var rawSectionAssignments := SplitOmittingEmpty(line, ",");
    if |rawSectionAssignments| != 2 then Fatal(NotAPair(line))
    else
      var first :- ParseSectionAssignment(rawSectionAssignments[0]);
      var second :- ParseSectionAssignment(rawSectionAssignments[1]);
      Ok(AssignmentPair(first, second))
  }

  /** The digits of a natural number hold neither separator. */
  lemma DecimalHasNoSeparator(n: nat)
    ensures '-' !in Decimal(n) && ',' !in Decimal(n) && '\n' !in Decimal(n)
  {
    var d := Decimal(n);
    assert forall k :: 0 <= k < |d| ==> IsDigit(d[k]);
  }

  /** An assignment with non-negative bounds reads back from its description. */
  lemma ParseSectionAssignmentDescription(a: SectionAssignment)
    requires a.FirstSection() >= 0
    ensures ParseSectionAssignment(a.Description()) == Ok(a)
  {
    var lower, upper := Decimal(a.FirstSection()), Decimal(a.LastSection());
    DecimalHasNoSeparator(a.FirstSection());
    DecimalHasNoSeparator(a.LastSection());
    assert Join([lower, upper], "-") == a.Description();
    SplitOfJoin([lower, upper], '-');
    NonEmptyKeepsAll([lower, upper]);
    ParseIntDecimal(a.FirstSection());
    ParseIntDecimal(a.LastSection());
  }

  /** A pair with non-negative bounds reads back from its description. */
  lemma ParseAssignmentPairDescription(pair: AssignmentPair)
    requires pair.first.FirstSection() >= 0 && pair.second.FirstSection() >= 0
    ensures ParseAssignmentPair(pair.Description()) == Ok(pair)
  {
    var first, second := pair.first.Description(), pair.second.Description();
    NoCommaInDescription(pair.first);
    NoCommaInDescription(pair.second);
    assert Join([first, second], ",") == pair.Description();
    SplitOfJoin([first, second], ',');
    NonEmptyKeepsAll([first, second]);
    ParseSectionAssignmentDescription(pair.first);
    ParseSectionAssignmentDescription(pair.second);
  }

  lemma NoCommaInDescription(a: SectionAssignment)
    requires a.FirstSection() >= 0
    ensures ',' !in a.Description() && '\n' !in a.Description() && a.Description() != ""
  {
    DecimalHasNoSeparator(a.FirstSection());
    DecimalHasNoSeparator(a.LastSection());
  }

  /** The pairs of the lines, in order; the first line that fails stops the parse. */
  function ParseAssignmentPairLines(lines: seq<string>): (r: Result<seq<AssignmentPair>>)
    ensures r.Ok? ==> |r.value| == |lines|
  {
    if |lines| == 0 then Ok([])
    else
      var pair :- ParseAssignmentPair(lines[0]);
      var rest :- ParseAssignmentPairLines(lines[1..]);
      Ok([pair] + rest)
  }

  lemma ParseAssignmentPairLinesStep(lines: seq<string>, i: nat)
    requires i < |lines|
    ensures ParseAssignmentPair(lines[i]).Fatal? ==>
      ParseAssignmentPairLines(lines[i..]) == Fatal(ParseAssignmentPair(lines[i]).message)
    ensures ParseAssignmentPair(lines[i]).Ok? ==>
      ParseAssignmentPairLines(lines[i..]) == Prepend([ParseAssignmentPair(lines[i]).value], ParseAssignmentPairLines(lines[i + 1..]))
  {
    assert lines[i..][1..] == lines[i + 1..];
  }

  /** Lines that each parse as a pair parse, all together, as those pairs in order. */
  lemma {:induction false} ParseAssignmentPairLinesEach(lines: seq<string>, pairs: seq<AssignmentPair>)
    requires |lines| == |pairs|
    requires forall i :: 0 <= i < |lines| ==> ParseAssignmentPair(lines[i]) == Ok(pairs[i])
    ensures ParseAssignmentPairLines(lines) == Ok(pairs)
  {
    if |lines| > 0 {
      assert [pairs[0]] + pairs[1..] == pairs;
      assert lines[0..] == lines && lines[0 + 1..] == lines[1..];
      assert forall i :: 0 <= i < |lines[1..]| ==> lines[1..][i] == lines[i + 1];
      ParseAssignmentPairLinesEach(lines[1..], pairs[1..]);
      ParseAssignmentPairLinesStep(lines, 0);
    }
  }

  /** The non-empty lines of the pairs' descriptions read back as the pairs. */
  lemma ParseAssignmentPairLinesDescriptions(pairs: seq<AssignmentPair>)
    requires forall i :: 0 <= i < |pairs| ==> pairs[i].first.FirstSection() >= 0 && pairs[i].second.FirstSection() >= 0
    ensures ParseAssignmentPairLines(seq(|pairs|, i requires 0 <= i < |pairs| => pairs[i].Description())) == Ok(pairs)
  {
    var lines := seq(|pairs|, i requires 0 <= i < |pairs| => pairs[i].Description());
    forall i | 0 <= i < |lines|
      ensures ParseAssignmentPair(lines[i]) == Ok(pairs[i])
    {
      ParseAssignmentPairDescription(pairs[i]);
    }
    ParseAssignmentPairLinesEach(lines, pairs);
  }

  /** An input written one pair description per line parses back to the pairs. */
  lemma ParseDescriptions(pairs: seq<AssignmentPair>)
    requires |pairs| > 0
    requires forall i :: 0 <= i < |pairs| ==> pairs[i].first.FirstSection() >= 0 && pairs[i].second.FirstSection() >= 0
    ensures ParseAssignmentPairLines(SplitOmittingEmpty(Join(seq(|pairs|, i requires 0 <= i < |pairs| => pairs[i].Description()), "\n"), "\n")) == Ok(pairs)
  {
    var lines := seq(|pairs|, i requires 0 <= i < |pairs| => pairs[i].Description());
    forall i | 0 <= i < |lines|
      ensures '\n' !in lines[i] && lines[i] != ""
    {
      NoCommaInDescription(pairs[i].first);
      NoCommaInDescription(pairs[i].second);
    }
    SplitOfJoin(lines, '\n');
    NonEmptyKeepsAll(lines);
    ParseAssignmentPairLinesDescriptions(pairs);
  }

  /** The body of `parseAssignmentPairs`'s loop: one line, split at its comma, each side
      read as an assignment. */
  method ReadAssignmentPair(assignmentPair: string) returns (r: Result<AssignmentPair>)
    ensures r == ParseAssignmentPair(assignmentPair)
  {
    var rawSectionAssignments := SplitOmittingEmpty(assignmentPair, ",");
    if |rawSectionAssignments| != 2 {
      return Fatal(NotAPair(assignmentPair));
    }
    var sectionAssignments: seq<SectionAssignment> := [];
    for j := 0 to 2
      invariant |sectionAssignments| == j
      invariant forall k :: 0 <= k < j ==>
        ParseSectionAssignment(rawSectionAssignments[k]) == Ok(sectionAssignments[k])
    {
      var sectionAssignment := ParseSectionAssignment(rawSectionAssignments[j]);
      if sectionAssignment.Fatal? {
        return Fatal(sectionAssignment.message);
      }
      sectionAssignments := sectionAssignments + [sectionAssignment.value];
    }
    r := Ok(AssignmentPair(sectionAssignments[0], sectionAssignments[1]));
  }

  /** `parseAssignmentPairs`: one pair per non-empty line, each line's assignments read in turn. */
  method ParseAssignmentPairs(inputData: string) returns (r: Result<seq<AssignmentPair>>)
    ensures r == ParseAssignmentPairLines(SplitOmittingEmpty(inputData, "\n"))
  {
    var lines := SplitOmittingEmpty(inputData, "\n");
    var assignmentPairs: seq<AssignmentPair> := [];
    assert lines[0..] == lines;
    PrependNothing(ParseAssignmentPairLines(lines));
    var i := 0;
    while i < |lines|
      invariant 0 <= i <= |lines|
      invariant ParseAssignmentPairLines(lines) == Prepend(assignmentPairs, ParseAssignmentPairLines(lines[i..]))
    {
      var pair := ReadAssignmentPair(lines[i]);
      ParseAssignmentPairLinesStep(lines, i);
      if pair.Fatal? {
        return Fatal(pair.message);
      }
      PrependAppend(assignmentPairs, [pair.value], ParseAssignmentPairLines(lines[i + 1..]));
      assignmentPairs := assignmentPairs + [pair.value];
      i := i + 1;
    }
    assert lines[i..] == [];
    assert assignmentPairs + [] == assignmentPairs;
    r := Ok(assignmentPairs);
  }

  /** `countFullyContainedAssignmentPairs`. */
  function CountFullyContainedAssignmentPairs(pairs: seq<AssignmentPair>): nat {
    CountWhere(pairs, (pair: AssignmentPair) => pair.IsFullyContained())
  }

  /** `countOverlappingAssignmentPairs`. */
  function CountOverlappingAssignmentPairs(pairs: seq<AssignmentPair>): nat {
    CountWhere(pairs, (pair: AssignmentPair) => pair.Overlaps())
  }

  /** The positions of the pairs in which one elf's sections cover the other's. */
  ghost function CoveringPairs(pairs: seq<AssignmentPair>): set<nat> {
    set i: nat | i < |pairs| && (Covers(pairs[i].first, pairs[i].second) || Covers(pairs[i].second, pairs[i].first))
  }

  /** The positions of the pairs whose elves share some section. */
  ghost function SharingPairs(pairs: seq<AssignmentPair>): set<nat> {
    set i: nat | i < |pairs| && exists x :: Contains(pairs[i].first.sections, x) && Contains(pairs[i].second.sections, x)
  }

  /** Part one counts the pairs in which one elf's sections cover the other's. */
  lemma CountFullyContainedMeans(pairs: seq<AssignmentPair>)
    ensures CountFullyContainedAssignmentPairs(pairs) == |CoveringPairs(pairs)|
  {
    var p := (pair: AssignmentPair) => pair.IsFullyContained();
    CountWhereIndices(pairs, p);
    forall i: nat | i < |pairs|
      ensures p(pairs[i]) <==> Covers(pairs[i].first, pairs[i].second) || Covers(pairs[i].second, pairs[i].first)
    {
      FullyContainedCovers(pairs[i]);
    }
    assert IndicesWhere(pairs, p) == CoveringPairs(pairs);
  }

  /** Part two counts the pairs whose elves share some section. */
  lemma CountOverlappingMeans(pairs: seq<AssignmentPair>)
    ensures CountOverlappingAssignmentPairs(pairs) == |SharingPairs(pairs)|
  {
    var p := (pair: AssignmentPair) => pair.Overlaps();
    CountWhereIndices(pairs, p);
    forall i: nat | i < |pairs|
      ensures p(pairs[i]) <==> exists x :: Contains(pairs[i].first.sections, x) && Contains(pairs[i].second.sections, x)
    {
      OverlapsShare(pairs[i]);
    }
    assert IndicesWhere(pairs, p) == SharingPairs(pairs);
  }

  /** Every fully contained pair overlaps, so part one never exceeds part two. */
  lemma CountsOrdered(pairs: seq<AssignmentPair>)
    ensures CountFullyContainedAssignmentPairs(pairs) <= CountOverlappingAssignmentPairs(pairs) <= |pairs|
  {
    CountWhereMonotonic(pairs, (pair: AssignmentPair) => pair.IsFullyContained(), (pair: AssignmentPair) => pair.Overlaps());
  }

  /** Part one: the pairs in which one elf's sections cover the other's; never more than
      part two counts. */
  function PartOne(pairs: seq<AssignmentPair>): (answer: nat)
    ensures answer == |CoveringPairs(pairs)|
    ensures answer <= CountOverlappingAssignmentPairs(pairs)
  {
    CountsOrdered(pairs);
    CountFullyContainedMeans(pairs);
    CountFullyContainedAssignmentPairs(pairs)
  }

  /** Part two: the pairs whose elves share some section. */
  function PartTwo(pairs: seq<AssignmentPair>): (answer: nat)
    ensures answer == |SharingPairs(pairs)|
    ensures answer <= |pairs|
  {
    CountsOrdered(pairs);
    CountOverlappingMeans(pairs);
    CountOverlappingAssignmentPairs(pairs)
  }
}
