/** Day 9, Rope Bridge: the head's path read from the movement lines, the path of a knot
    that follows it, and the number of places the tail visits. */
module Day9 {
  import opened Wrappers
  import opened Text
  import opened Sequences
  import opened Day9Point

  datatype Movement = Movement(direction: Direction, steps: nat)

  /** The whole line matches `[UDLR] \d+`. */
  predicate MatchesMovementPattern(line: string) {
    |line| >= 3 && line[0] in "UDLR" && line[1] == ' ' && AllDigits(line[2..])
  }

  /** One movement line: the pattern is required, and the step count must start the range
      `1...steps`, so a count of 0 is fatal too. */
  function ParseMovement(line: string): (r: Result<Movement>)
    ensures r.Ok? <==> MatchesMovementPattern(line) && ParseNat(line[2..]) >= 1
    ensures r.Ok? ==> r.value.steps >= 1 && r.value.steps == ParseNat(line[2..])
    ensures r.Ok? ==> r.value.direction.Code() == line[..1]
    ensures !MatchesMovementPattern(line) ==> r == Fatal("Unknown movement: " + line)
  {
    if !MatchesMovementPattern(line) then Fatal("Unknown movement: " + line)
    else
      assert line[..1] == [line[0]];
      var direction := DirectionFromCode(line[..1]);
      assert direction.Ok?;
      var steps := ParseNat(line[2..]);
      if steps < 1 then Fatal(InvertedRange)
      else Ok(Movement(direction.value, steps))
  }

  /** The usual way a movement is written. */
  function FormatMovement(m: Movement): string {
    m.direction.Code() + " " + Decimal(m.steps)
  }

  /** A movement of at least one step, written the usual way, reads back as itself. */
  lemma ParseFormattedMovement(m: Movement)
    requires m.steps >= 1
    ensures ParseMovement(FormatMovement(m)) == Ok(m)
  {
    var line := FormatMovement(m);
    assert line[2..] == Decimal(m.steps);
    ParseDecimal(m.steps);
  }

  /** The movements of the lines up to the first empty one. */
  function ParseMovements(lines: seq<string>): (r: Result<seq<Movement>>)
    ensures r.Ok? ==> |r.value| <= |lines| && forall i :: 0 <= i < |r.value| ==> r.value[i].steps >= 1
  {
    if |lines| == 0 || lines[0] == "" then Ok([])
    else
      var m :- ParseMovement(lines[0]);
      var rest :- ParseMovements(lines[1..]);
      Ok([m] + rest)
  }

  /** Lines after the first empty one are never read. */
  lemma {:induction false} ParseMovementsStops(lines: seq<string>, rest: seq<string>)
    requires forall i :: 0 <= i < |lines| ==> lines[i] != ""
    ensures ParseMovements(lines + [""] + rest) == ParseMovements(lines)
  {
    if |lines| > 0 {
      assert (lines + [""] + rest)[1..] == lines[1..] + [""] + rest;
      ParseMovementsStops(lines[1..], rest);
    } else {
      assert (lines + [""] + rest)[0] == "";
    }
  }

  function Last(s: seq<Point>): Point
    requires |s| > 0
  {
    s[|s| - 1]
  }

  /** The points passed moving from `start` one unit at a time, `steps` times. */
  function Trail(start: Point, direction: Direction, steps: nat): (trail: seq<Point>)
    ensures |trail| == steps
    ensures forall i :: 0 <= i < steps ==> trail[i] == start.Move(direction, i + 1)
  {
    if steps == 0 then []
    else
      var trail := Trail(start, direction, steps - 1);
      var last := if steps == 1 then start else trail[steps - 2];
      trail + [last.Move(direction, 1)]
  }

  /** The head's positions, from the origin, one per step of the movements. */
  function HeadPositions(movements: seq<Movement>): (positions: seq<Point>)
    ensures |positions| >= 1 && positions[0] == Point(0, 0)
  {
    if |movements| == 0 then [Point(0, 0)]
    else
      var previous := HeadPositions(movements[..|movements| - 1]);
      var m := movements[|movements| - 1];
      previous + Trail(Last(previous), m.direction, m.steps)
  }

  function TotalSteps(movements: seq<Movement>): nat {
    if |movements| == 0 then 0
    else TotalSteps(movements[..|movements| - 1]) + movements[|movements| - 1].steps
  }

  /** Two points one unit apart along one axis. */
  predicate IsUnitStep(p: Point, q: Point) {
    Abs(p.x - q.x) + Abs(p.y - q.y) == 1
  }

  /** One position per step after the origin, and each position is one unit from the last. */
  lemma {:induction false} HeadPositionsShape(movements: seq<Movement>)
    requires forall i :: 0 <= i < |movements| ==> movements[i].steps >= 1
    ensures |HeadPositions(movements)| == 1 + TotalSteps(movements)
    ensures forall i :: 0 <= i < |HeadPositions(movements)| - 1 ==>
      IsUnitStep(HeadPositions(movements)[i], HeadPositions(movements)[i + 1])
  {
    if |movements| > 0 {
      var previous := HeadPositions(movements[..|movements| - 1]);
      var m := movements[|movements| - 1];
      HeadPositionsShape(movements[..|movements| - 1]);
      var trail := Trail(Last(previous), m.direction, m.steps);
      var positions := previous + trail;
      assert positions == HeadPositions(movements);
      forall i | 0 <= i < |positions| - 1
        ensures IsUnitStep(positions[i], positions[i + 1])
      {
        if i < |previous| - 1 {
          assert positions[i] == previous[i] && positions[i + 1] == previous[i + 1];
        } else if i == |previous| - 1 {
          assert positions[i + 1] == Last(previous).Move(m.direction, 1);
        } else {
          var k := i - |previous|;
          assert positions[i] == Last(previous).Move(m.direction, k + 1);
          assert positions[i + 1] == Last(previous).Move(m.direction, k + 2);
        }
      }
    }
  }

  /** The inner loop of `parseRopeMovements`: one unit step at a time from the last position. */
  method AppendSteps(positions: seq<Point>, direction: Direction, steps: nat) returns (extended: seq<Point>)
    requires |positions| > 0
    ensures extended == positions + Trail(Last(positions), direction, steps)
  {
    extended := positions;
    for step := 1 to steps + 1
      invariant extended == positions + Trail(Last(positions), direction, step - 1)
    {
      var newPoint := Last(extended).Move(direction, 1);
      extended := extended + [newPoint];
    }
  }

  /** A movement read after others extends their positions by its trail. */
  lemma HeadPositionsAppend(movements: seq<Movement>, m: Movement)
    ensures HeadPositions(movements + [m]) ==
      HeadPositions(movements) + Trail(Last(HeadPositions(movements)), m.direction, m.steps)
  {
    assert (movements + [m])[..|movements|] == movements;
  }

  /** `parseRopeMovements`: the head's positions, starting at the origin and appending one
      point per unit step, for the lines up to the first empty one; a line that is not a
      movement is fatal. */
  method ParseRopeMovements(input: string) returns (r: Result<seq<Point>>)
    ensures r.Ok? <==> ParseMovements(Split(input, "\n")).Ok?
    ensures r.Ok? ==> r.value == HeadPositions(ParseMovements(Split(input, "\n")).value)
    ensures r.Fatal? ==> r.message == ParseMovements(Split(input, "\n")).message
  {
    var lines := Split(input, "\n");
    var headPositions := [Point(0, 0)];
    ghost var parsed: seq<Movement> := [];
    assert lines[0..] == lines;
    PrependNothing(ParseMovements(lines));
    var i := 0;
    while i < |lines|
      invariant 0 <= i <= |lines|
      invariant ParseMovements(lines) == Prepend(parsed, ParseMovements(lines[i..]))
      invariant headPositions == HeadPositions(parsed)
    {
      var movement := lines[i];
      if movement == "" {
        break;
      }
      var m := ParseMovement(movement);
      if m.Fatal? {
        return Fatal(m.message);
      }
      headPositions := AppendSteps(headPositions, m.value.direction, m.value.steps);
      HeadPositionsAppend(parsed, m.value);
      ParseMovementsStep(lines, i);
      PrependAppend(parsed, [m.value], ParseMovements(lines[i + 1..]));
      parsed := parsed + [m.value];
      i := i + 1;
    }
    assert ParseMovements(lines[i..]) == Ok([]);
    assert parsed + [] == parsed;
    return Ok(headPositions);
  }

  /** Parsing from line `i` on: that line's movement, then the movements after it. */
  lemma ParseMovementsStep(lines: seq<string>, i: nat)
    requires i < |lines| && lines[i] != ""
    ensures ParseMovement(lines[i]).Fatal? ==> ParseMovements(lines[i..]) == Fatal(ParseMovement(lines[i]).message)
    ensures ParseMovement(lines[i]).Ok? ==>
      ParseMovements(lines[i..]) == Prepend([ParseMovement(lines[i]).value], ParseMovements(lines[i + 1..]))
  {
    assert lines[i..][1..] == lines[i + 1..];
  }

  /** The larger of the distances along the two axes. */
  function Chebyshev(p: Point, q: Point): nat {
    if Abs(p.x - q.x) < Abs(p.y - q.y) then Abs(p.y - q.y) else Abs(p.x - q.x)
  }

  /** One step of `calculateTailPositions`: a tail two or more apart from the head on the
      x axis (checked first) or the y axis jumps next to the head on that axis, level with
      it on the other; otherwise it stays. */
  function Follow(tail: Point, head: Point): (next: Point)
    ensures Chebyshev(next, head) <= 1
    ensures next == tail <==> Chebyshev(tail, head) <= 1
  {
    if head.x - tail.x >= 2 then Point(head.x - 1, head.y)
    else if tail.x - head.x >= 2 then Point(head.x + 1, head.y)
    else if head.y - tail.y >= 2 then Point(head.x, head.y - 1)
    else if tail.y - head.y >= 2 then Point(head.x, head.y + 1)
    else tail
  }

  /** The tail's positions: where it starts, then one position per head position. */
  function TailPositions(start: Point, heads: seq<Point>): (tails: seq<Point>)
    ensures |tails| == |heads| + 1 && tails[0] == start
  {
    if |heads| == 0 then [start]
    else
      var previous := TailPositions(start, heads[..|heads| - 1]);
      previous + [Follow(Last(previous), heads[|heads| - 1])]
  }

  /** Each tail position follows the previous one towards the head at the same index, so the
      tail ends next to every head position it processes and moves only when two apart. */
  lemma {:induction false} TailPositionsFollow(start: Point, heads: seq<Point>)
    ensures forall i :: 0 <= i < |heads| ==>
      TailPositions(start, heads)[i + 1] == Follow(TailPositions(start, heads)[i], heads[i])
    ensures forall i :: 0 <= i < |heads| ==> Chebyshev(TailPositions(start, heads)[i + 1], heads[i]) <= 1
    decreases |heads|
  {
    if |heads| > 0 {
      var previous := TailPositions(start, heads[..|heads| - 1]);
      TailPositionsFollow(start, heads[..|heads| - 1]);
      assert TailPositions(start, heads) == previous + [Follow(Last(previous), heads[|heads| - 1])];
    }
  }

  /** `calculateTailPositions`: the tail starts on the first head position and follows the
      head through every position, the first included. */
  method CalculateTailPositions(headPositions: seq<Point>) returns (tailPositions: seq<Point>)
    requires |headPositions| > 0
    ensures tailPositions == TailPositions(headPositions[0], headPositions)
  {
    var tail := headPositions[0];
    tailPositions := [tail];
    for i := 0 to |headPositions|
      invariant tailPositions == TailPositions(headPositions[0], headPositions[..i])
      invariant tail == Last(tailPositions)
    {
      var head := headPositions[i];
      tail := Follow(tail, head);
      assert headPositions[..i + 1][..i] == headPositions[..i];
      tailPositions := tailPositions + [tail];
    }
    assert headPositions[..|headPositions|] == headPositions;
  }

  /** The first two tail positions are both the first head position. */
  lemma TailStartsOnHead(heads: seq<Point>)
    requires |heads| > 0
    ensures TailPositions(heads[0], heads)[0] == heads[0]
    ensures TailPositions(heads[0], heads)[1] == heads[0]
  {
    TailPositionsFollow(heads[0], heads);
  }

  /** A tail that was next to the previous head moves at most one unit on each axis when the
      head takes one unit step. */
  lemma FollowStepIsShort(tail: Point, previousHead: Point, head: Point)
    requires Chebyshev(tail, previousHead) <= 1 && IsUnitStep(previousHead, head)
    ensures Chebyshev(tail, Follow(tail, head)) <= 1
  {
  }

  /** Behind a head that moves one unit at a time, the tail never moves more than one unit
      on either axis. */
  lemma TailStepsAreShort(heads: seq<Point>)
    requires |heads| > 0
    requires forall i :: 0 <= i < |heads| - 1 ==> IsUnitStep(heads[i], heads[i + 1])
    ensures forall i :: 0 <= i < |heads| ==>
      Chebyshev(TailPositions(heads[0], heads)[i], TailPositions(heads[0], heads)[i + 1]) <= 1
  {
    var tails := TailPositions(heads[0], heads);
    TailPositionsFollow(heads[0], heads);
    forall i | 0 <= i < |heads| ensures Chebyshev(tails[i], tails[i + 1]) <= 1 {
      if i > 0 {
        FollowStepIsShort(tails[i], heads[i - 1], heads[i]);
      }
    }
  }

  /** `partOne`: the number of different places the tail visits. */
  method PartOne(headPositions: seq<Point>) returns (count: nat)
    requires |headPositions| > 0
    ensures count == |ElementsOf(TailPositions(headPositions[0], headPositions))|
    ensures 1 <= count <= |headPositions| + 1
  {
    var tailPositions := CalculateTailPositions(headPositions);
    DistinctCount(tailPositions);
    count := |ElementsOf(tailPositions)|;
  }

  /** The path of the knot `knots` places behind the head, each knot following the one
      ahead of it. */
  function KnotPositions(headPositions: seq<Point>, knots: nat): (positions: seq<Point>)
    requires |headPositions| > 0
    ensures |positions| == |headPositions| + knots
  {
    if knots == 0 then headPositions
    else
      var ahead := KnotPositions(headPositions, knots - 1);
      TailPositions(ahead[0], ahead)
  }

  /** `partTwo`: the number of different places the ninth knot behind the head visits. */
  method PartTwo(headPositions: seq<Point>) returns (count: nat)
    requires |headPositions| > 0
    ensures count == |ElementsOf(KnotPositions(headPositions, 9))|
    ensures 1 <= count <= |headPositions| + 9
  {
    var previousPositions := headPositions;
    for knot := 1 to 10
      invariant previousPositions == KnotPositions(headPositions, knot - 1)
    {
      previousPositions := CalculateTailPositions(previousPositions);
    }
    DistinctCount(previousPositions);
    count := |ElementsOf(previousPositions)|;
  }
}
