/** Day 9, Rope Bridge: points of the plane and the four directions a rope moves in. */
module Day9Point {
  import opened Wrappers

  datatype Direction = Up | Down | Left | Right {
    /** The one-letter code a movement line uses for this direction. */
    function Code(): string {
      match this
      case Up => "U"
      case Down => "D"
      case Left => "L"
      case Right => "R"
    }
  }

  /** `Direction.init`: the direction a code names; any other code is fatal. */
  function DirectionFromCode(code: string): (r: Result<Direction>)
    ensures r.Ok? <==> code == "U" || code == "D" || code == "L" || code == "R"
    ensures r.Ok? ==> r.value.Code() == code
    ensures r.Fatal? ==> r.message == "Unknown direction code: " + code
  {
    match code
    case "U" => Ok(Up)
    case "D" => Ok(Down)
    case "L" => Ok(Left)
    case "R" => Ok(Right)
    case _ => Fatal("Unknown direction code: " + code)
  }

  /** Every direction is read back from its code. */
  lemma DirectionCodeRoundTrip(d: Direction)
    ensures DirectionFromCode(d.Code()) == Ok(d)
  {
  }

  function Abs(n: int): nat {
    if n < 0 then -n else n
  }

  datatype Point = Point(x: int, y: int) {
    /** `move(direction:by:)`: `steps` along one axis. Up and down change `y`; left
        increases `x` and right decreases it. */
    function Move(direction: Direction, steps: int): (p: Point)
      ensures p.x == x || p.y == y
      ensures Abs(p.x - x) + Abs(p.y - y) == Abs(steps)
      ensures steps != 0 ==> (p.x == x <==> direction == Up || direction == Down)
      ensures p.x + p.y == x + y + (if direction == Up || direction == Left then steps else -steps)
    {
      match direction
      case Up => Point(x, y + steps)
      case Down => Point(x, y - steps)
      case Left => Point(x + steps, y)
      case Right => Point(x - steps, y)
    }

    /** `move(directionCode:by:)`: the move in the direction the code names. */
    function MoveByCode(directionCode: string, steps: int): (r: Result<Point>)
      ensures r.Ok? <==> DirectionFromCode(directionCode).Ok?
      ensures r.Ok? ==> r.value == Move(DirectionFromCode(directionCode).value, steps)
    {
      var direction :- DirectionFromCode(directionCode);
      Ok(Move(direction, steps))
    }
  }

  /** Moving by nothing stays put. */
  lemma MoveZero(p: Point, d: Direction)
    ensures p.Move(d, 0) == p
  {
  }

  /** Two moves in one direction add up. */
  lemma MoveCompose(p: Point, d: Direction, a: int, b: int)
    ensures p.Move(d, a).Move(d, b) == p.Move(d, a + b)
  {
  }

  /** Up undoes down and left undoes right. */
  lemma MoveOpposite(p: Point, steps: int)
    ensures p.Move(Up, steps).Move(Down, steps) == p
    ensures p.Move(Down, steps).Move(Up, steps) == p
    ensures p.Move(Left, steps).Move(Right, steps) == p
    ensures p.Move(Right, steps).Move(Left, steps) == p
  {
  }
}
