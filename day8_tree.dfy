/** Day 8, Treetop Tree House: one tree of the grid, its four visibility flags, and how far
    it can see along a line of trees. */
module Day8Tree {

  datatype Direction = North | South | East | West

  /** `Direction.allCases`, in declaration order. */
  const AllDirections: seq<Direction> := [North, South, East, West]

  lemma AllDirectionsListed(d: Direction)
    ensures d in AllDirections
  {
  }

  /** A tree's height and whether it is visible from outside the grid in each direction. */
  datatype Tree = Tree(height: int, northVisible: bool, southVisible: bool, eastVisible: bool, westVisible: bool) {

    /** `visible`: seen from at least one side. */
    predicate Visible() {
      northVisible || southVisible || eastVisible || westVisible
    }

    function VisibleFrom(d: Direction): bool {
      match d
      case North => northVisible
      case South => southVisible
      case East => eastVisible
      case West => westVisible
    }

    /** The tree with its flag for `d` set; nothing else changes. */
    function MarkVisibleFrom(d: Direction): (t: Tree)
      ensures t.height == height && t.VisibleFrom(d)
      ensures forall e :: e != d ==> t.VisibleFrom(e) == VisibleFrom(e)
    {
      match d
      case North => this.(northVisible := true)
      case South => this.(southVisible := true)
      case East => this.(eastVisible := true)
      case West => this.(westVisible := true)
    }
  }

  /** `init(height:)`: no flag is set yet. */
  function NewTree(height: int): (t: Tree)
    ensures t.height == height && !t.Visible()
    ensures forall d :: !t.VisibleFrom(d)
  {
    Tree(height, false, false, false, false)
  }

  /** A tree is visible exactly when it is visible from some direction. */
  lemma VisibleFromSomeDirection(t: Tree)
    ensures t.Visible() ==> exists d :: t.VisibleFrom(d)
    ensures (exists d :: t.VisibleFrom(d)) ==> t.Visible()
  {
    if t.Visible() {
      if t.northVisible {
        assert t.VisibleFrom(North);
      } else if t.southVisible {
        assert t.VisibleFrom(South);
      } else if t.eastVisible {
        assert t.VisibleFrom(East);
      } else {
        assert t.VisibleFrom(West);
      }
    }
  }

  /** The sight distance of a tree of height `height` along the heights met walking outward,
      nearest first: trees are counted up to and including the first one at least as tall,
      or up to the edge. */
  function ViewingDistance(height: int, outward: seq<int>): (distance: nat)
    ensures distance <= |outward|
    ensures distance == 0 <==> |outward| == 0
    ensures forall i :: 0 <= i < distance - 1 ==> outward[i] < height
    ensures distance < |outward| ==> outward[distance - 1] >= height
  {
    if |outward| == 0 then 0
    else if height > outward[0] then 1 + ViewingDistance(height, outward[1..])
    else 1
  }

  /** A tree taller than every tree along the line sees to the edge. */
  lemma {:induction false} ViewingDistanceOfTallest(height: int, outward: seq<int>)
    requires forall i :: 0 <= i < |outward| ==> outward[i] < height
    ensures ViewingDistance(height, outward) == |outward|
  {
    if |outward| > 0 {
      ViewingDistanceOfTallest(height, outward[1..]);
    }
  }

  /** The highest of `heights`, or -1 when there are none: the running `tallest` of a scan. */
  function Tallest(heights: seq<int>): (tallest: int)
    ensures tallest >= -1
    ensures forall i :: 0 <= i < |heights| ==> heights[i] <= tallest
    ensures tallest == -1 || tallest in heights
  {
    if |heights| == 0 then -1
    else
      var rest := Tallest(heights[..|heights| - 1]);
      assert forall i :: 0 <= i < |heights| - 1 ==> heights[i] == heights[..|heights| - 1][i];
      if heights[|heights| - 1] > rest then heights[|heights| - 1] else rest
  }

  /** The running maximum after one more height: that height if it is taller, else as before. */
  lemma TallestStep(heights: seq<int>, k: nat)
    requires k < |heights|
    ensures Tallest(heights[..k + 1]) ==
      if heights[k] > Tallest(heights[..k]) then heights[k] else Tallest(heights[..k])
  {
    assert heights[..k + 1][..k] == heights[..k];
  }
}
