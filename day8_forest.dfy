/** Day 8, Treetop Tree House: the forest. The trees live in one arena keyed by their place
    in the grid; `rows` and `columns` list those places, as the source's arrays list the
    same tree objects. A tree's north, south, east and west links become `Next`, found by
    index arithmetic on the rows. */
module Day8Forest {
  import opened Wrappers
  import opened Text
  import opened Sequences
  import opened Sums
  import opened Day8Tree

  /** Where a tree stands: its line of the height map and its offset in that line. */
  datatype Pos = Pos(row: nat, column: nat)

  /** The places of the rows, row by row: `rows[r][c]` is `Pos(r, c)`. */
  predicate IsGrid(rows: seq<seq<Pos>>) {
    forall r, c :: 0 <= r < |rows| && 0 <= c < |rows[r]| ==> rows[r][c] == Pos(r, c)
  }

  predicate InGrid(rows: seq<seq<Pos>>, p: Pos) {
    p.row < |rows| && p.column < |rows[p.row]|
  }

  /** The length of the longest row: the number of columns. */
  function Width(rows: seq<seq<Pos>>): (width: nat)
    ensures forall r :: 0 <= r < |rows| ==> |rows[r]| <= width
    ensures |rows| > 0 ==> exists r :: 0 <= r < |rows| && |rows[r]| == width
    ensures |rows| == 0 ==> width == 0
  {
    if |rows| == 0 then 0
    else
      var rest := Width(rows[..|rows| - 1]);
      assert forall r :: 0 <= r < |rows| - 1 ==> rows[r] == rows[..|rows| - 1][r];
      if |rows[|rows| - 1]| > rest then |rows[|rows| - 1]| else rest
  }

  /** The places of column `c`, top row first: one for each row long enough to reach it. */
  function ColumnOf(rows: seq<seq<Pos>>, c: nat): seq<Pos> {
    if |rows| == 0 then []
    else ColumnOf(rows[..|rows| - 1], c) + (if c < |rows[|rows| - 1]| then [Pos(|rows| - 1, c)] else [])
  }

  /** A column lists, top-down, the places of column `c` of every row that reaches it. */
  lemma {:induction false} ColumnOfShape(rows: seq<seq<Pos>>, c: nat)
    ensures var column := ColumnOf(rows, c);
      && (forall i :: 0 <= i < |column| ==> column[i].column == c && InGrid(rows, column[i]))
      && (forall i, j :: 0 <= i < j < |column| ==> column[i].row < column[j].row)
      && (forall r :: 0 <= r < |rows| && c < |rows[r]| ==> Pos(r, c) in column)
  {
    if |rows| > 0 {
      var prefix := rows[..|rows| - 1];
      ColumnOfShape(prefix, c);
      assert forall p :: InGrid(prefix, p) ==> InGrid(rows, p);
    }
  }

  /** No row reaches past the widest one. */
  lemma {:induction false} ColumnOfBeyondWidth(rows: seq<seq<Pos>>, c: nat)
    requires c >= Width(rows)
    ensures ColumnOf(rows, c) == []
  {
    if |rows| > 0 {
      var prefix := rows[..|rows| - 1];
      assert Width(prefix) <= Width(rows);
      ColumnOfBeyondWidth(prefix, c);
    }
  }

  /** The columns of the rows, leftmost first. */
  function Columns(rows: seq<seq<Pos>>): (columns: seq<seq<Pos>>)
    ensures |columns| == Width(rows)
    ensures forall c :: 0 <= c < |columns| ==> columns[c] == ColumnOf(rows, c)
  {
    seq(Width(rows), c requires 0 <= c => ColumnOf(rows, c))
  }

  /** The nearest row above row `r` that reaches column `c`. */
  function Above(rows: seq<seq<Pos>>, r: nat, c: nat): (above: Option<nat>)
    requires r <= |rows|
    ensures above.Some? ==> above.value < r && c < |rows[above.value]|
    ensures above.Some? ==> forall r' :: above.value < r' < r ==> c >= |rows[r']|
    ensures above.None? ==> forall r' :: 0 <= r' < r ==> c >= |rows[r']|
  {
    if r == 0 then None
    else if c < |rows[r - 1]| then Some(r - 1)
    else Above(rows, r - 1, c)
  }

  /** The nearest row below row `r` that reaches column `c`. */
  function Below(rows: seq<seq<Pos>>, r: nat, c: nat): (below: Option<nat>)
    requires r < |rows|
    ensures below.Some? ==> r < below.value < |rows| && c < |rows[below.value]|
    ensures below.Some? ==> forall r' :: r < r' < below.value ==> c >= |rows[r']|
    ensures below.None? ==> forall r' :: r < r' < |rows| ==> c >= |rows[r']|
    decreases |rows| - r
  {
    if r + 1 == |rows| then None
    else if c < |rows[r + 1]| then Some(r + 1)
    else Below(rows, r + 1, c)
  }

  /** `q` lies beyond `p` in direction `d`: in its row for east and west, in its column for
      north and south. */
  predicate IsTowards(p: Pos, q: Pos, d: Direction) {
    match d
    case North => q.column == p.column && q.row < p.row
    case South => q.column == p.column && q.row > p.row
    case East => q.row == p.row && q.column > p.column
    case West => q.row == p.row && q.column < p.column
  }

  /** How far `p` is from the edge of the grid in direction `d`; each link walks it down. */
  function Remaining(rows: seq<seq<Pos>>, p: Pos, d: Direction): nat
    requires InGrid(rows, p)
  {
    match d
    case North => p.row
    case South => |rows| - p.row
    case East => |rows[p.row]| - p.column
    case West => p.column
  }

  /** `next(_:)`: the neighbouring tree in direction `d`, the link the parse sets. West and
      east are the row's neighbours; north and south the nearest rows that reach the column. */
  function Next(rows: seq<seq<Pos>>, p: Pos, d: Direction): (next: Option<Pos>)
    requires InGrid(rows, p)
    ensures next.Some? ==> InGrid(rows, next.value) && IsTowards(p, next.value, d)
    ensures next.Some? ==> Remaining(rows, next.value, d) < Remaining(rows, p, d)
    ensures next.Some? ==> forall q :: InGrid(rows, q) && IsTowards(p, q, d) ==>
      q == next.value || IsTowards(next.value, q, d)
    ensures next.None? <==> forall q :: InGrid(rows, q) ==> !IsTowards(p, q, d)
  {
    match d
    case West =>
      if p.column > 0 then
        var q := Pos(p.row, p.column - 1);
        assert InGrid(rows, q) && IsTowards(p, q, d);
        Some(q)
      else None
    case East =>
      if p.column + 1 < |rows[p.row]| then
        var q := Pos(p.row, p.column + 1);
        assert InGrid(rows, q) && IsTowards(p, q, d);
        Some(q)
      else None
    case North =>
      var above := Above(rows, p.row, p.column);
      if above.Some? then
        var q := Pos(above.value, p.column);
        assert InGrid(rows, q) && IsTowards(p, q, d);
        Some(q)
      else None
    case South =>
      var below := Below(rows, p.row, p.column);
      if below.Some? then
        var q := Pos(below.value, p.column);
        assert InGrid(rows, q) && IsTowards(p, q, d);
        Some(q)
      else None
  }

  /** The trees met walking the links from `p` in direction `d`, nearest first. */
  function Outward(rows: seq<seq<Pos>>, p: Pos, d: Direction): (line: seq<Pos>)
    requires InGrid(rows, p)
    ensures forall i :: 0 <= i < |line| ==> InGrid(rows, line[i])
    ensures |line| == 0 <==> Next(rows, p, d).None?
    decreases Remaining(rows, p, d)
  {
    match Next(rows, p, d)
    case None => []
    case Some(q) => [q] + Outward(rows, q, d)
  }

  /** The walk meets exactly the trees that lie beyond `p` in direction `d`. */
  lemma {:induction false} OutwardMeetsTowards(rows: seq<seq<Pos>>, p: Pos, d: Direction)
    requires InGrid(rows, p)
    ensures forall q :: q in Outward(rows, p, d) ==> IsTowards(p, q, d)
    ensures forall q :: InGrid(rows, q) && IsTowards(p, q, d) ==> q in Outward(rows, p, d)
    decreases Remaining(rows, p, d)
  {
    var next := Next(rows, p, d);
    if next.Some? {
      OutwardMeetsTowards(rows, next.value, d);
    }
  }

  /** All rows have length `width`. */
  predicate IsRectangular(rows: seq<seq<Pos>>, width: nat) {
    forall r :: 0 <= r < |rows| ==> |rows[r]| == width
  }

  /** In a rectangular map column `c` holds the place of column `c` of every row, top-down:
      `columns[c][r]` and `rows[r][c]` are the same tree. */
  lemma {:induction false} RectangularColumn(rows: seq<seq<Pos>>, width: nat, c: nat)
    requires IsGrid(rows) && IsRectangular(rows, width) && c < width
    ensures |ColumnOf(rows, c)| == |rows|
    ensures forall r :: 0 <= r < |rows| ==> ColumnOf(rows, c)[r] == rows[r][c]
  {
    if |rows| > 0 {
      var prefix := rows[..|rows| - 1];
      RectangularColumn(prefix, width, c);
    }
  }

  /** In a rectangular map the links are grid adjacency: north and south are the rows above
      and below, west and east the neighbours in the row. */
  lemma RectangularNext(rows: seq<seq<Pos>>, width: nat, p: Pos)
    requires IsRectangular(rows, width) && InGrid(rows, p)
    ensures Next(rows, p, North) == if p.row > 0 then Some(Pos(p.row - 1, p.column)) else None
    ensures Next(rows, p, South) == if p.row + 1 < |rows| then Some(Pos(p.row + 1, p.column)) else None
    ensures Next(rows, p, West) == if p.column > 0 then Some(Pos(p.row, p.column - 1)) else None
    ensures Next(rows, p, East) == if p.column + 1 < width then Some(Pos(p.row, p.column + 1)) else None
  {
  }

  /** The direction facing the other way. */
  function Opposite(d: Direction): (o: Direction)
    ensures forall p, q :: IsTowards(p, q, d) <==> IsTowards(q, p, o)
  {
    match d
    case North => South
    case South => North
    case East => West
    case West => East
  }

  /** What the parse leaves and the scans keep: the rows are the grid, the arena holds one tree
      per place, the columns are the columns of the rows, and every height is one digit. */
  ghost predicate IsForest(trees: map<Pos, Tree>, rows: seq<seq<Pos>>, columns: seq<seq<Pos>>) {
    && IsGrid(rows)
    && (forall p :: p in trees <==> InGrid(rows, p))
    && columns == Columns(rows)
    && (forall p :: p in trees ==> 0 <= trees[p].height <= 9)
  }

  /** The heights of the trees at `line`, in order. */
  function Heights(trees: map<Pos, Tree>, line: seq<Pos>): (heights: seq<int>)
    requires forall i :: 0 <= i < |line| ==> line[i] in trees
    ensures |heights| == |line|
    ensures forall i :: 0 <= i < |line| ==> heights[i] == trees[line[i]].height
  {
    seq(|line|, i requires 0 <= i < |line| => trees[line[i]].height)
  }

  /** The tree at `p` is taller than every tree beyond it in direction `d`: it can be seen
      from outside the grid on that side. */
  ghost predicate TallerThanAllTowards(trees: map<Pos, Tree>, p: Pos, d: Direction)
    requires p in trees
  {
    forall q :: q in trees && IsTowards(p, q, d) ==> trees[q].height < trees[p].height
  }

  /** `line` lists, in order, every tree of one row or column as seen walking in the opposite
      direction of `d`: the trees beyond `line[k]` in direction `d` are the ones before it. */
  ghost predicate IsScanLine(trees: map<Pos, Tree>, line: seq<Pos>, d: Direction) {
    && AllDistinct(line)
    && (forall k :: 0 <= k < |line| ==> line[k] in trees)
    && (forall j, k :: 0 <= j < |line| && 0 <= k < |line| ==> (IsTowards(line[k], line[j], d) <==> j < k))
    && (forall k, q :: 0 <= k < |line| && q in trees && IsTowards(line[k], q, d) ==> q in line)
    && (forall k, q :: 0 <= k < |line| && q in trees && IsTowards(q, line[k], d) ==> q in line)
  }

  /** On a scan line with non-negative heights, being taller than every tree beyond is being
      taller than the running maximum of the trees before. */
  lemma ScanCondition(trees: map<Pos, Tree>, line: seq<Pos>, d: Direction, k: nat)
    requires IsScanLine(trees, line, d) && k < |line|
    requires forall p :: p in trees ==> trees[p].height >= 0
    ensures TallerThanAllTowards(trees, line[k], d) <==>
      Heights(trees, line)[k] > Tallest(Heights(trees, line)[..k])
  {
    var heights := Heights(trees, line);
    var before := heights[..k];
    if TallerThanAllTowards(trees, line[k], d) {
      if Tallest(before) != -1 {
        var j :| 0 <= j < k && before[j] == Tallest(before);
        assert IsTowards(line[k], line[j], d);
      }
    } else {
      var q :| q in trees && IsTowards(line[k], q, d) && trees[q].height >= trees[line[k]].height;
      var j :| 0 <= j < |line| && line[j] == q;
      assert before[j] == heights[j];
    }
  }

  /** Walking a scan line backwards scans the other way. */
  lemma ReversedScanLine(trees: map<Pos, Tree>, line: seq<Pos>, d: Direction)
    requires IsScanLine(trees, line, d)
    ensures IsScanLine(trees, Reversed(line), Opposite(d))
  {
    var back := Reversed(line);
    var n := |line|;
    forall j, k | 0 <= j < n && 0 <= k < n
      ensures IsTowards(back[k], back[j], Opposite(d)) <==> j < k
    {
      assert back[k] == line[n - 1 - k] && back[j] == line[n - 1 - j];
    }
    forall q | q in line
      ensures q in back
    {
      var i :| 0 <= i < n && line[i] == q;
      assert back[n - 1 - i] == q;
    }
    forall k | 0 <= k < n
      ensures back[k] in line
    {
      assert back[k] == line[n - 1 - k];
    }
  }

  /** A row of the grid, left to right, is a scan line looking west. */
  lemma RowScanLine(trees: map<Pos, Tree>, rows: seq<seq<Pos>>, columns: seq<seq<Pos>>, r: nat)
    requires IsForest(trees, rows, columns) && r < |rows|
    ensures IsScanLine(trees, rows[r], West)
    ensures forall p :: p in rows[r] <==> p in trees && p.row == r
  {
    forall k, q | 0 <= k < |rows[r]| && q in trees && IsTowards(rows[r][k], q, West)
      ensures q in rows[r]
    {
      assert rows[r][q.column] == q;
    }
    forall p | p in trees && p.row == r
      ensures p in rows[r]
    {
      assert rows[r][p.column] == p;
    }
  }

  /** Places of one column listed top to bottom form a scan line looking north. */
  lemma DescendingColumnScanLine(trees: map<Pos, Tree>, column: seq<Pos>, c: nat)
    requires forall i :: 0 <= i < |column| ==> column[i].column == c && column[i] in trees
    requires forall i, j :: 0 <= i < j < |column| ==> column[i].row < column[j].row
    requires forall p :: p in trees && p.column == c ==> p in column
    ensures IsScanLine(trees, column, North)
  {
    forall i, j | 0 <= i < j < |column|
      ensures column[i] != column[j]
    {
      assert column[i].row < column[j].row;
    }
    forall j, k | 0 <= j < |column| && 0 <= k < |column|
      ensures IsTowards(column[k], column[j], North) <==> j < k
    {
      if j < k {
        assert column[j].row < column[k].row;
      } else if k < j {
        assert column[k].row < column[j].row;
      }
    }
  }

  /** A column of the grid, top to bottom, is a scan line looking north. */
  lemma ColumnScanLine(trees: map<Pos, Tree>, rows: seq<seq<Pos>>, columns: seq<seq<Pos>>, c: nat)
    requires IsForest(trees, rows, columns) && c < |columns|
    ensures IsScanLine(trees, columns[c], North)
    ensures forall p :: p in columns[c] <==> p in trees && p.column == c
  {
    var column := ColumnOf(rows, c);
    assert columns[c] == column;
    ColumnOfShape(rows, c);
    forall p | p in trees && p.column == c
      ensures p in column
    {
      assert InGrid(rows, p);
    }
    DescendingColumnScanLine(trees, column, c);
  }

  /** The trees and heights are the same, so the same trees are visible. */
  lemma SameHeightsSameView(before: map<Pos, Tree>, after: map<Pos, Tree>, p: Pos, d: Direction)
    requires before.Keys == after.Keys && p in before
    requires forall q :: q in before ==> after[q].height == before[q].height
    ensures TallerThanAllTowards(before, p, d) == TallerThanAllTowards(after, p, d)
  {
  }

  /** The sight distance of the tree at `p` in direction `d`. */
  function SightDistanceOf(trees: map<Pos, Tree>, rows: seq<seq<Pos>>, p: Pos, d: Direction): nat
    requires InGrid(rows, p) && forall q :: InGrid(rows, q) ==> q in trees
  {
    ViewingDistance(trees[p].height, Heights(trees, Outward(rows, p, d)))
  }

  /** `scenicScore`: the product, from 1, of the sight distances in the four directions of
      `allCases`. */
  function ScenicScoreOf(trees: map<Pos, Tree>, rows: seq<seq<Pos>>, p: Pos): nat
    requires InGrid(rows, p) && forall q :: InGrid(rows, q) ==> q in trees
  {
    var north := SightDistanceOf(trees, rows, p, North);
    var south := SightDistanceOf(trees, rows, p, South);
    var east := SightDistanceOf(trees, rows, p, East);
    var west := SightDistanceOf(trees, rows, p, West);
    Product([north, south, east, west])
  }

  /** A tree sees nothing in a direction exactly when it has no neighbour there, and never
      more trees than lie that way. */
  lemma SightDistanceBounds(trees: map<Pos, Tree>, rows: seq<seq<Pos>>, p: Pos, d: Direction)
    requires InGrid(rows, p) && forall q :: InGrid(rows, q) ==> q in trees
    ensures SightDistanceOf(trees, rows, p, d) == 0 <==> Next(rows, p, d).None?
    ensures SightDistanceOf(trees, rows, p, d) <= |Outward(rows, p, d)|
  {
    OutwardMeetsTowards(rows, p, d);
  }

  /** The score is 0 exactly for a tree on the edge: one with no neighbour on some side. */
  lemma ScenicScoreZeroOnEdge(trees: map<Pos, Tree>, rows: seq<seq<Pos>>, p: Pos)
    requires InGrid(rows, p) && forall q :: InGrid(rows, q) ==> q in trees
    ensures ScenicScoreOf(trees, rows, p) == 0 ==> exists d :: Next(rows, p, d).None?
    ensures (exists d :: Next(rows, p, d).None?) ==> ScenicScoreOf(trees, rows, p) == 0
  {
    var n := SightDistanceOf(trees, rows, p, North);
    var s := SightDistanceOf(trees, rows, p, South);
    var e := SightDistanceOf(trees, rows, p, East);
    var w := SightDistanceOf(trees, rows, p, West);
    assert ScenicScoreOf(trees, rows, p) == Product([n, s, e, w]);
    ProductOfFourZero(n, s, e, w);
    SightDistanceBounds(trees, rows, p, North);
    SightDistanceBounds(trees, rows, p, South);
    SightDistanceBounds(trees, rows, p, East);
    SightDistanceBounds(trees, rows, p, West);
    if n == 0 {
      assert Next(rows, p, North).None?;
    } else if s == 0 {
      assert Next(rows, p, South).None?;
    } else if e == 0 {
      assert Next(rows, p, East).None?;
    } else if w == 0 {
      assert Next(rows, p, West).None?;
    }
  }

  /** Sight distances, and so scores, depend on the heights only. */
  lemma SameHeightsSameScore(before: map<Pos, Tree>, after: map<Pos, Tree>, rows: seq<seq<Pos>>, p: Pos)
    requires SameArena(before, after) && InGrid(rows, p) && forall q :: InGrid(rows, q) ==> q in before
    ensures ScenicScoreOf(before, rows, p) == ScenicScoreOf(after, rows, p)
  {
    forall d ensures SightDistanceOf(before, rows, p, d) == SightDistanceOf(after, rows, p, d) {
      var line := Outward(rows, p, d);
      assert Heights(before, line) == Heights(after, line);
    }
  }

  /** What remains of a sight distance when the walk has reached `next`. */
  function ViewFrom(trees: map<Pos, Tree>, rows: seq<seq<Pos>>, height: int, next: Option<Pos>, d: Direction): nat
    requires next.Some? ==> InGrid(rows, next.value)
    requires forall q :: InGrid(rows, q) ==> q in trees
  {
    if next.None? then 0 else ViewingDistance(height, Heights(trees, [next.value] + Outward(rows, next.value, d)))
  }

  /** One step of the walk: the tree reached counts, and the walk goes on past it only if it
      is shorter. */
  lemma ViewFromStep(trees: map<Pos, Tree>, rows: seq<seq<Pos>>, height: int, q: Pos, d: Direction)
    requires InGrid(rows, q) && forall q' :: InGrid(rows, q') ==> q' in trees
    ensures ViewFrom(trees, rows, height, Some(q), d) ==
      1 + (if height > trees[q].height then ViewFrom(trees, rows, height, Next(rows, q, d), d) else 0)
  {
    var line := [q] + Outward(rows, q, d);
    assert Heights(trees, line)[1..] == Heights(trees, line[1..]);
  }

  /** The arena once a scan along `line` has passed its first `k` trees without stopping:
      each of them taller than all before it is marked visible from `d`. */
  function MarkedAlong(trees: map<Pos, Tree>, line: seq<Pos>, d: Direction, k: nat): (marked: map<Pos, Tree>)
    requires k <= |line| && forall i :: 0 <= i < |line| ==> line[i] in trees
    ensures marked.Keys == trees.Keys
    ensures forall p :: p in trees ==> marked[p].height == trees[p].height
  {
    if k == 0 then trees
    else
      var before := MarkedAlong(trees, line, d, k - 1);
      var heights := Heights(trees, line);
      if heights[k - 1] > Tallest(heights[..k - 1]) then
        before[line[k - 1] := before[line[k - 1]].MarkVisibleFrom(d)]
      else before
  }

  /** A tree of the line not yet passed is as it was. */
  lemma {:induction false} MarkedAlongKeeps(trees: map<Pos, Tree>, line: seq<Pos>, d: Direction, k: nat, j: nat)
    requires k <= j < |line| && AllDistinct(line) && forall i :: 0 <= i < |line| ==> line[i] in trees
    ensures MarkedAlong(trees, line, d, k)[line[j]] == trees[line[j]]
  {
    if k > 0 {
      MarkedAlongKeeps(trees, line, d, k - 1, j);
    }
  }

  /** Passing one more tree: it is marked when taller than the running maximum, which then
      becomes its height. */
  lemma MarkedAlongStep(trees: map<Pos, Tree>, line: seq<Pos>, d: Direction, k: nat)
    requires k < |line| && AllDistinct(line) && forall i :: 0 <= i < |line| ==> line[i] in trees
    ensures MarkedAlong(trees, line, d, k)[line[k]] == trees[line[k]]
    ensures var heights := Heights(trees, line);
      var before := MarkedAlong(trees, line, d, k);
      && MarkedAlong(trees, line, d, k + 1) ==
        (if trees[line[k]].height > Tallest(heights[..k])
         then before[line[k] := trees[line[k]].MarkVisibleFrom(d)] else before)
      && Tallest(heights[..k + 1]) ==
        (if trees[line[k]].height > Tallest(heights[..k]) then trees[line[k]].height else Tallest(heights[..k]))
  {
    MarkedAlongKeeps(trees, line, d, k, k);
    var heights := Heights(trees, line);
    assert heights[k] == trees[line[k]].height;
    TallestStep(heights, k);
  }

  /** A tree no taller than the running maximum is passed without marking. */
  lemma MarkedAlongSkips(trees: map<Pos, Tree>, line: seq<Pos>, d: Direction, k: nat)
    requires k < |line| && forall i :: 0 <= i < |line| ==> line[i] in trees
    requires Heights(trees, line)[k] <= Tallest(Heights(trees, line)[..k])
    ensures MarkedAlong(trees, line, d, k + 1) == MarkedAlong(trees, line, d, k)
  {
  }

  /** With heights at most 9, nothing after a tree of height 9 is marked: stopping there
      changes nothing. */
  lemma {:induction false} MarkedAlongStopsAtNine(trees: map<Pos, Tree>, line: seq<Pos>, d: Direction, k: nat, m: nat)
    requires k < m <= |line| && forall i :: 0 <= i < |line| ==> line[i] in trees
    requires forall i :: 0 <= i < |line| ==> trees[line[i]].height <= 9
    requires trees[line[k]].height == 9
    ensures MarkedAlong(trees, line, d, m) == MarkedAlong(trees, line, d, k + 1)
  {
    if m > k + 1 {
      var heights := Heights(trees, line);
      assert heights[m - 1] <= Tallest(heights[..m - 1]) by {
        assert heights[m - 1] <= 9;
        assert heights[..m - 1][k] == 9;
      }
      MarkedAlongSkips(trees, line, d, m - 1);
      MarkedAlongStopsAtNine(trees, line, d, k, m - 1);
    }
  }

  /** A scan leaves alone every flag but the one for `d`, and every tree it has not passed. */
  lemma {:induction false} MarkedAlongOthers(trees: map<Pos, Tree>, line: seq<Pos>, d: Direction, k: nat, p: Pos, e: Direction)
    requires k <= |line| && forall i :: 0 <= i < |line| ==> line[i] in trees
    requires p in trees && (e != d || p !in line[..k])
    ensures MarkedAlong(trees, line, d, k)[p].VisibleFrom(e) == trees[p].VisibleFrom(e)
  {
    if k > 0 {
      assert p !in line[..k] ==> p !in line[..k - 1] && p != line[k - 1];
      MarkedAlongOthers(trees, line, d, k - 1, p, e);
    }
  }

  /** After passing `k` trees, exactly those of them taller than the running maximum have
      gained the flag for `d`. */
  lemma MarkedAlongFlags(trees: map<Pos, Tree>, line: seq<Pos>, d: Direction, k: nat)
    requires k <= |line| && AllDistinct(line) && forall i :: 0 <= i < |line| ==> line[i] in trees
    ensures forall j :: 0 <= j < k ==>
      MarkedAlong(trees, line, d, k)[line[j]].VisibleFrom(d) ==
        (trees[line[j]].VisibleFrom(d) || Heights(trees, line)[j] > Tallest(Heights(trees, line)[..j]))
  {
    forall j | 0 <= j < k
      ensures MarkedAlong(trees, line, d, k)[line[j]].VisibleFrom(d) ==
        (trees[line[j]].VisibleFrom(d) || Heights(trees, line)[j] > Tallest(Heights(trees, line)[..j]))
    {
      MarkedAlongLater(trees, line, d, j, k);
      MarkedAlongStep(trees, line, d, j);
    }
  }

  /** Once the scan has passed the tree at `j`, later steps leave it alone. */
  lemma {:induction false} MarkedAlongLater(trees: map<Pos, Tree>, line: seq<Pos>, d: Direction, j: nat, k: nat)
    requires j < k <= |line| && AllDistinct(line) && forall i :: 0 <= i < |line| ==> line[i] in trees
    ensures MarkedAlong(trees, line, d, k)[line[j]] == MarkedAlong(trees, line, d, j + 1)[line[j]]
  {
    if k > j + 1 {
      MarkedAlongLater(trees, line, d, j, k - 1);
      assert line[k - 1] != line[j];
    }
  }

  /** A whole scan along a scan line marks exactly the trees taller than every tree beyond
      them in direction `d`, and touches no other flag. */
  lemma MarkedAlongMarksVisible(trees: map<Pos, Tree>, line: seq<Pos>, d: Direction)
    requires IsScanLine(trees, line, d) && forall p :: p in trees ==> trees[p].height >= 0
    ensures forall p, e :: p in trees && (e != d || p !in line) ==>
      MarkedAlong(trees, line, d, |line|)[p].VisibleFrom(e) == trees[p].VisibleFrom(e)
    ensures forall p :: p in line ==>
      MarkedAlong(trees, line, d, |line|)[p].VisibleFrom(d) == (trees[p].VisibleFrom(d) || TallerThanAllTowards(trees, p, d))
  {
    var marked := MarkedAlong(trees, line, d, |line|);
    MarkedAlongFlags(trees, line, d, |line|);
    assert line[..|line|] == line;
    forall p, e | p in trees && (e != d || p !in line)
      ensures marked[p].VisibleFrom(e) == trees[p].VisibleFrom(e)
    {
      MarkedAlongOthers(trees, line, d, |line|, p, e);
    }
    forall p | p in line
      ensures marked[p].VisibleFrom(d) == (trees[p].VisibleFrom(d) || TallerThanAllTowards(trees, p, d))
    {
      var j :| 0 <= j < |line| && line[j] == p;
      ScanCondition(trees, line, d, j);
    }
  }

  /** Changing flags only keeps a forest a forest. */
  lemma IsForestKeeps(before: map<Pos, Tree>, after: map<Pos, Tree>, rows: seq<seq<Pos>>, columns: seq<seq<Pos>>)
    requires IsForest(before, rows, columns)
    requires after.Keys == before.Keys && forall p :: p in before ==> after[p].height == before[p].height
    ensures IsForest(after, rows, columns)
  {
  }

  /** Same places, same heights: only flags differ. */
  ghost predicate SameArena(before: map<Pos, Tree>, after: map<Pos, Tree>) {
    after.Keys == before.Keys && forall p :: p in before ==> after[p].height == before[p].height
  }

  /** The row loop of `calculateVisibility` has scanned the first `r` rows from both sides:
      exactly their trees taller than all beyond them to the west or east gained that flag. */
  ghost predicate RowsScanned(before: map<Pos, Tree>, after: map<Pos, Tree>, r: nat) {
    && SameArena(before, after)
    && forall p, e :: p in before ==>
      after[p].VisibleFrom(e) ==
        (before[p].VisibleFrom(e) || (p.row < r && (e == West || e == East) && TallerThanAllTowards(before, p, e)))
  }

  /** All rows are scanned and the column loop has scanned the first `c` columns from the
      north and from the south. */
  ghost predicate ColumnsScanned(before: map<Pos, Tree>, after: map<Pos, Tree>, c: nat) {
    && SameArena(before, after)
    && forall p, e :: p in before ==>
      after[p].VisibleFrom(e) ==
        (before[p].VisibleFrom(e) ||
         (((e == West || e == East) || (p.column < c && (e == North || e == South))) && TallerThanAllTowards(before, p, e)))
  }

  /** A scan changes flags only, so the way back is still a scan line. */
  lemma ScanLineAfterScan(trees: map<Pos, Tree>, line: seq<Pos>, d: Direction)
    requires IsScanLine(trees, line, d)
    ensures IsScanLine(MarkedAlong(trees, line, d, |line|), Reversed(line), Opposite(d))
  {
    var once := MarkedAlong(trees, line, d, |line|);
    assert IsScanLine(once, line, d);
    ReversedScanLine(once, line, d);
  }

  /** Scanning a line towards `d` and then back towards the opposite side sets, for one tree
      and one side, the flag a scan from that side should, and nothing else. */
  lemma ScanBothWaysAt(trees: map<Pos, Tree>, line: seq<Pos>, d: Direction, p: Pos, e: Direction)
    requires IsScanLine(trees, line, d) && forall q :: q in trees ==> trees[q].height >= 0
    requires p in trees
    ensures var twice := MarkedAlong(MarkedAlong(trees, line, d, |line|), Reversed(line), Opposite(d), |line|);
      twice[p].VisibleFrom(e) ==
        (trees[p].VisibleFrom(e) || ((e == d || e == Opposite(d)) && p in line && TallerThanAllTowards(trees, p, e)))
  {
    var once := MarkedAlong(trees, line, d, |line|);
    var back := Reversed(line);
    var twice := MarkedAlong(once, back, Opposite(d), |line|);
    ScanLineAfterScan(trees, line, d);
    assert once[p].VisibleFrom(e) ==
      (trees[p].VisibleFrom(e) || (e == d && p in line && TallerThanAllTowards(trees, p, d))) by {
      MarkedAlongMarksVisible(trees, line, d);
    }
    InReversed(line, p);
    assert twice[p].VisibleFrom(e) ==
      (once[p].VisibleFrom(e) || (e == Opposite(d) && p in back && TallerThanAllTowards(once, p, e))) by {
      MarkedAlongMarksVisible(once, back, Opposite(d));
    }
    SameHeightsSameView(trees, once, p, e);
  }

  /** Row `r` of a forest whose flags have changed is still a scan line to the west, and
      after that scan its reverse is one to the east. */
  lemma RowLine(original: map<Pos, Tree>, trees: map<Pos, Tree>, rows: seq<seq<Pos>>, columns: seq<seq<Pos>>, r: nat)
    requires IsForest(original, rows, columns) && r < |rows| && SameArena(original, trees)
    ensures forall q :: q in trees ==> trees[q].height >= 0
    ensures IsScanLine(trees, rows[r], West) && forall p :: p in rows[r] <==> p in trees && p.row == r
    ensures IsScanLine(MarkedAlong(trees, rows[r], West, |rows[r]|), Reversed(rows[r]), East)
  {
    IsForestKeeps(original, trees, rows, columns);
    RowScanLine(trees, rows, columns, r);
    assert Opposite(West) == East;
    ScanLineAfterScan(trees, rows[r], West);
  }

  /** Scanning row `r` from both sides extends the scanned rows by one. */
  lemma RowStep(original: map<Pos, Tree>, trees: map<Pos, Tree>, row: seq<Pos>, r: nat)
    requires RowsScanned(original, trees, r) && forall q :: q in trees ==> trees[q].height >= 0
    requires IsScanLine(trees, row, West) && forall p :: p in row <==> p in trees && p.row == r
    ensures RowsScanned(original, MarkedAlong(MarkedAlong(trees, row, West, |row|), Reversed(row), East, |row|), r + 1)
  {
    var twice := MarkedAlong(MarkedAlong(trees, row, West, |row|), Reversed(row), East, |row|);
    assert Opposite(West) == East;
    forall p, e | p in original
      ensures twice[p].VisibleFrom(e) ==
        (original[p].VisibleFrom(e) || (p.row < r + 1 && (e == West || e == East) && TallerThanAllTowards(original, p, e)))
    {
      ScanBothWaysAt(trees, row, West, p, e);
      SameHeightsSameView(original, trees, p, e);
    }
  }

  /** Column `c` of a forest whose flags have changed is still a scan line to the north, and
      after that scan its reverse is one to the south. */
  lemma ColumnLine(original: map<Pos, Tree>, trees: map<Pos, Tree>, rows: seq<seq<Pos>>, columns: seq<seq<Pos>>, c: nat)
    requires IsForest(original, rows, columns) && c < |columns| && SameArena(original, trees)
    ensures forall q :: q in trees ==> trees[q].height >= 0
    ensures IsScanLine(trees, columns[c], North) && forall p :: p in columns[c] <==> p in trees && p.column == c
    ensures IsScanLine(MarkedAlong(trees, columns[c], North, |columns[c]|), Reversed(columns[c]), South)
  {
    IsForestKeeps(original, trees, rows, columns);
    ColumnScanLine(trees, rows, columns, c);
    assert Opposite(North) == South;
    ScanLineAfterScan(trees, columns[c], North);
  }

  /** Scanning column `c` from both sides extends the scanned columns by one. */
  lemma ColumnStep(original: map<Pos, Tree>, trees: map<Pos, Tree>, column: seq<Pos>, c: nat)
    requires ColumnsScanned(original, trees, c) && forall q :: q in trees ==> trees[q].height >= 0
    requires IsScanLine(trees, column, North) && forall p :: p in column <==> p in trees && p.column == c
    ensures ColumnsScanned(original, MarkedAlong(MarkedAlong(trees, column, North, |column|), Reversed(column), South, |column|), c + 1)
  {
    var twice := MarkedAlong(MarkedAlong(trees, column, North, |column|), Reversed(column), South, |column|);
    forall p, e | p in original
      ensures twice[p].VisibleFrom(e) ==
        (original[p].VisibleFrom(e) || (((e == West || e == East) || (p.column < c + 1 && (e == North || e == South))) && TallerThanAllTowards(original, p, e)))
    {
      ColumnStepAt(original, trees, column, c, p, e);
    }
  }

  /** One tree and one side of `ColumnStep`. */
  lemma ColumnStepAt(original: map<Pos, Tree>, trees: map<Pos, Tree>, column: seq<Pos>, c: nat, p: Pos, e: Direction)
    requires SameArena(original, trees) && p in original
    requires forall q :: q in trees ==> trees[q].height >= 0
    requires IsScanLine(trees, column, North) && forall q :: q in column <==> q in trees && q.column == c
    requires trees[p].VisibleFrom(e) ==
      (original[p].VisibleFrom(e) || (((e == West || e == East) || (p.column < c && (e == North || e == South))) && TallerThanAllTowards(original, p, e)))
    ensures MarkedAlong(MarkedAlong(trees, column, North, |column|), Reversed(column), South, |column|)[p].VisibleFrom(e) ==
      (original[p].VisibleFrom(e) || (((e == West || e == East) || (p.column < c + 1 && (e == North || e == South))) && TallerThanAllTowards(original, p, e)))
  {
    assert Opposite(North) == South;
    ScanBothWaysAt(trees, column, North, p, e);
    SameHeightsSameView(original, trees, p, e);
  }

  /** The places of a row being read: `Pos(r, 0)` up to `Pos(r, n - 1)`. */
  function RowPlaces(r: nat, n: nat): (row: seq<Pos>)
    ensures |row| == n && forall c :: 0 <= c < n ==> row[c] == Pos(r, c)
  {
    seq(n, c requires 0 <= c => Pos(r, c))
  }

  /** A row placed under the grid extends each column it reaches by its own place. */
  lemma ColumnOfNewRow(rows: seq<seq<Pos>>, row: seq<Pos>, k: nat)
    ensures ColumnOf(rows + [row], k) == ColumnOf(rows, k) + (if k < |row| then [Pos(|rows|, k)] else [])
  {
    assert (rows + [row])[..|rows|] == rows;
  }

  /** A row placed under the grid widens it to its own length at most. */
  lemma WidthOfNewRow(rows: seq<seq<Pos>>, row: seq<Pos>)
    ensures Width(rows + [row]) == if |row| > Width(rows) then |row| else Width(rows)
  {
    assert (rows + [row])[..|rows|] == rows;
  }

  /** One column after one more tree of the row being read: only the column of that tree
      gains its place. */
  lemma ColumnGrows(rows: seq<seq<Pos>>, c: nat, k: nat)
    ensures ColumnOf(rows + [RowPlaces(|rows|, c + 1)], k) ==
      ColumnOf(rows + [RowPlaces(|rows|, c)], k) + (if k == c then [Pos(|rows|, c)] else [])
  {
    ColumnOfNewRow(rows, RowPlaces(|rows|, c), k);
    ColumnOfNewRow(rows, RowPlaces(|rows|, c + 1), k);
    if k != c {
      assert ColumnOf(rows + [RowPlaces(|rows|, c)], k) + [] == ColumnOf(rows + [RowPlaces(|rows|, c)], k);
    }
  }

  /** An empty line adds no tree to any column. */
  lemma ColumnsOfEmptyRow(columns: seq<seq<Pos>>, rows: seq<seq<Pos>>)
    requires ColumnsOfRows(columns, rows)
    ensures ColumnsOfRows(columns, rows + [RowPlaces(|rows|, 0)])
  {
    WidthOfNewRow(rows, RowPlaces(|rows|, 0));
    forall k | 0 <= k < |columns|
      ensures columns[k] == ColumnOf(rows + [RowPlaces(|rows|, 0)], k)
    {
      ColumnOfNewRow(rows, RowPlaces(|rows|, 0), k);
      assert ColumnOf(rows, k) + [] == ColumnOf(rows, k);
    }
  }

  /** `columns` lists the columns of `rows`, one by one. */
  predicate ColumnsOfRows(columns: seq<seq<Pos>>, rows: seq<seq<Pos>>) {
    |columns| == Width(rows) && forall k :: 0 <= k < |columns| ==> columns[k] == ColumnOf(rows, k)
  }

  lemma ColumnsOfRowsAreColumns(columns: seq<seq<Pos>>, rows: seq<seq<Pos>>)
    requires ColumnsOfRows(columns, rows)
    ensures columns == Columns(rows)
  {
  }

  /** The columns once the tree at `place` is read: appended to the column of its index when
      an earlier row reached it, and starting that column otherwise. */
  function WithPlace(columns: seq<seq<Pos>>, place: Pos): seq<seq<Pos>> {
    if place.column < |columns| then columns[place.column := columns[place.column] + [place]]
    else columns + [[place]]
  }

  /** Reading one more tree of the row being read keeps the columns those of the rows. */
  lemma ColumnsGrow(rows: seq<seq<Pos>>, columns: seq<seq<Pos>>, c: nat)
    requires ColumnsOfRows(columns, rows + [RowPlaces(|rows|, c)])
    ensures ColumnsOfRows(WithPlace(columns, Pos(|rows|, c)), rows + [RowPlaces(|rows|, c + 1)])
  {
    var grown := WithPlace(columns, Pos(|rows|, c));
    var after := rows + [RowPlaces(|rows|, c + 1)];
    WidthOfNewRow(rows, RowPlaces(|rows|, c));
    WidthOfNewRow(rows, RowPlaces(|rows|, c + 1));
    if c < |columns| {
      assert |grown| == |columns| == Width(after);
      forall k | 0 <= k < |grown|
        ensures grown[k] == ColumnOf(after, k)
      {
        ColumnGrows(rows, c, k);
      }
    } else {
      assert c == |columns| && |grown| == c + 1 == Width(after);
      forall k | 0 <= k < |grown|
        ensures grown[k] == ColumnOf(after, k)
      {
        ColumnGrows(rows, c, k);
        if k == c {
          ColumnOfBeyondWidth(rows, c);
          ColumnOfNewRow(rows, RowPlaces(|rows|, c), c);
        }
      }
    }
  }

  /** Every tree of the arena is a fresh tree whose height is the digit at its place in the
      lines of the height map. */
  predicate PlantedFrom(trees: map<Pos, Tree>, lines: seq<string>) {
    forall p :: p in trees ==>
      && p.row < |lines| && p.column < |lines[p.row]| && IsDigit(lines[p.row][p.column])
      && trees[p] == NewTree(DigitValue(lines[p.row][p.column]))
  }

  /** Planting the tree read at `Pos(|rows|, c)` extends the row being read by that place. */
  lemma Plant(planted: map<Pos, Tree>, lines: seq<string>, rows: seq<seq<Pos>>, c: nat)
    requires |rows| < |lines| && c < |lines[|rows|]| && IsDigit(lines[|rows|][c])
    requires forall p :: p in planted <==> InGrid(rows + [RowPlaces(|rows|, c)], p)
    requires PlantedFrom(planted, lines)
    ensures var more := planted[Pos(|rows|, c) := NewTree(DigitValue(lines[|rows|][c]))];
      && (forall p :: p in more <==> InGrid(rows + [RowPlaces(|rows|, c + 1)], p))
      && PlantedFrom(more, lines)
  {
  }

  /** What reading line `|rows|` leaves: its places as the new row, the columns of the rows
      with it, and a tree at each place so far. */
  ghost predicate RowRead(planted: map<Pos, Tree>, row: seq<Pos>, grown: seq<seq<Pos>>, rows: seq<seq<Pos>>, lines: seq<string>)
    requires |rows| < |lines|
  {
    && row == RowPlaces(|rows|, |lines[|rows|]|) && ColumnsOfRows(grown, rows + [row])
    && (forall p :: p in planted <==> InGrid(rows + [row], p))
    && PlantedFrom(planted, lines)
  }

  /** One line of `parseForest(from:)`: each character becomes a fresh tree at the next place
      of row `r`, appended to its column; the read traps on a character that is not a digit. */
  method ReadRow(lines: seq<string>, r: nat, rows: seq<seq<Pos>>, trees: map<Pos, Tree>, columns: seq<seq<Pos>>)
    returns (result: Result<(map<Pos, Tree>, seq<Pos>, seq<seq<Pos>>)>)
    requires r < |lines| && |rows| == r && ColumnsOfRows(columns, rows)
    requires forall p :: p in trees <==> InGrid(rows, p)
    requires PlantedFrom(trees, lines)
    ensures result.Ok? <==> AllDigits(lines[r])
    ensures result.Fatal? ==> result.message == NilUnwrap
    ensures result.Ok? ==> RowRead(result.value.0, result.value.1, result.value.2, rows, lines)
  {
    var line := lines[r];
    var planted := trees;
    var grown := columns;
    var currentRow: seq<Pos> := [];
    ColumnsOfEmptyRow(columns, rows);
    assert forall p :: InGrid(rows + [RowPlaces(r, 0)], p) <==> InGrid(rows, p);
    for c := 0 to |line|
      invariant currentRow == RowPlaces(r, c) && ColumnsOfRows(grown, rows + [currentRow])
      invariant forall i :: 0 <= i < c ==> IsDigit(line[i])
      invariant forall p :: p in planted <==> InGrid(rows + [currentRow], p)
      invariant PlantedFrom(planted, lines)
    {
      if !IsDigit(line[c]) {
        return Fatal(NilUnwrap);
      }
      var place := Pos(r, c);
      Plant(planted, lines, rows, c);
      planted := planted[place := NewTree(DigitValue(line[c]))];
      ColumnsGrow(rows, grown, c);
      currentRow := currentRow + [place];
      assert currentRow == RowPlaces(r, c + 1);
      if c < |grown| {
        grown := grown[c := grown[c] + [place]];
      } else {
        grown := grown + [[place]];
      }
    }
    result := Ok((planted, currentRow, grown));
  }

  /** Every line of the height map is made of digits only. */
  predicate IsHeightMap(lines: seq<string>) {
    forall i :: 0 <= i < |lines| ==> AllDigits(lines[i])
  }

  /** The forest read from `lines`: a forest of fresh trees laid out exactly as the lines,
      each with the height of its digit. */
  ghost predicate ParsedFrom(trees: map<Pos, Tree>, rows: seq<seq<Pos>>, columns: seq<seq<Pos>>, lines: seq<string>) {
    && IsForest(trees, rows, columns)
    && |rows| == |lines| && (forall i :: 0 <= i < |lines| ==> |rows[i]| == |lines[i]|)
    && PlantedFrom(trees, lines)
  }

  /** `parseForest(from:)`: one row per line of the height map, one tree per character, each
      character read as a one-digit height; the parse traps on any other character. The
      result is a forest of fresh trees, laid out exactly as the lines. */
  method ParseForest(heightMap: string) returns (result: Result<(map<Pos, Tree>, seq<seq<Pos>>, seq<seq<Pos>>)>)
    ensures result.Ok? <==> IsHeightMap(Split(heightMap, "\n"))
    ensures result.Fatal? ==> result.message == NilUnwrap
    ensures result.Ok? ==> ParsedFrom(result.value.0, result.value.1, result.value.2, Split(heightMap, "\n"))
  {
    var lines := Split(heightMap, "\n");
    var trees: map<Pos, Tree> := map[];
    var rows: seq<seq<Pos>> := [];
    var columns: seq<seq<Pos>> := [];
    for r := 0 to |lines|
      invariant |rows| == r && IsGrid(rows) && ColumnsOfRows(columns, rows)
      invariant forall i :: 0 <= i < r ==> |rows[i]| == |lines[i]| && AllDigits(lines[i])
      invariant forall p :: p in trees <==> InGrid(rows, p)
      invariant PlantedFrom(trees, lines)
    {
      var read := ReadRow(lines, r, rows, trees, columns);
      if read.Fatal? {
        return Fatal(read.message);
      }
      var (planted, row, grown) := read.value;
      trees, rows, columns := planted, rows + [row], grown;
    }
    ColumnsOfRowsAreColumns(columns, rows);
    result := Ok((trees, rows, columns));
  }

  /** Every place of the rows holds a tree of one-digit height, so each prints as one digit. */
  predicate Printable(trees: map<Pos, Tree>, rows: seq<seq<Pos>>) {
    forall r, i :: 0 <= r < |rows| && 0 <= i < |rows[r]| ==> rows[r][i] in trees && 0 <= trees[rows[r][i]].height <= 9
  }

  /** The heights of a row as digits: the `description` of each of its trees in turn. */
  function RowText(trees: map<Pos, Tree>, row: seq<Pos>): (text: string)
    requires forall i :: 0 <= i < |row| ==> row[i] in trees && 0 <= trees[row[i]].height <= 9
    ensures |text| == |row| && AllDigits(text)
    ensures forall i :: 0 <= i < |row| ==> DigitValue(text[i]) == trees[row[i]].height
  {
    seq(|row|, i requires 0 <= i < |row| => DigitChar(trees[row[i]].height))
  }

  /** One more tree of a row prints one more digit. */
  lemma RowTextStep(trees: map<Pos, Tree>, row: seq<Pos>, i: nat)
    requires i < |row| && forall j :: 0 <= j < |row| ==> row[j] in trees && 0 <= trees[row[j]].height <= 9
    ensures RowText(trees, row[..i + 1]) == RowText(trees, row[..i]) + [DigitChar(trees[row[i]].height)]
  {
  }

  /** `description`: each row's digits followed by a line break. */
  function DescriptionOf(trees: map<Pos, Tree>, rows: seq<seq<Pos>>): string
    requires Printable(trees, rows)
  {
    if |rows| == 0 then ""
    else RowText(trees, rows[0]) + "\n" + DescriptionOf(trees, rows[1..])
  }

  /** The description grows a row at a time. */
  lemma {:induction false} DescriptionOfAppend(trees: map<Pos, Tree>, rows: seq<seq<Pos>>, row: seq<Pos>)
    requires Printable(trees, rows + [row])
    ensures Printable(trees, rows)
    ensures forall i :: 0 <= i < |row| ==> row[i] in trees && 0 <= trees[row[i]].height <= 9
    ensures DescriptionOf(trees, rows + [row]) == DescriptionOf(trees, rows) + RowText(trees, row) + "\n"
  {
    var all := rows + [row];
    PrintableAppend(trees, rows, row);
    if |rows| > 0 {
      assert all[0] == rows[0];
      assert all[1..] == rows[1..] + [row];
      assert Printable(trees, rows[1..]) by {
        assert forall r :: 0 <= r < |rows| - 1 ==> rows[1..][r] == rows[r + 1];
      }
      PrintableAppend(trees, rows[1..], row);
      DescriptionOfAppend(trees, rows[1..], row);
      assert DescriptionOf(trees, all) == RowText(trees, rows[0]) + "\n" + DescriptionOf(trees, rows[1..] + [row]);
    }
  }

  /** The rows and the last row of printable rows are printable. */
  lemma PrintableAppend(trees: map<Pos, Tree>, rows: seq<seq<Pos>>, row: seq<Pos>)
    ensures Printable(trees, rows + [row]) <==>
      Printable(trees, rows) && forall i :: 0 <= i < |row| ==> row[i] in trees && 0 <= trees[row[i]].height <= 9
  {
    assert forall r :: 0 <= r < |rows| ==> (rows + [row])[r] == rows[r];
    assert (rows + [row])[|rows|] == row;
  }

  /** Rows that print as the lines describe themselves as the lines joined by line breaks,
      with one more at the end. */
  lemma {:induction false} DescriptionOfLines(trees: map<Pos, Tree>, rows: seq<seq<Pos>>, lines: seq<string>)
    requires Printable(trees, rows) && |rows| == |lines| >= 1
    requires forall r :: 0 <= r < |rows| ==> RowText(trees, rows[r]) == lines[r]
    ensures DescriptionOf(trees, rows) == Join(lines, "\n") + "\n"
  {
    if |rows| > 1 {
      DescriptionOfLines(trees, rows[1..], lines[1..]);
    }
  }

  /** A parsed forest prints back as its height map with a final line break. */
  lemma ParsedDescription(trees: map<Pos, Tree>, rows: seq<seq<Pos>>, columns: seq<seq<Pos>>, heightMap: string)
    requires ParsedFrom(trees, rows, columns, Split(heightMap, "\n"))
    ensures Printable(trees, rows)
    ensures DescriptionOf(trees, rows) == heightMap + "\n"
  {
    var lines := Split(heightMap, "\n");
    forall r | 0 <= r < |rows|
      ensures RowText(trees, rows[r]) == lines[r]
    {
      forall i | 0 <= i < |rows[r]|
        ensures RowText(trees, rows[r])[i] == lines[r][i]
      {
        assert InGrid(rows, Pos(r, i));
        DigitCharOfValue(lines[r][i]);
      }
    }
    DescriptionOfLines(trees, rows, lines);
    SplitJoin(heightMap, "\n");
  }

  /** The loop of one scan of `calculateVisibility` over the arena: walking `line` from its
      first tree, each tree taller than all before it is marked visible from `d`; the scan
      stops after a tree of height 9, which no later tree can be taller than. */
  method ScanAlong(trees: map<Pos, Tree>, line: seq<Pos>, d: Direction) returns (marked: map<Pos, Tree>)
    requires AllDistinct(line)
    requires forall i :: 0 <= i < |line| ==> line[i] in trees && trees[line[i]].height <= 9
    ensures marked == MarkedAlong(trees, line, d, |line|)
  {
    marked := trees;
    ghost var heights := Heights(trees, line);
    var tallest := -1;
    for k := 0 to |line|
      invariant marked == MarkedAlong(trees, line, d, k)
      invariant tallest == Tallest(heights[..k])
    {
      var tree := marked[line[k]];
      MarkedAlongStep(trees, line, d, k);
      if tree.height > tallest {
        marked := marked[line[k] := tree.MarkVisibleFrom(d)];
        tallest := tree.height;
      }
      if tree.height == 9 {
        MarkedAlongStopsAtNine(trees, line, d, k, |line|);
        break;
      }
    }
  }

  /** `Forest`: the tree arena with its rows and columns. The visibility flags of the trees
      are updated in place. */
  class Forest {
    var trees: map<Pos, Tree>
    var rows: seq<seq<Pos>>
    var columns: seq<seq<Pos>>

    ghost predicate Valid()
      reads this
    {
      IsForest(trees, rows, columns)
    }

    constructor (trees: map<Pos, Tree>, rows: seq<seq<Pos>>, columns: seq<seq<Pos>>)
      requires IsForest(trees, rows, columns)
      ensures Valid()
      ensures this.trees == trees && this.rows == rows && this.columns == columns
    {
      this.trees := trees;
      this.rows := rows;
      this.columns := columns;
    }

    /** `description`: the heights of the trees, row by row, each row ending in a line break. */
    method Description() returns (desc: string)
      requires Valid()
      ensures Printable(trees, rows) && desc == DescriptionOf(trees, rows)
    {
      desc := "";
      assert Printable(trees, rows);
      for r := 0 to |rows|
        invariant Printable(trees, rows[..r]) && desc == DescriptionOf(trees, rows[..r])
      {
        assert Printable(trees, rows[..r + 1]);
        var row := rows[r];
        assert rows[..r + 1] == rows[..r] + [row];
        DescriptionOfAppend(trees, rows[..r], row);
        var text := RowDescription(row);
        desc := desc + text + "\n";
      }
      assert rows[..|rows|] == rows;
    }

    /** The inner loop of `description`: the digits of one row's trees in turn. */
    method RowDescription(row: seq<Pos>) returns (text: string)
      requires forall i :: 0 <= i < |row| ==> row[i] in trees && 0 <= trees[row[i]].height <= 9
      ensures text == RowText(trees, row)
    {
      text := "";
      for i := 0 to |row|
        invariant text == RowText(trees, row[..i])
      {
        RowTextStep(trees, row, i);
        text := text + [DigitChar(trees[row[i]].height)];
      }
      assert row[..|row|] == row;
    }

    /** `calculateSightDistance(in:)`: walk the links from the tree, counting each tree met,
        until the edge or a tree at least as tall. */
    method SightDistance(p: Pos, d: Direction) returns (distance: nat)
      requires Valid() && p in trees
      ensures distance == SightDistanceOf(trees, rows, p, d)
    {
      var height := trees[p].height;
      distance := 0;
      var next := Next(rows, p, d);
      while next.Some?
        invariant next.Some? ==> InGrid(rows, next.value)
        invariant SightDistanceOf(trees, rows, p, d) == distance + ViewFrom(trees, rows, height, next, d)
        decreases if next.Some? then Remaining(rows, next.value, d) + 1 else 0
      {
        distance := distance + 1;
        ViewFromStep(trees, rows, height, next.value, d);
        if height > trees[next.value].height {
          next := Next(rows, next.value, d);
        } else {
          break;
        }
      }
    }

    /** `scenicScore`: the product of the four sight distances. */
    method ScenicScore(p: Pos) returns (score: nat)
      requires Valid() && p in trees
      ensures score == ScenicScoreOf(trees, rows, p)
    {
      var north := SightDistance(p, North);
      var south := SightDistance(p, South);
      var east := SightDistance(p, East);
      var west := SightDistance(p, West);
      score := Product([north, south, east, west]);
    }

    /** One scan of `calculateVisibility`, updating the forest's trees in place. */
    method MarkVisibleAlong(line: seq<Pos>, d: Direction)
      requires AllDistinct(line)
      requires forall i :: 0 <= i < |line| ==> line[i] in trees && trees[line[i]].height <= 9
      modifies this
      ensures trees == MarkedAlong(old(trees), line, d, |line|)
      ensures rows == old(rows) && columns == old(columns)
    {
      trees := ScanAlong(trees, line, d);
    }

    /** `calculateVisibility`: every row is scanned from the west and from the east, then every
        column from the north and from the south. Afterwards a tree is visible from a side
        when it was before or is taller than every tree between it and that edge; heights,
        rows and columns do not change. */
    method CalculateVisibility()
      requires Valid()
      modifies this
      ensures Valid() && rows == old(rows) && columns == old(columns) && SameArena(old(trees), trees)
      ensures forall p, d :: p in trees ==>
        trees[p].VisibleFrom(d) == (old(trees[p].VisibleFrom(d)) || TallerThanAllTowards(trees, p, d))
      ensures forall p, d :: p in trees && Next(rows, p, d).None? ==> trees[p].VisibleFrom(d)
    {
      for r := 0 to |rows|
        invariant rows == old(rows) && columns == old(columns)
        invariant RowsScanned(old(trees), trees, r)
      {
        RowLine(old(trees), trees, rows, columns, r);
        RowStep(old(trees), trees, rows[r], r);
        MarkVisibleAlong(rows[r], West);
        MarkVisibleAlong(Reversed(rows[r]), East);
      }
      for c := 0 to |columns|
        invariant rows == old(rows) && columns == old(columns)
        invariant ColumnsScanned(old(trees), trees, c)
      {
        ColumnLine(old(trees), trees, rows, columns, c);
        ColumnStep(old(trees), trees, columns[c], c);
        MarkVisibleAlong(columns[c], North);
        MarkVisibleAlong(Reversed(columns[c]), South);
      }
      IsForestKeeps(old(trees), trees, rows, columns);
      forall p, d | p in trees
        ensures trees[p].VisibleFrom(d) == (old(trees[p].VisibleFrom(d)) || TallerThanAllTowards(trees, p, d))
      {
        assert p.column < |columns| by {
          assert InGrid(rows, p);
        }
        SameHeightsSameView(old(trees), trees, p, d);
      }
    }
  }

  /** `init(from:)`: a forest read from a height map, every tree still unflagged; reading a
      character that is not a digit traps. */
  method NewForest(heightMap: string) returns (result: Result<Forest>)
    ensures result.Ok? <==> IsHeightMap(Split(heightMap, "\n"))
    ensures result.Fatal? ==> result.message == NilUnwrap
    ensures result.Ok? ==> fresh(result.value) && result.value.Valid()
    ensures result.Ok? ==>
      ParsedFrom(result.value.trees, result.value.rows, result.value.columns, Split(heightMap, "\n"))
  {
    var parsed := ParseForest(heightMap);
    if parsed.Fatal? {
      return Fatal(parsed.message);
    }
    var forest := new Forest(parsed.value.0, parsed.value.1, parsed.value.2);
    return Ok(forest);
  }
}
