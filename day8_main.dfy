/** Day 8, Treetop Tree House: the two answers. Part one counts the trees visible from
    outside the grid; part two finds the best scenic score. */
module Day8 {
  import opened Wrappers
  import opened Text
  import opened Day8Tree
  import opened Sums
  import opened Day8Forest

  /** The places of the trees that can be seen from outside the grid. */
  ghost function VisiblePlaces(trees: map<Pos, Tree>): set<Pos> {
    set p | p in trees && trees[p].Visible()
  }

  /** The inner `reduce` of `partOne`: how many trees of `row` are visible. */
  function VisibleInRow(trees: map<Pos, Tree>, row: seq<Pos>): nat
    requires forall i :: 0 <= i < |row| ==> row[i] in trees
  {
    if |row| == 0 then 0
    else VisibleInRow(trees, row[..|row| - 1]) + (if trees[row[|row| - 1]].Visible() then 1 else 0)
  }

  /** The outer `reduce` of `partOne`: the visible trees of every row. */
  function VisibleInRows(trees: map<Pos, Tree>, rows: seq<seq<Pos>>): nat
    requires forall r, i :: 0 <= r < |rows| && 0 <= i < |rows[r]| ==> rows[r][i] in trees
  {
    if |rows| == 0 then 0
    else VisibleInRows(trees, rows[..|rows| - 1]) + VisibleInRow(trees, rows[|rows| - 1])
  }

  /** The visible places among the first `m` of row `r`. */
  ghost function VisibleInRowPrefix(trees: map<Pos, Tree>, r: nat, m: nat): set<Pos> {
    set p | p in trees && p.row == r && p.column < m && trees[p].Visible()
  }

  /** The visible places above row `k`. */
  ghost function VisibleAbove(trees: map<Pos, Tree>, k: nat): set<Pos> {
    set p | p in trees && p.row < k && trees[p].Visible()
  }

  /** One more place of a row adds it to the visible places when it is visible. */
  lemma VisibleInRowPrefixStep(trees: map<Pos, Tree>, r: nat, m: nat)
    requires m > 0
    ensures var last := Pos(r, m - 1);
      && last !in VisibleInRowPrefix(trees, r, m - 1)
      && VisibleInRowPrefix(trees, r, m) ==
        VisibleInRowPrefix(trees, r, m - 1) + (if last in trees && trees[last].Visible() then {last} else {})
  {
  }

  /** One more row adds its visible places, none of them counted before. */
  lemma VisibleAboveStep(trees: map<Pos, Tree>, k: nat, width: nat)
    requires k > 0 && forall p :: p in trees && p.row == k - 1 ==> p.column < width
    ensures VisibleAbove(trees, k) == VisibleAbove(trees, k - 1) + VisibleInRowPrefix(trees, k - 1, width)
    ensures VisibleAbove(trees, k - 1) !! VisibleInRowPrefix(trees, k - 1, width)
  {
  }

  /** The first `m` trees of row `r` contribute exactly their visible places. */
  lemma {:induction false} VisibleInRowCounts(trees: map<Pos, Tree>, rows: seq<seq<Pos>>, r: nat, m: nat)
    requires IsGrid(rows) && (forall p :: p in trees <==> InGrid(rows, p))
    requires r < |rows| && m <= |rows[r]|
    requires forall i :: 0 <= i < |rows[r]| ==> rows[r][i] in trees
    ensures VisibleInRow(trees, rows[r][..m]) == |VisibleInRowPrefix(trees, r, m)|
  {
    if m == 0 {
      assert VisibleInRowPrefix(trees, r, m) == {};
    } else {
      VisibleInRowCounts(trees, rows, r, m - 1);
      assert rows[r][..m][..m - 1] == rows[r][..m - 1];
      assert rows[r][..m][m - 1] == Pos(r, m - 1);
      VisibleInRowPrefixStep(trees, r, m);
    }
  }

  /** The first `k` rows contribute exactly the visible places above row `k`. */
  lemma {:induction false} VisibleInRowsCounts(trees: map<Pos, Tree>, rows: seq<seq<Pos>>, k: nat)
    requires IsGrid(rows) && (forall p :: p in trees <==> InGrid(rows, p))
    requires k <= |rows|
    requires forall r, i :: 0 <= r < |rows| && 0 <= i < |rows[r]| ==> rows[r][i] in trees
    ensures VisibleInRows(trees, rows[..k]) == |VisibleAbove(trees, k)|
  {
    if k == 0 {
      assert VisibleAbove(trees, k) == {};
    } else {
      VisibleInRowsCounts(trees, rows, k - 1);
      VisibleInRowCounts(trees, rows, k - 1, |rows[k - 1]|);
      assert rows[..k][..k - 1] == rows[..k - 1];
      assert rows[..k][k - 1] == rows[k - 1];
      assert rows[k - 1][..|rows[k - 1]|] == rows[k - 1];
      VisibleAboveStep(trees, k, |rows[k - 1]|);
    }
  }

  /** `partOne`: the number of visible trees, counted row by row; it is the number of
      visible places, so at most the number of trees. */
  function PartOne(forest: Forest): (count: nat)
    reads forest
    requires forest.Valid()
    ensures count == |VisiblePlaces(forest.trees)|
    ensures count <= |forest.trees|
  {
    var trees := forest.trees;
    var rows := forest.rows;
    assert forall r, i :: 0 <= r < |rows| && 0 <= i < |rows[r]| ==> InGrid(rows, rows[r][i]);
    assert forall r, i :: 0 <= r < |rows| && 0 <= i < |rows[r]| ==> rows[r][i] in trees;
    VisibleInRowsCounts(trees, rows, |rows|);
    assert rows[..|rows|] == rows;
    assert VisibleAbove(trees, |rows|) == VisiblePlaces(trees);
    assert VisiblePlaces(trees) <= trees.Keys;
    SubsetCard(VisiblePlaces(trees), trees.Keys);
    VisibleInRows(trees, rows)
  }

  /** A subset is no larger than the set that holds it. */
  lemma SubsetCard<T>(a: set<T>, b: set<T>)
    requires a <= b
    ensures |a| <= |b|
  {
    assert b == a + (b - a);
  }

  /** `flatMap { $0 }`: the places of all rows, row by row. */
  function Flatten(rows: seq<seq<Pos>>): (places: seq<Pos>)
    ensures forall p :: p in places <==> exists r :: 0 <= r < |rows| && p in rows[r]
  {
    if |rows| == 0 then []
    else
      var front := Flatten(rows[..|rows| - 1]);
      assert forall r :: 0 <= r < |rows| - 1 ==> rows[..|rows| - 1][r] == rows[r];
      front + rows[|rows| - 1]
  }

  /** The places of a grid flattened are exactly its places. */
  lemma FlattenGrid(rows: seq<seq<Pos>>)
    requires IsGrid(rows)
    ensures forall p :: p in Flatten(rows) <==> InGrid(rows, p)
  {
    forall p | InGrid(rows, p)
      ensures p in Flatten(rows)
    {
      assert rows[p.row][p.column] == p;
    }
  }

  /** The flattened rows of a forest list exactly its trees. */
  lemma PlacesOfForest(trees: map<Pos, Tree>, rows: seq<seq<Pos>>)
    requires IsGrid(rows) && forall p :: p in trees <==> InGrid(rows, p)
    ensures forall p :: p in trees <==> p in Flatten(rows)
    ensures forall i :: 0 <= i < |Flatten(rows)| ==> InGrid(rows, Flatten(rows)[i])
    ensures |Flatten(rows)| == 0 <==> |trees| == 0
  {
    var places := Flatten(rows);
    FlattenGrid(rows);
    if |places| == 0 {
      assert trees.Keys == {} by {
        assert forall p :: p in trees ==> p in places;
      }
    } else {
      assert places[0] in trees;
    }
  }

  /** The scenic score of every tree. */
  ghost function ScoreMap(trees: map<Pos, Tree>, rows: seq<seq<Pos>>): (scores: map<Pos, nat>)
    requires forall p :: p in trees <==> InGrid(rows, p)
    ensures scores.Keys == trees.Keys
  {
    map p | p in trees :: ScenicScoreOf(trees, rows, p)
  }

  /** `score` is one of the values of `scores`, and no value is larger. */
  ghost predicate IsMaxValue(scores: map<Pos, nat>, score: nat) {
    && (exists p :: p in scores && scores[p] == score)
    && (forall p :: p in scores ==> scores[p] <= score)
  }

  /** `score` is the scenic score of some tree, and no tree has a better one. */
  ghost predicate IsBestScore(trees: map<Pos, Tree>, rows: seq<seq<Pos>>, score: nat)
    requires forall p :: p in trees <==> InGrid(rows, p)
  {
    IsMaxValue(ScoreMap(trees, rows), score)
  }

  /** Marking trees visible changes no scenic score, so not the best one either. */
  lemma SameHeightsSameBest(before: map<Pos, Tree>, after: map<Pos, Tree>, rows: seq<seq<Pos>>, score: nat)
    requires SameArena(before, after) && forall p :: p in before <==> InGrid(rows, p)
    ensures IsBestScore(before, rows, score) == IsBestScore(after, rows, score)
  {
    var b, a := ScoreMap(before, rows), ScoreMap(after, rows);
    forall p | p in before
      ensures b[p] == a[p]
    {
      SameHeightsSameScore(before, after, rows, p);
    }
    SameValuesSameMax(b, a, score);
  }

  /** Two maps with the same keys and values have the same maximum. */
  lemma SameValuesSameMax(b: map<Pos, nat>, a: map<Pos, nat>, score: nat)
    requires b.Keys == a.Keys && forall p :: p in b ==> b[p] == a[p]
    ensures IsMaxValue(b, score) == IsMaxValue(a, score)
  {
    if IsMaxValue(b, score) {
      var p :| p in b && b[p] == score;
      assert a[p] == score;
    }
    if IsMaxValue(a, score) {
      var p :| p in a && a[p] == score;
      assert b[p] == score;
    }
  }

  /** The scores of `places`, in order: what `max(by:)` compares. */
  function ScoresOf(score: Pos -> nat, places: seq<Pos>): (scores: seq<nat>)
    ensures |scores| == |places|
    ensures forall i :: 0 <= i < |places| ==> scores[i] == score(places[i])
  {
    seq(|places|, i requires 0 <= i < |places| => score(places[i]))
  }

  /** `max(by:)`: the index of the first score that no other score beats. */
  function FirstMax(scores: seq<nat>): (i: nat)
    requires |scores| > 0
    ensures i < |scores|
    ensures forall j :: 0 <= j < |scores| ==> scores[j] <= scores[i]
    ensures forall j :: 0 <= j < i ==> scores[j] < scores[i]
  {
    if |scores| == 1 then 0
    else
      var front := scores[..|scores| - 1];
      assert forall j :: 0 <= j < |front| ==> front[j] == scores[j];
      var i := FirstMax(front);
      if scores[i] < scores[|scores| - 1] then |scores| - 1 else i
  }

  /** `v` is the score of one of `places`, and no place scores more. */
  ghost predicate IsMaxAt(score: Pos -> nat, places: seq<Pos>, v: nat) {
    && (exists i :: 0 <= i < |places| && v == score(places[i]))
    && (forall i :: 0 <= i < |places| ==> score(places[i]) <= v)
  }

  /** `max(by:)` on `places` compared by `score`, then that score. */
  function BestOf(score: Pos -> nat, places: seq<Pos>): (v: nat)
    requires |places| > 0
    ensures IsMaxAt(score, places, v)
  {
    var scores := ScoresOf(score, places);
    var i := FirstMax(scores);
    scores[i]
  }

  /** The largest scenic score of a listing of every tree is the best score of any tree. */
  lemma BestOfListing(trees: map<Pos, Tree>, rows: seq<seq<Pos>>, score: Pos -> nat, places: seq<Pos>, v: nat)
    requires forall p :: p in trees <==> InGrid(rows, p)
    requires forall p :: p in trees ==> score(p) == ScenicScoreOf(trees, rows, p)
    requires forall p :: p in trees <==> p in places
    requires IsMaxAt(score, places, v)
    ensures IsBestScore(trees, rows, v)
  {
    var m := ScoreMap(trees, rows);
    var best :| 0 <= best < |places| && v == score(places[best]);
    assert places[best] in m && m[places[best]] == v;
    forall p | p in m
      ensures m[p] <= v
    {
      var i :| 0 <= i < |places| && places[i] == p;
    }
  }

  /** `partTwo`: the best scenic score of any tree. The force-unwrap of `max(by:)` traps on a
      forest without trees. */
  function PartTwo(forest: Forest): (score: Result<nat>)
    reads forest
    requires forest.Valid()
    ensures score.Fatal? <==> |forest.trees| == 0
    ensures score.Fatal? ==> score.message == NilUnwrap
    ensures score.Ok? ==> IsBestScore(forest.trees, forest.rows, score.value)
  {
    var trees := forest.trees;
    var rows := forest.rows;
    var places := Flatten(rows);
    PlacesOfForest(trees, rows);
    if |places| == 0 then
      Fatal(NilUnwrap)
    else
      var score := (p: Pos) => if InGrid(rows, p) then ScenicScoreOf(trees, rows, p) else 0;
      var best := BestOf(score, places);
      BestOfListing(trees, rows, score, places, best);
      Ok(best)
  }

  /** Some line of the height map holds a tree. */
  predicate HasTree(lines: seq<string>) {
    exists i :: 0 <= i < |lines| && |lines[i]| > 0
  }

  /** A parsed forest has a tree exactly when some line of its height map is not empty. */
  lemma ParsedHasTree(trees: map<Pos, Tree>, rows: seq<seq<Pos>>, columns: seq<seq<Pos>>, lines: seq<string>)
    requires ParsedFrom(trees, rows, columns, lines)
    ensures HasTree(lines) <==> |trees| > 0
  {
    if HasTree(lines) {
      var i :| 0 <= i < |lines| && |lines[i]| > 0;
      assert InGrid(rows, Pos(i, 0));
    }
    if |trees| > 0 {
      var p := Pick(trees.Keys);
      assert lines[p.row][p.column] == lines[p.row][p.column];
    }
  }

  /** The trees a scan marks: those taller than every tree between them and some edge. */
  ghost function SeenPlaces(trees: map<Pos, Tree>): set<Pos> {
    set p | p in trees && exists d :: TallerThanAllTowards(trees, p, d)
  }

  /** After `calculateVisibility` on freshly planted trees, the visible trees are the ones some edge sees. */
  lemma ScannedVisible(planted: map<Pos, Tree>, scanned: map<Pos, Tree>)
    requires SameArena(planted, scanned)
    requires forall p, d :: p in planted ==> !planted[p].VisibleFrom(d)
    requires forall p, d :: p in scanned ==>
      scanned[p].VisibleFrom(d) == (planted[p].VisibleFrom(d) || TallerThanAllTowards(scanned, p, d))
    ensures VisiblePlaces(scanned) == SeenPlaces(planted)
  {
    forall p | p in planted
      ensures scanned[p].Visible() <==> exists d :: TallerThanAllTowards(planted, p, d)
    {
      VisibleFromSomeDirection(scanned[p]);
      forall d ensures TallerThanAllTowards(planted, p, d) == TallerThanAllTowards(scanned, p, d) {
        SameHeightsSameView(planted, scanned, p, d);
      }
    }
  }

  /** `one` and `two` are the answers for the forest parsed from `lines`: the number of trees
      some edge sees and the best scenic score of any tree. */
  ghost predicate Answered(trees: map<Pos, Tree>, rows: seq<seq<Pos>>, columns: seq<seq<Pos>>, lines: seq<string>,
                           one: nat, two: nat)
  {
    && ParsedFrom(trees, rows, columns, lines)
    && one == |SeenPlaces(trees)|
    && IsBestScore(trees, rows, two)
  }

  /** `main` without the input file and the printing: read the height map, work out the
      visibility, and give both answers. Part one counts the trees taller than every tree
      between them and some edge; part two is the best scenic score. */
  method Answers(heightMap: string) returns (result: Result<(nat, nat)>)
    ensures result.Ok? <==> IsHeightMap(Split(heightMap, "\n")) && HasTree(Split(heightMap, "\n"))
    ensures result.Fatal? ==> result.message == NilUnwrap
    ensures result.Ok? ==> exists trees: map<Pos, Tree>, rows: seq<seq<Pos>>, columns: seq<seq<Pos>> ::
      Answered(trees, rows, columns, Split(heightMap, "\n"), result.value.0, result.value.1)
  {
    var read := NewForest(heightMap);
    if read.Fatal? {
      return Fatal(read.message);
    }
    var forest := read.value;
    ghost var lines := Split(heightMap, "\n");
    ghost var trees, rows, columns := forest.trees, forest.rows, forest.columns;
    forest.CalculateVisibility();
    var one := PartOne(forest);
    var two := PartTwo(forest);
    ParsedHasTree(trees, rows, columns, lines);
    if two.Fatal? {
      return Fatal(two.message);
    }
    ScannedVisible(trees, forest.trees);
    SameHeightsSameBest(trees, forest.trees, rows, two.value);
    assert Answered(trees, rows, columns, lines, one, two.value);
    result := Ok((one, two.value));
  }
}
