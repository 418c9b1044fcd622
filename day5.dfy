/** Day 5, supply stacks (day-5/main.swift): crate stacks drawn as text are parsed, then a
    crane moves crates between them, one at a time (CrateMover 9000) or several at once
    (CrateMover 9001). Stacks are values, as the source's structs are: an operation that
    mutates a stack in place returns the updated stack here. */
module Day5 {
  import opened Wrappers
  import opened Text
  import opened Sums
  import opened Sequences

  datatype Crate = Crate(name: char)

  /** A stack of crates; the top crate is at index 0. */
  datatype CrateStack = CrateStack(stackLabel: int, crates: seq<Crate>) {
    /** `topCrate`: the crate at the top, if there is one. */
    function TopCrate(): (top: Option<Crate>)
      ensures top.Some? <==> |crates| > 0
      ensures top.Some? ==> top.value == crates[0]
    {
      if |crates| == 0 then None else Some(crates[0])
    }

    /** `emplace(_:)`: the crate becomes the top one; the crates below are those of before. */
    function Emplace(crate: Crate): (stack: CrateStack)
      ensures stack.TopCrate() == Some(crate)
      ensures stack.stackLabel == stackLabel && stack.crates[1..] == crates
    {
      this.(crates := [crate] + crates)
    }

    /** `reclaim()`: the top crate and the stack without it; `removeFirst` demands a crate. */
    function Reclaim(): (taken: (Crate, CrateStack))
      requires |crates| > 0
      ensures Some(taken.0) == TopCrate()
      ensures taken.1.stackLabel == stackLabel && [taken.0] + taken.1.crates == crates
    {
      (crates[0], this.(crates := crates[1..]))
    }

    /** `emplaceMultiple(crates:)`: the crates go on one at a time, so the last ends on top. */
    method EmplaceMultiple(cs: seq<Crate>) returns (stack: CrateStack)
      ensures stack == this.(crates := Reversed(cs) + crates)
    {
      stack := this;
      for i := 0 to |cs|
        invariant stack == this.(crates := Reversed(cs[..i]) + crates)
      {
        assert cs[..i + 1][..i] == cs[..i];
        assert Reversed(cs[..i + 1]) == [cs[i]] + Reversed(cs[..i]);
        stack := stack.Emplace(cs[i]);
        assert stack.crates == [cs[i]] + (Reversed(cs[..i]) + crates);
      }
      assert cs[..|cs|] == cs;
    }

    /** `emplaceMultipleEnBloc(crates:)`: the crates go on keeping their order. */
    method EmplaceMultipleEnBloc(cs: seq<Crate>) returns (stack: CrateStack)
      ensures stack == this.(crates := cs + crates)
    {
      stack := EmplaceMultiple(Reversed(cs));
      ReversedTwice(cs);
    }

    /** `reclaimMultiple(_:)`: the top `k` crates, top first, and the stack of the rest; `k`
        must not exceed the number of crates. */
    method ReclaimMultiple(k: int) returns (reclaimed: seq<Crate>, stack: CrateStack)
      requires 0 <= k <= |crates|
      ensures reclaimed == crates[..k]
      ensures stack == this.(crates := crates[k..])
    {
      reclaimed := [];
      stack := this;
      for i := 0 to k
        invariant reclaimed == crates[..i]
        invariant stack == this.(crates := crates[i..])
      {
        var crate;
        crate, stack := stack.Reclaim().0, stack.Reclaim().1;
        assert crates[..i + 1] == crates[..i] + [crates[i]];
        reclaimed := reclaimed + [crate];
      }
    }
  }

  /** Putting a crate on and taking the top one off gives the crate and the stack back. */
  lemma EmplaceThenReclaim(stack: CrateStack, crate: Crate)
    ensures stack.Emplace(crate).Reclaim() == (crate, stack)
  {
    assert ([crate] + stack.crates)[1..] == stack.crates;
  }

  /** Taking `k` crates off and putting them back on en bloc restores the stack. */
  method ReclaimThenEmplaceEnBloc(stack: CrateStack, k: nat) returns (back: CrateStack)
    requires k <= |stack.crates|
    ensures back == stack
  {
    var reclaimed, rest := stack.ReclaimMultiple(k);
    back := rest.EmplaceMultipleEnBloc(reclaimed);
    assert stack.crates[..k] + stack.crates[k..] == stack.crates;
  }

  /** `CraneProcedure`: move `nCrates` crates from the stack labelled `fromStack` to the one
      labelled `toStack`. */
  datatype CraneProcedure = CraneProcedure(nCrates: nat, fromStack: nat, toStack: nat)

  type Stacks = map<int, CrateStack>

  // ---------------------------------------------------------------------------------------
  // Parsing the drawing of the stacks

  /** `separateCrateStackLabels`: the last line of the drawing holds the labels and the lines
      before it are the levels, top level first. The source's check for a missing last line
      never fires, since splitting always gives at least one line. */
  function SeparateCrateStackLabels(raw: string): (separated: (seq<string>, string))
    ensures separated.0 + [separated.1] == Split(raw, "\n")
    ensures Join(separated.0 + [separated.1], "\n") == raw
  {
    var lines := Split(raw, "\n");
    SplitJoin(raw, "\n");
    assert lines == lines[..|lines| - 1] + [lines[|lines| - 1]];
    (lines[..|lines| - 1], lines[|lines| - 1])
  }

  /** A character of the pattern `[^0-9\W]` over ASCII: a word character that is not a digit. */
  predicate IsNonNumericWordCharacter(c: char) {
    IsLetter(c) || c == '_'
  }

  predicate HasNonNumericLabel(labels: string) {
    exists i :: 0 <= i < |labels| && IsNonNumericWordCharacter(labels[i])
  }

  /** The stacks drawn by a label line: one empty stack at the offset of each digit, labelled
      by that digit. */
  ghost predicate StacksAtLabels(labels: string, indexed: Stacks) {
    && (forall i :: i in indexed ==>
          0 <= i < |labels| && IsDigit(labels[i]) && indexed[i] == CrateStack(DigitValue(labels[i]), []))
    && (forall i :: 0 <= i < |labels| && IsDigit(labels[i]) ==> i in indexed)
  }

  /** `parseStackLabels`: a fresh empty stack at the offset of every digit of the label line,
      labelled by the digit; a letter or underscore in the line is fatal. */
  method ParseStackLabels(labels: string) returns (r: Result<Stacks>)
    ensures r.Fatal? <==> HasNonNumericLabel(labels)
    ensures r.Ok? ==> StacksAtLabels(labels, r.value)
  {
    if exists i :: 0 <= i < |labels| && IsNonNumericWordCharacter(labels[i]) {
      return Fatal("Stack labels must be numeric!");
    }
    var indexed: Stacks := map[];
    for i := 0 to |labels|
      invariant forall j :: j in indexed ==>
        0 <= j < i && IsDigit(labels[j]) && indexed[j] == CrateStack(DigitValue(labels[j]), [])
      invariant forall j :: 0 <= j < i && IsDigit(labels[j]) ==> j in indexed
    {
      if IsDigit(labels[i]) {
        indexed := indexed[i := CrateStack(DigitValue(labels[i]), [])];
      }
    }
    return Ok(indexed);
  }

  /** The crate drawn at offset `i` of one level, if a letter stands there. */
  function LevelCrate(level: string, i: int): seq<Crate> {
    if 0 <= i < |level| && IsLetter(level[i]) then [Crate(level[i])] else []
  }

  /** The crates drawn at offset `i` of the levels, top level first. */
  function ColumnCrates(levels: seq<string>, i: int): seq<Crate> {
    if |levels| == 0 then []
    else ColumnCrates(levels[..|levels| - 1], i) + LevelCrate(levels[|levels| - 1], i)
  }

  /** The top crate of a column is the one drawn in the first level that has a crate there. */
  lemma {:induction false} ColumnTopIsFirstLevel(levels: seq<string>, i: int, l: nat)
    requires l < |levels| && 0 <= i < |levels[l]| && IsLetter(levels[l][i])
    requires forall m :: 0 <= m < l ==> !(i < |levels[m]| && IsLetter(levels[m][i]))
    ensures |ColumnCrates(levels, i)| > 0 && ColumnCrates(levels, i)[0] == Crate(levels[l][i])
    decreases |levels|
  {
    var prefix := levels[..|levels| - 1];
    if l < |levels| - 1 {
      ColumnTopIsFirstLevel(prefix, i, l);
    } else {
      ColumnOfEmptyLevels(prefix, i);
    }
  }

  lemma {:induction false} ColumnOfEmptyLevels(levels: seq<string>, i: int)
    requires forall m :: 0 <= m < |levels| ==> !(0 <= i < |levels[m]| && IsLetter(levels[m][i]))
    ensures ColumnCrates(levels, i) == []
    decreases |levels|
  {
    if |levels| > 0 {
      ColumnOfEmptyLevels(levels[..|levels| - 1], i);
    }
  }

  /** A crate drawn at an offset where no stack is labelled. */
  predicate StrayCrate(levels: seq<string>, indexed: Stacks) {
    exists l, i :: 0 <= l < |levels| && 0 <= i < |levels[l]| && IsLetter(levels[l][i]) && i !in indexed
  }

  /** The first loop of `parseInitialCrateStackState`: every crate of every level is appended
      to the stack at its offset, so the levels stack up top-down; a crate at an offset without
      a stack is a fatal force-unwrap. */
  method StackCrates(indexed: Stacks, levels: seq<string>) returns (r: Result<Stacks>)
    ensures r.Fatal? <==> StrayCrate(levels, indexed)
    ensures r.Ok? ==> r.value.Keys == indexed.Keys
    ensures r.Ok? ==> forall i :: i in indexed ==>
      r.value[i] == indexed[i].(crates := indexed[i].crates + ColumnCrates(levels, i))
  {
    var stacks := indexed;
    for l := 0 to |levels|
      invariant stacks.Keys == indexed.Keys
      invariant forall i :: i in indexed ==>
        stacks[i] == indexed[i].(crates := indexed[i].crates + ColumnCrates(levels[..l], i))
      invariant !StrayCrate(levels[..l], indexed)
    {
      StrayCrateStep(levels, l, indexed);
      var stacked := StackLevel(stacks, levels[l]);
      if stacked.Fatal? {
        return Fatal(stacked.message);
      }
      ColumnCratesStep(levels, l);
      stacks := stacked.value;
    }
    assert levels[..|levels|] == levels;
    return Ok(stacks);
  }

  /** A letter of `level` at an offset where no stack is labelled. */
  predicate StrayInLevel(level: string, indexed: Stacks) {
    exists i :: 0 <= i < |level| && IsLetter(level[i]) && i !in indexed
  }

  /** The inner loop of the first loop of `parseInitialCrateStackState`: each crate of the
      level is appended to the stack at its offset. */
  method StackLevel(stacks: Stacks, level: string) returns (r: Result<Stacks>)
    ensures r.Fatal? <==> StrayInLevel(level, stacks)
    ensures r.Fatal? ==> r.message == NilUnwrap
    ensures r.Ok? ==> r.value.Keys == stacks.Keys
    ensures r.Ok? ==> forall j :: j in stacks ==>
      r.value[j] == stacks[j].(crates := stacks[j].crates + LevelCrate(level, j))
  {
    var current := stacks;
    for i := 0 to |level|
      invariant current.Keys == stacks.Keys
      invariant forall j :: j in stacks ==>
        current[j] == stacks[j].(crates := stacks[j].crates + (if j < i then LevelCrate(level, j) else []))
      invariant forall j :: 0 <= j < i && IsLetter(level[j]) ==> j in stacks
    {
      if IsLetter(level[i]) {
        if i !in current {
          return Fatal(NilUnwrap);
        }
        current := current[i := current[i].(crates := current[i].crates + [Crate(level[i])])];
      }
    }
    return Ok(current);
  }

  /** One more level adds its crate, if any, under each column. */
  lemma ColumnCratesStep(levels: seq<string>, l: nat)
    requires l < |levels|
    ensures forall j :: ColumnCrates(levels[..l + 1], j) == ColumnCrates(levels[..l], j) + LevelCrate(levels[l], j)
  {
    assert levels[..l + 1][..l] == levels[..l];
  }

  /** The levels up to `l` hold a stray crate when those before it do or level `l` does. */
  lemma StrayCrateStep(levels: seq<string>, l: nat, indexed: Stacks)
    requires l < |levels|
    ensures StrayCrate(levels[..l + 1], indexed) <==> StrayCrate(levels[..l], indexed) || StrayInLevel(levels[l], indexed)
  {
    var next := levels[..l + 1];
    if StrayCrate(next, indexed) {
      var m, i :| 0 <= m < |next| && 0 <= i < |next[m]| && IsLetter(next[m][i]) && i !in indexed;
      if m < l {
        assert levels[..l][m] == next[m];
      } else {
        assert next[m] == levels[l];
      }
    }
    if StrayCrate(levels[..l], indexed) {
      var m, i :| 0 <= m < l && 0 <= i < |levels[..l][m]| && IsLetter(levels[..l][m][i]) && i !in indexed;
      assert next[m] == levels[..l][m];
    }
    if StrayInLevel(levels[l], indexed) {
      var i :| 0 <= i < |levels[l]| && IsLetter(levels[l][i]) && i !in indexed;
      assert next[l] == levels[l];
    }
  }

  /** Some stack of `indexed` at an offset below `n` carries `label`. */
  ghost predicate LabelledBelow(indexed: Stacks, n: nat, key: int) {
    exists i :: 0 <= i < n && i in indexed && indexed[i].stackLabel == key
  }

  /** The re-keying loop of `parseInitialCrateStackState`: every stack is filed under its own
      label, visiting offsets in increasing order (the source's dictionary order is
      unspecified). */
  method KeyByLabel(indexed: Stacks, width: nat) returns (stacks: Stacks)
    requires forall i :: i in indexed ==> 0 <= i < width
    ensures forall key :: key in stacks ==> LabelledBelow(indexed, width, key)
    ensures forall key :: LabelledBelow(indexed, width, key) ==> key in stacks
    ensures forall key :: key in stacks ==>
      stacks[key].stackLabel == key && exists i :: i in indexed && indexed[i] == stacks[key]
  {
    stacks := map[];
    for n := 0 to width
      invariant forall key :: key in stacks ==> LabelledBelow(indexed, n, key)
      invariant forall key :: LabelledBelow(indexed, n, key) ==> key in stacks
      invariant forall key :: key in stacks ==>
        stacks[key].stackLabel == key && exists i :: i in indexed && indexed[i] == stacks[key]
    {
      if n in indexed {
        stacks := stacks[indexed[n].stackLabel := indexed[n]];
      }
      forall key | key in stacks ensures LabelledBelow(indexed, n + 1, key) {
        if n in indexed && key == indexed[n].stackLabel {
          assert 0 <= n < n + 1 && n in indexed && indexed[n].stackLabel == key;
        } else {
          var i :| 0 <= i < n && i in indexed && indexed[i].stackLabel == key;
          assert 0 <= i < n + 1 && i in indexed && indexed[i].stackLabel == key;
        }
      }
    }
  }

  /** `parseInitialCrateStackState`: the stacks of the drawing keyed by label, each holding the
      crates drawn above its label, top level first. A non-numeric label and a crate outside
      every stack are fatal. */
  method ParseInitialCrateStackState(raw: string) returns (r: Result<Stacks>)
    ensures r.Fatal? <==>
      HasNonNumericLabel(SeparateCrateStackLabels(raw).1) ||
      StrayCrate(SeparateCrateStackLabels(raw).0, LabelStacks(SeparateCrateStackLabels(raw).1))
    ensures r.Ok? ==>
      var (levels, labels) := SeparateCrateStackLabels(raw);
      && (forall i :: 0 <= i < |labels| && IsDigit(labels[i]) ==> DigitValue(labels[i]) in r.value)
      && (forall key :: key in r.value ==>
            exists i :: 0 <= i < |labels| && IsDigit(labels[i]) && DigitValue(labels[i]) == key &&
              r.value[key] == CrateStack(key, ColumnCrates(levels, i)))
  {
    var (levels, labels) := SeparateCrateStackLabels(raw);
    var indexed :- ParseStackLabels(labels);
    LabelStacksExactly(labels, indexed);
    var stacked :- StackCrates(indexed, levels);
    var stacks := KeyByLabel(stacked, |labels|);
    r := Ok(stacks);
    forall i | 0 <= i < |labels| && IsDigit(labels[i]) ensures DigitValue(labels[i]) in r.value {
      assert LabelledBelow(stacked, |labels|, DigitValue(labels[i])) by {
        assert i in stacked && stacked[i].stackLabel == DigitValue(labels[i]);
      }
    }
  }

  /** The stacks a label line describes, when it has no letter: those of `StacksAtLabels`. */
  function LabelStacks(labels: string): (indexed: Stacks)
  {
    map i | 0 <= i < |labels| && IsDigit(labels[i]) :: CrateStack(DigitValue(labels[i]), [])
  }

  lemma LabelStacksExactly(labels: string, indexed: Stacks)
    requires StacksAtLabels(labels, indexed)
    ensures indexed == LabelStacks(labels)
  {
  }

  // ---------------------------------------------------------------------------------------
  // Parsing the crane procedure

  /** One procedure line: its three numbers, in order; another count of numbers is fatal. */
  function ParseProcedureLine(line: string): (r: Result<CraneProcedure>)
    ensures r.Ok? <==> |DigitRuns(line)| == 3
    ensures r.Ok? ==> r.value == CraneProcedure(DigitRuns(line)[0], DigitRuns(line)[1], DigitRuns(line)[2])
    ensures r.Fatal? ==> r.message == "Crane procedures must contain 3 numbers!"
  {
    var numbers := DigitRuns(line);
    if |numbers| != 3 then Fatal("Crane procedures must contain 3 numbers!")
    else Ok(CraneProcedure(numbers[0], numbers[1], numbers[2]))
  }

  /** The usual way a procedure is written. */
  function FormatProcedure(p: CraneProcedure): string {
    "move " + Decimal(p.nCrates) + " from " + Decimal(p.fromStack) + " to " + Decimal(p.toStack)
  }

  /** A procedure written the usual way reads back as itself. */
  lemma ParseFormattedProcedure(p: CraneProcedure)
    ensures ParseProcedureLine(FormatProcedure(p)) == Ok(p)
  {
    var t := " to " + Decimal(p.toStack);
    var f := " from " + Decimal(p.fromStack) + t;
    DigitRunsAppend(" to ", p.toStack, "");
    assert t == " to " + Decimal(p.toStack) + "";
    DigitRunsAppend(" from ", p.fromStack, t);
    assert f == " from " + Decimal(p.fromStack) + t;
    DigitRunsAppend("move ", p.nCrates, f);
    assert FormatProcedure(p) == "move " + Decimal(p.nCrates) + f;
  }

  /** The procedures of the lines up to the first empty one. */
  function ParseProcedureLines(lines: seq<string>): (r: Result<seq<CraneProcedure>>)
    ensures r.Ok? ==> |r.value| <= |lines|
  {
    if |lines| == 0 || lines[0] == "" then Ok([])
    else
      var p :- ParseProcedureLine(lines[0]);
      var rest :- ParseProcedureLines(lines[1..]);
      Ok([p] + rest)
  }

  /** Lines after the first empty one are never read. */
  lemma {:induction false} ParseProcedureLinesStops(lines: seq<string>, rest: seq<string>)
    requires forall i :: 0 <= i < |lines| ==> lines[i] != ""
    ensures ParseProcedureLines(lines + [""] + rest) == ParseProcedureLines(lines)
  {
    if |lines| > 0 {
      assert (lines + [""] + rest)[1..] == lines[1..] + [""] + rest;
      ParseProcedureLinesStops(lines[1..], rest);
    } else {
      assert (lines + [""] + rest)[0] == "";
    }
  }

  /** `parseCraneProcedure`: the procedures, one per line, up to the first empty line. */
  method ParseCraneProcedure(raw: string) returns (r: Result<seq<CraneProcedure>>)
    ensures r == ParseProcedureLines(Split(raw, "\n"))
  {
    var lines := Split(raw, "\n");
    var procedures: seq<CraneProcedure> := [];
    var i := 0;
    assert lines[0..] == lines;
    if ParseProcedureLines(lines).Ok? {
      assert [] + ParseProcedureLines(lines).value == ParseProcedureLines(lines).value;
    }
    while i < |lines|
      invariant 0 <= i <= |lines|
      invariant ParseProcedureLines(lines) == Prepend(procedures, ParseProcedureLines(lines[i..]))
    {
      if lines[i] == "" {
        assert procedures + [] == procedures;
        break;
      }
      var p := ParseProcedureLine(lines[i]);
      if p.Fatal? {
        return Fatal("Crane procedures must contain 3 numbers!");
      }
      assert lines[i..][1..] == lines[i + 1..];
      var rest := ParseProcedureLines(lines[i + 1..]);
      if rest.Ok? {
        assert procedures + ([p.value] + rest.value) == procedures + [p.value] + rest.value;
      }
      procedures := procedures + [p.value];
      i := i + 1;
    }
    if i == |lines| {
      assert procedures + [] == procedures;
    }
    return Ok(procedures);
  }

  /** `separateCrateStateCraneProcedure`: the drawing and the procedure, the two non-empty parts
      between blank lines; any other number of parts is fatal. */
  function SeparateCrateStateCraneProcedure(raw: string): (r: Result<(string, string)>)
    ensures r.Ok? <==> |SplitOmittingEmpty(raw, "\n\n")| == 2
    ensures r.Ok? ==> [r.value.0, r.value.1] == SplitOmittingEmpty(raw, "\n\n")
  {
    var parts := SplitOmittingEmpty(raw, "\n\n");
    if |parts| != 2 then Fatal("Invalid state & procedure format!")
    else Ok((parts[0], parts[1]))
  }

  // ---------------------------------------------------------------------------------------
  // Executing the procedures

  /** One procedure: the top `nCrates` crates of the `fromStack` stack go onto the `toStack`
      stack, reversed by the CrateMover 9000 (one at a time) and in order by the 9001 (en
      bloc). A missing stack and too few crates are fatal. */
  function Move(stacks: Stacks, p: CraneProcedure, enBloc: bool): (r: Result<Stacks>)
    ensures r.Ok? <==>
      p.fromStack in stacks && p.toStack in stacks && p.nCrates <= |stacks[p.fromStack].crates|
    ensures r.Fatal? ==>
      r.message == (if p.fromStack in stacks && p.nCrates > |stacks[p.fromStack].crates| then EmptyRemoveFirst else NilUnwrap)
    ensures r.Ok? ==> r.value.Keys == stacks.Keys
    ensures r.Ok? ==> forall key :: key in stacks && key != p.fromStack && key != p.toStack ==>
      r.value[key] == stacks[key]
  {
    if p.fromStack !in stacks then Fatal(NilUnwrap)
    else if p.nCrates > |stacks[p.fromStack].crates| then Fatal(EmptyRemoveFirst)
    else
      var from := stacks[p.fromStack];
      var taken := from.crates[..p.nCrates];
      var afterFrom := stacks[p.fromStack := from.(crates := from.crates[p.nCrates..])];
      if p.toStack !in afterFrom then Fatal(NilUnwrap)
      else
        var to := afterFrom[p.toStack];
        Ok(afterFrom[p.toStack := to.(crates := (if enBloc then taken else Reversed(taken)) + to.crates)])
  }

  /** The procedures applied from the left, stopping at the first fatal one. */
  function Run(stacks: Stacks, procedures: seq<CraneProcedure>, enBloc: bool): (r: Result<Stacks>)
    decreases |procedures|
  {
    if |procedures| == 0 then Ok(stacks)
    else
      var before :- Run(stacks, procedures[..|procedures| - 1], enBloc);
      Move(before, procedures[|procedures| - 1], enBloc)
  }

  /** The number of crates on the stack filed under each key. */
  function CrateCounts(stacks: Stacks): int -> int {
    (key: int) => if key in stacks then |stacks[key].crates| else 0
  }

  ghost function TotalCrates(stacks: Stacks): int {
    SetSum(stacks.Keys, CrateCounts(stacks))
  }

  /** Replacing one stack changes the total by the difference of the two stacks' sizes. */
  lemma TotalCratesUpdate(stacks: Stacks, key: int, stack: CrateStack)
    requires key in stacks
    ensures TotalCrates(stacks[key := stack]) == TotalCrates(stacks) - |stacks[key].crates| + |stack.crates|
  {
    var updated := stacks[key := stack];
    assert updated.Keys == stacks.Keys;
    SetSumRemove(stacks.Keys, CrateCounts(stacks), key);
    SetSumRemove(updated.Keys, CrateCounts(updated), key);
    SetSumAgree(stacks.Keys - {key}, CrateCounts(stacks), CrateCounts(updated));
  }

  /** The moved crates are those taken from the top of the source stack, and no crate appears
      or disappears. */
  lemma MoveConservesCrates(stacks: Stacks, p: CraneProcedure, enBloc: bool)
    requires Move(stacks, p, enBloc).Ok?
    ensures TotalCrates(Move(stacks, p, enBloc).value) == TotalCrates(stacks)
    ensures p.fromStack != p.toStack ==>
      var from, to := stacks[p.fromStack], stacks[p.toStack];
      var moved := from.crates[..p.nCrates];
      && Move(stacks, p, enBloc).value[p.fromStack].crates == from.crates[p.nCrates..]
      && Move(stacks, p, enBloc).value[p.toStack].crates == (if enBloc then moved else Reversed(moved)) + to.crates
    ensures p.fromStack == p.toStack ==>
      var from := stacks[p.fromStack];
      var moved := from.crates[..p.nCrates];
      Move(stacks, p, enBloc).value[p.fromStack].crates == (if enBloc then moved else Reversed(moved)) + from.crates[p.nCrates..]
  {
    var from := stacks[p.fromStack];
    var afterFrom := stacks[p.fromStack := from.(crates := from.crates[p.nCrates..])];
    TotalCratesUpdate(stacks, p.fromStack, from.(crates := from.crates[p.nCrates..]));
    var to := afterFrom[p.toStack];
    var taken := from.crates[..p.nCrates];
    TotalCratesUpdate(afterFrom, p.toStack, to.(crates := (if enBloc then taken else Reversed(taken)) + to.crates));
  }

  /** Running any procedure keeps the labels, and the total number of crates. */
  lemma {:induction false} RunConservesCrates(stacks: Stacks, procedures: seq<CraneProcedure>, enBloc: bool)
    requires Run(stacks, procedures, enBloc).Ok?
    ensures Run(stacks, procedures, enBloc).value.Keys == stacks.Keys
    ensures TotalCrates(Run(stacks, procedures, enBloc).value) == TotalCrates(stacks)
    decreases |procedures|
  {
    if |procedures| > 0 {
      var prefix := procedures[..|procedures| - 1];
      RunConservesCrates(stacks, prefix, enBloc);
      MoveConservesCrates(Run(stacks, prefix, enBloc).value, procedures[|procedures| - 1], enBloc);
    }
  }

  /** One procedure carried out by the crane, through the stacks' own operations. */
  method Execute(stacks: Stacks, p: CraneProcedure, enBloc: bool) returns (r: Result<Stacks>)
    ensures r == Move(stacks, p, enBloc)
  {
    if p.fromStack !in stacks {
      return Fatal(NilUnwrap);
    }
    if p.nCrates > |stacks[p.fromStack].crates| {
      return Fatal(EmptyRemoveFirst);
    }
    var reclaimed, from := stacks[p.fromStack].ReclaimMultiple(p.nCrates);
    var updated := stacks[p.fromStack := from];
    if p.toStack !in updated {
      return Fatal(NilUnwrap);
    }
    var to;
    if enBloc {
      to := updated[p.toStack].EmplaceMultipleEnBloc(reclaimed);
    } else {
      to := updated[p.toStack].EmplaceMultiple(reclaimed);
    }
    return Ok(updated[p.toStack := to]);
  }

  /** `executeCraneProcedures9000OnCrateStacks` (`enBloc` false) and
      `executeCraneProcedures9001OnCrateStacks` (`enBloc` true): the procedures in order. */
  method ExecuteCraneProcedures(stacks: Stacks, procedures: seq<CraneProcedure>, enBloc: bool) returns (r: Result<Stacks>)
    ensures r == Run(stacks, procedures, enBloc)
  {
    var current := stacks;
    for i := 0 to |procedures|
      invariant Run(stacks, procedures[..i], enBloc) == Ok(current)
    {
      RunStep(stacks, procedures, enBloc, i, current);
      var next := Execute(current, procedures[i], enBloc);
      if next.Fatal? {
        RunFatalPersists(stacks, procedures, enBloc, i + 1);
        return next;
      }
      current := next.value;
    }
    assert procedures[..|procedures|] == procedures;
    return Ok(current);
  }

  /** One more procedure moves the stacks reached so far. */
  lemma RunStep(stacks: Stacks, procedures: seq<CraneProcedure>, enBloc: bool, i: nat, current: Stacks)
    requires i < |procedures| && Run(stacks, procedures[..i], enBloc) == Ok(current)
    ensures Run(stacks, procedures[..i + 1], enBloc) == Move(current, procedures[i], enBloc)
  {
    assert procedures[..i + 1][..i] == procedures[..i];
  }

  lemma {:induction false} RunFatalPersists(stacks: Stacks, procedures: seq<CraneProcedure>, enBloc: bool, n: nat)
    requires n <= |procedures| && Run(stacks, procedures[..n], enBloc).Fatal?
    ensures Run(stacks, procedures, enBloc) == Run(stacks, procedures[..n], enBloc)
    decreases |procedures|
  {
    if n < |procedures| {
      var shorter := procedures[..|procedures| - 1];
      assert shorter[..n] == procedures[..n];
      RunFatalPersists(stacks, shorter, enBloc, n);
    } else {
      assert procedures[..n] == procedures;
    }
  }

  // ---------------------------------------------------------------------------------------
  // The answers

  /** The labels in increasing order. */
  function SortedLabels(labels: set<int>): (sorted: seq<int>)
    ensures forall i, j :: 0 <= i < j < |sorted| ==> sorted[i] < sorted[j]
    ensures forall key :: key in sorted <==> key in labels
    decreases labels
  {
    if labels == {} then []
    else
      SmallestExists(labels);
      var least :| least in labels && forall other :: other in labels ==> least <= other;
      [least] + SortedLabels(labels - {least})
  }

  lemma {:induction false} SmallestExists(labels: set<int>)
    requires labels != {}
    ensures exists least :: least in labels && forall other :: other in labels ==> least <= other
    decreases labels
  {
    var x := Pick(labels);
    if labels != {x} {
      SmallestExists(labels - {x});
      var least :| least in labels - {x} && forall other :: other in labels - {x} ==> least <= other;
      var m := if x < least then x else least;
      forall other | other in labels ensures m <= other {
        if other != x {
          assert other in labels - {x};
        }
      }
      assert m in labels;
    } else {
      assert forall other :: other in labels ==> x <= other;
    }
  }

  /** The stacks' top crates in the order of their labels, what the parts print. */
  function TopCrates(stacks: Stacks): (tops: seq<(int, Option<Crate>)>)
    ensures |tops| == |SortedLabels(stacks.Keys)|
    ensures forall i :: 0 <= i < |tops| ==>
      tops[i].0 == SortedLabels(stacks.Keys)[i] && tops[i].0 in stacks && tops[i].1 == stacks[tops[i].0].TopCrate()
  {
    var labels := SortedLabels(stacks.Keys);
    seq(|labels|, i requires 0 <= i < |labels| => (labels[i], stacks[labels[i]].TopCrate()))
  }

  /** `partOne`: the top crates after the CrateMover 9000 has run the procedure. */
  method PartOne(stacks: Stacks, procedures: seq<CraneProcedure>) returns (r: Result<seq<(int, Option<Crate>)>>)
    ensures r.Ok? <==> Run(stacks, procedures, false).Ok?
    ensures r.Ok? ==> r.value == TopCrates(Run(stacks, procedures, false).value)
  {
    var moved :- ExecuteCraneProcedures(stacks, procedures, false);
    return Ok(TopCrates(moved));
  }

  /** `partTwo`: the top crates after the CrateMover 9001 has run the procedure. */
  method PartTwo(stacks: Stacks, procedures: seq<CraneProcedure>) returns (r: Result<seq<(int, Option<Crate>)>>)
    ensures r.Ok? <==> Run(stacks, procedures, true).Ok?
    ensures r.Ok? ==> r.value == TopCrates(Run(stacks, procedures, true).value)
  {
    var moved :- ExecuteCraneProcedures(stacks, procedures, true);
    return Ok(TopCrates(moved));
  }
}
