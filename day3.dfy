/** Day 3, Rucksack Reorganization: every line lists the items of one rucksack, whose first
    half is one compartment and second half the other. Part one adds up the priorities of the
    items common to both compartments of each rucksack; part two groups the rucksacks by three
    and adds up the priorities of the items common to the three rucksacks of each group. */
module Day3 {
  import opened Wrappers
  import opened Text
  import opened Sums
  import opened Sequences

  /** The names an item can have: `Item(named:)` accepts letters only. */
  type Letter = c: char | IsLetter(c) witness 'a'

  datatype Item = Item(name: Letter) {

    function Description(): string {
      [name]
    }

    /** Lower-case letters have priorities 1 to 26, upper-case ones 27 to 52. */
    function Priority(): (p: int)
      ensures 1 <= p <= 52
      ensures p <= 26 <==> 'a' <= name <= 'z'
    {
      if 'A' <= name <= 'Z' then name as int - 65 + 27 else name as int - 97 + 1
    }
  }

  /** Different items have different priorities. */
  lemma PriorityInjective(a: Item, b: Item)
    ensures a.Priority() == b.Priority() ==> a == b
  {
  }

  /** `Item(named:)`, which traps on anything but a letter. */
  function NewItem(name: char): (r: Result<Item>)
    ensures r.Ok? <==> IsLetter(name)
    ensures r.Ok? ==> r.value.name == name
    ensures r.Fatal? ==> r.message == "Expected alpha Item name! Got: " + [name]
  {
    if IsLetter(name) then Ok(Item(name)) else Fatal("Expected alpha Item name! Got: " + [name])
  }

  datatype Compartment = Compartment(contents: seq<Item>) {

    /** The items' names one after the other. */
    function Description(): string {
      seq(|contents|, i requires 0 <= i < |contents| => contents[i].name)
    }

    function UniqueItems(): (items: set<Item>)
      ensures forall x :: x in items <==> x in contents
    {
      ElementsOf(contents)
    }
  }

  /** `x` lies in every compartment of `compartments`. */
  ghost predicate InEvery(compartments: seq<Compartment>, x: Item) {
    forall i :: 0 <= i < |compartments| ==> x in compartments[i].contents
  }

  /** `x` lies in some compartment of `compartments`. */
  ghost predicate InSome(compartments: seq<Compartment>, x: Item) {
    exists i :: 0 <= i < |compartments| && x in compartments[i].contents
  }

  /** The `reduce` with `intersection` over the compartments after the first. */
  function IntersectCompartments(common: set<Item>, rest: seq<Compartment>): (r: set<Item>)
    ensures forall x :: x in r <==> x in common && InEvery(rest, x)
    decreases |rest|
  {
    if |rest| == 0 then common
    else
      var r := IntersectCompartments(common * rest[0].UniqueItems(), rest[1..]);
      assert forall x :: InEvery(rest, x) <==> x in rest[0].contents && InEvery(rest[1..], x) by {
        assert forall i :: 0 < i < |rest| ==> rest[i] == rest[1..][i - 1];
      }
      r
  }

  /** The `reduce` with `union` over the compartments after the first. */
  function UniteCompartments(all: set<Item>, rest: seq<Compartment>): (r: set<Item>)
    ensures forall x :: x in r <==> x in all || InSome(rest, x)
    decreases |rest|
  {
    if |rest| == 0 then all
    else
      var r := UniteCompartments(all + rest[0].UniqueItems(), rest[1..]);
      assert forall x :: InSome(rest, x) <==> x in rest[0].contents || InSome(rest[1..], x) by {
        forall x ensures InSome(rest, x) ==> x in rest[0].contents || InSome(rest[1..], x) {
          if InSome(rest, x) {
            var i :| 0 <= i < |rest| && x in rest[i].contents;
            if i > 0 {
              assert rest[1..][i - 1] == rest[i];
            }
          }
        }
        forall x ensures InSome(rest[1..], x) ==> InSome(rest, x) {
          if InSome(rest[1..], x) {
            var i :| 0 <= i < |rest[1..]| && x in rest[1..][i].contents;
            assert rest[i + 1] == rest[1..][i];
          }
        }
        forall x ensures x in rest[0].contents ==> InSome(rest, x) {
        }
      }
      r
  }

  function Descriptions(compartments: seq<Compartment>): (ds: seq<string>)
    ensures |ds| == |compartments|
    ensures forall i :: 0 <= i < |compartments| ==> ds[i] == compartments[i].Description()
  {
    if |compartments| == 0 then [] else [compartments[0].Description()] + Descriptions(compartments[1..])
  }

  datatype Rucksack = Rucksack(compartments: seq<Compartment>) {

    /** The compartments' descriptions one after the other. */
    function Description(): string {
      Concat(Descriptions(compartments))
    }

    /** The items every compartment holds; `compartments.first!` traps when there is none. */
    function ItemsCommonToAllCompartments(): (r: Result<set<Item>>)
      ensures r.Ok? <==> |compartments| > 0
      ensures r.Fatal? ==> r.message == NilUnwrap
      ensures r.Ok? ==> forall x :: x in r.value <==> InEvery(compartments, x)
    {
      if |compartments| == 0 then Fatal(NilUnwrap)
      else
        var r := IntersectCompartments(compartments[0].UniqueItems(), compartments[1..]);
        assert forall x :: InEvery(compartments, x) <==> x in compartments[0].contents && InEvery(compartments[1..], x) by {
          assert forall i :: 0 < i < |compartments| ==> compartments[i] == compartments[1..][i - 1];
        }
        Ok(r)
    }

    /** The items some compartment holds (the union, whatever the name says);
        `compartments.first!` traps when there is none. */
    function ItemsInAllCompartments(): (r: Result<set<Item>>)
      ensures r.Ok? <==> |compartments| > 0
      ensures r.Fatal? ==> r.message == NilUnwrap
      ensures r.Ok? ==> forall x :: x in r.value <==> InSome(compartments, x)
    {
      if |compartments| == 0 then Fatal(NilUnwrap)
      else
        var r := UniteCompartments(compartments[0].UniqueItems(), compartments[1..]);
        assert forall x :: InSome(compartments, x) <==> x in compartments[0].contents || InSome(compartments[1..], x) by {
          forall x ensures InSome(compartments, x) ==> x in compartments[0].contents || InSome(compartments[1..], x) {
            if InSome(compartments, x) {
              var i :| 0 <= i < |compartments| && x in compartments[i].contents;
              if i > 0 {
                assert compartments[1..][i - 1] == compartments[i];
              }
            }
          }
          forall x ensures InSome(compartments[1..], x) ==> InSome(compartments, x) {
            if InSome(compartments[1..], x) {
              var i :| 0 <= i < |compartments[1..]| && x in compartments[1..][i].contents;
              assert compartments[i + 1] == compartments[1..][i];
            }
          }
        }
        Ok(r)
    }
  }

  /** `x` is somewhere in every rucksack of `rucksacks`. */
  ghost predicate InEveryRucksack(rucksacks: seq<Rucksack>, x: Item) {
    forall i :: 0 <= i < |rucksacks| ==> InSome(rucksacks[i].compartments, x)
  }

  /** Every rucksack of `rucksacks` has a compartment. */
  predicate AllHaveCompartments(rucksacks: seq<Rucksack>) {
    forall i :: 0 <= i < |rucksacks| ==> |rucksacks[i].compartments| > 0
  }

  /** The `reduce` with `intersection` over the rucksacks after the first; the items of each
      rucksack are taken with `compartments.first!`, which traps on one without any. */
  function IntersectRucksacks(common: set<Item>, rest: seq<Rucksack>): (r: Result<set<Item>>)
    ensures r.Ok? <==> AllHaveCompartments(rest)
    ensures r.Fatal? ==> r.message == NilUnwrap
    ensures r.Ok? ==> forall x :: x in r.value <==> x in common && InEveryRucksack(rest, x)
  {
    if |rest| == 0 then Ok(common)
    else
      var items :- rest[0].ItemsInAllCompartments();
      var r := IntersectRucksacks(common * items, rest[1..]);
      assert AllHaveCompartments(rest) <==> |rest[0].compartments| > 0 && AllHaveCompartments(rest[1..]) by {
        assert forall i :: 0 < i < |rest| ==> rest[i] == rest[1..][i - 1];
      }
      assert forall x :: InEveryRucksack(rest, x) <==> InSome(rest[0].compartments, x) && InEveryRucksack(rest[1..], x) by {
        assert forall i :: 0 < i < |rest| ==> rest[i] == rest[1..][i - 1];
      }
      r
  }

  datatype RucksackGroup = RucksackGroup(rucksacks: seq<Rucksack>) {

    /** The items found somewhere in every rucksack of the group; `rucksacks.first!` traps on
        an empty group, and `compartments.first!` on a rucksack without compartments. */
    function ItemsCommonToAllRucksacks(): (r: Result<set<Item>>)
      ensures r.Ok? <==> |rucksacks| > 0 && AllHaveCompartments(rucksacks)
      ensures r.Fatal? ==> r.message == NilUnwrap
      ensures r.Ok? ==> forall x :: x in r.value <==> InEveryRucksack(rucksacks, x)
    {
      if |rucksacks| == 0 then Fatal(NilUnwrap)
      else
        var first :- rucksacks[0].ItemsInAllCompartments();
        var r := IntersectRucksacks(first, rucksacks[1..]);
        assert AllHaveCompartments(rucksacks) <==> |rucksacks[0].compartments| > 0 && AllHaveCompartments(rucksacks[1..]) by {
          assert forall i :: 0 < i < |rucksacks| ==> rucksacks[i] == rucksacks[1..][i - 1];
        }
        assert forall x :: InEveryRucksack(rucksacks, x) <==> InSome(rucksacks[0].compartments, x) && InEveryRucksack(rucksacks[1..], x) by {
          assert forall i :: 0 < i < |rucksacks| ==> rucksacks[i] == rucksacks[1..][i - 1];
        }
        r
    }
  }

  /** `groupNConsecutiveRucksacks`: the rucksacks in groups of `n` in order, the last group
      possibly smaller. */
  function GroupNConsecutiveRucksacks(rucksacks: seq<Rucksack>, n: nat): (groups: seq<RucksackGroup>)
    requires n > 0
  {
    var chunks := Chunks(rucksacks, n);
    seq(|chunks|, i requires 0 <= i < |chunks| => RucksackGroup(chunks[i]))
  }

  /** The groups hold the rucksacks in their order, every group but the last holds `n` and the
      last holds between one and `n`. */
  lemma GroupsShape(rucksacks: seq<Rucksack>, n: nat)
    requires n > 0
    ensures var groups := GroupNConsecutiveRucksacks(rucksacks, n);
      Concat(seq(|groups|, i requires 0 <= i < |groups| => groups[i].rucksacks)) == rucksacks
      && (forall i :: 0 <= i < |groups| - 1 ==> |groups[i].rucksacks| == n)
      && (|groups| > 0 ==> 0 < |groups[|groups| - 1].rucksacks| <= n)
  {
    var groups := GroupNConsecutiveRucksacks(rucksacks, n);
    ChunksShape(rucksacks, n);
    assert seq(|groups|, i requires 0 <= i < |groups| => groups[i].rucksacks) == Chunks(rucksacks, n);
  }

  /** The items named by `raw`, one per character; the first non-letter traps. */
  function ParseItems(raw: string): (r: Result<seq<Item>>)
    ensures r.Ok? <==> forall i :: 0 <= i < |raw| ==> IsLetter(raw[i])
    ensures r.Ok? ==> |r.value| == |raw| && forall i :: 0 <= i < |raw| ==> r.value[i].name == raw[i]
  {
    if |raw| == 0 then Ok([])
    else
      var item :- NewItem(raw[0]);
      var rest := ParseItems(raw[1..]);
      assert (forall i :: 0 <= i < |raw| ==> IsLetter(raw[i])) <==> IsLetter(raw[0]) && forall i :: 0 <= i < |raw[1..]| ==> IsLetter(raw[1..][i]) by {
        assert forall i :: 0 < i < |raw| ==> raw[i] == raw[1..][i - 1];
      }
      if rest.Fatal? then Fatal(rest.message)
      else Ok([item] + rest.value)
  }

  /** One compartment per piece of the line, in order. */
  function ParseCompartments(rawCompartments: seq<string>): (r: Result<seq<Compartment>>)
    ensures r.Ok? <==> forall i, j :: 0 <= i < |rawCompartments| && 0 <= j < |rawCompartments[i]| ==> IsLetter(rawCompartments[i][j])
    ensures r.Ok? ==> |r.value| == |rawCompartments|
    ensures r.Ok? ==> forall i :: 0 <= i < |rawCompartments| ==> r.value[i].Description() == rawCompartments[i]
  {
    if |rawCompartments| == 0 then Ok([])
    else
      var items := ParseItems(rawCompartments[0]);
      var rest := ParseCompartments(rawCompartments[1..]);
      assert forall i :: 0 < i < |rawCompartments| ==> rawCompartments[i] == rawCompartments[1..][i - 1];
      if items.Fatal? then Fatal(items.message)
      else if rest.Fatal? then Fatal(rest.message)
      else
        var compartment := Compartment(items.value);
        assert compartment.Description() == rawCompartments[0];
        Ok([compartment] + rest.value)
  }

  /** The message of the trap on a line with an odd number of items. */
  function OddRucksack(rawRucksack: string): string {
    "Rucksack contains an odd number of items: " + rawRucksack + "!)"
  }

  /** One line: its two halves are the compartments. */
  function ParseRucksack(rawRucksack: string): (r: Result<Rucksack>)
    requires rawRucksack != ""
    ensures |rawRucksack| % 2 != 0 ==> r == Fatal(OddRucksack(rawRucksack))
  {
    var numRucksackItems := |rawRucksack|;
    if numRucksackItems % 2 != 0 then Fatal(OddRucksack(rawRucksack))
    else
      var compartments :- ParseCompartments(Chunks(rawRucksack, numRucksackItems / 2));
      Ok(Rucksack(compartments))
  }

  /** A line of even length made of letters gives a rucksack of two compartments of equal size
      whose items, read in order, are the line; any other line traps. */
  lemma ParseRucksackShape(rawRucksack: string)
    requires rawRucksack != ""
    ensures ParseRucksack(rawRucksack).Ok? <==> |rawRucksack| % 2 == 0 && forall i :: 0 <= i < |rawRucksack| ==> IsLetter(rawRucksack[i])
    ensures ParseRucksack(rawRucksack).Ok? ==> var rucksack := ParseRucksack(rawRucksack).value;
      |rucksack.compartments| == 2
      && |rucksack.compartments[0].contents| == |rucksack.compartments[1].contents|
      && rucksack.Description() == rawRucksack
  {
    var n := |rawRucksack|;
    if n % 2 == 0 {
      var half := n / 2;
      ChunksInHalves(rawRucksack, half);
      var pieces := [rawRucksack[..half], rawRucksack[half..]];
      var parsed := ParseCompartments(pieces);
      var all := forall i :: 0 <= i < n ==> IsLetter(rawRucksack[i]);
      var inPieces := forall i, j :: 0 <= i < |pieces| && 0 <= j < |pieces[i]| ==> IsLetter(pieces[i][j]);
      assert all <==> inPieces by {
        if inPieces {
          forall k | 0 <= k < n ensures IsLetter(rawRucksack[k]) {
            if k < half {
              assert pieces[0][k] == rawRucksack[k];
            } else {
              assert pieces[1][k - half] == rawRucksack[k];
            }
          }
        }
      }
      if parsed.Ok? {
        var compartments := parsed.value;
        var rucksack := Rucksack(compartments);
        assert Descriptions(compartments) == pieces;
        assert ParseRucksack(rawRucksack) == Ok(rucksack);
        assert Concat(pieces) == pieces[0] + pieces[1] by {
          assert pieces[1..][1..] == [];
          assert Concat(pieces[1..]) == pieces[1] + Concat(pieces[1..][1..]);
          assert pieces[1] + [] == pieces[1];
        }
        assert rawRucksack[..half] + rawRucksack[half..] == rawRucksack;
      }
    }
  }

  /** The rucksacks of the lines, in order; the first line that fails stops the parse. */
  function ParseRucksackLines(rawRucksacks: seq<string>): (r: Result<seq<Rucksack>>)
    requires forall i :: 0 <= i < |rawRucksacks| ==> rawRucksacks[i] != ""
    ensures r.Ok? ==> |r.value| == |rawRucksacks|
  {
    if |rawRucksacks| == 0 then Ok([])
    else
      var rucksack :- ParseRucksack(rawRucksacks[0]);
      var rest :- ParseRucksackLines(rawRucksacks[1..]);
      Ok([rucksack] + rest)
  }

  lemma ParseRucksackLinesStep(rawRucksacks: seq<string>, i: nat)
    requires forall k :: 0 <= k < |rawRucksacks| ==> rawRucksacks[k] != ""
    requires i < |rawRucksacks|
    ensures ParseRucksack(rawRucksacks[i]).Fatal? ==>
      ParseRucksackLines(rawRucksacks[i..]) == Fatal(ParseRucksack(rawRucksacks[i]).message)
    ensures ParseRucksack(rawRucksacks[i]).Ok? ==>
      ParseRucksackLines(rawRucksacks[i..]) == Prepend([ParseRucksack(rawRucksacks[i]).value], ParseRucksackLines(rawRucksacks[i + 1..]))
  {
    assert rawRucksacks[i..][1..] == rawRucksacks[i + 1..];
  }

  /** The loop over one compartment's characters. */
  method ReadItems(rawCompartment: string) returns (r: Result<seq<Item>>)
    ensures r == ParseItems(rawCompartment)
  {
    var items: seq<Item> := [];
    var i := 0;
    while i < |rawCompartment|
      invariant 0 <= i <= |rawCompartment|
      invariant |items| == i
      invariant forall k :: 0 <= k < i ==> IsLetter(rawCompartment[k]) && items[k].name == rawCompartment[k]
    {
      var item := NewItem(rawCompartment[i]);
      if item.Fatal? {
        ParseItemsFirstFailure(rawCompartment, i);
        return Fatal(item.message);
      }
      items := items + [item.value];
      i := i + 1;
    }
    var parsed := ParseItems(rawCompartment);
    assert parsed.Ok?;
    assert items == parsed.value;
    r := Ok(items);
  }

  /** The parse of a compartment fails on its first non-letter, with that character's trap. */
  lemma {:induction false} ParseItemsFirstFailure(raw: string, i: nat)
    requires i < |raw| && !IsLetter(raw[i])
    requires forall k :: 0 <= k < i ==> IsLetter(raw[k])
    ensures ParseItems(raw) == Fatal(NewItem(raw[i]).message)
  {
    if i > 0 {
      assert forall k :: 0 <= k < i - 1 ==> raw[1..][k] == raw[k + 1];
      ParseItemsFirstFailure(raw[1..], i - 1);
    }
  }

  /** The loop over one line's compartments, each read item by item. */
  method ReadCompartments(rawCompartments: seq<string>) returns (r: Result<seq<Compartment>>)
    ensures r == ParseCompartments(rawCompartments)
  {
    var compartments: seq<Compartment> := [];
    assert rawCompartments[0..] == rawCompartments;
    PrependNothing(ParseCompartments(rawCompartments));
    var j := 0;
    while j < |rawCompartments|
      invariant 0 <= j <= |rawCompartments|
      invariant ParseCompartments(rawCompartments) == Prepend(compartments, ParseCompartments(rawCompartments[j..]))
    {
      var items := ReadItems(rawCompartments[j]);
      assert rawCompartments[j..][1..] == rawCompartments[j + 1..];
      if items.Fatal? {
        return Fatal(items.message);
      }
      PrependAppend(compartments, [Compartment(items.value)], ParseCompartments(rawCompartments[j + 1..]));
      compartments := compartments + [Compartment(items.value)];
      j := j + 1;
    }
    assert rawCompartments[j..] == [];
    assert compartments + [] == compartments;
    r := Ok(compartments);
  }

  /** The body of `parseRucksacksContents`'s loop: one line, cut in halves, each read item by
      item. */
  method ReadRucksack(rawRucksack: string) returns (r: Result<Rucksack>)
    requires rawRucksack != ""
    ensures r == ParseRucksack(rawRucksack)
  {
    var numRucksackItems := |rawRucksack|;
    if numRucksackItems % 2 != 0 {
      return Fatal(OddRucksack(rawRucksack));
    }
    var compartmentSize := numRucksackItems / 2;
    var rawCompartments := Chunks(rawRucksack, compartmentSize);
    var compartments := ReadCompartments(rawCompartments);
    if compartments.Fatal? {
      return Fatal(compartments.message);
    }
    r := Ok(Rucksack(compartments.value));
  }

  /** `parseRucksacksContents`: one rucksack per non-empty line. */
  method ParseRucksacksContents(rawInput: string) returns (r: Result<seq<Rucksack>>)
    ensures forall i :: 0 <= i < |SplitOmittingEmpty(rawInput, "\n")| ==> SplitOmittingEmpty(rawInput, "\n")[i] != ""
    ensures r == ParseRucksackLines(SplitOmittingEmpty(rawInput, "\n"))
  {
    var rawRucksacks := SplitOmittingEmpty(rawInput, "\n");
    assert forall i :: 0 <= i < |rawRucksacks| ==> rawRucksacks[i] != "" by {
      forall i | 0 <= i < |rawRucksacks| ensures rawRucksacks[i] != "" {
        assert rawRucksacks[i] in rawRucksacks;
      }
    }
    var rucksacks: seq<Rucksack> := [];
    assert rawRucksacks[0..] == rawRucksacks;
    PrependNothing(ParseRucksackLines(rawRucksacks));
    var i := 0;
    while i < |rawRucksacks|
      invariant 0 <= i <= |rawRucksacks|
      invariant ParseRucksackLines(rawRucksacks) == Prepend(rucksacks, ParseRucksackLines(rawRucksacks[i..]))
    {
      var rucksack := ReadRucksack(rawRucksacks[i]);
      ParseRucksackLinesStep(rawRucksacks, i);
      if rucksack.Fatal? {
        return Fatal(rucksack.message);
      }
      PrependAppend(rucksacks, [rucksack.value], ParseRucksackLines(rawRucksacks[i + 1..]));
      rucksacks := rucksacks + [rucksack.value];
      i := i + 1;
    }
    assert rawRucksacks[i..] == [];
    assert rucksacks + [] == rucksacks;
    r := Ok(rucksacks);
  }

  /** The sum of the items' priorities. */
  ghost function PrioritySum(items: set<Item>): int {
    SetSum(items, (item: Item) => item.Priority())
  }

  /** The `reduce(0, ...)` adding up the priorities of a set's items, in whatever order the
      set yields them. */
  method SumPriorities(items: set<Item>) returns (sum: int)
    ensures sum == PrioritySum(items)
  {
    var priority := (item: Item) => item.Priority();
    sum := 0;
    var remaining := items;
    while remaining != {}
      invariant remaining <= items
      invariant sum + SetSum(remaining, priority) == SetSum(items, priority)
      decreases remaining
    {
      var item :| item in remaining;
      SetSumRemove(remaining, priority, item);
      sum := sum + item.Priority();
      remaining := remaining - {item};
    }
  }

  /** A priority sum is never negative. */
  lemma PrioritySumNonNegative(items: set<Item>)
    ensures PrioritySum(items) >= 0
  {
    SetSumNonNegative(items, (item: Item) => item.Priority());
  }

  /** `total` plus what the rest of a total loop adds; a trap in the rest stays a trap. */
  function AddTo(total: int, rest: Result<int>): Result<int> {
    if rest.Fatal? then rest else Ok(total + rest.value)
  }

  /** The sum over the rucksacks of the priorities of the items each one's compartments have
      in common. */
  ghost function CompartmentPriorities(rucksacks: seq<Rucksack>): (r: Result<int>)
    ensures r.Ok? <==> AllHaveCompartments(rucksacks)
    ensures r.Fatal? ==> r.message == NilUnwrap
    ensures r.Ok? ==> r.value >= 0
  {
    if |rucksacks| == 0 then Ok(0)
    else
      var rest := CompartmentPriorities(rucksacks[1..]);
      assert AllHaveCompartments(rucksacks) <==> |rucksacks[0].compartments| > 0 && AllHaveCompartments(rucksacks[1..]) by {
        assert forall i :: 0 < i < |rucksacks| ==> rucksacks[i] == rucksacks[1..][i - 1];
      }
      var common :- rucksacks[0].ItemsCommonToAllCompartments();
      PrioritySumNonNegative(common);
      AddTo(PrioritySum(common), rest)
  }

  /** The sum from rucksack `i` on: rucksack `i`'s common items, then the rest. */
  lemma CompartmentPrioritiesStep(rucksacks: seq<Rucksack>, i: nat, common: Result<set<Item>>)
    requires i < |rucksacks| && common == rucksacks[i].ItemsCommonToAllCompartments()
    ensures common.Fatal? ==> CompartmentPriorities(rucksacks[i..]) == Fatal(common.message)
    ensures common.Ok? ==> CompartmentPriorities(rucksacks[i..]) == AddTo(PrioritySum(common.value), CompartmentPriorities(rucksacks[i + 1..]))
  {
    assert rucksacks[i..][1..] == rucksacks[i + 1..];
  }

  /** `calculateTotalPrioritiesOfItemsInAllCompartmentsOfEachRucksack`. */
  method CalculateTotalPrioritiesOfItemsInAllCompartmentsOfEachRucksack(rucksacks: seq<Rucksack>) returns (r: Result<int>)
    ensures r == CompartmentPriorities(rucksacks)
  {
    var totalPriority := 0;
    var i := 0;
    assert rucksacks[0..] == rucksacks;
    while i < |rucksacks|
      invariant 0 <= i <= |rucksacks|
      invariant CompartmentPriorities(rucksacks) == AddTo(totalPriority, CompartmentPriorities(rucksacks[i..]))
    {
      var common := rucksacks[i].ItemsCommonToAllCompartments();
      CompartmentPrioritiesStep(rucksacks, i, common);
      if common.Fatal? {
        return Fatal(common.message);
      }
      var rucksackPriority := SumPriorities(common.value);
      AddToTwice(totalPriority, rucksackPriority, CompartmentPriorities(rucksacks[i + 1..]));
      totalPriority := totalPriority + rucksackPriority;
      i := i + 1;
    }
    r := Ok(totalPriority);
  }

  /** Adding two amounts one after the other adds their sum. */
  lemma AddToTwice(total: int, amount: int, rest: Result<int>)
    ensures AddTo(total, AddTo(amount, rest)) == AddTo(total + amount, rest)
  {
  }

  /** The sum over the groups of the priorities of the items common to each group's rucksacks. */
  ghost function GroupPriorities(groups: seq<RucksackGroup>): (r: Result<int>)
    ensures r.Fatal? ==> r.message == NilUnwrap
    ensures r.Ok? ==> r.value >= 0
  {
    if |groups| == 0 then Ok(0)
    else
      var common :- groups[0].ItemsCommonToAllRucksacks();
      PrioritySumNonNegative(common);
      AddTo(PrioritySum(common), GroupPriorities(groups[1..]))
  }

  /** The sum from group `i` on: group `i`'s common items, then the rest. */
  lemma GroupPrioritiesStep(groups: seq<RucksackGroup>, i: nat, common: Result<set<Item>>)
    requires i < |groups| && common == groups[i].ItemsCommonToAllRucksacks()
    ensures common.Fatal? ==> GroupPriorities(groups[i..]) == Fatal(common.message)
    ensures common.Ok? ==> GroupPriorities(groups[i..]) == AddTo(PrioritySum(common.value), GroupPriorities(groups[i + 1..]))
  {
    assert groups[i..][1..] == groups[i + 1..];
  }

  /** `calculateTotalPrioritiesOfUniqueItemsInEachRucksackGroup`. */
  method CalculateTotalPrioritiesOfUniqueItemsInEachRucksackGroup(groups: seq<RucksackGroup>) returns (r: Result<int>)
    ensures r == GroupPriorities(groups)
  {
    var totalPriority := 0;
    var i := 0;
    assert groups[0..] == groups;
    while i < |groups|
      invariant 0 <= i <= |groups|
      invariant GroupPriorities(groups) == AddTo(totalPriority, GroupPriorities(groups[i..]))
    {
      var common := groups[i].ItemsCommonToAllRucksacks();
      GroupPrioritiesStep(groups, i, common);
      if common.Fatal? {
        return Fatal(common.message);
      }
      var groupPriority := SumPriorities(common.value);
      AddToTwice(totalPriority, groupPriority, GroupPriorities(groups[i + 1..]));
      totalPriority := totalPriority + groupPriority;
      i := i + 1;
    }
    r := Ok(totalPriority);
  }

  /** Parsed rucksacks all have two compartments, so part one never traps. */
  lemma ParsedHaveCompartments(rawRucksacks: seq<string>)
    requires forall i :: 0 <= i < |rawRucksacks| ==> rawRucksacks[i] != ""
    requires ParseRucksackLines(rawRucksacks).Ok?
    ensures AllHaveCompartments(ParseRucksackLines(rawRucksacks).value)
  {
    var rucksacks := ParseRucksackLines(rawRucksacks).value;
    ParseRucksackLinesEach(rawRucksacks);
    forall i | 0 <= i < |rucksacks| ensures |rucksacks[i].compartments| > 0 {
      ParseRucksackShape(rawRucksacks[i]);
    }
  }

  /** A successful parse of the lines holds each line's own rucksack, in order. */
  lemma {:induction false} ParseRucksackLinesEach(rawRucksacks: seq<string>)
    requires forall i :: 0 <= i < |rawRucksacks| ==> rawRucksacks[i] != ""
    requires ParseRucksackLines(rawRucksacks).Ok?
    ensures forall i :: 0 <= i < |rawRucksacks| ==>
      ParseRucksack(rawRucksacks[i]).Ok? && ParseRucksackLines(rawRucksacks).value[i] == ParseRucksack(rawRucksacks[i]).value
  {
    if |rawRucksacks| > 0 {
      var rest := rawRucksacks[1..];
      ParseRucksackLinesEach(rest);
      assert forall i :: 0 < i < |rawRucksacks| ==> rawRucksacks[i] == rest[i - 1];
    }
  }

  method PartOne(rucksacks: seq<Rucksack>) returns (r: Result<int>)
    ensures r == CompartmentPriorities(rucksacks)
    ensures AllHaveCompartments(rucksacks) ==> r.Ok? && r.value >= 0
  {
    r := CalculateTotalPrioritiesOfItemsInAllCompartmentsOfEachRucksack(rucksacks);
  }

  method PartTwo(rucksacks: seq<Rucksack>) returns (r: Result<int>)
    ensures r == GroupPriorities(GroupNConsecutiveRucksacks(rucksacks, 3))
    ensures r.Ok? ==> r.value >= 0
  {
    var rucksackGroups := GroupNConsecutiveRucksacks(rucksacks, 3);
    r := CalculateTotalPrioritiesOfUniqueItemsInEachRucksackGroup(rucksackGroups);
  }
}
