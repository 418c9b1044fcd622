/** Day 1, Calorie Counting: the input lists the calories of the food items each elf carries,
    one number per line, with elves separated by blank lines. Part one is the largest total
    an elf carries; part two the sum of the three largest totals. */
module Day1 {
  import opened Wrappers
  import opened Text
  import opened Sums

  /** The calories of the items one elf carries. */
  datatype CalorificInventory = CalorificInventory(items: seq<int>) {

    /** `reduce(0, +)` over the items. */
    function TotalCalories(): int {
      Sum(items)
    }

    /** The mutating `append`, as the value it leaves behind. */
    function Append(newItem: int): (inventory: CalorificInventory)
      ensures inventory.items == items + [newItem]
      ensures inventory.TotalCalories() == TotalCalories() + newItem
    {
      SumAppend(items, [newItem]);
      CalorificInventory(items + [newItem])
    }

    /** `<` of `Comparable`: inventories are ordered by their totals. */
    predicate LessThan(other: CalorificInventory) {
      TotalCalories() < other.TotalCalories()
    }
  }

  /** `<` is a strict order on totals: irreflexive and transitive, and any two inventories
      are ordered one way, the other, or have equal totals. */
  lemma LessThanIsStrictOrder(a: CalorificInventory, b: CalorificInventory, c: CalorificInventory)
    ensures !a.LessThan(a)
    ensures a.LessThan(b) && b.LessThan(c) ==> a.LessThan(c)
    ensures a.LessThan(b) || b.LessThan(a) || a.TotalCalories() == b.TotalCalories()
  {
  }

  /** `s` without its leading line feeds. */
  function DropNewlines(s: string): (r: string)
    ensures |r| <= |s|
    ensures |r| == 0 || r[0] != '\n'
    ensures |s| > 0 && s[0] == '\n' ==> |r| < |s|
  {
    if |s| > 0 && s[0] == '\n' then DropNewlines(s[1..]) else s
  }

  /** What `DropNewlines` removes is a run of line feeds at the start, and what it keeps is
      the rest of `s` unchanged. */
  lemma {:induction false} DropNewlinesSuffix(s: string)
    ensures var r := DropNewlines(s);
      && r == s[|s| - |r|..]
      && forall i :: 0 <= i < |s| - |r| ==> s[i] == '\n'
  {
    if |s| > 0 && s[0] == '\n' {
      var r := DropNewlines(s[1..]);
      DropNewlinesSuffix(s[1..]);
      assert s[1..][|s[1..]| - |r|..] == s[|s| - |r|..];
      forall i | 0 <= i < |s| - |r| ensures s[i] == '\n' {
        if i > 0 {
          assert s[i] == s[1..][i - 1];
        }
      }
    }
  }

  /** The pieces of `s` between the matches of the pattern `\n{2,}`, empty pieces included:
      the leftmost match is taken first and runs over every line feed that follows it. */
  function Paragraphs(s: string): (pieces: seq<string>)
    ensures |pieces| >= 1
    decreases |s|
  {
    if |s| == 0 then [""]
    else if StartsWith(s, "\n\n") then [""] + Paragraphs(DropNewlines(s))
    else
      var rest := Paragraphs(s[1..]);
      [[s[0]] + rest[0]] + rest[1..]
  }

  /** `split(separator: /\n{2,}/)`: the non-empty pieces between blank lines. */
  function SplitParagraphs(s: string): seq<string> {
    NonEmpty(Paragraphs(s))
  }

  /** No two line feeds in a row. */
  predicate NoBlankLine(p: string) {
    forall i :: 0 <= i < |p| - 1 ==> !(p[i] == '\n' && p[i + 1] == '\n')
  }

  /** Text that stands alone between blank-line separators: non-empty, with no blank line and
      no line feed at either end. */
  predicate IsParagraph(p: string) {
    |p| > 0 && p[0] != '\n' && p[|p| - 1] != '\n' && NoBlankLine(p)
  }

  /** Dropping the first character keeps a text free of blank lines. */
  lemma NoBlankLineTail(p: string)
    requires |p| > 0 && NoBlankLine(p)
    ensures NoBlankLine(p[1..])
  {
    var t := p[1..];
    forall i | 0 <= i < |t| - 1 ensures !(t[i] == '\n' && t[i + 1] == '\n') {
      assert t[i] == p[i + 1] && t[i + 1] == p[i + 2];
    }
  }

  /** Text without a blank line that does not end in a line feed is one piece. */
  lemma {:induction false} ParagraphsSingle(p: string)
    requires NoBlankLine(p) && (|p| == 0 || p[|p| - 1] != '\n')
    ensures Paragraphs(p) == [p]
    decreases |p|
  {
    if |p| > 0 {
      if |p| > 1 {
        assert p[..2] != "\n\n" by {
          assert p[..2][0] == p[0] && p[..2][1] == p[1];
        }
      }
      NoBlankLineTail(p);
      ParagraphsSingle(p[1..]);
      assert [p[0]] + p[1..] == p;
    }
  }

  /** A piece without a blank line that does not end in a line feed, then a blank line, then
      text that does not start with a line feed: the piece comes first, then the pieces of
      that text. */
  lemma {:induction false} ParagraphsAfter(p: string, rest: string)
    requires NoBlankLine(p) && (|p| == 0 || p[|p| - 1] != '\n')
    requires |rest| == 0 || rest[0] != '\n'
    ensures Paragraphs(p + "\n\n" + rest) == [p] + Paragraphs(rest)
    decreases |p|
  {
    var s := p + "\n\n" + rest;
    if |p| == 0 {
      assert s == "\n\n" + rest;
      assert StartsWith(s, "\n\n");
      assert s[1..][1..] == rest;
      assert DropNewlines(rest) == rest;
      assert DropNewlines(s[1..]) == DropNewlines(rest);
    } else {
      assert s[0] == p[0];
      if |p| == 1 {
        assert p[|p| - 1] == p[0] && s[1] == '\n';
      } else {
        assert s[1] == p[1];
      }
      assert s[..2] != "\n\n" by {
        assert s[..2][0] == s[0] && s[..2][1] == s[1];
      }
      assert s[1..] == p[1..] + "\n\n" + rest;
      NoBlankLineTail(p);
      ParagraphsAfter(p[1..], rest);
      assert [p[0]] + p[1..] == p;
    }
  }

  /** The first character of a join is the first character of the first piece. */
  lemma JoinStart(pieces: seq<string>, sep: string)
    requires |pieces| > 0 && |pieces[0]| > 0
    ensures |Join(pieces, sep)| > 0 && Join(pieces, sep)[0] == pieces[0][0]
  {
  }

  /** Paragraphs joined with one blank line between them split back into those paragraphs. */
  lemma {:induction false} SplitParagraphsOfJoin(paragraphs: seq<string>)
    requires |paragraphs| > 0
    requires forall i :: 0 <= i < |paragraphs| ==> IsParagraph(paragraphs[i])
    ensures SplitParagraphs(Join(paragraphs, "\n\n")) == paragraphs
  {
    ParagraphsOfJoin(paragraphs);
    NonEmptyKeepsAll(paragraphs);
  }

  lemma {:induction false} ParagraphsOfJoin(paragraphs: seq<string>)
    requires |paragraphs| > 0
    requires forall i :: 0 <= i < |paragraphs| ==> IsParagraph(paragraphs[i])
    ensures Paragraphs(Join(paragraphs, "\n\n")) == paragraphs
    decreases |paragraphs|
  {
    if |paragraphs| == 1 {
      ParagraphsSingle(paragraphs[0]);
    } else {
      var rest := Join(paragraphs[1..], "\n\n");
      ParagraphsOfJoin(paragraphs[1..]);
      JoinStart(paragraphs[1..], "\n\n");
      ParagraphsAfter(paragraphs[0], rest);
      assert [paragraphs[0]] + paragraphs[1..] == paragraphs;
    }
  }

  /** Two texts without blank lines stay so when glued, unless a line feed ends the first and
      another starts the second. */
  lemma NoBlankLineConcat(a: string, b: string)
    requires NoBlankLine(a) && NoBlankLine(b)
    requires |a| == 0 || |b| == 0 || a[|a| - 1] != '\n' || b[0] != '\n'
    ensures NoBlankLine(a + b)
  {
    var s := a + b;
    forall i | 0 <= i < |s| - 1
      ensures !(s[i] == '\n' && s[i + 1] == '\n')
    {
      if i + 1 < |a| {
        assert s[i] == a[i] && s[i + 1] == a[i + 1];
      } else if i >= |a| {
        assert s[i] == b[i - |a|] && s[i + 1] == b[i - |a| + 1];
      } else {
        assert s[i] == a[|a| - 1] && s[i + 1] == b[0];
      }
    }
  }

  /** Non-empty lines without line feeds, joined with line feeds, make a paragraph. */
  lemma {:induction false} JoinLinesParagraph(lines: seq<string>)
    requires |lines| > 0
    requires forall i :: 0 <= i < |lines| ==> |lines[i]| > 0 && '\n' !in lines[i]
    ensures IsParagraph(Join(lines, "\n"))
    decreases |lines|
  {
    var first := lines[0];
    assert first[0] in first && first[|first| - 1] in first;
    assert NoBlankLine(first) by {
      forall i | 0 <= i < |first| - 1 ensures first[i] != '\n' {
        assert first[i] in first;
      }
    }
    if |lines| > 1 {
      var rest := Join(lines[1..], "\n");
      JoinLinesParagraph(lines[1..]);
      NoBlankLineConcat(first, "\n");
      NoBlankLineConcat(first + "\n", rest);
      assert Join(lines, "\n") == (first + "\n") + rest;
    }
  }

  /** The numbers of the lines that read as integers, in order; other lines are skipped. */
  function ParsedNumbers(lines: seq<string>): (numbers: seq<int>)
    ensures |numbers| <= |lines|
  {
    if |lines| == 0 then []
    else
      ParsedNumbers(lines[..|lines| - 1])
        + match ParseInt(lines[|lines| - 1]) { case Some(calories) => [calories] case None => [] }
  }

  /** The inventory one elf's text gives: its non-empty lines that read as integers. */
  function InventoryOf(rawInventory: string): CalorificInventory {
    CalorificInventory(ParsedNumbers(SplitOmittingEmpty(rawInventory, "\n")))
  }

  /** `parseCalorificInventories`: one inventory per piece between blank lines, each built by
      appending the numbers of its lines. */
  method ParseCalorificInventories(input: string) returns (inventories: seq<CalorificInventory>)
    ensures |inventories| == |SplitParagraphs(input)|
    ensures forall i :: 0 <= i < |inventories| ==> inventories[i] == InventoryOf(SplitParagraphs(input)[i])
  {
    inventories := [];
    var rawInventories := SplitParagraphs(input);
    for i := 0 to |rawInventories|
      invariant |inventories| == i
      invariant forall k :: 0 <= k < i ==> inventories[k] == InventoryOf(rawInventories[k])
    {
      var inventory := CalorificInventory([]);
      var rawItems := SplitOmittingEmpty(rawInventories[i], "\n");
      for j := 0 to |rawItems|
        invariant inventory.items == ParsedNumbers(rawItems[..j])
      {
        assert rawItems[..j + 1][..j] == rawItems[..j];
        match ParseInt(rawItems[j]) {
          case Some(calories) =>
            inventory := inventory.Append(calories);
          case None =>
        }
      }
      assert rawItems[..|rawItems|] == rawItems;
      inventories := inventories + [inventory];
    }
  }

  /** The lines of an inventory: each item in decimal. */
  function ItemLines(items: seq<int>): (lines: seq<string>)
    ensures |lines| == |items|
    ensures forall i :: 0 <= i < |items| ==> lines[i] == IntText(items[i])
  {
    if |items| == 0 then [] else ItemLines(items[..|items| - 1]) + [IntText(items[|items| - 1])]
  }

  /** Every item's line reads back as the item. */
  lemma {:induction false} ParsedItemLines(items: seq<int>)
    ensures ParsedNumbers(ItemLines(items)) == items
  {
    if |items| > 0 {
      var init, last := items[..|items| - 1], items[|items| - 1];
      assert init + [last] == items;
      ParsedItemLines(init);
      IntTextParses(last);
      ParsedNumbersAppend(ItemLines(init), IntText(last), last);
    }
  }

  /** A line that reads as a number adds that number at the end. */
  lemma ParsedNumbersAppend(lines: seq<string>, line: string, n: int)
    requires ParseInt(line) == Some(n)
    ensures ParsedNumbers(lines + [line]) == ParsedNumbers(lines) + [n]
  {
    assert (lines + [line])[..|lines|] == lines;
  }

  /** An elf's text: its items one per line. */
  function InventoryText(inventory: CalorificInventory): string {
    Join(ItemLines(inventory.items), "\n")
  }

  /** An integer's text is non-empty and has no line feed. */
  lemma IntTextIsLine(n: int)
    ensures |IntText(n)| > 0 && '\n' !in IntText(n)
  {
    var d := Decimal(if n < 0 then -n else n);
    assert forall k :: 0 <= k < |d| ==> IsDigit(d[k]);
    if n < 0 {
      assert forall k :: 0 < k < |IntText(n)| ==> IntText(n)[k] == d[k - 1];
    }
  }

  /** An inventory with items reads back from its text. */
  lemma InventoryOfText(inventory: CalorificInventory)
    requires |inventory.items| > 0
    ensures IsParagraph(InventoryText(inventory))
    ensures InventoryOf(InventoryText(inventory)) == inventory
  {
    var lines := ItemLines(inventory.items);
    forall i | 0 <= i < |lines| ensures |lines[i]| > 0 && '\n' !in lines[i] {
      IntTextIsLine(inventory.items[i]);
    }
    JoinLinesParagraph(lines);
    SplitOfJoin(lines, '\n');
    NonEmptyKeepsAll(lines);
    ParsedItemLines(inventory.items);
  }

  /** The input for some inventories: their texts, one blank line between two elves. */
  function InventoriesText(inventories: seq<CalorificInventory>): string {
    Join(seq(|inventories|, i requires 0 <= i < |inventories| => InventoryText(inventories[i])), "\n\n")
  }

  /** Inventories that all have items read back from their input: one inventory per elf, in
      order, each with its own items. */
  lemma ParseInventoriesText(inventories: seq<CalorificInventory>)
    requires |inventories| > 0
    requires forall i :: 0 <= i < |inventories| ==> |inventories[i].items| > 0
    ensures |SplitParagraphs(InventoriesText(inventories))| == |inventories|
    ensures forall i :: 0 <= i < |inventories| ==> InventoryOf(SplitParagraphs(InventoriesText(inventories))[i]) == inventories[i]
  {
    var texts := seq(|inventories|, i requires 0 <= i < |inventories| => InventoryText(inventories[i]));
    forall i | 0 <= i < |texts| ensures IsParagraph(texts[i]) && InventoryOf(texts[i]) == inventories[i] {
      InventoryOfText(inventories[i]);
    }
    SplitParagraphsOfJoin(texts);
  }

  /** `inventories.max()?.totalCalories ?? 0`: the largest total, or 0 without inventories. */
  function CalculateCalorificValueOfMostCalorificElfsInventory(inventories: seq<CalorificInventory>): (most: int)
    ensures |inventories| == 0 ==> most == 0
    ensures |inventories| > 0 ==> exists i :: 0 <= i < |inventories| && most == inventories[i].TotalCalories()
    ensures forall i :: 0 <= i < |inventories| ==> inventories[i].TotalCalories() <= most
  {
    if |inventories| == 0 then 0
    else if |inventories| == 1 then inventories[0].TotalCalories()
    else
      var front := CalculateCalorificValueOfMostCalorificElfsInventory(inventories[..|inventories| - 1]);
      var last := inventories[|inventories| - 1].TotalCalories();
      assert forall i :: 0 <= i < |inventories| - 1 ==> inventories[..|inventories| - 1][i] == inventories[i];
      if front < last then last else front
  }

  /** The totals of the inventories, in order. */
  function Totals(inventories: seq<CalorificInventory>): (totals: seq<int>)
    ensures |totals| == |inventories|
    ensures forall i :: 0 <= i < |inventories| ==> totals[i] == inventories[i].TotalCalories()
  {
    if |inventories| == 0 then [] else [inventories[0].TotalCalories()] + Totals(inventories[1..])
  }

  /** Ordered by total, smallest first. */
  predicate SortedByTotal(inventories: seq<CalorificInventory>) {
    forall i, j :: 0 <= i < j < |inventories| ==> inventories[i].TotalCalories() <= inventories[j].TotalCalories()
  }

  /** `inventory` put into sorted `inventories` after every smaller total. */
  function Insert(inventory: CalorificInventory, inventories: seq<CalorificInventory>): (r: seq<CalorificInventory>)
    requires SortedByTotal(inventories)
    ensures |r| == |inventories| + 1
    ensures SortedByTotal(r)
    ensures multiset(r) == multiset(inventories) + multiset{inventory}
  {
    if |inventories| == 0 then [inventory]
    else if inventory.TotalCalories() <= inventories[0].TotalCalories() then
      SortedCons(inventory, inventories);
      [inventory] + inventories
    else
      var rest := Insert(inventory, inventories[1..]);
      assert inventories == [inventories[0]] + inventories[1..];
      assert forall k :: 0 <= k < |rest| ==> inventories[0].TotalCalories() <= rest[k].TotalCalories() by {
        forall k | 0 <= k < |rest| ensures inventories[0].TotalCalories() <= rest[k].TotalCalories() {
          assert rest[k] in multiset(rest);
          if rest[k] != inventory {
            assert rest[k] in multiset(inventories[1..]);
          }
        }
      }
      SortedCons(inventories[0], rest);
      [inventories[0]] + rest
  }

  /** A sorted list stays sorted with an inventory no larger than any of it in front. */
  lemma SortedCons(inventory: CalorificInventory, inventories: seq<CalorificInventory>)
    requires SortedByTotal(inventories)
    requires forall k :: 0 <= k < |inventories| ==> inventory.TotalCalories() <= inventories[k].TotalCalories()
    ensures SortedByTotal([inventory] + inventories)
  {
    var r := [inventory] + inventories;
    forall i, j | 0 <= i < j < |r| ensures r[i].TotalCalories() <= r[j].TotalCalories() {
      assert r[j] == inventories[j - 1];
      if i > 0 {
        assert r[i] == inventories[i - 1];
      }
    }
  }

  /** `sorted()`: the inventories ordered by `<`, smallest total first. */
  function SortByTotal(inventories: seq<CalorificInventory>): (sorted: seq<CalorificInventory>)
    ensures |sorted| == |inventories|
    ensures SortedByTotal(sorted)
    ensures multiset(sorted) == multiset(inventories)
  {
    if |inventories| == 0 then []
    else
      assert inventories == [inventories[0]] + inventories[1..];
      Insert(inventories[0], SortByTotal(inventories[1..]))
  }

  /** `suffix(n)`: the last `n` elements, or all of them when there are fewer. */
  function Suffix<T>(s: seq<T>, n: nat): (r: seq<T>)
    ensures |r| == if n < |s| then n else |s|
    ensures r == s[|s| - |r|..]
  {
    if n < |s| then s[|s| - n..] else s
  }

  /** `reduce(0, +)` over inventories, adding their totals. */
  function SumOfTotals(inventories: seq<CalorificInventory>): int {
    Sum(Totals(inventories))
  }

  /** The sum of the totals of the `n` inventories with the largest totals; `suffix` traps on
      a negative length, so `n` is a natural number. */
  function CalculateCalorificValueOfNMostCalorificInventories(inventories: seq<CalorificInventory>, n: nat): int {
    var sortedInventories := SortByTotal(inventories);
    var topNInventories := Suffix(sortedInventories, n);
    SumOfTotals(topNInventories)
  }

  /** Every element of the front of a sorted sequence has a total no larger than any element
      of its back. */
  lemma SortedSplit(sorted: seq<CalorificInventory>, k: nat)
    requires SortedByTotal(sorted) && k <= |sorted|
    ensures forall a, b :: a in sorted[..k] && b in sorted[k..] ==> a.TotalCalories() <= b.TotalCalories()
  {
    forall a, b | a in sorted[..k] && b in sorted[k..] ensures a.TotalCalories() <= b.TotalCalories() {
      var i :| 0 <= i < k && sorted[..k][i] == a;
      var j :| 0 <= j < |sorted| - k && sorted[k..][j] == b;
      assert sorted[i] == a && sorted[k + j] == b;
    }
  }

  /** Part two adds the totals of `min(n, count)` inventories that no left-out inventory
      exceeds: the chosen and the left-out inventories together are the input. */
  lemma TopNChoosesLargest(inventories: seq<CalorificInventory>, n: nat, k: nat)
    requires k == if n < |inventories| then |inventories| - n else 0
    ensures CalculateCalorificValueOfNMostCalorificInventories(inventories, n) == SumOfTotals(SortByTotal(inventories)[k..])
    ensures |SortByTotal(inventories)[k..]| == if n < |inventories| then n else |inventories|
    ensures multiset(SortByTotal(inventories)[..k]) + multiset(SortByTotal(inventories)[k..]) == multiset(inventories)
    ensures forall a, b :: a in SortByTotal(inventories)[..k] && b in SortByTotal(inventories)[k..] ==> a.TotalCalories() <= b.TotalCalories()
  {
    var sorted := SortByTotal(inventories);
    assert sorted[..k] + sorted[k..] == sorted;
    SortedSplit(sorted, k);
  }

  /** The totals of an inventory put in front. */
  lemma SumOfTotalsFront(inventory: CalorificInventory, inventories: seq<CalorificInventory>)
    ensures SumOfTotals([inventory] + inventories) == inventory.TotalCalories() + SumOfTotals(inventories)
  {
    var t := Totals([inventory] + inventories);
    assert ([inventory] + inventories)[1..] == inventories;
    assert t == [inventory.TotalCalories()] + Totals(inventories);
    SumAppend([inventory.TotalCalories()], Totals(inventories));
    assert Sum([inventory.TotalCalories()]) == Sum([]) + inventory.TotalCalories();
  }

  /** Inserting adds the inserted inventory's total to the sum. */
  lemma {:induction false} SumOfTotalsInsert(inventory: CalorificInventory, inventories: seq<CalorificInventory>)
    requires SortedByTotal(inventories)
    ensures SumOfTotals(Insert(inventory, inventories)) == inventory.TotalCalories() + SumOfTotals(inventories)
    decreases |inventories|
  {
    if |inventories| == 0 {
      SumOfTotalsFront(inventory, []);
      assert [inventory] + [] == [inventory];
    } else if inventory.TotalCalories() <= inventories[0].TotalCalories() {
      SumOfTotalsFront(inventory, inventories);
    } else {
      var rest := Insert(inventory, inventories[1..]);
      SumOfTotalsFront(inventories[0], rest);
      SumOfTotalsInsert(inventory, inventories[1..]);
      SumOfTotalsFront(inventories[0], inventories[1..]);
      assert [inventories[0]] + inventories[1..] == inventories;
    }
  }

  /** Sorting does not change the sum of the totals. */
  lemma {:induction false} SumOfTotalsSorted(inventories: seq<CalorificInventory>)
    ensures SumOfTotals(SortByTotal(inventories)) == SumOfTotals(inventories)
  {
    if |inventories| > 0 {
      SumOfTotalsSorted(inventories[1..]);
      SumOfTotalsInsert(inventories[0], SortByTotal(inventories[1..]));
      SumOfTotalsFront(inventories[0], inventories[1..]);
      assert [inventories[0]] + inventories[1..] == inventories;
    }
  }

  /** Asking for at least as many inventories as there are adds up every total. */
  lemma TopNOfAll(inventories: seq<CalorificInventory>, n: nat)
    requires n >= |inventories|
    ensures CalculateCalorificValueOfNMostCalorificInventories(inventories, n) == SumOfTotals(inventories)
  {
    SumOfTotalsSorted(inventories);
  }

  /** The last of a sorted non-empty sequence has the largest total. */
  lemma SortedLastIsLargest(sorted: seq<CalorificInventory>)
    requires SortedByTotal(sorted) && |sorted| > 0
    ensures forall x :: x in multiset(sorted) ==> x.TotalCalories() <= sorted[|sorted| - 1].TotalCalories()
  {
    forall x | x in multiset(sorted) ensures x.TotalCalories() <= sorted[|sorted| - 1].TotalCalories() {
      assert x in sorted;
      var j :| 0 <= j < |sorted| && sorted[j] == x;
    }
  }

  /** The top one inventory's total is the largest total. */
  lemma TopOneIsMost(inventories: seq<CalorificInventory>)
    requires |inventories| > 0
    ensures CalculateCalorificValueOfNMostCalorificInventories(inventories, 1)
      == CalculateCalorificValueOfMostCalorificElfsInventory(inventories)
  {
    var sorted := SortByTotal(inventories);
    TopOneIsLastSorted(sorted);
    LastSortedIsMost(inventories, sorted);
  }

  /** The total of the top one of a sorted list is its last inventory's total. */
  lemma TopOneIsLastSorted(sorted: seq<CalorificInventory>)
    requires |sorted| > 0
    ensures SumOfTotals(Suffix(sorted, 1)) == sorted[|sorted| - 1].TotalCalories()
  {
    var top := sorted[|sorted| - 1];
    assert Suffix(sorted, 1) == [top];
    SumOfTotalsFront(top, []);
    assert [top] + [] == [top];
  }

  /** The last of the sorted inventories holds the largest total. */
  lemma LastSortedIsMost(inventories: seq<CalorificInventory>, sorted: seq<CalorificInventory>)
    requires |inventories| > 0
    requires SortedByTotal(sorted) && |sorted| == |inventories| && multiset(sorted) == multiset(inventories)
    ensures sorted[|sorted| - 1].TotalCalories() == CalculateCalorificValueOfMostCalorificElfsInventory(inventories)
  {
    var top := sorted[|sorted| - 1];
    var most := CalculateCalorificValueOfMostCalorificElfsInventory(inventories);
    SortedLastIsLargest(sorted);
    assert top in multiset(sorted);
    assert top.TotalCalories() <= most by {
      assert top in inventories;
    }
    assert most <= top.TotalCalories() by {
      var i :| 0 <= i < |inventories| && most == inventories[i].TotalCalories();
      assert inventories[i] in multiset(inventories);
    }
  }

  /** Part one: the largest total, which no inventory exceeds. */
  function PartOne(inventories: seq<CalorificInventory>): (answer: int)
    ensures forall i :: 0 <= i < |inventories| ==> inventories[i].TotalCalories() <= answer
    ensures |inventories| > 0 ==> exists i :: 0 <= i < |inventories| && answer == inventories[i].TotalCalories()
  {
    CalculateCalorificValueOfMostCalorificElfsInventory(inventories)
  }

  /** Part two: the totals of the three largest inventories added up: the last three of the
      sorted inventories, which hold no smaller total than any inventory left out; with three
      or fewer elves, every total. */
  function PartTwo(inventories: seq<CalorificInventory>): (answer: int)
    ensures var k := if 3 < |inventories| then |inventories| - 3 else 0;
      var sorted := SortByTotal(inventories);
      && answer == SumOfTotals(sorted[k..])
      && |sorted[k..]| == |inventories| - k
      && multiset(sorted[..k]) + multiset(sorted[k..]) == multiset(inventories)
      && forall a, b :: a in sorted[..k] && b in sorted[k..] ==> a.TotalCalories() <= b.TotalCalories()
    ensures |inventories| <= 3 ==> answer == SumOfTotals(inventories)
  {
    TopNChoosesLargest(inventories, 3, if 3 < |inventories| then |inventories| - 3 else 0);
    if |inventories| <= 3 then
      TopNOfAll(inventories, 3);
      CalculateCalorificValueOfNMostCalorificInventories(inventories, 3)
    else
      CalculateCalorificValueOfNMostCalorificInventories(inventories, 3)
  }
}
