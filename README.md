# Advent of Code 2022, days 1 to 9, in Dafny

This project models the puzzle solutions of days 1 to 9 of Advent of Code 2022, and proves
properties of them.

- **Day 1, Calorie Counting.** Elves' inventories are separated by blank lines. The answers
  are the largest total and the sum of the three largest totals.
- **Day 2, Rock Paper Scissors.** The games of a strategy guide are scored. The second code of
  a line is read either as one's own move or as the outcome the game must have.
- **Day 3, Rucksack Reorganization.** The answers add up the priorities of the items that both
  compartments of a rucksack share, and of the items that the three rucksacks of a group share.
- **Day 4, Camp Cleanup.** Pairs of section ranges are counted when one range contains the
  other, and when the two overlap.
- **Day 5, Supply Stacks.** Crate stacks drawn as text are parsed. The crane procedure is then
  run one crate at a time (CrateMover 9000) or en bloc (CrateMover 9001).
- **Day 6, Tuning Trouble.** The search finds the end of the first run of 4 (or 14) distinct
  characters.
- **Day 7, No Space Left On Device.** A file system is rebuilt from a shell transcript.
  Directory sizes are then summed, or the smallest one worth deleting is found.
- **Day 8, Treetop Tree House.** The trees of a height map are linked to their neighbours.
  Four scans per row and column mark the visible trees. Part two takes the best scenic score.
- **Day 9, Rope Bridge.** The head of a rope moves step by step. The tail, or the ninth knot,
  follows it, and the answer counts the distinct places it visits.

Values and their updates follow the source's own form:

- Swift structs and enums become datatypes.
- Code that changes state or loops becomes methods with loop invariants. Each method is proved
  against a specification function.
- Day 7's `FileSystem` and Day 8's `Forest` become classes whose methods update their fields.
- Each fatal error the program can raise is an error value in the model. These are
  `fatalError`, `assertionFailure`, a force-unwrap of `nil`, an inverted `ClosedRange` and
  `removeFirst` on an empty array. Each becomes a `Fatal` result whose message is the
  program's own where the program writes one.

### Day 7's transcript interpreter

The interpreter in `day-7/FileSystem.swift:40-75` behaves as follows, and the model does the
same:

- The working directory starts absent, not at the root. Only `cd /` sets it.
- `cd ..` at the root leaves no working directory instead of failing.
- `cd` to a name that no child directory has also leaves no working directory. After that, a
  file line is fatal, and so is a `cd` other than `cd /`.
- `dir` lines are never de-duplicated. A listing repeated twice creates the directories twice.
- A `dir` line read with no working directory creates a directory that hangs under nothing.
- `cd <name>` goes to the first child with that name. So `cd ..` followed by `cd <name>`
  returns to the same directory only when no earlier sibling shares its name
  (`ChangeDirectoryUpAndBack`).

## Model

| member | source | states |
|---|---|---|
| Day1.CalorificInventory.TotalCalories | day-1/main.swift:11-13 | the sum of the items; `Append` and `SumOfTotalsInsert` state how it changes |
| Day1.CalorificInventory.Append | day-1/main.swift:15-17 | appending an item adds it at the end and adds its calories to the total |
| Day1.LessThanIsStrictOrder | day-1/main.swift:19-21 | comparing inventories by total is irreflexive and transitive, and any two inventories are ordered one way or have equal totals |
| Day1.CalorificInventory.LessThan | day-1/main.swift:19-21 | comparison by total; `LessThanIsStrictOrder` states it is a strict order |
| Day1.DropNewlines | day-1/main.swift:30 | the greedy run of line feeds that the pattern `\n{2,}` consumes: what remains does not start with a line feed, and it is strictly shorter when the text started with one |
| Day1.DropNewlinesSuffix | day-1/main.swift:30 | what `DropNewlines` keeps is the input with its leading line feeds removed: an unchanged suffix, and every character dropped before it is a line feed |
| Day1.Paragraphs | day-1/main.swift:30 | splitting on runs of two or more line feeds always yields at least one piece |
| Day1.ParagraphsSingle | day-1/main.swift:30 | text with no blank line and no trailing line feed is a single piece |
| Day1.ParagraphsAfter | day-1/main.swift:30 | a paragraph, then a blank line, then text that starts with something else splits into that paragraph followed by the pieces of the rest |
| Day1.SplitParagraphsOfJoin | day-1/main.swift:30 | paragraphs joined by blank lines split back into exactly those paragraphs |
| Day1.ParagraphsOfJoin | day-1/main.swift:30 | the same round trip before empty pieces are dropped |
| Day1.NoBlankLineConcat | day-1/main.swift:30 | two texts without a blank line, glued without creating one, have none |
| Day1.JoinLinesParagraph | day-1/main.swift:34 | non-empty lines without line feeds, joined by line feeds, form a paragraph |
| Day1.ParsedNumbers | day-1/main.swift:34-40 | only the lines that read as integers give items, so there are never more items than lines |
| Day1.ParseCalorificInventories | day-1/main.swift:28-46 | one inventory per non-empty paragraph, in order; each holds the paragraph's integer lines, and lines that are not integers are skipped |
| Day1.ItemLines | day-1/main.swift:34-40 | one line per item, each the item's decimal text |
| Day1.ParsedItemLines | day-1/main.swift:34-40 | reading the lines written for a list of items gives back the items |
| Day1.ParsedNumbersAppend | day-1/main.swift:34-40 | a line that reads as an integer adds exactly that integer after the numbers of the earlier lines |
| Day1.IntTextIsLine | day-1/main.swift:34-40 | an integer's text is non-empty and has no line feed |
| Day1.InventoryOf | day-1/main.swift:33-42 | one paragraph's inventory: its integer lines in order; `InventoryOfText` gives the round trip |
| Day1.InventoryOfText | day-1/main.swift:28-46 | a non-empty inventory written one item per line is a paragraph and parses back to itself |
| Day1.ParseInventoriesText | day-1/main.swift:28-46 | non-empty inventories written as paragraphs separated by blank lines parse back to the same inventories, in order |
| Day1.CalculateCalorificValueOfMostCalorificElfsInventory | day-1/main.swift:48-50 | the largest total: no total exceeds it, it is some inventory's total, and it is 0 when there are no inventories |
| Day1.Totals | day-1/main.swift:52-58 | the inventories' totals, position by position |
| Day1.Insert | day-1/main.swift:52-58 | inserting into a list sorted by total keeps it sorted and adds exactly that inventory |
| Day1.SortedCons | day-1/main.swift:52-58 | an inventory no larger than any in a sorted list can go in front and the list stays sorted |
| Day1.SortByTotal | day-1/main.swift:52-58 | `sorted()`: sorted by total, the same length, and a permutation of the input |
| Day1.Suffix | day-1/main.swift:52-58 | `suffix(n)`: the last `min(n, count)` elements |
| Day1.SortedSplit | day-1/main.swift:52-58 | in a sorted list, every element before a cut has a total no larger than every element after it |
| Day1.CalculateCalorificValueOfNMostCalorificInventories | day-1/main.swift:52-58 | the sum of the last `n` totals after sorting; `TopNChoosesLargest`, `TopNOfAll` and `TopOneIsMost` state what it chooses |
| Day1.TopNChoosesLargest | day-1/main.swift:52-58 | the top-`n` sum is the sum of the last `min(n, count)` sorted inventories; these and the rest make up the input, and nothing left out has a larger total than anything chosen |
| Day1.SumOfTotals | day-1/main.swift:57 | `reduce(0, +)` over inventories; `SumOfTotalsInsert` and `SumOfTotalsSorted` state that insertion adds a total and sorting keeps the sum |
| Day1.SumOfTotalsInsert | day-1/main.swift:52-58 | inserting an inventory adds its total to the sum |
| Day1.SumOfTotalsSorted | day-1/main.swift:52-58 | sorting does not change the sum of the totals |
| Day1.TopNOfAll | day-1/main.swift:52-58 | asking for at least as many inventories as there are sums them all |
| Day1.SortedLastIsLargest | day-1/main.swift:52-58 | the last element of a sorted list has the largest total |
| Day1.TopOneIsMost | day-1/main.swift:48-58 | the top-1 sum equals the largest total |
| Day1.TopOneIsLastSorted | day-1/main.swift:51-57 | the top-1 sum of a sorted list is its last inventory's total |
| Day1.LastSortedIsMost | day-1/main.swift:47-53 | the last of the sorted inventories holds the largest total |
| Day1.PartOne | day-1/main.swift:72-74 | the answer is some inventory's total and no total exceeds it |
| Day1.PartTwo | day-1/main.swift:76-78 | the sum of the three largest totals: nothing left out exceeds anything chosen, and with at most three elves every total counts |
| Day2.Outcome.Score | day-2/main.swift:8-15 | an outcome scores 0, 3 or 6 |
| Day2.DecodeOutcome | day-2/main.swift:17-28 | X, Y and Z decode; any other code is fatal with the program's message |
| Day2.DecodeOutcomeCode | day-2/main.swift:17-28 | every outcome decodes from its own code |
| Day2.Move.RawValue | day-2/main.swift:31-38 | a move's raw value, which is also its score, lies between 1 and 3 |
| Day2.Move.Score | day-2/main.swift:36-38 | a move scores 1, 2 or 3 |
| Day2.Move.WinsAgainst | day-2/main.swift:40-42 | the move this one beats is a different move |
| Day2.Move.LosesTo | day-2/main.swift:44-46 | the move that beats this one is a different move |
| Day2.MoveWithRawValue | day-2/main.swift:41 | `Move(rawValue:)` exists exactly for 1 to 3 and has that raw value |
| Day2.Cycle | day-2/main.swift:40-46 | the raw-value arithmetic gives rock beats scissors, scissors beat paper and paper beats rock |
| Day2.WinsAgainstLosesTo | day-2/main.swift:40-46 | the two functions are inverse to each other |
| Day2.DecodeMove | day-2/main.swift:48-59 | A/X, B/Y and C/Z decode; any other code is fatal with the program's message |
| Day2.DecodeMoveCodes | day-2/main.swift:48-59 | every move decodes from both of its codes |
| Day2.Game.WithOutcome | day-2/main.swift:83-92 | the setter keeps the opponent's move and makes the game have the desired outcome |
| Day2.Game.Score | day-2/main.swift:66-68 | a game scores between 1 and 9 |
| Day2.Game.Outcome | day-2/main.swift:70-82 | the getter; `OutcomeFollowsCycle` states it agrees with `winsAgainst` both ways, and `WithOwnOutcome` that setting the outcome a game already has changes nothing |
| Day2.OutcomeFollowsCycle | day-2/main.swift:71-82 | the getter's table agrees with `winsAgainst`: win, loss and draw each hold exactly when the matching move relation holds |
| Day2.WithOwnOutcome | day-2/main.swift:71-92 | setting a game's own outcome leaves it unchanged |
| Day2.NewGame | day-2/main.swift:95-98 | a game exists exactly when both codes decode, and it holds the decoded moves |
| Day2.ParseGame | day-2/main.swift:108-126 | a line without exactly two codes is fatal; otherwise it parses exactly when both codes decode as moves and, in outcome mode, the second also decodes as an outcome; the game holds the decoded moves, or has the decoded outcome; a failure carries the first failing decode's message |
| Day2.ParseGameLines | day-2/main.swift:105-128 | a successful parse gives one game per line |
| Day2.ParseGameLinesStep | day-2/main.swift:108-126 | parsing from a line on is that line's game followed by the rest, or that line's failure |
| Day2.ParseRockPaperScissorsGames | day-2/main.swift:105-128 | the loop parses the non-empty lines exactly as the line-by-line definition |
| Day2.SplitCodes | day-2/main.swift:110 | two one-letter codes separated by a space split into those codes |
| Day2.ParseMoveLine | day-2/main.swift:105-128 | a game written as two move codes parses back to itself |
| Day2.ParseOutcomeLine | day-2/main.swift:105-128 | a game written as a move code and its outcome code parses back to itself in outcome mode |
| Day2.Scores | day-2/main.swift:130-132 | the games' scores, position by position |
| Day2.CalculateTotalScore | day-2/main.swift:130-132 | `reduce(0, +)` over games; `TotalIsSumOfScores`, `TotalScoreBounds` and `TotalScoreAppend` state its value |
| Day2.TotalIsSumOfScores | day-2/main.swift:130-132 | the total score is the sum of the games' scores |
| Day2.TotalScoreBounds | day-2/main.swift:130-132 | the total lies between the number of games and nine times that number |
| Day2.TotalScoreAppend | day-2/main.swift:130-132 | the total of two guides played one after the other is the sum of their totals |
| Day2.PartOne | day-2/main.swift:134-137 | fatal exactly when parsing is; otherwise the total score with second codes as moves, bounded by the line count |
| Day2.PartTwo | day-2/main.swift:139-142 | the same with second codes as outcomes |
| Day3.Item.Priority | day-3/main.swift:23-29 | priorities lie in 1 to 52, and 1 to 26 exactly for lower-case letters |
| Day3.PriorityInjective | day-3/main.swift:23-29 | different items have different priorities |
| Day3.NewItem | day-3/main.swift:15-21 | an item exists exactly for a letter; anything else is fatal with the program's message |
| Day3.Compartment.UniqueItems | day-3/main.swift:41-43 | the set holds exactly the compartment's items |
| Day3.IntersectCompartments | day-3/main.swift:64-70 | the reduction keeps exactly the items in every compartment |
| Day3.UniteCompartments | day-3/main.swift:72-78 | the reduction keeps exactly the items in some compartment |
| Day3.Descriptions | day-3/main.swift:54-58 | one description per compartment |
| Day3.Rucksack.ItemsCommonToAllCompartments | day-3/main.swift:64-70 | fatal exactly without compartments; otherwise exactly the items every compartment holds |
| Day3.Rucksack.ItemsInAllCompartments | day-3/main.swift:72-78 | fatal exactly without compartments; otherwise exactly the items some compartment holds |
| Day3.IntersectRucksacks | day-3/main.swift:95-101 | exactly the items in every rucksack, or fatal when some rucksack has no compartment |
| Day3.RucksackGroup.ItemsCommonToAllRucksacks | day-3/main.swift:95-101 | fatal exactly for an empty group or a rucksack without compartments; otherwise exactly the items every rucksack holds |
| Day3.GroupNConsecutiveRucksacks | day-3/main.swift:144-150 | groups of `n` consecutive rucksacks; `GroupsShape` states their shape |
| Day3.GroupsShape | day-3/main.swift:144-150 | the groups concatenate to the rucksacks; every group but the last has `n` rucksacks and the last has 1 to `n` |
| Day3.ParseItems | day-3/main.swift:129-133 | succeeds exactly when every character is a letter, giving one item per character in order |
| Day3.ParseCompartments | day-3/main.swift:125-136 | succeeds exactly when every piece is letters only, giving one compartment per piece that describes back to the piece |
| Day3.ParseRucksack | day-3/main.swift:118-122 | a line of odd length is fatal with the program's message |
| Day3.ParseRucksackShape | day-3/main.swift:114-142 | a line parses exactly when it has even length and only letters; the rucksack has two equal compartments and describes back to the line |
| Day3.ParseRucksackLines | day-3/main.swift:114-142 | a successful parse gives one rucksack per line |
| Day3.ParseRucksackLinesStep | day-3/main.swift:117-139 | parsing from a line on is that line's rucksack followed by the rest, or that line's failure |
| Day3.ParseRucksackLinesEach | day-3/main.swift:114-142 | a successful parse holds, at each position, the rucksack of that line |
| Day3.ReadItems | day-3/main.swift:129-133 | the loop over a compartment's characters computes the item parse |
| Day3.ParseItemsFirstFailure | day-3/main.swift:127-133 | the parse fails with the message for the first non-letter |
| Day3.ReadCompartments | day-3/main.swift:127-136 | the loop over a line's compartments computes the compartment parse |
| Day3.ReadRucksack | day-3/main.swift:119-138 | the loop body computes the line's rucksack, or its odd-length or non-letter failure, as the definition does |
| Day3.ParseRucksacksContents | day-3/main.swift:114-142 | one rucksack per non-empty line, exactly as the line-by-line definition |
| Day3.SumPriorities | day-3/main.swift:155-161 | the reduction over a set adds up exactly its items' priorities |
| Day3.PrioritySumNonNegative | day-3/main.swift:155-161 | a priority sum is never negative |
| Day3.CompartmentPriorities | day-3/main.swift:165-176 | fatal exactly when a rucksack has no compartment; otherwise non-negative |
| Day3.CalculateTotalPrioritiesOfItemsInAllCompartmentsOfEachRucksack | day-3/main.swift:165-176 | the loop computes the per-rucksack sum of shared-item priorities |
| Day3.CompartmentPrioritiesStep | day-3/main.swift:168-173 | the sum from one rucksack on is that rucksack's failure, or its priorities added to the sum of the rest |
| Day3.GroupPriorities | day-3/main.swift:152-163 | a failure is the nil-unwrap trap, and a total is non-negative |
| Day3.CalculateTotalPrioritiesOfUniqueItemsInEachRucksackGroup | day-3/main.swift:152-163 | the loop computes the per-group sum of shared-item priorities |
| Day3.GroupPrioritiesStep | day-3/main.swift:155-160 | the sum from one group on is that group's failure, or its priorities added to the sum of the rest |
| Day3.ParsedHaveCompartments | day-3/main.swift:114-142 | parsed rucksacks all have compartments, so part one cannot trap on them |
| Day3.PartOne | day-3/main.swift:178-180 | the per-rucksack sum, which succeeds and is non-negative when every rucksack has compartments |
| Day3.PartTwo | day-3/main.swift:182-186 | the sum over groups of three consecutive rucksacks |
| Day4.MakeRange | day-4/main.swift:23-25 | `lower...upper` exists exactly when the bounds are in order and keeps them; otherwise it traps |
| Day4.RangesOverlapShare | day-4/main.swift:31-33 | two ranges overlap exactly when some section lies in both |
| Day4.NewSectionAssignment | day-4/main.swift:11-25 | an assignment exists exactly for ordered bounds, which become its first and last sections |
| Day4.SectionAssignment.Overlaps | day-4/main.swift:31-33 | `ClosedRange.overlaps`; `RangesOverlapShare` states it means a shared section |
| Day4.AssignmentPair.IsFullyContained | day-4/main.swift:44-51 | the spanning range equals one side; `FullyContainedCovers` states it means one side covers the other |
| Day4.AssignmentPair.Overlaps | day-4/main.swift:53-55 | the sides overlap; `OverlapsShare` states it means a shared section |
| Day4.FullyContainedCovers | day-4/main.swift:44-51 | a pair is fully contained exactly when one elf's sections all belong to the other's |
| Day4.OverlapsShare | day-4/main.swift:53-55 | a pair overlaps exactly when some section belongs to both elves |
| Day4.PairSymmetric | day-4/main.swift:44-55 | neither question depends on the order of the pair |
| Day4.ContainedOverlaps | day-4/main.swift:44-55 | a fully contained pair overlaps |
| Day4.ParseSectionAssignment | day-4/main.swift:70-77 | the nil-unwrap trap exactly when there is no `-` piece or the first or last piece is not an integer; otherwise an inverted range is fatal, and the assignment runs from the first piece's value to the last piece's |
| Day4.ParseAssignmentPair | day-4/main.swift:62-83 | a line without exactly two comma pieces is fatal with the program's message; otherwise it parses exactly when both sides do, into the pair of the two sides, and a failure carries the first failing side's message |
| Day4.DecimalHasNoSeparator | day-4/main.swift:62-74 | decimal digits contain neither `-`, `,` nor a line feed |
| Day4.ParseSectionAssignmentDescription | day-4/main.swift:19-21 | an assignment with non-negative bounds parses back from its description |
| Day4.ParseAssignmentPairDescription | day-4/main.swift:40-42 | a pair with non-negative bounds parses back from its description |
| Day4.NoCommaInDescription | day-4/main.swift:19-21 | such a description is non-empty and has no comma and no line feed |
| Day4.ParseAssignmentPairLines | day-4/main.swift:58-83 | a successful parse gives one pair per line |
| Day4.ParseAssignmentPairLinesStep | day-4/main.swift:61-81 | parsing from a line on is that line's pair followed by the rest, or that line's failure |
| Day4.ParseAssignmentPairLinesEach | day-4/main.swift:58-83 | lines that each parse as a pair parse together as those pairs, in order |
| Day4.ParseAssignmentPairLinesDescriptions | day-4/main.swift:58-83 | the pairs' descriptions, one per line, parse back to the pairs |
| Day4.ParseDescriptions | day-4/main.swift:58-83 | a whole input written from the pairs parses back to the pairs |
| Day4.ParseAssignmentPairs | day-4/main.swift:58-83 | the loop parses the non-empty lines exactly as the line-by-line definition |
| Day4.ReadAssignmentPair | day-4/main.swift:62-79 | the loop body computes the line's pair, or the failure of the pair check or of either side, as the definition does |
| Day4.CountFullyContainedAssignmentPairs | day-4/main.swift:85-89 | the counting reduce; `CountFullyContainedMeans` states what it counts |
| Day4.CountOverlappingAssignmentPairs | day-4/main.swift:91-95 | the counting reduce; `CountOverlappingMeans` states what it counts |
| Day4.CountFullyContainedMeans | day-4/main.swift:85-89 | the count is the number of pairs where one elf's sections cover the other's |
| Day4.CountOverlappingMeans | day-4/main.swift:91-95 | the count is the number of pairs whose elves share a section |
| Day4.CountsOrdered | day-4/main.swift:85-95 | the contained count never exceeds the overlap count, which never exceeds the number of pairs |
| Day4.PartOne | day-4/main.swift:97-99 | the number of covering pairs, no more than part two's answer |
| Day4.PartTwo | day-4/main.swift:101-103 | the number of sharing pairs, no more than the number of pairs |
| Day5.CrateStack.TopCrate | day-5/main.swift:28-30 | there is a top crate exactly when the stack is non-empty, and it is the first crate |
| Day5.CrateStack.Emplace | day-5/main.swift:36-38 | the crate becomes the top one on the old crates; the label is kept |
| Day5.CrateStack.Reclaim | day-5/main.swift:50-52 | gives the top crate and the stack of the crates below it |
| Day5.CrateStack.EmplaceMultiple | day-5/main.swift:40-44 | crates put on one at a time end up reversed on top |
| Day5.CrateStack.EmplaceMultipleEnBloc | day-5/main.swift:46-48 | crates put on en bloc keep their order on top |
| Day5.CrateStack.ReclaimMultiple | day-5/main.swift:54-62 | takes the top `k` crates, top first, and leaves the rest |
| Day5.EmplaceThenReclaim | day-5/main.swift:36-52 | putting a crate on and taking it off restores the stack |
| Day5.ReclaimThenEmplaceEnBloc | day-5/main.swift:46-62 | calling `reclaimMultiple(k)` and then `emplaceMultipleEnBloc` with the crates taken gives back the stack |
| Day5.SeparateCrateStackLabels | day-5/main.swift:75-85 | the levels and the label line are exactly the drawing's lines, and they join back into the drawing |
| Day5.ParseStackLabels | day-5/main.swift:87-100 | fatal exactly when the label line holds a letter or underscore; otherwise one empty stack per digit at its offset |
| Day5.ColumnTopIsFirstLevel | day-5/main.swift:107-115 | a column's top crate is the one in the first level that has a crate there |
| Day5.ColumnOfEmptyLevels | day-5/main.swift:107-115 | a column with no crate drawn in it is empty |
| Day5.StackCrates | day-5/main.swift:107-115 | fatal exactly when a crate is drawn where no stack is; otherwise each stack gains its column's crates, top first |
| Day5.StackLevel | day-5/main.swift:108-114 | fatal exactly when a letter of the level stands where no stack is; otherwise each stack gains the crate drawn at its offset and no key changes |
| Day5.StrayCrateStep | day-5/main.swift:107-115 | the levels up to one hold a stray crate exactly when the earlier ones or that level do |
| Day5.ColumnCratesStep | day-5/main.swift:107-115 | one more level appends its crate, if any, to each column |
| Day5.KeyByLabel | day-5/main.swift:117-121 | every stack is filed under its own label, and exactly the labels present become keys |
| Day5.ParseInitialCrateStackState | day-5/main.swift:102-124 | fatal exactly for a bad label or a stray crate; otherwise every label is a key, and each key's stack holds its column's crates |
| Day5.LabelStacksExactly | day-5/main.swift:87-100 | the label parse's result is determined by the label line |
| Day5.ParseProcedureLine | day-5/main.swift:135-145 | a line is a procedure exactly when it holds three numbers, and the procedure is those numbers in order (count, source, target); any other count is fatal with the program's message |
| Day5.ParseFormattedProcedure | day-5/main.swift:135-145 | `move n from a to b` parses back to the procedure |
| Day5.ParseProcedureLines | day-5/main.swift:126-149 | no more procedures than lines |
| Day5.ParseProcedureLinesStops | day-5/main.swift:130-133 | nothing after the first empty line is read |
| Day5.ParseCraneProcedure | day-5/main.swift:126-149 | the loop parses the lines exactly as the line-by-line definition |
| Day5.SeparateCrateStateCraneProcedure | day-5/main.swift:167-178 | succeeds exactly when there are two non-empty parts between blank lines, and returns them |
| Day5.Move | day-5/main.swift:151-165 | a move succeeds exactly when both stacks exist and the source has enough crates; a short source is the `removeFirst` trap and a missing stack the nil-unwrap trap; it keeps the labels and every stack other than the two named |
| Day5.TotalCratesUpdate | day-5/main.swift:151-165 | replacing a stack changes the crate count by the size difference |
| Day5.MoveConservesCrates | day-5/main.swift:151-165 | a move keeps the number of crates; the moved crates are the source's top ones, put on the target reversed for the 9000 and in order for the 9001, also when source and target are the same stack |
| Day5.Run | day-5/main.swift:151-165 | the procedures applied in order, stopping at the first trap; `RunStep`, `RunFatalPersists` and `RunConservesCrates` state its behaviour |
| Day5.RunConservesCrates | day-5/main.swift:151-165 | running any procedure keeps the labels and the number of crates |
| Day5.Execute | day-5/main.swift:151-165 | one procedure through the stack operations computes the move |
| Day5.ExecuteCraneProcedures | day-5/main.swift:151-165 | the loop computes the run of all procedures |
| Day5.RunStep | day-5/main.swift:151-165 | one more procedure applies its move to the stacks reached so far |
| Day5.RunFatalPersists | day-5/main.swift:151-165 | once a prefix of the procedure is fatal, so is the whole run |
| Day5.SortedLabels | day-5/main.swift:190-192 | the labels in strictly increasing order, each exactly once |
| Day5.SmallestExists | day-5/main.swift:190-192 | a non-empty set of labels has a smallest one |
| Day5.TopCrates | day-5/main.swift:185-202 | the top crate of every stack in label order |
| Day5.PartOne | day-5/main.swift:180-203 | fatal exactly when the 9000 run is; otherwise the top crates after it |
| Day5.PartTwo | day-5/main.swift:205-228 | fatal exactly when the 9001 run is; otherwise the top crates after it |
| Day6.FirstMarkerEndUnique | day-6/main.swift:14-32 | the reported offset is determined by the datastream |
| Day6.WindowCount | day-6/main.swift:18-27 | a window of at most `n` characters holds `n` distinct ones exactly when it is `n` long with no repeat |
| Day6.FindIndexAfterNUniqueConsecutiveCharacters | day-6/main.swift:14-32 | the offset just past the first run of `n` distinct characters, or 0 when there is none |
| Day6.FindPacketStartMarker | day-6/main.swift:34-36 | the same for runs of 4 |
| Day6.FindMessageStartMarker | day-6/main.swift:38-40 | the same for runs of 14 |
| Day6.PartOne | day-6/main.swift:42-44 | the packet marker's end |
| Day6.PartTwo | day-6/main.swift:46-48 | the message marker's end |
| Day7File.MatchesFilePatternExactly | day-7/File.swift:13 | the decision procedure agrees with a whole match of `(\d+) ([a-zA-Z.]+)` |
| Day7File.ParseFileInformation | day-7/File.swift:35-44 | succeeds exactly on a whole match, giving the name after the space and the size read from the digits |
| Day7File.ParseFileInformationRoundTrip | day-7/File.swift:35-44 | a size and a valid name written as a file line parse back |
| Day7Directory.FilesSizeNonNegative | day-7/Directory.swift:19-29 | with no negative file size, the files' total is non-negative and at least each file's size |
| Day7Directory.Size | day-7/Directory.swift:19-29 | files plus child directories, recomputed; `SizeBounds` and `WithFileSize` state its value |
| Day7Directory.SubdirectoriesSize | day-7/Directory.swift:24-26 | the children's reduce; `SubdirectoriesSizeBounds` states its bounds |
| Day7Directory.SizeBounds | day-7/Directory.swift:19-29 | a directory's size is non-negative and at least each of its files and child directories |
| Day7Directory.SubdirectoriesSizeBounds | day-7/Directory.swift:19-29 | the child directories' total is non-negative and at least each child's size |
| Day7Directory.InSubtreeBelow | day-7/Directory.swift:9-13 | a directory's ancestors come before it in the registry |
| Day7Directory.InSubtreeOfParent | day-7/Directory.swift:9-13 | what lies below a child lies below its parent |
| Day7Directory.InSubtreeOfChild | day-7/Directory.swift:9-13 | what lies strictly below a directory lies below one of its children |
| Day7Directory.InSubtreeChain | day-7/Directory.swift:9-13 | the ancestors of a directory form a chain |
| Day7Directory.OneChildOnPath | day-7/Directory.swift:9-13 | at most one child lies on the path to a directory |
| Day7Directory.InSubtreeSameParents | day-7/Directory.swift:9-13 | subtrees depend on parent links only |
| Day7Directory.ParseDirectoryInformation | day-7/Directory.swift:50-56 | a success is a letters-only name, and the line is `dir ` followed by it |
| Day7Directory.ParseDirectoryInformationRoundTrip | day-7/Directory.swift:50-56 | every `dir <name>` line with a letters-only name parses back to the name |
| Day7Directory.AttachDirectory | day-7/Directory.swift:39-48 | a new empty directory at the end, added to its parent's children; nothing else changes, and a bad line is fatal |
| Day7Directory.AttachFile | day-7/File.swift:25-33 | the file is appended to its directory's files; nothing else changes, and a bad line is fatal |
| Day7Directory.WithFileKeepsTree | day-7/File.swift:25-33 | adding a file keeps the tree and every link |
| Day7Directory.WithFileSize | day-7/Directory.swift:19-29 | adding a file adds its size to its directory and to every directory above it, and to no other directory |
| Day7Directory.WithFileSubdirectoriesSize | day-7/Directory.swift:19-29 | the same for the child directories' total |
| Day7Directory.ChildOnPathStep | day-7/Directory.swift:19-29 | the first `k` children lead to a directory when the first `k - 1` or child `k - 1` do, and never both, since a tree has one path |
| Day7Directory.WithDirectoryKeepsTree | day-7/Directory.swift:39-48 | creating a directory keeps the tree, and the old directories keep their parents and files |
| Day7Directory.RootAppendKeepsTree | day-7/Directory.swift:39-48 | a new directory without a parent or children, added last, keeps the registry a forest |
| Day7Directory.AppendedChildKeepsTree | day-7/Directory.swift:39-48 | appending a childless directory listed last under its parent keeps the tree |
| Day7Directory.AppendedChildKeepsOrder | day-7/Directory.swift:39-48 | the same keeps every child after its parent |
| Day7Directory.AppendedChildKeepsLinks | day-7/Directory.swift:39-48 | the same keeps parent and child links matching |
| Day7Directory.AppendedChildKeepsDistinct | day-7/Directory.swift:39-48 | the same keeps every child list free of repeats |
| Day7Directory.WithDirectoryKeepsOrder | day-7/Directory.swift:39-48 | children still come after their parents, and an old directory gains at most one child at the end |
| Day7Directory.WithDirectorySize | day-7/Directory.swift:19-48 | a new directory has size 0 and changes no other directory's size |
| Day7Directory.WithDirectorySubdirectoriesSize | day-7/Directory.swift:19-48 | the same for the child directories' total |
| Day7FileSystem.FirstChildNamed | day-7/FileSystem.swift:63-65 | the first child with the name, or none exactly when no child has it |
| Day7FileSystem.CreateFile | day-7/FileSystem.swift:44-51 | fatal exactly without a working directory; otherwise the file joins the working directory and the file registry |
| Day7FileSystem.CreateDirectory | day-7/FileSystem.swift:52-55 | never fails; the directory joins the registry under the working directory |
| Day7FileSystem.ChangeDirectory | day-7/FileSystem.swift:56-68 | fatal exactly without a working directory (except for `/`); `/` goes to the root, `..` to the parent, and a name to the first child with it; only the cursor changes |
| Day7FileSystem.FirstNamedAtUnique | day-7/FileSystem.swift:63-65 | the first position of a name is unique |
| Day7FileSystem.ChangeDirectoryUpAndBack | day-7/FileSystem.swift:56-68 | `cd ..` then `cd <name>` returns to the directory when it is its parent's first child with that name |
| Day7FileSystem.Step | day-7/FileSystem.swift:42-73 | a line is fatal exactly when it is a file line without a working directory, a `cd` other than `/` without one, or of no known shape; `$ ls` and empty lines change nothing |
| Day7FileSystem.Replay | day-7/FileSystem.swift:40-75 | a successful replay leaves a well-formed state |
| Day7FileSystem.ReplayFatalPersists | day-7/FileSystem.swift:40-75 | once a prefix of the transcript is fatal, so is the whole transcript |
| Day7FileSystem.ReplayStep | day-7/FileSystem.swift:43-74 | replaying one more line steps from the state reached so far |
| Day7FileSystem.Initial | day-7/FileSystem.swift:33-38 | a fresh file system satisfies the invariant |
| Day7FileSystem.FilesSizeAppend | day-7/FileSystem.swift:44-51 | one more file adds its size to the total |
| Day7FileSystem.KeepsSubtrees | day-7/FileSystem.swift:40-75 | steps that keep parent links keep the cursor and the files under the root |
| Day7FileSystem.CreateFilePreservesInvariant | day-7/FileSystem.swift:44-51 | a file line keeps the invariant: a tree rooted at `/` whose size is the total of all files |
| Day7FileSystem.CreateDirectoryPreservesInvariant | day-7/FileSystem.swift:52-55 | a `dir` line keeps the invariant |
| Day7FileSystem.ChangeDirectoryPreservesInvariant | day-7/FileSystem.swift:56-68 | a `cd` line keeps the invariant |
| Day7FileSystem.StepPreservesInvariant | day-7/FileSystem.swift:42-73 | every line keeps the invariant |
| Day7FileSystem.ReplayPreservesInvariant | day-7/FileSystem.swift:40-75 | every transcript keeps the invariant |
| Day7FileSystem.SmallestSizeAmong | day-7/FileSystem.swift:83-87 | the least matching size; `SmallestSizeAmongIsMinimum` states it |
| Day7FileSystem.SmallestSizeAmongIsMinimum | day-7/FileSystem.swift:83-87 | there is a smallest matching size exactly when something matches; it is a matching size and no larger than any other |
| Day7FileSystem.SizeAmong | day-7/FileSystem.swift:77-81 | the conditional reduce over directories; `SizeAmongBounds` states its bounds |
| Day7FileSystem.SizeAmongBounds | day-7/FileSystem.swift:77-81 | the total of the matching sizes is non-negative, at least each matching size, and 0 when nothing matches |
| Day7FileSystem.FileSystem.constructor | day-7/FileSystem.swift:33-38 | only the root `/`, no files and no working directory |
| Day7FileSystem.FileSystem.ParseFileSystem | day-7/FileSystem.swift:40-75 | fatal exactly when the replay of the lines is; otherwise the new state is the replay's |
| Day7FileSystem.FileSystem.InterpretLine | day-7/FileSystem.swift:44-73 | one line changes the fields to the state `Step` gives, or fails with `Step`'s message |
| Day7FileSystem.FileSystem.Size | day-7/FileSystem.swift:25-27 | the root's size is the total size of all files, and it is non-negative |
| Day7FileSystem.FileSystem.RemainingSpace | day-7/FileSystem.swift:23-31 | 70 000 000 less the total size of all files |
| Day7FileSystem.FileSystem.SizeOfDirectories | day-7/FileSystem.swift:77-81 | non-negative, at least each matching directory's size, and 0 when none matches |
| Day7FileSystem.FileSystem.SizeOfSmallestDirectory | day-7/FileSystem.swift:83-87 | the size of a matching directory that is no larger than any other, and fatal only when none matches |
| Day7.PartOne | day-7/main.swift:8-12 | the total over directories under 100 000 is at least each of them, and 0 when there are none |
| Day7.PartTwo | day-7/main.swift:14-18 | the smallest directory size that frees 30 000 000; it never traps, because the root qualifies |
| Day8Tree.AllDirectionsListed | day-8/Tree.swift:8-13 | `allCases` lists every direction |
| Day8Tree.Tree.MarkVisibleFrom | day-8/Tree.swift:19-22 | setting one flag sets it and changes nothing else |
| Day8Tree.NewTree | day-8/Tree.swift:43-45 | a new tree has its height and no flag set |
| Day8Tree.Tree.Visible | day-8/Tree.swift:33-35 | some flag is set; `VisibleFromSomeDirection` states it |
| Day8Tree.VisibleFromSomeDirection | day-8/Tree.swift:33-35 | a tree is visible exactly when some flag is set |
| Day8Tree.ViewingDistance | day-8/Tree.swift:60-75 | the distance counts the trees up to and including the first one at least as tall, or up to the edge; it is 0 only at the edge |
| Day8Tree.ViewingDistanceOfTallest | day-8/Tree.swift:60-75 | a tree taller than everything in a line sees to the edge |
| Day8Tree.Tallest | day-8/Forest.swift:68-73 | the running maximum: at least every height seen, and one of them or -1 |
| Day8Tree.TallestStep | day-8/Forest.swift:71-74 | one more height becomes the running maximum exactly when it is taller |
| Day8Forest.Width | day-8/Forest.swift:48-57 | the number of columns is the length of the longest row |
| Day8Forest.ColumnOfShape | day-8/Forest.swift:48-57 | a column lists, top-down, the place in that column of every row that reaches it |
| Day8Forest.ColumnOfBeyondWidth | day-8/Forest.swift:48-57 | no column lies beyond the widest row |
| Day8Forest.Columns | day-8/Forest.swift:48-57 | one column per index up to the width |
| Day8Forest.Above | day-8/Forest.swift:49-52 | the nearest row above that reaches the column, or none |
| Day8Forest.Below | day-8/Forest.swift:49-52 | the nearest row below that reaches the column, or none |
| Day8Forest.Next | day-8/Tree.swift:47-58 | the neighbour in a direction is the nearest tree that way; there is none exactly when no tree lies that way |
| Day8Forest.Outward | day-8/Tree.swift:60-75 | the walk along the links stays in the grid and is empty exactly at the edge |
| Day8Forest.OutwardMeetsTowards | day-8/Tree.swift:60-75 | the walk meets exactly the trees that lie that way |
| Day8Forest.RectangularColumn | day-8/Forest.swift:48-57 | in a rectangular map, `columns[c][r]` and `rows[r][c]` are the same tree |
| Day8Forest.RectangularNext | day-8/Forest.swift:41-57 | in a rectangular map, the links are grid adjacency |
| Day8Forest.Opposite | day-8/Forest.swift:82 | reversing a line looks the other way |
| Day8Forest.Heights | day-8/Forest.swift:66-120 | the heights along a line, position by position |
| Day8Forest.ScanCondition | day-8/Forest.swift:70-74 | on a scan line, a tree is taller than everything beyond it exactly when it is taller than the running maximum |
| Day8Forest.ReversedScanLine | day-8/Forest.swift:82 | a reversed scan line scans the other way |
| Day8Forest.RowScanLine | day-8/Forest.swift:67-79 | a row is a scan line looking west |
| Day8Forest.DescendingColumnScanLine | day-8/Forest.swift:94-106 | a column listed top-down is a scan line looking north |
| Day8Forest.ColumnScanLine | day-8/Forest.swift:94-106 | a grid column is a scan line looking north |
| Day8Forest.SameHeightsSameView | day-8/Forest.swift:66-120 | visibility depends on heights only |
| Day8Forest.SightDistanceOf | day-8/Tree.swift:60-75 | the viewing distance along the walk outward; `SightDistanceBounds` and `Forest.SightDistance` state it |
| Day8Forest.SightDistanceBounds | day-8/Tree.swift:60-75 | the sight distance is 0 exactly at the edge and never more than the trees that way |
| Day8Forest.ScenicScoreOf | day-8/Tree.swift:37-41 | the product of the four distances; `ScenicScoreZeroOnEdge` and `SameHeightsSameScore` state its properties |
| Day8Forest.ScenicScoreZeroOnEdge | day-8/Tree.swift:37-41 | the score is 0 exactly for a tree on the edge |
| Day8Forest.SameHeightsSameScore | day-8/Tree.swift:37-41 | scores depend on heights only |
| Day8Forest.ViewFromStep | day-8/Tree.swift:64-72 | the tree reached counts, and the walk goes on only past a shorter tree |
| Day8Forest.MarkedAlong | day-8/Forest.swift:70-79 | a partial scan changes flags only |
| Day8Forest.MarkedAlongKeeps | day-8/Forest.swift:70-79 | trees not yet passed are unchanged |
| Day8Forest.MarkedAlongStep | day-8/Forest.swift:71-74 | one more tree is marked exactly when taller than the running maximum, which then becomes its height |
| Day8Forest.MarkedAlongStopsAtNine | day-8/Forest.swift:76-78 | stopping after a tree of height 9 changes nothing |
| Day8Forest.MarkedAlongOthers | day-8/Forest.swift:70-79 | a scan touches only its own flag, and only on the trees it passed |
| Day8Forest.MarkedAlongFlags | day-8/Forest.swift:70-79 | after `k` trees, exactly those taller than the running maximum gained the flag |
| Day8Forest.MarkedAlongLater | day-8/Forest.swift:70-79 | once the scan has passed a tree, later steps leave it alone |
| Day8Forest.MarkedAlongSkips | day-8/Forest.swift:71-74 | a tree no taller than the running maximum is passed without marking |
| Day8Forest.MarkedAlongMarksVisible | day-8/Forest.swift:70-79 | a whole scan marks exactly the trees taller than everything beyond them |
| Day8Forest.IsForestKeeps | day-8/Forest.swift:66-120 | changing flags keeps a forest well-formed |
| Day8Forest.ScanLineAfterScan | day-8/Forest.swift:80-91 | after a scan, the reversed line is still a scan line |
| Day8Forest.ScanBothWaysAt | day-8/Forest.swift:67-91 | scanning both ways sets, for each tree and side, exactly the flag a view from that side calls for |
| Day8Forest.RowLine | day-8/Forest.swift:67-91 | every row is a scan line west, and its reverse one east |
| Day8Forest.RowStep | day-8/Forest.swift:67-92 | one more row scanned both ways extends the scanned rows |
| Day8Forest.ColumnLine | day-8/Forest.swift:94-118 | every column is a scan line north, and its reverse one south |
| Day8Forest.ColumnStep | day-8/Forest.swift:94-119 | one more column scanned both ways extends the scanned columns |
| Day8Forest.ColumnStepAt | day-8/Forest.swift:94-119 | the same, for one tree and one side |
| Day8Forest.RowPlaces | day-8/Forest.swift:36-46 | the places of a row being read |
| Day8Forest.ColumnOfNewRow | day-8/Forest.swift:48-57 | a new row extends each column it reaches by its own place |
| Day8Forest.WidthOfNewRow | day-8/Forest.swift:48-57 | a new row widens the grid to its own length at most |
| Day8Forest.ColumnGrows | day-8/Forest.swift:48-57 | reading one more tree extends only its own column |
| Day8Forest.ColumnsOfEmptyRow | day-8/Forest.swift:35-61 | an empty line adds nothing to the columns |
| Day8Forest.ColumnsOfRowsAreColumns | day-8/Forest.swift:48-57 | the incrementally built columns are the columns of the rows |
| Day8Forest.ColumnsGrow | day-8/Forest.swift:48-57 | appending to or starting a column keeps the columns those of the rows |
| Day8Forest.Plant | day-8/Forest.swift:38-46 | planting one tree keeps the arena exactly the grid, each tree the digit at its place |
| Day8Forest.ReadRow | day-8/Forest.swift:36-60 | fails with the nil-unwrap trap exactly on a non-digit; otherwise the row, the columns and fresh trees of the line's digits |
| Day8Forest.ParseForest | day-8/Forest.swift:31-64 | fails exactly when a line has a non-digit; otherwise a forest of fresh trees laid out as the lines |
| Day8Forest.RowText | day-8/Forest.swift:13-18 | a row prints as one digit per tree, giving its height |
| Day8Forest.RowTextStep | day-8/Forest.swift:14-16 | one more tree prints one more digit |
| Day8Forest.DescriptionOfAppend | day-8/Forest.swift:10-22 | the description grows by a row's digits and a line feed |
| Day8Forest.PrintableAppend | day-8/Forest.swift:10-22 | rows plus one more are printable exactly when the rows and the new row are |
| Day8Forest.DescriptionOfLines | day-8/Forest.swift:10-22 | rows that print as the lines describe as the lines joined, plus a final line feed |
| Day8Forest.ParsedDescription | day-8/Forest.swift:10-64 | a parsed forest prints back as its height map plus a final line feed |
| Day8Forest.Forest.constructor | day-8/Forest.swift:6-8 | the forest holds the arena, rows and columns it is given |
| Day8Forest.Forest.Description | day-8/Forest.swift:10-22 | the loop computes the row-by-row description |
| Day8Forest.Forest.RowDescription | day-8/Forest.swift:14-16 | the inner loop gives the row's digits, one per tree, each the digit of its height |
| Day8Forest.Forest.SightDistance | day-8/Tree.swift:60-75 | the loop computes the sight distance |
| Day8Forest.Forest.ScenicScore | day-8/Tree.swift:37-41 | the product of the four sight distances |
| Day8Forest.Forest.MarkVisibleAlong | day-8/Forest.swift:70-79 | one scan, stopping after a 9, leaves exactly the full scan's marks |
| Day8Forest.ScanAlong | day-8/Forest.swift:68-79 | the scan loop, stopping after a 9, returns exactly the arena the full scan `MarkedAlong` gives |
| Day8Forest.Forest.CalculateVisibility | day-8/Forest.swift:66-120 | afterwards a tree is visible from a side exactly when it was, or is taller than everything between it and that edge; edge trees are visible; heights, rows and columns are unchanged |
| Day8Forest.NewForest | day-8/Forest.swift:24-29 | fails exactly when a line has a non-digit; otherwise a fresh forest parsed from the lines |
| Day8.VisibleInRowCounts | day-8/main.swift:10-12 | the inner reduction over the first `m` trees of row `r` equals the number of visible places among them |
| Day8.VisibleInRowsCounts | day-8/main.swift:9-13 | the outer reduction over the first `k` rows equals the number of visible places in those rows |
| Day8.PartOne | day-8/main.swift:8-14 | the number of visible trees, at most the number of trees |
| Day8.Flatten | day-8/main.swift:17 | `flatMap` lists exactly the places of the rows |
| Day8.FlattenGrid | day-8/main.swift:17 | flattening a grid lists exactly its places |
| Day8.PlacesOfForest | day-8/main.swift:17 | the flattened rows list exactly the forest's trees |
| Day8.ScoreMap | day-8/main.swift:17-19 | one score per tree |
| Day8.SameHeightsSameBest | day-8/main.swift:25-29 | marking visibility does not change the best score |
| Day8.SameValuesSameMax | day-8/main.swift:17-19 | equal score maps have equal maxima |
| Day8.ScoresOf | day-8/main.swift:17-19 | the scores `max(by:)` compares, position by position |
| Day8.FirstMax | day-8/main.swift:17-19 | `max(by:)` returns the first position that no score beats |
| Day8.BestOf | day-8/main.swift:17-19 | a score of some place that no place exceeds |
| Day8.BestOfListing | day-8/main.swift:17-19 | the largest score over a listing of all trees is the best score of any tree |
| Day8.PartTwo | day-8/main.swift:16-20 | the best scenic score; traps exactly on a forest without trees |
| Day8.ParsedHasTree | day-8/Forest.swift:31-64 | a parsed forest has a tree exactly when some line is non-empty |
| Day8.ScannedVisible | day-8/main.swift:25-28 | after the scans, the visible trees are exactly those some edge sees |
| Day8.Answers | day-8/main.swift:22-33 | fails exactly on a non-digit or a map without trees; otherwise part one counts the trees some edge sees and part two is the best score |
| Day9Point.DirectionFromCode | day-9/Point.swift:14-27 | U, D, L and R decode, and read back as their code; anything else is fatal with the program's message |
| Day9Point.DirectionCodeRoundTrip | day-9/Point.swift:14-27 | every direction decodes from its own code |
| Day9Point.Point.Move | day-9/Point.swift:34-50 | moving changes one axis by the step count: up and down on `y`, left and right on `x`, with left increasing `x` |
| Day9Point.Point.MoveByCode | day-9/Point.swift:52-55 | fatal exactly for an unknown code; otherwise the move in that direction |
| Day9Point.MoveZero | day-9/Point.swift:34-50 | moving by zero stays put |
| Day9Point.MoveCompose | day-9/Point.swift:34-50 | two moves in one direction add up |
| Day9Point.MoveOpposite | day-9/Point.swift:34-50 | opposite moves cancel |
| Day9.ParseMovement | day-9/main.swift:19-26 | a line parses exactly when it matches `[UDLR] \d+` with at least one step; the direction and count are read from it |
| Day9.ParseFormattedMovement | day-9/main.swift:19-26 | a movement written the usual way parses back |
| Day9.ParseMovements | day-9/main.swift:8-34 | no more movements than lines, each of at least one step |
| Day9.ParseMovementsStops | day-9/main.swift:15-17 | nothing after the first empty line is read |
| Day9.Trail | day-9/main.swift:26-30 | the points passed one unit at a time |
| Day9.HeadPositions | day-9/main.swift:8-34 | the head starts at the origin |
| Day9.HeadPositionsShape | day-9/main.swift:8-34 | one position per unit step after the origin, each one unit from the last |
| Day9.AppendSteps | day-9/main.swift:26-30 | the inner loop appends the movement's trail |
| Day9.HeadPositionsAppend | day-9/main.swift:8-34 | one more movement extends the positions by its trail |
| Day9.ParseRopeMovements | day-9/main.swift:8-34 | fatal exactly when the movement parse is; otherwise the head's positions |
| Day9.ParseMovementsStep | day-9/main.swift:14-31 | parsing from a line on is that line's movement followed by the rest, or that line's failure |
| Day9.Follow | day-9/main.swift:41-49 | the tail ends next to the head, and it stays put exactly when it already was next to it |
| Day9.TailPositions | day-9/main.swift:36-55 | one tail position per head position after the start |
| Day9.TailPositionsFollow | day-9/main.swift:36-55 | each tail position follows the previous one towards the head, and ends next to it |
| Day9.CalculateTailPositions | day-9/main.swift:36-55 | the loop computes the tail's path, starting on the head's first position |
| Day9.TailStartsOnHead | day-9/main.swift:36-55 | the tail's first two positions are the head's first |
| Day9.FollowStepIsShort | day-9/main.swift:40-52 | behind a head that moves one unit, the tail moves at most one unit per axis |
| Day9.TailStepsAreShort | day-9/main.swift:36-55 | the tail never moves more than one unit per axis at a time |
| Day9.PartOne | day-9/main.swift:57-59 | the number of distinct tail places, between 1 and the number of positions plus one |
| Day9.KnotPositions | day-9/main.swift:61-69 | each knot's path has one more position than the one ahead of it |
| Day9.PartTwo | day-9/main.swift:61-69 | the number of distinct places of the ninth knot, between 1 and the number of positions plus nine |
| Text.Split | day-5/main.swift:76 | `components(separatedBy:)` always yields at least one piece |
| Text.SplitJoin | day-5/main.swift:76 | joining the pieces with the separator gives the text back |
| Text.SplitOfJoin | day-7/FileSystem.swift:41 | pieces free of the separator, joined and split again, are the pieces |
| Text.NonEmpty | day-2/main.swift:106 | `split(separator:)` keeps exactly the non-empty pieces |
| Text.NonEmptyKeepsAll | day-2/main.swift:106 | pieces that are all non-empty are all kept |
| Text.ParseDecimal | day-5/main.swift:141-143 | a number's decimal text reads back as the number |
| Text.ParseInt | day-1/main.swift:37 | `Int(_:)`, without its 64-bit range limit: accepts exactly ASCII digits with an optional leading `+` or `-`, and the value is the digits' decimal value with that sign |
| Text.ParseIntDecimal | day-1/main.swift:37 | a number's decimal text, with or without a minus sign, reads back |
| Text.IntTextParses | day-1/main.swift:37 | `Int(_:)` reads back every integer's interpolated text |
| Sequences.Reversed | day-5/main.swift:40-44 | the elements in the opposite order |
| Sequences.ReversedTwice | day-5/main.swift:40-44 | reversing twice gives the sequence back |
| Sequences.InReversed | day-8/Forest.swift:82 | reversing keeps the elements |
| Sequences.DistinctCount | day-6/main.swift:18-27 | a set built from a sequence is no larger than it, and as large exactly when nothing repeats |
| Sequences.Chunks | day-3/main.swift:105-111 | the chunks are empty exactly when the input is |
| Sequences.ChunksShape | day-3/main.swift:105-111 | the chunks concatenate to the input; all but the last have the chunk length |
| Sequences.ChunksInHalves | day-3/main.swift:105-111 | a sequence of twice the length falls into its two halves |

## Left out

- Reading the bundled input file (`readStringFromBundledInput`, day-1/main.swift:60-70) and
  `utils.swift` are not modelled. Each `main` function reads a file and prints, so the parts
  take their input as parameters instead. Day 8's `Answers` stands in for its `main` without
  the I/O.
- `description` properties that serve only printing are modelled only where a property is
  proved about them: Day 3's compartments and rucksacks, Day 4's pairs and Day 8's forest.
- Day 5's parts print the top crates and return nothing. In the model they return the top
  crates in label order (`TopCrates`).
- Day 7 and Day 8 use reference objects that link to each other: Day 7's directories and files
  hold strong links to their parents, and Day 8's trees link to their neighbours, the `south`
  and `west` links being `weak`. Here the links are indices into a registry (Day 7) or places
  in an arena map (Day 8). Object identity, reference counting and aliasing are not modelled.
- `Int` is modelled as an unbounded integer. The 64-bit overflow traps of sums and products
  are not modelled.
- Text.ParseInt: `Int(_:)` gives `nil` for digit text whose value does not fit in 64 bits;
  the model accepts digit text of any length. So Day 1 keeps such a line where the program
  skips it, and the force-unwraps of `Int(...)!` in Days 4, 5, 7, 8 and 9 succeed where the
  program traps.
- Character classes (`\d`, `\w`, letters) are ASCII only. Swift's regular-expression engine is
  replaced by hand-written matchers for the exact patterns used: `\n{2,}`, `(\d+) ([a-zA-Z.]+)`,
  `dir ([a-zA-Z]+)`, `[^0-9\W]`, `\d+` and `[UDLR] \d+`.
- Dictionary iteration order is unspecified in Swift. Day 5's re-keying loop visits offsets in
  increasing order. When the label line names the same label twice, the stack visited last
  is the one filed under it, so the order decides the result; the model keeps the rightmost,
  and the contract of `ParseInitialCrateStackState` only says the stack is the column of some
  offset with that label.
- Day 2's `assertionFailure` on a line without two codes does nothing in a release build. It
  is modelled as fatal, as in a debug build.
- Day1.SortByTotal: `sorted()` is modelled by insertion sort. Ties between equal totals may end
  up in another order than Swift's sort gives, but only the totals are ever used.
- Day1.Suffix: `suffix(_:)` traps on a negative count, so the count is a `nat`.
- Day3.GroupNConsecutiveRucksacks: `stride(by: 0)` traps, so the group size is required to be
  positive; the program only uses 3.
- Day3.GroupPriorities: it states that the total is non-negative and that a failure is the
  nil-unwrap trap, but not when a failure happens. `CalculateTotalPrioritiesOfUniqueItemsInEachRucksackGroup`
  is proved equal to it.
- Day7FileSystem.FileSystem.SizeOfDirectories: the contract gives bounds only. The exact total
  is `SizeAmong`, the left-to-right sum of the matching directories' sizes that the function
  returns.
- Day7.PartOne: it inherits the bounds-only contract of `SizeOfDirectories`.
- Day8Forest.Forest.CalculateVisibility: it is proved for forests built by the parse, where
  every height is a single digit. The early stop after a tree of height 9 relies on that.
- Swift's run-time checks on ranges and indices that the program never reaches are not
  modelled separately. An example is the array indexing in Day 5. Where an input can reach
  such a check, it appears as a `Fatal` result, as `1...0` does for Day 9's `U 0`.
