# Advent of Code 2020 puzzle solvers in Dafny

This project models the puzzle solvers of the AdventOfCode2020 C# repository
(Days 1, 2, 4 to 18 and 20 to 25) as pure Dafny functions, and proves what
each solver computes. Each day is one module `DayN` in `dayNN.dfy`; Day 14's
bit-array extension methods are the module `Day14Extensions`. Three shared
modules carry what the days have in common:

- `Wrappers`: `Result` (a value, or the message of the exception the original
  throws) and `Option` (a value, or "the original never finishes").
- `Strings`: `Split`, `Trim`, `int.Parse`, `Contains` and friends, with the
  .NET behaviour the solvers rely on.
- `Seqs`: sums, products, sorting, counting and `Distinct` over sequences.

The input text of a puzzle is a parameter of each `Part1` / `Part2`; where the
original throws (an index out of range, a failed parse, `First` on an empty
sequence) the model returns `Err`. Loops the original may never leave take a
`fuel` bound and answer `None` (or an `Err`) when it runs out, and the lemmas
say when fuel suffices or why the original would spin.

## Model

| member | source | states |
|---|---|---|
| Day1.PairWalk | AdventOfCode2020/Days/Day1.cs:26-44 | a pair found by the two-pointer walk over the sorted list consists of two entries (possibly the same position) that sum to 2020, and the answer is their product |
| Day1.Part1 | AdventOfCode2020/Days/Day1.cs:22-45 | the part 1 answer is the product of two input values summing to 2020; the walk may pair an entry with itself (as written) |
| Day1.Part1PairsEntryWithItself | AdventOfCode2020/Days/Day1.cs:26-42 | on the input [1010, 2000] part 1 as written answers 1010 * 1010, although no two distinct entries sum to 2020 |
| Day1.TwoSum | AdventOfCode2020/Days/Day1.cs:26-42 | the corrected walk (lower < upper) only finds two distinct positions of the window whose entries sum to 2020 |
| Day1.TwoSumComplete | AdventOfCode2020/Days/Day1.cs:26-42 | whenever two distinct positions of the sorted window sum to 2020 the corrected walk finds a pair |
| Day1.Part1Distinct | AdventOfCode2020/Days/Day1.cs:22-45 | the corrected part 1 answer is the product of two entries at distinct positions of the input that sum to 2020 |
| Day1.Part1DistinctComplete | AdventOfCode2020/Days/Day1.cs:22-45 | the corrected part 1 answers whenever the input holds two entries at distinct positions that sum to 2020 |
| Day1.TripleWalk | AdventOfCode2020/Days/Day1.cs:51-75 | a triple found by the walk is three entries of the list (positions not necessarily distinct) summing to 2020, answered by their product |
| Day1.Part2 | AdventOfCode2020/Days/Day1.cs:47-76 | the part 2 answer is the product of three input values summing to 2020 |
| Day2.ParseEntry | AdventOfCode2020/Days/Day2.cs:16-20 | a line splits into policy and password exactly when it contains a colon; otherwise indexing the split throws |
| Day2.ParsePolicy | AdventOfCode2020/Days/Day2.cs:62-71 | a policy without `-` fails; both bounds of a parsed policy lie in the 32-bit range of `int.Parse`, the first being the number written before the first `-` |
| Day2.ParsePolicyText | AdventOfCode2020/Days/Day2.cs:62-71 | every policy `min-max c` whose bounds are natural numbers no larger than 2^31 − 1 and whose letter is neither delimiter parses back to itself |
| Day2.ValidOld | AdventOfCode2020/Days/Day2.cs:45-52 | the old policy holds exactly when the letter occurs between min and max times in the password; it fails only when the policy does not parse |
| Day2.ValidNew | AdventOfCode2020/Days/Day2.cs:55-60 | the new policy throws when a position falls outside the password, and otherwise holds exactly when the letter occurs exactly once among the two 1-based positions |
| Day2.CountValid | AdventOfCode2020/Days/Day2.cs:28-36 | the count succeeds exactly when no entry makes its rule throw, and is then the number of entries whose rule holds under the chosen policy |
| Day2.CountValidAppend | AdventOfCode2020/Days/Day2.cs:28-36 | counting a concatenation succeeds exactly when both halves do, and the counts add up |
| Day4.Field | AdventOfCode2020/Days/Day4.cs:184-185 | a piece gives a key and a value exactly when it contains a colon |
| Day4.AddFields | AdventOfCode2020/Days/Day4.cs:182-186 | a successful parse keeps every earlier key and adds exactly one new key per piece |
| Day4.AddFieldsOk | AdventOfCode2020/Days/Day4.cs:182-186 | adding the pieces succeeds exactly when every piece has a colon and all keys are pairwise distinct and new, because `Dictionary.Add` throws on a duplicate key |
| Day4.AddFieldsContents | AdventOfCode2020/Days/Day4.cs:182-186 | after a successful parse the earlier entries are unchanged and each piece's key holds that piece's value |
| Day4.ParsePassport | AdventOfCode2020/Days/Day4.cs:160-186 | a passport parses exactly when every space-separated piece of its lines has a colon and no key repeats; it then holds one field per piece, each piece's key mapped to its value |
| Day4.ParseAll | AdventOfCode2020/Days/Day4.cs:48-69 | one passport per paragraph, the last one included: passport k is paragraph k parsed, and parsing fails exactly when some paragraph fails to parse |
| Day4.Height | AdventOfCode2020/Days/Day4.cs:91-104 | a value containing `cm` is accepted exactly when it reads 150 to 193 once every `cm` is removed; otherwise one containing `in` is accepted exactly when it reads 59 to 76 once every `in` is removed; any other value is rejected |
| Day4.Rule | AdventOfCode2020/Days/Day4.cs:85-109 | a field rule throws only for the hair colour of an empty value |
| Day4.HairColour | AdventOfCode2020/Days/Day4.cs:106 | the hair colour throws on an empty value and otherwise holds exactly for `#` followed by six lower-case hex digits |
| Day4.EyeColour | AdventOfCode2020/Days/Day4.cs:107 | the eye colour holds exactly for one of the seven listed colours |
| Day4.CountEqual | AdventOfCode2020/Days/Day4.cs:107 | the number of list entries equal to the value is zero exactly when the value is absent, and at most one for a list without repeats |
| Day4.EyeColoursDistinct | AdventOfCode2020/Days/Day4.cs:107 | the seven eye colours are pairwise distinct, so `Count(...) == 1` means membership |
| Day4.PassportId | AdventOfCode2020/Days/Day4.cs:108 | the passport id holds exactly for nine characters that read as a number |
| Day4.NineDigitsFit | AdventOfCode2020/Days/Day4.cs:108 | nine characters that read as a number always fit a 32-bit `int.TryParse` |
| Day4.FollowsRules | AdventOfCode2020/Days/Day4.cs:136-151 | the rules pass exactly when every checked key is present and its rule answers true; a throw comes only from a missing key or an empty hair colour |
| Day4.IsValid | AdventOfCode2020/Days/Day4.cs:117-134 | without rules a passport is valid exactly when it has all seven required fields; with rules, valid exactly when additionally every rule answers true, and it throws only on an empty hair colour |
| Day4.CountValid | AdventOfCode2020/Days/Day4.cs:23-46 | counting throws exactly when some passport's validation throws (never without rules), and is otherwise the number of passports the validator accepts |
| Day4.Part2AtMostPart1 | AdventOfCode2020/Days/Day4.cs:23-46 | part 2 never counts more passports than part 1 |
| Day5.NewBound | AdventOfCode2020/Days/Day5.cs:73-83 | `F`/`L` keep the lower half and `B`/`R` the upper half of the range, so the new range lies inside the old one and its width is halved; any other letter throws |
| Day5.Position | AdventOfCode2020/Days/Day5.cs:60-71 | a position found by halving lies inside the starting range |
| Day5.Binary | AdventOfCode2020/Days/Day5.cs:60-71 | the operations read as a binary number (upper half = 1) are below 2 to the number of operations |
| Day5.BinaryAppend | AdventOfCode2020/Days/Day5.cs:60-71 | reading a concatenation in binary shifts the first part left by the length of the second |
| Day5.PositionIsBinary | AdventOfCode2020/Days/Day5.cs:60-71 | halving a range of exactly 2^k numbers with k valid operations lands on the low end plus the operations read in binary |
| Day5.PositionStep | AdventOfCode2020/Days/Day5.cs:62-68 | after one operation the search either stops on a single number or continues on the narrower range with the remaining operations |
| Day5.SeatIdIsBinary | AdventOfCode2020/Days/Day5.cs:41-58 | a pass of seven `F`/`B` then three `L`/`R` has as seat id its ten letters read in binary |
| Day5.HalvingRanges | AdventOfCode2020/Days/Day5.cs:47-58 | the row code locates row 0..127 and the column code column 0..7 as their binary readings |
| Day5.RowLetters | AdventOfCode2020/Days/Day5.cs:49-51 | removing `R` and `L` from a well-formed pass leaves exactly its row letters |
| Day5.ColumnLetters | AdventOfCode2020/Days/Day5.cs:53-55 | removing `F` and `B` from a well-formed pass leaves exactly its column letters |
| Day5.SeatIds | AdventOfCode2020/Days/Day5.cs:24-29 | the seat ids are computed one per pass, in order |
| Day5.Part1 | AdventOfCode2020/Days/Day5.cs:22-25 | part 1 answers exactly when the list of passes is non-empty and every pass is readable; the answer is the seat id of one of the passes and no pass has a higher one |
| Day5.FirstGap | AdventOfCode2020/Days/Day5.cs:38 | the first position from `i` where the ids stop counting up by one from the first id, or none when they never do |
| Day5.FindMissing | AdventOfCode2020/Days/Day5.cs:34-39 | the search throws exactly when the list is empty or the ids run consecutively from the first |
| Day5.FindMissingIsFree | AdventOfCode2020/Days/Day5.cs:34-39 | on strictly increasing ids the answer is a seat above the first id that is not taken, while the seat after it is |
| Day5.SortedGapIsFree | AdventOfCode2020/Days/Day5.cs:27-39 | when no two passes share a seat, the first gap of the sorted ids is a seat no pass holds, above some pass's seat, while the seat right above it is held |
| Day5.Part2 | AdventOfCode2020/Days/Day5.cs:27-39 | part 2 answers exactly when the passes are non-empty and readable and their sorted seat ids do not run consecutively from the lowest; when no two passes share a seat the answer is a free seat above some pass's seat and directly below a taken one |
| Strings.Paragraphs | AdventOfCode2020/Days/Day6.cs:32-53 | the input always yields at least one group (the last one is kept even when empty), and every line in a group is a non-blank input line |
| Strings.ParagraphsPartition | AdventOfCode2020/Days/Day6.cs:32-53 | there is one group more than there are blank lines, and the groups hold exactly the non-blank lines in input order |
| Day6.Answers | AdventOfCode2020/Days/Day6.cs:59-62 | the distinct answers of a group are exactly the characters some person answered |
| Day6.CountFrom | AdventOfCode2020/Days/Day6.cs:66-74 | the loop from letter `c` to `z` counts exactly the letters everyone answered (ignoring case) in that span, at most the span's length |
| Day6.AgreedStep | AdventOfCode2020/Days/Day6.cs:69-72 | one loop step adds the letter to the count exactly when everyone answered it |
| Day6.QuestionsEveryoneAnswered | AdventOfCode2020/Days/Day6.cs:64-75 | the count is the number of letters `a`..`z` everyone answered, at most 26 |
| Day6.EmptyGroupAnswersAll | AdventOfCode2020/Days/Day6.cs:64-75 | a group with nobody in it (two blank lines in a row) counts all 26 letters, since `All` of nobody holds |
| Day6.CommonWithinAnswers | AdventOfCode2020/Days/Day6.cs:59-75 | for a non-empty group of lower-case answers, the letters everyone answered are among the distinct answers, so part 2 never exceeds part 1 per group |
| Day6.FirstPersonAnswered | AdventOfCode2020/Days/Day6.cs:69 | in a non-empty lower-case group a letter everyone answered is one the first person answered |
| Day6.Part2Bound | AdventOfCode2020/Days/Day6.cs:27-30 | the part 2 sum is at most 26 per group |
| Day6.Part1Zero | AdventOfCode2020/Days/Day6.cs:22-53 | the distinct answers summed over the blank-line groups are zero exactly when every input line is blank |
| Day6.Part1 | AdventOfCode2020/Days/Day6.cs:22-25 | part 1 is zero exactly when nobody answered anything, every line being blank |
| Day6.Part2 | AdventOfCode2020/Days/Day6.cs:27-30 | part 2 is at most 26 for each group, and there is one group more than there are blank lines |
| Day6.Part2AtMostPart1 | AdventOfCode2020/Days/Day6.cs:22-30 | with lower-case answers and no empty group, part 2 never exceeds part 1 |
| Day6.BlankLinesEmptyGroups | AdventOfCode2020/Days/Day6.cs:32-53 | when every line is blank, every group is empty |
| Day7.CleanBagId | AdventOfCode2020/Days/Day7.cs:105-111 | a cleaned bag id has no white space at either end |
| Day7.ParseRule | AdventOfCode2020/Days/Day7.cs:52-62 | a parsed rule is named by the cleaned text before `contain` |
| Day7.Connect | AdventOfCode2020/Days/Day7.cs:64-69 | connecting a rule succeeds exactly when every bag it names exists (otherwise `First` throws); then the rule's bag gains the contents, in order, each named bag gains the rule's bag as a parent once per mention, and nothing else changes |
| Day7.CountUp | AdventOfCode2020/Days/Day7.cs:79-88 | a visit from a bag reaches a set of bags that holds it and every bag that can contain a bag in it, adds them to the accounted list, and counts exactly the bags that were not yet accounted for |
| Day7.CountParents | AdventOfCode2020/Days/Day7.cs:83-86 | the loop over the containing bags visits each of them, stays closed under containment, and counts exactly the newly accounted bags |
| Day7.CountUpLeast | AdventOfCode2020/Days/Day7.cs:79-88 | the bags a visit reaches lie inside every set that holds the bag and is closed under containment, so they are exactly the bags that eventually hold it |
| Day7.CountParentsLeast | AdventOfCode2020/Days/Day7.cs:83-86 | the loop over containing bags visits only bags of any containment-closed set that holds all of them |
| Day7.TotalCountsInside | AdventOfCode2020/Days/Day7.cs:91-99 | with non-negative counts, the weighted total of a bag is one more than the number of physical bags inside it, listed once each by an independent reference |
| Day7.TotalOfCountsInside | AdventOfCode2020/Days/Day7.cs:94-97 | the weighted sum over a bag's contents equals the number of physical bags those contents hold |
| Day7.Repeat | AdventOfCode2020/Days/Day7.cs:96 | `w` copies of a list hold `w` times as many bags (none for a non-positive count) |
| Day7.CleanBagIdStrips | AdventOfCode2020/Days/Day7.cs:105-111 | a clean bag name followed by `bag` or `bags`, with white space around, cleans back to exactly that name: both removals ignore case and the trim drops only the padding |
| Day7.ParseContentOfText | AdventOfCode2020/Days/Day7.cs:59-62 | one written-out entry ` 2 muted yellow bags` parses back to its bag and count |
| Day7.ParseContentsOfText | AdventOfCode2020/Days/Day7.cs:57-62 | the comma-separated entries of a rule parse back to the contained bags with their counts, in order |
| Day7.ParseRuleOfText | AdventOfCode2020/Days/Day7.cs:52-62 | a rule written out as the input writes it (`no other bags` for an empty one) parses back to its bag and its whole contents list |
| Day7.Part1 | AdventOfCode2020/Days/Day7.cs:22-28 | part 1 answers exactly when the rules parse and connect, a shiny gold bag exists and the visit from it ends within the fuel; the answer it is the number of other bags in the containment-closed set the visit from shiny gold reaches |
| Day7.Part2 | AdventOfCode2020/Days/Day7.cs:30-37 | part 2 answers exactly when the rules parse and connect, a shiny gold bag exists and the total from it ends within the fuel; with non-negative counts it is the number of physical bags inside the shiny gold one |
| Day8.OperationOf | AdventOfCode2020/Days/Day8.cs:106-125 | an operation name is unknown exactly when it is none of `acc`, `jmp`, `nop` |
| Day8.ParseInstruction | AdventOfCode2020/Days/Day8.cs:138-146 | a parsed argument is a 32-bit `int.Parse` result (never below -2^31) |
| Day8.ParseInstructionText | AdventOfCode2020/Days/Day8.cs:138-146 | an instruction written as a name, a space, a sign and digits parses back to that name, argument and sign |
| Day8.ParseProgram | AdventOfCode2020/Days/Day8.cs:130-133 | the program holds one parsed instruction per line, in order |
| Day8.Step | AdventOfCode2020/Days/Day8.cs:104-128 | executing an instruction succeeds only with the counter inside the program (an array read outside it throws) |
| Day8.Range | AdventOfCode2020/Days/Day8.cs:73 | the counters of a program of length n are exactly 0..n-1, n of them |
| Day8.Run | AdventOfCode2020/Days/Day8.cs:91-99 | the loop starts at the given counter and reports termination exactly when the next counter lies past the program |
| Day8.RunStopsBeforeRepeating | AdventOfCode2020/Days/Day8.cs:91-99 | after the first instruction no counter is executed twice and none already visited is executed, and a run that does not terminate stops at a visited counter |
| Day8.ExecuteOnce | AdventOfCode2020/Days/Day8.cs:83-102 | with counter 0 visited from the start (as intended), no instruction runs twice and a loop stops on a counter already executed |
| Day8.ExecuteRepeatsFirstInstruction | AdventOfCode2020/Days/Day8.cs:85-99 | on `acc +1; jmp -1` the loop as written executes counters 0, 1, 0 and reports accumulator 2, where stopping before the repeat gives 1 |
| Day8.RunEndsAtSteps | AdventOfCode2020/Days/Day8.cs:91-99 | the counter and accumulator a run ends with are those of the reference step-by-step semantics after as many steps as it executed |
| Day8.RunTraceFollowsSteps | AdventOfCode2020/Days/Day8.cs:91-99 | the k-th counter a run executes is the counter of the reference semantics after k steps |
| Day8.FlipSwaps | AdventOfCode2020/Days/Day8.cs:55-65 | flipping turns a `nop` line into `jmp` and back, leaves `acc` alone, and flipping twice restores the line |
| Day8.Attempt | AdventOfCode2020/Days/Day8.cs:34-50 | the list an attempt runs keeps its length and has the attempted line flipped once |
| Day8.Next | AdventOfCode2020/Days/Day8.cs:36-49 | after a failed attempt only the attempted line may differ, flipped twice |
| Day8.NextShift | AdventOfCode2020/Days/Day8.cs:34-50 | a failed attempt hands the later attempts and their freedom from faults on unchanged |
| Day8.Repair | AdventOfCode2020/Days/Day8.cs:32-53 | the answer comes from the first non-`acc` index whose flipped program parses, runs and terminates, with that run's accumulator; when no line or attempt fails to parse or run, the search throws exactly when no flip terminates |
| Day8.Part1 | AdventOfCode2020/Days/Day8.cs:22-25 | part 1 is the accumulator the reference step semantics reaches after as many steps as the run took, a run in which no counter after the first repeats |
| Day8.ExecuteFollowsSteps | AdventOfCode2020/Days/Day8.cs:83-102 | a successful `Execute` from counter 0 ends at the counter and accumulator the reference step semantics reach after as many steps as it executed, and after the first instruction no counter repeats |
| Day8.Part2 | AdventOfCode2020/Days/Day8.cs:27-30 | part 2 is the accumulator of the first terminating flip, and without faults it fails exactly when no flip terminates |
| Day9.AnyFrom | AdventOfCode2020/Days/Day9.cs:52 | the `Any` scan from position k holds exactly when some window entry from k on has its distance to the number also in the window |
| Day9.AnyDecidesIsValid | AdventOfCode2020/Days/Day9.cs:50-53 | the scan over the whole window decides the validity test |
| Day9.IsValidSumOrDifference | AdventOfCode2020/Days/Day9.cs:50-53 | `IsValid` accepts exactly the numbers that are the sum or the difference of two window entries, the same entry allowed twice, the second one non-negative |
| Day9.SumPassesIsValid | AdventOfCode2020/Days/Day9.cs:50-53 | with non-negative entries every sum of two distinct window entries passes the test as written |
| Day9.IsValidAcceptsNonSums | AdventOfCode2020/Days/Day9.cs:50-53 | the test as written also accepts numbers that are no such sum: 10 beside the window [5] (the entry paired with itself) and 1 beside [3, 2] (a difference) |
| Day9.FindFrom | AdventOfCode2020/Days/Day9.cs:38-47 | the scan from step i answers exactly when some later number fails its test, and answers the first such number, every earlier one passing |
| Day9.FindInvalidNumber | AdventOfCode2020/Days/Day9.cs:36-48 | as written: an answer exists exactly when the input holds the preamble and some number past it fails the validity test (fewer than 25 numbers throw), and it is the first such number, every earlier one passing |
| Day9.FindNonSum | AdventOfCode2020/Days/Day9.cs:36-48 | as intended: the answer is the first number past the preamble that is not the sum of two distinct entries of the 25 before it, and it exists exactly when such a number does |
| Day9.SumShrinks | AdventOfCode2020/Days/Day9.cs:65-69 | with non-negative numbers a run that starts later never sums to more |
| Day9.Shrink | AdventOfCode2020/Days/Day9.cs:65-69 | dropping numbers from the front stops at the first window whose sum is at most the target, keeping the sum equal to the window's; emptying the window throws, which needs a negative target |
| Day9.FindContiguousNumber | AdventOfCode2020/Days/Day9.cs:55-78 | an answer is the smallest plus the largest number of a contiguous run summing to the target; with non-negative input and a positive target it is the run that ends first, and among those ending there the one that starts first, and no answer means no such run exists |
| Day9.Part2 | AdventOfCode2020/Days/Day9.cs:29-34 | part 2 fails when part 1 does; its answer is the weakness of a contiguous run summing to the number part 1 reports; with non-negative input and a positive such number it is the run that ends first, and failing means no run sums to it |
| Day10.GapsCountsPositions | AdventOfCode2020/Days/Day10.cs:42-56 | the loop's count of d-jolt gaps is the number of adjacent positions whose gap is d |
| Day10.CalculateDifferences | AdventOfCode2020/Days/Day10.cs:36-58 | as written: the answer is one more than the number of 1-jolt gaps times one more than the number of 3-jolt gaps between adjacent adapters |
| Day10.Chain | AdventOfCode2020/Days/Day10.cs:36-58 | the full chain runs from the outlet at 0 through the adapters to the device three jolts above the last |
| Day10.ChainGaps | AdventOfCode2020/Days/Day10.cs:36-58 | the chain's d-jolt gaps are the adapters' plus the outlet gap when the first adapter is d, plus the device gap when d is 3 |
| Day10.SeededCountsNeedFirstGapOne | AdventOfCode2020/Days/Day10.cs:38-40 | the counts seeded with 1 equal the intended chain product when the smallest adapter is 1 jolt |
| Day10.SeededCountsMiscount | AdventOfCode2020/Days/Day10.cs:38-40 | for a lone 3-jolt adapter the seeded counts give 1 while the chain 0, 3, 6 has no 1-jolt gap and gives 0 |
| Day10.Permutations | AdventOfCode2020/Days/Day10.cs:60-90 | the memoised count equals the number of chains from the joltage to the device with steps of 1 to 3 jolts through the adapters, and the table stays correct and only grows |
| Day10.Part2 | AdventOfCode2020/Days/Day10.cs:29-34 | part 2 throws exactly on an empty list and otherwise counts the chains from the outlet to the highest adapter |
| Day11.SetupArea | AdventOfCode2020/Days/Day11.cs:103-119 | the layout is built exactly when there is a first line and no line is longer than it; it has one row per line and the first line's width, each cell is the line's character, and cells past a shorter line stay blank |
| Day11.DirectionsAreUnits | AdventOfCode2020/Days/Day11.cs:135 | the eight search directions are distinct unit steps |
| Day11.SearchSeat | AdventOfCode2020/Days/Day11.cs:139-157 | the search stops k >= 1 steps along the direction with only floor on the way (k = 1 when only adjacent seats count); the seat is valid exactly when it lies inside the area, and a valid seat in line-of-sight mode is not floor |
| Day11.SearchStep | AdventOfCode2020/Days/Day11.cs:141-156 | searching from one floor cell further along adds one step to the distance and to the floor passed |
| Day11.GetSeats | AdventOfCode2020/Days/Day11.cs:133-137 | one seat per direction, each found by the search in that direction |
| Day11.CountOccupied | AdventOfCode2020/Days/Day11.cs:128 | the number of occupied seats in view is at most the number of directions, and zero exactly when none is occupied |
| Day11.NewCell | AdventOfCode2020/Days/Day11.cs:69-82 | an empty seat becomes occupied exactly when no seat in view is occupied, an occupied seat empties exactly when at least the limit of seats in view are occupied, and no other change happens |
| Day11.ApplyRules | AdventOfCode2020/Days/Day11.cs:60-88 | every cell is updated from the old area at once, the size and mode are kept, and the flag is set exactly when some cell changed |
| Day11.RulesKeepFloor | AdventOfCode2020/Days/Day11.cs:69-82 | floor never changes and a changed cell only swaps between `L` and `#` |
| Day11.NumberOfOccupiedSeats | AdventOfCode2020/Days/Day11.cs:90-101 | the count is zero exactly when no row holds an occupied seat |
| Day11.OccupiedIsMultiplicity | AdventOfCode2020/Days/Day11.cs:90-101 | the count equals the total number of `#` over the rows |
| Day11.Settle | AdventOfCode2020/Days/Day11.cs:26-35 | a settled layout is one where another round changes nothing |
| Day11.SettleRounds | AdventOfCode2020/Days/Day11.cs:26 | the loop stops on the layout of the first round that changes nothing, and runs out of fuel exactly when each of the first fuel + 1 rounds changes something |
| Day11.StableRound | AdventOfCode2020/Days/Day11.cs:26 | a loop that stops does so within its fuel, at the first round that changes nothing, on that round's layout |
| Day11.OutOfFuel | AdventOfCode2020/Days/Day11.cs:26 | a loop that runs out of fuel saw every one of its rounds change something |
| Day11.ChangesBefore | AdventOfCode2020/Days/Day11.cs:26 | a layout that changes, followed by rounds that change, gives one more round that changes |
| Day11.SettlesIffStabilises | AdventOfCode2020/Days/Day11.cs:26 | the `while` loop settles within its fuel exactly when some round within the fuel changes nothing |
| Day11.Solve | AdventOfCode2020/Days/Day11.cs:22-37 | it answers exactly when the layout is readable and some round within the fuel changes nothing; the answer is the number of `#` cells on the layout of the first such round |
| Day11.Part1 | AdventOfCode2020/Days/Day11.cs:22-29 | with adjacent seats only and a limit of four: it answers exactly when the layout is readable and settles within the fuel, with the number of `#` cells on the first layout that no round changes |
| Day11.Part2 | AdventOfCode2020/Days/Day11.cs:31-38 | with seats in line of sight and a limit of five: it answers exactly when the layout is readable and settles within the fuel, with the number of `#` cells on the first layout that no round changes |
| Day12.ParseAction | AdventOfCode2020/Days/Day12.cs:150-153 | an action parses exactly when the line is non-empty and the rest reads as a 32-bit integer; its operation is the first character and its value that integer |
| Day12.Rem | AdventOfCode2020/Days/Day12.cs:93-95 | the remainder follows C#'s `%`: it lies in [0, b) for a non-negative dividend and in (-b, 0] for a negative one |
| Day12.Move | AdventOfCode2020/Days/Day12.cs:135-145 | N, E, S and W shift exactly one coordinate by the value in their direction; any other letter throws |
| Day12.MoveThenOppositeReturns | AdventOfCode2020/Days/Day12.cs:135-145 | moving a distance one way and then the same distance the opposite way returns to the start |
| Day12.TurnFerry | AdventOfCode2020/Days/Day12.cs:91-96 | the new heading is a C# remainder of 360, so it lies strictly between -360 and 360 and is non-negative when the sum is |
| Day12.TurnKeepsHeading | AdventOfCode2020/Days/Day12.cs:91-96 | a right-angle turn keeps a compass heading, and turning right then left (or left then right) by the same angle restores it |
| Day12.DirectionFromDegrees | AdventOfCode2020/Days/Day12.cs:98-108 | a heading names a compass letter exactly when it is 0, 90, 180 or 270; 0 is north and 180 south |
| Day12.ExecutePartOne | AdventOfCode2020/Days/Day12.cs:82-89 | in part 1 L and R only turn the ferry, F succeeds exactly when the heading is a compass heading, other moves keep the heading, and the waypoint never changes |
| Day12.RotateWaypoint | AdventOfCode2020/Days/Day12.cs:118-132 | clockwise d is counter-clockwise 360 - d; the rotation succeeds exactly for 0, 90, 180 or 270 degrees after that conversion, equals that many quarter turns, and keeps the waypoint's distance |
| Day12.FullTurnRestores | AdventOfCode2020/Days/Day12.cs:118-132 | four quarter turns are the identity |
| Day12.RotateBackRestores | AdventOfCode2020/Days/Day12.cs:118-132 | rotating the waypoint right and then left by the same right angle restores it |
| Day12.MoveTowardsWaypoint | AdventOfCode2020/Days/Day12.cs:112-116 | the ferry moves by the waypoint offset times the value, keeping waypoint and heading |
| Day12.ExecutePartTwo | AdventOfCode2020/Days/Day12.cs:60-74 | in part 2 only F moves the ferry, rotations keep the waypoint's distance, and the heading never changes |
| Day12.Manhattan | AdventOfCode2020/Days/Day12.cs:76-79 | the distance is zero exactly at the origin and at least each coordinate's absolute value |
| Day12.Navigate | AdventOfCode2020/Days/Day12.cs:27-37 | no actions leave the ferry where it was; part 1 never moves the waypoint and part 2 never turns the ferry |
| Day12.NavigateAppend | AdventOfCode2020/Days/Day12.cs:27-37 | following two lists of actions in turn is following their concatenation, an error stopping the rest |
| Day12.ParseActions | AdventOfCode2020/Days/Day12.cs:24-34 | the actions are parsed one per line in order, and parsing fails only when some line fails |
| Day12.CompassCourse | AdventOfCode2020/Days/Day12.cs:47-57 | in part 1 a course of compass actions moves the ferry by their net east and north offset and keeps heading and waypoint |
| Day12.NoForwardStaysPut | AdventOfCode2020/Days/Day12.cs:60-74 | in part 2 a course without F never moves the ferry |
| Day12.Part1 | AdventOfCode2020/Days/Day12.cs:22-30 | the answer exists exactly when every line parses and every action can be carried out, is the ferry's distance from the start after the course, and for a course of compass actions is the distance of their net offset |
| Day12.Part2 | AdventOfCode2020/Days/Day12.cs:32-40 | the same with the waypoint rules, and a course without F ends at distance zero |
| Day12.ExampleCourseOne | AdventOfCode2020/Days/Day12.cs:22-30 | the puzzle's example course ends 25 from the start in part 1 |
| Day12.ExampleCourseTwo | AdventOfCode2020/Days/Day12.cs:32-40 | the same course ends 286 from the start in part 2 |
| Day13.ParseIds | AdventOfCode2020/Days/Day13.cs:18-19 | the ids parse exactly when every entry reads as a 32-bit integer, one id per entry in order |
| Day13.WithoutX | AdventOfCode2020/Days/Day13.cs:18 | the part 1 entries are exactly the schedule entries other than `x`, one fewer per `x`; a single entry is kept unless it is `x` |
| Day13.WithoutXAppend | AdventOfCode2020/Days/Day13.cs:18 | filtering a concatenation filters each half in turn, so with the one-entry case the filter keeps the order of the entries |
| Day13.Part1Ids | AdventOfCode2020/Days/Day13.cs:16-18 | part 1 reads ids exactly when every entry other than `x` reads as a 32-bit integer; it then has one id per such entry, each read from such an entry |
| Day13.Part2Ids | AdventOfCode2020/Days/Day13.cs:19 | part 2 keeps one id per schedule entry, so every bus keeps its position: an `x` entry reads `-1` and an entry without `x` reads as the integer it spells; it succeeds whenever every entry is `x` or such an integer |
| Day13.RewriteX | AdventOfCode2020/Days/Day13.cs:19 | the rewrite keeps one entry per entry: `x` becomes text that reads `-1`, and an entry without `x` is unchanged |
| Day13.NoXUnchanged | AdventOfCode2020/Days/Day13.cs:19 | replacing `x` leaves an entry without `x` unchanged |
| Day13.XReadsAsMinusOne | AdventOfCode2020/Days/Day13.cs:19 | an `x` entry is rewritten to `-1`, which parses |
| Day13.Quot | AdventOfCode2020/Days/Day13.cs:31 | C#'s integer division truncates toward zero, agreeing with floor division for a non-negative dividend and positive divisor |
| Day13.WaitIsNextDeparture | AdventOfCode2020/Days/Day13.cs:31 | for a positive timestamp and id, `Wait` is the least non-negative number of minutes after which that bus leaves, below the id |
| Day13.EarliestBus | AdventOfCode2020/Days/Day13.cs:24-41 | the loop succeeds exactly when no id is zero (a zero id divides by zero); it keeps a wait no longer than any bus's, and either no bus beat `int.MaxValue` or it chose the first bus with that shortest wait, which is the choice `IsEarliest` describes |
| Day13.EarliestUnique | AdventOfCode2020/Days/Day13.cs:26-38 | that choice is determined by the timestamp and the ids |
| Day13.Part1 | AdventOfCode2020/Days/Day13.cs:24-41 | part 1 answers exactly when no id is zero, and the answer is the chosen bus's id times its wait |
| Day13.IndexedFrom | AdventOfCode2020/Days/Day13.cs:45-52 | the kept buses are the positive entries, each with its position in the schedule, in increasing position, none missed |
| Day13.Jump | AdventOfCode2020/Days/Day13.cs:65-69 | the step of the search is a positive product of the ids |
| Day13.JumpIsMultiple | AdventOfCode2020/Days/Day13.cs:65-69 | the step is a multiple of every id it multiplies |
| Day13.JumpKeepsSolution | AdventOfCode2020/Days/Day13.cs:65-71 | adding any multiple of the step to a timestamp that satisfies the buses keeps them satisfied |
| Day13.RemZeroIffDivides | AdventOfCode2020/Days/Day13.cs:93 | C#'s truncating remainder is zero exactly when the Euclidean one is, for a positive divisor |
| Day13.TestSolutionTruncating | AdventOfCode2020/Days/Day13.cs:89-97 | `TestSolution` holds exactly when every bus leaves a C# remainder of zero, so the loop never returns false |
| Day13.FirstCandidate | AdventOfCode2020/Days/Day13.cs:77-87 | the reference search answers the first candidate timestamp + n * step within the budget that satisfies every bus, and none exactly when no candidate within the budget does |
| Day13.FindTimestamp | AdventOfCode2020/Days/Day13.cs:77-87 | the `while` loop answers what the reference search answers: the first satisfying candidate, or none within the budget |
| Day13.Stage | AdventOfCode2020/Days/Day13.cs:57-73 | the timestamp after i steps satisfies the first i buses, and step i answers the first candidate, stepping by the product of the earlier ids from the timestamp before, that satisfies the first i + 1 buses |
| Day13.StageIsEarliest | AdventOfCode2020/Days/Day13.cs:57-73 | with pairwise coprime ids, the timestamp after i steps is the earliest from the first id on that satisfies the first i buses |
| Day13.SolutionsDifferByJump | AdventOfCode2020/Days/Day13.cs:64-70 | with pairwise coprime ids two timestamps satisfying every bus differ by a multiple of the ids' product, so stepping by it skips no solution |
| Day13.FindSolution | AdventOfCode2020/Days/Day13.cs:57-75 | no buses throws; otherwise it answers exactly when every step finds its candidate within the fuel, with the timestamp of the last step; the answer satisfies every bus and, for pairwise coprime ids, no earlier timestamp from the first id on does |
| Day13.CandidatesKeepEarlierBuses | AdventOfCode2020/Days/Day13.cs:61-72 | every candidate of step i already satisfies the first i buses |
| Day13.Part2 | AdventOfCode2020/Days/Day13.cs:43-55 | part 2 answers exactly when the schedule has a bus and every step of the search finds its candidate within the fuel; the answer is a timestamp at which every bus leaves its position in minutes after it and, for pairwise coprime ids, the earliest such from the first id on |
| Day14Extensions.FromBits | AdventOfCode2020/Days/Day14.cs:176-189 | reading a bit array (most significant first) gives a number below 2 to its length |
| Day14Extensions.Binary | AdventOfCode2020/Days/Day14.cs:173 | the binary rendering of n reads back as n and, for n >= 1, starts with a one |
| Day14Extensions.LeadingFalses | AdventOfCode2020/Days/Day14.cs:173 | leading zeros do not change the value read |
| Day14Extensions.PadLeft | AdventOfCode2020/Days/Day14.cs:173 | padding to a width keeps the value, reaches the width, and keeps the original bits at the end |
| Day14Extensions.BinaryFits | AdventOfCode2020/Days/Day14.cs:173 | a number below 2^w renders in at most w binary digits |
| Day14Extensions.FromBitsInjective | AdventOfCode2020/Days/Day14.cs:176-189 | two bit arrays of equal length that read the same number are equal |
| Day14Extensions.ToBits | AdventOfCode2020/Days/Day14.cs:171-174 | a value in 0..2^36-1 becomes exactly 36 bits reading back as itself; any other value (negatives as 64-bit two's complement) becomes more than 36 bits |
| Day14Extensions.RoundTrip | AdventOfCode2020/Days/Day14.cs:171-189 | reading back the 36 bits written for a 36-bit value gives the value |
| Day14Extensions.StringBits | AdventOfCode2020/Days/Day14.cs:153-156 | a string becomes one bit per character, set exactly where the character is `1` |
| Day14Extensions.And | AdventOfCode2020/Days/Day14.cs:93 | the AND of two bit arrays of equal length is set exactly where both are; different lengths throw |
| Day14Extensions.Or | AdventOfCode2020/Days/Day14.cs:94-118 | the OR of two bit arrays of equal length is set exactly where either is; different lengths throw |
| Day14.Lookup | AdventOfCode2020/Days/Day14.cs:43 | an address is found exactly when some entry holds it |
| Day14.Store | AdventOfCode2020/Days/Day14.cs:85-111 | a write leaves one entry per address, makes the address hold the value, leaves every other address alone, and changes the total by the new value less the old one |
| Day14.ApplyMixedMask | AdventOfCode2020/Days/Day14.cs:88-97 | each result bit is set where the mask has `1`, kept where it has `X` and cleared elsewhere; a mask of another length throws |
| Day14.Floating | AdventOfCode2020/Days/Day14.cs:134-140 | the inner loop visits floating positions from the right, each an `X` of the mask, in strictly decreasing order |
| Day14.FloatingComplete | AdventOfCode2020/Days/Day14.cs:134-140 | every `X` of the mask is among the visited positions |
| Day14.FloatingCount | AdventOfCode2020/Days/Day14.cs:126-140 | as many positions are visited as the mask holds `X` characters |
| Day14.Fill | AdventOfCode2020/Days/Day14.cs:131-140 | filling keeps every bit not at a floating position and writes the j-th choice bit at the j-th floating position |
| Day14.LoopBound | AdventOfCode2020/Days/Day14.cs:128 | `1 << count` on a 32-bit int is 2^count for fewer than 31 floating bits |
| Day14.AddressesAfterFloatingMask | AdventOfCode2020/Days/Day14.cs:123-147 | one address per counter value below the loop bound, the i-th built from the i-th choice |
| Day14.AddressesToSet | AdventOfCode2020/Days/Day14.cs:115-121 | the addresses exist exactly when mask and address have the same length |
| Day14.FixedBitsKept | AdventOfCode2020/Days/Day14.cs:131-140 | a bit that is not floating keeps the ORed address's value in every generated address |
| Day14.FloatingBitsChosen | AdventOfCode2020/Days/Day14.cs:130-140 | the j-th floating position of the i-th address takes bit j of i padded to the floating count |
| Day14.OredBits | AdventOfCode2020/Days/Day14.cs:117-118 | before floating, a bit is set where the mask has `1` or the address has it set |
| Day14.FloatingAddressesDistinct | AdventOfCode2020/Days/Day14.cs:123-147 | with 1 to 30 floating bits there are 2^k addresses and any two of them differ |
| Day14.FloatingAddressesComplete | AdventOfCode2020/Days/Day14.cs:123-147 | every way of setting the floating bits occurs among the generated addresses |
| Day14.ParseLong | AdventOfCode2020/Days/Day14.cs:82-83 | a parsed value is the decimal reading of the text and lies in the 64-bit range |
| Day14.ParseAddress | AdventOfCode2020/Days/Day14.cs:82 | a line without `[` fails; a parsed address lies in the 64-bit range |
| Day14.AfterEquals | AdventOfCode2020/Days/Day14.cs:58 | the text after the first `=` exists exactly when the line holds one, and it neither starts nor ends with white space |
| Day14.ParseValue | AdventOfCode2020/Days/Day14.cs:83 | a line without `=` fails; a parsed value lies in the 64-bit range |
| Day14.ParseWriteLine | AdventOfCode2020/Days/Day14.cs:82-83 | a line `mem[a] = v` with natural a and v below 2^63 reads back as address a and value v |
| Day14.ParseMaskLine | AdventOfCode2020/Days/Day14.cs:58 | a line `mask = m` with m made of `X`, `0` and `1` reads back as the mask m |
| Day14.StoreAll | AdventOfCode2020/Days/Day14.cs:109-112 | after writing a value to a list of addresses, exactly those addresses hold it and every other one is unchanged |
| Day14.SetValue | AdventOfCode2020/Days/Day14.cs:80-113 | a write needs a parsed address and value; version 1 stores the masked value at the address and changes nothing else, version 2 stores the value at exactly the floating addresses |
| Day14.ExecuteLine | AdventOfCode2020/Days/Day14.cs:54-64 | a line containing `mask` replaces the mask and leaves memory alone; any other line writes with the current mask |
| Day14.Execute | AdventOfCode2020/Days/Day14.cs:50-65 | the program keeps one entry per address, and an empty program changes nothing |
| Day14.ExecuteAppend | AdventOfCode2020/Days/Day14.cs:50-65 | running a concatenation is running the first part and then the second from the mask and memory it left |
| Day14.WriteBeforeMaskFails | AdventOfCode2020/Days/Day14.cs:52-85 | a write before any mask line meets the empty mask and throws |
| Day14.Solve | AdventOfCode2020/Days/Day14.cs:24-38 | the answer exists exactly when the program runs from the empty mask and memory without throwing, and is the sum of the values the run leaves in memory, one per address; an empty program sums to zero |
| Day14.WriteChangesSum | AdventOfCode2020/Days/Day14.cs:54-86 | with the version 1 chip, one more write line changes the sum by the masked value written minus the value previously at that address (0 if none) |
| Day14.Part1 | AdventOfCode2020/Days/Day14.cs:24-30 | part 1 is the sum the version 1 chip leaves in memory, and fails exactly when running the program throws |
| Day14.Part2 | AdventOfCode2020/Days/Day14.cs:32-38 | part 2 is the sum the version 2 chip leaves in memory, and fails exactly when running the program throws |
| Day15.Last | AdventOfCode2020/Days/Day15.cs:34 | the 1-based turn of the last occurrence of x: zero exactly when x was never spoken, otherwise x was spoken then and never after |
| Day15.Next | AdventOfCode2020/Days/Day15.cs:46-47 | the number spoken after a history is never negative |
| Day15.Rules | AdventOfCode2020/Days/Day15.cs:37-52 | the reference game: n numbers, the starting numbers first |
| Day15.RulesStep | AdventOfCode2020/Days/Day15.cs:37-52 | each turn appends the next starting number, or else the number the rules give for the history so far |
| Day15.RulesNonNegative | AdventOfCode2020/Days/Day15.cs:46-47 | every number spoken after the starting numbers is non-negative |
| Day15.Speak | AdventOfCode2020/Days/Day15.cs:37-54 | base case only: once all turns are taken the loop answers the last number spoken (what it speaks on each turn is stated by `Day15.SpeakFollowsRules` and `Day15.StartingNumbersSpoken`) |
| Day15.DetermineNumberSpoken | AdventOfCode2020/Days/Day15.cs:32-55 | asking for no turns answers 0; a turn among the starting numbers answers that starting number; with distinct starting numbers turn n answers the n-th number of the reference game; with no starting numbers any turn throws |
| Day15.FromTheStart | AdventOfCode2020/Days/Day15.cs:32-55 | the loop run from turn 0 with an empty dictionary speaks the starting numbers first and, for distinct starting numbers, the reference game's n-th number on turn n |
| Day15.TracksOrdersTurns | AdventOfCode2020/Days/Day15.cs:34-51 | in a table describing the history, each entry's latest turn comes after its second latest |
| Day15.TrackAppend | AdventOfCode2020/Days/Day15.cs:49-51 | updating the spoken number's entry to (this turn, its previous latest) keeps the table describing the extended history |
| Day15.LoopSpeaksNext | AdventOfCode2020/Days/Day15.cs:46-47 | on a described history the loop's lookup finds the last number and computes exactly the number the rules give |
| Day15.LoopEntry | AdventOfCode2020/Days/Day15.cs:49-51 | the entry the loop writes holds this turn and the number's previous latest turn, 0 when it is new |
| Day15.SpeakFollowsRules | AdventOfCode2020/Days/Day15.cs:37-54 | with distinct starting numbers the dictionary loop speaks on turn n what the rules speak |
| Day15.StartingNumbersSpoken | AdventOfCode2020/Days/Day15.cs:39-44 | the first turns speak the starting numbers, repeated or not |
| Day15.NoStartingNumbersThrows | AdventOfCode2020/Days/Day15.cs:46 | with no starting numbers the first lookup of 0 throws |
| Day15.RepeatedStartDiverges | AdventOfCode2020/Days/Day15.cs:39-44 | on the starting numbers 1, 1 the rules speak 1 on turn 3, but the loop answers 0 because a starting number's entry is reset to (turn, 0) |
| Day15.SpeakCorrected | AdventOfCode2020/Days/Day15.cs:37-54 | base case only: the corrected loop (a starting number's entry updated like any other) answers the last number once all turns are taken (each turn is stated by `Day15.CorrectedFollowsRules`) |
| Day15.DetermineCorrected | AdventOfCode2020/Days/Day15.cs:32-55 | the corrected answer is the reference game's n-th number for any non-empty starting numbers, and 0 for no turns |
| Day15.CorrectedFromTheStart | AdventOfCode2020/Days/Day15.cs:32-55 | the corrected loop run from turn 0 with an empty dictionary speaks the reference game's n-th number on turn n |
| Day15.CorrectedFollowsRules | AdventOfCode2020/Days/Day15.cs:37-54 | the corrected loop speaks on turn n what the rules speak, for any non-empty starting numbers |
| Day15.CorrectedRepeatedStart | AdventOfCode2020/Days/Day15.cs:37-54 | on 1, 1 the corrected loop speaks 1 on turn 3 |
| Day16.RuleValidValueIff | AdventOfCode2020/Days/Day16.cs:98-101 | a rule accepts exactly the values inside one of its ranges, bounds included |
| Day16.ValidValueIff | AdventOfCode2020/Days/Day16.cs:89-92 | a value is valid exactly when some rule accepts it |
| Day16.GetInvalidValues | AdventOfCode2020/Days/Day16.cs:54-57 | a ticket's invalid values are values no rule accepts, no more of them than the ticket holds |
| Day16.InvalidValuesCounted | AdventOfCode2020/Days/Day16.cs:54-57 | every invalid value is kept as often as it occurs on the ticket, and no valid one |
| Day16.InvalidValuesAppend | AdventOfCode2020/Days/Day16.cs:54-57 | the invalid values of a concatenation are those of the parts, in order |
| Day16.NoInvalidValuesIff | AdventOfCode2020/Days/Day16.cs:54-57 | a ticket has no invalid values exactly when every value is valid |
| Day16.FindValidRuleForValues | AdventOfCode2020/Days/Day16.cs:84-87 | the names returned are exactly those of the rules accepting every value, each once for uniquely named rules |
| Day16.ParseValue | AdventOfCode2020/Days/Day16.cs:77 | a bound parses exactly when it reads as a 32-bit integer |
| Day16.ParseRule | AdventOfCode2020/Days/Day16.cs:68-78 | a parsed rule has at least one range |
| Day16.ParseRuleShape | AdventOfCode2020/Days/Day16.cs:66-78 | a line `name: a-b or c-d` parses to the trimmed name with its two ranges |
| Day16.AddRules | AdventOfCode2020/Days/Day16.cs:64-82 | the rule dictionary keeps one rule per line in order and never holds two rules of the same name (`Dictionary.Add` throws on a repeated name) |
| Day16.ParseTicket | AdventOfCode2020/Days/Day16.cs:49-52 | a ticket parses exactly when every comma-separated piece reads as a 32-bit integer, one value per piece |
| Day16.Run | AdventOfCode2020/Days/Day16.cs:189-219 | the rule and ticket lines collected are non-blank input lines |
| Day16.RunAppend | AdventOfCode2020/Days/Day16.cs:189-219 | scanning a concatenation is scanning the first part and then the second from where it stopped |
| Day16.SectionsOfInput | AdventOfCode2020/Days/Day16.cs:180-221 | for three blank-separated blocks the rules are the first block, the own ticket the last non-header line of the second, and the nearby tickets the third block without its header |
| Day16.ParseInput | AdventOfCode2020/Days/Day16.cs:169-178 | the parsed rules have distinct names, and the nearby tickets, the own ticket and the rules are the lines of their sections parsed one for one; a section line that fails to parse makes the whole parse fail |
| Day16.ParseInputOfBlocks | AdventOfCode2020/Days/Day16.cs:169-221 | for three blank-separated blocks the rules come from the first block, the own ticket from the last ticket line of the second and the nearby tickets from the third without its header, each parsed |
| Day16.AllInvalidValues | AdventOfCode2020/Days/Day16.cs:26 | every value counted in the scanning error rate is invalid |
| Day16.AllInvalidCounted | AdventOfCode2020/Days/Day16.cs:26 | every invalid value of every nearby ticket is collected as often as it occurs on the tickets, and no valid value is |
| Day16.Part1 | AdventOfCode2020/Days/Day16.cs:22-27 | part 1 answers exactly when the input parses, and the answer is the sum of the invalid values of all nearby tickets |
| Day16.AddCandidate | AdventOfCode2020/Days/Day16.cs:128-132 | adding a column under a rule appends it to that rule's list (creating the list if missing) and leaves every other rule's list alone |
| Day16.Build | AdventOfCode2020/Days/Day16.cs:120-134 | after the first n columns each rule's candidate list is increasing and holds exactly the columns below n whose every value the rule accepts |
| Day16.Remaining | AdventOfCode2020/Days/Day16.cs:145 | the remaining candidates are exactly those not yet used |
| Day16.ExtendConsistent | AdventOfCode2020/Days/Day16.cs:147-153 | mapping a rule to its only remaining column keeps every rule and column mapped at most once |
| Day16.Sweep | AdventOfCode2020/Days/Day16.cs:143-154 | one pass never throws, keeps the mapping consistent and only extends it, reports a match exactly when it mapped something, and when it mapped nothing no rule had exactly one remaining column |
| Day16.DistinctBelow | AdventOfCode2020/Days/Day16.cs:139-155 | distinct columns below n number at most n, which bounds the passes |
| Day16.Assign | AdventOfCode2020/Days/Day16.cs:136-155 | the loop ends with a consistent mapping where no rule is left with exactly one remaining column |
| Day16.GetRuleMapping | AdventOfCode2020/Days/Day16.cs:116-158 | the mapping exists exactly when there is a ticket and none is shorter than the first; it maps distinct rules to distinct columns, each column in range and accepted by its rule for every ticket |
| Day16.SingleCandidateIsUsed | AdventOfCode2020/Days/Day16.cs:116-158 | a rule that fits exactly one column makes that column mapped |
| Day16.ExclusivePairIsMapped | AdventOfCode2020/Days/Day16.cs:116-158 | a rule and a column that fit only each other are mapped to each other |
| Day16.ValidTickets | AdventOfCode2020/Days/Day16.cs:33 | the valid tickets are exactly the tickets without invalid values |
| Day16.DepartureIndices | AdventOfCode2020/Days/Day16.cs:37 | the departure columns are exactly those mapped to rules whose name starts with `departure` |
| Day16.DepartureProduct | AdventOfCode2020/Days/Day16.cs:228-236 | the product exists exactly when every column is inside the own ticket, and is then the product of the own ticket's values at those columns, 1 for no columns |
| Day16.DepartureProductAppend | AdventOfCode2020/Days/Day16.cs:228-236 | the product over a concatenation is the product of the parts |
| Day16.DepartureAnswer | AdventOfCode2020/Days/Day16.cs:33-42 | for parsed notes, it answers exactly when the rule mapping of the valid tickets exists and every `departure` column lies inside the own ticket; an answer means the rule mapping of the valid tickets exists, every `departure` column lies inside the own ticket, and the answer is the product of the own ticket's values at those columns |
| Day16.Part2 | AdventOfCode2020/Days/Day16.cs:29-43 | part 2 answers exactly when the input parses, the rule mapping of the valid tickets exists and every `departure` column lies inside the own ticket; an answer is the product of the own ticket's values at the columns the rule mapping of the valid tickets gives the `departure` rules |
| Day17.Range | AdventOfCode2020/Days/Day17.cs:64-71 | the integers from lo up to hi, each once |
| Day17.TuplesMember | AdventOfCode2020/Days/Day17.cs:64-71 | the nested loops produce exactly the vectors whose k-th coordinate is taken from the k-th list |
| Day17.TuplesNoDup | AdventOfCode2020/Days/Day17.cs:64-71 | with duplicate-free lists no vector is produced twice |
| Day17.Cube | AdventOfCode2020/Days/Day17.cs:268-304 | the unit cube {-1, 0, 1}^d has 3^d vectors, each once |
| Day17.BitsOf | AdventOfCode2020/Days/Day17.cs:274 | `Convert.ToString(i, 2).PadLeft(d, '0')` gives d binary digits reading back as i |
| Day17.OffsetOf | AdventOfCode2020/Days/Day17.cs:278-279 | each coordinate of an offset is the sign (1 or -1) times whether that axis moves |
| Day17.GridContains | AdventOfCode2020/Days/Day17.cs:272-281 | every pair of loop indices contributes its vector to the list |
| Day17.GridFrom | AdventOfCode2020/Days/Day17.cs:272-281 | every vector of the list comes from some pair of loop indices |
| Day17.CoordsInCube | AdventOfCode2020/Days/Day17.cs:272-281 | every vector the loops build lies in {-1, 0, 1}^d |
| Day17.OffsetReaches | AdventOfCode2020/Days/Day17.cs:272-281 | every vector of {-1, 0, 1}^d is built by some pair of loop indices |
| Day17.ZeroOffset | AdventOfCode2020/Days/Day17.cs:272-284 | the first pair of indices builds the zero vector, which `Skip(1)` drops |
| Day17.NeighbourOffsetsExact | AdventOfCode2020/Days/Day17.cs:268-304 | the neighbour offsets are exactly the non-zero vectors of {-1, 0, 1}^d, each once, 3^d - 1 of them |
| Day17.ActiveNeighbours | AdventOfCode2020/Days/Day17.cs:214-266 | no more neighbours are counted than there are offsets |
| Day17.ActiveNeighboursCount | AdventOfCode2020/Days/Day17.cs:214-266 | with distinct offsets, the count is the number of offsets leading to an active cube inside the area |
| Day17.NewCell | AdventOfCode2020/Days/Day17.cs:124-144 | a cube is active next exactly when it is active with 2 or 3 active neighbours, or inactive with exactly 3 |
| Day17.ApplyRule | AdventOfCode2020/Days/Day17.cs:99-151 | one cycle grows every axis by two |
| Day17.ExtendedCopies | AdventOfCode2020/Days/Day17.cs:103-114 | the grown area holds each old cube one step further along every axis, and `\0` wherever no old cube was copied |
| Day17.ApplyRuleCell | AdventOfCode2020/Days/Day17.cs:116-147 | each cube of the grown area follows the rule on its copied value and the active neighbours among all non-zero offsets |
| Day17.ApplyRules | AdventOfCode2020/Days/Day17.cs:53-59 | after the given number of cycles (none when negative) every axis has grown by twice that number |
| Day17.Box | AdventOfCode2020/Days/Day17.cs:64-83 | the counting loops visit exactly the coordinates inside the area, each once |
| Day17.CountActiveIsCard | AdventOfCode2020/Days/Day17.cs:61-85 | counting over distinct coordinates gives the number of active cubes among them |
| Day17.CountActiveCubesExact | AdventOfCode2020/Days/Day17.cs:61-85 | the count is the number of active cubes inside the area |
| Day17.Setup | AdventOfCode2020/Days/Day17.cs:306-325 | the area is built exactly when there is a first line and none is longer than it; its lengths are the line count, the first line's width and 1 on the extra axes, and each character lands at its row and column |
| Day17.Solve | AdventOfCode2020/Days/Day17.cs:22-36 | the parts answer exactly when the area can be built; the answer is the number of active cubes, after six cycles, in the area those cycles grew by 12 along every axis |
| Day17.Part1 | AdventOfCode2020/Days/Day17.cs:22-28 | part 1 answers exactly when there is a first line and none is longer than it, and is the number of active cubes after six three-dimensional cycles |
| Day17.Part2 | AdventOfCode2020/Days/Day17.cs:30-36 | part 2 answers under the same condition, and is the number of active cubes after six four-dimensional cycles |
| Day18.LeadingWhiteSpace | AdventOfCode2020/Days/Day18.cs:189-193 | the white space skipped before a token is the longest white-space prefix |
| Day18.DigitRun | AdventOfCode2020/Days/Day18.cs:194-208 | a number token takes the longest run of digits |
| Day18.TokenAt | AdventOfCode2020/Days/Day18.cs:192-223 | the end of the line or a `\0` gives no token, a character that starts no token fails, and otherwise the token is well formed, is the front of the text and a number is not followed by a digit |
| Day18.NextToken | AdventOfCode2020/Days/Day18.cs:183-224 | the same, after the leading white space is skipped |
| Day18.Lex | AdventOfCode2020/Days/Day18.cs:169-181 | every token the lexer emits is well formed |
| Day18.Live | AdventOfCode2020/Days/Day18.cs:226-232 | the lexer reads the line up to its first `\0` |
| Day18.LexCharacterised | AdventOfCode2020/Days/Day18.cs:169-224 | the lexer succeeds exactly when every character it reads is white space or starts a token, and the tokens' texts joined are the text read without its white space |
| Day18.LexRender | AdventOfCode2020/Days/Day18.cs:169-224 | lexing well-formed tokens written with a space after each gives the same tokens back |
| Day18.GetToken | AdventOfCode2020/Days/Day18.cs:160-167 | the position handed back stays within the token list |
| Day18.DrainInOrder | AdventOfCode2020/Days/Day18.cs:160-167 | calling `GetToken` until it returns no token hands out the remaining tokens in order, each once |
| Day18.LeadingWhile | AdventOfCode2020/Days/Day18.cs:81-96 | the `while` loops pop the longest run from the top of the stack that meets their condition |
| Day18.Move | AdventOfCode2020/Days/Day18.cs:83-98 | moving tokens from the stack to the output keeps the output followed by the stack unchanged |
| Day18.PopOperators | AdventOfCode2020/Days/Day18.cs:78-87 | an operator moves to the output exactly the run of operators on top that pop before it (any operator without precedence, only `+` with it), and nothing when the top does not pop |
| Day18.PopToOpen | AdventOfCode2020/Days/Day18.cs:93-105 | a `)` moves to the output exactly the tokens above the top `(`, which is then on top if there is one |
| Day18.ShuntInvariantHolds | AdventOfCode2020/Days/Day18.cs:64-106 | after every token the output holds the input's numbers in order and no parenthesis, the stack holds operators and one `(` per parenthesis left open, and no operator is lost |
| Day18.ReversePolishNotationContents | AdventOfCode2020/Days/Day18.cs:64-113 | `CreateReversePolishNotation` holds the input's numbers in their original order and every operator, no `)`, and exactly one `(` per parenthesis left unclosed |
| Day18.EvalStep | AdventOfCode2020/Days/Day18.cs:115-144 | a number pushes one value; an operator needs two values, leaves one fewer, and only `+` and `*` succeed |
| Day18.RunAppend | AdventOfCode2020/Days/Day18.cs:120-141 | evaluating two RPN pieces one after the other is evaluating them joined |
| Day18.RunRejects | AdventOfCode2020/Days/Day18.cs:125-140 | an operator other than `+` and `*` anywhere in the RPN makes evaluation throw |
| Day18.FailingTokens | AdventOfCode2020/Days/Day18.cs:51-144 | `EvaluateRPN` of the RPN of tokens with a parenthesis left open, or with a `-`, fails |
| Day18.FailingExpressions | AdventOfCode2020/Days/Day18.cs:51-58 | `EvaluateExpression` fails on a line with a parenthesis left open or that subtracts |
| Day18.StarsCollapse | AdventOfCode2020/Days/Day18.cs:108-134 | the `*`s left on the stack multiply the top values together |
| Day18.LeftToRightEvaluation | AdventOfCode2020/Days/Day18.cs:51-144 | without precedence, `EvaluateRPN` of the RPN of a parenthesis-free expression is its strictly left-to-right value |
| Day18.AdditionFirstEvaluation | AdventOfCode2020/Days/Day18.cs:51-144 | with precedence, `EvaluateRPN` of the RPN of a parenthesis-free expression is the product of its sums |
| Day18.RenderedExpressions | AdventOfCode2020/Days/Day18.cs:22-58 | `EvaluateExpression` of a written-out parenthesis-free line is its left-to-right value in part 1 and its product of sums in part 2 |
| Day18.SumOfLinesOk | AdventOfCode2020/Days/Day18.cs:22-44 | the sum of the lines succeeds exactly when every line evaluates |
| Day18.SumOfLinesValue | AdventOfCode2020/Days/Day18.cs:26-30 | a sum that succeeds is the sum of the lines' values, in order |
| Day18.Part1 | AdventOfCode2020/Days/Day18.cs:22-32 | part 1 succeeds exactly when every line evaluates without precedence, and is the sum of those values |
| Day18.Part2 | AdventOfCode2020/Days/Day18.cs:34-44 | part 2 succeeds exactly when every line evaluates with `+` before `*`, and is the sum of those values |
| Day20.FlipsAreInvolutions | AdventOfCode2020/Days/Day20.cs:545-579 | both flips keep the grid's shape and undo themselves |
| Day20.TransposeTwice | AdventOfCode2020/Days/Day20.cs:581-597 | transposing turns a rows-by-cols grid into cols-by-rows, and twice gives the grid back |
| Day20.RowPasses | AdventOfCode2020/Days/Day20.cs:599-617 | after k passes of the inner loop a row is mirrored in its first and last k columns and unwritten between |
| Day20.ReverseRows | AdventOfCode2020/Days/Day20.cs:599-617 | on a square every row is mirrored, except that an odd side leaves the middle column unwritten |
| Day20.Rotate90 | AdventOfCode2020/Days/Day20.cs:487-492 | a clockwise quarter turn: cell (i, j) comes from (n-1-j, i), apart from the unwritten middle column of an odd side |
| Day20.OddRotationLosesMiddle | AdventOfCode2020/Days/Day20.cs:599-617 | on an odd side the rotation blanks the middle column whatever the grid holds |
| Day20.HalfTurn | AdventOfCode2020/Days/Day20.cs:487-492 | two quarter turns send cell (i, j) to (n-1-i, n-1-j) |
| Day20.FourTurns | AdventOfCode2020/Days/Day20.cs:487-492 | on an even side four quarter turns give the grid back |
| Day20.Flip | AdventOfCode2020/Days/Day20.cs:494-504 | directions 0 to 3 flip vertically, horizontally, both ways or not at all; any other direction throws |
| Day20.FlipBothIsHalfTurn | AdventOfCode2020/Days/Day20.cs:494-504 | flipping both ways is the half turn |
| Day20.Orientations | AdventOfCode2020/Days/Day20.cs:413-438 | the sixteen permutation grids are, in order, each of the four flips after one, two, three and four quarter turns |
| Day20.OrientationsIncludeOriginal | AdventOfCode2020/Days/Day20.cs:413-438 | on an even side the last permutation is the tile as parsed |
| Day20.Permutations | AdventOfCode2020/Days/Day20.cs:413-438 | a tile's sixteen permutation tiles carry its id and fresh arrays holding the orientations |
| Day20.DistinctKeepsAll | AdventOfCode2020/Days/Day20.cs:530-534 | `Distinct` under reference equality of the data removes nothing when no two tiles share an array |
| Day20.DistinctDropsRepeat | AdventOfCode2020/Days/Day20.cs:530-534 | a tile whose array was already kept is dropped |
| Day20.Fill | AdventOfCode2020/Days/Day20.cs:508-520 | the data array is always 10 by 10 |
| Day20.ParseTile | AdventOfCode2020/Days/Day20.cs:506-523 | a tile parses exactly when it has a header whose second word less its last character is a number and its rows fit the array; the data is the rows filled in, and the permutations are built from it |
| Day20.ParseRenderedTile | AdventOfCode2020/Days/Day20.cs:506-523 | a written-out 10 by 10 tile parses back to its id and grid |
| Day20.ParseGroups | AdventOfCode2020/Days/Day20.cs:350-368 | the groups parse exactly when each does, into one numbered tile per group |
| Day20.ParseInput | AdventOfCode2020/Days/Day20.cs:350-368 | the input parses exactly when every blank-line separated group is a tile, one tile per group in order |
| Day20.TrailingBlankLineFails | AdventOfCode2020/Days/Day20.cs:355-365 | input ending in a blank line fails, its empty last group having no header |
| Day20.GetBorders | AdventOfCode2020/Days/Day20.cs:446-485 | four borders, each as long as the side |
| Day20.BordersOf | AdventOfCode2020/Days/Day20.cs:440-444 | the named borders are `GetBorders`' four in order |
| Day20.BordersOfFlipHorizontal | AdventOfCode2020/Days/Day20.cs:563-579 | a horizontal flip swaps the left and right borders and reverses the other two |
| Day20.BordersOfFlipVertical | AdventOfCode2020/Days/Day20.cs:545-561 | a vertical flip swaps the top and bottom borders and reverses the other two |
| Day20.MatchFrom | AdventOfCode2020/Days/Day20.cs:334-348 | the loop finds a border equal to the one two places on in the other tile exactly when one exists |
| Day20.MatchIsOppositeSides | AdventOfCode2020/Days/Day20.cs:334-348 | two tiles match exactly when one's left is the other's right, or one's top the other's bottom, either way round |
| Day20.MatchSymmetric | AdventOfCode2020/Days/Day20.cs:334-348 | matching does not depend on the order of the tiles |
| Day20.SearchPerms | AdventOfCode2020/Days/Day20.cs:203-241 | the inner loop returns the first fitting permutation, or none when none fits |
| Day20.SearchTiles | AdventOfCode2020/Days/Day20.cs:199-245 | the outer loop returns the first candidate in tile-then-permutation order, or none when there is none |
| Day20.FindNext | AdventOfCode2020/Days/Day20.cs:197-247 | a tile is found exactly when some candidate exists, and it is one of them |
| Day20.MatchRightHandSide | AdventOfCode2020/Days/Day20.cs:197-221 | a returned tile has another id and its left border continues the placed tile's right border |
| Day20.MatchBottomToTop | AdventOfCode2020/Days/Day20.cs:223-247 | a returned tile has another id and its top border continues the placed tile's bottom border |
| Day20.UsedTilesIgnored | AdventOfCode2020/Days/Day20.cs:203-229 | as written the used list changes nothing: a parsed tile never shares its array with a placed permutation |
| Day20.CorrectedSkipsUsed | AdventOfCode2020/Days/Day20.cs:203-229 | with the used check by id, a returned permutation never belongs to a tile already placed |
| Day20.DataWithoutBorders | AdventOfCode2020/Days/Day20.cs:398-411 | the 8 by 8 inside of a tile, cell (i, j) taken from (i+1, j+1) |
| Day20.TrimCommutes | AdventOfCode2020/Days/Day20.cs:398-411 | cutting the borders off commutes with both flips and the quarter turn |
| Day20.MonsterCells | AdventOfCode2020/Days/Day20.cs:119-136 | the sea monster has fifteen cells, all within 20 columns by 3 rows |
| Day20.CountAnchors | AdventOfCode2020/Days/Day20.cs:141-147 | the loops count exactly the anchors inside their bounds at which the monster's fifteen cells are all `#` |
| Day20.CountSeaMonsters | AdventOfCode2020/Days/Day20.cs:117-150 | as written the count is the number of anchors at which a monster fits with room to spare past its last row and column |
| Day20.CountSeaMonstersCorrected | AdventOfCode2020/Days/Day20.cs:117-150 | with the intended bounds the count is the number of anchors at which a monster fits inside the picture |
| Day20.LastAnchorMissed | AdventOfCode2020/Days/Day20.cs:141-143 | a 20 by 20 picture of `#` holds a monster the count as written misses |
| Day20.CorrectedCountsMore | AdventOfCode2020/Days/Day20.cs:141-143 | the corrected count finds every monster the one as written finds |
| Day20.FirstPositive | AdventOfCode2020/Days/Day20.cs:101-113 | the search stops at the first orientation with a positive count, or finds none |
| Day20.OrientationCounts | AdventOfCode2020/Days/Day20.cs:101-113 | the counts are taken over the sixteen orientations in the permutation order, with the count as written or the corrected one |
| Day20.CountSeaMonstersAllPermutations | AdventOfCode2020/Days/Day20.cs:99-115 | it throws exactly when no orientation holds a monster, and otherwise returns the first positive count |
| Day20.TotalSquares | AdventOfCode2020/Days/Day20.cs:152-163 | the count is the number of cells holding `#`, zero exactly when none does |
| Day20.TotalSquaresAppend | AdventOfCode2020/Days/Day20.cs:152-163 | counting two stacked pictures adds their counts |
| Day20.TotalSquaresFlipVertical | AdventOfCode2020/Days/Day20.cs:545-561 | flipping the picture keeps the number of `#` cells |
| Day20.TotalSquaresFlipHorizontal | AdventOfCode2020/Days/Day20.cs:563-579 | mirroring the rows keeps the number of `#` cells |
| Day20.Part2 | AdventOfCode2020/Days/Day20.cs:33-48 | as written the roughness is the number of `#` cells less fifteen times the number of strictly fitting monsters in the first orientation that has any, and it fails exactly when no orientation has one |
| Day20.Part2Corrected | AdventOfCode2020/Days/Day20.cs:33-48 | with the corrected count the roughness is the number of `#` cells less fifteen times the number of monsters inside the picture in the first orientation that has any, and it fails exactly when no orientation has one |
| Day20.UniformFlipped | AdventOfCode2020/Days/Day20.cs:494-504 | every flip of a picture of `#` is again a picture of `#` |
| Day20.Part2MissesEdgeMonster | AdventOfCode2020/Days/Day20.cs:141-143 | on any 20 by 20 picture part 2 as written throws "No sea monsters found", while the corrected part 2 answers for a picture of `#` |
| Day21.ParseFood | AdventOfCode2020/Days/Day21.cs:51-53 | a line parses exactly when it has a `(contains ` part, and then names at least one ingredient and one allergen |
| Day21.ParseFoods | AdventOfCode2020/Days/Day21.cs:49-66 | the lines parse exactly when every line does, one food per line in order |
| Day21.Find | AdventOfCode2020/Days/Day21.cs:59 | an allergen is found exactly when it is a key, and at the position holding it |
| Day21.AddUnder | AdventOfCode2020/Days/Day21.cs:59-63 | the dictionary keeps distinct keys and a new allergen is added last |
| Day21.LookupAddUnder | AdventOfCode2020/Days/Day21.cs:59-63 | adding a list under an allergen appends it to that allergen's lists and leaves every other allergen's lists alone |
| Day21.AddFood | AdventOfCode2020/Days/Day21.cs:57-64 | after a line the keys are the old keys and the line's allergens |
| Day21.LookupAddFood | AdventOfCode2020/Days/Day21.cs:57-64 | a line appends its ingredient list under an allergen once per time the line names it |
| Day21.MappingOf | AdventOfCode2020/Days/Day21.cs:44-68 | the dictionary's keys are exactly the allergens some line names, each once |
| Day21.MappingFilesEveryLine | AdventOfCode2020/Days/Day21.cs:44-68 | the lists under an allergen are the ingredient lists of the lines naming it, in line order |
| Day21.FoodFiled | AdventOfCode2020/Days/Day21.cs:57-64 | each food's list is filed under each of its allergens |
| Day21.Candidates | AdventOfCode2020/Days/Day21.cs:79-86 | the candidates are exactly the ingredients in every list under the allergen and not yet taken, each once |
| Day21.StepAssigns | AdventOfCode2020/Days/Day21.cs:77-94 | a step assigns only an allergen not yet used up, and assigns it an ingredient in all its lists that no other allergen has |
| Day21.PassKeepsConsistent | AdventOfCode2020/Days/Day21.cs:77-101 | a pass never un-assigns anything and keeps every assignment consistent, and one that assigns nothing changes nothing |
| Day21.PassUnchanged | AdventOfCode2020/Days/Day21.cs:75-101 | a pass that assigns nothing leaves the state a fixed point, so the `while` loop would spin |
| Day21.Resolve | AdventOfCode2020/Days/Day21.cs:70-105 | on success every allergen has been used up and the state is consistent |
| Day21.ResolvedAssignsAll | AdventOfCode2020/Days/Day21.cs:70-105 | on success every input allergen is assigned exactly one ingredient, found in every list filed under it, and no ingredient carries two allergens |
| Day21.Ingredients | AdventOfCode2020/Days/Day21.cs:47-55 | the ingredient list, with repeats, holds exactly the ingredients some line lists |
| Day21.AllFiled | AdventOfCode2020/Days/Day21.cs:27-28 | every ingredient in some list of the dictionary, and no other |
| Day21.Without | AdventOfCode2020/Days/Day21.cs:29-30 | `Except` keeps exactly the elements not taken |
| Day21.CountSafe | AdventOfCode2020/Days/Day21.cs:33 | counting occurrences of the safe ingredients is counting the occurrences not assigned an allergen |
| Day21.Part1Of | AdventOfCode2020/Days/Day21.cs:22-34 | part 1 succeeds exactly when every allergen gets assigned |
| Day21.Part1 | AdventOfCode2020/Days/Day21.cs:22-34 | part 1 succeeds exactly when the lines parse and every allergen gets assigned, and counts the occurrences, across all lines, of ingredients no allergen was assigned to |
| Day21.LeTotal | AdventOfCode2020/Days/Day21.cs:41 | ordinal string order compares any two strings |
| Day21.LeTransitive | AdventOfCode2020/Days/Day21.cs:41 | ordinal string order is transitive |
| Day21.SortKeys | AdventOfCode2020/Days/Day21.cs:41 | `OrderBy` returns the keys sorted, as a permutation of them |
| Day21.Part2Of | AdventOfCode2020/Days/Day21.cs:36-42 | part 2 succeeds exactly when every allergen gets assigned |
| Day21.UsedAreKeys | AdventOfCode2020/Days/Day21.cs:70-105 | on success every input allergen is used up exactly once |
| Day21.Part2 | AdventOfCode2020/Days/Day21.cs:36-42 | part 2 succeeds exactly when the lines parse and every allergen gets assigned, and lists, in ordinal allergen order, each input allergen's ingredient once, joined by commas |
| Day22.CardLine | AdventOfCode2020/Days/Day22.cs:155-169 | a card's line is neither a header nor blank and reads back as the card |
| Day22.ParseCards | AdventOfCode2020/Days/Day22.cs:153-171 | a run of card lines deals its cards, in order, to the current player |
| Day22.ParseRender | AdventOfCode2020/Days/Day22.cs:147-174 | `ParseInput` of two decks written in the puzzle's layout gives back the same two decks |
| Day22.RoundConserves | AdventOfCode2020/Days/Day22.cs:44-58 | a `Round` keeps every card and the card count, and the deck of the higher card's owner grows by one, a tie going to player 2 |
| Day22.Combat | AdventOfCode2020/Days/Day22.cs:42-64 | a finished game leaves one deck empty and holds exactly the cards dealt |
| Day22.CalculateScore | AdventOfCode2020/Days/Day22.cs:135-144 | the loop computes the sum of each card times its place counted from the bottom |
| Day22.ScoreAppend | AdventOfCode2020/Days/Day22.cs:135-144 | for `Score`, a card put under a deck adds its own value once and every card above it once more |
| Day22.Part1 | AdventOfCode2020/Days/Day22.cs:22-27 | part 1 answers exactly when the input parses and Combat ends within the fuel, with the score of a deck holding every card dealt, the non-empty one when Combat ends |
| Day22.Take | AdventOfCode2020/Days/Day22.cs:84-85 | `Take` gives as many cards as the value drawn, none for a value of zero or less |
| Day22.RoundIsAward | AdventOfCode2020/Days/Day22.cs:89-111 | the high-card round is the same award as a sub-game won by the higher card's owner |
| Day22.AwardConserves | AdventOfCode2020/Days/Day22.cs:89-111 | whoever wins a round, the cards and their count are kept |
| Day22.Recursive | AdventOfCode2020/Days/Day22.cs:66-118 | a finished game is won by player 1 or player 2 |
| Day22.RecursiveOutcome | AdventOfCode2020/Days/Day22.cs:66-118 | a game player 2 wins ends with player 2 holding every card of the game, and any winning deck holds only cards of the game |
| Day22.RepeatEndsGame | AdventOfCode2020/Days/Day22.cs:71-75 | a deck either player held earlier in the game ends it at once for player 1, scored on player 1's deck |
| Day22.NoSubGameIsCombatRound | AdventOfCode2020/Days/Day22.cs:81-112 | when a player lacks the cards for a sub-game the round is decided as in Combat |
| Day22.SubGameDecks | AdventOfCode2020/Days/Day22.cs:81-87 | a sub-game is played on copies of exactly as many cards as each player drew, from the top of the rest of the deck |
| Day22.Part2 | AdventOfCode2020/Days/Day22.cs:29-35 | part 2 answers exactly when the input parses and the recursive game ends within the fuel, with the score of a deck holding only cards that were dealt, and every card dealt when player 2 wins |
| Day23.Rotate | AdventOfCode2020/Days/Day23.cs:162-165 | the circle read from a position holds the same cups and starts with the cup there |
| Day23.RotateNext | AdventOfCode2020/Days/Day23.cs:103 | reading from the next position moves the first cup to the end |
| Day23.RemoveThreeAfter | AdventOfCode2020/Days/Day23.cs:159-191 | three cups are picked up and the rest keeps the others, with the current cup still in it |
| Day23.RemovalShape | AdventOfCode2020/Days/Day23.cs:159-191 | in all four cases, wrapping or not, the cups picked up are the three clockwise of the current cup, and the list left, read from the current cup, is the circle without them |
| Day23.RemovalConserves | AdventOfCode2020/Days/Day23.cs:159-191 | picking up loses no cup |
| Day23.DistanceBound | AdventOfCode2020/Days/Day23.cs:87-94 | counting down and wrapping reaches every label within max steps |
| Day23.SearchFrom | AdventOfCode2020/Days/Day23.cs:87-94 | the search returns an unpicked label in range with every nearer label picked, or none when every label within its budget is picked |
| Day23.Destination | AdventOfCode2020/Days/Day23.cs:83-94 | the destination is the nearest unpicked label counting down from one below the current label; there is none exactly when every label in range was picked up, where the source spins |
| Day23.DestinationSkipsPicked | AdventOfCode2020/Days/Day23.cs:83-94 | every label passed over on the way down, including after wrapping to max, was picked up |
| Day23.AddAfter | AdventOfCode2020/Days/Day23.cs:150-157 | a new node holding the value sits right after the given one |
| Day23.PutBackInOrder | AdventOfCode2020/Days/Day23.cs:98-101 | adding the picked cups after the destination in reverse order leaves them in their original order |
| Day23.Find | AdventOfCode2020/Days/Day23.cs:145-148 | a label is found exactly when some cup holds it, and at its position |
| Day23.Move | AdventOfCode2020/Days/Day23.cs:78-104 | a move keeps the circle valid and its cups |
| Day23.MoveStuck | AdventOfCode2020/Days/Day23.cs:87-94 | when every label in range is picked up the move fails |
| Day23.MoveEffect | AdventOfCode2020/Days/Day23.cs:78-104 | the destination is followed by the three cups that followed the current cup, in order; the new current cup is the next one clockwise; and without the picked cups the circle reads as before |
| Day23.Moves | AdventOfCode2020/Days/Day23.cs:44-47 | any number of moves keeps the circle valid and its cups, and none changes nothing |
| Day23.LabelsAfterOne | AdventOfCode2020/Days/Day23.cs:51-57 | part 1 reads one label fewer than there are cups |
| Day23.LabelsAfterOneRotate | AdventOfCode2020/Days/Day23.cs:51-57 | the labels read are the circle clockwise of cup 1, cup 1 left out |
| Day23.Concat | AdventOfCode2020/Days/Day23.cs:56 | digit labels are written one character each |
| Day23.StarProduct | AdventOfCode2020/Days/Day23.cs:61-64 | the product exists exactly when some cup is labelled 1 |
| Day23.StarProductRotate | AdventOfCode2020/Days/Day23.cs:61-64 | the product is of the two cups clockwise of cup 1 |
| Day23.Labels | AdventOfCode2020/Days/Day23.cs:36-70 | each digit becomes its value and any other character -1 |
| Day23.PadFrom | AdventOfCode2020/Days/Day23.cs:71-74 | the loop appends the labels after the start up to a million, in order |
| Day23.PadCupsToMillion | AdventOfCode2020/Days/Day23.cs:68-76 | the input's cups come first, then the labels after the largest one up to a million |
| Day23.PaddedLabels | AdventOfCode2020/Days/Day23.cs:68-76 | cups labelled 1 to n once each become cups labelled 1 to 1000000 once each |
| Day23.StartCups | AdventOfCode2020/Days/Day23.cs:34-36 | the starting circle is never empty for a non-empty input |
| Day23.PerformMoves | AdventOfCode2020/Days/Day23.cs:32-66 | an empty input fails; it answers exactly when the input is non-empty, the starting circle (padded for part 2) is valid, the moves succeed and, for part 2, some cup is labelled 1; the answer is, for part 1, the labels clockwise of cup 1 with cup 1 left out, and for part 2, the product of the two cups clockwise of cup 1 |
| Day23.Reading | AdventOfCode2020/Days/Day23.cs:49-65 | part 1 reads the labels clockwise of cup 1; part 2 answers exactly when some cup is labelled 1, with the product of the two cups clockwise of it |
| Day23.ReadFromOne | AdventOfCode2020/Days/Day23.cs:49-65 | with a cup labelled 1, both readings start from it |
| Day23.Part1 | AdventOfCode2020/Days/Day23.cs:20-23 | part 1 answers exactly when 100 moves succeed on the input's valid circle, and reads the final circle clockwise of cup 1, cup 1 left out |
| Day23.Part2 | AdventOfCode2020/Days/Day23.cs:25-28 | part 2 answers exactly when ten million moves succeed on the valid million-cup circle holding cup 1, with the product of the two cups clockwise of cup 1 |
| Day23.Part1Reads | AdventOfCode2020/Days/Day23.cs:32-59 | part 1 reads the circle after 100 moves clockwise from cup 1, cup 1 left out |
| Day23.MovesKeepDigits | AdventOfCode2020/Days/Day23.cs:44-47 | moves only rearrange cups, so an input of digits leaves digit labels |
| Day24.Tokens | AdventOfCode2020/Days/Day24.cs:209-241 | a line that lexes is exactly the directions' names written one after another |
| Day24.TokensRender | AdventOfCode2020/Days/Day24.cs:209-241 | any walk written out lexes back to the same directions |
| Day24.Step | AdventOfCode2020/Days/Day24.cs:81-89 | a step keeps a tile on the floor, its coordinates summing to zero |
| Day24.StepBack | AdventOfCode2020/Days/Day24.cs:81-89 | a step followed by the opposite step comes back to the tile |
| Day24.WalkThere | AdventOfCode2020/Days/Day24.cs:77-90 | a walk followed by its reverse, each step undone, comes home |
| Day24.WalkAppend | AdventOfCode2020/Days/Day24.cs:79-90 | walking two pieces one after the other is walking them joined |
| Day24.Offset | AdventOfCode2020/Days/Day24.cs:44-45 | every neighbour offset is itself a tile on the floor |
| Day24.NeighboursAreSteps | AdventOfCode2020/Days/Day24.cs:81-89 | the six neighbours are the six one-step walks, no two the same |
| Day24.NeighbourBack | AdventOfCode2020/Days/Day24.cs:44-45 | the opposite offset leads back, so being neighbours is symmetric |
| Day24.CountBlackAdjacent | AdventOfCode2020/Days/Day24.cs:160-175 | at most six neighbours are counted, and some are exactly when some neighbour is black |
| Day24.CountSameBlack | AdventOfCode2020/Days/Day24.cs:167-171 | the count depends only on which neighbours are black |
| Day24.Flip | AdventOfCode2020/Days/Day24.cs:177-180 | flipping turns one known tile over and leaves every other tile alone |
| Day24.CountBlackTiles | AdventOfCode2020/Days/Day24.cs:53-56 | the black tiles are never more than the known tiles, and none is black exactly when every known tile is white |
| Day24.ToggledCount | AdventOfCode2020/Days/Day24.cs:53-56 | turning one tile over changes the black count by one: down when it was black, up otherwise |
| Day24.FlipAt | AdventOfCode2020/Days/Day24.cs:92-96 | the tile becomes known, its colour turns over, and every other known tile keeps its colour |
| Day24.FlipTile | AdventOfCode2020/Days/Day24.cs:74-97 | a line fails exactly when it does not lex, and otherwise turns over the tile its walk from the reference tile reaches |
| Day24.FlipTileTwice | AdventOfCode2020/Days/Day24.cs:74-97 | the same line twice leaves every tile's colour as it was |
| Day24.FlipTiles | AdventOfCode2020/Days/Day24.cs:66-72 | the lines succeed exactly when each lexes, and known tiles stay known |
| Day24.NewTiles | AdventOfCode2020/Days/Day24.cs:123-137 | every tile collected is unknown and has a black neighbour |
| Day24.AddNewAdjacentTiles | AdventOfCode2020/Days/Day24.cs:110-121 | known tiles keep their colour and the tiles added are white ones next to a black tile |
| Day24.AddNewCoversBlackNeighbours | AdventOfCode2020/Days/Day24.cs:110-137 | every unknown tile with a black neighbour is added |
| Day24.AddNewKeepsCounts | AdventOfCode2020/Days/Day24.cs:110-121 | adding white tiles changes no tile's count of black neighbours |
| Day24.FlipAccordingToRules | AdventOfCode2020/Days/Day24.cs:139-158 | a known tile turns over exactly when the rule says so, judged on the floor before any flip |
| Day24.DayMatchesRule | AdventOfCode2020/Days/Day24.cs:99-108 | after a day a tile, known or not, is black exactly when the rule on the unbounded floor makes it so: black with one or two black neighbours, or white with exactly two |
| Day24.Exhibit | AdventOfCode2020/Days/Day24.cs:58-64 | known tiles stay known, and no days change nothing |
| Day24.ExhibitOnFloor | AdventOfCode2020/Days/Day24.cs:58-64 | every tile the exhibit meets lies on the floor |
| Day24.FlipTilesOnFloor | AdventOfCode2020/Days/Day24.cs:66-97 | every tile the walks reach lies on the floor |
| Day24.FlipTilesParity | AdventOfCode2020/Days/Day24.cs:66-97 | after the lines, a tile is black exactly when its colour before and the parity of the number of lines leading to it disagree |
| Day24.BlackIffOddHits | AdventOfCode2020/Days/Day24.cs:24-25 | from the all-white start, the black tiles are exactly those an odd number of lines lead to |
| Day24.ExhibitLast | AdventOfCode2020/Days/Day24.cs:58-64 | an exhibit of one more day runs that day on the floor the earlier days left |
| Day24.ExhibitFollowsRule | AdventOfCode2020/Days/Day24.cs:58-64 | each day of the exhibit follows the rule on the unbounded floor |
| Day24.Part1 | AdventOfCode2020/Days/Day24.cs:22-28 | part 1 answers exactly when every line lexes, with the number of tiles an odd number of lines lead to |
| Day24.Part2 | AdventOfCode2020/Days/Day24.cs:30-37 | part 2 answers exactly when every line lexes; it starts from part 1's floor and counts the black tiles after 100 days, the last of which follows the rule on the unbounded floor |
| Day25.Rem | AdventOfCode2020/Days/Day25.cs:50-62 | C#'s remainder agrees with the mathematical one on non-negative operands and always lies strictly between -m and m |
| Day25.StepOfNonNegative | AdventOfCode2020/Days/Day25.cs:61-62 | for a non-negative value and subject, `Step`'s C# remainder is the mathematical one |
| Day25.Transform | AdventOfCode2020/Days/Day25.cs:56-65 | no loop leaves 1; otherwise the value stays strictly within the modulus either side, and a non-negative subject gives a value in [0, 20201227) |
| Day25.TransformIsPower | AdventOfCode2020/Days/Day25.cs:56-65 | transforming a non-negative subject n times is the subject to the n-th power modulo 20201227 |
| Day25.KeysAgree | AdventOfCode2020/Days/Day25.cs:56-65 | transforming the door's public key by the card's loop size gives the same key as the other way round |
| Day25.ProductsFitInLong | AdventOfCode2020/Days/Day25.cs:61 | with a subject below the modulus no product in the loop exceeds a `long` |
| Day25.Search | AdventOfCode2020/Days/Day25.cs:44-51 | the search returns the first loop size, from the start on, whose transform is the public key, and finds one whenever one lies within the fuel |
| Day25.FindLoopSize | AdventOfCode2020/Days/Day25.cs:40-54 | the loop size found is the smallest whose transform of 7 is the public key, and one within the fuel is always found |
| Day25.LoopSizeOfOne | AdventOfCode2020/Days/Day25.cs:44-45 | a public key of 1 has loop size 0 |
| Day25.UnreachableKey | AdventOfCode2020/Days/Day25.cs:44-51 | a public key other than 1 outside [0, 20201227) is never reached, where the source spins |
| Day25.Part1 | AdventOfCode2020/Days/Day25.cs:22-31 | fewer than two keys fail; otherwise the answer is the door's key transformed by a loop size that produces the card's key |
| Day25.Part1SharedKey | AdventOfCode2020/Days/Day25.cs:22-31 | when both keys come from loop sizes, part 1 is the shared encryption key |
| Day25.Part2 | AdventOfCode2020/Days/Day25.cs:33-36 | the puzzle has no second part; the answer is a fixed message |

## Left out

- Reading the puzzle input from the embedded resources, the `Solve` wrappers that time and print the answers, splitting the resource text on line breaks, and formatting answers as strings: all are I/O around the modelled functions, whose input is the list of lines. Days 1, 9, 10, 15 and 25 instead take the numbers the input holds, and Day 13's part 1 its timestamp: the `int.Parse` / `long.Parse` of each line or entry, which throws on a blank or non-numeric text or one outside the type's range, is left out with the input reading.
- Day25.Part1: takes the public keys already read as numbers (`keys: seq<int>`), so it does not fail on the blank or non-numeric line on which the original's `long.Parse` of every line throws.
- Day 3 is an empty stub in the repository; Day 19 is not part of this model.
- Day 20 part 1 and the assembly of the picture (`FindMatches`, `FindTopLeftCornerTilePermutation`, `StitchTogetherBigPicture`, `AssemblyBigPicture`, with their `Math.Sqrt` side length and fixed picture size): the stitching heuristics are left out, so `Day20.Part2` takes the assembled picture as input. The border searches they call are modelled.
- Day20.ReverseRows: modelled for square arrays only; on a non-square array the original throws or leaves cells unwritten, and only square tiles and pictures reach it.
- Day 22's game history is compared by `HashCode` in the original; the model keeps the exact decks, so a hash collision that would end a game early is not modelled.
- Run-time scale is not modelled: Day 15's thirty-million turns and Day 23's ten million moves on a million cups are the same functions with larger parameters.
- Fuel bounds: Day 7's two recursive counts, Day 11's rounds until the seats settle, Day 13's timestamp search, Day 22's games, Day 23's moves and Day 25's loop-size search take a `fuel` bound; running out answers `None` or `Err`, which stands for the original's non-termination or for a bound too small. Day 18's lexer spin on an unknown character and Day 21's `while` loop without progress are answered `Err` / `None` without fuel, because the model shows the original would repeat the same state forever.
- Integer widths: every day's arithmetic is on unbounded integers, so no fixed-width wrap-around or overflow exception of the original is modelled anywhere; the places where the original's widths matter are these. Not modelled are the 32-bit overflow of Day 1's product and Day 10's counts; Day 8's `int` accumulator and program counter, where `accumulator += Argument` and the jump wrap around; Day 9's `long` window sums, the difference `x - number` and `Math.Abs`, which throws `OverflowException` on `long.MinValue`; Day 13's `long` product `iterationJump` and `timestamp += iterationJump`; the 64-bit overflow of Day 14's LINQ `Sum` and `ToLong`, of Day 16's departure product and of Day 18's `long` arithmetic. Day 18's number tokens are read without `long.Parse`'s 64-bit range check (`Strings.ParseInt` in `Day18.EvalStep` and `Strings.DigitsValue` in the reference evaluators), so a literal above 2^63 − 1 that the original rejects evaluates here. `Day25.ProductsFitInLong` shows Day 25's arithmetic stays inside a `long` for subjects below the modulus. Also not modelled: Day 22's score term `winnerList[i] * (winnerList.Count - i)`, an `int` product that wraps around before it is added to the `long` score once a card value times its position from the bottom passes 2^31 − 1; and Day 25's `val *= subjectNumber`, which overflows a `long` once the door's public key (the subject) is at least about 4.57 × 10^11, because `val` may then be as large as 20201226 before the multiplication.
- Day14Extensions.FromBits: reads bit arrays of any length as an unbounded number; the 64-bit wrap-around of `ToLong` is not modelled, which never matters for the 36-bit arrays the puzzle uses.
- Day 21's part 2 sorts allergen names with the current culture's string comparison; the model uses the ordinal order, which agrees on lower-case ASCII names. Lines 96-100 of `Day21.cs` have no effect on the result and are not modelled.
- Strings.ParseInt and Strings.ParseInt32: an optional sign, decimal digits and (for `int`) the 32-bit range check are modelled; the leading and trailing white space (tab to carriage return, and space) that `int.Parse` / `int.TryParse` / `long.Parse` accept is rejected here, as are culture-specific digits, thousands separators and other number styles. The puzzle lines are split on the characters around each number, so no parsed field carries such white space except where a line itself is padded.
- Character classes (`char.IsDigit`, `char.IsWhiteSpace`, `char.GetNumericValue`, case-insensitive comparison) are modelled on ASCII only; other Unicode categories are left out.
- Day 24's memoisation of neighbour counts is left out: the counts are computed directly, and the memo never changes a result (its one write under the wrong key is only read for tiles that fail the membership test).
- Day 23 needs at least four cups with distinct labels (`Day23.Valid`), which every input of the puzzle has; the original misbehaves on fewer cups.
- Day 17's literal neighbour counts (26 in three dimensions, 80 in four) are not proved as literals; `Day17.NeighbourOffsetsExact` proves the general count of 3^d - 1 offsets.
- Day7.ParseRule: its own contract states the rule's name only; the contents list is stated by `Day7.ParseRuleOfText` for rules written the way the input writes them (single-digit counts, names free of `bag`, `cont`, `other` and commas), not for arbitrary lines.
- Day13.FindSolution: the earliest-timestamp clause (and `Day13.Part2`'s) is proved only for pairwise coprime ids, where the solutions of the earlier buses are exactly the candidates of the next step. For ids sharing a factor the product step can skip solutions and the answer need not be the earliest. As in the original, the search starts at the first id, so a timestamp below it (0, for a single bus at offset 0) is never considered.
- Day9.FindContiguousNumber: which run answers (the earliest-ending one) and that failing means no run exists are stated for non-negative input and a positive target only. With negative numbers the sliding window can pass over a run, and the model then promises only that an answer is some run's weakness.
- Day16.ParseRule: states only that a parsed rule has at least one range; `Day16.ParseRuleShape` gives the shape of a well-formed line.
- Day8.Repair: the attempts are stated on the list as the search leaves it, with earlier non-`acc` lines flipped twice; `Day8.FlipSwaps` shows that flipping twice gives a well-formed line back, but the model does not carry that through to "the original program with one line flipped".

## Findings

| source | as written | input that shows it | evidently intended | confidence | as-written member | corrected member |
|---|---|---|---|---|---|---|
| AdventOfCode2020/Days/Day1.cs:26-42 | the two-pointer walk stops when `lower` meets `upper` only after testing the pair, so it can pair an entry with itself | `[1010, 2000]` answers 1010 * 1010 | two entries at distinct positions | not executed | Day1.Part1PairsEntryWithItself | Day1.Part1DistinctComplete |
| AdventOfCode2020/Days/Day8.cs:83-102 | instruction 0 is never recorded as visited before it runs | `acc +1`, `jmp -1` runs `acc +1` twice and reports 2 | stop before any instruction runs a second time (answer 1) | not executed | Day8.ExecuteRepeatsFirstInstruction | Day8.ExecuteOnce |
| AdventOfCode2020/Days/Day9.cs:50-53 | a number is accepted when its difference with some window entry is in the window | 10 after the window `[5]` is accepted (10 - 5 = 5) | a sum of two distinct window entries | not executed | Day9.IsValidAcceptsNonSums | Day9.FindNonSum |
| AdventOfCode2020/Days/Day10.cs:38-40 | both gap counts start at 1, assuming the smallest adapter is 1 jolt | `[3]` answers 1 | the gaps of the chain 0, adapters, max + 3 (answer 0) | not executed | Day10.SeededCountsMiscount | Day10.ChainGaps |
| AdventOfCode2020/Days/Day15.cs:39-44 | a repeated starting number resets its record, forgetting its earlier turn | `[1, 1]` speaks 0 on turn 3 | the rules speak 1 on turn 3 | not executed | Day15.RepeatedStartDiverges | Day15.DetermineCorrected |
| AdventOfCode2020/Days/Day20.cs:203-229 | `usedTiles.Contains` compares array references that never match, so only the id test excludes a placed tile | with any tiles already placed, the search answers exactly as if none were placed, so only the id test keeps a placed tile out | skip every permutation of a placed tile | not executed | Day20.UsedTilesIgnored | Day20.CorrectedSkipsUsed |
| AdventOfCode2020/Days/Day20.cs:141-143 | the anchor loops use strict bounds and miss monsters touching the last row or column | a 20 by 20 picture of `#` holds monsters in its first row, yet counts 0 in every orientation, so part 2 throws | try every anchor where a monster fits | not executed | Day20.Part2MissesEdgeMonster | Day20.Part2Corrected |

The part functions of Days 1, 8, 9, 10, 15 and 20 model the code as written, and the corrected definitions stand beside them (`Day1.Part1Distinct`, `Day8.ExecuteOnce`, `Day9.FindNonSum`, `Day10.Chain`, `Day15.DetermineCorrected`, `Day20.Part2Corrected`) with their intended property proved.
