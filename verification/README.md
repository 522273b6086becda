# hands_on_rust in Dafny

A model of the algorithmic core of the `hands_on_rust` exercises, with proofs
of what each piece computes. One Dafny module per source file:

- `MenuOptim`, `ScoreOptim`, `JumpOptim` cover the three backtracking
  optimizers of the `complx_app` command. Each has a Pending phase and a
  Ready phase, modelled as two datatypes; only the search function turns
  a Pending value into a Ready one.
  - The menu optimizer picks the ordered sub-menu of a base menu with the
    smallest calorie overshoot at or above a target.
  - The score optimizer assigns arbiters to matches from a preference
    matrix.
  - The jump optimizer finds the fewest jumps a rabbit needs between two
    cells of a field, by depth-first search over a visited grid.
  - The mutable scratch state of each search (the working menu, the
    assignment vector, the visited grid) is a value threaded through
    mutually recursive functions: the recursion, then the loop over choices.
    The proofs show that each search hands that state back as it found it.
- `Args` covers the two argument parsers of `complx_app`: `key/value`
  pairs and comma-separated rows. The standard library's integer
  `from_str` is part of the model.
- `Matches` covers the Boyer–Moore bad-character search, which counts the
  occurrences of a pattern.
- `QuickSort`, `RadixSort` and `CocktailSort` cover the sorting library.
  Each is a method over a sequence. `SortSpec` holds their shared
  predicates (sorted, permutation, bounds). A radix-sort pass is modelled
  loop by loop (counting, prefix sums, the reverse write), and is proved
  to produce the stable distribution by digit that the sorting proof uses.
- `BinSearch` covers the recursive binary search.
- `HillProcess` covers the integer helpers of the Hill cipher: padding,
  divisibility, namespace checks, the text-to-matrix layout and the
  matrix encryption over integer matrices.
- `Walker` covers the max/mode/median report of `brute_force_arr`.
- `Frequency` covers the frequency-rank analyser of `cesar_encryptation`.
- `Wrappers` (Option and Result) and `Arith` (small arithmetic facts) are
  helpers.

Machine integers are modelled as unbounded `int`/`nat`. Where a width
matters it is written out explicitly:
- the bounds of `u32`, `usize` and `isize` in the parsers (64-bit
  `usize`/`isize`);
- the `u32::MAX` sentinel of the menu optimizer;
- the `isize::MIN` start score and the `-isize::MAX` refusal of the score
  optimizer.

Panics of the source become preconditions. The member's doc comment names
each one, and "## Left out" lists those of the top-level operations.

## Model

| member | source | states |
|---|---|---|
| MenuOptim.New | complx_app/src/problems/menu_optim.rs:44-50 | a fresh optimizer holds no menu and the `u32::MAX` overshoot sentinel |
| MenuOptim.Check | complx_app/src/problems/menu_optim.rs:70-73 | a visit replaces the best menu only with a working menu that reaches the target with a strictly smaller overshoot, and then records that overshoot; the overshoot never grows |
| MenuOptim.BacktrackIsScan | complx_app/src/problems/menu_optim.rs:62-88 | the recursive search visits exactly the reference enumeration of ordered sub-menus, in include-first depth-first order |
| MenuOptim.SelectionsAreCandidates | complx_app/src/problems/menu_optim.rs:75-87 | every ordered sub-menu that uses each position at most once is visited by the search |
| MenuOptim.CandidatesAreSelections | complx_app/src/problems/menu_optim.rs:75-87 | the search visits only ordered sub-menus that use each position at most once |
| MenuOptim.ScanLower | complx_app/src/problems/menu_optim.rs:70-87 | no visited selection that reaches the target overshoots less than the final best |
| MenuOptim.ScanWitness | complx_app/src/problems/menu_optim.rs:70-87 | the final best is either the starting state, or one visited selection whose overshoot it records and before which every selection reaching the target overshoots strictly more |
| MenuOptim.FindOptimalMenu | complx_app/src/problems/menu_optim.rs:52-60 | `find_optimal_menu` holds a menu exactly when some ordered sub-menu reaches the target; that menu is the first of the least overshoot in search order; no ordered sub-menu reaching the target overshoots less |
| MenuOptim.MenuSearchNone | complx_app/src/problems/menu_optim.rs:58-87 | the search finds no menu exactly when no ordered sub-menu reaches the target |
| MenuOptim.MenuSearchFound | complx_app/src/problems/menu_optim.rs:70-87 | a menu the search finds reaches the target, its overshoot is the recorded one, and it is the first with the least overshoot |
| MenuOptim.MenuSearchBound | complx_app/src/problems/menu_optim.rs:70-87 | the recorded overshoot is at most that of every ordered sub-menu reaching the target |
| MenuOptim.Report | complx_app/src/problems/menu_optim.rs:13-31 | the "no menu" message is chosen exactly when no menu was found; otherwise the message shows the menu and its calorie total |
| MenuOptim.ZeroTargetYieldsEmptyMenu | complx_app/src/problems/menu_optim.rs:58-70 | a zero target yields the empty menu, the root node visited first |
| MenuOptim.UnreachableTargetFindsNoMenu | complx_app/src/problems/menu_optim.rs:122-137 | a target of 9999 with the six test dishes finds no menu and chooses the "no menu" message |
| MenuOptim.ExactTargetIsMet | complx_app/src/problems/menu_optim.rs:96-120 | a target of 1000 with the six test dishes finds a menu of exactly 1000 calories, overshoot 0 |
| ScoreOptim.Build | complx_app/src/problems/score_optim.rs:53-79 | the odd team count, ragged rows and too few arbiters errors, each exactly under its condition in the source's order; on success the score is `isize::MIN` and the assignment is all zeros of length `num_arbiters` |
| ScoreOptim.Record | complx_app/src/problems/score_optim.rs:93-98 | the best pair changes only to a strictly greater score with the current vector, so the best score never decreases |
| ScoreOptim.BacktrackRestores | complx_app/src/problems/score_optim.rs:129-143 | `backtrack` hands the assignment vector back as it found it: every slot written is reset to 0 |
| ScoreOptim.TeamLoopRestores | complx_app/src/problems/score_optim.rs:131-140 | the loop over teams leaves every slot but the team slot of the current match unchanged |
| ScoreOptim.BacktrackSound | complx_app/src/problems/score_optim.rs:87-146 | the recorded pair stays the initial one or a complete assignment the search can make, together with its own score |
| ScoreOptim.BacktrackOptimal | complx_app/src/problems/score_optim.rs:87-146 | the recorded score is at least the score of every complete assignment the search can make from the matches already placed |
| ScoreOptim.FindOptimalAssignment | complx_app/src/problems/score_optim.rs:81-85 | `find_optimal_assigment` records a score at least that of every assignment the search can make, and the recorded pair is either the initial one or such an assignment with its score |
| ScoreOptim.NoRefusedArbiterRecorded | complx_app/src/problems/score_optim.rs:101-108 | an arbiter that some team refuses with `-isize::MAX` never appears in an arbiter slot of a recorded assignment |
| ScoreOptim.NothingExplorableWhenAllRefused | complx_app/src/problems/score_optim.rs:101-129 | when every team refuses every arbiter, the search can make no assignment |
| ScoreOptim.ReportAsWritten | complx_app/src/problems/score_optim.rs:16-37 | the report as written chooses "none assigned" only for an empty assignment vector |
| ScoreOptim.ReportAsWrittenAlwaysAssigned | complx_app/src/problems/score_optim.rs:16-20 | after the search on a problem with at least one team and at least as many arbiters as teams, the report as written never chooses "none assigned" |
| ScoreOptim.ReportAsWrittenMisreports | complx_app/src/problems/score_optim.rs:16-37 | with every arbiter refused, the report as written presents score `isize::MIN` with `[0, 0]`, whereas the corrected report says none was assigned |
| ScoreOptim.Report | complx_app/src/problems/score_optim.rs:16-37 | corrected report: "none assigned" exactly when nothing was recorded |
| ScoreOptim.ReportNoneIffNothingExplorable | complx_app/src/problems/score_optim.rs:16-37 | the corrected report says "none assigned" exactly when no assignment the search can make scores above `isize::MIN` |
| ScoreOptim.TestWitness | complx_app/src/problems/score_optim.rs:154-169 | `[4, 1, 1, 3, 0]` is an assignment the search can make on the test matrix, and it scores 20 |
| ScoreOptim.TestOptimalAssignment | complx_app/src/problems/score_optim.rs:154-169 | the test matrix of four teams and five arbiters gives the maximum score 20 |
| JumpOptim.New | complx_app/src/problems/jump_optim.rs:40-48 | a fresh optimizer has no route and an unvisited grid of the field's size |
| JumpOptim.MovesAreTheJumps | complx_app/src/problems/jump_optim.rs:94-100 | the candidate moves are exactly `(±p, ±q)` and `(±q, ±p)` |
| JumpOptim.IsValidMoveMeans | complx_app/src/problems/jump_optim.rs:102-106 | a move is valid exactly for an unvisited cell of the field, with `x` bounded by `field_size.1` and `y` by `field_size.0` |
| JumpOptim.MarkShrinks | complx_app/src/problems/jump_optim.rs:82-90 | marking a free cell removes exactly that cell from the unvisited cells |
| JumpOptim.UnmarkRestores | complx_app/src/problems/jump_optim.rs:82-90 | unmarking a cell marked just before gives the grid back |
| JumpOptim.Backtrack | complx_app/src/problems/jump_optim.rs:65-91 | `backtrack` hands the grid back unchanged and never makes the best count worse |
| JumpOptim.BacktrackSound | complx_app/src/problems/jump_optim.rs:65-91 | every count the search records is the length of a real route that enters no cell twice |
| JumpOptim.BacktrackBound | complx_app/src/problems/jump_optim.rs:72-90 | pruning at `curr_jumps >= min` cuts no shorter route: every route extending the current trail takes at least the recorded count |
| JumpOptim.FindMinJumps | complx_app/src/problems/jump_optim.rs:50-63 | an error exactly when the target is beyond the field size; otherwise the grid comes back unvisited, the count is that of a real route, and no route is shorter |
| JumpOptim.StartOnTarget | complx_app/src/problems/jump_optim.rs:72-75 | starting on the target gives 0 jumps |
| JumpOptim.Report | complx_app/src/problems/jump_optim.rs:15-25 | the "not possible" message is chosen exactly when there is no count |
| JumpOptim.ReportNotPossibleIffNoRoute | complx_app/src/problems/jump_optim.rs:15-25 | for a target in range, "not possible" is chosen exactly when no route exists |
| JumpOptim.TestReachTarget | complx_app/src/problems/jump_optim.rs:114-125 | on a 10 x 10 field with jumps of (1, 1), getting from (0, 0) to (2, 2) takes 2 jumps |
| JumpOptim.TestCannotReach | complx_app/src/problems/jump_optim.rs:127-138 | the target (5, 5) on a 5 x 5 field passes the field test but is never reached |
| JumpOptim.TestOutsideField | complx_app/src/problems/jump_optim.rs:140-151 | the target (6, 7) on a 5 x 5 field is an error |
| Matches.PreprocessPattern | brute_force/pattern_searcher/src/matches.rs:86-97 | the table has `NUM_CHARS` entries, each the last index of its byte in the pattern, or -1 |
| Matches.ScanBack | brute_force/pattern_searcher/src/matches.rs:52-59 | the inner loop ends at -1 exactly when the window matches, otherwise at a mismatched position |
| Matches.AfterMatchSkips | brute_force/pattern_searcher/src/matches.rs:63-70 | the shift after a match skips no occurrence |
| Matches.MismatchSkips | brute_force/pattern_searcher/src/matches.rs:73-78 | the bad-character shift after a mismatch skips no occurrence |
| Matches.NextShift | brute_force/pattern_searcher/src/matches.rs:63-78 | every shift moves the window forward by at least one and never past the text's end |
| Matches.NextShiftSkipsNothing | brute_force/pattern_searcher/src/matches.rs:63-78 | the occurrence count grows by one exactly when the window matched, and no occurrence lies in the skipped stretch |
| Matches.OccurrencesIsCardinality | brute_force/pattern_searcher/src/matches.rs:35-38 | the occurrence count is the number of positions at which the pattern occurs |
| Matches.Search | brute_force/pattern_searcher/src/matches.rs:39-82 | an error exactly when the text is shorter than the pattern; otherwise the count of positions in `[0, n - m]` where the pattern occurs |
| Matches.TestPatternLongerThanText | brute_force/pattern_searcher/src/matches.rs:118-130 | a pattern longer than the text is an error |
| CocktailSort.BubbleUp | sorting_algos_test/src/lib.rs:189-203 | an ascending pass rearranges only its window, moves the window's maximum to its end, and reports a swap exactly when the window was not sorted |
| CocktailSort.BubbleDown | sorting_algos_test/src/lib.rs:189-203 | a descending pass rearranges only its window, moves the window's minimum to its start, and reports a swap exactly when the window was not sorted |
| CocktailSort.Sort | sorting_algos_test/src/lib.rs:88-115 | `cocktail_sort` returns a sorted rearrangement of its input |
| QuickSort.PartitionScan | sorting_algos_test/src/lib.rs:165-184 | the scan rearranges the range into the elements at most the pivot, then the greater ones, and keeps a prefix at most the pivot in place |
| QuickSort.Partition | sorting_algos_test/src/lib.rs:165-184 | `_partition` returns an index holding the pivot, with everything before it at most the pivot and everything after it greater, inside the range |
| QuickSort.SortRange | sorting_algos_test/src/lib.rs:147-160 | `_quicksort` sorts its range and touches nothing else, as long as the prefix before `low` is at most the range, which makes partitioning from 0 harmless |
| QuickSort.Sort | sorting_algos_test/src/lib.rs:39-45 | `quicksort` returns a sorted rearrangement of its input |
| RadixSort.NextPowerOfTwo | sorting_algos_test/src/lib.rs:58 | `next_power_of_two` is a power of two, at least `n`, whose half is below `n`: the least power of two at least `n` |
| RadixSort.RadixAsWritten | sorting_algos_test/src/lib.rs:58 | the radix as the source computes it, at least the length |
| RadixSort.OneElementNeverAdvances | sorting_algos_test/src/lib.rs:58-83 | with one nonzero element the radix is 1, so the place stays 1 and the loop never ends |
| RadixSort.Radix | sorting_algos_test/src/lib.rs:58 | corrected radix: at least 2, and the source's radix for two or more elements |
| RadixSort.CountDigits | sorting_algos_test/src/lib.rs:65-68 | the first loop leaves in `counter[d]` the number of elements whose digit at `place` is `d` |
| RadixSort.EndPositions | sorting_algos_test/src/lib.rs:71-74 | the prefix sums leave in `counter[d]` the number of elements whose digit is at most `d`, the end of digit `d`'s run |
| RadixSort.WriteBack | sorting_algos_test/src/lib.rs:77-80 | writing a copy from last to first, each element just below its digit's lowered end, yields the digit-0 elements in their order, then the digit-1 elements, and so on |
| RadixSort.CountingPass | sorting_algos_test/src/lib.rs:64-80 | one pass computes that stable distribution by the digit at `place` |
| RadixSort.DistributePermutes | sorting_algos_test/src/lib.rs:64-80 | the result of a pass is a rearrangement of the collection |
| RadixSort.DistributeSortedBy | sorting_algos_test/src/lib.rs:64-82 | a pass by the digit at `place` turns order by the digits below `place` into order by the digits below `place * radix` |
| RadixSort.Sort | sorting_algos_test/src/lib.rs:49-84 | `radix_sort`, with a radix of at least 2, returns a sorted rearrangement of its `u8` input |
| BinSearch.Middle | bin-search/src/lib.rs:19 | the probe lies in `[start, end]` |
| BinSearch.Search | bin-search/src/lib.rs:11-31 | a hit is an index of the range holding the target; the underflow of `middle - 1` only happens below a first element greater than the target |
| BinSearch.SearchComplete | bin-search/src/lib.rs:15-30 | on a sorted collection, where no underflow can happen, `search` finds nothing exactly when the target is not in the range |
| BinSearch.BinSearch | bin-search/src/lib.rs:3-9 | a hit is an index of the collection holding the target |
| BinSearch.BinSearchNoneIffAbsent | bin-search/src/lib.rs:3-30 | on a sorted collection whose first element is at most the target, `bin_search` returns nothing exactly when the target does not occur |
| BinSearch.SearchUnderflowsBelowFirst | bin-search/src/lib.rs:15-30 | on a sorted collection, a target below the first element makes every probe greater, so the range starting at 0 ends in the underflow |
| BinSearch.BinSearchUnderflowIff | bin-search/src/lib.rs:3-30 | on a sorted collection, `bin_search` underflows exactly when the target is below the first element |
| BinSearch.SmallTargetUnderflows | bin-search/src/lib.rs:7-29 | searching `[2]` for 1 underflows `middle - 1` instead of returning nothing |
| BinSearch.SearchFixed | bin-search/src/lib.rs:11-31 | corrected search: a signed right end, so no underflow; a hit holds the target |
| BinSearch.BinSearchFixedNoneIffAbsent | bin-search/src/lib.rs:3-30 | the corrected search returns nothing exactly when the target does not occur, on every sorted collection |
| BinSearch.SearchAgreesWithFixed | bin-search/src/lib.rs:11-31 | wherever the search as written does not underflow, it agrees with the corrected one |
| BinSearch.TestFindsFirst | bin-search/src/lib.rs:37-42 | searching `[1, 2, 3, 4, 5, 6]` for 1 finds it at index 0 |
| HillProcess.FillText | hill_cypher/src/process.rs:162-171 | `a - b` copies of the character are appended and everything is uppercased; with nothing to append the text is returned as it was |
| HillProcess.TurnPerfectSqrtAsWritten | hill_cypher/src/process.rs:242-252 | for a square test that accepts every perfect square, the least accepted number at or above `dim` |
| HillProcess.PaddingAsWrittenMissesSquare | hill_cypher/src/process.rs:242-252 | with the `f64` test, which rejects 10 and accepts 11, a ten-character key is padded to 11, no square, and its dimension 3 gives a 9-entry matrix |
| HillProcess.TurnPerfectSqrt | hill_cypher/src/process.rs:242-252 | corrected: the least perfect square at or above `dim` |
| HillProcess.IsDivisibleMeans | hill_cypher/src/process.rs:237-239 | `is_divisble` holds exactly of the multiples of a non-zero divisor; the source panics on 0 |
| HillProcess.TurnDivisible | hill_cypher/src/process.rs:255-263 | the least multiple of `dim` at or above the target, less than `dim` away |
| HillProcess.FillKey | hill_cypher/src/process.rs:148-151 | corrected: the key padded to the least perfect-square length at or above its own |
| HillProcess.FillSrc | hill_cypher/src/process.rs:156-159 | the text padded to the least length at or above its own that the key dimension divides |
| HillProcess.HasAnyFactor | hill_cypher/src/process.rs:220-227 | true exactly when some `f` in `target..number` divides the target |
| HillProcess.AnyFactorIffBelow | hill_cypher/src/process.rs:220-227 | for a positive target this is exactly `target < number`, since the target divides itself |
| HillProcess.IsInNamespace | hill_cypher/src/process.rs:201-211 | an error naming the character exactly when it is not in the namespace |
| HillProcess.ChekInformation | hill_cypher/src/process.rs:175-197 | an error exactly when the fill character, a key character or a source character is outside the namespace |
| HillProcess.CharPos | hill_cypher/src/process.rs:214-216 | the first index of the uppercased character in the namespace |
| HillProcess.TxtMtrxLayout | hill_cypher/src/process.rs:131-144 | the text runs down the columns of the matrix: entry `(i, j)` is the position of character `j * height + i` |
| HillProcess.CypherIsBlockwise | hill_cypher/src/process.rs:113-125 | the cipher text is the Hill encryption of each source column in turn: the key times the column, each entry reduced modulo `len - 1` into the namespace |
| HillProcess.NeverLastPosition | hill_cypher/src/process.rs:123 | reducing modulo `len - 1` never selects the last namespace symbol |
| HillProcess.TestChekInformation | hill_cypher/src/process.rs:269-287 | "TUNA"/"CODEINSIDE" with fill 'L' pass the check; "TUNA232323"/"@CODEINSIDE." fail it |
| HillProcess.TestFillKey | hill_cypher/src/process.rs:289-298 | `fill_key("ABCDE", 'L')` is `"ABCDELLLL"` |
| HillProcess.TestFillSrc | hill_cypher/src/process.rs:300-308 | `fill_src("ABCD", 'E', 3)` is `"ABCDEE"` |
| HillProcess.TestKeyMatrix | hill_cypher/src/process.rs:310-323 | "ABCDEFGHI" lays out as `[0,3,6; 1,4,7; 2,5,8]` |
| HillProcess.TestSourceOf | hill_cypher/src/process.rs:325-339 | "CODIGO" lays out as `[2,8; 14,6; 3,14]` |
| HillProcess.TestCypher | hill_cypher/src/process.rs:341-354 | encrypting "CODIGO" under the key "FJCRXLUDN" gives "WLPGSE" |
| Walker.Max | brute_force/brute_force_arr/src/walker.rs:28-36 | the maximum is an element and at least every element |
| Walker.TallyCounts | brute_force/brute_force_arr/src/walker.rs:50-54 | the tally has one key per distinct element, holding its number of occurrences |
| Walker.MaxByCountIsLastMaximal | brute_force/brute_force_arr/src/walker.rs:56-59 | `max_by` returns the last entry of maximal count in iteration order |
| Walker.FindMode | brute_force/brute_force_arr/src/walker.rs:47-60 | the mode is an element occurring at least as often as every element, whatever the hash map's iteration order |
| Walker.ModeIsLastMostFrequent | brute_force/brute_force_arr/src/walker.rs:47-60 | the mode is the last most frequent element in the hash map's iteration order |
| Walker.MedianTimesTwo | brute_force/brute_force_arr/src/walker.rs:63-74 | the doubled median is the sum of two elements read at unsorted positions |
| Walker.From | brute_force/brute_force_arr/src/walker.rs:24-44 | the default report for an empty collection; otherwise a most frequent element, the doubled positional median and the maximum |
| Walker.TestUneven | brute_force/brute_force_arr/src/walker.rs:101-107 | `[1, 4, 5, 4, 7]` gives mode 4, median 5 and maximum 7 |
| Walker.TestEven | brute_force/brute_force_arr/src/walker.rs:109-115 | `[1, 7, 23, 16, 1, 10]` gives mode 1, median 19.5 (the sorted median would be 8.5) and maximum 23 |
| Frequency.NewAnalizer | cesar_encryptation/src/data.rs:23-27 | a new analyser holds the 26-letter English table |
| Frequency.EnglishFreqsUnchanged | cesar_encryptation/src/data.rs:29-31 | `get_english_freqs` of a new analyser hands back the English table unchanged, as the test at lines 92-97 expects |
| Frequency.FrequencyCounts | cesar_encryptation/src/data.rs:33-55 | the keys ascend, are exactly the characters of the text, and each holds that character's number of occurrences |
| Frequency.CollectSorts | cesar_encryptation/src/data.rs:67 | collecting distinct-key pairs into a `BTreeMap` orders them by key and keeps every pair |
| Frequency.CollectUndoesSort | cesar_encryptation/src/data.rs:63-67 | collecting the value-sorted pairs back into a `BTreeMap` gives the frequency map back, so the sort is discarded |
| Frequency.AssociateFrequency | cesar_encryptation/src/data.rs:57-76 | the `i`-th character in key order is mapped to the `i`-th letter of the English table, whatever order the sort produced |
| Frequency.AssociateByRank | cesar_encryptation/src/data.rs:57-76 | the character with `i` distinct smaller characters in the text is mapped to `LETTERS_FREQ[i]`, for up to 26 distinct characters |
| Frequency.AssembleResult | cesar_encryptation/src/data.rs:78-84 | the result has one character per part, in the parts' order |
| Args.ParseIntSpec | complx_app/src/args.rs:106 | integer `from_str`: `Empty` exactly for the empty string; a decimal numeral parses to its value, or overflows in the direction of its sign when the type cannot hold it; anything else is an error |
| Args.ParseShowInt | complx_app/src/args.rs:106 | printing an in-range integer in decimal and parsing it gives it back |
| Args.SplitCount | complx_app/src/args.rs:106 | splitting on `,` yields one piece more than there are commas |
| Args.SplitPieces | complx_app/src/args.rs:106 | no piece holds the separator |
| Args.JoinOfSplit | complx_app/src/args.rs:106 | joining the pieces with the separator gives the string back |
| Args.JoinSplit | complx_app/src/args.rs:106 | splitting the join of non-empty separator-free pieces gives the pieces back |
| Args.ParseAllSpec | complx_app/src/args.rs:106 | collecting succeeds exactly when every piece parses, with the pieces' values in order; otherwise it fails with the first failing piece's error |
| Args.ParseRowSpec | complx_app/src/args.rs:101-107 | `parse_row::<isize>` succeeds exactly when every comma-separated piece parses; the row has comma count plus one values, each its piece's value |
| Args.ParseRowShow | complx_app/src/args.rs:101-107 | a non-empty `isize` row printed with commas parses back to itself |
| Args.Find | complx_app/src/args.rs:116-117 | `find` is the first index of the character, or none exactly when it does not occur |
| Args.ParseKeyValuePair | complx_app/src/args.rs:109-120 | an error naming the input when it has no `/`; a success parses the key before the first `/` and the value after it |
| Args.PairErrors | complx_app/src/args.rs:119 | a failing key gives the key's error; otherwise a failing value gives the value's error |
| Args.PairRoundTrip | complx_app/src/args.rs:109-120 | a `/`-free key, `/` and a value parse to the two parsed halves |
| Args.UsizePairRoundTrip | complx_app/src/args.rs:109-120 | the documented `x/y` form: two `usize` values in decimal around a `/` parse to the pair |
| Args.UsizePairOneSlash | complx_app/src/args.rs:109-120 | a string that parses as a pair of `usize` values holds exactly one `/` |
| Args.DishRoundTrip | complx_app/src/args.rs:109-120 | the `dish/calories` form: a `/`-free name and a `u32` in decimal parse to the dish |

## Left out

- Command-line and process plumbing is not modelled: the `structopt` derives, `min_values`, `main`, and stdin/stdout. None of it is logic.
- The report texts are not modelled. Only which message a `report` chooses is.
- The float parts are not modelled:
  - the `f32` mean and the `f32` median of the walker report;
  - the division of each count by the text length in `calculate_frequency`, which keeps the counts;
  - the determinant check and the namespace checks of `Processor::cypher`, which glue the modelled helpers together;
  - the `f64` square test of `is_square` and `turn_perfect_sqrt`, which `HillProcess.TurnPerfectSqrtAsWritten` takes as a parameter.
- The matrices of the Hill cipher hold integers. The reduction modulo `len - 1` follows `f64 %` (the sign of the value) and the cast to `usize` (a negative value becomes 0).
- `cesar_cypher`, `backpack`, the benchmarks, `tree_sort` and `build_vec` are not part of this model. Neither is the web, browser and wasm glue, nor the matches test that reads a file.
- The iteration order of a `HashMap` is a parameter. The mode is proved for every order, and its tie-break for each given order.
- The order the descending value sort produces is a parameter of `associate_frequency`: any arrangement of the frequency entries. Ties between equal floats are therefore covered.
- Machine-width overflow of sums is not modelled: `u32` calories, `isize` scores and the pattern-search shift.
- Frequency.AssociateFrequency: only characters and the table's letters are modelled, not the `&char` borrows. The source test expecting "ABC" is not modelled; the rank rule gives other letters for its text. It requires at most 26 distinct characters: the source indexes the 26-entry English table by rank and panics beyond that.
- MenuOptim.ExactTargetIsMet: proves that the test target of 1000 is met exactly (1000 calories, overshoot 0). It does not prove that the menu is exactly Chicken, Soup, WaterMelon, Apple and Fish, the first such menu in search order.
- ScoreOptim.TestOptimalAssignment: proves the test's maximum score of 20, not that the recorded vector is `[4, 1, 1, 3, 0]`. `ScoreOptim.TestWitness` shows only that this vector scores 20.
- ScoreOptim.Build: requires a non-empty matrix; the source panics indexing `preferences[0]` before any of its checks.
- ScoreOptim.ReportAsWrittenAlwaysAssigned: holds for the problems `ScoreOptim.FindOptimalAssignment` is modelled on, with at least one team and at least as many arbiters as teams, not for every matrix `build` accepts.
- ScoreOptim.FindOptimalAssignment: requires at least as many arbiters as teams. The source writes slot `2 * curr_match + 1` of a vector of `num_arbiters` slots and uses a team index as an arbiter column; `build` only checks `num_teams / 2 <= num_arbiters`.
- JumpOptim.FindMinJumps: requires a square field, because `is_valid_move` bounds `x` by `field_size.1` while the grid has `field_size.0` rows. It also requires the start cell to lie in the field whenever the target passes the check, because the source never checks it.
- Matches.Search: requires a non-empty pattern and text and pattern bytes below 255, the size of the bad-character table. The source also panics outside these conditions.
- HillProcess.HasAnyFactor: requires a positive target or an empty range. A zero target with a non-empty range divides by zero in the source. `cypher` passes a zero target for every key with a negative determinant, because `key_det as usize` saturates a negative value to 0; such keys panic in the source.
- HillProcess.TurnPerfectSqrt: uses an exact integer square test. The source's `f64` test also accepts non-squares such as 11, 14, 17, 21 and 22, so for `dim` 10 the source returns 11 and for 12 it returns 14, where this member returns 16. `HillProcess.TurnPerfectSqrtAsWritten` models the source's loop with that test as a parameter.
- HillProcess.FillKey: pads with the exact test of `TurnPerfectSqrt`, so a ten-character key gets 16 characters here and 11 in the source. It also has the limits of `FillText`.
- HillProcess.FillText: only ASCII text is modelled. `Upper` is the ASCII uppercasing, while `String::to_uppercase` maps every Unicode letter ('é' to 'É', 'ß' to "SS"). `|txt|` counts characters, while `str::len` counts bytes. A custom namespace can admit non-ASCII characters, for which the two differ.
- HillProcess.FillSrc: has the limits of `FillText`: ASCII text only, whose byte length is its character count.
- Walker.MedianTimesTwo: the doubled median is exact. The source casts each element `as f32`, which rounds values above 2^24 (16777217 becomes 16777216.0), so its median can differ.
- QuickSort.Sort, CocktailSort.Sort, RadixSort.Sort and BinSearch.BinSearch require a non-empty collection; the source panics on an empty one.
- Args.ParseIntSpec: models the error kinds `Empty`, `InvalidDigit`, `PosOverflow` and `NegOverflow` of the standard integer parser, not the message texts. The parsers are modelled for the instantiations the command uses: `usize`, `u32`, `isize` and `String`.

## Findings

| source | as written | input that shows it | evidently intended | confidence | as-written member | corrected member |
|---|---|---|---|---|---|---|
| complx_app/src/problems/score_optim.rs:16-20 | the report chooses "none assigned" only when the assignment vector is empty, but that vector always has `num_arbiters >= 1` entries | two teams that refuse both arbiters: nothing is recorded, yet the report shows score `isize::MIN` with `[0, 0]` | "none assigned" exactly when the search recorded nothing | not executed | ScoreOptim.ReportAsWrittenMisreports | ScoreOptim.ReportNoneIffNothingExplorable |
| sorting_algos_test/src/lib.rs:58 | `radix = coll.len().next_power_of_two()` is 1 for one element, and `place *= radix` never grows | `radix_sort(&mut [5])`: `place` stays 1 <= 5 and the loop never ends | a radix of at least 2 | not executed | RadixSort.OneElementNeverAdvances | RadixSort.Sort |
| hill_cypher/src/process.rs:242-252 | `turn_perfect_sqrt` stops at the first `base` with `sqrt * sqrt == base` in `f64`, which holds of non-squares such as 11 | a ten-character key with a fill character: it is padded to 11 characters, the dimension `(11.0).sqrt() as usize` is 3, and `Matrix::new(3, 3, ..)` gets 11 values and panics | pad to the next perfect square, 16 | not executed | HillProcess.PaddingAsWrittenMissesSquare | HillProcess.TurnPerfectSqrt |
| bin-search/src/lib.rs:29 | `middle - 1` on an unsigned `usize` underflows when `middle` is 0; on a sorted collection this happens exactly when the target is below the first element | `bin_search(&[2], 1)`: the probe at 0 is greater, and `0 - 1` panics | an empty left half, so the result is `None` | not executed | BinSearch.SmallTargetUnderflows | BinSearch.BinSearchFixedNoneIffAbsent |
