# Verified model of the interview platform's core

The platform runs technical interviews. It writes typed test arguments as text, runs a candidate's program in a
sandbox, reads the arguments back in a generated harness, compares printed results, keeps interviews, evaluations and
proctoring events as rows that concurrent requests update, and ships a bank of problems whose expected outputs come from
reference solutions. This project models the parts of it that carry state, loops and invariants, one module per
component, and proves what they promise for all inputs, all runs and all interleavings.

- **Judge's data path.** `LevelOrder`, `TreeNodes` (level-order arrays, as values and as linked nodes), `Text`, `Decimal`,
  `Codec`, `Harness`, `RoundTrip`, `Sorting`, `Compare`.
- **Generators and references of the problem bank.** `Shuffling`, `SearchTrees`, `SearchTreeNodes`, `BrokenTrees`,
  `ShortestPaths`, `CourseOrder`, `MinWindow`, `Lis`, `EditDistance`, `Intervals`, `MeetingRooms`, `Histogram`,
  `OrderStatistics`, `Median`, `QuickSelect`, with integers and infinities in `Extended`. A reference is proved against a
  specification that does not mention it, and the two references of a problem are run side by side by a method
  `ReferencesAgree` whose results are equal on every input; the build script compares them on finitely many tests.
- **Rows under concurrent updates.** `Lifecycle`, `Evaluation`, `ProctoringRules`, `ProctoringIngest`, `ProctoringQueue`,
  `ProctoringPipeline`. Requests are split into reads and atomic commits, any number of them may be in flight, and the
  invariants are proved over every interleaving.
- **Loops with bounds.** `Judge`, `RateLimit`, `JsonScan`.

Code that the repository writes as loops over mutable state is written here as methods over arrays, linked nodes and
object fields and proved against functions; the laws are lemmas about those functions. `dafny verify dfyconfig.toml`
checks the whole project.

Some results say where the code falls short of what one may expect, and exactly when:

- Printing a decoded tree array gives the array back if and only if no entry lies behind the last node that could own it
  (`LevelOrder.PrintAfterDecode`); `[1,null,null,5]` loses its 5, so a program that returns such an argument unchanged
  prints something else than the encoder (`RoundTrip.EchoPrintsExpected`).
- The bracket scan returns the printed value if and only if no bracket stands in the prose before it
  (`JsonScan.LocatesValue`).
- Re-sending a proctoring batch changes the table if and only if a TAB_RETURNED in it that is still accepted names a
  TAB_HIDDEN that the batch leaves open: open in the table before, or first reported without an end by the batch, and
  with neither a return nor an end reported after that (`ProctoringIngest.ReplayIdleByInputs`).
- A row ends before it starts if and only if an open row is completed by a second report of its event whose clamped end
  lies before the first report's start (`ProctoringIngest.EndPrecedesStartExactlyWhen`); the same event reported from
  100 on and then from 50 to 60 leaves the row 100 to 60 with duration 0 (`ProctoringIngest.EndMayPrecedeStart`).
- An unordered list is judged by its first line alone: an output is accepted if and only if that line holds the expected
  numbers in any order, whatever follows it (`Compare.UnorderedListExactlyWhen`, `Compare.ExtraLinesAreIgnored`). For
  matrices and string lists a line behind the announced rows is a mismatch (`Compare.UnorderedRowsExactlyWhen`).
- An event leaves the client's buffer without an answer if and only if the page is reloaded when at least 200 newer ones
  are buffered (`ProctoringPipeline.LeavesOnlyWhenAnswered`).
- A step of the evaluation leaves the run at work alone in possession of the report, and COMPLETED stored, if and only if
  it is none of these: a claim or whole retry while the run at work is older than the staleness limit; the delayed second
  half of a retry, or a failure after the result was stored, while a run is at work or the evaluation is complete
  (`Evaluation.StepKeepsExactlyWhen`, and `RunKeepsExactlyWhen` for whole runs). Each of them does real harm
  (`Evaluation.HarmIsReal`), and short histories show all three.

## Model

| member | source | states |
|---|---|---|
| LevelOrder.WalkStep | packages/problem-bank/src/rng.ts:86-97 | One step of the breadth-first queue, and the weight of the queue, which bounds the loop, shrinks by one. |
| LevelOrder.WalkByLevels | packages/problem-bank/src/rng.ts:86-97 | The queue prints level by level, each from left to right. |
| LevelOrder.DecodeTokens | packages/problem-bank/src/rng.ts:86-100 | For every tree, the harness reader applied to the trimmed level-order print rebuilds exactly that tree. |
| LevelOrder.TokensInjective | packages/problem-bank/src/rng.ts:86-100 | Two trees print alike only if they are equal. |
| LevelOrder.DecodeIgnoresTrailingNulls | packages/core/src/problems/codec.ts:107-111 | Trimming trailing nulls of any array does not change the tree it stands for. |
| LevelOrder.DecodeStable | packages/core/src/problems/codegen/javascript.ts:127-149 | Decode, print and decode again equals decode, on every array. |
| LevelOrder.PrintAfterDecode | packages/core/src/problems/codegen/javascript.ts:166-181 | Printing after decoding is the identity on an array exactly when it has no trailing null and every entry has a node to hang on. |
| LevelOrder.OrphanEntryIsLost | packages/core/src/problems/codegen/javascript.ts:135-147 | The array [1,null,null,5] loses its 5. |
| LevelOrder.GrowWalk | packages/core/src/problems/codegen/javascript.ts:135-147 | The reader's queue loop inverts the printer's on whole forests. |
| LevelOrder.WalkGrow | packages/core/src/problems/codegen/javascript.ts:166-178 | Walking what was read repeats the entries read, up to nulls. |
| TreeNodes.Expand | packages/core/src/problems/codegen/javascript.ts:136-146 | One iteration of the reader on linked nodes attaches exactly the children two entries ask for. |
| TreeNodes.ReadTree | packages/core/src/problems/codegen/javascript.ts:127-149 | The queue loop over linked nodes terminates and builds the tree that the array stands for, all of it in new nodes and no node at two positions. |
| TreeNodes.ToLevelOrder | packages/problem-bank/src/rng.ts:86-100 | The printing loop over linked nodes terminates and gives the level-order array of the tree they hold. |
| TreeNodes.PopNulls | packages/problem-bank/src/rng.ts:98 | The popping loop drops exactly the trailing nulls. |
| TreeNodes.FmtTree | packages/core/src/problems/codegen/javascript.ts:166-181 | The harness printer with its cap: the whole print up to the cap, a prefix of it beyond. |
| TreeNodes.WalkLength | packages/core/src/problems/codegen/javascript.ts:170-178 | How many tokens the printing loop emits. |
| TreeNodes.PrintAndReadBack | packages/core/src/problems/codegen/javascript.ts:166-181 | Trees of at most 200000 nodes stay below the cap, and reading the print of their nodes builds an equal tree of new nodes. |
| Decimal.ParsePrinted | packages/core/src/problems/codegen/javascript.ts:94-101 | Both number readers of the harness return a printed integer. |
| Decimal.IntTextShape | packages/core/src/problems/codec.ts:113-119 | A printed integer has no leading zero, and a sign only when it is negative. |
| Decimal.ParseIntPrefix | packages/core/src/problems/codegen/javascript.ts:94 | parseInt skips white space, takes an integer, and ignores what follows. |
| Codec.TrimTree | packages/core/src/problems/codec.ts:107-111 | The decrementing loop drops exactly the trailing nulls. |
| Codec.ArgLinesSingle | packages/core/src/problems/codec.ts:65-93 | No encoded line of a valid value holds a line break. |
| Codec.SplitEncoded | packages/core/src/problems/codec.ts:104 | Splitting an encoded text at line breaks gives back its lines. |
| Harness.Stdin.constructor | packages/core/src/problems/codegen/javascript.ts:91-92 | Standard input is split into lines, none of them read. |
| Harness.Stdin.Line | packages/core/src/problems/codegen/javascript.ts:93 | A read returns the next line without its carriage return and advances by one, and does neither past the end. |
| Text.StripCRExactly | packages/core/src/problems/codegen/javascript.ts:93 | A line reads the same whether it ends in LF or in CR LF. |
| Harness.Stdin.Int | packages/core/src/problems/codegen/javascript.ts:94 | The integer reader. |
| Harness.Stdin.IntList | packages/core/src/problems/codegen/javascript.ts:98-101 | The list reader takes two lines and no more numbers than announced. |
| Harness.ListExactly | packages/core/src/problems/codegen/javascript.ts:98-101 | Of the numbers on a line exactly the announced ones are taken, or all there are; a negative announcement counts from the back. |
| Harness.Stdin.IntMatrix | packages/core/src/problems/codegen/javascript.ts:102-111 | The matrix reader: as many rows as announced, each with its own count. |
| Harness.RowExactly | packages/core/src/problems/codegen/javascript.ts:106-108 | A row is the numbers its count announces, or all there are. |
| Harness.Stdin.StrList | packages/core/src/problems/codegen/javascript.ts:112-117 | The string list reader. |
| Harness.BuildList | packages/core/src/problems/codegen/javascript.ts:118-126 | The loop with a dummy head builds a linked list of exactly the values. |
| Harness.Stdin.LinkedList | packages/core/src/problems/codegen/javascript.ts:118-126 | The linked-list reader. |
| Harness.Stdin.ReadTree | packages/core/src/problems/codegen/javascript.ts:127-149 | The tree reader on the lines of standard input; different positions of the tree are different nodes. |
| Harness.Stdin.ReadArgs | packages/core/src/problems/codegen/javascript.ts:68 | The generated main program runs the reader of each parameter type in order; what it holds, references to lists and trees included, stands for what the reading functions say. |
| RoundTrip.ReadsBack | packages/core/src/problems/codec.ts:65-93 | For every type and valid value, the reader returns the value its encoder wrote and stops right behind the encoder's lines. |
| RoundTrip.HarnessReadsArguments | packages/core/src/problems/codec.ts:95-105 | For every signature and valid argument list, the reading functions applied in order to the encoded input return the arguments and consume every line. |
| RoundTrip.LoadArguments | packages/core/src/problems/codegen/javascript.ts:68 | From end to end on mutable state: the readers driven over a whole signature on the encoded input yield exactly the intended values, linked lists and linked trees, and stop behind the last encoded line. |
| RoundTrip.EveryArgumentCanBePassed | packages/core/src/problems/codec.ts:25-63 | Every 32-bit or safe integer, number, one-line text, and list, matrix or tree of integers is what some value that passes validation stands for. |
| RoundTrip.OnlyArgumentsArePassed | packages/core/src/problems/codec.ts:25-63 | A value that passes validation stands for nothing else, and for the empty tree only if it is the empty array. |
| RoundTrip.EveryCallCanBeMade | packages/core/src/problems/codec.ts:95-105 | For any arguments that the parameters can take, some encoded input makes the harness read exactly these. |
| RoundTrip.EchoPrintsExpected | packages/core/src/problems/codec.ts:113-149 | A program that returns its argument prints the expected output, for trees exactly when the trimmed array is canonical. |
| Sorting.SortSpec | packages/core/src/problems/compare.ts:14 | Sorting orders and permutes. |
| Sorting.SortCanonical | packages/core/src/problems/compare.ts:25 | Two lists sort alike exactly when they are permutations of each other. |
| Sorting.StrLeOrder | packages/core/src/problems/compare.ts:14-25 | The order of strings is total, so sorting by it is canonical. |
| Compare.NormalizeOutput | packages/core/src/problems/compare.ts:4-8 | The normalising loop: line ends unified, trailing space and trailing blank lines dropped. |
| Compare.NormalizeLayout | packages/core/src/problems/compare.ts:4-8 | For any text, whatever line ends it mixes: its lines without the white space at their ends, less the blank ones at the end. |
| Compare.EveryTextHasLayout | packages/core/src/problems/compare.ts:4-8 | Every text is lines with line ends between them, so this covers all outputs. |
| Compare.CollectRows | packages/core/src/problems/compare.ts:17-22 | The row-collecting loop: as many rows as the first line announces. |
| Compare.CanonicalUnordered | packages/core/src/problems/compare.ts:12-28 | The canonical form computed by the loops. |
| Compare.OutputsMatch | packages/core/src/problems/compare.ts:41-57 | The verdict is equality of the prepared outputs. |
| Compare.UnorderedRowsExactlyWhen | packages/core/src/problems/compare.ts:16-25 | Any output against an expected matrix or string list: accepted exactly when it announces as many rows, has no line behind them, and its rows are the expected ones in any order, with sortInner up to the order of words in each row. |
| Compare.UnorderedListExactlyWhen | packages/core/src/problems/compare.ts:13-15 | Any output against an expected unordered list: accepted exactly when its first line holds the expected numbers in any order. |
| Compare.LinesExactlyWhen | packages/core/src/problems/compare.ts:41-57 | Any output under the exact comparator, or of a type whose order always counts: accepted exactly when its lines are the expected ones. |
| Compare.ExtraLinesAreIgnored | packages/core/src/problems/compare.ts:13-15 | A concrete output with a second line that is accepted. |
| Compare.JudgeOutput | packages/core/src/problems/compare.ts:41-57 | The verdict on any output, for every comparator and type but doubles, in terms of its lines alone. |
| Compare.NormalizeOutputOf | packages/core/src/problems/compare.ts:4-8 | Normalising an encoded output loses nothing but trailing blank lines. |
| Compare.ExactDecidesEquality | packages/core/src/problems/compare.ts:41-57 | On encoded outputs of every integer-based type the exact comparator accepts exactly equal results, trees up to trailing nulls and strings up to trailing white space. |
| Compare.UnorderedDecidesPermutation | packages/core/src/problems/compare.ts:12-57 | The unordered comparator accepts exactly results that are equal as multisets of elements or of rows, with sortInner of row multisets. |
| Shuffling.Shuffle | packages/problem-bank/src/rng.ts:46-53 | The in-place loop computes the order its draws determine. |
| Shuffling.ShufflePermutes | packages/problem-bank/src/rng.ts:46-53 | A shuffle is a permutation. |
| Shuffling.DrawsDetermined | packages/problem-bank/src/rng.ts:46-53 | Different draws give different orders of distinct items. |
| Shuffling.EveryOrderOnce | packages/problem-bank/src/rng.ts:46-53 | Every order of distinct items comes from exactly one choice of draws: no order is favoured. |
| SearchTrees.BstFromSortedSpec | packages/problem-bank/src/rng.ts:103-110 | The emitted array decodes to a balanced tree with the given values in order, a search tree exactly when they increase strictly. |
| SearchTrees.InsertKeepsBst | packages/problem-bank/src/rng.ts:122-136 | Inserting a new value keeps a search tree. |
| SearchTreeNodes.FindPlace | packages/problem-bank/src/rng.ts:123-135 | The descent over linked nodes terminates at a node whose link for v is free, and the part of the tree outside the place reached is untouched. |
| SearchTreeNodes.InsertNode | packages/problem-bank/src/rng.ts:121-136 | Attaching the new node in place turns the linked tree into the tree after insertion, in the old nodes and the new one, no node at two positions. |
| SearchTreeNodes.RandomBst | packages/problem-bank/src/rng.ts:113-139 | Shuffling, inserting node by node and printing gives the array that the draws determine. |
| SearchTrees.RandomBstSpec | packages/problem-bank/src/rng.ts:113-139 | For all draws the emitted array decodes to a tree of exactly the given values, a search tree exactly when they are distinct. |
| SearchTrees.BstIffIncreasing | packages/problem-bank/src/problems/trees-heaps.ts:183-186 | A tree is a search tree as the problem states it exactly when its in-order traversal increases strictly. |
| SearchTreeNodes.IsValidBst | packages/problem-bank/src/problems/trees-heaps.ts:207-222 | The iterative reference with its explicit stack of nodes terminates and decides exactly that of the tree its root holds. |
| SearchTrees.OkIffBst | packages/problem-bank/src/problems/trees-heaps.ts:223-230 | So does the recursive reference with bounds. |
| SearchTreeNodes.ValidationsAgree | packages/problem-bank/src/problems/trees-heaps.ts:206-231 | The two references agree on every linked tree. |
| BrokenTrees.DecodeMap | packages/core/src/problems/codegen/javascript.ts:127-149 | Renaming the entries of an array renames the values of the tree and keeps its shape. |
| BrokenTrees.WalkValues | packages/problem-bank/src/rng.ts:86-97 | A breadth-first print holds exactly the values of the tree, each as often. |
| BrokenTrees.ExchangedIsNoBst | packages/problem-bank/src/problems/trees-heaps.ts:167-175 | Exchanging any two numbers in the array of a search tree gives a tree of the same values that is no search tree. |
| BrokenTrees.BrokenIsRejected | packages/problem-bank/src/problems/trees-heaps.ts:167-175 | Every invalid tree the generator makes, read into linked nodes, is rejected by both references. |
| ShortestPaths.RelaxStep | packages/problem-bank/src/problems/graphs.ts:337 | Relaxing an edge keeps every distance the cost of a walk and the settled nodes final. |
| ShortestPaths.SelectNearest | packages/problem-bank/src/problems/graphs.ts:333-334 | The selection scan finds an open node of least distance, if there is one. |
| ShortestPaths.SettleAll | packages/problem-bank/src/problems/graphs.ts:332-338 | After the main loop, left early or not, every distance is that of a cheapest walk, or infinite when there is none. |
| ShortestPaths.NetworkDelayDijkstra | packages/problem-bank/src/problems/graphs.ts:326-342 | The answer is the largest shortest distance, -1 exactly when a node is unreachable. |
| ShortestPaths.ShortWalk | packages/problem-bank/src/problems/graphs.ts:347 | Some walk of at most n - 1 edges is as cheap as any given one, which is why n - 1 rounds suffice. |
| ShortestPaths.RelaxAll | packages/problem-bank/src/problems/graphs.ts:347-354 | The rounds, with the early exit, leave shortest distances. |
| ShortestPaths.NetworkDelayBellmanFord | packages/problem-bank/src/problems/graphs.ts:343-357 | The second reference meets the same specification. |
| ShortestPaths.ReferencesAgree | packages/problem-bank/src/problems/graphs.ts:325-358 | Both references give the same answer on every network with non-negative weights. |
| CourseOrder.ListedCanFinish | packages/problem-bank/src/problems/graphs.ts:165 | A complete list with every prerequisite before its course is a way to take all courses. |
| CourseOrder.StuckCannotFinish | packages/problem-bank/src/problems/graphs.ts:165 | Courses that each wait for another of them can never all be taken. |
| CourseOrder.OpenAll | packages/problem-bank/src/problems/graphs.ts:163 | The inner loop keeps every counter the number of open prerequisites and the queue exactly the courses without any, prerequisites first. |
| CourseOrder.CanFinishByCounting | packages/problem-bank/src/problems/graphs.ts:151-166 | The counting reference answers true exactly when the courses can be ordered. |
| CourseOrder.CycleFound | packages/problem-bank/src/problems/graphs.ts:175-176 | A needed course on the current path closes a cycle, and then no order exists. |
| CourseOrder.HasCycle | packages/problem-bank/src/problems/graphs.ts:172-178 | The recursive search terminates, reports only real cycles, and otherwise finishes the course with all it needs before it. |
| CourseOrder.CanFinishByColours | packages/problem-bank/src/problems/graphs.ts:167-179 | The depth-first reference answers true exactly when the courses can be ordered. |
| CourseOrder.ReferencesAgree | packages/problem-bank/src/problems/graphs.ts:150-181 | Both references agree on every set of prerequisites. |
| MinWindow.CountNeed | packages/problem-bank/src/problems/two-pointers-window.ts:330-331 | The map counts the characters of t. |
| MinWindow.Take | packages/problem-bank/src/problems/two-pointers-window.ts:337-341 | Taking in a character keeps `missing` the number of characters still lacking. |
| MinWindow.Drop | packages/problem-bank/src/problems/two-pointers-window.ts:347-351 | So does dropping one. |
| MinWindow.ScanAll | packages/problem-bank/src/problems/two-pointers-window.ts:336-353 | The two-pointer scan finds a shortest covering window. |
| MinWindow.MinWindowSubstring | packages/problem-bank/src/problems/two-pointers-window.ts:329-355 | The result is a substring that covers t with multiplicity, no shorter one does, and it is empty exactly when none exists. |
| MinWindow.MinWindowStats | packages/problem-bank/src/problems/two-pointers-window.ts:258-281 | The oracle returns the least length and the number of windows of that length, or zeros. |
| MinWindow.ReferencesAgree | packages/problem-bank/src/problems/two-pointers-window.ts:258-355 | The length of the result equals the oracle's first component. |
| Lis.FindSlot | packages/problem-bank/src/problems/backtracking-dp.ts:399-405 | The binary search finds the first pile top that is not smaller. |
| Lis.PutLeast | packages/problem-bank/src/problems/backtracking-dp.ts:406 | Replacing a pile top keeps every tail the least possible end of an increasing subsequence of its length. |
| Lis.LengthPatience | packages/problem-bank/src/problems/backtracking-dp.ts:396-409 | Patience sorting returns the length of a longest strictly increasing subsequence. |
| Lis.LengthDynamic | packages/problem-bank/src/problems/backtracking-dp.ts:410-417 | So does the quadratic table. |
| Lis.ReferencesAgree | packages/problem-bank/src/problems/backtracking-dp.ts:395-419 | Both references agree on every non-empty array. |
| EditDistance.EditIsNear | packages/problem-bank/src/problems/backtracking-dp.ts:541 | One edit changes the value of the recurrence against any word by at most one. |
| EditDistance.ShortChain | packages/problem-bank/src/problems/backtracking-dp.ts:541 | There is a chain of exactly as many edits as the recurrence says. |
| EditDistance.DistanceIsShortest | packages/problem-bank/src/problems/backtracking-dp.ts:541 | The recurrence is the length of a shortest chain of single-character edits. |
| EditDistance.MinDistance | packages/problem-bank/src/problems/backtracking-dp.ts:534-546 | The rolling row of the table ends with that length. |
| EditDistance.DIsDistance | packages/problem-bank/src/problems/backtracking-dp.ts:547-559 | The recursion on prefix lengths computes the same. |
| EditDistance.ReferencesAgree | packages/problem-bank/src/problems/backtracking-dp.ts:533-561 | Both references agree on all words. |
| Intervals.UpperStep | packages/problem-bank/src/problems/greedy-sorting.ts:97-102 | Exchange argument: no selection among the intervals seen beats the greedy count, and none of that size ends earlier. |
| Intervals.EraseByEnd | packages/problem-bank/src/problems/greedy-sorting.ts:93-104 | The earliest-end greedy removes as few intervals as possible. |
| Intervals.EraseByStart | packages/problem-bank/src/problems/greedy-sorting.ts:105-114 | So does the sweep by start that keeps the earlier end. |
| Intervals.ReferencesAgree | packages/problem-bank/src/problems/greedy-sorting.ts:92-116 | Both references agree on every input. |
| MeetingRooms.PeakBound | packages/problem-bank/src/problems/greedy-sorting.ts:190 | No plan has fewer rooms than meetings running at one time. |
| MeetingRooms.Duality | packages/problem-bank/src/problems/greedy-sorting.ts:190 | A plan whose rooms are all taken at some time has the fewest rooms, and their number is the peak. |
| MeetingRooms.RoomsBySweep | packages/problem-bank/src/problems/greedy-sorting.ts:211-226 | The sweep over sorted starts and ends returns the most meetings running at one time. |
| MeetingRooms.PeakReached | packages/problem-bank/src/problems/greedy-sorting.ts:229-233 | A room is added only when all others are taken at that time. |
| MeetingRooms.RoomsByHeap | packages/problem-bank/src/problems/greedy-sorting.ts:227-234 | The rooms given out one by one are the fewest possible, as many as meetings at the peak. |
| MeetingRooms.ReferencesAgree | packages/problem-bank/src/problems/greedy-sorting.ts:210-236 | Both references agree, so the peak is the least number of rooms. |
| Histogram.PopStep | packages/problem-bank/src/problems/lists-stacks.ts:503-507 | Popping a bar accounts for every rectangle that starts in its stretch and ends here. |
| Histogram.LargestOnePass | packages/problem-bank/src/problems/lists-stacks.ts:498-511 | The monotonic stack with its sentinel returns the largest width times minimum height over all ranges of bars. |
| Histogram.LeftEdges | packages/problem-bank/src/problems/lists-stacks.ts:514-521 | The left pass finds where the stretch of each bar begins. |
| Histogram.RightEdges | packages/problem-bank/src/problems/lists-stacks.ts:522-527 | The right pass finds where it ends. |
| Histogram.LargestTwoPass | packages/problem-bank/src/problems/lists-stacks.ts:512-528 | The two-pass reference returns the largest rectangle. |
| Histogram.ReferencesAgree | packages/problem-bank/src/problems/lists-stacks.ts:497-530 | Both references agree on every histogram. |
| OrderStatistics.RankUnique | packages/problem-bank/src/problems/trees-heaps.ts:308-311 | At most one value has a given rank. |
| OrderStatistics.SortedRank | packages/problem-bank/src/problems/binary-search.ts:287-292 | The element at position k of the sorted values has rank k. |
| Median.FarThenNotNear | packages/problem-bank/src/problems/binary-search.ts:270-284 | The cut next to one that is too far is not too near, so the search never runs out of cuts. |
| Median.MedianByPartition | packages/problem-bank/src/problems/binary-search.ts:263-286 | The partition search terminates, keeps every index in range, never reaches its final return, and returns the median of the merged values. |
| Median.MedianByMerge | packages/problem-bank/src/problems/binary-search.ts:287-293 | Merging and sorting returns the median. |
| Median.ReferencesAgree | packages/problem-bank/src/problems/binary-search.ts:262-294 | Both references agree on all sorted arrays that are not both empty. |
| QuickSelect.Partition | packages/problem-bank/src/problems/trees-heaps.ts:343-354 | One round of the in-place partition permutes the part, terminates inside it, and separates it at a pivot. |
| QuickSelect.Select | packages/problem-bank/src/problems/trees-heaps.ts:337-359 | The loop keeps the target rank inside the part, permutes the array, terminates, and returns the element of that rank. |
| QuickSelect.KthLargest | packages/problem-bank/src/problems/trees-heaps.ts:337-359 | The stored reference returns the k-th largest element. |
| QuickSelect.InsertAndPop | packages/problem-bank/src/problems/trees-heaps.ts:362-365 | Pushing and popping keeps the k largest of an ascending sequence. |
| QuickSelect.KthLargestByHeap | packages/problem-bank/src/problems/trees-heaps.ts:360-366 | The heap of the k largest returns the k-th largest element. |
| QuickSelect.ReferencesAgree | packages/problem-bank/src/problems/trees-heaps.ts:336-368 | Both references agree for every k from 1 to n. |
| Lifecycle.PlanFollowsMode | packages/core/src/interview/index.ts:103-119 | The kinds a plan asks in each mode, that a mixed plan closes with a behavioural question exactly from 45 minutes on, and that a longer interview asks no fewer questions. |
| Lifecycle.PlanLength | packages/core/src/interview/index.ts:103-119 | The exact lengths from which an interview asks one more question. |
| Lifecycle.LoneCandidate | packages/engine/src/interviews/service.ts:126-277 | A candidate alone who starts and advances is asked the planned questions one by one, in order, each closed as answered or skipped; the advance from the last one completes the room and orders the report. |
| Lifecycle.LoneRun | packages/engine/src/interviews/service.ts:126-277 | That history is a run of the system. |
| Lifecycle.EntersExactlyWhen | packages/engine/src/interviews/service.ts:128-296 | A request passes its first checks exactly in a room that allows it: starting or cancelling needs a created room, advancing or completing a running one. |
| Lifecycle.AnyoneMayBeNext | packages/engine/src/interviews/service.ts:126-298 | Whichever request is in flight may be the next to commit, or be lost: the invariants hold under every interleaving. |
| Lifecycle.ReadDecides | packages/engine/src/interviews/service.ts:232-241 | An advance asks the next planned question while there is one, and finishes the interview exactly after the last. |
| Lifecycle.ClosingMeansAllAsked | packages/engine/src/interviews/service.ts:232-241 | In every reachable state, whoever closes the last question, or completes the room from there, names the last position of the plan and finds the whole plan asked. |
| Lifecycle.CompletedAfterPlan | packages/engine/src/interviews/service.ts:235-277 | A room that becomes COMPLETED in a run has been asked the whole plan, unless somebody asked to complete it. |
| Lifecycle.CompleteNow | packages/engine/src/interviews/service.ts:261-277 | Completing a running interview answers the open question, orders the report, and leaves the other rows. |
| Lifecycle.TakenPositionRollsBack | packages/engine/src/interviews/service.ts:143-160 | A question row at the position to be filled rolls the transaction back as a whole. |
| Lifecycle.StepKeeps | packages/engine/src/interviews/service.ts:126-298 | Every read, commit or loss of any request keeps the invariant of room and requests in flight, and only follows the allowed changes. |
| Lifecycle.ReachableRooms | packages/engine/src/interviews/service.ts:143-277 | In every reachable room questions occupy positions 0..k-1 with k at most questionCount, only the last can be active, none is in a completed room, and the kind at each position is the planned one. |
| Lifecycle.RunExtends | packages/engine/src/interviews/service.ts:227-277 | Along any run no question disappears, moves or reopens, and the version never falls; a new question or status raises it. |
| Lifecycle.RunIsLegal | packages/core/src/interview/index.ts:65-83 | The status follows the transition table along every run. |
| Lifecycle.StartAndCompleteOnce | packages/engine/src/interviews/service.ts:261-277 | Starting and completing each commit at most once, in that order, and a started interview is never cancelled. |
| Lifecycle.SecondAdvanceIsIdle | packages/engine/src/interviews/service.ts:244-251 | The second of two advance requests for the same question changes nothing. |
| Lifecycle.Tables.CommitStart | packages/engine/src/interviews/service.ts:143-160 | The starting transaction on the rows. |
| Lifecycle.Tables.CommitAdvance | packages/engine/src/interviews/service.ts:244-251 | The advancing transaction on the rows, rolled back as a whole. |
| Lifecycle.Tables.CommitComplete | packages/engine/src/interviews/service.ts:263-277 | The completing transaction on the rows. |
| Lifecycle.Tables.CommitCancel | packages/engine/src/interviews/service.ts:296 | The conditional cancelling update. |
| Evaluation.Row.Claim | packages/engine/src/evaluation/service.ts:64-73 | The conditional claim of the report row. |
| Evaluation.Row.Retry | packages/engine/src/evaluation/service.ts:267-284 | What a retry decides and writes: refused exactly when the report is COMPLETED or being worked on for at most ten minutes, each with its own answer. |
| Evaluation.RetryDecides | packages/engine/src/evaluation/service.ts:274-284 | A retry is refused exactly when the report is complete or being worked on, each refusal naming its case; a waiting report is left alone. |
| Evaluation.ClaimDecides | packages/engine/src/evaluation/service.ts:64-73 | A claim fails exactly when the report is complete or being worked on, which it is from a claim on. |
| Evaluation.RetryHelps | packages/engine/src/evaluation/service.ts:64-284 | Nothing stays stuck: unless complete or busy, a report is put to work by a retry and the next claim. |
| Evaluation.AttemptsAreClaims | packages/engine/src/evaluation/service.ts:66-69 | In every run, with no assumption, `attempts` equals the number of successful claims. |
| Evaluation.OneOfTwoClaims | packages/engine/src/evaluation/service.ts:66-70 | Of two claims at the same moment one goes through. |
| Evaluation.RetryIsTwoSteps | packages/engine/src/evaluation/service.ts:267-284 | The uninterrupted retry is its read followed at once by its write. |
| Evaluation.StepKeepsExactlyWhen | packages/engine/src/evaluation/service.ts:64-284 | Every step keeps the run at work the latest claim, still shown by the row, and keeps COMPLETED, exactly when it is harmless. |
| Evaluation.HarmIsReal | packages/engine/src/evaluation/service.ts:64-284 | After a harmful step COMPLETED is lost or two runs are at work, at once or with the next claim. |
| Evaluation.RunKeepsExactlyWhen | packages/engine/src/evaluation/service.ts:64-284 | A whole run stays in order exactly when none of its steps is harmful. |
| Evaluation.AssumptionsSuffice | packages/engine/src/evaluation/service.ts:64-284 | Runs within the staleness limit, uninterrupted retries and no failure after a stored result make every step harmless. |
| Evaluation.OneRunAtWork | packages/engine/src/evaluation/service.ts:64-264 | When no step is harmful, at most one run holds the report, and the row shows its claim. |
| Evaluation.CompletedIsFinal | packages/engine/src/evaluation/service.ts:232-255 | When no step is harmful, COMPLETED is never left. |
| Evaluation.TakenOverExactlyWhen | packages/engine/src/evaluation/service.ts:64-284 | The report changes under a run at work, other than by its own write, exactly with a harmful step. |
| Evaluation.SlowRunIsJoined | packages/engine/src/evaluation/service.ts:64-69 | A history with an overdue run in which two runs are at work. |
| Evaluation.InterruptedRetryIsJoined | packages/engine/src/evaluation/service.ts:271-281 | A history with a retry split by a claim in which two runs are at work. |
| Evaluation.LateFailureOverwrites | packages/engine/src/evaluation/service.ts:251-261 | A history in which a failing room update turns COMPLETED into FAILED. |
| ProctoringRules.LongerIsNotMilder | packages/core/src/proctoring/index.ts:63-88 | A longer interval is never judged more leniently. |
| ProctoringRules.SeverityExactlyWhen | packages/core/src/proctoring/index.ts:63-88 | For every type, the exact durations at which the level rises; no duration makes a network interruption HIGH. |
| ProctoringRules.ClampExactly | packages/core/src/proctoring/index.ts:100-120 | Where each reported time ends up: kept if it lies in the interview and on time, else at the start of the interview or at the last time on time. |
| ProctoringRules.LaterIsNotRefused | packages/core/src/proctoring/index.ts:106-118 | Whoever retries later is never refused for it: an accepted event is accepted at every later time, with times no earlier and an interval no shorter. |
| ProctoringRules.StoredTimesStand | packages/core/src/proctoring/index.ts:100-120 | Clamping is idempotent: the times stored for an event, reported again at any later time, are accepted and kept. |
| ProctoringRules.ClampNeverLengthens | packages/core/src/proctoring/index.ts:100-120 | Accepted times lie within the interview and before the clock, in order, and no interval is longer than reported or than the interview. |
| ProctoringRules.TimesInsideAreKept | packages/core/src/proctoring/index.ts:106-119 | Times inside the interview are stored as reported. |
| ProctoringIngest.IngestKeeps | packages/engine/src/proctoring/service.ts:44-105 | Ingesting an event keeps one row per event and severity as computed from type and duration, loses no row and leaves closed rows untouched. |
| ProctoringIngest.IngestAllKeeps | packages/engine/src/proctoring/service.ts:43-105 | So does a whole batch. |
| ProctoringIngest.RowsAreJudged | packages/engine/src/proctoring/service.ts:55-96 | Every row stored by any sequence of events has the severity that its type and length deserve. |
| ProctoringIngest.FateExactlyWhen | packages/engine/src/proctoring/service.ts:44-103 | Exactly which events are turned away, which are duplicates, and which get a row. |
| ProctoringIngest.HiddenThenReturned | packages/engine/src/proctoring/service.ts:55-87 | A hidden tab and its return give two rows; the hidden interval is closed at the return and is HIGH exactly from a minute on, MEDIUM from 15 seconds, LOW from two, else INFO. |
| ProctoringIngest.ReplayIdleExactlyWhen | packages/engine/src/proctoring/service.ts:55-96 | Sending an admitted batch again, at any later time and under any settings, changes nothing exactly when the first sending left no named TAB_HIDDEN open. |
| ProctoringIngest.ReplayIdleByInputs | packages/engine/src/proctoring/service.ts:55-96 | The same condition stated on the table and the batch alone. |
| ProctoringIngest.InOrderReplayIsIdle | packages/engine/src/proctoring/service.ts:55-96 | Batches in which no TAB_HIDDEN follows its TAB_RETURNED can be sent any number of times. |
| ProctoringIngest.LateHiddenIsClosedByReplay | packages/engine/src/proctoring/service.ts:55-66 | A batch in the wrong order is not idempotent. |
| ProctoringIngest.EndPrecedesStartExactlyWhen | packages/engine/src/proctoring/service.ts:55-95 | From a table in which no row ends before it starts, one event leads to one that does exactly when it completes an open row of its kind with an end before that row's start. |
| ProctoringIngest.BatchForwardExactlyWhen | packages/engine/src/proctoring/service.ts:43-95 | The same for a whole batch: such a row stays, and appears exactly with the first such event. |
| ProctoringIngest.EndMayPrecedeStart | packages/engine/src/proctoring/service.ts:88-95 | A concrete input, from the empty table: the row runs from 100 to 60, with duration 0. |
| ProctoringIngest.EventTable.IngestEvent | packages/engine/src/proctoring/service.ts:44-104 | One event on the table: closing, inserting, or completing its row. |
| ProctoringIngest.EventTable.IngestEvents | packages/engine/src/proctoring/service.ts:31-106 | When a batch is refused, and that refusals leave the table alone; otherwise every event is counted once under its fate, every accepted one is a new row, and the rejected ids are listed in order. |
| ProctoringIngest.RejectedExactly | packages/engine/src/proctoring/service.ts:44-103 | An id is listed exactly when an event with it was turned away. |
| ProctoringQueue.RemovesFront | apps/web/lib/client/proctoring-queue.ts:62-75 | Filtering out the ids of a sent batch removes exactly that batch from the front, whatever was pushed meanwhile. |
| ProctoringQueue.Queue.constructor | apps/web/lib/client/proctoring-queue.ts:18-29 | A page load takes up the last 200 stored events. |
| ProctoringQueue.Queue.Push | apps/web/lib/client/proctoring-queue.ts:45-49 | A push appends, persists, and from ten events on sends unless a request is under way. |
| ProctoringQueue.Queue.BeginFlush | apps/web/lib/client/proctoring-queue.ts:59-62 | At most one request at a time, with the first 50 events. |
| ProctoringQueue.Queue.EndFlush | apps/web/lib/client/proctoring-queue.ts:71-82 | Events are removed and the storage updated only on 2xx, 400, 404 or 409. |
| ProctoringQueue.AnswersDrain | apps/web/lib/client/proctoring-queue.ts:59-76 | Every answered batch takes the next 50 events off the buffer, so one answer for every 50 events empties it. |
| ProctoringPipeline.BatchesFit | apps/web/lib/client/proctoring-queue.ts:59-90 | In every run each request, by fetch or by beacon, holds between 1 and 50 different events, so none is turned away for its size. |
| ProctoringPipeline.BufferStep | apps/web/lib/client/proctoring-queue.ts:45-90 | Every step of page, network and server keeps: storage is the tail of the buffer, the batch under way is its front, ids are unique, every pushed event is buffered, answered, or fell out of a full storage. |
| ProctoringPipeline.LeavesOnlyWhenAnswered | apps/web/lib/client/proctoring-queue.ts:73-76 | An event leaves the buffer exactly with an answer to a batch that holds it, or by a reload with at least 200 newer ones buffered. |
| ProctoringPipeline.NothingOverflows | apps/web/lib/client/proctoring-queue.ts:21-76 | With at most 200 buffered events, every event ever pushed is buffered, accepted or permanently refused, in every run. |
| ProctoringPipeline.DeliveryByFetch | apps/web/lib/client/proctoring-queue.ts:59-76 | A fetch that nothing disturbs delivers exactly the first 50 events to the table and takes exactly them off buffer and storage. |
| ProctoringPipeline.DeliveryByBeacon | apps/web/lib/client/proctoring-queue.ts:86-90 | A beacon is ingested likewise, and the buffer keeps its events. |
| ProctoringPipeline.LostAnswer | apps/web/lib/client/proctoring-queue.ts:77-82 | When an answer is lost or the page reloads, the request goes on by itself and the buffer stays, or is what was stored. |
| ProctoringPipeline.RefusedIsDropped | apps/web/lib/client/proctoring-queue.ts:73-76 | A batch that can never be accepted leaves the buffer like an accepted one and never reaches the table. |
| ProctoringPipeline.TableStep | packages/engine/src/proctoring/service.ts:43-105 | Every step keeps the table in order and only extends it, and what was ingested stays recorded. |
| ProctoringPipeline.AcceptedIsStored | packages/engine/src/proctoring/service.ts:67-104 | An event whose batch was accepted has a row or was turned away, in every run. |
| ProctoringPipeline.ClosedRowsAreFrozen | packages/engine/src/proctoring/service.ts:55-96 | Times and severity of a closed row never change, in every run. |
| Judge.Sandbox.Exec | apps/code-executor/src/sandbox.ts:195-219 | A command runs only in a live sandbox; overflow or a hung client destroys it. |
| Judge.AcceptedExactlyWhen | apps/code-executor/src/judge.ts:109-131 | A test is accepted, wrong or merely executed only if the program ended by itself with exit code 0 and in time, and which of them the comparator decides. |
| Judge.BlamedExactlyWhen | apps/code-executor/src/judge.ts:109-126 | Exactly when a program is blamed for its output, its time, its memory, or a runtime error. |
| Judge.TimeLimitMeansSlow | apps/code-executor/src/judge.ts:109-126 | A time-limit verdict means that docker hung or that nine tenths of the limit were used, however the program ended. |
| Judge.SlowerIsNotBetter | apps/code-executor/src/judge.ts:109-131 | The same run taking longer is judged the same or out of time. |
| Judge.RunTests | apps/code-executor/src/judge.ts:93-140 | The loop produces the results its states determine, gives up only when docker fails, and never runs a command in a destroyed sandbox. |
| Judge.OneResultPerTest | apps/code-executor/src/judge.ts:97-140 | One result per test, in order, and no output of a hidden test. |
| Judge.VisibleShowsOutput | apps/code-executor/src/judge.ts:133-138 | A visible test shows what the program printed, up to 4096 characters and then a mark. |
| Judge.AtMostTwoTimeouts | apps/code-executor/src/judge.ts:94-126 | The counter equals the number of time-limit verdicts, which never exceeds two. |
| Judge.NothingAfterTearDown | apps/code-executor/src/judge.ts:98-115 | After an output overflow or a hung client every later test is skipped. |
| Judge.SkippedExactlyWhen | apps/code-executor/src/judge.ts:97-101 | A test is skipped exactly when the sandbox was gone, an earlier test was torn down, the deadline had passed, or two timeouts were counted. |
| Judge.SkippedIsSuffix | apps/code-executor/src/judge.ts:97-101 | With a clock that does not go back, the skipped tests are the last ones. |
| Judge.AcceptedIffAllPass | packages/core/src/judge/index.ts:105-110 | The summary is ACCEPTED exactly when every test was ACCEPTED or EXECUTED. |
| Judge.FirstFailureDecides | packages/core/src/judge/index.ts:105-110 | Otherwise the first failing test decides: its verdict is the summary, a skipped test counts as out of time. |
| Judge.SkippedFirst | packages/core/src/judge/index.ts:105-110 | When the first failing result is SKIPPED, the deadline had passed or compilation had destroyed the sandbox. |
| Judge.AllPassedIsAccepted | apps/code-executor/src/judge.ts:149-158 | Passing all tests means the verdict ACCEPTED. |
| Judge.Judge | apps/code-executor/src/judge.ts:40-159 | Which exit is taken when; every exit destroys the sandbox it created, and every finished judgement has one result per test in order, the right counts, a verdict that is ACCEPTED exactly when all tests pass, and after a run the verdict of the first failing test. |
| RateLimit.KeyInjective | packages/engine/src/rate-limit.ts:47-48 | A key determines rule, subject and window, whatever colons the subject holds. |
| RateLimit.Limiter.Evict | packages/engine/src/rate-limit.ts:32-34 | The eviction loop deletes exactly the entries that are over. |
| RateLimit.Limiter.MemoryHit | packages/engine/src/rate-limit.ts:27-39 | The hit on the map. |
| RateLimit.HitExactly | packages/engine/src/rate-limit.ts:27-39 | What a hit does: the entry counts on or begins anew for a whole window length, no other entry changes, and those that are over are dropped exactly when a new entry brings the map above 10000. |
| RateLimit.Limiter.EnforceRateLimit | packages/engine/src/rate-limit.ts:45-64 | A request is refused exactly when its count exceeds the limit, and the caller is told the least number of whole seconds, at least one, after which the entry has ended. |
| RateLimit.EntryEnds | packages/engine/src/rate-limit.ts:27-39 | In every run the entry of a key ends one window length after its first use, no sooner than its window and no later than a window length from now. |
| RateLimit.ServeRun | packages/engine/src/rate-limit.ts:45-64 | A fresh limiter over a whole run: each request is admitted exactly below the limit of its window, and a refused caller is told between one second and the window length, the shortest wait that suffices. |
| RateLimit.MapAgreesWithCounter | packages/engine/src/rate-limit.ts:27-39 | With a clock that does not go back, the map agrees with a plain counter for every possible next request, evictions or not. |
| RateLimit.AdmitsExactlyWhen | packages/engine/src/rate-limit.ts:45-64 | A request is admitted exactly when fewer than `limit` requests of its key came before. |
| RateLimit.AdmittedInWindow | packages/engine/src/rate-limit.ts:45-64 | Of the requests of one window exactly the first `limit` are admitted. |
| RateLimit.TwiceTheLimit | packages/engine/src/rate-limit.ts:45-64 | In any stretch as long as a window at most twice the limit is admitted. |
| RateLimit.WaitingHelps | packages/engine/src/rate-limit.ts:60-63 | A refused caller that waits as long as it is told comes back in a later window. |
| JsonScan.ExtractSlice | packages/engine/src/ai/structured.ts:13-32 | The search and the scanning loop with depth, string and escape state compute the located slice. |
| JsonScan.PassValue | packages/engine/src/ai/structured.ts:20-31 | Inside an open bracket every JSON value, with any white space, is passed over and leaves depth and string state as they were, although one kind of bracket is counted. |
| JsonScan.PassText | packages/engine/src/ai/structured.ts:22-27 | A string is passed over whatever brackets, quotes and escapes it holds. |
| JsonScan.LocatesValue | packages/engine/src/ai/structured.ts:13-32 | For every object or array printed as in sections 4, 5 and 7 of RFC 8259 and any text behind it, the scan cuts out exactly that value if and only if no bracket precedes it. |
| JsonScan.SliceShape | packages/engine/src/ai/structured.ts:13-32 | On any text, what is cut out lies in the text and begins and ends with matching brackets. |

## Left out

- Docker, child processes, queues, Redis, Prisma, Socket.IO, the AI client, routes and user interface: their outcomes are parameters of the model or nondeterministic steps.
- Integers beyond 2^53 and the exponent form of numbers from 10^21 on: integers are unbounded and print in plain decimal.
- Doubles: a number that is not whole keeps its text as its identity; `toFixed`, `parseFloat` and the float comparator are not modelled, negative zero neither.
- Harness printers truncate numbers that are not whole; `RoundTrip.Format` covers results that are whole where the type says so.
- Harness.Stdin.Int: `parseInt` and `Number` are modelled on decimal numerals; hexadecimal and exponent texts keep their own identity.
- Harness.Stdin.IntMatrix: a row whose leading number is no whole number reads as empty; the code cuts that number off at the point.
- Strings are sequences of characters; the order of `sort` compares characters, not UTF-16 code units.
- Array.prototype.sort and Python's sorted are modelled as stable insertion sorts.
- Readers and printers in C, C++, Java and Python: the same algorithms again.
- The generator's mulberry32 stream: draws are arbitrary integers of the ranges asked for; `distinct` and `brokenBst` may reject draws forever, which is not modelled.
- QuickSelect.KthLargestByHeap: the binary heap is represented by its elements in ascending order.
- MeetingRooms.RoomsByHeap: the binary heap is represented by the times at which the rooms become free, and its top by a smallest of them.
- EditDistance.DIsDistance: the cache of the recursion is left out; it does not change results.
- Median.MedianByPartition: the mean is a real number; rounding of the division by two is left out.
- Arithmetic overflow and the stated sizes of the problems: references are proved without size limits.
- Lifecycle: who may act, events, broadcasts, drafts, answers and the choice of a question's text are left out; when a request is late is left to the steps.
- Lifecycle and Evaluation share the report row: Lifecycle only says that it appears with the completion of the room, and ignores the evaluation's later writes to it; Evaluation starts from there.
- Evaluation: the status copied to the room row, scores and texts of the report are left out; a crashed process is a run that ends without writing.
- ProctoringIngest.EventTable.IngestEvents: authorisation and the request rate limit are other refusals that leave the table alone.
- ProctoringQueue: timers and the ten-event threshold decide when requests start; the pipeline lets them start at any time. Storage is assumed to work and to hold what was written.
- Judge: the time limit passed to docker and the compiler's messages are left out; 0.9 times the limit is compared in integers.
- RateLimit: the Redis path; one process and one map are modelled.
- JsonScan: code fences and the first attempt to parse the whole text, because both rest on library calls.
- The other reference solutions of the bank, rubric scores, question selection, analytics, token signing and redaction: not part of this model.
