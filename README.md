# Code-quality dashboard: verified model of its metric core and sample programs

This project models two things in Dafny and proves properties of each.

The first is the per-file and per-folder source metrics of the code-quality dashboard (`analyzer.py`). A file is summarised by five fields:

- its base name;
- its `splitlines` line count;
- the number of plain function definitions anywhere in its syntax tree;
- the exact mean span length of those definitions;
- their largest span length.

A folder is summarised by one record per regular `.py` file, in listing order.

The second is the sample programs the dashboard is run on (`target_code/`):

- a deliberately non-standard LCS table, the 0/1 knapsack recursion, the k-th largest element through a bounded min-heap, and the spiral traversal of a matrix;
- a record range filter, threshold-based category counting and a memoised Fibonacci helper;
- a small discrete-event CPU simulation with an event order, a pending-event queue, a task deque and CPU states;
- a sum, a value holder and a positive-item counter.

The project has one module per source file:

| module | file |
|---|---|
| `Analyzer` | `analyzer.dfy` |
| `AlgorithmCollection` | `algorithms.dfy` |
| `DataProcessor` | `data_processor.dfy` |
| `EventSimulation` | `simulation.dfy` |
| `SampleCode` | `sample_code.dfy` |

`Wrappers` (`wrappers.dfy`) holds `Option` and `Result`; `Sequences` (`sequences.dfy`) holds the removal of one element that both heap models use.

Some parts are modelled as loops over state, in the same form as the source:

- the loops that fill the LCS table, keep the k-th largest heap and walk the spiral;
- the loops that build the filter and category results;
- the event simulator's `process_event` and run loop.

Each of these methods is proved against a specification function, and the properties are proved about that function. The rest is pure functions and lemmas.

External parts are parameters:

- the parser (`parse: string -> Option<Node>`);
- the file reader (`read: string -> Option<string>`);
- the directory listing (a sequence of `DirEntry(name, isFile)`);
- the simulator's preempt draw (`preempt: bool`, or `coin: nat -> bool` over a run).

## Model

| member | source | states |
|---|---|---|
| Analyzer.Walk | analyzer.py:10 | the breadth-first walk of a tree is non-empty and starts at the root |
| Analyzer.WalkVisitsEveryNodeOnce | analyzer.py:10 | the walk yields every node of the tree exactly once (as a multiset, the structural node collection), so its length is the tree's size |
| Analyzer.Functions | analyzer.py:10 | the collected nodes are all plain function definitions |
| Analyzer.WalkFromCountsFunctionDefs | analyzer.py:10 | the walk from any queue of trees meets exactly as many definitions as the trees hold, counted structurally |
| Analyzer.FunctionCountIsTreeCount | analyzer.py:24 | `function_count` equals the number of plain definitions at any depth, nested functions and methods included |
| Analyzer.NestedDefinitionsScenario | analyzer.py:10 | a method inside a class and a function nested inside that method both count; an async definition does not |
| Analyzer.FallbackEndIsSubtreeMaximum | analyzer.py:14-18 | without an explicit end line, the end is the largest line number in the definition's walk, and it is at least the start |
| Analyzer.FallbackEndScenario | analyzer.py:17-19 | a definition at line 5 with nodes at lines 6 and 8 has length 4 |
| Analyzer.SpanLengthPositive | analyzer.py:19 | each span `end - start + 1` is at least 1 when an explicit end is not before the start |
| Analyzer.SpanLengthsPositive | analyzer.py:13-19 | on a well-formed tree every collected length is at least 1 |
| Analyzer.SpanLengths | analyzer.py:12-19 | one length per definition |
| Analyzer.SpanLengthsAt | analyzer.py:19 | the i-th length is the span of the i-th definition |
| Analyzer.Max | analyzer.py:26 | the maximum is an element and bounds every element |
| Analyzer.Min | analyzer.py:25 | the minimum is an element and is below every element |
| Analyzer.SumBounds | analyzer.py:25 | count times minimum <= sum <= count times maximum |
| Analyzer.NoFunctionsIffZeroLengths | analyzer.py:25-26 | no definitions gives mean 0 and maximum 0; on a well-formed tree a maximum of 0 means no definitions |
| Analyzer.MaxIsLongestSpan | analyzer.py:26 | with definitions, `max_function_length` is one of the lengths and no length exceeds it |
| Analyzer.MeanBetweenShortestAndLongest | analyzer.py:25 | with definitions, the exact mean lies between the shortest and the longest span |
| Analyzer.SpansAtLeastOneLine | analyzer.py:25-26 | on a well-formed tree with definitions, 1 <= mean <= maximum |
| Analyzer.OneFunctionScenario | analyzer.py:21-27 | a seven-line file `pkg/one.py` with one definition on lines 3-7 gives the record ("one.py", 7, 1, 5.0, 5) |
| Analyzer.FirstBreak | analyzer.py:23 | the first line boundary: none before it, and one at it if it lies inside the text |
| Analyzer.LineCountIsBreaksPlusOpenLine | analyzer.py:23 | the `splitlines` count is the number of boundaries ("\r\n" counted once) plus one for an unterminated last line |
| Analyzer.LinesHaveNoBreaks | analyzer.py:23 | no returned line contains a boundary character |
| Analyzer.SplitLinesOfTerminated | analyzer.py:23 | splitting text made of lines each ended by "\n", none holding a boundary, gives back exactly those lines |
| Analyzer.TrailingBreakAddsNoLine | analyzer.py:23 | a terminator after an unterminated last line leaves the lines unchanged |
| Analyzer.LineCountExamples | analyzer.py:23 | "" gives 0 lines; "a\nb" and "a\nb\n" both give 2 |
| Analyzer.BaseNameIsLastComponent | analyzer.py:22 | the base name is a '/'-free suffix of the path, preceded by '/' unless it is the whole path |
| Analyzer.BaseNameAfterSlash | analyzer.py:22 | after a '/' or the start, a '/'-free name is exactly the base name |
| Analyzer.BaseNameOfJoin | analyzer.py:22-33 | the base name of `join(folder, name)` is `name` |
| Analyzer.AnalyzePythonFile | analyzer.py:5-27 | the method yields the read error, the syntax error or the metrics record of the file, as `FileResult` defines them |
| Analyzer.MatchingKeepsPythonFilesInOrder | analyzer.py:31-34 | the entries kept are exactly the regular files ending in ".py", and filtering splits over concatenation, so order is kept |
| Analyzer.OtherEntriesIgnored | analyzer.py:32-34 | `x.pyc` and a directory `pkg.py` are skipped, and `a.py` is kept |
| Analyzer.FolderSucceedsIffEveryFileDoes | analyzer.py:31-36 | the folder analysis succeeds if and only if every matching file's analysis succeeds |
| Analyzer.FolderRecordsFollowMatchingEntries | analyzer.py:31-36 | on success, the i-th record is the analysis of the i-th matching entry, and the counts agree |
| Analyzer.FolderRecordNamesAreEntryNames | analyzer.py:22-36 | each record's `file` is the name of its entry |
| Analyzer.NoMatchingEntriesGiveNoRecords | analyzer.py:30-36 | without matching entries the result is `[]` |
| Analyzer.AnalyzeFolder | analyzer.py:29-36 | the loop yields exactly `FolderResult` of the listing |
| AlgorithmCollection.LongestCommonSubsequence | target_code/advanced_algorithm_collection.py:22-38 | the nested loops return cell (m, n) of the table; either string empty gives 0 |
| AlgorithmCollection.FillRow | target_code/advanced_algorithm_collection.py:26-36 | one inner-loop pass fills row i with the table's values and leaves the other rows unchanged |
| AlgorithmCollection.LcsCellIsHalfInteger | target_code/advanced_algorithm_collection.py:28-36 | every cell is a whole number of halves |
| AlgorithmCollection.LcsCellAtLeastLcs | target_code/advanced_algorithm_collection.py:27-36 | no cell is below the textbook common-subsequence length of the two prefixes |
| AlgorithmCollection.LcsCellIsNotTextbook | target_code/advanced_algorithm_collection.py:30-36 | "a"/"b" gives 1 where the textbook value is 0, and "abc"/"abc" gives 3.5 where it is 3 |
| AlgorithmCollection.Knapsack | target_code/advanced_algorithm_collection.py:51-60 | the value is never negative |
| AlgorithmCollection.KnapsackGrowsWithItems | target_code/advanced_algorithm_collection.py:55-60 | one more item on offer never lowers the value |
| AlgorithmCollection.KnapsackChoiceStep | target_code/advanced_algorithm_collection.py:55-60 | one recursion step either takes the last item (it fits and taking is no worse) or leaves it, and its choice follows that step |
| AlgorithmCollection.KnapsackTakeBound | target_code/advanced_algorithm_collection.py:59 | when the last item fits, the value is at least that of taking it |
| AlgorithmCollection.KnapsackIsAttained | target_code/advanced_algorithm_collection.py:51-60 | for a non-negative capacity, some choice of items fits and has exactly the recursion's value |
| AlgorithmCollection.KnapsackChoiceFits | target_code/advanced_algorithm_collection.py:51-60 | that choice's weight is within the capacity |
| AlgorithmCollection.KnapsackChoiceValue | target_code/advanced_algorithm_collection.py:51-60 | that choice's value is the recursion's value |
| AlgorithmCollection.KnapsackIsOptimal | target_code/advanced_algorithm_collection.py:51-60 | with positive weights, no choice that fits is worth more than the recursion's value |
| AlgorithmCollection.ZeroWeightItemIgnored | target_code/advanced_algorithm_collection.py:51-52 | at capacity 0 an item of weight 0 and value 5 is not taken, although it would fit |
| AlgorithmCollection.KnapsackExample | target_code/advanced_algorithm_collection.py:181-184 | the module's example items with capacity 80 are worth 360 |
| AlgorithmCollection.KthLargestIsUnique | target_code/advanced_algorithm_collection.py:63-89 | the k-th largest element, when it exists, is unique |
| AlgorithmCollection.CountAtLeastBounds | target_code/advanced_algorithm_collection.py:74-89 | at most the length of a list is >= v, and all of it exactly when every element is >= v |
| AlgorithmCollection.MinPos | target_code/advanced_algorithm_collection.py:78 | the popped position holds a smallest element |
| AlgorithmCollection.RemoveAtCount | target_code/advanced_algorithm_collection.py:78 | removing one element lowers each count only by that element, and adds no element |
| AlgorithmCollection.PushPopKeepsLargest | target_code/advanced_algorithm_collection.py:75-78 | push, then pop when above k, keeps min(i, k) elements, and they are the k largest seen so far |
| AlgorithmCollection.FindKthLargest | target_code/advanced_algorithm_collection.py:71-89 | fails if and only if `nums` is empty, `k <= 0` or `k > len(nums)`; otherwise returns the k-th largest element, so the -1 fallback is never reached |
| AlgorithmCollection.RingFacts | target_code/advanced_algorithm_collection.py:142-161 | one pass visits each border cell of the current bounds once and nothing inside the next bounds |
| AlgorithmCollection.SpiralFacts | target_code/advanced_algorithm_collection.py:142-161 | from any bounds, every cell inside them is visited exactly once and nothing else is |
| AlgorithmCollection.SpiralVisitsEveryCellOnce | target_code/advanced_algorithm_collection.py:139-161 | a rows x cols matrix gives rows*cols cells, all in range, each once |
| AlgorithmCollection.MatrixSpiralTraversal | target_code/advanced_algorithm_collection.py:135-168 | empty matrix or empty first row gives []; otherwise the entries at the spiral's cells, rows*cols of them |
| AlgorithmCollection.WalkRing | target_code/advanced_algorithm_collection.py:143-161 | one loop body appends the entries at the ring's cells and moves the bounds as the source does |
| AlgorithmCollection.WalkTopRow | target_code/advanced_algorithm_collection.py:144-145 | appends the top row from left to right |
| AlgorithmCollection.WalkRightCol | target_code/advanced_algorithm_collection.py:149-150 | appends the right column downwards |
| AlgorithmCollection.WalkBottomRowIfAny | target_code/advanced_algorithm_collection.py:153-156 | appends the bottom row backwards and lowers the bound, only while top <= bottom |
| AlgorithmCollection.WalkLeftColIfAny | target_code/advanced_algorithm_collection.py:158-161 | appends the left column upwards and raises the bound, only while left <= right |
| AlgorithmCollection.SpiralStartsWithFirstRow | target_code/advanced_algorithm_collection.py:144-145 | the output starts with row 0, left to right |
| AlgorithmCollection.SingleRowSpiral | target_code/advanced_algorithm_collection.py:244-246 | a single row is emitted as it stands |
| AlgorithmCollection.SingleColumnSpiral | target_code/advanced_algorithm_collection.py:248-250 | a single column is emitted top to bottom |
| AlgorithmCollection.SpiralExample | target_code/advanced_algorithm_collection.py:135-168 | the 3 x 3 matrix 1..9 gives 1,2,3,6,9,8,7,4,5 |
| DataProcessor.FilteredAppend | target_code/complex_data_processor.py:95-98 | filtering distributes over concatenation, so original order is kept |
| DataProcessor.FilteredMembers | target_code/complex_data_processor.py:97 | a row is returned if and only if it is a row of the data with min <= value <= max, and the result is no longer than the data |
| DataProcessor.ComplexDataProcessor.FilterDataByValue | target_code/complex_data_processor.py:84-102 | the loop returns exactly the filtered rows, leaves the data unchanged, and returns [] for empty data |
| DataProcessor.CategorizedCounts | target_code/complex_data_processor.py:155-172 | each base key counts its rows; its `_DivisibleBy5` and `_DivisibleBy3` keys count its rows with id divisible by 5, or by 3 and not 5, when the key starts with "A" |
| DataProcessor.CountRowCounts | target_code/complex_data_processor.py:157-172 | one row adds 1 to its base key and at most one divisibility key, and nothing to other keys of the same shape |
| DataProcessor.CountRowKeys | target_code/complex_data_processor.py:165-172 | counting one row adds exactly the keys it bumps, brings each to at least 1 and lowers no count |
| DataProcessor.CategorizedKeys | target_code/complex_data_processor.py:155-172 | a key is in the dictionary if and only if some row bumps it, and every present count is at least 1, so a `_DivisibleBy5`/`_DivisibleBy3` key exists only under an "A" base key |
| DataProcessor.DivisibleCountsBounded | target_code/complex_data_processor.py:168-172 | divisibility counts never exceed their base key's count and are 0 unless the key starts with "A" |
| DataProcessor.BaseCountsSumToRows | target_code/complex_data_processor.py:156-165 | over distinct base keys covering every row, the counts sum to the number of rows |
| DataProcessor.FifteenCountsOnceUnderFive | target_code/complex_data_processor.py:169-172 | id 15 under "A" is counted only as `_DivisibleBy5` |
| DataProcessor.ComplexDataProcessor.CategorizeData | target_code/complex_data_processor.py:145-175 | the loop returns exactly the counted dictionary, and {} for empty data |
| DataProcessor.ComplexDataProcessor.constructor | target_code/complex_data_processor.py:21-27 | a new processor has its source path and no rows |
| DataProcessor.ComplexDataProcessor.SetProcessedData | target_code/complex_data_processor.py:78 | loading replaces the rows and nothing else |
| DataProcessor.FibNonNegativeAndGrowing | target_code/complex_data_processor.py:184-186 | the helper's values are non-negative and non-decreasing |
| DataProcessor.ComplexDataProcessor.InternalRecursiveHelper | target_code/complex_data_processor.py:177-188 | returns Fibonacci of n; the shared memo only gains keys, holds only keys >= 2 with their Fibonacci values, and afterwards holds n when n >= 2 |
| EventSimulation.EventLessIsStrictWeakOrder | target_code/event_driven_simulation.py:16-21 | ordering by time then type name is irreflexive and transitive, and unordered events agree on time and type |
| EventSimulation.StringLessTotal | target_code/event_driven_simulation.py:21 | two different type names are always ordered one way or the other |
| EventSimulation.MinIndex | target_code/event_driven_simulation.py:181 | the popped event is preceded by no pending event |
| EventSimulation.EventDrivenSimulator.constructor | target_code/event_driven_simulation.py:30-41 | a new simulator starts at the start time with no events, zero counts, an idle CPU and no waiting tasks |
| EventSimulation.EventDrivenSimulator.ScheduleEvent | target_code/event_driven_simulation.py:50-59 | the event is always queued, even one older than the clock, and nothing else changes |
| EventSimulation.EventDrivenSimulator.PopEvent | target_code/event_driven_simulation.py:181 | removes and returns an event that no pending event precedes |
| EventSimulation.Step | target_code/event_driven_simulation.py:61-168 | every event moves the clock to its time, adds exactly 1 to the processed count and at most 1 to the errors, and appends at most one event |
| EventSimulation.EventDrivenSimulator.ProcessEvent | target_code/event_driven_simulation.py:61-168 | the object's new state is `Step` of its old state |
| EventSimulation.OnArrival | target_code/event_driven_simulation.py:71-106 | the arrival branch leaves clock and count alone and appends at most one event |
| EventSimulation.ArrivalAtIdleCpu | target_code/event_driven_simulation.py:79-84 | an idle CPU becomes busy, a completion at time + processing time (default 1.0) is queued, and the waiting tasks are unchanged |
| EventSimulation.ArrivalAtOccupiedCpu | target_code/event_driven_simulation.py:90-102 | otherwise the task waits: at the front with one error only when busy, priority > 0 and the draw preempts; at the back otherwise |
| EventSimulation.OnCompletion | target_code/event_driven_simulation.py:108-136 | the completion branch leaves clock and count alone and appends at most one event |
| EventSimulation.CompletionFreesCpu | target_code/event_driven_simulation.py:112-126 | the CPU is freed even if failed; a waiting task starts, and counts as an error when its priority > 3 and it waited more than 1.0 |
| EventSimulation.OnFailure | target_code/event_driven_simulation.py:138-150 | the failure branch leaves clock and count alone and appends at most one event |
| EventSimulation.FailureSchedulesRepair | target_code/event_driven_simulation.py:139-145 | a failure is always an error; a CPU failure sets it failed and queues a repair after the duration (default 5.0) |
| EventSimulation.OnRepair | target_code/event_driven_simulation.py:152-163 | the repair branch leaves clock and count alone and appends at most one event |
| EventSimulation.RepairRestartsWork | target_code/event_driven_simulation.py:155-163 | a CPU repair frees the CPU and starts the front waiting task, if any |
| EventSimulation.UnknownEventCountsError | target_code/event_driven_simulation.py:166-168 | an event of any other type only moves the clock and adds one to each counter |
| EventSimulation.StepKeepsWorkConserving | target_code/event_driven_simulation.py:79-163 | no event leaves the CPU idle while tasks wait |
| EventSimulation.StepLowersPotential | target_code/event_driven_simulation.py:61-168 | processing a popped event leaves less pending work than before the pop, which bounds the run loop |
| EventSimulation.EventDrivenSimulator.HandleArrival | target_code/event_driven_simulation.py:71-106 | the object's new state is `OnArrival` of its old state |
| EventSimulation.EventDrivenSimulator.HandleCompletion | target_code/event_driven_simulation.py:108-136 | the object's new state is `OnCompletion` of its old state |
| EventSimulation.EventDrivenSimulator.HandleFailure | target_code/event_driven_simulation.py:138-150 | the object's new state is `OnFailure` of its old state |
| EventSimulation.EventDrivenSimulator.HandleRepair | target_code/event_driven_simulation.py:152-163 | the object's new state is `OnRepair` of its old state |
| EventSimulation.RunStops | target_code/event_driven_simulation.py:180-191 | a run ends with an empty queue, the clock at or past the end time, or only events later than the end time pending |
| EventSimulation.RunKeepsInvariants | target_code/event_driven_simulation.py:180-191 | over a run the counters never decrease, and the CPU never idles while tasks wait |
| EventSimulation.EventDrivenSimulator.RunLoop | target_code/event_driven_simulation.py:180-191 | the loop's final state is `Run` of the initial state, so it stops as `RunStops` says |
| EventSimulation.EventDrivenSimulator.RunSimulation | target_code/event_driven_simulation.py:170-191 | the five initial events are queued and the loop is run |
| SampleCode.CalculateSumLaws | target_code/sample_code.py:9-11 | the sum is symmetric, adding 0 changes nothing, and (5, 3) gives 8 |
| SampleCode.MyClass.constructor | target_code/sample_code.py:14-15 | the object stores the value it is given |
| SampleCode.GetValueReturnsStoredValue | target_code/sample_code.py:14-18 | `get_value` on a new object returns the value it was built with |
| SampleCode.CountPositiveIsPositivePositions | target_code/sample_code.py:20-25 | the count is the number of positions holding an item > 0, so at most the length |
| SampleCode.MyClass.ProcessData | target_code/sample_code.py:20-25 | the loop counts the items > 0; an empty list gives 0, and the count never exceeds the length |
| SampleCode.ProcessDataExample | target_code/sample_code.py:34 | [1, -2, 3, 0, 5] gives 3 |

## Left out

- Parsing, file reading, `os.listdir` and `os.path.isfile` are external (analyzer.py:6-9, 31-34). They are the `parse` and `read` parameters and the `DirEntry` listing. Only the failures they can propagate (a read error, a syntax error) are modelled, as `AnalysisError`.
- The syntax tree keeps only two attributes: a shape (plain function definition or other node) and the optional `lineno`/`end_lineno`. Python's full node set is not modelled.
- `round(..., 2)` in analyzer.py:25 is modelled as the exact mean. Floating-point rounding is not modelled.
- Analyzer.NoFunctionsIffZeroLengths: the converse direction is proved only for well-formed trees. On a tree whose explicit end lines precede their starts, a length can be 0 or negative.
- `get_radon_complexity` (analyzer.py:38-54) and `complexity.py` are thin wrappers over an external library.
- `app.py`, `visualize.py`, `report.py` and `pdf_report.py` are user interface and rendering.
- `target_code/deep_neural_net_simulator.py` is floating-point matrix arithmetic with random initialisation and file logging.
- `graph_traversal_bfs` is left out: it calls `random.randint` without importing `random`, so any call whose start node is in the graph stops with a `NameError` after the first node.
- The `lru_cache` on `knapsack_01_recursive` is left out; only the recursion is modelled. Called with list arguments, as the module's own example does, the cache raises `TypeError`.
- The empty `pass` loops guarded by `% 7`, `% 2`, `random` or the result size have no effect and are not modelled.
- AlgorithmCollection.Knapsack: requires `n <= len(weights)` and `n <= len(values)`, which is more than the source needs: it reads no list when `capacity == 0` and reads `values[n-1]` only in the take branch, so calls such as `([100], [], 5, 1)` return 0 in the source but lie outside the model. The module's only call passes `n = len(weights)` with lists of equal length.
- AlgorithmCollection.KnapsackIsOptimal: optimality is proved for positive weights only. With a weight-0 item and capacity 0 the recursion stops early (AlgorithmCollection.ZeroWeightItemIgnored).
- AlgorithmCollection.LongestCommonSubsequence: the table holds `real` values, and the model returns a `real` even where Python would return an `int`.
- AlgorithmCollection.FindKthLargest: the min-heap is modelled as an unordered sequence. A push appends, and a pop removes the first smallest element, so the heap array's layout is not modelled. Only the multiset and its minimum matter to the result.
- AlgorithmCollection.MatrixSpiralTraversal: requires a rectangular matrix. On ragged rows the source may index past a row's end.
- `load_data`, `calculate_summary_statistics`, `perform_complex_operation`, `_log`, `_initialize_logger` and `save_analysis_results` in `complex_data_processor.py` are left out (CSV and file I/O, floating-point statistics, randomness). Rows arrive already parsed as `Row(id, value, category)`, with the value a `real`.
- DataProcessor.ComplexDataProcessor.FilterDataByValue: the default `max_value=float('inf')` is `None` in an `Option<real>`. The `elif` branch only logs and is not modelled.
- DataProcessor.ComplexDataProcessor.InternalRecursiveHelper: requires a memo that holds only Fibonacci values at keys >= 2. This holds for the default shared memo, which starts empty and is only filled by the helper; a caller-supplied memo with other contents is not modelled.
- Event data dictionaries have fixed optional fields (`EventData`). The task id is an `Option<string>` because it is read with `dict.get`.
- The floating-point metrics `total_wait_time` and `resource_utilization`, with the `random.uniform` and `random.random` draws that feed only them, are left out.
- `creation_time` (`datetime.now`), `__repr__`, `print_summary`, the log history and the `print` in the constructor are left out.
- `os.path` is taken to be POSIX `posixpath`: `BaseName` and `JoinPath` split only at '/'. On Windows, `basename` also splits at '\\' and after a drive letter, which is not modelled.
- Default arguments are not modelled as such: callers pass every argument. This covers `start_time=0.0` and `end_time=100.0` of the simulator constructor (event_driven_simulation.py:30) and `min_value=0.0` of `filter_data_by_value` (complex_data_processor.py:84). `max_value=float('inf')` is `None`, and the categorisation default is `DataProcessor.DefaultThreshold`.
- The "Memory" entry of `resource_status` is never changed and is not modelled.
- The random dynamic-task injection in `run_simulation` (event_driven_simulation.py:192-198) is left out.
- The preempt draw `random.random() < 0.15` (event_driven_simulation.py:91) is a parameter.
- Event times are `real`; tie order among events equal in time and type is the first-minimum choice, not the binary heap's internal order.
