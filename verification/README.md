# FGo: models and proofs

FGo is a directed grey-box fuzzer: AFL with distances to several targets, computed by a static analyzer and
recorded by a compiler pass. This project models the parts of it that carry its logic and proves what they are
meant to guarantee. `dafny verify dfyconfig.toml` checks everything.

| module | what it models |
|---|---|
| ForkServer, StatusRelay | the protocol of fuzzer, fork server, child and timer, as an interleaved step relation |
| QueueScoring (Bits), UnstableTargets | queue entries, winners per bitmap byte, reference counts, lazy greedy culling; and what an unstable target does to them |
| Minimizer, Trimmer (Sweeps, Buffers, PowersOfTwo) | the two input minimizers, in place on buffers, decision by decision |
| IcfgSearch, CallSummaries, CallPaths (Distances) | the analyzer's search over one function, its pass over a cyclic call graph, and what its numbers are distances along |
| CoverageMap | hit-count buckets and the comparison of a trace with the map of what is unseen |
| Dictionary | the printer of captured tokens and the dictionary loader |
| DetStages, StageCandidates, FlipStages, FlipMasks, ByteStages, WordStages (Redundancy) | the deterministic mutation stages and their skipping of repeated candidates |
| TokenOverwrites, AutoExtras | overwriting with dictionary tokens, and the list of tokens found automatically |
| Instrumentation | the memory shared by instrumented code and fuzzer, from the stores to the readings |

The fuzzed program is an oracle throughout: a function from inputs to acceptance, checksum or trace. In ForkServer it
is instead any process that may stop, exit or crash at any moment.

Five things turned out not to hold as one might expect. Each has a lemma with an example and the exact condition:

- a text token that starts with a NUL makes the printed dictionary unreadable (Dictionary.ParseUndoesPrint);
- `could_be_bitflip` is exact on bytes but not on words, where it makes stages skip candidates that nothing flipped
  (WordStages.SkippedWord, WordStages.SkippedDword, WordStages.LostWord);
- with `no_arith` some interesting values are never tried (ByteStages.NoArithLosesValues, ByteStages.LostValue);
- `queued_favored` counts an entry more than once if its hit set changes between scorings
  (UnstableTargets.TimesPicked, UnstableTargets.CountsOnceIff, UnstableTargets.CountedThreeTimes);
- a function whose exit is unreachable keeps the intra distance UINT32_MAX, which makes its callers step back by one
  (IcfgSearch.StepsBackIff, IcfgSearch.SearchEndless).

## Model

| member | source | states |
|---|---|---|
| ForkServer.EveryStepIsSafe | FGo-LLVM/LLVM-Runtime.c:125-183 | In every interleaving of fuzzer, server, child and timer: the server sends SIGCONT only to a child that is alive and stopped, forks only when no earlier child is unreaped, waits only for a child it has; the pid and status the fuzzer reads belong to this round's child; the timer never signals anything else |
| StatusRelay.StatusIsOfTheChild | FGo-LLVM/LLVM-Runtime.c:143-183 | In every run: the status the fuzzer reads is that of the last step which this round's child took between its launch and the server's wait, how it ended if it ended, SIGKILL if one was pending, stopped if it stopped and nothing ended it |
| StatusRelay.OutcomeIsOfTheChild | AFL-Fuzz/afl-fuzz.c:2783-2803 | In every run: the outcome of a round is a timeout if and only if the timer fired at this round's child and SIGKILL ended it, and a crash if and only if any other signal ended it or, under sanitizers, the exit code that stands for one |
| StatusRelay.WaitIsOver | FGo-LLVM/LLVM-Runtime.c:172-172 | The server's wait returns exactly when this round's child has ended or, in persistent mode only, stopped itself |
| StatusRelay.FlagMeansFired | AFL-Fuzz/afl-fuzz.c:7709-7724 | `child_timed_out` is set at a point of a round if and only if the timer fired at a child in that round |
| ForkServer.RunKeepsInv | FGo-LLVM/LLVM-Runtime.c:112-185 | The invariant relating both pipes, both sides' variables and the process table holds in every state of every run |
| ForkServer.FuzzerStepKeepsInv | AFL-Fuzz/afl-fuzz.c:2704-2764 | Each step of `run_target` keeps the invariant, wherever the other parties stand |
| ForkServer.ServerStepKeepsInv | FGo-LLVM/LLVM-Runtime.c:125-183 | Each step of the server loop keeps the invariant, including the reap of a child killed after it had stopped itself |
| ForkServer.TimerKeepsInv | AFL-Fuzz/afl-fuzz.c:7709-7724 | The timeout handler may fire at any moment it is armed, also between the child stopping itself and the fuzzer reading that |
| ForkServer.ChildStepKeepsInv | FGo-LLVM/LLVM-Runtime.c:188-235 | A child may stop itself, exit, crash, or have a pending SIGKILL delivered at any later moment |
| ForkServer.NextMove | AFL-Fuzz/afl-fuzz.c:2704-2764 | No deadlock: in every reachable state some party other than the child can take a step, and it is the timer's only while the child runs on or has stopped itself outside persistent mode |
| ForkServer.RoundsAreBounded | AFL-Fuzz/afl-fuzz.c:2704-2764 | Under every scheduling a round is over after at most 29 steps of all parties together |
| ForkServer.ForksAreRoundsOverN | FGo-LLVM/LLVM-Runtime.c:188-235 | Well-behaved persistent children with loop count n stop themselves exactly n - 1 times and then exit, and N rounds cost ceil(N / n) forks, at every point of every run |
| ForkServer.LoopRuntime.Loop | FGo-LLVM/LLVM-Runtime.c:188-235 | The static variables after each call of `__afl_persistent_loop`, for persistent and other programs, counter wrap-around included |
| ForkServer.RunTarget | FGo-LLVM/LLVM-Runtime.c:188-235 | `while (__AFL_LOOP(n)) body` runs its body n times (2^32 for n = 0) with one stop before each further turn; without persistent mode it runs once and never stops |
| QueueScoring.Scorer.UpdateBitmapScore | AFL-Fuzz/afl-fuzz.c:1498-1543 | Slot by slot, in the entries' own speeds and sizes: the holder stays if and only if the byte was not hit or the newcomer's product is greater; reference counts and traces follow exactly; and scoring keeps counters, laziness and optimality as ScoringKept says, so that every slot a scored entry hits has a winner whose product is no greater |
| QueueScoring.Scorer.TakeSlot | AFL-Fuzz/afl-fuzz.c:1523-1541 | One slot changes hands: the loser's reference goes, and its trace with the last reference; correct also when an entry takes its own slot |
| QueueScoring.LoopRescores | AFL-Fuzz/afl-fuzz.c:1498-1543 | The loop over slots, which changes entries while it compares with them, takes exactly the slots the entry wins against the table as it was |
| QueueScoring.TakingASlot | AFL-Fuzz/afl-fuzz.c:1523-1541 | Each entry's reference count stays the number of slots pointing to it, and its trace is kept exactly while that is positive |
| QueueScoring.WinnersAreKept | AFL-Fuzz/afl-fuzz.c:1587-1589 | A winner's compact trace exists, so the cull never reads a freed one |
| QueueScoring.RescoringIsOptimal | AFL-Fuzz/afl-fuzz.c:1498-1543 | After scoring, every slot that a scored entry hits has a winner that is no more expensive than the entry |
| QueueScoring.ScoringDecides | AFL-Fuzz/afl-fuzz.c:1502-1519 | Who holds each slot after a scoring, from the products of speed and size alone, and from their remainders in 64 bits where they overflow |
| QueueScoring.OptimalMeansCheapest | AFL-Fuzz/afl-fuzz.c:1502-1519 | Optimality in the entries' own numbers: the winner's speed times size is at most that of any scored entry that hits the slot |
| QueueScoring.SlotsOfCounts | AFL-Fuzz/afl-fuzz.c:1523-1533 | The reference count is the number of slots that point to the entry |
| QueueScoring.Scorer.FinishTrim | AFL-Fuzz/afl-fuzz.c:5140-5160 | A trim shrinks the entry and scores it again; if the old product fits 64 bits, optimality over all entries and bytes survives, in the entries' own numbers |
| QueueScoring.Scorer.Calibrate | AFL-Fuzz/afl-fuzz.c:3052-3063 | A new speed and a new scoring; optimality survives if the entry was not scored before or its product does not rise |
| QueueScoring.MinimizeBits | AFL-Fuzz/afl-fuzz.c:1474-1488 | The compact trace has exactly the bits of the bytes hit |
| QueueScoring.Scorer.CullQueue | AFL-Fuzz/afl-fuzz.c:1551-1605 | Lazy culling is eager culling: after every call, skipped or not, flags, `queued_favored` and `pending_favored` are those of a full recomputation, which is the greedy choice over the hit sets |
| QueueScoring.RecomputationCulls | AFL-Fuzz/afl-fuzz.c:1563-1604 | What a recomputation leaves: flags exactly on the picked entries, redundancy marks exactly on the others, both counters |
| QueueScoring.RecomputationIsGreedy | AFL-Fuzz/afl-fuzz.c:1579-1596 | The favored entries are the winners of a set of slots in which a won slot is if and only if no lower slot of the set has a winner that hits it; the counters are the size of that set and of its unfuzzed part |
| QueueScoring.FaithfulAgrees | AFL-Fuzz/afl-fuzz.c:1551-1560 | The state kept between two culls is what a recomputation would give, as long as no score changed |
| QueueScoring.PicksCover | AFL-Fuzz/afl-fuzz.c:1579-1596 | The picked entries' traces cover every slot that has a winner |
| QueueScoring.PicksAreFresh | AFL-Fuzz/afl-fuzz.c:1579-1596 | Each pick covers a byte that no earlier pick covered |
| QueueScoring.FavoredCoverAll | AFL-Fuzz/afl-fuzz.c:1563-1596 | In every faithful state after a cull the favored entries cover all won slots |
| QueueScoring.ChoiceHasNoRepeats | AFL-Fuzz/afl-fuzz.c:1580-1592 | No entry is picked twice, so `queued_favored` is the exact number of favored entries |
| QueueScoring.Scorer.AddToQueue | AFL-Fuzz/afl-fuzz.c:923-960 | A new entry keeps all counters, the laziness and the optimality |
| QueueScoring.Scorer.FinishFuzz | AFL-Fuzz/afl-fuzz.c:7512-7526 | The decrements at the end of `fuzz_one` keep the counters what a recomputation would give |
| QueueScoring.FuzzingMovesOne | AFL-Fuzz/afl-fuzz.c:7519-7525 | Marking an entry fuzzed takes exactly one from the unfuzzed favored ones if it was favored |
| QueueScoring.ScoringKeeps | AFL-Fuzz/afl-fuzz.c:1498-1543 | Any scoring with the entry's own hit set keeps state and recomputation in agreement |
| QueueScoring.HoldsNoOtherMeans | AFL-Fuzz/afl-fuzz.c:1523-1539 | The trace of the entry being scored is built anew exactly at the first slot it takes, and only if it holds no other slot; else it keeps the one it had |
| UnstableTargets.TimesPicked | AFL-Fuzz/afl-fuzz.c:1579-1596 | For every table of winners and all traces: an entry is counted once for each pick that its trace does not cover, and once more if some pick of it is covered |
| UnstableTargets.CountIsExact | AFL-Fuzz/afl-fuzz.c:1591-1592 | `queued_favored` is the number of favored entries if and only if every entry has at most one pick of these two kinds |
| UnstableTargets.ScoreTwiceAndCull | AFL-Fuzz/afl-fuzz.c:1498-1605 | A new entry scored on one hit set, then on another, then culled, through the operations themselves: how often it is counted, and that this is once if and only if the second set has nothing new, or one new slot below all others, or takes over the only slot first so that the trace is replaced |
| UnstableTargets.CountsOnceIff | AFL-Fuzz/afl-fuzz.c:1498-1605 | That condition on the two hit sets, for all sets |
| UnstableTargets.CountedThreeTimes | AFL-Fuzz/afl-fuzz.c:1498-1605 | An entry that hits bytes 0 and 1, then 2 and 3, is one favored entry with a counter of 3 |
| Minimizer.Minimize | AFL-Fuzz/afl-tmin.c:424-650 | Minimization ends; the result is accepted, a simplification of the input, minimal for all block lengths of a pass, and no single byte of it can be deleted; every decision on the way to it, of all stages and passes, is the oracle's answer to the string that the decisions before it leave |
| Minimizer.MinimizedDecides | AFL-Fuzz/afl-tmin.c:436-647 | Stage 0, then passes that change something, then one that does not; each stage of each pass decides block by block, symbol by symbol and character by character |
| Minimizer.EqualBlocksGiveEqualStrings | AFL-Fuzz/afl-tmin.c:520-526 | Deleting a block equal to its predecessor gives the string that deleting the predecessor gives |
| Minimizer.SweepSkips | AFL-Fuzz/afl-tmin.c:515-526 | Across chains of skips, a skipped candidate is one the oracle already rejected, and the sweep without skipping does the same |
| Minimizer.DeleteSweep | AFL-Fuzz/afl-tmin.c:498-548 | A sweep with skipping drops exactly the blocks that a sweep trying every block drops, each as the oracle answers; if nothing went, no aligned block can go |
| Minimizer.NoSingleByteCanGo | AFL-Fuzz/afl-tmin.c:550-555 | A pass down to block length 1 that deletes nothing has tried each single byte |
| Minimizer.DeleteBlocks | AFL-Fuzz/afl-tmin.c:490-557 | All block lengths of a pass, from 1/16 of the input halving down to 1 |
| Minimizer.Normalize | AFL-Fuzz/afl-tmin.c:439-478 | Each aligned block, of a 128th of the input and at least 4, is all '0' in the result if and only if the oracle accepts what became of the input before it, '0' throughout the block and the input after it; else it is the input's; the count bounds the characters changed |
| Minimizer.NormalizedDecides | AFL-Fuzz/afl-tmin.c:455-473 | That decision for every aligned block, without the recursion over blocks |
| Minimizer.DeletedDecides | AFL-Fuzz/afl-tmin.c:498-548 | Each block of a sweep is gone if and only if the oracle accepts what is kept before it and all that comes after it |
| Minimizer.SymbolsAreDecided | AFL-Fuzz/afl-tmin.c:580-604 | Each symbol becomes '0' throughout or stays throughout, as the oracle answers with smaller symbols decided and larger ones untouched |
| Minimizer.CharactersAreDecided | AFL-Fuzz/afl-tmin.c:618-640 | Each character becomes '0' or stays, as the oracle answers with earlier characters decided and later ones untouched |
| Minimizer.MinimizeAlphabet | AFL-Fuzz/afl-tmin.c:564-612 | Each symbol is decided by the oracle; the histogram taken once stays right for the symbols still to come, so the count is exact |
| Minimizer.ZeroingCounts | AFL-Fuzz/afl-tmin.c:589-601 | Replacing one symbol lowers the number of non-'0' characters by its count and changes no other symbol's count |
| Minimizer.MinimizeCharacters | AFL-Fuzz/afl-tmin.c:614-640 | Each character is decided by the oracle, with the scratch buffer kept equal to the input between tests |
| Minimizer.MinimizeSymbols | AFL-Fuzz/afl-tmin.c:564-640 | `alpha_del1 + alpha_del2` of a pass is exactly the drop in non-'0' characters over its stages 2 and 3 |
| Trimmer.TrimCase | AFL-Fuzz/afl-fuzz.c:5043-5166 | Trimming ends; the result keeps the checksum and the first TRIM_MIN_BYTES bytes, is a subsequence of the input, and is left by a chain of sweeps, each of which removes a chunk if and only if the checksum stays without it; on a target that always runs nothing is removed if and only if no chunk of any of these lengths can go on its own; each chunk length costs fewer than TRIM_END_STEPS executions |
| Trimmer.TrimSweep | AFL-Fuzz/afl-fuzz.c:5083-5135 | Fewer than TRIM_END_STEPS executions per chunk length, one that fails to run included, although the limit is recomputed from the shrinking input; the sweep is its reference recursion |
| Trimmer.FewChunks | AFL-Fuzz/afl-fuzz.c:5066-5073 | The chunk length is at least 1/1024 of the input at every turn, whatever was removed before |
| Trimmer.SweptIsRound | AFL-Fuzz/afl-fuzz.c:5083-5135 | One chunk length decides each chunk but the first, the chunks before it being what is left of them, and ends early where the target fails to run |
| Trimmer.TrimIsSweeps | AFL-Fuzz/afl-fuzz.c:5066-5138 | The chunk lengths, a sixteenth of the input and at least 4, halved while they are at least a 1024th of what is left and at least 4, and the sweep for each |
| Trimmer.UntouchedIff | AFL-Fuzz/afl-fuzz.c:5066-5138 | Nothing is removed if and only if, for each chunk length, removing any chunk but the first changes the checksum |
| Sweeps.UnchangedIff | AFL-Fuzz/afl-fuzz.c:5083-5135 | A sweep in which every decision is the test's removes nothing if and only if no block can go on its own; shared with stage 1 of the minimizer |
| PowersOfTwo.NextP2 | AFL-Fuzz/afl-fuzz.c:5030-5038 | The least power of two that is not below the argument |
| Distances.GetLesserVector | Analyzer/src/AnalyUtils.cpp:259-271 | Pointwise minimum with a shift, where a negative element is infinity; for a negative shift too, what each element becomes |
| IcfgSearch.Search | Analyzer/src/Analyzer.cpp:694-791 | The in-function search ends on every graph; each distance is found, realised and, without reachable calls, shortest as IsDistance says; the exit distance is that of the exit node |
| IcfgSearch.SingleCalculateBlock | Analyzer/src/Analyzer.cpp:879-951 | From any node: a distance is non-negative if and only if a reachable node is a target other than a return or calls a function known to lead to one; it is the weight of an actual walk; where no call is reachable it is the number of nodes on a shortest walk |
| IcfgSearch.PassingACall | Analyzer/src/Analyzer.cpp:907-938 | Passing a call adds exactly the distance through a finished callee, one less than nothing if its exit was not met, 50 for an external function and 45 for one without summary |
| IcfgSearch.PushedIsStep | Analyzer/src/Analyzer.cpp:907-948 | What the search queues for an edge is one step away in the weighted graph that walks are made of, whatever the distance so far |
| CallPaths.DistanceMeans | Analyzer/src/Analyzer.cpp:879-951 | Given the summaries of all functions: a target has a distance if and only if some way leads to it, and the distance is what one way costs, where a way goes into the functions it calls, as deep as these call on, and each edge weighs one |
| CallPaths.SummaryMeans | Analyzer/src/Analyzer.cpp:700-796 | The distance stored for passing a function is that of a crossing from its entry to its exit, through functions that finished before it, and is missing if and only if there is none; its distances to targets are those of ways |
| CallPaths.BlockDistances | Analyzer/src/Analyzer.cpp:800-951 | The pass over the call graph and then the search from one node, on any program: its distances are those of ways |
| IcfgSearch.VisitsAreTheReachable | Analyzer/src/Analyzer.cpp:879-951 | It visits exactly the nodes that some walk reaches |
| IcfgSearch.DistanceIsRealised | Analyzer/src/Analyzer.cpp:879-951 | A distance is found if and only if a reachable node is a target or calls a function known to lead to one, and it is then the weight of an actual walk |
| IcfgSearch.DistanceIsShortest | Analyzer/src/Analyzer.cpp:879-951 | Where no call is reachable, no walk to a target has fewer nodes than the distance |
| IcfgSearch.ShortestIsRealised | Analyzer/src/Analyzer.cpp:879-951 | Where no call is reachable, some walk to a target has exactly as many nodes |
| IcfgSearch.IntraIsExitDistance | Analyzer/src/Analyzer.cpp:743-748 | The intra distance is that of the function's exit node, or stays the sentinel when it is not reached |
| IcfgSearch.VisitsGiveLeast | Analyzer/src/Analyzer.cpp:733-739 | The result is the least of all candidates over the visited nodes |
| IcfgSearch.StepsBackIff | Analyzer/src/Analyzer.cpp:921-934 | A call is passed at a smaller distance than it was reached if and only if the exit of a summarised callee was not met: the unsigned UINT32_MAX then acts as -1 |
| IcfgSearch.SearchEndless | Analyzer/src/Analyzer.cpp:694-771 | It is reachable: the search of a function that loops forever leaves the sentinel, and its caller reaches the return one step nearer than the call |
| CallSummaries.CallAnalyzer.CalculateCalls | Analyzer/src/Analyzer.cpp:800-840 | On every call graph the pass ends and leaves exactly one summary for every function in it, each computed once from the earlier ones; root by root, exactly the functions that the roots so far lead to have finished, and a root finishes last unless an earlier one led to it |
| CallSummaries.CallAnalyzer.SubCalculateCalls | Analyzer/src/Analyzer.cpp:655-798 | The recursion ends on cyclic graphs; it adds summaries, never changes one, and shrinks the set of pending functions |
| CallSummaries.HistoryGrows | Analyzer/src/Analyzer.cpp:794-795 | Each summary was computed from exactly the summaries finished before it; a callee without one can only be a caller of the function itself |
| CoverageMap.HasNewBits | AFL-Fuzz/afl-fuzz.c:1147-1194 | The word-wise loop returns 2, 1 or 0 exactly as the byte-wise meaning says, and clears exactly the bits of the trace |
| CoverageMap.CoverageMeaning | AFL-Fuzz/afl-fuzz.c:1147-1194 | After any run of executions, 2 means an edge never hit before, 1 a hit count in a bucket new for its edge, 0 neither |
| CoverageMap.MapIsInitialMinusUnion | AFL-Fuzz/afl-fuzz.c:1189-1189 | After any run of traces the map is the initial map minus the union of all traces, bit by bit |
| CoverageMap.RepeatedTraceIsOld | AFL-Fuzz/afl-fuzz.c:1147-1194 | A trace that already occurred in the run gives 0 |
| CoverageMap.WordIsNew | AFL-Fuzz/afl-fuzz.c:1156-1156 | The test of a 64-bit word with the operators of the machine agrees with the tests of its eight bytes |
| CoverageMap.UnseenMeans | AFL-Fuzz/afl-fuzz.c:1170-1189 | A byte is pristine exactly when no count was ever seen there, a bucket is unseen exactly when no count fell into it |
| CoverageMap.InitCountClass16 | AFL-Fuzz/afl-fuzz.c:1396-1406 | Every entry of the 16-bit table holds the buckets of both bytes of its index |
| CoverageMap.BucketMeans | AFL-Fuzz/afl-fuzz.c:1380-1393 | Two hit counts share a bucket if and only if both are in one of the ranges 1, 2, 3, 4-7, 8-15, 16-31, 32-127, 128-255; buckets are single bits, higher for more hits |
| CoverageMap.ClassifyCounts | AFL-Fuzz/afl-fuzz.c:1410-1433 | Looking bytes up in pairs and skipping zero words classifies every byte on its own |
| Dictionary.Dump | AFL-Fuzz/libtokencap/libtokencap.so.c:106-142 | The printer stays inside its 4 * MAX_AUTO_EXTRA + 1 buffer and writes exactly the quoted and escaped line, or nothing for a length not permitted |
| Dictionary.LoadExtrasFile | AFL-Fuzz/afl-fuzz.c:1806-1947 | The loader with its pointers and in-place writes is the line grammar; decoding never leaves the allocated block |
| Dictionary.BinaryRoundTrip | AFL-Fuzz/libtokencap/libtokencap.so.c:106-142 | Any list of binary tokens of permitted length comes back byte for byte, NUL, quote and backslash included |
| Dictionary.ParseUndoesPrint | AFL-Fuzz/libtokencap/libtokencap.so.c:118-142 | For binary and text tokens together: the file is accepted if and only if no text token starts with a NUL, and then gives the printed bytes of every token in order |
| Dictionary.LeadingNulIsRefused | AFL-Fuzz/afl-fuzz.c:1882-1883 | The exception is real: such a token prints an empty keyword, which is fatal to the loader |
| Dictionary.LineIsParsed | AFL-Fuzz/afl-fuzz.c:1829-1939 | For every label, level mark, separators and white space around a printed token: skipped exactly when the level is above the wanted one, refused exactly when empty or too long, else the token |
| Dictionary.SpelledLineIsParsed | AFL-Fuzz/afl-fuzz.c:1829-1939 | The same for a keyword in any spelling: plain bytes, escaped quotes and backslashes, hex digits of either case |
| Dictionary.DecodeMeans | AFL-Fuzz/afl-fuzz.c:1893-1933 | A keyword is accepted if and only if it is a sequence of such pieces, and then gives the bytes they stand for |
| Dictionary.DecodeRefuses | AFL-Fuzz/afl-fuzz.c:1900-1919 | It is refused, and for which reason, exactly at the first place where it is none |
| Dictionary.CommentIsSkipped | AFL-Fuzz/afl-fuzz.c:1839-1842 | A comment gives nothing, whatever is in it |
| Dictionary.BlankIsSkipped | AFL-Fuzz/afl-fuzz.c:1829-1842 | So does a line of white space |
| Dictionary.UnclosedIsRefused | AFL-Fuzz/afl-fuzz.c:1844-1850 | Any other line that does not end with a quote is fatal |
| Dictionary.NegativeLevelIsSkipped | AFL-Fuzz/afl-fuzz.c:1864-1866 | A negative level is above every wanted one, because `atoi` is compared unsigned |
| Dictionary.LevelIsDecimal | AFL-Fuzz/afl-fuzz.c:1861-1868 | The level of `@n` is n |
| Dictionary.FileIsLines | AFL-Fuzz/afl-fuzz.c:1820-1826 | A file of lines shorter than the buffer is loaded line by line, up to the first that is refused |
| Dictionary.HexDigitsAreListed | AFL-Fuzz/afl-fuzz.c:1896-1920 | Hex digits of either case stand for their position in the loader's list, and the printer uses the same ones |
| Dictionary.EscapedMeans | AFL-Fuzz/libtokencap/libtokencap.so.c:118-133 | The printer escapes exactly what is not printable ASCII, quotes and backslashes, as two small hex digits |
| Dictionary.CharactersAreListed | AFL-Fuzz/afl-fuzz.c:1829-1873 | Which characters are white space, digits, labels and separators |
| Dictionary.BodyIsUndone | AFL-Fuzz/afl-fuzz.c:1893-1933 | Decoding undoes escaping, for all bytes and whatever follows |
| Dictionary.LineEnds | AFL-Fuzz/afl-fuzz.c:1820-1820 | A printed line is read by one call of `fgets` |
| DetStages.WalkStage | AFL-Fuzz/afl-fuzz.c:6157-6733 | The 16- and 32-bit flips and all arith and interest stages: the buffer ends as it began, each run saw the input with exactly one candidate in it, and `stage_cur` ends equal to `stage_max` |
| DetStages.RunIsCandidate | AFL-Fuzz/afl-fuzz.c:6157-6733 | Every run of a stage is a wanted candidate at a place the effector map reaches |
| DetStages.CandidateIsRun | AFL-Fuzz/afl-fuzz.c:6157-6733 | Every wanted candidate at such a place is run |
| StageCandidates.RunsMean | AFL-Fuzz/afl-fuzz.c:6157-6733 | The runs of a stage are exactly the inputs with one word replaced at a place the effector map reaches: by its complement, by a number at most 35 away in either byte order that changes the upper half of the word, or by an interesting number in either byte order; the last two only if the checks do not take them for tried |
| StageCandidates.LooksLikeArithMeans | AFL-Fuzz/afl-fuzz.c:5539-5629 | `could_be_arith` is true if and only if the words are equal or differ only in one aligned byte, 16-bit part or dword that is at most 35 away in either byte order |
| StageCandidates.LooksLikeInterestMeans | AFL-Fuzz/afl-fuzz.c:5637-5708 | `could_be_interest` is true if and only if the word arises by writing an interesting byte anywhere, in a dword a 16-bit number anywhere in either order, or, when asked, the little-endian number of the same width |
| DetStages.TryTurn | AFL-Fuzz/afl-fuzz.c:6337-6409 | Within a turn each candidate overwrites the previous one, so no restoring is needed between them |
| DetStages.Restore | AFL-Fuzz/afl-fuzz.c:6183-6183 | The bytes worked on are put back; a flip is undone by flipping again |
| Redundancy.CouldBeBitflip | AFL-Fuzz/afl-fuzz.c:5503-5534 | True exactly for 1, 2 or 4 adjacent bits anywhere and 8, 16 or 32 from a multiple of 8, or no bits |
| Redundancy.CouldBeArith | AFL-Fuzz/afl-fuzz.c:5539-5629 | True exactly when one byte, one aligned 16-bit part or the dword differs by at most 35, in either byte order, or nothing differs |
| Redundancy.CouldBeInterest | AFL-Fuzz/afl-fuzz.c:5637-5708 | True exactly for the insertions of shorter interesting values, and of the same width when asked |
| FlipStages.WalkBits | AFL-Fuzz/afl-fuzz.c:5905-6052 | The 1-, 2- and 4-bit walks run exactly the flipped inputs and leave the buffer as it was |
| FlipStages.RunTwice | AFL-Fuzz/afl-fuzz.c:6042-6048 | Flipping a run of bits again, in the same order, restores the buffer |
| FlipStages.RunFlipsItsBits | AFL-Fuzz/afl-fuzz.c:5888-5894 | A run of n bits from bit b flips bits b to b + n - 1, the most significant of each byte first, and no others |
| FlipStages.WalkBytes | AFL-Fuzz/afl-fuzz.c:6069-6137 | The effector map marks exactly the first and last block and the blocks of bytes that change the checksum, or everything when it is more than 90 percent full |
| FlipStages.SkippedHadNoEffect | AFL-Fuzz/afl-fuzz.c:6100-6125 | A block the later stages skip has no byte whose flip changed the checksum, the input is not short, and the mode is not dumb |
| FlipMasks.ByteFlipsAreExact | AFL-Fuzz/afl-fuzz.c:5503-5534 | For one byte `could_be_bitflip` accepts exactly the masks of the flip stages |
| FlipMasks.RunIsByteChange | AFL-Fuzz/afl-fuzz.c:5888-5894 | When a run of flipped bits is a given one-byte change, for all positions and lengths, runs across byte boundaries included |
| ByteStages.EveryByteCandidateOnce | AFL-Fuzz/afl-fuzz.c:5900-6576 | At a byte the effector map reaches, every flip pattern, every value at most 35 away and every interesting value is run exactly once over all 8-bit stages, and no other value is |
| ByteStages.NoArithLosesValues | AFL-Fuzz/afl-fuzz.c:6558-6565 | With `no_arith` set an interesting value is tried if and only if it is a flip pattern away or more than 35 away |
| ByteStages.LostValue | AFL-Fuzz/afl-fuzz.c:6558-6565 | Such a value: 16 in place of a byte 21 is interesting, skipped as arithmetic, and in no run |
| WordStages.SkippedWord | AFL-Fuzz/afl-fuzz.c:6352-6397 | A 16-bit candidate that `could_be_bitflip` skips was run by some flip stage, 8- and 16-bit walks included, if and only if it changes one byte only or flips all 16 bits |
| WordStages.SkippedDword | AFL-Fuzz/afl-fuzz.c:6445-6510 | A 32-bit candidate that it skips was run by some flip stage if and only if it changes one byte only, flips two neighbouring bytes whole where the effector map reaches one of the two, or flips all 32 bits |
| WordStages.CarryingWord | AFL-Fuzz/afl-fuzz.c:6337-6409 | A 16-bit arithmetic candidate that carries is in some run up to that stage if and only if it is not taken for a flip, or flips all 16 bits |
| WordStages.StayingWord | AFL-Fuzz/afl-fuzz.c:6345-6348 | One that does not carry is left to the 8-bit stages: it is run if and only if its byte changes by a flip pattern or the effector map reaches that very byte |
| WordStages.LostWord | AFL-Fuzz/afl-fuzz.c:6352-6363 | 32 added to the word 0x02e0, at any position, is skipped as a flip and in no run of the flips, the 8-bit stages and the 16-bit arithmetic |
| WordStages.AcceptedCore | AFL-Fuzz/afl-fuzz.c:5503-5534 | Up to bytes that do not change, the check accepts one-byte patterns, five two-byte ones and all 32 bits, and nothing else |
| TokenOverwrites.OverwriteTokens | AFL-Fuzz/afl-fuzz.c:6745-6797 | The overwrite stage leaves the buffer as the input, each run is the input with one token in it, and the progress counter meets its bound |
| TokenOverwrites.SortedCovers | AFL-Fuzz/afl-fuzz.c:6763-6796 | Because tokens are sorted by length, a token written over earlier ones gives the input with that token alone |
| TokenOverwrites.WritingOver | AFL-Fuzz/afl-fuzz.c:6763-6796 | Without restoring, the second token alone shows if and only if it is at least as long as the first, or the rest of the first equals the input |
| TokenOverwrites.EveryTokenIsTried | AFL-Fuzz/afl-fuzz.c:6869-6901 | The runs are exactly the inputs with one eligible token in them; only the unchanged input may be left out, although the check for redundant tokens looks at the clobbered buffer |
| TokenOverwrites.RunsShowTokens | AFL-Fuzz/afl-fuzz.c:6756-6797 | The runs, the unchanged input apart, are exactly the inputs with a token at a place where it fits, was not left out at random, and covers a byte of a block with an effect |
| AutoExtras.AutoDictionary.MaybeAddAuto | AFL-Fuzz/afl-fuzz.c:2070-2179 | At most 500 tokens, pairwise distinct without case, none rejected by the filters, the first 50 sorted by length and used no less than the rest; the tokens are the old ones with one more use of the first match, one more token, or one in place of the token drawn in the lower half |
| AutoExtras.StepKeeps | AFL-Fuzz/afl-fuzz.c:2125-2178 | Any such step, with any random draw, keeps the list well |
| AutoExtras.StepExchanges | AFL-Fuzz/afl-fuzz.c:2125-2168 | What one call changes, as a multiset: a use is counted under the first spelling, a token is added, or replaces the one drawn |
| AutoExtras.RejectedMeans | AFL-Fuzz/afl-fuzz.c:2082-2123 | What is never added, in bytes: one byte repeated, an interesting number in either byte order, a token of the user's |
| AutoExtras.SameNoCaseMeans | AFL-Fuzz/afl-fuzz.c:2059-2066 | Equal without case means: of the same length, and at each place the same byte or the same letter of the alphabet |
| AutoExtras.TopTokensAreUsable | AFL-Fuzz/afl-fuzz.c:2170-2178 | After any run of calls the tokens used in the deterministic stage are sorted by length and most used |
| AutoExtras.DistinctInAnyOrder | AFL-Fuzz/afl-fuzz.c:2170-2178 | Sorting keeps the tokens distinct |
| AutoExtras.CheckUser | AFL-Fuzz/afl-fuzz.c:2113-2123 | The search that stops at the first longer token finds a match exactly when there is one |
| AutoExtras.MemcmpNoCase | AFL-Fuzz/afl-fuzz.c:2059-2066 | Zero exactly for bytes equal without case |
| AutoExtras.OfferedAgain | AFL-Fuzz/afl-fuzz.c:2128-2139 | A token offered again in other case adds no token |
| Instrumentation.Execute | FGo-LLVM/LLVM-Pass.cpp:483-583 | From the reset memory and any inherited previous location, any sequence of instrumented blocks and the reading back: every edge byte is the number of crossings modulo 256, every record in memory holds the five folds over the distances met as little-endian words, every reading comes from them |
| Instrumentation.NumbersAreFolds | FGo-LLVM/LLVM-Pass.cpp:572-582 | The five numbers of a target are count, sum and minimum over exactly the blocks with a distance to it, modulo 2^64, other targets' numbers untouched |
| Instrumentation.EdgesAreCounted | FGo-LLVM/LLVM-Pass.cpp:498-508 | Edge counters count edges and nothing else |
| Instrumentation.CrossingsCount | FGo-LLVM/LLVM-Pass.cpp:484-508 | The crossings of an edge are the places of the trace where half the location before, or the inherited one, leads over it |
| Instrumentation.SumAppends | FGo-LLVM/LLVM-Pass.cpp:526-582 | The folds grow by one distance at a time |
| Instrumentation.FieldsAreApart | FGo-LLVM/LLVM-Pass.cpp:404-414 | No number overlaps another, of this or any target, nor an edge counter, and all lie inside the shared memory |
| Instrumentation.RunBlock | FGo-LLVM/LLVM-Pass.cpp:483-583 | The inserted code of one block, byte by byte in memory |
| Instrumentation.Edge | FGo-LLVM/LLVM-Pass.cpp:484-496 | The exclusive or of two 32-bit locations stays in the map because both lie in it |
| Instrumentation.EdgesTellApart | FGo-LLVM/LLVM-Pass.cpp:484-496 | Bit by bit the index is where the two locations differ, so two different previous locations give one block different indices, and one previous location gives different blocks different indices |
| Instrumentation.EdgeFromZero | FGo-LLVM/LLVM-Pass.cpp:484-496 | Only because: from location 0 the index is the location itself |
| Instrumentation.SignedMinimum | FGo-LLVM/LLVM-Pass.cpp:550-570 | The signed comparison gives the minimum, starting from INT32_MAX |
| Instrumentation.Reset | AFL-Fuzz/afl-fuzz.c:2596-2603 | All counters zero and all minima INT32_MAX |
| Instrumentation.ReadBack | AFL-Fuzz/afl-fuzz.c:1082-1098 | Averages as sum over count, the default when the count is zero, the minimum cut to 32 bits |
| Instrumentation.ReadingsAreTrue | AFL-Fuzz/afl-fuzz.c:1082-1098 | Short of 2^64 the fuzzer reads the true averages and the true minimum |
| Instrumentation.AverageDividesSum | AFL-Fuzz/afl-fuzz.c:1089-1097 | The average times the number of distances is their sum; without distances it is the default |

## Left out

- Files, terminals, `/proc`, environment, JSON and the SVF and LLVM interfaces: I/O and foreign calls; graphs, locations and targets are inputs.
- `hash32`: a checksum is whatever the target function returns; nothing is claimed about collisions.
- Floating point: scores, annealing and quantiles are not modelled; averages in Instrumentation are exact reals.
- ForkServer: pipe failures, kills from outside, `stop_soon`, a timeout of zero, and the modes without a fork server are not part of the protocol.
- QueueScoring: heap pointers are positions in the queue, which is a sequence of values; aliasing is expressed by several slots holding the same position.
- QueueScoring.Scorer.CullQueue: the promise about laziness assumes that an entry hits the same bytes at every scoring; UnstableTargets shows why and what happens otherwise.
- QueueScoring.Scorer.FinishTrim: optimality is claimed when the factor before trimming fits 64 bits, because a wrapped factor can rise when the length falls.
- Minimizer.Minimize: does not claim that no single character can become '0' unless there was only one pass, because the last pass may end after block deletion.
- Minimizer and Trimmer: the target is deterministic, and files are shorter than 2^31 bytes.
- IcfgSearch.DistanceIsShortest: is not claimed through calls, because a queue in order of arrival with weighted steps does not find shortest paths.
- IcfgSearch: distances are unbounded integers; only the sentinel UINT32_MAX is modelled with its wrap-around. Errors for nodes without a location or a second global node are left out.
- CallSummaries: the order in which the remaining functions are taken is arbitrary, as it is for a hash set.
- `threadCalculateBlocks` and its compression of chains, the thread pool, and `calculateBlocksFinalDistInICFG` with `subCalculateFinalBlocks`: the compressed chains are a separate computation with no promise to agree with the search modelled here, and the last repeats that search backwards through weighted calls.
- CoverageMap: `bitmap_changed` and 32-bit builds are left out.
- Dictionary.LoadExtrasFile: the running minimum and maximum of lengths, dictionary directories and numbers too large for `atoi` are left out.
- DetStages: the stages of one width are one loop with the source's constants and conditions as functions of the stage; leaving a stage early (`abandon_entry`), statistics and the collection of tokens during the single-bit walk are left out.
- WordStages: which candidates are run is characterised for the flips and the 16-bit arithmetic; the 16- and 32-bit interesting values and the 32-bit arithmetic have their runs and checks stated exactly, but not which of the values they skip an earlier stage ran.
- TokenOverwrites: the stage that inserts user tokens between bytes is left out; only overwriting stages restore the buffer in the way modelled here.
- AutoExtras.Sort: `qsort` is any sort; its comparison by use is taken without the overflow of a 32-bit difference.
- AutoExtras: the dictionary directory, loading and saving of automatic tokens are left out.
- Instrumentation: persistent mode, the lookup of distances by file and line, and 32-bit targets are left out.
- Havoc, splicing, `calculate_score`, the insertion stages and afl-cmin are not part of this model.
