# auto-refirst: a verified model of its core algorithms

`auto-refirst` triages unknown files and directories: it analyses files, unpacks their children, keeps a bounded set of
full reports, searches bytes, and recognises container and descriptor formats. This project models the parts of it that
hold real algorithms and state, in Dafny, and proves what they promise. `dafny verify dfyconfig.toml` checks everything.

Each component is modelled in the form its C++ source has: objects with mutable fields are classes whose methods are
proved against functions of the old state, loops are loops with invariants, and pure helpers are functions. Fixed-width
integers are written out in `Common.dfy` (`u8`, `u32`, `u64`, saturating addition, wrapping counters). What the code
asks of the outside world (analysis of a file, the file system, the runtime, instruction decoding) is a parameter.

| module | what it holds |
|---|---|
| `ReportRank`, `ReportSelection`, `ReportSpool`, `ReportOrder` | the byte-budgeted report cache of a directory run, its streaming staging, worst-first eviction, the final choice as the lexicographically greatest feasible set, and the sorted report |
| `ArtifactGraph`, `ChildAnalysis` | the automatic work-list over HIGH artifacts: accounting, limits, de-duplication, closure, breadth-first order |
| `RecursiveGraph`, `RecursiveRuns` | the recursive work-list of `--recursive`; closure, de-duplication and limits of whole runs |
| `BoundedChildren`, `BoundedRuns`, `DirectoryBudget` | child analysis under the shared allowance of a directory run, what its duplicates mean, and the two phases of the allowance |
| `RuntimeSchedule` | the prioritised runtime scheduler |
| `FactLists`, `FactPrograms`, `ImplicitMerge`, `MergeMeaning`, `MergeStates` | the copy-on-write fact list, whole programs over many such lists, the merge that renumbers dependency edges, what its state and counters say, and when merges nest |
| `ByteSearch` | Boyer-Moore-Horspool with folding and zero interleaving, the greedy hit loop, and the second searcher |
| `Utf8`, `DescriptorText`, `DescriptorNames`, `ResPaths`, `Descriptor`, `DescriptorPrinter`, `DescriptorRoundTrip`, `DescriptorGrammar` | strict UTF-8 and the GDExtension descriptor parser, with a printer for the inverse, and the accepted descriptors told from their lines alone |
| `CallReach` | the depth-limited breadth-first search over direct calls |
| `Leb128`, `ExprScan`, `OperationTable`, `LineProgram`, `LineRecords` | DWARF LEB128 groups, the expression scanner with its operation table in bytes, and the line-program walk with its records in bytes |
| `Bits`, `ByteNumbers`, `FatMachO` | the bitwise or, numbers in bytes, and the universal Mach-O table check |
| `Fips180`, `HashWords`, `HashConstants`, `Sha` | the hash standard, its words and rotations as numbers, its constants as roots of primes, and the streaming SHA-1 and SHA-256 |

## What the proofs found

- `safe_res_path` and `normalize_res_path`: normalising is not idempotent. A path without the `res://` prefix that is
  longer than 2^20 - 6 bytes normalises once and is then too long. `ResPaths.NormalizedAgain` gives the exact condition,
  `ResPaths.LongPathNormalizesOnce` an input.
- `uleb` guards against a shift of 64 or more, but ten groups of seven bits never reach it, so a tenth byte above 1 is
  silently truncated. `Leb128.ExactExactlyWhenItFits` says exactly when the value is right, `Leb128.TenthByteIsLost`
  gives a group for 2^64 that reads as 0.
- `--recursive` promises that no content is analysed twice. It compares an extracted file with the files analysed before
  and the children admitted before, not with inputs that still wait, and inputs are never compared with each other. So
  the promise holds exactly when the inputs differ and no admitted child is a copy of a waiting input
  (`RecursiveRuns.AnalysedOnceExactlyWhen`), hence always for one input. It fails for two equal inputs
  (`RecursiveRuns.EqualInputsAreBothAnalysed`) and for an input that holds a copy of a later one
  (`RecursiveRuns.WaitingInputIsAnalysedTwice`).
- The byte limit of `--recursive` bounds the admitted bytes for every limit below 2^64 - 1. At that largest limit the
  saturating sum is never above it, so nothing is refused and the sum can exceed it (`RecursiveRuns.LargestLimitNeverCuts`,
  `RecursiveRuns.LargestLimitIsExceeded`).
- The bounded child analysis of a directory run takes a digest as known when the child is admitted, before it is known
  whether its report fits, and a later call takes the digests of all recorded edges as known. A duplicate can therefore
  name content that was never analysed, in one call (`BoundedRuns.UnwrittenReportIsNamed`) or over both phases
  (`BoundedRuns.RefusedChildIsNamed`). `BoundedRuns.DuplicateNamesAnalysedExactlyWhen` gives the exact condition: the
  digest is the root's or the first edge with it was analysed.
- Merging merged groups keeps facts, indexes and dependencies, not always the state: a group that was cut short and has
  no facts leaves no trace, limit flag included, when it is merged first and then again
  (`MergeStates.CutShortGroupIsForgotten`). `MergeStates.StateFlattensExactlyWhen` and
  `MergeStates.LimitFlattensExactlyWhen` say exactly when state and flag agree.
- The spool counts a report that is too large before it removes its file. When the removal is refused, the counter of known
  bytes includes a report that no record holds; the spool is broken from then on (`ReportSpool.DirectoryReportSpool.Commit`).
- The SHA streams keep the length modulo 2^64; the digest is the standard's as long as the message is below 2^61 bytes
  (`Fips180.LengthFieldIsExact`), and the proofs hold beyond that for the wrapped length field.

## Model

| member | source | states |
|---|---|---|
| ByteSearch.NaiveIsLeast | src/core/search.cpp:50-61 | the naive reference search returns the least match at or after the start, and None exactly when there is none |
| ByteSearch.FoldedEqual | src/core/search.cpp:35 | folding tells apart everything but the two cases of an ASCII letter |
| ByteSearch.MatchIsByLetter | src/core/search.cpp:35-63 | a match is byte by byte equality or, ignoring case, equality up to the case of letters |
| ByteSearch.InterleavedPattern | src/core/search.cpp:43-45 | the UTF-16 pattern holds the needle bytes at even places and zeros at odd ones |
| ByteSearch.BuildPattern | src/core/search.cpp:43-45 | the constructor's loop builds that pattern |
| ByteSearch.BuildSkip | src/core/search.cpp:46-47 | no shift of the table jumps over a possible match |
| ByteSearch.FastPattern.constructor | src/core/search.cpp:43-48 | a new pattern is valid for its needle, folding mode and encoding |
| ByteSearch.FastPattern.Find | src/core/search.cpp:50-61 | the skipping search equals the naive one for every haystack and start, and None for an empty pattern |
| ByteSearch.FastPattern.Hits | src/core/search.cpp:96-98 | the hit loop collects the greedy chain of matches |
| ByteSearch.GreedyTail | src/core/search.cpp:96-98 | behind its first hit a greedy chain is again a greedy chain |
| ByteSearch.HitsDoNotOverlap | src/core/search.cpp:96-98 | the reported hits are pairwise non-overlapping matches |
| ByteSearch.HitsAreMaximal | src/core/search.cpp:96-98 | no set of non-overlapping matches is larger than the reported one |
| ByteSearch.FindExact | include/prts/byte_search.hpp:10-27 | the second searcher equals the naive search, with its own rule for the empty needle |
| ByteSearch.SearchersAgree | include/prts/byte_search.hpp:10-37 | on every non-empty needle without folding the two searchers agree |
| ByteSearch.SearchFile | src/core/search.cpp:78-100 | both encodings of one file give greedy chains, and the match count is their sum |
| ReportRank.BetterIsStrictOrder | include/prts/directory_report_spool.hpp:74-78 | the ranking is a strict order, total on distinct keys |
| ReportRank.BetterIsAhead | include/prts/directory_report_spool.hpp:74-78 | a report ranks better exactly with more priority, or then fewer bytes, or then a key that is a proper prefix or smaller at the first differing byte |
| ReportRank.NotBetterTransitive | include/prts/directory_report_spool.hpp:74-78 | not ranking better is transitive too, so the order is a strict weak one, as a sort needs |
| ReportRank.SumUpdate | include/prts/directory_report_spool.hpp:88-91 | replacing a record moves each byte sum by the difference of the two records |
| ReportSelection.LexGreatestUnique | include/prts/directory_report_spool.hpp:167-185 | there is at most one lexicographically greatest feasible set |
| ReportSelection.ChoiceIgnoresOnlineState | include/prts/directory_report_spool.hpp:167-185 | the final choice does not depend on which reports were selected before |
| ReportSelection.GreedyWinsFirstDifference | include/prts/directory_report_spool.hpp:175-182 | at the best-ranked difference with any fitting set, the greedy choice holds the report |
| ReportSelection.GreedyIsLexGreatest | include/prts/directory_report_spool.hpp:175-182 | greedy selection in ranking order is the lexicographically greatest feasible set |
| ReportSelection.GreatestIsByRoom | include/prts/directory_report_spool.hpp:175-182 | in the greatest set a cached report is selected exactly when it and the selected reports before it, by priority, bytes and key, fit 16 MiB together |
| ReportSpool.CappedSpoolStreambuf.Write | include/prts/directory_report_spool.hpp:40-51 | for any chunking the file holds the received bytes up to the cap, only worst-ranked unselected reports are evicted, and a faithful disk never fails it |
| ReportSpool.CappedSpoolStreambuf.constructor | include/prts/directory_report_spool.hpp:58 | a fresh stream over an empty staged file is consistent |
| ReportSpool.DirectoryReportSpool.constructor | include/prts/directory_report_spool.hpp:64-72 | the empty cache is consistent |
| ReportSpool.DirectoryReportSpool.DeferRecord | include/prts/directory_report_spool.hpp:88-91 | one selection is withdrawn and the selected sum follows |
| ReportSpool.DirectoryReportSpool.WorstSelected | include/prts/directory_report_spool.hpp:94-95 | the scan finds a selected record that no selected one ranks below |
| ReportSpool.DirectoryReportSpool.WorstEvictable | include/prts/directory_report_spool.hpp:105-109 | the scan finds an unselected cached record that no such record ranks below |
| ReportSpool.DirectoryReportSpool.DropPayload | include/prts/directory_report_spool.hpp:111-114 | dropping one payload keeps every account exact |
| ReportSpool.DirectoryReportSpool.EnforceInlineBudget | include/prts/directory_report_spool.hpp:92-100 | the internal error is unreachable; worst reports are deferred, none needlessly, until the selected bytes fit |
| ReportSpool.DirectoryReportSpool.ReserveStaging | include/prts/directory_report_spool.hpp:101-118 | never fails on a faithful disk for a report within its cap; evicts worst first, never a selected report, never needlessly; resident plus staged stay within the hard limit |
| ReportSpool.DirectoryReportSpool.Add | include/prts/directory_report_spool.hpp:140-166 | every run keeps the spool invariant; on a faithful disk it succeeds, and what it drops or defers is worst-ranked; a refused removal leaves the spool broken with the report already counted |
| ReportSpool.DirectoryReportSpool.Commit | include/prts/directory_report_spool.hpp:157-165 | the known bytes grow first; a report within its cap enters the records, a larger one is deferred for its size with its file removed, or the removal is refused and the spool is broken |
| ReportSpool.DirectoryReportSpool.FinalizeSelection | include/prts/directory_report_spool.hpp:167-185 | with all priorities known the new selection is lexicographically greatest: a cached report is left out exactly when it and the selected reports before it, by priority, bytes and key, exceed 16 MiB; reselections are counted, and a faithful disk passes the audit |
| ReportSpool.DirectoryReportSpool.Reselect | include/prts/directory_report_spool.hpp:170-182 | re-pricing and greedy choice keep the invariant and give that selection |
| ReportSpool.DirectoryReportSpool.SelectGreedily | include/prts/directory_report_spool.hpp:176-182 | the loop settles each cached record by the greedy rule |
| ReportSpool.DirectoryReportSpool.Validate | include/prts/directory_report_spool.hpp:186-213 | the audit passes exactly when every account matches the records and the directory |
| ReportSpool.DirectoryReportSpool.ValidPassesAudit | include/prts/directory_report_spool.hpp:186-213 | the spool invariant makes the accounting error of the audit unreachable |
| ReportSpool.EvictsCompose | include/prts/directory_report_spool.hpp:101-118 | evictions of several reservations together are worst first |
| ReportSpool.SettledIsGreedy | include/prts/directory_report_spool.hpp:170-182 | settled records carry exactly the greedy set, within 16 MiB |
| ReportSpool.SpoolDirectory | src/main.cpp:2221-2303 | over a whole directory run on a faithful disk nothing fails, every report is recorded whole, and the final choice is the greatest, report by report |
| ReportOrder.SortSorts | src/main.cpp:2306 | the sort orders the records by their place in the plan and loses none |
| ReportOrder.SumsIgnoreOrder | src/main.cpp:2306-2309 | byte sums and cached counts do not depend on the order of the records |
| ReportOrder.AuditIgnoresOrder | src/main.cpp:2306-2309 | records that pass the audit pass it in every order |
| ReportOrder.ReportDirectory | src/main.cpp:2221-2309 | over a whole directory run on a faithful disk nothing fails, the sort and the second audit included; the sorted records are those of the greatest choice |
| ArtifactGraph.RecordedKeepsAccounts | src/main.cpp:1380-1401 | every recorded edge keeps all graph counters equal to sums over the edges |
| ArtifactGraph.CandidatesAreHigh | src/main.cpp:1350-1354 | a candidate is exactly a HIGH artifact with a path, not confirmed at run time, of none of the two excluded roles and two excluded kinds |
| ArtifactGraph.LimitsAreKept | src/main.cpp:1387-1390 | nodes, admitted bytes and admitted depth never exceed the limits |
| ArtifactGraph.KnownDigests | src/main.cpp:1375-1390 | the digest map holds exactly the root's digest and those of admitted edges |
| ArtifactGraph.AdmittedOnce | src/main.cpp:1386-1390 | no digest is admitted twice, and never the root's |
| ArtifactGraph.FirstPathIsAdmitted | src/main.cpp:1375-1390 | the path kept for a digest is the root or the admitted child with it |
| ArtifactGraph.EdgesAreConserved | src/main.cpp:1378-1401 | edges are analysed ones, write failures, duplicates, limit skips and unsafe skips, and nothing else |
| ChildAnalysis.Visit | src/main.cpp:1378-1401 | one queue entry gives one justified edge, the updated digest map and exactly its candidate children |
| ChildAnalysis.AnalyzeAdmitted | src/main.cpp:1390-1401 | an admitted child ends analysed, unsafe or with a write failure, and the counters follow |
| ChildAnalysis.AnalyzeStaticArtifactChildren | src/main.cpp:1370-1403 | the loop ends with every queued entry explored in order; it runs exactly when the root has a HIGH artifact to analyse; every such artifact of the root and of every analysed child has an edge, and every edge comes from one |
| ChildAnalysis.RunIsClosed | src/main.cpp:1372-1400 | so it is on every explored run: the HIGH artifacts of the root and of the analysed children are exactly those with edges |
| ChildAnalysis.ItemOrigin | src/main.cpp:1372-1400 | every queue entry is a root candidate or was found by an earlier visit |
| ChildAnalysis.ParentsAreAnalysed | src/main.cpp:1378-1400 | the parent of an edge is the root or a child analysed earlier, one level above |
| ChildAnalysis.RootCandidatesHaveEdges | src/main.cpp:1372 | every candidate of the root has an edge |
| ChildAnalysis.ChildCandidatesHaveEdges | src/main.cpp:1400 | every candidate of an analysed child has a later edge |
| ChildAnalysis.UntruncatedIsClosed | src/main.cpp:1377-1402 | if nothing was truncated, every edge's digest is the root's or was analysed exactly once |
| ChildAnalysis.AnalysedOnce | src/main.cpp:1386-1390 | an admitted digest belongs to one admitted edge only |
| ChildAnalysis.BreadthFirst | src/main.cpp:1377-1400 | the queue is sorted by depth and spans at most two levels |
| ChildAnalysis.EdgesAreBreadthFirst | src/main.cpp:1377-1401 | edges are recorded level by level |
| RecursiveGraph.OfferChild | src/main.cpp:2400-2415 | an extracted child gets the state of the first rule that applies, a duplicate the first path with its digest, and every counter stays the count over the edges |
| RecursiveGraph.AnalyzeNode | src/main.cpp:2390-2416 | one node: visited plus queued are exactly inputs plus admitted edges, every extracted child gets one edge by the rules, and notes, accounts and limits are kept |
| RecursiveGraph.ExploreRecursively | src/main.cpp:2384-2417 | the loop ends; exactly the inputs within the node limit and the admitted children are reported, in order, each edge with its parent, digest and state by the rules; admitted bytes are the sum over admitted children; the graph is truncated exactly when an input, an extractor note, a cut-off container or a child was left out, and skipped limits count these |
| RecursiveGraph.LeftOutIsCounted | src/main.cpp:2385-2415 | the counter is the sum of inputs beyond the node limit, extractor notes, extractable nodes at the depth limit, and limit skips, modulo 2^32 |
| RecursiveGraph.Offerer | src/main.cpp:2399-2415 | every edge belongs to one report, lists one of its children, and has the state the rules give from what was known then |
| RecursiveGraph.EveryChildHasAnEdge | src/main.cpp:2399-2415 | there are as many edges as extracted children |
| RecursiveGraph.AdmissionsAreUnique | src/main.cpp:2411-2414 | no digest is admitted twice, and admitted children are within the depth limit |
| RecursiveRuns.ParentsAreReported | src/main.cpp:2390-2400 | the parent of an edge is a reported node one level higher that extracted the child |
| RecursiveRuns.ChildrenHaveEdges | src/main.cpp:2398-2415 | every extracted child of every reported node has its own edge, in order |
| RecursiveRuns.DuplicatesAreNamed | src/main.cpp:2411 | a duplicate names a node analysed or a child admitted before it, with the same digest |
| RecursiveRuns.UntruncatedRunIsClosed | src/main.cpp:2386-2417 | if nothing was left out, every readable extracted child has the digest of a reported node |
| RecursiveRuns.AdmittedIsNew | src/main.cpp:2397-2414 | an admitted digest differs from that of every node analysed before |
| RecursiveRuns.AnalysedOnceExactlyWhen | src/main.cpp:2387-2421 | no content is analysed twice exactly when the inputs differ and no admitted child is a copy of an input that still waits |
| RecursiveRuns.OneInputIsAnalysedOnce | src/main.cpp:2387-2421 | with one input no content is analysed twice, so cycles of extraction end |
| RecursiveRuns.EqualInputsAreBothAnalysed | src/main.cpp:2387-2397 | two equal inputs are both analysed |
| RecursiveRuns.WaitingInputIsAnalysedTwice | src/main.cpp:2397-2414 | a child that is a copy of a waiting input is admitted, and its content is analysed twice |
| RecursiveRuns.LargestLimitNeverCuts | src/main.cpp:2409-2410 | at the largest byte limit nothing is refused for its size |
| RecursiveRuns.LargestLimitIsExceeded | src/main.cpp:2409-2414 | so with that limit the admitted bytes can exceed it |
| RecursiveGraph.RecursiveEdgesAreConserved | src/main.cpp:2403-2415 | edges are admissions, duplicates, unsafe skips and limit skips, and nothing else |
| BoundedChildren.WriteChildReport | src/main.cpp:1433-1445 | an admitted child is analysed without output and its report written exactly when every step succeeds and it fits; only then is it charged |
| BoundedChildren.BoundedChild | src/main.cpp:1419-1446 | one candidate changes graph, known digests and allowance as the specified step does; the allowance is never exceeded |
| BoundedChildren.AnalyzeSelectedBounded | src/main.cpp:1412-1447 | a call is the specified run over the candidates, every HIGH artifact selected has an edge and every edge comes from one, and the allowance grows by exactly the reports written |
| BoundedRuns.AnalysedExactlyWhen | src/main.cpp:1419-1445 | a candidate is analysed exactly when it can be read, its digest is new, and depth, nodes, bytes, allowance and file system all permit; it is reported exactly when its report is written too |
| BoundedRuns.SkipsByReason | src/main.cpp:1428-1440 | limit skips are those for depth, bytes, nodes, the allowance of the directory, and unexpected output |
| BoundedRuns.RunIsOrderly | src/main.cpp:1416-1446 | every duplicate names the root or the first edge with its digest, and only first edges are analysed, over any number of calls |
| BoundedRuns.DuplicateNamesAnalysedExactlyWhen | src/main.cpp:1427 | a duplicate names analysed content exactly when its digest is the root's or the first edge with it was analysed |
| BoundedRuns.CallDuplicatesExactlyWhen | src/main.cpp:1412-1446 | so it is for every duplicate of a call and of the calls before it |
| BoundedRuns.UnwrittenReportIsNamed | src/main.cpp:1427-1441 | in one call, a child whose report does not fit is named as the original of its copy |
| BoundedRuns.RefusedChildIsNamed | src/main.cpp:1418-1431 | a child refused in the first phase is named as the original of its copy in the second |
| BoundedRuns.KnownBeforeIsRecorded | src/main.cpp:1416-1418 | a digest counts as known exactly when the root or any recorded edge has it |
| BoundedRuns.UntruncatedCallIsClosed | src/main.cpp:1416-1446 | if nothing was left out, every edge's digest is the root's or was analysed exactly once |
| BoundedRuns.RecordKeepsAccounts | src/main.cpp:1423-1446 | every recorded edge keeps the counters equal to counts over the edges, and the graph truncated exactly when some edge is incomplete |
| BoundedRuns.RunKeepsAccounts | src/main.cpp:1412-1446 | a call keeps these accounts and the node and byte limits, and adds one edge for each candidate, in order |
| BoundedRuns.AdmissionsAreCounted | src/main.cpp:1428-1432 | nodes and admitted bytes grow by exactly the children that entered the graph, every analysed one among them |
| DirectoryBudget.MaterializeCandidate | src/main.cpp:2223-2263 | the fate of a candidate and what it keeps follow from what it extracted and what is left; phase one charges exactly what it keeps |
| DirectoryBudget.CandidatePhase | src/main.cpp:2222-2268 | every candidate is settled with what those before it left of 56 MiB and 384 files; the totals are the sum over candidates |
| DirectoryBudget.MaterializeTarget | src/main.cpp:2058-2101 | the internal check fires exactly when the extractor overdraws; otherwise the target adds its decisive output, then its child reports within 64 MiB and 512 files |
| DirectoryBudget.HonestNeverOverdraws | src/main.cpp:2058-2092 | an extractor that keeps to its arguments never fires the internal check |
| DirectoryBudget.RelationshipPhase | src/main.cpp:2034-2110 | the first eight targets are taken one after the other, each changing only its own candidate by what it adds; the totals are still the sum over candidates |
| DirectoryBudget.DirectoryRun | src/main.cpp:2034-2272 | from an empty ledger both phases settle every candidate and take every target as specified, stay within 64 MiB and 512 files, and the totals are the sums over the candidates |
| DirectoryBudget.TotalsUpdate | src/main.cpp:2101 | changing one candidate's output moves the totals by the difference |
| RuntimeSchedule.ExecuteDirectoryRuntime | src/main.cpp:2180-2200 | the loop produces a schedule that follows the policy, and granted time never exceeds the budget |
| RuntimeSchedule.NoPriorityInversion | src/main.cpp:2183-2193 | if a candidate runs, every earlier eligible candidate ran |
| RuntimeSchedule.ConservativePolicy | src/main.cpp:2190-2191 | without run-all at most the target limit runs and never Tier 3 |
| RuntimeSchedule.PassedOverForGood | src/main.cpp:2191-2192 | an eligible candidate is passed over only for lack of slots or time, and then nothing later runs |
| FactLists.FactList.constructor | include/prts/implicit_exec.hpp:78 | a new list is empty and owns nothing |
| FactLists.FactList.Copy | include/prts/implicit_exec.hpp:79 | a copy shares storage and shows the same entries |
| FactLists.FactList.AssignFrom | include/prts/implicit_exec.hpp:81 | so does an assignment |
| FactLists.FactList.Size | include/prts/implicit_exec.hpp:84-87 | the size is the number of entries in either form |
| FactLists.FactList.RefAt | include/prts/implicit_exec.hpp:148-154 | the segment scan finds the fact of the entry; the range error is unreachable |
| FactLists.FactList.IndexAt | include/prts/implicit_exec.hpp:106-108 | the index is the entry's, global in a view and local in an owned list |
| FactLists.FactList.DependencyAt | include/prts/implicit_exec.hpp:109-111 | the dependency is the entry's |
| FactLists.FactList.Materialize | include/prts/implicit_exec.hpp:157-165 | materialising a view keeps every entry |
| FactLists.FactList.EnsureOwnedForWrite | include/prts/implicit_exec.hpp:156-172 | afterwards the list owns storage no other list reaches, with the same entries; it keeps its storage exactly when no other list reached it |
| FactLists.FactList.PushBack | include/prts/implicit_exec.hpp:97-100 | one entry is added, and no other list changes |
| FactLists.FactList.AppendSharedView | include/prts/implicit_exec.hpp:116-131 | the source's entries are added with new indexes and the given dependencies, or nothing changes and the error is reported |
| FactLists.FactList.AppendSegments | include/prts/implicit_exec.hpp:120-129 | joined segments show the source's facts behind the old ones |
| FactPrograms.RunOp | include/prts/implicit_exec.hpp:97-172 | one operation on many lists keeps each list equal to its own sequence |
| FactPrograms.Run | include/prts/implicit_exec.hpp:49-178 | over any sequence of creations, copies, assignments, drops, pushes and view appends, each list equals the plain sequence a reference interpreter gives it |
| ImplicitMerge.MergedIsNumbered | src/core/implicit_exec.cpp:38-57 | merged facts are numbered in order, and every edge is -1 or points into the merged list |
| ImplicitMerge.EdgesStayInTheirPlane | src/core/implicit_exec.cpp:38-53 | an edge points into its own plane's block at the first fact with that local index, and is -1 exactly when there was no edge or no such fact |
| ImplicitMerge.PlaneIsBlock | src/core/implicit_exec.cpp:26-59 | merged facts are the in-order concatenation of the present planes |
| ImplicitMerge.ResolvedLosesNothing | src/core/implicit_exec.cpp:43-61 | a RESOLVED result lost no edge and no plane had a repeated index |
| ImplicitMerge.MergedShifts | src/core/implicit_exec.cpp:38-53 | merging behind other facts only shifts indexes and edges |
| ImplicitMerge.BlockOfMerged | src/core/implicit_exec.cpp:38-58 | merging an already merged plane changes nothing but the shift |
| ImplicitMerge.MergeFlattens | src/core/implicit_exec.cpp:20-63 | merging merged groups gives the facts, indexes and dependencies of one flat merge |
| MergeStates.MergedPlaneIsSound | src/core/implicit_exec.cpp:38-53 | a merged list taken as a plane has no repeated index and no lost edge |
| MergeStates.StateFlattensExactlyWhen | src/core/implicit_exec.cpp:26-61 | the state of the nested merge is that of the flat one exactly when there is no fact, another flaw, nothing cut short, or a group with facts was cut short |
| MergeStates.LimitFlattensExactlyWhen | src/core/implicit_exec.cpp:26-61 | the limit flags agree exactly when nothing was cut short or a group that leaves a trace was |
| MergeStates.CutShortGroupIsForgotten | src/core/implicit_exec.cpp:26-61 | a cut-short group without facts is forgotten by the nested merge |
| ImplicitMerge.TallyCountsEveryFact | src/core/implicit_exec.cpp:54-56 | the three priority counts add up to the number of facts |
| MergeMeaning.ResolvedExactlyWhenWhole | src/core/implicit_exec.cpp:30-60 | with facts the merge is RESOLVED exactly when every present plane is, with distinct indexes, edges that lead to facts and nothing cut short; otherwise PARTIAL |
| MergeMeaning.FailedOutweighsPartial | src/core/implicit_exec.cpp:31-61 | without facts FAILED outweighs PARTIAL, PARTIAL and unknown states outweigh UNSUPPORTED, and otherwise nothing is present |
| MergeMeaning.TallyIsCount | src/core/implicit_exec.cpp:54-56 | each counter is the number of facts with that priority, with an anomaly class, or unresolved |
| ImplicitMerge.BuildRemap | src/core/implicit_exec.cpp:38-43 | the index map sends every local index to its first fact, and repeats are noticed exactly |
| ImplicitMerge.RemapPlane | src/core/implicit_exec.cpp:38-57 | the loops produce the renumbered edges, the lost-edge flag and the counts |
| ImplicitMerge.MergePlane | src/core/implicit_exec.cpp:26-59 | one plane extends the merged list by its block |
| ImplicitMerge.MergeImplicitExecution | src/core/implicit_exec.cpp:20-63 | the method computes the merged list, state, limit flag and counts |
| Utf8.ValidUtf8 | src/core/gdextension.cpp:29-44 | accepts a byte string exactly when it encodes a list of non-zero scalar values |
| Utf8.ValidCharacter | src/core/gdextension.cpp:32-41 | one step accepts exactly the well-formed characters and their length |
| Utf8.DecodedEncodes | src/core/gdextension.cpp:33-41 | what is decoded encodes to the bytes read |
| Utf8.EncodedDecodes | src/core/gdextension.cpp:33-41 | every scalar value decodes from its encoding, whatever follows |
| Utf8.TextIsUnique | src/core/gdextension.cpp:29-44 | a byte string encodes at most one list of scalar values |
| Utf8.DecodableIsText | src/core/gdextension.cpp:29-44 | stepwise decodability is the same as being an encoding |
| DescriptorText.Trim | src/core/gdextension.cpp:23-27 | the two loops compute the trimmed text |
| DescriptorText.TrimmedCore | src/core/gdextension.cpp:23-27 | trimming takes away the blanks on both sides and nothing else |
| DescriptorText.CharacterClasses | src/core/gdextension.cpp:24-25 | the blanks, digits and letters of the C locale |
| DescriptorText.FirstUnquoted | src/core/gdextension.cpp:46-56 | the quote and escape flags find the first unquoted stop character |
| DescriptorText.StopIsFirst | src/core/gdextension.cpp:46-56 | that character is the least unquoted one |
| DescriptorText.ParseQuoted | src/core/gdextension.cpp:58-75 | the loop unescapes the text between the quotes or refuses it |
| DescriptorText.EscapeRoundTrip | src/core/gdextension.cpp:58-75 | every printable text survives escaping and unescaping |
| DescriptorText.UnescapedIsPrintable | src/core/gdextension.cpp:64-72 | whatever is accepted is printable |
| DescriptorGrammar.UnescapedExactlyWhenSpelled | src/core/gdextension.cpp:62-73 | quoted text is read exactly as it is spelled character by character, with four escapes, and what spells nothing is refused |
| DescriptorGrammar.CommentAndBlanksGo | src/core/gdextension.cpp:417 | a line without its comment, outer blanks and carriage return is its core, for every core whose comment marks are quoted |
| DescriptorText.EscapedStaysQuoted | src/core/gdextension.cpp:46-56 | no position inside an escaped value is outside the quotes |
| DescriptorNames.ValidFeatureKey | src/core/gdextension.cpp:101-110 | accepts exactly the bounded dot-separated lists of non-empty word tokens |
| DescriptorNames.SymbolIsWord | src/core/gdextension.cpp:77-80 | a valid symbol is a word that does not begin with a digit |
| DescriptorNames.ParseCompatibilityValue | src/core/gdextension.cpp:82-99 | accepts exactly one to three groups of one to four digits from version 4.1 on, quoted or not |
| DescriptorNames.CompatibleVersion | src/core/gdextension.cpp:84-97 | the digit loop decides exactly that |
| DescriptorNames.VersionsFromFourOne | src/core/gdextension.cpp:96-97 | a two-number version is accepted exactly from 4.1 on, a single number from 5 on |
| ResPaths.SafeResPath | src/core/gdextension.cpp:112-124 | accepts exactly the prefixed, bounded paths whose components all name something and whose characters are allowed |
| ResPaths.NormalizeResPath | src/core/gdextension.cpp:126-143 | succeeds exactly on good paths within the limit and gives them the prefix and one separator |
| ResPaths.SafeIsPrefixedAndNormalizable | src/core/gdextension.cpp:112-143 | safe paths are exactly the normalisable ones that carry the prefix |
| ResPaths.SafeNormalizes | src/core/gdextension.cpp:112-143 | a safe path normalises to a safe path that differs only in its separators |
| ResPaths.NormalizedAgain | src/core/gdextension.cpp:126-143 | normalising again changes nothing exactly when the input had the prefix or left room for it |
| ResPaths.LongPathNormalizesOnce | src/core/gdextension.cpp:126-130 | a bare path of full length normalises once and then no more |
| ResPaths.UnifyKeepsParts | src/core/gdextension.cpp:138-141 | unifying separators keeps the components |
| Descriptor.ParseDescriptor | src/core/gdextension.cpp:411-432 | the parser computes the meaning of the bytes, line by line, with the first problem and its line |
| Descriptor.TakeLine | src/core/gdextension.cpp:417-428 | one line is read as its section header, setting, library or problem |
| Descriptor.AcceptedIsSound | src/core/gdextension.cpp:411-432 | every accepted descriptor has one valid symbol and distinct valid keys with safe paths on increasing lines |
| DescriptorGrammar.AcceptedExactlyWhen | src/core/gdextension.cpp:416-431 | the first wrong line ends the reading and is reported with what is wrong with it; without one the descriptor is accepted exactly when some line sets the symbol and some line a library, and its symbol, options and libraries are those of the lines |
| DescriptorGrammar.RefusedExactlyWhenWrong | src/core/gdextension.cpp:417-428 | a line is refused for a reason exactly when that is wrong with it: a bracket not closed, an empty section, no assignment or key, or a value that its section and the lines before do not allow |
| DescriptorGrammar.NotTextExactlyWhen | src/core/gdextension.cpp:413 | empty, oversized and ill-formed bytes, and no others, are refused as no text |
| Descriptor.ReadingIsSound | src/core/gdextension.cpp:416-429 | every reading keeps that, also one that ends in an error |
| DescriptorPrinter.SectionReads | src/core/gdextension.cpp:418 | a printed section header opens its section, whatever blanks and comment surround it |
| DescriptorPrinter.AssignmentReads | src/core/gdextension.cpp:420-421 | a printed assignment reads as its key and its value, whatever blanks and comment surround it |
| DescriptorPrinter.ReloadableReads | src/core/gdextension.cpp:425 | a printed reloadable flag reads back |
| DescriptorPrinter.CompatibilityReads | src/core/gdextension.cpp:424 | a printed version from 4.1 on reads back |
| DescriptorPrinter.StopAfterQuoted | src/core/gdextension.cpp:46-56 | a comment mark or equals sign inside the quoted value is not one |
| DescriptorRoundTrip.DescriptorRoundTrip | src/core/gdextension.cpp:411-432 | printing any valid symbol and distinct valid keys with safe paths, with any blanks and comments, and parsing gives them back |
| DescriptorRoundTrip.EscapedIsText | src/core/gdextension.cpp:29-75 | escaping keeps UTF-8 text well formed |
| DescriptorRoundTrip.LibrariesRead | src/core/gdextension.cpp:426-428 | printed libraries are read in order with their line numbers |
| CallReach.FunctionFor | src/core/gdextension.cpp:243-248 | the binary search gives the function that covers the address, or none |
| CallReach.Successors | src/core/gdextension.cpp:255-263 | the scan queues exactly the functions called, one level deeper, up to depth 8 |
| CallReach.ReachableFunctions | src/core/gdextension.cpp:250-266 | only functions within 8 calls are returned, and all of them when fewer than 1024 are |
| CallReach.AllVisited | src/core/gdextension.cpp:253-264 | an empty queue means every function within the depth was reached at its distance |
| Leb128.Uleb | src/core/dwarf_expression_surface.cpp:40 | reads a group exactly when one of at most ten bytes ends in time, and gives its value modulo 2^64 |
| Leb128.Sleb | src/core/dwarf_expression_surface.cpp:41 | the same with sign extension |
| Leb128.AccumulateStep | src/core/dwarf_expression_surface.cpp:40-41 | or-ing in the shifted payload meets no bit that is set, so it adds the weight of the byte modulo 2^64 |
| Leb128.ExactExactlyWhenItFits | src/core/dwarf_expression_surface.cpp:40-41 | the value is the written number exactly when the group has at most nine bytes or its tenth byte fits |
| Leb128.TenthByteIsLost | src/core/dwarf_expression_surface.cpp:40-41 | a group that stands for 2^64 reads as 0 in both decoders |
| Leb128.EncodedUnsigned | src/core/dwarf_expression_surface.cpp:40 | the canonical unsigned encoding is a group with that value |
| Leb128.EncodedSigned | src/core/dwarf_expression_surface.cpp:41 | the canonical signed encoding is a group with that value |
| Leb128.UlebInverts | src/core/dwarf_expression_surface.cpp:40 | decoding inverts the encoding of every 64-bit unsigned value |
| Leb128.SlebInverts | src/core/dwarf_expression_surface.cpp:41 | decoding inverts the encoding of every 64-bit signed value |
| ExprScan.TakeMeaning | src/core/dwarf_expression_surface.cpp:106-135 | an operand is read exactly as it is encoded |
| ExprScan.TakeAllMeaning | src/core/dwarf_expression_surface.cpp:106-135 | so are all operands of an operation |
| ExprScan.ReadOperations | src/core/dwarf_expression_surface.cpp:106-135 | reading a list of operations continues right behind it |
| ExprScan.ParsedIsStandard | src/core/dwarf_expression_surface.cpp:106-135 | parsed means exactly a list of standard operations |
| ExprScan.VendorIsAtBoundary | src/core/dwarf_expression_surface.cpp:106-135 | a vendor verdict names an opcode at an operation boundary, and every such opcode is found |
| ExprScan.VendorSummary | src/core/dwarf_expression_surface.cpp:106-135 | there is at most one such opcode to report |
| OperationTable.AloneOpcodes | src/core/dwarf_expression_surface.cpp:113 | the stack, arithmetic, literal and register opcodes have no operand |
| OperationTable.AddressOpcode | src/core/dwarf_expression_surface.cpp:117 | DW_OP_addr is followed by an address |
| OperationTable.FixedOpcodes | src/core/dwarf_expression_surface.cpp:117-123 | constants, branches and calls are followed by exactly 1, 2, 4 or 8 bytes |
| OperationTable.GroupOpcodes | src/core/dwarf_expression_surface.cpp:115-121 | these opcodes are followed by exactly one LEB128 group |
| OperationTable.TwoGroupOpcodes | src/core/dwarf_expression_surface.cpp:122-128 | bregx, bit_piece and regval_type are followed by exactly two groups |
| OperationTable.BlockOpcodes | src/core/dwarf_expression_surface.cpp:125 | implicit_value and entry_value are followed by a length and that many bytes, at most 4096 |
| OperationTable.PointerOpcode | src/core/dwarf_expression_surface.cpp:126 | implicit_pointer is followed by four bytes and a group |
| OperationTable.TypedConstantOpcode | src/core/dwarf_expression_surface.cpp:127 | const_type is followed by a group, a size byte and that many bytes |
| OperationTable.TypedDerefOpcodes | src/core/dwarf_expression_surface.cpp:129 | deref_type and xderef_type are followed by a byte and a group |
| OperationTable.NoOperation | src/core/dwarf_expression_surface.cpp:130 | every other opcode below 0xE0 is malformed |
| OperationTable.SignedOperand | src/core/dwarf_expression_surface.cpp:115-121 | an opcode with the encoding of any signed 64-bit operand is one operation |
| OperationTable.UnsignedOperand | src/core/dwarf_expression_surface.cpp:120 | an opcode with the encoding of any unsigned 64-bit operand is one operation |
| ExprScan.ScanExpr | src/core/dwarf_expression_surface.cpp:106-135 | the scanner decides both exactly, for the operations that the table lemmas give in bytes; operand bytes are never taken for opcodes |
| LineProgram.ParseMeaning | src/core/dwarf_expression_surface.cpp:167-169 | a line program can be cut into records in at most one way, the one the walk takes |
| LineProgram.TakeRecordMeaning | src/core/dwarf_expression_surface.cpp:167-168 | a record is taken exactly as it is written, whatever follows |
| LineProgram.WalkProgram | src/core/dwarf_expression_surface.cpp:166-181 | the loop computes the verdict on the records of the program |
| LineProgram.WalkKeepsRecords | src/core/dwarf_expression_surface.cpp:166-181 | for every program of at most 65536 records the verdict is the one on exactly those records; every other is malformed |
| LineProgram.TallyAdds | src/core/dwarf_expression_surface.cpp:166-169 | what two stretches of records hold adds up |
| LineRecords.SpecialRecord | src/core/dwarf_expression_surface.cpp:168 | a special opcode stands alone |
| LineRecords.FixedAdvanceRecord | src/core/dwarf_expression_surface.cpp:168 | opcode 9 is followed by exactly two bytes, whatever the header says |
| LineRecords.StandardRecord | src/core/dwarf_expression_surface.cpp:168 | any other standard opcode is followed by as many groups as the header says |
| LineRecords.ExtendedRecord | src/core/dwarf_expression_surface.cpp:167 | an extended record is a zero byte, a length group and that many bytes, at least one |
| LineRecords.TallyMeans | src/core/dwarf_expression_surface.cpp:167 | the tally says whether some record closes a sequence or sets an executable address, which vendor opcodes there are, and how many records and bytes they take |
| LineRecords.CandidateExactlyWhen | src/core/dwarf_expression_surface.cpp:166-177 | a program of records is a candidate exactly when it has at most 65536 records, closes a sequence, sets an executable address, and has at least 4 vendor records and 16 vendor bytes |
| LineProgram.ReadAddress | src/core/dwarf_expression_surface.cpp:167 | the address loop reads the little-endian number |
| FatMachO.Read | src/core/preflight.cpp:12-17 | reads the number of either byte order, or 0 outside the data |
| FatMachO.PlaceByte | src/core/preflight.cpp:15 | or-ing in the shifted byte meets no bit that is set, so it adds the weight of the byte, in either byte order |
| Bits.OrIsSum | src/core/preflight.cpp:15 | numbers that share no bit are joined by addition |
| Bits.OrBits | src/core/preflight.cpp:15 | a bit of the or is set exactly when it is set on either side |
| Bits.BitIsDigit | src/core/preflight.cpp:15 | a bit is the binary digit of its weight |
| FatMachO.CheckRow | src/core/preflight.cpp:41-48 | a row is accepted exactly when it is good and apart from all earlier rows |
| FatMachO.ApartSharesNoByte | src/core/preflight.cpp:47-49 | rows are apart exactly when they name different machines and share no byte |
| FatMachO.CheckFatMachO | src/core/preflight.cpp:31-52 | accepts exactly the tables whose ranges lie behind the table, inside the file, aligned and pairwise disjoint, with distinct architectures |
| FatMachO.RowRoundTrip | src/core/preflight.cpp:41-44 | a written row reads back |
| FatMachO.TableRoundTrip | src/core/preflight.cpp:31-51 | a written table reads back |
| ByteNumbers.BytesRoundTrip | src/core/preflight.cpp:12-17 | a number survives being written in bytes of either order |
| ByteNumbers.ByteOf | src/core/sha256.cpp:32 | shifting by whole bytes and truncating picks the byte of that place |
| Fips180.PaddingIsShortest | src/core/sha256.cpp:32 | no fewer zero bytes would do |
| Fips180.LengthFieldIsExact | src/core/sha256.cpp:32 | the length field is the length in bits below 2^64 bits |
| Fips180.PaddingIsInjective | src/core/sha256.cpp:32 | no two messages the standard covers have the same padded form |
| Fips180.FoldAppend | src/core/sha256.cpp:31 | hashing blocks in pieces is hashing them in one run |
| HashWords.WordIsNumber | src/core/sha256.cpp:25 | a word of a block is the number its four bytes spell, most significant first |
| HashWords.RotationDivides | src/core/sha256.cpp:20 | rotating right by n places divides by 2^n and puts the remainder on top |
| HashWords.LeftIsRight | src/core/sha1.cpp:7 | rotating left is rotating right by the other places |
| HashConstants.RoundConstants256 | src/core/sha256.cpp:11-19 | the 64 round constants are the first 32 fractional bits of the cube roots of the first 64 primes |
| HashConstants.InitialValue256 | src/core/sha256.cpp:22 | the initial words are those of the square roots of the first eight primes |
| HashConstants.RoundConstants1 | src/core/sha1.cpp:8 | the four SHA-1 constants are 2^30 times the square roots of 2, 3, 5 and 10 |
| HashConstants.InitialValue1 | src/core/sha1.cpp:12 | the initial words of SHA-1 are the counting bytes of section 5.3.1 of FIPS 180-4 |
| Sha.Disjunctions | src/core/sha1.cpp:8 | the disjunctive forms of the source are the choice and majority functions |
| Sha.Schedule256Order | src/core/sha256.cpp:26 | the order of the schedule sum does not matter |
| Sha.Block256 | src/core/sha256.cpp:24-30 | the block function is the compression of section 6.2.2 of FIPS 180-4 |
| Sha.Block1 | src/core/sha1.cpp:8 | the block function is the compression of section 6.1.2 of FIPS 180-4 |
| Sha.HashStream.constructor | src/core/sha256.cpp:22-23 | a new stream has taken in nothing |
| Sha.HashStream.Update | src/core/sha256.cpp:31 | the buffer loop takes in exactly the data, whatever its length and what waits in the buffer |
| Sha.HashStream.PutMarkAndZeros | src/core/sha256.cpp:32 | the one- and two-block cases both write the marker and the standard's number of zeros |
| Sha.HashStream.PutLength | src/core/sha256.cpp:32 | the last eight bytes are the length field |
| Sha.HashStream.Finish | src/core/sha1.cpp:15 | the result is the standard digest of everything taken in |
| Sha.HashParts | src/core/sha256.cpp:35-36 | for any split into parts the digest is that of the concatenation |

## Left out

- File system, mapping, symlink and directory handling: a map of payloads with failure flags (`ReportSpool.Disk`) or parameters stand for them; a refused append writes nothing, so partial writes are not modelled.
- The body of `analyze_file`, the format detectors, the extractors and the executed runtime: parameters.
- Rendering (JSON, text, CSV), findings, guidance, the command line, Windows branches and the handoff tool: formatting.
- `annotate_plan`, `rendering` and `selected_paths` of the spool: read-only projections of the records.
- `md5.cpp`, HMAC and PBKDF2, and the hexadecimal and byte forms of the digests: a table of sines, wrappers and formatting.
- `read_form`, `parse_abbrevs`, `scan_info` and the header of a line unit: bounded field reads that would only add easy members; the record walk starts behind the header.
- Merge error text and the two counters that are only passed through: formatting and plain sums.
- Move construction, iterators and `reserve_shared_view` of the fact list: they do not change what a list shows.
- The byte totals of skip notes, the warnings and the `root_input` field of the recursive graph: bookkeeping beside the graph.
- RecursiveRuns.AnalysedOnceExactlyWhen: takes it that a file keeps its digest between admission and analysis.
- BoundedRuns.RunIsOrderly: takes it that equal digests go with equal sizes, unless every edge is complete; a preset digest could break that.
- ReportOrder.ReportDirectory: uses a stable insertion sort for `std::stable_sort`; both give the same order.
- `feature_tokens` and the native side of GDExtension analysis: they depend on the instruction decoder, which is not part of this model.
- CallReach.ReachableFunctions: does not decode instructions; the direct call targets of each function, in program order, are a parameter.
- FactLists.FactList.EnsureOwnedForWrite: models the reference count by its meaning, that no other list of the program reaches the storage.
- ReportSpool.DirectoryReportSpool.FinalizeSelection: uses an insertion sort for `std::sort`; on distinct path keys both give the one ranked order. The spool directory is created before the model starts.
- ImplicitMerge.MergeFlattens: holds for fewer than 2^32 facts, as the 32-bit indexes of the source need.
- DescriptorText.FirstUnquoted: is one loop for the two equal quote scans of the source. The character classes are those of the C locale.
- Sha.HashStream.Finish: covers both stream classes of the source with one class that carries the algorithm; they differ only in word count and block function.
- DirectoryBudget.MaterializeTarget: takes the extractor's answer as a parameter; the internal check is shown unreachable when the extractor keeps to its arguments.
