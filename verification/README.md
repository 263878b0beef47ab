# surge-ts: a verified model of the differential-testing engine

surge-ts is checked against `tsc` by scripts that compare two lists of diagnostics, decide whether they agree,
and report where they drift. A sweep over presets passes or fails on that decision, a benchmark scores checkers
by it, and everything else (report readers, worker pools, tree walks, charts) feeds it or draws it. This project
models that engine in Dafny and proves what its verdicts mean.

Each loop of the scripts is a method with the loop's own branches, tied by its postcondition to a specification
function or to a property; the theorems are lemmas about that specification, over all inputs, all runs or all
reachable states.

| file | what it models |
|---|---|
| `KeyedLists.dfy` | lists compared by a key: residuals, what is matched, and the projection lemma from finer to coarser keys |
| `Tallies.dfy` | counting and grouping in a `Map` with its insertion order; counting-down loops |
| `Diagnostics.dfy` | normalized diagnostics and their string keys: which keys tell which diagnostics apart |
| `Oracle.dfy`, `Messages.dfy`, `MessagePairs.dfy`, `Comparisons.dfy` | the comparisons of `compare-tsc.ts` |
| `Sweep.dfy`, `Verdict.dfy` | the verdict on a target, span drift, and the summary of a sweep |
| `Score.dfy`, `Aggregation.dfy` | the benchmark's true and false positives, and precision, recall and F1 |
| `Pools.dfy` | the two worker pools as state machines over all interleavings |
| `JsonExtract.dfy`, `UpstreamCases.dfy`, `HeldOut.dfy`, `Whitespace.dfy`, `Templates.dfy`, `BoltReport.dfy`, `LineReader.dfy` | scanners, parsers, template search, line buffering |
| `TreeWalk.dfy`, `TreeCompare.dfy` | the explicit-stack walk, the recursive walk, and their alignment |
| `Axis.dfy`, `Slope.dfy` | axis scaling and least squares, over the reals |
| `Sequences.dfy`, `Text.dfy`, `Decimal.dfy`, `Reals.dfy` | `map`, `filter`, `sort`, `trim`, `split`, `join`, number formatting, and products of reals |

How the pieces fit. `Bag(s, key)` is the multiset of keys of a list. Both accountings of `compare-tsc.ts`
(one-sided buckets, counting-down subtraction), the per-location loop of `compareMessages` and the benchmark's
score are all tied to multiset differences of bags. `KeyedLists.Projection` carries equality of bags from a finer
key to a coarser one, and the key lemmas of `Diagnostics` say when one string key is finer than another; the
theorems on the gate, on drift and on spans follow from these.

Where the code is not what one would expect, or not what its comments say:

- A file/code key does not always give away the code: `a :: b` in file `""` and `b` in file ` :: a` share a key.
  Parity by file and code entails parity by code exactly for *separable* codes, where no code written behind its
  separator ends another one (`Comparisons.FileCodeParityDecidesIffSeparable`), and the gate's code-count test is
  redundant under exactly the same condition (`Sweep.TwoParitiesDecideGateIffSeparable`). Codes without spaces are
  separable.
- The benchmark's `file:line:code` key and the oracle's `file :: code :: line=n` key tell different diagnostics
  apart when codes may hold colons. They agree exactly for codes separable for both keys
  (`Diagnostics.KeysAgreeIffSeparable`).
- The oracle compares lines among located diagnostics only, those with a line and a column, while the benchmark
  counts every diagnostic, with line 0 where there is none. So the two tools count the same drift on all lists drawn
  from a set of diagnostics exactly when each of them is located and the two keys tell the same ones apart
  (`Score.ToolsAgreeOnIff`, `Score.ToolsAgreeIffSeparable`).
- For the same reason the line comparison can hide drift that the file/code comparison shows: it does so for some
  lists exactly where a diagnostic is not located (`Comparisons.LineDriftSufficesIffLocated`). With the file/code
  drift of the unlocated diagnostics added, no comparison finer than file/code hides drift
  (`Comparisons.FinerKeysNeverHideDrift`),
  and the gate is line parity of the located diagnostics together with file/code parity of the others
  (`Sweep.GateIsTwoParities`).
- The line check passes all unlocated diagnostics, whatever their files; only the coarser checks reject
  them (`Sweep.UnlocatedLineCheckIsBlind`).
- The comment on `caseFingerprint` calls it insensitive to re-indenting. That holds for a line exactly when it
  does not turn from a directive into source or back (`UpstreamCases.ReindentingKeepsBody`); indenting a directive
  line always changes the fingerprint's body (`UpstreamCases.IndentedDirectiveCounts`).
- `runSweep` lets its shared index run past the end, by exactly the number of lanes; `runPool` does not.

## Model

| member | source | states |
|---|---|---|
| Diagnostics.FileCodeLineKeyParts | scripts/oracle/compare-tsc.ts:2094-2100 | two file/code/line keys are equal exactly when the file/code keys and the lines are, for any file names and codes |
| Diagnostics.FullLocationKeyParts | scripts/oracle/compare-tsc.ts:1825-1827 | two location keys are equal exactly when the file/code keys, lines and columns are, absent positions being different from all present ones |
| Diagnostics.FingerprintParts | scripts/oracle/compare-tsc.ts:1616-1624 | two diagnostics have one fingerprint exactly when they differ in their source at most |
| Diagnostics.FileCodeKeyParts | scripts/oracle/compare-tsc.ts:2094-2096 | over separable codes a file/code key gives away both file and code |
| Diagnostics.SpaceFreeCodesSeparable | scripts/oracle/compare-tsc.ts:2094-2096 | codes without a space are separable |
| Diagnostics.CollidingFiles | scripts/oracle/compare-tsc.ts:2094-2100 | any two codes that are not separable collide: located diagnostics with different codes share their file/code and file/code/line keys |
| Diagnostics.KeysAgreeIffSeparable | scripts/bench/compare-checkers.ts:430-432 | the benchmark key and the oracle's file/code/line key tell the same diagnostics apart if and only if the codes are separable for both |
| Diagnostics.PlainCodesSeparable | scripts/bench/compare-checkers.ts:430-432 | codes free of spaces and colons are separable for both keys |
| KeyedLists.ResidualBag | scripts/oracle/compare-tsc.ts:1957-1980 | a residual holds exactly the surplus of each key, and what it drops exactly the common part |
| KeyedLists.ResidualIndices | scripts/oracle/compare-tsc.ts:1962-1980 | a residual is the order-preserving subsequence of the elements beyond the first min(l, r) of their key |
| KeyedLists.ResidualConservation | scripts/oracle/compare-tsc.ts:1949-1983 | both lists lose the same number of elements, the size of the common multiset, and no key is left over on both sides |
| KeyedLists.SortKeepsAt | scripts/oracle/compare-tsc.ts:1799-1805 | sorting keeps elements that tie in their order |
| KeyedLists.Projection | scripts/oracle/compare-tsc.ts:1635-1647 | equal multisets of a fine key give equal multisets of every key it determines |
| KeyedLists.CoarseSurplus | scripts/oracle/compare-tsc.ts:1635-1647 | the surplus under a coarse key is the surplus of the fine residuals under that key, and never larger than the fine surplus |
| Tallies.CountBy | scripts/oracle/compare-tsc.ts:1929-1941 | counts every key with its multiplicity and iterates in order of first occurrence |
| Tallies.GroupBy | scripts/oracle/compare-tsc.ts:1810-1823 | groups hold exactly the elements of their key in list order, and iterate in order of first occurrence |
| Oracle.CompareBuckets | scripts/oracle/compare-tsc.ts:1882-1927 | returns the buckets of all keys of both lists, once each, in collation order |
| Oracle.AddBucket | scripts/oracle/compare-tsc.ts:1898-1924 | the five branches of the loop put a key among matches, one side or the other by comparing its two counts |
| Oracle.SubtractDiagnosticsByKey | scripts/oracle/compare-tsc.ts:1949-1983 | returns the two residuals; their keys are the two multiset differences |
| Oracle.GroupDiagnosticsByFingerprint | scripts/oracle/compare-tsc.ts:2031-2057 | counts every distinct fingerprint and sorts the groups by the given order |
| Oracle.FingerprintGroupsHold | scripts/oracle/compare-tsc.ts:2031-2057 | a group is listed exactly when some diagnostic has its fingerprint and its count is the multiplicity |
| Oracle.AccountingsAgree | scripts/oracle/compare-tsc.ts:1882-1983 | for any key, bucket surplus, residual length and multiset difference are the same numbers, and both sides have equally many matched diagnostics |
| Oracle.BucketParity | scripts/oracle/compare-tsc.ts:1686-1689 | both one-sided bucket lists are empty exactly when the two multisets of keys are equal |
| Oracle.BucketMatches | scripts/oracle/compare-tsc.ts:1901-1906 | the match buckets are exactly the occurring keys with equal counts |
| Oracle.BucketsSorted | scripts/oracle/compare-tsc.ts:1893-1924 | all three bucket lists stand in collation order |
| Oracle.CountEntries | scripts/oracle/compare-tsc.ts:1929-1947 | counts by key and sorts the entries by key |
| Oracle.EntriesHold | scripts/oracle/compare-tsc.ts:1943-1947 | the entries are exactly the occurring keys with their multiplicities, in collation order |
| Messages.CompareLocation | scripts/oracle/compare-tsc.ts:1749-1781 | one location's matches are the common texts, and its unmatched texts the two surpluses in collation order |
| Messages.ReportLocations | scripts/oracle/compare-tsc.ts:1749-1796 | accumulates matches and mismatches location by location over the shared keys |
| MessagePairs.MismatchesPairLeftOvers | scripts/oracle/compare-tsc.ts:1779-1795 | at each location the i-th mismatch reported pairs the i-th text left over on each side, in collation order, until one side runs out |
| MessagePairs.MismatchTextsWithin | scripts/oracle/compare-tsc.ts:1779-1795 | no left-over text is reported more often than it is left over at its location, on either side |
| MessagePairs.ComparedLocationsHold | scripts/oracle/compare-tsc.ts:1745-1750 | no location is compared exactly when no diagnostic of one side stands where one of the other does |
| Messages.CompareMessages | scripts/oracle/compare-tsc.ts:1735-1808 | computes the parity that the theorems of this module and of MessagePairs determine, location by location |
| Messages.MessageParityIsExact | scripts/oracle/compare-tsc.ts:1735-1808 | matches are the diagnostics both lists share by location and text; with the mismatches they are those shared by location |
| Messages.MismatchesSorted | scripts/oracle/compare-tsc.ts:1799-1805 | mismatches stand in order of file name, line, column and code; the comparator is a total preorder if the collation is |
| Messages.MismatchIsReal | scripts/oracle/compare-tsc.ts:1783-1795 | a reported mismatch pairs different texts of two diagnostics at one location, and stands at that line, column, and (separable codes) file and code |
| Messages.NoMismatchIffContained | scripts/oracle/compare-tsc.ts:1783-1795 | nothing is reported exactly when at every location the texts of one side contain those of the other |
| Comparisons.SummarizeDiagnostics | scripts/oracle/compare-tsc.ts:1871-1880 | the total and the three sorted count lists of one side, the last over located diagnostics |
| Comparisons.CompareDiagnostics | scripts/oracle/compare-tsc.ts:1626-1726 | all comparisons and count lists of one pair of lists together, with their summary flags |
| Comparisons.GroupsSorted | scripts/oracle/compare-tsc.ts:2048-2056 | fingerprint groups stand by falling count, then by file name, line, column, code and message |
| Comparisons.DriftIsReported | scripts/oracle/compare-tsc.ts:1635-1648 | each surplus of a comparison is the multiset difference under its key, the line comparison's over located lists only |
| Comparisons.FinerKeysNeverHideDrift | scripts/oracle/compare-tsc.ts:1635-1648 | on both sides, the code surplus is at most the file/code surplus (separable codes), that at most the line surplus plus the unlocated file/code drift, and that at most the number of left-over diagnostics |
| Comparisons.LineDriftSufficesIffLocated | scripts/oracle/compare-tsc.ts:1637-1641 | over any set of diagnostics, the line surplus always covers the file/code surplus if and only if every diagnostic is located |
| Comparisons.FileCodeParityDecidesIffSeparable | scripts/oracle/compare-tsc.ts:1685-1689 | file/code parity entails code parity for all lists over a set of codes if and only if the codes are separable |
| Sweep.CollectColumns | scripts/oracle/sweep-presets.ts:284-293 | collects, line by line, the columns of the located left-over fingerprints |
| Sweep.DeriveSpanMatch | scripts/oracle/sweep-presets.ts:280-307 | false exactly when some located left-over fingerprint has only other columns on its line on the other side |
| Sweep.ResultConserves | scripts/oracle/sweep-presets.ts:309-349 | the reported surpluses are the code-level multiset differences, and totals minus surpluses agree on both sides |
| Sweep.SummaryConserves | scripts/oracle/sweep-presets.ts:369-393 | the same balance holds of the summary of any sweep, errors included, and the exit code is zero exactly when every target passed |
| Verdict.PassedIff | scripts/oracle/sweep-presets.ts:316-333 | a target passes exactly when the three parities hold, and under strict messages one side's texts contain the other's at every location, and under strict spans there is no span drift |
| Verdict.SpanMatchIff | scripts/oracle/sweep-presets.ts:280-307 | the span verdict is false exactly when a located TypeScript diagnostic left over by fingerprint has left-over surge-ts diagnostics on its line and none at its column |
| Verdict.MessageMatchIs | scripts/oracle/compare-tsc.ts:1698-1699 | the message verdict is open where no location is shared, and otherwise tells whether one side's texts contain the other's at every location |
| Verdict.LineVerdictIs | scripts/oracle/compare-tsc.ts:1690-1697 | the line verdict is open where nothing is located, and otherwise is file/code/line parity of the located diagnostics |
| Verdict.ResultMeans | scripts/oracle/sweep-presets.ts:335-348 | totals, code match, line match and message match of a result, told over the two lists |
| Verdict.SummarySplits | scripts/oracle/sweep-presets.ts:369-393 | the summary of two sweeps together is the sum of their summaries and fails if one of them does |
| Verdict.SummaryOfOne | scripts/oracle/sweep-presets.ts:369-393 | the summary of one target repeats its result |
| Verdict.ErrorCounts | scripts/oracle/sweep-presets.ts:351-367 | a target whose comparison could not be read fails the sweep and counts as a line and a code mismatch |
| Sweep.StrictLeavesNoDrift | scripts/oracle/sweep-presets.ts:330-393 | targets with a line or code mismatch are among the failed, and a strict option leaves no passed target with the drift it forbids |
| Sweep.GateIsThreeParities | scripts/oracle/sweep-presets.ts:322-329 | the gate is code parity, file/code parity and line parity of the located diagnostics |
| Sweep.GateIsParity | scripts/oracle/sweep-presets.ts:322-329 | for separable codes the gate's code-count test adds nothing |
| Sweep.GateIsTwoParities | scripts/oracle/sweep-presets.ts:322-329 | for all lists with separable codes, the gate is line parity of the located diagnostics and file/code parity of the others |
| Sweep.TwoParitiesDecideGateIffSeparable | scripts/oracle/sweep-presets.ts:322-329 | these two parities decide the gate for all lists over a set of codes if and only if the codes are separable |
| Sweep.LocatedGateIsLineParity | scripts/oracle/sweep-presets.ts:322-329 | for separable codes and fully located lists the gate is file/code/line parity alone |
| Sweep.LineParityDecidesGateIffSeparable | scripts/oracle/sweep-presets.ts:322-329 | file/code/line parity decides the gate for all located lists over a set of codes if and only if the codes are separable |
| Sweep.UnlocatedLineCheckIsBlind | scripts/oracle/compare-tsc.ts:1690-1697 | over unlocated diagnostics the line check passes whatever their files, and the gate is code and file/code parity alone |
| Sweep.MessageDriftIsNotSpanDrift | scripts/oracle/sweep-presets.ts:280-307 | if surge-ts reports at every position at least as often as TypeScript, no span drift is reported, whatever the messages are |
| Sweep.SpanDriftIsReal | scripts/oracle/sweep-presets.ts:280-307 | reported span drift has two diagnostics with equal file/code key and line and different columns behind it (for separable codes, of one file and code), and unequal position multisets |
| Score.Match | scripts/bench/compare-checkers.ts:447-459 | one scoring loop counts the common multiset and lists the surplus keys |
| Score.ScoreDiagnostics | scripts/bench/compare-checkers.ts:442-461 | computes the score that the theorems below are about |
| Score.ScoreIsExact | scripts/bench/compare-checkers.ts:442-461 | the false keys are the two multiset differences, and true positives complete them to the two lists |
| Score.ToolsAgreeOnIff | scripts/bench/compare-checkers.ts:430-461 | the benchmark's false positives and negatives are the oracle's file/code/line surpluses on all lists drawn from a set of diagnostics if and only if all are located and both keys tell the same ones apart |
| Score.ScoreMatchesOracle | scripts/bench/compare-checkers.ts:442-461 | for located lists with codes separable for both keys, false positives and negatives are the oracle's file/code/line surpluses |
| Score.ToolsAgreeIffSeparable | scripts/bench/compare-checkers.ts:430-461 | over a set of codes, in all files and lines, the two tools agree if and only if the codes are separable for both keys and no diagnostic lacks a position |
| Score.ExactIffGatePassed | scripts/oracle/sweep-presets.ts:322-329 | for such codes and located lists, a target is exact in the benchmark exactly when it passes the oracle's gate |
| Score.RunScoreAccounts | scripts/bench/compare-checkers.ts:782-815 | a finished run accounts for every baseline diagnostic and for every diagnostic it reported, once |
| Score.RunScoreMeans | scripts/bench/compare-checkers.ts:798-814 | only what a run reports inside the program is scored, by multiset differences; what lies outside and what has no code is counted apart |
| Aggregation.CommonSetSharesBaseline | scripts/bench/compare-checkers.ts:872-887 | over the common completed set tp + fn is the same for every checker: the number of baseline diagnostics |
| Aggregation.AggregateSplits | scripts/bench/compare-checkers.ts:880-909 | aggregating two batches separately and adding their counts and sums loses and duplicates nothing |
| Aggregation.AggregateOfOne | scripts/bench/compare-checkers.ts:874-909 | the aggregate of one target counts it under its status and repeats its score if it is scored |
| Aggregation.RatesMean | scripts/bench/compare-checkers.ts:888-889 | precision is the share of the reported diagnostics that are right, recall that of the baseline's that are reported; each is undefined exactly where there is nothing to share |
| Aggregation.StatusesPartition | scripts/bench/compare-checkers.ts:892-898 | no eligible target is counted under two statuses, and all are counted exactly when each has a score with a counted status |
| Aggregation.F1Meaning | scripts/bench/compare-checkers.ts:886-890 | F1 exists exactly when there is a true positive; then it is 2tp/(2tp+fp+fn) and lies between precision and recall |
| Pools.Pool.ClaimsOnce | scripts/bench/compare-checkers.ts:840-851 | in every reachable state the worker was called once for each claimed index, in order, and at most max(1, min(jobs, n)) calls are pending |
| Pools.Pool.BoundIsReached | scripts/bench/compare-checkers.ts:843 | some interleaving has exactly that many calls pending at once |
| Pools.Pool.ExecutionsEnd | scripts/bench/compare-checkers.ts:843-848 | every interleaving ends within two steps for each item and one for each lane |
| Pools.Pool.NeverStuck | scripts/bench/compare-checkers.ts:843-848 | a pool can step until all lanes have ended |
| Pools.Pool.PoolIsSerialMap | scripts/bench/compare-checkers.ts:840-851 | when all lanes have ended, a lane has crashed exactly when a worker call rejects; otherwise the results are the serial map in input order and each index was claimed once |
| Pools.Sweep.Refines | scripts/oracle/sweep-presets.ts:514-537 | every sweep, with its index held at the end, is a run of the pool |
| Pools.Sweep.SweepEnds | scripts/oracle/sweep-presets.ts:520-533 | a sweep ends within the same bound and is never stuck before |
| Pools.Sweep.SweepBound | scripts/oracle/sweep-presets.ts:514-536 | a sweep too never has more than max(1, min(jobs, n)) targets running |
| Pools.Sweep.SweepBoundIsReached | scripts/oracle/sweep-presets.ts:516 | some interleaving of a sweep has exactly that many running at once |
| Pools.Sweep.SweepIsSerialMap | scripts/oracle/sweep-presets.ts:514-537 | when all lanes have ended, each target ran once, outcomes stand in input order, and the index has overshot by exactly max(1, min(jobs, n)) |
| JsonExtract.ExtractBalancedJson | scripts/real-projects/measure-project.ts:745-776 | the loop finds the shortest prefix that closes, or nothing |
| JsonExtract.ShortestFromHolds | scripts/real-projects/measure-project.ts:745-776 | a returned slice closes and no shorter one does; without a result none does |
| JsonExtract.ValueKeeps | scripts/real-projects/measure-project.ts:752-773 | the scanner passes over every JSON value, strings and escapes included, without its depth falling to zero |
| JsonExtract.ExtractsPrinted | scripts/real-projects/measure-project.ts:745-776 | any JSON object or array text followed by any suffix is extracted exactly |
| JsonExtract.ExtractJsonText | scripts/real-projects/measure-project.ts:716-743 | returns the trimmed text if it parses, and else the first parsing balanced slice |
| JsonExtract.RecoverHolds | scripts/real-projects/measure-project.ts:726-739 | what is recovered is the balanced slice at the first bracket whose slice parses, and nothing only if there is none |
| JsonExtract.RecoversPrinted | scripts/real-projects/measure-project.ts:716-743 | JSON is recovered exactly from behind any noise in which no parsing slice starts, and before any noise |
| JsonExtract.BracketFreeNoise | scripts/real-projects/measure-project.ts:726-730 | in noise without brackets no parsing slice starts |
| UpstreamCases.ParseUpstreamCase | scripts/bench/upstream-cases.ts:19-43 | the loop computes the case that the theorems below are about |
| UpstreamCases.ParseIsSections | scripts/bench/upstream-cases.ts:19-43 | there are max(1, markers) units; they hold exactly the source lines after the first marker (all of them without one), in order, under the marker's names |
| UpstreamCases.DirectiveIff | scripts/bench/upstream-cases.ts:14-15 | a line is a directive exactly if it is two slashes, `@`, a word, a colon and a rest, with white space allowed around the name; its value is the rest of the line, trimmed |
| UpstreamCases.NamesFileIff | scripts/bench/upstream-cases.ts:30 | a directive starts a file exactly if its name is `filename`, each letter in either case |
| UpstreamCases.DirectiveLineMatches | scripts/bench/upstream-cases.ts:14-15 | a directive line matches as the name and value it was written from |
| UpstreamCases.ParseUndoesRender | scripts/bench/upstream-cases.ts:19-43 | parsing a rendered case gives the case back |
| Text.SplitLinesAssemble | scripts/bench/upstream-cases.ts:24 | splitting gives back the lines of a text, whatever their line ends |
| Text.EveryTextIsAssembled | scripts/bench/upstream-cases.ts:24 | every text is made of lines with a bare newline or a carriage return and newline |
| UpstreamCases.BodyIs | scripts/bench/upstream-cases.ts:112-118 | what is hashed is exactly what the source lines hold besides white space, in order |
| UpstreamCases.DirectivesDoNotCount | scripts/bench/upstream-cases.ts:110-119 | inserting or removing a directive line, first, last or between and with any line ends, leaves the fingerprint's body alone |
| UpstreamCases.DirectiveTakenOut | scripts/bench/upstream-cases.ts:110-119 | the same for cutting a directive and its line end out of a text |
| UpstreamCases.ReindentingKeepsBody | scripts/bench/upstream-cases.ts:110-119 | a change of white space in any one line leaves the body alone if and only if the line stays a directive or stays source |
| UpstreamCases.ReindentedTextKeepsBody | scripts/bench/upstream-cases.ts:110-119 | re-indenting any number of lines leaves the body alone if every line stays a directive or stays source |
| UpstreamCases.IndentedDirectiveCounts | scripts/bench/upstream-cases.ts:110-119 | indenting any directive line, wherever it stands, changes the body, although only white space changed |
| HeldOut.CaseNameOf | scripts/bench/upstream-cases.ts:156-160 | gives the longest underscore-truncation that is a known case, or the entry itself if there is none |
| HeldOut.FindOwner | scripts/bench/upstream-cases.ts:197 | finds the first suite that owns the case by name or fingerprint |
| HeldOut.SelectHeldOutCases | scripts/bench/upstream-cases.ts:188-207 | keeps the unowned cases in hash order up to the limit, and counts for each label exactly the cases its suites own first |
| HeldOut.SelectionIsAPartition | scripts/bench/upstream-cases.ts:193-200 | kept cases and exclusion counts of all labels add up to the pool |
| HeldOut.SelectedAreFree | scripts/bench/upstream-cases.ts:188-207 | a selected case is in the pool and no suite has its name or its fingerprint; without a limit all such cases are selected |
| HeldOut.SelectedAreLeast | scripts/bench/upstream-cases.ts:203-205 | the selected cases are the first of all free cases in hash order |
| HeldOut.SmallerLimitIsPrefix | scripts/bench/upstream-cases.ts:203-206 | a smaller positive limit selects a prefix of what a larger one selects |
| LineReader.Reader.OnData | scripts/bench/compare-checkers.ts:230-235 | handles the complete lines of buffer and chunk, in order, and buffers the rest |
| LineReader.HandleOutput | scripts/bench/compare-checkers.ts:221-235 | after all chunks the handled lines are those of the concatenated output, and the buffer is its tail |
| LineReader.LinesAcrossChunks | scripts/bench/compare-checkers.ts:230-235 | handling a chunk on top of the buffer is handling the whole text |
| LineReader.ChunkingIsInvisible | scripts/bench/compare-checkers.ts:230-235 | two ways of cutting the same output are handled alike |
| LineReader.NothingIsLost | scripts/bench/compare-checkers.ts:230-235 | lines, newlines and buffer put together are the output, and neither lines nor buffer hold a newline |
| TreeWalk.TypescriptWalk | scripts/api/compare-tree-walk.ts:111-138 | the stack loop lists exactly the pre-order of the tree, or reports syntax errors |
| TreeWalk.PushChildren | scripts/api/compare-tree-walk.ts:133-135 | pushing the children last to first makes the stack visit them in order before what was on it |
| TreeWalk.WalkLengths | scripts/api/compare-tree-walk.ts:105-109 | every node gives one line and one full start |
| TreeWalk.RankIsIndex | scripts/api/compare-tree-walk.ts:118-136 | the node at any path stands at the rank counted from its ancestors and the subtrees of earlier siblings |
| TreeWalk.WalkLineReads | scripts/api/compare-tree-walk.ts:121-122 | the line at the rank of a path gives, field by field, the kind, start and end of the node there, and the full start beside it is the node's |
| TreeWalk.Recorder.Visit | scripts/api/compare-api.ts:116-121 | the recursive visit appends the records of its subtree in pre-order |
| TreeWalk.RecordNodes | scripts/api/compare-api.ts:114-124 | the recursive walk records every node below the source file |
| TreeWalk.RecordKeyReads | scripts/api/compare-api.ts:118-119 | a record's key gives back its kind, start and end |
| TreeWalk.WalksAgree | scripts/api/compare-tree-walk.ts:118-136 | the stack walk lists the root and then exactly the nodes the recursive walk records |
| TreeCompare.DropImplicitExports | scripts/api/compare-tree-walk.ts:198-206 | drops the implicit exports after a module line and counts them |
| TreeCompare.ImplicitExportIff | scripts/api/compare-tree-walk.ts:200-201 | the lines that may be dropped are the export keywords of zero width |
| TreeCompare.KeptNext | scripts/api/compare-tree-walk.ts:199-206 | a line is dropped exactly if it is such a keyword behind a kept module line; all others are kept, in order |
| TreeCompare.KeptIsIdempotent | scripts/api/compare-tree-walk.ts:198-206 | dropping once drops them all |
| TreeCompare.SubstitutionIff | scripts/api/compare-tree-walk.ts:213-233 | which pairs of walk lines the two substitutions excuse, field by field |
| TreeCompare.Compare | scripts/api/compare-tree-walk.ts:193-236 | the mismatch is the least position that is not excused, and the counts are exactly the dropped lines and the substitutions before it |
| TreeCompare.NoMismatchAligns | scripts/api/compare-tree-walk.ts:207-235 | without a mismatch the walks are equally long and each pair of lines is equal or one of the two known substitutions |
| TreeCompare.IdenticalIff | scripts/api/compare-tree-walk.ts:193-236 | nothing is reported, not even a known difference, exactly when the walks are equal and hold no implicit export |
| Whitespace.CollapseIsWords | scripts/bench/compare-checkers.ts:359-361 | collapsing keeps exactly the words of a text, separated by single spaces |
| Whitespace.WordsAppend | scripts/bench/compare-checkers.ts:359-361 | white space between two texts separates their words |
| Templates.SplitHolesHold | scripts/bench/compare-checkers.ts:353-357 | a template's parts are its text with the numbered holes taken out |
| Templates.MatchesIffInstance | scripts/bench/compare-checkers.ts:353-357 | a template matches exactly the texts that fill its holes |
| Templates.MatchNeedsPrefix | scripts/bench/compare-checkers.ts:373-378 | a match passes the prefix test, and its literals fit in the message |
| Templates.LiteralLengthIs | scripts/bench/compare-checkers.ts:356 | the literal length is the length of the joined parts |
| Templates.FillLength | scripts/bench/compare-checkers.ts:354-356 | an instance is as long as the joined parts and the joined fillings |
| Templates.LiteralIs | scripts/bench/compare-checkers.ts:353-361 | the length the search compares by is that of the single-spaced text with nothing filled in |
| Templates.NumberedIsHole | scripts/bench/compare-checkers.ts:354 | a number in braces is a hole, whatever follows it |
| Templates.HoleIsNumbered | scripts/bench/compare-checkers.ts:354 | every hole is a number in braces |
| Templates.CodeForMessage | scripts/bench/compare-checkers.ts:369-384 | the pruned search returns the code of the first template of maximal literal length among all that match, or nothing if none does |
| Templates.CodeIsUnique | scripts/bench/compare-checkers.ts:369-384 | that code is a function of the templates and the collapsed message |
| Templates.InstancesAreRecovered | scripts/bench/compare-checkers.ts:366-384 | an instance of a listed template gets the code of a matching template at least as literal |
| Templates.CompiledMatches | scripts/bench/compare-checkers.ts:353-361 | a compiled template matches exactly its single-spaced text with its holes replaced |
| Templates.MessageGetsCode | scripts/bench/compare-checkers.ts:353-384 | from template texts to the code: a message gets the code of the first most literal text it is an instance of, and none exactly when it is an instance of none |
| BoltReport.ParseBoltOutput | scripts/bench/compare-checkers.ts:392-428 | the line automaton computes the report that the theorems below are about |
| BoltReport.HandleLine | scripts/bench/compare-checkers.ts:397-425 | each line changes the list and the two flags as its kind demands |
| BoltReport.ParseIsBlocks | scripts/bench/compare-checkers.ts:392-428 | one diagnostic for each head line: the head with the continuation lines right behind it, at the first location before any advice |
| BoltReport.AdviceChangesNothing | scripts/bench/compare-checkers.ts:409-416 | advice, and whatever follows it up to the next head, changes nothing |
| BoltReport.WrappingIsInvisible | scripts/bench/compare-checkers.ts:398-420 | an error or warning broken at spaces into head and continuation lines collapses to the same text as the unbroken one |
| BoltReport.WrappingKeepsCode | scripts/bench/compare-checkers.ts:369-428 | the broken and the unbroken message get the same code |
| BoltReport.LineKinds | scripts/bench/compare-checkers.ts:398-410 | the head lines are the two marks with a text behind them, the advice lines those with one of the two beginnings |
| BoltReport.ContinuationIff | scripts/bench/compare-checkers.ts:417 | any other line continues a message exactly if it has the bar in front of a text |
| BoltReport.WrappedInReport | scripts/bench/compare-checkers.ts:392-428 | anywhere in a report, with any line ends, a wrapped error or warning is one diagnostic with the words of the unbroken message, placed by the first location behind it and before any advice, and leaves those before and after it as they are |
| BoltReport.PrintedIsRead | scripts/bench/compare-checkers.ts:392-428 | a printed message with its location is read back as message words, file, line and column |
| BoltReport.LocationIsRead | scripts/bench/compare-checkers.ts:422-427 | a printed location is read back as its file, line and column |
| Axis.FloorLog10 | scripts/bench/report.ts:170 | the power of ten below the raw step and its successor above it |
| Axis.StepBounds | scripts/bench/report.ts:169-178 | the step is at least the raw step and less than twice it |
| Axis.StepIsNice | scripts/bench/report.ts:165-178 | the step is 1, 2, 2.5, 5 or 10 times a power of ten |
| Axis.StepIsLeast | scripts/bench/report.ts:171-178 | no such number is smaller and still at least the raw step |
| Axis.AxisBounds | scripts/bench/report.ts:167-180 | the axis ends at the first multiple of the step that reaches the maximum, and has more than half and at most all of the ticks asked for |
| Axis.Gridlines | scripts/bench/report.ts:373-381 | the gridline loop draws exactly the ticks 0 to N, the last one at the axis maximum |
| Axis.PositionsAreProportional | scripts/bench/report.ts:315 | positions grow in proportion to values, from the left edge for zero to the right edge for the axis maximum |
| Axis.ValuesStayInPlot | scripts/bench/report.ts:313-315 | every value from zero to the maximum, and every tick, lies inside the plot |
| Slope.LeastSquaresSlope | scripts/bench/complexity-regression.ts:105-116 | the loop computes the slope that the theorems below are about |
| Slope.ZeroDenominatorIff | scripts/bench/complexity-regression.ts:113-115 | the zero-denominator branch is taken exactly when all xs are equal |
| Slope.NormalEquations | scripts/bench/complexity-regression.ts:105-116 | the line through the means with this slope leaves no error sum and no error moment |
| Slope.SlopeIsOptimal | scripts/bench/complexity-regression.ts:105-116 | unless all xs are equal, the line through the means with this slope has a smaller squared error than every other line |
| Slope.LineIsRecovered | scripts/bench/complexity-regression.ts:105-116 | the slope of points on a line is the line's slope |

## Left out

- Process spawning, timeouts, memory watching, caches, the file system, git and cargo: their results are parameters.
- `JSON.parse`, hashes, `kindName`, `Number`, `localeCompare`: parameters (`isJson`, `hash`, `kindName`, `number`, `leq`); sorting is stable and by `leq(a, b)`, which stands for "compares less or equal".
- Floating point: the arithmetic of rates, axis and slope is over the reals.
- Strings are sequences of characters; UTF-16 code units and the decoding of byte chunks are not modelled.
- Line and column numbers are integers, not arbitrary JavaScript numbers.
- The fingerprint key is the record of its five parts, not its JSON text; equality is the same.
- Elapsed times, configuration notes, failure reasons and the `ms` sums of scores and summaries.
- The parts of `compareDiagnostics` that only describe: commands, warnings, and the extraction of module names and identifiers for TS2304, TS2305 and TS2307.
- `dedupeTargets` and `selectTargets`: which targets a sweep runs; the model starts from the selected list.
- Argument parsing, help, and the Markdown, HTML and SVG text of reports.
- `parseTimingsCounters` and `Metric` of `compare-api.ts`: reading and adding up counters.
- `classifyGrowth`: the logarithms it feeds to `leastSquaresSlope` and its thresholds; the slope is modelled.
- `caseConfig`, `listUpstreamCases` and `surgeTestSuite`: option tables and directory walks.
- What `startFootprintProbe` does with a line after splitting it off; its buffer and the order of lines are modelled.
- Pools: a lane's turn between two awaits is one atomic step, as on JavaScript's event loop; what a rejected pool's caller sees before the other lanes end is not modelled.
- BoltReport.ParseBoltOutput: the current diagnostic is the last one of the list and is replaced there; its aliasing with the list entry is not modelled.
- Slope.LeastSquaresSlope: the mean of an empty list, NaN in the source, is 0 here; neither is used.
- TreeWalk.TypescriptWalk: `forEachChild` is a given list of children in order; creating the source file is not modelled.
- Score.ScoreRun: a failed run carries its status only; the mapping of report messages to codes is in `Templates`.
