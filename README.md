# Retrieval orchestration of filclient's `filc` tool, in Dafny

This project models the retrieval policy in `filc/retrieval.go` of filclient and proves properties of it. The policy fetches content, by its root CID, either from IPFS or from Filecoin storage miners. The network clients are abstract outcome oracles, and everything else follows the Go code branch for branch.

- **Common** — the shared types:
  - candidates, query responses and statistics;
  - the six error values;
  - the market client, as three oracles: `query`, `propose` and `transfer`.
- **Ranking** — `totalCost`, and the comparator given to `sort.Slice`, both as written and as intended. It also holds the `noSort` bypass and an insertion sort that stands in for `sort.Slice`.
- **QueryPhase** — the query fan-out of `tryRetrieveFromFIL` in sequential form. The order in which the goroutines finish is an input, `arrival`, which is any permutation of the candidates.
- **SerialDriver** — the loop that tries the ranked candidates one after another. It has `continue`s, a `break`, and a `stats` variable that starts as nil.
- **FilPath** — `tryRetrieveFromFIL` as a whole: no candidates, no answers, then rank and try.
- **DagWalk** — the part of `tryRetrieveFromIPFS` after a provider is connected. It holds the `getLinks` visitor and `merkledag.Walk` with `cset.Visit`, run sequentially over a finite block map.
- **Coordinator** — `RetrieveFromBestCandidate`: IPFS first when it applies, then Filecoin, then one generic error.
- **Progress** — the pad-or-truncate step of `printProgress`.

The model differs from the source in one place. The comparator written at lines 209-211 compares an element with itself (see "## Findings"). `Ranking.Rank`, which the Filecoin path uses, sorts with the intended two-argument comparator. The as-written comparator is modelled beside it.

The comment on rule 1 at filc/retrieval.go:213 and the code below it disagree, and the model follows the code. The comment says an unsealed ask is always preferred to a sealed one, "no matter what". The code only promotes, it never demotes: for a sealed cheap ask C and an unsealed dear ask D, each is "less" than the other (`Ranking.LessNotAsymmetric`). The ranking then depends on the input order. `Ranking.RankDependsOnInputOrder` shows that `[C, D]` becomes `[D, C]` and `[D, C]` becomes `[C, D]`. So when both classes are present, ranking twice need not be ranking once: `[C, D]` ranked twice is `[C, D]` again, while ranking it once gives `[D, C]`. Inside one unseal class ranking is idempotent (`Ranking.RankIdempotentInClass`).

## Model

| member | source | states |
|---|---|---|
| Ranking.TotalCost | filc/retrieval.go:360-362 | The total cost is exact: subtracting the unseal price leaves exactly price per byte times size, so it is at least each of the two terms. |
| Ranking.TotalCostMonotoneInSize | filc/retrieval.go:360-362 | A larger declared size never lowers the total cost. |
| Ranking.TotalCostMonotoneInPrice | filc/retrieval.go:360-362 | A higher per-byte price never lowers the total cost. |
| Ranking.Less | filc/retrieval.go:213-230 | An unsealed ask is less than a sealed one; within one unseal class, less is the strict order on (total cost, size); anything less is either promoted by rule 1 or strictly earlier in that order. |
| Ranking.LessIrreflexive | filc/retrieval.go:209-231 | No response is less than itself. |
| Ranking.LessPrefersUnsealed | filc/retrieval.go:213-216 | A zero unseal price beats a non-zero one, whatever the sizes and prices. |
| Ranking.LessByTotalCost | filc/retrieval.go:218-223 | Outside rule 1, unequal totals decide, the lower total first. |
| Ranking.LessBySize | filc/retrieval.go:225-230 | Outside rule 1, equal totals are decided by the smaller size, and equal sizes are not less. |
| Ranking.LessInClass | filc/retrieval.go:209-231 | Between two responses with the same unseal class, "less" is the strict lexicographic order on (total cost, size). |
| Ranking.LessNotAsymmetric | filc/retrieval.go:213-223 | A concrete sealed cheap ask and an unsealed dear ask are each "less" than the other, because rule 1 never demotes. |
| Ranking.AsWrittenLess | filc/retrieval.go:209-211 | The sort predicate as written, with `a` and `b` both bound to `queries[i]`, never holds. |
| Ranking.AsWrittenSortKeepsOrder | filc/retrieval.go:208-232 | Sorting with the as-written predicate gives back the input order unchanged. |
| Ranking.AsWrittenKeepsDearerFirst | filc/retrieval.go:208-232 | Under the as-written predicate, asks A (0, 5, 100) and B (0, 2, 100) stay [A, B] although B costs less. |
| Ranking.InsertionSort | filc/retrieval.go:209 | The result is a permutation of the input, under any predicate. |
| Ranking.Rank | filc/retrieval.go:208-232 | With `noSort` the order handed on is exactly the collected order; in every case it is a permutation of the collected queries. |
| Ranking.SortedWithinClass | filc/retrieval.go:209-231 | When all asks share an unseal class, the ranking is ascending by total cost, then by size. |
| Ranking.RankCheaperFirst | filc/retrieval.go:218-223 | Asks A (0, 5, 100) and B (0, 2, 100) are ranked [B, A]. |
| Ranking.RankDependsOnInputOrder | filc/retrieval.go:213-223 | For C (10, 1, 50) and D (0, 1, 1000), [C, D] is ranked [D, C] and [D, C] is ranked [C, D]. |
| Ranking.SortedInClassIsFixed | filc/retrieval.go:209-231 | A sequence whose asks share an unseal class and are already ascending by total cost, then size, is left unchanged by the ranking. |
| Ranking.RankIdempotentInClass | filc/retrieval.go:208-232 | When all asks share an unseal class, ranking the ranked sequence again gives the same sequence. |
| QueryPhase.CollectedMembers | filc/retrieval.go:175-191 | A query result is collected if and only if it is the successful answer of one of the candidates' miners. |
| QueryPhase.CollectedEmptyIffNoAnswers | filc/retrieval.go:180-203 | Nothing is collected if and only if every candidate's query fails. |
| QueryPhase.CollectedOrderIrrelevant | filc/retrieval.go:170-197 | Two completion orders of the same candidates collect the same results, up to order. |
| QueryPhase.CollectedAppend | filc/retrieval.go:189-190 | Collecting over two lists one after the other is collecting over their concatenation. |
| QueryPhase.QueryCandidates | filc/retrieval.go:164-199 | `queries` holds exactly the successful answers, in arrival order, and is a permutation of the answers in candidate order. `checked` equals their number, and one query is issued per candidate. |
| SerialDriver.FirstRetrieved | filc/retrieval.go:238-263 | It finds the position of the first ranked candidate whose proposal and transfer both succeed, or reports that none does. |
| SerialDriver.RetrieveSerially | filc/retrieval.go:234-270 | The result is the stats of the first fully successful candidate, else "retrieval failed for all miners". Proposals are built for positions 0 to k in order, each exactly once, where k is that candidate or the last one. A transfer is started exactly for those of them whose proposal succeeded, in increasing order. |
| SerialDriver.SerialSucceedsIffSomeDelivers | filc/retrieval.go:237-270 | The loop succeeds if and only if some ranked candidate delivers. |
| SerialDriver.SerialStatsFromDeliveringCandidate | filc/retrieval.go:259-263 | Returned stats are those of a ranked candidate whose transfer returned them. |
| FilPath.TryRetrieveFromFil | filc/retrieval.go:144-272 | With no candidates it fails with "no miners were provided" and issues no query. With no answers it fails with "queries failed for all miners" and tries no candidate. Otherwise it ranks the collected queries, unchanged under `noSort`, and runs the serial loop over them. |
| FilPath.FilSucceedsIffSomeCandidateDelivers | filc/retrieval.go:144-272 | The Filecoin path succeeds if and only if some candidate answers its query, accepts a proposal and delivers. Completion order and ranking do not change this. |
| FilPath.FilStatsComeFromDeliveringCandidate | filc/retrieval.go:144-272 | Returned stats come from a candidate whose query, proposal and transfer all succeeded. |
| FilPath.FilQueriesFailIffNoAnswers | filc/retrieval.go:154-203 | It fails with "queries failed for all miners" if and only if there are candidates and every query fails. |
| Coordinator.RetrieveFromBestCandidate | filc/retrieval.go:115-142 | IPFS is attempted if and only if `tryIPFS` is set and the selector is nil or null. An IPFS success is returned, and the Filecoin path is then not run; otherwise the Filecoin path runs. The call succeeds if and only if an attempted path succeeded, and every failure is "all retrieval attempts failed". |
| Coordinator.FilIgnoredAfterIpfsSuccess | filc/retrieval.go:124-131 | After an IPFS success, the Filecoin path's outcome plays no part. |
| Coordinator.IpfsIgnoredWhenNotApplicable | filc/retrieval.go:124 | When IPFS does not apply, its outcome plays no part. |
| Coordinator.PathErrorsCollapse | filc/retrieval.go:133-141 | All path errors collapse into one result. |
| DagWalk.GetLinks | filc/retrieval.go:325-347 | A missing block is an error that leaves the display unchanged. A leaf block adds its size to the counter, or 0 when Size fails, and shows the new value; a block with links adds nothing. A raw block yields no links, any other block its own links, and the display stays monotone. |
| DagWalk.Walk | filc/retrieval.go:324-350 | Each block is fetched at most once, and only reachable blocks are fetched. The walk succeeds if and only if every reachable block exists, and then it fetched all of them. The counter ends at the leaf bytes of the fetched blocks. The progress values never decrease, and the last one is the final count. |
| DagWalk.TryRetrieveFromIpfs | filc/retrieval.go:274-358 | With no connected provider it fails with the context's error. Otherwise it succeeds if and only if the walk does, and returns stats whose byte size (`GetByteSize`) is the leaf bytes of exactly the reachable blocks, each counted once, and whose duration is the elapsed time. |
| DagWalk.SameBlocksSameBytes | filc/retrieval.go:314-340 | Any two orders of fetching the same blocks once each count the same bytes, so the concurrent walk of the source ends with the same total. |
| DagWalk.LeafBytesOrderIrrelevant | filc/retrieval.go:332-339 | The byte total does not depend on the order in which blocks are counted. |
| DagWalk.ClosedContainsReachable | filc/retrieval.go:325-350 | A set that holds the root and is closed under followed links holds every reachable block. |
| DagWalk.MonotoneSorted | filc/retrieval.go:337-338 | Each value shown is at most every later one and at most the counter. |
| Progress.PadOrTruncate | filc/retrieval.go:367-380 | With a known width, the output has exactly that length: the string followed by spaces, or its prefix. With an unknown width, the string is unchanged. |
| Progress.PadOrTruncateIsWindow | filc/retrieval.go:370-380 | Fitting to width w equals taking the first w characters of the string followed by w spaces. |
| Progress.PadOrTruncateIdempotent | filc/retrieval.go:370-380 | Fitting an already fitted line changes nothing. |
| Progress.PadOrTruncateKeepsFittingText | filc/retrieval.go:371-374 | A string that fits keeps every one of its characters. |
| Progress.ProgressLine | filc/retrieval.go:364-383 | The line is the fitted text (`PadOrTruncate`) followed by a carriage return, so it is one longer than the width when the width is known, and is otherwise the text itself followed by the carriage return. |

## Left out

- `GetRetrievalCandidates` (lines 50-74): an HTTP request and a JSON decode, so it is I/O.
- The goroutines, the `sync.WaitGroup` and the mutexes (lines 170-197, 314-340) are concurrency. Query completion order is an input. The walk is sequential, with results proved independent of fetch order.
- IPFS provider discovery, connection and the `select` on readiness (lines 277-309) are network and channel code. Their outcome is the input `connected`: false gives the context's error. The `select` at lines 303-309 has no timeout, so `connected` is false only once the caller's context has ended, and `tryRetrieveFromFIL` then runs with that same ended context (line 134); `Coordinator.RetrieveFromBestCandidate` takes the IPFS and FIL outcomes as independent inputs and does not capture this coupling.
- `fc.RetrievalQuery`, `RetrievalProposalForAsk` and `RetrieveContentWithProgressCallback` are foreign calls. Each is a total oracle in `Market`, where None stands for a returned error.
- The FIL transfer's progress callback at lines 252-255 is inside a foreign call.
- The block service (`dserv.Get`, `node.Links`, `node.Size`) is a finite map from CIDs to blocks, where a missing key is a failed fetch.
- `GetAverageBytesPerSecond` (line 112) uses floating point. It also divides by a duration that may be zero.
- `time.Now` and `time.Since`, the logging, `humanize.IBytes`, `term.GetSize` and the writes to stderr are clocks, formatting and I/O. The formatted progress text and the terminal width are inputs.
- The "K/N" query progress line at line 192 is output only.
- The ordering algorithm inside `sort.Slice`: it is stood in for by insertion sort. Since Go 1.19 (pattern-defeating quicksort), Go's sort uses that algorithm itself for slices of at most 12 elements; earlier versions ran a shell-sort pass on slices of 7 to 12 elements. For longer slices Go's unstable sort may order elements differently, so only the permutation and the within-class order are portable claims.
- Ranking.Rank: states the order for the corrected comparator. The as-written comparator is covered only by `AsWrittenSortKeepsOrder`, under the insertion-sort stand-in.
- DagWalk.Walk: the counter `bytesRetrieved` is a `uint64` in the source, and the model does not wrap it at 2^64; leaf sizes themselves are `uint64`.
- DagWalk.Walk: blocks are met depth first, with links put in front of the work list. `merkledag.Walk` with `Concurrent()` fetches in parallel, so the order in which blocks are visited is not fixed. The model fixes the order of the sequential walk; the byte total and the monotone display do not depend on that order (`DagWalk.LeafBytesOrderIrrelevant`, `DagWalk.SameBlocksSameBytes`).
- Prices are modelled as non-negative integers. The source does not check the sign of the `big.Int` prices a provider returns (line 183 into lines 219-220 and 360-362); the model assumes them non-negative. `Ranking.TotalCost`'s lower bounds and `Ranking.TotalCostMonotoneInSize` depend on that assumption; the latter fails for a negative per-byte price.
- Error text is carried as one value per error site, not as strings.

## Findings

| source | as written | input that shows it | evidently intended | confidence | as-written member | corrected member |
|---|---|---|---|---|---|---|
| filc/retrieval.go:210-211 | `a := queries[i].Response` and `b := queries[i].Response`: both sides of the sort predicate are element i, so every comparison of element i with itself is false | asks A (unseal 0, 5 per byte, size 100) then B (unseal 0, 2 per byte, size 100): the as-written sort keeps [A, B], while the intended policy ranks the cheaper B first | `b := queries[j].Response`, so the predicate compares element i with element j | not executed | Ranking.AsWrittenKeepsDearerFirst | Ranking.RankCheaperFirst |
