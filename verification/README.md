# Saleha: what its core code guarantees

Saleha is a local coding agent with its training and model-conversion scripts. This project models
the parts of it whose correctness is not obvious from reading them, and proves what they promise:

- the **GGUF converter** (`scripts/convert_hf_to_gguf_standalone.py`): byte-pair encoding and the merge
  list recovered from a rank table, the re-layout of attention weights, the buffering of expert tensors;
- the **reference solutions** that serve as training data (`scripts/train_saleha_targeted.py`,
  `scripts/generate_massive_dataset.py`): each is paired with a prompt, and "the completion meets the
  prompt" is what is proved;
- the **token bucket** of the rate-limiter example, with its exact closed form;
- the **self-healing loop** (`saleha/orchestrator.py`): what a result may claim, and what a run writes down;
- the **artifact parsers** (`saleha/agents/artifact_check.py`): fenced blocks and the HTML tag stack;
- the **circuit breaker template** (`saleha/agents/chaos_resilience.py`).

One Dafny module per component. A loop of the source is a method with a loop, an object that updates its
fields is a class, a shape expression is a function. Time, weights and token levels are reals. Clocks,
models, sandboxes and planners are parameters: whatever they answer, the claims hold.

The main results, each over all inputs or all runs:

- *A rank table and a list of merges split every text alike if and only if they split any two tokens of the
  table alike* (`AgreeIff`), whatever the table and the list: a finite condition. The reason is locality
  (`RunsAreLocal`, `EncodeSplits`): a stretch of any state of a run is a state of the run on that stretch
  alone, and a run never merges across a place where the two tokens beside it, on their own, stay apart.
- *The recovered merge list means the same as the rank table it came from* (`MergeListPreservesMeaning`),
  when the table is iterated in increasing rank order, as a tokenizer file lists it. In any other order
  `AgreeIff` decides; wherever two merges that meet are listed against their ranks it fails
  (`OverlapOutOfOrder`, with `OutOfOrderDiffers` as an instance).
- *The bucket's level is the least headroom of any window ending now* (`Consume`), so a request is
  admitted exactly when it fits every window, and no window of any run is exceeded as long as the clock
  does not step back around a refund (`EveryWindowBounded`, exactly then by `TokenBucket.BoundedIff`).
- *Attention scores survive the re-layout* of weights and biases (`AttentionPreserved`). With the older
  copy of the re-layout, which is given the weights only, they do exactly under stated conditions, one for
  models without biases (`OlderKeepsIff`) and one for models with them (`OlderKeepsBiasedIff`).
- *No expert tensor is lost or misplaced in any order of arrival* (`Conservation`, `EmittedOnce`,
  `SliceIsExpert`).
- *The reference solutions are optimal*: longest subsequence, shortest edit script, least path, smallest
  window, and a topological order or a cycle.
- *A result claims what the run showed, neither more nor less, and a run's records agree with its result*
  (`ExecuteTask`). Nothing is executed but what its suite, where it can run, has just passed, and a success
  rests on such a pass of exactly the returned code (`Heal`, `CarryThrough`).
- *The tag stack accepts exactly the balanced pages* (`CleanIffBalanced`, `WellFormedIff`), and *the fence
  reader undoes the printer* (`ReaderUndoesPrinter`).
- *The breaker refuses a call exactly when it comes at most the timeout after the fault that opened it or left
  it open* (`RefusedIff`), never before max_failures faults (`NotRefusedBefore`), and is as new once a probe
  returns (`ProbeRenews`). *A failing service is called at a bounded rate*, one call after the other, as
  long as every call returns or raises an `Exception` (`RateBounded`), and in general exactly under a
  condition on how its calls can end (`CircuitBreaker.BoundedIff`).

Some promises turn out to be conditional:

- The older copy of the re-layout, `_reverse_hf_permute`, divides the head count where `LlamaModel.permute`
  replaces it. On tensors the latter accepts they do the same exactly when `n_head == n_kv_head` or
  `n_head // n_kv_head == n_kv_head` (`CopiesAgreeIff`), and exactly then the older copy keeps every
  attention score of every model of those sizes that has no biases (`OlderKeepsIff`). With 32 query heads
  over 8 key heads it does not (`GroupedQueriesLost`). The older copy's caller leaves biases where they
  are; with biases every score is kept exactly when, besides, heads are two rows wide, so that nothing
  moves (`OlderKeepsBiasedIff`, with a losing model for every other size in `BiasLost`).
- The final check for unprocessed experts cannot see a block none of whose tensors arrived
  (`FinishAcceptsIff`).
- The faults since a circuit breaker opened count the calls let through since then exactly when none of
  them was aborted, that is ended in an exception that is not an `Exception` (`LoadIsFaultsIff`). After an
  aborted probe the breaker lets every call through until one returns or raises
  (`AbortedProbeHoldsOpen`), so that any number of calls that abort get through at one instant
  (`AbortsUnbounded`). The n-th call since the breaker opened comes more than n timeouts after it did, in
  every run, exactly when calls cannot be aborted, or cannot raise, or the timeout is not positive
  (`CircuitBreaker.BoundedIff`). A `max_failures` below one behaves like one (`BelowOneIsOne`).
- For given call times and given calls that may be refunds (negative requests), every window of every run
  is bounded exactly when each refund is made at a time between those of any earlier and any later call
  (`TokenBucket.BoundedIff`). A clock that only steps forward, or only back, is enough, and so is having no refunds
  (`OneWayClock`).
- A proof covers only the pair that was judged exactly when neither its code nor its suite contains a NUL
  character, which is what separates them in the digest (`CoversExactly`). A code with a NUL gets no proof:
  the tester parses it first (`saleha/agents/tester.py:42-44`) and Python rejects such source. A suite with
  one can get a proof, when the NUL stands in a main guard or a runner call, because those are stripped
  before the suite is run (`saleha/core/harness/test_runner.py:175-180`) while the digest is of the whole
  text. Its proof then also covers a longer code with a shorter suite (`SeparatorInSuite`), but no other
  pair whose code is free of NUL (`CoversOneParsable`).
- A resumed run starts where the run that wrote the checkpoint did exactly when that run was in Python,
  since the language is not stored; its attempt was at least one and at most the maximum, or the maximum
  itself; and its goal was not empty, or nothing else is asked for, since what is asked for replaces an
  empty goal (`ResumeRestores`).
- A run that is refused or answered before the loop leaves an older in-progress session as it was, so that
  one can still be resumed (`EarlyBooks` in `Prepare`).
- With a maximum of attempts below one the loop is not entered on a fresh run, which then fails with one
  attempt used: `attempts` is at most the maximum or one, whichever is larger (`Heal`, `ExecuteTask`).

## Model

| member | source | states |
|---|---|---|
| BytePairEncoding.Bpe | scripts/convert_hf_to_gguf_standalone.py:1850-1864 | The loop terminates for every table, token and bound and returns what the run of leftmost least-rank merges ends in. |
| BytePairEncoding.Best | scripts/convert_hf_to_gguf_standalone.py:1853-1859 | The pair chosen has the least priority of all adjacent pairs that have one and is the leftmost of that priority; none is chosen only when no adjacent pair has one. |
| BytePairEncoding.OneMerge | scripts/convert_hf_to_gguf_standalone.py:1855-1863 | In any state the leftmost adjacent pair of least rank, if its rank is below the bound, is replaced by the one token it makes, and the run goes on from there. |
| BytePairEncoding.NoMerge | scripts/convert_hf_to_gguf_standalone.py:1860-1861 | The run ends where every adjacent pair is missing from the table or has a rank at or past the bound. |
| BytePairEncoding.OneListed | scripts/convert_hf_to_gguf_standalone.py:672-681 | Read back, a list merges of the adjacent pairs the earliest listed, where it occurs first. |
| BytePairEncoding.NoneListed | scripts/convert_hf_to_gguf_standalone.py:672-681 | And it ends where no adjacent pair is listed. |
| BytePairEncoding.EndState | scripts/convert_hf_to_gguf_standalone.py:1852-1864 | A run from any state keeps the bytes, leaves only single bytes and tokens ranked below the bound, and leaves no adjacent pair with a rank below the bound. |
| BytePairEncoding.BpeEndState | scripts/convert_hf_to_gguf_standalone.py:1850-1864 | For every token the parts concatenate to it, are single bytes or ranked below the bound, and no pair left can be merged under the bound. |
| BytePairEncoding.BoundedRunIsPrefix | scripts/convert_hf_to_gguf_standalone.py:1860-1863 | A bounded run ends in a state of the unbounded run, and any looser bound continues from exactly there: the bound never influences the choice. |
| BytePairEncoding.RecoveredMergeRebuilds | scripts/convert_hf_to_gguf_standalone.py:679-680 | When the caller's assertion of two parts holds, every looser bound, or none, yields the token itself as the only part. |
| BytePairEncoding.RunsAreLocal | scripts/convert_hf_to_gguf_standalone.py:1852-1864 | Every stretch of every state of a run is a state of the run on that stretch's bytes alone. |
| MergeList.MergedPairIsRecovered | scripts/convert_hf_to_gguf_standalone.py:679-681 | Whenever any run can merge a pair into a token, that pair is the one recovered for the token. |
| MergeList.RecoverMerges | scripts/convert_hf_to_gguf_standalone.py:672-681 | The loop over the table returns the recovered pair of each multi-byte token in order, or the assertion failure. |
| MergeList.RecoveryFailsIff | scripts/convert_hf_to_gguf_standalone.py:677-680 | The recovery fails if and only if some listed multi-byte token is not left in two parts under its own rank. |
| MergeList.MergesInOrder | scripts/convert_hf_to_gguf_standalone.py:675-681 | A successful recovery writes, for each listed token of other than one byte and in their order, the two parts the run bounded by its own rank leaves. |
| MergeList.MergesOrdered | scripts/convert_hf_to_gguf_standalone.py:675-681 | The list holds only recovered pairs of listed tokens, one for each multi-byte token, by increasing rank. |
| MergeList.SameChoice | scripts/convert_hf_to_gguf_standalone.py:672-681 | In a state whose ranked pairs are exactly the listed ones, in the same order, list and table choose the same pair or both none. |
| MergeList.MergeListPreservesMeaning | scripts/convert_hf_to_gguf_standalone.py:672-681 | On every text, merging by the recovered list ends exactly where the rank table does. |
| MergeList.OverlapOutOfOrder | scripts/convert_hf_to_gguf_standalone.py:675-681 | Wherever both ways of merging arrive at three parts of which either two can be merged, a list with those two merges against their ranks splits that text differently from the table. |
| EncodingAgreement.AgreeIff | scripts/convert_hf_to_gguf_standalone.py:672-681 | For every rank table and every list of merges, in whatever order, the two split every text alike if and only if they split any two of the table's tokens and single bytes, put together, alike. |
| EncodingAgreement.NeverAcross | scripts/convert_hf_to_gguf_standalone.py:1852-1863 | A run never merges across a place where the last part of what stands before and the first part of what stands after it, on their own, stay apart. |
| EncodingAgreement.EncodeSplits | scripts/convert_hf_to_gguf_standalone.py:1852-1864 | Two texts put together are split as each is on its own, if the two tokens that meet stay apart on their own. |
| EncodingAgreement.StretchOfEnd | scripts/convert_hf_to_gguf_standalone.py:1852-1864 | Any stretch of what a text is split into is what that stretch is split into. |
| TokenBucket.TokenBucket.constructor | examples/01_rate_limiter/rate_limiter.py:7-12 | A new bucket is full, its history empty. |
| TokenBucket.TokenBucket.Refill | examples/01_rate_limiter/rate_limiter.py:14-18 | The level after refill is the least of capacity and, over creation and every earlier call, capacity plus refill since then less what was admitted since then. |
| TokenBucket.TokenBucket.Consume | examples/01_rate_limiter/rate_limiter.py:20-26 | A request is admitted if and only if every window ending now stays within capacity plus its refill, and the level afterwards is exactly the least headroom less what was admitted. |
| TokenBucket.RefillIsExact | examples/01_rate_limiter/rate_limiter.py:15-17 | If the stored level is the least headroom at the last refill, the new one is the least headroom now, capped by the capacity. |
| TokenBucket.AdmitsIffFits | examples/01_rate_limiter/rate_limiter.py:23 | Comparing the request with the level decides whether it fits every window. |
| TokenBucket.StretchBounded | examples/01_rate_limiter/rate_limiter.py:20-26 | From any call to any later admitted call at most capacity plus the refill between them is admitted, whatever the clock, rate and amounts. |
| TokenBucket.EveryWindowBounded | examples/01_rate_limiter/rate_limiter.py:20-26 | No time window of a run admits more than capacity plus its refill, if each refund is made at a time between those of any earlier and any later call. |
| TokenBucket.BoundedIff | examples/01_rate_limiter/rate_limiter.py:20-26 | For given call times and given calls that may be refunds, every window of every run is bounded if and only if each of those is between the times of any earlier and any later call. |
| TokenBucket.OneWayClock | examples/01_rate_limiter/rate_limiter.py:14-26 | A clock that only steps forward, or only back, meets that condition, and so does a run without refunds. |
| TokenBucket.RefundOnASteppedBackClock | examples/01_rate_limiter/rate_limiter.py:20-26 | For all call times with a refund outside what some earlier and some later call span, a run with those times admits twice what a window is due. |
| TokenBucket.WaitSuffices | examples/01_rate_limiter/rate_limiter.py:14-26 | A refused request of at most the capacity fits once its shortfall has been refilled. |
| LongestIncreasing.BisectLeft | scripts/train_saleha_targeted.py:77 | The insertion point before any equal element of a sorted list. |
| LongestIncreasing.LongestIncreasingSubsequence | scripts/train_saleha_targeted.py:71-82 | Some strictly increasing subsequence has the returned length and none is longer. |
| LongestIncreasing.AttainedStep | scripts/train_saleha_targeted.py:77-81 | After reading an element each tail still ends an increasing subsequence of its length. |
| LongestIncreasing.LeastStep | scripts/train_saleha_targeted.py:77-81 | After reading an element no increasing subsequence is longer than the tails or ends below the tail of its length. |
| EditDistance.EditDistance | scripts/train_saleha_targeted.py:188-203 | Some script of insertions, deletions and replacements of the returned length turns one word into the other, and no script is shorter. |
| EditDistance.NoShorter | scripts/train_saleha_targeted.py:189-203 | Every script between two words, editing anywhere in any order, has at least the recurrence's length. |
| EditDistance.OneEdit | scripts/train_saleha_targeted.py:197-202 | One edit at any position changes the distance to any word by at most one. |
| EditDistance.CommonTail | scripts/train_saleha_targeted.py:197-202 | Two words that differ by one edit before a common tail are within one of each other in distance to any word. |
| EditDistance.Shortest | scripts/train_saleha_targeted.py:197-202 | A script of exactly the recurrence's length exists. |
| TopologicalSort.TopologicalSort | scripts/train_saleha_targeted.py:167-185 | The result is empty when the graph has a cycle, and otherwise holds every node once with every edge going forward. |
| TopologicalSort.TakeAll | scripts/train_saleha_targeted.py:177-184 | The main loop ends in an order every edge respects, in which each node left out waits for another one left out. |
| TopologicalSort.TakeNode | scripts/train_saleha_targeted.py:179-181 | Taking the head of the queue keeps indegrees equal to the edges still waiting plus the targets still to be told. |
| TopologicalSort.TellTarget | scripts/train_saleha_targeted.py:182-184 | Telling one target keeps that count, and queues the target exactly when nothing is left to wait for. |
| TopologicalSort.WaitingDrops | scripts/train_saleha_targeted.py:181-182 | Finishing a node releases each target as often as it is listed, repeated edges included. |
| TopologicalSort.CycleOrFull | scripts/train_saleha_targeted.py:185 | The order is full if and only if there is no cycle, and then it is a topological order. |
| TopologicalSort.NoCycleThrough | scripts/train_saleha_targeted.py:167-168 | A graph with a topological order has no cycle. |
| TopologicalSort.CycleAmong | scripts/train_saleha_targeted.py:185 | When every node left out waits for another left out, one of them is on a cycle. |
| MinWindow.MinWindowSubstring | scripts/train_saleha_targeted.py:126-149 | The result is a shortest window holding t with multiplicity, the leftmost of those, or empty exactly when there is no such window or an input is empty. |
| MinWindow.CoversMeans | scripts/train_saleha_targeted.py:126-128 | A window covers t if and only if the substring holds t's characters with multiplicity. |
| MinWindow.AddRight | scripts/train_saleha_targeted.py:136-139 | Taking in a character keeps need and missing equal to the window's exact deficit. |
| MinWindow.DropLeft | scripts/train_saleha_targeted.py:141-148 | Letting go of a character keeps need and missing equal to the window's exact deficit. |
| MinWindow.TightLeft | scripts/train_saleha_targeted.py:141-143 | Once the first character is not in surplus, no window ending there starts later. |
| MinWindow.Tighten | scripts/train_saleha_targeted.py:141-143 | The inner loop keeps need exact and stops where the first character is not in surplus. |
| MinWindow.BestWithWindow | scripts/train_saleha_targeted.py:140-145 | After the comparison the stored window is the smallest of all windows that end so far. |
| MinWindow.Slide | scripts/train_saleha_targeted.py:144-148 | Giving up a tight window's first character leaves exactly one character missing, and every window reaching further back beaten. |
| MinWindow.BestWithout | scripts/train_saleha_targeted.py:136-140 | When the window lacks something, no window ending there beats the stored one. |
| Dijkstra.Dijkstra | scripts/generate_massive_dataset.py:80-97 | The loop terminates having expanded exactly the reachable nodes, each once, and every distance is the least length of any walk, infinite without one; nodes that are no keys appear exactly when reachable. |
| Dijkstra.ExtractMin | scripts/generate_massive_dataset.py:87 | The popped entry is a least entry of the queue. |
| Dijkstra.Expand | scripts/generate_massive_dataset.py:91-95 | Looking at a node's edges keeps the invariant and leaves every edge out of it unable to shorten anything. |
| Dijkstra.Relax | scripts/generate_massive_dataset.py:92-95 | One edge: a shorter way is recorded and queued, edges already looked at stay done. |
| Dijkstra.Settle | scripts/generate_massive_dataset.py:87-89 | A popped entry that is not stale is of a node not expanded before, at its final distance. |
| Dijkstra.Improve | scripts/generate_massive_dataset.py:92-95 | With non-negative weights an improvement never touches an expanded node, and the queue stays sound. |
| Dijkstra.NoShorterWalk | scripts/generate_massive_dataset.py:81 | When no edge can shorten anything, no walk is shorter than the distance of its end. |
| Dijkstra.AllSettled | scripts/generate_massive_dataset.py:86-97 | With the queue empty the table is exactly the least walk lengths. |
| HeadLayout.PermuteIsSwap | scripts/convert_hf_to_gguf_standalone.py:1542-1544 | Element [h][i][j] of the reshaped tensor becomes element [h][j][i]. |
| HeadLayout.PermuteFitsIff | scripts/convert_hf_to_gguf_standalone.py:1542-1544 | The reshape fits if and only if there are heads and the rows are an even number to each. |
| HeadLayout.PermuteInverse | scripts/convert_hf_to_gguf_standalone.py:1539-1544 | The re-layout is a bijection on rows with an explicit inverse, in both directions. |
| HeadLayout.HeadPermuted | scripts/convert_hf_to_gguf_standalone.py:1539-1544 | No row crosses a head boundary: each head of the result is that head with its halves interleaved. |
| HeadLayout.DotWoven | scripts/convert_hf_to_gguf_standalone.py:1549-1555 | A dot product is unchanged when both vectors are interleaved. |
| HeadLayout.ProjectPermuted | scripts/convert_hf_to_gguf_standalone.py:1552-1555 | Projecting with re-laid-out weights and bias re-lays out the projection. |
| HeadLayout.AttentionPreserved | scripts/convert_hf_to_gguf_standalone.py:1549-1555 | Every score of a query head against a key head, biases included, is unchanged by the two re-layouts, for any head counts with heads of one size. |
| OlderLayout.SameLayoutIff | scripts/convert_hf_to_gguf_standalone.py:1542-1544 | On a tensor the reshape accepts, another head count gives the same result if and only if it is the same count. |
| OlderLayout.OlderIsSwap | scripts/convert_hf_to_gguf_standalone.py:1249-1257 | With `per` query heads to each key/value head, the older copy swaps as if there were `per` heads: element [h][i][j] becomes element [h][j][i]. |
| OlderLayout.CopiesAgreeIff | scripts/convert_hf_to_gguf_standalone.py:1249-1257 | The older copy of the re-layout returns the same as the newer one on every tensor the newer accepts if and only if there is no key/value count, or n_head is that count or divides down to it. |
| OlderLayout.OlderKeepsIff | scripts/convert_hf_to_gguf_standalone.py:1241-1245 | With query and key weights re-laid out by the older copy, every score of every model of given sizes without biases is unchanged if and only if the head counts are equal or divide down so. |
| OlderLayout.OlderKeepsBiasedIff | scripts/convert_hf_to_gguf_standalone.py:1241-1247 | With biases, which go through as they are, every score of every model of given sizes is unchanged if and only if, besides, a head has two rows. |
| OlderLayout.BiasLost | scripts/convert_hf_to_gguf_standalone.py:1241-1247 | For all sizes with longer heads some model with a key bias changes a score. |
| OlderLayout.GroupedQueriesLost | scripts/convert_hf_to_gguf_standalone.py:1244-1245 | With 32 query heads over 8 key heads some score changes. |
| FalconLayout.SlicedFrom | scripts/convert_hf_to_gguf_standalone.py:1305-1308 | Element x of group i of a slice is the same place of the same group of the fused tensor. |
| FalconLayout.PlaceFound | scripts/convert_hf_to_gguf_standalone.py:1305-1309 | Each element of the fused tensor is found at a closed-form place: queries first, then keys, then values, each in group order. |
| FalconLayout.RegroupPermutes | scripts/convert_hf_to_gguf_standalone.py:1305-1309 | The regrouped tensor holds exactly the elements of the fused one. |
| FalconLayout.FalconPlaces | scripts/convert_hf_to_gguf_standalone.py:1300-1309 | Whenever the transform succeeds it returns the same elements, with place x of group i where the closed form says. |
| FalconLayout.TimesIs | scripts/convert_hf_to_gguf_standalone.py:1305-1308 | The lengths the closed form is written in are the products of the view's sizes. |
| FalconLayout.FalconFailsIff | scripts/convert_hf_to_gguf_standalone.py:1300-1309 | The transform succeeds if and only if there are heads, the tensor has as many elements as the view, and the groups divide the heads or heads are empty. |
| FalconLayout.GroupedPlaces | scripts/convert_hf_to_gguf_standalone.py:1300-1309 | For a model with kv key/value heads, per query heads to each and heads of headDim rows as wide as the model, the transform succeeds, and this is where every element goes, in those numbers. |
| FalconLayout.OneGroup | scripts/convert_hf_to_gguf_standalone.py:1302 | No key/value head count and a count of zero both mean one. |
| ExpertBuffers.ExpertBuffers.ModifyTensors | scripts/convert_hf_to_gguf_standalone.py:1557-1589 | One arrival changes only its block's buffer, and returns the three stacks when that block has three tensors per expert. |
| ExpertBuffers.ExpertBuffers.MergeExperts | scripts/convert_hf_to_gguf_standalone.py:1569-1587 | The merge stacks w1, w2 and w3 by expert number and takes exactly those names out, or fails on a missing one or on nothing to stack. |
| ExpertBuffers.ExpertBuffers.Finish | scripts/convert_hf_to_gguf_standalone.py:1625-1629 | The final check raises if and only if a name is left in some buffer, and reports all of them. |
| ExpertBuffers.Conservation | scripts/convert_hf_to_gguf_standalone.py:1557-1589 | After any proper arrivals in any order no error has occurred, each buffer holds exactly what arrived for a block not yet complete, and the output is one group of stacks per completed block, at its last arrival. |
| ExpertBuffers.LastArrival | scripts/convert_hf_to_gguf_standalone.py:1566-1589 | The newest tensor meets a block still collecting, and completes it if and only if it is the last one missing. |
| ExpertBuffers.FullIffComplete | scripts/convert_hf_to_gguf_standalone.py:1568 | A buffer reaches three tensors per expert if and only if it holds every one of the block's tensors. |
| ExpertBuffers.EmittedOnce | scripts/convert_hf_to_gguf_standalone.py:1568-1587 | A complete block comes out exactly once per weight with slice x being expert x's tensor; an incomplete one does not come out. |
| ExpertBuffers.SliceIsExpert | scripts/convert_hf_to_gguf_standalone.py:1572-1580 | Every tensor of a complete block is found in the slice of its own expert and weight, whatever the order of arrival. |
| ExpertBuffers.FinishAcceptsIff | scripts/convert_hf_to_gguf_standalone.py:1625-1629 | The final check accepts if and only if each block got all of its tensors or none. |
| ExpertBuffers.Collects | scripts/convert_hf_to_gguf_standalone.py:1566-1568 | Below three tensors per expert a block only collects what arrives for it, whatever the tensors are called. |
| ExpertBuffers.StrayRaises | scripts/convert_hf_to_gguf_standalone.py:1568-1577 | When the number is reached and one of the tensors is no expert's of that block, the conversion fails for the missing name. |
| ExpertBuffers.NothingToStack | scripts/convert_hf_to_gguf_standalone.py:1563-1580 | Without experts the first tensor fails for want of anything to stack, and one of a block that does not exist for want of a buffer. |
| HtmlTags.Tags.HandleStartTag | saleha/agents/artifact_check.py:314-317 | A start tag that is not void is pushed. |
| HtmlTags.Tags.HandleEndTag | saleha/agents/artifact_check.py:319-327 | An end tag pops down to its nearest start tag, reporting what it passes over, or is itself reported. |
| HtmlTags.CleanIffBalanced | saleha/agents/artifact_check.py:307-327 | No error and an empty stack if and only if the non-void events are the word of a forest of elements. |
| HtmlTags.WellFormedIff | saleha/agents/artifact_check.py:338-339 | The check passes if and only if closing some html, body, head, p or li tags at the end would make the page balanced. |
| HtmlTags.VoidIgnored | saleha/agents/artifact_check.py:304-327 | A start or end tag of any of the thirteen void names, written out, leaves no trace at any place of any page. |
| HtmlTags.OtherPushed | saleha/agents/artifact_check.py:314-317 | A start tag of any other name is pushed. |
| HtmlTags.EndCloses | saleha/agents/artifact_check.py:319-325 | An end tag takes its nearest start tag off the stack and reports exactly the tags above it, innermost first. |
| HtmlTags.EndReported | saleha/agents/artifact_check.py:326-327 | An end tag that is not void and whose start tag is not open is reported itself. |
| HtmlTags.CleanRunIsSpine | saleha/agents/artifact_check.py:314-327 | A run without errors has read complete elements around the tags still open, in order. |
| HtmlTags.RunWord | saleha/agents/artifact_check.py:314-327 | A balanced word leaves any stack and any errors as they were. |
| HtmlTags.Accounting | saleha/agents/artifact_check.py:314-327 | Start tags are matched ends plus "not closed" errors plus the stack; end tags are matched ends plus "without an opening tag" errors. |
| FencedBlocks.FencedBlocks | saleha/agents/artifact_check.py:52-81 | The loop returns what reading the text's lines one by one, and then the unclosed block, comes to. |
| FencedBlocks.FenceIff | saleha/agents/artifact_check.py:64-68 | A line is read as a fence if and only if it is white space, three backticks and then no backtick. |
| FencedBlocks.FenceIsRead | saleha/agents/artifact_check.py:64-70 | Three backticks and a language word, however indented and spaced, are read as that word with what stands beside it. |
| FencedBlocks.LowerIs | saleha/agents/artifact_check.py:70 | A language's letters come out in the lower case of the alphabet, everything else as it is. |
| FencedBlocks.SplitAtBreak | saleha/agents/artifact_check.py:63 | Each of the line breaks ends a line, a carriage return with a line feed counting once. |
| FencedBlocks.SplitUnlines | saleha/agents/artifact_check.py:63 | Lines written with a line break after each are split into exactly those lines. |
| FencedBlocks.ReaderUndoesPrinter | saleha/agents/artifact_check.py:52-81 | From the text printed for them, any list of languages, in lower case, and bodies comes back exactly, if no line of a body or of the prose around is a fence and bodies have no empty line at either end: all closed, some running straight into the next language fence, or the last never closed; what stands beside a language begins the body when it opens with a brace, a bracket, a less-than sign or a colon, and is dropped otherwise. |
| FencedBlocks.EachChunkRead | saleha/agents/artifact_check.py:52-81 | Whatever the bodies and whatever stands on the fence lines, each printed chunk gives one block, in order. |
| FencedBlocks.ReadChunk | saleha/agents/artifact_check.py:63-78 | Reading one printed block from any state ends the open block before it and records exactly this one. |
| FencedBlocks.OpenBlankDropped | saleha/agents/artifact_check.py:79-80 | A last block never closed and with only white space in it is dropped, and nothing else is. |
| FencedBlocks.BodyIsVerbatim | saleha/agents/artifact_check.py:74 | A body split into lines comes back as it was written if and only if it has no empty line at either end. |
| FencedBlocks.BodyIsTrimmed | saleha/agents/artifact_check.py:74 | Otherwise it comes back without the empty lines at its ends. |
| CircuitBreaker.Breaker.Wrapper | saleha/agents/chaos_resilience.py:44-62 | Each call is refused, or let through and answered, as the history of faults dictates, and the breaker is open exactly when tripped with no probe pending. |
| CircuitBreaker.NotRefusedBefore | saleha/agents/chaos_resilience.py:46-62 | As long as there were no faults, or fewer than max_failures, no call is refused, whatever returned in between. |
| CircuitBreaker.RefusedIff | saleha/agents/chaos_resilience.py:46-62 | While the last call let through is the fault that makes up max_failures (or the first, if that is below one), or a later fault with no return since a refusal, the next call is refused if and only if it comes at most the timeout after that fault. |
| CircuitBreaker.ProbeRenews | saleha/agents/chaos_resilience.py:51-56 | Once a probe returns, every call from then on is answered as a new breaker would answer it. |
| CircuitBreaker.LetThrough | saleha/agents/chaos_resilience.py:46-50 | With a forward clock, a call let through while tripped comes more than the timeout after the last fault. |
| CircuitBreaker.FaultsSpaced | saleha/agents/chaos_resilience.py:46-61 | Each fault past the threshold comes more than the timeout after the fault before it. |
| CircuitBreaker.OpensAtThreshold | saleha/agents/chaos_resilience.py:58-61 | The breaker opens exactly at the fault that reaches the threshold. |
| CircuitBreaker.LoadIsFaultsIff | saleha/agents/chaos_resilience.py:44-62 | The calls let through since the breaker opened are as many as the faults past the threshold if and only if none of them was aborted. |
| CircuitBreaker.RateBounded | saleha/agents/chaos_resilience.py:44-62 | As long as none was aborted, n > 0 calls let through since the breaker opened take more than n timeouts from the opening fault to the last. |
| CircuitBreaker.FaultsRateBounded | saleha/agents/chaos_resilience.py:44-62 | Whatever is aborted, n > 0 faults past the opening one take more than n timeouts. |
| CircuitBreaker.AbortedProbeHoldsOpen | saleha/agents/chaos_resilience.py:57-62 | From a probe that ends in an uncaught exception until a call returns or raises, no call is refused, whenever it comes. |
| CircuitBreaker.AbortsUnbounded | saleha/agents/chaos_resilience.py:44-62 | From any tripped state, as soon as a call is let through, any number of calls that abort are let through at that same instant. |
| CircuitBreaker.LetThroughAt | saleha/agents/chaos_resilience.py:46-48 | In any tripped state there comes an instant at which a call is let through. |
| CircuitBreaker.BoundedIff | saleha/agents/chaos_resilience.py:44-62 | For a service whose calls can end in given ways, in every run the n-th call let through since the breaker opened comes more than n timeouts after it did, if and only if calls cannot be aborted, or cannot raise, or the timeout is not positive. |
| CircuitBreaker.Flood | saleha/agents/chaos_resilience.py:44-62 | For every configuration with a positive timeout there is a run of calls that raise and abort in which that fails. |
| CircuitBreaker.BelowOneIsOne | saleha/agents/chaos_resilience.py:60 | A maximum below one behaves like one on every history. |
| Orchestrator.Orchestrator.ExecuteTask | saleha/orchestrator.py:338-920 | A run that enters the loop ends with an honest result, one stats record, one history entry, one metric and a terminal session matching it, within the attempts, and cannot be resumed; it executes only what its suite passed, and everything that was cleared and approved; any other run executes at most a race of candidates and claims nothing verified. |
| Orchestrator.Orchestrator.CarryThrough | saleha/orchestrator.py:694-920 | From where the loop starts: with a suite that can run, a success rests on a pass of that suite on exactly the returned code, right before it ran. |
| Orchestrator.Orchestrator.Prepare | saleha/orchestrator.py:381-664 | Each exit in full: a resume without a resumable session is refused and writes nothing; a skill's answer, a replayed one, a failed plan, a question and failed first code are answered and recorded as such; otherwise the loop starts from the saved code or the patched first code, the race's winner if there is one, with the race's suite or one written for it. |
| Orchestrator.Orchestrator.Race | saleha/orchestrator.py:569-622 | Candidates are raced only when more than one is asked for and a draft has a suite; the winner, if there is one, replaces the coder's answer, and that suite is kept. |
| Orchestrator.Orchestrator.Heal | saleha/orchestrator.py:708-920 | The programs tried are each the patched repair of the one before, one attempt each, never past the maximum; nothing is executed but what its suite, where it can run, has just passed, and whatever is cleared and approved is; the result is about the last program, a success exactly when that ran clean, and the records name who wrote it or failed to repair it. |
| Orchestrator.Orchestrator.Round | saleha/orchestrator.py:708-913 | One round keeps all that, or ends the run so. |
| Orchestrator.Orchestrator.Attempt | saleha/orchestrator.py:709-913 | One round in full: which events it adds, when it is final and how, and whose repair it tries next. |
| Orchestrator.Orchestrator.RunApproved | saleha/orchestrator.py:745-816 | Approved code is executed: blocked or crashed with no attempt left ends in an honest failure, clean in an honest success, and a crash before that in a repair. |
| Orchestrator.Orchestrator.RunUnapproved | saleha/orchestrator.py:837-884 | With no attempt left, unapproved code is executed before it is accepted, and accepted only if it ran clean. |
| Orchestrator.Orchestrator.Enter | saleha/orchestrator.py:694-695 | On entering the loop the run is checkpointed, unless there is no code. |
| Orchestrator.Orchestrator.Test | saleha/orchestrator.py:711-738 | Only a real suite run yields a proof; code passes by a verified suite where that can run, and by a clean static check otherwise. |
| Orchestrator.Orchestrator.FixRuntimeFailure | saleha/orchestrator.py:206-226 | The debugger's fix if it has one, otherwise the coder's answer. |
| Orchestrator.Orchestrator.HandleVerifiedSuccess | saleha/orchestrator.py:277-336 | The result carries the suite's proof if and only if it covers exactly this code and suite, and the memory entry and the commit say tested exactly then. |
| Orchestrator.Orchestrator.AcceptUnapproved | saleha/orchestrator.py:869-884 | A best-effort accept is a success without a proof that names its reason, and is not remembered. |
| Orchestrator.Orchestrator.Checkpoint | saleha/orchestrator.py:666-692 | The session is replaced, and a metric is added exactly for a terminal status. |
| Orchestrator.SuccessIsHonest | saleha/orchestrator.py:767-779 | A first clean execution right after this round's verdict makes the success, and its proof, exactly what the events show. |
| Orchestrator.VerifiedLast | saleha/orchestrator.py:767-779 | A success in a run that executes only judged code rests on a pass of its suite on exactly that code. |
| Orchestrator.AfterRound | saleha/orchestrator.py:738-913 | A round is followed by another exactly when nothing final happened, attempts are left and the right oracle came up with a repair. |
| Orchestrator.FailureIsHonest | saleha/orchestrator.py:915-920 | A run in which nothing ran clean may only report failure. |
| Orchestrator.CoversExactly | saleha/core/harness/verdict.py:63-65 | A proof covers only the pair that was judged if and only if neither text contains the separator. |
| Orchestrator.CoversOneParsable | saleha/core/harness/verdict.py:126-128 | Among codes without the separator a proof covers one code and suite only. |
| Orchestrator.SeparatorInCode | saleha/core/harness/verdict.py:63-65 | For every separator in the code, a proof also covers the code cut there, with the rest in the suite. |
| Orchestrator.SeparatorInSuite | saleha/core/harness/verdict.py:63-65 | For every separator in the suite, a proof also covers the suite cut there, with the rest in the code. |
| Orchestrator.ResumeRestores | saleha/orchestrator.py:381-664 | Resuming what was written on entering the loop starts the loop from the same goal, code, suite, attempt and language if and only if the goal, the attempt and the language are ones the checkpoint can give back. |

## Left out

- MergeList.MergeListPreservesMeaning: assumes that the table is iterated by strictly increasing rank, which the source relies on but does not establish; for every other order AgreeIff gives the exact condition.
- Model calls, HTTP, sandboxes, Docker, git, the file system, plugins, profiles, prompts and log text: the oracles' answers are parameters, and what is not decided by them is not modelled.
- Orchestrator.Orchestrator.Checkpoint: does not model the profile, the context directory, the complexity score and the model name in the session, nor the duration and token count in the metric.
- Orchestrator.Orchestrator.HandleVerifiedSuccess: a commit is recorded when it is asked for inside a repository; whether git then accepts it is not part of this model.
- Failures of the stores themselves: the memory store's I/O errors are swallowed by the source and are not part of this model.
- How a suite's verdict is minted, how a race is judged and how the arbiter writes its note: a verdict is an oracle's answer, and SHA-256 is taken to be injective on what it hashes.
- Locks and threads of the token bucket: one consume is one atomic step.
- Floating-point rounding of time, weights, token levels and tensor elements: they are reals, and NaN or infinite weights are not modelled.
- TopologicalSort.TopologicalSort: edge endpoints are in range, so Python's negative indices and the IndexError past the end are not modelled.
- Dijkstra: the order of equal distances in the heap, which Python breaks by name, is arbitrary here.
- MinWindow and EditDistance: characters are compared as they are, without Unicode normalisation.
- FencedBlocks: the fence regular expression is written out as what it accepts; lower-casing, stripping and line breaks are those of ASCII (stripping in Orchestrator too).
- HtmlTags: the HTML parser itself, the attributes it reports, and the other page checks (language, title, viewport, alt text).
- HeadLayout: a row is kept whole, and negative head counts are not modelled.
- ExpertBuffers: names are parsed already, tensor data is abstract, so a stack of tensors of different shapes does not fail here; the buffers after a failed merge are not described, since the conversion stops there.
- BytePairEncoding: the rendering of bytes as text and the joining of the two parts by a space; the added vocabulary of special tokens.
- CircuitBreaker.RateBounded: calls come one after the other; reentrant and concurrent calls are not modelled, and while a probe is in flight the source lets every other call through.
- CircuitBreaker.BoundedIff: of calls that come one after the other, as above.
- The remaining reference solutions (intervals, islands, word break, LRU cache, k closest and the like), `balanced`, `sql_statements`, `verdict` and `produce`: simpler members of the same kinds.
- The rest of the converter: hyper-parameter copying, pre-tokenizer hashes, quantization and vocabulary files.
