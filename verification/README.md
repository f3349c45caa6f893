# Octopus profiler: a Dafny model

Octopus is an Akka cluster application that solves a four-phase puzzle over
a CSV of student records. The master runs a `Profiler` actor and a
`ClusterListener` actor; slaves run `Worker` actors that register with the
profiler. The four phases are:

1. Crack six-digit SHA-256 password hashes by brute force.
2. Search for a +1/−1 sign assignment that balances the cracked numbers
   (the "linear combination").
3. Compare every pair of genes for their longest common substring.
4. Mine one final hash per student.

This project models three things:

- **The profiler's coordinator.** This covers the FIFO of unassigned work,
  the FIFO of idle workers, the map of busy workers, and the two `assign`
  overloads that match them greedily. It also covers the handlers for
  registration, termination, the task and completions, and the phase steps a
  completion triggers: cracking the hashes, refilling counter ranges,
  starting the gene comparisons, requesting the final hashes, and shutting
  down.
- **The worker's pure computations.** These are the hex rendering of a
  digest, primality testing, and one row of the subset-sum reachability
  table.
- **The cluster listener's trigger.** This is when it sends the task to the
  profiler.

Modules, one per concern:

| module | file | what it holds |
|---|---|---|
| `Wrappers` | wrappers.dfy | `Option` and `Result` |
| `Chars` | chars.dfy | decimal and lowercase hexadecimal digit characters |
| `Hex` | hex.dfy | Java bytes, `Integer.toString(_, 16)`, the per-byte hex rendering and its inverse |
| `JavaInt` | java_int.dfy | Java's `Integer.MAX_VALUE` |
| `Keyspace` | keyspace.dfy | `%06d`, `Integer.parseInt`, the six-digit keyspace and its 100-candidate batches |
| `Worker` | worker.dfy | `calulateHash`, `calculateHashes`, `isPrime`, `calculateNewRow` |
| `Messages` | messages.dfy | work items, completion statuses and payloads |
| `Coordinator` | coordinator.dfy | work queue, idle queue and busy map, with their invariant and the outstanding-work multiset |
| `Profiler` | profiler.dfy | the profiler state and every handler and phase step |
| `Completion` | completion.dfy | what `handle(CompletionMessage)` promises across its branches |
| `ClusterListener` | cluster_listener.dfy | the listener's counters and its task trigger |

Modelling choices:

- The profiler is a pure state machine over an immutable `ProfilerState`.
- Java `HashMap` iteration orders are explicit inputs. An `IterationOrder`
  holds one sequence per map the handlers walk, and each sequence lists
  every key exactly once.
- An exception thrown inside a handler is a `Failure(Fault)`. These are a
  `ClassCast` when a completion's kind does not match its work, an
  `IndexOutOfBounds` on a short result array, a `NullPartner` for a missing
  gene entry, and a `NumberFormat` from `Integer.parseInt`.
- SHA-256 is a parameter `Digest` of the worker functions.
- The outstanding work is a multiset: the queue plus what the busy workers
  hold. The coordinator invariant says three things. An idle worker and
  queued work never coexist. No worker is idle twice. No idle worker is
  busy.

Behaviour of the code worth noting:

- **No phase variable.** The profiler dispatches on the kind of the
  finished work. A linear-combination result with no solution therefore
  always refills, even after a solution was found and the ranges were
  dropped (`Profiler.OnCombinationResult`).
- **`isPrime(1)` is true**, as the code's first test returns (`Worker.IsPrime`).
- **The refill loop can submit fewer than 50 ranges.** It re-reads
  `50 - unassignedWork.size()` on every iteration, so with no idle worker it
  queues only ⌈(50 − q)/2⌉ ranges, not 50 − q
  (`Profiler.RefillWithoutIdleWorkers`).
- **The listener keeps sending.** `running` is never set, so every further
  `MemberUp` sends the task again once the guard holds
  (`ClusterListener.EveryMemberUpResends`).

## Model

| member | source | states |
|---|---|---|
| Hex.Unsigned | octopus/src/main/java/de/hpi/octopus/actors/Worker.java:199 | `b & 0xff` is in [0, 256) and congruent to the signed byte modulo 256 |
| Hex.Signed | octopus/src/main/java/de/hpi/octopus/actors/Worker.java:199 | every unsigned byte value has a Java byte whose `& 0xff` reading is that value |
| Hex.ToStringRadix16 | octopus/src/main/java/de/hpi/octopus/actors/Worker.java:199 | `Integer.toString(n, 16)` writes at least one lowercase hex digit |
| Hex.ToStringRadix16RoundTrip | octopus/src/main/java/de/hpi/octopus/actors/Worker.java:199 | reading the radix-16 text back gives the number |
| Hex.ThreeDigitRadix16 | octopus/src/main/java/de/hpi/octopus/actors/Worker.java:199 | a value in [0x100, 0x200) prints as `1` followed by its two low hex digits, so `.substring(1)` keeps exactly those two |
| Hex.ByteToHex | octopus/src/main/java/de/hpi/octopus/actors/Worker.java:199 | one byte renders as two digits: the high and low nibble of its unsigned value |
| Hex.HexEncode | octopus/src/main/java/de/hpi/octopus/actors/Worker.java:197-201 | the rendering is two lowercase hex digits per byte, byte `i` at positions `2i` and `2i+1` |
| Hex.HexDecode | octopus/src/main/java/de/hpi/octopus/actors/Worker.java:197-201 | reading a hex text back yields half as many bytes as it has digits |
| Hex.HexDecodeEncode | octopus/src/main/java/de/hpi/octopus/actors/Worker.java:197-201 | decoding the rendering of any byte sequence returns that byte sequence |
| Hex.HexEncodeDecode | octopus/src/main/java/de/hpi/octopus/actors/Worker.java:197-201 | every even-length lowercase hex text is the rendering of the bytes it decodes to |
| Hex.HexEncodeInjective | octopus/src/main/java/de/hpi/octopus/actors/Worker.java:197-201 | distinct byte sequences render as distinct texts |
| Chars.DigitChar | octopus/src/main/java/de/hpi/octopus/actors/Worker.java:199 | a digit below 16 is a lowercase hex character, and a decimal character exactly when it is below 10 |
| Chars.DigitValue | octopus/src/main/java/de/hpi/octopus/actors/Worker.java:199 | every lowercase hex character is the character of a digit below 16 |
| Chars.DigitValueOfDigitChar | octopus/src/main/java/de/hpi/octopus/actors/Worker.java:199 | reading the digit character back gives the digit |
| Worker.CalculateHash | octopus/src/main/java/de/hpi/octopus/actors/Worker.java:184-202 | the hash text has two hex digits per digest byte and decodes back to the digest of the password |
| Worker.CalculateHashInjective | octopus/src/main/java/de/hpi/octopus/actors/Worker.java:184-202 | two passwords get the same hash text exactly when their digests are equal |
| Worker.CalculateHashes | octopus/src/main/java/de/hpi/octopus/actors/Worker.java:204-210 | one hash per candidate, aligned index for index |
| Worker.IsPrime | octopus/src/main/java/de/hpi/octopus/actors/Worker.java:166-182 | 1, 2 and 3 are accepted; other even numbers are rejected; an odd number is accepted exactly when no odd `i >= 3` with `i*i <= n` divides it |
| Worker.IsPrimeTestIsPrimality | octopus/src/main/java/de/hpi/octopus/actors/Worker.java:166-182 | for `n >= 2` the test `isPrime` performs agrees with primality |
| Worker.CalculateNewRow | octopus/src/main/java/de/hpi/octopus/actors/Worker.java:212-227 | a negative slice length throws `IllegalArgumentException` (`Collections.nCopies`); otherwise the call succeeds exactly when every index read (`i`, and `i - password` for an unreachable cell with `i - password >= 0`) lies in the list, and throws `IndexOutOfBoundsException` when one does not; on success the slice has `endIndex - startIndex` cells, a reachable cell keeps its summands, an unreachable cell `i` gets the summands of `i - password` plus `password` when that cell is reachable and stays unreachable otherwise, and summands keep adding up to their index |
| Keyspace.ZeroPadded | octopus/src/main/java/de/hpi/octopus/actors/Profiler.java:331 | `%0<w>d` writes exactly `w` decimal digits |
| Keyspace.ZeroPaddedRoundTrip | octopus/src/main/java/de/hpi/octopus/actors/Profiler.java:331 | reading the padded digits back gives the number |
| Keyspace.ParseInt | octopus/src/main/java/de/hpi/octopus/actors/Profiler.java:343 | `Integer.parseInt` succeeds exactly on an optional `+` or `-` followed by at least one decimal digit whose signed value fits an `int`, and then yields that signed value; the empty string is rejected |
| Keyspace.SixDigit | octopus/src/main/java/de/hpi/octopus/actors/Profiler.java:331 | keyspace entry `i` is six decimal digits that parse back to `i` |
| Keyspace.SixDigitNumbers | octopus/src/main/java/de/hpi/octopus/actors/Profiler.java:328-334 | the keyspace has one million entries, entry `i` being `%06d` of `i` |
| Keyspace.SixDigitNumbersDistinct | octopus/src/main/java/de/hpi/octopus/actors/Profiler.java:328-334 | no candidate occurs twice in the keyspace |
| Keyspace.Batches | octopus/src/main/java/de/hpi/octopus/actors/Profiler.java:199-201 | the batches are all 100 long and together as long as the input |
| Keyspace.FlattenBatches | octopus/src/main/java/de/hpi/octopus/actors/Profiler.java:199-201 | gluing the batches back together gives the original sequence |
| Keyspace.BatchAt | octopus/src/main/java/de/hpi/octopus/actors/Profiler.java:199-201 | batch `k` is the slice `[100k, 100k + 100)` (`Arrays.copyOfRange(_, i, i + 100)`) |
| Keyspace.BatchElement | octopus/src/main/java/de/hpi/octopus/actors/Profiler.java:199-201 | candidate `j` of batch `k` is element `100k + j` of the keyspace |
| Keyspace.KeyspaceBatches | octopus/src/main/java/de/hpi/octopus/actors/Profiler.java:196-203 | the keyspace splits into 10,000 batches; candidate `j` of batch `k` parses to `100k + j`; the batches flatten back to the keyspace |
| Coordinator.AssignWork | octopus/src/main/java/de/hpi/octopus/actors/Profiler.java:290-300 | with no idle worker the work joins the tail of the queue and nothing else changes; otherwise the oldest idle worker becomes busy with it |
| Coordinator.AssignWorker | octopus/src/main/java/de/hpi/octopus/actors/Profiler.java:302-312 | with no queued work the worker joins the tail of the idle queue; otherwise it becomes busy with the oldest queued item |
| Coordinator.AssignWorkPreserves | octopus/src/main/java/de/hpi/octopus/actors/Profiler.java:290-300 | offering work keeps the invariant, adds exactly that item to the outstanding work and keeps the set of known workers |
| Coordinator.AssignWorkInv | octopus/src/main/java/de/hpi/octopus/actors/Profiler.java:290-300 | offering work keeps the coordinator invariant |
| Coordinator.AssignWorkPool | octopus/src/main/java/de/hpi/octopus/actors/Profiler.java:290-300 | offering work adds exactly that item to the outstanding work |
| Coordinator.AssignWorkTracked | octopus/src/main/java/de/hpi/octopus/actors/Profiler.java:290-300 | offering work neither adds nor drops a worker |
| Coordinator.AssignWorkerPreserves | octopus/src/main/java/de/hpi/octopus/actors/Profiler.java:302-312 | offering an unknown worker keeps the invariant, leaves the outstanding work unchanged and adds exactly that worker |
| Coordinator.AssignWorkerInv | octopus/src/main/java/de/hpi/octopus/actors/Profiler.java:302-312 | offering an unknown worker keeps the coordinator invariant |
| Coordinator.AssignWorkerPool | octopus/src/main/java/de/hpi/octopus/actors/Profiler.java:302-312 | offering an unknown worker leaves the outstanding work unchanged |
| Coordinator.AssignWorkerTracked | octopus/src/main/java/de/hpi/octopus/actors/Profiler.java:302-312 | offering a worker adds exactly that worker to the known ones |
| Coordinator.AssignAll | octopus/src/main/java/de/hpi/octopus/actors/Profiler.java:199-201 | offering a batch with no idle worker appends the whole batch to the queue in order |
| Coordinator.AssignAllPreserves | octopus/src/main/java/de/hpi/octopus/actors/Profiler.java:199-201 | offering a batch keeps the invariant, adds exactly the batch to the outstanding work and keeps the known workers |
| Coordinator.AssignAllQueued | octopus/src/main/java/de/hpi/octopus/actors/Profiler.java:376-390 | after offering a batch the queue holds only items that were queued before or belong to the batch |
| Coordinator.RemoveFirst | octopus/src/main/java/de/hpi/octopus/actors/Profiler.java:162 | `Queue.remove(Object)` drops exactly one occurrence of the worker |
| Coordinator.RemoveFirstAt | octopus/src/main/java/de/hpi/octopus/actors/Profiler.java:162 | the occurrence dropped is the first one |
| Coordinator.RemoveFirstDistinct | octopus/src/main/java/de/hpi/octopus/actors/Profiler.java:162 | removing a worker from a duplicate-free idle queue keeps it duplicate-free and leaves exactly the other workers |
| Coordinator.Release | octopus/src/main/java/de/hpi/octopus/actors/Profiler.java:207 | `busyWorkers.remove(worker)` takes exactly that worker out of the busy map, every other busy worker keeps its item, and both queues are left alone |
| Coordinator.ReleasePreserves | octopus/src/main/java/de/hpi/octopus/actors/Profiler.java:207 | releasing keeps the invariant and takes exactly the worker's item, if any, out of the outstanding work |
| Coordinator.TerminatePreserves | octopus/src/main/java/de/hpi/octopus/actors/Profiler.java:159-169 | `Terminate` (the `Terminated` handler) keeps the invariant, forgets exactly that worker, loses no work, and every other busy worker keeps its item |
| Profiler.Register | octopus/src/main/java/de/hpi/octopus/actors/Profiler.java:152-157 | registration changes only the worker bookkeeping, and afterwards the worker is idle or busy |
| Profiler.Terminated | octopus/src/main/java/de/hpi/octopus/actors/Profiler.java:159-169 | termination changes only the worker bookkeeping |
| Profiler.CrackingWork | octopus/src/main/java/de/hpi/octopus/actors/Profiler.java:196-203 | `begin` submits only cracking items, whose candidate lists are the keyspace batches in order |
| Profiler.CrackingWorkIsBatches | octopus/src/main/java/de/hpi/octopus/actors/Profiler.java:196-203 | cracking item `k` carries keyspace batch `k` |
| Profiler.CrackingWorkCoversKeyspace | octopus/src/main/java/de/hpi/octopus/actors/Profiler.java:196-203 | 10,000 items of 100 candidates; candidate `j` of item `k` is the number `100k + j`; together exactly the keyspace, in order |
| Profiler.StartTask | octopus/src/main/java/de/hpi/octopus/actors/Profiler.java:171-194 | the task replaces the hash and gene maps and changes nothing else but the worker bookkeeping; with no idle worker every cracking item is queued in order |
| Profiler.StartTaskSubmitsKeyspace | octopus/src/main/java/de/hpi/octopus/actors/Profiler.java:171-203 | the task keeps the invariant, adds exactly the cracking items to the outstanding work and keeps the known workers |
| Profiler.MergeHashes | octopus/src/main/java/de/hpi/octopus/actors/Profiler.java:217-219 | the merged map's keys are the old ones plus the batch's hashes; a hash not in the batch keeps its candidate |
| Profiler.MergeHashesLastWins | octopus/src/main/java/de/hpi/octopus/actors/Profiler.java:217-219 | a hash repeated in a batch maps to the candidate of its last occurrence |
| Profiler.MergedHashesCrack | octopus/src/main/java/de/hpi/octopus/actors/Profiler.java:217-219 | when the worker's hashes are the hex digests of the candidates and the digest is injective on the batch, each candidate's hash maps back to that candidate |
| Profiler.CrackOne | octopus/src/main/java/de/hpi/octopus/actors/Profiler.java:338-343 | one iteration of `crackPasswords` leaves the hash maps untouched |
| Profiler.CrackPasswords | octopus/src/main/java/de/hpi/octopus/actors/Profiler.java:336-344 | the walk succeeds exactly when every id's hash was cracked to a parseable number, fails with `NumberFormatException` otherwise, and changes only the plain texts and the cracked numbers |
| Profiler.CrackOneKeepsLookups | octopus/src/main/java/de/hpi/octopus/actors/Profiler.java:341-342 | storing one plain text changes no id's lookup |
| Profiler.CrackPasswordsAppends | octopus/src/main/java/de/hpi/octopus/actors/Profiler.java:336-344 | on success the cracked numbers are the old list followed by the parsed plain text of each id, in iteration order |
| Profiler.CrackPasswordsStoresTexts | octopus/src/main/java/de/hpi/octopus/actors/Profiler.java:336-344 | on success every walked id maps to the plain text whose hash matches its own, and every other id keeps its text |
| Profiler.CrackPasswordsCracksAll | octopus/src/main/java/de/hpi/octopus/actors/Profiler.java:336-344 | a successful walk leaves every id crackable, maps each id to the candidate whose hash matches its own, and appends each id's number to the cracked list in iteration order |
| Profiler.RefillFrom | octopus/src/main/java/de/hpi/octopus/actors/Profiler.java:363-374 | the submitted ranges are consecutive 10,000-wide ranges from the counter; the counter ends past them; the loop stops once the re-read bound is reached; a queue of at most 50 stays at most 50 |
| Profiler.RefillWithoutIdleWorkers | octopus/src/main/java/de/hpi/octopus/actors/Profiler.java:366-373 | with no idle worker the loop queues ⌈(50 − q)/2⌉ ranges, each appended in order |
| Profiler.RefillCountWithoutIdleWorkers | octopus/src/main/java/de/hpi/octopus/actors/Profiler.java:366-373 | with no idle worker the loop submits ⌈(50 − q − i)/2⌉ ranges from iteration `i` on |
| Profiler.RefillQueuesWithoutIdleWorkers | octopus/src/main/java/de/hpi/octopus/actors/Profiler.java:366-373 | with no idle worker every submitted range is appended to the queue, in order |
| Profiler.CalculateLinearCombination | octopus/src/main/java/de/hpi/octopus/actors/Profiler.java:361-374 | the refill changes only the worker bookkeeping and the counter; the counter moves forward by whole packages, and strictly when fewer than 50 items are queued |
| Profiler.AssignPrefixes | octopus/src/main/java/de/hpi/octopus/actors/Profiler.java:235-241 | the `i`-th id visited gets `prefixes[i]`; other ids keep their sign; the loop throws `ArrayIndexOutOfBoundsException` exactly when the array is shorter than the id list |
| Profiler.PairsWith | octopus/src/main/java/de/hpi/octopus/actors/Profiler.java:381-388 | the inner loop submits only comparisons of the outer gene with a gene of larger id |
| Profiler.GenePairs | octopus/src/main/java/de/hpi/octopus/actors/Profiler.java:376-390 | the nested loops submit only comparisons of a pair `a < b`, carrying both genes |
| Profiler.PairsWithCount | octopus/src/main/java/de/hpi/octopus/actors/Profiler.java:381-388 | with distinct ids the inner loop submits each pair with a larger id exactly once and nothing else |
| Profiler.GenePairsCount | octopus/src/main/java/de/hpi/octopus/actors/Profiler.java:376-390 | with distinct ids every pair `a < b` is submitted exactly once and nothing else is |
| Profiler.StartGeneComparison | octopus/src/main/java/de/hpi/octopus/actors/Profiler.java:376-390 | starting the comparisons changes only the worker bookkeeping; with no idle worker every pair is queued in loop order |
| Profiler.RecordOverlap | octopus/src/main/java/de/hpi/octopus/actors/Profiler.java:251-259 | each compared id's stored length becomes the larger of old and new; a strictly longer overlap makes the other id its partner; ties and shorter overlaps keep the entry; other ids are untouched |
| Profiler.ApplyOverlapsKeepsBest | octopus/src/main/java/de/hpi/octopus/actors/Profiler.java:251-259 | after any run of results an id's stored length is at least every length reported for it and never drops, and its stored partner is one it was compared with (or its starting entry) |
| Profiler.PrefixText | octopus/src/main/java/de/hpi/octopus/actors/Profiler.java:264 | the prefix string is "1" exactly for sign 1 and "0" otherwise |
| Profiler.HashRequests | octopus/src/main/java/de/hpi/octopus/actors/Profiler.java:264 | one hash request per prefixed id, in order, carrying its prefix string and best partner; throws `NullPointerException` exactly when some id has no partner entry |
| Completion.RefillPreserves | octopus/src/main/java/de/hpi/octopus/actors/Profiler.java:361-374 | a refill keeps the invariant, adds exactly the submitted ranges to the outstanding work and keeps the known workers |
| Completion.CrackingResultPreserves | octopus/src/main/java/de/hpi/octopus/actors/Profiler.java:213-224 | `OnCrackingResult` (the cracking branch) keeps the invariant and the known workers |
| Completion.CombinationResultPreserves | octopus/src/main/java/de/hpi/octopus/actors/Profiler.java:225-245 | `OnCombinationResult` (the linear-combination branch) keeps the invariant and the known workers |
| Completion.OverlapResultPreserves | octopus/src/main/java/de/hpi/octopus/actors/Profiler.java:246-265 | `OnOverlapResult` (the gene branch) keeps the invariant and the known workers |
| Completion.OnSuccessPreserves | octopus/src/main/java/de/hpi/octopus/actors/Profiler.java:212-281 | `OnSuccess`, which picks the branch by work kind, keeps the invariant and the known workers in every branch, including `OnHashResult` |
| Completion.DispatchPreserves | octopus/src/main/java/de/hpi/octopus/actors/Profiler.java:205-285 | `Dispatch` (release the sender, then requeue `FAILED` work or run `OnSuccess`) leaves the invariant holding, the sender unknown and every other worker as it was |
| Completion.CompletionPreservesInvariant | octopus/src/main/java/de/hpi/octopus/actors/Profiler.java:205-288 | `HandleCompletion` (`Dispatch`, then the sender is offered again) keeps the invariant, and the known workers afterwards are those before plus the sender |
| Completion.FailedCompletionRequeues | octopus/src/main/java/de/hpi/octopus/actors/Profiler.java:282-287 | a `FAILED` completion succeeds, does not shut down, keeps the outstanding work and the known workers, and records nothing |
| Completion.OnSuccessWhileBusy | octopus/src/main/java/de/hpi/octopus/actors/Profiler.java:212-281 | while work is outstanding, a successful cracking, gene or hash result does not shut down and changes only its own result map: a cracking result merges its hashes into the calculated hashes, a gene result records the overlap, a hash result stores the hash under its id |
| Completion.NoPhaseStepUntilDrained | octopus/src/main/java/de/hpi/octopus/actors/Profiler.java:205-288 | while other work is outstanding, such a result takes its item out of the outstanding work, submits nothing, starts no later phase and does not shut down |
| Completion.ShutdownOnlyWhenDrained | octopus/src/main/java/de/hpi/octopus/actors/Profiler.java:266-280 | the poison pill goes out exactly on a successful hash result that leaves no work queued or in flight, and that result is stored |
| Completion.ShutdownImpliesDrained | octopus/src/main/java/de/hpi/octopus/actors/Profiler.java:205-288 | a shutdown comes only from a successful hash result that leaves nothing queued or in flight |
| Completion.DrainedHashResultShutsDown | octopus/src/main/java/de/hpi/octopus/actors/Profiler.java:266-280 | `OnHashResult`: a successful hash result that leaves nothing queued or in flight stores the hash and shuts down |
| Completion.FoundCombinationStartsGeneComparison | octopus/src/main/java/de/hpi/octopus/actors/Profiler.java:232-244 | a found assignment succeeds exactly when the sign array covers every cracked id; afterwards only gene comparisons are queued, the counter and cracked numbers are unchanged, and each id holds its sign |
| Completion.ExhaustedRangeRefills | octopus/src/main/java/de/hpi/octopus/actors/Profiler.java:230-231 | a range without a solution refills: the counter moves past the new ranges, the finished range leaves the outstanding work, the new ranges join it, and nothing else changes |
| Completion.OnLastCrackingResult | octopus/src/main/java/de/hpi/octopus/actors/Profiler.java:213-224 | the last cracking result succeeds exactly when every id cracks to a number. Then each id maps to the candidate whose hash matches its own, the cracked numbers are the old list followed by each id's number in iteration order, the counter advances, and the invariant and known workers hold |
| Completion.LastCrackingResultCracksAll | octopus/src/main/java/de/hpi/octopus/actors/Profiler.java:205-288 | the same through the whole completion handler (`HandleCompletion`), for a sender whose cracking item was the last outstanding work: it succeeds exactly when every id cracks; then each id maps to its matching candidate, the cracked numbers gain each id's number in order, the counter advances, the invariant holds and the known workers are unchanged |
| ClusterListener.Handle | octopus/src/main/java/de/hpi/octopus/actors/listeners/ClusterListener.java:79-104 | a task is sent exactly on `MemberUp` or `WaitForCluster` when afterwards not running, enough members are up and the path is non-empty; it carries that path; `running` never changes; only `WaitForCluster` sets the threshold and path, and it leaves the count alone; `MemberUp` adds one member and `MemberRemoved` takes one away; every other event changes nothing and sends nothing |
| ClusterListener.RunCounts | octopus/src/main/java/de/hpi/octopus/actors/listeners/ClusterListener.java:81-94 | over any run, `running` stays as it was and the member count is the start plus ups minus removals |
| ClusterListener.TasksCarryGivenPath | octopus/src/main/java/de/hpi/octopus/actors/listeners/ClusterListener.java:96-104 | every task sent carries a non-empty path that some `WaitForCluster` delivered, or the starting path |
| ClusterListener.NoTaskBeforeWaitForCluster | octopus/src/main/java/de/hpi/octopus/actors/listeners/ClusterListener.java:53-56 | from an empty path nothing is sent until a `WaitForCluster` arrives |
| ClusterListener.EveryMemberUpResends | octopus/src/main/java/de/hpi/octopus/actors/listeners/ClusterListener.java:81-87 | once the guard holds, each further `MemberUp` sends the task again |

## Left out

- Akka plumbing is not modelled. This covers actor creation, `watch` and
  `unwatch`, message delivery, `tell`, `preStart` and `postStop` (which sends
  the poison pill to every worker), and the `PoisonPillMessage` handlers.
  The model records only the state each handler leaves behind, and the
  shutdown broadcast as a flag.
- Logging, `report` and timing (`startTime`) are not modelled, since they
  change no state. The one effect of `report` that matters is kept: for a
  cracking result it reads `hashes[0]`, so an empty hash array fails.
- CSV parsing in `handle(TaskMessage)` is not modelled. `Profiler.StartTask`
  takes the parsed id→hash and id→gene maps as parameters. A missing file
  or an unparseable id is I/O outside the model.
- `OctopusApp` (command-line handling and actor-system start-up) is not part
  of this model.
- SHA-256 and UTF-8 encoding are a parameter `Worker.Digest`, not a
  definition.
- The worker's message handlers and its gene comparison are not modelled.
  The handlers only call the pure functions modelled here; the comparison is
  a stub that always answers 42. The length a gene result reports is
  therefore an input of the model.
- Worker's `WorkMessageLinearCombination` declares a subset-sum row. The
  profiler constructs it with the cracked numbers and a counter range. The
  model follows the profiler's usage, and `Worker.CalculateNewRow` models
  the worker's row function on its own.
- Counters are unbounded integers. The model does not wrap the `long`
  counter `nextToSendLinearCombinationValue`, the `int` cluster count, or
  `int` ids.
- Worker.CalculateNewRow: `endIndex - startIndex` and `i - password` are
  unbounded integers, so Java's `int` wrap-around for extreme arguments is
  not modelled. A `null` list or a `null` argument is not modelled either.
- Worker.IsPrime: the model does not include Java `long` overflow of
  `i * i`, which only occurs for `n` above about 9.2·10¹⁸.
- Keyspace.ParseInt: the model accepts only ASCII decimal digits, while
  Java also accepts other Unicode decimal digits.
- Keyspace.ZeroPadded: `String.format` writes digits starting at the zero
  digit of the default format locale. The model writes ASCII digits, which
  is what a locale with zero digit `'0'` gives.
- Keyspace.SixDigit: builds on `ZeroPadded`, so it assumes the same ASCII
  digits for `String.format("%06d", i)`.
- Profiler.Dispatch: a `FAILED` completion from a sender with no busy entry
  makes Java pass `null` work to `assign(WorkMessage)`. The model skips that
  resubmission and only offers the sender again. In Java, an idle worker
  is put in the busy map with `null` work, and `tell(null, …)` then throws
  Akka's `InvalidMessageException`, which restarts the actor. With no idle
  worker, the `null` is queued. A later `assign(ActorRef)`
  (Profiler.java:302-312) polls it, reads it as "no work", and parks the
  worker as idle while real work may still be queued behind it. That
  breaks the rule that idle workers and queued work never coexist.
- `Profiler.Start`: before any task the Java `hashedPasswords` map is
  `null`, and the model uses an empty map. The crack step cannot run before
  a task, because no cracking work exists until then.
- An exception in a handler makes Akka restart the actor. The model stops at
  the `Failure` and says nothing about the restarted state.
