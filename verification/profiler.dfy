/** The `Profiler` actor as a pure state machine: its bookkeeping maps, the
    handlers for registration, termination, the task and completions, and
    the phase steps they trigger (cracking the hashes, refilling counter
    ranges, comparing genes, requesting the final hashes, shutting down).
    Java `HashMap` iteration orders are explicit inputs; exceptions a
    handler would throw are `Failure` values. */
module Profiler {
  import opened Wrappers
  import opened Messages
  import opened Coordinator
  import opened Keyspace
  import Worker

  /** `Profiler.Pair`: the best gene partner seen so far for an id and the
      length of their longest common substring. */
  datatype Pair = Pair(partnerId: int, length: int)

  /** `new Pair(-1, 0)`, what `getOrDefault` reads for an id with no entry. */
  const NoPartner := Pair(-1, 0)

  datatype ProfilerState = ProfilerState(
    coord: Coordinator,
    calculatedPasswordHashes: map<string, string>,
    crackedPasswordsAsInteger: seq<int>,
    plainTextPasswords: map<int, string>,
    prefixes: map<int, int>,
    longestGeneSubString: map<int, Pair>,
    genes: map<int, string>,
    finalHashes: map<int, string>,
    hashedPasswords: map<int, string>,
    nextToSendLinearCombinationValue: int)

  /** The state of a freshly started profiler. */
  function Start(): ProfilerState {
    ProfilerState(Init(), map[], [], map[], map[], map[], map[], map[], map[], 0)
  }

  /** The exceptions a completion handler can throw; each one makes the
      actor fail instead of reaching a new state. */
  datatype Fault =
    | ClassCast          // the completion's kind does not match the work's
    | IndexOutOfBounds   // a result array is shorter than the code indexes
    | NullPartner        // `longestGeneSubString.get(id)` is null
    | NumberFormat       // `Integer.parseInt` of null or a non-number

  /** The order in which the handlers iterate the maps they walk. */
  datatype IterationOrder = IterationOrder(
    hashedPasswords: seq<int>,
    plainTextPasswords: seq<int>,
    genes: seq<int>,
    prefixes: seq<int>)

  /** `order` lists every key of `m` exactly once. */
  ghost predicate IsKeyOrder<V>(order: seq<int>, m: map<int, V>) {
    Distinct(order) && forall id :: id in order <==> id in m
  }

  ghost predicate ValidOrder(p: ProfilerState, order: IterationOrder) {
    && IsKeyOrder(order.hashedPasswords, p.hashedPasswords)
    && IsKeyOrder(order.plainTextPasswords, p.plainTextPasswords)
    && IsKeyOrder(order.genes, p.genes)
    && IsKeyOrder(order.prefixes, p.prefixes)
  }

  /** No work is queued and no worker is busy: the test every phase step
      guards on. */
  predicate Drained(c: Coordinator) {
    |c.unassignedWork| == 0 && c.busyWorkers == map[]
  }

  // ---------------------------------------------------------------------------
  // Workers joining and leaving

  /** `handle(RegistrationMessage)`: only the worker bookkeeping changes,
      and afterwards the worker is either idle or busy. */
  function Register(p: ProfilerState, worker: ActorRef): (p': ProfilerState)
    ensures p' == p.(coord := p'.coord)
    ensures IsTracked(p'.coord, worker)
  {
    p.(coord := AssignWorker(p.coord, worker))
  }

  /** `handle(Terminated)`: only the worker bookkeeping changes. */
  function Terminated(p: ProfilerState, worker: ActorRef): (p': ProfilerState)
    ensures p' == p.(coord := p'.coord)
  {
    p.(coord := Terminate(p.coord, worker))
  }

  // ---------------------------------------------------------------------------
  // The task: password cracking work

  /** The candidate strings of a list of cracking items, in order. */
  function Candidates(items: seq<WorkItem>): seq<seq<string>> {
    seq(|items|, k requires 0 <= k < |items| =>
      if items[k].PasswordCracking? then items[k].sixDigitNumbers else [])
  }

  /** The items `begin` submits: 10,000 cracking items; item `k` holds the
      100 candidates whose values are `100 * k` to `100 * k + 99`, and the
      items together hold exactly the keyspace, in order. */
  function CrackingWork(): (items: seq<WorkItem>)
    ensures forall k :: 0 <= k < |items| ==> items[k].PasswordCracking?
    ensures Candidates(items) == Batches(SixDigitNumbers())
  {
    var batches := Batches(SixDigitNumbers());
    var items := seq(|batches|, k requires 0 <= k < |batches| => PasswordCracking(batches[k]));
    assert Candidates(items) == batches;
    items
  }

  /** The cracking items are the keyspace batches, one item per batch. */
  lemma CrackingWorkIsBatches()
    ensures |CrackingWork()| == |Batches(SixDigitNumbers())|
    ensures forall k :: 0 <= k < |CrackingWork()| ==> CrackingWork()[k].sixDigitNumbers == Batches(SixDigitNumbers())[k]
  {
    var items := CrackingWork();
    assert |Candidates(items)| == |items|;
    forall k | 0 <= k < |items|
      ensures items[k].sixDigitNumbers == Batches(SixDigitNumbers())[k]
    {
      assert Candidates(items)[k] == items[k].sixDigitNumbers;
    }
  }

  /** The cracking items cover the keyspace: 10,000 items of 100
      candidates, item `k` holding the values `100 * k` to `100 * k + 99`,
      and together exactly the keyspace, in order. */
  lemma CrackingWorkCoversKeyspace()
    ensures |CrackingWork()| == KeyspaceSize / BatchSize
    ensures forall k :: 0 <= k < |CrackingWork()| ==> |CrackingWork()[k].sixDigitNumbers| == BatchSize
    ensures forall k, j :: 0 <= k < |CrackingWork()| && 0 <= j < BatchSize ==>
      ParseInt(CrackingWork()[k].sixDigitNumbers[j]) == Some(BatchSize * k + j)
    ensures Flatten(Candidates(CrackingWork())) == SixDigitNumbers()
  {
    KeyspaceBatches();
    CrackingWorkIsBatches();
  }

  /** `handle(TaskMessage)` after the CSV is read: the id-to-hash and
      id-to-gene maps replace the old ones and `begin` offers every cracking
      item; nothing else changes. */
  function StartTask(p: ProfilerState, hashedPasswords: map<int, string>, genes: map<int, string>): (p': ProfilerState)
    ensures p' == p.(coord := p'.coord, hashedPasswords := hashedPasswords, genes := genes)
    ensures |p.coord.idleWorkers| == 0 ==>
      p'.coord.unassignedWork == p.coord.unassignedWork + CrackingWork()
  {
    var loaded := p.(hashedPasswords := hashedPasswords, genes := genes);
    loaded.(coord := AssignAll(loaded.coord, CrackingWork()))
  }

  /** The task keeps the coordinator invariant and adds exactly the cracking
      items to the outstanding work. */
  lemma StartTaskSubmitsKeyspace(p: ProfilerState, hashedPasswords: map<int, string>, genes: map<int, string>)
    requires Inv(p.coord)
    ensures Inv(StartTask(p, hashedPasswords, genes).coord)
    ensures Pool(StartTask(p, hashedPasswords, genes).coord) == Pool(p.coord) + multiset(CrackingWork())
    ensures forall w :: IsTracked(StartTask(p, hashedPasswords, genes).coord, w) <==> IsTracked(p.coord, w)
  {
    AssignAllPreserves(p.coord, CrackingWork());
  }

  // ---------------------------------------------------------------------------
  // Cracking results

  /** The loop over a finished batch: `hashes[i]` maps to `numbers[i]`,
      later entries overwriting earlier ones. */
  function MergeHashes(m: map<string, string>, numbers: seq<string>, hashes: seq<string>): (r: map<string, string>)
    requires |numbers| <= |hashes|
    ensures forall h :: h in r <==> h in m || h in hashes[..|numbers|]
    ensures forall h :: h in m && h !in hashes[..|numbers|] ==> r[h] == m[h]
    decreases |numbers|
  {
    if |numbers| == 0 then m
    else
      var r := MergeHashes(m[hashes[0] := numbers[0]], numbers[1..], hashes[1..]);
      assert hashes[..|numbers|] == [hashes[0]] + hashes[1..][..|numbers| - 1];
      r
  }

  /** The entry for a hash is the candidate of its last occurrence in the
      batch. */
  lemma {:induction false} MergeHashesLastWins(m: map<string, string>, numbers: seq<string>, hashes: seq<string>)
    requires |numbers| <= |hashes|
    ensures forall i :: 0 <= i < |numbers| && hashes[i] !in hashes[i + 1..|numbers|] ==>
      hashes[i] in MergeHashes(m, numbers, hashes) && MergeHashes(m, numbers, hashes)[hashes[i]] == numbers[i]
    decreases |numbers|
  {
    if |numbers| > 0 {
      var n := |numbers|;
      var m1 := m[hashes[0] := numbers[0]];
      var r := MergeHashes(m, numbers, hashes);
      assert r == MergeHashes(m1, numbers[1..], hashes[1..]);
      assert hashes[1..][..n - 1] == hashes[1..n];
      MergeHashesLastWins(m1, numbers[1..], hashes[1..]);
      forall i | 0 < i < n && hashes[i] !in hashes[i + 1..n]
        ensures hashes[i] in r && r[hashes[i]] == numbers[i]
      {
        MergeHashesShift(hashes, n, i);
      }
    }
  }

  /** Position `i` of a batch is position `i - 1` of its tail. */
  lemma MergeHashesShift(hashes: seq<string>, n: nat, i: nat)
    requires 0 < i < n <= |hashes|
    ensures hashes[1..][i - 1] == hashes[i]
    ensures hashes[1..][i..n - 1] == hashes[i + 1..n]
  {
  }

  /** The last position in `s[..n]` holding the same string as `s[i]`. */
  lemma LastOccurrence(s: seq<string>, n: nat, i: nat) returns (j: nat)
    requires i < n <= |s|
    ensures i <= j < n && s[j] == s[i] && s[i] !in s[j + 1..n]
    decreases n - i
  {
    if s[i] in s[i + 1..n] {
      var t :| 0 <= t < n - i - 1 && s[i + 1..n][t] == s[i];
      j := LastOccurrence(s, n, i + 1 + t);
    } else {
      j := i;
    }
  }

  /** When a batch's hashes are the hex digests of its candidates and the
      digest does not collide on the batch, the merged map sends each
      candidate's hash back to the candidate. */
  lemma {:induction false} MergedHashesCrack(digest: Worker.Digest, m: map<string, string>, numbers: seq<string>, hashes: seq<string>)
    requires |numbers| <= |hashes|
    requires forall i :: 0 <= i < |numbers| ==> hashes[i] == Worker.CalculateHash(digest, numbers[i])
    requires forall i, j :: 0 <= i < |numbers| && 0 <= j < |numbers| && digest(numbers[i]) == digest(numbers[j]) ==>
      numbers[i] == numbers[j]
    ensures forall i :: 0 <= i < |numbers| ==>
      Worker.CalculateHash(digest, numbers[i]) in MergeHashes(m, numbers, hashes) &&
      MergeHashes(m, numbers, hashes)[Worker.CalculateHash(digest, numbers[i])] == numbers[i]
  {
    var r := MergeHashes(m, numbers, hashes);
    MergeHashesLastWins(m, numbers, hashes);
    forall i | 0 <= i < |numbers|
      ensures Worker.CalculateHash(digest, numbers[i]) in r && r[Worker.CalculateHash(digest, numbers[i])] == numbers[i]
    {
      var j := LastOccurrence(hashes, |numbers|, i);
      assert hashes[i] in hashes[..|numbers|];
      Worker.CalculateHashInjective(digest, numbers[i], numbers[j]);
    }
  }

  /** The plain text `crackPasswords` looks up for `id`: the candidate whose
      hash equals the id's hash, if one was recorded. */
  function CrackedText(p: ProfilerState, id: int): Option<string>
    requires id in p.hashedPasswords
  {
    var h := p.hashedPasswords[id];
    if h in p.calculatedPasswordHashes then Some(p.calculatedPasswordHashes[h]) else None
  }

  /** `Integer.parseInt` succeeds on the plain text of `id`. */
  predicate Crackable(p: ProfilerState, id: int)
    requires id in p.hashedPasswords
  {
    CrackedText(p, id).Some? && ParseInt(CrackedText(p, id).value).Some?
  }

  /** The number `Integer.parseInt` reads from the plain text of `id`. */
  function CrackedValue(p: ProfilerState, id: int): int
    requires id in p.hashedPasswords && Crackable(p, id)
  {
    ParseInt(CrackedText(p, id).value).value
  }

  /** One iteration of `crackPasswords`: store the plain text of `id` and
      append its number. */
  function CrackOne(p: ProfilerState, id: int): (p': ProfilerState)
    requires id in p.hashedPasswords && Crackable(p, id)
    ensures p'.hashedPasswords == p.hashedPasswords
    ensures p'.calculatedPasswordHashes == p.calculatedPasswordHashes
  {
    p.(plainTextPasswords := p.plainTextPasswords[id := CrackedText(p, id).value],
       crackedPasswordsAsInteger := p.crackedPasswordsAsInteger + [CrackedValue(p, id)])
  }

  /** `crackPasswords`, walking the ids in `order`: each id's plain text is
      stored and its numeric value appended; an id with no recorded plain
      text, or one that is not a number, throws. Only the plain texts and
      the cracked numbers change. */
  function CrackPasswords(p: ProfilerState, order: seq<int>): (r: Result<ProfilerState, Fault>)
    requires forall id :: id in order ==> id in p.hashedPasswords
    ensures r.Success? <==> forall k :: 0 <= k < |order| ==> Crackable(p, order[k])
    ensures r.Failure? ==> r.error == NumberFormat
    ensures r.Success? ==>
      r.value == p.(plainTextPasswords := r.value.plainTextPasswords,
                    crackedPasswordsAsInteger := r.value.crackedPasswordsAsInteger)
    decreases |order|
  {
    if |order| == 0 then Success(p)
    else
      assert order[0] in order;
      assert forall x :: x in order[1..] ==> x in order;
      assert forall k :: 1 <= k < |order| ==> order[1..][k - 1] == order[k];
      if !Crackable(p, order[0]) then Failure(NumberFormat)
      else CrackPasswords(CrackOne(p, order[0]), order[1..])
  }

  /** The numbers of the plain texts of `order`, in order. */
  function CrackedValues(p: ProfilerState, order: seq<int>): seq<int>
    requires forall k :: 0 <= k < |order| ==> order[k] in p.hashedPasswords && Crackable(p, order[k])
  {
    seq(|order|, k requires 0 <= k < |order| => CrackedValue(p, order[k]))
  }

  /** `after` holds what cracking the ids of `order` against the hash maps of
      `p` yields: every id has a number as plain text, `after` stores each
      id's plain text, and its cracked numbers are those of `before` followed
      by the ids' numbers in order. */
  ghost predicate CrackedAll(p: ProfilerState, order: seq<int>, before: ProfilerState, after: ProfilerState) {
    && (forall k :: 0 <= k < |order| ==> order[k] in p.hashedPasswords && Crackable(p, order[k]))
    && (forall k :: 0 <= k < |order| ==>
          order[k] in after.plainTextPasswords && after.plainTextPasswords[order[k]] == CrackedText(p, order[k]).value)
    && after.crackedPasswordsAsInteger == before.crackedPasswordsAsInteger + CrackedValues(p, order)
  }

  /** Cracking one id changes no other id's lookup. */
  lemma CrackOneKeepsLookups(p: ProfilerState, id: int)
    requires id in p.hashedPasswords && Crackable(p, id)
    ensures forall x :: x in p.hashedPasswords ==> CrackedText(CrackOne(p, id), x) == CrackedText(p, x)
  {
  }

  /** The first step of a successful `crackPasswords` walk. */
  lemma CrackPasswordsStep(p: ProfilerState, order: seq<int>)
    requires forall id :: id in order ==> id in p.hashedPasswords
    requires |order| > 0 && Crackable(p, order[0])
    ensures forall id :: id in order[1..] ==> id in CrackOne(p, order[0]).hashedPasswords
    ensures CrackPasswords(p, order) == CrackPasswords(CrackOne(p, order[0]), order[1..])
  {
    assert order[0] in order;
    assert forall x :: x in order[1..] ==> x in order;
  }

  lemma CrackedValuesCons(p: ProfilerState, order: seq<int>)
    requires forall k :: 0 <= k < |order| ==> order[k] in p.hashedPasswords && Crackable(p, order[k])
    requires |order| > 0
    ensures forall k :: 0 <= k < |order[1..]| ==>
      order[1..][k] in CrackOne(p, order[0]).hashedPasswords && Crackable(CrackOne(p, order[0]), order[1..][k])
    ensures CrackedValues(p, order) == [CrackedValue(p, order[0])] + CrackedValues(CrackOne(p, order[0]), order[1..])
  {
    var p1 := CrackOne(p, order[0]);
    CrackOneKeepsLookups(p, order[0]);
    assert forall k :: 0 <= k < |order[1..]| ==> order[1..][k] == order[k + 1];
    var tail := CrackedValues(p1, order[1..]);
    assert forall k :: 0 <= k < |tail| ==> tail[k] == CrackedValues(p, order)[k + 1];
  }

  /** On success the cracked numbers are the old ones followed by the
      parsed plain text of each id, in iteration order. */
  lemma {:induction false} CrackPasswordsAppends(p: ProfilerState, order: seq<int>)
    requires forall id :: id in order ==> id in p.hashedPasswords
    requires CrackPasswords(p, order).Success?
    ensures forall k :: 0 <= k < |order| ==> Crackable(p, order[k])
    ensures CrackPasswords(p, order).value.crackedPasswordsAsInteger == p.crackedPasswordsAsInteger + CrackedValues(p, order)
    decreases |order|
  {
    if |order| > 0 {
      var p1 := CrackOne(p, order[0]);
      CrackPasswordsStep(p, order);
      CrackPasswordsAppends(p1, order[1..]);
      CrackedValuesCons(p, order);
      assert p1.crackedPasswordsAsInteger == p.crackedPasswordsAsInteger + [CrackedValue(p, order[0])];
    } else {
      assert CrackedValues(p, order) == [];
    }
  }

  /** `CrackedAll` reads only the cracked numbers of `before` and the plain
      texts and cracked numbers of `after`. */
  lemma CrackedAllFrame(p: ProfilerState, order: seq<int>, before: ProfilerState, after: ProfilerState,
                        before': ProfilerState, after': ProfilerState)
    requires CrackedAll(p, order, before, after)
    requires before'.crackedPasswordsAsInteger == before.crackedPasswordsAsInteger
    requires after'.plainTextPasswords == after.plainTextPasswords
    requires after'.crackedPasswordsAsInteger == after.crackedPasswordsAsInteger
    ensures CrackedAll(p, order, before', after')
  {
  }

  /** A successful `crackPasswords` yields exactly the state `CrackedAll`
      describes. */
  lemma CrackPasswordsCracksAll(p: ProfilerState, order: seq<int>)
    requires forall id :: id in order ==> id in p.hashedPasswords
    requires CrackPasswords(p, order).Success?
    ensures CrackedAll(p, order, p, CrackPasswords(p, order).value)
  {
    CrackPasswordsStoresTexts(p, order);
    CrackPasswordsAppends(p, order);
    forall k | 0 <= k < |order|
      ensures order[k] in order
    {
    }
  }

  /** On success every id in the order maps to its plain text and every
      other id keeps the text it had. */
  lemma {:induction false} CrackPasswordsStoresTexts(p: ProfilerState, order: seq<int>)
    requires forall id :: id in order ==> id in p.hashedPasswords
    requires CrackPasswords(p, order).Success?
    ensures forall id :: id in CrackPasswords(p, order).value.plainTextPasswords <==> id in p.plainTextPasswords || id in order
    ensures forall id :: id in order ==>
      CrackPasswords(p, order).value.plainTextPasswords[id] == CrackedText(p, id).value
    ensures forall id :: id in p.plainTextPasswords && id !in order ==>
      CrackPasswords(p, order).value.plainTextPasswords[id] == p.plainTextPasswords[id]
    decreases |order|
  {
    if |order| > 0 {
      var id := order[0];
      assert id in order;
      assert forall x :: x in order[1..] ==> x in order;
      assert forall x :: x in order <==> x == id || x in order[1..];
      var p1 := CrackOne(p, id);
      assert CrackPasswords(p, order) == CrackPasswords(p1, order[1..]);
      CrackPasswordsStoresTexts(p1, order[1..]);
      assert forall x :: x in order[1..] ==> CrackedText(p1, x) == CrackedText(p, x);
    }
  }

  // ---------------------------------------------------------------------------
  // Linear combination ranges

  /** `packageSize`: the width of one counter range. */
  const PackageSize := 10000

  /** The loop in `calculateLinearCombination` stops once the queue plus
      the ranges submitted in this call reach this many. */
  const MaxQueued := 50

  /** What one refill produces: the coordinator afterwards, the advanced
      counter and the ranges it submitted, in order. */
  datatype Refill = Refill(coord: Coordinator, cursor: int, ranges: seq<WorkItem>)

  /** `ranges` are consecutive `PackageSize`-wide counter ranges over
      `passwords`, the first starting at `cursor`. */
  predicate Contiguous(ranges: seq<WorkItem>, passwords: seq<int>, cursor: int) {
    forall j :: 0 <= j < |ranges| ==>
      ranges[j] == LinearCombination(passwords, cursor + PackageSize * j, cursor + PackageSize * j + PackageSize)
  }

  /** The loop of `calculateLinearCombination` from iteration `i` on: the
      bound `50 - unassignedWork.size()` is read again before every
      iteration. */
  function RefillFrom(c: Coordinator, passwords: seq<int>, cursor: int, i: nat): (r: Refill)
    ensures r.coord == AssignAll(c, r.ranges)
    ensures Contiguous(r.ranges, passwords, cursor)
    ensures r.cursor == cursor + PackageSize * |r.ranges|
    ensures i + |r.ranges| >= MaxQueued - |r.coord.unassignedWork|
    ensures i >= MaxQueued - |c.unassignedWork| ==> r.ranges == []
    ensures i < MaxQueued - |c.unassignedWork| ==> 0 < |r.ranges| <= MaxQueued - |c.unassignedWork| - i
    ensures |c.unassignedWork| <= MaxQueued ==> |r.coord.unassignedWork| <= MaxQueued
    decreases MaxQueued - |c.unassignedWork| - i
  {
    if i < MaxQueued - |c.unassignedWork| then
      var item := LinearCombination(passwords, cursor, cursor + PackageSize);
      var rest := RefillFrom(AssignWork(c, item), passwords, cursor + PackageSize, i + 1);
      var ranges := [item] + rest.ranges;
      assert ranges[0] == item && ranges[1..] == rest.ranges;
      assert forall j :: 1 <= j < |ranges| ==> ranges[j] == rest.ranges[j - 1];
      Refill(rest.coord, rest.cursor, ranges)
    else
      Refill(c, cursor, [])
  }

  /** With no idle worker every range is queued, so each iteration both
      grows the queue and advances `i`: the loop submits
      `ceil((50 - queued) / 2)` ranges rather than filling the queue to 50. */
  lemma RefillWithoutIdleWorkers(c: Coordinator, passwords: seq<int>, cursor: int, i: nat)
    requires |c.idleWorkers| == 0
    requires |c.unassignedWork| + i <= MaxQueued + 1
    ensures |RefillFrom(c, passwords, cursor, i).ranges| == (MaxQueued - |c.unassignedWork| - i + 1) / 2
    ensures RefillFrom(c, passwords, cursor, i).coord.unassignedWork ==
      c.unassignedWork + RefillFrom(c, passwords, cursor, i).ranges
  {
    RefillCountWithoutIdleWorkers(c, passwords, cursor, i);
    RefillQueuesWithoutIdleWorkers(c, passwords, cursor, i);
  }

  lemma {:induction false} RefillCountWithoutIdleWorkers(c: Coordinator, passwords: seq<int>, cursor: int, i: nat)
    requires |c.idleWorkers| == 0
    requires |c.unassignedWork| + i <= MaxQueued + 1
    ensures |RefillFrom(c, passwords, cursor, i).ranges| == (MaxQueued - |c.unassignedWork| - i + 1) / 2
    decreases MaxQueued - |c.unassignedWork| - i
  {
    if i < MaxQueued - |c.unassignedWork| {
      var item := LinearCombination(passwords, cursor, cursor + PackageSize);
      var c1 := AssignWork(c, item);
      assert |c1.unassignedWork| == |c.unassignedWork| + 1 && |c1.idleWorkers| == 0;
      RefillCountWithoutIdleWorkers(c1, passwords, cursor + PackageSize, i + 1);
      RefillFromStep(c, passwords, cursor, i);
    }
  }

  lemma {:induction false} RefillQueuesWithoutIdleWorkers(c: Coordinator, passwords: seq<int>, cursor: int, i: nat)
    requires |c.idleWorkers| == 0
    ensures RefillFrom(c, passwords, cursor, i).coord.unassignedWork ==
      c.unassignedWork + RefillFrom(c, passwords, cursor, i).ranges
    decreases MaxQueued - |c.unassignedWork| - i
  {
    if i < MaxQueued - |c.unassignedWork| {
      var item := LinearCombination(passwords, cursor, cursor + PackageSize);
      var c1 := AssignWork(c, item);
      assert c1.unassignedWork == c.unassignedWork + [item] && |c1.idleWorkers| == 0;
      RefillQueuesWithoutIdleWorkers(c1, passwords, cursor + PackageSize, i + 1);
      RefillFromStep(c, passwords, cursor, i);
    }
  }

  /** One iteration of the refill loop: submit the next range, then go on. */
  lemma RefillFromStep(c: Coordinator, passwords: seq<int>, cursor: int, i: nat)
    requires i < MaxQueued - |c.unassignedWork|
    ensures
      var item := LinearCombination(passwords, cursor, cursor + PackageSize);
      var rest := RefillFrom(AssignWork(c, item), passwords, cursor + PackageSize, i + 1);
      && RefillFrom(c, passwords, cursor, i).ranges == [item] + rest.ranges
      && RefillFrom(c, passwords, cursor, i).coord == rest.coord
  {
  }

  /** `calculateLinearCombination`: submit the next ranges over the cracked
      numbers and advance the counter past them. */
  function CalculateLinearCombination(p: ProfilerState): (p': ProfilerState)
    ensures p' == p.(coord := p'.coord, nextToSendLinearCombinationValue := p'.nextToSendLinearCombinationValue)
    ensures p.nextToSendLinearCombinationValue <= p'.nextToSendLinearCombinationValue
    ensures (p'.nextToSendLinearCombinationValue - p.nextToSendLinearCombinationValue) % PackageSize == 0
    ensures |p.coord.unassignedWork| < MaxQueued ==>
      p.nextToSendLinearCombinationValue < p'.nextToSendLinearCombinationValue
  {
    var r := RefillFrom(p.coord, p.crackedPasswordsAsInteger, p.nextToSendLinearCombinationValue, 0);
    p.(coord := r.coord, nextToSendLinearCombinationValue := r.cursor)
  }

  /** The loop over `plainTextPasswords.keySet()`: the `i`-th id visited
      gets `signs[i]`; a sign array shorter than the id list throws. */
  function AssignPrefixes(prefixes: map<int, int>, order: seq<int>, signs: seq<int>): (r: Result<map<int, int>, Fault>)
    ensures r.Success? <==> |order| <= |signs|
    ensures r.Failure? ==> r.error == IndexOutOfBounds
    ensures r.Success? ==> forall id :: id in r.value <==> id in prefixes || id in order
    ensures r.Success? ==> forall id :: id in prefixes && id !in order ==> r.value[id] == prefixes[id]
    ensures r.Success? && Distinct(order) ==> forall k :: 0 <= k < |order| ==> order[k] in r.value && r.value[order[k]] == signs[k]
    decreases |order|
  {
    if |order| == 0 then Success(prefixes)
    else if |signs| == 0 then Failure(IndexOutOfBounds)
    else
      assert forall k :: 1 <= k < |order| ==> order[1..][k - 1] == order[k];
      assert forall x :: x in order <==> x == order[0] || x in order[1..];
      AssignPrefixes(prefixes[order[0] := signs[0]], order[1..], signs[1..])
  }

  // ---------------------------------------------------------------------------
  // Gene comparison

  /** `x` compares gene `a` with a gene of `inner` whose id is larger. */
  predicate PairOf(x: WorkItem, a: int, inner: seq<int>, genes: map<int, string>) {
    && x.GeneComparison?
    && x.firstId == a && a in genes
    && x.secondId in inner && x.secondId in genes
    && a < x.secondId
    && x.first == genes[a] && x.second == genes[x.secondId]
  }

  /** The inner loop of `startGeneComparision` for the gene `a`. */
  function PairsWith(a: int, inner: seq<int>, genes: map<int, string>): (items: seq<WorkItem>)
    requires a in genes && forall id :: id in inner ==> id in genes
    ensures forall x :: x in items ==> PairOf(x, a, inner, genes)
    decreases |inner|
  {
    if |inner| == 0 then []
    else
      var b := inner[0];
      var here := if a < b then [GeneComparison(genes[a], genes[b], a, b)] else [];
      assert forall x :: x in inner[1..] ==> x in inner;
      here + PairsWith(a, inner[1..], genes)
  }

  /** `x` is a comparison `startGeneComparision` submits when its loops
      walk `outer` and `inner`. */
  predicate GenePair(x: WorkItem, outer: seq<int>, inner: seq<int>, genes: map<int, string>) {
    x.GeneComparison? && x.firstId in outer && PairOf(x, x.firstId, inner, genes)
  }

  /** `startGeneComparision`'s two nested loops. */
  function GenePairs(outer: seq<int>, inner: seq<int>, genes: map<int, string>): (items: seq<WorkItem>)
    requires forall id :: id in outer ==> id in genes
    requires forall id :: id in inner ==> id in genes
    ensures forall x :: x in items ==> GenePair(x, outer, inner, genes)
    decreases |outer|
  {
    if |outer| == 0 then []
    else
      assert forall x :: x in outer[1..] ==> x in outer;
      PairsWith(outer[0], inner, genes) + GenePairs(outer[1..], inner, genes)
  }

  /** With distinct ids, the inner loop produces each pair of `a` with a
      larger id exactly once and nothing else. */
  lemma {:induction false} PairsWithCount(a: int, inner: seq<int>, genes: map<int, string>, x: WorkItem)
    requires a in genes && forall id :: id in inner ==> id in genes
    requires Distinct(inner)
    ensures multiset(PairsWith(a, inner, genes))[x] == if PairOf(x, a, inner, genes) then 1 else 0
    decreases |inner|
  {
    if |inner| > 0 {
      var b := inner[0];
      assert forall y :: y in inner[1..] ==> y in inner;
      assert Distinct(inner[1..]) by {
        forall i, j | 0 <= i < j < |inner[1..]| ensures inner[1..][i] != inner[1..][j] {
          assert inner[1..][i] == inner[i + 1] && inner[1..][j] == inner[j + 1];
        }
      }
      PairsWithCount(a, inner[1..], genes, x);
      assert b !in inner[1..] by {
        forall j | 0 <= j < |inner[1..]| ensures inner[1..][j] != b {
          assert inner[1..][j] == inner[j + 1];
        }
      }
      assert forall y :: y in inner <==> y == b || y in inner[1..];
    }
  }

  /** With distinct ids in both loops, every pair `a < b` of ids from the
      iteration order is submitted exactly once, and nothing else is. */
  lemma {:induction false} GenePairsCount(outer: seq<int>, inner: seq<int>, genes: map<int, string>, x: WorkItem)
    requires forall id :: id in outer ==> id in genes
    requires forall id :: id in inner ==> id in genes
    requires Distinct(outer) && Distinct(inner)
    ensures multiset(GenePairs(outer, inner, genes))[x] == if GenePair(x, outer, inner, genes) then 1 else 0
    decreases |outer|
  {
    if |outer| > 0 {
      var a := outer[0];
      assert forall y :: y in outer[1..] ==> y in outer;
      assert Distinct(outer[1..]) by {
        forall i, j | 0 <= i < j < |outer[1..]| ensures outer[1..][i] != outer[1..][j] {
          assert outer[1..][i] == outer[i + 1] && outer[1..][j] == outer[j + 1];
        }
      }
      assert a !in outer[1..] by {
        forall j | 0 <= j < |outer[1..]| ensures outer[1..][j] != a {
          assert outer[1..][j] == outer[j + 1];
        }
      }
      PairsWithCount(a, inner, genes, x);
      GenePairsCount(outer[1..], inner, genes, x);
      assert forall y :: y in outer <==> y == a || y in outer[1..];
    }
  }

  /** `startGeneComparision`: offer every gene pair. */
  function StartGeneComparison(p: ProfilerState, order: seq<int>): (p': ProfilerState)
    requires forall id :: id in order ==> id in p.genes
    ensures p' == p.(coord := p'.coord)
    ensures |p.coord.idleWorkers| == 0 ==>
      p'.coord.unassignedWork == p.coord.unassignedWork + GenePairs(order, order, p.genes)
  {
    p.(coord := AssignAll(p.coord, GenePairs(order, order, p.genes)))
  }

  // ---------------------------------------------------------------------------
  // Best gene partners

  /** The length `getOrDefault(id, new Pair(-1, 0))` reads. */
  function StoredLength(longest: map<int, Pair>, id: int): int {
    if id in longest then longest[id].length else NoPartner.length
  }

  function Max(a: int, b: int): int {
    if a < b then b else a
  }

  /** The update on a gene comparison result: each of the two ids takes the
      other as its partner when the new length is strictly longer than the
      length it had; ties keep the earlier partner. */
  function RecordOverlap(longest: map<int, Pair>, firstId: int, secondId: int, length: int): (r: map<int, Pair>)
    ensures StoredLength(r, firstId) == Max(StoredLength(longest, firstId), length)
    ensures StoredLength(r, secondId) == Max(StoredLength(longest, secondId), length)
    ensures forall id :: id != firstId && id != secondId ==> (id in r <==> id in longest)
    ensures forall id :: id in longest && id != firstId && id != secondId ==> r[id] == longest[id]
    ensures length > StoredLength(longest, firstId) ==> firstId in r && r[firstId] == Pair(secondId, length)
    ensures length > StoredLength(longest, secondId) ==> secondId in r && r[secondId] == Pair(firstId, length)
    ensures length <= StoredLength(longest, firstId) ==>
      (firstId in r <==> firstId in longest) && (firstId in longest ==> r[firstId] == longest[firstId])
    ensures length <= StoredLength(longest, secondId) ==>
      (secondId in r <==> secondId in longest) && (secondId in longest ==> r[secondId] == longest[secondId])
  {
    var currentLength1 := StoredLength(longest, firstId);
    var currentLength2 := StoredLength(longest, secondId);
    var r1 := if length > currentLength1 then longest[firstId := Pair(secondId, length)] else longest;
    if length > currentLength2 then r1[secondId := Pair(firstId, length)] else r1
  }

  /** One finished comparison: the two ids and the length found. */
  datatype Overlap = Overlap(firstId: int, secondId: int, length: int)

  /** `o` compared `id` with `partner`. */
  predicate Between(o: Overlap, id: int, partner: int) {
    (o.firstId == id && o.secondId == partner) || (o.secondId == id && o.firstId == partner)
  }

  /** The results of several comparisons recorded in arrival order. */
  function ApplyOverlaps(longest: map<int, Pair>, overlaps: seq<Overlap>): map<int, Pair>
    decreases |overlaps|
  {
    if |overlaps| == 0 then longest
    else
      var o := overlaps[0];
      ApplyOverlaps(RecordOverlap(longest, o.firstId, o.secondId, o.length), overlaps[1..])
  }

  /** After a run of comparisons every id's stored length is the maximum of
      its starting length and every length reported for it, and its stored
      partner is one it was compared with at that length (or the entry it
      started with). */
  lemma {:induction false} ApplyOverlapsKeepsBest(longest: map<int, Pair>, overlaps: seq<Overlap>, id: int)
    ensures forall k :: 0 <= k < |overlaps| && (overlaps[k].firstId == id || overlaps[k].secondId == id) ==>
      overlaps[k].length <= StoredLength(ApplyOverlaps(longest, overlaps), id)
    ensures StoredLength(longest, id) <= StoredLength(ApplyOverlaps(longest, overlaps), id)
    ensures id in ApplyOverlaps(longest, overlaps) ==>
      (id in longest && ApplyOverlaps(longest, overlaps)[id] == longest[id]) ||
      exists k :: 0 <= k < |overlaps| && Between(overlaps[k], id, ApplyOverlaps(longest, overlaps)[id].partnerId) &&
        overlaps[k].length == ApplyOverlaps(longest, overlaps)[id].length
    decreases |overlaps|
  {
    if |overlaps| > 0 {
      var o := overlaps[0];
      var l1 := RecordOverlap(longest, o.firstId, o.secondId, o.length);
      var rest := overlaps[1..];
      var r := ApplyOverlaps(longest, overlaps);
      assert r == ApplyOverlaps(l1, rest);
      ApplyOverlapsKeepsBest(l1, rest, id);
      assert forall k :: 1 <= k < |overlaps| ==> overlaps[k] == rest[k - 1];
      if id in r && !(id in l1 && r[id] == l1[id]) {
        var k :| 0 <= k < |rest| && Between(rest[k], id, r[id].partnerId) && rest[k].length == r[id].length;
        assert overlaps[k + 1] == rest[k];
      } else if id in r && !(id in longest && l1[id] == longest[id]) {
        assert Between(overlaps[0], id, r[id].partnerId) && overlaps[0].length == r[id].length;
      }
    }
  }

  // ---------------------------------------------------------------------------
  // Final hashes

  /** The prefix string a `WorkMessageFindHash` carries: "1" for a sign of
      1, "0" for anything else. */
  function PrefixText(prefix: int): (s: string)
    ensures s == "1" <==> prefix == 1
    ensures s == "1" || s == "0"
  {
    if prefix == 1 then "1" else "0"
  }

  /** `prefixes.forEach(...)` in the gene branch: one hash request per id,
      seeded by its best gene partner; an id with no partner entry throws. */
  function HashRequests(order: seq<int>, prefixes: map<int, int>, longest: map<int, Pair>): (r: Result<seq<WorkItem>, Fault>)
    requires forall id :: id in order ==> id in prefixes
    ensures r.Success? ==> forall id :: id in order ==> id in longest
    ensures r.Failure? ==> exists k :: 0 <= k < |order| && order[k] !in longest
    ensures r.Failure? ==> r.error == NullPartner
    ensures r.Success? ==> |r.value| == |order| && forall k :: 0 <= k < |order| ==>
      r.value[k].FindHash? && r.value[k].id == order[k] &&
      (r.value[k].prefix == "1" <==> prefixes[order[k]] == 1) &&
      r.value[k].partnerId == longest[order[k]].partnerId
    decreases |order|
  {
    if |order| == 0 then Success([])
    else if order[0] !in longest then
      Failure(NullPartner)
    else
      var id := order[0];
      assert forall x :: x in order[1..] ==> x in order;
      match HashRequests(order[1..], prefixes, longest)
      case Failure(f) =>
        assert forall k :: 1 <= k < |order| ==> order[1..][k - 1] == order[k];
        Failure(f)
      case Success(rest) =>
        assert forall x :: x in order <==> x == id || x in order[1..];
        assert forall k :: 1 <= k < |order| ==> order[1..][k - 1] == order[k];
        Success([FindHash(id, PrefixText(prefixes[id]), longest[id].partnerId)] + rest)
  }

  // ---------------------------------------------------------------------------
  // Completions

  /** A handler's new state and whether it broadcast the poison pill that
      shuts the system down. */
  datatype Outcome = Outcome(next: ProfilerState, shutdown: bool)

  /** A cracking result: record every hash of the batch; if that was the
      last outstanding item, crack the passwords and send the first ranges.
      `report` reads `hashes[0]`, and the loop reads one hash per
      candidate. */
  function OnCrackingResult(p: ProfilerState, numbers: seq<string>, payload: Payload, order: IterationOrder): (r: Result<Outcome, Fault>)
    requires ValidOrder(p, order)
  {
    if !payload.Hashes? then Failure(ClassCast)
    else if |payload.hashes| == 0 || |payload.hashes| < |numbers| then Failure(IndexOutOfBounds)
    else
      var merged := p.(calculatedPasswordHashes := MergeHashes(p.calculatedPasswordHashes, numbers, payload.hashes));
      if !Drained(merged.coord) then Success(Outcome(merged, false))
      else
        match CrackPasswords(merged, order.hashedPasswords)
        case Failure(f) => Failure(f)
        case Success(cracked) => Success(Outcome(CalculateLinearCombination(cracked), false))
  }

  /** A linear-combination result: a range without a solution triggers a
      refill; a solution drops the queued work, stores the signs by
      plain-text id and starts the gene comparisons. */
  function OnCombinationResult(p: ProfilerState, payload: Payload, order: IterationOrder): (r: Result<Outcome, Fault>)
    requires ValidOrder(p, order)
  {
    if !payload.LinearCombinationResult? then Failure(ClassCast)
    else if !payload.found then Success(Outcome(CalculateLinearCombination(p), false))
    else
      match AssignPrefixes(p.prefixes, order.plainTextPasswords, payload.prefixes)
      case Failure(f) => Failure(f)
      case Success(prefixes) =>
        var cleared := p.(coord := p.coord.(unassignedWork := []), prefixes := prefixes);
        Success(Outcome(StartGeneComparison(cleared, order.genes), false))
  }

  /** A gene comparison result: update both ids' best partners; if that
      was the last outstanding item, request one hash per prefixed id. */
  function OnOverlapResult(p: ProfilerState, firstId: int, secondId: int, payload: Payload, order: IterationOrder): (r: Result<Outcome, Fault>)
    requires ValidOrder(p, order)
  {
    if !payload.GeneOverlap? then Failure(ClassCast)
    else
      var recorded := p.(longestGeneSubString := RecordOverlap(p.longestGeneSubString, firstId, secondId, payload.length));
      if !Drained(recorded.coord) then Success(Outcome(recorded, false))
      else
        match HashRequests(order.prefixes, recorded.prefixes, recorded.longestGeneSubString)
        case Failure(f) => Failure(f)
        case Success(items) => Success(Outcome(recorded.(coord := AssignAll(recorded.coord, items)), false))
  }

  /** A final hash: store it; if that was the last outstanding item, shut
      the system down. */
  function OnHashResult(p: ProfilerState, id: int, payload: Payload): (r: Result<Outcome, Fault>)
  {
    if !payload.FoundHash? then Failure(ClassCast)
    else
      var stored := p.(finalHashes := p.finalHashes[id := payload.hash]);
      Success(Outcome(stored, Drained(stored.coord)))
  }

  /** The `SUCCESS` branch of `handle(CompletionMessage)` for a worker that
      was busy with `work`, after its entry left the busy map. */
  function OnSuccess(p: ProfilerState, work: WorkItem, payload: Payload, order: IterationOrder): (r: Result<Outcome, Fault>)
    requires ValidOrder(p, order)
  {
    match work
    case PasswordCracking(numbers) => OnCrackingResult(p, numbers, payload, order)
    case LinearCombination(_, _, _) => OnCombinationResult(p, payload, order)
    case GeneComparison(_, _, firstId, secondId) => OnOverlapResult(p, firstId, secondId, payload, order)
    case FindHash(id, _, _) => OnHashResult(p, id, payload)
  }

  /** Everything `handle(CompletionMessage)` does before offering the
      sender again: take its entry out of the busy map, then offer a failed
      item again or process a successful one. */
  function Dispatch(p: ProfilerState, sender: ActorRef, message: Completion, order: IterationOrder): (r: Result<Outcome, Fault>)
    requires ValidOrder(p, order)
  {
    var released := p.(coord := Release(p.coord, sender));
    if sender !in p.coord.busyWorkers then Success(Outcome(released, false))
    else
      var work := p.coord.busyWorkers[sender];
      match message.status
      case Failed => Success(Outcome(released.(coord := AssignWork(released.coord, work)), false))
      case Succeeded => OnSuccess(released, work, message.payload, order)
  }

  /** `handle(CompletionMessage)`: dispatch, then offer the sender as a
      worker again. A completion from a worker with no busy entry changes
      nothing but that last step. */
  function HandleCompletion(p: ProfilerState, sender: ActorRef, message: Completion, order: IterationOrder): (r: Result<Outcome, Fault>)
    requires ValidOrder(p, order)
  {
    match Dispatch(p, sender, message, order)
    case Failure(f) => Failure(f)
    case Success(o) => Success(o.(next := o.next.(coord := AssignWorker(o.next.coord, sender))))
  }
}
