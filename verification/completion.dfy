/** What `handle(CompletionMessage)` promises across its branches: no work
    is lost, phase steps wait until nothing is queued or in flight, the
    shutdown happens only then, and a found sign assignment replaces the
    counter ranges with gene comparisons. */
module Completion {
  import opened Wrappers
  import opened Messages
  import opened Coordinator
  import opened Profiler

  /** A refill keeps the coordinator invariant and adds exactly the ranges
      it submits to the outstanding work. */
  lemma RefillPreserves(p: ProfilerState)
    requires Inv(p.coord)
    ensures Inv(CalculateLinearCombination(p).coord)
    ensures Pool(CalculateLinearCombination(p).coord) ==
      Pool(p.coord) + multiset(RefillFrom(p.coord, p.crackedPasswordsAsInteger, p.nextToSendLinearCombinationValue, 0).ranges)
    ensures forall w :: IsTracked(CalculateLinearCombination(p).coord, w) <==> IsTracked(p.coord, w)
  {
    var r := RefillFrom(p.coord, p.crackedPasswordsAsInteger, p.nextToSendLinearCombinationValue, 0);
    AssignAllPreserves(p.coord, r.ranges);
  }

  /** The cracking branch keeps the invariant and the known workers. */
  lemma CrackingResultPreserves(q: ProfilerState, numbers: seq<string>, payload: Payload, order: IterationOrder)
    requires ValidOrder(q, order) && Inv(q.coord)
    ensures OnCrackingResult(q, numbers, payload, order).Success? ==>
      && Inv(OnCrackingResult(q, numbers, payload, order).value.next.coord)
      && forall w :: IsTracked(OnCrackingResult(q, numbers, payload, order).value.next.coord, w) <==> IsTracked(q.coord, w)
  {
    var r := OnCrackingResult(q, numbers, payload, order);
    if r.Success? && Drained(q.coord) {
      var merged := q.(calculatedPasswordHashes := MergeHashes(q.calculatedPasswordHashes, numbers, payload.hashes));
      RefillPreserves(CrackPasswords(merged, order.hashedPasswords).value);
    }
  }

  /** The linear-combination branch keeps the invariant and the known
      workers; emptying the queue cannot break the invariant. */
  lemma CombinationResultPreserves(q: ProfilerState, payload: Payload, order: IterationOrder)
    requires ValidOrder(q, order) && Inv(q.coord)
    ensures OnCombinationResult(q, payload, order).Success? ==>
      && Inv(OnCombinationResult(q, payload, order).value.next.coord)
      && forall w :: IsTracked(OnCombinationResult(q, payload, order).value.next.coord, w) <==> IsTracked(q.coord, w)
  {
    var r := OnCombinationResult(q, payload, order);
    if r.Success? {
      if !payload.found {
        RefillPreserves(q);
      } else {
        var prefixes := AssignPrefixes(q.prefixes, order.plainTextPasswords, payload.prefixes).value;
        var cleared := q.(coord := q.coord.(unassignedWork := []), prefixes := prefixes);
        AssignAllPreserves(cleared.coord, GenePairs(order.genes, order.genes, q.genes));
      }
    }
  }

  /** The gene branch keeps the invariant and the known workers. */
  lemma OverlapResultPreserves(q: ProfilerState, firstId: int, secondId: int, payload: Payload, order: IterationOrder)
    requires ValidOrder(q, order) && Inv(q.coord)
    ensures OnOverlapResult(q, firstId, secondId, payload, order).Success? ==>
      && Inv(OnOverlapResult(q, firstId, secondId, payload, order).value.next.coord)
      && forall w :: IsTracked(OnOverlapResult(q, firstId, secondId, payload, order).value.next.coord, w) <==> IsTracked(q.coord, w)
  {
    var r := OnOverlapResult(q, firstId, secondId, payload, order);
    if r.Success? && Drained(q.coord) {
      var recorded := q.(longestGeneSubString := RecordOverlap(q.longestGeneSubString, firstId, secondId, payload.length));
      var items := HashRequests(order.prefixes, recorded.prefixes, recorded.longestGeneSubString).value;
      AssignAllPreserves(recorded.coord, items);
    }
  }

  /** Every successful branch keeps the coordinator invariant and neither
      adds nor drops a worker. */
  lemma OnSuccessPreserves(q: ProfilerState, work: WorkItem, payload: Payload, order: IterationOrder)
    requires ValidOrder(q, order) && Inv(q.coord)
    ensures OnSuccess(q, work, payload, order).Success? ==>
      && Inv(OnSuccess(q, work, payload, order).value.next.coord)
      && forall w :: IsTracked(OnSuccess(q, work, payload, order).value.next.coord, w) <==> IsTracked(q.coord, w)
  {
    match work
    case PasswordCracking(numbers) => CrackingResultPreserves(q, numbers, payload, order);
    case LinearCombination(_, _, _) => CombinationResultPreserves(q, payload, order);
    case GeneComparison(_, _, firstId, secondId) => OverlapResultPreserves(q, firstId, secondId, payload, order);
    case FindHash(_, _, _) =>
  }

  /** Everything before the sender is offered again keeps the invariant and
      leaves the sender unknown and every other worker as it was. */
  lemma DispatchPreserves(p: ProfilerState, sender: ActorRef, message: Completion, order: IterationOrder)
    requires ValidOrder(p, order) && Inv(p.coord)
    requires sender !in p.coord.idleWorkers
    ensures Dispatch(p, sender, message, order).Success? ==>
      && Inv(Dispatch(p, sender, message, order).value.next.coord)
      && !IsTracked(Dispatch(p, sender, message, order).value.next.coord, sender)
      && forall w :: w != sender ==>
           (IsTracked(Dispatch(p, sender, message, order).value.next.coord, w) <==> IsTracked(p.coord, w))
  {
    var released := p.(coord := Release(p.coord, sender));
    ReleasePreserves(p.coord, sender);
    assert !IsTracked(released.coord, sender);
    var d := Dispatch(p, sender, message, order);
    if d.Success? && sender in p.coord.busyWorkers {
      var work := p.coord.busyWorkers[sender];
      if message.status == Failed {
        assert d.value.next.coord == AssignWork(released.coord, work);
        AssignWorkPreserves(released.coord, work);
      } else {
        assert d == OnSuccess(released, work, message.payload, order);
        OnSuccessPreserves(released, work, message.payload, order);
      }
    }
  }

  /** A completion from a worker that is not idle keeps the coordinator
      invariant, and afterwards the known workers are the ones before plus
      the sender. */
  lemma CompletionPreservesInvariant(p: ProfilerState, sender: ActorRef, message: Completion, order: IterationOrder)
    requires ValidOrder(p, order) && Inv(p.coord)
    requires sender !in p.coord.idleWorkers
    ensures HandleCompletion(p, sender, message, order).Success? ==>
      && Inv(HandleCompletion(p, sender, message, order).value.next.coord)
      && forall w :: IsTracked(HandleCompletion(p, sender, message, order).value.next.coord, w) <==>
           IsTracked(p.coord, w) || w == sender
  {
    var d := Dispatch(p, sender, message, order);
    DispatchPreserves(p, sender, message, order);
    if d.Success? {
      AssignWorkerPreserves(d.value.next.coord, sender);
    }
  }

  /** A `FAILED` completion puts the item back: the outstanding work is
      unchanged, no worker is gained or lost, and no result is recorded. */
  lemma FailedCompletionRequeues(p: ProfilerState, sender: ActorRef, message: Completion, order: IterationOrder)
    requires ValidOrder(p, order) && Inv(p.coord)
    requires sender in p.coord.busyWorkers && sender !in p.coord.idleWorkers
    requires message.status == Failed
    ensures HandleCompletion(p, sender, message, order).Success?
    ensures !HandleCompletion(p, sender, message, order).value.shutdown
    ensures Pool(HandleCompletion(p, sender, message, order).value.next.coord) == Pool(p.coord)
    ensures forall w :: IsTracked(HandleCompletion(p, sender, message, order).value.next.coord, w) <==> IsTracked(p.coord, w)
    ensures HandleCompletion(p, sender, message, order).value.next ==
      p.(coord := HandleCompletion(p, sender, message, order).value.next.coord)
  {
    var work := p.coord.busyWorkers[sender];
    var released := Release(p.coord, sender);
    ReleasePreserves(p.coord, sender);
    AssignWorkPreserves(released, work);
    AssignWorkerPreserves(AssignWork(released, work), sender);
  }

  /** While work is queued or in flight, a cracking, gene or hash result
      leaves the worker bookkeeping, the cracked passwords, the prefixes and
      the counter alone and does not shut down. It records itself in its own
      map only: a cracking result merges its hashes, a gene result keeps the
      better overlap, a hash result stores the hash. */
  lemma OnSuccessWhileBusy(q: ProfilerState, work: WorkItem, payload: Payload, order: IterationOrder)
    requires ValidOrder(q, order)
    requires !work.LinearCombination? && !Drained(q.coord)
    ensures OnSuccess(q, work, payload, order).Success? ==>
      var o := OnSuccess(q, work, payload, order).value;
      && !o.shutdown
      && o.next == q.(calculatedPasswordHashes := o.next.calculatedPasswordHashes,
                      longestGeneSubString := o.next.longestGeneSubString,
                      finalHashes := o.next.finalHashes)
    ensures work.PasswordCracking? && OnSuccess(q, work, payload, order).Success? ==>
      OnSuccess(q, work, payload, order).value.next ==
        q.(calculatedPasswordHashes := MergeHashes(q.calculatedPasswordHashes, work.sixDigitNumbers, payload.hashes))
    ensures work.GeneComparison? && OnSuccess(q, work, payload, order).Success? ==>
      OnSuccess(q, work, payload, order).value.next ==
        q.(longestGeneSubString := RecordOverlap(q.longestGeneSubString, work.firstId, work.secondId, payload.length))
    ensures work.FindHash? && OnSuccess(q, work, payload, order).Success? ==>
      OnSuccess(q, work, payload, order).value.next == q.(finalHashes := q.finalHashes[work.id := payload.hash])
  {
  }

  /** While other work is queued or in flight, a successful cracking, gene
      or hash result only records its own answer: the item leaves the
      outstanding work, nothing new is submitted, no later phase starts and
      the system does not shut down. */
  lemma NoPhaseStepUntilDrained(p: ProfilerState, sender: ActorRef, message: Completion, order: IterationOrder)
    requires ValidOrder(p, order) && Inv(p.coord)
    requires sender in p.coord.busyWorkers && sender !in p.coord.idleWorkers
    requires !p.coord.busyWorkers[sender].LinearCombination?
    requires message.status == Succeeded
    requires !Drained(Release(p.coord, sender))
    ensures HandleCompletion(p, sender, message, order).Success? ==>
      var next := HandleCompletion(p, sender, message, order).value.next;
      && !HandleCompletion(p, sender, message, order).value.shutdown
      && Pool(next.coord) + multiset{p.coord.busyWorkers[sender]} == Pool(p.coord)
      && next.crackedPasswordsAsInteger == p.crackedPasswordsAsInteger
      && next.plainTextPasswords == p.plainTextPasswords
      && next.prefixes == p.prefixes
      && next.nextToSendLinearCombinationValue == p.nextToSendLinearCombinationValue
  {
    var released := p.(coord := Release(p.coord, sender));
    var work := p.coord.busyWorkers[sender];
    ReleasePreserves(p.coord, sender);
    OnSuccessWhileBusy(released, work, message.payload, order);
    var o := OnSuccess(released, work, message.payload, order);
    if o.Success? {
      assert HandleCompletion(p, sender, message, order) ==
        Success(o.value.(next := o.value.next.(coord := AssignWorker(released.coord, sender))));
      AssignWorkerPreserves(released.coord, sender);
    }
  }

  /** The poison pill is broadcast only on a hash result that leaves no
      work queued or in flight, and always then. */
  lemma ShutdownOnlyWhenDrained(p: ProfilerState, sender: ActorRef, message: Completion, order: IterationOrder)
    requires ValidOrder(p, order)
    ensures HandleCompletion(p, sender, message, order).Success? && HandleCompletion(p, sender, message, order).value.shutdown ==>
      && sender in p.coord.busyWorkers
      && p.coord.busyWorkers[sender].FindHash?
      && message.status == Succeeded
      && Drained(Release(p.coord, sender))
    ensures sender in p.coord.busyWorkers && p.coord.busyWorkers[sender].FindHash? &&
            message.status == Succeeded && message.payload.FoundHash? && Drained(Release(p.coord, sender)) ==>
      && HandleCompletion(p, sender, message, order).Success?
      && HandleCompletion(p, sender, message, order).value.shutdown
      && HandleCompletion(p, sender, message, order).value.next.finalHashes ==
           p.finalHashes[p.coord.busyWorkers[sender].id := message.payload.hash]
  {
    ShutdownImpliesDrained(p, sender, message, order);
    if sender in p.coord.busyWorkers && p.coord.busyWorkers[sender].FindHash? &&
       message.status == Succeeded && message.payload.FoundHash? && Drained(Release(p.coord, sender)) {
      DrainedHashResultShutsDown(p, sender, message, order);
    }
  }

  lemma ShutdownImpliesDrained(p: ProfilerState, sender: ActorRef, message: Completion, order: IterationOrder)
    requires ValidOrder(p, order)
    ensures Dispatch(p, sender, message, order).Success? && Dispatch(p, sender, message, order).value.shutdown ==>
      && sender in p.coord.busyWorkers
      && p.coord.busyWorkers[sender].FindHash?
      && message.status == Succeeded
      && Drained(Release(p.coord, sender))
    ensures HandleCompletion(p, sender, message, order).Success? <==> Dispatch(p, sender, message, order).Success?
    ensures HandleCompletion(p, sender, message, order).Success? ==>
      HandleCompletion(p, sender, message, order).value.shutdown == Dispatch(p, sender, message, order).value.shutdown
  {
  }

  lemma DrainedHashResultShutsDown(p: ProfilerState, sender: ActorRef, message: Completion, order: IterationOrder)
    requires ValidOrder(p, order)
    requires sender in p.coord.busyWorkers && p.coord.busyWorkers[sender].FindHash?
    requires message.status == Succeeded && message.payload.FoundHash?
    requires Drained(Release(p.coord, sender))
    ensures HandleCompletion(p, sender, message, order).Success?
    ensures HandleCompletion(p, sender, message, order).value.shutdown
    ensures HandleCompletion(p, sender, message, order).value.next.finalHashes ==
      p.finalHashes[p.coord.busyWorkers[sender].id := message.payload.hash]
  {
    var released := p.(coord := Release(p.coord, sender));
    var work := p.coord.busyWorkers[sender];
    assert Dispatch(p, sender, message, order) == OnHashResult(released, work.id, message.payload);
  }

  /** A found sign assignment drops every queued counter range: afterwards
      the queue holds only comparisons of gene pairs from the genes'
      iteration order, and the counter no longer moves. The handler fails
      exactly when the sign array is shorter than the list of cracked ids. */
  lemma FoundCombinationStartsGeneComparison(p: ProfilerState, sender: ActorRef, message: Completion, order: IterationOrder)
    requires ValidOrder(p, order)
    requires sender in p.coord.busyWorkers && p.coord.busyWorkers[sender].LinearCombination?
    requires message.status == Succeeded
    requires message.payload.LinearCombinationResult? && message.payload.found
    ensures HandleCompletion(p, sender, message, order).Success? <==>
      |order.plainTextPasswords| <= |message.payload.prefixes|
    ensures HandleCompletion(p, sender, message, order).Success? ==>
      var next := HandleCompletion(p, sender, message, order).value.next;
      && (forall x :: x in next.coord.unassignedWork ==> GenePair(x, order.genes, order.genes, p.genes))
      && next.nextToSendLinearCombinationValue == p.nextToSendLinearCombinationValue
      && next.crackedPasswordsAsInteger == p.crackedPasswordsAsInteger
      && (forall k :: 0 <= k < |order.plainTextPasswords| ==>
            order.plainTextPasswords[k] in next.prefixes &&
            next.prefixes[order.plainTextPasswords[k]] == message.payload.prefixes[k])
  {
    var r := HandleCompletion(p, sender, message, order);
    if r.Success? {
      var released := p.(coord := Release(p.coord, sender));
      var prefixes := AssignPrefixes(p.prefixes, order.plainTextPasswords, message.payload.prefixes).value;
      var cleared := released.(coord := released.coord.(unassignedWork := []), prefixes := prefixes);
      var items := GenePairs(order.genes, order.genes, p.genes);
      var c := AssignAll(cleared.coord, items);
      AssignAllQueued(cleared.coord, items);
      assert forall x :: x in c.unassignedWork ==> x in items;
      assert r.value.next.coord == AssignWorker(c, sender);
      assert forall x :: x in AssignWorker(c, sender).unassignedWork ==> x in c.unassignedWork;
    }
  }

  /** A range that held no solution triggers a refill: the counter moves to
      the end of the submitted ranges, the finished range leaves the
      outstanding work and the new ranges join it; nothing else changes. */
  lemma ExhaustedRangeRefills(p: ProfilerState, sender: ActorRef, message: Completion, order: IterationOrder)
    requires ValidOrder(p, order) && Inv(p.coord)
    requires sender in p.coord.busyWorkers && sender !in p.coord.idleWorkers
    requires p.coord.busyWorkers[sender].LinearCombination?
    requires message.status == Succeeded
    requires message.payload.LinearCombinationResult? && !message.payload.found
    ensures HandleCompletion(p, sender, message, order).Success?
    ensures
      var next := HandleCompletion(p, sender, message, order).value.next;
      var refill := RefillFrom(Release(p.coord, sender), p.crackedPasswordsAsInteger, p.nextToSendLinearCombinationValue, 0);
      && next == p.(coord := next.coord, nextToSendLinearCombinationValue := refill.cursor)
      && Pool(next.coord) + multiset{p.coord.busyWorkers[sender]} == Pool(p.coord) + multiset(refill.ranges)
  {
    var work := p.coord.busyWorkers[sender];
    var released := p.(coord := Release(p.coord, sender));
    ReleasePreserves(p.coord, sender);
    RefillPreserves(released);
    var refilled := CalculateLinearCombination(released);
    assert OnSuccess(released, work, message.payload, order) == Success(Outcome(refilled, false));
    var next := refilled.(coord := AssignWorker(refilled.coord, sender));
    assert HandleCompletion(p, sender, message, order) == Success(Outcome(next, false));
    AssignWorkerPreserves(refilled.coord, sender);
    assert Pool(next.coord) == Pool(refilled.coord);
  }

  /** The cracking result that leaves nothing queued or in flight cracks
      every id and submits the first ranges; it fails exactly when some
      id's hash was not cracked to a number. */
  lemma OnLastCrackingResult(q: ProfilerState, numbers: seq<string>, payload: Payload, order: IterationOrder)
    requires ValidOrder(q, order) && Inv(q.coord)
    requires payload.Hashes? && 0 < |payload.hashes| && |numbers| <= |payload.hashes|
    requires Drained(q.coord)
    ensures
      var merged := q.(calculatedPasswordHashes := MergeHashes(q.calculatedPasswordHashes, numbers, payload.hashes));
      OnSuccess(q, PasswordCracking(numbers), payload, order).Success? <==>
        forall k :: 0 <= k < |order.hashedPasswords| ==> Crackable(merged, order.hashedPasswords[k])
    ensures OnSuccess(q, PasswordCracking(numbers), payload, order).Success? ==>
      var next := OnSuccess(q, PasswordCracking(numbers), payload, order).value.next;
      && (forall id :: id in q.hashedPasswords ==> id in next.plainTextPasswords)
      && |next.crackedPasswordsAsInteger| == |q.crackedPasswordsAsInteger| + |order.hashedPasswords|
      && next.nextToSendLinearCombinationValue > q.nextToSendLinearCombinationValue
      && Inv(next.coord)
      && (forall w :: IsTracked(next.coord, w) <==> IsTracked(q.coord, w))
    ensures
      var merged := q.(calculatedPasswordHashes := MergeHashes(q.calculatedPasswordHashes, numbers, payload.hashes));
      var r := OnSuccess(q, PasswordCracking(numbers), payload, order);
      r.Success? ==> CrackedAll(merged, order.hashedPasswords, q, r.value.next)
  {
    var merged := q.(calculatedPasswordHashes := MergeHashes(q.calculatedPasswordHashes, numbers, payload.hashes));
    var cracked := CrackPasswords(merged, order.hashedPasswords);
    var r := OnSuccess(q, PasswordCracking(numbers), payload, order);
    assert r == OnCrackingResult(q, numbers, payload, order);
    if cracked.Success? {
      var next := CalculateLinearCombination(cracked.value);
      assert r == Success(Outcome(next, false));
      CrackPasswordsStoresTexts(merged, order.hashedPasswords);
      CrackPasswordsCracksAll(merged, order.hashedPasswords);
      CrackedAllFrame(merged, order.hashedPasswords, merged, cracked.value, q, next);
      assert |CrackedValues(merged, order.hashedPasswords)| == |order.hashedPasswords|;
      assert next.crackedPasswordsAsInteger == q.crackedPasswordsAsInteger + CrackedValues(merged, order.hashedPasswords);
      RefillPreserves(cracked.value);
    } else {
      assert r.Failure?;
    }
  }


  /** The last cracking result starts the linear-combination phase: every
      id gets its plain text, the cracked numbers grow by one per id, and
      the first ranges go out. Any id whose hash was not cracked to a
      number makes the handler fail. */
  lemma LastCrackingResultCracksAll(p: ProfilerState, sender: ActorRef, message: Completion, order: IterationOrder)
    requires ValidOrder(p, order) && Inv(p.coord)
    requires sender in p.coord.busyWorkers && sender !in p.coord.idleWorkers
    requires p.coord.busyWorkers[sender].PasswordCracking?
    requires message.status == Succeeded && message.payload.Hashes?
    requires 0 < |message.payload.hashes| && |p.coord.busyWorkers[sender].sixDigitNumbers| <= |message.payload.hashes|
    requires Drained(Release(p.coord, sender))
    ensures
      var merged := p.(calculatedPasswordHashes := MergeHashes(p.calculatedPasswordHashes,
                         p.coord.busyWorkers[sender].sixDigitNumbers, message.payload.hashes));
      HandleCompletion(p, sender, message, order).Success? <==>
        forall k :: 0 <= k < |order.hashedPasswords| ==> Crackable(merged, order.hashedPasswords[k])
    ensures HandleCompletion(p, sender, message, order).Success? ==>
      var next := HandleCompletion(p, sender, message, order).value.next;
      && (forall id :: id in p.hashedPasswords ==> id in next.plainTextPasswords)
      && |next.crackedPasswordsAsInteger| == |p.crackedPasswordsAsInteger| + |order.hashedPasswords|
      && next.nextToSendLinearCombinationValue > p.nextToSendLinearCombinationValue
      && Inv(next.coord)
      && (forall w :: IsTracked(next.coord, w) <==> IsTracked(p.coord, w))
    ensures
      var merged := p.(calculatedPasswordHashes := MergeHashes(p.calculatedPasswordHashes,
                         p.coord.busyWorkers[sender].sixDigitNumbers, message.payload.hashes));
      var r := HandleCompletion(p, sender, message, order);
      r.Success? ==> CrackedAll(merged, order.hashedPasswords, p, r.value.next)
  {
    var numbers := p.coord.busyWorkers[sender].sixDigitNumbers;
    var released := p.(coord := Release(p.coord, sender));
    ReleasePreserves(p.coord, sender);
    OnLastCrackingResult(released, numbers, message.payload, order);
    var merged := p.(calculatedPasswordHashes := MergeHashes(p.calculatedPasswordHashes, numbers, message.payload.hashes));
    var mergedReleased := released.(calculatedPasswordHashes := merged.calculatedPasswordHashes);
    SameLookups(mergedReleased, merged);
    var o := OnSuccess(released, PasswordCracking(numbers), message.payload, order);
    CompletionPreservesInvariant(p, sender, message, order);
    if o.Success? {
      assert HandleCompletion(p, sender, message, order) ==
        Success(o.value.(next := o.value.next.(coord := AssignWorker(o.value.next.coord, sender))));
      SameCrackedValues(mergedReleased, merged, order.hashedPasswords);
    }
  }

  /** The plain-text lookup reads only the two hash maps. */
  lemma SameLookups(p: ProfilerState, p': ProfilerState)
    requires p.hashedPasswords == p'.hashedPasswords
    requires p.calculatedPasswordHashes == p'.calculatedPasswordHashes
    ensures forall id :: id in p.hashedPasswords ==> CrackedText(p, id) == CrackedText(p', id)
    ensures forall id :: id in p.hashedPasswords ==> (Crackable(p, id) <==> Crackable(p', id))
  {
  }

  /** The cracked numbers read only the two hash maps. */
  lemma SameCrackedValues(p: ProfilerState, p': ProfilerState, order: seq<int>)
    requires p.hashedPasswords == p'.hashedPasswords
    requires p.calculatedPasswordHashes == p'.calculatedPasswordHashes
    requires forall k :: 0 <= k < |order| ==> order[k] in p.hashedPasswords && Crackable(p, order[k])
    ensures forall k :: 0 <= k < |order| ==> Crackable(p', order[k])
    ensures CrackedValues(p, order) == CrackedValues(p', order)
  {
    SameLookups(p, p');
  }
}
