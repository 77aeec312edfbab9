/** What a sender of src/libdeltafs/parallel_compactor.cc reports and how large its batches are, and that a rank
    whose RPCs all succeed comes to the barrier. */
module SenderProgress {
  import opened Coding
  import opened KvBatches
  import opened KvSenders
  import opened Compactors
  import opened Delivery

  // ----- What is reported

  /** The server or the RPC fails, or the RPC ends before the server has answered. */
  ghost predicate Fault(s: State, step: Step) {
    match step
    case Serve(_, dbGood) => !dbGood
    case Complete(j, rpcGood) => !rpcGood || (j < |s.jobs| && s.jobs[j].Called?)
    case _ => false
  }

  ghost predicate NoError(s: State) {
    && s.good && s.jobs != [Replied(false)]
    && forall i :: 0 <= i < |s.calls| ==> s.calls[i].good
  }

  /** Without a fault no call reports an error. */
  lemma NoFalseAlarm(s: State, step: Step)
    requires KvSenders.Inv(s) && Enabled(s, step) && NoError(s) && !Fault(s, step)
    ensures NoError(Apply(s, step))
  {
    hide Fixed32, EncodePair, EncodePairs, Body, DecodeBody, Fits, Conservation, Results, Concat;
    if step.Serve? {
      ServedWell(s, step.j);
    } else if step.Complete? {
      assert s.jobs == [Replied(true)];
      assert s.jobs[..step.j] + s.jobs[step.j + 1..] == [];
    } else {
      assert (s.jobs + [Called])[|s.jobs|] == Called;
    }
  }

  lemma ServedWell(s: State, j: nat)
    requires Bookkeeping(s) && j < |s.jobs| && s.jobs[j].Called?
    ensures DecodeBody(s.message) == Pairs(s.pending)
  {
    hide DecodeBody, Body;
    assert s.jobs == [Called];
    BodyRoundTrip(s.pending);
  }

  /** An RPC that ends after a fault leaves an error. */
  lemma FaultIsReported(s: State, step: Step)
    requires KvSenders.Inv(s) && Enabled(s, step) && step.Complete?
    requires Fault(s, step) || s.jobs == [Replied(false)]
    ensures !Apply(s, step).good
  {
  }

  /** An error is for good: every call that ends from then on reports it, save one that ran its own RPC. */
  lemma ErrorStays(s: State, step: Step)
    requires Enabled(s, step) && !s.good
    ensures var t := Apply(s, step);
            && !t.good
            && (t.calls == s.calls
                || (|t.calls| == |s.calls| + 1 && (!s.producer.Blocked? ==> !t.calls[|s.calls|].good)))
  {
    hide Fixed32, EncodePair, Fits, DecodeBody;
  }

  // ----- With faults

  /** What the server has applied is what was sent first, each pair once; after an error nothing is sent on. */
  ghost predicate AppliedFirst(s: State) {
    Concat(s.applied) <= s.sent && (!s.good ==> s.jobs == [])
  }

  lemma CallStaysFirst(s: State, step: Step)
    requires Enabled(s, step) && AppliedFirst(s) && !step.Serve? && !step.Complete?
    ensures AppliedFirst(Apply(s, step))
  {
    hide Fixed32, EncodePair, Fits, Concat;
    if step.Send? { assert s.sent <= s.sent + [step.p]; }
  }

  lemma ServeStaysFirst(s: State, j: nat, dbGood: bool)
    requires KvSenders.Inv(s) && Enabled(s, Serve(j, dbGood)) && AppliedFirst(s)
    ensures AppliedFirst(Apply(s, Serve(j, dbGood)))
  {
    hide Fixed32, EncodePairs, Body, DecodeBody, Fits, Results, Concat;
    assert s.jobs == [Called];
    ServeKeeps(s, dbGood);
    var t := Apply(s, Serve(j, dbGood));
    if t.applied != s.applied { assert t.jobs == [Replied(true)]; }
  }

  lemma CompleteStaysFirst(s: State, j: nat, rpcGood: bool)
    requires Bookkeeping(s) && Enabled(s, Complete(j, rpcGood)) && AppliedFirst(s)
    ensures AppliedFirst(Apply(s, Complete(j, rpcGood)))
  {
    hide Fixed32, EncodePairs, Body, Fits, Concat;
    assert s.jobs[..j] + s.jobs[j + 1..] == [];
  }

  lemma StaysFirst(s: State, step: Step)
    requires KvSenders.Inv(s) && Enabled(s, step) && AppliedFirst(s)
    ensures AppliedFirst(Apply(s, step))
  {
    hide Bookkeeping, Conservation, Results, Enabled, AppliedFirst, Apply;
    match step
    case Serve(j, dbGood) => ServeStaysFirst(s, j, dbGood);
    case Complete(j, rpcGood) => CompleteStaysFirst(s, j, rpcGood);
    case _ => CallStaysFirst(s, step);
  }

  lemma {:induction false} RunStaysFirst(s: State, steps: seq<Step>)
    requires KvSenders.Inv(s) && LegalRun(s, steps) && AppliedFirst(s)
    ensures AppliedFirst(KvSenders.Run(s, steps))
    decreases |steps|
  {
    hide KvSenders.Inv, Enabled, Apply, AppliedFirst;
    if steps != [] {
      StepIs(s, steps);
      StaysFirst(s, steps[0]);
      StepKeeps(s, steps[0]);
      RunStaysFirst(Apply(s, steps[0]), steps[1..]);
    }
  }

  /** Over every interleaving and whatever fails, no pair is applied twice, out of order, or without those sent
      before it. */
  lemma NeverTwice(batchMin: nat, batchMax: nat, pooled: bool, steps: seq<Step>)
    requires LegalRun(KvSenders.Start(batchMin, batchMax, pooled), steps)
    ensures var s := KvSenders.Run(KvSenders.Start(batchMin, batchMax, pooled), steps); Concat(s.applied) <= s.sent
  {
    hide LegalRun, KvSenders.Run, KvSenders.Inv;
    RunStaysFirst(KvSenders.Start(batchMin, batchMax, pooled), steps);
  }

  // ----- Who waits

  /** A Send waits only if the larger batch size is reached too while an RPC is outstanding, a Flush only if
      something is buffered then, a wait only for an RPC. */
  lemma WhoWaits(s: State, step: Step)
    requires Enabled(s, step) && IsCall(step)
    ensures var t := Apply(s, step);
            && (t.producer.InSend? <==>
                  step.Send? && s.good && s.scheduled && s.n + 1 >= s.batchMin && s.n + 1 >= s.batchMax)
            && (t.producer.InFlush? <==> step.Flush? && s.good && s.scheduled && s.n > 0)
            && (t.producer.InWait? <==> step.WaitForAsyncOperations? && s.scheduled)
            && (t.producer.Blocked? ==> !s.pooled && !s.scheduled && t.scheduled)
  {
    hide Fixed32, EncodePair, Fits;
  }

  // ----- How large batches are

  /** The buffer never has more than the larger batch size, or one pair, and a Send that waits has added one. */
  ghost predicate Small(s: State) {
    && (s.good ==> s.n <= Max(1, Max(s.batchMin, s.batchMax)))
    && (s.producer.InSend? ==> s.n > 0)
  }

  /** If t has an RPC that s does not, it is for what was buffered: no more than the larger batch size, and no less
      than the smaller unless it is for a flush. */
  ghost predicate Sized(s: State, t: State, flush: bool) {
    |t.jobs| > |s.jobs| ==>
      && t.pending == s.buffered && 1 <= |t.pending| <= Max(1, Max(s.batchMin, s.batchMax))
      && (flush || |t.pending| >= s.batchMin)
  }

  ghost predicate Counted(s: State) {
    s.n == |s.buffered|
  }

  lemma SendSizes(s: State)
    requires Small(s) && Counted(s) && s.n > 0
    ensures Small(CheckSend(s)) && Sized(s, CheckSend(s), false)
  {
    hide Fixed32;
  }

  lemma FlushSizes(s: State)
    requires Small(s) && Counted(s) && !s.producer.InSend?
    ensures Small(CheckFlush(s)) && Sized(s, CheckFlush(s), true)
  {
    hide Fixed32;
  }

  lemma WaitSizes(s: State)
    requires Small(s) && !s.producer.InSend?
    ensures Small(CheckWait(s)) && Sized(s, CheckWait(s), false)
  {
  }

  /** What s has when a Send of p decides. */
  function Appended(s: State, step: Step): State {
    if step.Send?
    then s.(buf := s.buf + EncodePair(step.p), n := s.n + 1, sent := s.sent + [step.p],
            buffered := s.buffered + [step.p])
    else s
  }

  /** A step that starts an RPC sends what was buffered: at most the larger batch size, and at least the smaller
      unless it is for a flush. */
  lemma BatchSizes(s: State, step: Step)
    requires KvSenders.Inv(s) && Enabled(s, step) && Small(s)
    ensures Small(Apply(s, step))
    ensures Sized(Appended(s, step), Apply(s, step), step.Flush? || s.producer.InFlush?)
  {
    hide Fixed32, EncodePair, EncodePairs, Body, DecodeBody, Fits, Conservation, Concat;
    hide CheckSend, CheckFlush, CheckWait, Sized;
    BufferedIsCounted(s);
    match step
    case Send(p) => AppendIsSmall(s, p); SendSizes(Appended(s, step));
    case Flush => FlushSizes(s);
    case WaitForAsyncOperations => WaitSizes(s);
    case Wake =>
      match s.producer {
        case InSend => SendSizes(s);
        case InFlush => FlushSizes(s);
        case InWait => WaitSizes(s);
        case _ =>
      }
    case Serve(j, dbGood) => NoMoreJobs(s, step);
    case Complete(j, rpcGood) => NoMoreJobs(s, step);
  }

  lemma AppendIsSmall(s: State, p: Pair)
    requires Small(s) && Counted(s) && Results(s) && s.producer.Idle?
    ensures Small(Appended(s, Send(p))) && Counted(Appended(s, Send(p)))
  {
    hide EncodePair;
  }

  lemma NoMoreJobs(s: State, step: Step)
    requires Enabled(s, step) && (step.Serve? || step.Complete?)
    ensures |Apply(s, step).jobs| <= |s.jobs|
    ensures Sized(s, Apply(s, step), step.Flush? || s.producer.InFlush?)
  {
    hide DecodeBody;
  }

  lemma BufferedIsCounted(s: State)
    requires Bookkeeping(s)
    ensures Counted(s)
  {
  }

  /** A Send that finds no RPC outstanding starts one exactly when the smaller batch size is reached. */
  lemma SendStarts(s: State, p: Pair)
    requires KvSenders.Inv(s) && Enabled(s, Send(p)) && s.good && !s.scheduled
    ensures var t := Apply(s, Send(p));
            && (t.jobs != [] <==> |s.buffered| + 1 >= s.batchMin)
            && (s.pooled || t.jobs == [] ==> t.producer.Idle?)
  {
    hide Fixed32, EncodePair, EncodePairs, Body, DecodeBody, Fits, Conservation, Concat;
  }

  // ----- Work left

  function JobWork(jobs: seq<Job>): nat {
    if jobs == [] then 0 else JobWork(jobs[1..]) + if jobs[0].Called? then 2 else 1
  }

  /** The steps that a sender's RPC and its sleeping producer still need. */
  function Work(s: State): nat {
    JobWork(s.jobs) + if s.producer.InSend? || s.producer.InFlush? || s.producer.InWait? then 3 else 0
  }

  /** Waking up is for nothing while the RPC is outstanding. */
  ghost predicate Idles(s: State, step: Step) {
    step.Wake? && s.scheduled
  }

  /** Serving, completing and waking up after completion leave less to do, beginning a call at most five more. */
  lemma WorkShrinks(s: State, step: Step)
    requires KvSenders.Inv(s) && NoError(s) && Enabled(s, step) && !Idles(s, step)
    ensures IsCall(step) ==> Work(Apply(s, step)) <= Work(s) + 5
    ensures !IsCall(step) ==> Work(Apply(s, step)) < Work(s)
  {
    hide Fixed32, EncodePair, EncodePairs, Body, DecodeBody, Fits, Conservation, Results, Concat;
    assert s.jobs == [] || s.jobs == [s.jobs[0]];
    assert JobWork([Called]) == 2 && JobWork([]) == 0;
    assert s.jobs == [] ==> s.jobs + [Called] == [Called];
    if step.Serve? {
      assert JobWork([Replied(DecodeBody(s.message).Pairs? && step.dbGood)]) == 1;
    }
    if step.Complete? { assert s.jobs[..step.j] + s.jobs[step.j + 1..] == []; }
  }

  /** A producer in a call, whose RPC succeeds, has something to wait for that can happen. */
  lemma SenderCanStep(s: State) returns (step: Step)
    requires KvSenders.Inv(s) && NoError(s) && !s.producer.Idle?
    ensures Enabled(s, step) && !IsCall(step) && !Fault(s, step) && !Idles(s, step)
  {
    hide Fixed32, EncodePair, EncodePairs, Body, DecodeBody, Fits, Conservation, Results, Concat;
    if s.scheduled {
      assert s.jobs == [s.jobs[0]];
      step := if s.jobs[0].Called? then Serve(0, true) else Complete(0, true);
    } else {
      step := Wake;
    }
  }

  // ----- A rank

  ghost predicate RankFault(s: Rank, step: RankStep) {
    step.Beside? && step.i < |s.senders| && Fault(s.senders[step.i], step.step)
  }

  ghost predicate RankIdles(s: Rank, step: RankStep) {
    step.Beside? && step.i < |s.senders| && Idles(s.senders[step.i], step.step)
  }

  ghost predicate RankHasNoError(s: Rank) {
    !s.aborted && forall i :: 0 <= i < |s.senders| ==> NoError(s.senders[i])
  }

  /** A rank none of whose RPCs has failed does not abort. */
  lemma RankHasNoFalseAlarm(calls: seq<Request>, s: Rank, step: RankStep)
    requires RankInv(calls, s) && CanStep(calls, s, step) && RankHasNoError(s) && !RankFault(s, step)
    ensures RankHasNoError(Delivery.Next(calls, s, step))
  {
    hide KvSenders.Inv, Apply, KvSenders.Enabled, NoError, Fault;
    match step
    case Begin =>
      var d := calls[s.pc].dest;
      CallIsNoFault(s.senders[d], calls[s.pc].step);
      NoFalseAlarm(s.senders[d], calls[s.pc].step);
    case Return =>
      ReturnedWell(calls, s);
    case Beside(i, inner) =>
      NoFalseAlarm(s.senders[i], inner);
  }

  lemma CallIsNoFault(s: State, step: Step)
    requires IsCall(step)
    ensures !Fault(s, step)
  {
  }

  lemma ReturnedWell(calls: seq<Request>, s: Rank)
    requires RankInv(calls, s) && CanStep(calls, s, Return) && RankHasNoError(s)
    ensures !Delivery.Next(calls, s, Return).aborted
  {
    hide KvSenders.Inv;
    var sender := s.senders[calls[s.pc].dest];
    assert Abreast(calls, s, calls[s.pc].dest);
    assert sender.calls[|sender.calls| - 1].good;
  }

  ghost function TotalWork(senders: seq<State>): nat {
    if senders == [] then 0 else TotalWork(senders[..|senders| - 1]) + Work(senders[|senders| - 1])
  }

  lemma {:induction false} OneChanges(senders: seq<State>, i: nat, t: State)
    requires i < |senders|
    ensures TotalWork(senders[i := t]) == TotalWork(senders) - Work(senders[i]) + Work(t)
  {
    hide Work;
    var n := |senders| - 1;
    if i < n {
      OneChanges(senders[..n], i, t);
      assert senders[i := t][..n] == senders[..n][i := t];
    } else {
      assert senders[i := t][..n] == senders[..n];
    }
  }

  /** The steps before the rank that it cannot do without. */
  ghost function RankWork(calls: seq<Request>, s: Rank): nat
    requires s.pc <= |calls|
  {
    8 * (|calls| - s.pc) + TotalWork(s.senders) + if s.inCall then 0 else 6
  }

  /** Every step brings the rank nearer to the barrier. */
  lemma RankWorkShrinks(calls: seq<Request>, s: Rank, step: RankStep)
    requires RankInv(calls, s) && CanStep(calls, s, step) && RankHasNoError(s)
    requires !RankFault(s, step) && !RankIdles(s, step)
    ensures Delivery.Next(calls, s, step).pc <= |calls|
    ensures RankWork(calls, Delivery.Next(calls, s, step)) < RankWork(calls, s)
  {
    hide KvSenders.Inv, Apply, NoError, Fault, Work, TotalWork, Idles, Fits;
    match step
    case Begin =>
      var d := calls[s.pc].dest;
      CallDoesNotIdle(s.senders[d], calls[s.pc].step);
      WorkShrinks(s.senders[d], calls[s.pc].step);
      OneChanges(s.senders, d, Apply(s.senders[d], calls[s.pc].step));
    case Return => ReturnedWell(calls, s);
    case Beside(i, inner) =>
      WorkShrinks(s.senders[i], inner);
      OneChanges(s.senders, i, Apply(s.senders[i], inner));
  }

  lemma CallDoesNotIdle(s: State, step: Step)
    requires IsCall(step)
    ensures !Idles(s, step)
  {
  }

  // ----- Arrival

  /** Batch sizes that an int can hold, and pairs whose lengths fit in 32 bits. */
  ghost predicate Sendable(calls: seq<Request>, b: Batching) {
    && b.batchMin < INT_MAX && b.batchMax < INT_MAX
    && forall k :: 0 <= k < |calls| && calls[k].step.Send? ==>
         |calls[k].step.p.key| < WORD32 && |calls[k].step.p.value| < WORD32
  }

  ghost predicate BatchesOf(s: State, b: Batching) {
    Small(s) && s.batchMin == b.batchMin && s.batchMax == b.batchMax
  }

  ghost predicate AllBatchesOf(s: Rank, b: Batching) {
    forall i :: 0 <= i < |s.senders| ==> BatchesOf(s.senders[i], b)
  }

  lemma BatchesStay(s: State, step: Step, b: Batching)
    requires KvSenders.Inv(s) && Enabled(s, step) && BatchesOf(s, b)
    ensures BatchesOf(Apply(s, step), b)
  {
    BatchSizes(s, step);
    SameSizes(s, step);
  }

  lemma SameSizes(s: State, step: Step)
    requires Enabled(s, step)
    ensures Apply(s, step).batchMin == s.batchMin && Apply(s, step).batchMax == s.batchMax
  {
    hide Fixed32, EncodePair, Fits, DecodeBody;
  }

  lemma AllBatchesStay(calls: seq<Request>, s: Rank, step: RankStep, b: Batching)
    requires RankInv(calls, s) && CanStep(calls, s, step) && AllBatchesOf(s, b)
    ensures AllBatchesOf(Delivery.Next(calls, s, step), b)
  {
    hide KvSenders.Inv, Apply, BatchesOf, Fits;
    match step
    case Begin => BatchesStay(s.senders[calls[s.pc].dest], calls[s.pc].step, b);
    case Return =>
    case Beside(i, inner) => BatchesStay(s.senders[i], inner, b);
  }

  /** A pair whose lengths fit can be sent: the buffer is small. */
  lemma CanSend(s: State, p: Pair, b: Batching)
    requires KvSenders.Inv(s) && s.producer.Idle? && s.good && BatchesOf(s, b)
    requires b.batchMin < INT_MAX && b.batchMax < INT_MAX && |p.key| < WORD32 && |p.value| < WORD32
    ensures Enabled(s, Send(p))
  {
    hide Fixed32, EncodePairs, Conservation, Results;
  }

  /** Until the rank is at the barrier there is a step that it can take without a fault and not for nothing. */
  lemma RankCanStep(calls: seq<Request>, s: Rank, b: Batching) returns (step: RankStep)
    requires RankInv(calls, s) && RankHasNoError(s) && !AtBarrier(calls, s)
    requires Sendable(calls, b) && AllBatchesOf(s, b)
    ensures CanStep(calls, s, step) && !RankFault(s, step) && !RankIdles(s, step)
  {
    hide KvSenders.Inv, Fault, Idles, Fits, BatchesOf;
    var d := calls[s.pc].dest;
    assert Abreast(calls, s, d);
    if !s.inCall {
      assert NoError(s.senders[d]);
      if calls[s.pc].step.Send? { CanSend(s.senders[d], calls[s.pc].step.p, b); }
      step := Begin;
    } else if s.senders[d].producer.Idle? {
      step := Return;
    } else {
      var inner := SenderCanStep(s.senders[d]);
      step := Beside(d, inner);
    }
  }

  /** So when no RPC fails a rank comes to the barrier from wherever it is. */
  lemma {:induction false} RankArrives(calls: seq<Request>, s: Rank, b: Batching) returns (steps: seq<RankStep>)
    requires RankInv(calls, s) && RankHasNoError(s) && Sendable(calls, b) && AllBatchesOf(s, b)
    ensures RankRun(calls, s, steps) && AtBarrier(calls, After(calls, s, steps))
    decreases RankWork(calls, s)
  {
    hide RankHasNoError, AllBatchesOf, Sendable, RankWork, CanStep, Delivery.Next, RankFault, RankIdles, Abreast;
    hide KvSenders.Inv;
    if AtBarrier(calls, s) {
      steps := [];
    } else {
      var step := RankCanStep(calls, s, b);
      RankStepKeeps(calls, s, step);
      RankHasNoFalseAlarm(calls, s, step);
      AllBatchesStay(calls, s, step, b);
      RankWorkShrinks(calls, s, step);
      var rest := RankArrives(calls, Delivery.Next(calls, s, step), b);
      steps := [step] + rest;
      assert steps[1..] == rest;
    }
  }

  /** A new rank is such a state. */
  lemma NewRankArrives(calls: seq<Request>, ranks: nat, b: Batching) returns (steps: seq<RankStep>)
    requires IsProgram(calls, ranks) && Sendable(calls, b)
    ensures RankRun(calls, NewRank(ranks, b), steps) && AtBarrier(calls, After(calls, NewRank(ranks, b), steps))
  {
    hide RankInv, RankRun, After;
    NewRankKeeps(calls, ranks, b);
    var s := NewRank(ranks, b);
    forall i | 0 <= i < ranks ensures NoError(s.senders[i]) && BatchesOf(s.senders[i], b) {
      assert s.senders[i] == KvSenders.Start(b.batchMin, b.batchMax, b.pooled);
    }
    steps := RankArrives(calls, s, b);
  }
}
