/** AsyncKVSender of src/libdeltafs/parallel_compactor.cc: one producer thread and the job that runs its
    RPC, interleaved at the mutex; and the compactor that sends every pair to the rank that owns it. */
module KvSenders {
  import opened Coding
  import opened KvBatches

  /** Asleep in a call, or running the RPC itself when there is no pool. */
  datatype Producer = Idle | InSend | InFlush | InWait | Blocked(flush: bool)

  /** An RPC before and after the server has run it; the reply carries an error code. */
  datatype Job = Called | Replied(good: bool)

  datatype Call = SendCall(good: bool) | FlushCall(good: bool) | WaitCall(good: bool)

  /** The fields, the message, the jobs handed out; and as history the pairs passed to Send, the batches the
      server applied, the pairs in the buffer and in the message, and the calls that have returned. */
  datatype State = State(
    batchMin: nat, batchMax: nat, pooled: bool,
    buf: Bytes, n: nat, scheduled: bool, good: bool, message: Bytes, jobs: seq<Job>, producer: Producer,
    sent: seq<Pair>, applied: seq<seq<Pair>>, buffered: seq<Pair>, pending: seq<Pair>, calls: seq<Call>)

  datatype Step =
    | Send(p: Pair) | Flush | WaitForAsyncOperations | Wake
    | Serve(j: nat, dbGood: bool) | Complete(j: nat, rpcGood: bool)

  function Return(s: State, c: Call): State {
    s.(producer := Idle, calls := s.calls + [c])
  }

  /** Hands the buffer to a job. */
  function Schedule(s: State, flush: bool): State {
    var t := s.(scheduled := true, message := Fixed32(s.n % WORD32) + (if |s.buf| >= 4 then s.buf[4..] else []),
                jobs := s.jobs + [Called],
                buf := Fixed32(0), n := 0, pending := s.buffered, buffered := []);
    if s.pooled then Return(t, if flush then FlushCall(true) else SendCall(true)) else t.(producer := Blocked(flush))
  }

  function CheckSend(s: State): State {
    if !s.good then Return(s, SendCall(false))
    else if s.n < s.batchMin then Return(s, SendCall(true))
    else if !s.scheduled then Schedule(s, false)
    else if s.n < s.batchMax then Return(s, SendCall(true))
    else s.(producer := InSend)
  }

  function CheckFlush(s: State): State {
    if !s.good then Return(s, FlushCall(false))
    else if s.n == 0 then Return(s, FlushCall(true))
    else if !s.scheduled then Schedule(s, true)
    else s.(producer := InFlush)
  }

  function CheckWait(s: State): State {
    if s.scheduled then s.(producer := InWait) else Return(s, WaitCall(s.good))
  }

  ghost predicate Enabled(s: State, step: Step) {
    match step
    case Send(p) => s.producer.Idle? && Fits(s.buffered + [p])
    case Flush => s.producer.Idle?
    case WaitForAsyncOperations => s.producer.Idle?
    case Wake => s.producer.InSend? || s.producer.InFlush? || s.producer.InWait?
    case Serve(j, _) => j < |s.jobs| && s.jobs[j].Called?
    case Complete(j, _) => j < |s.jobs|
  }

  function Apply(s: State, step: Step): State
    requires step.Serve? ==> step.j < |s.jobs|
    requires step.Complete? ==> step.j < |s.jobs|
  {
    match step
    case Send(p) =>
      CheckSend(s.(buf := s.buf + EncodePair(p), n := s.n + 1, sent := s.sent + [p], buffered := s.buffered + [p]))
    case Flush => CheckFlush(s)
    case WaitForAsyncOperations => CheckWait(s)
    case Wake =>
      (match s.producer
       case InSend => CheckSend(s)
       case InFlush => CheckFlush(s)
       case InWait => CheckWait(s)
       case _ => s)
    case Serve(j, dbGood) =>
      var r := DecodeBody(s.message);
      var good := r.Pairs? && dbGood;
      s.(jobs := s.jobs[j := Replied(good)], applied := if good then s.applied + [r.ps] else s.applied)
    case Complete(j, rpcGood) =>
      var good := rpcGood && s.jobs[j] == Replied(true);
      var t := s.(jobs := s.jobs[..j] + s.jobs[j + 1..], scheduled := false, good := s.good && good);
      if s.producer.Blocked? then Return(t, if s.producer.flush then FlushCall(true) else SendCall(true)) else t
  }

  // ----- The invariant

  function Concat(batches: seq<seq<Pair>>): seq<Pair> {
    if batches == [] then [] else Concat(batches[..|batches| - 1]) + batches[|batches| - 1]
  }

  function Max(a: nat, b: nat): nat {
    if a > b then a else b
  }

  ghost predicate Inv(s: State) {
    && Bookkeeping(s) && Conservation(s) && Results(s)
  }

  /** One RPC at most; the message holds it; the buffer holds what is buffered. */
  ghost predicate Bookkeeping(s: State) {
    && |s.jobs| <= 1 && (s.scheduled <==> |s.jobs| == 1) && (s.producer.Blocked? ==> s.scheduled && s.n == 0)
    && s.buf == Fixed32(0) + EncodePairs(s.buffered) && s.n == |s.buffered| && Fits(s.buffered)
    && (s.jobs == [Called] ==> Fits(s.pending) && s.message == Body(s.pending))
  }

  /** As long as nothing has failed, every pair sent is applied, in the message or in the buffer, in order. */
  ghost predicate Conservation(s: State) {
    s.good && s.jobs != [Replied(false)] ==>
      s.sent == Concat(s.applied) + (if s.jobs == [Called] then s.pending else []) + s.buffered
  }

  ghost predicate Results(s: State) {
    && (!s.producer.InSend? && s.good ==> s.n == 0 || s.n < Max(s.batchMin, s.batchMax))
    && (s.calls != [] && s.calls[|s.calls| - 1] == FlushCall(true) && (s.producer.Idle? || s.producer.InWait?)
        ==> s.n == 0)
    && (s.calls != [] && s.calls[|s.calls| - 1] == WaitCall(true) && s.producer.Idle? ==>
          && s.good && !s.scheduled
          && (|s.calls| > 1 && s.calls[|s.calls| - 2] == FlushCall(true) ==> s.n == 0))
  }

  lemma ScheduleKeeps(s: State, flush: bool)
    requires Bookkeeping(s) && Conservation(s) && s.good && !s.scheduled
    ensures Inv(Schedule(s, flush))
  {
    hide EncodePairs, Fixed32;
    assert s.buf[4..] == EncodePairs(s.buffered);
    NoPairs();
  }

  lemma NoPairs()
    ensures EncodePairs([]) == [] && Fixed32(0) + EncodePairs([]) == Fixed32(0)
  {
  }

  lemma CheckSendKeeps(s: State)
    requires Bookkeeping(s) && Conservation(s)
    ensures Inv(CheckSend(s))
  {
    hide Fixed32, EncodePairs, Schedule;
    if s.good && s.n >= s.batchMin && !s.scheduled { ScheduleKeeps(s, false); }
  }

  lemma CheckFlushKeeps(s: State)
    requires Inv(s) && (s.producer.Idle? || s.producer.InFlush?)
    ensures Inv(CheckFlush(s))
  {
    hide Fixed32, EncodePairs, Schedule;
    if s.good && s.n > 0 && !s.scheduled { ScheduleKeeps(s, true); }
  }

  lemma CheckWaitKeeps(s: State)
    requires Inv(s) && (s.producer.Idle? || s.producer.InWait?)
    ensures Inv(CheckWait(s))
  {
    hide Fixed32, EncodePairs;
  }

  lemma AppendKeeps(s: State, p: Pair)
    requires Inv(s) && s.producer.Idle? && Fits(s.buffered + [p])
    ensures var t := s.(buf := s.buf + EncodePair(p), n := s.n + 1, sent := s.sent + [p], buffered := s.buffered + [p]);
            Bookkeeping(t) && Conservation(t)
  {
    hide Fixed32, EncodePairs, EncodePair, Concat;
    EncodeSnoc(s.buffered, p);
    var front := Concat(s.applied) + if s.jobs == [Called] then s.pending else [];
    assert front + s.buffered + [p] == front + (s.buffered + [p]);
    assert Fixed32(0) + EncodePairs(s.buffered) + EncodePair(p)
           == Fixed32(0) + (EncodePairs(s.buffered) + EncodePair(p));
  }

  lemma ServeKeeps(s: State, dbGood: bool)
    requires Inv(s) && s.jobs == [Called]
    ensures Inv(Apply(s, Serve(0, dbGood)))
  {
    hide Fixed32, EncodePairs, DecodeBody, Body;
    BodyRoundTrip(s.pending);
    assert (s.applied + [s.pending])[..|s.applied|] == s.applied;
    assert Concat(s.applied + [s.pending]) == Concat(s.applied) + s.pending;
  }

  lemma CompleteKeeps(s: State, rpcGood: bool)
    requires Inv(s) && |s.jobs| == 1
    ensures Inv(Apply(s, Complete(0, rpcGood)))
  {
    hide Fixed32, EncodePairs, Concat;
    assert s.jobs[..0] + s.jobs[1..] == [];
    assert s.jobs == [s.jobs[0]];
  }

  lemma StepKeeps(s: State, step: Step)
    requires Inv(s) && Enabled(s, step)
    ensures Inv(Apply(s, step))
  {
    hide CheckSend, CheckFlush, CheckWait, Conservation, Results;
    match step
    case Send(p) =>
      AppendKeeps(s, p);
      CheckSendKeeps(s.(buf := s.buf + EncodePair(p), n := s.n + 1, sent := s.sent + [p],
                        buffered := s.buffered + [p]));
    case Flush => CheckFlushKeeps(s);
    case WaitForAsyncOperations => CheckWaitKeeps(s);
    case Wake =>
      match s.producer {
        case InSend => CheckSendKeeps(s);
        case InFlush => CheckFlushKeeps(s);
        case InWait => CheckWaitKeeps(s);
        case _ =>
      }
    case Serve(j, dbGood) => assert s.jobs == [Called]; ServeKeeps(s, dbGood);
    case Complete(j, rpcGood) => CompleteKeeps(s, rpcGood);
  }

  // ----- Runs

  function Empty(batchMin: nat, batchMax: nat, pooled: bool): State {
    State(batchMin, batchMax, pooled, Fixed32(0), 0, false, true, [], [], Idle, [], [], [], [], [])
  }

  lemma EmptyIsGood(batchMin: nat, batchMax: nat, pooled: bool)
    ensures Inv(Empty(batchMin, batchMax, pooled))
  {
    hide Fixed32;
    NoPairs();
  }

  ghost function Start(batchMin: nat, batchMax: nat, pooled: bool): (s: State)
    ensures Inv(s)
  {
    EmptyIsGood(batchMin, batchMax, pooled);
    Empty(batchMin, batchMax, pooled)
  }

  ghost predicate LegalRun(s: State, steps: seq<Step>)
    decreases |steps|
  {
    steps == [] || (Enabled(s, steps[0]) && LegalRun(Apply(s, steps[0]), steps[1..]))
  }

  ghost function Run(s: State, steps: seq<Step>): (t: State)
    requires LegalRun(s, steps)
    decreases |steps|
  {
    if steps == [] then s else Run(Apply(s, steps[0]), steps[1..])
  }

  lemma {:induction false} RunKeeps(s: State, steps: seq<Step>)
    requires Inv(s) && LegalRun(s, steps)
    ensures Inv(Run(s, steps))
    decreases |steps|
  {
    hide Inv, Enabled, Apply;
    if steps != [] {
      StepIs(s, steps);
      StepKeeps(s, steps[0]);
      RunKeeps(Apply(s, steps[0]), steps[1..]);
    }
  }

  lemma StepIs(s: State, steps: seq<Step>)
    requires LegalRun(s, steps) && steps != []
    ensures Enabled(s, steps[0])
    ensures steps[0].Serve? ==> steps[0].j < |s.jobs|
    ensures steps[0].Complete? ==> steps[0].j < |s.jobs|
  {
  }

  /** After a Flush and then a WaitForAsyncOperations, both with success, the batches the server applied
      are exactly the pairs sent, each once and in order. */
  lemma WaitedDelivers(s: State)
    requires Inv(s) && s.producer.Idle?
    requires |s.calls| >= 2 && s.calls[|s.calls| - 2] == FlushCall(true) && s.calls[|s.calls| - 1] == WaitCall(true)
    ensures Concat(s.applied) == s.sent
  {
    hide Fixed32, EncodePairs, Concat;
    assert s.buffered == [];
    assert Concat(s.applied) + [] + [] == Concat(s.applied);
  }

  /** Whatever the interleaving: one RPC at most is outstanding, and between calls without error the buffer
      stays below the larger batch size. When the last calls to return were a Flush and then a
      WaitForAsyncOperations, both with success, everything sent has been applied. */
  lemma AllDelivered(batchMin: nat, batchMax: nat, pooled: bool, steps: seq<Step>)
    requires LegalRun(Start(batchMin, batchMax, pooled), steps)
    ensures var s := Run(Start(batchMin, batchMax, pooled), steps);
            && |s.jobs| <= 1
            && (s.producer.Idle? && s.good ==> |s.buffered| == 0 || |s.buffered| < Max(s.batchMin, s.batchMax))
            && (s.producer.Idle? && |s.calls| >= 2 && s.calls[|s.calls| - 2..] == [FlushCall(true), WaitCall(true)] ==>
                  Concat(s.applied) == s.sent)
  {
    hide LegalRun, Run, Fixed32, EncodePairs, Concat;
    RunKeeps(Start(batchMin, batchMax, pooled), steps);
    var s := Run(Start(batchMin, batchMax, pooled), steps);
    if s.producer.Idle? && |s.calls| >= 2 && s.calls[|s.calls| - 2..] == [FlushCall(true), WaitCall(true)] {
      assert s.calls[|s.calls| - 2..][0] == s.calls[|s.calls| - 2];
      assert s.calls[|s.calls| - 2..][1] == s.calls[|s.calls| - 1];
      WaitedDelivers(s);
    }
  }

  // ----- One call at a time

  /** What the producer is asleep in, if it is in the call of this step. */
  ghost predicate AsleepIn(p: Producer, step: Step) {
    match step
    case Send(_) => p.InSend? || p == Blocked(false)
    case Flush => p.InFlush? || p == Blocked(true)
    case WaitForAsyncOperations => p.InWait?
    case _ => false
  }

  function CallOf(step: Step, good: bool): Call
    requires step.Send? || step.Flush? || step.WaitForAsyncOperations?
  {
    match step
    case Send(_) => SendCall(good)
    case Flush => FlushCall(good)
    case WaitForAsyncOperations => WaitCall(good)
  }

  /** The call has been made and, if the producer is idle, has returned; those in done returned before. */
  ghost predicate CallMade(s: State, done: seq<Call>, step: Step)
    requires step.Send? || step.Flush? || step.WaitForAsyncOperations?
  {
    if s.producer.Idle? then s.calls == done + [CallOf(step, true)] || s.calls == done + [CallOf(step, false)]
    else s.calls == done && AsleepIn(s.producer, step)
  }

  function SentBy(step: Step): seq<Pair> {
    if step.Send? then [step.p] else []
  }

  lemma CallBegins(s: State, step: Step)
    requires Enabled(s, step) && (step.Send? || step.Flush? || step.WaitForAsyncOperations?)
    ensures CallMade(Apply(s, step), s.calls, step) && Apply(s, step).sent == s.sent + SentBy(step)
  {
    hide Fixed32, EncodePair, Fits;
  }

  /** Waking, serving and completing end a call at most. */
  lemma CallGoesOn(s: State, done: seq<Call>, call: Step, step: Step)
    requires Enabled(s, step) && (step.Wake? || step.Serve? || step.Complete?)
    requires (call.Send? || call.Flush? || call.WaitForAsyncOperations?) && CallMade(s, done, call)
    ensures CallMade(Apply(s, step), done, call) && Apply(s, step).sent == s.sent
  {
    hide Fixed32, EncodePair, Fits, DecodeBody;
  }

  lemma RestGoesOn(s: State, step: Step)
    requires Enabled(s, step) && (step.Wake? || step.Serve? || step.Complete?) && s.producer.Idle?
    ensures var t := Apply(s, step); t.producer.Idle? && t.calls == s.calls && t.sent == s.sent
  {
    hide DecodeBody;
  }

  /** Nobody sleeps for nothing: once the RPC has completed, waking up ends the call or hands out the next
      job. */
  lemma WakeProgresses(s: State)
    requires Inv(s) && Enabled(s, Wake) && !s.scheduled
    ensures var t := Apply(s, Wake); t.producer.Idle? || (t.producer.Blocked? && t.scheduled)
  {
  }
}
