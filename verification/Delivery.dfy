/** What a run of src/libdeltafs/parallel_compactor.cc delivers: the thread of each rank works through its
    calls on the senders, one at a time and aborting at the first error, beside all the workers. */
module Delivery {
  import opened Coding
  import opened Compactors
  import opened KvSenders

  /** A rank: its senders, one for each destination, and how far it has come with its calls. */
  datatype Rank = Rank(senders: seq<State>, pc: nat, inCall: bool, aborted: bool)

  datatype RankStep = Begin | Return | Beside(i: nat, step: Step)

  ghost predicate CanStep(calls: seq<Request>, s: Rank, step: RankStep)
    requires IsProgram(calls, |s.senders|)
  {
    match step
    case Begin =>
      && !s.aborted && !s.inCall && s.pc < |calls|
      && Enabled(s.senders[calls[s.pc].dest], calls[s.pc].step)
    case Return => s.inCall && s.pc < |calls| && s.senders[calls[s.pc].dest].producer.Idle?
    case Beside(i, inner) =>
      i < |s.senders| && !IsCall(inner) && Enabled(s.senders[i], inner)
  }

  ghost function Next(calls: seq<Request>, s: Rank, step: RankStep): (t: Rank)
    requires IsProgram(calls, |s.senders|) && CanStep(calls, s, step)
    ensures |t.senders| == |s.senders|
  {
    match step
    case Begin =>
      var i := calls[s.pc].dest;
      s.(senders := s.senders[i := Apply(s.senders[i], calls[s.pc].step)], inCall := true)
    case Return =>
      var sender := s.senders[calls[s.pc].dest];
      if sender.calls != [] && sender.calls[|sender.calls| - 1] == CallOf(calls[s.pc].step, true)
      then s.(pc := s.pc + 1, inCall := false)
      else s.(inCall := false, aborted := true)
    case Beside(i, inner) => s.(senders := s.senders[i := Apply(s.senders[i], inner)])
  }

  // ----- What the first k calls amount to for one sender

  ghost function SentTo(calls: seq<Request>, k: nat, i: nat): seq<Pair>
    requires k <= |calls|
  {
    if k == 0 then [] else SentTo(calls, k - 1, i) + if calls[k - 1].dest == i then SentBy(calls[k - 1].step) else []
  }

  ghost function ReturnedTo(calls: seq<Request>, k: nat, i: nat): seq<Call>
    requires k <= |calls| && forall j :: 0 <= j < |calls| ==> IsCall(calls[j].step)
  {
    if k == 0 then []
    else ReturnedTo(calls, k - 1, i) + if calls[k - 1].dest == i then [CallOf(calls[k - 1].step, true)] else []
  }

  /** Sender i has done what the calls so far demand of it. */
  ghost predicate Abreast(calls: seq<Request>, s: Rank, i: nat)
    requires IsProgram(calls, |s.senders|) && i < |s.senders| && s.pc <= |calls|
  {
    var sender := s.senders[i];
    if s.inCall && s.pc < |calls| && calls[s.pc].dest == i then
      && sender.sent == SentTo(calls, s.pc + 1, i)
      && CallMade(sender, ReturnedTo(calls, s.pc, i), calls[s.pc].step)
    else
      && sender.sent == SentTo(calls, s.pc, i)
      && sender.producer.Idle? && sender.calls == ReturnedTo(calls, s.pc, i)
  }

  ghost predicate RankInv(calls: seq<Request>, s: Rank) {
    && IsProgram(calls, |s.senders|) && s.pc <= |calls| && (s.inCall ==> s.pc < |calls|)
    && (forall i :: 0 <= i < |s.senders| ==> KvSenders.Inv(s.senders[i]))
    && (!s.aborted ==> forall i :: 0 <= i < |s.senders| ==> Abreast(calls, s, i))
  }

  lemma BeginKeeps(calls: seq<Request>, s: Rank)
    requires RankInv(calls, s) && CanStep(calls, s, Begin)
    ensures RankInv(calls, Next(calls, s, Begin))
  {
    hide KvSenders.Inv, Apply, KvSenders.Enabled, CallMade;
    var d := calls[s.pc].dest;
    var t := Next(calls, s, Begin);
    KvSenders.StepKeeps(s.senders[d], calls[s.pc].step);
    assert Abreast(calls, s, d);
    CallBegins(s.senders[d], calls[s.pc].step);
    forall i | 0 <= i < |s.senders| ensures Abreast(calls, t, i) {
      assert Abreast(calls, s, i);
    }
  }

  lemma ReturnKeeps(calls: seq<Request>, s: Rank)
    requires RankInv(calls, s) && CanStep(calls, s, Return)
    ensures RankInv(calls, Next(calls, s, Return))
  {
    hide KvSenders.Inv;
    var t := Next(calls, s, Return);
    if !t.aborted {
      forall i | 0 <= i < |s.senders| ensures Abreast(calls, t, i) {
        assert Abreast(calls, s, i);
      }
    }
  }

  lemma BesideKeeps(calls: seq<Request>, s: Rank, i: nat, inner: Step)
    requires RankInv(calls, s) && CanStep(calls, s, Beside(i, inner))
    ensures RankInv(calls, Next(calls, s, Beside(i, inner)))
  {
    hide KvSenders.Inv, Apply, KvSenders.Enabled, CallMade;
    var t := Next(calls, s, Beside(i, inner));
    KvSenders.StepKeeps(s.senders[i], inner);
    if !s.aborted {
      assert Abreast(calls, s, i);
      if s.inCall && calls[s.pc].dest == i {
        CallGoesOn(s.senders[i], ReturnedTo(calls, s.pc, i), calls[s.pc].step, inner);
      } else {
        RestGoesOn(s.senders[i], inner);
      }
      forall j | 0 <= j < |s.senders| ensures Abreast(calls, t, j) {
        assert Abreast(calls, s, j);
      }
    }
  }

  /** Whatever the thread and the workers do next, every sender has been sent what the calls so far say. */
  lemma RankStepKeeps(calls: seq<Request>, s: Rank, step: RankStep)
    requires RankInv(calls, s) && CanStep(calls, s, step)
    ensures RankInv(calls, Next(calls, s, step))
  {
    match step
    case Begin => BeginKeeps(calls, s);
    case Return => ReturnKeeps(calls, s);
    case Beside(i, inner) => BesideKeeps(calls, s, i, inner);
  }

  // ----- Runs

  datatype Batching = Batching(batchMin: nat, batchMax: nat, pooled: bool)

  ghost function NewRank(ranks: nat, b: Batching): (s: Rank)
    ensures |s.senders| == ranks
  {
    Rank(seq(ranks, _ => KvSenders.Start(b.batchMin, b.batchMax, b.pooled)), 0, false, false)
  }

  lemma NewRankKeeps(calls: seq<Request>, ranks: nat, b: Batching)
    requires IsProgram(calls, ranks)
    ensures RankInv(calls, NewRank(ranks, b))
  {
    var s := NewRank(ranks, b);
    forall i | 0 <= i < ranks ensures KvSenders.Inv(s.senders[i]) && Abreast(calls, s, i) {
      assert s.senders[i] == KvSenders.Start(b.batchMin, b.batchMax, b.pooled);
    }
  }

  ghost predicate RankRun(calls: seq<Request>, s: Rank, steps: seq<RankStep>)
    requires IsProgram(calls, |s.senders|)
    decreases |steps|
  {
    steps == [] || (CanStep(calls, s, steps[0]) && RankRun(calls, Next(calls, s, steps[0]), steps[1..]))
  }

  ghost function After(calls: seq<Request>, s: Rank, steps: seq<RankStep>): (t: Rank)
    requires IsProgram(calls, |s.senders|) && RankRun(calls, s, steps)
    ensures |t.senders| == |s.senders|
    decreases |steps|
  {
    if steps == [] then s else After(calls, Next(calls, s, steps[0]), steps[1..])
  }

  lemma {:induction false} AfterKeeps(calls: seq<Request>, s: Rank, steps: seq<RankStep>)
    requires RankInv(calls, s) && RankRun(calls, s, steps)
    ensures RankInv(calls, After(calls, s, steps))
    decreases |steps|
  {
    hide RankInv, CanStep, Next;
    if steps != [] {
      RankStepKeeps(calls, s, steps[0]);
      AfterKeeps(calls, Next(calls, s, steps[0]), steps[1..]);
    }
  }

  /** The rank has come to the barrier: every call has returned without error. */
  predicate AtBarrier(calls: seq<Request>, s: Rank) {
    s.pc == |calls| && !s.inCall && !s.aborted
  }

  // ----- The program of a rank

  lemma {:induction false} SendsAreOwned(l: Ranks, source: seq<Row>, k: nat, i: nat)
    requires k <= |source|
    ensures SentTo(Program(l, source), k, i) == Owned(l, source[..k], i)
  {
    hide Owner;
    if k > 0 {
      SendsAreOwned(l, source, k - 1, i);
      assert source[..k][..k - 1] == source[..k - 1];
      assert Program(l, source)[k - 1] == Request(Owner(l, source[k - 1].key), Send(source[k - 1]));
    }
  }

  /** Flushes and waits send nothing. */
  lemma {:induction false} RestSendsNothing(l: Ranks, source: seq<Row>, k: nat, i: nat)
    requires |source| <= k <= |Program(l, source)|
    ensures SentTo(Program(l, source), k, i) == SentTo(Program(l, source), |source|, i)
    decreases k
  {
    hide Owner;
    if k > |source| {
      RestSendsNothing(l, source, k - 1, i);
      assert !Program(l, source)[k - 1].step.Send?;
    }
  }

  /** The flushes, one for each destination. */
  lemma {:induction false} FlushReturned(l: Ranks, source: seq<Row>, n: nat, i: nat)
    requires n <= l.ranks && i < l.ranks
    ensures ReturnedTo(Program(l, source), |source| + n, i) ==
            ReturnedTo(Program(l, source), |source|, i) + if i < n then [FlushCall(true)] else []
  {
    hide Owner;
    if n > 0 {
      FlushReturned(l, source, n - 1, i);
      assert Program(l, source)[|source| + n - 1] == Request(n - 1, Flush);
    }
  }

  /** And the waits behind them. */
  lemma {:induction false} WaitReturned(l: Ranks, source: seq<Row>, n: nat, i: nat)
    requires n <= l.ranks && i < l.ranks
    ensures ReturnedTo(Program(l, source), |source| + l.ranks + n, i) ==
            ReturnedTo(Program(l, source), |source| + l.ranks, i) + if i < n then [WaitCall(true)] else []
  {
    hide Owner;
    if n > 0 {
      WaitReturned(l, source, n - 1, i);
      assert Program(l, source)[|source| + l.ranks + n - 1] == Request(n - 1, WaitForAsyncOperations);
    }
  }

  /** Whatever the interleaving of a rank's thread with its workers: at the barrier each destination has
      applied exactly the pairs of the rank that it owns, each once and in order. */
  lemma RankDelivers(l: Ranks, source: seq<Row>, b: Batching, steps: seq<RankStep>, i: nat)
    requires RankRun(Program(l, source), NewRank(l.ranks, b), steps)
    requires AtBarrier(Program(l, source), After(Program(l, source), NewRank(l.ranks, b), steps)) && i < l.ranks
    ensures Concat(After(Program(l, source), NewRank(l.ranks, b), steps).senders[i].applied) == Owned(l, source, i)
  {
    hide Owner, RankRun, After, NewRank, KvSenders.Inv, Concat, SentTo, ReturnedTo, Program, Owned;
    var calls := Program(l, source);
    NewRankKeeps(calls, l.ranks, b);
    AfterKeeps(calls, NewRank(l.ranks, b), steps);
    var s := After(calls, NewRank(l.ranks, b), steps);
    assert Abreast(calls, s, i);
    assert |calls| == |source| + l.ranks + l.ranks by { ProgramLength(l, source); }
    FlushReturned(l, source, l.ranks, i);
    WaitReturned(l, source, l.ranks, i);
    WaitedDelivers(s.senders[i]);
    RestSendsNothing(l, source, |calls|, i);
    SendsAreOwned(l, source, |source|, i);
    assert source[..|source|] == source;
  }

  lemma ProgramLength(l: Ranks, source: seq<Row>)
    ensures |Program(l, source)| == |source| + l.ranks + l.ranks
  {
  }

  // ----- All ranks

  /** A run of one rank up to the barrier. */
  datatype Journey = Journey(source: seq<Row>, batching: Batching, steps: seq<RankStep>)

  ghost predicate Arrived(l: Ranks, j: Journey) {
    && RankRun(Program(l, j.source), NewRank(l.ranks, j.batching), j.steps)
    && AtBarrier(Program(l, j.source), After(Program(l, j.source), NewRank(l.ranks, j.batching), j.steps))
  }

  /** The pairs that destination i has applied for a rank. */
  ghost function AppliedFor(l: Ranks, j: Journey, i: nat): seq<Pair>
    requires Arrived(l, j) && i < l.ranks
  {
    Concat(After(Program(l, j.source), NewRank(l.ranks, j.batching), j.steps).senders[i].applied)
  }

  ghost function AllPairs(journeys: seq<Journey>): iset<Pair> {
    iset r, p | 0 <= r < |journeys| && p in journeys[r].source :: p
  }

  /** The log of rank i's database holds what was applied for all ranks, in any order. */
  ghost predicate IsLogOf(l: Ranks, journeys: seq<Journey>, i: nat, log: seq<Pair>)
    requires (forall r :: 0 <= r < |journeys| ==> Arrived(l, journeys[r])) && i < l.ranks
  {
    && (forall r, p :: 0 <= r < |journeys| && p in AppliedFor(l, journeys[r], i) ==> p in log)
    && (forall p :: p in log ==> exists r :: 0 <= r < |journeys| && p in AppliedFor(l, journeys[r], i))
  }

  lemma LogMembers(l: Ranks, journeys: seq<Journey>, i: nat, log: seq<Pair>, p: Pair)
    requires (forall r :: 0 <= r < |journeys| ==> Arrived(l, journeys[r])) && i < l.ranks
    requires IsLogOf(l, journeys, i, log)
    ensures p in log <==> p in AllPairs(journeys) && |p.key| > 16 && Owner(l, p.key) == i
  {
    hide Owner, Owned, AppliedFor, Arrived;
    forall r | 0 <= r < |journeys|
      ensures p in AppliedFor(l, journeys[r], i) <==> |p.key| > 16 && p in journeys[r].source && Owner(l, p.key) == i
    {
      AppliedForIs(l, journeys[r], i, p);
    }
  }

  lemma AppliedForIs(l: Ranks, j: Journey, i: nat, p: Pair)
    requires Arrived(l, j) && i < l.ranks
    ensures p in AppliedFor(l, j, i) <==> |p.key| > 16 && p in j.source && Owner(l, p.key) == i
  {
    hide Owner, Owned, RankRun, After, NewRank, Program, Concat, IsProgram, AtBarrier;
    RankDelivers(l, j.source, j.batching, j.steps, i);
    if p in Owned(l, j.source, i) { OwnedAreRows(l, j.source, i, p); }
    if |p.key| > 16 { OwnedMembers(l, j.source, i, p); }
  }

  /** With source keys disjoint, once all ranks have come to the barrier each rank's database holds exactly
      the pairs whose keys it owns, whatever the interleavings and whatever the order of arrival. */
  lemma OwnersGetTheirs(l: Ranks, journeys: seq<Journey>, i: nat, log: seq<Pair>, p: Row)
    requires (forall r :: 0 <= r < |journeys| ==> Arrived(l, journeys[r])) && i < l.ranks
    requires OnePerKey(AllPairs(journeys)) && IsLogOf(l, journeys, i, log)
    ensures p.key in PutAll(log) && PutAll(log)[p.key] == p.value <==> p in AllPairs(journeys) && Owner(l, p.key) == i
    ensures p.key in PutAll(log) ==> Owner(l, p.key) == i
  {
    hide PutAll, Owner, Arrived, IsLogOf, AllPairs;
    forall q | q in log ensures q in AllPairs(journeys) {
      LogMembers(l, journeys, i, log, q);
    }
    PutAllHolds(log, p);
    LogMembers(l, journeys, i, log, p);
    if p.key in PutAll(log) {
      var q :| q in log && q.key == p.key;
      LogMembers(l, journeys, i, log, q);
    }
  }
}
