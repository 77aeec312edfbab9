/** Where the inode numbers go that creates of src/libdeltafs/fs.cc take. */
module InodeNumbers {
  import opened Namespaces

  ghost predicate InDb(s: State, ino: nat) {
    exists e :: e in s.db && s.db[e] == ino
  }

  ghost predicate Running(s: State, ino: nat) {
    exists t :: t in s.threads && InRange(s.threads[t], ino)
  }

  /** Every number given out is a file's, or a running create's, or has been lost. */
  ghost predicate Accounted(s: State, lost: iset<nat>) {
    forall ino: nat :: 1 <= ino <= s.inoq && !Running(s, ino) && !InDb(s, ino) ==> ino in lost
  }

  ghost predicate NotUsed(th: Thread, ino: nat) {
    th.start + th.m <= ino < th.start + th.count
  }

  /** What a step loses: the numbers that a create which ends has not used, when it does not give them back. It
      does not after success, nor when another create has taken numbers since, nor as a batch that was refused. */
  ghost function Lost(s: State, step: Step): iset<nat> {
    if step.Finish? && step.t in s.threads then
      var th := s.threads[step.t];
      if th.start + th.count - 1 == s.inoq
        && (th.phase == Unlocked(false) || (th.phase.Refused? && !th.batch)) then iset{}
      else iset ino: nat | NotUsed(th, ino) :: ino
    else iset{}
  }

  /** No step loses other numbers. */
  lemma StepAccounts(hash: Text -> nat, s: State, step: Step, lost: iset<nat>)
    requires Inv(hash, s) && Enabled(hash, s, step) && Accounted(s, lost)
    ensures Accounted(Do(hash, s, step), lost + Lost(s, step))
  {
    hide LocksInv, Holds, Inv, InRange, CommitsInv;
    var u := Do(hash, s, step);
    forall ino: nat | 1 <= ino <= u.inoq && !Running(u, ino) && !InDb(u, ino) ensures ino in lost + Lost(s, step) {
      if step.Finish? {
        FinishAccounts(hash, s, step.t, ino);
      } else {
        StillThere(hash, s, step, ino);
      }
    }
  }

  lemma StillThere(hash: Text -> nat, s: State, step: Step, ino: nat)
    requires Inv(hash, s) && Enabled(hash, s, step) && !step.Finish?
    ensures Running(s, ino) ==> Running(Do(hash, s, step), ino)
    ensures InDb(s, ino) ==> InDb(Do(hash, s, step), ino)
    ensures s.inoq < ino <= Do(hash, s, step).inoq ==> Running(Do(hash, s, step), ino)
  {
    hide LocksInv, Holds, InodesInv, CommitsInv;
    var u := Do(hash, s, step);
    SameRanges(hash, s, step, ino);
    if InDb(s, ino) {
      var e :| e in s.db && s.db[e] == ino;
      KeptInDb(hash, s, step, e);
    }
    if s.inoq < ino <= u.inoq { assert InRange(u.threads[step.t], ino); }
  }

  lemma SameRanges(hash: Text -> nat, s: State, step: Step, ino: nat)
    requires Inv(hash, s) && Enabled(hash, s, step) && !step.Finish?
    ensures forall t :: t in s.threads ==>
              t in Do(hash, s, step).threads
              && (InRange(Do(hash, s, step).threads[t], ino) <==> InRange(s.threads[t], ino))
  {
    hide LocksInv, Holds, Inv;
  }

  /** A name that is in the database stays, with its number. */
  lemma KeptInDb(hash: Text -> nat, s: State, step: Step, e: Entry)
    requires Inv(hash, s) && Enabled(hash, s, step) && e in s.db
    ensures e in Do(hash, s, step).db && Do(hash, s, step).db[e] == s.db[e]
  {
    hide LocksInv, Holds, InodesInv, CommitsInv;
    if step.Put? { assert ThreadInv(s, s.threads[step.t]); }
  }

  lemma FinishAccounts(hash: Text -> nat, s: State, t: nat, ino: nat)
    requires Inv(hash, s) && Enabled(hash, s, Finish(t)) && 1 <= ino <= Do(hash, s, Finish(t)).inoq
    requires !Running(Do(hash, s, Finish(t)), ino) && !InDb(s, ino)
    ensures ino <= s.inoq && (Running(s, ino) ==> ino in Lost(s, Finish(t)))
  {
    hide LocksInv, Holds, InodesInv;
    var u := Do(hash, s, Finish(t));
    var th := s.threads[t];
    assert ThreadInv(s, th);
    if Running(s, ino) {
      var x :| x in s.threads && InRange(s.threads[x], ino);
      if x != t { OthersRun(s, u, t, x, ino); }
      if x == t && ino < th.start + th.m { UsedIsInDb(hash, s, t, ino); }
      assert NotUsed(th, ino);
    }
  }

  lemma OthersRun(s: State, u: State, t: nat, x: nat, ino: nat)
    requires x in s.threads && x != t && u.threads == s.threads - {t} && InRange(s.threads[x], ino)
    ensures Running(u, ino)
  {
    assert x in u.threads && InRange(u.threads[x], ino);
  }

  /** The first m numbers of a create are those of its names. */
  lemma UsedIsInDb(hash: Text -> nat, s: State, t: nat, ino: nat)
    requires Inv(hash, s) && t in s.threads && s.threads[t].start <= ino < s.threads[t].start + s.threads[t].m
    ensures InDb(s, ino)
  {
    hide LocksInv, Holds, InodesInv;
    var th := s.threads[t];
    assert ThreadInv(s, th);
    var i := ino - th.start;
    var e := Entry(th.dir, th.names[i]);
    assert e in s.db && s.db[e] == th.start + i;
  }

  /** What a run loses. */
  ghost function LostIn(hash: Text -> nat, s: State, steps: seq<Step>): iset<nat>
    requires Inv(hash, s) && LegalRun(hash, s, steps)
    decreases |steps|
  {
    if steps == [] then iset{} else Lost(s, steps[0]) + LostIn(hash, Do(hash, s, steps[0]), steps[1..])
  }

  lemma {:induction false} RunAccounts(hash: Text -> nat, s: State, steps: seq<Step>, lost: iset<nat>)
    requires Inv(hash, s) && LegalRun(hash, s, steps) && Accounted(s, lost)
    ensures Accounted(Run(hash, s, steps), lost + LostIn(hash, s, steps))
    decreases |steps|
  {
    hide Inv, Enabled, Do, Lost, Accounted;
    if steps == [] {
      assert lost + iset{} == lost;
    } else {
      StepAccounts(hash, s, steps[0], lost);
      RunAccounts(hash, Do(hash, s, steps[0]), steps[1..], lost + Lost(s, steps[0]));
      assert lost + Lost(s, steps[0]) + LostIn(hash, Do(hash, s, steps[0]), steps[1..])
             == lost + LostIn(hash, s, steps);
    }
  }

  /** Over every interleaving, every number up to inoq is that of a file or of a running create, except those that
      a create kept to itself when it ended. */
  lemma NumbersAccounted(hash: Text -> nat, steps: seq<Step>, ino: nat)
    requires LegalRun(hash, Start(hash), steps)
    ensures var s := Run(hash, Start(hash), steps);
            1 <= ino <= s.inoq ==> Running(s, ino) || InDb(s, ino) || ino in LostIn(hash, Start(hash), steps)
  {
    hide LegalRun, Run, LostIn, Inv;
    assert Accounted(Start(hash), iset{});
    RunAccounts(hash, Start(hash), steps, iset{});
    assert iset{} + LostIn(hash, Start(hash), steps) == LostIn(hash, Start(hash), steps);
  }
}
