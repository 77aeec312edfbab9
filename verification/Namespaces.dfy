/** Creating names in src/libdeltafs/fs.cc: inode numbers, the striped busy flags of a directory, and the
    check and the put they protect. Threads interleave at the two mutexes and at each database call. */
module Namespaces {

  type Text = string

  const WAYS: nat := 8

  /** A directory's name, and one of its name subsets. */
  datatype Entry = Entry(dir: nat, name: Text)
  datatype Way = Way(dir: nat, index: nat)

  /** Where a create is: waiting for its way, or for way i of all of them; holding its ways, before and after
      it has found a name free; done with its names; unlocked again. Early failures come before any lock. */
  datatype Phase = Waiting | Locking(i: nat) | Held | Free | Done(ok: bool) | Unlocked(ok: bool) | Refused

  /** A create of one name, or of a batch: count numbers from start on, of which m have been used. */
  datatype Thread = Thread(dir: nat, names: seq<Text>, batch: bool, start: nat, count: nat, m: nat, phase: Phase)

  /** inoq, the database, and the busy flags: a way is busy when it has an owner. Which thread that is, and
      the list of puts, are history. */
  datatype State = State(inoq: nat, db: map<Entry, nat>, owner: map<Way, nat>, threads: map<nat, Thread>,
                         puts: seq<Entry>)

  datatype Step =
    | StartSingle(t: nat, dir: nat, name: Text) | StartBatch(t: nat, dir: nat, names: seq<Text>, n: nat)
    | Refuse(t: nat) | Lock(t: nat) | Get(t: nat, fails: bool) | Put(t: nat, fails: bool)
    | Unlock(t: nat) | Finish(t: nat)

  /** hash & (kWays - 1). */
  function WayOf(hash: Text -> nat, name: Text): (w: nat)
    ensures w < WAYS
  {
    hash(name) % WAYS
  }

  /** The ways a thread holds. */
  ghost predicate Holds(hash: Text -> nat, th: Thread, w: Way) {
    && w.dir == th.dir && w.index < WAYS
    && match th.phase
       case Locking(i) => w.index < i
       case Held => th.batch || (|th.names| > 0 && w.index == WayOf(hash, th.names[0]))
       case Free => th.batch || (|th.names| > 0 && w.index == WayOf(hash, th.names[0]))
       case Done(_) => th.batch || (|th.names| > 0 && w.index == WayOf(hash, th.names[0]))
       case _ => false
  }

  /** The way a thread waits for. */
  function Wanted(hash: Text -> nat, th: Thread): Way {
    match th.phase
    case Locking(i) => Way(th.dir, i)
    case _ => Way(th.dir, if |th.names| > 0 then WayOf(hash, th.names[0]) else 0)
  }

  // ----- Steps

  ghost predicate Enabled(hash: Text -> nat, s: State, step: Step) {
    match step
    case StartSingle(t, _, _) => t !in s.threads
    case StartBatch(t, _, _, _) => t !in s.threads
    case Refuse(t) => t in s.threads && (s.threads[t].phase.Waiting? || s.threads[t].phase == Locking(0))
    case Lock(t) => t in s.threads && (s.threads[t].phase.Waiting? || s.threads[t].phase.Locking?)
                    && Wanted(hash, s.threads[t]) !in s.owner
    case Get(t, _) => t in s.threads && s.threads[t].phase.Held?
    case Put(t, _) => t in s.threads && s.threads[t].phase.Free?
    case Unlock(t) => t in s.threads && s.threads[t].phase.Done?
    case Finish(t) => t in s.threads && (s.threads[t].phase.Unlocked? || s.threads[t].phase.Refused?)
  }

  /** TryReuseIno: takes n numbers back if ino is still the last one given out. */
  function TryReuseIno(inoq: nat, ino: int, n: nat): (r: nat)
    requires n <= ino || n == 0
  {
    if ino == inoq then inoq - n else inoq
  }

  function NextName(th: Thread): Entry
    requires th.m < |th.names|
  {
    Entry(th.dir, th.names[th.m])
  }

  /** How many numbers Finish takes back: a refused batch has not reported how few it used. */
  function Unused(th: Thread): int {
    match th.phase
    case Unlocked(ok) => if ok then 0 else th.count - th.m
    case Refused => if th.batch then 0 else th.count
    case _ => 0
  }

  function SetPhase(s: State, t: nat, phase: Phase): State
    requires t in s.threads
  {
    s.(threads := s.threads[t := s.threads[t].(phase := phase)])
  }

  ghost function Apply(hash: Text -> nat, s: State, step: Step): State
    requires Inv(hash, s) && Enabled(hash, s, step)
  {
    match step
    case StartSingle(t, dir, name) =>
      s.(inoq := s.inoq + 1, threads := s.threads[t := Thread(dir, [name], false, s.inoq + 1, 1, 0, Waiting)])
    case StartBatch(t, dir, names, n) =>
      s.(inoq := s.inoq + n, threads := s.threads[t := Thread(dir, names, true, s.inoq + 1, n, 0, Locking(0))])
    case Refuse(t) => SetPhase(s, t, Refused)
    case Lock(t) =>
      var th := s.threads[t];
      var next := if th.phase.Waiting? || th.phase.i + 1 == WAYS then Held else Locking(th.phase.i + 1);
      SetPhase(s.(owner := s.owner[Wanted(hash, th) := t]), t, next)
    case Get(t, fails) =>
      var th := s.threads[t];
      if th.m >= th.count || th.m >= |th.names| then SetPhase(s, t, Done(true))
      else if fails || NextName(th) in s.db then SetPhase(s, t, Done(false))
      else SetPhase(s, t, Free)
    case Put(t, fails) =>
      var th := s.threads[t];
      if fails then SetPhase(s, t, Done(false))
      else
        s.(db := s.db[NextName(th) := th.start + th.m], puts := s.puts + [NextName(th)],
           threads := s.threads[t := th.(m := th.m + 1, phase := if th.batch then Held else Done(true))])
    case Unlock(t) =>
      var th := s.threads[t];
      SetPhase(s.(owner := map w | w in s.owner && s.owner[w] != t :: s.owner[w]), t, Unlocked(th.phase.ok))
    case Finish(t) =>
      var th := s.threads[t];
      assert ThreadInv(s, th);
      s.(inoq := TryReuseIno(s.inoq, th.start + th.count - 1, Unused(th)), threads := s.threads - {t})
  }

  // ----- The invariant

  ghost predicate ThreadInv(s: State, th: Thread) {
    && th.m <= th.count && th.m <= |th.names| && th.start > 0
    && (!th.batch ==> th.count == 1 && |th.names| == 1 && !th.phase.Locking?)
    && (th.batch ==> !th.phase.Waiting?)
    && match th.phase
       case Waiting => th.m == 0
       case Locking(i) => i < WAYS && th.m == 0
       case Refused => th.m == 0
       case Held => th.batch || th.m == 0
       case Free => th.m < th.count && th.m < |th.names| && NextName(th) !in s.db
       case Done(ok) => ok ==> Through(th)
       case Unlocked(ok) => ok ==> Through(th)
  }

  /** All its names are committed, or as many as it has numbers. */
  ghost predicate Through(th: Thread) {
    th.m == if th.count < |th.names| then th.count else |th.names|
  }

  /** Busy ways belong to the threads that hold them. */
  ghost predicate LocksInv(hash: Text -> nat, s: State) {
    && (forall w :: w in s.owner ==> s.owner[w] in s.threads && Holds(hash, s.threads[s.owner[w]], w))
    && (forall t, w :: t in s.threads && Holds(hash, s.threads[t], w) ==> w in s.owner && s.owner[w] == t)
  }

  ghost predicate InRange(th: Thread, ino: int) {
    th.start <= ino < th.start + th.count
  }

  /** Numbers in use are at most inoq; no two creates share one; those of a running create that are in the
      database are its first m. */
  ghost predicate InodesInv(s: State) {
    && (forall t, ino :: t in s.threads && InRange(s.threads[t], ino) ==> ino <= s.inoq)
    && (forall t, u, ino :: t in s.threads && u in s.threads && t != u && InRange(s.threads[t], ino) ==>
        !InRange(s.threads[u], ino))
    && (forall e :: e in s.db ==> 0 < s.db[e] <= s.inoq)
    && (forall e, f :: e in s.db && f in s.db && s.db[e] == s.db[f] ==> e == f)
    && (forall t, e :: t in s.threads && e in s.db && InRange(s.threads[t], s.db[e]) ==>
        s.db[e] < s.threads[t].start + s.threads[t].m)
  }

  /** The names a create has committed have consecutive numbers from its start. */
  ghost predicate CommitsInv(s: State) {
    && (forall t, i :: t in s.threads && 0 <= i < s.threads[t].m && i < |s.threads[t].names| ==>
          var e := Entry(s.threads[t].dir, s.threads[t].names[i]); e in s.db && s.db[e] == s.threads[t].start + i)
    && (forall i, j :: 0 <= i < j < |s.puts| ==> s.puts[i] != s.puts[j])
    && (forall e :: e in s.db <==> e in s.puts)
  }

  ghost predicate Inv(hash: Text -> nat, s: State) {
    && (forall t :: t in s.threads ==> ThreadInv(s, s.threads[t]))
    && LocksInv(hash, s) && InodesInv(s) && CommitsInv(s)
  }

  // ----- Steps keep the invariant

  lemma StartKeeps(hash: Text -> nat, s: State, t: nat, th: Thread)
    requires Inv(hash, s) && t !in s.threads && th.start == s.inoq + 1 && th.m == 0
    requires ThreadInv(s, th) && forall w :: !Holds(hash, th, w)
    ensures Inv(hash, s.(inoq := s.inoq + th.count, threads := s.threads[t := th]))
  {
    hide Holds, ThreadInv, LocksInv, InodesInv, CommitsInv;
    var u := s.(inoq := s.inoq + th.count, threads := s.threads[t := th]);
    forall x | x in u.threads ensures ThreadInv(u, u.threads[x]) { SameDb(s, u, u.threads[x]); }
    StartLocks(hash, s, t, th);
    StartInodes(s, t, th);
    StartCommits(s, t, th);
  }

  lemma StartLocks(hash: Text -> nat, s: State, t: nat, th: Thread)
    requires LocksInv(hash, s) && t !in s.threads && forall w :: !Holds(hash, th, w)
    ensures LocksInv(hash, s.(inoq := s.inoq + th.count, threads := s.threads[t := th]))
  {
    hide Holds;
  }

  lemma StartInodes(s: State, t: nat, th: Thread)
    requires InodesInv(s) && t !in s.threads && th.start == s.inoq + 1 && th.m == 0
    ensures InodesInv(s.(inoq := s.inoq + th.count, threads := s.threads[t := th]))
  {
  }

  lemma StartCommits(s: State, t: nat, th: Thread)
    requires CommitsInv(s) && t !in s.threads && th.m == 0
    ensures CommitsInv(s.(inoq := s.inoq + th.count, threads := s.threads[t := th]))
  {
  }

  /** What holds of a thread depends on the database only. */
  lemma SameDb(s: State, u: State, th: Thread)
    requires s.db == u.db
    ensures ThreadInv(s, th) <==> ThreadInv(u, th)
  {
  }

  /** A step that changes only the phase of one thread, and not what it holds. */
  lemma PhaseKeeps(hash: Text -> nat, s: State, t: nat, phase: Phase)
    requires Inv(hash, s) && t in s.threads && ThreadInv(s, s.threads[t].(phase := phase))
    requires forall w :: Holds(hash, s.threads[t].(phase := phase), w) <==> Holds(hash, s.threads[t], w)
    ensures Inv(hash, SetPhase(s, t, phase))
  {
    hide Holds, ThreadInv, InodesInv, CommitsInv;
    var u := SetPhase(s, t, phase);
    forall x | x in u.threads ensures ThreadInv(u, u.threads[x]) { SameDb(s, u, u.threads[x]); }
    SameNumbers(s, u);
  }

  lemma LockKeeps(hash: Text -> nat, s: State, t: nat)
    requires Inv(hash, s) && Enabled(hash, s, Lock(t))
    ensures Inv(hash, Apply(hash, s, Lock(t)))
  {
    hide ThreadInv, InodesInv, CommitsInv, LocksInv;
    var u := Apply(hash, s, Lock(t));
    assert ThreadInv(s, s.threads[t]);
    LockedThread(s, s.threads[t]);
    forall x | x in u.threads ensures ThreadInv(u, u.threads[x]) { SameDb(s, u, u.threads[x]); }
    SameNumbers(s, u);
    LockedHolds(hash, s.threads[t]);
    WayTaken(hash, s, u, t, Wanted(hash, s.threads[t]));
  }

  /** A free way goes to the thread that takes it. */
  lemma WayTaken(hash: Text -> nat, s: State, u: State, t: nat, way: Way)
    requires LocksInv(hash, s) && t in s.threads && t in u.threads && way !in s.owner && u.owner == s.owner[way := t]
    requires u.threads == s.threads[t := u.threads[t]]
    requires forall w :: Holds(hash, u.threads[t], w) <==> Holds(hash, s.threads[t], w) || w == way
    ensures LocksInv(hash, u)
  {
    hide Holds;
  }

  lemma LockedThread(s: State, th: Thread)
    requires ThreadInv(s, th) && (th.phase.Waiting? || th.phase.Locking?)
    ensures ThreadInv(s, th.(phase := if th.phase.Waiting?
                             || th.phase.i + 1 == WAYS then Held else Locking(th.phase.i + 1)))
    ensures th.phase.Waiting? ==> !th.batch && |th.names| == 1
    ensures th.phase.Locking? ==> th.batch && th.phase.i < WAYS
  {
  }

  lemma LockedHolds(hash: Text -> nat, th: Thread)
    requires (th.phase.Waiting? && !th.batch && |th.names| == 1) || (th.phase.Locking? && th.batch && th.phase.i < WAYS)
    ensures var next := th.(phase := if th.phase.Waiting?
                            || th.phase.i + 1 == WAYS then Held else Locking(th.phase.i + 1));
            forall w :: Holds(hash, next, w) <==> Holds(hash, th, w) || w == Wanted(hash, th)
  {
    var next := th.(phase := if th.phase.Waiting? || th.phase.i + 1 == WAYS then Held else Locking(th.phase.i + 1));
    forall w ensures Holds(hash, next, w) <==> Holds(hash, th, w) || w == Wanted(hash, th) {
      assert w == Way(w.dir, w.index);
      if th.phase.Waiting? { assert !Holds(hash, th, w); }
    }
  }

  /** Threads that differ in their phases only have the same numbers. */
  lemma SameNumbers(s: State, u: State)
    requires InodesInv(s) && CommitsInv(s) && u.inoq == s.inoq && u.db == s.db && u.puts == s.puts
    requires forall t :: t in u.threads <==> t in s.threads
    requires forall t :: t in u.threads ==> u.threads[t] == s.threads[t].(phase := u.threads[t].phase)
    ensures InodesInv(u) && CommitsInv(u)
  {
    hide InodesInv, CommitsInv;
    SameInodes(s, u);
    SameCommits(s, u);
  }

  lemma SameInodes(s: State, u: State)
    requires InodesInv(s) && u.inoq == s.inoq && u.db == s.db
    requires forall t :: t in u.threads <==> t in s.threads
    requires forall t :: t in u.threads ==> u.threads[t] == s.threads[t].(phase := u.threads[t].phase)
    ensures InodesInv(u)
  {
    hide InRange;
    forall t, ino | t in u.threads ensures InRange(u.threads[t], ino) <==> InRange(s.threads[t], ino) {
      SameRange(s.threads[t], u.threads[t], ino);
    }
  }

  lemma SameRange(a: Thread, b: Thread, ino: int)
    requires b == a.(phase := b.phase)
    ensures InRange(a, ino) <==> InRange(b, ino)
  {
  }

  lemma SameCommits(s: State, u: State)
    requires CommitsInv(s) && u.db == s.db && u.puts == s.puts
    requires forall t :: t in u.threads <==> t in s.threads
    requires forall t :: t in u.threads ==> u.threads[t] == s.threads[t].(phase := u.threads[t].phase)
    ensures CommitsInv(u)
  {
    forall t, i | t in u.threads && 0 <= i < u.threads[t].m && i < |u.threads[t].names|
      ensures var e := Entry(u.threads[t].dir, u.threads[t].names[i]); e in u.db && u.db[e] == u.threads[t].start + i
    {
      assert s.threads[t].names[i] == u.threads[t].names[i];
    }
  }

  lemma GetKeeps(hash: Text -> nat, s: State, t: nat, fails: bool)
    requires Inv(hash, s) && Enabled(hash, s, Get(t, fails))
    ensures Inv(hash, Apply(hash, s, Get(t, fails)))
  {
    hide LocksInv, InodesInv, CommitsInv;
    var th := s.threads[t];
    assert ThreadInv(s, th);
    var phase := Apply(hash, s, Get(t, fails)).threads[t].phase;
    PhaseKeeps(hash, s, t, phase);
  }

  lemma UnlockKeeps(hash: Text -> nat, s: State, t: nat)
    requires Inv(hash, s) && Enabled(hash, s, Unlock(t))
    ensures Inv(hash, Apply(hash, s, Unlock(t)))
  {
    hide ThreadInv, InodesInv, CommitsInv, LocksInv;
    var u := Apply(hash, s, Unlock(t));
    assert ThreadInv(s, s.threads[t]);
    UnlockedThread(s, s.threads[t]);
    forall x | x in u.threads ensures ThreadInv(u, u.threads[x]) { SameDb(s, u, u.threads[x]); }
    SameNumbers(s, u);
    UnlockLocks(hash, s, u, t);
  }

  lemma UnlockLocks(hash: Text -> nat, s: State, u: State, t: nat)
    requires LocksInv(hash, s) && t in s.threads && s.threads[t].phase.Done?
    requires u == SetPhase(s.(owner := map w | w in s.owner && s.owner[w] != t :: s.owner[w]), t,
                           Unlocked(s.threads[t].phase.ok))
    ensures LocksInv(hash, u)
  {
    assert forall w :: !Holds(hash, u.threads[t], w);
    hide Holds;
  }

  lemma UnlockedThread(s: State, th: Thread)
    requires ThreadInv(s, th) && th.phase.Done?
    ensures ThreadInv(s, th.(phase := Unlocked(th.phase.ok)))
  {
  }

  /** Threads that are about to put one and the same name would hold the same way. */
  lemma OnePutter(hash: Text -> nat, s: State, t: nat, u: nat)
    requires Inv(hash, s) && t in s.threads && u in s.threads && t != u && s.threads[t].phase.Free?
             && s.threads[u].phase.Free?
    ensures s.threads[t].m < |s.threads[t].names| && s.threads[u].m < |s.threads[u].names|
    ensures NextName(s.threads[t]) != NextName(s.threads[u])
  {
    hide InodesInv, CommitsInv;
    var a, b := s.threads[t], s.threads[u];
    assert ThreadInv(s, a) && ThreadInv(s, b);
    var w, v := Way(a.dir, WayOf(hash, a.names[a.m])), Way(b.dir, WayOf(hash, b.names[b.m]));
    assert Holds(hash, s.threads[t], w) && Holds(hash, s.threads[u], v);
    assert s.owner[w] == t && s.owner[v] == u;
  }

  lemma PutKeepsThreads(hash: Text -> nat, s: State, t: nat)
    requires Inv(hash, s) && Enabled(hash, s, Put(t, false))
    ensures var u := Apply(hash, s, Put(t, false)); forall x :: x in u.threads ==> ThreadInv(u, u.threads[x])
  {
    hide LocksInv, InodesInv, CommitsInv;
    var u := Apply(hash, s, Put(t, false));
    forall x | x in u.threads ensures ThreadInv(u, u.threads[x]) {
      assert ThreadInv(s, s.threads[x]) && ThreadInv(s, s.threads[t]);
      if x != t && s.threads[x].phase.Free? { OnePutter(hash, s, t, x); }
    }
  }

  lemma PutKeepsLocks(hash: Text -> nat, s: State, t: nat)
    requires Inv(hash, s) && Enabled(hash, s, Put(t, false))
    ensures LocksInv(hash, Apply(hash, s, Put(t, false)))
  {
    hide InodesInv, CommitsInv, ThreadInv;
    var u := Apply(hash, s, Put(t, false));
    forall x, w | x in u.threads ensures Holds(hash, u.threads[x], w) <==> Holds(hash, s.threads[x], w) {}
  }

  lemma PutKeepsNumbers(hash: Text -> nat, s: State, t: nat)
    requires Inv(hash, s) && Enabled(hash, s, Put(t, false))
    ensures InodesInv(Apply(hash, s, Put(t, false)))
  {
    hide LocksInv, CommitsInv, InRange, InodesInv;
    var th, u := s.threads[t], Apply(hash, s, Put(t, false));
    assert ThreadInv(s, th);
    NewNumber(s, t);
    forall x, ino | x in u.threads ensures InRange(u.threads[x], ino) <==> InRange(s.threads[x], ino) {
      if x == t { SameBounds(th, u.threads[t], ino); }
    }
    AddNumber(s, u, t, NextName(th));
  }

  /** A create uses its next number. */
  lemma AddNumber(s: State, u: State, t: nat, e: Entry)
    requires InodesInv(s) && t in s.threads && s.threads[t].m < s.threads[t].count && s.threads[t].start > 0
    requires var ino := s.threads[t].start + s.threads[t].m;
             && 0 < ino <= s.inoq && (forall f :: f in s.db ==> s.db[f] != ino) && InRange(s.threads[t], ino)
             && (forall x :: x in s.threads && x != t ==> !InRange(s.threads[x], ino))
             && u.db == s.db[e := ino]
    requires u.inoq == s.inoq && (forall x :: x in u.threads <==> x in s.threads)
             && u.threads[t].m == s.threads[t].m + 1
    requires forall x :: x in u.threads ==>
             u.threads[x].start == s.threads[x].start && (x != t ==> u.threads[x].m == s.threads[x].m)
    requires forall x, i :: x in u.threads ==> (InRange(u.threads[x], i) <==> InRange(s.threads[x], i))
    ensures InodesInv(u)
  {
    hide InRange;
  }

  lemma SameBounds(a: Thread, b: Thread, ino: int)
    requires a.start == b.start && a.count == b.count
    ensures InRange(a, ino) <==> InRange(b, ino)
  {
  }

  /** The next number of a create is given out and in use nowhere else. */
  lemma NewNumber(s: State, t: nat)
    requires InodesInv(s) && t in s.threads && s.threads[t].m < s.threads[t].count && s.threads[t].start > 0
    ensures var ino := s.threads[t].start + s.threads[t].m;
            && 0 < ino <= s.inoq && InRange(s.threads[t], ino) && (forall e :: e in s.db ==> s.db[e] != ino)
            && forall x :: x in s.threads && x != t ==> !InRange(s.threads[x], ino)
  {
    var ino := s.threads[t].start + s.threads[t].m;
    assert InRange(s.threads[t], ino);
    forall e | e in s.db ensures s.db[e] != ino { assert InRange(s.threads[t], s.db[e]) ==> s.db[e] < ino; }
  }

  lemma PutKeepsCommits(hash: Text -> nat, s: State, t: nat)
    requires Inv(hash, s) && Enabled(hash, s, Put(t, false))
    ensures CommitsInv(Apply(hash, s, Put(t, false)))
  {
    hide LocksInv, InodesInv;
    var th, u := s.threads[t], Apply(hash, s, Put(t, false));
    assert ThreadInv(s, th);
  }

  /** Taking numbers back takes none that is in use. */
  lemma FinishKeeps(hash: Text -> nat, s: State, t: nat)
    requires Inv(hash, s) && Enabled(hash, s, Finish(t))
    ensures Inv(hash, Apply(hash, s, Finish(t)))
  {
    hide LocksInv, CommitsInv;
    var th, u := s.threads[t], Apply(hash, s, Finish(t));
    assert ThreadInv(s, th);
    FinishKeepsRest(hash, s, t);
    FinishKeepsNumbers(hash, s, t);
  }

  lemma FinishKeepsRest(hash: Text -> nat, s: State, t: nat)
    requires Inv(hash, s) && Enabled(hash, s, Finish(t))
    ensures var u := Apply(hash, s, Finish(t));
            LocksInv(hash, u) && CommitsInv(u) && forall x :: x in u.threads ==> ThreadInv(u, u.threads[x])
  {
    hide InodesInv, ThreadInv;
    var u := Apply(hash, s, Finish(t));
    forall x | x in u.threads ensures ThreadInv(u, u.threads[x]) { SameDb(s, u, u.threads[x]); }
  }

  lemma FinishKeepsNumbers(hash: Text -> nat, s: State, t: nat)
    requires Inv(hash, s) && Enabled(hash, s, Finish(t))
    ensures InodesInv(Apply(hash, s, Finish(t)))
  {
    hide LocksInv, CommitsInv;
    var th, u := s.threads[t], Apply(hash, s, Finish(t));
    assert ThreadInv(s, th);
    forall x, ino | x in u.threads && InRange(u.threads[x], ino) ensures ino <= u.inoq {
      NotTakenBack(th, s.inoq, ino);
    }
    forall e | e in u.db ensures u.db[e] <= u.inoq {
      NotTakenBack(th, s.inoq, u.db[e]);
    }
  }

  /** A number in use below inoq, outside the numbers the thread has left, stays below. */
  lemma NotTakenBack(th: Thread, inoq: nat, ino: nat)
    requires th.m <= th.count && th.start > 0 && ino <= inoq && !(th.start + th.m <= ino < th.start + th.count)
    requires 0 <= Unused(th) <= th.count - th.m
    ensures ino <= TryReuseIno(inoq, th.start + th.count - 1, Unused(th))
  {
  }

  lemma StepKeeps(hash: Text -> nat, s: State, step: Step)
    requires Inv(hash, s) && Enabled(hash, s, step)
    ensures Inv(hash, Apply(hash, s, step))
  {
    hide LocksInv, InodesInv, CommitsInv;
    match step
    case StartSingle(t, dir, name) => StartKeeps(hash, s, t, Thread(dir, [name], false, s.inoq + 1, 1, 0, Waiting));
    case StartBatch(t, dir, names, n) => StartKeeps(hash, s, t, Thread(dir, names, true, s.inoq + 1, n, 0, Locking(0)));
    case Refuse(t) => assert ThreadInv(s, s.threads[t]); PhaseKeeps(hash, s, t, Refused);
    case Lock(t) => LockKeeps(hash, s, t);
    case Get(t, fails) => GetKeeps(hash, s, t, fails);
    case Put(t, fails) =>
      if fails { assert ThreadInv(s, s.threads[t]); PhaseKeeps(hash, s, t, Done(false)); }
      else {
        PutKeepsThreads(hash, s, t);
        PutKeepsLocks(hash, s, t);
        PutKeepsNumbers(hash, s, t);
        PutKeepsCommits(hash, s, t);
      }
    case Unlock(t) => UnlockKeeps(hash, s, t);
    case Finish(t) => FinishKeeps(hash, s, t);
  }

  // ----- Runs

  ghost function Start(hash: Text -> nat): (s: State)
    ensures Inv(hash, s)
  {
    State(0, map[], map[], map[], [])
  }

  ghost predicate LegalRun(hash: Text -> nat, s: State, steps: seq<Step>)
    requires Inv(hash, s)
    decreases |steps|
  {
    steps == [] || (Enabled(hash, s, steps[0]) && LegalRun(hash, Do(hash, s, steps[0]), steps[1..]))
  }

  ghost function Do(hash: Text -> nat, s: State, step: Step): (t: State)
    requires Inv(hash, s) && Enabled(hash, s, step)
    ensures Inv(hash, t)
  {
    StepKeeps(hash, s, step);
    Apply(hash, s, step)
  }

  ghost function Run(hash: Text -> nat, s: State, steps: seq<Step>): (t: State)
    requires Inv(hash, s) && LegalRun(hash, s, steps)
    ensures Inv(hash, t)
    decreases |steps|
  {
    if steps == [] then s else Run(hash, Do(hash, s, steps[0]), steps[1..])
  }

  // ----- What a create reports

  ghost predicate Ended(th: Thread) {
    th.phase.Done? || th.phase.Unlocked?
  }

  function Reports(th: Thread): bool
    requires Ended(th)
  {
    match th.phase
    case Done(ok) => ok
    case Unlocked(ok) => ok
  }

  /** In this step the create of thread t meets a failure of the database, or finds its next name taken. */
  ghost predicate Trouble(s: State, step: Step, t: nat) {
    match step
    case Get(u, fails) =>
      && u == t && t in s.threads && s.threads[t].m < s.threads[t].count && s.threads[t].m < |s.threads[t].names|
      && (fails || NextName(s.threads[t]) in s.db)
    case Put(u, fails) => u == t && fails
    case _ => false
  }

  ghost predicate Troubled(hash: Text -> nat, s: State, steps: seq<Step>, t: nat)
    requires Inv(hash, s) && LegalRun(hash, s, steps)
    decreases |steps|
  {
    steps != [] && (Trouble(s, steps[0], t) || Troubled(hash, Do(hash, s, steps[0]), steps[1..], t))
  }

  /** One step of any thread, as seen by the create of thread t. */
  lemma StepReports(hash: Text -> nat, s: State, step: Step, t: nat)
    requires Inv(hash, s) && Enabled(hash, s, step) && t in s.threads && step != Finish(t)
    ensures var u := Do(hash, s, step);
            && t in u.threads
            && (Ended(s.threads[t]) ==>
                  !Trouble(s, step, t) && Ended(u.threads[t]) && Reports(u.threads[t]) == Reports(s.threads[t]))
            && (Trouble(s, step, t) ==> Ended(u.threads[t]) && !Reports(u.threads[t]))
            && (!Trouble(s, step, t) && !Ended(s.threads[t]) && Ended(u.threads[t]) ==> Reports(u.threads[t]))
  {
    hide LocksInv, InodesInv, CommitsInv, Wanted, TryReuseIno, Unused;
    match step
    case StartSingle(_, _, _) =>
    case StartBatch(_, _, _, _) =>
    case Refuse(_) =>
    case Lock(_) =>
    case Get(_, _) =>
    case Put(_, _) =>
    case Unlock(_) =>
    case Finish(_) =>
  }

  /** Over every interleaving: a create that has ended reports success exactly if, since it began, it has met
      neither a failure nor a name that was taken. */
  lemma {:induction false} ReportIsRight(hash: Text -> nat, s: State, steps: seq<Step>, t: nat)
    requires Inv(hash, s) && LegalRun(hash, s, steps) && t in s.threads
    requires forall i :: 0 <= i < |steps| ==> steps[i] != Finish(t)
    ensures t in Run(hash, s, steps).threads
    ensures Ended(s.threads[t]) ==>
              var th := Run(hash, s, steps).threads[t];
              Ended(th) && Reports(th) == Reports(s.threads[t]) && !Troubled(hash, s, steps, t)
    ensures !Ended(s.threads[t]) && Ended(Run(hash, s, steps).threads[t]) ==>
              (Reports(Run(hash, s, steps).threads[t]) <==> !Troubled(hash, s, steps, t))
    decreases |steps|
  {
    hide Inv, Enabled, Do, Ended, Reports, Trouble;
    if steps != [] {
      var u, rest := Do(hash, s, steps[0]), steps[1..];
      StepReports(hash, s, steps[0], t);
      forall i | 0 <= i < |rest| ensures rest[i] != Finish(t) { assert rest[i] == steps[i + 1]; }
      ReportIsRight(hash, u, rest, t);
    }
  }

  /** A create that reports success has committed all its names, or as many as it has numbers, and its i-th name
      has its i-th number. */
  lemma SuccessMeansAll(hash: Text -> nat, steps: seq<Step>, t: nat)
    requires LegalRun(hash, Start(hash), steps) && t in Run(hash, Start(hash), steps).threads
    ensures var s := Run(hash, Start(hash), steps); var th := s.threads[t];
            Ended(th) && Reports(th) ==>
            forall i :: 0 <= i < |th.names| && i < th.count ==>
              Entry(th.dir, th.names[i]) in s.db && s.db[Entry(th.dir, th.names[i])] == th.start + i
  {
    hide LegalRun, Run, LocksInv, InodesInv;
    var s := Run(hash, Start(hash), steps);
    assert ThreadInv(s, s.threads[t]);
  }

  /** A create that failed gives its unused numbers back if nobody has taken numbers since: what is left of
      them are those of its names. Otherwise, and after success, nothing is given back. */
  lemma NumbersGivenBack(hash: Text -> nat, s: State, t: nat)
    requires Inv(hash, s) && Enabled(hash, s, Finish(t)) && s.threads[t].phase.Unlocked?
    ensures var th := s.threads[t];
            Do(hash, s, Finish(t)).inoq ==
            if !Reports(th) && th.start + th.count - 1 == s.inoq then th.start + th.m - 1 else s.inoq
  {
    hide LocksInv, InodesInv, CommitsInv;
    assert ThreadInv(s, s.threads[t]);
  }

  /** Over every interleaving, each name of a directory is committed at most once. */
  lemma NamesOnce(hash: Text -> nat, steps: seq<Step>)
    requires LegalRun(hash, Start(hash), steps)
    ensures var s := Run(hash, Start(hash), steps);
            && (forall i, j :: 0 <= i < j < |s.puts| ==> s.puts[i] != s.puts[j])
            && (forall e :: e in s.puts <==> e in s.db)
  {
    hide LegalRun, Run, LocksInv, InodesInv, ThreadInv;
  }

  /** Over every interleaving with failures and reuse: a number is held by one running create or one name, and
      is at most inoq; and a running create has given the m names it has committed its first m numbers. */
  lemma NumbersDisjoint(hash: Text -> nat, steps: seq<Step>, t: nat)
    requires LegalRun(hash, Start(hash), steps) && t in Run(hash, Start(hash), steps).threads
    ensures var s := Run(hash, Start(hash), steps); var th := s.threads[t];
            && (th.count > 0 ==> th.start + th.count - 1 <= s.inoq)
            && (forall u :: u in s.threads && u != t ==>
                  th.count == 0 || s.threads[u].count == 0 || th.start + th.count <= s.threads[u].start
                  || s.threads[u].start + s.threads[u].count <= th.start)
            && (forall e :: e in s.db && th.start <= s.db[e] < th.start + th.count ==>
                  s.db[e] < th.start + th.m)
            && (forall e, f :: e in s.db && f in s.db && s.db[e] == s.db[f] ==> e == f)
            && th.m <= |th.names|
            && forall i :: 0 <= i < th.m ==>
                 Entry(th.dir, th.names[i]) in s.db && s.db[Entry(th.dir, th.names[i])] == th.start + i
  {
    hide LegalRun, Run, LocksInv;
    var s := Run(hash, Start(hash), steps);
    var th := s.threads[t];
    assert ThreadInv(s, th);
    if th.count > 0 { assert InRange(th, th.start + th.count - 1); }
    forall u | u in s.threads && u != t
      ensures th.count == 0 || s.threads[u].count == 0 || th.start + th.count <= s.threads[u].start
              || s.threads[u].start + s.threads[u].count <= th.start
    {
      assert th.count > 0 ==> InRange(th, th.start);
      assert InRange(s.threads[u], s.threads[u].start) || s.threads[u].count == 0;
    }
    forall e | e in s.db && th.start <= s.db[e] < th.start + th.count ensures s.db[e] < th.start + th.m {
      assert InRange(th, s.db[e]);
    }
  }

  /** The thread can take its next step. */
  ghost predicate Moves(hash: Text -> nat, s: State, t: nat)
    requires t in s.threads
  {
    s.threads[t].phase.Waiting? || s.threads[t].phase.Locking? ==> Wanted(hash, s.threads[t]) !in s.owner
  }

  /** Who waits for a way waits for a thread that can move, or that waits for a later way. */
  lemma {:induction false} SomeoneMoves(hash: Text -> nat, s: State, t: nat) returns (u: nat)
    requires Inv(hash, s) && t in s.threads
    ensures u in s.threads && Moves(hash, s, u)
    decreases WAYS - Wanted(hash, s.threads[t]).index
  {
    hide InodesInv, CommitsInv;
    u := t;
    if !Moves(hash, s, t) {
      var w := Wanted(hash, s.threads[t]);
      var v := s.owner[w];
      assert Holds(hash, s.threads[v], w);
      assert ThreadInv(s, s.threads[t]) && ThreadInv(s, s.threads[v]);
      if s.threads[v].phase.Locking? {
        u := SomeoneMoves(hash, s, v);
      } else {
        u := v;
      }
    }
  }

  /** No deadlock: as long as a create runs, some create has a next step that it can take. */
  lemma NeverStuck(hash: Text -> nat, steps: seq<Step>, t: nat) returns (next: Step)
    requires LegalRun(hash, Start(hash), steps) && t in Run(hash, Start(hash), steps).threads
    ensures Enabled(hash, Run(hash, Start(hash), steps), next)
    ensures next.Lock? || next.Get? || next.Put? || next.Unlock? || next.Finish?
  {
    hide LegalRun, Run, Inv;
    var s := Run(hash, Start(hash), steps);
    var u := SomeoneMoves(hash, s, t);
    next := match s.threads[u].phase
      case Waiting => Lock(u)
      case Locking(_) => Lock(u)
      case Held => Get(u, false)
      case Free => Put(u, false)
      case Done(_) => Unlock(u)
      case _ => Finish(u);
  }
}
