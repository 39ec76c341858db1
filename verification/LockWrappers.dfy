/** The pthread lock wrappers (runtime/redzone_race_rt.c): the real lock step and the
    recording step are separate, and steps of all threads interleave freely. */
module LockWrappers {
  import opened VectorClock
  import opened HappensBefore
  import opened ClockProtocol
  import opened Cells

  datatype Mode = Exclusive | Shared

  /** How a thread really holds a lock: depth counts recursive holds. */
  datatype Hold = Hold(mode: Mode, depth: nat)

  /** Where a thread is inside a wrapper. */
  datatype Pc =
    | Idle
    | MustRecordLock(lock: Obj)              // the real lock was taken, the acquire not yet recorded
    | MustRealUnlock(lock: Obj, wait: bool)  // the release was recorded, the real unlock not yet done
    | MustRelock(lock: Obj)                  // inside a condition wait, the mutex given up

  datatype System = System(trace: Trace, holds: map<(Tid, Obj), Hold>, pcs: map<Tid, Pc>) {
    function PcOf(t: Tid): Pc {
      if t in pcs then pcs[t] else Idle
    }
    function HoldOf(t: Tid, m: Obj): Hold {
      if (t, m) in holds then holds[(t, m)] else Hold(Shared, 0)
    }
    predicate Holds(t: Tid, m: Obj) {
      HoldOf(t, m).depth > 0
    }
    predicate HoldsExclusively(t: Tid, m: Obj) {
      Holds(t, m) && HoldOf(t, m).mode == Exclusive
    }
  }

  const BOOT := System([], map[], map[])

  datatype Action =
    | RealLock(t: Tid, lock: Obj, mode: Mode)  // lock, rdlock, wrlock, or a try-lock that succeeds
    | RecordLock(t: Tid)
    | RecordUnlock(t: Tid, lock: Obj, wait: bool)  // unlock (wait: the first half of cond_wait)
    | RealUnlock(t: Tid)
    | Relock(t: Tid)                               // cond_wait wakes and takes the mutex back
    | WaitFails(t: Tid)                            // cond_wait returns an error without unlocking
    | Do(e: Event)                                 // any other event; a failed lock or unlock call
                                                   // still records its acquire or release

  /** What the operating system allows: an exclusive hold excludes every other thread, a
      shared one excludes exclusive holders; re-entry keeps the mode. */
  ghost predicate Grantable(s: System, t: Tid, m: Obj, mode: Mode) {
    && (forall u :: u != t && s.Holds(u, m) ==> mode == Shared && s.HoldOf(u, m).mode == Shared)
    && (s.Holds(t, m) ==> s.HoldOf(t, m).mode == mode)
  }

  ghost predicate Can(s: System, a: Action) {
    match a
    case RealLock(t, m, mode) => s.PcOf(t) == Idle && Grantable(s, t, m, mode)
    case RecordLock(t) => s.PcOf(t).MustRecordLock? && Recordable(s.trace, Acquire(t, s.PcOf(t).lock))
    case RecordUnlock(t, m, _) => s.PcOf(t) == Idle && s.Holds(t, m) && Recordable(s.trace, Release(t, m))
    case RealUnlock(t) => s.PcOf(t).MustRealUnlock?
    case Relock(t) => s.PcOf(t).MustRelock? && Grantable(s, t, s.PcOf(t).lock, Exclusive)
    case WaitFails(t) => s.PcOf(t).MustRealUnlock? && s.PcOf(t).wait
    case Do(e) =>
      && s.PcOf(e.t) == Idle && Recordable(s.trace, e)
      && (e.Joined? ==> s.PcOf(e.child) == Idle)
  }

  function AddHold(s: System, t: Tid, m: Obj, mode: Mode): map<(Tid, Obj), Hold> {
    s.holds[(t, m) := Hold(mode, s.HoldOf(t, m).depth + 1)]
  }

  function Next(s: System, a: Action): System {
    match a
    case RealLock(t, m, mode) =>
      System(s.trace, AddHold(s, t, m, mode), s.pcs[t := MustRecordLock(m)])
    case RecordLock(t) =>
      if s.PcOf(t).MustRecordLock?
      then System(s.trace + [Acquire(t, s.PcOf(t).lock)], s.holds, s.pcs[t := Idle])
      else s
    case RecordUnlock(t, m, wait) =>
      System(s.trace + [Release(t, m)], s.holds, s.pcs[t := MustRealUnlock(m, wait)])
    case RealUnlock(t) =>
      if s.PcOf(t).MustRealUnlock? then
        var m := s.PcOf(t).lock;
        var h := s.HoldOf(t, m);
        System(s.trace, s.holds[(t, m) := Hold(h.mode, if h.depth > 0 then h.depth - 1 else 0)],
               s.pcs[t := if s.PcOf(t).wait then MustRelock(m) else Idle])
      else s
    case Relock(t) =>
      if s.PcOf(t).MustRelock?
      then System(s.trace, AddHold(s, t, s.PcOf(t).lock, Exclusive), s.pcs[t := MustRecordLock(s.PcOf(t).lock)])
      else s
    case WaitFails(t) =>
      if s.PcOf(t).MustRealUnlock?
      then System(s.trace, s.holds, s.pcs[t := MustRecordLock(s.PcOf(t).lock)])
      else s
    case Do(e) => System(s.trace + [e], s.holds, s.pcs)
  }

  /** Word w is guarded by lock m: written only by an exclusive holder, read only by some
      holder. */
  ghost predicate Disciplined(s: System, a: Action, w: Word, m: Obj) {
    a.Do? && Touches(a.e, w) ==>
      if a.e.write then s.HoldsExclusively(a.e.t, m) else s.Holds(a.e.t, m)
  }

  /** The system after an interleaving, and whether every step of it was possible and kept
      the discipline. */
  function Run(acts: seq<Action>): System {
    if acts == [] then BOOT else Next(Run(acts[..|acts| - 1]), acts[|acts| - 1])
  }

  ghost predicate Legal(acts: seq<Action>, w: Word, m: Obj) {
    acts == [] ||
    (var before, a := Run(acts[..|acts| - 1]), acts[|acts| - 1];
     Legal(acts[..|acts| - 1], w, m) && Can(before, a) && Disciplined(before, a, w, m))
  }

  // ---- What one wrapper does ----

  /** Nobody's holds differ but thread t's on lock m. */
  ghost predicate OtherHoldsSame(s: System, s': System, t: Tid, m: Obj) {
    forall u: Tid, k: Obj :: u != t || k != m ==> s'.HoldOf(u, k) == s.HoldOf(u, k)
  }

  /** A granted lock, by any of the lock and try-lock calls: one more hold, and one acquire
      recorded after it. */
  lemma LockInFull(s: System, t: Tid, m: Obj, mode: Mode)
    requires WellFormed(s.trace) && s.PcOf(t) == Idle && Runs(s.trace, t) && Grantable(s, t, m, mode)
    ensures Can(s, RealLock(t, m, mode)) && Next(s, RealLock(t, m, mode)).trace == s.trace
    ensures var s1 := Next(s, RealLock(t, m, mode)); var s2 := Next(s1, RecordLock(t));
            && Can(s1, RecordLock(t)) && s2.trace == s.trace + [Acquire(t, m)] && s2.PcOf(t) == Idle
            && s2.HoldOf(t, m) == Hold(mode, s.HoldOf(t, m).depth + 1) && OtherHoldsSame(s, s2, t, m)
  {
    WhoMayRecord(s.trace, Acquire(t, m));
  }

  /** An unlock records its release first, and then gives one hold back. */
  lemma UnlockInFull(s: System, t: Tid, m: Obj)
    requires WellFormed(s.trace) && s.PcOf(t) == Idle && Runs(s.trace, t) && s.Holds(t, m)
    ensures Can(s, RecordUnlock(t, m, false))
    ensures var s1 := Next(s, RecordUnlock(t, m, false)); var s2 := Next(s1, RealUnlock(t));
            && s1.trace == s.trace + [Release(t, m)] && s1.holds == s.holds
            && Can(s1, RealUnlock(t)) && s2.trace == s1.trace && s2.PcOf(t) == Idle
            && s2.HoldOf(t, m) == Hold(s.HoldOf(t, m).mode, s.HoldOf(t, m).depth - 1) && OtherHoldsSame(s, s2, t, m)
  {
    WhoMayRecord(s.trace, Release(t, m));
  }

  /** A condition wait gives the mutex up, so that any other thread may take it, and comes
      back with it: a release before the gap and an acquire after it. */
  lemma WaitInFull(s: System, t: Tid, m: Obj)
    requires WellFormed(s.trace) && s.PcOf(t) == Idle && Runs(s.trace, t)
    requires s.HoldOf(t, m) == Hold(Exclusive, 1) && forall u: Tid :: u != t ==> !s.Holds(u, m)
    ensures Can(s, RecordUnlock(t, m, true))
    ensures var s1 := Next(s, RecordUnlock(t, m, true)); var s2 := Next(s1, RealUnlock(t));
            && s1.trace == s.trace + [Release(t, m)] && s1.holds == s.holds
            && Can(s1, RealUnlock(t)) && s2.trace == s1.trace && Unheld(s2, m)
            && var s3 := Next(s2, Relock(t)); var s4 := Next(s3, RecordLock(t));
               && Can(s2, Relock(t)) && s3.trace == s2.trace && Can(s3, RecordLock(t))
               && s4.trace == s.trace + [Release(t, m)] + [Acquire(t, m)] && s4.PcOf(t) == Idle
               && s4.HoldOf(t, m) == s.HoldOf(t, m) && OtherHoldsSame(s, s4, t, m)
  {
    ReleaseThenAcquireRecordable(s.trace, t, m);
    var s1 := Next(s, RecordUnlock(t, m, true));
    var s2 := Next(s1, RealUnlock(t));
    assert s1.HoldOf(t, m) == s.HoldOf(t, m) && s1.PcOf(t) == MustRealUnlock(m, true);
    forall u: Tid ensures !s2.Holds(u, m) {
      assert if u == t then s2.HoldOf(u, m).depth == 0 else s2.HoldOf(u, m) == s.HoldOf(u, m) && !s.Holds(u, m);
    }
    UnheldIsGranted(s2, t, m, Exclusive);
  }

  ghost predicate Unheld(s: System, m: Obj) {
    forall u: Tid :: !s.Holds(u, m)
  }

  /** A lock nobody holds is granted to anyone in either mode. */
  lemma UnheldIsGranted(s: System, t: Tid, m: Obj, mode: Mode)
    requires Unheld(s, m)
    ensures Grantable(s, t, m, mode)
  {
  }

  /** A wait that returns an error without unlocking records the same pair. */
  lemma FailedWaitInFull(s: System, t: Tid, m: Obj)
    requires WellFormed(s.trace) && s.PcOf(t) == Idle && Runs(s.trace, t) && s.Holds(t, m)
    ensures Can(s, RecordUnlock(t, m, true))
    ensures var s1 := Next(s, RecordUnlock(t, m, true)); var s2 := Next(s1, WaitFails(t));
            var s3 := Next(s2, RecordLock(t));
            && Can(s1, WaitFails(t)) && Can(s2, RecordLock(t)) && s3.PcOf(t) == Idle && s3.holds == s.holds
            && s3.trace == s.trace + [Release(t, m)] + [Acquire(t, m)]
  {
    ReleaseThenAcquireRecordable(s.trace, t, m);
  }

  lemma ReleaseThenAcquireRecordable(tr: Trace, t: Tid, m: Obj)
    requires WellFormed(tr) && Runs(tr, t)
    ensures Recordable(tr, Release(t, m)) && Recordable(tr + [Release(t, m)], Acquire(t, m))
  {
    WhoMayRecord(tr, Release(t, m));
    PrefixWellFormed(tr, Release(t, m));
    StillRuns(tr, Release(t, m), t);
    WhoMayRecord(tr + [Release(t, m)], Acquire(t, m));
  }

  /** A running thread outside the wrappers may access memory at any time, and do anything
      else that may be recorded; only a thread in the middle of one cannot be joined. */
  lemma IdleMayDo(s: System, e: Event)
    requires WellFormed(s.trace) && s.PcOf(e.t) == Idle
    requires if e.Access? then Runs(s.trace, e.t) else Recordable(s.trace, e) && (e.Joined? ==> s.PcOf(e.child) == Idle)
    ensures Can(s, Do(e)) && Next(s, Do(e)) == s.(trace := s.trace + [e])
  {
    WhoMayRecord(s.trace, e);
  }

  /** Readers overlap; a reader keeps writers out, and a writer keeps everyone out. */
  lemma ReadersOverlap(s: System, t: Tid, u: Tid, m: Obj, mode: Mode)
    requires t != u && s.PcOf(t) == s.PcOf(u) == Idle && Unheld(s, m)
    ensures Can(s, RealLock(t, m, mode))
    ensures var s1 := Next(s, RealLock(t, m, mode));
            forall mode' :: Can(s1, RealLock(u, m, mode')) <==> mode == mode' == Shared
  {
    UnheldIsGranted(s, t, m, mode);
    var s1 := Next(s, RealLock(t, m, mode));
    assert !s.Holds(t, m);
    assert s1.HoldOf(t, m) == Hold(mode, 1) && s1.Holds(t, m);
    forall v: Tid | v != t ensures !s1.Holds(v, m) {
      assert s1.HoldOf(v, m) == s.HoldOf(v, m) && !s.Holds(v, m);
    }
  }

  // ---- The invariant ----

  /** Thread u has recorded a release of m after event i. */
  ghost predicate Released(tr: Trace, i: int, u: Tid, m: Obj) {
    exists r :: 0 <= r < |tr| && i < r && tr[r] == Release(u, m)
  }

  /** Event i happens before some event of thread t, hence before all its later ones. */
  ghost predicate SeenBy(tr: Trace, i: int, t: Tid) {
    exists k :: 0 <= k < |tr| && tr[k].t == t && HB(tr, i, k)
  }

  /** The holder of an access's lock either published it or still holds the lock, in a mode
      that allows the access; a thread in mid-unlock has published it. */
  ghost predicate Covered(s: System, w: Word, m: Obj, i: int)
    requires 0 <= i < |s.trace| && Touches(s.trace[i], w)
  {
    var e := s.trace[i];
    || Released(s.trace, i, e.t, m)
    || (&& (if e.write then s.HoldsExclusively(e.t, m) else s.Holds(e.t, m))
        && !Unlocking(s.PcOf(e.t), m))
  }

  /** A holder past its recorded acquire has seen every conflicting access of the others. */
  ghost predicate Informed(s: System, w: Word, m: Obj, t: Tid, i: int)
    requires 0 <= i < |s.trace| && Touches(s.trace[i], w)
  {
    s.Holds(t, m) && s.PcOf(t) != MustRecordLock(m) && s.trace[i].t != t
    && (s.trace[i].write || s.HoldsExclusively(t, m))
    ==> SeenBy(s.trace, i, t)
  }

  /** The operating system's side: holders of one lock are compatible. */
  ghost predicate Compatible(s: System, m: Obj) {
    forall t: Tid, u: Tid :: t != u ==> PairCompatible(s, m, t, u)
  }

  ghost predicate PairCompatible(s: System, m: Obj, t: Tid, u: Tid) {
    s.Holds(t, m) && s.Holds(u, m) ==> !s.HoldsExclusively(t, m)
  }

  predicate InWrapper(pc: Pc, m: Obj) {
    pc == MustRecordLock(m) || Unlocking(pc, m)
  }

  predicate Unlocking(pc: Pc, m: Obj) {
    pc.MustRealUnlock? && pc.lock == m
  }

  ghost predicate Invariant(s: System, w: Word, m: Obj) {
    && WellFormed(s.trace)
    && Compatible(s, m)
    && (forall t: Tid :: InWrapper(s.PcOf(t), m) ==> s.Holds(t, m))
    && (forall i :: 0 <= i < |s.trace| && Touches(s.trace[i], w) ==> Covered(s, w, m, i))
    && (forall i, t :: 0 <= i < |s.trace| && Touches(s.trace[i], w) ==> Informed(s, w, m, t, i))
  }

  lemma ReleasedGrows(tr: Trace, e: Event, i: int, u: Tid, m: Obj)
    requires i < |tr|
    ensures Released(tr + [e], i, u, m) <==> Released(tr, i, u, m) || e == Release(u, m)
  {
    if Released(tr, i, u, m) {
      var r :| 0 <= r < |tr| && i < r && tr[r] == Release(u, m);
      assert (tr + [e])[r] == Release(u, m);
    }
    if e == Release(u, m) {
      assert (tr + [e])[|tr|] == Release(u, m);
    }
  }

  lemma SeenByGrows(tr: Trace, e: Event, i: int, t: Tid)
    requires SeenBy(tr, i, t)
    ensures SeenBy(tr + [e], i, t)
  {
    var k :| 0 <= k < |tr| && tr[k].t == t && HB(tr, i, k);
    HBPrefix(tr, [e], i, k);
    assert (tr + [e])[k].t == t;
  }

  /** A release after event i orders i before any later acquire of the lock. */
  lemma ReleaseThenAcquire(tr: Trace, i: nat, m: Obj, t: Tid)
    requires i < |tr| && Released(tr, i, tr[i].t, m)
    ensures SeenBy(tr + [Acquire(t, m)], i, t)
  {
    var tr' := tr + [Acquire(t, m)];
    var r :| 0 <= r < |tr| && i < r && tr[r] == Release(tr[i].t, m);
    assert Edge(tr', i, r) && Edge(tr', r, |tr|);
    assert HB(tr', i, r);
    assert HB(tr', i, |tr|);
  }

  lemma CoveredStep(s: System, a: Action, w: Word, m: Obj, i: nat)
    requires Invariant(s, w, m) && Can(s, a) && Disciplined(s, a, w, m)
    requires i < |Next(s, a).trace| && Touches(Next(s, a).trace[i], w)
    ensures Covered(Next(s, a), w, m, i)
  {
    if i < |s.trace| {
      assert Covered(s, w, m, i);
      var u := s.trace[i].t;
      match a
      case RecordLock(t) => ReleasedGrows(s.trace, Acquire(t, s.PcOf(t).lock), i, u, m);
      case RecordUnlock(t, l, _) => ReleasedGrows(s.trace, Release(t, l), i, u, m);
      case Do(e) => ReleasedGrows(s.trace, e, i, u, m);
      case _ =>
    }
  }

  lemma InformedStep(s: System, a: Action, w: Word, m: Obj, t: Tid, i: nat)
    requires Invariant(s, w, m) && Can(s, a) && Disciplined(s, a, w, m)
    requires i < |Next(s, a).trace| && Touches(Next(s, a).trace[i], w)
    ensures Informed(Next(s, a), w, m, t, i)
  {
    if i < |s.trace| {
      assert Informed(s, w, m, t, i) && Covered(s, w, m, i);
      if SeenBy(s.trace, i, t) {
        SeenByStep(s, a, i, t);
      } else if a.RecordLock? && a.t == t && s.PcOf(t).lock == m {
        var u := s.trace[i].t;
        if Released(s.trace, i, u, m) {
          ReleaseThenAcquire(s.trace, i, m, t);
        } else if u != t {
          assert PairCompatible(s, m, t, u) && PairCompatible(s, m, u, t);
        }
      }
    } else if a.e.t != t {
      assert PairCompatible(s, m, t, a.e.t) && PairCompatible(s, m, a.e.t, t);
    }
  }

  lemma SeenByStep(s: System, a: Action, i: nat, t: Tid)
    requires SeenBy(s.trace, i, t)
    ensures SeenBy(Next(s, a).trace, i, t)
  {
    match a
    case RecordLock(u) => if s.PcOf(u).MustRecordLock? { SeenByGrows(s.trace, Acquire(u, s.PcOf(u).lock), i, t); }
    case RecordUnlock(u, l, _) => SeenByGrows(s.trace, Release(u, l), i, t);
    case Do(e) => SeenByGrows(s.trace, e, i, t);
    case _ =>
  }

  lemma CompatibleStep(s: System, a: Action, w: Word, m: Obj, t: Tid, u: Tid)
    requires Invariant(s, w, m) && Can(s, a) && t != u
    ensures PairCompatible(Next(s, a), m, t, u)
  {
    assert PairCompatible(s, m, t, u) && PairCompatible(s, m, u, t);
    match a
    case RealLock(x, l, mode) =>
      if l == m { GrantIsCompatible(s, x, m, mode, if x == t then u else t); }
    case Relock(x) =>
      if s.PcOf(x).lock == m { GrantIsCompatible(s, x, m, Exclusive, if x == t then u else t); }
    case _ =>
  }

  lemma GrantIsCompatible(s: System, t: Tid, m: Obj, mode: Mode, other: Tid)
    requires Grantable(s, t, m, mode) && other != t
    ensures s.Holds(other, m) ==> mode == Shared && !s.HoldsExclusively(other, m)
  {
  }

  lemma WrapperStep(s: System, a: Action, w: Word, m: Obj, t: Tid)
    requires Invariant(s, w, m) && Can(s, a)
    ensures InWrapper(Next(s, a).PcOf(t), m) ==> Next(s, a).Holds(t, m)
  {
    assert InWrapper(s.PcOf(t), m) ==> s.Holds(t, m);
  }

  lemma InvariantStep(s: System, a: Action, w: Word, m: Obj)
    requires Invariant(s, w, m) && Can(s, a) && Disciplined(s, a, w, m)
    ensures Invariant(Next(s, a), w, m)
  {
    var s' := Next(s, a);
    assert RecordsOne(s.trace, s'.trace);
    RecordsOneWellFormed(s.trace, s'.trace);
    forall t: Tid, u: Tid | t != u ensures PairCompatible(s', m, t, u) {
      CompatibleStep(s, a, w, m, t, u);
    }
    forall t: Tid ensures InWrapper(s'.PcOf(t), m) ==> s'.Holds(t, m) {
      WrapperStep(s, a, w, m, t);
    }
    forall i: int | 0 <= i < |s'.trace| && Touches(s'.trace[i], w) ensures Covered(s', w, m, i) {
      CoveredStep(s, a, w, m, i);
    }
    forall i: int, t: Tid | 0 <= i < |s'.trace| && Touches(s'.trace[i], w) ensures Informed(s', w, m, t, i) {
      InformedStep(s, a, w, m, t, i);
    }
  }

  lemma {:induction false} InvariantHolds(acts: seq<Action>, w: Word, m: Obj)
    requires Legal(acts, w, m)
    ensures Invariant(Run(acts), w, m)
  {
    if acts == [] {
    } else {
      InvariantHolds(acts[..|acts| - 1], w, m);
      InvariantStep(Run(acts[..|acts| - 1]), acts[|acts| - 1], w, m);
    }
  }

  /** An access made under the lock comes after every conflicting one. */
  lemma GuardedAccessIsOrdered(s: System, e: Event, w: Word, m: Obj, i: nat)
    requires Invariant(s, w, m) && Can(s, Do(e)) && Disciplined(s, Do(e), w, m) && Touches(e, w)
    requires i < |s.trace| && Touches(s.trace[i], w) && s.trace[i].t != e.t && (s.trace[i].write || e.write)
    ensures HB(s.trace + [e], i, |s.trace|)
  {
    assert Informed(s, w, m, e.t, i);
    var k :| 0 <= k < |s.trace| && s.trace[k].t == e.t && HB(s.trace, i, k);
    HBPrefix(s.trace, [e], i, k);
    assert Edge(s.trace + [e], k, |s.trace|);
  }

  lemma RacesWithPrefix(tr: Trace, e: Event, i: int, j: int)
    requires j < |tr|
    ensures RacesWith(tr + [e], i, j) <==> RacesWith(tr, i, j)
  {
    if 0 <= i < j {
      HBPrefix(tr, [e], i, j);
    }
  }

  /** In every legal interleaving no two accesses to the guarded word race. */
  lemma {:induction false} DisciplineOrders(acts: seq<Action>, w: Word, m: Obj, i: nat, j: nat)
    requires Legal(acts, w, m)
    requires i < j < |Run(acts).trace| && Touches(Run(acts).trace[j], w)
    ensures !RacesWith(Run(acts).trace, i, j)
  {
    if acts == [] {
    } else {
      var s, a := Run(acts[..|acts| - 1]), acts[|acts| - 1];
      if j < |s.trace| {
        DisciplineOrders(acts[..|acts| - 1], w, m, i, j);
        if Next(s, a).trace != s.trace {
          RacesWithPrefix(s.trace, Next(s, a).trace[|s.trace|], i, j);
          assert Next(s, a).trace == s.trace + [Next(s, a).trace[|s.trace|]];
        }
      } else if a.Do? && Touches(s.trace[i], w) && s.trace[i].t != a.e.t && (s.trace[i].write || a.e.write) {
        InvariantHolds(acts[..|acts| - 1], w, m);
        GuardedAccessIsOrdered(s, a.e, w, m, i);
      }
    }
  }

  /** MAIN RESULT: lock discipline is never reported. In every interleaving of real lock
      steps and recording steps, no access to a word that is written only under a lock's
      exclusive hold and read only under some hold of it is reported, whether readers
      overlap or not. */
  lemma {:induction false} LockDisciplineNeverReported(acts: seq<Action>, w: Word, m: Obj, j: nat)
    requires Legal(acts, w, m)
    requires j < |Run(acts).trace| && Touches(Run(acts).trace[j], w)
    ensures !Reported(Run(acts).trace, j)
  {
    InvariantHolds(acts, w, m);
    var tr := Run(acts).trace;
    if Reported(tr, j) {
      ReportedIsARace(tr, j);
      var i :| RacesWith(tr, i, j);
      DisciplineOrders(acts, w, m, i, j);
    }
  }
}
