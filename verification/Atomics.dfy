/** Instrumented atomics (src/RedzonePass.cpp): a release is recorded before an atomic
    write takes effect and an acquire after an atomic read has, each a step of its own. */
module Atomics {
  import opened VectorClock
  import opened HappensBefore
  import opened ClockProtocol
  import opened Cells

  /** Where a thread is inside an atomic operation. */
  datatype Pc =
    | Idle
    | MustStore(loc: Obj)    // release recorded, store to come
    | MustUpdate(loc: Obj)   // release recorded, read-modify-write to come
    | MustAcquire(loc: Obj)  // location read, acquire to be recorded

  datatype System = System(trace: Trace, pcs: map<Tid, Pc>) {
    function PcOf(t: Tid): Pc {
      if t in pcs then pcs[t] else Idle
    }
  }

  const BOOT := System([], map[])

  datatype Action =
    | ReleaseForStore(t: Tid, loc: Obj)
    | ReleaseForUpdate(t: Tid, loc: Obj)
    | RealStore(t: Tid)
    | RealUpdate(t: Tid, writes: bool)  // a failed compare-exchange only reads
    | RealLoad(t: Tid, loc: Obj)
    | RecordAcquire(t: Tid)
    | Do(e: Event)

  function Actor(a: Action): Tid {
    match a
    case Do(e) => e.t
    case _ => a.t
  }

  ghost predicate Can(s: System, a: Action) {
    match a
    case ReleaseForStore(t, l) => s.PcOf(t) == Idle && Recordable(s.trace, Release(t, l))
    case ReleaseForUpdate(t, l) => s.PcOf(t) == Idle && Recordable(s.trace, Release(t, l))
    case RealStore(t) => s.PcOf(t).MustStore?
    case RealUpdate(t, _) => s.PcOf(t).MustUpdate?
    case RealLoad(t, _) => s.PcOf(t) == Idle
    case RecordAcquire(t) => s.PcOf(t).MustAcquire? && Recordable(s.trace, Acquire(t, s.PcOf(t).loc))
    case Do(e) => s.PcOf(e.t) == Idle && Recordable(s.trace, e) && (e.Joined? ==> s.PcOf(e.child) == Idle)
  }

  function Next(s: System, a: Action): System {
    match a
    case ReleaseForStore(t, l) => System(s.trace + [Release(t, l)], s.pcs[t := MustStore(l)])
    case ReleaseForUpdate(t, l) => System(s.trace + [Release(t, l)], s.pcs[t := MustUpdate(l)])
    case RealStore(t) => System(s.trace, s.pcs[t := Idle])
    case RealUpdate(t, _) =>
      if s.PcOf(t).MustUpdate? then System(s.trace, s.pcs[t := MustAcquire(s.PcOf(t).loc)]) else s
    case RealLoad(t, l) => System(s.trace, s.pcs[t := MustAcquire(l)])
    case RecordAcquire(t) =>
      if s.PcOf(t).MustAcquire? then System(s.trace + [Acquire(t, s.PcOf(t).loc)], s.pcs[t := Idle]) else s
    case Do(e) => System(s.trace + [e], s.pcs)
  }

  function Run(acts: seq<Action>): System {
    if acts == [] then BOOT else Next(Run(acts[..|acts| - 1]), acts[|acts| - 1])
  }

  ghost predicate Legal(acts: seq<Action>) {
    acts == [] || (Legal(acts[..|acts| - 1]) && Can(Run(acts[..|acts| - 1]), acts[|acts| - 1]))
  }

  /** The system before action n of an interleaving. */
  function Before(acts: seq<Action>, n: nat): System
    requires n <= |acts|
  {
    Run(acts[..n])
  }

  // ---- What one operation does ----

  /** An atomic store by a running thread can always be carried through, and records one
      release of its location. */
  lemma StoreInFull(s: System, t: Tid, l: Obj)
    requires WellFormed(s.trace) && s.PcOf(t) == Idle && Runs(s.trace, t)
    ensures Can(s, ReleaseForStore(t, l))
    ensures var s1 := Next(s, ReleaseForStore(t, l));
            && Can(s1, RealStore(t))
            && Next(s1, RealStore(t)) == System(s.trace + [Release(t, l)], s.pcs[t := Idle])
  {
    WhoMayRecord(s.trace, Release(t, l));
  }

  /** An atomic load records one acquire of its location, after the load. */
  lemma LoadInFull(s: System, t: Tid, l: Obj)
    requires WellFormed(s.trace) && s.PcOf(t) == Idle && Runs(s.trace, t)
    ensures Can(s, RealLoad(t, l)) && Next(s, RealLoad(t, l)).trace == s.trace
    ensures var s1 := Next(s, RealLoad(t, l));
            && Can(s1, RecordAcquire(t))
            && Next(s1, RecordAcquire(t)) == System(s.trace + [Acquire(t, l)], s.pcs[t := Idle])
  {
    WhoMayRecord(s.trace, Acquire(t, l));
  }

  /** A read-modify-write records a release before it and an acquire after it, also when it
      is a compare-exchange that fails. */
  lemma UpdateInFull(s: System, t: Tid, l: Obj, writes: bool)
    requires WellFormed(s.trace) && s.PcOf(t) == Idle && Runs(s.trace, t)
    ensures Can(s, ReleaseForUpdate(t, l))
    ensures var s1 := Next(s, ReleaseForUpdate(t, l));
            && Can(s1, RealUpdate(t, writes)) && Next(s1, RealUpdate(t, writes)).trace == s.trace + [Release(t, l)]
            && var s2 := Next(s1, RealUpdate(t, writes));
               && Can(s2, RecordAcquire(t))
               && Next(s2, RecordAcquire(t)) == System(s.trace + [Release(t, l)] + [Acquire(t, l)], s.pcs[t := Idle])
  {
    WhoMayRecord(s.trace, Release(t, l));
    var tr := s.trace + [Release(t, l)];
    PrefixWellFormed(s.trace, Release(t, l));
    StillRuns(s.trace, Release(t, l), t);
    WhoMayRecord(tr, Acquire(t, l));
  }

  /** A running thread outside the atomic operations may access memory at any time, and do anything
      else that may be recorded; only a thread in the middle of one cannot be joined. */
  lemma IdleMayDo(s: System, e: Event)
    requires WellFormed(s.trace) && s.PcOf(e.t) == Idle
    requires if e.Access? then Runs(s.trace, e.t) else Recordable(s.trace, e) && (e.Joined? ==> s.PcOf(e.child) == Idle)
    ensures Can(s, Do(e)) && Next(s, Do(e)) == s.(trace := s.trace + [e])
  {
    WhoMayRecord(s.trace, e);
  }

  // ---- The invariant ----

  /** Thread t's last event is a release of l. */
  ghost predicate ReleasedLast(tr: Trace, t: Tid, l: Obj) {
    exists r :: 0 <= r < |tr| && tr[r] == Release(t, l) && Silent(tr, t, r + 1, |tr|)
  }

  /** Thread t records nothing among the events lo .. hi - 1. */
  ghost predicate Silent(tr: Trace, t: Tid, lo: nat, hi: nat)
    requires hi <= |tr|
  {
    forall k :: lo <= k < hi ==> tr[k].t != t
  }

  /** A thread about to write has just released the location. */
  ghost predicate PcBacked(tr: Trace, t: Tid, pc: Pc) {
    pc.MustStore? || pc.MustUpdate? ==> ReleasedLast(tr, t, pc.loc)
  }

  ghost predicate Invariant(s: System) {
    WellFormed(s.trace) && forall t: Tid :: PcBacked(s.trace, t, s.PcOf(t))
  }

  lemma ReleasedLastGrows(tr: Trace, e: Event, t: Tid, l: Obj)
    requires ReleasedLast(tr, t, l) && e.t != t
    ensures ReleasedLast(tr + [e], t, l)
  {
    var r :| 0 <= r < |tr| && tr[r] == Release(t, l) && Silent(tr, t, r + 1, |tr|);
    assert (tr + [e])[r] == Release(t, l);
  }

  lemma JustReleased(tr: Trace, t: Tid, l: Obj)
    ensures ReleasedLast(tr + [Release(t, l)], t, l)
  {
    assert (tr + [Release(t, l)])[|tr|] == Release(t, l);
  }

  lemma PcBackedStep(s: System, a: Action, t: Tid)
    requires Invariant(s) && Can(s, a)
    ensures PcBacked(Next(s, a).trace, t, Next(s, a).PcOf(t))
  {
    assert PcBacked(s.trace, t, s.PcOf(t));
    if Actor(a) == t {
      if a.ReleaseForStore? || a.ReleaseForUpdate? {
        JustReleased(s.trace, t, a.loc);
      }
    } else if s.PcOf(t).MustStore? || s.PcOf(t).MustUpdate? {
      if Next(s, a).trace != s.trace {
        var e := Next(s, a).trace[|s.trace|];
        assert Next(s, a).trace == s.trace + [e];
        ReleasedLastGrows(s.trace, e, t, s.PcOf(t).loc);
      }
    }
  }

  lemma InvariantStep(s: System, a: Action)
    requires Invariant(s) && Can(s, a)
    ensures Invariant(Next(s, a))
  {
    var s' := Next(s, a);
    assert RecordsOne(s.trace, s'.trace);
    RecordsOneWellFormed(s.trace, s'.trace);
    forall t: Tid ensures PcBacked(s'.trace, t, s'.PcOf(t)) {
      PcBackedStep(s, a, t);
    }
  }

  lemma {:induction false} InvariantHolds(acts: seq<Action>)
    requires Legal(acts)
    ensures Invariant(Run(acts))
  {
    if acts == [] {
    } else {
      InvariantHolds(acts[..|acts| - 1]);
      InvariantStep(Run(acts[..|acts| - 1]), acts[|acts| - 1]);
    }
  }

  // ---- Prefixes of an interleaving ----

  lemma BeforeNext(acts: seq<Action>, n: nat)
    requires n < |acts|
    ensures Before(acts, n + 1) == Next(Before(acts, n), acts[n])
  {
    assert acts[..n + 1][..n] == acts[..n];
  }

  lemma {:induction false} LegalPrefix(acts: seq<Action>, n: nat)
    requires Legal(acts) && n <= |acts|
    ensures Legal(acts[..n]) && (n < |acts| ==> Can(Before(acts, n), acts[n]))
    decreases |acts| - n
  {
    if n == |acts| {
      assert acts[..n] == acts;
    } else {
      LegalPrefix(acts, n + 1);
      assert acts[..n + 1][..n] == acts[..n];
    }
  }

  /** What is recorded stays recorded. */
  lemma {:induction false} TraceGrows(acts: seq<Action>, m: nat, n: nat)
    requires m <= n <= |acts|
    ensures Before(acts, m).trace <= Before(acts, n).trace
    decreases n
  {
    if m == n {
    } else {
      TraceGrows(acts, m, n - 1);
      BeforeNext(acts, n - 1);
    }
  }

  // ---- Publication ----

  /** Action n really writes location l: a store, or a read-modify-write that writes. */
  ghost predicate WritesAt(acts: seq<Action>, n: nat, l: Obj)
    requires n < |acts|
  {
    match acts[n]
    case RealStore(t) => Before(acts, n).PcOf(t) == MustStore(l)
    case RealUpdate(t, writes) => writes && Before(acts, n).PcOf(t) == MustUpdate(l)
    case _ => false
  }

  /** Action n really reads location l. */
  ghost predicate ReadsAt(acts: seq<Action>, n: nat, l: Obj)
    requires n < |acts|
  {
    match acts[n]
    case RealLoad(t, loc) => loc == l
    case RealUpdate(t, _) => Before(acts, n).PcOf(t) == MustUpdate(l)
    case _ => false
  }

  /** Action q reads a location after action p wrote it. */
  ghost predicate ReadsAfter(acts: seq<Action>, p: nat, q: nat) {
    p < q < |acts| && exists l: Obj :: WritesAt(acts, p, l) && ReadsAt(acts, q, l)
  }

  /** The read takes the value of that write: no other write comes between. */
  ghost predicate ReadsFrom(acts: seq<Action>, p: nat, q: nat) {
    && p < q < |acts|
    && exists l: Obj :: WritesAt(acts, p, l) && ReadsAt(acts, q, l) && forall n :: p < n < q ==> !WritesAt(acts, n, l)
  }

  /** After the read at q its thread's next event is the acquire: it is still to come, or it
      is the first event the thread has recorded since. */
  ghost predicate AcquiresNext(tr: Trace, t: Tid, l: Obj, since: nat, pc: Pc) {
    && since <= |tr|
    && (|| (pc == MustAcquire(l) && Silent(tr, t, since, |tr|))
        || exists a :: since <= a < |tr| && tr[a] == Acquire(t, l) && Silent(tr, t, since, a))
  }

  lemma AcquiresNextStep(s: System, a: Action, t: Tid, l: Obj, since: nat)
    requires AcquiresNext(s.trace, t, l, since, s.PcOf(t)) && Can(s, a)
    ensures AcquiresNext(Next(s, a).trace, t, l, since, Next(s, a).PcOf(t))
  {
    var tr, tr' := s.trace, Next(s, a).trace;
    if k :| since <= k < |tr| && tr[k] == Acquire(t, l) && Silent(tr, t, since, k) {
      assert tr'[k] == Acquire(t, l) && Silent(tr', t, since, k);
    } else if Actor(a) == t {
      assert tr' == tr + [Acquire(t, l)];
      assert tr'[|tr|] == Acquire(t, l) && Silent(tr', t, since, |tr|);
    }
  }

  lemma {:induction false} ReaderAcquires(acts: seq<Action>, q: nat, n: nat, l: Obj)
    requires Legal(acts) && q < n <= |acts| && ReadsAt(acts, q, l)
    ensures AcquiresNext(Before(acts, n).trace, Actor(acts[q]), l, |Before(acts, q + 1).trace|,
                         Before(acts, n).PcOf(Actor(acts[q])))
    decreases n
  {
    LegalPrefix(acts, n - 1);
    BeforeNext(acts, n - 1);
    if n == q + 1 {
    } else {
      ReaderAcquires(acts, q, n - 1, l);
      AcquiresNextStep(Before(acts, n - 1), acts[n - 1], Actor(acts[q]), l, |Before(acts, q + 1).trace|);
    }
  }

  /** MAIN RESULT: atomic publication. When an atomic read follows an atomic write of the
      same location, in particular when it takes that write's value, everything the writer
      recorded before the write happens before everything the reader records after the
      read. */
  lemma PublicationOrders(acts: seq<Action>, p: nat, q: nat, i: nat, j: nat)
    requires Legal(acts) && ReadsAfter(acts, p, q)
    requires Publishes(acts, p, q, i, j)
    ensures HB(Run(acts).trace, i, j)
  {
    var l: Obj :| WritesAt(acts, p, l) && ReadsAt(acts, q, l);
    var tr := Run(acts).trace;
    var r := WriterReleased(acts, p, l);
    var a := ReaderAcquired(acts, q, l, j);
    TraceGrows(acts, p, q + 1);
    ThroughRelease(tr, i, r, a, j);
  }

  /** The first event a reader records after its read is the acquire. */
  lemma ReaderAcquired(acts: seq<Action>, q: nat, l: Obj, j: nat) returns (a: nat)
    requires Legal(acts) && q < |acts| && ReadsAt(acts, q, l)
    requires |Before(acts, q + 1).trace| <= j < |Run(acts).trace| && Run(acts).trace[j].t == Actor(acts[q])
    ensures |Before(acts, q + 1).trace| <= a <= j && Run(acts).trace[a] == Acquire(Actor(acts[q]), l)
  {
    var tr, since := Run(acts).trace, |Before(acts, q + 1).trace|;
    assert acts[..|acts|] == acts;
    ReaderAcquires(acts, q, |acts|, l);
    var k :| since <= k < |tr| && tr[k] == Acquire(Actor(acts[q]), l) && Silent(tr, Actor(acts[q]), since, k);
    a := k;
  }

  /** Event i is recorded by the thread of action p before p, event j by the thread of
      action q after q. */
  ghost predicate Publishes(acts: seq<Action>, p: nat, q: nat, i: nat, j: nat)
    requires p < |acts| && q < |acts|
  {
    var tr := Run(acts).trace;
    && i < |Before(acts, p).trace| && i < |tr| && tr[i].t == Actor(acts[p])
    && |Before(acts, q + 1).trace| <= j < |tr| && tr[j].t == Actor(acts[q])
  }

  /** The release recorded for a write is its thread's last event before the write. */
  lemma WriterReleased(acts: seq<Action>, p: nat, l: Obj) returns (r: nat)
    requires Legal(acts) && p < |acts| && WritesAt(acts, p, l)
    ensures r < |Before(acts, p).trace| <= |Run(acts).trace| && Run(acts).trace[r] == Release(Actor(acts[p]), l)
    ensures Silent(Run(acts).trace, Actor(acts[p]), r + 1, |Before(acts, p).trace|)
  {
    LegalPrefix(acts, p);
    InvariantHolds(acts[..p]);
    var t, before := Actor(acts[p]), Before(acts, p);
    assert PcBacked(before.trace, t, before.PcOf(t));
    var k :| 0 <= k < |before.trace| && before.trace[k] == Release(t, l)
             && Silent(before.trace, t, k + 1, |before.trace|);
    r := k;
    TraceGrows(acts, p, |acts|);
    assert acts[..|acts|] == acts;
  }

  lemma ThroughRelease(tr: Trace, i: nat, r: nat, a: nat, j: nat)
    requires i <= r < a <= j < |tr| && tr[r].Release? && tr[a].Acquire? && tr[r].obj == tr[a].obj
    requires tr[i].t == tr[r].t && tr[a].t == tr[j].t
    ensures HB(tr, i, j)
  {
    assert Edge(tr, r, a);
    if i < r {
      assert Edge(tr, i, r);
    }
    assert HB(tr, i, a);
    if a < j {
      assert Edge(tr, a, j);
    }
  }

  /** Event i was published to the thread of event j, before j, by some write and read. */
  ghost predicate PublishedTo(acts: seq<Action>, i: nat, j: nat) {
    exists p: nat, q: nat :: ReadsAfter(acts, p, q) && Publishes(acts, p, q, i, j)
  }

  /** One link of a chain: a publication, or a direct edge (program order, a lock handed on,
      a thread created or joined). */
  ghost predicate Linked(acts: seq<Action>, i: nat, j: nat) {
    PublishedTo(acts, i, j) || Edge(Run(acts).trace, i, j)
  }

  ghost predicate IsChain(acts: seq<Action>, path: seq<nat>) {
    |path| >= 2 && forall k :: 0 <= k < |path| - 1 ==> Linked(acts, path[k], path[k + 1])
  }

  /** A chain leads from event i to event j. */
  ghost predicate HandedOn(acts: seq<Action>, i: nat, j: nat) {
    exists path: seq<nat> :: IsChain(acts, path) && path[0] == i && path[|path| - 1] == j
  }

  lemma LinkOrders(acts: seq<Action>, i: nat, j: nat)
    requires Legal(acts) && Linked(acts, i, j)
    ensures HB(Run(acts).trace, i, j)
  {
    if PublishedTo(acts, i, j) {
      var p: nat, q: nat :| ReadsAfter(acts, p, q) && Publishes(acts, p, q, i, j);
      PublicationOrders(acts, p, q, i, j);
    }
  }

  lemma {:induction false} ChainOrders(acts: seq<Action>, path: seq<nat>, n: nat)
    requires Legal(acts) && IsChain(acts, path) && 0 < n < |path|
    ensures HB(Run(acts).trace, path[0], path[n])
    decreases n
  {
    assert Linked(acts, path[n - 1], path[n - 1 + 1]);
    LinkOrders(acts, path[n - 1], path[n]);
    if n == 1 {
    } else {
      ChainOrders(acts, path, n - 1);
      HBTransitive(Run(acts).trace, path[0], path[n - 1], path[n]);
    }
  }

  lemma HandedOnOrders(acts: seq<Action>, i: nat, j: nat)
    requires Legal(acts) && HandedOn(acts, i, j)
    ensures HB(Run(acts).trace, i, j)
  {
    var path: seq<nat> :| IsChain(acts, path) && path[0] == i && path[|path| - 1] == j;
    ChainOrders(acts, path, |path| - 1);
  }

  /** MAIN RESULT: data handed on to the accessing thread from every conflicting earlier
      access, through any chain of publications, locks, creations and joins, is never
      reported. */
  lemma PublishedDataNeverReported(acts: seq<Action>, j: nat)
    requires Legal(acts) && j < |Run(acts).trace| && Run(acts).trace[j].Access?
    requires forall i: nat :: i < j && RacingPair(Run(acts).trace, i, j) ==> HandedOn(acts, i, j)
    ensures !Reported(Run(acts).trace, j)
  {
    InvariantHolds(acts);
    var tr := Run(acts).trace;
    if Reported(tr, j) {
      ReportedIsARace(tr, j);
      var i :| RacesWith(tr, i, j);
      assert RacingPair(tr, i, j);
      HandedOnOrders(acts, i, j);
    }
  }

  /** The simplest case: the only conflicting access comes before a write in its thread, and
      the accessing thread has read that write's value. */
  lemma FlagHandsOver(acts: seq<Action>, p: nat, q: nat, i: nat, j: nat)
    requires Legal(acts) && ReadsFrom(acts, p, q) && Publishes(acts, p, q, i, j) && Run(acts).trace[j].Access?
    requires forall k: nat :: k < j && RacingPair(Run(acts).trace, k, j) ==> k == i
    ensures !Reported(Run(acts).trace, j)
  {
    assert PublishedTo(acts, i, j);
    assert IsChain(acts, [i, j]);
    assert HandedOn(acts, i, j);
    PublishedDataNeverReported(acts, j);
  }

  /** Two accesses that would race if nothing ordered them. */
  predicate RacingPair(tr: Trace, i: nat, j: nat) {
    && i < |tr| && j < |tr| && tr[i].Access? && tr[j].Access? && tr[i].word == tr[j].word
    && tr[i].t != tr[j].t && (tr[i].write || tr[j].write)
  }
}
