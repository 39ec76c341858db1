/** The clocks the detector keeps for a run, and the proof that they decide exactly the
    happens-before relation of that run. */
module ClockProtocol {
  import opened VectorClock
  import opened HappensBefore

  /** next: the next thread id; an absent thread or object has the zero clock. */
  datatype State = State(next: nat, clocks: map<Tid, Clock>, syncs: map<Obj, Clock>) {
    function ClockOf(t: Tid): Clock {
      if t in clocks then clocks[t] else Zero()
    }
    function SyncOf(m: Obj): Clock {
      if m in syncs then syncs[m] else Zero()
    }
  }

  const INIT := State(0, map[], map[])

  function Step(s: State, e: Event): State {
    match e
    case Start(t) =>
      State(s.next + 1, s.clocks[t := Tick(Zero(), t)], s.syncs)
    case Create(p, c) =>
      State(s.next + 1, s.clocks[c := Tick(s.ClockOf(p), c)][p := Tick(s.ClockOf(p), p)], s.syncs)
    case Joined(p, c) =>
      State(s.next, s.clocks[p := Join(s.ClockOf(p), s.ClockOf(c))], s.syncs)
    case Acquire(t, m) =>
      State(s.next, s.clocks[t := Join(s.ClockOf(t), s.SyncOf(m))], s.syncs[m := s.SyncOf(m)])
    case Release(t, m) =>
      State(s.next, s.clocks[t := Tick(s.ClockOf(t), t)], s.syncs[m := Join(s.SyncOf(m), s.ClockOf(t))])
    case Access(_, _, _) => s
  }

  /** The detector's clocks after the first n events. */
  function After(tr: Trace, n: nat): State
    requires n <= |tr|
  {
    if n == 0 then INIT else Step(After(tr, n - 1), tr[n - 1])
  }

  /** May event j follow the events before it? Thread ids are handed out in order, only a
      registered thread acts, and a joined thread has ended. */
  ghost predicate Admissible(tr: Trace, j: nat)
    requires j < |tr|
  {
    && !Ended(tr, j, tr[j].t)
    && (if tr[j].Start? then tr[j].t == After(tr, j).next else tr[j].t < After(tr, j).next)
    && (tr[j].Create? ==> tr[j].child == After(tr, j).next)
    && (tr[j].Joined? ==> tr[j].child < After(tr, j).next && tr[j].child != tr[j].t)
  }

  /** Has thread u been joined among the first n events? */
  ghost predicate Ended(tr: Trace, n: int, u: Tid)
    requires n <= |tr|
  {
    exists k :: 0 <= k < n && tr[k].Joined? && tr[k].child == u
  }

  ghost predicate WellFormed(tr: Trace) {
    forall j :: 0 <= j < |tr| ==> Admissible(tr, j)
  }

  /** May `e` be recorded next? */
  ghost predicate Recordable(tr: Trace, e: Event) {
    Admissible(tr + [e], |tr|)
  }

  // ---- Who may act, in terms of the run alone ----

  /** Is event e the beginning of thread t? */
  predicate Begins(e: Event, t: Tid) {
    (e.Start? && e.t == t) || (e.Create? && e.child == t)
  }

  ghost predicate Begun(tr: Trace, n: int, t: Tid)
    requires n <= |tr|
  {
    exists k :: 0 <= k < n && Begins(tr[k], t)
  }

  /** Thread t has begun and has not been joined. */
  ghost predicate Runs(tr: Trace, t: Tid) {
    Begun(tr, |tr|, t) && !Ended(tr, |tr|, t)
  }

  /** Ids are handed out in order: the threads below the next id are those that have begun. */
  lemma {:induction false} NextIsFirstUnused(tr: Trace, n: nat, t: Tid)
    requires WellFormed(tr) && n <= |tr|
    ensures t < After(tr, n).next <==> Begun(tr, n, t)
  {
    if n == 0 {
    } else {
      NextIsFirstUnused(tr, n - 1, t);
      assert After(tr, n) == Step(After(tr, n - 1), tr[n - 1]) && Admissible(tr, n - 1);
      assert Begins(tr[n - 1], t) ==> 0 <= n - 1 < n;
    }
  }

  /** The acting thread's clock at event j: after what it imports, before what it ticks. */
  function ClockAt(tr: Trace, j: nat): Clock
    requires j < |tr|
  {
    var e := tr[j];
    if e.Acquire? || e.Joined? || e.Start?
    then After(tr, j + 1).ClockOf(e.t)
    else After(tr, j).ClockOf(e.t)
  }

  /** The epoch stamped on event i: the acting thread's own entry. */
  function Epoch(tr: Trace, i: nat): nat
    requires i < |tr|
  {
    At(ClockAt(tr, i), tr[i].t)
  }

  // ---- Who has heard of which event, in terms of the relation alone ----

  /** Event i precedes or is something in thread t's history among the first n events. */
  ghost predicate Knows(tr: Trace, n: int, t: Tid, i: int)
    requires n <= |tr|
  {
    exists k :: 0 <= k < n && Carries(tr[k], t) && HBEq(tr, i, k)
  }

  /** Event i precedes or is a release of m among the first n events. */
  ghost predicate Published(tr: Trace, n: int, m: Obj, i: int)
    requires n <= |tr|
  {
    exists k :: 0 <= k < n && tr[k].Release? && tr[k].obj == m && HBEq(tr, i, k)
  }

  lemma KnowsStep(tr: Trace, n: nat, t: Tid, i: int)
    requires n < |tr|
    ensures Knows(tr, n + 1, t, i) <==> Knows(tr, n, t, i) || (Carries(tr[n], t) && HBEq(tr, i, n))
  {
    if Carries(tr[n], t) && HBEq(tr, i, n) {
      assert 0 <= n < n + 1;
    }
  }

  lemma PublishedStep(tr: Trace, n: nat, m: Obj, i: int)
    requires n < |tr|
    ensures Published(tr, n + 1, m, i) <==>
            Published(tr, n, m, i) || (tr[n].Release? && tr[n].obj == m && HBEq(tr, i, n))
  {
    if tr[n].Release? && tr[n].obj == m && HBEq(tr, i, n) {
      assert 0 <= n < n + 1;
    }
  }

  /** What happens before event n is what its thread already knew, plus what it imports. */
  lemma HBUnfold(tr: Trace, i: nat, n: nat)
    requires i < n < |tr|
    ensures HB(tr, i, n) <==>
            || Knows(tr, n, tr[n].t, i)
            || (tr[n].Acquire? && Published(tr, n, tr[n].obj, i))
            || (tr[n].Joined? && Knows(tr, n, tr[n].child, i))
  {
    if HB(tr, i, n) {
      if Edge(tr, i, n) {
        assert HBEq(tr, i, i);
      } else {
        var k :| i < k < n && HB(tr, i, k) && Edge(tr, k, n);
        assert HBEq(tr, i, k);
      }
    } else {
      forall k | 0 <= k < n && HBEq(tr, i, k) ensures !Edge(tr, k, n) {
      }
    }
  }

  // ---- The invariant ----

  /** Nobody holds an entry for a thread that does not exist yet, and nobody else has
      caught up with the current epoch of a thread that still runs. */
  ghost predicate Fresh(tr: Trace, n: nat)
    requires n <= |tr|
  {
    && (forall u: Tid | u >= After(tr, n).next :: After(tr, n).ClockOf(u) == Zero())
    && (forall u: Tid, t: Tid :: Behind(tr, n, u, t, At(After(tr, n).ClockOf(t), u)))
    && (forall u: Tid, m: Obj :: BehindSync(tr, n, u, At(After(tr, n).SyncOf(m), u)))
  }

  ghost predicate Behind(tr: Trace, n: nat, u: Tid, t: Tid, entry: nat)
    requires n <= |tr|
  {
    u != t ==> BehindSync(tr, n, u, entry)
  }

  ghost predicate BehindSync(tr: Trace, n: nat, u: Tid, entry: nat)
    requires n <= |tr|
  {
    && (u >= After(tr, n).next ==> entry == 0)
    && (u < After(tr, n).next && u < MAX_THREADS && !Ended(tr, n, u) ==>
          entry < At(After(tr, n).ClockOf(u), u))
  }

  /** A thread's clock covers event i exactly when i is part of what the thread knows. */
  ghost predicate ThreadExact(tr: Trace, n: nat, t: Tid, i: nat)
    requires i < n <= |tr|
  {
    Epoch(tr, i) <= At(After(tr, n).ClockOf(t), tr[i].t) <==> Knows(tr, n, t, i)
  }

  ghost predicate SyncExact(tr: Trace, n: nat, m: Obj, i: nat)
    requires i < n <= |tr|
  {
    Epoch(tr, i) <= At(After(tr, n).SyncOf(m), tr[i].t) <==> Published(tr, n, m, i)
  }

  ghost predicate Exact(tr: Trace, n: nat)
    requires n <= |tr|
  {
    && (forall i: nat, t: Tid | i < n && tr[i].t < MAX_THREADS :: ThreadExact(tr, n, t, i))
    && (forall i: nat, m: Obj | i < n && tr[i].t < MAX_THREADS :: SyncExact(tr, n, m, i))
  }

  lemma EndedStep(tr: Trace, n: nat, u: Tid)
    requires n < |tr|
    ensures Ended(tr, n + 1, u) <==> Ended(tr, n, u) || (tr[n].Joined? && tr[n].child == u)
  {
    if tr[n].Joined? && tr[n].child == u {
      assert 0 <= n < n + 1;
    }
  }

  lemma FreshStep(tr: Trace, n: nat)
    requires n < |tr| && Admissible(tr, n) && Fresh(tr, n)
    ensures Fresh(tr, n + 1)
  {
    var s, s' := After(tr, n), After(tr, n + 1);
    assert s' == Step(s, tr[n]);
    forall u: Tid | u >= s'.next ensures s'.ClockOf(u) == Zero() {
      assert s.ClockOf(u) == Zero();
    }
    forall u: Tid, t: Tid ensures Behind(tr, n + 1, u, t, At(s'.ClockOf(t), u)) {
      FreshThread(tr, n, u, t);
    }
    forall u: Tid, m: Obj ensures BehindSync(tr, n + 1, u, At(s'.SyncOf(m), u)) {
      FreshSync(tr, n, u, m);
    }
  }

  lemma FreshThread(tr: Trace, n: nat, u: Tid, t: Tid)
    requires n < |tr| && Admissible(tr, n) && Fresh(tr, n)
    ensures Behind(tr, n + 1, u, t, At(After(tr, n + 1).ClockOf(t), u))
  {
    var s, s', e := After(tr, n), After(tr, n + 1), tr[n];
    assert s' == Step(s, e);
    EndedStep(tr, n, u);
    assert Behind(tr, n, u, t, At(s.ClockOf(t), u));
    assert Behind(tr, n, u, e.t, At(s.ClockOf(e.t), u));
    if e.Joined? {
      assert Behind(tr, n, u, e.child, At(s.ClockOf(e.child), u));
    } else if e.Acquire? {
      assert BehindSync(tr, n, u, At(s.SyncOf(e.obj), u));
    }
  }

  lemma FreshSync(tr: Trace, n: nat, u: Tid, m: Obj)
    requires n < |tr| && Admissible(tr, n) && Fresh(tr, n)
    ensures BehindSync(tr, n + 1, u, At(After(tr, n + 1).SyncOf(m), u))
  {
    var s, s', e := After(tr, n), After(tr, n + 1), tr[n];
    assert s' == Step(s, e);
    EndedStep(tr, n, u);
    assert BehindSync(tr, n, u, At(s.SyncOf(m), u));
    assert Behind(tr, n, u, e.t, At(s.ClockOf(e.t), u));
    if e.Joined? {
      assert Behind(tr, n, u, e.child, At(s.ClockOf(e.child), u));
    } else if e.Acquire? {
      assert BehindSync(tr, n, u, At(s.SyncOf(e.obj), u));
    }
  }

  /** The theorem at one event, from the invariant just before it. */
  lemma ExactHere(tr: Trace, n: nat, i: nat)
    requires i < n < |tr| && Admissible(tr, n) && Fresh(tr, n)
    requires Exact(tr, n) && tr[i].t < MAX_THREADS
    ensures Epoch(tr, i) <= At(ClockAt(tr, n), tr[i].t) <==> HB(tr, i, n)
  {
    HBUnfold(tr, i, n);
    assert ThreadExact(tr, n, tr[n].t, i);
    if tr[n].Acquire? {
      assert SyncExact(tr, n, tr[n].obj, i);
    } else if tr[n].Joined? {
      assert ThreadExact(tr, n, tr[n].child, i);
    }
    assert After(tr, n + 1) == Step(After(tr, n), tr[n]);
  }

  /** The event just recorded is newer than every clock but its thread's own (and, when
      it creates a thread, that thread's). */
  lemma NewEpochThread(tr: Trace, n: nat, t: Tid)
    requires n < |tr| && Admissible(tr, n) && Fresh(tr, n)
    requires tr[n].t < MAX_THREADS
    ensures Epoch(tr, n) <= At(After(tr, n + 1).ClockOf(t), tr[n].t) <==> Carries(tr[n], t)
  {
    var s, e := After(tr, n), tr[n];
    assert After(tr, n + 1) == Step(s, e);
    assert Behind(tr, n, e.t, t, At(s.ClockOf(t), e.t));
    if e.Joined? {
      assert Behind(tr, n, e.t, e.child, At(s.ClockOf(e.child), e.t));
    } else if e.Acquire? {
      assert BehindSync(tr, n, e.t, At(s.SyncOf(e.obj), e.t));
    }
  }

  lemma NewEpochSync(tr: Trace, n: nat, m: Obj)
    requires n < |tr| && Admissible(tr, n) && Fresh(tr, n)
    requires tr[n].t < MAX_THREADS
    ensures Epoch(tr, n) <= At(After(tr, n + 1).SyncOf(m), tr[n].t) <==> tr[n].Release? && tr[n].obj == m
  {
    var s, e := After(tr, n), tr[n];
    assert After(tr, n + 1) == Step(s, e);
    assert BehindSync(tr, n, e.t, At(s.SyncOf(m), e.t));
  }

  lemma NotYetKnown(tr: Trace, n: nat, t: Tid, m: Obj)
    requires n <= |tr|
    ensures !Knows(tr, n, t, n) && !Published(tr, n, m, n)
  {
  }

  lemma ThreadExactStep(tr: Trace, n: nat, t: Tid, i: nat)
    requires i <= n < |tr| && Admissible(tr, n) && Fresh(tr, n) && Exact(tr, n)
    requires tr[i].t < MAX_THREADS
    ensures ThreadExact(tr, n + 1, t, i)
  {
    KnowsStep(tr, n, t, i);
    if i == n {
      NewEpochThread(tr, n, t);
      NotYetKnown(tr, n, t, 0);
    } else {
      ExactHere(tr, n, i);
      HBUnfold(tr, i, n);
      assert ThreadExact(tr, n, t, i) && ThreadExact(tr, n, tr[n].t, i);
      assert After(tr, n + 1) == Step(After(tr, n), tr[n]);
      OwnPastIsKnown(tr, n, i);
    }
  }

  lemma OwnPastIsKnown(tr: Trace, n: nat, i: nat)
    requires i < n <= |tr|
    ensures Knows(tr, n, tr[i].t, i)
  {
    assert Carries(tr[i], tr[i].t) && HBEq(tr, i, i);
  }

  lemma SyncExactStep(tr: Trace, n: nat, m: Obj, i: nat)
    requires i <= n < |tr| && Admissible(tr, n) && Fresh(tr, n) && Exact(tr, n)
    requires tr[i].t < MAX_THREADS
    ensures SyncExact(tr, n + 1, m, i)
  {
    PublishedStep(tr, n, m, i);
    if i == n {
      NewEpochSync(tr, n, m);
      NotYetKnown(tr, n, 0, m);
    } else {
      ExactHere(tr, n, i);
      assert SyncExact(tr, n, m, i);
      assert After(tr, n + 1) == Step(After(tr, n), tr[n]);
    }
  }

  lemma {:induction false} ClockInvariant(tr: Trace, n: nat)
    requires WellFormed(tr) && n <= |tr|
    ensures Fresh(tr, n) && Exact(tr, n)
  {
    if n == 0 {
    } else {
      ClockInvariant(tr, n - 1);
      FreshStep(tr, n - 1);
      forall i: nat, t: Tid | i < n && tr[i].t < MAX_THREADS ensures ThreadExact(tr, n, t, i) {
        ThreadExactStep(tr, n - 1, t, i);
      }
      forall i: nat, m: Obj | i < n && tr[i].t < MAX_THREADS ensures SyncExact(tr, n, m, i) {
        SyncExactStep(tr, n - 1, m, i);
      }
    }
  }

  /** MAIN RESULT: the clocks decide happens-before. For any two events of a run, the
      earlier one by a tracked thread, its epoch is covered by the later thread's clock
      if and only if it happens before the later event. */
  lemma ClocksDecideHappensBefore(tr: Trace, i: nat, j: nat)
    requires WellFormed(tr) && i < j < |tr|
    requires tr[i].t < MAX_THREADS
    ensures Epoch(tr, i) <= At(ClockAt(tr, j), tr[i].t) <==> HB(tr, i, j)
  {
    ClockInvariant(tr, j);
    ExactHere(tr, j, i);
  }
}
