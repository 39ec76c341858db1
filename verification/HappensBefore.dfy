/** The happens-before relation of a recorded run, defined on the run alone: no clock,
    cell or table appears here. */
module HappensBefore {

  type Tid = nat
  type Obj = nat   // the address of a lock or atomic
  type Word = nat  // the address of an 8-byte word, divided by 8

  /** One recorded step. `t` is always the thread that performs it. */
  datatype Event =
    | Start(t: Tid)                           // rz_thread_init: a thread with no known creator
    | Create(t: Tid, child: Tid)              // rz_thread_create
    | Joined(t: Tid, child: Tid)              // rz_thread_join
    | Acquire(t: Tid, obj: Obj)               // rz_mutex_acquire
    | Release(t: Tid, obj: Obj)               // rz_mutex_release
    | Access(t: Tid, word: Word, write: bool) // rz_race_access_loc

  type Trace = seq<Event>

  /** Is `e` part of thread t's own history: performed by it, or its creation? */
  predicate Carries(e: Event, t: Tid) {
    e.t == t || (e.Create? && e.child == t)
  }

  /** The direct ordering edges: program order (a thread's creation counts as its first
      step), a release to every later acquire of the same object, and everything in a
      child's history to its join. */
  predicate Edge(tr: Trace, i: int, j: int) {
    && 0 <= i < j < |tr|
    && (|| Carries(tr[i], tr[j].t)
        || (tr[i].Release? && tr[j].Acquire? && tr[i].obj == tr[j].obj)
        || (tr[j].Joined? && Carries(tr[i], tr[j].child)))
  }

  /** Event i happens before event j: the transitive closure of Edge. */
  ghost predicate HB(tr: Trace, i: int, j: int)
    decreases j - i
  {
    && 0 <= i < j < |tr|
    && (Edge(tr, i, j) || exists k :: i < k < j && HB(tr, i, k) && Edge(tr, k, j))
  }

  ghost predicate HBEq(tr: Trace, i: int, j: int) {
    (0 <= i == j < |tr|) || HB(tr, i, j)
  }

  lemma {:induction false} HBTransitive(tr: Trace, i: int, k: int, j: int)
    requires HB(tr, i, k) && HB(tr, k, j)
    ensures HB(tr, i, j)
    decreases j - k
  {
    if !Edge(tr, k, j) {
      var l :| k < l < j && HB(tr, k, l) && Edge(tr, l, j);
      HBTransitive(tr, i, k, l);
    }
  }

  /** What orders two events is already there when the later one happens. */
  lemma {:induction false} HBPrefix(tr: Trace, more: Trace, i: int, j: int)
    requires 0 <= i && j < |tr|
    ensures HB(tr + more, i, j) <==> HB(tr, i, j)
    decreases j - i
  {
    assert Edge(tr + more, i, j) == Edge(tr, i, j);
    forall k | i < k < j
      ensures HB(tr + more, i, k) <==> HB(tr, i, k)
      ensures Edge(tr + more, k, j) <==> Edge(tr, k, j)
    {
      HBPrefix(tr, more, i, k);
    }
  }

  /** A data race: an earlier access to the same word by another thread, at least one of
      the two a write, that does not happen before the later one. */
  ghost predicate RacesWith(tr: Trace, i: int, j: int) {
    && 0 <= i < j < |tr|
    && tr[i].Access? && tr[j].Access?
    && tr[i].word == tr[j].word
    && tr[i].t != tr[j].t
    && (tr[i].write || tr[j].write)
    && !HB(tr, i, j)
  }
}
