/** The running detector (runtime/redzone_race_rt.c): thread and lock clocks updated in
    place, the shadow split into shards, and the proof that it computes the verdicts of
    the recorded run. */
module Detector {
  import opened Bits
  import opened VectorClock
  import opened HappensBefore
  import opened ClockProtocol
  import opened Cells
  import opened ProbeTable
  import opened Shards

  // ---- Clocks, updated in place ----

  method NewClock() returns (c: array<nat>)
    ensures fresh(c) && c.Length == MAX_THREADS && c[..] == Zero()
  {
    c := new nat[MAX_THREADS];
    VcInit(c);
  }

  /** A new thread's clock: what it inherits, and one step of its own. */
  method ChildClock(inherited: array<nat>, tid: Tid) returns (c: array<nat>)
    requires inherited.Length == MAX_THREADS
    ensures fresh(c) && c.Length == MAX_THREADS && c[..] == Tick(inherited[..], tid)
  {
    c := NewClock();
    VcCopy(c, inherited);
    VcTick(c, tid);
  }

  method RootClock(tid: Tid) returns (c: array<nat>)
    ensures fresh(c) && c.Length == MAX_THREADS && c[..] == Tick(Zero(), tid)
  {
    c := NewClock();
    VcTick(c, tid);
  }

  /** The release step, reached by way of creating the object's clock. */
  lemma ReleaseStep(s: State, t: Tid, m: Obj)
    requires t in s.clocks
    ensures var syncs := s.syncs[m := s.SyncOf(m)];
            var after := State(s.next, s.clocks[t := Tick(s.clocks[t], t)], syncs[m := Join(syncs[m], s.clocks[t])]);
            Step(s, Release(t, m)) == after
  {
  }

  class ClockStore {
    var nextTid: nat
    var threads: map<Tid, array<nat>>
    var syncs: map<Obj, array<nat>>

    ghost function Arrays(): set<array<nat>>
      reads this
    {
      threads.Values + syncs.Values
    }

    ghost predicate Valid()
      reads this
    {
      && (forall t: Tid :: t in threads <==> t < nextTid)
      && (forall t :: t in threads ==> threads[t].Length == MAX_THREADS)
      && (forall m :: m in syncs ==> syncs[m].Length == MAX_THREADS)
      && (forall t, u :: t in threads && u in threads && t != u ==> threads[t] != threads[u])
      && (forall m, k :: m in syncs && k in syncs && m != k ==> syncs[m] != syncs[k])
      && (forall t, m :: t in threads && m in syncs ==> threads[t] != syncs[m])
    }

    ghost function Clocks(): map<Tid, Clock>
      requires Valid()
      reads this, threads.Values
    {
      map t | t in threads :: threads[t][..]
    }

    ghost function Syncs(): map<Obj, Clock>
      requires Valid()
      reads this, syncs.Values
    {
      map m | m in syncs :: syncs[m][..]
    }

    ghost function View(): State
      requires Valid()
      reads this, threads.Values, syncs.Values
    {
      State(nextTid, Clocks(), Syncs())
    }

    constructor ()
      ensures Valid() && View() == INIT && Arrays() == {}
    {
      nextTid, threads, syncs := 0, map[], map[];
    }

    /** rz_thread_init: a thread with no known creator. */
    method ThreadInit() returns (tid: Tid)
      requires Valid()
      modifies this
      ensures Valid() && tid == old(nextTid) && fresh(Arrays() - old(Arrays()))
      ensures View() == Step(old(View()), Start(tid))
    {
      tid := nextTid;
      var c := RootClock(tid);
      Register(tid, c);
    }

    /** Hand the next id to a new clock. */
    method Register(tid: Tid, c: array<nat>)
      requires Valid() && tid == nextTid && c.Length == MAX_THREADS && c !in Arrays()
      modifies this
      ensures Valid() && nextTid == tid + 1 && syncs == old(syncs)
      ensures Arrays() == old(Arrays()) + {c}
      ensures Clocks() == old(Clocks())[tid := c[..]] && Syncs() == old(Syncs())
      ensures threads == old(threads)[tid := c]
    {
      threads, nextTid := threads[tid := c], nextTid + 1;
      assert threads.Values == old(threads.Values) + {c} by {
        assert threads[tid] == c;
        assert forall t :: t in old(threads) ==> threads[t] == old(threads[t]);
      }
    }

    /** rz_thread_create: the child inherits the parent's history; the parent moves on. */
    method ThreadCreate(parent: Tid) returns (child: Tid)
      requires Valid() && parent in threads
      modifies this, threads[parent]
      ensures Valid() && child == old(nextTid) && fresh(Arrays() - old(Arrays()))
      ensures View() == Step(old(View()), Create(parent, child))
    {
      child := nextTid;
      ghost var before := Clocks();
      var c := ChildClock(threads[parent], child);
      assert c[..] == Tick(before[parent], child);
      Register(child, c);
      assert Clocks() == before[child := Tick(before[parent], child)];
      TickThread(parent);
    }

    method TickThread(t: Tid)
      requires Valid() && t in threads
      modifies threads[t]
      ensures Valid() && Clocks() == old(Clocks())[t := Tick(old(Clocks())[t], t)] && Syncs() == old(Syncs())
    {
      VcTick(threads[t], t);
    }

    /** rz_thread_join */
    method ThreadJoin(parent: Tid, child: Tid)
      requires Valid() && parent in threads && child in threads
      modifies threads[parent]
      ensures Valid() && View() == Step(old(View()), Joined(parent, child))
    {
      VcJoin(threads[parent], threads[child]);
    }

    /** sync_for_in: the object's clock, created at zero on first use. */
    method SyncFor(m: Obj)
      requires Valid()
      modifies this
      ensures Valid() && m in syncs && threads == old(threads) && nextTid == old(nextTid)
      ensures Clocks() == old(Clocks())
      ensures Syncs() == old(Syncs())[m := old(View()).SyncOf(m)]
      ensures fresh(Arrays() - old(Arrays()))
      ensures m in old(syncs) ==> syncs == old(syncs)
      ensures m !in old(syncs) ==> fresh(syncs[m])
    {
      if m !in syncs {
        var c := NewClock();
        syncs := syncs[m := c];
      }
    }

    /** rz_rt_mutex_lock: import the object's clock. */
    method Lock(t: Tid, m: Obj)
      requires Valid() && t in threads
      modifies this, Arrays()
      ensures Valid() && fresh(Arrays() - old(Arrays()))
      ensures View() == Step(old(View()), Acquire(t, m))
    {
      ghost var s := View();
      SyncFor(m);
      assert View() == State(s.next, s.clocks, s.syncs[m := s.SyncOf(m)]);
      Import(t, m);
    }

    method Import(t: Tid, m: Obj)
      requires Valid() && t in threads && m in syncs
      modifies threads[t]
      ensures Valid() && Clocks() == old(Clocks())[t := Join(old(Clocks())[t], old(Syncs())[m])]
      ensures Syncs() == old(Syncs())
    {
      VcJoin(threads[t], syncs[m]);
    }

    /** rz_rt_mutex_unlock: publish the thread's clock, then move past it. */
    method Unlock(t: Tid, m: Obj)
      requires Valid() && t in threads
      modifies this, Arrays()
      ensures Valid() && fresh(Arrays() - old(Arrays()))
      ensures View() == Step(old(View()), Release(t, m))
    {
      ghost var s := View();
      SyncFor(m);
      assert Clocks() == s.clocks && Syncs() == s.syncs[m := s.SyncOf(m)];
      ReleaseStep(s, t, m);
      PublishAndTick(t, m);
    }

    /** rz_mutex_release */
    method PublishAndTick(t: Tid, m: Obj)
      requires Valid() && t in threads && m in syncs
      modifies threads[t], syncs[m]
      ensures Valid()
      ensures Clocks() == old(Clocks())[t := Tick(old(Clocks())[t], t)]
      ensures Syncs() == old(Syncs())[m := Join(old(Syncs())[m], old(Clocks())[t])]
    {
      Publish(t, m);
      TickThread(t);
    }

    method Publish(t: Tid, m: Obj)
      requires Valid() && t in threads && m in syncs
      modifies syncs[m]
      ensures Valid() && Clocks() == old(Clocks())
      ensures Syncs() == old(Syncs())[m := Join(old(Syncs())[m], old(Clocks())[t])]
    {
      VcJoin(syncs[m], threads[t]);
    }
  }

  // ---- The whole detector ----

  /** The words of [addr, addr + size), as the loop of access_range visits them: a size of
      0 counts as 1 and the end of the range wraps at the word size. */
  function FirstWord(addr: nat): Word {
    addr / 8
  }

  function LastWord(addr: nat, size: nat): Word {
    (addr + (if size == 0 then 1 else size) - 1) % TWO64 / 8
  }

  function WordCount(first: Word, last: Word): nat {
    if first <= last then last - first + 1 else 0
  }

  /** Does some byte of the n bytes from addr lie in word w? */
  ghost predicate Covers(addr: nat, n: nat, w: Word) {
    exists b: nat :: addr <= b < addr + n && b / 8 == w
  }

  /** The loop visits exactly the words that the access covers. When the range wraps around
      the address space it visits the first word alone, if the wrapped end lies in it, and
      else nothing. */
  lemma WordsVisited(addr: nat, size: nat)
    requires addr < TWO64 && size < TWO64
    ensures var n := if size == 0 then 1 else size;
            var count := WordCount(FirstWord(addr), LastWord(addr, size));
            && (addr + n <= TWO64 ==> forall w: Word :: addr / 8 <= w < addr / 8 + count <==> Covers(addr, n, w))
            && (addr + n > TWO64 ==> count == if (addr + n - 1 - TWO64) / 8 == addr / 8 then 1 else 0)
  {
    var n := if size == 0 then 1 else size;
    WrappedEnd(addr + n - 1);
    if addr + n <= TWO64 {
      forall w: Word ensures addr / 8 <= w <= (addr + n - 1) / 8 <==> Covers(addr, n, w) {
        WordCovered(addr, n, w);
      }
    }
  }

  lemma WrappedEnd(a: nat)
    requires a < 2 * TWO64
    ensures a % TWO64 == if a < TWO64 then a else a - TWO64
  {
  }

  lemma WordCovered(addr: nat, n: nat, w: Word)
    requires n > 0
    ensures addr / 8 <= w <= (addr + n - 1) / 8 <==> Covers(addr, n, w)
  {
    if addr / 8 <= w <= (addr + n - 1) / 8 {
      var b := if w == addr / 8 then addr else 8 * w;
      assert addr <= b < addr + n && b / 8 == w;
    }
  }

  /** The recorded accesses of one multi-word access. */
  function RangeEvents(t: Tid, first: Word, n: nat, write: bool): (evs: Trace)
    ensures |evs| == n
  {
    if n == 0 then [] else RangeEvents(t, first, n - 1, write) + [Access(t, first + n - 1, write)]
  }

  lemma {:induction false} RangeEventAt(t: Tid, first: Word, n: nat, write: bool, k: nat)
    requires k < n
    ensures RangeEvents(t, first, n, write)[k] == Access(t, first + k, write)
  {
    if k == n - 1 {
    } else {
      RangeEventAt(t, first, n - 1, write, k);
    }
  }

  /** The marked places. */
  function TrueAt(s: seq<bool>): set<nat> {
    set k: nat | k < |s| && s[k]
  }

  lemma OneMoreTrue(s: seq<bool>, b: bool)
    ensures |TrueAt(s + [b])| == |TrueAt(s)| + if b then 1 else 0
  {
    assert TrueAt(s + [b]) == TrueAt(s) + if b then {|s|} else {};
  }

  /** The clocks are those of the run, and the shadow holds its cells. */
  ghost predicate Consistent(view: State, tables: seq<Table>, route: Word -> nat, tr: Trace) {
    view == After(tr, |tr|) && WellFormed(tr) && AllAgree(tables, route, tr)
  }

  class RaceDetector {
    const clocks: ClockStore
    const shadow: ShardedShadow
    var races: nat
    ghost var trace: Trace

    ghost predicate Valid()
      reads `trace, clocks, clocks.Arrays(), shadow, shadow.Buckets()
    {
      && clocks.Valid() && shadow.Valid() && Apart()
      && Consistent(clocks.View(), shadow.tables, shadow.route, trace)
    }

    /** Clock arrays and bucket arrays never alias. */
    ghost predicate Apart()
      reads clocks
    {
      forall a, b :: a in clocks.Arrays() && b in shadow.Buckets() ==> a as object != b as object
    }

    constructor ()
      ensures Valid() && trace == [] && races == 0
      ensures fresh(clocks) && fresh(clocks.Arrays()) && fresh(shadow) && fresh(shadow.Buckets())
    {
      clocks := new ClockStore();
      shadow := new ShardedShadow();
      races, trace := 0, [];
    }

    /** May `e` be recorded now? */
    ghost predicate Allows(e: Event)
      reads this
    {
      Recordable(trace, e)
    }

    /** The ghost step that goes with each synchronization call. */
    ghost method Note(e: Event)
      requires clocks.Valid() && clocks.View() == Step(After(trace, |trace|), e)
      requires WellFormed(trace) && Allows(e) && !e.Access?
      requires shadow.Valid() && AllAgree(shadow.tables, shadow.route, trace) && Apart()
      modifies `trace
      ensures Valid() && trace == old(trace) + [e]
    {
      ConsistentAfterSync(clocks.View(), shadow.tables, shadow.route, trace, e);
      Extend(e);
    }

    method ThreadInit() returns (tid: Tid)
      requires Valid() && Allows(Start(clocks.nextTid))
      modifies `trace, clocks
      ensures Valid() && tid == old(clocks.nextTid) && trace == old(trace) + [Start(tid)]
      ensures fresh(clocks.Arrays() - old(clocks.Arrays()))
    {
      tid := clocks.ThreadInit();
      Note(Start(tid));
    }

    /** rz_rt_pthread_create. The creation is recorded before the real call; when that fails
        (rc != 0) the new thread's id is not registered, so nobody ever joins it. */
    method ThreadCreate(parent: Tid, rc: int) returns (child: Tid, registered: bool)
      requires Valid() && Allows(Create(parent, clocks.nextTid))
      modifies `trace, clocks, clocks.Arrays()
      ensures registered <==> rc == 0
      ensures Valid() && child == old(clocks.nextTid) && trace == old(trace) + [Create(parent, child)]
      ensures fresh(clocks.Arrays() - old(clocks.Arrays()))
    {
      PrefixState(trace, [Create(parent, clocks.nextTid)], |trace|, 0);
      child := clocks.ThreadCreate(parent);
      Note(Create(parent, child));
      registered := rc == 0;
    }

    /** rz_rt_pthread_join. A real join that fails (rc != 0), or one of a thread that was
        never registered, records nothing. */
    method ThreadJoin(parent: Tid, child: Tid, rc: int, registered: bool)
      requires Valid() && (rc == 0 && registered ==> Allows(Joined(parent, child)))
      modifies `trace, clocks.Arrays()
      ensures Valid()
      ensures trace == old(trace) + if rc == 0 && registered then [Joined(parent, child)] else []
      ensures !(rc == 0 && registered) ==> clocks.View() == old(clocks.View())
    {
      if rc == 0 && registered {
        PrefixState(trace, [Joined(parent, child)], |trace|, 0);
        clocks.ThreadJoin(parent, child);
        Note(Joined(parent, child));
      }
    }

    /** rz_rt_mutex_lock */
    method MutexLock(t: Tid, m: Obj)
      requires Valid() && Allows(Acquire(t, m))
      modifies `trace, clocks, clocks.Arrays()
      ensures Valid() && trace == old(trace) + [Acquire(t, m)]
      ensures fresh(clocks.Arrays() - old(clocks.Arrays()))
    {
      PrefixState(trace, [Acquire(t, m)], |trace|, 0);
      clocks.Lock(t, m);
      Note(Acquire(t, m));
    }

    /** rz_rt_mutex_unlock */
    method MutexUnlock(t: Tid, m: Obj)
      requires Valid() && Allows(Release(t, m))
      modifies `trace, clocks, clocks.Arrays()
      ensures Valid() && trace == old(trace) + [Release(t, m)]
      ensures fresh(clocks.Arrays() - old(clocks.Arrays()))
    {
      PrefixState(trace, [Release(t, m)], |trace|, 0);
      clocks.Unlock(t, m);
      Note(Release(t, m));
    }

    /** One word of an access. A report means a race of the recorded run, with the access
        the returned cell describes; and a word that owns a bucket gets the verdict of the
        ideal map. */
    method AccessWord(t: Tid, word: Word, write: bool) returns (raced: bool, prev: Cell)
      requires Valid() && Runs(trace, t)
      modifies `trace, shadow`tables, shadow.Buckets()
      ensures Valid() && trace == old(trace) + [Access(t, word, write)]
      ensures Judged(old(trace), Access(t, word, write), raced, prev, shadow.Owned())
      ensures OnlyGains(old(shadow.Owned()), shadow.Owned(), word)
      ensures Settled(shadow.tables, shadow.route, word)
    {
      raced, prev := CheckWord(t, word, write);
      Extend(Access(t, word, write));
    }

    /** The ghost step that goes with each access. */
    ghost method Extend(e: Event)
      requires clocks.Valid() && shadow.Valid() && Apart()
      requires Consistent(clocks.View(), shadow.tables, shadow.route, trace + [e])
      modifies `trace
      ensures Valid() && trace == old(trace) + [e]
    {
      trace := trace + [e];
    }

    /** The shadow part of an access, before the run is extended. */
    method CheckWord(t: Tid, word: Word, write: bool) returns (raced: bool, prev: Cell)
      requires Valid() && Runs(trace, t)
      modifies shadow`tables, shadow.Buckets()
      ensures clocks.Valid() && shadow.Valid() && Apart()
      ensures Consistent(clocks.View(), shadow.tables, shadow.route, trace + [Access(t, word, write)])
      ensures Judged(trace, Access(t, word, write), raced, prev, shadow.Owned())
      ensures OnlyGains(old(shadow.Owned()), shadow.Owned(), word)
      ensures Settled(shadow.tables, shadow.route, word)
    {
      ghost var view := clocks.View();
      AccessExtends(trace, Access(t, word, write));
      raced, prev := shadow.Access(trace, t, clocks.threads[t][..], word, write);
      assert clocks.View() == view;
      ConsistentAfterAccess(view, shadow.tables, shadow.route, trace, Access(t, word, write));
      if raced {
        RaceShown(trace, Access(t, word, write), prev);
      }
    }

    /** access_range: check every word of [addr, addr + size) and count the racing ones. The
        report is about the first of them: its address and the access it races with.
        verdicts[k] is the verdict on the k-th word. */
    method AccessRange(t: Tid, addr: nat, size: nat, write: bool)
      returns (hits: nat, hit: Hit, ghost verdicts: seq<bool>)
      requires Valid() && Runs(trace, t) && addr < TWO64 && size < TWO64
      modifies `trace, `races, shadow`tables, shadow.Buckets()
      ensures Valid() && |verdicts| == WordCount(FirstWord(addr), LastWord(addr, size))
      ensures Swept(old(trace), trace, t, addr / 8, write, verdicts, hits, hit, shadow.Owned())
      ensures races == old(races) + hits
      ensures var n := if size == 0 then 1 else size;
              && (addr + n <= TWO64 ==>
                    forall w: Word :: addr / 8 <= w < addr / 8 + |verdicts| <==> Covers(addr, n, w))
              && (addr + n > TWO64 ==> |verdicts| == if (addr + n - 1 - TWO64) / 8 == addr / 8 then 1 else 0)
    {
      var first, last := FirstWord(addr), LastWord(addr, size);
      WordsVisited(addr, size);
      hits, hit, verdicts := SweepWords(t, first, last, write);
      races := races + hits;
    }

    /** The loop of access_range over the words first..last. */
    method SweepWords(t: Tid, first: Word, last: Word, write: bool)
      returns (hits: nat, hit: Hit, ghost verdicts: seq<bool>)
      requires Valid() && Runs(trace, t)
      modifies `trace, shadow`tables, shadow.Buckets()
      ensures Valid() && |verdicts| == WordCount(first, last)
      ensures Swept(old(trace), trace, t, first, write, verdicts, hits, hit, shadow.Owned())
    {
      hits, hit, verdicts := 0, NoHit, [];
      SweptBegins(trace, t, first, write, shadow.Owned());
      var w := first;
      while w <= last
        invariant w == first + |verdicts| && (w <= last + 1 || verdicts == [])
        invariant Valid()
        invariant Swept(old(trace), trace, t, first, write, verdicts, hits, hit, shadow.Owned())
        decreases last + 1 - w
      {
        ghost var tr, owned := trace, shadow.Owned();
        var raced, prev := AccessWord(t, w, write);
        SweptGrows(old(trace), tr, t, w, write, verdicts, hits, hit, first, owned, shadow.Owned(), raced, prev);
        if raced {
          if hit.NoHit? {
            hit := HitAt(w * 8, prev);
          }
          hits := hits + 1;
        }
        verdicts := verdicts + [raced];
        w := w + 1;
      }
    }
  }

  /** What the report of a multi-word access names. */
  datatype Hit = NoHit | HitAt(address: nat, prev: Cell)

  /** hit names the first word with a report and an access that races with the one recorded
      for it; there is none exactly when no word has a report. */
  ghost predicate NamesFirst(tr: Trace, from: nat, first: Word, verdicts: seq<bool>, hit: Hit)
    requires from + |verdicts| <= |tr|
  {
    match hit
    case NoHit => forall k :: 0 <= k < |verdicts| ==> !verdicts[k]
    case HitAt(address, prev) =>
      exists k :: 0 <= k < |verdicts| && verdicts[k] && (forall l :: 0 <= l < k ==> !verdicts[l]) &&
                  address == (first + k) * 8 && Describes(tr, from + k, prev)
  }

  /** prev describes an access that races with event j. */
  ghost predicate Describes(tr: Trace, j: nat, prev: Cell) {
    && j < |tr| && tr[j].Access? && prev.Used?
    && exists i :: RacesWith(tr, i, j) && tr[i] == Access(prev.tid, tr[j].word, prev.write)
  }

  lemma DescribesPrefix(tr: Trace, e: Event, j: nat, prev: Cell)
    requires Describes(tr, j, prev)
    ensures Describes(tr + [e], j, prev)
  {
    var i :| RacesWith(tr, i, j) && tr[i] == Access(prev.tid, tr[j].word, prev.write);
    HBPrefix(tr, [e], i, j);
    assert RacesWith(tr + [e], i, j);
  }

  lemma NamesFirstStep(tr: Trace, e: Event, from: nat, first: Word, verdicts: seq<bool>, hit: Hit, raced: bool,
                       prev: Cell)
    requires from + |verdicts| == |tr| && NamesFirst(tr, from, first, verdicts, hit)
    requires e.Access? && e.word == first + |verdicts| && (raced ==> ShowsRace(tr, e, prev))
    ensures NamesFirst(tr + [e], from, first, verdicts + [raced], NextHit(hit, e.word, raced, prev))
  {
    var verdicts' := verdicts + [raced];
    if hit.HitAt? {
      var k :| 0 <= k < |verdicts| && verdicts[k] && (forall l :: 0 <= l < k ==> !verdicts[l]) &&
               hit.address == (first + k) * 8 && Describes(tr, from + k, hit.prev);
      DescribesPrefix(tr, e, from + k, hit.prev);
      assert verdicts'[k];
    } else if raced {
      assert verdicts'[|verdicts|] && Describes(tr + [e], from + |verdicts|, prev);
    }
  }

  /** The sweep so far: one recorded access, with its verdict, for each word from `first`;
      the number of reports; and the first of them. */
  ghost predicate Swept(start: Trace, tr: Trace, t: Tid, first: Word, write: bool, verdicts: seq<bool>, hits: nat,
                        hit: Hit, owned: iset<Word>)
  {
    && Runs(tr, t) && tr == start + RangeEvents(t, first, |verdicts|, write)
    && AllVerdicts(tr, verdicts, first, |start|, owned)
    && hits == |TrueAt(verdicts)| && NamesFirst(tr, |start|, first, verdicts, hit)
  }

  lemma SweptBegins(tr: Trace, t: Tid, first: Word, write: bool, owned: iset<Word>)
    requires Runs(tr, t)
    ensures Swept(tr, tr, t, first, write, [], 0, NoHit, owned)
  {
    assert TrueAt([]) == {};
    assert tr == tr + RangeEvents(t, first, 0, write);
  }

  lemma SweptGrows(start: Trace, tr: Trace, t: Tid, w: Word, write: bool, verdicts: seq<bool>, hits: nat, hit: Hit,
                   first: Word, owned: iset<Word>, owned': iset<Word>, raced: bool, prev: Cell)
    requires Swept(start, tr, t, first, write, verdicts, hits, hit, owned) && w == first + |verdicts|
    requires OnlyGains(owned, owned', w)
    requires Judged(tr, Access(t, w, write), raced, prev, owned')
    ensures Swept(start, tr + [Access(t, w, write)], t, first, write, verdicts + [raced],
                  if raced then hits + 1 else hits, NextHit(hit, w, raced, prev), owned')
  {
    var e := Access(t, w, write);
    StillRuns(tr, e, t);
    AllVerdictsStep(tr, e, verdicts, first, |start|, owned, owned', raced);
    var evs := RangeEvents(t, first, |verdicts|, write);
    assert start + (evs + [e]) == (start + evs) + [e];
    OneMoreTrue(verdicts, raced);
    NamesFirstStep(tr, e, |start|, first, verdicts, hit, raced, prev);
  }

  /** The first hit stays. */
  function NextHit(hit: Hit, w: Word, raced: bool, prev: Cell): Hit {
    if raced && hit.NoHit? then HitAt(w * 8, prev) else hit
  }

  /** The verdict v on event j, an access to word w: the ideal map's verdict if the word
      owns a bucket, and no report otherwise. */
  ghost predicate VerdictAt(tr: Trace, j: nat, w: Word, owned: bool, v: bool) {
    && j < |tr| && tr[j].Access? && tr[j].word == w
    && (v <==> owned && Reported(tr, j))
  }

  lemma VerdictAtPrefix(tr: Trace, e: Event, j: nat, w: Word, owned: bool, v: bool)
    requires VerdictAt(tr, j, w, owned, v)
    ensures VerdictAt(tr + [e], j, w, owned, v)
  {
    PrefixReported(tr, [e], j);
  }

  /** verdicts[k] is the verdict on event from + k, an access to word first + k. */
  ghost predicate AllVerdicts(tr: Trace, verdicts: seq<bool>, first: Word, from: nat, owned: iset<Word>) {
    forall k :: 0 <= k < |verdicts| ==> VerdictAt(tr, from + k, first + k, first + k in owned, verdicts[k])
  }

  lemma AllVerdictsStep(tr: Trace, e: Event, verdicts: seq<bool>, first: Word, from: nat,
                        owned: iset<Word>, owned': iset<Word>, raced: bool)
    requires AllVerdicts(tr, verdicts, first, from, owned)
    requires e.Access? && from + |verdicts| == |tr| && e.word == first + |verdicts|
    requires OnlyGains(owned, owned', e.word)
    requires raced <==> e.word in owned' && Reported(tr + [e], |tr|)
    ensures AllVerdicts(tr + [e], verdicts + [raced], first, from, owned')
  {
    forall k | 0 <= k < |verdicts| + 1
      ensures VerdictAt(tr + [e], from + k, first + k, first + k in owned', (verdicts + [raced])[k])
    {
      if k < |verdicts| {
        assert VerdictAt(tr, from + k, first + k, first + k in owned, verdicts[k]);
        VerdictAtPrefix(tr, e, from + k, first + k, first + k in owned, verdicts[k]);
      }
    }
  }

  /** The verdict on access e after the run tr: a report exactly when its word owns a bucket
      and the ideal map reports it, and then the returned cell describes a racing access. */
  ghost predicate Judged(tr: Trace, e: Event, raced: bool, prev: Cell, owned: iset<Word>)
    requires e.Access?
  {
    && (raced <==> e.word in owned && Reported(tr + [e], |tr|))
    && (raced ==> ShowsRace(tr, e, prev))
  }

  /** prev describes an earlier access that races with e. */
  ghost predicate ShowsRace(tr: Trace, e: Event, prev: Cell)
    requires e.Access?
  {
    prev.Used? && exists i :: RacesWith(tr + [e], i, |tr|) && (tr + [e])[i] == Access(prev.tid, e.word, prev.write)
  }

  lemma AccessExtends(tr: Trace, e: Event)
    requires WellFormed(tr) && e.Access? && Runs(tr, e.t)
    ensures WellFormed(tr + [e]) && e.t < After(tr, |tr|).next
    ensures After(tr + [e], |tr| + 1) == After(tr, |tr|)
  {
    WhoMayRecord(tr, e);
    PrefixWellFormed(tr, e);
    PrefixState(tr, [e], |tr|, 0);
  }

  lemma ConsistentAfterSync(view: State, tables: seq<Table>, route: Word -> nat, tr: Trace, e: Event)
    requires view == Step(After(tr, |tr|), e) && WellFormed(tr) && Recordable(tr, e) && !e.Access?
    requires AllAgree(tables, route, tr)
    ensures Consistent(view, tables, route, tr + [e])
  {
    PrefixWellFormed(tr, e);
    PrefixState(tr, [e], |tr|, 0);
    AllAgreeAfterSync(tables, route, tr, e);
  }

  lemma ConsistentAfterAccess(view: State, tables: seq<Table>, route: Word -> nat, tr: Trace, e: Event)
    requires view == After(tr, |tr|) && e.Access? && WellFormed(tr + [e]) && AllAgree(tables, route, tr + [e])
    ensures Consistent(view, tables, route, tr + [e])
  {
    PrefixState(tr, [e], |tr|, 0);
  }

  lemma RaceShown(tr: Trace, e: Event, prev: Cell)
    requires e.Access? && WellFormed(tr + [e])
    requires prev in RowAfter(tr, |tr|, e.word)
    requires RaceCheck(prev, e.t, After(tr, |tr|).ClockOf(e.t), e.write)
    ensures ShowsRace(tr, e, prev)
  {
    PrefixState(tr, [e], |tr|, e.word);
    RacingCellIsARace(tr + [e], |tr|, prev);
  }
}
