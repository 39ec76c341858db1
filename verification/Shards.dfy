/** The shadow split over 64 tables, and its refinement of one unbounded map from words
    to cells. */
module Shards {
  import opened Bits
  import opened VectorClock
  import opened HappensBefore
  import opened ClockProtocol
  import opened Cells
  import opened ProbeTable

  // RZ_NSHARD, and RZ_RACE_BUCKETS / RZ_NSHARD
  const NSHARD: nat := 64
  const SHARD_BUCKETS: nat := 256

  /** shard_of: another bit range of the same product. */
  function ShardOf(word: Word): (k: nat)
    ensures k < NSHARD
  {
    BitAnd(word * GOLDEN % TWO64 / 0x100_0000_0000, NSHARD - 1)
  }

  /** The shard is given by bits 40 to 45 of the product. */
  lemma ShardBits(word: Word)
    ensures ShardOf(word) == word * 0x9E37_79B9_7F4A_7C15 % TWO64 / 0x100_0000_0000 % 64
  {
    Pow2Values();
    assert Pow2(6) == 64;
    AndLowMask(word * GOLDEN % TWO64 / 0x100_0000_0000, 6);
  }

  ghost predicate RoutedBy(route: Word -> nat, word: Word) {
    route(word) == ShardOf(word)
  }

  ghost predicate IsRoute(route: Word -> nat) {
    forall word: Word :: RoutedBy(route, word)
  }

  method Route(word: Word, ghost route: Word -> nat) returns (k: nat)
    requires IsRoute(route)
    ensures k == route(word) < NSHARD
  {
    assert RoutedBy(route, word);
    k := BitAnd(word * GOLDEN % TWO64 / 0x100_0000_0000, NSHARD - 1);
  }

  /** Where the shadow can store a word, it holds that word's row of the ideal map. */
  ghost predicate Agrees(t: Table, tr: Trace, w: Word) {
    CanStore(t, w) ==> RowOf(t, w) == RowAfter(tr, |tr|, w)
  }

  /** Recording a synchronization event changes no row. */
  lemma AgreesAfterSync(t: Table, tr: Trace, e: Event, w: Word)
    requires Agrees(t, tr, w) && !e.Access?
    ensures Agrees(t, tr + [e], w)
  {
    PrefixState(tr, [e], |tr|, w);
  }

  /** Recording an access on its word's shard keeps that shard in agreement. */
  lemma AgreesAfterAccess(t: Table, t': Table, tr: Trace, e: Event, raced: bool, w: Word)
    requires e.Access? && Agrees(t, tr, w)
    requires Agrees(t, tr, e.word)
    requires Accessed(t, t', e.word, e.t, After(tr, |tr|).ClockOf(e.t), e.write, raced)
    ensures Agrees(t', tr + [e], w)
  {
    PrefixState(tr, [e], |tr|, w);
    PrefixState(tr, [e], |tr|, e.word);
  }

  lemma AgreesElsewhere(t: Table, tr: Trace, e: Event, w: Word)
    requires Agrees(t, tr, w) && !Touches(e, w)
    ensures Agrees(t, tr + [e], w)
  {
    PrefixState(tr, [e], |tr|, w);
  }

  /** The verdict of the shard is the ideal verdict for a word that owns a bucket, and
      silence for one that does not. */
  lemma VerdictAgrees(t: Table, t': Table, tr: Trace, e: Event, raced: bool)
    requires e.Access? && Agrees(t, tr, e.word)
    requires Accessed(t, t', e.word, e.t, After(tr, |tr|).ClockOf(e.t), e.write, raced)
    ensures raced <==> Has(t', e.word) && Reported(tr + [e], |tr|)
  {
    PrefixState(tr, [e], |tr|, e.word);
  }

  /** No word loses its bucket, and only one word may gain one. */
  ghost predicate OnlyGains(a: iset<Word>, b: iset<Word>, word: Word) {
    forall w: Word :: (w in a ==> w in b) && (w in b ==> w in a || w == word)
  }

  /** The word owns a bucket, or its shard is full of others. */
  ghost predicate Settled(ts: seq<Table>, route: Word -> nat, word: Word) {
    route(word) < |ts| && (Has(ts[route(word)], word) || Full(ts[route(word)]))
  }

  ghost predicate AllAgree(ts: seq<Table>, route: Word -> nat, tr: Trace) {
    forall w: Word :: route(w) < |ts| && Agrees(ts[route(w)], tr, w)
  }

  ghost function OwnedIn(ts: seq<Table>, route: Word -> nat): iset<Word> {
    iset w: Word | route(w) < |ts| && Has(ts[route(w)], w)
  }

  lemma AllAgreeAfterSync(ts: seq<Table>, route: Word -> nat, tr: Trace, e: Event)
    requires AllAgree(ts, route, tr) && !e.Access?
    ensures AllAgree(ts, route, tr + [e])
  {
    forall w: Word ensures route(w) < |ts| && Agrees(ts[route(w)], tr + [e], w) {
      AgreesAfterSync(ts[route(w)], tr, e, w);
    }
  }

  /** Only the shard of the word changes, and there only the word may gain a bucket. */
  lemma GainsOne(ts: seq<Table>, ts': seq<Table>, route: Word -> nat, word: Word)
    requires |ts'| == |ts| && (forall w: Word :: route(w) < |ts|)
    requires forall i :: 0 <= i < |ts| && i != route(word) ==> ts'[i] == ts[i]
    requires forall w: Word ::
               && (Has(ts[route(word)], w) ==> Has(ts'[route(word)], w))
               && (Has(ts'[route(word)], w) ==> Has(ts[route(word)], w) || w == word)
    ensures OnlyGains(OwnedIn(ts, route), OwnedIn(ts', route), word)
  {
  }

  /** One access refines one access of the ideal map, whatever the other shards hold. */
  lemma AllAgreeAfterAccess(ts: seq<Table>, ts': seq<Table>, route: Word -> nat, tr: Trace, e: Event, raced: bool)
    requires AllAgree(ts, route, tr) && e.Access? && |ts'| == |ts|
    requires forall i :: 0 <= i < |ts| && i != route(e.word) ==> ts'[i] == ts[i]
    requires Accessed(ts[route(e.word)], ts'[route(e.word)], e.word, e.t, After(tr, |tr|).ClockOf(e.t), e.write, raced)
    ensures AllAgree(ts', route, tr + [e])
    ensures OnlyGains(OwnedIn(ts, route), OwnedIn(ts', route), e.word) && Settled(ts', route, e.word)
    ensures raced <==> e.word in OwnedIn(ts', route) && Reported(tr + [e], |tr|)
  {
    var k := route(e.word);
    VerdictAgrees(ts[k], ts'[k], tr, e, raced);
    GainsOne(ts, ts', route, e.word);
    forall w: Word ensures Agrees(ts'[route(w)], tr + [e], w) {
      if route(w) == k {
        AgreesAfterAccess(ts[k], ts'[k], tr, e, raced, w);
      } else {
        AgreesElsewhere(ts[route(w)], tr, e, w);
      }
    }
  }

  class ShardedShadow {
    const shards: seq<RaceTable>
    ghost const route: Word -> nat
    ghost var tables: seq<Table>  // the contents of the shards

    ghost function Buckets(): set<array<Bucket>> {
      set k | 0 <= k < |shards| :: shards[k].buckets
    }

    ghost predicate Valid()
      reads this, Buckets()
    {
      && |shards| == |tables| == NSHARD && IsRoute(route)
      && (forall w: Word :: route(w) < NSHARD)
      && (forall j, k :: 0 <= j < k < NSHARD ==> shards[j].buckets != shards[k].buckets)
      && (forall k :: 0 <= k < NSHARD ==> shards[k].Valid() && shards[k].buckets[..] == tables[k])
    }

    /** The words that own a bucket. */
    ghost function Owned(): iset<Word>
      reads this
    {
      OwnedIn(tables, route)
    }

    constructor ()
      ensures Valid() && fresh(Buckets()) && AllAgree(tables, route, [])
    {
      var s: seq<RaceTable> := [];
      ghost var ts: seq<Table> := [];
      Pow2Square(4, 16);
      for k := 0 to NSHARD
        invariant |s| == |ts| == k
        invariant forall i :: 0 <= i < k ==> fresh(s[i]) && fresh(s[i].buckets)
        invariant forall i :: 0 <= i < k ==> s[i].Valid() && s[i].buckets[..] == ts[i]
        invariant forall i, j :: 0 <= i < j < k ==> s[i].buckets != s[j].buckets
        invariant forall i, w: Word :: 0 <= i < k ==> !Has(ts[i], w) && RowOf(ts[i], w) == EMPTY_ROW
      {
        assert Pow2(8) == SHARD_BUCKETS;
        var t := new RaceTable(SHARD_BUCKETS);
        s, ts := s + [t], ts + [t.buckets[..]];
      }
      shards, tables := s, ts;
      route := ShardOf;
    }

    /** One word of access_range, under its shard's lock. */
    method Access(ghost tr: Trace, tid: Tid, clock: Clock, word: Word, write: bool) returns (raced: bool, prev: Cell)
      requires Valid() && AllAgree(tables, route, tr) && clock == After(tr, |tr|).ClockOf(tid)
      modifies `tables, Buckets()
      ensures Valid() && AllAgree(tables, route, tr + [HappensBefore.Access(tid, word, write)])
      ensures raced <==> word in Owned() && Reported(tr + [HappensBefore.Access(tid, word, write)], |tr|)
      ensures raced ==> RaceCheck(prev, tid, clock, write) && prev in RowAfter(tr, |tr|, word)
      ensures OnlyGains(old(Owned()), Owned(), word)
      ensures Settled(tables, route, word)
    {
      var k := Route(word, route);
      ghost var before := tables;
      raced, prev := UpdateShard(k, tid, clock, word, write);
      assert Agrees(before[k], tr, word);
      AllAgreeAfterAccess(before, tables, route, tr, HappensBefore.Access(tid, word, write), raced);
    }

    method UpdateShard(k: nat, tid: Tid, clock: Clock, word: Word, write: bool) returns (raced: bool, prev: Cell)
      requires Valid() && k < NSHARD
      modifies `tables, Buckets()
      ensures Valid() && forall i :: 0 <= i < NSHARD && i != k ==> tables[i] == old(tables)[i]
      ensures Accessed(old(tables)[k], tables[k], word, tid, clock, write, raced)
      ensures raced ==> RaceCheck(prev, tid, clock, write) && prev in RowOf(old(tables)[k], word)
      ensures raced ==> CanStore(old(tables)[k], word)
    {
      raced, prev := shards[k].AccessLoc(tid, clock, word * 8, write);
      assert word * 8 / 8 == word;
      tables := tables[k := shards[k].buckets[..]];
    }
  }
}
