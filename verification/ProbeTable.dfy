/** The open-addressing table of access cells (`find_bucket`, `rz_race_access_loc`) and
    the finite map it stands for. */
module ProbeTable {
  import opened Bits
  import opened VectorClock
  import opened HappensBefore
  import opened Cells

  const GOLDEN: nat := 0x9E37_79B9_7F4A_7C15

  /** key is the word address plus one; 0 marks an empty bucket. */
  datatype Bucket = Bucket(key: nat, row: Row)

  type Table = seq<Bucket>

  /** Where the probe sequence of a word starts. */
  function Hash(word: Word, n: nat): (h: nat)
    requires n > 0
    ensures h < n
  {
    BitAnd(word * GOLDEN % TWO64, n - 1)
  }

  /** On a power-of-two table the hash is the product's remainder. */
  lemma HashBits(word: Word, k: nat)
    ensures Pow2(k) > 0 && Hash(word, Pow2(k)) == word * 0x9E37_79B9_7F4A_7C15 % TWO64 % Pow2(k)
  {
    AndLowMask(word * GOLDEN % TWO64, k);
  }

  /** The i-th probe position: start + i, wrapping once at the end of the table. */
  function Slot(h: nat, i: nat, n: nat): (b: nat)
    requires h < n && i < n
    ensures b < n
  {
    if h + i < n then h + i else h + i - n
  }

  /** Masking with n - 1 is that wrap-around when n is a power of two. */
  lemma MaskedSlot(h: nat, i: nat, n: nat)
    requires h < n && i < n && IsPow2(n)
    ensures BitAnd(h + i, n - 1) == Slot(h, i, n)
  {
    var k: nat :| n == Pow2(k);
    AndLowMask(h + i, k);
    ModUnique(h + i, n, if h + i < n then 0 else 1, Slot(h, i, n));
  }

  /** Every bucket is some probe position, so n probes see the whole table. */
  lemma ProbesCover(h: nat, b: nat, n: nat) returns (i: nat)
    requires h < n && b < n
    ensures i < n && Slot(h, i, n) == b
  {
    i := if h <= b then b - h else b + n - h;
  }

  // The lemmas below hold for any hash function into the table.

  /** The first i probe positions from h all hold other words. */
  ghost predicate Passes(t: Table, h: nat, word: Word, i: nat)
    requires h < |t| && i <= |t|
  {
    forall d :: 0 <= d < i ==> t[Slot(h, d, |t|)].key != 0 && t[Slot(h, d, |t|)].key != word + 1
  }

  /** The probe of a word from h reaches bucket b after i other words. */
  ghost predicate LandsOn(t: Table, h: nat, word: Word, i: nat, b: nat) {
    h < |t| && i < |t| && Slot(h, i, |t|) == b && Passes(t, h, word, i)
  }

  /** A stored word sits where its probe sequence first found room. */
  ghost predicate Placed(t: Table, h: nat, word: Word, b: nat) {
    exists i: nat :: LandsOn(t, h, word, i, b)
  }

  ghost predicate Sound(t: Table, hash: Word -> nat) {
    && (forall w: Word :: hash(w) < |t|)
    && (forall b: nat :: b < |t| && t[b].key > 0 ==> Placed(t, hash(t[b].key - 1), t[b].key - 1, b))
    && (forall b: nat :: b < |t| && t[b].key == 0 ==> t[b].row == EMPTY_ROW)
  }

  ghost predicate Has(t: Table, word: Word) {
    exists b: nat :: b < |t| && t[b].key == word + 1
  }

  ghost predicate Full(t: Table) {
    forall b: nat :: b < |t| ==> t[b].key != 0
  }

  /** The cells the table holds for a word. */
  ghost function RowOf(t: Table, word: Word): Row {
    if Has(t, word) then (var b: nat :| b < |t| && t[b].key == word + 1; t[b].row) else EMPTY_ROW
  }

  /** No word occupies two buckets. */
  ghost predicate Unique(t: Table) {
    forall a: nat, b: nat :: a < |t| && b < |t| && t[a].key == t[b].key > 0 ==> a == b
  }

  lemma SoundIsUnique(t: Table, hash: Word -> nat)
    requires Sound(t, hash)
    ensures Unique(t)
  {
    forall a: nat, b: nat | a < |t| && b < |t| && t[a].key == t[b].key > 0 ensures a == b {
      var w := t[a].key - 1;
      assert Placed(t, hash(w), w, a) && Placed(t, hash(w), w, b);
      var i: nat :| LandsOn(t, hash(w), w, i, a);
      var j: nat :| LandsOn(t, hash(w), w, j, b);
    }
  }

  lemma RowAt(t: Table, b: nat)
    requires Unique(t) && b < |t| && t[b].key > 0
    ensures Has(t, t[b].key - 1) && RowOf(t, t[b].key - 1) == t[b].row
  {
    var w := t[b].key - 1;
    assert Has(t, w);
    var a: nat :| a < |t| && t[a].key == w + 1 && RowOf(t, w) == t[a].row;
  }

  /** The probe may stop at an empty bucket: the word is nowhere further on. */
  lemma EmptyStops(t: Table, hash: Word -> nat, word: Word, i: nat)
    requires Sound(t, hash) && i < |t| && Passes(t, hash(word), word, i)
    requires t[Slot(hash(word), i, |t|)].key == 0
    ensures !Has(t, word)
  {
    forall b: nat | b < |t| && t[b].key > 0 ensures t[b].key != word + 1 {
      assert Placed(t, hash(t[b].key - 1), t[b].key - 1, b);
      var j: nat :| LandsOn(t, hash(t[b].key - 1), t[b].key - 1, j, b);
    }
  }

  /** A probe that sees every bucket without stopping has met a full table. */
  lemma ExhaustedIsFull(t: Table, h: nat, word: Word)
    requires h < |t| && Passes(t, h, word, |t|)
    ensures Full(t) && !Has(t, word)
  {
    forall b: nat | b < |t| ensures t[b].key != 0 && t[b].key != word + 1 {
      var i := ProbesCover(h, b, |t|);
    }
  }

  /** A write that turns no bucket into word w, or back into an empty one, moves nothing. */
  lemma StaysPlaced(t: Table, t': Table, h: nat, w: Word, b: nat)
    requires |t'| == |t| && Placed(t, h, w, b)
    requires forall a: nat :: a < |t| && t[a].key > 0 ==> t'[a].key == t[a].key
    ensures Placed(t', h, w, b)
  {
    var j: nat :| LandsOn(t, h, w, j, b);
    assert LandsOn(t', h, w, j, b);
  }

  /** Claiming the empty bucket where the probe stopped keeps every word findable. */
  lemma ClaimKeepsSound(t: Table, hash: Word -> nat, word: Word, i: nat)
    requires Sound(t, hash) && i < |t| && Passes(t, hash(word), word, i)
    requires t[Slot(hash(word), i, |t|)].key == 0
    ensures Sound(t[Slot(hash(word), i, |t|) := Bucket(word + 1, EMPTY_ROW)], hash)
  {
    var s := Slot(hash(word), i, |t|);
    var t' := t[s := Bucket(word + 1, EMPTY_ROW)];
    forall b: nat | b < |t'| && t'[b].key > 0 ensures Placed(t', hash(t'[b].key - 1), t'[b].key - 1, b) {
      if b == s {
        assert LandsOn(t', hash(word), word, i, b);
      } else {
        StaysPlaced(t, t', hash(t[b].key - 1), t[b].key - 1, b);
      }
    }
  }

  /** Rewriting a row moves nothing. */
  lemma UpdateKeepsSound(t: Table, hash: Word -> nat, b: nat, row: Row)
    requires Sound(t, hash) && b < |t| && t[b].key > 0
    ensures Sound(t[b := Bucket(t[b].key, row)], hash)
  {
    var t' := t[b := Bucket(t[b].key, row)];
    forall a: nat | a < |t'| && t'[a].key > 0 ensures Placed(t', hash(t'[a].key - 1), t'[a].key - 1, a) {
      StaysPlaced(t, t', hash(t[a].key - 1), t[a].key - 1, a);
    }
  }

  /** The table stands for a map from words to rows: writing a bucket changes one entry. */
  lemma MapAfterWrite(t: Table, b: nat, word: Word, row: Row, w: Word)
    requires b < |t| && (t[b].key == word + 1 || t[b].key == 0)
    requires Unique(t) && Unique(t[b := Bucket(word + 1, row)])
    ensures var t' := t[b := Bucket(word + 1, row)];
            && (Has(t', w) <==> w == word || Has(t, w))
            && RowOf(t', w) == (if w == word then row else RowOf(t, w))
  {
    var t' := t[b := Bucket(word + 1, row)];
    if w == word {
      RowAt(t', b);
    } else if Has(t, w) {
      var a: nat :| a < |t| && t[a].key == w + 1;
      RowAt(t, a);
      assert t'[a] == t[a];
      RowAt(t', a);
    } else {
      forall a: nat | a < |t'| ensures t'[a].key != w + 1 {
        assert t[a].key != w + 1;
      }
    }
  }

  ghost predicate HashedBy(hash: Word -> nat, word: Word, n: nat)
    requires n > 0
  {
    hash(word) == Hash(word, n)
  }

  /** hash is the table's hash function. */
  ghost predicate IsHash(hash: Word -> nat, n: nat)
    requires n > 0
  {
    forall word: Word :: HashedBy(hash, word, n)
  }

  method HashOf(word: Word, n: nat, ghost hash: Word -> nat) returns (h: nat)
    requires n > 0 && IsHash(hash, n)
    ensures h == hash(word) < n
  {
    assert HashedBy(hash, word, n);
    h := BitAnd(word * GOLDEN % TWO64, n - 1);
  }

  method Masked(h: nat, i: nat, n: nat) returns (b: nat)
    requires h < n && i < n && IsPow2(n)
    ensures b == Slot(h, i, n)
  {
    MaskedSlot(h, i, n);
    b := BitAnd(h + i, n - 1);
  }

  class RaceTable {
    const buckets: array<Bucket>
    ghost const hash: Word -> nat

    ghost predicate Valid()
      reads buckets
    {
      && buckets.Length > 0 && IsPow2(buckets.Length) && IsHash(hash, buckets.Length)
      && Sound(buckets[..], hash)
    }

    /** rz_race_state_init_n */
    constructor (n: nat)
      requires IsPow2(n)
      ensures Valid() && fresh(buckets) && buckets.Length == n
      ensures forall w: Word :: !Has(buckets[..], w)
    {
      buckets := new Bucket[n](_ => Bucket(0, EMPTY_ROW));
      hash := (word: Word) => Hash(word, n);
    }

    /** The probe loop of find_bucket: the first bucket that holds the word or is empty,
        or -1 when every bucket holds some other word. */
    method Probe(word: Word) returns (r: int)
      requires Valid()
      ensures Stops(buckets[..], hash, word, r)
    {
      ghost var t := buckets[..];
      var n := buckets.Length;
      var h := HashOf(word, n, hash);
      r := -1;
      var i := 0;
      while i < n && r < 0
        invariant 0 <= i <= n
        invariant if r < 0 then Passes(t, h, word, i) else Stops(t, hash, word, r)
        decreases n - i, if r < 0 then 1 else 0
      {
        var b := Masked(h, i, n);
        if buckets[b].key == word + 1 {
          r := b;
        } else if buckets[b].key == 0 {
          StopIsClaimable(t, hash, word, i);
          r := b;
        } else {
          i := i + 1;
        }
      }
      if r < 0 {
        ExhaustedIsFull(t, h, word);
      }
    }

    /** find_bucket: the bucket index, or -1 for NULL. A stored word is found again; an
        absent one is found exactly when it may be created and some bucket is empty. */
    method FindBucket(word: Word, create: bool) returns (r: int)
      requires Valid()
      modifies buckets
      ensures Valid()
      ensures -1 <= r < buckets.Length
      ensures Found(old(buckets[..]), buckets[..], word, create, r)
    {
      r := Probe(word);
      if r >= 0 && buckets[r].key == 0 {
        if create {
          ghost var t := buckets[..];
          buckets[r] := Bucket(word + 1, buckets[r].row);
          assert buckets[..] == t[r := Bucket(word + 1, EMPTY_ROW)];
        } else {
          r := -1;
        }
      }
    }

    /** rz_race_access_loc: check the access against the word's cells, then record it.
        A word that cannot get a bucket is skipped in silence. */
    method AccessLoc(tid: Tid, clock: Clock, addr: nat, write: bool) returns (raced: bool, prev: Cell)
      requires Valid()
      modifies buckets
      ensures Valid()
      ensures Accessed(old(buckets[..]), buckets[..], addr / 8, tid, clock, write, raced)
      ensures raced ==> RaceCheck(prev, tid, clock, write) && prev in RowOf(old(buckets[..]), addr / 8)
    {
      ghost var t := buckets[..];
      var word := addr / 8;
      var b := FindBucket(word, true);
      if b < 0 {
        return false, Free;
      }
      ghost var t1 := buckets[..];
      ClaimedMap(t, t1, hash, b, word);
      var row;
      raced, prev, row := CheckAndRecord(buckets[b].row, tid, clock, write);
      buckets[b] := Bucket(buckets[b].key, row);
      UpdatedMap(t1, hash, b, word, row);
      assert buckets[..] == t1[b := Bucket(word + 1, row)];
    }
  }

  /** An empty bucket that the probe of an absent word stops at. */
  ghost predicate Claimable(t: Table, hash: Word -> nat, word: Word, b: nat) {
    b < |t| && t[b].key == 0 && !Has(t, word) && Sound(t[b := Bucket(word + 1, EMPTY_ROW)], hash)
  }

  /** Where the probe of a word ends: at its bucket, at the bucket it may claim, or (-1)
      nowhere because every bucket holds some other word. */
  ghost predicate Stops(t: Table, hash: Word -> nat, word: Word, r: int) {
    if r < 0 then r == -1 && Full(t) && !Has(t, word)
    else r < |t| && (t[r].key == word + 1 || Claimable(t, hash, word, r))
  }

  lemma StopIsClaimable(t: Table, hash: Word -> nat, word: Word, i: nat)
    requires Sound(t, hash) && i < |t| && Passes(t, hash(word), word, i)
    requires t[Slot(hash(word), i, |t|)].key == 0
    ensures Claimable(t, hash, word, Slot(hash(word), i, |t|))
  {
    EmptyStops(t, hash, word, i);
    ClaimKeepsSound(t, hash, word, i);
  }

  /** What find_bucket promises. */
  ghost predicate Found(t: Table, t': Table, word: Word, create: bool, r: int) {
    if Has(t, word) then
      0 <= r < |t| && t' == t && t[r].key == word + 1
    else if create && !Full(t) then
      0 <= r < |t| && t[r].key == 0 && t' == t[r := Bucket(word + 1, EMPTY_ROW)]
    else
      r == -1 && t' == t
  }

  /** Can an access to the word be recorded: has it a bucket, or is one empty? */
  ghost predicate CanStore(t: Table, word: Word) {
    Has(t, word) || !Full(t)
  }

  /** t' is t with word mapped to row, and nothing else different. */
  ghost predicate MapsTo(t: Table, t': Table, word: Word, row: Row) {
    forall w: Word :: (Has(t', w) <==> w == word || Has(t, w)) &&
                      RowOf(t', w) == if w == word then row else RowOf(t, w)
  }

  /** What one access does to the table and reports. */
  ghost predicate Accessed(t: Table, t': Table, word: Word, tid: Tid, clock: Clock, write: bool, raced: bool) {
    if CanStore(t, word) then
      && raced == RowRaces(RowOf(t, word), tid, clock, write)
      && MapsTo(t, t', word, Record(RowOf(t, word), tid, clock, write))
      && (Full(t) ==> Full(t'))
    else
      !raced && t' == t
  }

  lemma ClaimedMap(t: Table, t1: Table, hash: Word -> nat, b: nat, word: Word)
    requires Sound(t, hash) && Sound(t1, hash) && b < |t| == |t1| && t1[b].key == word + 1
    requires if Has(t, word) then t1 == t else t[b].key == 0 && t1 == t[b := Bucket(word + 1, EMPTY_ROW)]
    ensures MapsTo(t, t1, word, RowOf(t, word))
    ensures RowOf(t, word) == t1[b].row
  {
    SoundIsUnique(t, hash);
    SoundIsUnique(t1, hash);
    RowAt(t1, b);
    if !Has(t, word) {
      forall w: Word
        ensures (Has(t1, w) <==> w == word || Has(t, w)) && RowOf(t1, w) == if w == word then EMPTY_ROW else RowOf(t, w)
      {
        MapAfterWrite(t, b, word, EMPTY_ROW, w);
      }
    }
  }

  lemma UpdatedMap(t: Table, hash: Word -> nat, b: nat, word: Word, row: Row)
    requires Sound(t, hash) && b < |t| && t[b].key == word + 1
    ensures Sound(t[b := Bucket(word + 1, row)], hash)
    ensures MapsTo(t, t[b := Bucket(word + 1, row)], word, row)
  {
    UpdateKeepsSound(t, hash, b, row);
    SoundIsUnique(t, hash);
    SoundIsUnique(t[b := Bucket(word + 1, row)], hash);
    var t' := t[b := Bucket(word + 1, row)];
    forall w: Word
      ensures (Has(t', w) <==> w == word || Has(t, w)) && RowOf(t', w) == if w == word then row else RowOf(t, w)
    {
      MapAfterWrite(t, b, word, row, w);
    }
  }
}
