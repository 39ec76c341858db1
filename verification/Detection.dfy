/** What the detector is sure to report: with no more threads than cells on a word,
    nothing is lost, and the verdicts are exact. */
module Detection {
  import opened VectorClock
  import opened HappensBefore
  import opened ClockProtocol
  import opened Cells

  ghost function Touchers(tr: Trace, n: nat, w: Word): set<Tid>
    requires n <= |tr|
  {
    set i | 0 <= i < n && Touches(tr[i], w) :: tr[i].t
  }

  /** Cell c holds the latest epoch of its thread on w, and is marked a write exactly when
      some access of that epoch wrote. */
  ghost predicate Latest(tr: Trace, n: nat, w: Word, c: Cell)
    requires n <= |tr| && c.Used?
  {
    && (forall i :: 0 <= i < n && Touches(tr[i], w) && tr[i].t == c.tid ==> Epoch(tr, i) <= c.epoch)
    && Genuine(tr, n, w, c)
    && (c.write <==> WroteAt(tr, n, w, c.tid, c.epoch))
  }

  ghost predicate WroteAt(tr: Trace, n: nat, w: Word, t: Tid, epoch: nat)
    requires n <= |tr|
  {
    exists i :: 0 <= i < n && tr[i] == Access(t, w, true) && Epoch(tr, i) == epoch
  }

  lemma WroteAtStep(tr: Trace, n: nat, w: Word, t: Tid, epoch: nat)
    requires n < |tr|
    ensures WroteAt(tr, n + 1, w, t, epoch) <==>
            WroteAt(tr, n, w, t, epoch) || (tr[n] == Access(t, w, true) && Epoch(tr, n) == epoch)
  {
    if tr[n] == Access(t, w, true) && Epoch(tr, n) == epoch {
      assert 0 <= n < n + 1;
    }
  }

  ghost predicate HasCell(row: Row, t: Tid) {
    exists k :: 0 <= k < CELLS && Owns(row[k], t)
  }

  ghost predicate Distinct(row: Row) {
    forall a, b :: 0 <= a < b < CELLS && row[a].Used? && row[b].Used? ==> row[a].tid != row[b].tid
  }

  ghost predicate AllLatest(tr: Trace, n: nat, w: Word, row: Row)
    requires n <= |tr|
  {
    forall a :: 0 <= a < CELLS && row[a].Used? ==> row[a].tid in Touchers(tr, n, w) && Latest(tr, n, w, row[a])
  }

  ghost predicate AllPresent(tr: Trace, n: nat, w: Word, row: Row)
    requires n <= |tr|
  {
    forall t :: t in Touchers(tr, n, w) ==> HasCell(row, t)
  }

  ghost predicate Faithful(tr: Trace, n: nat, w: Word, row: Row)
    requires n <= |tr|
  {
    Distinct(row) && AllLatest(tr, n, w, row) && AllPresent(tr, n, w, row)
  }

  lemma EpochsGrow(tr: Trace, i: nat, j: nat)
    requires WellFormed(tr) && i < j < |tr| && tr[i].t == tr[j].t
    ensures Epoch(tr, i) <= Epoch(tr, j)
  {
    if tr[i].t < MAX_THREADS {
      ClocksDecideHappensBefore(tr, i, j);
      assert Edge(tr, i, j);
    }
  }

  lemma TouchersStep(tr: Trace, n: nat, w: Word)
    requires n < |tr|
    ensures Touchers(tr, n + 1, w) == Touchers(tr, n, w) + if Touches(tr[n], w) then {tr[n].t} else {}
  {
  }

  /** Four cells of four other threads leave no room among four touching threads. */
  lemma NoEviction(tr: Trace, n: nat, w: Word, row: Row, t: Tid)
    requires n <= |tr| && Faithful(tr, n, w, row)
    requires forall i :: 0 <= i < CELLS ==> row[i].Used? && row[i].tid != t
    ensures |Touchers(tr, n, w) + {t}| > CELLS
  {
    FiveDistinct(Touchers(tr, n, w) + {t}, row[0].tid, row[1].tid, row[2].tid, row[3].tid, t);
  }

  lemma FiveDistinct(s: set<Tid>, a: Tid, b: Tid, c: Tid, d: Tid, e: Tid)
    requires a in s && b in s && c in s && d in s && e in s
    requires a != b && a != c && a != d && a != e && b != c && b != d && b != e
    requires c != d && c != e && d != e
    ensures |s| >= 5
  {
    var s1 := s - {a};
    var s2 := s1 - {b};
    var s3 := s2 - {c};
    var s4 := s3 - {d};
    assert e in s4 && |s4| == |s| - 4;
  }

  lemma {:induction false} SubsetSize(a: set<Tid>, b: set<Tid>)
    requires a <= b
    ensures |a| <= |b|
  {
    if a == {} {
    } else {
      var x :| x in a;
      SubsetSize(a - {x}, b - {x});
    }
  }

  /** The cell just written is the latest of its thread. */
  lemma MergedIsLatest(tr: Trace, n: nat, w: Word, prior: Cell)
    requires WellFormed(tr) && n < |tr| && Touches(tr[n], w)
    requires prior.Used? ==> Latest(tr, n, w, prior)
    requires !Owns(prior, tr[n].t) ==> tr[n].t !in Touchers(tr, n, w)
    ensures Latest(tr, n + 1, w, Merge(prior, tr[n].t, Epoch(tr, n), tr[n].write))
  {
    var c := Merge(prior, tr[n].t, Epoch(tr, n), tr[n].write);
    forall i | 0 <= i < n && Touches(tr[i], w) && tr[i].t == c.tid
      ensures Epoch(tr, i) <= c.epoch
    {
      EpochsGrow(tr, i, n);
    }
    WroteAtStep(tr, n, w, c.tid, c.epoch);
    if Owns(prior, c.tid) {
      var i :| 0 <= i < n && tr[i] == Access(prior.tid, w, prior.write) && Epoch(tr, i) == prior.epoch;
      assert prior.epoch <= c.epoch;
      if prior.epoch < c.epoch {
        assert !WroteAt(tr, n, w, c.tid, c.epoch);
      }
    }
    GenuineMerge(tr, n, w, prior);
    if c.tid !in Touchers(tr, n, w) {
      assert !WroteAt(tr, n, w, c.tid, c.epoch);
    }
  }

  lemma OtherCellStaysLatest(tr: Trace, n: nat, w: Word, c: Cell)
    requires n < |tr| && c.Used? && Latest(tr, n, w, c)
    requires Touches(tr[n], w) ==> tr[n].t != c.tid
    ensures Latest(tr, n + 1, w, c)
  {
    WroteAtStep(tr, n, w, c.tid, c.epoch);
  }

  /** With at most four touching threads the slot is the thread's own cell or a free one,
      and a thread without a cell is new to the word. */
  lemma SlotIsSafe(tr: Trace, n: nat, w: Word, row: Row)
    requires n < |tr| && Touches(tr[n], w)
    requires Faithful(tr, n, w, row) && |Touchers(tr, n + 1, w)| <= CELLS
    ensures row[SlotFor(row, tr[n].t)].Used? ==> Owns(row[SlotFor(row, tr[n].t)], tr[n].t)
    ensures row[SlotFor(row, tr[n].t)].Free? ==> tr[n].t !in Touchers(tr, n, w)
    ensures forall a :: 0 <= a < CELLS && Owns(row[a], tr[n].t) ==> a == SlotFor(row, tr[n].t)
  {
    var t := tr[n].t;
    var slot := SlotFor(row, t);
    TouchersStep(tr, n, w);
    if !Owns(row[slot], t) {
      if row[slot].Used? {
        NoEviction(tr, n, w, row, t);
      }
      assert !HasCell(row, t);
    }
  }

  lemma RecordKeepsLatest(tr: Trace, n: nat, w: Word, row: Row, a: nat)
    requires WellFormed(tr) && n < |tr| && Touches(tr[n], w) && a < CELLS
    requires Faithful(tr, n, w, row) && |Touchers(tr, n + 1, w)| <= CELLS
    ensures var row' := Record(row, tr[n].t, After(tr, n).ClockOf(tr[n].t), tr[n].write);
            row'[a].Used? ==> row'[a].tid in Touchers(tr, n + 1, w) && Latest(tr, n + 1, w, row'[a])
  {
    SlotIsSafe(tr, n, w, row);
    TouchersStep(tr, n, w);
    var slot := SlotFor(row, tr[n].t);
    if a == slot {
      MergedIsLatest(tr, n, w, row[slot]);
    } else if row[a].Used? {
      OtherCellStaysLatest(tr, n, w, row[a]);
    }
  }

  lemma RecordKeepsPresent(tr: Trace, n: nat, w: Word, row: Row)
    requires n < |tr| && Touches(tr[n], w)
    requires Faithful(tr, n, w, row) && |Touchers(tr, n + 1, w)| <= CELLS
    ensures var row' := Record(row, tr[n].t, After(tr, n).ClockOf(tr[n].t), tr[n].write);
            Distinct(row') && AllPresent(tr, n + 1, w, row')
  {
    var t := tr[n].t;
    var slot := SlotFor(row, t);
    var row' := Record(row, t, After(tr, n).ClockOf(t), tr[n].write);
    SlotIsSafe(tr, n, w, row);
    TouchersStep(tr, n, w);
    forall u | u in Touchers(tr, n + 1, w) ensures HasCell(row', u) {
      if u == t {
        assert Owns(row'[slot], u);
      } else {
        assert HasCell(row, u);
        var k :| 0 <= k < CELLS && Owns(row[k], u);
        assert Owns(row'[k], u);
      }
    }
  }

  lemma FaithfulRecord(tr: Trace, n: nat, w: Word, row: Row)
    requires WellFormed(tr) && n < |tr| && Touches(tr[n], w)
    requires Faithful(tr, n, w, row) && |Touchers(tr, n + 1, w)| <= CELLS
    ensures Faithful(tr, n + 1, w, Record(row, tr[n].t, After(tr, n).ClockOf(tr[n].t), tr[n].write))
  {
    RecordKeepsPresent(tr, n, w, row);
    forall a | 0 <= a < CELLS {
      RecordKeepsLatest(tr, n, w, row, a);
    }
  }

  lemma FaithfulSkip(tr: Trace, n: nat, w: Word, row: Row)
    requires n < |tr| && !Touches(tr[n], w) && Faithful(tr, n, w, row)
    ensures Faithful(tr, n + 1, w, row)
  {
    TouchersStep(tr, n, w);
    forall a | 0 <= a < CELLS && row[a].Used? ensures Latest(tr, n + 1, w, row[a]) {
      OtherCellStaysLatest(tr, n, w, row[a]);
    }
  }

  lemma {:induction false} CellsAreFaithful(tr: Trace, n: nat, w: Word)
    requires WellFormed(tr) && n <= |tr| && |Touchers(tr, n, w)| <= CELLS
    ensures Faithful(tr, n, w, RowAfter(tr, n, w))
  {
    if n == 0 {
    } else {
      TouchersStep(tr, n - 1, w);
      SubsetSize(Touchers(tr, n - 1, w), Touchers(tr, n, w));
      CellsAreFaithful(tr, n - 1, w);
      if Touches(tr[n - 1], w) {
        FaithfulRecord(tr, n - 1, w, RowAfter(tr, n - 1, w));
      } else {
        FaithfulSkip(tr, n - 1, w, RowAfter(tr, n - 1, w));
      }
    }
  }

  /** Is i a latest-epoch access of its thread to this word, among the first j events? */
  ghost predicate AtLatestEpoch(tr: Trace, i: nat, j: nat)
    requires i < j <= |tr| && tr[i].Access?
  {
    forall k :: 0 <= k < j && Touches(tr[k], tr[i].word) && tr[k].t == tr[i].t ==> Epoch(tr, k) <= Epoch(tr, i)
  }

  /** The access a cell stands for, when the cell's thread is u. */
  lemma CellOf(tr: Trace, j: nat, i: nat) returns (k: nat)
    requires WellFormed(tr) && i < j < |tr| && tr[i].Access?
    requires |Touchers(tr, j, tr[i].word)| <= CELLS
    ensures k < CELLS && Owns(RowAfter(tr, j, tr[i].word)[k], tr[i].t)
    ensures Latest(tr, j, tr[i].word, RowAfter(tr, j, tr[i].word)[k])
  {
    CellsAreFaithful(tr, j, tr[i].word);
    assert tr[i].t in Touchers(tr, j, tr[i].word);
    assert HasCell(RowAfter(tr, j, tr[i].word), tr[i].t);
    k :| 0 <= k < CELLS && Owns(RowAfter(tr, j, tr[i].word)[k], tr[i].t);
  }

  /** MAIN RESULT for writes: on a word touched by at most four threads, a write is
      reported exactly when some earlier access by another tracked thread is unordered
      with it. */
  lemma WriteReportedIff(tr: Trace, j: nat)
    requires WellFormed(tr) && j < |tr| && tr[j].Access? && tr[j].write
    requires |Touchers(tr, j, tr[j].word)| <= CELLS
    ensures Reported(tr, j) <==> exists i :: RacesWith(tr, i, j) && tr[i].t < MAX_THREADS
  {
    if Reported(tr, j) {
      var i := ReportedWitness(tr, j);
    }
    if i :| RacesWith(tr, i, j) && tr[i].t < MAX_THREADS {
      var k := CellOf(tr, j, i);
      ClocksDecideHappensBefore(tr, i, j);
      assert RaceCheck(RowAfter(tr, j, tr[j].word)[k], tr[j].t, After(tr, j).ClockOf(tr[j].t), true);
    }
  }

  /** MAIN RESULT for reads: a read is reported exactly when another tracked thread's
      latest-epoch accesses to the word include a write unordered with it. */
  lemma ReadReportedIff(tr: Trace, j: nat)
    requires WellFormed(tr) && j < |tr| && tr[j].Access? && !tr[j].write
    requires |Touchers(tr, j, tr[j].word)| <= CELLS
    ensures Reported(tr, j) <==>
            exists i :: RacesWith(tr, i, j) && tr[i].t < MAX_THREADS && AtLatestEpoch(tr, i, j)
  {
    if Reported(tr, j) {
      var i := ReportedWitness(tr, j);
    }
    if i :| RacesWith(tr, i, j) && tr[i].t < MAX_THREADS && AtLatestEpoch(tr, i, j) {
      var k := CellOf(tr, j, i);
      ClocksDecideHappensBefore(tr, i, j);
      var c := RowAfter(tr, j, tr[j].word)[k];
      CellsAreGenuine(tr, j, tr[j].word, k);
      assert c.epoch == Epoch(tr, i);
      assert tr[i] == Access(c.tid, tr[j].word, true);
      assert RaceCheck(c, tr[j].t, After(tr, j).ClockOf(tr[j].t), false);
    }
  }

  lemma ReportedWitness(tr: Trace, j: nat) returns (i: nat)
    requires WellFormed(tr) && j < |tr| && tr[j].Access? && Reported(tr, j)
    requires |Touchers(tr, j, tr[j].word)| <= CELLS
    ensures RacesWith(tr, i, j) && tr[i].t < MAX_THREADS && AtLatestEpoch(tr, i, j)
  {
    var w := tr[j].word;
    var k :| 0 <= k < CELLS &&
             RaceCheck(RowAfter(tr, j, w)[k], tr[j].t, After(tr, j).ClockOf(tr[j].t), tr[j].write);
    var c := RowAfter(tr, j, w)[k];
    CellsAreGenuine(tr, j, w, k);
    i :| 0 <= i < j && tr[i] == Access(c.tid, w, c.write) && Epoch(tr, i) == c.epoch;
    ClocksDecideHappensBefore(tr, i, j);
    CellsAreFaithful(tr, j, w);
    assert Latest(tr, j, w, c);
  }

  // ---- With any number of threads ----

  /** No access to word w among the events i + 1 .. n - 1. */
  ghost predicate Untouched(tr: Trace, w: Word, i: nat, n: nat)
    requires n <= |tr|
  {
    forall k :: i < k < n ==> !Touches(tr[k], w)
  }

  lemma {:induction false} RowStays(tr: Trace, w: Word, i: nat, n: nat)
    requires i < n <= |tr| && Untouched(tr, w, i, n)
    ensures RowAfter(tr, n, w) == RowAfter(tr, i + 1, w)
    decreases n
  {
    if n == i + 1 {
    } else {
      RowStays(tr, w, i, n - 1);
    }
  }

  /** A cell that holds a racing access of a tracked thread makes the later access a
      reported one. */
  lemma HeldRaceIsReported(tr: Trace, i: nat, j: nat, k: nat)
    requires WellFormed(tr) && RacesWith(tr, i, j) && tr[i].t < MAX_THREADS && k < CELLS
    requires Holds(RowAfter(tr, j, tr[j].word)[k], tr[i].t, Epoch(tr, i), tr[i].write)
    ensures Reported(tr, j)
  {
    ClocksDecideHappensBefore(tr, i, j);
    assert RaceCheck(RowAfter(tr, j, tr[j].word)[k], tr[j].t, After(tr, j).ClockOf(tr[j].t), tr[j].write);
  }

  /** MAIN RESULT for any number of threads: the access just before is never lost. If the
      last access to the word before j is by another tracked thread and races with j, then
      j is reported, whatever was evicted to record it. */
  lemma LastAccessIsRemembered(tr: Trace, i: nat, j: nat)
    requires WellFormed(tr) && RacesWith(tr, i, j) && tr[i].t < MAX_THREADS && Untouched(tr, tr[j].word, i, j)
    ensures Reported(tr, j)
  {
    var w := tr[j].word;
    var k := RecordKeepsAccess(RowAfter(tr, i, w), tr[i].t, After(tr, i).ClockOf(tr[i].t), tr[i].write);
    RowStays(tr, w, i, j);
    HeldRaceIsReported(tr, i, j, k);
  }

  /** Only the first cell is ever taken from its thread. */
  lemma {:induction false} OnlyFirstIsEvicted(tr: Trace, w: Word, m: nat, n: nat, k: nat)
    requires m <= n <= |tr| && 0 < k < CELLS && RowAfter(tr, m, w)[k].Used?
    ensures Owns(RowAfter(tr, n, w)[k], RowAfter(tr, m, w)[k].tid)
    decreases n
  {
    if n == m {
    } else {
      OnlyFirstIsEvicted(tr, w, m, n - 1, k);
      if Touches(tr[n - 1], w) {
        var e := tr[n - 1];
        var slot := RecordKeepsAccess(RowAfter(tr, n - 1, w), e.t, After(tr, n - 1).ClockOf(e.t), e.write);
      }
    }
  }

  /** The latest access of a thread that sits in another cell than the first stays recorded
      until that thread's next access, however many threads follow. */
  lemma {:induction false} SettledAccessStays(tr: Trace, i: nat, n: nat, k: nat)
    requires i < n <= |tr| && tr[i].Access? && 0 < k < CELLS
    requires Holds(RowAfter(tr, i + 1, tr[i].word)[k], tr[i].t, Epoch(tr, i), tr[i].write)
    requires forall l :: i < l < n && Touches(tr[l], tr[i].word) ==> tr[l].t != tr[i].t
    ensures RowAfter(tr, n, tr[i].word)[k] == RowAfter(tr, i + 1, tr[i].word)[k]
    decreases n
  {
    if n == i + 1 {
    } else {
      SettledAccessStays(tr, i, n - 1, k);
      var w, e := tr[i].word, tr[n - 1];
      if Touches(e, w) {
        var slot := RecordKeepsAccess(RowAfter(tr, n - 1, w), e.t, After(tr, n - 1).ClockOf(e.t), e.write);
      }
    }
  }

  /** In any run each thread has at most one cell of a word. */
  lemma {:induction false} OneCellEach(tr: Trace, n: nat, w: Word)
    requires n <= |tr|
    ensures Distinct(RowAfter(tr, n, w))
  {
    if n == 0 {
    } else {
      OneCellEach(tr, n - 1, w);
      if Touches(tr[n - 1], w) {
        var e := tr[n - 1];
        var slot := RecordKeepsAccess(RowAfter(tr, n - 1, w), e.t, After(tr, n - 1).ClockOf(e.t), e.write);
      }
    }
  }

  /** MAIN RESULT for any number of threads: a thread whose cell is not the first is never
      forgotten. Its latest access to the word, if it races with j, makes j a reported one. */
  lemma SettledAccessIsRemembered(tr: Trace, i: nat, j: nat, k: nat)
    requires WellFormed(tr) && RacesWith(tr, i, j) && tr[i].t < MAX_THREADS
    requires 0 < k < CELLS && Owns(RowAfter(tr, i + 1, tr[i].word)[k], tr[i].t)
    requires forall l :: i < l < j && Touches(tr[l], tr[i].word) ==> tr[l].t != tr[i].t
    ensures Reported(tr, j)
  {
    var w, t := tr[i].word, tr[i].t;
    OneCellEach(tr, i + 1, w);
    var own := RecordKeepsAccess(RowAfter(tr, i, w), t, After(tr, i).ClockOf(t), tr[i].write);
    assert own == k;
    SettledAccessStays(tr, i, j, k);
    HeldRaceIsReported(tr, i, j, k);
  }
}
