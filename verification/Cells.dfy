/** The few access cells kept for one word: the check and the recording of
    `rz_race_access_loc`, and what the cells of a run say about that run. */
module Cells {
  import opened VectorClock
  import opened HappensBefore
  import opened ClockProtocol

  // RZ_RACE_CELLS
  const CELLS: nat := 4

  /** One recorded access; Free is a cell whose `valid` flag is 0. */
  datatype Cell = Free | Used(tid: Tid, epoch: nat, write: bool)

  type Row = r: seq<Cell> | |r| == CELLS witness [Free, Free, Free, Free]

  const EMPTY_ROW: Row := [Free, Free, Free, Free]

  /** rz_race_check */
  predicate RaceCheck(prev: Cell, tid: Tid, cur: Clock, write: bool) {
    && prev.Used?
    && prev.tid != tid
    && (prev.write || write)
    && prev.tid < MAX_THREADS
    && prev.epoch > At(cur, prev.tid)
  }

  predicate RowRaces(row: Row, tid: Tid, cur: Clock, write: bool) {
    exists i :: 0 <= i < CELLS && RaceCheck(row[i], tid, cur, write)
  }

  predicate Owns(c: Cell, tid: Tid) {
    c.Used? && c.tid == tid
  }

  /** Where an access is recorded: this thread's own cell, else the first free one, else
      cell 0, whose occupant is evicted. */
  ghost predicate IsSlot(row: Row, tid: Tid, slot: nat) {
    && slot < CELLS
    && if exists i :: 0 <= i < CELLS && Owns(row[i], tid) then
         Owns(row[slot], tid) && forall i :: 0 <= i < slot ==> !Owns(row[i], tid)
       else if exists i :: 0 <= i < CELLS && row[i].Free? then
         row[slot].Free? && forall i :: 0 <= i < slot ==> !row[i].Free?
       else slot == 0
  }

  /** First index at or after k whose cell satisfies p, or CELLS. */
  function FirstOwned(row: Row, tid: Tid, k: nat): (i: nat)
    requires k <= CELLS
    ensures k <= i <= CELLS
    ensures i < CELLS ==> Owns(row[i], tid)
    ensures forall j :: k <= j < i ==> !Owns(row[j], tid)
    decreases CELLS - k
  {
    if k == CELLS || Owns(row[k], tid) then k else FirstOwned(row, tid, k + 1)
  }

  function FirstFree(row: Row, k: nat): (i: nat)
    requires k <= CELLS
    ensures k <= i <= CELLS
    ensures i < CELLS ==> row[i].Free?
    ensures forall j :: k <= j < i ==> !row[j].Free?
    decreases CELLS - k
  {
    if k == CELLS || row[k].Free? then k else FirstFree(row, k + 1)
  }

  function SlotFor(row: Row, tid: Tid): (slot: nat)
    ensures IsSlot(row, tid, slot)
  {
    var own := FirstOwned(row, tid, 0);
    var free := FirstFree(row, 0);
    if own < CELLS then own else if free < CELLS then free else 0
  }

  /** The cell written for an access: two accesses of one thread at one epoch combine. */
  function Merge(prior: Cell, tid: Tid, epoch: nat, write: bool): Cell {
    Used(tid, epoch, write || (prior.Used? && prior.tid == tid && prior.epoch == epoch && prior.write))
  }

  function Record(row: Row, tid: Tid, cur: Clock, write: bool): Row {
    var slot := SlotFor(row, tid);
    row[slot := Merge(row[slot], tid, At(cur, tid), write)]
  }

  /** The cell holds this access: its thread, its epoch, and a write if it was one. */
  predicate Holds(c: Cell, tid: Tid, epoch: nat, write: bool) {
    c.Used? && c.tid == tid && c.epoch == epoch && (write ==> c.write)
  }

  /** Whatever the row, an access is recorded, at the cost of at most one other cell: the
      thread's own, a free one, or the first. */
  lemma RecordKeepsAccess(row: Row, tid: Tid, cur: Clock, write: bool) returns (k: nat)
    ensures k < CELLS && Holds(Record(row, tid, cur, write)[k], tid, At(cur, tid), write)
    ensures forall i :: 0 <= i < CELLS && i != k ==> Record(row, tid, cur, write)[i] == row[i]
    ensures Owns(row[k], tid) || row[k].Free? ||
            (k == 0 && forall i :: 0 <= i < CELLS ==> !Owns(row[i], tid) && row[i].Used?)
    ensures !(Owns(row[k], tid) && row[k].epoch == At(cur, tid)) ==> Record(row, tid, cur, write)[k].write == write
    ensures Owns(row[k], tid) && row[k].epoch == At(cur, tid) ==>
              Record(row, tid, cur, write)[k].write == (write || row[k].write)
  {
    k := SlotFor(row, tid);
  }

  // ---- The loops of rz_race_access_loc ----

  /** The check loop: did the access race, and with which recorded cell first? */
  method CheckRow(row: Row, tid: Tid, cur: Clock, write: bool) returns (raced: bool, prev: Cell)
    ensures raced == RowRaces(row, tid, cur, write)
    ensures raced ==> exists i :: 0 <= i < CELLS && prev == row[i] && RaceCheck(prev, tid, cur, write) &&
                                  forall k :: 0 <= k < i ==> !RaceCheck(row[k], tid, cur, write)
  {
    raced, prev := false, Free;
    for i := 0 to CELLS
      invariant raced == exists k :: 0 <= k < i && RaceCheck(row[k], tid, cur, write)
      invariant raced ==> exists k :: 0 <= k < i && prev == row[k] && RaceCheck(prev, tid, cur, write) &&
                                      forall l :: 0 <= l < k ==> !RaceCheck(row[l], tid, cur, write)
    {
      if RaceCheck(row[i], tid, cur, write) {
        if !raced {
          prev := row[i];
        }
        raced := true;
      }
    }
  }

  /** The slot loop: own cell, else first free cell, else cell 0. */
  method ChooseSlot(row: Row, tid: Tid) returns (slot: nat)
    ensures slot == SlotFor(row, tid)
  {
    var own, free := -1, -1;
    var i := 0;
    while i < CELLS && own < 0
      invariant 0 <= i <= CELLS
      invariant -1 <= own < CELLS && -1 <= free < CELLS
      invariant own < 0 ==> FirstOwned(row, tid, 0) == FirstOwned(row, tid, i)
      invariant own >= 0 ==> FirstOwned(row, tid, 0) == own
      invariant own < 0 && free < 0 ==> FirstFree(row, 0) == FirstFree(row, i)
      invariant free >= 0 ==> FirstFree(row, 0) == free
      decreases CELLS - i, if own < 0 then 1 else 0
    {
      if Owns(row[i], tid) {
        own := i;
      } else {
        if row[i].Free? && free < 0 {
          free := i;
        }
        i := i + 1;
      }
    }
    slot := if own >= 0 then own else if free >= 0 then free else 0;
  }

  /** The check and the recording together. */
  method CheckAndRecord(row: Row, tid: Tid, cur: Clock, write: bool) returns (raced: bool, prev: Cell, row': Row)
    ensures raced == RowRaces(row, tid, cur, write)
    ensures raced ==> prev in row && RaceCheck(prev, tid, cur, write)
    ensures row' == Record(row, tid, cur, write)
  {
    raced, prev := CheckRow(row, tid, cur, write);
    var slot := ChooseSlot(row, tid);
    row' := row[slot := Merge(row[slot], tid, At(cur, tid), write)];
  }

  // ---- The cells of a whole run ----

  predicate Touches(e: Event, w: Word) {
    e.Access? && e.word == w
  }

  /** The cells of word w after the first n events, in a table with room for every word. */
  function RowAfter(tr: Trace, n: nat, w: Word): Row
    requires n <= |tr|
  {
    if n == 0 then EMPTY_ROW
    else if Touches(tr[n - 1], w)
    then Record(RowAfter(tr, n - 1, w), tr[n - 1].t, After(tr, n - 1).ClockOf(tr[n - 1].t), tr[n - 1].write)
    else RowAfter(tr, n - 1, w)
  }

  /** The verdict on access j in such a table. */
  predicate Reported(tr: Trace, j: nat)
    requires j < |tr| && tr[j].Access?
  {
    RowRaces(RowAfter(tr, j, tr[j].word), tr[j].t, After(tr, j).ClockOf(tr[j].t), tr[j].write)
  }

  /** Cell c of word w records a real access of the run, at its real epoch. */
  ghost predicate Genuine(tr: Trace, n: nat, w: Word, c: Cell)
    requires n <= |tr|
  {
    c.Used? ==> exists i :: 0 <= i < n && tr[i] == Access(c.tid, w, c.write) && Epoch(tr, i) == c.epoch
  }

  lemma GenuineMerge(tr: Trace, n: nat, w: Word, prior: Cell)
    requires n < |tr| && Touches(tr[n], w) && Genuine(tr, n, w, prior)
    ensures Genuine(tr, n + 1, w, Merge(prior, tr[n].t, Epoch(tr, n), tr[n].write))
  {
    var c := Merge(prior, tr[n].t, Epoch(tr, n), tr[n].write);
    if c.write == tr[n].write {
      assert tr[n] == Access(c.tid, w, c.write);
    }
  }

  lemma {:induction false} CellsAreGenuine(tr: Trace, n: nat, w: Word, k: nat)
    requires n <= |tr| && k < CELLS
    ensures Genuine(tr, n, w, RowAfter(tr, n, w)[k])
  {
    if n == 0 {
    } else {
      CellsAreGenuine(tr, n - 1, w, k);
      if Touches(tr[n - 1], w) && k == SlotFor(RowAfter(tr, n - 1, w), tr[n - 1].t) {
        GenuineMerge(tr, n - 1, w, RowAfter(tr, n - 1, w)[k]);
      }
    }
  }

  /** A cell that fails the check stands for an access that races with the new one. */
  lemma RacingCellIsARace(tr: Trace, j: nat, c: Cell)
    requires WellFormed(tr) && j < |tr| && tr[j].Access? && c in RowAfter(tr, j, tr[j].word)
    requires RaceCheck(c, tr[j].t, After(tr, j).ClockOf(tr[j].t), tr[j].write)
    ensures exists i :: RacesWith(tr, i, j) && tr[i] == Access(c.tid, tr[j].word, c.write)
  {
    var w := tr[j].word;
    var k :| 0 <= k < CELLS && c == RowAfter(tr, j, w)[k];
    CellsAreGenuine(tr, j, w, k);
    var i :| 0 <= i < j && tr[i] == Access(c.tid, w, c.write) && Epoch(tr, i) == c.epoch;
    ClocksDecideHappensBefore(tr, i, j);
    assert RacesWith(tr, i, j);
  }

  /** MAIN RESULT: no false positives. Whatever was merged or evicted, a reported access
      races with an earlier access of the run. */
  lemma ReportedIsARace(tr: Trace, j: nat)
    requires WellFormed(tr) && j < |tr| && tr[j].Access? && Reported(tr, j)
    ensures exists i :: RacesWith(tr, i, j)
  {
    var k :| 0 <= k < CELLS &&
             RaceCheck(RowAfter(tr, j, tr[j].word)[k], tr[j].t, After(tr, j).ClockOf(tr[j].t), tr[j].write);
    RacingCellIsARace(tr, j, RowAfter(tr, j, tr[j].word)[k]);
  }

  /** Clocks and cells of a prefix do not depend on what follows. */
  lemma {:induction false} PrefixState(tr: Trace, more: Trace, n: nat, w: Word)
    requires n <= |tr|
    ensures After(tr + more, n) == After(tr, n)
    ensures RowAfter(tr + more, n, w) == RowAfter(tr, n, w)
  {
    if n == 0 {
    } else {
      PrefixState(tr, more, n - 1, w);
    }
  }

  lemma PrefixReported(tr: Trace, more: Trace, j: nat)
    requires j < |tr| && tr[j].Access?
    ensures Reported(tr + more, j) == Reported(tr, j)
  {
    PrefixState(tr, more, j, tr[j].word);
  }

  lemma PrefixAdmissible(tr: Trace, more: Trace, j: nat)
    requires j < |tr|
    ensures Admissible(tr + more, j) == Admissible(tr, j)
  {
    PrefixState(tr, more, j, 0);
    assert forall k :: 0 <= k < j ==> (tr + more)[k] == tr[k];
  }

  /** MAIN RESULT: what may be recorded next. A running thread may always acquire, release,
      access and join any other thread that has begun; a new thread gets the first id not
      in use. */
  lemma WhoMayRecord(tr: Trace, e: Event)
    requires WellFormed(tr)
    ensures e.Acquire? || e.Release? || e.Access? ==> (Recordable(tr, e) <==> Runs(tr, e.t))
    ensures e.Joined? ==> (Recordable(tr, e) <==> Runs(tr, e.t) && Begun(tr, |tr|, e.child) && e.child != e.t)
    ensures e.Create? ==> (Recordable(tr, e) <==> Runs(tr, e.t) && FirstUnused(tr, e.child))
    ensures e.Start? ==> (Recordable(tr, e) <==> FirstUnused(tr, e.t) && !Ended(tr, |tr|, e.t))
  {
    PrefixState(tr, [e], |tr|, 0);
    EndedPrefix(tr, e, e.t);
    NextIsFirstUnused(tr, |tr|, e.t);
    if e.Joined? || e.Create? {
      NextIsFirstUnused(tr, |tr|, e.child);
    }
    if e.Create? {
      FirstUnusedIsNext(tr, e.child);
    }
    if e.Start? {
      FirstUnusedIsNext(tr, e.t);
    }
  }

  /** The threads below t, and no others, have begun. */
  ghost predicate FirstUnused(tr: Trace, t: Tid) {
    forall u: Tid :: Begun(tr, |tr|, u) <==> u < t
  }

  lemma FirstUnusedIsNext(tr: Trace, t: Tid)
    requires WellFormed(tr)
    ensures FirstUnused(tr, t) <==> t == After(tr, |tr|).next
  {
    forall u: Tid ensures Begun(tr, |tr|, u) <==> u < After(tr, |tr|).next {
      NextIsFirstUnused(tr, |tr|, u);
    }
    if FirstUnused(tr, t) {
      assert Begun(tr, |tr|, t) <==> t < t;
      assert Begun(tr, |tr|, After(tr, |tr|).next) <==> After(tr, |tr|).next < t;
    }
  }

  lemma EndedPrefix(tr: Trace, e: Event, t: Tid)
    ensures Ended(tr + [e], |tr|, t) <==> Ended(tr, |tr|, t)
  {
    assert forall k :: 0 <= k < |tr| ==> (tr + [e])[k] == tr[k];
  }

  /** Only a join ends a thread. */
  lemma StillRuns(tr: Trace, e: Event, t: Tid)
    requires Runs(tr, t) && !(e.Joined? && e.child == t)
    ensures Runs(tr + [e], t)
  {
    EndedPrefix(tr, e, t);
    EndedStep(tr + [e], |tr|, t);
    var k :| 0 <= k < |tr| && Begins(tr[k], t);
    assert Begins((tr + [e])[k], t);
  }

  /** One step of a system that records: nothing, or one event that may come next. */
  ghost predicate RecordsOne(tr: Trace, tr': Trace) {
    tr' == tr || exists e :: tr' == tr + [e] && Recordable(tr, e)
  }

  lemma RecordsOneWellFormed(tr: Trace, tr': Trace)
    requires WellFormed(tr) && RecordsOne(tr, tr')
    ensures WellFormed(tr')
  {
    if tr' != tr {
      var e :| tr' == tr + [e] && Recordable(tr, e);
      PrefixWellFormed(tr, e);
    }
  }

  lemma PrefixWellFormed(tr: Trace, e: Event)
    requires WellFormed(tr) && Recordable(tr, e)
    ensures WellFormed(tr + [e])
  {
    forall j | 0 <= j < |tr| ensures Admissible(tr + [e], j) {
      PrefixAdmissible(tr, [e], j);
    }
  }
}
