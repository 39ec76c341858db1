/** The leak report at exit (`report_leaks` in runtime/redzone_rt.c): leaks collapsed by
    allocation site, with nothing lost and nothing counted twice. */
module Leaks {
  import opened Bits
  import opened Shadow
  import opened Heap

  /** One printed line. */
  datatype Line = Line(site: Site, count: nat, bytes: nat)

  /** is_unsuppressed_leak: `quiet` tells which file names a suppression rule matches. */
  predicate IsLeak(b: Block, quiet: string -> bool) {
    !b.freed && !(b.site.At? && quiet(b.site.file))
  }

  /** Total weight of the first n blocks' leaks whose site is in `sites`. */
  ghost function Weigh(blocks: seq<Block>, quiet: string -> bool, n: nat, sites: iset<Site>, w: Block -> nat): nat
    requires n <= |blocks|
  {
    if n == 0 then 0
    else Weigh(blocks, quiet, n - 1, sites, w) +
         if IsLeak(blocks[n - 1], quiet) && blocks[n - 1].site in sites then w(blocks[n - 1]) else 0
  }

  ghost function One(): Block -> nat {
    (b: Block) => 1
  }

  ghost function Bytes(): Block -> nat {
    (b: Block) => b.size
  }

  ghost function AllSites(): iset<Site> {
    iset s: Site | s.NoFile? || s.At?
  }

  /** Is block i the first leak of its site? */
  predicate Leads(blocks: seq<Block>, quiet: string -> bool, i: nat)
    requires i < |blocks|
  {
    IsLeak(blocks[i], quiet) && forall j :: 0 <= j < i && IsLeak(blocks[j], quiet) ==> blocks[j].site != blocks[i].site
  }

  ghost function SiteLine(blocks: seq<Block>, quiet: string -> bool, site: Site): Line {
    Line(site, Weigh(blocks, quiet, |blocks|, iset{site}, One()), Weigh(blocks, quiet, |blocks|, iset{site}, Bytes()))
  }

  /** The lines for the sites first seen among the first n blocks. */
  ghost function LinesFor(blocks: seq<Block>, quiet: string -> bool, n: nat): seq<Line>
    requires n <= |blocks|
  {
    if n == 0 then []
    else LinesFor(blocks, quiet, n - 1) +
         if Leads(blocks, quiet, n - 1) then [SiteLine(blocks, quiet, blocks[n - 1].site)] else []
  }

  /** Without the `done` array: a line per leak. */
  ghost function SingleLines(blocks: seq<Block>, quiet: string -> bool, n: nat): seq<Line>
    requires n <= |blocks|
  {
    if n == 0 then []
    else SingleLines(blocks, quiet, n - 1) +
         if IsLeak(blocks[n - 1], quiet) then [Line(blocks[n - 1].site, 1, blocks[n - 1].size)] else []
  }

  // ---- The report ----

  /** The totals of the header. */
  method CountLeaks(blocks: seq<Block>, quiet: string -> bool) returns (leaked: nat, bytes: nat)
    ensures leaked == Weigh(blocks, quiet, |blocks|, AllSites(), One())
    ensures bytes == Weigh(blocks, quiet, |blocks|, AllSites(), Bytes())
  {
    leaked, bytes := 0, 0;
    for i := 0 to |blocks|
      invariant leaked == Weigh(blocks, quiet, i, AllSites(), One())
      invariant bytes == Weigh(blocks, quiet, i, AllSites(), Bytes())
    {
      if IsLeak(blocks[i], quiet) {
        leaked, bytes := leaked + 1, bytes + blocks[i].size;
      }
    }
  }

  /** done[j] marks exactly the leaks folded into the line of an earlier block below i. */
  ghost predicate Folded(blocks: seq<Block>, quiet: string -> bool, done: seq<bool>, i: nat) {
    && |done| == |blocks|
    && forall j :: 0 <= j < |blocks| ==> (done[j] <==> FoldedAt(blocks, quiet, i, j))
  }

  ghost predicate FoldedAt(blocks: seq<Block>, quiet: string -> bool, i: nat, j: int)
    requires 0 <= j < |blocks|
  {
    IsLeak(blocks[j], quiet) &&
    exists k :: 0 <= k < i && k < j && k < |blocks| && IsLeak(blocks[k], quiet) && blocks[k].site == blocks[j].site
  }

  /** The lines of the report; haveDone tells whether the `done` array could be allocated. */
  method ReportLines(blocks: seq<Block>, quiet: string -> bool, haveDone: bool) returns (lines: seq<Line>)
    ensures lines == if haveDone then LinesFor(blocks, quiet, |blocks|) else SingleLines(blocks, quiet, |blocks|)
  {
    lines := [];
    var done := new bool[|blocks|](_ => false);
    for i := 0 to |blocks|
      invariant fresh(done) && done.Length == |blocks|
      invariant haveDone ==> Folded(blocks, quiet, done[..], i)
      invariant lines == if haveDone then LinesFor(blocks, quiet, i) else SingleLines(blocks, quiet, i)
    {
      if IsLeak(blocks[i], quiet) && !(haveDone && done[i]) {
        var count, bytes := 1, blocks[i].size;
        if haveDone {
          count, bytes := FoldSite(blocks, quiet, done, i);
        }
        lines := lines + [Line(blocks[i].site, count, bytes)];
      }
    }
  }

  /** The inner loop: fold every later leak of block i's site into its line. */
  method FoldSite(blocks: seq<Block>, quiet: string -> bool, done: array<bool>, i: nat) returns (count: nat, bytes: nat)
    requires i < |blocks| && done.Length == |blocks| && Leads(blocks, quiet, i)
    requires Folded(blocks, quiet, done[..], i)
    modifies done
    ensures Folded(blocks, quiet, done[..], i + 1)
    ensures Line(blocks[i].site, count, bytes) == SiteLine(blocks, quiet, blocks[i].site)
  {
    count, bytes := 1, blocks[i].size;
    ghost var site := iset{blocks[i].site};
    NoneBefore(blocks, quiet, i);
    for j := i + 1 to |blocks|
      invariant count == Weigh(blocks, quiet, j, site, One()) && bytes == Weigh(blocks, quiet, j, site, Bytes())
      invariant forall l :: 0 <= l < j ==> (done[l] <==> FoldedAt(blocks, quiet, i + 1, l))
      invariant forall l :: j <= l < |blocks| ==> (done[l] <==> FoldedAt(blocks, quiet, i, l))
    {
      if !done[j] && IsLeak(blocks[j], quiet) {
        if blocks[j].site == blocks[i].site {
          count, bytes := count + 1, bytes + blocks[j].size;
          done[j] := true;
        }
      }
    }
  }

  lemma NoneBefore(blocks: seq<Block>, quiet: string -> bool, i: nat)
    requires i < |blocks| && Leads(blocks, quiet, i)
    ensures Weigh(blocks, quiet, i + 1, iset{blocks[i].site}, One()) == 1
    ensures Weigh(blocks, quiet, i + 1, iset{blocks[i].site}, Bytes()) == blocks[i].size
  {
    NoneOfSite(blocks, quiet, i, i, One());
    NoneOfSite(blocks, quiet, i, i, Bytes());
  }

  lemma {:induction false} NoneOfSite(blocks: seq<Block>, quiet: string -> bool, i: nat, n: nat, w: Block -> nat)
    requires n <= i < |blocks| && Leads(blocks, quiet, i)
    ensures Weigh(blocks, quiet, n, iset{blocks[i].site}, w) == 0
  {
    if n == 0 {
    } else {
      NoneOfSite(blocks, quiet, i, n - 1, w);
    }
  }

  // ---- What the report says ----

  ghost function SumCounts(lines: seq<Line>): nat {
    if lines == [] then 0 else SumCounts(lines[..|lines| - 1]) + lines[|lines| - 1].count
  }

  ghost function SumBytes(lines: seq<Line>): nat {
    if lines == [] then 0 else SumBytes(lines[..|lines| - 1]) + lines[|lines| - 1].bytes
  }

  lemma SumAppend(lines: seq<Line>, l: Line)
    ensures SumCounts(lines + [l]) == SumCounts(lines) + l.count
    ensures SumBytes(lines + [l]) == SumBytes(lines) + l.bytes
  {
    assert (lines + [l])[..|lines|] == lines;
  }

  /** The sites that have a line among the first n blocks. */
  ghost function SitesBefore(blocks: seq<Block>, quiet: string -> bool, n: nat): iset<Site>
    requires n <= |blocks|
  {
    iset k | 0 <= k < n && IsLeak(blocks[k], quiet) :: blocks[k].site
  }

  lemma {:induction false} WeighAddSite(blocks: seq<Block>, quiet: string -> bool, n: nat, sites: iset<Site>, s: Site,
                                        w: Block -> nat)
    requires n <= |blocks| && s !in sites
    ensures Weigh(blocks, quiet, n, sites + iset{s}, w) ==
            Weigh(blocks, quiet, n, sites, w) + Weigh(blocks, quiet, n, iset{s}, w)
  {
    if n == 0 {
    } else {
      WeighAddSite(blocks, quiet, n - 1, sites, s, w);
    }
  }

  lemma {:induction false} WeighNone(blocks: seq<Block>, quiet: string -> bool, n: nat, w: Block -> nat)
    requires n <= |blocks|
    ensures Weigh(blocks, quiet, n, iset{}, w) == 0
  {
    if n == 0 {
    } else {
      WeighNone(blocks, quiet, n - 1, w);
    }
  }

  lemma {:induction false} WeighEvery(blocks: seq<Block>, quiet: string -> bool, n: nat, w: Block -> nat)
    requires n <= |blocks|
    ensures Weigh(blocks, quiet, n, SitesBefore(blocks, quiet, |blocks|), w) == Weigh(blocks, quiet, n, AllSites(), w)
  {
    if n == 0 {
    } else {
      WeighEvery(blocks, quiet, n - 1, w);
    }
  }

  lemma SitesStep(blocks: seq<Block>, quiet: string -> bool, n: nat)
    requires n < |blocks|
    ensures SitesBefore(blocks, quiet, n + 1) ==
            SitesBefore(blocks, quiet, n) + if IsLeak(blocks[n], quiet) then iset{blocks[n].site} else iset{}
    ensures Leads(blocks, quiet, n) <==> IsLeak(blocks[n], quiet) && blocks[n].site !in SitesBefore(blocks, quiet, n)
  {
  }

  /** The lines so far carry exactly the leaks of the sites so far. */
  lemma {:induction false} LinesCarry(blocks: seq<Block>, quiet: string -> bool, n: nat)
    requires n <= |blocks|
    ensures var lines, seen := LinesFor(blocks, quiet, n), SitesBefore(blocks, quiet, n);
            && SumCounts(lines) == Weigh(blocks, quiet, |blocks|, seen, One())
            && SumBytes(lines) == Weigh(blocks, quiet, |blocks|, seen, Bytes())
  {
    if n == 0 {
      assert SitesBefore(blocks, quiet, 0) == iset{};
      WeighNone(blocks, quiet, |blocks|, One());
      WeighNone(blocks, quiet, |blocks|, Bytes());
    } else {
      LinesCarry(blocks, quiet, n - 1);
      SitesStep(blocks, quiet, n - 1);
      var seen, s := SitesBefore(blocks, quiet, n - 1), blocks[n - 1].site;
      var lines := LinesFor(blocks, quiet, n - 1);
      if Leads(blocks, quiet, n - 1) {
        WeighAddSite(blocks, quiet, |blocks|, seen, s, One());
        WeighAddSite(blocks, quiet, |blocks|, seen, s, Bytes());
        SumAppend(lines, SiteLine(blocks, quiet, s));
      } else {
        assert SitesBefore(blocks, quiet, n) == seen;
        assert LinesFor(blocks, quiet, n) == lines;
      }
    }
  }

  /** MAIN RESULT: the report conserves. The counts and bytes of the lines add up to the
      totals of the header. */
  lemma ReportConserves(blocks: seq<Block>, quiet: string -> bool)
    ensures SumCounts(LinesFor(blocks, quiet, |blocks|)) == Weigh(blocks, quiet, |blocks|, AllSites(), One())
    ensures SumBytes(LinesFor(blocks, quiet, |blocks|)) == Weigh(blocks, quiet, |blocks|, AllSites(), Bytes())
  {
    LinesCarry(blocks, quiet, |blocks|);
    WeighEvery(blocks, quiet, |blocks|, One());
    WeighEvery(blocks, quiet, |blocks|, Bytes());
  }

  /** So does the fallback report. */
  lemma {:induction false} SingleLinesConserve(blocks: seq<Block>, quiet: string -> bool, n: nat)
    requires n <= |blocks|
    ensures SumCounts(SingleLines(blocks, quiet, n)) == Weigh(blocks, quiet, n, AllSites(), One())
    ensures SumBytes(SingleLines(blocks, quiet, n)) == Weigh(blocks, quiet, n, AllSites(), Bytes())
  {
    if n == 0 {
    } else {
      var m := n - 1;
      SingleLinesConserve(blocks, quiet, m);
      WeighAllStep(blocks, quiet, m, One());
      WeighAllStep(blocks, quiet, m, Bytes());
      SingleLinesStep(blocks, quiet, m);
      assert m + 1 == n;
    }
  }

  /** In the fallback report each leak has its own line, in table order. */
  lemma {:induction false} SingleLineOf(blocks: seq<Block>, quiet: string -> bool, n: nat, i: nat)
    requires i < n <= |blocks| && IsLeak(blocks[i], quiet)
    ensures |SingleLines(blocks, quiet, n)| == Weigh(blocks, quiet, n, AllSites(), One())
    ensures Weigh(blocks, quiet, i, AllSites(), One()) < |SingleLines(blocks, quiet, n)|
    ensures SingleLines(blocks, quiet, n)[Weigh(blocks, quiet, i, AllSites(), One())] ==
            Line(blocks[i].site, 1, blocks[i].size)
    decreases n
  {
    WeighAllStep(blocks, quiet, n - 1, One());
    SingleLinesLength(blocks, quiet, n - 1);
    if n == i + 1 {
    } else {
      SingleLineOf(blocks, quiet, n - 1, i);
    }
  }

  lemma {:induction false} SingleLinesLength(blocks: seq<Block>, quiet: string -> bool, n: nat)
    requires n <= |blocks|
    ensures |SingleLines(blocks, quiet, n)| == Weigh(blocks, quiet, n, AllSites(), One())
  {
    if n == 0 {
    } else {
      SingleLinesLength(blocks, quiet, n - 1);
      WeighAllStep(blocks, quiet, n - 1, One());
    }
  }

  lemma WeighAllStep(blocks: seq<Block>, quiet: string -> bool, n: nat, w: Block -> nat)
    requires n < |blocks|
    ensures Weigh(blocks, quiet, n + 1, AllSites(), w) ==
            Weigh(blocks, quiet, n, AllSites(), w) + if IsLeak(blocks[n], quiet) then w(blocks[n]) else 0
  {
    assert blocks[n].site in AllSites();
  }

  lemma SingleLinesStep(blocks: seq<Block>, quiet: string -> bool, n: nat)
    requires n < |blocks|
    ensures var before, after := SingleLines(blocks, quiet, n), SingleLines(blocks, quiet, n + 1);
            && SumCounts(after) == SumCounts(before) + (if IsLeak(blocks[n], quiet) then 1 else 0)
            && SumBytes(after) == SumBytes(before) + (if IsLeak(blocks[n], quiet) then blocks[n].size else 0)
  {
    var before := SingleLines(blocks, quiet, n);
    if IsLeak(blocks[n], quiet) {
      SumAppend(before, Line(blocks[n].site, 1, blocks[n].size));
    } else {
      assert SingleLines(blocks, quiet, n + 1) == before;
    }
  }

  /** One line per site: a site has a line exactly when it has a leak, and only one. */
  lemma {:induction false} OneLinePerSite(blocks: seq<Block>, quiet: string -> bool, n: nat)
    requires n <= |blocks|
    ensures forall i, j :: 0 <= i < j < |LinesFor(blocks, quiet, n)| ==>
              LinesFor(blocks, quiet, n)[i].site != LinesFor(blocks, quiet, n)[j].site
    ensures forall s: Site :: s in SitesBefore(blocks, quiet, n) <==>
              exists i :: 0 <= i < |LinesFor(blocks, quiet, n)| &&
                          LinesFor(blocks, quiet, n)[i] == SiteLine(blocks, quiet, s)
  {
    if n == 0 {
    } else {
      OneLinePerSite(blocks, quiet, n - 1);
      SitesStep(blocks, quiet, n - 1);
      var before, lines := LinesFor(blocks, quiet, n - 1), LinesFor(blocks, quiet, n);
      var seen := SitesBefore(blocks, quiet, n - 1);
      LinesAreSiteLines(blocks, quiet, n - 1);
      forall s: Site
        ensures s in SitesBefore(blocks, quiet, n) <==>
                exists i :: 0 <= i < |lines| && lines[i] == SiteLine(blocks, quiet, s)
      {
        if i :| 0 <= i < |before| && before[i] == SiteLine(blocks, quiet, s) {
          assert lines[i] == before[i];
        }
        if Leads(blocks, quiet, n - 1) && s == blocks[n - 1].site {
          assert lines[|before|] == SiteLine(blocks, quiet, s);
        }
      }
    }
  }

  lemma {:induction false} LinesAreSiteLines(blocks: seq<Block>, quiet: string -> bool, n: nat)
    requires n <= |blocks|
    ensures forall i :: 0 <= i < |LinesFor(blocks, quiet, n)| ==>
              LinesFor(blocks, quiet, n)[i] == SiteLine(blocks, quiet, LinesFor(blocks, quiet, n)[i].site)
  {
    if n == 0 {
    } else {
      LinesAreSiteLines(blocks, quiet, n - 1);
    }
  }

  // ---- The leaks of a run ----

  /** The call frees address p: a free, or a realloc once its new block is in place. */
  predicate FreesAddress(op: Op, p: nat) {
    (op.FreeAt? || op.Realloc?) && op.p == p
  }

  predicate Adds(op: Op) {
    op.Alloc? || op.Realloc?
  }

  /** The block table once the call has added its block, if it adds one. */
  function WithAdded(blocks: seq<Block>, op: Op): seq<Block> {
    match op
    case Alloc(base, size, k, site) => blocks + [NewBlock(base, size, Pow2(k), site)]
    case Realloc(p, base, size, site) => blocks + [NewBlock(base, size, REDZONE, site)]
    case _ => blocks
  }

  /** Block k is live and the call frees its address. */
  predicate Hits(blocks: seq<Block>, op: Op, k: int) {
    0 <= k < |blocks| && !blocks[k].freed && FreesAddress(op, blocks[k].user)
  }

  /** A step adds its block, then marks the live block whose address it frees, if any. */
  ghost predicate ChangesTable(blocks: seq<Block>, op: Op, blocks': seq<Block>) {
    var added := WithAdded(blocks, op);
    if exists k :: Hits(added, op, k)
    then exists k :: Hits(added, op, k) && blocks' == added[k := added[k].(freed := true)]
    else blocks' == added
  }

  lemma FreeChangesTable(s: State, op: Op, r: FreeResult, s': State)
    requires Inv(s) && (op.FreeAt? || op.Realloc?) && FreeSpec(s, op.p, r, s')
    ensures if exists k :: Hits(s.blocks, op, k)
            then exists k :: Hits(s.blocks, op, k) && s'.blocks == s.blocks[k := s.blocks[k].(freed := true)]
            else s'.blocks == s.blocks
  {
    forall k | Hits(s.blocks, op, k) ensures op.p > 0 {
      assert s.blocks[k].Shaped();
    }
    if op.p > 0 {
      FreeMeans(s, op.p, r, s');
      if r == Done {
        var k: nat :| k < |s.blocks| && s.blocks[k].user == op.p && QuarantinesAt(s, s', k);
        var j :| 0 <= j < |s.blocks| && s.blocks[j].user == op.p && !s.blocks[j].freed;
        assert s.blocks[j].Shaped() && s.blocks[k].Shaped();
        OneExtent(s.blocks, j, k, op.p);
        assert Hits(s.blocks, op, k);
      }
    } else {
      forall k: nat | k < |s.blocks| ensures s.blocks[k].user != 0 {
        assert s.blocks[k].Shaped();
      }
    }
  }

  ghost predicate DistinctUsers(blocks: seq<Block>) {
    forall a, b :: 0 <= a < b < |blocks| ==> blocks[a].user != blocks[b].user
  }

  lemma UsersDiffer(s: State)
    requires Inv(s)
    ensures DistinctUsers(s.blocks)
  {
    forall a, b | 0 <= a < b < |s.blocks| ensures s.blocks[a].user != s.blocks[b].user {
      assert s.blocks[a].Shaped() && s.blocks[b].Shaped();
      OneExtent(s.blocks, a, b, s.blocks[a].user);
    }
  }

  lemma StepChangesTable(s: State, op: Op, s': State)
    requires Inv(s) && Can(s, op) && StepTo(s, op, s')
    ensures ChangesTable(s.blocks, op, s'.blocks) && DistinctUsers(WithAdded(s.blocks, op))
  {
    UsersDiffer(s);
    match op
    case Alloc(base, size, k, site) =>
      NewBlockFits(s, base, size, k, site);
      InvAddBlock(s, NewBlock(base, size, Pow2(k), site));
      UsersDiffer(s');
    case FreeAt(p) =>
      var r :| FreeSpec(s, p, r, s');
      FreeChangesTable(s, op, r, s');
    case Realloc(p, base, size, site) =>
      var b := NewBlock(base, size, REDZONE, site);
      var r :| Reallocated(s, p, b, r, s');
      Pow2Values();
      NewBlockFits(s, base, size, 4, site);
      InvAddBlock(s, b);
      UsersDiffer(AddBlock(s, b));
      InvCarried(s, p, b);
      FreeChangesTable(Carried(s, p, b), op, r, s');
    case _ =>
  }

  lemma RunChangesTable(states: seq<State>, ops: seq<Op>, n: nat)
    requires IsRun(states, ops) && Inv(states[0]) && n < |ops|
    ensures ChangesTable(states[n].blocks, ops[n], states[n + 1].blocks)
    ensures DistinctUsers(WithAdded(states[n].blocks, ops[n]))
  {
    InvAlong(states, ops, n);
    assert StepsAt(states, ops, n);
    StepChangesTable(states[n], ops[n], states[n + 1]);
  }

  /** Has block k's address been freed by a step from i on, before step n? */
  ghost predicate FreedSince(ops: seq<Op>, i: nat, n: nat, user: nat)
    requires n <= |ops|
  {
    exists m :: i <= m < n && FreesAddress(ops[m], user)
  }

  /** The block that step i added, as it is before step n. */
  ghost predicate HasFate(blocks: seq<Block>, k: nat, ops: seq<Op>, i: nat, n: nat)
    requires i < n <= |ops| && Adds(ops[i])
  {
    && k < |blocks| && blocks[k].size == ops[i].size && blocks[k].site == ops[i].site
    && (blocks[k].freed <==> FreedSince(ops, i, n, blocks[k].user))
  }

  lemma FateBegins(blocks: seq<Block>, ops: seq<Op>, i: nat, blocks': seq<Block>)
    requires i < |ops| && Adds(ops[i])
    requires ChangesTable(blocks, ops[i], blocks') && DistinctUsers(WithAdded(blocks, ops[i]))
    ensures HasFate(blocks', |blocks|, ops, i, i + 1)
  {
    FateStep(blocks, ops[i], blocks', |blocks|);
    FreedSinceStep(ops, i, i, blocks'[|blocks|].user);
  }

  lemma FateGoesOn(blocks: seq<Block>, k: nat, ops: seq<Op>, i: nat, n: nat, blocks': seq<Block>)
    requires i < n < |ops| && Adds(ops[i]) && HasFate(blocks, k, ops, i, n)
    requires ChangesTable(blocks, ops[n], blocks') && DistinctUsers(WithAdded(blocks, ops[n]))
    ensures HasFate(blocks', k, ops, i, n + 1)
  {
    FateStep(blocks, ops[n], blocks', k);
    FreedSinceStep(ops, i, n, blocks'[k].user);
  }

  /** What became of the block that step i added. */
  lemma {:induction false} BlockFate(states: seq<State>, ops: seq<Op>, i: nat, n: nat)
    requires IsRun(states, ops) && Inv(states[0]) && i < n <= |ops| && Adds(ops[i])
    ensures HasFate(states[n].blocks, |states[i].blocks|, ops, i, n)
    decreases n
  {
    RunChangesTable(states, ops, n - 1);
    if n == i + 1 {
      FateBegins(states[i].blocks, ops, i, states[n].blocks);
    } else {
      BlockFate(states, ops, i, n - 1);
      FateGoesOn(states[n - 1].blocks, |states[i].blocks|, ops, i, n - 1, states[n].blocks);
    }
  }

  lemma FreedSinceStep(ops: seq<Op>, i: nat, n: nat, user: nat)
    requires i <= n < |ops|
    ensures FreedSince(ops, i, n + 1, user) <==> FreedSince(ops, i, n, user) || FreesAddress(ops[n], user)
  {
    if FreesAddress(ops[n], user) {
      assert i <= n < n + 1;
    }
  }

  /** One step's effect on one block: it is freed if it was, or if the step frees its
      address. */
  lemma FateStep(blocks: seq<Block>, op: Op, blocks': seq<Block>, k: nat)
    requires ChangesTable(blocks, op, blocks') && k < |WithAdded(blocks, op)|
    requires DistinctUsers(WithAdded(blocks, op))
    ensures |blocks'| == |WithAdded(blocks, op)|
    ensures blocks'[k].(freed := false) == WithAdded(blocks, op)[k].(freed := false)
    ensures blocks'[k].freed <==> WithAdded(blocks, op)[k].freed || FreesAddress(op, blocks'[k].user)
  {
    var added := WithAdded(blocks, op);
    if exists j :: Hits(added, op, j) {
      var j :| Hits(added, op, j) && blocks' == added[j := added[j].(freed := true)];
      assert j < k ==> added[j].user != added[k].user;
      assert k < j ==> added[k].user != added[j].user;
    } else if FreesAddress(op, added[k].user) {
      assert !Hits(added, op, k);
    }
  }

  /** MAIN RESULT: what leaks. At the end of a run that starts with an empty table, a block
      counts as leaked exactly when no step since the one that added it frees its address
      and no rule silences its file; and it is reported with the size and the site that were
      asked for. */
  lemma LeaksOfRun(states: seq<State>, ops: seq<Op>, i: nat, quiet: string -> bool)
    requires IsRun(states, ops) && states[0] == EMPTY && i < |ops| && Adds(ops[i])
    ensures var blocks, k := states[|ops|].blocks, |states[i].blocks|;
            && k < |blocks| && blocks[k].size == ops[i].size && blocks[k].site == ops[i].site
            && (IsLeak(blocks[k], quiet) <==>
                  !FreedSince(ops, i, |ops|, blocks[k].user) && !(ops[i].site.At? && quiet(ops[i].site.file)))
  {
    EmptyInv();
    BlockFate(states, ops, i, |ops|);
  }

  /** Every block of the table was added by one of the steps. */
  lemma {:induction false} EveryBlockWasAdded(states: seq<State>, ops: seq<Op>, n: nat, k: nat) returns (i: nat)
    requires IsRun(states, ops) && states[0] == EMPTY && n <= |ops| && k < |states[n].blocks|
    ensures i < n && Adds(ops[i]) && k == |states[i].blocks|
  {
    EmptyInv();
    RunChangesTable(states, ops, n - 1);
    FateLengths(states[n - 1].blocks, ops[n - 1], states[n].blocks);
    if k == |states[n - 1].blocks| {
      i := n - 1;
    } else {
      i := EveryBlockWasAdded(states, ops, n - 1, k);
    }
  }

  lemma FateLengths(blocks: seq<Block>, op: Op, blocks': seq<Block>)
    requires ChangesTable(blocks, op, blocks')
    ensures |blocks'| == |blocks| + if Adds(op) then 1 else 0
  {
    var added := WithAdded(blocks, op);
    if exists j :: Hits(added, op, j) {
      var j :| Hits(added, op, j) && blocks' == added[j := added[j].(freed := true)];
    }
  }

  // ---- The header of a run ----

  function NoRules(): string -> bool {
    (file: string) => false
  }

  /** A block's share of the header: one allocation, or its bytes. */
  ghost function Share(inBytes: bool): Block -> nat {
    if inBytes then Bytes() else One()
  }

  ghost function Header(blocks: seq<Block>, inBytes: bool): nat {
    Weigh(blocks, NoRules(), |blocks|, AllSites(), Share(inBytes))
  }

  /** What the first n steps asked for. */
  function Allocated(ops: seq<Op>, n: nat, inBytes: bool): nat
    requires n <= |ops|
  {
    if n == 0 then 0
    else Allocated(ops, n - 1, inBytes) + if !Adds(ops[n - 1]) then 0 else if inBytes then ops[n - 1].size else 1
  }

  /** What the successful frees among the first n steps gave back. */
  ghost function GivenBack(states: seq<State>, ops: seq<Op>, n: nat, inBytes: bool): nat
    requires n <= |ops| && |states| == |ops| + 1
  {
    if n == 0 then 0
    else GivenBack(states, ops, n - 1, inBytes) +
         FreedShare(WithAdded(states[n - 1].blocks, ops[n - 1]), ops[n - 1], inBytes)
  }

  /** The share of the live block whose address the step frees. */
  ghost function FreedShare(blocks: seq<Block>, op: Op, inBytes: bool): nat {
    if k :| Hits(blocks, op, k) then Share(inBytes)(blocks[k]) else 0
  }

  lemma {:induction false} WeighPrefix(blocks: seq<Block>, more: seq<Block>, n: nat, w: Block -> nat)
    requires n <= |blocks|
    ensures Weigh(blocks + more, NoRules(), n, AllSites(), w) == Weigh(blocks, NoRules(), n, AllSites(), w)
  {
    if n == 0 {
    } else {
      WeighPrefix(blocks, more, n - 1, w);
    }
  }

  lemma HeaderAppend(blocks: seq<Block>, b: Block, inBytes: bool)
    requires !b.freed
    ensures Header(blocks + [b], inBytes) == Header(blocks, inBytes) + Share(inBytes)(b)
  {
    WeighPrefix(blocks, [b], |blocks|, Share(inBytes));
    assert b.site in AllSites();
  }

  lemma {:induction false} WeighFreed(blocks: seq<Block>, k: nat, n: nat, w: Block -> nat)
    requires k < |blocks| && n <= |blocks| && !blocks[k].freed
    ensures Weigh(blocks, NoRules(), n, AllSites(), w) ==
            Weigh(blocks[k := blocks[k].(freed := true)], NoRules(), n, AllSites(), w) +
            if k < n then w(blocks[k]) else 0
  {
    if n == 0 {
    } else {
      WeighFreed(blocks, k, n - 1, w);
      assert blocks[n - 1].site in AllSites();
    }
  }

  lemma OneHit(blocks: seq<Block>, op: Op, j: int, k: int)
    requires DistinctUsers(blocks) && Hits(blocks, op, j) && Hits(blocks, op, k)
    ensures j == k
  {
    assert blocks[j].user == op.p == blocks[k].user;
  }

  lemma HeaderStep(blocks: seq<Block>, op: Op, blocks': seq<Block>, inBytes: bool)
    requires ChangesTable(blocks, op, blocks') && DistinctUsers(WithAdded(blocks, op))
    ensures Header(blocks', inBytes) + FreedShare(WithAdded(blocks, op), op, inBytes) ==
            Header(blocks, inBytes) + if !Adds(op) then 0 else if inBytes then op.size else 1
  {
    var added := WithAdded(blocks, op);
    if Adds(op) {
      HeaderAppend(blocks, added[|blocks|], inBytes);
    }
    if exists k :: Hits(added, op, k) {
      var k :| Hits(added, op, k) && blocks' == added[k := added[k].(freed := true)];
      WeighFreed(added, k, |added|, Share(inBytes));
      forall j | Hits(added, op, j) ensures j == k {
        OneHit(added, op, j, k);
      }
    }
  }

  /** MAIN RESULT: the header of a run. With no rules, the allocations (or bytes) in the
      header are those asked for less those that successful frees gave back. */
  lemma {:induction false} HeaderOfRun(states: seq<State>, ops: seq<Op>, n: nat, inBytes: bool)
    requires IsRun(states, ops) && states[0] == EMPTY && n <= |ops|
    ensures Header(states[n].blocks, inBytes) + GivenBack(states, ops, n, inBytes) == Allocated(ops, n, inBytes)
  {
    if n == 0 {
    } else {
      EmptyInv();
      HeaderOfRun(states, ops, n - 1, inBytes);
      RunChangesTable(states, ops, n - 1);
      HeaderStep(states[n - 1].blocks, ops[n - 1], states[n].blocks, inBytes);
    }
  }
}
