/** Selective instrumentation (src/RedzonePass.cpp): which access checks the pass drops, and
    exactly when dropping them changes no verdict. */
module Selective {
  import opened Bits
  import opened Shadow
  import opened Frames
  import opened Endpoints
  import H = Heap

  /** A static stack variable. The pass pads it with red zones unless it is empty or wants
      more than red-zone alignment. */
  datatype Variable = Variable(id: nat, size: nat, overAligned: bool) {
    predicate Padded() {
      size > 0 && !overAligned
    }
    /** Where the variable's slot ends, from its start. */
    function SlotEnd(): nat {
      if Padded() then RoundUp8(size) + REDZONE else size
    }
  }

  /** Where a pointer value comes from: nothing known, or a constant offset into a static
      stack variable. */
  datatype Origin = Unknown | InVariable(variable: Variable, offset: int)

  datatype Value = Value(id: nat, origin: Origin)

  /** The instructions of a basic block that matter: loads and stores, and calls. */
  datatype Instr = Access(ptr: Value, size: nat) | Call

  type Block = seq<Instr>

  /** provablySafeAlloca */
  predicate ProvablySafe(v: Value, size: nat) {
    match v.origin
    case Unknown => false
    case InVariable(x, offset) => 0 <= offset <= x.size && x.size - offset >= size
  }

  // ---- The analysis ----

  function Get(checked: map<Value, nat>, v: Value): nat {
    if v in checked then checked[v] else 0
  }

  /** Is an access covered by a larger check of the same pointer? */
  predicate Redundant(checked: map<Value, nat>, v: Value, size: nat) {
    Get(checked, v) >= size && Get(checked, v) != 0
  }

  /** The largest size checked for each pointer since the last call, before instruction n. */
  function CheckedAt(block: Block, n: nat): map<Value, nat>
    requires n <= |block|
  {
    if n == 0 then map[]
    else
      var checked := CheckedAt(block, n - 1);
      match block[n - 1]
      case Call => map[]
      case Access(v, size) =>
        if ProvablySafe(v, size) || Redundant(checked, v, size) || size <= Get(checked, v) then checked
        else checked[v := size]
  }

  predicate Skipped(block: Block, i: nat)
    requires i < |block|
  {
    match block[i]
    case Call => false
    case Access(v, size) => ProvablySafe(v, size) || Redundant(CheckedAt(block, i), v, size)
  }

  /** The two passes of the analysis over a block. */
  method Analyze(block: Block) returns (skip: set<nat>)
    ensures forall i: nat :: i in skip <==> i < |block| && Skipped(block, i)
  {
    skip := {};
    for i := 0 to |block|
      invariant forall j: nat :: j in skip <==> j < i && block[j].Access? && ProvablySafe(block[j].ptr, block[j].size)
    {
      if block[i].Access? && ProvablySafe(block[i].ptr, block[i].size) {
        skip := skip + {i};
      }
    }
    var checked: map<Value, nat> := map[];
    for i := 0 to |block|
      invariant checked == CheckedAt(block, i)
      invariant forall j: nat :: j in skip <==>
                  && j < |block| && block[j].Access?
                  && if j < i then Skipped(block, j) else ProvablySafe(block[j].ptr, block[j].size)
    {
      if block[i].Call? {
        checked := map[];
      } else if i !in skip {
        var v, size := block[i].ptr, block[i].size;
        var maxChecked := Get(checked, v);
        if maxChecked >= size && maxChecked != 0 {
          skip := skip + {i};
        } else if size > maxChecked {
          checked := checked[v := size];
        }
      }
    }
  }

  // ---- What is skipped ----

  ghost predicate NoCall(block: Block, j: nat, i: nat)
    requires i <= |block|
  {
    forall k: nat :: j <= k < i ==> block[k].Access?
  }

  /** The access lies in the variable it goes through. */
  predicate InsideVariable(v: Value, size: nat) {
    v.origin.InVariable? && 0 <= v.origin.offset && v.origin.offset + size <= v.origin.variable.size
  }

  /** A kept access of the same pointer, at least as long, with no call between. */
  ghost predicate CheckedBefore(block: Block, i: nat, j: nat)
    requires i < |block| && block[i].Access?
  {
    && j < i && block[j].Access? && block[j].ptr == block[i].ptr && block[j].size >= block[i].size && block[j].size > 0
    && !Skipped(block, j) && NoCall(block, j, i)
  }

  /** The size recorded for a pointer is that of a kept check. */
  lemma {:induction false} CheckedIsKept(block: Block, n: nat, v: Value) returns (j: nat)
    requires n <= |block| && Get(CheckedAt(block, n), v) > 0
    ensures j < n && block[j] == Access(v, Get(CheckedAt(block, n), v)) && !Skipped(block, j) && NoCall(block, j, n)
  {
    var m := Get(CheckedAt(block, n), v);
    if block[n - 1] == Access(v, m) && Get(CheckedAt(block, n - 1), v) != m {
      j := n - 1;
    } else {
      j := CheckedIsKept(block, n - 1, v);
    }
  }

  /** A kept check stays recorded until the next call. */
  lemma {:induction false} KeptIsChecked(block: Block, j: nat, n: nat)
    requires j < n <= |block| && block[j].Access? && !Skipped(block, j) && NoCall(block, j, n)
    ensures Get(CheckedAt(block, n), block[j].ptr) >= block[j].size
    decreases n
  {
    if n == j + 1 {
    } else {
      KeptIsChecked(block, j, n - 1);
      assert block[n - 1].Access?;
    }
  }

  /** MAIN RESULT: what is skipped. An access loses its check exactly when it lies in its
      own stack variable, or a kept check of the same pointer at least as long comes
      before it with no call between. */
  lemma SkippedIff(block: Block, i: nat)
    requires i < |block|
    ensures Skipped(block, i) <==>
            block[i].Access? &&
            (InsideVariable(block[i].ptr, block[i].size) || exists j: nat :: CheckedBefore(block, i, j))
  {
    if block[i].Access? {
      if Redundant(CheckedAt(block, i), block[i].ptr, block[i].size) {
        var j := CheckedIsKept(block, i, block[i].ptr);
        assert CheckedBefore(block, i, j);
      }
      if j: nat :| CheckedBefore(block, i, j) {
        KeptIsChecked(block, j, i);
      }
    }
  }

  // ---- Executing a block ----

  /** What an address is reckoned from: a pointer of unknown origin, or a variable's start. */
  datatype Anchor = Pointer(v: Value) | Start(variable: Variable)

  function AnchorOf(v: Value): Anchor {
    if v.origin.Unknown? then Pointer(v) else Start(v.origin.variable)
  }

  /** The first and the last byte of an access, from its anchor. */
  function First(a: Instr): int
    requires a.Access?
  {
    if a.ptr.origin.Unknown? then 0 else a.ptr.origin.offset
  }

  function Last(a: Instr): int
    requires a.Access?
  {
    First(a) + a.size - 1
  }

  /** One execution: a place for every anchor, and the runtime's state at each instruction. */
  datatype Execution = Execution(at: Anchor -> nat, states: seq<H.State>)

  /** The place of a variable: padded ones have their frame object drawn, the bytes of an
      over-aligned one are nobody else's. */
  ghost predicate OnStack(home: nat, s: H.State, x: Variable) {
    x.size > 0 ==>
      && home % 16 == 0
      && if x.Padded() then home >= REDZONE && FrameObject(home - REDZONE, x.size) in s.others
         else H.Unused(s, home, home + x.size)
  }

  function Address(x: Execution, a: Instr): int
    requires a.Access?
  {
    x.at(AnchorOf(a.ptr)) + First(a)
  }

  /** An access stays in the tracked space, and its variable is on the stack. */
  ghost predicate LegalAt(x: Execution, block: Block, i: nat)
    requires i < |block| == |x.states|
  {
    block[i].Access? ==>
      var a := AnchorOf(block[i].ptr);
      && 0 <= Address(x, block[i]) && Address(x, block[i]) + block[i].size <= LIMIT
      && (a.Start? ==> OnStack(x.at(a), x.states[i], a.variable))
  }

  predicate Uses(a: Instr, anchor: Anchor) {
    a.Access? && AnchorOf(a.ptr) == anchor
  }

  /** Different variables share no byte. */
  ghost predicate Separate(x: Execution, block: Block) {
    forall a, b :: Used(block, a) && Used(block, b) ==> Disjoint(x, a, b)
  }

  ghost predicate Used(block: Block, a: Anchor) {
    exists i :: 0 <= i < |block| && Uses(block[i], a)
  }

  predicate Disjoint(x: Execution, a: Anchor, b: Anchor) {
    a.Start? && b.Start? && a != b ==>
      x.at(a) + a.variable.size <= x.at(b) || x.at(b) + b.variable.size <= x.at(a)
  }

  /** The states are those of one run, in which only the calls change the shadow. */
  ghost predicate Legal(x: Execution, block: Block) {
    && |x.states| == |block|
    && (block != [] ==> H.Reachable(x.states[0]))
    && (forall i :: 0 <= i < |block| - 1 ==> Continues(x, block, i))
    && (forall i :: 0 <= i < |block| ==> LegalAt(x, block, i))
    && Separate(x, block)
  }

  ghost predicate Continues(x: Execution, block: Block, i: nat)
    requires i + 1 < |block| == |x.states|
  {
    && H.Reaches(x.states[i], x.states[i + 1])
    && (block[i].Access? ==> x.states[i + 1].shadow == x.states[i].shadow)
  }

  /** Would the emitted check of instruction i abort? */
  predicate Fails(x: Execution, block: Block, i: nat)
    requires i < |block| == |x.states|
  {
    && block[i].Access? && 0 <= Address(x, block[i])
    && InlineAborts(x.states[i].shadow, Address(x, block[i]), block[i].size)
  }

  /** With every access checked, execution aborts at instruction k. */
  ghost predicate FullAbortsAt(x: Execution, block: Block, k: nat)
    requires |x.states| == |block|
  {
    k < |block| && Fails(x, block, k) && forall j: nat :: j < k ==> !Fails(x, block, j)
  }

  /** With the skipped checks dropped, execution aborts at instruction k. */
  ghost predicate ThinAbortsAt(x: Execution, block: Block, k: nat)
    requires |x.states| == |block|
  {
    && k < |block| && Fails(x, block, k) && !Skipped(block, k)
    && forall j: nat :: j < k ==> !(Fails(x, block, j) && !Skipped(block, j))
  }

  /** Do the thinned and the fully checked block agree in every legal execution? */
  ghost predicate KeepsVerdicts(block: Block) {
    forall x: Execution, k: nat :: Legal(x, block) ==> (ThinAbortsAt(x, block, k) <==> FullAbortsAt(x, block, k))
  }

  lemma {:induction false} StateInv(x: Execution, block: Block, i: nat)
    requires Legal(x, block) && i < |block|
    ensures H.Inv(x.states[i])
  {
    if i == 0 {
      H.ReachableInv(x.states[0]);
    } else {
      StateInv(x, block, i - 1);
      assert Continues(x, block, i - 1);
      H.ReachesKeeps(x.states[i - 1], x.states[i]);
    }
  }

  /** Is the byte at offset o of access i's anchor poisoned? */
  predicate Poisoned(x: Execution, block: Block, i: nat, o: int)
    requires i < |block| == |x.states| && block[i].Access?
  {
    var b := x.at(AnchorOf(block[i].ptr)) + o;
    0 <= b && BytePoisoned(x.states[i].shadow, b)
  }

  /** A check fails exactly when the first or the last byte is poisoned. */
  lemma FailsMeans(x: Execution, block: Block, i: nat)
    requires Legal(x, block) && i < |block|
    ensures Fails(x, block, i) <==>
            && block[i].Access? && block[i].size > 0
            && (Poisoned(x, block, i, First(block[i])) || Poisoned(x, block, i, Last(block[i])))
  {
    if block[i].Access? && block[i].size > 0 {
      assert LegalAt(x, block, i);
      InlineMatchesRuntime(x.states[i].shadow, Address(x, block[i]), block[i].size);
    }
  }

  // ---- What is known statically ----

  /** A byte of the red zones around a padded variable. */
  predicate InZones(a: Anchor, o: int) {
    a.Start? && a.variable.Padded() && ((o < 0 && 0 <= o + REDZONE) || a.variable.size <= o < a.variable.SlotEnd())
  }

  function RoundUp16(n: nat): (r: nat)
    ensures n <= r < n + 16 && r % 16 == 0
  {
    (n + 15) / 16 * 16
  }

  /** A byte no other object can reach: the slot, and the bytes up to where the next object
      can start. */
  predicate InTerritory(a: Anchor, o: int) {
    && a.Start? && a.variable.size > 0 && o < RoundUp16(a.variable.SlotEnd())
    && 0 <= if a.variable.Padded() then o + REDZONE else o
  }

  predicate Aligned(a: Anchor) {
    a.Start? && a.variable.size > 0
  }

  /** Instruction j keeps its check, and the check bears on access i: same anchor, no call
      between. */
  ghost predicate Kept(block: Block, i: nat, j: nat)
    requires i < |block|
  {
    && j < i && block[i].Access? && block[j].Access? && AnchorOf(block[j].ptr) == AnchorOf(block[i].ptr)
    && block[j].size > 0 && !Skipped(block, j) && NoCall(block, j, i)
  }

  /** Some kept check that bears on access i tests the byte at offset o of its anchor. */
  ghost predicate Tests(block: Block, i: nat, o: int)
    requires i < |block|
  {
    exists j: nat :: Kept(block, i, j) && (o == First(block[j]) || o == Last(block[j]))
  }

  /** A byte that no poisoned run of another object covers, if the kept checks passed. */
  ghost predicate Stops(block: Block, i: nat, o: int)
    requires i < |block| && block[i].Access?
  {
    Tests(block, i, o) || InTerritory(AnchorOf(block[i].ptr), o)
  }

  /** No poisoned run over byte o fits strictly between bytes l and h. Runs are at least 16
      long and end with a chunk, which matters only where alignment is known. */
  predicate NoRoom(a: Anchor, l: int, o: int, h: int) {
    if Aligned(a) then h - h % 8 <= o || h - h % 8 - l <= REDZONE else h - l <= REDZONE
  }

  /** The last byte of access i cannot be poisoned if the kept checks passed. */
  ghost predicate Sheltered(block: Block, i: nat)
    requires i < |block| && block[i].Access?
  {
    var anchor, o := AnchorOf(block[i].ptr), Last(block[i]);
    && !InZones(anchor, o)
    && exists l, h :: Stops(block, i, l) && Stops(block, i, h) && l <= o <= h && NoRoom(anchor, l, o, h)
  }

  /** Instruction j keeps a check that always fails: it tests a red zone of the variable it
      goes through. */
  predicate Doomed(block: Block, j: nat)
    requires j < |block|
  {
    && block[j].Access? && block[j].size > 0 && !Skipped(block, j)
    && (InZones(AnchorOf(block[j].ptr), First(block[j])) || InZones(AnchorOf(block[j].ptr), Last(block[j])))
  }

  /** Execution never comes to instruction i. */
  predicate NeverReached(block: Block, i: nat)
    requires i <= |block|
  {
    exists j: nat :: j < i && Doomed(block, j)
  }

  predicate DroppedAsRedundant(block: Block, i: nat)
    requires i < |block|
  {
    block[i].Access? && block[i].size > 0 && Skipped(block, i) && !ProvablySafe(block[i].ptr, block[i].size)
  }

  /** Every check dropped as redundant is sheltered by kept ones, or never reached. */
  ghost predicate SoundlyThinned(block: Block) {
    forall i: nat :: i < |block| && DroppedAsRedundant(block, i) ==> Sheltered(block, i) || NeverReached(block, i)
  }

  /** A redundant access has a kept check of the same pointer at least as long. */
  lemma LongerCheck(block: Block, i: nat) returns (j: nat)
    requires i < |block| && DroppedAsRedundant(block, i)
    ensures Kept(block, i, j) && block[j].ptr == block[i].ptr && block[j].size >= block[i].size
    ensures Tests(block, i, First(block[i])) && Tests(block, i, Last(block[j]))
  {
    j := CheckedIsKept(block, i, block[i].ptr);
    assert Kept(block, i, j);
    assert First(block[j]) == First(block[i]);
  }

  /** With accesses of at most 17 bytes the analysis is always sound. */
  lemma ShortAccessesAreSound(block: Block)
    requires forall i :: 0 <= i < |block| && block[i].Access? ==> block[i].size <= REDZONE + 1
    ensures SoundlyThinned(block)
  {
    forall i: nat | i < |block| && DroppedAsRedundant(block, i)
      ensures Sheltered(block, i) || NeverReached(block, i)
    {
      var j := LongerCheck(block, i);
      if InZones(AnchorOf(block[i].ptr), Last(block[i])) {
        ZonesAreWide(AnchorOf(block[i].ptr), First(block[i]), Last(block[i]), Last(block[j]));
        assert Doomed(block, j);
      } else {
        assert Stops(block, i, First(block[i])) && Stops(block, i, Last(block[j]));
      }
    }
  }

  /** An access of at most 17 bytes over a byte of a red zone has an end in the zone. */
  lemma ZonesAreWide(a: Anchor, first: int, o: int, last: int)
    requires first <= o <= last <= first + REDZONE && InZones(a, o)
    ensures InZones(a, first) || InZones(a, last)
  {
  }

  // ---- The condition is enough ----

  lemma {:induction false} SameShadow(x: Execution, block: Block, j: nat, n: nat)
    requires Legal(x, block) && j <= n < |block| && NoCall(block, j, n)
    ensures x.states[j].shadow == x.states[n].shadow
    decreases n
  {
    if j == n {
    } else {
      SameShadow(x, block, j, n - 1);
      assert Continues(x, block, n - 1);
    }
  }

  /** No kept check before instruction i has failed. */
  ghost predicate CleanSoFar(x: Execution, block: Block, i: nat)
    requires |x.states| == |block|
  {
    forall j: nat :: j < i && j < |block| ==> !(Fails(x, block, j) && !Skipped(block, j))
  }

  lemma KeptPasses(x: Execution, block: Block, i: nat, j: nat)
    requires Legal(x, block) && i < |block| && CleanSoFar(x, block, i)
    requires j < i && block[j].Access? && block[j].size > 0 && !Skipped(block, j)
    ensures !Poisoned(x, block, j, First(block[j])) && !Poisoned(x, block, j, Last(block[j]))
  {
    FailsMeans(x, block, j);
  }

  lemma TestedIsClean(x: Execution, block: Block, i: nat, o: int)
    requires Legal(x, block) && i < |block| && block[i].Access? && CleanSoFar(x, block, i) && Tests(block, i, o)
    ensures !Poisoned(x, block, i, o)
  {
    var j: nat :| Kept(block, i, j) && (o == First(block[j]) || o == Last(block[j]));
    KeptStillPasses(x, block, i, j);
  }

  lemma KeptStillPasses(x: Execution, block: Block, i: nat, j: nat)
    requires Legal(x, block) && i < |block| && CleanSoFar(x, block, i) && Kept(block, i, j)
    ensures !Poisoned(x, block, i, First(block[j])) && !Poisoned(x, block, i, Last(block[j]))
  {
    KeptPasses(x, block, i, j);
    SameShadow(x, block, j, i);
  }

  lemma ObjectsAligned(s: H.State, o: Object)
    requires H.Inv(s) && o in H.Objects(s)
    ensures o.WellShaped() && o.lo % 16 == 0
  {
    if o !in s.others {
      var k :| 0 <= k < |s.blocks| && o == H.ObjectOf(s.blocks[k]);
      assert s.blocks[k].Shaped();
    }
  }

  lemma FrameEnd(home: nat, x: Variable)
    requires home >= REDZONE && home % 16 == 0 && x.Padded()
    ensures FrameObject(home - REDZONE, x.size).hi == home + x.SlotEnd()
  {
    PaddingAgrees(home - REDZONE, x.size, false);
  }

  /** Only the variable's own object reaches its territory. */
  lemma TerritoryIsKept(s: H.State, x: Variable, home: nat, o: Object, b: nat)
    requires H.Inv(s) && OnStack(home, s, x) && o in H.Objects(s) && o.Holds(b) && InTerritory(Start(x), b - home)
    ensures x.Padded() && home >= REDZONE && o == FrameObject(home - REDZONE, x.size)
  {
    ObjectsAligned(s, o);
    NextStart(home, x.SlotEnd(), o.lo);
    if x.Padded() {
      FrameEnd(home, x);
      var f := FrameObject(home - REDZONE, x.size);
      assert f in H.Objects(s) && (o != f ==> o.Apart(f));
    } else {
      UnusedApart(s, home, x.size, o);
    }
  }

  lemma UnusedApart(s: H.State, home: nat, size: nat, o: Object)
    requires H.BlocksOk(s.blocks) && H.Unused(s, home, home + size) && home % 16 == 0 && o in H.Objects(s)
    ensures o.hi <= home || home + size <= o.lo
  {
    if o !in s.others {
      var k :| 0 <= k < |s.blocks| && o == H.ObjectOf(s.blocks[k]);
      assert s.blocks[k].Shaped();
      H.StaysApart(home, home + size, s.blocks[k].base, s.blocks[k].base + s.blocks[k].total);
    }
  }

  /** Whatever is 16-aligned and not before an end is not before the end rounded up. */
  lemma NextStart(home: nat, end: nat, lo: nat)
    requires home % 16 == 0 && lo % 16 == 0
    ensures home + end <= lo ==> home + RoundUp16(end) <= lo
  {
    var p, q := home / 16, lo / 16;
    assert home == 16 * p && lo == 16 * q;
  }

  lemma ZonesInTerritory(a: Anchor, o: int)
    ensures InZones(a, o) ==> InTerritory(a, o)
    ensures a.Start? && 0 <= o < a.variable.size ==> InTerritory(a, o) && !InZones(a, o)
  {
  }

  /** The bytes a variable's slot says about itself. */
  lemma OwnBytes(s: H.State, x: Variable, home: nat, b: nat)
    requires H.Inv(s) && OnStack(home, s, x) && InTerritory(Start(x), b - home)
    ensures BytePoisoned(s.shadow, b) <==> InZones(Start(x), b - home)
  {
    if InZones(Start(x), b - home) {
      FrameEnd(home, x);
      var f := FrameObject(home - REDZONE, x.size);
      assert f in H.Objects(s) && f.Holds(b) && !f.Usable(b);
    }
    ShadowAgrees(s.shadow, H.Objects(s), b);
    if BytePoisoned(s.shadow, b) {
      var o :| o in H.Objects(s) && o.Holds(b) && !o.Usable(b);
      TerritoryIsKept(s, x, home, o, b);
      FrameZones(home, x, b);
    }
  }

  /** What holds at each access of a legal execution. */
  lemma Standing(x: Execution, block: Block, i: nat)
    requires Legal(x, block) && i < |block| && block[i].Access?
    ensures H.Inv(x.states[i])
    ensures var a := AnchorOf(block[i].ptr);
            && (a.Start? ==> OnStack(x.at(a), x.states[i], a.variable))
            && (Aligned(a) ==> x.at(a) % 16 == 0)
  {
    StateInv(x, block, i);
    assert LegalAt(x, block, i);
  }

  lemma AnchorBytes(s: H.State, a: Anchor, at: nat, o: int)
    requires H.Inv(s) && (a.Start? ==> OnStack(at, s, a.variable)) && InTerritory(a, o)
    ensures 0 <= at + o && (BytePoisoned(s.shadow, at + o) <==> InZones(a, o))
  {
    OwnBytes(s, a.variable, at, at + o);
  }

  lemma TerritoryBytes(x: Execution, block: Block, i: nat, o: int)
    requires Legal(x, block) && i < |block| && block[i].Access? && InTerritory(AnchorOf(block[i].ptr), o)
    ensures Poisoned(x, block, i, o) <==> InZones(AnchorOf(block[i].ptr), o)
  {
    Standing(x, block, i);
    AnchorBytes(x.states[i], AnchorOf(block[i].ptr), x.at(AnchorOf(block[i].ptr)), o);
  }

  lemma SafeAccessPasses(x: Execution, block: Block, i: nat)
    requires Legal(x, block) && i < |block| && block[i].Access? && ProvablySafe(block[i].ptr, block[i].size)
    ensures !Fails(x, block, i)
  {
    FailsMeans(x, block, i);
    if block[i].size > 0 {
      ZonesInTerritory(AnchorOf(block[i].ptr), First(block[i]));
      ZonesInTerritory(AnchorOf(block[i].ptr), Last(block[i]));
      TerritoryBytes(x, block, i, First(block[i]));
      TerritoryBytes(x, block, i, Last(block[i]));
    }
  }

  /** A doomed check fails, so nothing after it is reached. */
  lemma DoomedFails(x: Execution, block: Block, j: nat)
    requires Legal(x, block) && j < |block| && Doomed(block, j)
    ensures Fails(x, block, j)
  {
    FailsMeans(x, block, j);
    var a := AnchorOf(block[j].ptr);
    var o := if InZones(a, First(block[j])) then First(block[j]) else Last(block[j]);
    ZonesInTerritory(a, o);
    TerritoryBytes(x, block, j, o);
  }

  /** A stop lies outside every poisoned run of an object other than the variable's own. */
  lemma StopIsOutside(x: Execution, block: Block, i: nat, obj: Object, lo: nat, hi: nat, o: int)
    requires Legal(x, block) && i < |block| && block[i].Access? && CleanSoFar(x, block, i) && Stops(block, i, o)
    requires var a := AnchorOf(block[i].ptr); Foreign(x.states[i].shadow, a, x.at(a), obj, lo, hi)
    ensures !(lo <= x.at(AnchorOf(block[i].ptr)) + o < hi)
  {
    var b := x.at(AnchorOf(block[i].ptr)) + o;
    if lo <= b < hi {
      assert obj.Holds(b) && BytePoisoned(x.states[i].shadow, b);
      TestedIsClean(x, block, i, o);
    }
  }

  /** The bytes [lo, hi) are poisoned by an object that meets no byte of the anchor's
      territory. */
  ghost predicate Foreign(sh: Shadow, a: Anchor, at: nat, obj: Object, lo: nat, hi: nat) {
    && (forall b: nat :: lo <= b < hi ==> obj.Holds(b) && BytePoisoned(sh, b))
    && (forall b: nat :: obj.Holds(b) ==> !InTerritory(a, b - at))
  }

  /** Without room there is no run. */
  lemma NoRoomNoRun(a: Anchor, at: nat, l: int, o: int, h: int, lo: nat, hi: nat)
    requires Aligned(a) ==> at % 16 == 0
    requires l <= o <= h && NoRoom(a, l, o, h)
    requires lo <= at + o < hi && lo + REDZONE <= hi && hi % 8 == 0
    ensures lo <= at + l || at + h < hi
  {
    if at + l < lo && hi <= at + h && Aligned(a) {
      RoundDownKeeps(at, h, hi);
    }
  }

  lemma RoundDownKeeps(at: nat, h: int, hi: nat)
    requires at % 16 == 0 && hi % 8 == 0 && hi <= at + h
    ensures hi <= at + (h - h % 8)
  {
    var p, q, r := at / 16, hi / 8, h / 8;
    assert at == 16 * p && hi == 8 * q && h == 8 * r + h % 8;
  }

  /** The poisoned run around a byte that is not the variable's own. */
  lemma ForeignRun(s: H.State, a: Anchor, at: nat, o: int) returns (obj: Object, lo: nat, hi: nat)
    requires H.Inv(s) && (a.Start? ==> OnStack(at, s, a.variable))
    requires 0 <= at + o && BytePoisoned(s.shadow, at + o) && !InZones(a, o)
    ensures lo <= at + o < hi && lo + REDZONE <= hi && hi % 8 == 0
    ensures Foreign(s.shadow, a, at, obj, lo, hi)
  {
    obj, lo, hi := PoisonedRunOf(s.shadow, H.Objects(s), at + o);
    forall b: nat | obj.Holds(b) ensures !InTerritory(a, b - at) {
      OffTerritory(s, a, at, o, obj, b);
    }
  }

  /** The object that poisons a byte, and its poisoned bytes around it. */
  lemma PoisonedRunOf(sh: Shadow, objs: set<Object>, b: nat) returns (obj: Object, lo: nat, hi: nat)
    requires Shows(sh, objs) && BytePoisoned(sh, b)
    ensures obj in objs && Poisons(obj, b) && lo <= b < hi && lo + REDZONE <= hi && hi % 8 == 0
    ensures forall c: nat :: lo <= c < hi ==> obj.Holds(c) && BytePoisoned(sh, c)
  {
    ShadowAgrees(sh, objs, b);
    obj :| obj in objs && obj.Holds(b) && !obj.Usable(b);
    lo, hi := OffLimitsRun(obj, b);
    forall c: nat | lo <= c < hi ensures obj.Holds(c) && BytePoisoned(sh, c) {
      ShadowAgrees(sh, objs, c);
    }
  }

  /** An object that poisons a byte outside the variable's zones is not the variable's. */
  lemma OffTerritory(s: H.State, a: Anchor, at: nat, o: int, obj: Object, b: nat)
    requires H.Inv(s) && (a.Start? ==> OnStack(at, s, a.variable)) && obj in H.Objects(s)
    requires 0 <= at + o && Poisons(obj, at + o) && !InZones(a, o) && obj.Holds(b)
    ensures !InTerritory(a, b - at)
  {
    if InTerritory(a, b - at) {
      TerritoryIsKept(s, a.variable, at, obj, b);
      FrameZones(at, a.variable, at + o);
    }
  }

  lemma FrameZones(home: nat, x: Variable, b: nat)
    requires home >= REDZONE && home % 16 == 0 && x.Padded() && Poisons(FrameObject(home - REDZONE, x.size), b)
    ensures InZones(Start(x), b - home)
  {
    FrameEnd(home, x);
  }

  lemma ForeignAt(x: Execution, block: Block, i: nat, o: int) returns (obj: Object, lo: nat, hi: nat)
    requires Legal(x, block) && i < |block| && block[i].Access?
    requires Poisoned(x, block, i, o) && !InZones(AnchorOf(block[i].ptr), o)
    ensures var a := AnchorOf(block[i].ptr);
            && lo <= x.at(a) + o < hi && lo + REDZONE <= hi && hi % 8 == 0
            && Foreign(x.states[i].shadow, a, x.at(a), obj, lo, hi) && (Aligned(a) ==> x.at(a) % 16 == 0)
  {
    Standing(x, block, i);
    obj, lo, hi := ForeignRun(x.states[i], AnchorOf(block[i].ptr), x.at(AnchorOf(block[i].ptr)), o);
  }

  lemma ShelteredIsClean(x: Execution, block: Block, i: nat)
    requires Legal(x, block) && i < |block| && block[i].Access?
    requires Sheltered(block, i) && CleanSoFar(x, block, i)
    ensures !Poisoned(x, block, i, Last(block[i]))
  {
    var a, o := AnchorOf(block[i].ptr), Last(block[i]);
    if Poisoned(x, block, i, o) {
      var obj, lo, hi := ForeignAt(x, block, i, o);
      var l, h :| Stops(block, i, l) && Stops(block, i, h) && l <= o <= h && NoRoom(a, l, o, h);
      StopIsOutside(x, block, i, obj, lo, hi, l);
      StopIsOutside(x, block, i, obj, lo, hi, h);
      NoRoomNoRun(a, x.at(a), l, o, h, lo, hi);
    }
  }

  /** A skipped check could not have failed, if no kept check before it did. */
  lemma SkippedPasses(x: Execution, block: Block, i: nat)
    requires Legal(x, block) && SoundlyThinned(block) && i < |block| && Skipped(block, i)
    requires CleanSoFar(x, block, i)
    ensures !Fails(x, block, i)
  {
    FailsMeans(x, block, i);
    if block[i].size > 0 && ProvablySafe(block[i].ptr, block[i].size) {
      SafeAccessPasses(x, block, i);
    } else if block[i].size > 0 && NeverReached(block, i) {
      var j: nat :| j < i && Doomed(block, j);
      DoomedFails(x, block, j);
    } else if block[i].size > 0 {
      var j := LongerCheck(block, i);
      TestedIsClean(x, block, i, First(block[i]));
      ShelteredIsClean(x, block, i);
    }
  }

  /** MAIN RESULT: thinning preserves verdicts. For any addresses and any legal effect of
      the calls, the thinned block aborts exactly when the fully checked block does, and at
      the same instruction. */
  lemma ThinningPreservesVerdicts(x: Execution, block: Block, k: nat)
    requires Legal(x, block) && SoundlyThinned(block)
    ensures ThinAbortsAt(x, block, k) <==> FullAbortsAt(x, block, k)
  {
    if k < |block| {
      forall j: nat | j <= k && CleanSoFar(x, block, j) ensures Fails(x, block, j) ==> !Skipped(block, j) {
        if Skipped(block, j) {
          SkippedPasses(x, block, j);
        }
      }
      if ThinAbortsAt(x, block, k) {
        forall j: nat | j < k ensures !Fails(x, block, j) {
          assert CleanSoFar(x, block, j);
        }
      }
      if FullAbortsAt(x, block, k) {
        assert CleanSoFar(x, block, k);
      }
    }
  }
}
