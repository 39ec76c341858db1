/** Stack and global red zones: the padding the pass allocates (src/RedzonePass.cpp) and
    the zones the runtime draws (runtime/redzone_rt.c) are the same. */
module Frames {
  import opened Shadow
  import opened Memory
  import opened Heap

  // ---- What the pass lays out ----

  /** Size of the enlarged stack slot of a variable. */
  function SlotSize(size: nat): nat {
    REDZONE + RoundUp8(size) + REDZONE
  }

  /** Tail padding that keeps a global's trailing zone chunk-aligned. */
  function Pad(size: nat): nat {
    (8 - size % 8) % 8
  }

  /** Size of the wrapper of an internal ({zone, data, zone}) or external ({data, zone}) global. */
  function WrapperSize(size: nat, external: bool): nat {
    (if external then 0 else REDZONE) + size + REDZONE + Pad(size)
  }

  // ---- What the runtime draws ----

  /** __redzone_stack_enter(base, size) */
  function FrameObject(base: nat, size: nat): Object {
    Object(base, base + REDZONE, base + REDZONE + size, RoundUp8(base + (size + 2 * REDZONE)), STACK_RZ, true)
  }

  /** __redzone_global_register(data, size) */
  function GlobalObject(data: nat, size: nat): Object
    requires data >= REDZONE
  {
    Object(data - REDZONE, data, data + size, RoundUp8(data - REDZONE + (size + 2 * REDZONE)), GLOBAL_RZ, true)
  }

  /** __redzone_global_register_right(data, size) */
  function RightObject(data: nat, size: nat): Object {
    Object(data, data, data + size, RoundUp8(data + size + REDZONE), GLOBAL_RZ, true)
  }

  /** Are the usable bytes exactly [data, data + size)? */
  ghost predicate UsableIs(o: Object, data: nat, size: nat) {
    forall b: nat :: o.Usable(b) <==> data <= b < data + size
  }

  /** MAIN RESULT: the pass and the runtime agree on padding. The object the runtime draws
      fills exactly the slot or wrapper the pass laid out, so its zones never reach a
      neighbour, and its usable bytes are exactly the variable's. */
  lemma PaddingAgrees(base: nat, size: nat, external: bool)
    requires base % 16 == 0
    ensures FrameObject(base, size).hi == base + SlotSize(size)
    ensures !external ==> GlobalObject(base + REDZONE, size).lo == base &&
                          GlobalObject(base + REDZONE, size).hi == base + WrapperSize(size, external)
    ensures external ==> RightObject(base, size).lo == base &&
                         RightObject(base, size).hi == base + WrapperSize(size, external)
    ensures UsableIs(FrameObject(base, size), base + REDZONE, size)
    ensures UsableIs(GlobalObject(base + REDZONE, size), base + REDZONE, size)
    ensures UsableIs(RightObject(base, size), base, size)
  {
    TwoSidedEnd(base, size);
    RightEnd(base, size);
    PadIsRounding(size);
  }

  /** Rounding up the end of a two-sided object at a chunk boundary rounds up its size. */
  lemma TwoSidedEnd(base: nat, size: nat)
    requires base % 16 == 0
    ensures RoundUp8(base + (size + 2 * REDZONE)) == base + 2 * REDZONE + RoundUp8(size)
  {
    var q := base / 16;
    assert base == 16 * q;
    RoundShift(2 * q + 4, size);
  }

  lemma RightEnd(base: nat, size: nat)
    requires base % 16 == 0
    ensures RoundUp8(base + size + REDZONE) == base + REDZONE + RoundUp8(size)
  {
    var q := base / 16;
    assert base == 16 * q;
    RoundShift(2 * q + 2, size);
  }

  lemma RoundShift(q: nat, n: nat)
    ensures RoundUp8(8 * q + n) == 8 * q + RoundUp8(n)
  {
  }

  lemma PadIsRounding(size: nat)
    ensures size + Pad(size) == RoundUp8(size)
  {
  }

  lemma FrameShaped(base: nat, size: nat)
    requires base % 16 == 0 && base + SlotSize(size) <= LIMIT
    ensures FrameObject(base, size).WellShaped() && Drawable(FrameObject(base, size))
  {
    PaddingAgrees(base, size, false);
    DrawableShaped(FrameObject(base, size));
  }

  lemma GlobalShaped(base: nat, size: nat)
    requires base % 16 == 0 && base + WrapperSize(size, false) <= LIMIT
    ensures GlobalObject(base + REDZONE, size).WellShaped() && Drawable(GlobalObject(base + REDZONE, size))
  {
    PaddingAgrees(base, size, false);
    DrawableShaped(GlobalObject(base + REDZONE, size));
  }

  lemma RightShaped(base: nat, size: nat)
    requires base % 16 == 0 && base + WrapperSize(size, true) <= LIMIT
    ensures RightObject(base, size).WellShaped() && Drawable(RightObject(base, size))
  {
    PaddingAgrees(base, size, true);
    DrawableShaped(RightObject(base, size));
  }

  lemma FrameDraws(sh: Shadow, base: nat, size: nat)
    requires base % 16 == 0 && base + SlotSize(size) <= LIMIT
    ensures CarveUser(SetRange(sh, base, size + 2 * REDZONE, STACK_RZ), base + REDZONE, size)
            == Paint(sh, FrameObject(base, size))
    ensures SetRange(sh, base, size + 2 * REDZONE, 0) == Clear(sh, FrameObject(base, size))
  {
    FrameShaped(base, size);
    DrawIsPaint(sh, FrameObject(base, size), size + 2 * REDZONE, size);
    EraseIsClear(sh, FrameObject(base, size), size + 2 * REDZONE);
  }

  lemma GlobalDraws(sh: Shadow, base: nat, size: nat)
    requires base % 16 == 0 && base + WrapperSize(size, false) <= LIMIT
    ensures CarveUser(SetRange(sh, base + REDZONE - REDZONE, size + 2 * REDZONE, GLOBAL_RZ), base + REDZONE, size)
            == Paint(sh, GlobalObject(base + REDZONE, size))
  {
    GlobalShaped(base, size);
    DrawIsPaint(sh, GlobalObject(base + REDZONE, size), size + 2 * REDZONE, size);
  }

  /** Poisoning only after the data and carving the data draws the one-sided object. */
  lemma RightIsPaint(sh: Shadow, base: nat, size: nat)
    requires base % 16 == 0 && base + WrapperSize(size, true) <= LIMIT
    ensures CarveUser(SetRange(sh, base + size, REDZONE, GLOBAL_RZ), base, size) == Paint(sh, RightObject(base, size))
  {
    var o := RightObject(base, size);
    var sh1 := SetRange(sh, base + size, REDZONE, GLOBAL_RZ);
    forall c: nat ensures SameAt(CarveUser(sh1, base, size), Paint(sh, o), c) {
      RightLoads(sh, base, size, c);
    }
    SameEverywhere(CarveUser(sh1, base, size), Paint(sh, o));
  }

  lemma RightLoads(sh: Shadow, base: nat, size: nat, c: nat)
    requires base % 16 == 0 && base + WrapperSize(size, true) <= LIMIT
    ensures SameAt(CarveUser(SetRange(sh, base + size, REDZONE, GLOBAL_RZ), base, size),
                   Paint(sh, RightObject(base, size)), c)
  {
    var sh1 := SetRange(sh, base + size, REDZONE, GLOBAL_RZ);
    RightPoison(sh, base, size, c);
    RightCarve(sh1, base, size, c);
    TailChunks(base, size, c);
    RightPaint(sh, base, size, c);
  }

  lemma RightPoison(sh: Shadow, base: nat, size: nat, c: nat)
    requires base + size + REDZONE <= LIMIT
    ensures var sh1 := SetRange(sh, base + size, REDZONE, GLOBAL_RZ); var hit := Overlaps(c, base + size, REDZONE);
            (c in sh1 <==> c in sh || hit) && (hit ==> sh1[c] == GLOBAL_RZ) && (!hit && c in sh ==> sh1[c] == sh[c])
  {
    SetRangeLoads(sh, base + size, REDZONE, GLOBAL_RZ, c);
  }

  lemma RightCarve(sh1: Shadow, base: nat, size: nat, c: nat)
    requires base % 16 == 0 && base + size + REDZONE <= LIMIT
    ensures var sh2 := CarveUser(sh1, base, size); var hit := base <= 8 * c < base + size;
            && (c in sh2 <==> c in sh1 || hit)
            && (hit ==> sh2[c] == if 8 * c + 8 <= base + size then 0 else base + size - 8 * c)
            && (!hit && c in sh1 ==> sh2[c] == sh1[c])
  {
    CarveLoads(sh1, base, size, c);
  }

  lemma RightPaint(sh: Shadow, base: nat, size: nat, c: nat)
    ensures var o := RightObject(base, size); var sh' := Paint(sh, o);
            && (c in sh' <==> c in sh || o.HasChunk(c))
            && (o.HasChunk(c) ==>
                  sh'[c] == if !(base <= 8 * c < base + size) then GLOBAL_RZ
                            else if 8 * c + 8 <= base + size then 0 else base + size - 8 * c)
            && (!o.HasChunk(c) && c in sh ==> sh'[c] == sh[c])
  {
    PaintLoads(sh, RightObject(base, size), c);
  }

  lemma TailChunks(base: nat, size: nat, c: nat)
    requires base % 16 == 0
    ensures Overlaps(c, base + size, REDZONE) || base <= 8 * c < base + size <==> RightObject(base, size).HasChunk(c)
    ensures Overlaps(c, base + size, REDZONE) && !(base <= 8 * c < base + size) ==> 8 * c >= base + size
  {
    var q := base / 8;
    assert base == 8 * q;
  }

  /** What entering and leaving a frame do to the shadow: in the slot exactly the variable's
      bytes become addressable, and on leaving every byte; outside the slot nothing changes. */
  lemma FrameOpens(s: State, base: nat, size: nat)
    requires base % 16 == 0 && base + (16 + RoundUp8(size) + 16) <= LIMIT
    ensures OpensOnly(s.shadow, DrawOther(s, FrameObject(base, size)).shadow,
                      base, base + 16 + RoundUp8(size) + 16, base + 16, size)
    ensures forall b: nat :: BytePoisoned(EraseOther(s, FrameObject(base, size)).shadow, b) <==>
                             BytePoisoned(s.shadow, b) && !(base <= b < base + 16 + RoundUp8(size) + 16)
    ensures Unused(s, base, base + 16 + RoundUp8(size) + 16) ==> Can(s, Draw(FrameObject(base, size)))
    ensures FrameObject(base, size) in s.others ==> Can(s, Erase(FrameObject(base, size)))
  {
    FrameShaped(base, size);
    PaddingAgrees(base, size, false);
    ObjectOpens(s, FrameObject(base, size));
  }

  /** Registering an internal global, at its wrapper's base. */
  lemma GlobalOpens(s: State, base: nat, size: nat)
    requires base % 16 == 0 && base + (16 + RoundUp8(size) + 16) <= LIMIT
    ensures OpensOnly(s.shadow, DrawOther(s, GlobalObject(base + REDZONE, size)).shadow,
                      base, base + 16 + RoundUp8(size) + 16, base + 16, size)
    ensures Unused(s, base, base + 16 + RoundUp8(size) + 16) ==> Can(s, Draw(GlobalObject(base + REDZONE, size)))
  {
    PadIsRounding(size);
    GlobalShaped(base, size);
    PaddingAgrees(base, size, false);
    ObjectOpens(s, GlobalObject(base + REDZONE, size));
  }

  /** Registering an external global: nothing before its data is touched. */
  lemma RightOpens(s: State, base: nat, size: nat)
    requires base % 16 == 0 && base + (RoundUp8(size) + 16) <= LIMIT
    ensures OpensOnly(s.shadow, DrawOther(s, RightObject(base, size)).shadow,
                      base, base + RoundUp8(size) + 16, base, size)
    ensures Unused(s, base, base + RoundUp8(size) + 16) ==> Can(s, Draw(RightObject(base, size)))
  {
    PadIsRounding(size);
    RightShaped(base, size);
    PaddingAgrees(base, size, true);
    ObjectOpens(s, RightObject(base, size));
  }

  lemma ObjectOpens(s: State, o: Object)
    requires o.WellShaped() && o.live
    ensures OpensOnly(s.shadow, DrawOther(s, o).shadow, o.lo, o.hi, o.userLo, o.userHi - o.userLo)
    ensures forall b: nat :: BytePoisoned(EraseOther(s, o).shadow, b) <==>
                             BytePoisoned(s.shadow, b) && !(o.lo <= b < o.hi)
  {
    forall b: nat
      ensures BytePoisoned(Paint(s.shadow, o), b) <==> if o.Holds(b) then !o.Usable(b) else BytePoisoned(s.shadow, b)
      ensures BytePoisoned(Clear(s.shadow, o), b) <==> !o.Holds(b) && BytePoisoned(s.shadow, b)
    {
      PaintChanges(s.shadow, o, b);
    }
  }

  /** While a frame is entered its variable is addressable and its zones are not, whatever
      else the run does: the condition the pass's analysis relies on. */
  lemma FrameVariableAddressable(s: State, base: nat, size: nat, b: nat)
    requires Inv(s) && FrameObject(base, size) in s.others && base <= b < base + SlotSize(size)
    requires base % 16 == 0
    ensures !BytePoisoned(s.shadow, b) <==> base + REDZONE <= b < base + REDZONE + size
    ensures RunsWhole(s.shadow) && RangeAddressable(s.shadow, base + REDZONE, size)
  {
    PaddingAgrees(base, size, false);
    ShownRunsAreWhole(s.shadow, Objects(s));
    forall p: nat | base <= p < base + SlotSize(size)
      ensures BytePoisoned(s.shadow, p) <==> !FrameObject(base, size).Usable(p)
    {
      OneOwner(s.shadow, Objects(s), FrameObject(base, size), p);
    }
  }

  // ---- Nested activations ----

  /** A forest of function activations: the first call's variables, the calls it makes, and
      the calls that follow it. */
  datatype Calls = NoCalls | Call(vars: seq<Object>, inner: Calls, rest: Calls)

  function EnterAll(s: State, vars: seq<Object>): State
    decreases vars
  {
    if vars == [] then s else EnterAll(DrawOther(s, vars[0]), vars[1..])
  }

  ghost predicate CanEnter(s: State, vars: seq<Object>)
    decreases vars
  {
    vars == [] ||
    (&& vars[0].WellShaped() && vars[0].lo % 16 == 0 && vars[0].code != RZ_POISON && Fits(s, vars[0])
     && CanEnter(DrawOther(s, vars[0]), vars[1..]))
  }

  /** A function may always enter one more frame where no byte is in use. */
  lemma {:induction false} OneMoreFrame(s: State, vars: seq<Object>, base: nat, size: nat)
    requires Inv(s) && CanEnter(s, vars) && base % 16 == 0 && base + (16 + RoundUp8(size) + 16) <= LIMIT
    requires NothingIn(EnterAll(s, vars), base, base + (16 + RoundUp8(size) + 16))
    ensures CanEnter(s, vars + [FrameObject(base, size)])
    decreases |vars|
  {
    var o := FrameObject(base, size);
    if vars == [] {
      FrameShaped(base, size);
      PaddingAgrees(base, size, false);
      NothingInIsUnused(s, o.lo, o.hi);
      DrawableFits(s, o);
      assert [o][1..] == [];
    } else {
      InvDrawOther(s, vars[0]);
      OneMoreFrame(DrawOther(s, vars[0]), vars[1..], base, size);
      assert (vars + [o])[1..] == vars[1..] + [o];
    }
  }

  /** The returns leave the variables in the order they were entered. */
  function LeaveAll(s: State, vars: seq<Object>): State
    decreases vars
  {
    if vars == [] then s else LeaveAll(EraseOther(s, vars[0]), vars[1..])
  }

  function Exec(s: State, calls: Calls): State
    decreases calls
  {
    match calls
    case NoCalls => s
    case Call(vars, inner, rest) => Exec(LeaveAll(Exec(EnterAll(s, vars), inner), vars), rest)
  }

  /** Every variable entered fits beside everything live at that moment. */
  ghost predicate CanExec(s: State, calls: Calls)
    decreases calls
  {
    match calls
    case NoCalls => true
    case Call(vars, inner, rest) =>
      && CanEnter(s, vars) && CanExec(EnterAll(s, vars), inner)
      && CanExec(LeaveAll(Exec(EnterAll(s, vars), inner), vars), rest)
  }

  function SetOf(vars: seq<Object>): set<Object> {
    set k | 0 <= k < |vars| :: vars[k]
  }

  lemma {:induction false} EnterAllKeeps(s: State, vars: seq<Object>)
    requires Inv(s) && CanEnter(s, vars)
    ensures Inv(EnterAll(s, vars))
    ensures EnterAll(s, vars).others == s.others + SetOf(vars)
    ensures EnterAll(s, vars).blocks == s.blocks && EnterAll(s, vars).mem == s.mem
    ensures s.others !! SetOf(vars)
    ensures forall i, j :: 0 <= i < j < |vars| ==> vars[i] != vars[j]
    decreases |vars|
  {
    if vars == [] {
    } else {
      InvDrawOther(s, vars[0]);
      assert vars[0] !in Objects(s);
      EnterAllKeeps(DrawOther(s, vars[0]), vars[1..]);
      SetOfHead(vars);
      assert forall k :: 0 < k < |vars| ==> vars[k] == vars[1..][k - 1];
    }
  }

  lemma SetOfHead(vars: seq<Object>)
    requires vars != []
    ensures SetOf(vars) == {vars[0]} + SetOf(vars[1..])
  {
    forall o ensures o in SetOf(vars) <==> o in {vars[0]} + SetOf(vars[1..]) {
      if o in SetOf(vars) {
        var k :| 0 <= k < |vars| && o == vars[k];
        if k > 0 {
          assert o == vars[1..][k - 1];
        }
      }
      if o in SetOf(vars[1..]) {
        var k :| 0 <= k < |vars| - 1 && o == vars[1..][k];
        assert o == vars[k + 1];
      }
    }
  }

  lemma {:induction false} LeaveAllKeeps(s: State, vars: seq<Object>)
    requires Inv(s) && SetOf(vars) <= s.others
    requires forall i, j :: 0 <= i < j < |vars| ==> vars[i] != vars[j]
    ensures Inv(LeaveAll(s, vars))
    ensures LeaveAll(s, vars).others == s.others - SetOf(vars)
    ensures LeaveAll(s, vars).blocks == s.blocks && LeaveAll(s, vars).mem == s.mem
    decreases |vars|
  {
    if vars == [] {
    } else {
      SetOfHead(vars);
      InvEraseOther(s, vars[0]);
      forall o | o in SetOf(vars[1..]) ensures o in EraseOther(s, vars[0]).others {
        var k :| 0 <= k < |vars| - 1 && o == vars[1..][k];
        assert o == vars[k + 1];
      }
      LeaveAllKeeps(EraseOther(s, vars[0]), vars[1..]);
    }
  }

  lemma {:induction false} ExecKeeps(s: State, calls: Calls)
    requires Inv(s) && CanExec(s, calls)
    ensures Inv(Exec(s, calls)) && Objects(Exec(s, calls)) == Objects(s)
    ensures Exec(s, calls).others == s.others && Exec(s, calls).blocks == s.blocks && Exec(s, calls).mem == s.mem
    decreases calls
  {
    match calls
    case NoCalls =>
    case Call(vars, inner, rest) =>
      var s1 := EnterAll(s, vars);
      EnterAllKeeps(s, vars);
      ExecKeeps(s1, inner);
      var s2 := Exec(s1, inner);
      LeaveAllKeeps(s2, vars);
      ExecKeeps(LeaveAll(s2, vars), rest);
  }

  /** MAIN RESULT: nested activations restore the shadow. After any forest of calls, at any
      depth and with stack slots reused, every shadow byte is what it was. */
  lemma CallsRestoreShadow(s: State, calls: Calls, c: nat)
    requires Inv(s) && CanExec(s, calls)
    ensures Load(Exec(s, calls).shadow, c) == Load(s.shadow, c)
  {
    ExecKeeps(s, calls);
    ShowsDetermines(s.shadow, Exec(s, calls).shadow, Objects(s), c);
  }
}
