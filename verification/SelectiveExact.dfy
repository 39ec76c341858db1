/** The condition of Selective is exact: an access dropped as redundant that is neither
    sheltered nor unreachable changes a verdict, in an execution built from a real run. */
module SelectiveExact {
  import opened Bits
  import opened Shadow
  import opened Frames
  import opened Endpoints
  import opened Selective
  import H = Heap

  /** The stops nearest to the last byte of a dropped access that is not sheltered leave
      room for a poisoned run. */
  lemma WideGap(block: Block, i: nat) returns (l: int, h: int)
    requires i < |block| && DroppedAsRedundant(block, i) && !Sheltered(block, i)
    requires !InZones(AnchorOf(block[i].ptr), Last(block[i]))
    ensures First(block[i]) <= l < Last(block[i]) < h
    ensures !NoRoom(AnchorOf(block[i].ptr), l, Last(block[i]), h)
    ensures NoStop(block, i, l, h)
    ensures exists j: nat :: j < i && block[j].Access? && block[j].ptr == block[i].ptr && h <= Last(block[j])
  {
    var j := LongerCheck(block, i);
    var last := Last(block[i]);
    assert NoRoom(AnchorOf(block[i].ptr), last, last, last);
    l, h := last, last;
    while !Stops(block, i, l)
      invariant First(block[i]) <= l <= last && forall o: int :: l < o <= last ==> !Stops(block, i, o)
      decreases l - First(block[i])
    {
      l := l - 1;
    }
    while !Stops(block, i, h)
      invariant last <= h <= Last(block[j]) && forall o: int :: last <= o < h ==> !Stops(block, i, o)
      decreases Last(block[j]) - h
    {
      h := h + 1;
    }
  }

  /** Where the call-free stretch that ends at instruction i begins. */
  lemma {:induction false} StretchStart(block: Block, i: nat) returns (b: nat)
    requires i < |block|
    ensures b <= i && NoCall(block, b, i) && (b == 0 || block[b - 1].Call?)
    decreases i
  {
    if i == 0 || block[i - 1].Call? {
      b := i;
    } else {
      b := StretchStart(block, i - 1);
    }
  }

  /** Can the block's accesses and variables be laid out in the tracked space, in windows of
      16 * m bytes for every anchor? */
  predicate Roomy(block: Block, m: nat) {
    && m >= 64 && WindowStart(m, |block| + 1) <= LIMIT
    && forall i :: 0 <= i < |block| ==> Modest(block[i], m)
  }

  /** 16 * m * (n + 1) */
  function WindowStart(m: nat, n: nat): nat {
    if n == 0 then 16 * m else WindowStart(m, n - 1) + 16 * m
  }

  predicate Modest(a: Instr, m: nat) {
    a.Access? ==>
      && a.size <= m && 0 <= First(a) + m && First(a) <= m
      && (a.ptr.origin.InVariable? ==> a.ptr.origin.variable.size <= m)
  }

  function FirstUse(block: Block, a: Anchor): (n: nat)
    ensures n <= |block| && (n < |block| ==> Uses(block[n], a))
    ensures forall i :: 0 <= i < n ==> !Uses(block[i], a)
  {
    FirstUseFrom(block, a, 0)
  }

  function FirstUseFrom(block: Block, a: Anchor, k: nat): (n: nat)
    requires k <= |block|
    ensures k <= n <= |block| && (n < |block| ==> Uses(block[n], a))
    ensures forall i :: k <= i < n ==> !Uses(block[i], a)
    decreases |block| - k
  {
    if k == |block| || Uses(block[k], a) then k else FirstUseFrom(block, a, k + 1)
  }

  /** The layout of a block: one window for each instruction, used by the anchor it is the
      first to use; one anchor may be moved a little for the sake of alignment. */
  datatype Scene = Scene(block: Block, m: nat, special: Anchor, shift: nat) {
    predicate Valid() {
      && Roomy(block, m) && shift < 16 && (Aligned(special) ==> shift == 0)
      && FirstUse(block, special) < |block|
    }
    function Base(n: nat): nat {
      WindowStart(m, n)
    }
    function At(a: Anchor): nat {
      Base(FirstUse(block, a)) + REDZONE + if a == special then shift else 0
    }
    predicate InWindow(n: nat, b: int) {
      Base(n) - 2 * m <= b < Base(n) + 8 * m
    }
    /** Is instruction n the first to use a padded variable? */
    predicate Introduces(n: nat) {
      && n < |block| && block[n].Access? && block[n].ptr.origin.InVariable?
      && block[n].ptr.origin.variable.Padded() && FirstUse(block, AnchorOf(block[n].ptr)) == n
    }
    function Frame(n: nat): Object
      requires Introduces(n)
    {
      FrameObject(Base(n), block[n].ptr.origin.variable.size)
    }
    function Frames(n: nat): set<Object> {
      set i: nat | i < n && Introduces(i) :: Frame(i)
    }
    /** The state with the frames of the first n instructions entered. */
    function Entered(n: nat): H.State {
      if n == 0 then H.EMPTY
      else if Introduces(n - 1) then H.DrawOther(Entered(n - 1), Frame(n - 1))
      else Entered(n - 1)
    }
  }

  lemma {:induction false} BaseApart(sc: Scene, i: nat, j: nat)
    requires i < j
    ensures sc.Base(i) + 16 * sc.m <= sc.Base(j)
    decreases j
  {
    if i + 1 == j {
    } else {
      BaseApart(sc, i, j - 1);
    }
  }

  lemma {:induction false} WindowAligned(m: nat, n: nat)
    ensures WindowStart(m, n) % 16 == 0 && 16 * m <= WindowStart(m, n)
  {
    if n == 0 {
    } else {
      WindowAligned(m, n - 1);
    }
  }

  lemma BaseInside(sc: Scene, n: nat)
    requires sc.Valid() && n < |sc.block|
    ensures 16 * sc.m <= sc.Base(n) && sc.Base(n) + 16 * sc.m <= LIMIT && sc.Base(n) % 16 == 0
  {
    BaseApart(sc, n, |sc.block| + 1);
    WindowAligned(sc.m, n);
  }

  /** Windows do not overlap. */
  lemma OneWindow(sc: Scene, i: nat, j: nat, b: int)
    requires sc.InWindow(i, b) && sc.InWindow(j, b)
    ensures i == j
  {
    if i < j {
      BaseApart(sc, i, j);
    } else if j < i {
      BaseApart(sc, j, i);
    }
  }

  lemma FrameInWindow(sc: Scene, n: nat)
    requires sc.Valid() && sc.Introduces(n)
    ensures sc.Frame(n).lo == sc.Base(n) && sc.Frame(n).hi <= sc.Base(n) + 2 * sc.m
    ensures sc.Frame(n).WellShaped() && H.Drawable(sc.Frame(n))
  {
    BaseInside(sc, n);
    assert Modest(sc.block[n], sc.m);
    FrameShaped(sc.Base(n), sc.block[n].ptr.origin.variable.size);
    PaddingAgrees(sc.Base(n), sc.block[n].ptr.origin.variable.size, false);
  }

  /** Entering the frames one after the other is a run. */
  lemma {:induction false} FramesEntered(sc: Scene, n: nat)
    requires sc.Valid() && n <= |sc.block|
    ensures H.Reachable(sc.Entered(n)) && sc.Entered(n).blocks == [] && sc.Entered(n).others == sc.Frames(n)
  {
    if n == 0 {
      H.ReachesSelf(H.EMPTY);
    } else {
      FramesEntered(sc, n - 1);
      if sc.Introduces(n - 1) {
        var s, o := sc.Entered(n - 1), sc.Frame(n - 1);
        FrameInWindow(sc, n - 1);
        forall p | p in s.others ensures o.hi <= p.lo || p.hi <= o.lo {
          var i: nat :| i < n - 1 && sc.Introduces(i) && p == sc.Frame(i);
          FrameInWindow(sc, i);
          BaseApart(sc, i, n - 1);
        }
        H.ReachesStep(H.EMPTY, s, H.Draw(o), sc.Entered(n));
      }
    }
  }

  // ---- The red zone in the gap ----

  function GapEnd(a: Anchor, h: int): int {
    if Aligned(a) then h - h % 8 else h
  }

  /** Where the poison starts, from the anchor. */
  function ZoneStart(a: Anchor, last: int, h: int): int {
    if last <= GapEnd(a, h) - REDZONE then last else GapEnd(a, h) - REDZONE
  }

  /** An anchor whose alignment is not known is moved so that the poison starts 8 bytes
      into 16. */
  function ShiftFor(a: Anchor, z: int): nat {
    if Aligned(a) then 0 else (8 - z) % 16
  }

  /** The object that poisons from address z on: an external global whose data end there,
      or, where no data may come before z, an internal global with long data. */
  function ZoneObject(z: nat, before: bool, m: nat): Object
    requires z >= 16
  {
    if z % 16 != 0 then RightObject(z - z % 16, z % 16)
    else if before then RightObject(z - 16, 16)
    else GlobalObject(z + REDZONE, 4 * m)
  }

  lemma ZoneObjectShape(z: nat, before: bool, m: nat)
    requires z >= 16 && m >= 64 && z + 4 * m + 64 <= LIMIT
    ensures var o := ZoneObject(z, before, m);
            && H.Drawable(o) && o.WellShaped() && z - 16 <= o.lo <= z && o.hi <= z + 4 * m + 64
            && (z % 16 == 0 && !before ==> o.lo == z)
            && (z % 16 != 0 ==> o.lo == z - z % 16)
            && (before || z % 16 != 0 ==> o.hi == RoundUp8(z + REDZONE))
  {
    if z % 16 != 0 {
      RightPadded(z - z % 16, z % 16);
    } else if before {
      RightPadded(z - 16, 16);
    } else {
      GlobalShaped(z, 4 * m);
      PaddingAgrees(z, 4 * m, false);
    }
  }

  lemma RightPadded(data: nat, size: nat)
    requires data % 16 == 0 && data + size + 24 <= LIMIT
    ensures H.Drawable(RightObject(data, size)) && RightObject(data, size).WellShaped()
    ensures RightObject(data, size).lo == data && RightObject(data, size).hi == RoundUp8(data + size + REDZONE)
  {
    H.DrawableShaped(RightObject(data, size));
  }

  lemma ZoneObjectPoisons(z: nat, before: bool, m: nat, b: nat)
    requires z >= 16 && b < z + 4 * m
    ensures Poisons(ZoneObject(z, before, m), b) <==>
            z <= b < if z % 16 == 0 && !before then z + REDZONE else RoundUp8(z + REDZONE)
  {
  }

  /** The object poisons the last byte, and near the anchor nothing but bytes between l and
      h; it stays in the window that starts around base, and off the variable's slot. */
  ghost predicate FillsGap(obj: Object, a: Anchor, at: nat, base: nat, m: nat, l: int, last: int, h: int) {
    && H.Drawable(obj) && obj.WellShaped() && base <= obj.lo + 2 * m && obj.hi <= base + 8 * m
    && 0 <= at + last && Poisons(obj, at + last)
    && (forall b: nat :: Poisons(obj, b) && b <= at + 2 * m ==> at + l < b < at + h)
    && (forall b: nat :: obj.Holds(b) ==> !InTerritory(a, b - at))
  }

  /** Where the poison starts and ends around the last byte. */
  lemma ZoneBounds(at: nat, a: Anchor, l: int, last: int, h: int)
    requires Aligned(a) ==> at % 16 == 0
    requires !Aligned(a) ==> (at + ZoneStart(a, last, h)) % 16 == 8
    requires l < last < h && !NoRoom(a, l, last, h) && 0 <= at + l
    ensures var z := ZoneStart(a, last, h);
            && l < z <= last && z + REDZONE <= h && at + last < RoundUp8(at + z + REDZONE) <= at + GapEnd(a, h)
            && GapEnd(a, h) <= h && ((at + z) % 16 == 0 ==> last < z + REDZONE)
  {
    var z, e := ZoneStart(a, last, h), GapEnd(a, h);
    if Aligned(a) {
      var p, q := at / 16, h / 8;
      assert at == 16 * p && e == 8 * q;
      ChunkEnd(at + z + REDZONE, 2 * p + q);
      if (at + z) % 16 == 0 && z < last {
        assert z == e - REDZONE;
      }
    } else {
      var q := (at + z) / 8;
      assert at + z == 8 * q;
      ChunkEnd(at + z + REDZONE, q + 2);
    }
  }

  lemma ChunkEnd(n: nat, q: nat)
    requires n <= 8 * q
    ensures RoundUp8(n) <= 8 * q
  {
  }

  lemma ShiftAligns(base: nat, a: Anchor, z: int)
    requires base % 16 == 0 && !Aligned(a)
    ensures (base + REDZONE + ShiftFor(a, z) + z) % 16 == 8
  {
    var p, q := base / 16, (8 - z) / 16;
    assert base == 16 * p && 8 - z == 16 * q + (8 - z) % 16;
    assert base + REDZONE + (8 - z) % 16 + z == 16 * (p + 1 - q) + 8;
  }

  /** Before the slot the object ends with the gap; after it, it starts no sooner. */
  lemma ZoneEnds(at: nat, a: Anchor, l: int, last: int, h: int, m: nat)
    requires Aligned(a) && at % 16 == 0 && l < last < h && !NoRoom(a, l, last, h) && 0 <= at + l && last < 0
    requires at + ZoneStart(a, last, h) >= 16 && m >= 64 && at + ZoneStart(a, last, h) + 4 * m + 64 <= LIMIT
    ensures ZoneObject(at + ZoneStart(a, last, h), true, m).hi <= at + h
  {
    ZoneBounds(at, a, l, last, h);
    ZoneObjectShape(at + ZoneStart(a, last, h), true, m);
  }

  lemma ZoneStarts(z: nat, end: nat, m: nat)
    requires end <= z && end % 16 == 0 && z >= 16 && m >= 64 && z + 4 * m + 64 <= LIMIT
    ensures end <= ZoneObject(z, false, m).lo
  {
    ZoneObjectShape(z, false, m);
    StartsAfter(z, end);
  }

  /** Near the variable's slot the object stays on one side of it. */
  lemma ZoneOffSlot(at: nat, a: Anchor, l: int, last: int, h: int, m: nat, b: nat)
    requires Aligned(a) && at % 16 == 0 && l < last < h && !NoRoom(a, l, last, h) && 0 <= at + l
    requires forall o :: InTerritory(a, o) ==> o <= l || h <= o
    requires at + ZoneStart(a, last, h) >= 16 && m >= 64 && at + ZoneStart(a, last, h) + 4 * m + 64 <= LIMIT
    requires ZoneObject(at + ZoneStart(a, last, h), last < 0, m).Holds(b)
    ensures !InTerritory(a, b - at)
  {
    TerritoryBounds(a, l, last, h);
    if last < 0 {
      ZoneEnds(at, a, l, last, h, m);
    } else {
      ZoneBounds(at, a, l, last, h);
      Plus16Multiple(at, RoundUp16(a.variable.SlotEnd()));
      ZoneStarts(at + ZoneStart(a, last, h), at + RoundUp16(a.variable.SlotEnd()), m);
    }
  }

  lemma Plus16Multiple(n: nat, m: nat)
    requires n % 16 == 0 && m % 16 == 0
    ensures (n + m) % 16 == 0
  {
    var p, q := n / 16, m / 16;
    assert n + m == 16 * (p + q);
  }

  /** A gap around a byte outside the territory lies before or after all of it. */
  lemma TerritoryBounds(a: Anchor, l: int, last: int, h: int)
    requires Aligned(a) && l < last < h && forall o :: InTerritory(a, o) ==> o <= l || h <= o
    ensures last < 0 ==> forall o :: InTerritory(a, o) ==> h <= o
    ensures last >= 0 ==> RoundUp16(a.variable.SlotEnd()) <= l + 1
  {
    assert !InTerritory(a, last);
    if last >= 0 {
      assert InTerritory(a, RoundUp16(a.variable.SlotEnd()) - 1);
    } else {
      assert InTerritory(a, 0);
      forall o | InTerritory(a, o) ensures h <= o {
        assert o <= l ==> InTerritory(a, last);
      }
    }
  }

  lemma StartsAfter(z: nat, end: nat)
    requires end <= z && end % 16 == 0
    ensures end <= z - z % 16
  {
    var p, q := z / 16, end / 16;
    assert end == 16 * q && z == 16 * p + z % 16;
  }

  /** Near the anchor the object poisons the last byte, and nothing outside the gap. */
  lemma ZonePoisons(at: nat, a: Anchor, l: int, last: int, h: int, m: nat)
    requires Aligned(a) ==> at % 16 == 0
    requires !Aligned(a) ==> (at + ZoneStart(a, last, h)) % 16 == 8
    requires l < last < h <= 2 * m && !NoRoom(a, l, last, h) && 0 <= l + m && m + 16 <= at
    ensures var obj := ZoneObject(at + ZoneStart(a, last, h), last < 0, m);
            && Poisons(obj, at + last)
            && forall b: nat :: Poisons(obj, b) && b <= at + 2 * m ==> at + l < b < at + h
  {
    ZoneBounds(at, a, l, last, h);
    var z := at + ZoneStart(a, last, h);
    var obj := ZoneObject(z, last < 0, m);
    ZoneObjectPoisons(z, last < 0, m, at + last);
    forall b: nat | Poisons(obj, b) && b <= at + 2 * m ensures at + l < b < at + h {
      ZoneObjectPoisons(z, last < 0, m, b);
    }
  }

  lemma ZoneFills(a: Anchor, base: nat, m: nat, l: int, last: int, h: int) returns (obj: Object)
    requires base % 16 == 0 && m >= 64 && 16 * m <= base && base + 16 * m <= LIMIT
    requires 0 <= l + m && l < last < h <= 2 * m && !NoRoom(a, l, last, h)
    requires forall o :: InTerritory(a, o) ==> o <= l || h <= o
    ensures FillsGap(obj, a, base + REDZONE + ShiftFor(a, ZoneStart(a, last, h)), base, m, l, last, h)
  {
    var at := base + REDZONE + ShiftFor(a, ZoneStart(a, last, h));
    if !Aligned(a) {
      ShiftAligns(base, a, ZoneStart(a, last, h));
    }
    ZoneBounds(at, a, l, last, h);
    var z := at + ZoneStart(a, last, h);
    ZoneObjectShape(z, last < 0, m);
    obj := ZoneObject(z, last < 0, m);
    ZonePoisons(at, a, l, last, h, m);
    forall b: nat | obj.Holds(b) ensures !InTerritory(a, b - at) {
      if Aligned(a) {
        ZoneOffSlot(at, a, l, last, h, m, b);
      }
    }
  }

  // ---- The states of the witness ----

  /** The runtime's state with every frame entered and the given objects beside them. */
  ghost predicate Staged(sc: Scene, s: H.State, zones: set<Object>) {
    s.blocks == [] && s.others == sc.Frames(|sc.block|) + zones
  }

  /** No object of `zones` leaves the special anchor's window or meets its slot. */
  ghost predicate InPlace(sc: Scene, o: Object) {
    var at, n := sc.At(sc.special), FirstUse(sc.block, sc.special);
    && o.lo < o.hi && sc.Base(n) <= o.lo + 2 * sc.m && o.hi <= sc.Base(n) + 8 * sc.m
    && forall b: nat :: o.Holds(b) ==> !InTerritory(sc.special, b - at)
  }

  lemma HeldInWindow(sc: Scene, o: Object, b: nat)
    requires InPlace(sc, o) && o.Holds(b)
    ensures sc.InWindow(FirstUse(sc.block, sc.special), b)
  {
  }

  lemma FirstUseOf(block: Block, j: nat)
    requires j < |block| && block[j].Access?
    ensures FirstUse(block, AnchorOf(block[j].ptr)) <= j
  {
    assert Uses(block[j], AnchorOf(block[j].ptr));
  }

  /** The frame in an anchor's window is that of its own variable. */
  lemma OwnFrame(sc: Scene, a: Anchor, n: nat)
    requires sc.Valid() && n == FirstUse(sc.block, a) && sc.Introduces(n)
    ensures a.Start? && a.variable.Padded() && sc.At(a) == sc.Base(n) + REDZONE
    ensures sc.Frame(n) == FrameObject(sc.At(a) - REDZONE, a.variable.size)
  {
    assert Uses(sc.block[n], a);
  }

  ghost predicate PoisonedBy(objs: set<Object>, b: int) {
    0 <= b && exists o :: o in objs && Poisons(o, b)
  }

  /** The shadow poisons exactly what the objects poison. */
  ghost predicate Says(sh: Shadow, objs: set<Object>) {
    forall b: nat :: BytePoisoned(sh, b) <==> PoisonedBy(objs, b)
  }

  lemma ShownSays(sh: Shadow, objs: set<Object>)
    requires Shows(sh, objs)
    ensures Says(sh, objs)
  {
    forall b: nat ensures BytePoisoned(sh, b) <==> PoisonedBy(objs, b) {
      ShadowAgrees(sh, objs, b);
    }
  }

  /** What is poisoned around an anchor: its own red zones and the zones in place. */
  lemma StagedByte(sc: Scene, sh: Shadow, zones: set<Object>, a: Anchor, b: nat)
    requires sc.Valid() && Says(sh, sc.Frames(|sc.block|) + zones) && FirstUse(sc.block, a) < |sc.block|
    requires sc.InWindow(FirstUse(sc.block, a), b) && BytePoisoned(sh, b)
    ensures InZones(a, b - sc.At(a)) || PoisonedBy(zones, b)
  {
    assert PoisonedBy(sc.Frames(|sc.block|) + zones, b);
    var o :| o in sc.Frames(|sc.block|) + zones && Poisons(o, b);
    if o !in zones {
      FramePoison(sc, a, o, b);
    }
  }

  lemma FramePoison(sc: Scene, a: Anchor, o: Object, b: nat)
    requires sc.Valid() && FirstUse(sc.block, a) < |sc.block| && sc.InWindow(FirstUse(sc.block, a), b)
    requires o in sc.Frames(|sc.block|) && Poisons(o, b)
    ensures InZones(a, b - sc.At(a))
  {
    var i: nat :| i < |sc.block| && sc.Introduces(i) && o == sc.Frame(i);
    FrameHeld(sc, i, b);
    OneWindow(sc, i, FirstUse(sc.block, a), b);
    OwnFramePoison(sc, a, i, b);
  }

  lemma FrameHeld(sc: Scene, i: nat, b: nat)
    requires sc.Valid() && sc.Introduces(i) && sc.Frame(i).Holds(b)
    ensures sc.InWindow(i, b)
  {
    FrameInWindow(sc, i);
  }

  lemma OwnFramePoison(sc: Scene, a: Anchor, n: nat, b: nat)
    requires sc.Valid() && n == FirstUse(sc.block, a) && sc.Introduces(n) && Poisons(sc.Frame(n), b)
    ensures InZones(a, b - sc.At(a))
  {
    OwnFrame(sc, a, n);
    BaseInside(sc, n);
    FrameZones(sc.At(a), a.variable, b);
  }

  /** Every variable of the block is on the stack. */
  lemma StagedOnStack(sc: Scene, s: H.State, zones: set<Object>, x: Variable)
    requires sc.Valid() && Staged(sc, s, zones) && FirstUse(sc.block, Start(x)) < |sc.block|
    requires forall o :: o in zones ==> InPlace(sc, o)
    ensures OnStack(sc.At(Start(x)), s, x)
  {
    AtAligned(sc, Start(x));
    if x.Padded() {
      PaddedEntered(sc, x);
    } else if x.size > 0 {
      OverAlignedUnused(sc, s, zones, x);
    }
  }

  lemma AtAligned(sc: Scene, a: Anchor)
    requires sc.Valid() && FirstUse(sc.block, a) < |sc.block|
    ensures sc.At(a) >= REDZONE && (Aligned(a) ==> sc.At(a) % 16 == 0)
  {
    WindowAligned(sc.m, FirstUse(sc.block, a));
    var q := sc.Base(FirstUse(sc.block, a)) / 16;
    assert sc.Base(FirstUse(sc.block, a)) + REDZONE == 16 * (q + 1);
  }

  lemma PaddedEntered(sc: Scene, x: Variable)
    requires sc.Valid() && FirstUse(sc.block, Start(x)) < |sc.block| && x.Padded()
    ensures sc.At(Start(x)) >= REDZONE && FrameObject(sc.At(Start(x)) - REDZONE, x.size) in sc.Frames(|sc.block|)
  {
    var n := FirstUse(sc.block, Start(x));
    assert Uses(sc.block[n], Start(x));
    assert sc.Introduces(n);
    OwnFrame(sc, Start(x), n);
  }

  lemma OverAlignedUnused(sc: Scene, s: H.State, zones: set<Object>, x: Variable)
    requires sc.Valid() && Staged(sc, s, zones) && FirstUse(sc.block, Start(x)) < |sc.block|
    requires x.size > 0 && !x.Padded() && forall o :: o in zones ==> InPlace(sc, o)
    ensures H.Unused(s, sc.At(Start(x)), sc.At(Start(x)) + x.size)
  {
    forall o | o in s.others ensures sc.At(Start(x)) + x.size <= o.lo || o.hi <= sc.At(Start(x)) {
      OverAlignedApart(sc, zones, x, o);
    }
  }

  lemma OverAlignedApart(sc: Scene, zones: set<Object>, x: Variable, o: Object)
    requires sc.Valid() && FirstUse(sc.block, Start(x)) < |sc.block| && x.size > 0 && !x.Padded()
    requires forall p :: p in zones ==> InPlace(sc, p)
    requires o in sc.Frames(|sc.block|) + zones
    ensures sc.At(Start(x)) + x.size <= o.lo || o.hi <= sc.At(Start(x))
  {
    var a, n := Start(x), FirstUse(sc.block, Start(x));
    assert Uses(sc.block[n], a) && Modest(sc.block[n], sc.m);
    if o in zones {
      if a == sc.special {
        SlotSide(sc.At(a), x, o);
      } else {
        var k := FirstUse(sc.block, sc.special);
        assert Uses(sc.block[k], sc.special);
        WindowSide(sc, n, k);
      }
    } else {
      var i: nat :| i < |sc.block| && sc.Introduces(i) && o == sc.Frame(i);
      FrameInWindow(sc, i);
      WindowSide(sc, n, i);
    }
  }

  lemma WindowSide(sc: Scene, n: nat, k: nat)
    requires n != k
    ensures sc.Base(n) + 16 * sc.m <= sc.Base(k) || sc.Base(k) + 16 * sc.m <= sc.Base(n)
  {
    if n < k {
      BaseApart(sc, n, k);
    } else {
      BaseApart(sc, k, n);
    }
  }

  /** An object that meets no byte of a variable's territory lies beside its slot. */
  lemma SlotSide(at: nat, x: Variable, o: Object)
    requires x.size > 0 && o.lo < o.hi && at >= REDZONE
    requires forall b: nat :: o.Holds(b) ==> !InTerritory(Start(x), b - at)
    ensures at + x.SlotEnd() <= o.lo || o.hi <= if x.Padded() then at - REDZONE else at
  {
    var low := if x.Padded() then at - REDZONE else at;
    if o.lo < at + x.SlotEnd() && low < o.hi {
      var b := if o.lo < low then low else o.lo;
      assert o.Holds(b) && InTerritory(Start(x), b - at);
    }
  }

  /** A call registers the object: one more step of the run. */
  lemma ZoneAdded(sc: Scene, o: Object)
    requires sc.Valid() && InPlace(sc, o) && H.Drawable(o)
    ensures var s := sc.Entered(|sc.block|);
            && Staged(sc, s, {}) && Staged(sc, H.DrawOther(s, o), {o})
            && H.Reachable(s) && H.Reaches(s, H.DrawOther(s, o))
  {
    var s := sc.Entered(|sc.block|);
    FramesEntered(sc, |sc.block|);
    forall p | p in s.others ensures o.hi <= p.lo || p.hi <= o.lo {
      var i: nat :| i < |sc.block| && sc.Introduces(i) && p == sc.Frame(i);
      ZoneBesideFrame(sc, o, i);
    }
    H.ReachesSelf(s);
    H.ReachesStep(s, s, H.Draw(o), H.DrawOther(s, o));
  }

  lemma ZoneBesideFrame(sc: Scene, o: Object, i: nat)
    requires sc.Valid() && InPlace(sc, o) && sc.Introduces(i)
    ensures o.hi <= sc.Frame(i).lo || sc.Frame(i).hi <= o.lo
  {
    var n := FirstUse(sc.block, sc.special);
    if i == n {
      OwnFrame(sc, sc.special, n);
      AtAligned(sc, sc.special);
      BesideOwnFrame(sc.At(sc.special), sc.special.variable, o);
    } else {
      FrameInWindow(sc, i);
      WindowSide(sc, i, n);
    }
  }

  lemma BesideOwnFrame(at: nat, x: Variable, o: Object)
    requires x.Padded() && o.lo < o.hi && at >= REDZONE && at % 16 == 0
    requires forall b: nat :: o.Holds(b) ==> !InTerritory(Start(x), b - at)
    ensures var f := FrameObject(at - REDZONE, x.size); o.hi <= f.lo || f.hi <= o.lo
  {
    FrameEnd(at, x);
    SlotSide(at, x, o);
  }

  // ---- The witness ----

  function ZonesAt(b: nat, zones: set<Object>, k: nat): set<Object> {
    if k < b then {} else zones
  }

  /** The execution is laid out by the scene, with the zones there from instruction b on. */
  ghost predicate Stages(x: Execution, sc: Scene, b: nat, zones: set<Object>) {
    && sc.Valid() && |x.states| == |sc.block|
    && (forall a :: x.at(a) == sc.At(a))
    && (forall k :: 0 <= k < |x.states| ==> Staged(sc, x.states[k], ZonesAt(b, zones, k)))
    && (forall o :: o in zones ==> InPlace(sc, o))
  }

  lemma WitnessLegalAt(x: Execution, sc: Scene, b: nat, zones: set<Object>, k: nat)
    requires Stages(x, sc, b, zones) && k < |sc.block|
    ensures LegalAt(x, sc.block, k)
  {
    if sc.block[k].Access? {
      var a, n := AnchorOf(sc.block[k].ptr), FirstUse(sc.block, AnchorOf(sc.block[k].ptr));
      FirstUseOf(sc.block, k);
      BaseInside(sc, n);
      assert Modest(sc.block[k], sc.m);
      if a.Start? {
        StagedOnStack(sc, x.states[k], ZonesAt(b, zones, k), a.variable);
      }
    }
  }

  lemma WitnessSeparate(x: Execution, sc: Scene, b: nat, zones: set<Object>)
    requires Stages(x, sc, b, zones)
    ensures Separate(x, sc.block)
  {
    forall a1, a2 | Used(sc.block, a1) && Used(sc.block, a2) ensures Disjoint(x, a1, a2) {
      if a1 != a2 && a1.Start? && a2.Start? {
        UsedFits(sc, a1);
        UsedFits(sc, a2);
        WindowSide(sc, FirstUse(sc.block, a1), FirstUse(sc.block, a2));
      }
    }
  }

  lemma UsedFits(sc: Scene, a: Anchor)
    requires sc.Valid() && Used(sc.block, a) && a.Start?
    ensures FirstUse(sc.block, a) < |sc.block| && Uses(sc.block[FirstUse(sc.block, a)], a) && a.variable.size <= sc.m
  {
    var i: nat :| i < |sc.block| && Uses(sc.block[i], a);
    FirstUseOf(sc.block, i);
    assert Modest(sc.block[i], sc.m);
  }

  /** The witness: frames first, and from instruction b on the state s, one call later. */
  lemma MakeWitness(sc: Scene, b: nat, s: H.State, zones: set<Object>) returns (x: Execution)
    requires sc.Valid() && b <= |sc.block| && (b == 0 || sc.block[b - 1].Call?)
    requires Staged(sc, s, zones) && forall o :: o in zones ==> InPlace(sc, o)
    requires H.Reaches(sc.Entered(|sc.block|), s)
    ensures Stages(x, sc, b, zones) && Legal(x, sc.block)
  {
    var s0 := sc.Entered(|sc.block|);
    x := Execution((a: Anchor) => sc.At(a), seq(|sc.block|, k requires 0 <= k => if k < b then s0 else s));
    FramesEntered(sc, |sc.block|);
    assert Stages(x, sc, b, zones);
    H.ReachesTransitive(H.EMPTY, s0, s);
    H.ReachesSelf(s);
    H.ReachesSelf(s0);
    forall i | 0 <= i < |sc.block| - 1 ensures Continues(x, sc.block, i) {
      assert i == b - 1 ==> sc.block[i].Call?;
    }
    forall i | 0 <= i < |sc.block| ensures LegalAt(x, sc.block, i) {
      WitnessLegalAt(x, sc, b, zones, i);
    }
    WitnessSeparate(x, sc, b, zones);
  }

  lemma WitnessSays(x: Execution, sc: Scene, b: nat, zones: set<Object>, j: nat)
    requires Stages(x, sc, b, zones) && j < |sc.block| && Legal(x, sc.block)
    ensures Says(x.states[j].shadow, sc.Frames(|sc.block|) + ZonesAt(b, zones, j))
  {
    StateInv(x, sc.block, j);
    StagedObjects(sc, x.states[j], ZonesAt(b, zones, j));
    ShownSays(x.states[j].shadow, H.Objects(x.states[j]));
  }

  /** What a check can find poisoned in the witness: a red zone of its own variable, or the
      zone in the gap if it goes through the special anchor. */
  lemma WitnessByte(x: Execution, sc: Scene, b: nat, zones: set<Object>, j: nat, o: int)
    requires Stages(x, sc, b, zones) && j < |sc.block| && sc.block[j].Access?
    requires Says(x.states[j].shadow, sc.Frames(|sc.block|) + ZonesAt(b, zones, j))
    requires 0 <= o + sc.m && o <= 2 * sc.m && Poisoned(x, sc.block, j, o)
    ensures var a := AnchorOf(sc.block[j].ptr);
            InZones(a, o) || (a == sc.special && b <= j && PoisonedBy(zones, sc.At(a) + o))
  {
    FirstUseOf(sc.block, j);
    ShownByte(sc, x.states[j].shadow, ZonesAt(b, zones, j), AnchorOf(sc.block[j].ptr), o);
  }

  lemma ShownByte(sc: Scene, sh: Shadow, zones: set<Object>, a: Anchor, o: int)
    requires sc.Valid() && Says(sh, sc.Frames(|sc.block|) + zones) && FirstUse(sc.block, a) < |sc.block|
    requires forall z :: z in zones ==> InPlace(sc, z)
    requires 0 <= o + sc.m && o <= 2 * sc.m && 0 <= sc.At(a) + o && BytePoisoned(sh, sc.At(a) + o)
    ensures InZones(a, o) || (a == sc.special && PoisonedBy(zones, sc.At(a) + o))
  {
    NearAnchor(sc, a, o);
    StagedByte(sc, sh, zones, a, sc.At(a) + o);
    if !InZones(a, o) {
      var z :| z in zones && Poisons(z, sc.At(a) + o);
      ZoneIsSpecial(sc, a, z, sc.At(a) + o);
    }
  }

  lemma ZoneIsSpecial(sc: Scene, a: Anchor, o: Object, b: nat)
    requires sc.Valid() && FirstUse(sc.block, a) < |sc.block| && sc.InWindow(FirstUse(sc.block, a), b)
    requires InPlace(sc, o) && o.Holds(b)
    ensures a == sc.special
  {
    var n := FirstUse(sc.block, a);
    HeldInWindow(sc, o, b);
    OneWindow(sc, n, FirstUse(sc.block, sc.special), b);
    assert Uses(sc.block[n], a) && Uses(sc.block[n], sc.special);
  }

  lemma NearAnchor(sc: Scene, a: Anchor, o: int)
    requires sc.Valid() && 0 <= o + sc.m && o <= 2 * sc.m
    ensures sc.InWindow(FirstUse(sc.block, a), sc.At(a) + o)
  {
  }

  lemma StagedObjects(sc: Scene, s: H.State, zones: set<Object>)
    requires Staged(sc, s, zones)
    ensures H.Objects(s) == sc.Frames(|sc.block|) + zones
  {
  }

  /** Do the zones poison, near the special anchor, only bytes between l and h? */
  ghost predicate Between(sc: Scene, zones: set<Object>, l: int, h: int) {
    forall o, b: nat :: o in zones && Poisons(o, b) && b <= sc.At(sc.special) + 2 * sc.m ==>
      sc.At(sc.special) + l < b < sc.At(sc.special) + h
  }

  /** No stop of access i lies strictly between l and h. */
  ghost predicate NoStop(block: Block, i: nat, l: int, h: int)
    requires i < |block| && block[i].Access?
  {
    forall o: int :: Stops(block, i, o) ==> o <= l || h <= o
  }

  /** In the witness no kept check before the dropped access fails. */
  lemma WitnessIsClean(x: Execution, sc: Scene, b: nat, zones: set<Object>, i: nat, l: int, h: int)
    requires Stages(x, sc, b, zones) && Between(sc, zones, l, h) && Legal(x, sc.block)
    requires i < |sc.block| && sc.block[i].Access? && AnchorOf(sc.block[i].ptr) == sc.special
    requires NoCall(sc.block, b, i) && !NeverReached(sc.block, i) && (zones == {} || NoStop(sc.block, i, l, h))
    ensures CleanSoFar(x, sc.block, i)
  {
    forall j: nat | j < i && !Skipped(sc.block, j) ensures !Fails(x, sc.block, j) {
      FailsMeans(x, sc.block, j);
      if sc.block[j].Access? && sc.block[j].size > 0 {
        assert !Doomed(sc.block, j);
        WitnessSays(x, sc, b, zones, j);
        KeptByteClean(x, sc, b, zones, i, j, First(sc.block[j]), l, h);
        KeptByteClean(x, sc, b, zones, i, j, Last(sc.block[j]), l, h);
      }
    }
  }

  lemma KeptByteClean(x: Execution, sc: Scene, b: nat, zones: set<Object>, i: nat, j: nat, o: int, l: int, h: int)
    requires Stages(x, sc, b, zones) && Between(sc, zones, l, h)
    requires i < |sc.block| && sc.block[i].Access? && AnchorOf(sc.block[i].ptr) == sc.special
    requires NoCall(sc.block, b, i) && (zones == {} || NoStop(sc.block, i, l, h))
    requires j < i && sc.block[j].Access? && sc.block[j].size > 0 && !Skipped(sc.block, j)
    requires Says(x.states[j].shadow, sc.Frames(|sc.block|) + ZonesAt(b, zones, j))
    requires o in {First(sc.block[j]), Last(sc.block[j])} && !InZones(AnchorOf(sc.block[j].ptr), o)
    ensures !Poisoned(x, sc.block, j, o)
  {
    assert Modest(sc.block[j], sc.m);
    if b <= j && AnchorOf(sc.block[j].ptr) == sc.special {
      assert Kept(sc.block, i, j);
      assert Tests(sc.block, i, o);
      assert Stops(sc.block, i, o);
    }
    if Poisoned(x, sc.block, j, o) {
      WitnessByte(x, sc, b, zones, j, o);
    }
  }

  /** The dropped access ends in a red zone of its own variable, or in the zone in the gap. */
  lemma OwnZoneFails(x: Execution, block: Block, i: nat)
    requires Legal(x, block) && i < |block| && block[i].Access? && block[i].size > 0
    requires InZones(AnchorOf(block[i].ptr), Last(block[i]))
    ensures Fails(x, block, i)
  {
    FailsMeans(x, block, i);
    ZonesInTerritory(AnchorOf(block[i].ptr), Last(block[i]));
    TerritoryBytes(x, block, i, Last(block[i]));
  }

  lemma GapZoneFails(x: Execution, sc: Scene, b: nat, zones: set<Object>, i: nat)
    requires Stages(x, sc, b, zones) && Legal(x, sc.block)
    requires b <= i < |sc.block| && sc.block[i].Access? && sc.block[i].size > 0
    requires AnchorOf(sc.block[i].ptr) == sc.special && PoisonedBy(zones, sc.At(sc.special) + Last(sc.block[i]))
    ensures Fails(x, sc.block, i)
  {
    WitnessSays(x, sc, b, zones, i);
    SaysMore(x.states[i].shadow, sc.Frames(|sc.block|), zones, sc.At(sc.special) + Last(sc.block[i]));
    assert Poisoned(x, sc.block, i, Last(sc.block[i]));
    FailsMeans(x, sc.block, i);
  }

  lemma SaysMore(sh: Shadow, frames: set<Object>, zones: set<Object>, b: nat)
    requires Says(sh, frames + zones) && PoisonedBy(zones, b)
    ensures BytePoisoned(sh, b)
  {
    var o :| o in zones && Poisons(o, b);
    assert o in frames + zones;
  }

  lemma FirstFailure(x: Execution, block: Block, i: nat) returns (k: nat)
    requires |x.states| == |block| && i < |block| && Skipped(block, i) && Fails(x, block, i) && CleanSoFar(x, block, i)
    ensures FullAbortsAt(x, block, k) && !ThinAbortsAt(x, block, k)
  {
    k := 0;
    while !Fails(x, block, k)
      invariant k <= i && forall j: nat :: j < k ==> !Fails(x, block, j)
      decreases i - k
    {
      k := k + 1;
    }
  }

  // ---- The theorem ----

  /** The witness when the dropped access ends in its own variable's red zone: the frames
      alone. */
  lemma StageZone(block: Block, i: nat, m: nat) returns (sc: Scene, x: Execution)
    requires Roomy(block, m) && i < |block| && block[i].Access?
    ensures sc.block == block && sc.special == AnchorOf(block[i].ptr) && Stages(x, sc, 0, {}) && Legal(x, block)
  {
    sc := Scene(block, m, AnchorOf(block[i].ptr), 0);
    FirstUseOf(block, i);
    FramesEntered(sc, |block|);
    H.ReachesSelf(sc.Entered(|block|));
    x := MakeWitness(sc, 0, sc.Entered(|block|), {});
  }

  /** The witness when there is room between the stops: a zone is drawn there just before
      the call-free stretch. */
  lemma StageGap(block: Block, i: nat, m: nat, b: nat, l: int, h: int)
    returns (sc: Scene, x: Execution, zone: Object)
    requires Roomy(block, m) && b <= i < |block| && block[i].Access? && (b == 0 || block[b - 1].Call?)
    requires 0 <= l + m && l < Last(block[i]) < h <= 2 * m && !NoRoom(AnchorOf(block[i].ptr), l, Last(block[i]), h)
    requires NoStop(block, i, l, h)
    ensures sc.block == block && sc.special == AnchorOf(block[i].ptr)
    ensures Stages(x, sc, b, {zone}) && Legal(x, block)
    ensures Between(sc, {zone}, l, h) && PoisonedBy({zone}, sc.At(sc.special) + Last(block[i]))
  {
    var a, last := AnchorOf(block[i].ptr), Last(block[i]);
    sc := Scene(block, m, a, ShiftFor(a, ZoneStart(a, last, h)));
    FirstUseOf(block, i);
    BaseInside(sc, FirstUse(block, a));
    forall o | InTerritory(a, o) ensures o <= l || h <= o {
      assert Stops(block, i, o);
    }
    zone := ZoneFills(a, sc.Base(FirstUse(block, a)), m, l, last, h);
    assert InPlace(sc, zone);
    ZoneAdded(sc, zone);
    x := MakeWitness(sc, b, H.DrawOther(sc.Entered(|block|), zone), {zone});
  }

  /** An access dropped as redundant, reached and not sheltered changes a verdict in some
      legal execution. */
  lemma ExposedDiverges(block: Block, i: nat, m: nat) returns (x: Execution, k: nat)
    requires Roomy(block, m) && i < |block|
    requires DroppedAsRedundant(block, i) && !Sheltered(block, i) && !NeverReached(block, i)
    ensures Legal(x, block) && FullAbortsAt(x, block, k) && !ThinAbortsAt(x, block, k)
  {
    var b := StretchStart(block, i);
    if InZones(AnchorOf(block[i].ptr), Last(block[i])) {
      var sc;
      sc, x := StageZone(block, i, m);
      assert Stages(x, sc, b, {});
      WitnessIsClean(x, sc, b, {}, i, 0, 0);
      OwnZoneFails(x, block, i);
    } else {
      var l, h := WideGap(block, i);
      GapIsModest(block, i, m, l, h);
      var sc, zone;
      sc, x, zone := StageGap(block, i, m, b, l, h);
      WitnessIsClean(x, sc, b, {zone}, i, l, h);
      GapZoneFails(x, sc, b, {zone}, i);
    }
    k := FirstFailure(x, block, i);
  }

  lemma GapIsModest(block: Block, i: nat, m: nat, l: int, h: int)
    requires Roomy(block, m) && i < |block| && block[i].Access? && First(block[i]) <= l
    requires exists j: nat :: j < i && block[j].Access? && block[j].ptr == block[i].ptr && h <= Last(block[j])
    ensures 0 <= l + m && h <= 2 * m
  {
    assert Modest(block[i], m);
    var j: nat :| j < i && block[j].Access? && block[j].ptr == block[i].ptr && h <= Last(block[j]);
    assert Modest(block[j], m);
  }

  /** MAIN RESULT: the condition is exact. The pass keeps every verdict of a block if and
      only if every access it drops as redundant is sheltered by kept checks, or comes after
      a kept check that always fails. */
  lemma ThinningExact(block: Block, m: nat)
    requires Roomy(block, m)
    ensures KeepsVerdicts(block) <==> SoundlyThinned(block)
  {
    if SoundlyThinned(block) {
      forall x: Execution, k: nat | Legal(x, block) ensures ThinAbortsAt(x, block, k) <==> FullAbortsAt(x, block, k) {
        ThinningPreservesVerdicts(x, block, k);
      }
    } else {
      var i: nat :| i < |block| && DroppedAsRedundant(block, i) && !Sheltered(block, i) && !NeverReached(block, i);
      var x, k := ExposedDiverges(block, i, m);
    }
  }
}
