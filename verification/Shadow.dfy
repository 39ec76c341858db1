/** Shadow memory (runtime/redzone_rt.c): one byte for every aligned 8 bytes, and the
    layout of red-zoned objects it describes. */
module Shadow {

  // The encoding: 0 addressable, k in 1..7 only the first k bytes, negative off-limits.
  const RZ_POISON := -6     // 0xFA: heap red zone
  const STACK_RZ := -15     // 0xF1
  const GLOBAL_RZ := -7     // 0xF9
  const FREED_POISON := -3  // 0xFD

  const REDZONE: nat := 16
  const LIMIT: nat := 0x8000_0000_0000          // SHADOW_LIMIT: the 47-bit user space
  const SHADOW_BYTES: nat := 0x1000_0000_0000   // LIMIT / 8

  /** An absent chunk is one the system has not committed: it reads as 0. */
  type Shadow = map<nat, int>

  function Load(sh: Shadow, c: nat): int {
    if c in sh then sh[c] else 0
  }

  predicate Within(c: nat, lo: nat, hi: nat) {
    lo <= c < hi
  }

  function Fill(sh: Shadow, lo: nat, hi: nat, v: int): Shadow {
    sh + map c: nat | c < hi && Within(c, lo, hi) :: v
  }

  /** set_shadow_range: every chunk that overlaps [start, start + len). */
  function SetRange(sh: Shadow, start: nat, len: nat, v: int): Shadow {
    if len == 0 || start / 8 >= SHADOW_BYTES then sh
    else
      var hi := (start + len + 7) / 8;
      Fill(sh, start / 8, if hi > SHADOW_BYTES then SHADOW_BYTES else hi, v)
  }

  /** set_shadow_byte */
  function SetByte(sh: Shadow, app: nat, v: int): Shadow {
    if app / 8 >= SHADOW_BYTES then sh else sh[app / 8 := v]
  }

  /** shadow_load */
  function LoadAt(sh: Shadow, app: nat): int {
    if app / 8 >= SHADOW_BYTES then 0 else Load(sh, app / 8)
  }

  /** byte_poisoned */
  predicate BytePoisoned(sh: Shadow, app: nat) {
    var sv := LoadAt(sh, app);
    if sv == 0 then false else if sv < 0 then true else app % 8 >= sv
  }

  function RoundUp8(n: nat): (r: nat)
    ensures n <= r < n + 8 && r % 8 == 0
  {
    (n + 7) / 8 * 8
  }

  // ---- Objects with red zones ----

  /** A padded object: [lo, hi) belongs to it, the program may use [userLo, userHi) while
      it is live, and code marks the rest. */
  datatype Object = Object(lo: nat, userLo: nat, userHi: nat, hi: nat, code: int, live: bool) {
    predicate Holds(b: nat) {
      lo <= b < hi
    }
    predicate Usable(b: nat) {
      live && userLo <= b < userHi
    }
    /** Chunk-aligned, inside the tracked space, with at least a red zone after the user
        bytes and a red zone or nothing before them. */
    predicate WellShaped() {
      && lo % 8 == 0 && userLo % 8 == 0 && hi % 8 == 0 && hi <= LIMIT
      && lo <= userLo <= userHi && userHi + REDZONE <= hi
      && (lo == userLo || lo + REDZONE <= userLo)
      && code < 0
    }
    predicate Apart(o: Object) {
      hi <= o.lo || o.hi <= lo
    }
    /** The shadow byte of chunk c of this object. */
    function ChunkValue(c: nat): int {
      if userLo <= 8 * c < userHi then
        if !live then FREED_POISON
        else if 8 * c + 8 <= userHi then 0
        else userHi - 8 * c
      else code
    }
    predicate HasChunk(c: nat) {
      lo <= 8 * c < hi
    }
  }

  /** Does the object poison byte b? */
  predicate Poisons(o: Object, b: nat) {
    o.Holds(b) && !o.Usable(b)
  }

  /** The shadow with an object drawn on it. */
  function Paint(sh: Shadow, o: Object): Shadow {
    sh + map c: nat | c < o.hi && o.HasChunk(c) :: o.ChunkValue(c)
  }

  function Clear(sh: Shadow, o: Object): Shadow {
    sh + map c: nat | c < o.hi && o.HasChunk(c) :: 0
  }

  /** The shadow shows exactly these objects and nothing else. */
  ghost predicate Shows(sh: Shadow, objs: set<Object>) {
    && (forall o :: o in objs ==> o.WellShaped())
    && (forall o, p :: o in objs && p in objs && o != p ==> o.Apart(p))
    && (forall o, c: nat :: o in objs && o.HasChunk(c) ==> Load(sh, c) == o.ChunkValue(c))
    && (forall c: nat :: (forall o :: o in objs ==> !o.HasChunk(c)) ==> Load(sh, c) == 0)
  }

  /** What the objects say about a byte. */
  ghost predicate OffLimits(objs: set<Object>, b: nat) {
    exists o :: o in objs && o.Holds(b) && !o.Usable(b)
  }

  /** MAIN RESULT: a byte is poisoned exactly when it lies in some object and not in the
      usable part of a live one. */
  lemma ShadowAgrees(sh: Shadow, objs: set<Object>, b: nat)
    requires Shows(sh, objs)
    ensures BytePoisoned(sh, b) <==> OffLimits(objs, b)
  {
    if o :| o in objs && o.Holds(b) {
      assert o.HasChunk(b / 8);
      assert Load(sh, b / 8) == o.ChunkValue(b / 8);
      forall p | p in objs && p.Holds(b) ensures p == o {
        assert p != o ==> p.Apart(o);
      }
    } else {
      forall o | o in objs ensures !o.HasChunk(b / 8) {
        assert o.WellShaped() && !o.Holds(b);
      }
    }
  }

  /** The objects determine every shadow byte. */
  lemma ShowsDetermines(sh: Shadow, sh': Shadow, objs: set<Object>, c: nat)
    requires Shows(sh, objs) && Shows(sh', objs)
    ensures Load(sh, c) == Load(sh', c)
  {
    if o :| o in objs && o.HasChunk(c) {
      assert Load(sh, c) == o.ChunkValue(c);
    }
  }

  lemma PaintLoads(sh: Shadow, o: Object, c: nat)
    ensures c in Paint(sh, o) <==> c in sh || o.HasChunk(c)
    ensures c in Clear(sh, o) <==> c in sh || o.HasChunk(c)
    ensures Load(Paint(sh, o), c) == if o.HasChunk(c) then o.ChunkValue(c) else Load(sh, c)
    ensures Load(Clear(sh, o), c) == if o.HasChunk(c) then 0 else Load(sh, c)
  {
  }

  /** What drawing and erasing an object do to each byte. */
  lemma PaintChanges(sh: Shadow, o: Object, b: nat)
    requires o.WellShaped()
    ensures BytePoisoned(Paint(sh, o), b) <==> if o.Holds(b) then !o.Usable(b) else BytePoisoned(sh, b)
    ensures BytePoisoned(Clear(sh, o), b) <==> !o.Holds(b) && BytePoisoned(sh, b)
  {
    PaintLoads(sh, o, b / 8);
    assert o.HasChunk(b / 8) <==> o.Holds(b);
  }

  /** Drawing a new object apart from the others. */
  lemma PaintNew(sh: Shadow, objs: set<Object>, o: Object)
    requires Shows(sh, objs) && o.WellShaped() && forall p :: p in objs ==> p.Apart(o)
    ensures Shows(Paint(sh, o), objs + {o})
  {
    var objs' := objs + {o};
    forall p, c: nat | p in objs' && p.HasChunk(c) ensures Load(Paint(sh, o), c) == p.ChunkValue(c) {
      PaintLoads(sh, o, c);
      if p != o {
        assert p.Apart(o);
      }
    }
    forall c: nat | forall p :: p in objs' ==> !p.HasChunk(c) ensures Load(Paint(sh, o), c) == 0 {
      PaintLoads(sh, o, c);
      assert o in objs';
      forall p | p in objs ensures !p.HasChunk(c) {
        assert p in objs';
      }
    }
  }

  /** Redrawing an object at the same place with its user bytes given up. */
  lemma PaintFreed(sh: Shadow, objs: set<Object>, o: Object)
    requires Shows(sh, objs) && o in objs
    ensures Shows(Paint(sh, o.(live := false)), objs - {o} + {o.(live := false)})
  {
    var o' := o.(live := false);
    var objs' := objs - {o} + {o'};
    forall p, q | p in objs' && q in objs' && p != q ensures p.Apart(q) {
      assert o in objs;
      assert p != o' && p != o ==> p in objs && p.Apart(o);
      assert q != o' && q != o ==> q in objs && q.Apart(o);
    }
    forall p, c: nat | p in objs' && p.HasChunk(c) ensures Load(Paint(sh, o'), c) == p.ChunkValue(c) {
      PaintLoads(sh, o', c);
      if p != o' {
        assert p in objs && p.Apart(o);
      }
    }
    forall c: nat | forall p :: p in objs' ==> !p.HasChunk(c) ensures Load(Paint(sh, o'), c) == 0 {
      PaintLoads(sh, o', c);
      assert o' in objs';
      forall p | p in objs ensures !p.HasChunk(c) {
        assert p == o || p in objs';
      }
    }
  }

  /** Erasing an object. */
  lemma ClearOld(sh: Shadow, objs: set<Object>, o: Object)
    requires Shows(sh, objs) && o in objs
    ensures Shows(Clear(sh, o), objs - {o})
  {
    forall p, c: nat | p in objs - {o} && p.HasChunk(c) ensures Load(Clear(sh, o), c) == p.ChunkValue(c) {
      PaintLoads(sh, o, c);
      assert p in objs && p.Apart(o);
    }
    forall c: nat | forall p :: p in objs - {o} ==> !p.HasChunk(c) ensures Load(Clear(sh, o), c) == 0 {
      PaintLoads(sh, o, c);
      if !o.HasChunk(c) {
        forall p | p in objs ensures !p.HasChunk(c) {
          assert p == o || p in objs - {o};
        }
      }
    }
  }

  // ---- The runtime's drawing steps ----

  /** Make [user, user + size) addressable: whole chunks, then the partial tail. */
  function CarveUser(sh: Shadow, user: nat, size: nat): Shadow {
    var aligned, rem := size / 8 * 8, size % 8;
    var sh1 := if aligned > 0 then SetRange(sh, user, aligned, 0) else sh;
    if rem > 0 then SetByte(sh1, user + aligned, rem) else sh1
  }

  /** The chunks that set_shadow_range touches, by the addresses they start at. */
  predicate Overlaps(c: nat, start: nat, len: nat) {
    len > 0 && start - start % 8 <= 8 * c < RoundUp8(start + len)
  }

  lemma SetRangeLoads(sh: Shadow, start: nat, len: nat, v: int, c: nat)
    requires start + len <= LIMIT
    ensures c in SetRange(sh, start, len, v) <==> c in sh || Overlaps(c, start, len)
    ensures Overlaps(c, start, len) ==> SetRange(sh, start, len, v)[c] == v
    ensures !Overlaps(c, start, len) && c in sh ==> SetRange(sh, start, len, v)[c] == sh[c]
  {
  }

  lemma CarveLoads(sh: Shadow, user: nat, size: nat, c: nat)
    requires user % 8 == 0 && user + size + 8 <= LIMIT
    ensures c in CarveUser(sh, user, size) <==> c in sh || user <= 8 * c < user + size
    ensures user <= 8 * c < user + size ==>
              CarveUser(sh, user, size)[c] == if 8 * c + 8 <= user + size then 0 else user + size - 8 * c
    ensures c in sh && !(user <= 8 * c < user + size) ==> CarveUser(sh, user, size)[c] == sh[c]
  {
    var aligned, rem := size / 8 * 8, size % 8;
    assert size == aligned + rem;
    SetRangeLoads(sh, user, aligned, 0, c);
  }

  /** Poisoning a block and carving its user bytes out draws exactly the padded object. */
  lemma DrawIsPaint(sh: Shadow, o: Object, total: nat, size: nat)
    requires o.userHi == o.userLo + size && o.WellShaped() && o.live
    requires total > 0 && RoundUp8(o.lo + total) == o.hi && o.lo + total <= LIMIT
    ensures CarveUser(SetRange(sh, o.lo, total, o.code), o.userLo, size) == Paint(sh, o)
  {
    var sh' := CarveUser(SetRange(sh, o.lo, total, o.code), o.userLo, size);
    forall c: nat ensures SameAt(sh', Paint(sh, o), c) {
      DrawLoads(sh, o, total, size, c);
    }
    SameEverywhere(sh', Paint(sh, o));
  }

  predicate SameAt(a: Shadow, b: Shadow, c: nat) {
    (c in a <==> c in b) && (c in a ==> a[c] == b[c])
  }

  lemma SameEverywhere(a: Shadow, b: Shadow)
    requires forall c: nat :: SameAt(a, b, c)
    ensures a == b
  {
    forall c: nat ensures (c in a <==> c in b) && (c in a ==> a[c] == b[c]) {
      assert SameAt(a, b, c);
    }
  }

  lemma DrawLoads(sh: Shadow, o: Object, total: nat, size: nat, c: nat)
    requires o.userHi == o.userLo + size && o.WellShaped() && o.live
    requires total > 0 && RoundUp8(o.lo + total) == o.hi && o.lo + total <= LIMIT
    ensures SameAt(CarveUser(SetRange(sh, o.lo, total, o.code), o.userLo, size), Paint(sh, o), c)
  {
    SetRangeLoads(sh, o.lo, total, o.code, c);
    CarveLoads(SetRange(sh, o.lo, total, o.code), o.userLo, size, c);
    PaintLoads(sh, o, c);
    assert Overlaps(c, o.lo, total) <==> o.HasChunk(c);
  }

  /** Clearing the chunks of a padded object erases it. */
  lemma EraseIsClear(sh: Shadow, o: Object, total: nat)
    requires o.WellShaped() && total > 0 && RoundUp8(o.lo + total) == o.hi && o.lo + total <= LIMIT
    ensures SetRange(sh, o.lo, total, 0) == Clear(sh, o)
  {
    forall c: nat ensures SameAt(SetRange(sh, o.lo, total, 0), Clear(sh, o), c) {
      SetRangeLoads(sh, o.lo, total, 0, c);
      PaintLoads(sh, o, c);
      assert Overlaps(c, o.lo, total) <==> o.HasChunk(c);
    }
    SameEverywhere(SetRange(sh, o.lo, total, 0), Clear(sh, o));
  }

  /** Poisoning the user chunks of a live object as freed redraws it as a dead one. */
  lemma FreeIsPaint(sh: Shadow, objs: set<Object>, o: Object, size: nat)
    requires o.userHi == o.userLo + size && Shows(sh, objs) && o in objs
    requires forall c: nat :: o.HasChunk(c) ==> c in sh
    ensures SetRange(sh, o.userLo, RoundUp8(size), FREED_POISON) == Paint(sh, o.(live := false))
  {
    var sh' := SetRange(sh, o.userLo, RoundUp8(size), FREED_POISON);
    forall c: nat ensures SameAt(sh', Paint(sh, o.(live := false)), c) {
      assert o.HasChunk(c) ==> Load(sh, c) == o.ChunkValue(c);
      FreeLoads(sh, o, size, c);
    }
    SameEverywhere(sh', Paint(sh, o.(live := false)));
  }

  lemma FreeLoads(sh: Shadow, o: Object, size: nat, c: nat)
    requires o.userHi == o.userLo + size && o.WellShaped() && (o.HasChunk(c) ==> c in sh && sh[c] == o.ChunkValue(c))
    ensures SameAt(SetRange(sh, o.userLo, RoundUp8(size), FREED_POISON), Paint(sh, o.(live := false)), c)
  {
    SetRangeLoads(sh, o.userLo, RoundUp8(size), FREED_POISON, c);
    PaintLoads(sh, o.(live := false), c);
    UserChunks(o.userLo, size, c);
  }

  lemma UserChunks(user: nat, size: nat, c: nat)
    requires user % 8 == 0
    ensures Overlaps(c, user, RoundUp8(size)) <==> user <= 8 * c < user + size
  {
  }

  // ---- Two endpoints stand for the range ----

  /** Every poisoned byte lies in 16 poisoned bytes in a row. */
  ghost predicate RunsWhole(sh: Shadow) {
    forall b: nat :: BytePoisoned(sh, b) ==> InRun(sh, b)
  }

  ghost predicate InRun(sh: Shadow, b: nat) {
    exists l: nat :: l <= b < l + REDZONE && PoisonedRun(sh, l)
  }

  ghost predicate PoisonedRun(sh: Shadow, l: nat) {
    forall b: nat :: l <= b < l + REDZONE ==> BytePoisoned(sh, b)
  }

  /** The poisoned part of an object around a byte: at least a red zone, and it ends with
      a chunk. */
  lemma OffLimitsRun(o: Object, b: nat) returns (lo: nat, hi: nat)
    requires o.WellShaped() && o.Holds(b) && !o.Usable(b)
    ensures lo <= b < hi && lo + REDZONE <= hi && hi % 8 == 0
    ensures forall x: nat :: lo <= x < hi ==> o.Holds(x) && !o.Usable(x)
  {
    lo := if o.live && b >= o.userHi then o.userHi else o.lo;
    hi := if o.live && b < o.userLo then o.userLo else o.hi;
  }

  /** MAIN RESULT: in every shadow that shows red-zoned objects, poisoned runs are whole. */
  lemma ShownRunsAreWhole(sh: Shadow, objs: set<Object>)
    requires Shows(sh, objs)
    ensures RunsWhole(sh)
  {
    forall b: nat | BytePoisoned(sh, b) ensures InRun(sh, b) {
      ShadowAgrees(sh, objs, b);
      var o :| o in objs && o.Holds(b) && !o.Usable(b);
      var lo, hi := OffLimitsRun(o, b);
      var l := if b + REDZONE <= hi then b else hi - REDZONE;
      forall x: nat | l <= x < l + REDZONE ensures BytePoisoned(sh, x) {
        ShadowAgrees(sh, objs, x);
      }
      assert PoisonedRun(sh, l);
    }
  }

  /** The check of __redzone_check: first and last byte only. */
  predicate EndpointsPass(sh: Shadow, a: nat, size: nat)
    requires size > 0
  {
    !BytePoisoned(sh, a) && !BytePoisoned(sh, a + size - 1)
  }

  ghost predicate RangeAddressable(sh: Shadow, a: nat, size: nat) {
    forall b: nat :: a <= b < a + size ==> !BytePoisoned(sh, b)
  }

  /** MAIN RESULT: for an access of at most 17 bytes, two endpoints decide the range. */
  lemma EndpointsDecide(sh: Shadow, a: nat, size: nat)
    requires RunsWhole(sh) && 0 < size <= REDZONE + 1
    ensures EndpointsPass(sh, a, size) <==> RangeAddressable(sh, a, size)
  {
    if EndpointsPass(sh, a, size) {
      forall b: nat | BytePoisoned(sh, b) ensures !(a <= b < a + size) {
        assert InRun(sh, b);
        var l: nat :| l <= b < l + REDZONE && PoisonedRun(sh, l);
      }
    }
  }

  /** A longer range that starts in a live object's user bytes and ends inside the object
      passes exactly when it stays in the user bytes. */
  lemma EndpointsInsideObject(sh: Shadow, objs: set<Object>, o: Object, a: nat, size: nat)
    requires Shows(sh, objs) && o in objs && o.live && size > 0
    requires o.userLo <= a < o.userHi && a + size <= o.hi
    ensures EndpointsPass(sh, a, size) <==> a + size <= o.userHi
  {
    ShownObjectRules(sh, objs, o);
    EndpointsInside(sh, o, a, size);
  }

  /** The object alone decides the bytes it holds. */
  ghost predicate Rules(sh: Shadow, o: Object) {
    forall b: nat :: o.Holds(b) ==> (BytePoisoned(sh, b) <==> !o.Usable(b))
  }

  lemma ShownObjectRules(sh: Shadow, objs: set<Object>, o: Object)
    requires Shows(sh, objs) && o in objs
    ensures Rules(sh, o) && o.WellShaped()
  {
    forall b: nat | o.Holds(b) ensures BytePoisoned(sh, b) <==> !o.Usable(b) {
      OneOwner(sh, objs, o, b);
    }
  }

  lemma EndpointsInside(sh: Shadow, o: Object, a: nat, size: nat)
    requires Rules(sh, o) && o.live && o.lo <= o.userLo && o.userHi <= o.hi && size > 0
    requires o.userLo <= a < o.userHi && a + size <= o.hi
    ensures EndpointsPass(sh, a, size) <==> a + size <= o.userHi
  {
    assert o.Holds(a) && o.Holds(a + size - 1);
  }

  lemma OneOwner(sh: Shadow, objs: set<Object>, o: Object, b: nat)
    requires Shows(sh, objs) && o in objs && o.Holds(b)
    ensures BytePoisoned(sh, b) <==> !o.Usable(b)
  {
    ShadowAgrees(sh, objs, b);
    forall p | p in objs && p.Holds(b) ensures p == o {
      assert p != o ==> p.Apart(o);
    }
  }
}
