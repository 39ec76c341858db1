/** The heap runtime (runtime/redzone_rt.c), updating its tables in place; each entry point
    is proved against the state changes of Heap and Frames. */
module Runtime {
  import opened Bits
  import opened Shadow
  import opened Memory
  import opened Heap
  import opened Frames

  datatype Verdict = Pass | UseAfterFree | HeapOverflow | GlobalOverflow | StackOverflow | BufferOverflow

  class HeapRuntime {
    var shadow: Shadow
    var mem: Mem
    var blocks: seq<Block>
    ghost var others: set<Object>  // the stack and global objects registered now

    ghost function View(): State
      reads this
    {
      State(shadow, mem, blocks, others)
    }

    ghost predicate Valid()
      reads this
    {
      Inv(View())
    }

    constructor ()
      ensures Valid() && View() == EMPTY
    {
      shadow, mem, blocks, others := map[], map[], [], {};
    }

    // ---- Lookup ----

    /** find_block: the linear scan; -1 for NULL. */
    method FindBlock(addr: nat) returns (r: int)
      ensures -1 <= r < |blocks|
      ensures r >= 0 ==> ScanFinds(blocks, addr, r)
      ensures r < 0 ==> !InSomeBlock(View(), addr)
    {
      for i := 0 to |blocks|
        invariant forall j :: 0 <= j < i ==> !blocks[j].Extends(addr)
      {
        if blocks[i].base <= addr && addr < blocks[i].base + blocks[i].total {
          return i;
        }
      }
      r := -1;
    }

    /** block_from_user_ptr: the O(1) lookup. It finds a block exactly for a user start,
        and the block it finds is the one the linear scan would find. */
    method BlockFromUserPtr(p: nat) returns (r: int)
      requires Valid()
      ensures -1 <= r < |blocks|
      ensures r >= 0 <==> exists k: nat :: IsUserStart(View(), p, k)
      ensures r >= 0 ==> IsUserStart(View(), p, r) && ScanFinds(blocks, p, r)
    {
      forall k: nat ensures HeaderNames(View(), p, k) <==> IsUserStart(View(), p, k) {
        HeaderEqualsScan(View(), p, k);
      }
      r := -1;
      if HeaderGate(shadow, p) {
        var magic, index := LoadWord(mem, p - 16), LoadWord(mem, p - 8);
        if magic == MAGIC && index < |blocks| && blocks[index].user == p {
          r := index;
          HeaderEqualsScan(View(), p, index);
        }
      }
    }

    // ---- Allocation ----

    /** rz_allocate. `sys` is what the system allocator returns for the padded size, 0 when
        it fails. */
    method Allocate(size: nat, align: nat, ghost k: nat, sys: nat, site: Site) returns (ptr: nat)
      requires Valid() && 4 <= k < 64 && align == Pow2(k)
      requires sys != 0 && !TooBig(size, align) ==> Can(View(), Alloc(sys, size, k, site))
      modifies this
      ensures Valid()
      ensures ptr == 0 <==> size + 2 * REDZONE + (if align > REDZONE then align else 0) >= TWO64 || sys == 0
      ensures ptr == 0 ==> View() == old(View())
      ensures ptr != 0 ==> ptr == UserOf(sys, align) && NewBlock(sys, size, align, site).Shaped()
      ensures ptr != 0 ==> View() == AddBlock(old(View()), NewBlock(sys, size, align, site))
    {
      TooBigIsOverflow(size, align);
      var slack := if align > REDZONE then align else 0;
      if size > SIZE_MAX - 2 * REDZONE - slack {
        return 0;
      }
      var total := size + 2 * REDZONE + slack;
      if sys == 0 {
        return 0;
      }
      NewBlockFits(View(), sys, size, k, site);
      var user := AlignUp(sys, size, align, k, site);
      Place(NewBlock(sys, size, align, site));
      ptr := user;
    }

    /** Record a block, draw its red zones and leave its header. */
    method Place(b: Block)
      requires Valid() && b.Shaped() && !b.freed && Fits(View(), ObjectOf(b)) && |blocks| < TWO64
      modifies this
      ensures Valid() && View() == AddBlock(old(View()), b)
    {
      PlaceSteps(View(), b);
      ghost var s' := AddBlock(View(), b);
      var idx := |blocks|;
      blocks := blocks + [b];
      shadow := SetRange(shadow, b.base, b.total, RZ_POISON);
      shadow := CarveUser(shadow, b.user, b.size);
      mem := StoreWord(mem, b.user - 16, MAGIC);
      mem := StoreWord(mem, b.user - 8, idx);
      assert View() == s';
    }

    /** The mask computation of the user address. */
    method AlignUp(base: nat, size: nat, align: nat, ghost k: nat, ghost site: Site) returns (user: nat)
      requires 4 <= k < 64 && align == Pow2(k) && base % 16 == 0 && !TooBig(size, align)
      requires base + TotalOf(size, align) <= LIMIT
      ensures user == UserOf(base, align) && NewBlock(base, size, align, site).Shaped()
    {
      AlignedLayout(base, size, k, site);
      user := BitAnd(base + REDZONE + (align - 1), TWO64 - align);
    }

    /** __redzone_aligned_alloc */
    method AlignedAlloc(alignment: nat, size: nat, sys: nat, site: Site) returns (ptr: nat)
      requires Valid() && alignment < TWO64
      requires forall k: nat :: 4 <= k < 64 && Pow2(k) == Effective(alignment) && sys != 0 && !TooBig(size, Pow2(k)) ==>
                 Can(View(), Alloc(sys, size, k, site))
      modifies this
      ensures Valid()
      ensures ptr == 0 <==>
              || !IsPow2(alignment) || sys == 0
              || size + 2 * REDZONE + (if alignment > REDZONE then alignment else 0) >= TWO64
      ensures ptr == 0 ==> View() == old(View())
      ensures ptr != 0 ==> alignment > 0 && ptr % alignment == 0 && ptr == UserOf(sys, Effective(alignment))
      ensures ptr != 0 ==> NewBlock(sys, size, Effective(alignment), site).Shaped()
      ensures ptr != 0 ==> View() == AddBlock(old(View()), NewBlock(sys, size, Effective(alignment), site))
    {
      IsPow2TestCorrect(alignment);
      if !IsPow2Test(alignment) {
        return 0;
      }
      ghost var e: nat :| alignment == Pow2(e);
      ghost var k := if e < 4 then 4 else e;
      EffectiveAlignment(e);
      ptr := Allocate(size, Effective(alignment), k, sys, site);
      if ptr != 0 {
        RoundingUp(sys, Pow2(k));
        SmallerPower(ptr, e, k);
      }
    }

    // ---- Freeing ----

    /** __redzone_free; the two error results abort the program. */
    method Free(ptr: nat) returns (r: FreeResult)
      requires Valid()
      modifies this
      ensures Valid() && FreeSpec(old(View()), ptr, r, View())
    {
      if ptr == 0 {
        return Ignored;
      }
      var k := BlockFromUserPtr(ptr);
      if k < 0 {
        var f := FindBlock(ptr);
        return if f < 0 then Ignored else InvalidFree;
      }
      if blocks[k].freed {
        return DoubleFree;
      }
      ghost var s := View();
      FreeSteps(s, k);
      InvFreeBlock(s, k);
      var user, size := blocks[k].user, blocks[k].size;
      blocks := blocks[k := blocks[k].(freed := true)];
      shadow := SetRange(shadow, user, RoundUp8(size), FREED_POISON);
      assert View() == FreeBlock(s, k) && IsUserStart(s, ptr, k);
      r := Done;
    }

    // ---- Reallocation ----

    /** __redzone_realloc: an error result of the free inside aborts the program. */
    method Realloc(ptr: nat, size: nat, sys: nat, site: Site) returns (np: nat, r: FreeResult)
      requires Valid()
      requires sys != 0 && !TooBig(size, REDZONE) ==> Can(View(), Alloc(sys, size, 4, site))
      modifies this
      ensures Valid()
      ensures ptr != 0 && size == 0 ==> np == 0 && FreeSpec(old(View()), ptr, r, View())
      ensures (ptr == 0 || size > 0) && (sys == 0 || size + 2 * REDZONE >= TWO64) ==>
                np == 0 && r == Ignored && View() == old(View())
      ensures (ptr == 0 || size > 0) && sys != 0 && size + 2 * REDZONE < TWO64 ==>
                && np == UserOf(sys, REDZONE) && NewBlock(sys, size, REDZONE, site).Shaped()
                && if ptr == 0 then r == Ignored && View() == AddBlock(old(View()), NewBlock(sys, size, REDZONE, site))
                   else Reallocated(old(View()), ptr, NewBlock(sys, size, REDZONE, site), r, View())
    {
      Pow2Values();
      if ptr == 0 {
        np := Allocate(size, REDZONE, 4, sys, site);
        return np, Ignored;
      }
      if size == 0 {
        r := Free(ptr);
        return 0, r;
      }
      np := Allocate(size, REDZONE, 4, sys, site);
      if np == 0 {
        return 0, Ignored;
      }
      r := CarryOver(old(View()), ptr, size, NewBlock(sys, size, REDZONE, site));
    }

    /** The second half of realloc: copy into the new block and free the old address. */
    method CarryOver(ghost s: State, ptr: nat, size: nat, b: Block) returns (r: FreeResult)
      requires Valid() && ptr > 0 && b.Shaped() && !b.freed && b.size == size && View() == AddBlock(s, b)
      modifies this
      ensures Valid() && Reallocated(s, ptr, b, r, View())
    {
      var copy := CarryCount(ptr, size);
      InvCarried(s, ptr, b);
      mem := Copy(mem, b.user, ptr, copy);
      r := Free(ptr);
    }

    method CarryCount(ptr: nat, size: nat) returns (copy: nat)
      requires Valid()
      ensures copy == CopyCount(View(), ptr, size)
    {
      var k := BlockFromUserPtr(ptr);
      if k < 0 {
        k := FindBlock(ptr);
      }
      if k < 0 {
        return 0;
      }
      CopyCountOf(View(), ptr, size, k);
      copy := CarriedBytes(blocks[k], size);
    }

    // ---- Stack and global red zones ----

    /** __redzone_stack_enter */
    method StackEnter(base: nat, size: nat)
      requires Valid() && base % 16 == 0 && base + SlotSize(size) <= LIMIT
      requires Unused(View(), base, base + SlotSize(size))
      modifies this
      ensures Valid() && View() == DrawOther(old(View()), FrameObject(base, size))
    {
      ghost var o := FrameObject(base, size);
      FrameShaped(base, size);
      PaddingAgrees(base, size, false);
      DrawableFits(View(), o);
      InvDrawOther(View(), o);
      FrameDraws(shadow, base, size);
      shadow := SetRange(shadow, base, size + 2 * REDZONE, STACK_RZ);
      shadow := CarveUser(shadow, base + REDZONE, size);
      others := others + {o};
    }

    /** __redzone_stack_leave */
    method StackLeave(base: nat, size: nat)
      requires Valid() && base % 16 == 0 && base + SlotSize(size) <= LIMIT && FrameObject(base, size) in others
      modifies this
      ensures Valid() && View() == EraseOther(old(View()), FrameObject(base, size))
    {
      ghost var o := FrameObject(base, size);
      FrameShaped(base, size);
      InvEraseOther(View(), o);
      FrameDraws(shadow, base, size);
      shadow := SetRange(shadow, base, size + 2 * REDZONE, 0);
      others := others - {o};
    }

    /** __redzone_global_register, for the data of an internal wrapper at base. */
    method GlobalRegister(base: nat, size: nat)
      requires Valid() && base % 16 == 0 && base + WrapperSize(size, false) <= LIMIT
      requires Unused(View(), base, base + WrapperSize(size, false))
      modifies this
      ensures Valid() && View() == DrawOther(old(View()), GlobalObject(base + REDZONE, size))
    {
      var data := base + REDZONE;
      ghost var o := GlobalObject(data, size);
      GlobalShaped(base, size);
      PaddingAgrees(base, size, false);
      DrawableFits(View(), o);
      InvDrawOther(View(), o);
      GlobalDraws(shadow, base, size);
      shadow := SetRange(shadow, data - REDZONE, size + 2 * REDZONE, GLOBAL_RZ);
      shadow := CarveUser(shadow, data, size);
      others := others + {o};
    }

    /** __redzone_global_register_right, for an external wrapper at data. */
    method GlobalRegisterRight(data: nat, size: nat)
      requires Valid() && data % 16 == 0 && data + WrapperSize(size, true) <= LIMIT
      requires Unused(View(), data, data + WrapperSize(size, true))
      modifies this
      ensures Valid() && View() == DrawOther(old(View()), RightObject(data, size))
    {
      ghost var o := RightObject(data, size);
      RightShaped(data, size);
      PaddingAgrees(data, size, true);
      DrawableFits(View(), o);
      InvDrawOther(View(), o);
      RightIsPaint(shadow, data, size);
      shadow := SetRange(shadow, data + size, REDZONE, GLOBAL_RZ);
      shadow := CarveUser(shadow, data, size);
      others := others + {o};
    }

    // ---- The check ----

    /** __redzone_check on an access that does not wrap around the address space: every
        verdict but Pass reports and aborts. */
    method Check(a: nat, size: nat) returns (v: Verdict)
      requires Valid() && a + size <= TWO64
      ensures v == Pass <==> size == 0 || EndpointsPass(shadow, a, size)
      ensures size <= REDZONE + 1 ==> (v == Pass <==> Clean(View(), a, size))
      ensures v == UseAfterFree ==> exists k: nat :: ScanFinds(blocks, a, k) && blocks[k].freed
      ensures v == HeapOverflow ==> exists k: nat :: ScanFinds(blocks, a, k) && !blocks[k].freed
      ensures v in {GlobalOverflow, StackOverflow, BufferOverflow} ==> !InSomeBlock(View(), a)
      ensures v == GlobalOverflow ==> Blames(View(), GLOBAL_RZ, a, a + size - 1)
      ensures v == StackOverflow ==> Blames(View(), STACK_RZ, a, a + size - 1)
      ensures v == GlobalOverflow ==> ZoneCode(shadow, a, a + size - 1) == GLOBAL_RZ
      ensures v == StackOverflow ==> ZoneCode(shadow, a, a + size - 1) == STACK_RZ
      ensures v == BufferOverflow ==> ZoneCode(shadow, a, a + size - 1) !in {GLOBAL_RZ, STACK_RZ}
    {
      CheckFacts(View(), a, size);
      if size == 0 {
        return Pass;
      }
      if !BytePoisoned(shadow, a) && !BytePoisoned(shadow, a + size - 1) {
        return Pass;
      }
      var k := FindBlock(a);
      if k >= 0 {
        return if blocks[k].freed then UseAfterFree else HeapOverflow;
      }
      var s1, s2 := LoadAt(shadow, a), LoadAt(shadow, a + size - 1);
      var code := if s1 < 0 then s1 else if s2 < 0 then s2 else 0;
      v := if code == GLOBAL_RZ then GlobalOverflow else if code == STACK_RZ then StackOverflow else BufferOverflow;
    }
  }

  /** The code of the first end of the access whose whole chunk is poisoned, or 0. */
  function ZoneCode(sh: Shadow, first: nat, last: int): int {
    if LoadAt(sh, first) < 0 then LoadAt(sh, first)
    else if 0 <= last && LoadAt(sh, last) < 0 then LoadAt(sh, last)
    else 0
  }

  /** A stack or global object with this code holds one of the two bytes off limits. */
  ghost predicate Blames(s: State, code: int, first: nat, last: nat) {
    exists o :: o in s.others && o.code == code && (Poisons(o, first) || Poisons(o, last))
  }

  /** A stack or global code in the shadow comes from an object of that kind. */
  lemma CodeBlames(s: State, b: nat, first: nat, last: nat)
    requires Inv(s) && (b == first || b == last)
    ensures LoadAt(s.shadow, b) in {GLOBAL_RZ, STACK_RZ} ==> Blames(s, LoadAt(s.shadow, b), first, last)
  {
    if LoadAt(s.shadow, b) in {GLOBAL_RZ, STACK_RZ} {
      var o :| o in Objects(s) && o.HasChunk(b / 8);
      assert o in s.others || o.code == RZ_POISON;
      assert Load(s.shadow, b / 8) == o.ChunkValue(b / 8);
      ChunkPoisons(o, b);
    }
  }

  lemma ChunkPoisons(o: Object, b: nat)
    requires o.WellShaped() && o.HasChunk(b / 8) && o.ChunkValue(b / 8) in {GLOBAL_RZ, STACK_RZ}
    ensures o.code == o.ChunkValue(b / 8) && Poisons(o, b)
  {
  }

  lemma CheckFacts(s: State, a: nat, size: nat)
    requires Inv(s)
    ensures 0 < size <= REDZONE + 1 ==> (EndpointsPass(s.shadow, a, size) <==> Clean(s, a, size))
    ensures size == 0 ==> Clean(s, a, size)
    ensures size > 0 ==> CodeFits(s, LoadAt(s.shadow, a), a, size)
    ensures size > 0 ==> CodeFits(s, LoadAt(s.shadow, a + size - 1), a, size)
  {
    CheckIsExact(s, a, size);
    if size > 0 {
      CodeBlames(s, a, a, a + size - 1);
      CodeBlames(s, a + size - 1, a, a + size - 1);
    }
  }

  /** A stack or global code is that of an object which holds an end of the access. */
  ghost predicate CodeFits(s: State, code: int, a: nat, size: nat)
    requires size > 0
  {
    code in {GLOBAL_RZ, STACK_RZ} ==> Blames(s, code, a, a + size - 1)
  }

  lemma CheckIsExact(s: State, a: nat, size: nat)
    requires Inv(s)
    ensures 0 < size <= REDZONE + 1 ==> (EndpointsPass(s.shadow, a, size) <==> Clean(s, a, size))
    ensures size == 0 ==> Clean(s, a, size)
  {
    ShownRunsAreWhole(s.shadow, Objects(s));
    CleanIsAddressable(s, a, size);
    if 0 < size <= REDZONE + 1 {
      EndpointsDecide(s.shadow, a, size);
    }
  }
}
