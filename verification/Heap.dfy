/** The allocator's state over a run: the block table, the shadow, the headers kept in red
    zones, and the stack and global objects registered beside them. */
module Heap {
  import opened Bits
  import opened Shadow
  import opened Memory

  const MAGIC: nat := 0x7265_647A_6F6E_6521  // "redzone!"

  /** An allocation site; NoFile stands for a NULL file name. */
  datatype Site = NoFile(line: int) | At(file: string, line: int)

  datatype Block = Block(base: nat, total: nat, user: nat, size: nat, freed: bool, site: Site) {
    /** The bytes the system gave for the block. */
    predicate Extends(p: nat) {
      base <= p < base + total
    }
    predicate Shaped() {
      && base % 16 == 0 && user % 16 == 0
      && base + REDZONE <= user && user + size + REDZONE <= base + total <= LIMIT
    }
  }

  function ObjectOf(b: Block): Object {
    Object(b.base, b.user, b.user + b.size, RoundUp8(b.base + b.total), RZ_POISON, !b.freed)
  }

  lemma ObjectShaped(b: Block)
    requires b.Shaped()
    ensures ObjectOf(b).WellShaped()
  {
  }

  /** others: the stack and global objects, all with another code. */
  datatype State = State(shadow: Shadow, mem: Mem, blocks: seq<Block>, others: set<Object>)

  const EMPTY := State(map[], map[], [], {})

  function BlockObjects(blocks: seq<Block>): set<Object> {
    set k | 0 <= k < |blocks| :: ObjectOf(blocks[k])
  }

  function Objects(s: State): set<Object> {
    BlockObjects(s.blocks) + s.others
  }

  // ---- The invariant ----

  ghost predicate HeaderOk(mem: Mem, b: Block, k: nat)
    requires b.user >= 16
  {
    LoadWord(mem, b.user - 16) == MAGIC && LoadWord(mem, b.user - 8) == k
  }

  ghost predicate BlocksOk(blocks: seq<Block>) {
    && (forall k :: 0 <= k < |blocks| ==> blocks[k].Shaped())
    && (forall j, k :: 0 <= j < k < |blocks| ==> ObjectOf(blocks[j]).Apart(ObjectOf(blocks[k])))
  }

  ghost predicate Committed(sh: Shadow, o: Object) {
    forall c: nat :: o.HasChunk(c) ==> c in sh
  }

  ghost predicate Inv(s: State) {
    && BlocksOk(s.blocks)
    && Shows(s.shadow, Objects(s))
    && (forall o :: o in s.others ==> o.code != RZ_POISON && o.lo % 16 == 0)
    && (forall k :: 0 <= k < |s.blocks| ==>
          HeaderOk(s.mem, s.blocks[k], k) && Committed(s.shadow, ObjectOf(s.blocks[k])))
  }

  // ---- The operations, as changes of the state ----

  ghost predicate Fits(s: State, o: Object) {
    forall p :: p in Objects(s) ==> p.Apart(o)
  }

  function WriteHeader(mem: Mem, user: nat, idx: nat): Mem
    requires user >= 16
  {
    StoreWord(StoreWord(mem, user - 16, MAGIC), user - 8, idx)
  }

  function AddBlock(s: State, b: Block): State
    requires b.Shaped()
  {
    State(Paint(s.shadow, ObjectOf(b)), WriteHeader(s.mem, b.user, |s.blocks|), s.blocks + [b], s.others)
  }

  function FreeBlock(s: State, k: nat): State
    requires k < |s.blocks|
  {
    var b := s.blocks[k].(freed := true);
    State(Paint(s.shadow, ObjectOf(b)), s.mem, s.blocks[k := b], s.others)
  }

  function DrawOther(s: State, o: Object): State {
    State(Paint(s.shadow, o), s.mem, s.blocks, s.others + {o})
  }

  function EraseOther(s: State, o: Object): State {
    State(Clear(s.shadow, o), s.mem, s.blocks, s.others - {o})
  }

  function StoreByte(s: State, a: nat, v: Byte): State {
    State(s.shadow, s.mem[a := v], s.blocks, s.others)
  }

  // ---- Every operation keeps the invariant ----

  lemma BlockIsObject(s: State, k: nat)
    requires k < |s.blocks|
    ensures ObjectOf(s.blocks[k]) in Objects(s)
  {
  }

  lemma HeaderWritten(mem: Mem, user: nat, idx: nat)
    requires user >= 16 && idx < TWO64
    ensures LoadWord(WriteHeader(mem, user, idx), user - 16) == MAGIC
    ensures LoadWord(WriteHeader(mem, user, idx), user - 8) == idx
    ensures forall a: nat :: a < user - 16 || a >= user ==> ByteAt(WriteHeader(mem, user, idx), a) == ByteAt(mem, a)
  {
    var mem1 := StoreWord(mem, user - 16, MAGIC);
    WordRoundTrip(mem, user - 16, MAGIC);
    WordRoundTrip(mem1, user - 8, idx);
    WordFrame(mem1, StoreWord(mem1, user - 8, idx), user - 16);
  }

  /** A header survives any change of memory outside its block's left red zone. */
  lemma HeaderFrame(mem: Mem, mem': Mem, b: Block, k: nat)
    requires b.user >= 16 && HeaderOk(mem, b, k)
    requires forall a: nat :: b.user - 16 <= a < b.user ==> ByteAt(mem', a) == ByteAt(mem, a)
    ensures HeaderOk(mem', b, k)
  {
    WordFrame(mem, mem', b.user - 16);
    WordFrame(mem, mem', b.user - 8);
  }

  lemma AddBlockObjects(blocks: seq<Block>, b: Block)
    ensures BlockObjects(blocks + [b]) == BlockObjects(blocks) + {ObjectOf(b)}
  {
    var all := blocks + [b];
    forall o ensures o in BlockObjects(all) <==> o in BlockObjects(blocks) + {ObjectOf(b)} {
      if o in BlockObjects(blocks) {
        var k :| 0 <= k < |blocks| && o == ObjectOf(blocks[k]);
        assert all[k] == blocks[k];
      }
      if o == ObjectOf(b) {
        assert all[|blocks|] == b;
      }
    }
  }

  lemma FreedBlockObjects(blocks: seq<Block>, k: nat)
    requires k < |blocks| && BlocksOk(blocks)
    ensures BlockObjects(blocks[k := blocks[k].(freed := true)]) ==
            BlockObjects(blocks) - {ObjectOf(blocks[k])} + {ObjectOf(blocks[k].(freed := true))}
  {
    var b' := blocks[k].(freed := true);
    var blocks' := blocks[k := b'];
    forall o
      ensures o in BlockObjects(blocks') <==> o in BlockObjects(blocks) - {ObjectOf(blocks[k])} + {ObjectOf(b')}
    {
      if j :| 0 <= j < |blocks| && j != k && o == ObjectOf(blocks[j]) {
        assert blocks'[j] == blocks[j];
        assert blocks[j].Shaped() && blocks[k].Shaped();
        assert o.Apart(ObjectOf(blocks[k])) || ObjectOf(blocks[k]).Apart(o);
      }
      assert blocks'[k] == b';
    }
  }

  lemma AddBlockOk(blocks: seq<Block>, b: Block)
    requires BlocksOk(blocks) && b.Shaped()
    requires forall k :: 0 <= k < |blocks| ==> ObjectOf(blocks[k]).Apart(ObjectOf(b))
    ensures BlocksOk(blocks + [b])
  {
  }

  lemma AddBlockHeader(s: State, b: Block, k: nat)
    requires Inv(s) && b.Shaped() && Fits(s, ObjectOf(b)) && |s.blocks| < TWO64 && k <= |s.blocks|
    ensures var b' := (s.blocks + [b])[k];
            b'.Shaped() && HeaderOk(AddBlock(s, b).mem, b', k) && Committed(AddBlock(s, b).shadow, ObjectOf(b'))
  {
    HeaderWritten(s.mem, b.user, |s.blocks|);
    if k < |s.blocks| {
      BlockIsObject(s, k);
      assert ObjectOf(s.blocks[k]).Apart(ObjectOf(b));
      HeaderFrame(s.mem, AddBlock(s, b).mem, s.blocks[k], k);
      assert Committed(s.shadow, ObjectOf(s.blocks[k]));
    }
  }

  lemma InvAddBlock(s: State, b: Block)
    requires Inv(s) && b.Shaped() && !b.freed && Fits(s, ObjectOf(b)) && |s.blocks| < TWO64
    ensures Inv(AddBlock(s, b))
  {
    var s' := AddBlock(s, b);
    forall k | 0 <= k < |s.blocks| ensures ObjectOf(s.blocks[k]).Apart(ObjectOf(b)) {
      BlockIsObject(s, k);
    }
    AddBlockOk(s.blocks, b);
    AddBlockShows(s, b);
    forall k | 0 <= k < |s'.blocks|
      ensures HeaderOk(s'.mem, s'.blocks[k], k) && Committed(s'.shadow, ObjectOf(s'.blocks[k]))
    {
      AddBlockHeader(s, b, k);
    }
  }

  lemma AddBlockShows(s: State, b: Block)
    requires Shows(s.shadow, Objects(s)) && b.Shaped() && Fits(s, ObjectOf(b))
    ensures Shows(AddBlock(s, b).shadow, Objects(AddBlock(s, b)))
  {
    ObjectShaped(b);
    AddBlockObjects(s.blocks, b);
    PaintNew(s.shadow, Objects(s), ObjectOf(b));
    assert Objects(AddBlock(s, b)) == Objects(s) + {ObjectOf(b)};
  }

  lemma FreeBlockObjects(s: State, k: nat)
    requires BlocksOk(s.blocks) && k < |s.blocks| && forall o :: o in s.others ==> o.code != RZ_POISON
    ensures Objects(FreeBlock(s, k)) ==
            Objects(s) - {ObjectOf(s.blocks[k])} + {ObjectOf(s.blocks[k]).(live := false)}
  {
    FreedBlockObjects(s.blocks, k);
    assert ObjectOf(s.blocks[k]) !in s.others;
  }

  lemma FreeBlockShows(s: State, k: nat)
    requires Inv(s) && k < |s.blocks|
    ensures Shows(FreeBlock(s, k).shadow, Objects(FreeBlock(s, k)))
  {
    BlockIsObject(s, k);
    FreeBlockObjects(s, k);
    PaintFreed(s.shadow, Objects(s), ObjectOf(s.blocks[k]));
  }

  lemma InvFreeBlock(s: State, k: nat)
    requires Inv(s) && k < |s.blocks|
    ensures Inv(FreeBlock(s, k))
  {
    var s' := FreeBlock(s, k);
    FreeBlockShows(s, k);
    FreedBlocksOk(s.blocks, k);
    forall j | 0 <= j < |s'.blocks|
      ensures HeaderOk(s'.mem, s'.blocks[j], j) && Committed(s'.shadow, ObjectOf(s'.blocks[j]))
    {
      FreeBlockHeader(s.shadow, s.mem, s.blocks, k, j);
    }
  }

  lemma FreeBlockHeader(sh: Shadow, mem: Mem, blocks: seq<Block>, k: nat, j: nat)
    requires k < |blocks| && j < |blocks| && blocks[j].Shaped()
    requires HeaderOk(mem, blocks[j], j) && Committed(sh, ObjectOf(blocks[j]))
    ensures var b := blocks[k := blocks[k].(freed := true)][j];
            HeaderOk(mem, b, j) && Committed(Paint(sh, ObjectOf(blocks[k].(freed := true))), ObjectOf(b))
  {
    assert forall c: nat :: ObjectOf(blocks[j].(freed := true)).HasChunk(c) == ObjectOf(blocks[j]).HasChunk(c);
  }

  lemma FreedBlocksOk(blocks: seq<Block>, k: nat)
    requires BlocksOk(blocks) && k < |blocks|
    ensures BlocksOk(blocks[k := blocks[k].(freed := true)])
  {
  }

  lemma InvDrawOther(s: State, o: Object)
    requires Inv(s) && o.WellShaped() && o.lo % 16 == 0 && o.code != RZ_POISON && Fits(s, o)
    ensures Inv(DrawOther(s, o))
  {
    PaintNew(s.shadow, Objects(s), o);
    assert Objects(DrawOther(s, o)) == Objects(s) + {o};
  }

  lemma InvEraseOther(s: State, o: Object)
    requires Inv(s) && o in s.others
    ensures Inv(EraseOther(s, o))
  {
    ClearOld(s.shadow, Objects(s), o);
    forall p ensures p in Objects(EraseOther(s, o)) <==> p in Objects(s) - {o} {
      if p in BlockObjects(s.blocks) {
        assert p.code == RZ_POISON;
      }
    }
    assert Objects(EraseOther(s, o)) == Objects(s) - {o};
  }

  function WithMem(s: State, mem: Mem): State {
    State(s.shadow, mem, s.blocks, s.others)
  }

  /** Writes to addressable bytes reach no header. */
  lemma InvWithMem(s: State, mem: Mem)
    requires Inv(s) && forall a: nat :: BytePoisoned(s.shadow, a) ==> ByteAt(mem, a) == ByteAt(s.mem, a)
    ensures Inv(WithMem(s, mem))
  {
    forall k | 0 <= k < |s.blocks| ensures HeaderOk(mem, s.blocks[k], k) {
      var b := s.blocks[k];
      BlockIsObject(s, k);
      forall a: nat | b.user - 16 <= a < b.user ensures ByteAt(mem, a) == ByteAt(s.mem, a) {
        assert b.Shaped();
        OneOwner(s.shadow, Objects(s), ObjectOf(b), a);
      }
      HeaderFrame(s.mem, mem, b, k);
    }
    assert Objects(WithMem(s, mem)) == Objects(s);
  }

  lemma InvStoreByte(s: State, a: nat, v: Byte)
    requires Inv(s) && !BytePoisoned(s.shadow, a)
    ensures Inv(StoreByte(s, a, v))
  {
    InvWithMem(s, s.mem[a := v]);
  }

  // ---- Finding a block ----

  /** The block that the linear scan stops at: the first whose extent holds p. */
  ghost predicate ScanFinds(blocks: seq<Block>, p: nat, k: nat) {
    k < |blocks| && blocks[k].Extends(p) && forall j :: 0 <= j < k ==> !blocks[j].Extends(p)
  }

  /** An address lies in at most one block, and a user start in its own. */
  lemma OneExtent(blocks: seq<Block>, j: nat, k: nat, p: nat)
    requires BlocksOk(blocks) && j < |blocks| && k < |blocks|
    ensures blocks[j].Extends(p) && blocks[k].Extends(p) ==> j == k
  {
    if j < k {
      ApartExtents(blocks[j], blocks[k], p);
    } else if k < j {
      ApartExtents(blocks[k], blocks[j], p);
    }
  }

  lemma ApartExtents(b: Block, c: Block, p: nat)
    requires ObjectOf(b).Apart(ObjectOf(c))
    ensures !(b.Extends(p) && c.Extends(p))
  {
  }

  /** The chunk just below a user start shows the heap code, so the header is read there. */
  lemma UserStartIsMarked(s: State, k: nat)
    requires Inv(s) && k < |s.blocks|
    ensures LoadAt(s.shadow, s.blocks[k].user - 8) == RZ_POISON
    ensures ScanFinds(s.blocks, s.blocks[k].user, k)
  {
    var b := s.blocks[k];
    BlockIsObject(s, k);
    assert b.Shaped();
    var c := (b.user - 8) / 8;
    assert 8 * c == b.user - 8;
    assert ObjectOf(b).HasChunk(c);
    assert Load(s.shadow, c) == ObjectOf(b).ChunkValue(c);
    forall j | 0 <= j < k ensures !s.blocks[j].Extends(b.user) {
      if s.blocks[j].Extends(b.user) {
        OneExtent(s.blocks, j, k, b.user);
      }
    }
  }

  ghost predicate IsUserStart(s: State, p: nat, k: nat) {
    k < |s.blocks| && s.blocks[k].user == p
  }

  /** MAIN RESULT: the O(1) lookup equals the scan. The header below p names block k
      exactly when p is that block's user start, and then k is where a scan for p stops. */
  lemma HeaderEqualsScan(s: State, p: nat, k: nat)
    requires Inv(s)
    ensures HeaderNames(s, p, k) <==> IsUserStart(s, p, k)
    ensures IsUserStart(s, p, k) ==> ScanFinds(s.blocks, p, k)
  {
    if IsUserStart(s, p, k) {
      UserStartIsMarked(s, k);
      assert s.blocks[k].Shaped() && HeaderOk(s.mem, s.blocks[k], k);
    }
  }

  /** What block_from_user_ptr tests before it returns block k. */
  ghost predicate HeaderNames(s: State, p: nat, k: nat) {
    && HeaderGate(s.shadow, p)
    && LoadWord(s.mem, p - 16) == MAGIC && LoadWord(s.mem, p - 8) == k
    && k < |s.blocks| && s.blocks[k].user == p
  }

  /** The shadow test that guards the header read [p - 16, p). */
  predicate HeaderGate(sh: Shadow, p: nat) {
    p >= 16 && LoadAt(sh, p - 8) == RZ_POISON
  }

  /** The guarded read belongs to one block: it starts at most 8 bytes before the block's
      base and ends at most 8 bytes after its last chunk. It stays inside the block exactly
      when p is at least a header's length above the base and not past the block's end; an
      allocator's pointer, 16-aligned, is never too low. */
  lemma HeaderReadInside(s: State, p: nat) returns (k: nat)
    requires Inv(s) && HeaderGate(s.shadow, p)
    ensures k < |s.blocks|
    ensures var b := s.blocks[k];
            && b.base + 8 <= p < RoundUp8(b.base + b.total) + 8
            && ((forall a: nat :: p - 16 <= a < p ==> b.Extends(a)) <==> b.base + 16 <= p <= b.base + b.total)
            && (p % 16 == 0 ==> b.base + 16 <= p)
  {
    k := ChunkOwner(s, (p - 8) / 8);
    assert s.blocks[k].Shaped();
    ReadBounds(s.blocks[k], p);
  }

  lemma ReadBounds(b: Block, p: nat)
    requires p >= 16 && b.base % 16 == 0 && ObjectOf(b).HasChunk((p - 8) / 8)
    ensures b.base + 8 <= p < RoundUp8(b.base + b.total) + 8
    ensures (forall a: nat :: p - 16 <= a < p ==> b.Extends(a)) <==> b.base + 16 <= p <= b.base + b.total
    ensures p % 16 == 0 ==> b.base + 16 <= p
  {
    var q := b.base / 16;
    assert b.base == 16 * q;
    if forall a: nat :: p - 16 <= a < p ==> b.Extends(a) {
      assert b.Extends(p - 16) && b.Extends(p - 1);
    }
  }

  /** Only a block has the heap red zone's code. */
  lemma ChunkOwner(s: State, c: nat) returns (k: nat)
    requires Inv(s) && Load(s.shadow, c) == RZ_POISON
    ensures k < |s.blocks| && ObjectOf(s.blocks[k]).HasChunk(c)
  {
    var o :| o in Objects(s) && o.HasChunk(c);
    assert Load(s.shadow, c) == o.ChunkValue(c);
    assert o !in s.others;
    k :| 0 <= k < |s.blocks| && ObjectOf(s.blocks[k]) == o;
  }

  /** Too low a pointer does pass the gate: 8 bytes into any block, where the header read
      starts before the block. */
  lemma HeaderReadSpills(s: State, k: nat)
    requires Inv(s) && k < |s.blocks| && s.blocks[k].base >= 8
    ensures HeaderGate(s.shadow, s.blocks[k].base + 8) && !s.blocks[k].Extends(s.blocks[k].base + 8 - 16)
  {
    var b := s.blocks[k];
    BlockIsObject(s, k);
    assert b.Shaped();
    var c := b.base / 8;
    assert 8 * c == b.base && ObjectOf(b).HasChunk(c);
    assert Load(s.shadow, c) == ObjectOf(b).ChunkValue(c);
  }

  // ---- Freeing ----

  datatype FreeResult = Ignored | InvalidFree | DoubleFree | Done

  ghost predicate InSomeBlock(s: State, p: nat) {
    exists k: nat :: k < |s.blocks| && s.blocks[k].Extends(p)
  }

  /** What free(p) must do, in terms of the blocks alone. */
  ghost predicate FreeSpec(s: State, p: nat, r: FreeResult, s': State) {
    match r
    case Ignored => s' == s && (p == 0 || !InSomeBlock(s, p))
    case InvalidFree => s' == s && InSomeBlock(s, p) && forall k: nat :: !IsUserStart(s, p, k)
    case DoubleFree => s' == s && exists k: nat :: IsUserStart(s, p, k) && s.blocks[k].freed
    case Done => exists k: nat :: IsUserStart(s, p, k) && !s.blocks[k].freed && s' == FreeBlock(s, k)
  }

  /** The four outcomes exclude each other: free of an address has one meaning. */
  lemma FreeIsClassified(s: State, p: nat, r1: FreeResult, s1: State, r2: FreeResult, s2: State)
    requires Inv(s) && p > 0 && FreeSpec(s, p, r1, s1) && FreeSpec(s, p, r2, s2)
    ensures r1 == r2 && s1 == s2
  {
    forall j: nat, k: nat | IsUserStart(s, p, j) && IsUserStart(s, p, k) ensures j == k {
      assert s.blocks[j].Shaped() && s.blocks[k].Shaped();
      OneExtent(s.blocks, j, k, p);
    }
    forall k: nat | IsUserStart(s, p, k) ensures s.blocks[k].Extends(p) {
      assert s.blocks[k].Shaped();
    }
  }

  /** Exactly the block with user start p is quarantined: its bytes are given up, and
      nothing else changes. */
  ghost predicate Quarantines(s: State, s': State, p: nat) {
    exists k: nat :: k < |s.blocks| && s.blocks[k].user == p && QuarantinesAt(s, s', k)
  }

  ghost predicate QuarantinesAt(s: State, s': State, k: nat)
    requires k < |s.blocks|
  {
    var b := s.blocks[k];
    && s'.blocks == s.blocks[k := b.(freed := true)] && s'.mem == s.mem && s'.others == s.others
    && forall a: nat :: BytePoisoned(s'.shadow, a) <==> BytePoisoned(s.shadow, a) || b.user <= a < b.user + b.size
  }

  /** MAIN RESULT: free is classified exactly. Which of the four outcomes an address gets
      depends only on where it lies in the block table, and only success changes the state. */
  lemma FreeMeans(s: State, p: nat, r: FreeResult, s': State)
    requires Inv(s) && p > 0 && FreeSpec(s, p, r, s')
    ensures r == Ignored <==> forall k :: 0 <= k < |s.blocks| ==> !s.blocks[k].Extends(p)
    ensures r == InvalidFree <==>
            (exists k :: 0 <= k < |s.blocks| && s.blocks[k].Extends(p)) &&
            forall k :: 0 <= k < |s.blocks| ==> s.blocks[k].user != p
    ensures r == DoubleFree <==> exists k :: 0 <= k < |s.blocks| && s.blocks[k].user == p && s.blocks[k].freed
    ensures r == Done <==> exists k :: 0 <= k < |s.blocks| && s.blocks[k].user == p && !s.blocks[k].freed
    ensures if r == Done then Quarantines(s, s', p) else s' == s
  {
    forall k | 0 <= k < |s.blocks| && s.blocks[k].user == p
      ensures s.blocks[k].Extends(p) && IsUserStart(s, p, k)
    {
      assert s.blocks[k].Shaped();
    }
    forall j, k | 0 <= j < |s.blocks| && 0 <= k < |s.blocks| && s.blocks[j].user == p && s.blocks[k].user == p
      ensures j == k
    {
      OneExtent(s.blocks, j, k, p);
    }
    if r == Done {
      var k: nat :| IsUserStart(s, p, k) && !s.blocks[k].freed && s' == FreeBlock(s, k);
      FreeQuarantines(s, k);
    }
  }

  lemma FreeQuarantines(s: State, k: nat)
    requires Inv(s) && k < |s.blocks| && !s.blocks[k].freed
    ensures QuarantinesAt(s, FreeBlock(s, k), k)
  {
    BlockIsObject(s, k);
    assert s.blocks[k].Shaped();
    forall a: nat
      ensures BytePoisoned(FreeBlock(s, k).shadow, a) <==>
              BytePoisoned(s.shadow, a) || s.blocks[k].user <= a < s.blocks[k].user + s.blocks[k].size
    {
      FreedByte(s.shadow, Objects(s), s.blocks[k], a);
    }
  }

  lemma FreedByte(sh: Shadow, objs: set<Object>, b: Block, a: nat)
    requires Shows(sh, objs) && ObjectOf(b) in objs && b.Shaped() && !b.freed
    ensures BytePoisoned(Paint(sh, ObjectOf(b.(freed := true))), a) <==>
            BytePoisoned(sh, a) || b.user <= a < b.user + b.size
  {
    ObjectShaped(b.(freed := true));
    PaintChanges(sh, ObjectOf(b.(freed := true)), a);
    if ObjectOf(b).Holds(a) {
      OneOwner(sh, objs, ObjectOf(b), a);
    }
  }

  /** Every address has an outcome, so a run may always go on with a free. */
  lemma FreeAnswers(s: State, p: nat) returns (r: FreeResult, s': State)
    requires Inv(s)
    ensures FreeSpec(s, p, r, s') && Can(s, FreeAt(p)) && StepTo(s, FreeAt(p), s')
  {
    if p == 0 || !InSomeBlock(s, p) {
      r, s' := Ignored, s;
    } else if k: nat :| IsUserStart(s, p, k) {
      r, s' := if s.blocks[k].freed then DoubleFree else Done, if s.blocks[k].freed then s else FreeBlock(s, k);
    } else {
      r, s' := InvalidFree, s;
    }
    assert FreeSpec(s, FreeAt(p).p, r, s');
  }

  /** The runtime's single shadow write on free is the state change of FreeBlock. */
  lemma FreeSteps(s: State, k: nat)
    requires Inv(s) && k < |s.blocks|
    ensures SetRange(s.shadow, s.blocks[k].user, RoundUp8(s.blocks[k].size), FREED_POISON) == FreeBlock(s, k).shadow
  {
    BlockIsObject(s, k);
    assert Committed(s.shadow, ObjectOf(s.blocks[k]));
    FreeDraws(s.shadow, Objects(s), s.blocks[k]);
  }

  lemma FreeDraws(sh: Shadow, objs: set<Object>, b: Block)
    requires Shows(sh, objs) && ObjectOf(b) in objs && Committed(sh, ObjectOf(b))
    ensures SetRange(sh, b.user, RoundUp8(b.size), FREED_POISON) == Paint(sh, ObjectOf(b.(freed := true)))
  {
    FreeIsPaint(sh, objs, ObjectOf(b), b.size);
    assert ObjectOf(b).(live := false) == ObjectOf(b.(freed := true));
  }

  /** Its writes on allocation are the state change of AddBlock. */
  lemma AllocDraws(sh: Shadow, b: Block)
    requires b.Shaped() && !b.freed
    ensures CarveUser(SetRange(sh, b.base, b.total, RZ_POISON), b.user, b.size) == Paint(sh, ObjectOf(b))
  {
    ObjectShaped(b);
    DrawIsPaint(sh, ObjectOf(b), b.total, b.size);
  }

  /** All writes of an allocation together. */
  lemma PlaceSteps(s: State, b: Block)
    requires Inv(s) && b.Shaped() && !b.freed && Fits(s, ObjectOf(b)) && |s.blocks| < TWO64
    ensures AddBlock(s, b) ==
            State(CarveUser(SetRange(s.shadow, b.base, b.total, RZ_POISON), b.user, b.size),
                  StoreWord(StoreWord(s.mem, b.user - 16, MAGIC), b.user - 8, |s.blocks|), s.blocks + [b], s.others)
    ensures Inv(AddBlock(s, b))
  {
    AllocDraws(s.shadow, b);
    InvAddBlock(s, b);
  }

  // ---- Reallocation ----

  /** How many bytes realloc carries over: nothing from a freed or foreign address. */
  ghost function CopyCount(s: State, ptr: nat, size: nat): (n: nat)
    ensures n <= size
  {
    if exists k: nat :: ScanFinds(s.blocks, ptr, k)
    then (var k: nat :| ScanFinds(s.blocks, ptr, k); CarriedBytes(s.blocks[k], size))
    else 0
  }

  function CarriedBytes(b: Block, size: nat): (n: nat)
    ensures n <= size
  {
    if b.freed then 0 else if b.size < size then b.size else size
  }

  /** The state when realloc comes to free the old address: new block b added, bytes copied. */
  ghost function Carried(s: State, ptr: nat, b: Block): State
    requires b.Shaped()
  {
    var s1 := AddBlock(s, b);
    WithMem(s1, Copy(s1.mem, b.user, ptr, CopyCount(s1, ptr, b.size)))
  }

  ghost predicate Reallocated(s: State, ptr: nat, b: Block, r: FreeResult, s': State)
    requires b.Shaped()
  {
    FreeSpec(Carried(s, ptr, b), ptr, r, s')
  }

  lemma InvCarried(s: State, ptr: nat, b: Block)
    requires b.Shaped() && !b.freed && Inv(AddBlock(s, b))
    ensures Inv(Carried(s, ptr, b))
  {
    var s1 := AddBlock(s, b);
    assert s1.blocks[|s.blocks|] == b;
    BlockIsObject(s1, |s.blocks|);
    forall a: nat | BytePoisoned(s1.shadow, a) ensures !(b.user <= a < b.user + b.size) {
      if b.user <= a < b.user + b.size {
        OneOwner(s1.shadow, Objects(s1), ObjectOf(b), a);
      }
    }
    InvWithMem(s1, Copy(s1.mem, b.user, ptr, CopyCount(s1, ptr, b.size)));
  }

  lemma CopyCountOf(s: State, ptr: nat, size: nat, k: nat)
    requires ScanFinds(s.blocks, ptr, k)
    ensures CopyCount(s, ptr, size) == CarriedBytes(s.blocks[k], size)
  {
    forall j: nat | ScanFinds(s.blocks, ptr, j) ensures j == k {
    }
  }

  lemma ReallocOutcome(s: State, ptr: nat, b: Block, r: FreeResult, s': State, k: nat)
    requires b.Shaped() && !b.freed && Inv(AddBlock(s, b))
    requires ptr > 0 && IsUserStart(s, ptr, k) && !s.blocks[k].freed
    requires Reallocated(s, ptr, b, r, s')
    ensures r == Done && s' == FreeBlock(Carried(s, ptr, b), k)
    ensures CopyCount(AddBlock(s, b), ptr, b.size) == CarriedBytes(s.blocks[k], b.size)
  {
    var s1, s2 := AddBlock(s, b), Carried(s, ptr, b);
    InvCarried(s, ptr, b);
    assert s1.blocks[k] == s.blocks[k] && IsUserStart(s1, ptr, k) && IsUserStart(s2, ptr, k);
    UserStartIsMarked(s1, k);
    CopyCountOf(s1, ptr, b.size, k);
    assert FreeSpec(s2, ptr, Done, FreeBlock(s2, k));
    FreeIsClassified(s2, ptr, r, s', Done, FreeBlock(s2, k));
  }

  /** The first bytes of the new block are the old block's, and no byte outside it differs. */
  ghost predicate BytesKept(mem: Mem, mem': Mem, b: Block, ptr: nat, oldSize: nat) {
    && (forall x: nat :: b.user <= x < b.user + b.size && x < b.user + oldSize ==>
          ByteAt(mem', x) == ByteAt(mem, ptr + (x - b.user)))
    && (forall x: nat :: x < b.base || x >= b.base + b.total ==> ByteAt(mem', x) == ByteAt(mem, x))
  }

  lemma CarriedMemory(mem: Mem, b: Block, c: Block, idx: nat)
    requires b.Shaped() && c.Shaped() && !c.freed
    requires c.base + c.total <= b.base || b.base + b.total <= c.base
    ensures BytesKept(mem, Copy(WriteHeader(mem, b.user, idx), b.user, c.user, CarriedBytes(c, b.size)),
                      b, c.user, c.size)
  {
    var mem1 := WriteHeader(mem, b.user, idx);
    var n := CarriedBytes(c, b.size);
    HeaderElsewhere(mem, b, idx);
    forall x: nat | b.user <= x < b.user + n
      ensures ByteAt(Copy(mem1, b.user, c.user, n), x) == ByteAt(mem, c.user + (x - b.user))
    {
      var y := c.user + (x - b.user);
      assert y < b.base || y >= b.base + b.total;
      assert ByteAt(mem1, y) == ByteAt(mem, y);
    }
    forall x: nat | x < b.base || x >= b.base + b.total
      ensures ByteAt(Copy(mem1, b.user, c.user, n), x) == ByteAt(mem, x)
    {
      assert ByteAt(mem1, x) == ByteAt(mem, x);
    }
  }

  /** MAIN RESULT: realloc preserves meaning. On a live block it succeeds, keeps the first
      min(old, new) bytes, quarantines the old block, and changes no other block and no
      byte outside the new one. */
  lemma ReallocPreserves(s: State, ptr: nat, b: Block, r: FreeResult, s': State, k: nat)
    requires b.Shaped() && !b.freed && Inv(s) && Fits(s, ObjectOf(b)) && |s.blocks| < TWO64
    requires ptr > 0 && IsUserStart(s, ptr, k) && !s.blocks[k].freed
    requires Reallocated(s, ptr, b, r, s')
    ensures r == Done
    ensures s'.blocks == (s.blocks + [b])[k := s.blocks[k].(freed := true)] && s'.others == s.others
    ensures BytesKept(s.mem, s'.mem, b, ptr, s.blocks[k].size)
  {
    InvAddBlock(s, b);
    ReallocOutcome(s, ptr, b, r, s', k);
    BlockIsObject(s, k);
    CarriedMemory(s.mem, b, s.blocks[k], |s.blocks|);
  }

  /** Realloc of an address that is not a live block's start: the new block is there, the
      outcome is that of a free, and only the bytes of a live block that holds the address
      are carried over. */
  lemma ReallocElsewhere(s: State, ptr: nat, b: Block, r: FreeResult, s': State)
    requires b.Shaped() && !b.freed && Inv(s) && Fits(s, ObjectOf(b)) && |s.blocks| < TWO64
    requires ptr > 0 && forall k :: 0 <= k <= |s.blocks| ==>
               !((s.blocks + [b])[k].user == ptr && !(s.blocks + [b])[k].freed)
    requires Reallocated(s, ptr, b, r, s')
    ensures s'.blocks == s.blocks + [b] && s'.others == s.others
    ensures r == Ignored <==> forall k :: 0 <= k <= |s.blocks| ==> !(s.blocks + [b])[k].Extends(ptr)
    ensures r == DoubleFree <==> exists k :: 0 <= k < |s.blocks| && s.blocks[k].user == ptr && s.blocks[k].freed
    ensures (forall k :: 0 <= k <= |s.blocks| && (s.blocks + [b])[k].Extends(ptr) ==> (s.blocks + [b])[k].freed) ==>
              forall a: nat :: a < b.base || a >= b.user ==> ByteAt(s'.mem, a) == ByteAt(s.mem, a)
  {
    InvAddBlock(s, b);
    InvCarried(s, ptr, b);
    assert Carried(s, ptr, b).blocks == s.blocks + [b];
    FreeMeans(Carried(s, ptr, b), ptr, r, s');
    FreedInOld(s.blocks, b, ptr);
    if forall k :: 0 <= k <= |s.blocks| && (s.blocks + [b])[k].Extends(ptr) ==> (s.blocks + [b])[k].freed {
      NothingCarried(AddBlock(s, b), ptr, b.size);
      HeaderElsewhere(s.mem, b, |s.blocks|);
    }
  }

  lemma FreedInOld(blocks: seq<Block>, b: Block, ptr: nat)
    requires !b.freed
    ensures (exists k :: 0 <= k < |blocks + [b]| && (blocks + [b])[k].user == ptr && (blocks + [b])[k].freed) <==>
            exists k :: 0 <= k < |blocks| && blocks[k].user == ptr && blocks[k].freed
  {
    if k :| 0 <= k < |blocks| && blocks[k].user == ptr && blocks[k].freed {
      assert (blocks + [b])[k] == blocks[k];
    }
  }

  lemma NothingCarried(s: State, ptr: nat, size: nat)
    requires forall k :: 0 <= k < |s.blocks| && s.blocks[k].Extends(ptr) ==> s.blocks[k].freed
    ensures CopyCount(s, ptr, size) == 0
  {
  }

  lemma HeaderElsewhere(mem: Mem, b: Block, idx: nat)
    requires b.Shaped()
    ensures forall a: nat :: a < b.base || a >= b.user ==> ByteAt(WriteHeader(mem, b.user, idx), a) == ByteAt(mem, a)
  {
  }

  // ---- Placement ----

  const SIZE_MAX: nat := TWO64 - 1

  /** Room reserved for over-alignment. */
  function Slack(align: nat): nat {
    if align > REDZONE then align else 0
  }

  /** Does the size computation overflow? */
  predicate TooBig(size: nat, align: nat) {
    size > SIZE_MAX - 2 * REDZONE - Slack(align)
  }

  function TotalOf(size: nat, align: nat): nat {
    size + 2 * REDZONE + Slack(align)
  }

  /** The test refuses exactly the requests whose padded size does not fit in 64 bits. */
  lemma TooBigIsOverflow(size: nat, align: nat)
    ensures TooBig(size, align) <==> size + 32 + (if align > 16 then align else 0) >= TWO64
    ensures TotalOf(size, align) == size + 32 + (if align > 16 then align else 0)
  {
  }

  /** base + 16 rounded up to the alignment. */
  function UserOf(base: nat, align: nat): nat
    requires align > 0
  {
    var x := base + REDZONE + align - 1;
    x - x % align
  }

  lemma RoundingUp(x: nat, align: nat)
    requires align > 0
    ensures x <= UserOf(x, align) - REDZONE <= x + align - 1
    ensures UserOf(x, align) % align == 0
  {
    var y := x + REDZONE + align - 1;
    var q := y / align;
    assert y == q * align + y % align;
    ModUnique(q * align, align, q, 0);
  }

  /** A multiple of a power of two from 16 up is a multiple of 16. */
  lemma MultipleOf16(x: nat, k: nat)
    requires k >= 4 && x % Pow2(k) == 0
    ensures x % 16 == 0
  {
    Pow2Add(4, k - 4);
    Pow2Values();
    MultipleOfFactor(x, 16, Pow2(k - 4));
  }

  lemma MultipleOfFactor(x: nat, a: nat, m: nat)
    requires a > 0 && m > 0 && x % (a * m) == 0
    ensures x % a == 0
  {
    var n := a * m;
    var q := x / n;
    assert x == q * n;
    Regroup(q, a, m);
    ModUnique(x, a, q * m, 0);
  }

  lemma Regroup(q: nat, a: nat, m: nat)
    ensures q * (a * m) == (q * m) * a
  {
  }

  /** MAIN RESULT: the aligned layout. Whenever the request passes the overflow test and
      the system's block is 16-aligned inside the tracked space, the user region is
      aligned, both red zones are whole, everything lies inside the block, and the address
      computed with wrapping masks is the exact one. */
  lemma AlignedLayout(base: nat, size: nat, k: nat, site: Site)
    requires 4 <= k < 64 && base % 16 == 0 && !TooBig(size, Pow2(k))
    requires base + TotalOf(size, Pow2(k)) <= LIMIT
    ensures NewBlock(base, size, Pow2(k), site).Shaped()
    ensures UserOf(base, Pow2(k)) % Pow2(k) == 0
    ensures base + REDZONE + Pow2(k) - 1 < TWO64
    ensures Pow2(k) <= TWO64 && BitAnd(base + REDZONE + Pow2(k) - 1, TWO64 - Pow2(k)) == UserOf(base, Pow2(k))
  {
    var align := Pow2(k);
    RoundingUp(base, align);
    MultipleOf16(UserOf(base, align), k);
    Pow2Values();
    Pow2Monotone(4, k);
    Pow2Monotone(k, 63);
    Pow2Add(1, 63);
    if k == 4 {
      PlainLayout(base);
    }
    AndHighMask(base + REDZONE + align - 1, k, 64);
  }

  lemma PlainLayout(base: nat)
    requires base % 16 == 0
    ensures UserOf(base, 16) == base + 16
  {
  }

  function NewBlock(base: nat, size: nat, align: nat, site: Site): Block
    requires align > 0
  {
    Block(base, TotalOf(size, align), UserOf(base, align), size, false, site)
  }

  /** Extents that start 16-aligned and are disjoint stay apart when they are rounded up to
      whole chunks. */
  lemma StaysApart(lo: nat, hi: nat, lo': nat, hi': nat)
    requires lo % 16 == 0 && lo' % 16 == 0 && (hi <= lo' || hi' <= lo)
    ensures RoundUp8(hi) <= lo' || RoundUp8(hi') <= lo
  {
    if hi <= lo' {
      RoundUpStaysBelow(hi, lo');
    } else {
      RoundUpStaysBelow(hi', lo);
    }
  }

  lemma RoundUpStaysBelow(n: nat, m: nat)
    requires n <= m && m % 16 == 0
    ensures RoundUp8(n) <= m
  {
    var q := m / 16;
    RoundUpUnder(n, 2 * q);
  }

  lemma RoundUpUnder(n: nat, q: nat)
    requires n <= 8 * q
    ensures RoundUp8(n) <= 8 * q
  {
  }

  /** The alignment really used: at least a red zone. */
  function Effective(alignment: nat): nat {
    if alignment < REDZONE then REDZONE else alignment
  }

  /** aligned_alloc rounds small alignments up to a red zone, which still satisfies them. */
  lemma EffectiveAlignment(e: nat)
    ensures Effective(Pow2(e)) == Pow2(if e < 4 then 4 else e)
    ensures Pow2(e) < TWO64 ==> e < 64
  {
    Pow2Values();
    if e < 4 {
      Pow2Below(e);
    } else {
      Pow2Monotone(4, e);
    }
    if e >= 64 {
      Pow2Monotone(64, e);
    }
  }

  lemma Pow2Below(e: nat)
    requires e < 4
    ensures Pow2(e) < 16
  {
    Pow2Monotone(e, 3);
  }

  lemma SmallerPower(p: nat, e: nat, k: nat)
    requires e <= k && p % Pow2(k) == 0
    ensures p % Pow2(e) == 0
  {
    Pow2Add(e, k - e);
    MultipleOfFactor(p, Pow2(e), Pow2(k - e));
  }

  // ---- Whole runs ----

  datatype Op =
    | Alloc(base: nat, size: nat, k: nat, site: Site)  // align == 2^k
    | FreeAt(p: nat)
    | Realloc(p: nat, base: nat, size: nat, site: Site) // of a non-null p, to a non-zero size
    | Draw(o: Object)     // a stack frame entered, a global registered
    | Erase(o: Object)    // a stack frame left
    | Store(a: nat, v: Byte)

  /** The bytes [lo, hi) belong to no block and to no stack or global object. */
  ghost predicate Unused(s: State, lo: nat, hi: nat) {
    && (forall k :: 0 <= k < |s.blocks| ==> hi <= s.blocks[k].base || s.blocks[k].base + s.blocks[k].total <= lo)
    && (forall o :: o in s.others ==> hi <= o.lo || o.hi <= lo)
  }

  /** What the system allocator promises: 16-aligned bytes in the tracked space that
      nothing else uses. */
  ghost predicate SystemGives(s: State, base: nat, total: nat) {
    base % 16 == 0 && base + total <= LIMIT && Unused(s, base, base + total)
  }

  /** The shapes that stack enter and the two global registrations draw. */
  predicate Drawable(o: Object) {
    && o.live && o.lo % 16 == 0 && o.hi <= LIMIT
    && o.userLo <= o.userHi && o.hi == RoundUp8(o.userHi + REDZONE)
    && (o.userLo == o.lo + REDZONE || (o.userLo == o.lo && o.code == GLOBAL_RZ))
    && o.code in {STACK_RZ, GLOBAL_RZ}
  }

  ghost predicate Can(s: State, op: Op) {
    match op
    case Alloc(base, size, k, site) =>
      && 4 <= k < 64 && !TooBig(size, Pow2(k)) && SystemGives(s, base, TotalOf(size, Pow2(k)))
      && |s.blocks| < TWO64
    case FreeAt(p) => true
    case Realloc(p, base, size, site) =>
      && p > 0 && size > 0 && !TooBig(size, REDZONE) && SystemGives(s, base, TotalOf(size, REDZONE))
      && |s.blocks| < TWO64
    case Draw(o) => Drawable(o) && Unused(s, o.lo, o.hi)
    case Erase(o) => o in s.others && o.code == STACK_RZ
    case Store(a, v) => !BytePoisoned(s.shadow, a)
  }

  /** One step of a run; a free that is not a success changes nothing, and a realloc adds
      its new block before it frees. */
  ghost predicate StepTo(s: State, op: Op, s': State) {
    match op
    case Alloc(base, size, k, site) =>
      NewBlock(base, size, Pow2(k), site).Shaped() && s' == AddBlock(s, NewBlock(base, size, Pow2(k), site))
    case FreeAt(p) => exists r :: FreeSpec(s, p, r, s')
    case Realloc(p, base, size, site) =>
      && NewBlock(base, size, REDZONE, site).Shaped()
      && exists r :: Reallocated(s, p, NewBlock(base, size, REDZONE, site), r, s')
    case Draw(o) => s' == DrawOther(s, o)
    case Erase(o) => s' == EraseOther(s, o)
    case Store(a, v) => s' == StoreByte(s, a, v)
  }

  /** A run may always go on with the realloc of a non-null address to a size that fits, if
      the system answers; ReallocPreserves and ReallocElsewhere say what it does. */
  lemma ReallocAnswers(s: State, p: nat, base: nat, size: nat, site: Site) returns (s': State)
    requires Inv(s) && p > 0 && size > 0 && |s.blocks| < TWO64
    requires size + 32 < TWO64 && base % 16 == 0 && base + (size + 32) <= LIMIT
    requires NothingIn(s, base, base + (size + 32))
    ensures Can(s, Realloc(p, base, size, site)) && StepTo(s, Realloc(p, base, size, site), s')
  {
    var op, b := Realloc(p, base, size, site), NewBlock(base, size, REDZONE, site);
    Pow2Values();
    RequestIsLegal(s, base, size, 4, site);
    NewBlockFits(s, base, size, 4, site);
    InvAddBlock(s, b);
    InvCarried(s, p, b);
    var r;
    r, s' := FreeAnswers(Carried(s, p, b), p);
    assert Reallocated(s, op.p, NewBlock(op.base, op.size, REDZONE, op.site), r, s');
  }

  /** The program may write every byte of a live block. */
  lemma OwnBytesAreWritable(s: State, k: nat, a: nat, v: Byte)
    requires Inv(s) && k < |s.blocks| && !s.blocks[k].freed
    requires s.blocks[k].user <= a < s.blocks[k].user + s.blocks[k].size
    ensures Can(s, Store(a, v)) && Inv(StoreByte(s, a, v)) && ByteAt(StoreByte(s, a, v).mem, a) == v
    ensures forall c: nat :: c != a ==> ByteAt(StoreByte(s, a, v).mem, c) == ByteAt(s.mem, c)
  {
    BlockIsObject(s, k);
    assert s.blocks[k].Shaped();
    OneOwner(s.shadow, Objects(s), ObjectOf(s.blocks[k]), a);
    InvStoreByte(s, a, v);
  }

  /** Chunk rounding makes nothing collide: what fits by its own bytes fits by its chunks. */
  lemma UnusedFits(s: State, o: Object, end: nat)
    requires BlocksOk(s.blocks) && (forall p :: p in s.others ==> p.lo % 16 == 0 && p.hi % 8 == 0)
    requires o.lo % 16 == 0 && o.hi == RoundUp8(end) && Unused(s, o.lo, end)
    ensures Fits(s, o)
  {
    forall p | p in s.others ensures p.Apart(o) {
      StaysApart(o.lo, end, p.lo, p.hi);
    }
    forall k | 0 <= k < |s.blocks| ensures ObjectOf(s.blocks[k]).Apart(o) {
      var b := s.blocks[k];
      assert b.Shaped();
      StaysApart(o.lo, end, b.base, b.base + b.total);
    }
  }

  /** MAIN RESULT: what an allocation does. Every request whose padded size fits in 64 bits,
      answered by the system with unused bytes, succeeds: the first aligned address that
      leaves a red zone becomes the start of a block of exactly the size and site asked for,
      its user bytes and no others of its extent are addressable, and outside the extent
      nothing changes. */
  lemma AllocationOpens(s: State, base: nat, size: nat, k: nat, site: Site) returns (ptr: nat, s': State)
    requires Inv(s) && 4 <= k < 64 && |s.blocks| < TWO64
    requires size + 32 + (if k > 4 then Pow2(k) else 0) < TWO64
    requires base % 16 == 0 && base + (size + 32 + (if k > 4 then Pow2(k) else 0)) <= LIMIT
    requires NothingIn(s, base, base + (size + 32 + (if k > 4 then Pow2(k) else 0)))
    ensures Can(s, Alloc(base, size, k, site)) && StepTo(s, Alloc(base, size, k, site), s')
    ensures forall t :: StepTo(s, Alloc(base, size, k, site), t) ==> t == s'
    ensures base + 16 <= ptr < base + 16 + Pow2(k) && ptr % Pow2(k) == 0
    ensures var total := size + 32 + (if k > 4 then Pow2(k) else 0);
            && ptr + size + 16 <= base + total
            && s'.blocks == s.blocks + [Block(base, total, ptr, size, false, site)] && s'.others == s.others
            && OpensOnly(s.shadow, s'.shadow, base, RoundUp8(base + total), ptr, size)
    ensures forall a: nat :: a < ptr - 16 || a >= ptr ==> ByteAt(s'.mem, a) == ByteAt(s.mem, a)
  {
    RequestIsLegal(s, base, size, k, site);
    var b := NewBlock(base, size, Pow2(k), site);
    RoundingUp(base, Pow2(k));
    ptr, s' := b.user, AddBlock(s, b);
    BlockOpens(s, b);
    HeaderBytes(s.mem, b.user, |s.blocks|);
  }

  /** No byte of [lo, hi) is a block's or another object's. */
  ghost predicate NothingIn(s: State, lo: nat, hi: nat) {
    && (forall a: nat :: lo <= a < hi ==> !InSomeBlock(s, a))
    && (forall o, a: nat :: o in s.others && lo <= a < hi ==> !o.Holds(a))
  }

  /** Extents that share no byte lie side by side. */
  lemma NothingInIsUnused(s: State, lo: nat, hi: nat)
    requires Inv(s) && lo < hi && NothingIn(s, lo, hi)
    ensures Unused(s, lo, hi)
  {
    forall k | 0 <= k < |s.blocks| ensures hi <= s.blocks[k].base || s.blocks[k].base + s.blocks[k].total <= lo {
      var b := s.blocks[k];
      assert b.Shaped();
      var a := if lo < b.base then b.base else lo;
      assert b.Extends(a) ==> InSomeBlock(s, a);
      assert lo <= a < hi ==> !InSomeBlock(s, a);
    }
    forall o | o in s.others ensures hi <= o.lo || o.hi <= lo {
      assert o in Objects(s) && o.WellShaped();
      var a := if lo < o.lo then o.lo else lo;
      assert lo <= a < hi ==> !o.Holds(a);
    }
  }

  lemma RequestIsLegal(s: State, base: nat, size: nat, k: nat, site: Site)
    requires Inv(s) && 4 <= k < 64 && |s.blocks| < TWO64
    requires size + 32 + (if k > 4 then Pow2(k) else 0) < TWO64
    requires base % 16 == 0 && base + (size + 32 + (if k > 4 then Pow2(k) else 0)) <= LIMIT
    requires NothingIn(s, base, base + (size + 32 + (if k > 4 then Pow2(k) else 0)))
    ensures Can(s, Alloc(base, size, k, site))
    ensures NewBlock(base, size, Pow2(k), site).Shaped()
    ensures NewBlock(base, size, Pow2(k), site) ==
            Block(base, size + 32 + (if k > 4 then Pow2(k) else 0), UserOf(base, Pow2(k)), size, false, site)
  {
    NothingInIsUnused(s, base, base + (size + 32 + (if k > 4 then Pow2(k) else 0)));
    SlackOf(k);
    TooBigIsOverflow(size, Pow2(k));
    ShapedLayout(base, size, k, site);
  }

  lemma SlackOf(k: nat)
    requires k >= 4
    ensures Pow2(k) > 0 && (if Pow2(k) > 16 then Pow2(k) else 0) == if k > 4 then Pow2(k) else 0
  {
    Pow2Values();
    if k > 4 {
      Pow2Monotone(5, k);
    }
  }

  lemma ShapedLayout(base: nat, size: nat, k: nat, site: Site)
    requires 4 <= k < 64 && base % 16 == 0 && !TooBig(size, Pow2(k)) && base + TotalOf(size, Pow2(k)) <= LIMIT
    ensures NewBlock(base, size, Pow2(k), site).Shaped()
  {
    AlignedLayout(base, size, k, site);
  }

  lemma HeaderBytes(mem: Mem, user: nat, idx: nat)
    requires user >= 16
    ensures forall a: nat :: a < user - 16 || a >= user ==> ByteAt(WriteHeader(mem, user, idx), a) == ByteAt(mem, a)
  {
  }

  /** In the extent [lo, hi) exactly the user bytes are addressable, and outside it every
      byte is as it was. */
  ghost predicate OpensOnly(sh: Shadow, sh': Shadow, lo: nat, hi: nat, user: nat, size: nat) {
    forall p: nat :: BytePoisoned(sh', p) <==> if lo <= p < hi then !(user <= p < user + size) else BytePoisoned(sh, p)
  }

  lemma BlockOpens(s: State, b: Block)
    requires b.Shaped() && !b.freed
    ensures OpensOnly(s.shadow, AddBlock(s, b).shadow, b.base, RoundUp8(b.base + b.total), b.user, b.size)
  {
    ObjectShaped(b);
    forall p: nat
      ensures BytePoisoned(AddBlock(s, b).shadow, p) <==>
              if b.base <= p < RoundUp8(b.base + b.total) then !(b.user <= p < b.user + b.size)
              else BytePoisoned(s.shadow, p)
    {
      PaintChanges(s.shadow, ObjectOf(b), p);
    }
  }

  lemma OthersAligned(s: State)
    requires Inv(s)
    ensures BlocksOk(s.blocks) && forall p :: p in s.others ==> p.lo % 16 == 0 && p.hi % 8 == 0
  {
    forall p | p in s.others ensures p.hi % 8 == 0 {
      assert p in Objects(s) && p.WellShaped();
    }
  }

  lemma NewBlockFits(s: State, base: nat, size: nat, k: nat, site: Site)
    requires Inv(s) && 4 <= k < 64 && !TooBig(size, Pow2(k)) && SystemGives(s, base, TotalOf(size, Pow2(k)))
    ensures NewBlock(base, size, Pow2(k), site).Shaped()
    ensures Fits(s, ObjectOf(NewBlock(base, size, Pow2(k), site)))
  {
    AlignedLayout(base, size, k, site);
    OthersAligned(s);
    BlockFits(s, NewBlock(base, size, Pow2(k), site));
  }

  lemma BlockFits(s: State, b: Block)
    requires BlocksOk(s.blocks) && (forall p :: p in s.others ==> p.lo % 16 == 0 && p.hi % 8 == 0)
    requires b.base % 16 == 0 && Unused(s, b.base, b.base + b.total)
    ensures Fits(s, ObjectOf(b))
  {
    UnusedFits(s, ObjectOf(b), b.base + b.total);
  }

  lemma DrawableShaped(o: Object)
    requires Drawable(o)
    ensures o.WellShaped() && o.code != RZ_POISON
  {
    Chunked(o.lo);
    Chunked(o.userLo);
  }

  lemma Chunked(n: nat)
    ensures n % 16 == 0 ==> n % 8 == 0 && (n + REDZONE) % 8 == 0
  {
  }

  lemma DrawableFits(s: State, o: Object)
    requires Inv(s) && Drawable(o) && Unused(s, o.lo, o.hi)
    ensures o.WellShaped() && o.code != RZ_POISON && Fits(s, o)
  {
    OthersAligned(s);
    DrawableShaped(o);
    UnusedFits(s, o, o.hi);
  }

  /** A run: its states, one more than its steps. */
  ghost predicate IsRun(states: seq<State>, ops: seq<Op>) {
    && |states| == |ops| + 1
    && forall i :: 0 <= i < |ops| ==> StepsAt(states, ops, i)
  }

  ghost predicate StepsAt(states: seq<State>, ops: seq<Op>, i: nat)
    requires i < |ops| && |states| == |ops| + 1
  {
    Can(states[i], ops[i]) && StepTo(states[i], ops[i], states[i + 1])
  }

  lemma InvFree(s: State, p: nat, r: FreeResult, s': State)
    requires Inv(s) && FreeSpec(s, p, r, s')
    ensures Inv(s') && Older(s, s')
  {
    if r.Done? {
      var k: nat :| IsUserStart(s, p, k) && !s.blocks[k].freed && s' == FreeBlock(s, k);
      InvFreeBlock(s, k);
      FreeIsOlder(s, k);
    }
  }

  lemma FreeIsOlder(s: State, k: nat)
    requires k < |s.blocks|
    ensures Older(s, FreeBlock(s, k))
  {
  }

  lemma InvStep(s: State, op: Op, s': State)
    requires Inv(s) && Can(s, op) && StepTo(s, op, s')
    ensures Inv(s') && Older(s, s')
  {
    match op
    case Alloc(base, size, k, site) =>
      NewBlockFits(s, base, size, k, site);
      InvAddBlock(s, NewBlock(base, size, Pow2(k), site));
    case FreeAt(p) =>
      var r :| FreeSpec(s, p, r, s');
      InvFree(s, p, r, s');
    case Realloc(p, base, size, site) =>
      var r :| Reallocated(s, p, NewBlock(base, size, REDZONE, site), r, s');
      InvRealloc(s, p, base, size, site, r, s');
    case Draw(o) =>
      DrawableFits(s, o);
      InvDrawOther(s, o);
    case Erase(o) => InvEraseOther(s, o);
    case Store(a, v) => InvStoreByte(s, a, v);
  }

  lemma InvRealloc(s: State, p: nat, base: nat, size: nat, site: Site, r: FreeResult, s': State)
    requires Inv(s) && Can(s, Realloc(p, base, size, site))
    requires NewBlock(base, size, REDZONE, site).Shaped()
    requires Reallocated(s, p, NewBlock(base, size, REDZONE, site), r, s')
    ensures Inv(s') && Older(s, s')
  {
    var b := NewBlock(base, size, REDZONE, site);
    Pow2Values();
    NewBlockFits(s, base, size, 4, site);
    InvAddBlock(s, b);
    InvCarried(s, p, b);
    CarriedIsOlder(s, p, b);
    InvFree(Carried(s, p, b), p, r, s');
    OlderTransitive(s, Carried(s, p, b), s');
  }

  lemma CarriedIsOlder(s: State, p: nat, b: Block)
    requires b.Shaped()
    ensures Older(s, Carried(s, p, b))
  {
  }

  /** Blocks are never dropped, moved or un-freed. */
  ghost predicate Older(s: State, s': State) {
    && |s.blocks| <= |s'.blocks|
    && forall k :: 0 <= k < |s.blocks| ==>
         && s'.blocks[k].(freed := false) == s.blocks[k].(freed := false)
         && (s.blocks[k].freed ==> s'.blocks[k].freed)
  }

  lemma EmptyInv()
    ensures Inv(EMPTY)
  {
  }

  lemma OlderTransitive(a: State, b: State, c: State)
    requires Older(a, b) && Older(b, c)
    ensures Older(a, c)
  {
    forall k | 0 <= k < |a.blocks|
      ensures c.blocks[k].(freed := false) == a.blocks[k].(freed := false)
      ensures a.blocks[k].freed ==> c.blocks[k].freed
    {
      assert b.blocks[k].(freed := false) == a.blocks[k].(freed := false);
      assert c.blocks[k].(freed := false) == b.blocks[k].(freed := false);
    }
  }

  lemma {:induction false} InvAlong(states: seq<State>, ops: seq<Op>, i: nat)
    requires IsRun(states, ops) && Inv(states[0]) && i <= |ops|
    ensures Inv(states[i])
  {
    if i == 0 {
    } else {
      InvAlong(states, ops, i - 1);
      assert StepsAt(states, ops, i - 1);
      InvStep(states[i - 1], ops[i - 1], states[i]);
    }
  }

  lemma {:induction false} OlderAlong(states: seq<State>, i: nat, j: nat)
    requires i <= j < |states| && forall n :: i <= n < j ==> Older(states[n], states[n + 1])
    ensures Older(states[i], states[j])
    decreases j
  {
    if i == j {
    } else {
      OlderAlong(states, i, j - 1);
      OlderTransitive(states[i], states[j - 1], states[j]);
    }
  }

  lemma RunInvariant(states: seq<State>, ops: seq<Op>, i: nat, j: nat)
    requires IsRun(states, ops) && Inv(states[0]) && i <= j <= |ops|
    ensures Inv(states[i]) && Inv(states[j]) && Older(states[i], states[j])
  {
    InvAlong(states, ops, i);
    InvAlong(states, ops, j);
    forall n | i <= n < j ensures Older(states[n], states[n + 1]) {
      OlderAt(states, ops, n);
    }
    OlderAlong(states, i, j);
  }

  lemma OlderAt(states: seq<State>, ops: seq<Op>, n: nat)
    requires IsRun(states, ops) && Inv(states[0]) && n < |ops|
    ensures Older(states[n], states[n + 1])
  {
    InvAlong(states, ops, n);
    assert StepsAt(states, ops, n);
    InvStep(states[n], ops[n], states[n + 1]);
  }

  /** Can a run lead from s to s'? */
  ghost predicate Reaches(s: State, s': State) {
    exists states: seq<State>, ops: seq<Op> :: RunFromTo(states, ops, s, s')
  }

  ghost predicate RunFromTo(states: seq<State>, ops: seq<Op>, s: State, s': State) {
    IsRun(states, ops) && states[0] == s && states[|ops|] == s'
  }

  ghost predicate Reachable(s: State) {
    Reaches(EMPTY, s)
  }

  lemma ReachesSelf(s: State)
    ensures Reaches(s, s)
  {
    assert RunFromTo([s], [], s, s);
  }

  /** One more step. */
  lemma ReachesStep(s: State, s1: State, op: Op, s2: State)
    requires Reaches(s, s1) && Can(s1, op) && StepTo(s1, op, s2)
    ensures Reaches(s, s2)
  {
    var states: seq<State>, ops: seq<Op> :| RunFromTo(states, ops, s, s1);
    var states', ops' := states + [s2], ops + [op];
    forall i | 0 <= i < |ops'| ensures StepsAt(states', ops', i) {
      if i < |ops| {
        assert StepsAt(states, ops, i);
      }
    }
    assert RunFromTo(states', ops', s, s2);
  }

  lemma ReachesTransitive(s: State, s1: State, s2: State)
    requires Reaches(s, s1) && Reaches(s1, s2)
    ensures Reaches(s, s2)
  {
    var states: seq<State>, ops: seq<Op> :| RunFromTo(states, ops, s1, s2);
    ReachesAlong(s, states, ops, |ops|);
  }

  lemma {:induction false} ReachesAlong(s: State, states: seq<State>, ops: seq<Op>, n: nat)
    requires IsRun(states, ops) && Reaches(s, states[0]) && n <= |ops|
    ensures Reaches(s, states[n])
  {
    if n == 0 {
    } else {
      ReachesAlong(s, states, ops, n - 1);
      assert StepsAt(states, ops, n - 1);
      ReachesStep(s, states[n - 1], ops[n - 1], states[n]);
    }
  }

  lemma ReachesKeeps(s: State, s': State)
    requires Inv(s) && Reaches(s, s')
    ensures Inv(s') && Older(s, s')
  {
    var states: seq<State>, ops: seq<Op> :| RunFromTo(states, ops, s, s');
    RunInvariant(states, ops, 0, |ops|);
  }

  lemma ReachableInv(s: State)
    requires Reachable(s)
    ensures Inv(s)
  {
    EmptyInv();
    ReachesKeeps(EMPTY, s);
  }

  /** MAIN RESULT: heap shadow agreement. In every state of every run, a byte of a block's
      chunk-rounded extent is addressable exactly when it lies in the block's user region
      and the block has not been freed. */
  lemma HeapShadowAgrees(states: seq<State>, ops: seq<Op>, i: nat, k: nat, p: nat)
    requires IsRun(states, ops) && Inv(states[0]) && i <= |ops| && k < |states[i].blocks|
    requires states[i].blocks[k].base <= p < RoundUp8(states[i].blocks[k].base + states[i].blocks[k].total)
    ensures !BytePoisoned(states[i].shadow, p) <==>
            var b := states[i].blocks[k]; b.user <= p < b.user + b.size && !b.freed
  {
    RunInvariant(states, ops, i, i);
    BlockIsObject(states[i], k);
    OneOwner(states[i].shadow, Objects(states[i]), ObjectOf(states[i].blocks[k]), p);
  }

  /** Outside every block and every stack or global object the shadow is untouched. */
  lemma OutsideIsUntouched(states: seq<State>, ops: seq<Op>, i: nat, c: nat)
    requires IsRun(states, ops) && Inv(states[0]) && i <= |ops|
    requires forall o :: o in Objects(states[i]) ==> !o.HasChunk(c)
    ensures Load(states[i].shadow, c) == 0
  {
    RunInvariant(states, ops, i, i);
  }

  /** MAIN RESULT: quarantine is permanent. Once a block is freed, it stays freed and every
      byte of its user region stays poisoned for the rest of the run. */
  lemma FreedForever(states: seq<State>, ops: seq<Op>, i: nat, j: nat, k: nat, p: nat)
    requires IsRun(states, ops) && Inv(states[0]) && i <= j <= |ops|
    requires k < |states[i].blocks| && states[i].blocks[k].freed
    requires states[i].blocks[k].user <= p < states[i].blocks[k].user + states[i].blocks[k].size
    ensures k < |states[j].blocks| && states[j].blocks[k] == states[i].blocks[k]
    ensures BytePoisoned(states[j].shadow, p)
  {
    RunInvariant(states, ops, i, j);
    assert states[j].blocks[k].(freed := false) == states[i].blocks[k].(freed := false);
    assert states[j].blocks[k].Shaped();
    HeapShadowAgrees(states, ops, j, k, p);
  }

  /** Does every byte of [a, a + size) lie outside all red zones and freed regions? */
  ghost predicate Clean(s: State, a: nat, size: nat) {
    forall p: nat :: a <= p < a + size ==> !OffLimits(Objects(s), p)
  }

  lemma CleanIsAddressable(s: State, a: nat, size: nat)
    requires Inv(s)
    ensures Clean(s, a, size) <==> RangeAddressable(s.shadow, a, size)
  {
    forall p: nat ensures BytePoisoned(s.shadow, p) <==> OffLimits(Objects(s), p) {
      ShadowAgrees(s.shadow, Objects(s), p);
    }
  }

  /** In every state of every run the two-endpoint check is exact up to 17 bytes. */
  lemma RunsKeepEndpointsExact(states: seq<State>, ops: seq<Op>, i: nat, a: nat, size: nat)
    requires IsRun(states, ops) && Inv(states[0]) && i <= |ops| && 0 < size <= REDZONE + 1
    ensures RunsWhole(states[i].shadow)
    ensures EndpointsPass(states[i].shadow, a, size) <==> Clean(states[i], a, size)
  {
    RunInvariant(states, ops, i, i);
    ShownRunsAreWhole(states[i].shadow, Objects(states[i]));
    EndpointsDecide(states[i].shadow, a, size);
    CleanIsAddressable(states[i], a, size);
  }
}
