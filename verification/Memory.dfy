/** Application memory: bytes, and the 8-byte words the runtime keeps in red zones. */
module Memory {

  type Byte = b: nat | b < 256

  /** An absent byte reads as 0. */
  type Mem = map<nat, Byte>

  function ByteAt(mem: Mem, a: nat): Byte {
    if a in mem then mem[a] else 0
  }

  function Pow256(n: nat): nat {
    if n == 0 then 1 else 256 * Pow256(n - 1)
  }

  /** The number held in [a, end), least significant byte first. */
  function LoadBytes(mem: Mem, a: nat, end: nat): nat
    decreases end - a
  {
    if a >= end then 0 else ByteAt(mem, a) + 256 * LoadBytes(mem, a + 1, end)
  }

  function StoreBytes(mem: Mem, a: nat, end: nat, v: nat): (mem': Mem)
    ensures forall b: nat :: b < a || b >= end ==> ByteAt(mem', b) == ByteAt(mem, b)
    decreases end - a
  {
    if a >= end then mem else StoreBytes(mem[a := v % 256], a + 1, end, v / 256)
  }

  lemma {:induction false} LoadFrame(mem: Mem, mem': Mem, a: nat, end: nat)
    requires forall b: nat :: a <= b < end ==> ByteAt(mem', b) == ByteAt(mem, b)
    ensures LoadBytes(mem', a, end) == LoadBytes(mem, a, end)
    decreases end - a
  {
    if a >= end {
    } else {
      LoadFrame(mem, mem', a + 1, end);
    }
  }

  /** A stored number reads back. */
  lemma {:induction false} LoadStored(mem: Mem, a: nat, n: nat, v: nat)
    requires v < Pow256(n)
    ensures LoadBytes(StoreBytes(mem, a, a + n, v), a, a + n) == v
    decreases n
  {
    if n == 0 {
    } else {
      LoadStored(mem[a := v % 256], a + 1, n - 1, v / 256);
      assert ByteAt(StoreBytes(mem[a := v % 256], a + 1, a + n, v / 256), a) == v % 256;
    }
  }

  function LoadWord(mem: Mem, a: nat): nat {
    LoadBytes(mem, a, a + 8)
  }

  function StoreWord(mem: Mem, a: nat, v: nat): Mem {
    StoreBytes(mem, a, a + 8, v)
  }

  lemma WordRoundTrip(mem: Mem, a: nat, v: nat)
    requires v < 0x1_0000_0000_0000_0000
    ensures LoadWord(StoreWord(mem, a, v), a) == v
  {
    Pow256Eight();
    LoadStored(mem, a, 8, v);
  }

  lemma Pow256Eight()
    ensures Pow256(8) == 0x1_0000_0000_0000_0000
  {
    assert Pow256(4) == 0x1_0000_0000;
  }

  lemma WordFrame(mem: Mem, mem': Mem, a: nat)
    requires forall b: nat :: a <= b < a + 8 ==> ByteAt(mem', b) == ByteAt(mem, b)
    ensures LoadWord(mem', a) == LoadWord(mem, a)
  {
    LoadFrame(mem, mem', a, a + 8);
  }

  /** memcpy */
  function Copy(mem: Mem, dst: nat, src: nat, n: nat): (mem': Mem)
    ensures forall b: nat ::
              ByteAt(mem', b) == if dst <= b < dst + n then ByteAt(mem, src + (b - dst)) else ByteAt(mem, b)
  {
    mem + map b: nat | b < dst + n && Inside(b, dst, n) :: ByteAt(mem, src + (b - dst))
  }

  predicate Inside(b: nat, lo: nat, n: nat) {
    lo <= b < lo + n
  }
}
