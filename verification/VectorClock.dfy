/** Vector clocks: one epoch per tracked thread (`rz_vc` and its four operations). */
module VectorClock {

  // RZ_RACE_MAX_THREADS
  const MAX_THREADS: nat := 64

  type Clock = c: seq<nat> | |c| == MAX_THREADS witness seq(MAX_THREADS, _ => 0)

  function Zero(): (c: Clock)
    ensures forall u: nat :: At(c, u) == 0
  {
    seq(MAX_THREADS, _ => 0)
  }

  /** The epoch a clock holds for a thread; a thread beyond the table reads as 0. */
  function At(c: Clock, tid: nat): nat {
    if tid < MAX_THREADS then c[tid] else 0
  }

  function Tick(c: Clock, tid: nat): (r: Clock)
    ensures forall u: nat :: At(r, u) == At(c, u) + if u == tid < MAX_THREADS then 1 else 0
  {
    if tid < MAX_THREADS then c[tid := c[tid] + 1] else c
  }

  function Max(a: nat, b: nat): nat {
    if a < b then b else a
  }

  function Join(dst: Clock, src: Clock): (r: Clock)
    ensures forall u: nat :: At(r, u) == Max(At(dst, u), At(src, u))
  {
    seq(MAX_THREADS, i requires 0 <= i < MAX_THREADS => Max(dst[i], src[i]))
  }

  /** Clocks are ordered entry by entry. */
  ghost predicate Leq(a: Clock, b: Clock) {
    forall u: nat :: At(a, u) <= At(b, u)
  }

  /** Join is the least upper bound of the entrywise order, so repeated, reordered
      or duplicated joins of the same clocks all give the same clock. */
  lemma JoinIsLub(a: Clock, b: Clock, c: Clock)
    ensures Leq(a, Join(a, b)) && Leq(b, Join(a, b))
    ensures Leq(Join(a, b), c) <==> Leq(a, c) && Leq(b, c)
  {
    if Leq(Join(a, b), c) {
      forall u: nat ensures At(a, u) <= At(c, u) && At(b, u) <= At(c, u) {
        assert At(Join(a, b), u) <= At(c, u);
      }
    }
  }

  // The in-place operations of runtime/redzone_race.c.

  method VcInit(c: array<nat>)
    requires c.Length == MAX_THREADS
    modifies c
    ensures c[..] == Zero()
  {
    for i := 0 to MAX_THREADS
      invariant forall k :: 0 <= k < i ==> c[k] == 0
    {
      c[i] := 0;
    }
  }

  method VcTick(c: array<nat>, tid: nat)
    requires c.Length == MAX_THREADS
    modifies c
    ensures c[..] == Tick(old(c[..]), tid)
  {
    if tid < MAX_THREADS {
      c[tid] := c[tid] + 1;
    }
  }

  method VcJoin(dst: array<nat>, src: array<nat>)
    requires dst.Length == src.Length == MAX_THREADS
    modifies dst
    ensures dst[..] == Join(old(dst[..]), old(src[..]))
  {
    for i := 0 to MAX_THREADS
      invariant forall k :: 0 <= k < i ==> dst[k] == Max(old(dst[k]), old(src[k]))
      invariant forall k :: i <= k < MAX_THREADS ==> dst[k] == old(dst[k])
      invariant dst != src ==> src[..] == old(src[..])
    {
      if src[i] > dst[i] {
        dst[i] := src[i];
      }
    }
  }

  method VcCopy(dst: array<nat>, src: array<nat>)
    requires dst.Length == src.Length == MAX_THREADS
    modifies dst
    ensures dst[..] == old(src[..])
  {
    for i := 0 to MAX_THREADS
      invariant forall k :: 0 <= k < i ==> dst[k] == old(src[k])
      invariant dst != src ==> src[..] == old(src[..])
      invariant dst == src ==> dst[..] == old(src[..])
    {
      dst[i] := src[i];
    }
  }
}
