/** How far the first and the last byte of an access speak for the rest, over every state
    the runtime can reach: the bound of the runtime's check, of its inlined form, and of
    the pass's redundancy rule. */
module Endpoints {
  import opened Bits
  import opened Shadow
  import opened Heap
  import opened Frames

  /** A run that registers one external global: only its trailing zone is poisoned. */
  lemma LoneZone(data: nat, size: nat) returns (s: State)
    requires data % 16 == 0 && data + WrapperSize(size, true) <= LIMIT
    ensures Reachable(s)
    ensures forall b: nat :: BytePoisoned(s.shadow, b) <==> data + size <= b < RoundUp8(data + size + REDZONE)
  {
    var o := RightObject(data, size);
    RightShaped(data, size);
    s := DrawOther(EMPTY, o);
    ReachesSelf(EMPTY);
    ReachesStep(EMPTY, EMPTY, Draw(o), s);
    ReachableInv(s);
    assert Objects(s) == {o};
    forall b: nat ensures BytePoisoned(s.shadow, b) <==> data + size <= b < RoundUp8(data + size + REDZONE) {
      ShadowAgrees(s.shadow, {o}, b);
    }
  }

  /** MAIN RESULT: 17 is exact. The two-endpoint test decides every access of a size, in
      every reachable state, if and only if the size is at most 17. */
  lemma EndpointsExact(size: nat)
    requires 0 < size <= LIMIT
    ensures size <= REDZONE + 1 <==>
            forall s: State, a: nat :: Reachable(s) && a + size <= TWO64 ==>
              (EndpointsPass(s.shadow, a, size) <==> RangeAddressable(s.shadow, a, size))
  {
    if size <= REDZONE + 1 {
      forall s: State, a: nat | Reachable(s)
        ensures EndpointsPass(s.shadow, a, size) <==> RangeAddressable(s.shadow, a, size)
      {
        ReachableInv(s);
        ShownRunsAreWhole(s.shadow, Objects(s));
        EndpointsDecide(s.shadow, a, size);
      }
    } else {
      var s := LoneZone(16, 8);
      assert EndpointsPass(s.shadow, 23, size) && BytePoisoned(s.shadow, 24);
    }
  }

  // ---- The inlined check ----

  /** The condition the pass emits for one byte; it has no range guard. */
  predicate InlinePoisoned(sh: Shadow, a: nat) {
    Load(sh, a / 8) != 0 && a % 8 >= Load(sh, a / 8)
  }

  /** The inlined test of an access, and the slow path it guards. */
  predicate InlineAborts(sh: Shadow, a: nat, size: nat) {
    && (InlinePoisoned(sh, a) || (size > 1 && InlinePoisoned(sh, a + size - 1)))
    && size > 0 && !EndpointsPass(sh, a, size)
  }

  /** Below the covered limit the inlined test and the runtime's check agree, so the fast
      path never hides an abort and the slow path never finds nothing. */
  lemma InlineMatchesRuntime(sh: Shadow, a: nat, size: nat)
    requires 0 < size && a + size <= LIMIT
    ensures InlineAborts(sh, a, size) <==> !EndpointsPass(sh, a, size)
    ensures InlinePoisoned(sh, a) <==> BytePoisoned(sh, a)
  {
    var last := a + size - 1;
    assert last / 8 < SHADOW_BYTES && a / 8 < SHADOW_BYTES;
  }

  // ---- When one check stands for another ----

  /** A passed check of m bytes stands for one of n bytes. */
  predicate Stands(m: nat, n: nat) {
    m <= REDZONE + 1 || n == m || n == 1
  }

  /** In every reachable state, wherever the inlined check of m bytes passes, so does that
      of n bytes at the same address. */
  ghost predicate AlwaysStands(m: nat, n: nat) {
    forall s: State, a: nat :: Reachable(s) && a + m <= LIMIT && !InlineAborts(s.shadow, a, m) ==>
      !InlineAborts(s.shadow, a, n)
  }

  lemma CheckStands(s: State, a: nat, m: nat, n: nat)
    requires Reachable(s) && a + m <= LIMIT && 0 < n <= m && Stands(m, n) && !InlineAborts(s.shadow, a, m)
    ensures !InlineAborts(s.shadow, a, n)
  {
    ReachableInv(s);
    ShownRunsAreWhole(s.shadow, Objects(s));
    InlineMatchesRuntime(s.shadow, a, m);
    InlineMatchesRuntime(s.shadow, a, n);
    if m <= REDZONE + 1 {
      EndpointsDecide(s.shadow, a, m);
    }
  }

  /** MAIN RESULT: the redundancy rule by itself. A passed check of m bytes guarantees one
      of n bytes in every reachable state if and only if m is at most 17, or n is m, or n
      is 1. */
  lemma RedundancyRuleExact(m: nat, n: nat)
    requires 0 < n <= m && m + 4 * REDZONE <= LIMIT
    ensures Stands(m, n) <==> AlwaysStands(m, n)
  {
    if Stands(m, n) {
      forall s: State, a: nat | Reachable(s) && a + m <= LIMIT && !InlineAborts(s.shadow, a, m)
        ensures !InlineAborts(s.shadow, a, n)
      {
        CheckStands(s, a, m, n);
      }
    } else {
      var s, a := Counterexample(m, n);
    }
  }

  /** Where the red zone goes: between the bytes the longer check tests, over the last byte
      of the shorter access. */
  lemma Counterexample(m: nat, n: nat) returns (s: State, a: nat)
    requires 0 < n <= m && m + 4 * REDZONE <= LIMIT && !Stands(m, n)
    ensures Reachable(s) && a + m <= LIMIT && !InlineAborts(s.shadow, a, m) && InlineAborts(s.shadow, a, n)
  {
    var before := if n + REDZONE <= m then n - 1 else m - REDZONE - 1;
    var data := 16 * (before / 16 + 1);
    assert before < data <= before + 16;
    s := LoneZone(data, 8);
    a := data + 8 - before;
    assert RoundUp8(data + 24) == data + 24;
    InlineMatchesRuntime(s.shadow, a, m);
    InlineMatchesRuntime(s.shadow, a, n);
  }
}
