/** malloc and free as an oracle that may fail at any call, and pow2gt. */
module Allocation {
  import opened Bytes

  class Allocator {
    /** The blocks handed out and not yet freed. */
    ghost var live: set<object>
    /** How many allocations have failed. */
    ghost var denied: nat

    constructor ()
      ensures live == {} && denied == 0
    {
      live, denied := {}, 0;
    }

    method Malloc(n: nat) returns (b: array?<byte>)
      modifies this
      ensures b == null ==> live == old(live) && denied == old(denied) + 1
      ensures b != null ==> fresh(b) && b.Length == n && live == old(live) + {b} && denied == old(denied)
    {
      if * {
        b, denied := null, denied + 1;
      } else {
        b := new byte[n];
        live := live + {b};
      }
    }

    /** A block of pointers, cleared by memset. */
    method MallocPointers(n: nat) returns (b: array?<array?<byte>>)
      modifies this
      ensures b == null ==> live == old(live) && denied == old(denied) + 1
      ensures b != null ==> fresh(b) && b.Length == n && live == old(live) + {b} && denied == old(denied) && forall i | 0 <= i < n :: b[i] == null
    {
      if * {
        b, denied := null, denied + 1;
      } else {
        b := new array?<byte>[n](_ => null);
        live := live + {b};
      }
    }

    /** Freeing twice, or freeing what was never allocated, is not allowed. */
    method Free(b: object)
      requires b in live
      modifies this
      ensures live == old(live) - {b} && denied == old(denied)
    {
      live := live - {b};
    }
  }

  /** Exactly the blocks of `more` have been allocated in between. */
  ghost predicate Gained(before: set<object>, after: set<object>, more: set<object>) {
    after == before + more && before !! more
  }

  lemma GainedBoth(a: set<object>, b: set<object>, c: set<object>, x: set<object>, y: set<object>)
    requires Gained(a, b, x) && Gained(b, c, y)
    ensures Gained(a, c, x + y)
  {}

  // ----- pow2gt ---------------------------------------------------------------

  function Pow2(k: nat): (p: nat)
    ensures p > 0
  {
    if k == 0 then 1 else 2 * Pow2(k - 1)
  }

  /** `x >> k` and `x | y` of C, on non-negative ints. */
  function Shr(x: nat, k: nat): nat {
    if k == 0 then x else Shr(x / 2, k - 1)
  }

  function Or(x: nat, y: nat): nat {
    if x == 0 && y == 0 then 0
    else 2 * Or(x / 2, y / 2) + (if x % 2 == 1 || y % 2 == 1 then 1 else 0)
  }

  /** The number of bits `x` takes up. */
  function Bits(x: nat): nat {
    if x == 0 then 0 else 1 + Bits(x / 2)
  }

  lemma {:induction false} BitsBound(x: nat)
    ensures x < Pow2(Bits(x)) && (x > 0 ==> Pow2(Bits(x)) <= 2 * x)
  {
    if x > 0 { BitsBound(x / 2); }
  }

  lemma {:induction false} BitsMonotone(k: nat, x: nat)
    requires x < Pow2(k)
    ensures Bits(x) <= k
  {
    if x > 0 { BitsMonotone(k - 1, x / 2); }
  }

  /** Of `n` bits the top `m`, or all if there are fewer, are set. */
  predicate TopSet(x: nat, n: nat, m: nat) {
    x < Pow2(n) && x + Pow2(if m <= n then n - m else 0) >= Pow2(n)
  }

  lemma HalfTop(x: nat, n: nat, m: nat)
    requires n > 0 && TopSet(x, n, m)
    ensures TopSet(x / 2, n - 1, m)
  {}

  lemma {:induction false} ShrTop(x: nat, n: nat, m: nat, s: nat)
    requires s <= n && TopSet(x, n, m)
    ensures TopSet(Shr(x, s), n - s, m)
  {
    if s > 0 {
      HalfTop(x, n, m);
      ShrTop(x / 2, n - 1, m, s - 1);
    }
  }

  lemma {:induction false} ShrZero(x: nat, n: nat, s: nat)
    requires x < Pow2(n) && s >= n
    ensures Shr(x, s) == 0
    decreases s
  {
    if s > 0 { ShrZero(x / 2, if n == 0 then 0 else n - 1, s - 1); }
  }

  lemma {:induction false} OrZero(x: nat)
    ensures Or(x, 0) == x
  {
    if x > 0 { OrZero(x / 2); }
  }

  lemma {:induction false} OrTop(x: nat, y: nat, n: nat, m: nat, k: nat)
    requires m <= n && TopSet(x, n, m) && TopSet(y, n - m, k)
    ensures TopSet(Or(x, y), n, m + k)
    decreases n - m
  {
    if n == m {
      OrZero(x);
    } else {
      HalfTop(x, n, m);
      HalfTop(y, n - m, k);
      OrTop(x / 2, y / 2, n - 1, m, k);
    }
  }

  /** One line of pow2gt doubles the number of set top bits. */
  lemma SmearStep(x: nat, n: nat, m: nat)
    requires TopSet(x, n, m)
    ensures TopSet(Or(x, Shr(x, m)), n, m + m)
  {
    if m <= n {
      ShrTop(x, n, m, m);
      OrTop(x, Shr(x, m), n, m, m);
    } else {
      ShrZero(x, n, m);
      OrZero(x);
    }
  }

  /** The least power of two at or above `x`. */
  function PowerFor(x: nat): (p: nat)
    requires x > 0
    ensures p >= x
  {
    BitsBound(x - 1);
    Pow2(Bits(x - 1))
  }

  lemma PowerForIsLeast(x: nat, k: nat)
    requires x > 0 && Pow2(k) >= x
    ensures PowerFor(x) <= Pow2(k)
  {
    BitsMonotone(k, x - 1);
    Pow2Monotone(Bits(x - 1), k);
  }

  lemma {:induction false} Pow2Monotone(j: nat, k: nat)
    requires j <= k
    ensures Pow2(j) <= Pow2(k)
    decreases k
  {
    if j < k { Pow2Monotone(j, k - 1); }
  }

  lemma {:induction false} Pow2Sum(j: nat, k: nat)
    ensures Pow2(j + k) == Pow2(j) * Pow2(k)
  {
    if j > 0 { Pow2Sum(j - 1, k); }
  }

  const LIMIT := 0x4000_0000

  lemma LimitIsPower()
    ensures LIMIT == Pow2(30)
  {
    assert Pow2(2) == 4 && Pow2(4) == 16 && Pow2(6) == 64;
    Pow2Sum(6, 6);
    Pow2Sum(12, 12);
    Pow2Sum(6, 24);
  }

  /** For a need up to 2^30 no intermediate value leaves the range of int. */
  method Pow2gt(need: nat) returns (p: nat)
    requires 0 < need <= LIMIT
    ensures p == PowerFor(need) <= LIMIT
  {
    var x: nat := need - 1;
    ghost var n := Bits(x);
    BitsBound(x);
    LimitIsPower();
    BitsMonotone(30, x);
    Pow2Monotone(n, 30);
    assert TopSet(x, n, 1);
    SmearStep(x, n, 1);
    x := Or(x, Shr(x, 1));
    SmearStep(x, n, 2);
    x := Or(x, Shr(x, 2));
    SmearStep(x, n, 4);
    x := Or(x, Shr(x, 4));
    SmearStep(x, n, 8);
    x := Or(x, Shr(x, 8));
    SmearStep(x, n, 16);
    x := Or(x, Shr(x, 16));
    p := x + 1;
  }

  lemma {:induction false} DoubleOrSame(j: nat, k: nat)
    requires Pow2(j) < Pow2(k)
    ensures 2 * Pow2(j) <= Pow2(k)
  {
    if k <= j { Pow2Monotone(k, j); } else { Pow2Monotone(j + 1, k); }
  }

  /** The next power of two beyond a power of two is at least its double. */
  lemma GrowthDoubles(length: nat, need: nat)
    requires 0 < length < need && length == PowerFor(length)
    ensures PowerFor(need) == PowerFor(PowerFor(need)) && 2 * length <= PowerFor(need)
  {
    assert PowerFor(length) == Pow2(Bits(length - 1)) && PowerFor(need) == Pow2(Bits(need - 1));
    DoubleOrSame(Bits(length - 1), Bits(need - 1));
    PowerOfPower(need);
  }

  lemma PowerOfPower(need: nat)
    requires need > 0
    ensures PowerFor(PowerFor(need)) == PowerFor(need)
  {
    PowerForIsLeast(PowerFor(need), Bits(need - 1));
  }
}
