/** Powers of two as smmalloc.cpp computes them: the 32-bit bit-smearing round-up
    `GetNextPow2`, and `Align`, the round-up to a multiple of a power of two that
    `Allocator::Init` applies to the bucket size.

    A `uint32_t` is held as a natural below 2^32; for the bit operations it is viewed
    as its 32 bits, least significant first (`Bits`, `Val`). */
module Pow2 {
  import opened Arith

  /** 2^32: the modulus of `uint32_t` arithmetic. */
  const U32: nat := 0x1_0000_0000
  /** 2^31: the first `uint32_t` value that no longer fits a 32-bit `int`. */
  const INT_LIMIT: nat := 0x8000_0000
  const INT_MIN: int := -0x8000_0000
  const WIDTH: nat := 32

  function Pow(k: nat): (r: nat)
    ensures r >= 1
  {
    if k == 0 then 1 else 2 * Pow(k - 1)
  }

  /** `x` is a power of two (1, 2, 4, ...). */
  ghost predicate IsPow2(x: nat)
    decreases x
  {
    x == 1 || (x >= 2 && x % 2 == 0 && IsPow2(x / 2))
  }

  // ---------------------------------------------------------------------------
  // Powers of two.
  // ---------------------------------------------------------------------------

  lemma {:induction false} PowIsPow2(k: nat)
    ensures IsPow2(Pow(k))
  {
    if k > 0 {
      PowIsPow2(k - 1);
    }
  }

  /** Every power of two is `Pow(e)` for some exponent `e`. */
  lemma {:induction false} Pow2Exponent(x: nat) returns (e: nat)
    requires IsPow2(x)
    ensures Pow(e) == x
    decreases x
  {
    if x == 1 {
      e := 0;
    } else {
      var e' := Pow2Exponent(x / 2);
      e := e' + 1;
    }
  }

  lemma {:induction false} PowAdd(i: nat, j: nat)
    ensures Pow(i + j) == Pow(i) * Pow(j)
    decreases j
  {
    if j > 0 {
      PowAdd(i, j - 1);
      assert Pow(i + j) == 2 * Pow(i + (j - 1));
      assert Pow(i) * Pow(j) == Pow(i) * (2 * Pow(j - 1)) == 2 * (Pow(i) * Pow(j - 1));
    }
  }

  lemma {:induction false} PowMonotone(i: nat, j: nat)
    requires i < j
    ensures 2 * Pow(i) <= Pow(j)
    decreases j
  {
    if i + 1 < j {
      PowMonotone(i, j - 1);
    }
  }

  lemma PowOrder(i: nat, j: nat)
    requires Pow(i) < Pow(j)
    ensures i < j
  {
    if j <= i {
      if j < i {
        PowMonotone(j, i);
      }
    }
  }

  lemma Pow31And32()
    ensures Pow(31) == INT_LIMIT && Pow(32) == U32
  {
    assert Pow(8) == 0x100;
    assert Pow(16) == 0x1_0000;
    assert Pow(24) == 0x100_0000;
  }

  /** Between a power of two and the next smaller one there is no other power of two. */
  lemma {:induction false} Pow2Below(p: nat, q: nat)
    requires IsPow2(p) && IsPow2(q) && q < p
    ensures q <= p / 2
  {
    var i := Pow2Exponent(q);
    var j := Pow2Exponent(p);
    PowOrder(i, j);
    PowMonotone(i, j);
  }

  /** A power of two divides every power of two that is at least as large. */
  lemma Pow2Divides(p: nat, q: nat)
    requires IsPow2(p) && IsPow2(q) && p <= q
    ensures q % p == 0
  {
    var i := Pow2Exponent(p);
    var j := Pow2Exponent(q);
    if j < i {
      PowMonotone(j, i);
    }
    var k := j - i;
    PowAdd(i, k);
    assert i + k == j;
    assert q == Pow(i) * Pow(k);
    assert q == Pow(k) * p;
    MultipleMod(Pow(k), p);
  }

  // ---------------------------------------------------------------------------
  // The bits of a word.
  // ---------------------------------------------------------------------------

  /** The value of a bit sequence, least significant bit first. */
  function Val(w: seq<bool>): nat
  {
    if |w| == 0 then 0 else (if w[0] then 1 else 0) + 2 * Val(w[1..])
  }

  /** The low `k` bits of `m`, least significant first. */
  function Bits(m: nat, k: nat): (w: seq<bool>)
    ensures |w| == k
  {
    if k == 0 then [] else [m % 2 == 1] + Bits(m / 2, k - 1)
  }

  /** `x >> s` on a word: bit `i` of the result is bit `i + s`; zeros come in on top. */
  function ShiftRight(w: seq<bool>, s: nat): (r: seq<bool>)
    requires s <= |w|
    ensures |r| == |w|
  {
    seq(|w|, i requires 0 <= i < |w| => i + s < |w| && w[i + s])
  }

  /** `a | b` on words of equal width. */
  function BitOr(a: seq<bool>, b: seq<bool>): (r: seq<bool>)
    requires |a| == |b|
    ensures |r| == |a|
  {
    seq(|a|, i requires 0 <= i < |a| => a[i] || b[i])
  }

  /** One smearing step of GetNextPow2: `n |= n >> s`. */
  function OrShift(w: seq<bool>, s: nat): (r: seq<bool>)
    requires s <= |w|
    ensures |r| == |w|
  {
    BitOr(w, ShiftRight(w, s))
  }

  /** The remainder by 2p is the low bit plus twice the remainder of the half by p. */
  lemma ModDouble(m: nat, p: nat)
    requires p > 0
    ensures m % (2 * p) == m % 2 + 2 * ((m / 2) % p)
  {
    var h := m / 2;
    var q, r := h / p, h % p;
    assert h == q * p + r;
    assert m == 2 * h + m % 2;
    assert 2 * (q * p) == q * (2 * p);
    DivModUnique(m, 2 * p, q, 2 * r + m % 2);
  }

  lemma {:induction false} BitsVal(m: nat, k: nat)
    ensures Val(Bits(m, k)) == m % Pow(k)
  {
    if k > 0 {
      BitsVal(m / 2, k - 1);
      assert Bits(m, k)[1..] == Bits(m / 2, k - 1);
      ModDouble(m, Pow(k - 1));
    }
  }

  lemma {:induction false} ValBound(w: seq<bool>)
    ensures Val(w) < Pow(|w|)
  {
    if |w| > 0 {
      ValBound(w[1..]);
    }
  }

  /** A word whose value is 0 has no bit set. */
  lemma {:induction false} ValZero(w: seq<bool>)
    requires Val(w) == 0
    ensures forall j :: 0 <= j < |w| ==> !w[j]
  {
    if |w| > 0 {
      ValZero(w[1..]);
      forall j | 1 <= j < |w|
        ensures !w[j]
      {
        assert w[j] == w[1..][j - 1];
      }
    }
  }

  lemma {:induction false} AllClearVal(w: seq<bool>)
    requires forall j :: 0 <= j < |w| ==> !w[j]
    ensures Val(w) == 0
  {
    if |w| > 0 {
      AllClearVal(w[1..]);
    }
  }

  /** A word with some bit set has a highest set bit. */
  lemma {:induction false} HighestSet(w: seq<bool>) returns (t: nat)
    requires Val(w) > 0
    ensures t < |w| && w[t] && forall j :: t < j < |w| ==> !w[j]
  {
    if Val(w[1..]) > 0 {
      var t' := HighestSet(w[1..]);
      t := t' + 1;
      forall j | t < j < |w|
        ensures !w[j]
      {
        assert w[j] == w[1..][j - 1];
      }
    } else {
      ValZero(w[1..]);
      t := 0;
      forall j | 0 < j < |w|
        ensures !w[j]
      {
        assert w[j] == w[1..][j - 1];
      }
    }
  }

  /** A word whose highest set bit is `t` has a value in [2^t, 2^(t+1)). */
  lemma {:induction false} TopBitVal(w: seq<bool>, t: nat)
    requires t < |w| && w[t] && forall j :: t < j < |w| ==> !w[j]
    ensures Pow(t) <= Val(w) < Pow(t + 1)
  {
    if t == 0 {
      AllClearVal(w[1..]);
    } else {
      TopBitVal(w[1..], t - 1);
    }
  }

  /** A word whose set bits are exactly those at or below `t` has value 2^(t+1) - 1. */
  lemma {:induction false} LowOnesVal(w: seq<bool>, t: nat)
    requires t < |w| && forall j :: 0 <= j < |w| ==> (w[j] <==> j <= t)
    ensures Val(w) == Pow(t + 1) - 1
  {
    if t == 0 {
      AllClearVal(w[1..]);
    } else {
      LowOnesVal(w[1..], t - 1);
    }
  }

  // ---------------------------------------------------------------------------
  // Smearing: after `n |= n >> 16; ...; n |= n >> 1` every bit below the highest
  // set bit is set.
  // ---------------------------------------------------------------------------

  /** No bit above `t` is set. */
  ghost predicate NoneAbove(w: seq<bool>, t: nat)
  {
    forall j :: 0 <= j < |w| && w[j] ==> j <= t
  }

  /** Every bit at or below `t` whose distance from `t` is a multiple of `d` is set. */
  ghost predicate EveryStride(w: seq<bool>, t: nat, d: nat)
    requires d > 0
  {
    forall j :: 0 <= j <= t && j < |w| && (t - j) % d == 0 ==> w[j]
  }

  /** `w |= w >> h` sets no bit above `t` that was clear. */
  lemma NoneAboveStep(w: seq<bool>, t: nat, h: nat)
    requires h <= |w| && NoneAbove(w, t)
    ensures NoneAbove(OrShift(w, h), t)
  {}

  /** `w |= w >> h` halves the spacing of the set bits below `t`. */
  lemma StrideStep(w: seq<bool>, t: nat, h: nat)
    requires h > 0 && h <= |w| && t < |w| && EveryStride(w, t, 2 * h)
    ensures EveryStride(OrShift(w, h), t, h)
  {
    var r := OrShift(w, h);
    forall j | 0 <= j <= t && j < |w| && (t - j) % h == 0
      ensures r[j]
    {
      StrideBit(w, t, h, j);
    }
  }

  lemma StrideBit(w: seq<bool>, t: nat, h: nat, j: nat)
    requires h > 0 && t < |w| && EveryStride(w, t, 2 * h)
    requires j <= t && (t - j) % h == 0
    ensures w[j] || (j + h <= t && w[j + h])
  {
    SpacingHalves(t - j, h);
  }

  /** A multiple of `h` is a multiple of `2h`, or `h` more than one. */
  lemma SpacingHalves(x: nat, h: nat)
    requires h > 0 && x % h == 0
    ensures x % (2 * h) == 0 || (x >= h && (x - h) % (2 * h) == 0)
  {
    var q := x / h;
    DivExact(x, h);
    var p := q / 2;
    if q % 2 == 0 {
      assert q == 2 * p;
      Regroup(p, h, 0);
      DivModUnique(x, 2 * h, p, 0);
    } else {
      assert q == 2 * p + 1;
      Regroup(p, h, 1);
      DivModUnique(x - h, 2 * h, p, 0);
    }
  }

  lemma Regroup(p: nat, h: nat, b: nat)
    ensures (2 * p + b) * h == p * (2 * h) + b * h
  {}

  /** The smearing steps of GetNextPow2 from shift `s` down: `w |= w >> s`, then with
      half the shift, until the shift is 0. */
  function SmearFrom(w: seq<bool>, s: nat): (r: seq<bool>)
    requires s <= |w|
    ensures |r| == |w|
    decreases s
  {
    if s == 0 then w else SmearFrom(OrShift(w, s), s / 2)
  }

  /** The smearing steps of GetNextPow2 on a 32-bit word: shifts 16, 8, 4, 2 and 1. */
  function Smear(w0: seq<bool>): (w: seq<bool>)
    requires |w0| == WIDTH
    ensures |w| == WIDTH
  {
    SmearFrom(w0, 16)
  }

  /** The five steps of Smear, one by one. */
  lemma SmearSteps(w0: seq<bool>)
    requires |w0| == WIDTH
    ensures Smear(w0) ==
      OrShift(OrShift(OrShift(OrShift(OrShift(w0, 16), 8), 4), 2), 1)
  {
    var w1 := OrShift(w0, 16);
    var w2 := OrShift(w1, 8);
    var w3 := OrShift(w2, 4);
    var w4 := OrShift(w3, 2);
    var w5 := OrShift(w4, 1);
    assert SmearFrom(w0, 16) == SmearFrom(w1, 8);
    assert SmearFrom(w1, 8) == SmearFrom(w2, 4);
    assert SmearFrom(w2, 4) == SmearFrom(w3, 2);
    assert SmearFrom(w3, 2) == SmearFrom(w4, 1);
    assert SmearFrom(w4, 1) == SmearFrom(w5, 0) == w5;
  }

  /** Smearing a word whose highest set bit is `t` sets exactly the bits at or below `t`. */
  lemma SmearFills(w0: seq<bool>, t: nat)
    requires |w0| == WIDTH && t < WIDTH && w0[t] && forall j :: t < j < WIDTH ==> !w0[j]
    ensures forall j :: 0 <= j < WIDTH ==> (Smear(w0)[j] <==> j <= t)
  {
    assert EveryStride(w0, t, 32);
    var w1 := OrShift(w0, 16);
    StrideStep(w0, t, 16);
    NoneAboveStep(w0, t, 16);
    var w2 := OrShift(w1, 8);
    StrideStep(w1, t, 8);
    NoneAboveStep(w1, t, 8);
    var w3 := OrShift(w2, 4);
    StrideStep(w2, t, 4);
    NoneAboveStep(w2, t, 4);
    var w4 := OrShift(w3, 2);
    StrideStep(w3, t, 2);
    NoneAboveStep(w3, t, 2);
    StrideStep(w4, t, 1);
    NoneAboveStep(w4, t, 1);
    var w := OrShift(w4, 1);
    SmearSteps(w0);
    forall j | 0 <= j <= t
      ensures w[j]
    {
      assert (t - j) % 1 == 0;
    }
  }

  /** Smearing the zero word leaves it zero. */
  lemma SmearZero(w0: seq<bool>)
    requires |w0| == WIDTH && forall j :: 0 <= j < WIDTH ==> !w0[j]
    ensures Val(Smear(w0)) == 0
  {
    var w1 := OrShift(w0, 16);
    OrShiftClear(w0, 16);
    var w2 := OrShift(w1, 8);
    OrShiftClear(w1, 8);
    var w3 := OrShift(w2, 4);
    OrShiftClear(w2, 4);
    var w4 := OrShift(w3, 2);
    OrShiftClear(w3, 2);
    OrShiftClear(w4, 1);
    SmearSteps(w0);
    AllClearVal(Smear(w0));
  }

  lemma OrShiftClear(w: seq<bool>, s: nat)
    requires s <= |w| && forall j :: 0 <= j < |w| ==> !w[j]
    ensures forall j :: 0 <= j < |w| ==> !OrShift(w, s)[j]
  {}

  // ---------------------------------------------------------------------------
  // GetNextPow2, as written: `uint32_t` in, subtract one, smear, add one, `int` out.
  // ---------------------------------------------------------------------------

  /** `n - 1` on `uint32_t`: 0 wraps to 2^32 - 1. */
  function Dec32(n: nat): (r: nat)
    requires n < U32
    ensures r < U32
    ensures r == if n == 0 then U32 - 1 else n - 1
  {
    if n == 0 then U32 - 1 else n - 1
  }

  /** `n + 1` on `uint32_t`: 2^32 - 1 wraps to 0. */
  function Inc32(n: nat): (r: nat)
    requires n < U32
    ensures r < U32
  {
    (n + 1) % U32
  }

  /** The value of the smeared bits of `m`. */
  function SmearValue(m: nat): nat
    requires m < U32
  {
    Val(Smear(Bits(m, WIDTH)))
  }

  /** The `uint32_t` value GetNextPow2 computes before returning it as `int`. */
  function NextPow2Unsigned(n: nat): (u: nat)
    requires n < U32
    ensures u < U32
  {
    var m := Dec32(n);
    var s := SmearValue(m);
    assert s < U32 by {
      ValBound(Smear(Bits(m, WIDTH)));
      Pow31And32();
    }
    Inc32(s)
  }

  /** GetNextPow2: the unsigned result converted to a 32-bit two's-complement `int`. */
  function GetNextPow2(n: nat): (r: int)
    requires n < U32
    ensures INT_MIN <= r < INT_LIMIT
  {
    var u := NextPow2Unsigned(n);
    if u < INT_LIMIT then u else u - U32
  }

  /** Smearing a nonzero `m` gives 2^(t+1) - 1, where 2^t <= m < 2^(t+1). */
  lemma SmearValueOf(m: nat) returns (t: nat)
    requires 0 < m < U32
    ensures t < WIDTH && Pow(t) <= m < Pow(t + 1)
    ensures SmearValue(m) + 1 == Pow(t + 1)
  {
    Pow31And32();
    var w0 := Bits(m, WIDTH);
    BitsVal(m, WIDTH);
    DivModUnique(m, U32, 0, m);
    t := HighestSet(w0);
    TopBitVal(w0, t);
    SmearFills(w0, t);
    LowOnesVal(Smear(w0), t);
  }

  lemma SmearValueOfZero()
    ensures SmearValue(0) == 0
  {
    var w0 := Bits(0, WIDTH);
    BitsVal(0, WIDTH);
    ValZero(w0);
    SmearZero(w0);
  }

  /** For 1 <= n <= 2^31 the unsigned result is the least power of two that is >= n. */
  lemma NextPow2UnsignedValue(n: nat)
    requires 1 <= n <= INT_LIMIT
    ensures var u := NextPow2Unsigned(n); IsPow2(u) && n <= u && u / 2 < n
  {
    if n == 1 {
      SmearValueOfZero();
      assert NextPow2Unsigned(n) == 1;
      assert IsPow2(1);
    } else {
      var e := NextPow2UnsignedAbove(n);
      PowIsPow2(e);
    }
  }

  /** Above 1, the unsigned result is 2^e with 2^(e-1) < n <= 2^e. */
  lemma NextPow2UnsignedAbove(n: nat) returns (e: nat)
    requires 2 <= n <= INT_LIMIT
    ensures e >= 1 && NextPow2Unsigned(n) == Pow(e) && Pow(e - 1) < n <= Pow(e)
  {
    var t := SmearValueOf(Dec32(n));
    PowCovering(t, n, SmearValue(Dec32(n)));
    e := t + 1;
  }

  /** The power of two above the highest set bit of `n - 1` covers `n` and stays a
      `uint32_t` value below 2^31. */
  lemma PowCovering(t: nat, n: nat, s: nat)
    requires 2 <= n <= INT_LIMIT && Pow(t) <= n - 1 < Pow(t + 1) && s + 1 == Pow(t + 1)
    ensures Pow(t) < n <= Pow(t + 1) && (s + 1) % U32 == Pow(t + 1)
  {
    Pow31And32();
    PowOrder(t, 31);
    if t + 1 < 31 {
      PowMonotone(t + 1, 31);
    }
    DivModUnique(Pow(t + 1), U32, 0, Pow(t + 1));
  }

  /** For n = 0 and n > 2^31 the unsigned result wraps to 0. */
  lemma NextPow2UnsignedWraps(n: nat)
    requires n < U32 && (n == 0 || n > INT_LIMIT)
    ensures NextPow2Unsigned(n) == 0
  {
    var t := SmearValueOf(Dec32(n));
    PowWrapping(t, Dec32(n), SmearValue(Dec32(n)));
  }

  /** A value with bit 31 set has 2^32 as the power above its highest set bit, and
      that power is 0 as a `uint32_t`. */
  lemma PowWrapping(t: nat, m: nat, s: nat)
    requires t < WIDTH && INT_LIMIT <= m < Pow(t + 1) && s + 1 == Pow(t + 1)
    ensures (s + 1) % U32 == 0
  {
    Pow31And32();
    PowOrder(31, t + 1);
    DivModUnique(U32, U32, 1, 0);
  }

  /** GetNextPow2 returns the least power of two that is >= n, for 1 <= n <= 2^30,
      the range in which that power still fits the signed result. */
  lemma GetNextPow2Value(n: nat)
    requires 1 <= n <= INT_LIMIT / 2
    ensures var r := GetNextPow2(n); r >= 1 && IsPow2(r) && n <= r && r / 2 < n
  {
    NextPow2UnsignedValue(n);
    Pow2Positive(NextPow2Unsigned(n));
  }

  /** Above 2^30 the power of two no longer fits an `int`: 2^31 comes back as INT_MIN,
      and n = 0 or n > 2^31 give 0. */
  lemma GetNextPow2Overflow(n: nat)
    requires n < U32
    ensures n == 0 || n > INT_LIMIT ==> GetNextPow2(n) == 0
    ensures INT_LIMIT / 2 < n <= INT_LIMIT ==> GetNextPow2(n) == INT_MIN
  {
    if n == 0 || n > INT_LIMIT {
      NextPow2UnsignedWraps(n);
    }
    if INT_LIMIT / 2 < n <= INT_LIMIT {
      NextPow2UnsignedValue(n);
      var u := NextPow2Unsigned(n);
      var e := Pow2Exponent(u);
      Pow31And32();
      if e < 31 {
        PowMonotone(e, 31);
        assert false;
      }
      if e > 31 {
        PowMonotone(31, e);
        assert false;
      }
    }
  }

  lemma {:induction false} Pow2Positive(p: nat)
    requires IsPow2(p)
    ensures p >= 1
  {}

  // ---------------------------------------------------------------------------
  // The round-up as Allocator::Init uses it (arguments 16 .. 1024).
  // ---------------------------------------------------------------------------

  /** The first power of two at or above `m` met by doubling `p`. */
  function LeastPow2From(m: nat, p: nat): nat
    requires p >= 1
    decreases m - p
  {
    if p >= m then p else LeastPow2From(m, 2 * p)
  }

  lemma {:induction false} LeastPow2FromValue(m: nat, p: nat)
    requires m >= 1 && IsPow2(p) && p / 2 < m
    ensures var r := LeastPow2From(m, p); IsPow2(r) && m <= r && r / 2 < m
    decreases m - p
  {
    Pow2Positive(p);
    if p < m {
      assert IsPow2(2 * p);
      LeastPow2FromValue(m, 2 * p);
    }
  }

  /** The least power of two that is >= m, by doubling from 1; on the arguments
      Allocator::Init passes it is what GetNextPow2 returns (NextPow2IsGetNextPow2). */
  function NextPow2(m: nat): (r: nat)
    requires 1 <= m <= INT_LIMIT / 2
    ensures IsPow2(r) && m <= r && r / 2 < m
  {
    LeastPow2FromValue(m, 1);
    LeastPow2From(m, 1)
  }

  /** GetNextPow2 and the doubling definition agree wherever the result fits an `int`. */
  lemma NextPow2IsGetNextPow2(m: nat)
    requires 1 <= m <= INT_LIMIT / 2
    ensures GetNextPow2(m) == NextPow2(m)
  {
    GetNextPow2Value(m);
    var a, b := GetNextPow2(m), NextPow2(m);
    if a < b {
      Pow2Below(b, a);
    } else if b < a {
      Pow2Below(a, b);
    }
  }

  /** The round-up is the least power of two that is >= m. */
  lemma NextPow2Least(m: nat, p: nat)
    requires 1 <= m <= INT_LIMIT / 2
    requires IsPow2(p) && m <= p
    ensures NextPow2(m) <= p
  {
    var r := NextPow2(m);
    if p < r {
      Pow2Below(r, p);
    }
  }

  /** Rounding a smaller argument up gives a divisor of the larger one's round-up. */
  lemma NextPow2DividesLarger(a: nat, b: nat)
    requires 1 <= a <= b <= INT_LIMIT / 2
    ensures NextPow2(b) % NextPow2(a) == 0
  {
    NextPow2Least(a, NextPow2(b));
    Pow2Divides(NextPow2(a), NextPow2(b));
  }

  // ---------------------------------------------------------------------------
  // Align (defined in smmalloc.h with a mask, valid for a power-of-two alignment).
  // ---------------------------------------------------------------------------

  /** Rounds `x` up to the least multiple of the power of two `a`. */
  function Align(x: nat, a: nat): (r: nat)
    requires IsPow2(a)
    ensures r % a == 0 && x <= r < x + a
  {
    Pow2Positive(a);
    var n := x + a - 1;
    var q := n / a;
    assert n == q * a + n % a;
    MultipleMod(q, a);
    q * a
  }

  /** No multiple of `a` at or above `x` lies below `Align(x, a)`. */
  lemma AlignLeast(x: nat, a: nat, m: nat)
    requires IsPow2(a) && m % a == 0 && x <= m
    ensures Align(x, a) <= m
  {
    Pow2Positive(a);
    var r := Align(x, a);
    DivExact(r, a);
    DivExact(m, a);
    if r / a > m / a {
      MulMonotone(m / a + 1, r / a, a);
      MulSucc(m / a, a);
      assert false;
    }
    MulMonotone(r / a, m / a, a);
  }

  /** `x` is aligned to `a` (IsAligned in smmalloc.h). */
  predicate IsAligned(x: nat, a: nat)
    requires a > 0
  {
    x % a == 0
  }
}
