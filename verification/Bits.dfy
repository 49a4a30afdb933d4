/** Unsigned integers as binary digits, and the bit-smearing `bit_ceil` of `str_intern.cpp`. */
module Bits {

  function Pow2(n: nat): (p: nat)
    ensures 0 < p
  {
    if n == 0 then 1 else 2 * Pow2(n - 1)
  }

  ghost predicate IsPow2(v: nat)
  {
    exists n: nat :: v == Pow2(n)
  }

  /** Digit i of v. */
  predicate Bit(v: nat, i: nat)
  {
    if i == 0 then v % 2 == 1 else Bit(v / 2, i - 1)
  }

  function Digit(b: bool): nat { if b then 1 else 0 }

  /** `x & y` */
  function And(x: nat, y: nat): nat
  {
    if x == 0 || y == 0 then 0
    else Digit(x % 2 == 1 && y % 2 == 1) + 2 * And(x / 2, y / 2)
  }

  /** `x | y` */
  function Or(x: nat, y: nat): nat
    decreases x + y
  {
    if x == 0 then y
    else if y == 0 then x
    else Digit(x % 2 == 1 || y % 2 == 1) + 2 * Or(x / 2, y / 2)
  }

  /** `x >> n` */
  function Shr(x: nat, n: nat): nat
  {
    if n == 0 then x else Shr(x / 2, n - 1)
  }

  /** `v |= v >> n`, then the same with the next shifts of 1, 2, 4, 8, 16, 32 below the type's width. */
  function Smear(v: nat, n: nat, width: nat): nat
    requires 0 < n
    decreases width - n
  {
    if width <= n then v else Smear(Or(v, Shr(v, n)), 2 * n, width)
  }

  /** The template `bit_ceil` for a type of `width` bits; `v--` and `v++` wrap around. */
  function BitCeil(v: nat, width: nat): nat
  {
    var v1 := if v == 0 then Pow2(width) - 1 else v - 1;
    var v2 := Smear(v1, 1, width);
    if v2 == Pow2(width) - 1 then 0 else v2 + 1
  }

  lemma {:induction false} AndAtMost(x: nat, y: nat)
    ensures And(x, y) <= y
  {
    if x != 0 && y != 0 { AndAtMost(x / 2, y / 2); }
  }

  lemma {:induction false} OrBit(x: nat, y: nat, i: nat)
    ensures Bit(Or(x, y), i) == (Bit(x, i) || Bit(y, i))
  {
    if x == 0 {
      ZeroBit(i);
    } else if y == 0 {
      ZeroBit(i);
    } else {
      OrHalves(x, y);
      if i > 0 { OrBit(x / 2, y / 2, i - 1); }
    }
  }

  lemma OrHalves(x: nat, y: nat)
    requires x != 0 && y != 0
    ensures Or(x, y) / 2 == Or(x / 2, y / 2)
    ensures Or(x, y) % 2 == 1 <==> x % 2 == 1 || y % 2 == 1
  {
    var d, o := Digit(x % 2 == 1 || y % 2 == 1), Or(x / 2, y / 2);
    assert Or(x, y) == d + 2 * o;
  }

  lemma {:induction false} ZeroBit(i: nat)
    ensures !Bit(0, i)
  {
    if i > 0 { ZeroBit(i - 1); }
  }

  lemma {:induction false} ShrBit(x: nat, n: nat, i: nat)
    ensures Bit(Shr(x, n), i) == Bit(x, n + i)
  {
    if n > 0 { ShrBit(x / 2, n - 1, i); }
  }

  lemma {:induction false} OrBelow(x: nat, y: nat, n: nat)
    requires x < Pow2(n) && y < Pow2(n)
    ensures Or(x, y) < Pow2(n)
  {
    if n > 0 { OrBelow(x / 2, y / 2, n - 1); }
  }

  lemma {:induction false} ShrBelow(x: nat, n: nat)
    ensures Shr(x, n) <= x
  {
    if n > 0 { ShrBelow(x / 2, n - 1); }
  }

  lemma {:induction false} AllOnes(v: nat, n: nat)
    requires v < Pow2(n) && forall i :: 0 <= i < n ==> Bit(v, i)
    ensures v == Pow2(n) - 1
  {
    if n > 0 {
      assert Bit(v, 0);
      forall i | 0 <= i < n - 1 ensures Bit(v / 2, i) {
        assert Bit(v, i + 1);
      }
      AllOnes(v / 2, n - 1);
    }
  }

  lemma {:induction false} TopBit(v: nat) returns (n: nat)
    requires 0 < v
    ensures Pow2(n) <= v < Pow2(n + 1) && Bit(v, n)
  {
    if v == 1 {
      n := 0;
    } else {
      var m := TopBit(v / 2);
      n := m + 1;
    }
  }

  lemma {:induction false} Pow2Monotone(m: nat, n: nat)
    requires m <= n
    ensures Pow2(m) <= Pow2(n)
    ensures m < n ==> 2 * Pow2(m) <= Pow2(n)
  {
    if m < n { Pow2Monotone(m, n - 1); }
  }

  /** v has its highest digit at n and the m digits from there down are set. */
  ghost predicate TopOnes(v: nat, n: nat, m: nat)
  {
    v < Pow2(n + 1) && forall i :: 0 <= i <= n && n < i + m ==> Bit(v, i)
  }

  /** A shift by m doubles the number of leading ones. */
  lemma SmearDoubles(v: nat, n: nat, m: nat)
    requires TopOnes(v, n, m) && 0 < m
    ensures TopOnes(Or(v, Shr(v, m)), n, 2 * m)
  {
    ShrBelow(v, m);
    OrBelow(v, Shr(v, m), n + 1);
    forall i | 0 <= i <= n && n < i + 2 * m ensures Bit(Or(v, Shr(v, m)), i) {
      OrBit(v, Shr(v, m), i);
      ShrBit(v, m, i);
      if n >= i + m { assert Bit(v, m + i); }
    }
  }

  lemma {:induction false} SmearedIsAllOnes(v: nat, n: nat, m: nat, width: nat)
    requires n < width && 0 < m && TopOnes(v, n, m)
    ensures Smear(v, m, width) == Pow2(n + 1) - 1
    decreases width - m
  {
    if width <= m {
      AllOnes(v, n + 1);
    } else {
      SmearDoubles(v, n, m);
      SmearedIsAllOnes(Or(v, Shr(v, m)), n, 2 * m, width);
    }
  }

  lemma {:induction false} SmearZero(n: nat, width: nat)
    requires 0 < n
    ensures Smear(0, n, width) == 0
    decreases width - n
  {
    if n < width {
      ShrBelow(0, n);
      SmearZero(2 * n, width);
    }
  }

  /** The smeared bits, plus one, for a number with its top bit at n. */
  lemma BitCeilFromTop(v: nat, w: nat, n: nat, width: nat)
    requires 0 < width && v != 1 && w == (if v == 0 then Pow2(width) else v) && 1 < w <= Pow2(width)
    requires Pow2(n) <= w - 1 < Pow2(n + 1) && Bit(w - 1, n)
    ensures n < width && BitCeil(v, width) == if n + 1 == width then 0 else Pow2(n + 1)
  {
    if width <= n { Pow2Monotone(width, n); }
    SmearedIsAllOnes(w - 1, n, 1, width);
    if n + 1 < width { Pow2Monotone(n + 1, width); }
  }

  lemma {:induction false} Pow2Sum(m: nat, n: nat)
    ensures Pow2(m + n) == Pow2(m) * Pow2(n)
  {
    if n > 0 { Pow2Sum(m, n - 1); }
  }

  /** `bit_ceil` returns the least power of two that is not below v; if that does not fit the type, or
      for 0, it returns 0. */
  lemma BitCeilIsLeast(v: nat, width: nat)
    requires 0 < width && v < Pow2(width)
    ensures 1 <= v <= Pow2(width - 1) ==> IsPow2(BitCeil(v, width)) && v <= BitCeil(v, width) <= Pow2(width - 1)
    ensures 1 <= v <= Pow2(width - 1) ==> forall n: nat :: v <= Pow2(n) ==> BitCeil(v, width) <= Pow2(n)
    ensures v == 0 || Pow2(width - 1) < v ==> BitCeil(v, width) == 0
  {
    if v == 1 {
      SmearZero(1, width);
      Pow2Monotone(0, width - 1);
      assert BitCeil(v, width) == Pow2(0);
    } else {
      var w := if v == 0 then Pow2(width) else v;
      Pow2Monotone(0, width - 1);
      var n := TopBit(w - 1);
      BitCeilFromTop(v, w, n, width);
      if n + 1 < width {
        Pow2Monotone(n + 1, width - 1);
        forall k: nat | v <= Pow2(k) ensures Pow2(n + 1) <= Pow2(k) {
          if k <= n { Pow2Monotone(k, n); } else { Pow2Monotone(n + 1, k); }
        }
      }
    }
  }

  // ----- tests with `&`

  lemma {:induction false} AndSelf(x: nat)
    ensures And(x, x) == x
  {
    if x != 0 { AndSelf(x / 2); }
  }

  lemma EvenPow2(v: nat)
    requires v % 2 == 0 && 0 < v
    ensures IsPow2(v) <==> IsPow2(v / 2)
  {
    if n: nat :| v == Pow2(n) {
      assert v / 2 == Pow2(n - 1);
    }
    if n: nat :| v / 2 == Pow2(n) {
      assert v == Pow2(n + 1);
    }
  }

  lemma EvenPredecessor(h: nat)
    requires 0 < h
    ensures And(2 * h, 2 * h - 1) == 2 * And(h, h - 1)
  {
    assert (2 * h - 1) / 2 == h - 1 && 2 * h / 2 == h;
  }

  /** `v & (v - 1)` is 0 exactly for powers of two. */
  lemma AndHalves(x: nat, y: nat, h: nat)
    requires 0 < y && x / 2 == h && y / 2 == h && x % 2 == 1 && y % 2 == 0
    ensures And(x, y) == 2 * And(h, h)
  {
  }

  lemma OddPredecessor(v: nat, u: nat, h: nat)
    requires v == 2 * h + 1 && u == 2 * h
    ensures And(v, u) == 2 * h
  {
    AndSelf(h);
    if 0 < u { AndHalves(v, u, h); }
  }

  lemma OddPow2(v: nat)
    requires v % 2 == 1
    ensures IsPow2(v) <==> v == 1
  {
    assert Pow2(0) == 1;
    if n: nat :| v == Pow2(n) { LargerAreEven(n); }
  }

  lemma LargerAreEven(n: nat)
    ensures 0 < n ==> Pow2(n) % 2 == 0
  {
  }

  lemma {:induction false} AndPredecessor(v: nat)
    requires 0 < v
    ensures And(v, v - 1) == 0 <==> IsPow2(v)
  {
    var h := v / 2;
    if v % 2 == 0 {
      EvenPredecessor(h);
      AndPredecessor(h);
      EvenPow2(v);
    } else {
      OddPredecessor(v, v - 1, h);
      OddPow2(v);
    }
  }

  lemma {:induction false} AndIsRemainder(m: nat, n: nat)
    ensures And(m, Pow2(n) - 1) == m % Pow2(n)
  {
    if n > 0 {
      AndLowest(m, Pow2(n - 1));
      AndIsRemainder(m / 2, n - 1);
      HalfRemainder(m, Pow2(n - 1));
    }
  }

  lemma AndLowest(m: nat, p: nat)
    requires 0 < p
    ensures And(m, 2 * p - 1) == m % 2 + 2 * And(m / 2, p - 1)
  {
    assert (2 * p - 1) / 2 == p - 1 && (2 * p - 1) % 2 == 1;
  }

  lemma HalfRemainder(m: nat, p: nat)
    requires 0 < p
    ensures m % (2 * p) == m % 2 + 2 * (m / 2 % p)
  {
    var q, r := m / 2 / p, m / 2 % p;
    assert m / 2 == q * p + r;
    assert m == q * (2 * p) + (m % 2 + 2 * r);
    SmallRemainder(q, 2 * p, m % 2 + 2 * r);
  }

  lemma MulMonotone(i: nat, j: nat, d: nat)
    requires i <= j
    ensures i * d <= j * d
  {
  }

  lemma SmallRemainder(q: nat, d: nat, r: nat)
    requires r < d
    ensures (q * d + r) % d == r
  {
    var k := (q * d + r) / d;
    assert q * d + r == k * d + (q * d + r) % d;
    if k < q { MulMonotone(k + 1, q, d); } else if q < k { MulMonotone(q + 1, k, d); }
  }
}
