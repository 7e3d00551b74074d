/** Unsigned 64-bit words as natural numbers, with the bitwise operators of C
    defined bit by bit, so that every mask and shift of the kernel keeps its
    exact meaning while proofs use integer arithmetic. A left shift by k is a
    multiplication by Pow2(k). */
module Bits {

  const TWO64: nat := 0x1_0000_0000_0000_0000
  const TWO63: nat := 0x8000_0000_0000_0000
  const PGSIZE: nat := 4096

  /** (int)x of a wider integer */
  function ToInt(x: int): (r: int)
    ensures -0x8000_0000 <= r < 0x8000_0000 && (x - r) % 0x1_0000_0000 == 0
  {
    var low := x % 0x1_0000_0000;
    if low < 0x8000_0000 then low else low - 0x1_0000_0000
  }

  function Pow2(k: nat): (p: nat)
    ensures p >= 1
  {
    if k == 0 then 1 else 2 * Pow2(k - 1)
  }

  ghost predicate IsPow2(n: nat) {
    exists k: nat :: n == Pow2(k)
  }

  /** x | y */
  function Or(x: nat, y: nat): nat {
    if x == 0 && y == 0 then 0
    else 2 * Or(x / 2, y / 2) + if x % 2 == 1 || y % 2 == 1 then 1 else 0
  }

  /** x & y */
  function And(x: nat, y: nat): nat {
    if x == 0 || y == 0 then 0
    else 2 * And(x / 2, y / 2) + if x % 2 == 1 && y % 2 == 1 then 1 else 0
  }

  /** x & ~y */
  function AndNot(x: nat, y: nat): nat {
    if x == 0 then 0
    else 2 * AndNot(x / 2, y / 2) + if x % 2 == 1 && y % 2 == 0 then 1 else 0
  }

  lemma Pow2Monotone(a: nat, b: nat)
    requires a <= b
    ensures Pow2(a) <= Pow2(b)
    decreases b
  {
    if a < b {
      Pow2Monotone(a, b - 1);
    }
  }

  lemma Pow2Add(a: nat, b: nat)
    ensures Pow2(a + b) == Pow2(a) * Pow2(b)
  {
    if a > 0 {
      Pow2Add(a - 1, b);
      assert Pow2(a + b) == 2 * Pow2(a - 1 + b);
    }
  }

  /** Of two powers of two the smaller divides the larger. */
  lemma Pow2Divides(m: nat, n: nat) returns (q: nat)
    requires IsPow2(m) && IsPow2(n) && m <= n
    ensures n == q * m && IsPow2(q)
  {
    var a: nat :| m == Pow2(a);
    var b: nat :| n == Pow2(b);
    if b < a {
      Pow2Monotone(b, a);
      q := 1;
      assert 1 == Pow2(0);
    } else {
      q := Pow2(b - a);
      Pow2Add(b - a, a);
    }
  }

  lemma Pow2Half(n: nat)
    requires IsPow2(n) && n > 1
    ensures n % 2 == 0 && IsPow2(n / 2)
  {
    var k: nat :| n == Pow2(k);
    assert n / 2 == Pow2(k - 1);
  }

  /** A power of two above m is at least 2m when m is one as well. */
  lemma Pow2Gap(m: nat, n: nat)
    requires IsPow2(m) && IsPow2(n) && m < n
    ensures 2 * m <= n
  {
    var a: nat :| m == Pow2(a);
    var b: nat :| n == Pow2(b);
    if b <= a { Pow2Monotone(b, a); }
    Pow2Monotone(a + 1, b);
  }

  // ---------------------------------------------------------------- masks

  /** x & (2^k - 1) is x mod 2^k. */
  lemma {:induction false} AndMask(x: nat, k: nat)
    ensures And(x, Pow2(k) - 1) == x % Pow2(k)
    decreases k
  {
    if k > 0 {
      AndMask(x / 2, k - 1);
      AndOdd(x, Pow2(k - 1));
      ModTwice(x, Pow2(k - 1));
    }
  }

  lemma AndOdd(x: nat, p: nat)
    requires p > 0
    ensures And(x, 2 * p - 1) == 2 * And(x / 2, p - 1) + x % 2
  {
    assert (2 * p - 1) / 2 == p - 1 && (2 * p - 1) % 2 == 1;
    if x == 0 { assert And(0, p - 1) == 0; }
  }

  lemma ModTwice(x: nat, p: nat)
    requires p > 0
    ensures x % (2 * p) == 2 * (x / 2 % p) + x % 2
  {
    var q, r := x / 2 / p, x / 2 % p;
    MulTwo(q, p);
    assert x / 2 == q * p + r;
    DivModUnique(x, 2 * p, q, 2 * r + x % 2);
  }

  lemma MulTwo(q: nat, p: nat)
    ensures q * (2 * p) == 2 * (q * p)
  {
  }

  lemma {:induction false} MulMonotone(a: nat, b: nat, d: nat)
    requires a <= b
    ensures a * d <= b * d
    decreases d
  {
    if d > 0 {
      MulMonotone(a, b, d - 1);
    }
  }

  lemma DivBounds(x: nat, d: nat)
    requires d > 0
    ensures x / d * d <= x < (x / d + 1) * d
  {
    assert x == x / d * d + x % d;
  }

  lemma DivLower(x: nat, d: nat, q: nat)
    requires d > 0 && x >= q * d
    ensures x / d >= q
  {
    DivBounds(x, d);
    if x / d + 1 <= q {
      MulMonotone(x / d + 1, q, d);
    }
  }

  lemma DivUpper(x: nat, d: nat, q: nat)
    requires d > 0 && x < q * d
    ensures x / d < q
  {
    DivBounds(x, d);
    if q <= x / d {
      MulMonotone(q, x / d, d);
    }
  }

  lemma DivModUnique(x: nat, d: nat, q: nat, r: nat)
    requires d > 0 && x == q * d + r && r < d
    ensures x / d == q && x % d == r
  {
    DivLower(x, d, q);
    assert (q + 1) * d == q * d + d;
    DivUpper(x, d, q + 1);
  }

  /** Or of words without a common bit is their sum: the low word below 2^k,
      the high one a multiple of it. */
  lemma {:induction false} OrDisjoint(x: nat, k: nat, y: nat)
    requires y < Pow2(k)
    ensures Or(x * Pow2(k), y) == x * Pow2(k) + y
    decreases k
  {
    if k == 0 {
      OrZero(x);
    } else {
      OrDisjoint(x, k - 1, y / 2);
      TimesPow2(x, k);
      OrDouble(x * Pow2(k - 1), y);
    }
  }

  lemma TimesPow2(x: nat, k: nat)
    requires k > 0
    ensures x * Pow2(k) == 2 * (x * Pow2(k - 1))
  {
  }

  lemma OrDouble(a: nat, y: nat)
    ensures Or(2 * a, y) == 2 * Or(a, y / 2) + y % 2
  {
    assert 2 * a / 2 == a;
    if a == 0 && y == 0 { assert Or(a, y / 2) == 0; }
  }

  /** So for any two words without a common bit. */
  lemma {:induction false} OrSum(x: nat, y: nat)
    requires And(x, y) == 0
    ensures Or(x, y) == x + y
  {
    if x == 0 {
      OrZeroLeft(y);
    } else if y == 0 {
      OrZero(x);
    } else {
      OrSum(x / 2, y / 2);
    }
  }

  lemma {:induction false} OrZeroLeft(y: nat)
    ensures Or(0, y) == y
  {
    if y > 0 {
      OrZeroLeft(y / 2);
    }
  }

  lemma {:induction false} OrZero(x: nat)
    ensures Or(x, 0) == x
  {
    if x > 0 {
      OrZero(x / 2);
    }
  }

  lemma {:induction false} AndNotZero(x: nat)
    ensures AndNot(x, 0) == x
  {
    if x > 0 {
      AndNotZero(x / 2);
    }
  }

  /** The only single bit the kernel sets and clears in place is bit 2 (PTE_W). */
  lemma BitTwo(x: nat)
    ensures AndNot(x, 4) == if x / 4 % 2 == 1 then x - 4 else x
    ensures Or(x, 4) == if x / 4 % 2 == 1 then x else x + 4
    ensures And(x, 4) == if x / 4 % 2 == 1 then 4 else 0
  {
    AndNotZero(x / 8);
    OrZero(x / 8);
    assert x / 2 / 2 == x / 4 && x / 4 / 2 == x / 8;
    assert AndNot(x / 4, 1) == if x / 4 % 2 == 1 then x / 4 - 1 else x / 4;
    assert AndNot(x / 2, 2) == 2 * AndNot(x / 4, 1) + x / 2 % 2;
    assert Or(x / 4, 1) == if x / 4 % 2 == 1 then x / 4 else x / 4 + 1;
    assert Or(x / 2, 2) == 2 * Or(x / 4, 1) + x / 2 % 2;
    assert And(x / 4, 1) == x / 4 % 2;
    assert And(x / 2, 2) == 2 * And(x / 4, 1);
  }

  /** Bits 1 and 3. */
  lemma FlagBit(flags: nat)
    ensures And(flags, 2) == if flags / 2 % 2 == 1 then 2 else 0
    ensures And(flags, 8) == if flags / 8 % 2 == 1 then 8 else 0
  {
    assert And(flags / 2, 1) == flags / 2 % 2;
    assert flags / 2 / 2 / 2 == flags / 8;
    assert And(flags / 2 / 2 / 2, 1) == flags / 8 % 2;
    assert And(flags / 2 / 2, 2) == 2 * And(flags / 2 / 2 / 2, 1);
    assert And(flags / 2, 4) == 2 * And(flags / 2 / 2, 2);
  }

  // ---------------------------------------------- rounding up to a power of two

  /** IS_POWER_OF_2 */
  predicate PowerOfTwoTest(x: nat)
    requires x > 0
  {
    And(x, x - 1) == 0
  }

  lemma AndSelf(x: nat)
    ensures And(x, x) == x
  {
  }

  /** The macro is right for every positive word. */
  lemma {:induction false} PowerOfTwoTestCorrect(x: nat)
    requires x > 0
    ensures PowerOfTwoTest(x) <==> IsPow2(x)
  {
    var y := x / 2;
    if x == 1 {
      assert 1 == Pow2(0);
    } else if x % 2 == 1 {
      assert (x - 1) / 2 == y;
      AndSelf(y);
      if IsPow2(x) { Pow2Half(x); }
    } else {
      PowerOfTwoTestCorrect(y);
      assert (x - 1) / 2 == y - 1;
      assert y == 1 ==> And(y, y - 1) == 0;
      if IsPow2(x) { Pow2Half(x); }
      if IsPow2(y) {
        var k: nat :| y == Pow2(k);
        assert x == Pow2(k + 1);
      }
    }
  }

  /** x >> k */
  function Shr(x: nat, k: nat): nat {
    if k == 0 then x else Shr(x / 2, k - 1)
  }

  /** A shift is a division by Pow2(k): the quotient is below q just when
      x is below q * 2^k. */
  lemma {:induction false} ShrQuotient(x: nat, k: nat, q: nat)
    ensures Shr(x, k) < q <==> x < q * Pow2(k)
    decreases k
  {
    if k > 0 {
      ShrQuotient(x / 2, k - 1, q);
      TimesPow2(q, k);
    }
  }

  /** One smearing step: size |= size >> j */
  function Smear(x: nat, j: nat): nat {
    Or(x, Shr(x, j))
  }

  /** fixsize */
  function Fixsize(size: nat): nat
    requires size > 0
  {
    var s := size - 1;
    Smear(Smear(Smear(Smear(Smear(Smear(s, 1), 2), 4), 8), 16), 32) + 1
  }

  lemma {:induction false} OrBound(x: nat, y: nat, k: nat)
    requires x < Pow2(k) && y < Pow2(k)
    ensures Or(x, y) < Pow2(k)
    decreases k
  {
    if k > 0 {
      OrBound(x / 2, y / 2, k - 1);
    }
  }

  /** Bits of y below position c are all present in x | y beside x's high part h. */
  lemma {:induction false} OrSplit(x: nat, y: nat, c: nat, h: nat)
    requires y < Pow2(c) && h * Pow2(c) <= x
    ensures Or(x, y) >= h * Pow2(c) + y
    decreases c
  {
    if c == 0 {
      OrZero(x);
    } else if x != 0 || y != 0 {
      assert h * Pow2(c) == 2 * (h * Pow2(c - 1));
      OrSplit(x / 2, y / 2, c - 1, h);
    }
  }

  lemma {:induction false} OrAbove(x: nat, y: nat)
    ensures Or(x, y) >= x && Or(x, y) >= y
  {
    if x != 0 || y != 0 {
      OrAbove(x / 2, y / 2);
    }
  }

  /** x has its j topmost bits, counted down from bit w - 1, all set. */
  ghost predicate TopOnes(x: nat, w: nat, j: nat) {
    x < Pow2(w) && x >= Pow2(w) - if j <= w then Pow2(w - j) else 1
  }

  lemma ShiftRange(x: nat, j: nat, p: nat, d: nat)
    requires 0 < d <= p <= d * Pow2(j) && p * Pow2(j) - p <= x < p * Pow2(j)
    ensures p - d <= Shr(x, j) < p
  {
    ShrQuotient(x, j, p);
    assert (p - d) * Pow2(j) == p * Pow2(j) - d * Pow2(j);
    ShrQuotient(x, j, p - d);
  }

  /** The shifted word starts right below the ones already there. */
  lemma ShiftOnes(x: nat, w: nat, j: nat)
    requires 0 < j <= w && TopOnes(x, w, j)
    ensures Shr(x, j) < Pow2(w - j)
    ensures Shr(x, j) >= Pow2(w - j) - if 2 * j <= w then Pow2(w - 2 * j) else 1
  {
    Pow2Add(w - j, j);
    if 2 * j <= w {
      Pow2Add(w - 2 * j, j);
      Pow2Monotone(w - 2 * j, w - j);
      ShiftRange(x, j, Pow2(w - j), Pow2(w - 2 * j));
    } else {
      Pow2Monotone(w - j, j);
      ShiftRange(x, j, Pow2(w - j), 1);
    }
  }

  lemma OrRaises(x: nat, y: nat, c: nat, j: nat)
    requires y < Pow2(c) && x >= Pow2(c + j) - Pow2(c)
    ensures Or(x, y) >= Pow2(c + j) - Pow2(c) + y
  {
    Pow2Add(c, j);
    OneTimeLess(Pow2(j), Pow2(c));
    OrSplit(x, y, c, Pow2(j) - 1);
  }

  lemma OneTimeLess(t: nat, p: nat)
    requires t > 0
    ensures (t - 1) * p == p * t - p
  {
  }

  lemma {:induction false} ShrAtMost(x: nat, k: nat)
    ensures Shr(x, k) <= x
    decreases k
  {
    if k > 0 { ShrAtMost(x / 2, k - 1); }
  }

  lemma SmearDoubles(x: nat, w: nat, j: nat)
    requires 0 < j && TopOnes(x, w, j)
    ensures TopOnes(Smear(x, j), w, 2 * j)
  {
    var y := Shr(x, j);
    OrAbove(x, y);
    ShrAtMost(x, j);
    OrBound(x, y, w);
    if j <= w {
      ShiftOnes(x, w, j);
      OrRaises(x, y, w - j, j);
    }
  }

  lemma TopBit(x: nat) returns (w: nat)
    requires x > 0
    ensures w > 0 && Pow2(w - 1) <= x < Pow2(w)
  {
    w := 1;
    while x >= Pow2(w)
      invariant w > 0 && Pow2(w - 1) <= x
      decreases x - Pow2(w)
    {
      w := w + 1;
    }
  }

  /** 64 ones from the top leave nothing else below bit w. */
  lemma SmearAll(s: nat, w: nat)
    requires 0 < w <= 63 && TopOnes(s, w, 1)
    ensures Smear(Smear(Smear(Smear(Smear(Smear(s, 1), 2), 4), 8), 16), 32) == Pow2(w) - 1
  {
    SmearDoubles(s, w, 1);
    var s1 := Smear(s, 1);
    SmearDoubles(s1, w, 2);
    var s2 := Smear(s1, 2);
    SmearDoubles(s2, w, 4);
    var s3 := Smear(s2, 4);
    SmearDoubles(s3, w, 8);
    var s4 := Smear(s3, 8);
    SmearDoubles(s4, w, 16);
    SmearDoubles(Smear(s4, 16), w, 32);
  }

  lemma FixsizeOne()
    ensures Fixsize(1) == 1
  {
    forall j: nat
      ensures Smear(0, j) == 0
    {
      ShrAtMost(0, j);
    }
  }

  /** fixsize returns the least power of two not below its argument. */
  lemma FixsizeLeast(size: nat)
    requires 1 <= size <= TWO63
    ensures IsPow2(Fixsize(size)) && size <= Fixsize(size) <= TWO63
    ensures forall p: nat :: IsPow2(p) && size <= p ==> Fixsize(size) <= p
  {
    var r, w := 1, 0;
    Pow2Of63();
    if size == 1 {
      FixsizeOne();
    } else {
      w := TopBit(size - 1);
      if w > 63 { Pow2Monotone(63, w - 1); }
      SmearAll(size - 1, w);
      r := Pow2(w);
      Pow2Monotone(w, 63);
    }
    assert Fixsize(size) == r == Pow2(w);
    forall p: nat | IsPow2(p) && size <= p
      ensures r <= p
    {
      if p < r { Pow2Gap(p, r); }
    }
  }

  lemma Pow2Of63()
    ensures Pow2(63) == TWO63
  {
    assert Pow2(7) == 128;
    Pow2Add(7, 7);
    Pow2Add(14, 7);
    Pow2Add(21, 21);
    Pow2Add(42, 21);
  }
}
