/** Powers of two, alignment and single-bit arithmetic on natural numbers.

Machine words are natural numbers here.  Every operator is defined by recursion on
the binary digits, so the facts about it are proved by induction on the digit. */
module Bits {

  function Pow2(n: nat): (r: nat)
    ensures r > 0
  {
    if n == 0 then 1 else 2 * Pow2(n - 1)
  }

  const TWO_32 := 0x1_0000_0000
  const TWO_64 := 0x1_0000_0000_0000_0000

  lemma Pow2Values()
    ensures Pow2(5) == 32 && Pow2(22) == 0x40_0000 && Pow2(32) == TWO_32 && Pow2(64) == TWO_64
  {
    Pow2Add(11, 11);
    Pow2Add(8, 8);
    Pow2Add(16, 16);
    Pow2Add(32, 32);
    assert Pow2(8) == 256 && Pow2(11) == 2048;
  }

  lemma {:induction false} Pow2Mono(m: nat, n: nat)
    requires m <= n
    ensures Pow2(m) <= Pow2(n)
    ensures m < n ==> 2 * Pow2(m) <= Pow2(n)
    decreases n - m
  {
    if m < n { Pow2Mono(m, n - 1); }
  }

  lemma {:induction false} Pow2Add(m: nat, n: nat)
    ensures Pow2(m + n) == Pow2(m) * Pow2(n)
  {
    if m > 0 {
      Pow2Add(m - 1, n);
      assert Pow2(m + n) == 2 * (Pow2(m - 1) * Pow2(n));
      assert 2 * (Pow2(m - 1) * Pow2(n)) == (2 * Pow2(m - 1)) * Pow2(n);
    }
  }

  /** The low `n` binary digits of `x` are zero. */
  predicate Aligned(x: nat, n: nat)
  {
    n == 0 || (x % 2 == 0 && Aligned(x / 2, n - 1))
  }

  lemma MulAssoc(a: nat, b: nat, c: nat)
    ensures (a * b) * c == a * (b * c)
  {
  }

  lemma MulDistributes(a: nat, x: nat, y: nat)
    ensures a * (x + y) == a * x + a * y
  {
  }

  lemma MulMonotone(a: nat, x: nat, y: nat)
    requires x <= y
    ensures a * x <= a * y
  {
    assert a * y == a * x + a * (y - x);
  }

  lemma MulMono(p: nat, k: nat)
    requires k >= 1
    ensures p * k >= p
  {
    assert p * k == p * (k - 1) + p;
  }

  lemma DivModUnique(x: nat, p: nat, q: nat, r: nat)
    requires x == p * q + r && r < p
    ensures x / p == q && x % p == r
  {
    var q', r' := x / p, x % p;
    assert x == p * q' + r';
    assert p * (q - q') == r' - r && p * (q' - q) == r - r';
    if q' < q {
      MulMono(p, q - q');
    } else if q' > q {
      MulMono(p, q' - q);
    }
  }

  /** Digit 0 of a quotient. */
  lemma BitAt(e: nat, d: nat, half: nat, bit: nat, r: nat)
    requires e == d * (2 * half + bit) + r && r < d && bit < 2
    ensures (e / d) % 2 == bit
  {
    DivModUnique(e, d, 2 * half + bit, r);
  }

  lemma {:induction false} AlignedIsMultiple(x: nat, n: nat)
    ensures Aligned(x, n) <==> x % Pow2(n) == 0
  {
    if n > 0 {
      AlignedIsMultiple(x / 2, n - 1);
      DivModProduct(x, 2, Pow2(n - 1));
    }
  }

  /** Division and remainder by a product, digit by digit. */
  lemma DivModProduct(x: nat, a: nat, b: nat)
    requires a > 0 && b > 0
    ensures a * b > 0
    ensures x / (a * b) == (x / a) / b
    ensures x % (a * b) == a * ((x / a) % b) + x % a
  {
    var y, s := x / a, x % a;
    var q, r := y / b, y % b;
    ProductParts(x, a, b, y, s, q, r);
    DivModUnique(x, a * b, q, a * r + s);
  }

  lemma ProductParts(x: nat, a: nat, b: nat, y: nat, s: nat, q: nat, r: nat)
    requires x == a * y + s && y == b * q + r && s < a && r < b
    ensures x == (a * b) * q + (a * r + s) && a * r + s < a * b
  {
    MulLess(a, b, r, s);
    assert a * (b * q + r) == a * (b * q) + a * r;
    MulAssoc(a, b, q);
  }

  lemma MulLess(a: nat, b: nat, r: nat, s: nat)
    requires r < b && s < a
    ensures a * r + s < a * b
  {
    MulMono(a, b - r);
    assert a * b == a * r + a * (b - r);
  }

  lemma {:induction false} AlignedWeaken(x: nat, m: nat, n: nat)
    requires Aligned(x, n) && m <= n
    ensures Aligned(x, m)
  {
    if m > 0 { AlignedWeaken(x / 2, m - 1, n - 1); }
  }

  lemma {:induction false} AlignedStep(x: nat, n: nat)
    requires Aligned(x, n)
    ensures Aligned(x + Pow2(n), n)
  {
    if n > 0 {
      AlignedStep(x / 2, n - 1);
      assert (x + Pow2(n)) / 2 == x / 2 + Pow2(n - 1);
    }
  }

  /** Two multiples of 2^n with x < y are at least 2^n apart. */
  lemma {:induction false} AlignedGap(x: nat, y: nat, n: nat)
    requires Aligned(x, n) && Aligned(y, n) && x < y
    ensures x + Pow2(n) <= y
  {
    if n > 0 { AlignedGap(x / 2, y / 2, n - 1); }
  }

  /** Exclusive or with 1 << n: inverts binary digit n and keeps the others. */
  function FlipBit(x: nat, n: nat): (r: nat)
  {
    if n == 0 then (if x % 2 == 0 then x + 1 else x - 1)
    else 2 * FlipBit(x / 2, n - 1) + x % 2
  }

  /** The buddy of an aligned block is the adjacent block; flipping twice is the
      identity; the lower of the two is aligned to the doubled size. */
  lemma {:induction false} FlipAligned(x: nat, n: nat)
    requires Aligned(x, n)
    ensures FlipBit(x, n) == (if Aligned(x, n + 1) then x + Pow2(n) else x - Pow2(n))
    ensures Aligned(FlipBit(x, n), n)
    ensures Aligned(FlipBit(x, n), n + 1) <==> !Aligned(x, n + 1)
    ensures FlipBit(FlipBit(x, n), n) == x
  {
    if n > 0 {
      FlipAligned(x / 2, n - 1);
      var y := FlipBit(x / 2, n - 1);
      assert FlipBit(x, n) == 2 * y && (2 * y) / 2 == y;
      assert Aligned(x, n + 1) == Aligned(x / 2, n);
      assert Aligned(2 * y, n + 1) == Aligned(y, n);
      assert FlipBit(2 * y, n) == 2 * FlipBit(y, n - 1);
    } else {
      assert Aligned(x, 1) == (x % 2 == 0);
    }
  }

  /** The upper half of an aligned block is its lower half's buddy. */
  lemma HalfBuddy(x: nat, n: nat)
    requires Aligned(x, n + 1)
    ensures Aligned(x, n) && FlipBit(x, n) == x + Pow2(n)
    ensures Aligned(x + Pow2(n), n) && !Aligned(x + Pow2(n), n + 1)
  {
    AlignedWeaken(x, n, n + 1);
    FlipAligned(x, n);
  }

  /** Number of trailing zero digits. */
  function Ctz(x: nat): (r: nat)
    requires x > 0
  {
    if x % 2 == 1 then 0 else 1 + Ctz(x / 2)
  }

  lemma {:induction false} CtzAligned(x: nat, n: nat)
    requires x > 0
    ensures Aligned(x, n) <==> n <= Ctz(x)
  {
    if n > 0 && x % 2 == 0 { CtzAligned(x / 2, n - 1); }
  }

  /** Adding the lowest set digit raises the trailing-zero count. */
  lemma {:induction false} CtzRises(x: nat)
    requires x > 0
    ensures Ctz(x + Pow2(Ctz(x))) > Ctz(x)
  {
    if x % 2 == 0 {
      CtzRises(x / 2);
      var p := Pow2(Ctz(x / 2));
      assert Pow2(Ctz(x)) == 2 * p;
      assert (x + 2 * p) / 2 == x / 2 + p && (x + 2 * p) % 2 == 0;
    }
  }

  /** The least multiple of 2^n that is at least x. */
  function RoundUp(x: nat, n: nat): (r: nat)
  {
    if n == 0 then x else 2 * RoundUp((x + 1) / 2, n - 1)
  }

  lemma {:induction false} RoundUpBounds(x: nat, n: nat)
    ensures x <= RoundUp(x, n) < x + Pow2(n)
    ensures Aligned(RoundUp(x, n), n)
  {
    if n > 0 { RoundUpBounds((x + 1) / 2, n - 1); }
  }

  lemma {:induction false} RoundUpStep(x: nat, n: nat)
    requires x > 0 && Ctz(x) < n
    ensures RoundUp(x + Pow2(Ctz(x)), n) == RoundUp(x, n)
  {
    if x % 2 == 0 {
      RoundUpStep(x / 2, n - 1);
      var p := Pow2(Ctz(x / 2));
      assert (x + 2 * p + 1) / 2 == x / 2 + p;
      assert (x + 1) / 2 == x / 2;
    }
  }

  lemma {:induction false} RoundUpAligned(x: nat, n: nat)
    requires Aligned(x, n)
    ensures RoundUp(x, n) == x
  {
    if n > 0 { RoundUpAligned(x / 2, n - 1); }
  }

  /** Number of binary digits of x: 64 minus the count of leading zeros. */
  function BitLength(x: nat): (r: nat)
  {
    if x == 0 then 0 else 1 + BitLength(x / 2)
  }

  lemma {:induction false} BitLengthBounds(x: nat)
    ensures x < Pow2(BitLength(x))
    ensures x > 0 ==> Pow2(BitLength(x) - 1) <= x
  {
    if x > 0 { BitLengthBounds(x / 2); }
  }

  /** util::log2: the least order whose block holds x bytes. */
  function Log2(x: nat): (r: nat)
  {
    if x < 2 then 0 else BitLength(x - 1)
  }

  lemma Log2IsCeiling(x: nat, n: nat)
    requires x > 0
    ensures x <= Pow2(n) <==> Log2(x) <= n
  {
    if x >= 2 {
      BitLengthBounds(x - 1);
      var l := Log2(x);
      if l <= n { Pow2Mono(l, n); }
      else { Pow2Mono(n, l - 1); }
    }
  }

  /** Bitwise or. */
  function Or(x: nat, y: nat): (r: nat)
    decreases x + y
  {
    if x == 0 && y == 0 then 0
    else 2 * Or(x / 2, y / 2) + (if x % 2 == 1 || y % 2 == 1 then 1 else 0)
  }

  lemma {:induction false} OrZero(x: nat)
    ensures Or(x, 0) == x && Or(0, x) == x
  {
    if x > 0 { OrZero(x / 2); }
  }

  lemma {:induction false} OrCommutes(x: nat, y: nat)
    ensures Or(x, y) == Or(y, x)
    decreases x + y
  {
    if x > 0 || y > 0 { OrCommutes(x / 2, y / 2); }
  }

  /** Or of numbers with no digit in common is their sum. */
  lemma {:induction false} OrAdds(x: nat, y: nat, n: nat)
    requires Aligned(x, n) && y < Pow2(n)
    ensures Or(x, y) == x + y && Or(y, x) == x + y
  {
    if n == 0 {
      OrZero(x);
    } else {
      OrAdds(x / 2, y / 2, n - 1);
    }
  }

  lemma {:induction false} OrBetween(x: nat, low: nat, high: nat, n: nat, k: nat)
    requires Aligned(x, n) && low < Pow2(n) && x < Pow2(k) && Aligned(high, k) && n <= k
    ensures Or(x, low + high) == x + low + high
  {
    if n == 0 {
      OrAdds(high, x, k);
    } else {
      OrBetween(x / 2, low / 2, high / 2, n - 1, k - 1);
      assert (low + high) / 2 == low / 2 + high / 2;
    }
  }

  /** Bitwise and. */
  function And(x: nat, y: nat): (r: nat)
  {
    if x == 0 || y == 0 then 0
    else 2 * And(x / 2, y / 2) + (if x % 2 == 1 && y % 2 == 1 then 1 else 0)
  }

  lemma AndStep(x: nat, y: nat)
    requires y % 2 == 1
    ensures And(x, y) == 2 * And(x / 2, y / 2) + x % 2
  {
  }

  /** Masking with 2^n - 1 is the remainder by 2^n. */
  lemma {:induction false} AndMask(x: nat, n: nat)
    ensures And(x, Pow2(n) - 1) == x % Pow2(n)
  {
    if n > 0 {
      AndMask(x / 2, n - 1);
      AndMaskStep(x, Pow2(n - 1));
    }
  }

  lemma AndMaskStep(x: nat, m: nat)
    requires m > 0 && And(x / 2, m - 1) == x / 2 % m
    ensures And(x, 2 * m - 1) == x % (2 * m)
  {
    hide And;
    DivModProduct(x, 2, m);
    AndStep(x, 2 * m - 1);
    assert (2 * m - 1) / 2 == m - 1;
  }

  lemma {:induction false} AndSelf(x: nat)
    ensures And(x, x) == x
  {
    if x > 0 { AndSelf(x / 2); }
  }

  lemma {:induction false} PowerMasksNothing(k: nat)
    ensures And(Pow2(k), Pow2(k) - 1) == 0
  {
    if k > 0 {
      PowerMasksNothing(k - 1);
      assert (Pow2(k) - 1) / 2 == Pow2(k - 1) - 1;
    }
  }

  /** x & (x - 1) is zero only for powers of two. */
  lemma {:induction false} PowerOfTwoTest(x: nat) returns (k: nat)
    requires x > 0 && And(x, x - 1) == 0
    ensures x == Pow2(k)
  {
    if x == 1 {
      k := 0;
    } else if x % 2 == 1 {
      k := 0;
      assert (x - 1) / 2 == x / 2;
      AndSelf(x / 2);
    } else {
      assert (x - 1) / 2 == x / 2 - 1;
      var j := PowerOfTwoTest(x / 2);
      k := j + 1;
    }
  }

  function Quotient(a: nat, b: nat): (r: nat)
    requires b > 0
    ensures r <= a
  {
    QuotientLess(a, b);
    a / b
  }

  lemma QuotientLess(a: nat, b: nat)
    requires b > 0
    ensures 0 <= a / b <= a
  {
    var q := a / b;
    assert a == b * q + a % b;
    if q > a {
      MulMonotone(q, 1, b);
      assert false;
    }
  }

  function ShiftRight(w: nat, k: nat): (r: nat)
    ensures r <= w
  {
    Quotient(w, Pow2(k))
  }
}
