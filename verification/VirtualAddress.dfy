/** The virtual address of a position in the page tables. */
module VirtualAddress {
  import opened Bits
  import opened Words
  import opened Paging

  const HIGH_HALF := 0x8000_0000_0000
  const HIGH_BITS := 0xffff_0000_0000_0000

  /** The number that base-512 digits stand for. */
  function Value(digits: seq<nat>): nat
  {
    if digits == [] then 0 else 512 * Value(digits[..|digits| - 1]) + digits[|digits| - 1]
  }

  predicate Indexes(digits: seq<nat>)
  {
    forall i :: 0 <= i < |digits| ==> digits[i] < 512
  }

  lemma {:induction false} ValueDigits(digits: seq<nat>)
    requires Indexes(digits)
    ensures Value(digits) < Power512(|digits|) && Digits(Value(digits), |digits|) == digits
  {
    if digits != [] {
      var n := |digits| - 1;
      ValueDigits(digits[..n]);
      assert Value(digits) / 512 == Value(digits[..n]) && Value(digits) % 512 == digits[n];
      assert digits[..n] + [digits[n]] == digits;
    }
  }

  /** Multiplying by a power of 512 appends zero digits. */
  lemma {:induction false} DigitsZeros(v: nat, k: nat, z: nat)
    requires v < Power512(k)
    ensures v * Power512(z) < Power512(k + z) && Digits(v * Power512(z), k + z) == Digits(v, k) + Zeros(z)
  {
    hide Digits, Power512;
    ShiftDigits(v * Power512(0), k);
    if z == 0 {
      NoShift(v);
      assert Digits(v, k) + Zeros(0) == Digits(v, k);
    } else {
      DigitsZeros(v, k, z - 1);
      var w := v * Power512(z - 1);
      PowerStep(v, z);
      PowerStep(1, k + z);
      ShiftDigits(w, k + z - 1);
      assert Digits(v, k) + Zeros(z - 1) + [0] == Digits(v, k) + Zeros(z);
    }
  }

  lemma NoShift(v: nat)
    ensures v * Power512(0) == v
  {
  }

  lemma PowerStep(v: nat, z: nat)
    requires z > 0
    ensures v * Power512(z) == 512 * (v * Power512(z - 1))
  {
    MulAssoc(v, 512, Power512(z - 1));
    MulAssoc(512, v, Power512(z - 1));
  }

  lemma ShiftDigits(w: nat, k: nat)
    ensures Digits(512 * w, k + 1) == Digits(w, k) + [0]
  {
  }

  /** Bits 63 to 47 are all the same. */
  predicate Canonical(address: nat)
  {
    address < HIGH_HALF || TWO_64 - HIGH_HALF <= address < TWO_64
  }

  /** The address of the first `level` indexes, the rest being zero. */
  method Vaddress(index: seq<nat>, level: nat) returns (address: nat)
    requires |index| == 4 && Indexes(index) && level <= 4
    ensures Canonical(address) && address % 4096 == 0
    ensures Digits(PageNumber(address), 4) == index[..level] + Zeros(4 - level)
  {
    hide Or, And, Value, Digits, Power512, Pow2, PageNumber, Canonical, Times;
    address := 0;
    NoDigits(index);
    for i := 0 to level
      invariant address == Times(Value(index[..i]), Pow2(12 + 9 * (4 - i)))
    {
      AddDigit(index, i);
      address := Or(address, Times(index[i], Pow2(12 + 9 * (3 - i))));
    }
    Assembled(index, level, address);
    HighHalf(address);
    if And(address, Pow2(47)) != 0 {
      address := Or(address, HIGH_BITS);
    }
  }

  lemma NoDigits(index: seq<nat>)
    ensures Times(Value(index[..0]), Pow2(48)) == 0
  {
    hide Pow2;
  }

  /** Or-ing in the next index adds one digit. */
  lemma AddDigit(index: seq<nat>, i: nat)
    requires |index| == 4 && Indexes(index) && i < 4
    ensures Or(Times(Value(index[..i]), Pow2(12 + 9 * (4 - i))), Times(index[i], Pow2(12 + 9 * (3 - i))))
      == Times(Value(index[..i + 1]), Pow2(12 + 9 * (3 - i)))
  {
    hide Or, Pow2;
    var v, d, e := Value(index[..i]), index[i], 12 + 9 * (3 - i);
    assert index[..i + 1][..i] == index[..i];
    assert Value(index[..i + 1]) == 512 * v + d;
    OrDigit(v, d, e);
  }

  lemma OrDigit(v: nat, d: nat, e: nat)
    requires d < 512
    ensures Or(Times(v, Pow2(e + 9)), Times(d, Pow2(e))) == Times(512 * v + d, Pow2(e))
  {
    hide Or, Pow2;
    var p := Pow2(e);
    Pow2Add(9, e);
    assert Pow2(9) == 512 by { Nine(); }
    MulAssoc(v, 512, p);
    MulDistributes(p, 512 * v, d);
    MulAssoc(512, v, p);
    assert Times(v, Pow2(e + 9)) == 512 * v * p;
    AlignedIsMultiple(v * Pow2(e + 9), e + 9);
    DigitBelow(d, p);
    AlignedProduct(v, e + 9);
    OrAdds(v * Pow2(e + 9), d * p, e + 9);
  }

  lemma Nine()
    ensures Pow2(9) == 512
  {
  }

  lemma DigitBelow(d: nat, p: nat)
    requires d < 512 && p > 0
    ensures d * p < 512 * p
  {
    MulMonotone(p, d + 1, 512);
  }

  lemma AlignedProduct(v: nat, n: nat)
    ensures Aligned(v * Pow2(n), n)
  {
    hide Pow2, Aligned;
    AlignedIsMultiple(v * Pow2(n), n);
    ProductMod(v, Pow2(n));
  }

  lemma ProductMod(v: nat, p: nat)
    requires p > 0
    ensures (v * p) % p == 0
  {
    DivModUnique(v * p, p, v, 0);
  }

  /** The assembled address is the page number of the digits, page-aligned and below 2^48. */
  lemma Assembled(index: seq<nat>, level: nat, address: nat)
    requires |index| == 4 && Indexes(index) && level <= 4
    requires address == Times(Value(index[..level]), Pow2(12 + 9 * (4 - level)))
    ensures address < 0x1_0000_0000_0000 && address % 4096 == 0
    ensures Digits(address / 4096, 4) == index[..level] + Zeros(4 - level)
  {
    hide Pow2, Digits, Value;
    var v, z := Value(index[..level]), 4 - level;
    ValueDigits(index[..level]);
    DigitsZeros(v, level, z);
    ShiftIsPower(z);
    MulAssoc(v, 4096, Power512(z));
    assert address == 4096 * (v * Power512(z));
    assert Power512(4) == 0x10_0000_0000;
  }

  /** Bit 47 says whether the address is in the upper half, and the sign bits keep its pages. */
  lemma HighHalf(address: nat)
    requires address < 0x1_0000_0000_0000 && address % 4096 == 0
    ensures And(address, Pow2(47)) != 0 <==> address >= HIGH_HALF
    ensures Or(address, HIGH_BITS) == address + HIGH_BITS
    ensures PageNumber(address) == address / 4096 && PageNumber(address + HIGH_BITS) == address / 4096
    ensures (address + HIGH_BITS) % 4096 == 0
    ensures address < HIGH_HALF ==> Canonical(address)
    ensures address >= HIGH_HALF ==> Canonical(address + HIGH_BITS)
  {
    hide And, Or, Pow2, Bit;
    var n, m := Halves();
    BitOfAnd(address, n);
    TopBit(address, n);
    assert HIGH_BITS == 0xffff * Pow2(m);
    AlignedProduct(0xffff, m);
    OrAdds(HIGH_BITS, address, m);
  }

  lemma Halves() returns (n: nat, m: nat)
    ensures n == 47 && m == 48 && Pow2(n) == HIGH_HALF && Pow2(m) == 2 * HIGH_HALF
  {
    n, m := 47, 48;
    PowersForPaging();
    Pow2Add(12, 12);
    Pow2Add(24, 24);
    assert Pow2(m) == 2 * Pow2(n);
  }

  lemma BitOfAnd(a: nat, n: nat)
    ensures And(a, Pow2(n)) != 0 <==> Bit(a, n)
  {
    hide And, Pow2, Bit;
    AndBit(a, Pow2(n), n);
    PowBit(n, n);
    if And(a, Pow2(n)) == 0 {
      ZeroBits(n);
    } else if !Bit(a, n) {
      NoCommonBits(a, n);
    }
  }

  /** A word and a power of two it lacks have no bit in common. */
  lemma {:induction false} NoCommonBits(a: nat, n: nat)
    requires !Bit(a, n)
    ensures And(a, Pow2(n)) == 0
  {
    if n > 0 && a > 0 {
      NoCommonBits(a / 2, n - 1);
    }
  }

  lemma {:induction false} TopBit(a: nat, n: nat)
    requires a < 2 * Pow2(n)
    ensures Bit(a, n) <==> a >= Pow2(n)
  {
    if n > 0 { TopBit(a / 2, n - 1); }
  }
}
