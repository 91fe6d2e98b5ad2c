/** Single bits of 64-bit words, and the word operations the frame maps use. */
module Words {
  import opened Bits

  const WIDTH := 64

  predicate IsWord(w: nat) { w < TWO_64 }

  /** 64 as the exponent of two. */
  lemma Width() returns (n: nat)
    ensures n == WIDTH && Pow2(n) == TWO_64
  {
    n := WIDTH;
    Pow2Values();
  }

  predicate Bit(w: nat, i: nat)
  {
    if i == 0 then w % 2 == 1 else Bit(w / 2, i - 1)
  }

  /** Words with the same bits are the same. */
  lemma {:induction false} SameBits(v: nat, w: nat, n: nat)
    requires v < Pow2(n) && w < Pow2(n)
    requires forall i :: 0 <= i < n ==> Bit(v, i) == Bit(w, i)
    ensures v == w
  {
    if n > 0 {
      forall i | 0 <= i < n - 1 ensures Bit(v / 2, i) == Bit(w / 2, i)
      {
        var k := i + 1;
        assert Bit(v, k) == Bit(w, k);
      }
      SameBits(v / 2, w / 2, n - 1);
      assert Bit(v, 0) == Bit(w, 0);
    }
  }

  lemma {:induction false} HighBits(w: nat, n: nat, i: nat)
    requires w < Pow2(n) && i >= n
    ensures !Bit(w, i)
  {
    if n == 0 {
      ZeroBits(i);
    } else {
      HighBits(w / 2, n - 1, i - 1);
    }
  }

  lemma {:induction false} ZeroBits(i: nat)
    ensures !Bit(0, i)
  {
    if i > 0 { ZeroBits(i - 1); }
  }

  lemma {:induction false} AndBit(v: nat, w: nat, i: nat)
    ensures Bit(And(v, w), i) == (Bit(v, i) && Bit(w, i))
  {
    if v == 0 || w == 0 {
      ZeroBits(i);
    } else if i > 0 {
      AndBit(v / 2, w / 2, i - 1);
    }
  }

  lemma {:induction false} OrBit(v: nat, w: nat, i: nat)
    ensures Bit(Or(v, w), i) == (Bit(v, i) || Bit(w, i))
  {
    if v == 0 && w == 0 {
      ZeroBits(i);
    } else if i > 0 {
      OrBit(v / 2, w / 2, i - 1);
    }
  }

  lemma {:induction false} OrIsWord(v: nat, w: nat, n: nat)
    requires v < Pow2(n) && w < Pow2(n)
    ensures Or(v, w) < Pow2(n)
  {
    if n > 0 { OrIsWord(v / 2, w / 2, n - 1); }
  }

  lemma {:induction false} AndLess(v: nat, w: nat)
    ensures And(v, w) <= v
  {
    if v > 0 && w > 0 { AndLess(v / 2, w / 2); }
  }

  lemma {:induction false} PowBit(k: nat, i: nat)
    ensures Bit(Pow2(k), i) <==> i == k
  {
    if k == 0 {
      if i > 0 { ZeroBits(i - 1); }
    } else if i > 0 {
      PowBit(k - 1, i - 1);
    }
  }

  /** The complement of the low `n` bits. */
  function Complement(w: nat, n: nat): (r: nat)
    requires w < Pow2(n)
    ensures r < Pow2(n)
  {
    Pow2(n) - 1 - w
  }

  lemma {:induction false} ComplementBit(w: nat, n: nat, i: nat)
    requires w < Pow2(n) && i < n
    ensures Bit(Complement(w, n), i) == !Bit(w, i)
  {
    if i > 0 {
      ComplementBit(w / 2, n - 1, i - 1);
      assert Complement(w, n) / 2 == Complement(w / 2, n - 1);
    }
  }

  function Not(w: nat): (r: nat)
    requires IsWord(w)
    ensures IsWord(r)
  {
    TWO_64 - 1 - w
  }

  lemma NotBit(w: nat, i: nat)
    requires IsWord(w) && i < WIDTH
    ensures Bit(Not(w), i) == !Bit(w, i)
  {
    hide Pow2, Bit;
    var n := Width();
    ComplementBit(w, n, i);
  }

  lemma {:induction false} MaskBit(n: nat, i: nat)
    ensures Bit(Pow2(n) - 1, i) <==> i < n
  {
    if n == 0 {
      ZeroBits(i);
    } else if i > 0 {
      MaskBit(n - 1, i - 1);
      assert (Pow2(n) - 1) / 2 == Pow2(n - 1) - 1;
    }
  }

  /** Shifting left by `k`. */
  lemma {:induction false} ShiftLeftBit(w: nat, k: nat, i: nat)
    ensures Bit(w * Pow2(k), i) <==> i >= k && Bit(w, i - k)
  {
    if k == 0 {
    } else if i == 0 {
      MulAssoc(w, 2, Pow2(k - 1));
      assert w * Pow2(k) == 2 * (w * Pow2(k - 1));
    } else {
      ShiftLeftBit(w, k - 1, i - 1);
      assert w * Pow2(k) == 2 * (w * Pow2(k - 1));
    }
  }

  lemma {:induction false} ShiftRightBit(w: nat, k: nat, i: nat)
    ensures Bit(Quotient(w, Pow2(k)), i) == Bit(w, i + k)
  {
    if k > 0 {
      ShiftRightBit(w / 2, k - 1, i);
      DivModProduct(w, 2, Pow2(k - 1));
    }
  }

  /** tzcnt: the lowest set bit, or 64. */
  function Tzcnt(w: nat): (r: nat)
  {
    if w == 0 then WIDTH else Ctz(w)
  }

  lemma {:induction false} CtzBits(w: nat, n: nat)
    requires 0 < w < Pow2(n)
    ensures Ctz(w) < n && Bit(w, Ctz(w)) && forall i :: 0 <= i < Ctz(w) ==> !Bit(w, i)
  {
    if w % 2 == 0 {
      CtzBits(w / 2, n - 1);
      forall i | 0 <= i < Ctz(w) ensures !Bit(w, i)
      {
        if i > 0 { assert !Bit(w / 2, i - 1); }
      }
    }
  }

  lemma TzcntBits(w: nat)
    requires IsWord(w)
    ensures Tzcnt(w) <= WIDTH && (Tzcnt(w) == WIDTH <==> w == 0)
    ensures w != 0 ==> Bit(w, Tzcnt(w))
    ensures forall i :: 0 <= i < Tzcnt(w) ==> !Bit(w, i)
  {
    if w == 0 {
      forall i | 0 <= i < WIDTH ensures !Bit(w, i) { ZeroBits(i); }
    } else {
      var n := Width();
      CtzBits(w, n);
    }
  }

  lemma BitNonzero(w: nat, i: nat)
    requires Bit(w, i)
    ensures w != 0
  {
    if w == 0 { ZeroBits(i); }
  }

  /** w |= 1 << k */
  function SetBit(w: nat, k: nat): (r: nat)
    requires IsWord(w) && k < WIDTH
  {
    Or(w, Pow2(k))
  }

  lemma SetBitBits(w: nat, k: nat)
    requires IsWord(w) && k < WIDTH
    ensures IsWord(SetBit(w, k)) && SetBit(w, k) != 0
    ensures forall i {:trigger Bit(SetBit(w, k), i)} :: 0 <= i ==> (Bit(SetBit(w, k), i) <==> Bit(w, i) || i == k)
  {
    hide Bit, Or, Pow2;
    var n := Width();
    Pow2Less(k, n);
    OrIsWord(w, Pow2(k), n);
    forall i {:trigger Bit(SetBit(w, k), i)} | 0 <= i ensures Bit(SetBit(w, k), i) <==> Bit(w, i) || i == k
    {
      OrBit(w, Pow2(k), i);
      PowBit(k, i);
    }
    BitNonzero(SetBit(w, k), k);
  }

  lemma Pow2Less(k: nat, n: nat)
    requires k < n
    ensures Pow2(k) < Pow2(n)
  {
    Pow2Mono(k + 1, n);
  }

  /** ((1 << n) - 1) << o */
  function Mask(n: nat, o: nat): nat
  {
    Times(Pow2(n) - 1, Pow2(o))
  }

  function Times(a: nat, b: nat): nat { a * b }

  lemma MaskIsWord(n: nat, o: nat)
    requires o + n <= WIDTH
    ensures IsWord(Mask(n, o))
  {
    hide Pow2;
    var w := Width();
    Pow2Add(n, o);
    Pow2Mono(n + o, w);
    MulDistributes(Pow2(o), Pow2(n) - 1, 1);
  }

  lemma MaskBits(n: nat, o: nat, i: nat)
    ensures Bit(Mask(n, o), i) <==> o <= i < o + n
  {
    hide Bit, Pow2;
    ShiftLeftBit(Pow2(n) - 1, o, i);
    if i >= o { MaskBit(n, i - o); }
  }

  /** w &= ~(((1 << n) - 1) << o), where the processor takes shift counts modulo 64. */
  function ClearRun(w: nat, o: nat, n: nat): (r: nat)
    requires IsWord(w) && o < WIDTH && o + n <= WIDTH
  {
    MaskIsWord(n % WIDTH, o);
    And(w, Not(Mask(n % WIDTH, o)))
  }

  lemma ClearRunBits(w: nat, o: nat, n: nat)
    requires IsWord(w) && o < WIDTH && o + n <= WIDTH && n < WIDTH
    ensures IsWord(ClearRun(w, o, n))
    ensures forall i {:trigger Bit(ClearRun(w, o, n), i)} :: 0 <= i < WIDTH ==>
      (Bit(ClearRun(w, o, n), i) <==> Bit(w, i) && !(o <= i < o + n))
  {
    hide Bit, And, Pow2, Mask;
    MaskIsWord(n, o);
    AndLess(w, Not(Mask(n, o)));
    forall i {:trigger Bit(ClearRun(w, o, n), i)} | 0 <= i < WIDTH
      ensures Bit(ClearRun(w, o, n), i) <==> Bit(w, i) && !(o <= i < o + n)
    {
      AndBit(w, Not(Mask(n, o)), i);
      NotBit(Mask(n, o), i);
      MaskBits(n, o, i);
    }
  }

  /** A whole word is not cleared: its shift count is taken for zero. */
  lemma ClearWhole(w: nat)
    requires IsWord(w)
    ensures ClearRun(w, 0, WIDTH) == w
  {
    hide And;
    assert Mask(0, 0) == 0;
    var n := Width();
    AndMask(w, n);
  }

  /** The length of the run of set bits from bit `o` up. */
  function RunLength(w: nat, o: nat): (r: nat)
    requires IsWord(w) && o < WIDTH
  {
    Tzcnt(Not(ShiftRight(w, o)))
  }

  lemma RunLengthBits(w: nat, o: nat)
    requires IsWord(w) && o < WIDTH
    ensures o + RunLength(w, o) <= WIDTH
    ensures forall i :: o <= i < o + RunLength(w, o) ==> Bit(w, i)
    ensures o + RunLength(w, o) < WIDTH ==> !Bit(w, o + RunLength(w, o))
  {
    hide Bit, Pow2, Tzcnt, ShiftRight, Not;
    var v := ShiftRight(w, o);
    var n := RunLength(w, o);
    TzcntBits(Not(v));
    forall i | 0 <= i < WIDTH - o ensures Bit(Not(v), i) == !Bit(w, i + o)
    {
      NotBit(v, i);
      ShiftedBit(w, o, i);
    }
    if o > 0 {
      NotBit(v, WIDTH - o);
      ShiftedBit(w, o, WIDTH - o);
      var width := Width();
      HighBits(w, width, WIDTH);
    }
    forall i | o <= i < o + n ensures Bit(w, i)
    {
      var k := i - o;
      assert !Bit(Not(v), k);
    }
  }

  lemma ShiftedBit(w: nat, o: nat, i: nat)
    ensures Bit(ShiftRight(w, o), i) == Bit(w, i + o)
  {
    ShiftRightBit(w, o, i);
  }
}
