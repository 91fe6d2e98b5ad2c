/** Byte-addressed memory with little-endian word access. */
module Memory {
  import opened Bits

  type byte = x: int | 0 <= x < 256

  /** The number whose little-endian digits are `s`. */
  function FromBytes(s: seq<byte>): (r: nat)
  {
    if s == [] then 0 else s[0] + 256 * FromBytes(s[1..])
  }

  /** The low `n` little-endian bytes of `v`. */
  function ToBytes(v: nat, n: nat): (r: seq<byte>)
    ensures |r| == n
  {
    if n == 0 then [] else [v % 256] + ToBytes(v / 256, n - 1)
  }

  lemma Pow2Zero()
    ensures Pow2(0) == 1
  {
  }

  lemma {:induction false} Pow2Byte(n: nat)
    ensures Pow2(8 * (n + 1)) == 256 * Pow2(8 * n)
  {
    Pow2Add(8, 8 * n);
    assert Pow2(8) == 256;
  }

  lemma {:induction false} BytesRoundTrip(v: nat, n: nat)
    requires v < Pow2(8 * n)
    ensures FromBytes(ToBytes(v, n)) == v
  {
    if n > 0 {
      Pow2Byte(n - 1);
      BytesRoundTrip(v / 256, n - 1);
      assert ToBytes(v, n)[1..] == ToBytes(v / 256, n - 1);
    }
  }

  /** The value of eight bytes in memory. */
  function LittleWord(b: seq<nat>): nat
    requires |b| == 8
  {
    b[0] + 0x100 * b[1] + 0x1_0000 * b[2] + 0x100_0000 * b[3] + 0x1_0000_0000 * b[4] + 0x100_0000_0000 * b[5]
    + 0x1_0000_0000_0000 * b[6] + 0x100_0000_0000_0000 * b[7]
  }

  lemma FromEightBytes(b: seq<byte>)
    requires |b| == 8
    ensures FromBytes(b) == LittleWord(b)
  {
    var b1, b2, b3, b4 := b[1..], b[2..], b[3..], b[4..];
    var b5, b6, b7 := b[5..], b[6..], b[7..];
    assert b1[1..] == b2 && b2[1..] == b3 && b3[1..] == b4 && b4[1..] == b5 && b5[1..] == b6 && b6[1..] == b7;
    assert FromBytes(b7) == b[7] && FromBytes(b6) == b[6] + 256 * FromBytes(b7);
    assert FromBytes(b5) == b[5] + 256 * FromBytes(b6) && FromBytes(b4) == b[4] + 256 * FromBytes(b5);
    assert FromBytes(b3) == b[3] + 256 * FromBytes(b4) && FromBytes(b2) == b[2] + 256 * FromBytes(b3);
    assert FromBytes(b1) == b[1] + 256 * FromBytes(b2) && FromBytes(b) == b[0] + 256 * FromBytes(b1);
  }

  function Read(m: seq<byte>, a: nat, n: nat): (r: nat)
    requires a + n <= |m|
  {
    FromBytes(m[a..a + n])
  }

  function Write(m: seq<byte>, a: nat, n: nat, v: nat): (r: seq<byte>)
    requires a + n <= |m|
    ensures |r| == |m|
    ensures forall i :: 0 <= i < |m| && !(a <= i < a + n) ==> r[i] == m[i]
  {
    m[..a] + ToBytes(v, n) + m[a + n..]
  }

  lemma ReadBack(m: seq<byte>, a: nat, n: nat, v: nat)
    requires a + n <= |m| && v < Pow2(8 * n)
    ensures Read(Write(m, a, n, v), a, n) == v
  {
    BytesRoundTrip(v, n);
    assert Write(m, a, n, v)[a..a + n] == ToBytes(v, n);
  }

  /** Reads depend only on the bytes they cover. */
  lemma ReadFrame(m: seq<byte>, m': seq<byte>, a: nat, n: nat)
    requires a + n <= |m| == |m'|
    requires forall i :: a <= i < a + n ==> m[i] == m'[i]
    ensures Read(m', a, n) == Read(m, a, n)
  {
    assert m[a..a + n] == m'[a..a + n];
  }

  lemma {:induction false} FromBytesBound(s: seq<byte>)
    ensures FromBytes(s) < Pow2(8 * |s|)
  {
    if s != [] {
      FromBytesBound(s[1..]);
      Pow2Byte(|s| - 1);
    }
  }

  lemma {:induction false} FromBytesAppend(s: seq<byte>, t: seq<byte>)
    ensures FromBytes(s + t) == FromBytes(s) + Pow2(8 * |s|) * FromBytes(t)
  {
    hide Pow2;
    if s == [] {
      assert s + t == t;
      Pow2Zero();
    } else {
      FromBytesAppend(s[1..], t);
      Pow2Byte(|s| - 1);
      assert (s + t)[1..] == s[1..] + t;
      MulAssoc(256, Pow2(8 * (|s| - 1)), FromBytes(t));
    }
  }

  /** The word read at byte `a` is a window of the whole number. */
  lemma ReadWindow(s: seq<byte>, a: nat, n: nat)
    requires a + n <= |s|
    ensures Read(s, a, n) == (FromBytes(s) / Pow2(8 * a)) % Pow2(8 * n)
  {
    var lo, mid, hi := s[..a], s[a..a + n], s[a + n..];
    assert s == lo + (mid + hi);
    FromBytesAppend(lo, mid + hi);
    FromBytesAppend(mid, hi);
    FromBytesBound(lo);
    FromBytesBound(mid);
    DivModUnique(FromBytes(s), Pow2(8 * a), FromBytes(mid + hi), FromBytes(lo));
    DivModUnique(FromBytes(mid + hi), Pow2(8 * n), FromBytes(hi), FromBytes(mid));
  }

  lemma {:induction false} ToBytesAt(v: nat, n: nat, i: nat)
    requires i < n
    ensures ToBytes(v, n)[i] == (v / Pow2(8 * i)) % 256
  {
    if i > 0 {
      ToBytesAt(v / 256, n - 1, i - 1);
      Pow2Byte(i - 1);
      DivModProduct(v, 256, Pow2(8 * (i - 1)));
    }
  }
}
