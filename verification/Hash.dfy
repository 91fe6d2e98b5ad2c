/** The kernel's hash of an integer key. */
module Hash {
  import opened Bits

  /** A number as a 64-bit word. */
  function Word(k: nat): bv64
  {
    if k == 0 then 0 else (Word(k / 2) << 1) | (if k % 2 == 1 then 1 else 0)
  }

  function Bit(x: bv64): nat { if x & 1 == 1 then 1 else 0 }

  /** The number in the low `w` bits of a word. */
  function Value(x: bv64, w: nat): nat
  {
    if w == 0 then 0 else Bit(x) + 2 * Value(x >> 1, w - 1)
  }

  function Mixed(a: bv64): bv64
  {
    var b := (a ^ (a >> 30)) * 0xbf58476d1ce4e5b9;
    var c := (b ^ (b >> 27)) * 0x94d049bb133111eb;
    c ^ (c >> 31)
  }

  function SplitMix64(key: nat): nat
  {
    Value(Mixed(Word(key)), 64)
  }

  lemma HalveMod(bit: nat, v: nat, m: nat)
    requires bit < 2 && m > 0
    ensures (bit + 2 * v) % (2 * m) == bit + 2 * (v % m)
  {
    var q, r := v / m, v % m;
    assert v == m * q + r;
    assert bit + 2 * v == (2 * m) * q + (bit + 2 * r);
    DivModUnique(bit + 2 * v, 2 * m, q, bit + 2 * r);
  }

  /** A remainder by a power of two keeps the low bits. */
  lemma {:induction false} LowBits(x: bv64, w: nat, b: nat)
    requires b <= w
    ensures Value(x, w) % Pow2(b) == Value(x, b)
  {
    if b > 0 {
      LowBits(x >> 1, w - 1, b - 1);
      HalveMod(Bit(x), Value(x >> 1, w - 1), Pow2(b - 1));
    }
  }

  function Low3(x: bv64): nat
  {
    Bit(x) + 2 * Bit(x >> 1) + 4 * Bit(x >> 2)
  }

  function Low9(x: bv64): nat
  {
    Low3(x) + 8 * Low3(x >> 3) + 64 * Low3((x >> 3) >> 3)
  }

  lemma ThreeBits(x: bv64, w: nat)
    ensures Value(x, w + 3) == Low3(x) + 8 * Value(x >> 3, w)
  {
    hide Bit;
    assert (x >> 1) >> 1 == x >> 2 && (x >> 2) >> 1 == x >> 3;
    assert Value(x >> 2, w + 1) == Bit(x >> 2) + 2 * Value(x >> 3, w);
    assert Value(x >> 1, w + 2) == Bit(x >> 1) + 2 * Value(x >> 2, w + 1);
  }

  lemma Low9Value(x: bv64)
    ensures Low9(x) == Value(x, 9)
  {
    hide Low3;
    ThreeBits(x, 6);
    ThreeBits(x >> 3, 3);
    ThreeBits((x >> 3) >> 3, 0);
  }

  /** The slot a key hashes to in a table of up to 512 slots. */
  lemma HomeOf(key: nat, b: nat)
    requires b <= 9
    ensures SplitMix64(key) % Pow2(b) == Low9(Mixed(Word(key))) % Pow2(b)
  {
    hide Low9, Mixed;
    var x := Mixed(Word(key));
    LowBits(x, 64, b);
    LowBits(x, 9, b);
    Low9Value(x);
  }

  lemma WordNext(k: nat, c: nat)
    requires c < 2
    ensures Word(2 * k + c) == (Word(k) << 1) | (if c == 1 then 1 else 0)
  {
  }

  /** A word is its upper part and its lower byte. */
  lemma WordByte(k: nat, b: nat)
    requires b < 256
    ensures Word(256 * k + b) == (Word(k) << 8) | Word(b)
  {
    hide Word;
    HalfByte(16 * k + b / 16, b % 16);
    HalfByte(k, b / 16);
    HalfByte(b / 16, b % 16);
    HalfByte(0, b / 16);
    var x, y, z := Word(k), Word(b / 16), Word(b % 16);
    assert (((x << 4) | y) << 4) | z == (x << 8) | ((y << 4) | z);
  }

  lemma HalfByte(k: nat, b: nat)
    requires b < 16
    ensures Word(16 * k + b) == (Word(k) << 4) | Word(b)
  {
    hide Word;
    WordPair(4 * k + b / 4, b % 4);
    WordPair(k, b / 4);
    WordPair(b / 4, b % 4);
    WordPair(0, b / 4);
    var x, y, z := Word(k), Word(b / 4), Word(b % 4);
    assert (((x << 2) | y) << 2) | z == (x << 4) | ((y << 2) | z);
  }

  lemma WordPair(k: nat, b: nat)
    requires b < 4
    ensures Word(4 * k + b) == (Word(k) << 2) | Word(b)
  {
    WordNext(2 * k + b / 2, b % 2);
    WordNext(k, b / 2);
    assert Word(0) == 0 && Word(1) == 1 && Word(2) == 2 && Word(3) == 3;
  }
}
