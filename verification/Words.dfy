/** Bytes and 32-bit words, as numbers. */
module Words {
  import opened CInt

  type byte = n: int | 0 <= n < 256
  type Bytes = seq<byte>
  const SPACE := 0x1_0000_0000
  type word = n: int | 0 <= n < SPACE

  function Low(v: int): byte { v % 256 }

  /** The four bytes of a 32-bit word, least significant first. */
  function Bytes32(v: int): (b: Bytes)
    ensures |b| == 4
  {
    [Low(v), Low(v / 256), Low(v / 65536), Low(v / 16777216)]
  }

  function Word32(b: Bytes): (v: word)
    requires |b| == 4
  {
    var b0: int, b1: int, b2: int, b3: int := b[0], b[1], b[2], b[3];
    b0 + 256 * b1 + 65536 * b2 + 16777216 * b3
  }

  lemma Word32OfBytes32(v: int)
    requires 0 <= v < SPACE
    ensures Word32(Bytes32(v)) == v
  {
    assert v == 256 * (v / 256) + v % 256;
    assert v / 256 == 256 * (v / 65536) + v / 256 % 256;
    assert v / 65536 == 256 * (v / 16777216) + v / 65536 % 256;
  }

  lemma LowestByte(q: int, r: int)
    requires 0 <= r < 256
    ensures (256 * q + r) / 256 == q && (256 * q + r) % 256 == r
  {
  }

  lemma HigherBytes(v: int)
    ensures v / 65536 == v / 256 / 256 && v / 16777216 == v / 256 / 256 / 256
  {
  }

  lemma Bytes32OfWord32(b: Bytes)
    requires |b| == 4
    ensures Bytes32(Word32(b)) == b
  {
    var v: int := Word32(b);
    var b0: int, b1: int, b2: int, b3: int := b[0], b[1], b[2], b[3];
    LowestByte(b1 + 256 * (b2 + 256 * b3), b0);
    LowestByte(b2 + 256 * b3, b1);
    LowestByte(b3, b2);
    HigherBytes(v);
  }

  // Arithmetic of the C type unsigned long, which wraps around at 2^32.

  function Sum(x: word, y: word): (r: word) { (x + y) % SPACE }

  function Difference(x: word, y: word): (r: word) { (x - y) % SPACE }

  function Pow2(k: nat): (n: nat)
    ensures n >= 1
  {
    if k == 0 then 1 else 2 * Pow2(k - 1)
  }

  lemma QuotientBound(x: nat, d: nat)
    requires d >= 1
    ensures 0 <= x / d <= x
  {
  }

  function Quotient(x: word, d: nat): (r: word)
    requires d >= 1
  {
    assert 0 <= x / d <= x by { QuotientBound(x, d); }
    x / d
  }

  function ShiftRight(x: word, k: nat): (r: word) { Quotient(x, Pow2(k)) }

  function ShiftLeft(x: word, k: nat): (r: word) { (x * Pow2(k)) % SPACE }

  /** Exclusive or of the n low bits. */
  function XorBits(x: nat, y: nat, n: nat): (r: nat)
    ensures r < Pow2(n)
  {
    if n == 0 then 0 else 2 * XorBits(x / 2, y / 2, n - 1) + (x + y) % 2
  }

  lemma Pow2Of32()
    ensures Pow2(32) == SPACE
  {
    assert Pow2(8) == 256;
    assert Pow2(16) == 65536;
    assert Pow2(24) == 16777216;
  }

  function Xor(x: word, y: word): (r: word) {
    assert Pow2(32) == SPACE by { Pow2Of32(); }
    XorBits(x, y, 32)
  }

  lemma LowestBit(r: nat, b: nat)
    requires b < 2
    ensures (2 * r + b) / 2 == r && (2 * r + b) % 2 == b
  {
  }

  lemma Parity(x: nat, y: nat, r: nat)
    ensures (2 * r + (x + y) % 2 + y) % 2 == x % 2
  {
  }

  lemma {:induction false} XorBitsTwice(x: nat, y: nat, n: nat)
    requires x < Pow2(n)
    ensures XorBits(XorBits(x, y, n), y, n) == x
  {
    if n > 0 {
      XorBitsTwice(x / 2, y / 2, n - 1);
      var r := XorBits(x / 2, y / 2, n - 1);
      LowestBit(r, (x + y) % 2);
      Parity(x, y, r);
    }
  }

  lemma HalfThenPower(x: nat, i: nat)
    requires i > 0
    ensures x / Pow2(i) == x / 2 / Pow2(i - 1)
  {
    var p := Pow2(i - 1);
    var q := x / 2 / p;
    assert p * q <= x / 2 < p * q + p;
    FloorIs(x, q, 2 * p);
  }

  /** Bit i of the result is one exactly if bit i of just one operand is. */
  lemma {:induction false} XorBit(x: nat, y: nat, n: nat, i: nat)
    requires i < n
    ensures XorBits(x, y, n) / Pow2(i) % 2 == (x / Pow2(i) + y / Pow2(i)) % 2
  {
    var r := XorBits(x / 2, y / 2, n - 1);
    LowestBit(r, (x + y) % 2);
    if i > 0 {
      XorBit(x / 2, y / 2, n - 1, i - 1);
      HalfThenPower(x, i);
      HalfThenPower(y, i);
      HalfThenPower(XorBits(x, y, n), i);
    }
  }

  lemma XorTwice(x: word, y: word)
    ensures Xor(Xor(x, y), y) == x
  {
    Pow2Of32();
    XorBitsTwice(x, y, 32);
  }

  lemma SumDifference(x: word, y: word)
    ensures Sum(Difference(x, y), y) == x && Difference(Sum(x, y), y) == x
  {
  }
}
