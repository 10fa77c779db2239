/** Machine integers: unsigned and signed 64-bit words, and the bit operations the decoders use. */
module Words {

  const TWO_32: int := 0x1_0000_0000
  const TWO_63: int := 0x8000_0000_0000_0000
  const TWO_64: int := 0x1_0000_0000_0000_0000

  type Byte = x: int | 0 <= x < 256
  type Word = x: int | 0 <= x < 0x1_0000_0000_0000_0000
  type Int64 = x: int | -0x8000_0000_0000_0000 <= x < 0x8000_0000_0000_0000

  datatype Option<+T> = None | Some(value: T)

  /** Reduction to an unsigned 64-bit word, as Go's uint64 arithmetic does. */
  function Wrap(x: int): Word {
    x % 0x1_0000_0000_0000_0000
  }

  /** Reduction to 32 bits, as Go's uint32 arithmetic does. */
  function Wrap32(x: int): (w: nat)
    ensures w < TWO_32
    ensures 0 <= x < TWO_32 ==> w == x
  {
    x % 0x1_0000_0000
  }

  lemma {:induction false} Wrap32Next(n: nat)
    ensures Wrap32(Wrap32(n) + 1) == Wrap32(n + 1)
  {
  }

  /** The int64 with the same bits as a word. */
  function Signed(w: Word): Int64 {
    if w < TWO_63 then w else w - TWO_64
  }

  /** int64 arithmetic: the result reduced modulo 2^64 into the signed range. */
  function WrapSigned(x: int): Int64 {
    Signed(Wrap(x))
  }

  function Succ(pc: Word): Word {
    if pc == TWO_64 - 1 then 0 else pc + 1
  }

  function Pred(pc: Word): Word {
    if pc == 0 then TWO_64 - 1 else pc - 1
  }

  lemma SuccPred(pc: Word)
    ensures Pred(Succ(pc)) == pc && Succ(Pred(pc)) == pc
  {
  }

  function Pow2(n: nat): (p: nat)
    ensures p > 0
  {
    if n == 0 then 1 else 2 * Pow2(n - 1)
  }

  lemma {:induction false} Pow2Add(m: nat, n: nat)
    ensures Pow2(m + n) == Pow2(m) * Pow2(n)
  {
    if m > 0 {
      Pow2Add(m - 1, n);
    }
  }

  lemma {:induction false} Pow2Of7(n: nat)
    ensures Pow2(n + 7) == 128 * Pow2(n)
  {
    Pow2Add(7, n);
    assert Pow2(7) == 128 by {
      assert Pow2(3) == 8;
      Pow2Add(3, 4);
      Pow2Add(1, 3);
    }
  }

  lemma {:induction false} Pow2Double(n: nat, p: nat)
    requires Pow2(n) == p
    ensures Pow2(2 * n) == p * p
  {
    Pow2Add(n, n);
  }

  lemma {:induction false} Pow2Of64()
    ensures Pow2(64) == TWO_64
  {
    assert Pow2(2) == 4;
    Pow2Double(2, 4);
    Pow2Double(4, 16);
    Pow2Double(8, 0x100);
    Pow2Double(16, 0x1_0000);
    Pow2Double(32, 0x1_0000_0000);
  }

  /** Bitwise or of two naturals. */
  function Or(a: nat, b: nat): nat
    decreases a + b
  {
    if a == 0 && b == 0 then 0
    else (if a % 2 == 1 || b % 2 == 1 then 1 else 0) + 2 * Or(a / 2, b / 2)
  }

  /** Left shift of a 64-bit word: bits shifted past bit 63 are lost, so every shift of 64 or more gives 0. */
  function Shl(a: Word, shift: nat): Word {
    Wrap(a * Pow2(shift))
  }

  lemma {:induction false} OrZero(b: nat)
    ensures Or(0, b) == b && Or(b, 0) == b
  {
    if b > 0 {
      OrZero(b / 2);
    }
  }

  /** Or-ing a value below 2^s with a multiple of 2^s is addition. */
  lemma {:induction false} OrDisjoint(a: nat, g: nat, s: nat)
    requires a < Pow2(s)
    ensures Or(a, g * Pow2(s)) == a + g * Pow2(s)
  {
    if s == 0 {
      OrZero(g);
    } else {
      var b := g * Pow2(s);
      assert b == 2 * (g * Pow2(s - 1));
      OrDisjoint(a / 2, g, s - 1);
    }
  }

  lemma {:induction false} WrapUnique(x: int, k: int, r: Word)
    requires x == k * 0x1_0000_0000_0000_0000 + r
    ensures Wrap(x) == r
  {
    var q := x / 0x1_0000_0000_0000_0000;
    assert x == 0x1_0000_0000_0000_0000 * q + Wrap(x);
  }

  lemma {:induction false} WrapMultiple(x: int, k: int)
    ensures Wrap(x + k * 0x1_0000_0000_0000_0000) == Wrap(x)
  {
    var q := x / 0x1_0000_0000_0000_0000;
    WrapUnique(x + k * 0x1_0000_0000_0000_0000, q + k, Wrap(x));
  }

  lemma {:induction false} MulMonotone(a: nat, b: nat, c: nat)
    requires a <= b
    ensures a * c <= b * c
  {
  }

  lemma {:induction false} Distribute(a: int, b: int, c: int)
    ensures (a + b) * c == a * c + b * c
  {
  }

  lemma {:induction false} Associate(a: int, b: int, c: int)
    ensures a * b * c == a * (b * c)
  {
  }

  /** Multiplying by p keeps the residue modulo m when m * p is 2^64. */
  lemma {:induction false} ShiftedResidue(a: nat, m: nat, p: nat)
    requires m > 0 && p > 0 && m * p == TWO_64
    ensures Wrap(a * p) == a % m * p
    ensures a % m * p + p <= TWO_64
  {
    var q, g := a / m, a % m;
    assert a == q * m + g;
    assert a * p == q * 0x1_0000_0000_0000_0000 + g * p by {
      Distribute(q * m, g, p);
      Associate(q, m, p);
    }
    MulMonotone(g + 1, m, p);
    Distribute(g, 1, p);
    MulMonotone(0, g, p);
    WrapMultiple(g * p, q);
  }

  lemma {:induction false} SplitOf64(s: nat)
    requires s <= 64
    ensures Pow2(64 - s) * Pow2(s) == TWO_64
  {
    Pow2Add(64 - s, s);
    Pow2Of64();
  }

  /** A product with 2^s for s >= 64 is a multiple of 2^64. */
  lemma {:induction false} PastBit63(a: int, s: nat) returns (k: int)
    requires s >= 64
    ensures a * Pow2(s) == k * 0x1_0000_0000_0000_0000
  {
    Pow2Add(s - 64, 64);
    Pow2Of64();
    k := a * Pow2(s - 64);
    Associate(a, Pow2(s - 64), 0x1_0000_0000_0000_0000);
  }

  lemma {:induction false} WrapPlusMultiple(res: int, x: int, k: int)
    requires x == k * 0x1_0000_0000_0000_0000
    ensures Wrap(res + x) == Wrap(res)
  {
    WrapMultiple(res, k);
  }

  lemma {:induction false} ShlLarge(a: Word, s: nat)
    requires s >= 64
    ensures Shl(a, s) == 0
  {
    var k := PastBit63(a, s);
    WrapPlusMultiple(0, a * Pow2(s), k);
  }

  lemma {:induction false} OrPast(res: Word, shifted: Word, x: int, k: int)
    requires shifted == 0 && x == k * 0x1_0000_0000_0000_0000
    ensures Or(res, shifted) == Wrap(res + x)
  {
    OrZero(res);
    WrapUnique(res + x, k, res);
  }

  lemma {:induction false} OrShiftedPast(res: Word, a: Word, s: nat)
    requires s >= 64
    ensures Or(res, Shl(a, s)) == Wrap(res + a * Pow2(s))
  {
    ShlLarge(a, s);
    var k := PastBit63(a, s);
    OrPast(res, Shl(a, s), a * Pow2(s), k);
  }

  lemma {:induction false} WrapSum(x: int, y: int)
    ensures Wrap(Wrap(x) + y) == Wrap(x + y)
  {
    var q := x / 0x1_0000_0000_0000_0000;
    assert x + y == Wrap(x) + y + q * 0x1_0000_0000_0000_0000;
    WrapMultiple(Wrap(x) + y, q);
  }

  lemma {:induction false} Pow2Below64(s: nat)
    requires s < 64
    ensures Pow2(s) <= TWO_64
  {
    SplitOf64(s);
    MulMonotone(1, Pow2(64 - s), Pow2(s));
  }

  /** An int64 is its own reduction. */
  lemma {:induction false} WrapSignedSame(v: Int64)
    ensures WrapSigned(v) == v
  {
    if v < 0 {
      WrapUnique(v, -1, v + 0x1_0000_0000_0000_0000);
    }
  }

  lemma {:induction false} WrapBelow(product: int, residue: nat, res: nat, p: nat)
    requires Wrap(product) == residue && residue + p <= TWO_64 && res < p
    ensures residue + res == Wrap(res + product)
  {
    WrapSum(product, res);
  }

  lemma {:induction false} OrShiftedBelow(res: Word, a: Word, s: nat, m: nat, p: nat)
    requires s < 64 && m == Pow2(64 - s) && p == Pow2(s) && res < p
    ensures Or(res, Shl(a, s)) == Wrap(res + a * p)
  {
    SplitOf64(s);
    ShiftedResidue(a, m, p);
    OrDisjoint(res, a % m, s);
    WrapBelow(a * p, a % m * p, res, p);
  }

  /** Or-ing a shifted value onto a word that only uses the bits below the shift is addition modulo 2^64. */
  lemma {:induction false} OrShifted(res: Word, a: Word, s: nat)
    requires s < 64 ==> res < Pow2(s)
    ensures Or(res, Shl(a, s)) == Wrap(res + a * Pow2(s))
  {
    if s < 64 {
      OrShiftedBelow(res, a, s, Pow2(64 - s), Pow2(s));
    } else {
      OrShiftedPast(res, a, s);
    }
  }

  /** Little-endian value of a byte string. */
  function LittleEndian(s: seq<Byte>): (v: nat) {
    if s == [] then 0 else s[0] + 256 * LittleEndian(s[1..])
  }

  /** The n low bytes of a value, least significant first. */
  function ToLittleEndian(v: nat, n: nat): (s: seq<Byte>)
    ensures |s| == n
  {
    if n == 0 then [] else [v % 256] + ToLittleEndian(v / 256, n - 1)
  }

  function Pow256(n: nat): (p: nat)
    ensures p > 0
  {
    if n == 0 then 1 else 256 * Pow256(n - 1)
  }

  lemma {:induction false} LittleEndianBound(s: seq<Byte>)
    ensures LittleEndian(s) < Pow256(|s|)
  {
    if s != [] {
      LittleEndianBound(s[1..]);
    }
  }

  lemma {:induction false} Pow256Values()
    ensures Pow256(2) == 65536 && Pow256(4) == TWO_32 && Pow256(8) == TWO_64
  {
    assert Pow256(2) == 65536;
    assert Pow256(4) == TWO_32;
    assert Pow256(6) == 65536 * TWO_32;
  }

  lemma {:induction false} Pow256Mono(m: nat, n: nat)
    requires m <= n
    ensures Pow256(m) <= Pow256(n)
  {
    if m < n {
      Pow256Mono(m, n - 1);
    }
  }

  lemma {:induction false} LittleEndianWord(s: seq<Byte>)
    requires |s| <= 8
    ensures LittleEndian(s) < TWO_64
    ensures |s| <= 4 ==> LittleEndian(s) < TWO_32
    ensures |s| <= 2 ==> LittleEndian(s) < 65536
  {
    LittleEndianBound(s);
    Pow256Values();
    Pow256Mono(|s|, 8);
    if |s| <= 4 { Pow256Mono(|s|, 4); }
    if |s| <= 2 { Pow256Mono(|s|, 2); }
  }

  lemma {:induction false} LittleEndianInverse(v: nat, n: nat)
    requires v < Pow256(n)
    ensures LittleEndian(ToLittleEndian(v, n)) == v
  {
    if n > 0 {
      assert v / 256 < Pow256(n - 1);
      LittleEndianInverse(v / 256, n - 1);
    }
  }

  lemma {:induction false} LittleEndianFirst(b: Byte, rest: seq<Byte>)
    ensures LittleEndian([b] + rest) == b + 256 * LittleEndian(rest)
  {
    assert ([b] + rest)[1..] == rest;
  }

  /** The bytes of a little-endian number count 1, 256, 65536 and so on, the first one least. */
  lemma {:induction false} LittleEndianDigits(a: Byte, b: Byte, c: Byte, d: Byte, rest: seq<Byte>)
    ensures LittleEndian([a, b, c, d] + rest) ==
            a + 0x100 * b + 0x1_0000 * c + 0x100_0000 * d + 0x1_0000_0000 * LittleEndian(rest)
    ensures LittleEndian([]) == 0
  {
    LittleEndianFirst(a, [b, c, d] + rest);
    LittleEndianFirst(b, [c, d] + rest);
    LittleEndianFirst(c, [d] + rest);
    LittleEndianFirst(d, rest);
    assert [a] + ([b, c, d] + rest) == [a, b, c, d] + rest;
    assert [b] + ([c, d] + rest) == [b, c, d] + rest;
    assert [c] + ([d] + rest) == [c, d] + rest;
  }
}
