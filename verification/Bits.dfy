/**
Bitwise operators on unsigned words, written on natural numbers, and the byte
encodings of fatfs/src/ff.h. The masks and shifts of the C code are kept as they
are; the lemmas here say what they compute as arithmetic.
*/
module Bits {
  type Byte = x: int | 0 <= x < 256

  const WORD32 := 0x1_0000_0000

  /** C's `a & b`. */
  function And(a: nat, b: nat): nat {
    if a == 0 || b == 0 then 0 else (if a % 2 == 1 && b % 2 == 1 then 1 else 0) + 2 * And(a / 2, b / 2)
  }

  /** C's `a | b`. */
  function Or(a: nat, b: nat): nat {
    if a == 0 then b
    else if b == 0 then a
    else (if a % 2 == 1 || b % 2 == 1 then 1 else 0) + 2 * Or(a / 2, b / 2)
  }

  /** Subtraction of 32-bit unsigned words, which wraps. */
  function Sub32(a: nat, b: nat): (r: nat)
    ensures r < WORD32
    ensures b <= a < WORD32 ==> r == a - b
    ensures a < b < WORD32 ==> r == a + WORD32 - b
  {
    (a - b) % WORD32
  }

  predicate IsPow2(n: nat) {
    n == 1 || (n > 1 && n % 2 == 0 && IsPow2(n / 2))
  }

  /** `x & (p - 1)` is the remainder modulo p when p is a power of two. */
  lemma {:induction false} AndMask(x: nat, p: nat)
    requires IsPow2(p)
    ensures And(x, p - 1) == x % p
  {
    if p > 1 && x > 0 {
      var q := p / 2;
      AndMask(x / 2, q);
      HalfMod(x, q);
      assert (p - 1) / 2 == q - 1;
      assert And(x, p - 1) == x % 2 + 2 * And(x / 2, q - 1);
    } else {
      ZeroMod(x, p);
    }
  }

  lemma ZeroMod(x: nat, p: nat)
    requires p > 0 && (p == 1 || x < p)
    ensures x % p == if p == 1 then 0 else x
  {
  }

  lemma HalfMod(x: nat, q: nat)
    requires q > 0
    ensures x % (2 * q) == 2 * ((x / 2) % q) + x % 2
  {
    var h := x / 2;
    var k, r := h / q, h % q;
    assert h == k * q + r;
    assert k * (2 * q) == 2 * (k * q);
    DivModUnique(x, 2 * q, k, 2 * r + x % 2);
  }

  lemma DivModUnique(x: int, d: int, k: int, r: int)
    requires d > 0 && x == k * d + r && 0 <= r < d
    ensures x / d == k && x % d == r
  {
    var e := x / d - k;
    assert e * d == r - x % d;
    MulBound(e, d);
  }

  /** Two digits of v in base m, then n. */
  lemma SplitMod(v: nat, m: nat, n: nat, p: nat)
    requires m > 0 && n > 0 && p == m * n
    ensures p > 0 && v % p == v % m + m * (v / m % n) && v / p == v / m / n
  {
    DivModOf(v, m);
    DivModOf(v / m, n);
    SplitDigits(v, m, n, p, v / m, v % m, v / m / n, v / m % n);
  }

  lemma DivModOf(x: nat, d: nat)
    requires d > 0
    ensures x == d * (x / d) + x % d && 0 <= x / d && 0 <= x % d < d
  {
  }

  lemma SplitDigits(v: nat, m: nat, n: nat, p: nat, a: nat, r: nat, q: nat, s: nat)
    requires v == m * a + r && a == n * q + s && r < m && s < n && p == m * n
    ensures p > 0 && v % p == r + m * s && v / p == q
  {
    Spread(m, n, q, s);
    BelowProduct(m, n, s, r);
    DivModUnique(v, p, q, m * s + r);
  }

  lemma Spread(m: nat, n: nat, q: nat, s: nat)
    ensures m * (n * q + s) == q * (m * n) + m * s
  {
  }

  lemma BelowProduct(m: nat, n: nat, s: nat, r: nat)
    requires s < n && r < m
    ensures 0 <= m * s && m * s + r < m * n
  {
    var d := n - 1 - s;
    assert n == s + 1 + d;
    assert m * n == m * s + m + m * d;
  }

  lemma MulBound(e: int, d: int)
    requires d > 0
    ensures e > 0 ==> e * d >= d
    ensures e < 0 ==> e * d <= -d
  {
  }

  /** And works on the digits below and from a power of two separately. */
  lemma {:induction false} AndDigits(x: nat, y: nat, p: nat, h: nat, r: nat, g: nat, w: nat)
    requires IsPow2(p) && x == p * h + r && y == p * g + w && r < p && w < p
    ensures And(x, y) == And(r, w) + p * And(h, g)
  {
    if p > 1 {
      var q := p / 2;
      DoubleTimes(q, h);
      DoubleTimes(q, g);
      DoubleTimes(q, And(h, g));
      AndDigits(x / 2, y / 2, q, h, r / 2, g, w / 2);
      AndStep(x, y);
      AndStep(r, w);
    }
  }

  lemma DoubleTimes(q: nat, a: nat)
    ensures 2 * q * a == 2 * (q * a)
  {
  }

  lemma AndStep(x: nat, y: nat)
    ensures And(x, y) == (if x % 2 == 1 && y % 2 == 1 then 1 else 0) + 2 * And(x / 2, y / 2)
  {
  }

  /** `x & ~(p - 1)`, the complement being taken below the power of two `top`. */
  lemma {:induction false} AndHighMask(x: nat, p: nat, top: nat)
    requires IsPow2(p) && IsPow2(top) && p <= top && x < top
    ensures And(x, top - p) == x - x % p
  {
    if p == 1 {
      AndMask(x, top);
      ZeroMod(x, top);
    } else if x > 0 && top > p {
      AndHighMask(x / 2, p / 2, top / 2);
      HalfMod(x, p / 2);
      assert (top - p) / 2 == top / 2 - p / 2 && (top - p) % 2 == 0;
      assert And(x, top - p) == 2 * And(x / 2, top / 2 - p / 2);
    } else {
      ZeroMod(x, p);
    }
  }

  /** Or-ing fields that do not overlap adds them. */
  lemma {:induction false} OrDisjoint(x: nat, y: nat, p: nat)
    requires IsPow2(p) && x < p
    ensures Or(x, y * p) == x + y * p && Or(y * p, x) == x + y * p
  {
    if p > 1 && x > 0 && y > 0 {
      var q := p / 2;
      OrDisjoint(x / 2, y, q);
      DoubleMul(y, q);
      OrEven(x, y * q);
    }
  }

  lemma DoubleMul(y: int, q: int)
    ensures y * (2 * q) == 2 * (y * q)
  {
  }

  function Shl(x: nat, k: nat): nat {
    if k == 0 then x else 2 * Shl(x, k - 1)
  }

  function Shr(x: nat, k: nat): nat {
    if k == 0 then x else Shr(x / 2, k - 1)
  }

  function LowBits(x: nat, k: nat): nat {
    if k == 0 then 0 else x % 2 + 2 * LowBits(x / 2, k - 1)
  }

  /** Or-ing a field placed at bit k leaves the bits below k alone. */
  lemma {:induction false} OrAbove(x: nat, y: nat, k: nat)
    ensures Or(x, Shl(y, k)) == LowBits(x, k) + Shl(Or(Shr(x, k), y), k)
  {
    if k > 0 {
      OrAbove(x / 2, y, k - 1);
      OrStep(x, Shl(y, k - 1));
    }
  }

  lemma OrStep(x: nat, t: nat)
    ensures Or(x, 2 * t) == x % 2 + 2 * Or(x / 2, t)
  {
  }

  lemma FourBits(x: nat, k: nat)
    ensures Shl(x, k + 4) == 16 * Shl(x, k)
    ensures Shr(x, k + 4) == Shr(x / 16, k)
    ensures LowBits(x, k + 4) == x % 16 + 16 * LowBits(x / 16, k)
  {
    var a, b, c := x / 2, x / 4, x / 8;
    assert Shl(x, k + 4) == 2 * Shl(x, k + 3) == 4 * Shl(x, k + 2) == 8 * Shl(x, k + 1);
    assert Shr(x, k + 4) == Shr(a, k + 3) == Shr(b, k + 2) == Shr(c, k + 1);
    assert LowBits(x, k + 4) == x % 2 + 2 * LowBits(a, k + 3);
    assert LowBits(a, k + 3) == a % 2 + 2 * LowBits(b, k + 2);
    assert LowBits(b, k + 2) == b % 2 + 2 * LowBits(c, k + 1);
    assert LowBits(c, k + 1) == c % 2 + 2 * LowBits(x / 16, k);
  }

  /** A 4-bit field or-ed into the top nibble of a 32-bit word. */
  lemma OrTopNibble(x: nat, y: nat)
    ensures Or(x, y * 0x1000_0000) == x % 0x1000_0000 + Or(x / 0x1000_0000, y) * 0x1000_0000
  {
    var n := 28;
    OrAbove(x, y, n);
    Bits28(x, n);
    Bits28(y, n);
    Bits28(Or(Shr(x, n), y), n);
  }

  lemma Bits28(x: nat, n: nat)
    requires n == 28
    ensures Shl(x, n) == x * 0x1000_0000 && Shr(x, n) == x / 0x1000_0000 && LowBits(x, n) == x % 0x1000_0000
  {
    Bits16(x, n - 12);
    Bits16(x / 0x1000, n - 12);
    EightBits(x, n - 8);
    FourBits(x / 0x100, n - 12);
    FourBits(x, n - 12);
    SplitMod(x, 0x1000, 0x1_0000, 0x1000_0000);
    SplitMod(x, 0x100, 0x10, 0x1000);
  }

  lemma Bits16(x: nat, n: nat)
    requires n == 16
    ensures Shl(x, n) == x * 0x1_0000 && Shr(x, n) == x / 0x1_0000 && LowBits(x, n) == x % 0x1_0000
  {
    EightBits(x, n - 8);
    EightBits(x / 0x100, n - 16);
    EightBits(x, n - 16);
    SplitMod(x, 0x100, 0x100, 0x1_0000);
  }

  lemma EightBits(x: nat, k: nat)
    ensures Shl(x, k + 8) == 0x100 * Shl(x, k)
    ensures Shr(x, k + 8) == Shr(x / 0x100, k)
    ensures LowBits(x, k + 8) == x % 0x100 + 0x100 * LowBits(x / 0x100, k)
  {
    FourBits(x, k + 4);
    FourBits(x, k);
    FourBits(x / 16, k);
  }

  lemma OrEven(x: nat, t: nat)
    requires Or(x / 2, t) == x / 2 + t && Or(t, x / 2) == x / 2 + t
    ensures Or(x, 2 * t) == x + 2 * t && Or(2 * t, x) == x + 2 * t
  {
  }

  lemma DoublePow(n: nat)
    requires IsPow2(n)
    ensures IsPow2(2 * n)
  {
    assert 2 * n / 2 == n && 2 * n % 2 == 0;
  }

  lemma PowUp(n: nat)
    requires IsPow2(n)
    ensures IsPow2(16 * n)
  {
    DoublePow(n);
    DoublePow(2 * n);
    DoublePow(4 * n);
    DoublePow(8 * n);
  }

  lemma BytePowers()
    ensures IsPow2(16) && IsPow2(256) && IsPow2(0x1_0000) && IsPow2(0x100_0000) && IsPow2(WORD32)
  {
    PowUp(1);
    PowUp(16);
    PowUp(0x100);
    PowUp(0x1000);
    PowUp(0x1_0000);
    PowUp(0x10_0000);
    PowUp(0x100_0000);
    PowUp(0x1000_0000);
  }

  /** The bytes of s from offset o on replaced. */
  function Spliced(s: seq<Byte>, o: nat, bytes: seq<Byte>): (r: seq<Byte>)
    requires o + |bytes| <= |s|
    ensures |r| == |s|
    ensures forall i :: 0 <= i < |s| ==> r[i] == if o <= i < o + |bytes| then bytes[i - o] else s[i]
  {
    s[..o] + bytes + s[o + |bytes|..]
  }

  /** Little-endian value of two and of four bytes. */
  function Word(b0: Byte, b1: Byte): (r: nat)
    ensures r < 0x1_0000
  {
    b0 as int + 256 * (b1 as int)
  }

  function Dword(b0: Byte, b1: Byte, b2: Byte, b3: Byte): (r: nat)
    ensures r < WORD32
  {
    Word(b0, b1) + 0x1_0000 * Word(b2, b3)
  }

  /** The value of bytes, lowest first. */
  function Little(s: seq<Byte>): nat {
    if s == [] then 0 else s[0] as int + 256 * Little(s[1..])
  }

  lemma Little2(a: Byte, b: Byte)
    ensures Little([a, b]) == Word(a, b)
  {
    assert [a, b][1..] == [b] && [b][1..] == [];
    assert Little([b]) == b as int;
  }

  lemma Little4(a: Byte, b: Byte, c: Byte, d: Byte)
    ensures Little([a, b, c, d]) == Dword(a, b, c, d)
  {
    assert [a, b, c, d][1..] == [b, c, d] && [b, c, d][1..] == [c, d];
    Little2(c, d);
  }

  /** LD_WORD and LD_DWORD of fatfs/src/ff.h, applied to the bytes at offset `o`. */
  function LdWord(b: seq<Byte>, o: nat): (r: nat)
    requires o + 2 <= |b|
    ensures r == Word(b[o], b[o + 1])
  {
    OrTwo(b[o], b[o + 1]);
    Or(b[o + 1] as int * 256, b[o])
  }

  function LdDword(b: seq<Byte>, o: nat): (r: nat)
    requires o + 4 <= |b|
    ensures r == Dword(b[o], b[o + 1], b[o + 2], b[o + 3])
  {
    OrFour(b[o], b[o + 1], b[o + 2], b[o + 3]);
    Or(Or(Or(b[o + 3] as int * 0x100_0000, b[o + 2] as int * 0x1_0000), b[o + 1] as int * 256), b[o])
  }

  /** Loads are little-endian, and so are the bytes of a value stored. */
  lemma LittleEndian(b: seq<Byte>, o: nat, v: nat)
    requires o + 4 <= |b|
    ensures LdWord(b, o) == b[o] as int + 256 * b[o + 1] as int
    ensures LdDword(b, o) == b[o] as int + 256 * b[o + 1] as int + 65536 * b[o + 2] as int + 16777216 * b[o + 3] as int
    ensures ByteOf(v, 0) as int == v % 256 && ByteOf(v, 1) as int == v / 256 % 256
    ensures ByteOf(v, 2) as int == v / 65536 % 256 && ByteOf(v, 3) as int == v / 16777216 % 256
  {
  }

  lemma OrTwo(b0: Byte, b1: Byte)
    ensures Or(b1 as int * 256, b0) == Or(b0, b1 as int * 256) == Word(b0, b1)
  {
    BytePowers();
    OrDisjoint(b0, b1, 256);
  }

  lemma OrFour(b0: Byte, b1: Byte, b2: Byte, b3: Byte)
    ensures Or(Or(Or(b3 as int * 0x100_0000, b2 as int * 0x1_0000), b1 as int * 256), b0) == Dword(b0, b1, b2, b3)
  {
    OrField(b3, b2 as int * 0x1_0000, 0x100_0000);
    OrField(b3 as int * 256 + b2 as int, b1 as int * 256, 0x1_0000);
    OrField((b3 as int * 256 + b2 as int) * 256 + b1 as int, b0, 256);
  }

  lemma OrField(y: nat, x: nat, p: nat)
    requires p == 256 || p == 0x1_0000 || p == 0x100_0000
    requires x < p
    ensures Or(y * p, x) == y * p + x
  {
    BytePowers();
    OrDisjoint(x, y, p);
  }

  /** The bytes stored by ST_WORD and ST_DWORD: the k-th byte of a value, lowest first. */
  function ByteOf(v: nat, k: nat): Byte
    requires k < 4
  {
    (if k == 0 then v else if k == 1 then v / 256 else if k == 2 then v / 0x1_0000 else v / 0x100_0000) % 256
  }

  lemma StoreLoad(v: nat)
    ensures Word(ByteOf(v, 0), ByteOf(v, 1)) == v % 0x1_0000
    ensures Dword(ByteOf(v, 0), ByteOf(v, 1), ByteOf(v, 2), ByteOf(v, 3)) == v % WORD32
  {
    WordSplit(v);
    WordSplit(v / 0x1_0000);
  }

  lemma WordSplit(v: nat)
    ensures v % 256 + 256 * (v / 256 % 256) == v % 0x1_0000
    ensures v / 0x1_0000 / 256 == v / 0x100_0000
    ensures v % WORD32 == v % 0x1_0000 + 0x1_0000 * (v / 0x1_0000 % 0x1_0000)
  {
    SplitMod(v, 256, 256, 0x1_0000);
    SplitMod(v, 0x1_0000, 256, 0x100_0000);
    SplitMod(v, 0x1_0000, 0x1_0000, WORD32);
  }

  /** ST_WORD and ST_DWORD on a byte sequence. */
  function StWord(b: seq<Byte>, o: nat, v: nat): (r: seq<Byte>)
    requires o + 2 <= |b|
    ensures |r| == |b| && LdWord(r, o) == v % 0x1_0000
    ensures forall i :: 0 <= i < |b| && !(o <= i < o + 2) ==> r[i] == b[i]
  {
    StoreLoad(v);
    b[o := ByteOf(v, 0)][o + 1 := ByteOf(v, 1)]
  }

  function StDword(b: seq<Byte>, o: nat, v: nat): (r: seq<Byte>)
    requires o + 4 <= |b|
    ensures |r| == |b| && LdDword(r, o) == v % WORD32
    ensures forall i :: 0 <= i < |b| && !(o <= i < o + 4) ==> r[i] == b[i]
  {
    StoreLoad(v);
    b[o := ByteOf(v, 0)][o + 1 := ByteOf(v, 1)][o + 2 := ByteOf(v, 2)][o + 3 := ByteOf(v, 3)]
  }
}
