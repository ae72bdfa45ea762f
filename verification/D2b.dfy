/** `d2b`: a double taken apart into an odd number and a power of two. */
module Unpacking {
  import opened Powers
  import opened Bigints
  import opened Mprec
  import opened Doubles

  /** z above y0, moved k bits down: the low bits of z take the place of the zero bits of y0. */
  lemma JoinWords(z: Word, y0: Word, y: Word, k: nat, p: nat, c: nat)
    requires k < 32 && p == Pow(2, k) > 0 && c == Pow(2, 32 - k) > 0 && p * c == BASE && OddPart(y0, y, k)
    ensures y + (z % p) * c < BASE && (y + (z % p) * c) % 2 == 1
    ensures (y + (z % p) * c + (z / p) * BASE) * p == z * BASE + y0
  {
    hide Pow;
    MulCancelStrict(p, y, c);
    MulMono(c, z % p + 1, p);
    MulAddOne(c, z % p);
    assert z == (z / p) * p + z % p;
    JoinSum(z / p, z % p, y, p, c);
    StaysOdd(y, z % p, k, c);
  }

  lemma StaysOdd(y: nat, l: nat, k: nat, c: nat)
    requires k < 32 && c == Pow(2, 32 - k) && y % 2 == 1
    ensures (y + l * c) % 2 == 1
  {
    assert c == 2 * Pow(2, 31 - k);
    MulDistribute3(2, Pow(2, 31 - k), l);
    MulAssoc(2, l, Pow(2, 31 - k));
    OddPlusEven(y, l * Pow(2, 31 - k));
  }

  lemma JoinSum(h: int, l: int, y: int, p: int, c: int)
    requires p * c == BASE
    ensures (y + l * c + h * BASE) * p == (h * p + l) * BASE + y * p
  {
    MulDistribute(p, y + l * c, h * BASE);
    MulDistribute(p, y, l * c);
    assert l * c * p == l * (p * c);
    assert h * BASE * p == h * p * BASE;
  }

  lemma OddPlusEven(y: nat, m: nat)
    requires y % 2 == 1
    ensures (y + 2 * m) % 2 == 1
  {
  }

  lemma WordsUp(y: nat, k: nat)
    ensures y * Pow(2, k) * BASE == y * Pow(2, k + 32)
  {
    PowAdd(2, k, 32);
    WordPowers();
  }

  lemma OddSum(lo: nat, z: nat)
    ensures (lo + z * BASE) % 2 == lo % 2
  {
  }

  /** y is not zero: z moves down into its trailing zero bits, k of them. */
  method StoreBoth(b: Bigint, z0: Word, y0: Word) returns (k: nat)
    requires b.x.Length == 2 && y0 != 0
    modifies b`wds, b.x
    ensures b.Valid() && b.wds > 0
    ensures b.Value() * Pow(2, k) == z0 * BASE + y0 && b.Value() % 2 == 1
  {
    hide Val, Pow, OddPart;
    var z: Word, y: Word := z0, 0;
    k, y := Lo0bits(y0);
    TwoPowers(k);
    var p, c := Pow(2, k), Pow(2, 32 - k);
    JoinWords(z, y0, y, k, p, c);
    if k != 0 {
      b.x[0] := y + (z % p) * c;
      z := z / p;
    } else {
      b.x[0] := y;
    }
    b.x[1] := z;
    b.wds := if z != 0 then 2 else 1;
    OddSum(b.x[0], z);
    WordsValue(b);
  }

  /** y is zero: z alone. */
  method StoreHigh(b: Bigint, z0: Word) returns (k: nat)
    requires b.x.Length == 2 && z0 != 0
    modifies b`wds, b.x
    ensures b.Valid() && b.wds > 0
    ensures b.Value() * Pow(2, k) == z0 * BASE && b.Value() % 2 == 1
  {
    hide Val, Pow, OddPart;
    var z;
    k, z := Lo0bits(z0);
    Odd(z0, z, k);
    b.x[0] := z;
    b.wds := 1;
    WordsUp(z, k);
    k := k + 32;
    WordsValue(b);
  }

  /** The two words z and y without their trailing zero bits, k of them. */
  method Unpack(z: Word, y: Word) returns (b: Bigint, k: nat)
    requires y != 0 || z != 0
    ensures fresh(b) && fresh(b.x) && b.Valid() && b.wds > 0 && b.x.Length == 2
    ensures b.Value() * Pow(2, k) == z * BASE + y && b.Value() % 2 == 1
  {
    hide Val, Pow;
    b := new Bigint.Balloc(2);
    if y != 0 {
      k := StoreBoth(b, z, y);
    } else {
      k := StoreHigh(b, z);
    }
  }

  lemma WordsValue(b: Bigint)
    requires b.x.Length == 2 && 1 <= b.wds <= 2
    ensures b.Value() == if b.wds == 1 then b.x[0] as nat else b.x[0] + b.x[1] * BASE
  {
    TwoWords(b.x[..]);
    assert b.x[..][..1] == b.x[..1] && b.x[..] == b.x[..2];
  }

  lemma Odd(y: nat, x: nat, k: nat)
    requires OddPart(y, x, k)
    ensures x % 2 == 1 && y == x * Pow(2, k)
  {
  }

  lemma MantissaWords(d: Double)
    requires d.Valid()
    ensures d.f / BASE < 0x10_0000
    ensures d.Mantissa() == (d.f / BASE + (if d.e > 0 then 0x10_0000 else 0)) * BASE + d.f % BASE < 2 * TWO52
  {
  }

  /** Significant bits, from the word count and the top word. */
  method BitsOf(b: Bigint) returns (bits: nat)
    requires b.Valid() && b.wds > 0 && b.Value() > 0
    ensures HasBits(b.Value(), bits)
  {
    hide Val, Pow;
    TopPositive(b.x[..b.wds]);
    var h := CountHi0bits(b.x[b.wds - 1]);
    BitsOfTop(b.x[..b.wds]);
    bits := 32 * b.wds - h;
  }

  /** d is b * 2^e with b odd, of the given number of bits counted from the top bit of d's level. */
  ghost predicate TakenApart(d: Double, b: Bigint, e: int, bits: nat)
    reads b, b.x
  {
    && b.Valid() && b.wds > 0 && b.x.Length > 1 && b.Value() % 2 == 1
    && e >= -1074 && b.Value() * Pow(2, e + 1076) == d.Units()
    && (d.e > 0 ==> e + bits == d.e - 1022 && bits <= 53)
    && (d.e == 0 ==> HasBits(b.Value(), bits))
  }

  /** The number, its binary exponent, and the significant bits. */
  method D2b(d: Double) returns (b: Bigint, e: int, bits: nat)
    requires d.Valid() && d.Mantissa() > 0
    ensures fresh(b) && fresh(b.x) && TakenApart(d, b, e, bits)
  {
    MantissaWords(d);
    hide Val, Pow, HasBits, Double.Mantissa, Double.Units;
    var z: Word, y: Word := d.f / BASE, d.f % BASE;
    if d.e > 0 {
      z := z + 0x10_0000;
    }
    var k;
    b, k := Unpack(z, y);
    Level(b.Value(), k, d);
    TrailingZeroBound(b.Value(), k, d.Mantissa());
    if d.e > 0 {
      e, bits := d.e - 1023 - 52 + k, 53 - k;
    } else {
      e := d.e - 1023 - 52 + 1 + k;
      bits := BitsOf(b);
    }
  }

  lemma Level(b: nat, k: nat, d: Double)
    requires b * Pow(2, k) == d.Mantissa()
    ensures b * Pow(2, k + d.Level() + 1) == d.Units()
  {
    PowAdd(2, k, d.Level() + 1);
    MulAssoc(b, Pow(2, k), Pow(2, d.Level() + 1));
  }

  lemma TrailingZeroBound(b: nat, k: nat, m: nat)
    requires b > 0 && b * Pow(2, k) == m && m < 2 * TWO52
    ensures k <= 53
  {
    MulMono(Pow(2, k), 1, b);
    if k > 53 {
      PowMonotone(2, 53, k);
      Pow53();
    }
  }

  lemma Pow53()
    ensures Pow(2, 53) == 2 * TWO52
  {
    PowAdd(2, 13, 13);
    PowAdd(2, 26, 27);
    WordPowers();
    assert Pow(2, 13) == 8192;
  }
}
