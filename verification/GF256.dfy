/** The field GF(256) the RF packet encoder computes in: bytes as polynomials over GF(2), taken modulo
    x^8 + x^4 + x^3 + x^2 + 1.  Multiplication is defined here as the carry-less product, with no table,
    and proved to be a field multiplication in which x generates every nonzero byte.

    The solver reasons about bit-vectors cheaply only when nothing else is in sight, so each law is proved
    once on bit-vectors and used elsewhere with the definitions hidden. */
module GF256 {

  function Add(a: bv8, b: bv8): bv8 {
    a ^ b
  }

  /** Multiplication by x. */
  function XTime(a: bv8): bv8 {
    (a << 1) ^ ((a >> 7) * 0x1D)
  }

  function Half(b: bv8): bv8 {
    b >> 1
  }

  predicate Odd(b: bv8) {
    b & 1 == 1
  }

  /** `a` times the lowest bit of `b`. */
  function MulBit(a: bv8, b: bv8): bv8 {
    if Odd(b) then a else 0
  }

  /** The product of `a` and the low `n` bits of `b`. */
  function MulBits(a: bv8, b: bv8, n: nat): bv8
    decreases n
  {
    if n == 0 then 0 else Add(MulBit(a, b), MulBits(XTime(a), Half(b), n - 1))
  }

  function Mul(a: bv8, b: bv8): bv8 {
    MulBits(a, b, 8)
  }

  /** The powers of the generator x. */
  function Exp(i: nat): bv8 {
    if i == 0 then 1 else XTime(Exp(i - 1))
  }

  // ---------- addition ----------

  lemma AddLaws(a: bv8, b: bv8, c: bv8)
    ensures Add(a, b) == Add(b, a)
    ensures Add(Add(a, b), c) == Add(a, Add(b, c))
    ensures Add(a, 0) == a == Add(0, a)
    ensures Add(a, a) == 0
    ensures Add(a, b) == 0 <==> a == b
  {}

  lemma AddSwap(a: bv8, b: bv8, c: bv8, d: bv8)
    ensures Add(Add(a, b), Add(c, d)) == Add(Add(a, c), Add(b, d))
  {
    hide *;
    AddLaws(a, b, Add(c, d));
    AddLaws(b, c, d);
    AddLaws(c, b, d);
    AddLaws(a, c, Add(b, d));
  }

  // ---------- bilinearity of the product ----------

  lemma BitsOfSum(b: bv8, c: bv8)
    ensures Odd(Add(b, c)) == (Odd(b) != Odd(c))
    ensures Half(Add(b, c)) == Add(Half(b), Half(c))
  {}

  lemma MulBitLinear(a: bv8, b: bv8, c: bv8)
    ensures MulBit(Add(a, b), c) == Add(MulBit(a, c), MulBit(b, c))
    ensures MulBit(a, Add(b, c)) == Add(MulBit(a, b), MulBit(a, c))
  {
    hide Add, Odd;
    BitsOfSum(b, c);
    AddLaws(a, 0, 0);
    AddLaws(0, 0, 0);
  }

  lemma XTimeLinear(a: bv8, b: bv8)
    ensures XTime(Add(a, b)) == Add(XTime(a), XTime(b))
    ensures XTime(MulBit(a, b)) == MulBit(XTime(a), b)
    ensures XTime(0) == 0
  {}

  lemma {:induction false} MulBitsRight(a: bv8, b: bv8, c: bv8, n: nat)
    ensures MulBits(a, Add(b, c), n) == Add(MulBits(a, b, n), MulBits(a, c, n))
    decreases n
  {
    hide Add, MulBit, XTime, Half;
    if n == 0 {
      AddLaws(0, 0, 0);
    } else {
      MulBitLinear(a, b, c);
      BitsOfSum(b, c);
      MulBitsRight(XTime(a), Half(b), Half(c), n - 1);
      AddSwap(MulBit(a, b), MulBit(a, c), MulBits(XTime(a), Half(b), n - 1), MulBits(XTime(a), Half(c), n - 1));
    }
  }

  lemma {:induction false} MulBitsLeft(a: bv8, b: bv8, c: bv8, n: nat)
    ensures MulBits(Add(a, b), c, n) == Add(MulBits(a, c, n), MulBits(b, c, n))
    decreases n
  {
    hide Add, MulBit, XTime, Half;
    if n == 0 {
      AddLaws(0, 0, 0);
    } else {
      MulBitLinear(a, b, c);
      XTimeLinear(a, b);
      MulBitsLeft(XTime(a), XTime(b), Half(c), n - 1);
      AddSwap(MulBit(a, c), MulBit(b, c), MulBits(XTime(a), Half(c), n - 1), MulBits(XTime(b), Half(c), n - 1));
    }
  }

  lemma {:induction false} MulBitsXTime(a: bv8, b: bv8, n: nat)
    ensures MulBits(XTime(a), b, n) == XTime(MulBits(a, b, n))
    decreases n
  {
    hide Add, MulBit, XTime, Half;
    XTimeLinear(a, b);
    if n > 0 {
      MulBitsXTime(XTime(a), Half(b), n - 1);
      XTimeLinear(MulBit(a, b), MulBits(XTime(a), Half(b), n - 1));
    }
  }

  lemma MulDistributes(a: bv8, b: bv8, c: bv8)
    ensures Mul(a, Add(b, c)) == Add(Mul(a, b), Mul(a, c))
    ensures Mul(Add(a, b), c) == Add(Mul(a, c), Mul(b, c))
  {
    hide MulBits, Add;
    MulBitsRight(a, b, c, 8);
    MulBitsLeft(a, b, c, 8);
  }

  lemma {:induction false} MulBitsZero(a: bv8, n: nat)
    ensures MulBits(a, 0, n) == 0
    decreases n
  {
    if n > 0 { MulBitsZero(XTime(a), n - 1); }
  }

  /** The byte whose low `n` bits are set. */
  function Ones(n: nat): bv8 {
    if n == 0 then 0 else (Ones(n - 1) << 1) | 1
  }

  lemma LowBits(b: bv8, ones: bv8)
    requires b & ((ones << 1) | 1) == b
    ensures Half(b) & ones == Half(b)
    ensures Add(MulBit(1, b), XTime(Half(b))) == b
  {}

  lemma {:induction false} OneMulBits(b: bv8, n: nat)
    requires b & Ones(n) == b
    ensures MulBits(1, b, n) == b
    decreases n
  {
    hide Add, MulBit, XTime, Half;
    if n > 0 {
      LowBits(b, Ones(n - 1));
      OneMulBits(Half(b), n - 1);
      MulBitsXTime(1, Half(b), n - 1);
    }
  }

  lemma AllOnes(a: bv8)
    ensures a & Ones(8) == a
    ensures Half(1) == 0 && Odd(1)
  {
    assert Ones(8) == 255;
  }

  lemma MulOne(a: bv8)
    ensures Mul(a, 1) == a == Mul(1, a)
  {
    hide Add, XTime, Half, Odd, Ones;
    AllOnes(a);
    OneMulBits(a, 8);
    MulBitsZero(XTime(a), 7);
    AddLaws(a, 0, 0);
  }

  lemma MulZero(a: bv8)
    ensures Mul(a, 0) == 0 && Mul(0, a) == 0
  {
    hide Add, Mul;
    AddLaws(0, 0, 0);
    MulDistributes(a, 0, 0);
    MulDistributes(0, 0, a);
    AddLaws(Mul(a, 0), Mul(a, 0), 0);
    AddLaws(Mul(0, a), Mul(0, a), 0);
  }

  // ---------- powers ----------

  lemma {:induction false} ExpAdd(i: nat, j: nat)
    ensures Mul(Exp(i), Exp(j)) == Exp(i + j)
  {
    hide MulBits, XTime;
    if i == 0 {
      MulOne(Exp(j));
    } else {
      ExpAdd(i - 1, j);
      MulBitsXTime(Exp(i - 1), Exp(j), 8);
    }
  }

  lemma SmallPowers()
    ensures Exp(3) == 8 && Exp(4) == 16 && Exp(5) == 32
  {}

  lemma Product8()
    ensures Mul(16, 16) == 29
  {}

  lemma Product16()
    ensures Mul(29, 29) == 76
  {}

  lemma Product32()
    ensures Mul(76, 76) == 157
  {}

  lemma Product64()
    ensures Mul(157, 157) == 95
  {}

  lemma Product128()
    ensures Mul(95, 95) == 133
  {}

  lemma Product256()
    ensures Mul(133, 133) == 2
  {}

  lemma Product48()
    ensures Mul(157, 76) == 70
  {}

  lemma Product51()
    ensures Mul(70, 8) == 10
  {}

  lemma Product80()
    ensures Mul(95, 76) == 253
  {}

  lemma Product85()
    ensures Mul(253, 32) == 214
  {}

  lemma Double(i: nat)
    ensures Exp(i + i) == Mul(Exp(i), Exp(i))
  {
    ExpAdd(i, i);
  }

  /** The powers by repeated squaring. */
  lemma Squares()
    ensures Exp(16) == 76 && Exp(32) == 157 && Exp(64) == 95 && Exp(256) == 2
  {
    hide Exp, Mul;
    SmallPowers();
    Double(4);
    Product8();
    Double(8);
    Product16();
    Double(16);
    Product32();
    Double(32);
    Product64();
    Double(64);
    Product128();
    Double(128);
    Product256();
  }

  lemma ExpZero()
    ensures Exp(0) == 1
  {}

  lemma ExpNext(i: nat)
    ensures Exp(i + 1) == XTime(Exp(i))
  {}

  lemma XTimeOne()
    ensures XTime(1) == 2
  {}

  /** The powers that decide the order of the generator. */
  lemma ExpLandmarks()
    ensures Exp(255) == 1 && Exp(85) != 1 && Exp(51) != 1 && Exp(15) != 1
  {
    hide Exp, Mul, XTime;
    SmallPowers();
    Squares();
    XTimeOne();
    ExpNext(255);
    XTimeInjective(Exp(255), 1);
    ExpNext(15);
    ExpAdd(32, 16);
    Product48();
    ExpAdd(48, 3);
    Product51();
    ExpAdd(64, 16);
    Product80();
    ExpAdd(80, 5);
    Product85();
  }

  lemma XTimeInjective(a: bv8, b: bv8)
    requires XTime(a) == XTime(b)
    ensures a == b
  {}

  lemma {:induction false} ExpPeriod(d: nat, k: nat, i: nat)
    requires Exp(d) == 1
    ensures Exp(d * k + i) == Exp(i)
  {
    hide Mul, XTime;
    if k > 0 {
      assert d * k + i == d + (d * (k - 1) + i);
      ExpPeriod(d, k - 1, i);
      ExpAdd(d, d * (k - 1) + i);
      MulOne(Exp(i));
    }
  }

  /** Any proper divisor of 255 divides 85, 51 or 15. */
  lemma Divisors255(d: nat, q: nat)
    requires d * q == 255 && q > 1
    ensures q % 3 == 0 || q % 5 == 0 || q % 17 == 0
  {
    if q > 16 {
      assert d * 16 < 255;
      assert d in {1, 2, 3, 4, 5, 6, 7, 8, 9, 10, 11, 12, 13, 14, 15};
    } else {
      assert q in {2, 3, 4, 5, 6, 7, 8, 9, 10, 11, 12, 13, 14, 15, 16};
    }
  }

  lemma NoProperDivisor(d: nat, q: nat)
    requires d * q == 255 && q > 1
    ensures Exp(d) != 1
  {
    hide Exp;
    ExpLandmarks();
    ExpZero();
    Divisors255(d, q);
    if Exp(d) == 1 {
      var p := if q % 3 == 0 then 3 else if q % 5 == 0 then 5 else 17;
      ExpPeriod(d, q / p, 0);
      Cancel(d, q, p);
    }
  }

  lemma Cancel(d: nat, q: nat, p: nat)
    requires p > 0 && q % p == 0
    ensures d * (q / p) * p == d * q
  {
    assert q == q / p * p;
  }

  lemma {:induction false} OrderIs255(d: nat)
    requires 0 < d < 255
    ensures Exp(d) != 1
    decreases d
  {
    hide Exp;
    ExpLandmarks();
    if Exp(d) == 1 {
      var q, r := 255 / d, 255 % d;
      ExpPeriod(d, q, r);
      if r > 0 {
        OrderIs255(r);
      } else {
        NoProperDivisor(d, q);
      }
    }
  }

  lemma {:induction false} ExpNonzero(i: nat)
    ensures Exp(i) != 0
  {
    if i > 0 {
      ExpNonzero(i - 1);
      XTimeLinear(0, 0);
      if XTime(Exp(i - 1)) == XTime(0) { XTimeInjective(Exp(i - 1), 0); }
    }
  }

  lemma {:induction false} ExpInjective(i: nat, j: nat)
    requires i < j < 255
    ensures Exp(i) != Exp(j)
    decreases i
  {
    if i == 0 {
      OrderIs255(j);
    } else {
      ExpInjective(i - 1, j - 1);
      if Exp(i) == Exp(j) { XTimeInjective(Exp(i - 1), Exp(j - 1)); }
    }
  }

  // ---------- logarithms: 255 distinct powers are all the nonzero bytes ----------

  function Power(i: nat): int {
    Exp(i) as int
  }

  lemma PowerDistinct(i: nat, j: nat)
    ensures 1 <= Power(i) <= 255
    ensures i < j < 255 ==> Power(i) != Power(j)
  {
    hide Exp;
    ExpNonzero(i);
    if i < j < 255 { ExpInjective(i, j); }
  }

  ghost function Powers(n: nat): set<int> {
    set i | 0 <= i < n :: Power(i)
  }

  lemma {:induction false} PowersSize(n: nat)
    requires n <= 255
    ensures |Powers(n)| == n
  {
    hide Power;
    if n > 0 {
      PowersSize(n - 1);
      forall i | 0 <= i < n - 1 ensures Power(i) != Power(n - 1) { PowerDistinct(i, n - 1); }
      assert Powers(n) == Powers(n - 1) + {Power(n - 1)};
    }
  }

  lemma PowersRange()
    ensures Powers(255) <= Upto(255)
  {
    hide Power;
    forall i | 0 <= i < 255 ensures 1 <= Power(i) <= 255 { PowerDistinct(i, i); }
  }

  lemma AllPowers(v: int)
    requires 1 <= v <= 255
    ensures exists i :: 0 <= i < 255 && Power(i) == v
  {
    hide Power;
    PowersSize(255);
    PowersRange();
    SubsetSize(Powers(255), Upto(255));
    assert v in Powers(255);
  }

  ghost function Upto(n: nat): (s: set<int>)
    ensures |s| == n
    ensures forall v :: v in s <==> 1 <= v <= n
  {
    if n == 0 then {} else Upto(n - 1) + {n}
  }

  lemma {:induction false} SubsetSize<T>(s: set<T>, t: set<T>)
    requires s <= t
    ensures |s| <= |t| && (|s| == |t| ==> s == t)
  {
    if s != {} {
      var v :| v in s;
      SubsetSize(s - {v}, t - {v});
      assert s == (s - {v}) + {v} && t == (t - {v}) + {v};
    }
  }

  /** Every nonzero byte is a power of the generator. */
  ghost function Log(a: bv8): (i: nat)
    requires a != 0
    ensures i < 255 && Exp(i) == a
  {
    LogExists(a);
    var i :| 0 <= i < 255 && Exp(i) == a;
    i
  }

  lemma LogExists(a: bv8)
    requires a != 0
    ensures exists i :: 0 <= i < 255 && Exp(i) == a
  {
    hide Exp;
    AllPowers(a as int);
    var i :| 0 <= i < 255 && Power(i) == a as int;
    SameByte(Exp(i), a);
  }

  lemma SameByte(a: bv8, b: bv8)
    requires a as int == b as int
    ensures a == b
  {}

  // ---------- the multiplicative group ----------

  lemma MulCommutes(a: bv8, b: bv8)
    ensures Mul(a, b) == Mul(b, a)
  {
    hide Mul;
    MulZero(a);
    MulZero(b);
    if a != 0 && b != 0 {
      ExpAdd(Log(a), Log(b));
      ExpAdd(Log(b), Log(a));
    }
  }

  lemma MulAssociates(a: bv8, b: bv8, c: bv8)
    ensures Mul(Mul(a, b), c) == Mul(a, Mul(b, c))
  {
    hide Mul;
    MulZero(a);
    MulZero(b);
    MulZero(c);
    MulZero(Mul(a, b));
    MulZero(Mul(b, c));
    if a != 0 && b != 0 && c != 0 {
      ExpAdd(Log(a), Log(b));
      ExpAdd(Log(b), Log(c));
      ExpAdd(Log(a) + Log(b), Log(c));
      ExpAdd(Log(a), Log(b) + Log(c));
    }
  }

  lemma MulNonzero(a: bv8, b: bv8)
    ensures Mul(a, b) == 0 <==> a == 0 || b == 0
  {
    hide Mul;
    MulZero(a);
    MulZero(b);
    if a != 0 && b != 0 {
      ExpAdd(Log(a), Log(b));
      ExpNonzero(Log(a) + Log(b));
    }
  }
}
