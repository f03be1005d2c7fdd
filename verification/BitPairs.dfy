/** Two wrong bits: how far apart they have to be for the 16-bit check to miss them. */
module BitPairs {
  import opened CRC

  // ---------- the powers of the step ----------

  const UNIT := Reg(0x8000)

  function Next(r: Reg): Reg {
    Step(CRC16, r)
  }

  /** The register that stands for a power of the indeterminate. */
  function Power(n: nat): Reg {
    if n == 0 then UNIT else Next(Power(n - 1))
  }

  lemma {:induction false} PowerHolds(n: nat)
    ensures CRC16.Holds(Power(n)) && Power(n) != ZERO
  {
    hide Step;
    if n > 0 {
      PowerHolds(n - 1);
      StepKeeps(CRC16, Power(n - 1));
    }
  }

  lemma {:induction false} PowerSteps(m: nat, n: nat)
    ensures Steps(CRC16, Power(m), n) == Power(m + n)
    decreases n
  {
    hide Step;
    if n > 0 {
      assert Power(m + 1) == Step(CRC16, Power(m));
      PowerSteps(m + 1, n - 1);
    }
  }

  lemma PowerTwice(n: nat)
    ensures Power(n + 2) == Next(Next(Power(n)))
  {
    hide Next;
  }

  lemma NextLinear(a: Reg, b: Reg)
    ensures Next(Add(a, b)) == Add(Next(a), Next(b)) && Next(ZERO) == ZERO
  {
    StepLinear(CRC16, a, b);
    assert Step(CRC16, ZERO) == ZERO by { StepKeeps(CRC16, ZERO); }
  }

  // ---------- squaring ----------

  /** The register with every bit moved to twice its power; the lowest bit stands for power `e`. */
  function Spread(r: Reg, e: nat): Reg
    decreases e
  {
    var t := if Odd(r) then Power(2 * e) else ZERO;
    if e == 0 then t else Add(t, Spread(Half(r), e - 1))
  }

  lemma {:induction false} SpreadLinear(a: Reg, b: Reg, e: nat)
    ensures Spread(Add(a, b), e) == Add(Spread(a, e), Spread(b, e))
    decreases e
  {
    hide Add, Odd, Half, Power;
    HalfLinear(a, b);
    var p := Power(2 * e);
    AddSelf(p, p);
    AddLaws(p, ZERO, ZERO);
    AddLaws(ZERO, ZERO, ZERO);
    if e > 0 {
      SpreadLinear(Half(a), Half(b), e - 1);
      AddSwap(if Odd(a) then p else ZERO, Spread(Half(a), e - 1), if Odd(b) then p else ZERO, Spread(Half(b), e - 1));
    }
  }

  lemma {:induction false} SpreadZero(e: nat)
    ensures Spread(ZERO, e) == ZERO
    decreases e
  {
    hide Power;
    if e > 0 { SpreadZero(e - 1); }
  }

  lemma HalfWithin(r: Reg, n: nat)
    requires Within(r, n + 1)
    ensures Within(Half(r), n)
  {
    hide Inside, Longer, Shr;
    ShrInside(r.v, Ones(n));
  }

  lemma WithinNone(r: Reg)
    requires Within(r, 0)
    ensures r == ZERO
  {}

  /** One power further up is two steps. */
  lemma {:induction false} SpreadUp(q: Reg, e: nat)
    requires Within(q, e + 1)
    ensures Spread(q, e + 1) == Next(Next(Spread(q, e)))
    decreases e
  {
    hide Add, Odd, Half, Next, Within;
    HalfWithin(q, e);
    PowerTwice(2 * e);
    var t := if Odd(q) then Power(2 * e) else ZERO;
    NextLinear(ZERO, ZERO);
    AddLaws(Next(Next(t)), ZERO, ZERO);
    if e == 0 {
      WithinNone(Half(q));
      SpreadZero(0);
    } else {
      SpreadUp(Half(q), e - 1);
      NextLinear(t, Spread(Half(q), e - 1));
      NextLinear(Next(t), Next(Spread(Half(q), e - 1)));
    }
  }

  function Square(r: Reg): Reg {
    Spread(r, 15)
  }

  /** Squaring turns one step into two. */
  lemma SquareNext(r: Reg)
    requires CRC16.Holds(r)
    ensures Square(Next(r)) == Next(Next(Square(r)))
  {
    hide Add, Odd, Half, Within, Power, Kind.Holds;
    var h, p := Half(r), Reg(0xA001);
    HoldsWithin(r);
    HalfWithin(r, 15);
    SpreadUp(h, 14);
    PolySquared();
    SpreadLinear(h, p, 15);
    SquareParts(r);
    AddLaws(Spread(h, 15), Power(32), ZERO);
  }

  lemma SquareParts(r: Reg)
    ensures Next(Next(Square(r))) == Add(if Odd(r) then Power(32) else ZERO, Next(Next(Spread(Half(r), 14))))
  {
    hide Add, Next, Power, Half, Odd;
    var t, s := if Odd(r) then Power(30) else ZERO, Spread(Half(r), 14);
    PowerTwice(30);
    NextLinear(t, s);
    NextLinear(Next(t), Next(s));
    assert Square(r) == Add(t, s);
  }

  /** So it doubles exponents. */
  lemma {:induction false} SquarePower(n: nat)
    ensures Square(Power(n)) == Power(2 * n)
  {
    hide Square, Next, Kind.Holds;
    if n == 0 {
      UnitSquared();
    } else {
      SquarePower(n - 1);
      PowerHolds(n - 1);
      SquareNext(Power(n - 1));
      PowerTwice(2 * (n - 1));
    }
  }

  // ---------- squaring by table ----------

  function Pick(v: bv32, a: bv32): bv32 {
    if Low(v) then a else 0
  }

  function DownFour(v: bv32): bv32 {
    Shr(Shr(Shr(Shr(v))))
  }

  /** Four entries, chosen by the low four bits, added to `rest`. */
  function PickFour(v: bv32, a: bv32, b: bv32, c: bv32, d: bv32, rest: bv32): bv32 {
    Xor(Pick(v, a), Xor(Pick(Shr(v), b), Xor(Pick(Shr(Shr(v)), c), Xor(Pick(Shr(Shr(Shr(v))), d), rest))))
  }

  /** The entries are the even powers, from the 30th down. */
  function Fast(v: bv32): bv32 {
    var w := DownFour(v);
    var x := DownFour(w);
    PickFour(v, 0x6001, 0xC007, 0xC019, 0xC061,
             PickFour(w, 0xC181, 0xC601, 0xD801, 0xA001,
                      PickFour(x, 0x2, 0x8, 0x20, 0x80, PickFour(DownFour(x), 0x200, 0x800, 0x2000, 0x8000, 0))))
  }

  lemma EvenPowers()
    ensures Power(0) == Reg(0x8000) && Power(2) == Reg(0x2000) && Power(4) == Reg(0x800) && Power(6) == Reg(0x200)
    ensures Power(8) == Reg(0x80) && Power(10) == Reg(0x20) && Power(12) == Reg(0x8) && Power(14) == Reg(0x2)
    ensures Power(16) == Reg(0xA001) && Power(18) == Reg(0xD801) && Power(20) == Reg(0xC601)
    ensures Power(22) == Reg(0xC181) && Power(24) == Reg(0xC061) && Power(26) == Reg(0xC019)
    ensures Power(28) == Reg(0xC007) && Power(30) == Reg(0x6001) && Power(32) == Reg(0xE801)
  {
    hide Power;
    PowerNone();
    EvenPower(0, 0x8000);
    EvenPower(2, 0x2000);
    EvenPower(4, 0x800);
    EvenPower(6, 0x200);
    EvenPower(8, 0x80);
    EvenPower(10, 0x20);
    EvenPower(12, 0x8);
    EvenPower(14, 0x2);
    EvenPower(16, 0xA001);
    EvenPower(18, 0xD801);
    EvenPower(20, 0xC601);
    EvenPower(22, 0xC181);
    EvenPower(24, 0xC061);
    EvenPower(26, 0xC019);
    EvenPower(28, 0xC007);
    EvenPower(30, 0x6001);
  }

  function Raw(v: bv32): bv32 {
    if v & 1 == 1 then (v >> 1) ^ 0xA001 else v >> 1
  }

  lemma NextRaw(v: bv32)
    ensures Next(Reg(v)) == Reg(Raw(v))
  {}

  lemma PowerNone()
    ensures Power(0) == Reg(0x8000)
  {}

  lemma EvenPower(n: nat, v: bv32)
    requires Power(n) == Reg(v)
    ensures Power(n + 2) == Reg(Raw(Raw(v)))
  {
    hide Next, Raw;
    PowerTwice(n);
    NextRaw(v);
    NextRaw(Raw(v));
  }

  /** The same over the bits themselves. */
  function Sum(v: bv32, e: nat): bv32 {
    Spread(Reg(v), e).v
  }

  lemma SumOnce(v: bv32, e: nat)
    ensures Sum(v, e) == Xor(Pick(v, Power(2 * e).v), if e == 0 then 0 else Sum(Shr(v), e - 1))
  {
    hide Power, Xor, Shr, Low;
    Neutral(Power(2 * e).v);
    Neutral(0);
  }

  lemma SumFour(v: bv32, e: nat, a: bv32, b: bv32, c: bv32, d: bv32)
    requires e >= 3 && Power(2 * e) == Reg(a) && Power(2 * (e - 1)) == Reg(b)
    requires Power(2 * (e - 2)) == Reg(c) && Power(2 * (e - 3)) == Reg(d)
    ensures Sum(v, e) == PickFour(v, a, b, c, d, if e == 3 then 0 else Sum(DownFour(v), e - 4))
  {
    hide Power, Xor, Shr, Low, Sum, Pick, Spread;
    SumOnce(v, e);
    SumOnce(Shr(v), e - 1);
    SumOnce(Shr(Shr(v)), e - 2);
    SumOnce(Shr(Shr(Shr(v))), e - 3);
  }

  lemma SquareFast(v: bv32)
    ensures Square(Reg(v)) == Reg(Fast(v))
  {
    hide Power, Spread, PickFour, DownFour;
    EvenPowers();
    var w := DownFour(v);
    var x := DownFour(w);
    SumFour(v, 15, 0x6001, 0xC007, 0xC019, 0xC061);
    SumFour(w, 11, 0xC181, 0xC601, 0xD801, 0xA001);
    SumFour(x, 7, 0x2, 0x8, 0x20, 0x80);
    SumFour(DownFour(x), 3, 0x200, 0x800, 0x2000, 0x8000);
  }

  lemma UnitSquared()
    ensures Square(UNIT) == UNIT
  {
    hide Square;
    SquareFast(0x8000);
  }

  /** The polynomial squared is the 32nd power. */
  lemma PolySquared()
    ensures Spread(Reg(0xA001), 15) == Power(32)
  {
    hide Power, Spread;
    EvenPowers();
    SquareFast(0xA001);
  }

  // ---------- the order ----------

  lemma SquareIs(n: nat, v: bv32)
    requires Power(n) == Reg(v)
    ensures Power(2 * n) == Reg(Fast(v)) && Power(2 * n + 1) == Reg(Raw(Fast(v)))
  {
    hide Next, Square, Fast, Raw;
    SquarePower(n);
    SquareFast(v);
    NextRaw(Fast(v));
  }

  lemma SmallPowers()
    ensures Power(8) == Reg(0x80) && Power(9) == Reg(0x40) && Power(13) == Reg(0x4) && Power(15) == Reg(0x1)
  {
    hide Next, Power, Raw;
    EvenPowers();
    NextRaw(0x80);
    NextRaw(0x8);
    NextRaw(0x2);
    PowerNexts();
    RawSmall();
  }

  lemma PowerNexts()
    ensures Power(9) == Next(Power(8)) && Power(13) == Next(Power(12)) && Power(15) == Next(Power(14))
  {
    hide Next;
  }

  lemma RawSmall()
    ensures Raw(0x80) == 0x40 && Raw(0x8) == 0x4 && Raw(0x2) == 0x1
  {}

  lemma PowerSeventh()
    ensures Power(4681) == Reg(0x8C69)
  {
    hide Power;
    SmallPowers();
    SquareIs(9, 0x40);
    SquareIs(18, 0xD801);
    SquareIs(36, 0xC281);
    SquareIs(73, 0x3004);
    SquareIs(146, 0xCA19);
    SquareIs(292, 0xC169);
    SquareIs(585, 0xF31);
    SquareIs(1170, 0x672B);
    SquareIs(2340, 0x8E4C);
  }

  lemma PowerThirtyFirst()
    ensures Power(1057) == Reg(0xCE41)
  {
    hide Power;
    SmallPowers();
    SquareIs(8, 0x80);
    SquareIs(16, 0xA001);
    SquareIs(33, 0xD401);
    SquareIs(66, 0xC221);
    SquareIs(132, 0x608);
    SquareIs(264, 0xC049);
    SquareIs(528, 0xD861);
  }

  lemma PowerRest()
    ensures Power(217) == Reg(0x3E55)
  {
    hide Power;
    SmallPowers();
    SquareIs(13, 0x4);
    SquareIs(27, 0xC00D);
    SquareIs(54, 0xC079);
    SquareIs(108, 0xDFE1);
  }

  /** The 32767th power is 1. */
  lemma PowerAll()
    ensures Power(32767) == UNIT
  {
    hide Power;
    SmallPowers();
    SquareIs(15, 0x1);
    SquareIs(31, 0x9001);
    SquareIs(63, 0xD101);
    SquareIs(127, 0xC100);
    SquareIs(255, 0x5001);
    SquareIs(511, 0x8101);
    SquareIs(1023, 0xD000);
    SquareIs(2047, 0x5100);
    SquareIs(4095, 0x1101);
    SquareIs(8191, 0x9100);
    SquareIs(16383, 0x4101);
  }

  lemma {:induction false} PowerPeriod(d: nat, q: nat, r: nat)
    requires Power(d) == UNIT
    ensures Power(d * q + r) == Power(r)
    decreases q
  {
    hide Next;
    if q > 0 {
      PowerPeriod(d, q - 1, r);
      PowerSteps(d, d * (q - 1) + r);
      PowerSteps(0, d * (q - 1) + r);
      assert d + (d * (q - 1) + r) == d * q + r;
    }
  }

  predicate Factors(p: nat, m: nat, k: nat) {
    m * k == p
  }

  ghost predicate Prime(p: nat) {
    p > 1 && forall m: nat, k: nat :: Factors(p, m, k) ==> m == 1 || m == p
  }

  /** A prime that divides a product divides one of the factors. */
  lemma {:induction false} PrimeDivides(p: nat, a: nat, b: nat, m: int) returns (k: int)
    requires Prime(p) && 0 < a < p && a * b == p * m
    ensures b == p * k
    decreases a
  {
    if a == 1 {
      k := m;
    } else {
      var q, r := p / a, p % a;
      assert r == 0 ==> Factors(p, a, q);
      RestDivides(p, a, b, q, r, m);
      k := PrimeDivides(p, r, b, b - q * m);
    }
  }

  lemma RestDivides(p: int, a: int, b: int, q: int, r: int, m: int)
    requires p == a * q + r && a * b == p * m
    ensures r * b == p * (b - q * m)
  {
    assert r * b == p * b - q * (a * b);
    assert q * (a * b) == p * (q * m);
  }

  /** Or the factor leaves a rest. */
  lemma PrimeFactor(p: nat, d: nat, q: nat, m: nat) returns (k: int)
    requires Prime(p) && d * q == p * m
    ensures d == p * k || q == p * k
  {
    if d % p == 0 {
      k := d / p;
    } else {
      var h := d / p;
      assert (d % p) * q == p * (m - h * q) by {
        assert d == p * h + d % p;
        assert (p * h + d % p) * q == p * (h * q) + (d % p) * q;
      }
      k := PrimeDivides(p, d % p, q, m - h * q);
    }
  }

  lemma Primes()
    ensures Prime(7) && Prime(31) && Prime(151)
  {
    forall p: nat, m: nat, k: nat | p in {7, 31, 151} && Factors(p, m, k)
      ensures m == 1 || m == p
    {
      SmallFactor(p, m, k);
    }
  }

  lemma SmallFactor(p: nat, m: nat, k: nat)
    requires p in {7, 31, 151} && Factors(p, m, k)
    ensures m == 1 || m == p
  {
    if m > 12 {
      assert k * 12 < 151;
      assert k in {0, 1, 2, 3, 4, 5, 6, 7, 8, 9, 10, 11, 12};
    } else {
      assert m in {0, 1, 2, 3, 4, 5, 6, 7, 8, 9, 10, 11, 12};
    }
  }

  /** A proper divisor of 32767 divides 4681, 1057 or 217. */
  lemma Divisors(d: nat, q: nat) returns (p: nat, k: nat)
    requires d * q == 32767 && q > 1
    ensures (p == 7 || p == 31 || p == 151) && q == p * k
  {
    Primes();
    var c := PrimeFactor(7, d, q, 4681);
    if q == 7 * c {
      return 7, c;
    }
    Cancel(7, c, q, 4681);
    var e := PrimeFactor(31, c, q, 151);
    if q == 31 * e {
      return 31, e;
    }
    Cancel(31, e, q, 151);
    Positive(e, q, 151);
    assert Factors(151, q, e);
    return 151, 1;
  }

  lemma Positive(e: int, q: int, p: int)
    requires e * q == p && q > 0 && p > 0
    ensures e > 0
  {}

  lemma Cancel(p: int, c: int, q: int, m: int)
    requires p > 0 && p * c * q == p * m
    ensures c * q == m
  {
    assert p * (c * q) == p * m;
  }

  lemma NoProperDivisor(d: nat, q: nat)
    requires d * q == 32767 && q > 1
    ensures Power(d) != UNIT
  {
    hide Power;
    PowerSeventh();
    PowerThirtyFirst();
    PowerRest();
    if Power(d) == UNIT {
      var p, k := Divisors(d, q);
      PowerPeriod(d, k, 0);
      PowerNone();
      Cancel(p, d, k, if p == 7 then 4681 else if p == 31 then 1057 else 217);
    }
  }

  /** No smaller positive power is 1. */
  lemma {:induction false} OrderIs32767(d: nat)
    requires 0 < d < 32767
    ensures Power(d) != UNIT
    decreases d
  {
    hide Power;
    if Power(d) == UNIT {
      var q, r := 32767 / d, 32767 % d;
      PowerAll();
      PowerPeriod(d, q, r);
      if r > 0 {
        OrderIs32767(r);
      } else {
        NoProperDivisor(d, q);
      }
    }
  }

  lemma PowerIsUnit(n: nat)
    ensures Power(n) == UNIT <==> n % 32767 == 0
  {
    hide Power;
    PowerAll();
    PowerPeriod(32767, n / 32767, n % 32767);
    PowerNone();
    if n % 32767 != 0 { OrderIs32767(n % 32767); }
  }

  // ---------- two wrong bits ----------

  /** Bits that are set at two places and nowhere else. */
  predicate PairAt(d: seq<bool>, i: nat, j: nat) {
    i < j < |d| && forall x :: 0 <= x < |d| ==> d[x] == (x == i || x == j)
  }

  lemma FeedOne(r: Reg)
    ensures Feed(CRC16, r, [true]) == Next(Add(r, Reg(1)))
  {
    hide Step, Add;
    assert Feed(CRC16, r, [true]) == Feed(CRC16, Next(Add(r, Bit(true))), []);
  }

  lemma StepsZero(n: nat)
    ensures Steps(CRC16, ZERO, n) == ZERO
  {
    StepsKeep(CRC16, ZERO, n);
  }

  /** Up to the second bit, the register is the power of the first one. */
  lemma FeedFirst(d: seq<bool>, i: nat, j: nat)
    requires PairAt(d, i, j)
    ensures Feed(CRC16, ZERO, d[..j]) == Power(15 + (j - i))
  {
    hide Feed, Next, Power, Add;
    assert d[..j] == (d[..i] + [true]) + d[i + 1..j];
    FeedAppend(CRC16, ZERO, d[..i] + [true], d[i + 1..j]);
    FeedAppend(CRC16, ZERO, d[..i], [true]);
    FeedZeros(CRC16, ZERO, d[..i]);
    StepsZero(i);
    FeedOne(ZERO);
    AddLaws(Reg(1), ZERO, ZERO);
    SmallPowers();
    PowerAfter(15);
    FeedZeros(CRC16, Power(16), d[i + 1..j]);
    PowerSteps(16, j - i - 1);
  }

  lemma PowerAfter(n: nat)
    ensures Power(n + 1) == Next(Power(n))
  {}

  lemma PairRegister(d: seq<bool>, i: nat, j: nat)
    requires PairAt(d, i, j)
    ensures Feed(CRC16, ZERO, d) == ZERO <==> (j - i) % 32767 == 0
  {
    hide Feed, Next, Power, Add, Kind.Holds, Steps;
    var r, n := Add(Power(15 + (j - i)), Reg(1)), j - i;
    assert d == (d[..j] + [true]) + d[j + 1..];
    FeedAppend(CRC16, ZERO, d[..j] + [true], d[j + 1..]);
    FeedAppend(CRC16, ZERO, d[..j], [true]);
    FeedFirst(d, i, j);
    FeedOne(Power(15 + n));
    FeedZeros(CRC16, Next(r), d[j + 1..]);
    SmallPowers();
    PowerHolds(15 + n);
    PowerHolds(15);
    AddHoldsAll(CRC16, Power(15 + n), Reg(1));
    NextKeeps(r);
    StepsKeep(CRC16, Next(r), |d| - j - 1);
    AddSelf(Power(15 + n), Reg(1));
    PowerShift(n);
    PowerIsUnit(n);
  }

  lemma NextKeeps(r: Reg)
    requires CRC16.Holds(r)
    ensures CRC16.Holds(Next(r)) && (Next(r) == ZERO <==> r == ZERO)
  {
    StepKeeps(CRC16, r);
  }

  lemma PowerShift(n: nat)
    ensures Power(15 + n) == Power(15) <==> Power(n) == UNIT
  {
    hide Power, Steps, Kind.Holds;
    PowerNone();
    PowerHolds(n);
    PowerHolds(0);
    PowerSteps(n, 15);
    PowerSteps(0, 15);
    StepsDiffer(Power(n), Power(0), 15);
  }

  lemma StepsDiffer(a: Reg, b: Reg, n: nat)
    requires CRC16.Holds(a) && CRC16.Holds(b)
    ensures Steps(CRC16, a, n) == Steps(CRC16, b, n) <==> a == b
  {
    hide Kind.Holds, Steps, Add;
    AddHoldsAll(CRC16, a, b);
    StepsLinear(a, b, n);
    StepsKeep(CRC16, Add(a, b), n);
    AddSelf(a, b);
    AddSelf(Steps(CRC16, a, n), Steps(CRC16, b, n));
  }

  lemma {:induction false} StepsLinear(a: Reg, b: Reg, n: nat)
    ensures Steps(CRC16, Add(a, b), n) == Add(Steps(CRC16, a, n), Steps(CRC16, b, n))
    decreases n
  {
    hide Step, Add;
    if n > 0 {
      StepLinear(CRC16, a, b);
      StepsLinear(Step(CRC16, a), Step(CRC16, b), n - 1);
    }
  }

  /** Two messages that differ in exactly two bits have different 16-bit check values, unless the bits are a multiple of
      32767 places apart. */
  lemma TwoErrors(s: seq<bv8>, t: seq<bv8>, i: nat, j: nat)
    requires |s| == |t| && PairAt(Diff(Message(s), Message(t)), i, j)
    ensures Check(CRC16, s) != Check(CRC16, t) <==> (j - i) % 32767 != 0
  {
    hide Feed, Diff, Message, Add, PairAt;
    var init := Reg(CRC16.Mask());
    FeedLinear(CRC16, init, Message(s), init, Message(t));
    AddSelf(init, init);
    AddSelf(Check(CRC16, s), Check(CRC16, t));
    PairRegister(Diff(Message(s), Message(t)), i, j);
  }

  // ---------- up to three wrong bits ----------

  function Count(s: seq<bool>): nat {
    if s == [] then 0 else (if s[0] then 1 else 0) + Count(s[1..])
  }

  lemma {:induction false} CountParity(s: seq<bool>)
    ensures OddOnes(s) <==> Count(s) % 2 == 1
  {
    if s != [] { CountParity(s[1..]); }
  }

  lemma {:induction false} CountNone(s: seq<bool>)
    requires Count(s) == 0
    ensures true !in s
  {
    if s != [] { CountNone(s[1..]); }
  }

  lemma {:induction false} CountOne(s: seq<bool>) returns (j: nat)
    requires Count(s) == 1
    ensures j < |s| && forall x :: 0 <= x < |s| ==> s[x] == (x == j)
  {
    if s[0] {
      CountNone(s[1..]);
      j := 0;
    } else {
      j := CountOne(s[1..]);
      j := j + 1;
    }
  }

  lemma {:induction false} CountTwo(s: seq<bool>) returns (i: nat, j: nat)
    requires Count(s) == 2
    ensures PairAt(s, i, j)
  {
    if s[0] {
      j := CountOne(s[1..]);
      i, j := 0, j + 1;
    } else {
      i, j := CountTwo(s[1..]);
      i, j := i + 1, j + 1;
    }
  }

  /** Up to 4095 bytes, one to three wrong bits are never missed, wherever they are. */
  lemma ThreeErrors(s: seq<bv8>, t: seq<bv8>)
    requires |s| == |t| <= 4095 && 1 <= Count(Diff(Message(s), Message(t))) <= 3
    ensures Check(CRC16, s) != Check(CRC16, t)
  {
    hide Check, Message, Diff, OddOnes, Count;
    var d := Diff(Message(s), Message(t));
    CountParity(d);
    if Count(d) == 2 {
      var i, j := CountTwo(d);
      TwoErrors(s, t, i, j);
    } else {
      OddErrorsDetected(s, t);
    }
  }
}
