/** The two cyclic redundancy checks: what they compute on the bits of a message, and the errors they cannot miss. */
module CRC {

  /** A register, kept apart from bit-vector reasoning. */
  datatype Reg = Reg(v: bv32)

  /** The reflected polynomials, one bit per power below the degree. */
  datatype Kind = CRC16 | CRC32 {
    function Width(): nat {
      if CRC16? then 16 else 32
    }

    function Poly(): bv32 {
      if CRC16? then 0xA001 else 0xEDB8_8320
    }

    function Mask(): bv32 {
      if CRC16? then 0xFFFF else 0xFFFF_FFFF
    }

    /** Only the bits of the register's width are in use. */
    predicate Holds(r: Reg) {
      r.v & !Mask() == 0
    }
  }

  const ZERO := Reg(0)

  function Xor(a: bv32, b: bv32): bv32 {
    a ^ b
  }

  function Add(a: Reg, b: Reg): Reg {
    Reg(Xor(a.v, b.v))
  }

  predicate Low(v: bv32) {
    v & 1 == 1
  }

  predicate Odd(r: Reg) {
    Low(r.v)
  }

  function Shr(v: bv32): bv32 {
    v >> 1
  }

  function Half(r: Reg): Reg {
    Reg(Shr(r.v))
  }

  /** One shift of the register: the loop body of both functions. */
  function Step(k: Kind, r: Reg): Reg {
    if Odd(r) then Add(Half(r), Reg(k.Poly())) else Half(r)
  }

  function Bit(b: bool): Reg {
    Reg(if b then 1 else 0)
  }

  /** The register after a bit string, one bit entering at the low end before each shift. */
  function Feed(k: Kind, r: Reg, s: seq<bool>): Reg
    decreases |s|
  {
    if s == [] then r else Feed(k, Step(k, Add(r, Bit(s[0]))), s[1..])
  }

  function Steps(k: Kind, r: Reg, n: nat): Reg
    decreases n
  {
    if n == 0 then r else Steps(k, Step(k, r), n - 1)
  }

  // ---------- bit-vector facts ----------

  lemma Associates(a: bv32, b: bv32, c: bv32)
    ensures Xor(Xor(a, b), c) == Xor(a, Xor(b, c))
  {}

  lemma Commutes(a: bv32, b: bv32)
    ensures Xor(a, b) == Xor(b, a)
  {}

  lemma Neutral(a: bv32)
    ensures Xor(a, 0) == a == Xor(0, a)
  {}

  lemma AddLaws(a: Reg, b: Reg, c: Reg)
    ensures Add(a, b) == Add(b, a)
    ensures Add(Add(a, b), c) == Add(a, Add(b, c))
    ensures Add(a, ZERO) == a == Add(ZERO, a)
  {
    hide Xor;
    Commutes(a.v, b.v);
    Associates(a.v, b.v, c.v);
    Neutral(a.v);
  }

  lemma AddSelf(a: Reg, b: Reg)
    ensures Add(a, a) == ZERO
    ensures Add(a, b) == ZERO <==> a == b
  {}

  lemma AddSwap(a: Reg, b: Reg, c: Reg, d: Reg)
    ensures Add(Add(a, b), Add(c, d)) == Add(Add(a, c), Add(b, d))
  {
    hide *;
    AddLaws(a, b, Add(c, d));
    AddLaws(b, c, d);
    AddLaws(c, b, d);
    AddLaws(a, c, Add(b, d));
  }

  lemma HalfLinear(a: Reg, b: Reg)
    ensures Half(Add(a, b)) == Add(Half(a), Half(b))
    ensures Odd(Add(a, b)) == (Odd(a) != Odd(b))
  {}

  lemma StepLinear(k: Kind, a: Reg, b: Reg)
    ensures Step(k, Add(a, b)) == Add(Step(k, a), Step(k, b))
  {
    hide Add, Half, Odd;
    HalfLinear(a, b);
    var p := Reg(k.Poly());
    AddSwap(Half(a), p, Half(b), p);
    AddSelf(p, p);
    AddLaws(Add(Half(a), Half(b)), ZERO, ZERO);
    AddLaws(Half(a), Half(b), p);
    AddLaws(Half(a), p, Half(b));
    AddLaws(p, Half(b), ZERO);
  }

  lemma StepKeeps(k: Kind, r: Reg)
    requires k.Holds(r)
    ensures k.Holds(Step(k, r))
    ensures Step(k, r) == ZERO <==> r == ZERO
  {
    if k.CRC16? { Step16(r.v); } else { Step32(r.v); }
  }

  lemma Step16(r: bv32)
    requires r & 0xFFFF_0000 == 0
    ensures ((r >> 1) ^ 0xA001) & 0xFFFF_0000 == 0 && (r >> 1) & 0xFFFF_0000 == 0
    ensures (r >> 1) ^ 0xA001 != 0 && (r & 1 == 0 ==> (r >> 1 == 0 <==> r == 0))
  {}

  lemma Step32(r: bv32)
    ensures (r >> 1) ^ 0xEDB8_8320 != 0 && (r & 1 == 0 ==> (r >> 1 == 0 <==> r == 0))
  {}

  // ---------- linearity ----------

  /** The bitwise difference of two messages. */
  function Diff(s: seq<bool>, t: seq<bool>): (d: seq<bool>)
    requires |s| == |t|
    ensures |d| == |s|
  {
    seq(|s|, i requires 0 <= i < |s| => s[i] != t[i])
  }

  lemma BitDiff(b: bool, c: bool)
    ensures Add(Bit(b), Bit(c)) == Bit(b != c)
  {}

  lemma {:induction false} FeedLinear(k: Kind, r: Reg, s: seq<bool>, r': Reg, t: seq<bool>)
    requires |s| == |t|
    ensures Add(Feed(k, r, s), Feed(k, r', t)) == Feed(k, Add(r, r'), Diff(s, t))
    decreases |s|
  {
    hide Add, Step, Bit;
    if s != [] {
      var a, b := Add(r, Bit(s[0])), Add(r', Bit(t[0]));
      assert Diff(s, t)[1..] == Diff(s[1..], t[1..]);
      FeedLinear(k, Step(k, a), s[1..], Step(k, b), t[1..]);
      StepLinear(k, a, b);
      AddSwap(r, Bit(s[0]), r', Bit(t[0]));
      BitDiff(s[0], t[0]);
    }
  }

  lemma {:induction false} FeedAppend(k: Kind, r: Reg, s: seq<bool>, t: seq<bool>)
    ensures Feed(k, r, s + t) == Feed(k, Feed(k, r, s), t)
    decreases |s|
  {
    hide Add, Step, Bit;
    if s == [] {
      assert s + t == t;
    } else {
      assert (s + t)[1..] == s[1..] + t;
      FeedAppend(k, Step(k, Add(r, Bit(s[0]))), s[1..], t);
    }
  }

  // ---------- what the register is after a short string ----------

  /** The bits as a number, the first one lowest. */
  function Word(s: seq<bool>): Reg {
    if s == [] then ZERO else Add(Bit(s[0]), Double(Word(s[1..])))
  }

  function Shl(v: bv32): bv32 {
    v << 1
  }

  function Double(r: Reg): Reg {
    Reg(Shl(r.v))
  }

  /** The number whose low `n` bits are set. */
  function Ones(n: nat): bv32 {
    if n == 0 then 0 else Longer(Ones(n - 1))
  }

  predicate Within(r: Reg, n: nat) {
    Inside(r.v, Ones(n))
  }

  lemma OnesValues()
    ensures Ones(16) == 0xFFFF && Ones(31) == 0x7FFF_FFFF && Ones(32) == 0xFFFF_FFFF
  {
    assert Ones(4) == 0xF;
    assert Ones(8) == 0xFF;
    assert Ones(12) == 0xFFF;
    assert Ones(16) == 0xFFFF;
    assert Ones(20) == 0xF_FFFF;
    assert Ones(24) == 0xFF_FFFF;
    assert Ones(28) == 0xFFF_FFFF;
    assert Ones(31) == 0x7FFF_FFFF;
  }

  predicate Inside(v: bv32, m: bv32) {
    v & !m == 0
  }

  function Longer(m: bv32): bv32 {
    (m << 1) | 1
  }

  lemma DoubleInside(v: bv32, m: bv32)
    requires Inside(v, m)
    ensures Inside(Xor(0, Shl(v)), Longer(m)) && Inside(Xor(1, Shl(v)), Longer(m))
  {}

  lemma WithinDouble(r: Reg, n: nat, b: bool)
    requires Within(r, n)
    ensures Within(Add(Bit(b), Double(r)), n + 1)
  {
    hide Xor, Shl, Inside, Longer;
    DoubleInside(r.v, Ones(n));
  }

  lemma {:induction false} WithinMore(r: Reg, n: nat, m: nat)
    requires n <= m && Within(r, n)
    ensures Within(r, m)
    decreases m
  {
    if n < m {
      WithinMore(r, n, m - 1);
      OnesGrow(r.v, m);
    }
  }

  lemma {:induction false} OnesGrow(v: bv32, m: nat)
    requires m > 0 && Inside(v, Ones(m - 1))
    ensures Inside(v, Ones(m))
  {
    hide Inside, Longer;
    OnesNested(m);
    Subset(v, Ones(m - 1), Ones(m));
  }

  lemma {:induction false} OnesNested(m: nat)
    requires m > 0
    ensures Inside(Ones(m - 1), Ones(m))
  {
    hide Inside, Longer;
    if m > 1 {
      OnesNested(m - 1);
      NestedInside(Ones(m - 2), Ones(m - 1));
    } else {
      EmptyInside(Ones(1));
    }
  }

  lemma EmptyInside(m: bv32)
    ensures Inside(0, m)
  {}

  lemma NestedInside(a: bv32, b: bv32)
    requires Inside(a, b)
    ensures Inside(Longer(a), Longer(b))
  {}

  lemma Subset(v: bv32, a: bv32, b: bv32)
    requires Inside(v, a) && Inside(a, b)
    ensures Inside(v, b)
  {}

  lemma {:induction false} WordWithin(s: seq<bool>)
    ensures Within(Word(s), |s|)
  {
    hide Within, Add, Bit, Double;
    if s == [] {
      assert Within(ZERO, 0) by { ZeroWithin(); }
    } else {
      WordWithin(s[1..]);
      WithinDouble(Word(s[1..]), |s| - 1, s[0]);
    }
  }

  lemma ZeroWithin()
    ensures Within(ZERO, 0)
  {}

  /** Doubling a number below 2^31 loses nothing. */
  lemma HalfOfDouble(r: Reg)
    requires Within(r, 31)
    ensures Half(Double(r)) == r && !Odd(Double(r))
    ensures Double(r) == ZERO <==> r == ZERO
    ensures Add(Bit(true), Double(r)) != ZERO
  {
    hide Within, Xor, Shl, Shr, Low, Inside;
    Below31(r);
    DoubledRaw(r.v);
  }

  lemma Below31(r: Reg)
    requires Within(r, 31)
    ensures Inside(r.v, 0x7FFF_FFFF)
  {
    OnesValues();
  }

  lemma DoubledRaw(v: bv32)
    requires Inside(v, 0x7FFF_FFFF)
    ensures Shr(Shl(v)) == v && !Low(Shl(v))
    ensures Shl(v) == 0 <==> v == 0
    ensures Xor(1, Shl(v)) != 0
  {}

  /** The difference of two equally long strings is 0 as a number only when they are equal. */
  lemma {:induction false} WordNonzero(s: seq<bool>)
    requires |s| <= 32 && true in s
    ensures Word(s) != ZERO
  {
    hide Within, Add, Bit, Double, Half;
    WordWithin(s[1..]);
    WithinMore(Word(s[1..]), |s| - 1, 31);
    HalfOfDouble(Word(s[1..]));
    if !s[0] {
      assert s == [false] + s[1..];
      WordNonzero(s[1..]);
      assert Bit(false) == ZERO by { BitFalse(); }
      AddLaws(Double(Word(s[1..])), ZERO, ZERO);
    }
  }

  lemma BitFalse()
    ensures Bit(false) == ZERO
  {}

  /** Feeding up to 32 bits is adding them all at once, then shifting. */
  lemma {:induction false} FeedIsSteps(k: Kind, r: Reg, s: seq<bool>)
    requires |s| <= 32
    ensures Feed(k, r, s) == Steps(k, Add(r, Word(s)), |s|)
    decreases |s|
  {
    hide Within, Add, Bit, Double, Half, Odd;
    if s == [] {
      AddLaws(r, ZERO, ZERO);
    } else {
      var b, w := Bit(s[0]), Word(s[1..]);
      WordWithin(s[1..]);
      WithinMore(w, |s| - 1, 31);
      HalfOfDouble(w);
      FeedIsSteps(k, Step(k, Add(r, b)), s[1..]);
      AddLaws(r, b, Double(w));
      StepLinear(k, Add(r, b), Double(w));
    }
  }

  lemma {:induction false} StepsKeep(k: Kind, r: Reg, n: nat)
    requires k.Holds(r)
    ensures k.Holds(Steps(k, r, n)) && (Steps(k, r, n) == ZERO <==> r == ZERO)
    decreases n
  {
    hide Step;
    if n > 0 {
      StepKeeps(k, r);
      StepsKeep(k, Step(k, r), n - 1);
    }
  }

  lemma {:induction false} FeedZeros(k: Kind, r: Reg, s: seq<bool>)
    requires true !in s
    ensures Feed(k, r, s) == Steps(k, r, |s|)
    decreases |s|
  {
    hide Step, Add;
    if s != [] {
      assert s[0] == false;
      BitFalse();
      AddLaws(r, ZERO, ZERO);
      FeedZeros(k, Step(k, r), s[1..]);
    }
  }

  // ---------- error detection ----------

  /** Two bit strings of one length that differ only inside a window no wider than the register, wherever it lies,
      never give the same check value. */
  lemma BurstDetected(k: Kind, init: Reg, before: seq<bool>, e: seq<bool>, f: seq<bool>, after: seq<bool>)
    requires |e| == |f| <= k.Width() && e != f
    ensures Feed(k, init, before + e + after) != Feed(k, init, before + f + after)
  {
    hide Feed, Add, Word, Diff;
    var r := Feed(k, init, before);
    var x, y := Feed(k, r, e), Feed(k, r, f);
    FeedAppend(k, init, before, e);
    FeedAppend(k, init, before, f);
    FeedAppend(k, init, before + e, after);
    FeedAppend(k, init, before + f, after);
    BurstDifference(k, r, e, f);
    SameAfter(k, x, y, after);
  }

  /** Right after the window the two registers differ. */
  lemma BurstDifference(k: Kind, r: Reg, e: seq<bool>, f: seq<bool>)
    requires |e| == |f| <= k.Width() && e != f
    ensures Feed(k, r, e) != Feed(k, r, f) && k.Holds(Add(Feed(k, r, e), Feed(k, r, f)))
  {
    hide Feed, Add, Word;
    var d := Diff(e, f);
    FeedLinear(k, r, e, r, f);
    AddSelf(r, r);
    FeedIsSteps(k, ZERO, d);
    AddLaws(Word(d), ZERO, ZERO);
    DifferentBits(e, f);
    WordNonzero(d);
    WordWithin(d);
    WithinMore(Word(d), |d|, k.Width());
    WithinHolds(k, Word(d));
    StepsKeep(k, Word(d), |d|);
    AddSelf(Feed(k, r, e), Feed(k, r, f));
  }

  lemma DifferentBits(e: seq<bool>, f: seq<bool>)
    requires |e| == |f| && e != f
    ensures true in Diff(e, f)
  {
    var i :| 0 <= i < |e| && e[i] != f[i];
    assert Diff(e, f)[i];
  }

  lemma WithinHolds(k: Kind, r: Reg)
    requires Within(r, k.Width())
    ensures k.Holds(r)
  {
    OnesValues();
  }

  /** Equal bits keep different registers different. */
  lemma SameAfter(k: Kind, x: Reg, y: Reg, s: seq<bool>)
    requires x != y && k.Holds(Add(x, y))
    ensures Feed(k, x, s) != Feed(k, y, s)
  {
    hide Feed, Add;
    FeedLinear(k, x, s, y, s);
    FeedZeros(k, Add(x, y), Diff(s, s));
    StepsKeep(k, Add(x, y), |s|);
    AddSelf(x, y);
    AddSelf(Feed(k, x, s), Feed(k, y, s));
  }

  // ---------- bytes ----------

  predicate LowBit(b: bv8) {
    b & 1 == 1
  }

  function Rest(b: bv8): bv8 {
    b >> 1
  }

  /** The low `n` bits of a byte in the order the register takes them, lowest first. */
  function FirstBits(b: bv8, n: nat): (s: seq<bool>)
    ensures |s| == n
  {
    if n == 0 then [] else [LowBit(b)] + FirstBits(Rest(b), n - 1)
  }

  function Bits(b: bv8): (s: seq<bool>)
    ensures |s| == 8
  {
    FirstBits(b, 8)
  }

  function Message(data: seq<bv8>): (s: seq<bool>)
    ensures |s| == 8 * |data|
  {
    if data == [] then [] else Bits(data[0]) + Message(data[1..])
  }

  function Wide(b: bv8): Reg {
    Reg(b as bv32)
  }

  /** The check value of a message. */
  function Check(k: Kind, data: seq<bv8>): Reg {
    Feed(k, Reg(k.Mask()), Message(data))
  }

  function XorByte(b: bv8, c: bv8): bv8 {
    b ^ c
  }

  function XorBytes(s: seq<bv8>, t: seq<bv8>): (u: seq<bv8>)
    requires |s| == |t|
    ensures |u| == |s|
  {
    seq(|s|, i requires 0 <= i < |s| => XorByte(s[i], t[i]))
  }

  predicate Fits(b: bv8, n: nat) {
    if n == 0 then b == 0 else Fits(Rest(b), n - 1)
  }

  lemma AllFit(b: bv8)
    ensures Fits(b, 8)
  {
    hide Rest;
    EightHalves(b);
    var c := Rest(Rest(Rest(Rest(b))));
    assert Fits(Rest(Rest(Rest(c))), 1);
    assert Fits(Rest(Rest(c)), 2);
    assert Fits(c, 4);
    assert Fits(Rest(Rest(b)), 6);
  }

  lemma EightHalves(b: bv8)
    ensures Rest(Rest(Rest(Rest(Rest(Rest(Rest(Rest(b)))))))) == 0
  {}

  lemma WideStep(b: bv8)
    ensures b as bv32 == Xor(if LowBit(b) then 1 else 0, Shl(Rest(b) as bv32))
  {}

  lemma {:induction false} WordOfFirstBits(b: bv8, n: nat)
    requires Fits(b, n)
    ensures Word(FirstBits(b, n)) == Wide(b)
    decreases n
  {
    hide LowBit, Rest, Xor, Shl;
    if n > 0 {
      WideStep(b);
      WordOfFirstBits(Rest(b), n - 1);
    }
  }

  lemma WordOfBits(b: bv8)
    ensures Word(Bits(b)) == Wide(b)
  {
    AllFit(b);
    WordOfFirstBits(b, 8);
  }

  /** A byte enters the register by one exclusive-or followed by eight shifts. */
  lemma FeedByte(k: Kind, r: Reg, b: bv8)
    ensures Feed(k, r, Bits(b)) == Steps(k, Add(r, Wide(b)), 8)
  {
    hide Feed, Steps, Bits, Word, Add;
    FeedIsSteps(k, r, Bits(b));
    WordOfBits(b);
  }

  lemma {:induction false} MessageAppend(s: seq<bv8>, t: seq<bv8>)
    ensures Message(s + t) == Message(s) + Message(t)
  {
    hide Bits;
    if s == [] {
      assert s + t == t;
    } else {
      assert (s + t)[1..] == s[1..] + t;
      MessageAppend(s[1..], t);
    }
  }

  lemma FirstBitsDiff(b: bv8, c: bv8)
    ensures LowBit(XorByte(b, c)) == (LowBit(b) != LowBit(c))
    ensures Rest(XorByte(b, c)) == XorByte(Rest(b), Rest(c))
  {}

  lemma {:induction false} BitsDiff(b: bv8, c: bv8, n: nat)
    ensures FirstBits(XorByte(b, c), n) == Diff(FirstBits(b, n), FirstBits(c, n))
    decreases n
  {
    hide LowBit, Rest, XorByte, Diff;
    if n == 0 {
      DiffNone();
    } else {
      FirstBitsDiff(b, c);
      BitsDiff(Rest(b), Rest(c), n - 1);
      DiffFirst(LowBit(b), FirstBits(Rest(b), n - 1), LowBit(c), FirstBits(Rest(c), n - 1));
    }
  }

  lemma DiffNone()
    ensures Diff([], []) == []
  {}

  lemma DiffFirst(a: bool, s: seq<bool>, b: bool, t: seq<bool>)
    requires |s| == |t|
    ensures Diff([a] + s, [b] + t) == [a != b] + Diff(s, t)
  {}

  lemma {:induction false} MessageDiff(s: seq<bv8>, t: seq<bv8>)
    requires |s| == |t|
    ensures Message(XorBytes(s, t)) == Diff(Message(s), Message(t))
  {
    hide FirstBits, XorByte;
    if s != [] {
      assert XorBytes(s, t)[1..] == XorBytes(s[1..], t[1..]);
      MessageDiff(s[1..], t[1..]);
      BitsDiff(s[0], t[0], 8);
      assert Message(s) == Bits(s[0]) + Message(s[1..]);
      assert Message(t) == Bits(t[0]) + Message(t[1..]);
    }
  }

  lemma WideInjective(b: bv8, c: bv8)
    requires b as bv32 == c as bv32
    ensures b == c
  {}

  /** Different bytes are different bits. */
  lemma {:induction false} MessageInjective(s: seq<bv8>, t: seq<bv8>)
    requires |s| == |t| && Message(s) == Message(t)
    ensures s == t
  {
    hide Bits, Word;
    if s != [] {
      assert Bits(s[0]) == Message(s)[..8] == Message(t)[..8] == Bits(t[0]);
      assert Message(s[1..]) == Message(s)[8..] == Message(t)[8..] == Message(t[1..]);
      MessageInjective(s[1..], t[1..]);
      WordOfBits(s[0]);
      WordOfBits(t[0]);
      WideInjective(s[0], t[0]);
    }
  }

  /** Two different messages of one length that agree outside some window of 4 (crc32) or 2 (crc16) consecutive bytes
      have different check values, whatever their length and wherever the window lies. */
  lemma WindowDetected(k: Kind, s: seq<bv8>, t: seq<bv8>, from: nat, to: nat)
    requires |s| == |t| && s != t
    requires from <= to <= |s| && to - from <= k.Width() / 8
    requires s[..from] == t[..from] && s[to..] == t[to..]
    ensures Check(k, s) != Check(k, t)
  {
    hide Message, Feed;
    var e, f := s[from..to], t[from..to];
    assert s == s[..from] + e + s[to..];
    assert t == t[..from] + f + t[to..];
    MessageJoin(s[..from], e, s[to..]);
    MessageJoin(t[..from], f, t[to..]);
    if Message(e) == Message(f) {
      MessageInjective(e, f);
      assert false;
    }
    BurstDetected(k, Reg(k.Mask()), Message(s[..from]), Message(e), Message(f), Message(s[to..]));
  }

  lemma MessageJoin(s: seq<bv8>, t: seq<bv8>, u: seq<bv8>)
    ensures Message(s + t + u) == Message(s) + Message(t) + Message(u)
  {
    hide Message;
    MessageAppend(s, t);
    MessageAppend(s + t, u);
  }

  /** The check value is affine: over messages of one length, the exclusive-or of three messages has the exclusive-or
      of their three check values. */
  lemma CheckAffine(k: Kind, s: seq<bv8>, t: seq<bv8>, u: seq<bv8>)
    requires |s| == |t| == |u|
    ensures Check(k, XorBytes(XorBytes(s, t), u)) == Add(Add(Check(k, s), Check(k, t)), Check(k, u))
  {
    hide Feed, Message, XorBytes, Diff, Add;
    var i := Reg(k.Mask());
    var st := XorBytes(s, t);
    MessageDiff(s, t);
    MessageDiff(st, u);
    FeedLinear(k, i, Message(s), i, Message(t));
    FeedLinear(k, Add(i, i), Message(st), i, Message(u));
    AddSelf(i, i);
    AddLaws(i, ZERO, ZERO);
  }

  lemma {:induction false} FeedKeeps(k: Kind, r: Reg, s: seq<bool>)
    requires k.Holds(r)
    ensures k.Holds(Feed(k, r, s))
    decreases |s|
  {
    hide Step, Add, Bit, Kind.Holds;
    if s != [] {
      AddHolds(k, r, s[0]);
      StepKeeps(k, Add(r, Bit(s[0])));
      FeedKeeps(k, Step(k, Add(r, Bit(s[0]))), s[1..]);
    }
  }

  lemma AddHolds(k: Kind, r: Reg, b: bool)
    requires k.Holds(r)
    ensures k.Holds(Add(r, Bit(b)))
  {
    hide Xor;
    if k.CRC16? { Holds16(r.v); } else { Holds32(r.v); }
  }

  lemma Holds16(v: bv32)
    requires v & 0xFFFF_0000 == 0
    ensures Xor(v, 0) & 0xFFFF_0000 == 0 && Xor(v, 1) & 0xFFFF_0000 == 0
  {}

  lemma Holds32(v: bv32)
    ensures v & 0 == 0 && Xor(v, 0) & 0 == 0 && Xor(v, 1) & 0 == 0
  {}

  lemma AddHoldsAll(k: Kind, a: Reg, b: Reg)
    requires k.Holds(a) && k.Holds(b)
    ensures k.Holds(Add(a, b))
  {
    hide Xor;
    if k.CRC16? { HoldsBoth16(a.v, b.v); } else { HoldsBoth32(a.v, b.v); }
  }

  lemma HoldsBoth16(v: bv32, w: bv32)
    requires v & 0xFFFF_0000 == 0 && w & 0xFFFF_0000 == 0
    ensures Xor(v, w) & 0xFFFF_0000 == 0
  {}

  lemma HoldsBoth32(v: bv32, w: bv32)
    ensures Xor(v, w) & 0 == 0
  {}

  /** A message followed by as many bytes as the register holds checks to 0 exactly when those bytes, read lowest
      first, are the check value of the message. */
  lemma Residue(k: Kind, data: seq<bv8>, tail: seq<bv8>)
    requires |tail| == k.Width() / 8
    ensures Check(k, data + tail) == ZERO <==> Word(Message(tail)) == Check(k, data)
  {
    hide Feed, Steps, Word, Message, Add, Within, Kind.Holds;
    var c, w := Check(k, data), Word(Message(tail));
    MessageAppend(data, tail);
    FeedAppend(k, Reg(k.Mask()), Message(data), Message(tail));
    FeedIsSteps(k, c, Message(tail));
    MaskHolds(k);
    FeedKeeps(k, Reg(k.Mask()), Message(data));
    WordWithin(Message(tail));
    WithinHolds(k, w);
    AddHoldsAll(k, c, w);
    StepsKeep(k, Add(c, w), |Message(tail)|);
    AddSelf(c, w);
  }

  lemma MaskHolds(k: Kind)
    ensures k.Holds(Reg(k.Mask()))
  {}

  function LowByte(v: bv32): bv8 {
    (v & 0xFF) as bv8
  }

  function DropByte(v: bv32): bv32 {
    v >> 8
  }

  /** The low `n` bytes of a register, lowest first. */
  function OwnBytes(v: bv32, n: nat): (s: seq<bv8>)
    ensures |s| == n
  {
    if n == 0 then [] else [LowByte(v)] + OwnBytes(DropByte(v), n - 1)
  }

  function Doubles(n: nat, r: Reg): Reg {
    if n == 0 then r else Double(Doubles(n - 1, r))
  }

  lemma DoubleLinear(a: Reg, b: Reg)
    ensures Double(Add(a, b)) == Add(Double(a), Double(b))
  {
    hide Xor, Shl;
    ShlLinear(a.v, b.v);
  }

  lemma ShlLinear(a: bv32, b: bv32)
    ensures Shl(Xor(a, b)) == Xor(Shl(a), Shl(b))
  {}

  lemma {:induction false} WordAppend(s: seq<bool>, t: seq<bool>)
    ensures Word(s + t) == Add(Word(s), Doubles(|s|, Word(t)))
  {
    hide Add, Double, Bit;
    if s == [] {
      assert s + t == t;
      AddLaws(Word(t), ZERO, ZERO);
    } else {
      var rest := Doubles(|s| - 1, Word(t));
      assert (s + t)[1..] == s[1..] + t;
      WordAppend(s[1..], t);
      DoubleLinear(Word(s[1..]), rest);
      AddLaws(Bit(s[0]), Double(Word(s[1..])), Double(rest));
    }
  }

  function RaiseByte(v: bv32): bv32 {
    v << 8
  }

  lemma EightDoubles(r: Reg)
    ensures Doubles(8, r) == Reg(RaiseByte(r.v))
  {
    hide Shl, RaiseByte;
    assert Doubles(1, r) == Reg(Shl(r.v));
    assert Doubles(2, r) == Reg(Shl(Shl(r.v)));
    assert Doubles(4, r) == Reg(Shl(Shl(Shl(Shl(r.v)))));
    assert Doubles(6, r) == Reg(Shl(Shl(Shl(Shl(Shl(Shl(r.v)))))));
    ShlEight(r.v);
  }

  lemma ShlEight(v: bv32)
    ensures Shl(Shl(Shl(Shl(Shl(Shl(Shl(Shl(v)))))))) == RaiseByte(v)
  {}

  lemma JoinByte(v: bv32)
    ensures Xor(LowByte(v) as bv32, RaiseByte(DropByte(v))) == v
  {}

  predicate Spans(v: bv32, n: nat) {
    if n == 0 then v == 0 else Spans(DropByte(v), n - 1)
  }

  lemma {:induction false} OwnBytesWord(v: bv32, n: nat)
    requires Spans(v, n)
    ensures Word(Message(OwnBytes(v, n))) == Reg(v)
    decreases n
  {
    hide LowByte, DropByte, RaiseByte, Xor, Bits, Double, Word, Doubles;
    if n == 0 {
      assert Word([]) == ZERO by { WordEmpty(); }
    } else {
      var s := OwnBytes(v, n);
      OwnBytesWord(DropByte(v), n - 1);
      WordAppend(Bits(s[0]), Message(s[1..]));
      WordOfBits(s[0]);
      EightDoubles(Reg(DropByte(v)));
      JoinByte(v);
    }
  }

  lemma WordEmpty()
    ensures Word([]) == ZERO
  {}

  lemma SpansWidth(k: Kind, r: Reg)
    requires k.Holds(r)
    ensures Spans(r.v, k.Width() / 8)
  {
    hide DropByte;
    var h := DropByte(DropByte(r.v));
    DropTwo(r.v);
    if k.CRC16? {
      assert Spans(h, 0);
      assert Spans(r.v, 2);
    } else {
      assert Spans(DropByte(h), 1);
      assert Spans(h, 2);
      assert Spans(DropByte(r.v), 3);
    }
  }

  lemma DropTwo(v: bv32)
    ensures v & 0xFFFF_0000 == 0 ==> DropByte(DropByte(v)) == 0
    ensures DropByte(DropByte(DropByte(DropByte(v)))) == 0
  {}

  /** Appending the register's own bytes, lowest first, brings it to 0. */
  lemma OwnBytesCancel(k: Kind, data: seq<bv8>)
    ensures Check(k, data + OwnBytes(Check(k, data).v, k.Width() / 8)) == ZERO
  {
    hide Feed, Message, Word, OwnBytes, Spans, Kind.Holds;
    var c := Check(k, data);
    MaskHolds(k);
    FeedKeeps(k, Reg(k.Mask()), Message(data));
    SpansWidth(k, c);
    OwnBytesWord(c.v, k.Width() / 8);
    Residue(k, data, OwnBytes(c.v, k.Width() / 8));
  }

  /** The check value of the empty message is the initial register itself: nothing is complemented at the end. */
  lemma EmptyCheck(k: Kind)
    ensures Check(k, []) == Reg(k.Mask())
  {}

  /** The values of the one-byte message 0x7F: seven shifts take a bit off each, the eighth brings the polynomial in. */
  lemma OneByteChecks()
    ensures Check(CRC32, [0x7F]) == Reg(0xED47_7CDF) && Check(CRC16, [0x7F]) == Reg(0xA0FE)
  {
    hide Feed, Message, Bits, Add, Step, Steps;
    OneByte(CRC32, 0x7F);
    OneByte(CRC16, 0x7F);
    AddByte(0xFFFF_FFFF, 0x7F);
    AddByte(0xFFFF, 0x7F);
    SevenSteps32();
    SevenSteps16();
    OneStep(CRC32, Reg(0x1FF_FFFF));
    OneStep(CRC16, Reg(0x1FF));
    LastStep32();
    LastStep16();
  }

  lemma OneByte(k: Kind, b: bv8)
    ensures Check(k, [b]) == Steps(k, Add(Reg(k.Mask()), Wide(b)), 8)
  {
    hide Bits, Add, Step, Steps;
    assert Bits(b) + [] == Bits(b);
    assert Message([b]) == Bits(b) + Message([]);
    FeedByte(k, Reg(k.Mask()), b);
  }

  lemma AddByte(v: bv32, b: bv8)
    ensures Add(Reg(v), Wide(b)) == Reg(v ^ (b as bv32))
  {}

  /** Seven zeros take a bit off the register each. */
  lemma SevenSteps32()
    ensures Steps(CRC32, Reg(0xFFFF_FF80), 8) == Steps(CRC32, Reg(0x1FF_FFFF), 1)
  {
    hide Steps;
    EvenStep(CRC32, 0xFFFF_FF80, 7);
    EvenStep(CRC32, 0x7FFF_FFC0, 6);
    EvenStep(CRC32, 0x3FFF_FFE0, 5);
    EvenStep(CRC32, 0x1FFF_FFF0, 4);
    EvenStep(CRC32, 0xFFF_FFF8, 3);
    EvenStep(CRC32, 0x7FF_FFFC, 2);
    EvenStep(CRC32, 0x3FF_FFFE, 1);
  }

  lemma SevenSteps16()
    ensures Steps(CRC16, Reg(0xFF80), 8) == Steps(CRC16, Reg(0x1FF), 1)
  {
    hide Steps;
    EvenStep(CRC16, 0xFF80, 7);
    EvenStep(CRC16, 0x7FC0, 6);
    EvenStep(CRC16, 0x3FE0, 5);
    EvenStep(CRC16, 0x1FF0, 4);
    EvenStep(CRC16, 0xFF8, 3);
    EvenStep(CRC16, 0x7FC, 2);
    EvenStep(CRC16, 0x3FE, 1);
  }

  lemma EvenStep(k: Kind, v: bv32, n: nat)
    requires v & 1 == 0
    ensures Steps(k, Reg(v), n + 1) == Steps(k, Reg(v >> 1), n)
  {
    hide Step;
    Halving(k, v);
  }

  lemma OneStep(k: Kind, r: Reg)
    ensures Steps(k, r, 1) == Step(k, r)
  {
    hide Step;
    assert Steps(k, Step(k, r), 0) == Step(k, r);
  }

  lemma Halving(k: Kind, v: bv32)
    requires v & 1 == 0
    ensures Step(k, Reg(v)) == Reg(v >> 1)
  {}

  lemma LastStep32()
    ensures Step(CRC32, Reg(0x1FF_FFFF)) == Reg(0xED47_7CDF)
  {}

  lemma LastStep16()
    ensures Step(CRC16, Reg(0x1FF)) == Reg(0xA0FE)
  {}

  // ---------- odd numbers of errors ----------

  /** Whether an odd number of the low `n` bits of a register is set. */
  predicate OddBits(r: Reg, n: nat)
    decreases n
  {
    if n == 0 then false else Odd(r) != OddBits(Half(r), n - 1)
  }

  lemma {:induction false} OddBitsLinear(a: Reg, b: Reg, n: nat)
    ensures OddBits(Add(a, b), n) == (OddBits(a, n) != OddBits(b, n))
    decreases n
  {
    hide Odd, Half, Add;
    if n > 0 {
      HalfLinear(a, b);
      OddBitsLinear(Half(a), Half(b), n - 1);
    }
  }

  lemma ShrInside(v: bv32, m: bv32)
    requires Inside(v, Longer(m))
    ensures Inside(Shr(v), m)
  {}

  lemma OddNowhere(v: bv32)
    requires Inside(v, 0)
    ensures !Low(v)
  {}

  /** Bits past the last one in use do not count. */
  lemma {:induction false} OddBitsStable(r: Reg, n: nat)
    requires Within(r, n)
    ensures OddBits(r, n + 1) == OddBits(r, n)
    decreases n
  {
    hide Inside, Longer, Shr, Low;
    if n == 0 {
      OddNowhere(r.v);
    } else {
      ShrInside(r.v, Ones(n - 1));
      OddBitsStable(Half(r), n - 1);
    }
  }

  predicate OddParity(r: Reg) {
    OddBits(r, 16)
  }

  lemma HalfParity(r: Reg)
    requires CRC16.Holds(r)
    ensures OddParity(Half(r)) == (OddParity(r) != Odd(r))
  {
    hide Inside, Longer, Shr, Low, Kind.Holds;
    HoldsWithin(r);
    ShrInside(r.v, Ones(15));
    OddBitsStable(Half(r), 15);
  }

  lemma HoldsWithin(r: Reg)
    requires CRC16.Holds(r)
    ensures Within(r, 16)
  {
    OnesValues();
  }

  lemma {:induction false} ZeroParity(n: nat)
    ensures !OddBits(ZERO, n)
    decreases n
  {
    if n > 0 { ZeroParity(n - 1); }
  }

  lemma OneParity(n: nat)
    requires n > 0
    ensures OddBits(Bit(true), n)
  {
    ZeroParity(n - 1);
  }

  lemma PolyParity()
    ensures OddParity(Reg(0xA001))
  {
    assert !OddBits(Reg(0x5), 3);
    assert !OddBits(Reg(0x14), 5);
    assert !OddBits(Reg(0x50), 7);
    assert !OddBits(Reg(0x140), 9);
    assert !OddBits(Reg(0x500), 11);
    assert !OddBits(Reg(0x1400), 13);
    assert !OddBits(Reg(0x5000), 15);
  }

  /** The 16-bit polynomial has an odd number of terms below the top one, so a step keeps the parity. */
  lemma StepParity(r: Reg)
    requires CRC16.Holds(r)
    ensures OddParity(Step(CRC16, r)) == OddParity(r)
  {
    hide Add, Half, Odd, OddBits, Kind.Holds;
    HalfParity(r);
    PolyParity();
    OddBitsLinear(Half(r), Reg(0xA001), 16);
  }

  lemma BitParity(r: Reg, b: bool)
    ensures OddParity(Add(r, Bit(b))) == (OddParity(r) != b)
  {
    hide Add, OddBits, Bit;
    OddBitsLinear(r, Bit(b), 16);
    BitFalse();
    ZeroParity(16);
    OneParity(16);
  }

  /** Whether an odd number of bits is set. */
  predicate OddOnes(s: seq<bool>) {
    if s == [] then false else s[0] != OddOnes(s[1..])
  }

  lemma {:induction false} FeedParity(r: Reg, s: seq<bool>)
    requires CRC16.Holds(r)
    ensures OddParity(Feed(CRC16, r, s)) == (OddParity(r) != OddOnes(s))
    decreases |s|
  {
    hide Step, Add, Bit, OddParity, Kind.Holds;
    if s != [] {
      AddHolds(CRC16, r, s[0]);
      StepKeeps(CRC16, Add(r, Bit(s[0])));
      BitParity(r, s[0]);
      StepParity(Add(r, Bit(s[0])));
      FeedParity(Step(CRC16, Add(r, Bit(s[0]))), s[1..]);
    }
  }

  lemma {:induction false} OddDiff(s: seq<bool>, t: seq<bool>)
    requires |s| == |t|
    ensures OddOnes(Diff(s, t)) == (OddOnes(s) != OddOnes(t))
    decreases |s|
  {
    if s != [] {
      assert Diff(s, t)[1..] == Diff(s[1..], t[1..]);
      OddDiff(s[1..], t[1..]);
    }
  }

  /** The 16-bit check value shows every odd number of flipped bits, at any length and wherever they are. */
  lemma OddErrorsDetected(s: seq<bv8>, t: seq<bv8>)
    requires |s| == |t| && OddOnes(Diff(Message(s), Message(t)))
    ensures Check(CRC16, s) != Check(CRC16, t)
  {
    hide Feed, OddParity, OddOnes, Diff, Message, Kind.Holds;
    var init := Reg(CRC16.Mask());
    MaskHolds(CRC16);
    FeedParity(init, Message(s));
    FeedParity(init, Message(t));
    OddDiff(Message(s), Message(t));
  }

  // ---------- the two functions ----------

  // the operations of the 16-bit loop
  predicate Low16(v: bv16) {
    v & 1 == 1
  }

  function Shr16(v: bv16): bv16 {
    v >> 1
  }

  function Xor16(v: bv16, w: bv16): bv16 {
    v ^ w
  }

  /** The 16-bit register among the 32-bit ones. */
  function Wide16(v: bv16): Reg {
    Reg(v as bv32)
  }

  lemma WidenStart()
    ensures Wide16(0xFFFF) == Reg(CRC16.Mask())
  {}

  lemma Narrow(v: bv16)
    ensures Wide16(v) == Reg(v as bv32)
  {}

  lemma Step16Narrow(v: bv16)
    ensures Step(CRC16, Wide16(v)) == Wide16(if Low16(v) then Xor16(Shr16(v), 0xA001) else Shr16(v))
  {}

  lemma Enter16(v: bv16, b: bv8)
    ensures Wide16(Xor16(v, b as bv16)) == Add(Wide16(v), Wide(b))
  {}

  lemma StepWide(v: bv32)
    ensures Step(CRC32, Reg(v)) == Reg(if Low(v) then Xor(Shr(v), 0xEDB8_8320) else Shr(v))
  {}

  lemma EnterWide(v: bv32, b: bv8)
    ensures Reg(Xor(v, b as bv32)) == Add(Reg(v), Wide(b))
  {}

  /** The first of the remaining bytes enters. */
  lemma FeedFirst(k: Kind, r: Reg, s: seq<bv8>)
    requires s != []
    ensures Feed(k, r, Message(s)) == Feed(k, Steps(k, Add(r, Wide(s[0])), 8), Message(s[1..]))
  {
    hide Feed, Steps, Bits;
    FeedByte(k, r, s[0]);
    FeedAppend(k, r, Bits(s[0]), Message(s[1..]));
  }

  lemma FeedNone(k: Kind, r: Reg)
    ensures Feed(k, r, Message([])) == r
  {}

  method Crc16(data: array<bv8>, length: int) returns (r: bv32)
    requires length <= data.Length
    ensures Reg(r) == Check(CRC16, data[..if length < 0 then 0 else length])
  {
    hide Step, Add, Feed, Message, Wide, Wide16, Low16, Shr16, Xor16;
    var crc: bv16 := 0xFFFF;
    ghost var all := data[..if length < 0 then 0 else length];
    assert all[0..] == all;
    WidenStart();
    var i := 0;
    while i < length
      invariant 0 <= i <= |all|
      invariant Feed(CRC16, Wide16(crc), Message(all[i..])) == Check(CRC16, all)
    {
      ghost var entered := Add(Wide16(crc), Wide(data[i]));
      FeedFirst(CRC16, Wide16(crc), all[i..]);
      assert all[i..][1..] == all[i + 1..];
      Enter16(crc, data[i]);
      crc := Xor16(crc, data[i] as bv16);
      var j := 0;
      while j < 8
        invariant 0 <= j <= 8
        invariant Steps(CRC16, Wide16(crc), 8 - j) == Steps(CRC16, entered, 8)
      {
        Step16Narrow(crc);
        var bit := Low16(crc);
        crc := Shr16(crc);
        if bit {
          crc := Xor16(crc, 0xA001);
        }
        j := j + 1;
      }
      i := i + 1;
    }
    assert all[i..] == [];
    FeedNone(CRC16, Wide16(crc));
    Narrow(crc);
    r := crc as bv32;
  }

  method Crc32(data: array<bv8>, length: int) returns (crc: bv32)
    requires length <= data.Length
    ensures Reg(crc) == Check(CRC32, data[..if length < 0 then 0 else length])
  {
    hide Step, Add, Feed, Message, Wide, Low, Shr, Xor;
    crc := 0xFFFF_FFFF;
    ghost var all := data[..if length < 0 then 0 else length];
    assert all[0..] == all;
    var i := 0;
    while i < length
      invariant 0 <= i <= |all|
      invariant Feed(CRC32, Reg(crc), Message(all[i..])) == Check(CRC32, all)
    {
      ghost var entered := Add(Reg(crc), Wide(data[i]));
      FeedFirst(CRC32, Reg(crc), all[i..]);
      assert all[i..][1..] == all[i + 1..];
      EnterWide(crc, data[i]);
      crc := Xor(crc, data[i] as bv32);
      var j := 0;
      while j < 8
        invariant 0 <= j <= 8
        invariant Steps(CRC32, Reg(crc), 8 - j) == Steps(CRC32, entered, 8)
      {
        StepWide(crc);
        var bit := Low(crc);
        crc := Shr(crc);
        if bit {
          crc := Xor(crc, 0xEDB8_8320);
        }
        j := j + 1;
      }
      i := i + 1;
    }
    assert all[i..] == [];
    FeedNone(CRC32, Reg(crc));
  }
}
