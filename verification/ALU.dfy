/** The H8 arithmetic instructions that set condition codes, and what chains of them and branches after them compute.
    A register value is its unsigned number. */
module ALU {
  import opened Bytes

  /** The condition code register, one field per bit. */
  datatype Flags = Flags(c: bool, v: bool, z: bool, n: bool, u: bool, h: bool, ui: bool, i: bool) {
    function Carry(): nat {
      if c then 1 else 0
    }
  }

  /** The operand sizes. */
  datatype Size = B | W | L {
    function Modulus(): (m: nat)
      ensures m > 0
    {
      match this
      case B => 0x100
      case W => 0x1_0000
      case L => 0x1_0000_0000
    }

    function SignBit(): nat {
      Modulus() / 2
    }

    /** A result stored in a register of this size. */
    function Wrap(x: int): (r: int)
      ensures 0 <= r < Modulus()
    {
      x % Modulus()
    }

    /** The part of a value below the half-carry bit. */
    function Low(x: int): (r: int)
      ensures 0 <= r < HalfModulus()
    {
      x % HalfModulus()
    }

    /** Where the half carry leaves. */
    function HalfModulus(): (k: nat)
      ensures k > 0
    {
      Modulus() / 16
    }
  }

  predicate Fits(x: int, modulus: nat) {
    0 <= x < modulus
  }

  /** A value read as a two's complement number. */
  function Signed(x: int, modulus: nat): int {
    if x >= modulus / 2 then x - modulus else x
  }

  /** A signed number that the size can hold. */
  predicate InRange(x: int, modulus: nat) {
    -(modulus / 2) <= x < modulus / 2
  }

  /** The sixteen branch conditions as relations of the two numbers compared, `x` with `y`. */
  predicate Related(condition: nat, x: int, y: int, modulus: nat)
    requires condition < 16
  {
    var sx, sy := Signed(x, modulus), Signed(y, modulus);
    match condition
    case 0 => true
    case 1 => false
    case 2 => x > y
    case 3 => x <= y
    case 4 => x >= y
    case 5 => x < y
    case 6 => x != y
    case 7 => x == y
    case 8 => InRange(sx - sy, modulus)
    case 9 => !InRange(sx - sy, modulus)
    case 10 => InRange(sx - sy, modulus) == (sx >= sy)
    case 11 => InRange(sx - sy, modulus) == (sx < sy)
    case 12 => sx >= sy
    case 13 => sx < sy
    case 14 => sx > sy
    case _ => sx <= sy
  }

  /** The condition a branch tests. */
  predicate Taken(condition: nat, f: Flags)
    requires condition < 16
  {
    match condition
    case 0 => true
    case 1 => false
    case 2 => !(f.c || f.z)
    case 3 => f.c || f.z
    case 4 => !f.c
    case 5 => f.c
    case 6 => !f.z
    case 7 => f.z
    case 8 => !f.v
    case 9 => f.v
    case 10 => !f.n
    case 11 => f.n
    case 12 => f.n == f.v
    case 13 => f.n != f.v
    case 14 => !(f.z || f.n != f.v)
    case _ => f.z || f.n != f.v
  }

  // ---------- what the instructions compute ----------

  /** The flags an addition leaves, in terms of the exact sum. */
  function SumFlags(f: Flags, a: int, b: int, c: nat, size: Size, zero: bool): Flags {
    var m := size.Modulus();
    f.(c := a + b + c >= m,
       v := !InRange(Signed(a, m) + Signed(b, m) + c, m),
       z := zero,
       n := size.Wrap(a + b + c) >= size.SignBit(),
       h := size.Low(a) + size.Low(b) + c >= size.HalfModulus())
  }

  /** The flags a subtraction of `a` from `b` leaves, in terms of the exact difference. */
  function DifferenceFlags(f: Flags, a: int, b: int, c: nat, size: Size, zero: bool): Flags {
    var m := size.Modulus();
    f.(c := b - a - c < 0,
       v := !InRange(Signed(b, m) - Signed(a, m) - c, m),
       z := zero,
       n := size.Wrap(b - a - c) >= size.SignBit(),
       h := size.Low(b) - size.Low(a) - c < 0)
  }

  /** A byte plus a constant, wrapped. */
  function Plus(val: byte, d: int): byte {
    (val + d) % 0x100
  }

  function LowDigit(val: byte): (d: nat)
    ensures d < 16
  {
    val % 16
  }

  /** The byte DAA leaves for a sum, and its carry. */
  function Adjusted(val: byte, f: Flags): (r: (byte, bool)) {
    var carry := f.c || val > 0x99;
    var high := if carry then Plus(val, 0x60) else val;
    (if f.h || LowDigit(high) > 9 then Plus(high, 6) else high, carry)
  }

  /** The byte DAS leaves for a difference. */
  function Reduced(val: byte, f: Flags): byte {
    var high := if f.c then Plus(val, -0x60) else val;
    if f.h then Plus(high, -6) else high
  }

  function ValueFlags(f: Flags, val: int, size: Size): Flags {
    f.(z := val == 0, n := val >= size.SignBit())
  }

  class H8CPU {
    var ccr: Flags
    var pc: bv32

    constructor ()
      ensures ccr == Flags(false, false, false, false, false, false, false, false) && pc == 0
    {
      ccr := Flags(false, false, false, false, false, false, false, false);
      pc := 0;
    }

    method UpdateFlags(val: int, size: Size)
      modifies this`ccr
      ensures ccr == ValueFlags(old(ccr), val, size)
    {
      ccr := ccr.(z := false, n := false);
      if val == 0 {
        ccr := ccr.(z := true);
      }
      if val >= size.SignBit() {
        ccr := ccr.(n := true);
      }
    }

    /** The new value of the register `b`. */
    method DoADD(a: int, b: int, size: Size) returns (res: int)
      requires Fits(a, size.Modulus()) && Fits(b, size.Modulus())
      modifies this`ccr
      ensures res == size.Wrap(a + b)
      ensures ccr == SumFlags(old(ccr), a, b, 0, size, res == 0)
    {
      hide Size.Modulus, Size.SignBit, Size.HalfModulus, Size.Wrap, Size.Low, SumFlags;
      ghost var f := ccr;
      var sign := size.SignBit();
      res := size.Wrap(a + b);
      UpdateFlags(res, size);
      ccr := ccr.(
        c := res < b, v := (a >= sign) == (b >= sign) && (b >= sign) != (res >= sign),
        h := size.Low(res) < size.Low(b));
      SumFacts(f, a, b, 0, size, res == 0);
    }

    method DoADDX(a: byte, b: byte) returns (res: byte)
      modifies this`ccr
      ensures res == B.Wrap(a + b + old(ccr).Carry())
      ensures ccr == SumFlags(old(ccr), a, b, old(ccr).Carry(), B, false)
    {
      hide Size.Modulus, Size.SignBit, Size.HalfModulus, Size.Wrap, Size.Low, SumFlags;
      ByteModulus();
      ghost var f := ccr;
      var sign := B.SignBit();
      var c := if ccr.c then 1 else 0;
      res := B.Wrap(a + b + c);
      ccr := ccr.(
        z := false, n := res >= sign, c := res < b + c,
        v := (a >= sign) == (b >= sign) && (b >= sign) != (res >= sign), h := B.Low(res) < B.Low(b) + c);
      SumFacts(f, a, b, c, B, false);
    }

    method DoSUB(a: int, b: int, size: Size) returns (res: int)
      requires Fits(a, size.Modulus()) && Fits(b, size.Modulus())
      modifies this`ccr
      ensures res == size.Wrap(b - a)
      ensures ccr == DifferenceFlags(old(ccr), a, b, 0, size, res == 0)
    {
      hide Size.Modulus, Size.SignBit, Size.HalfModulus, Size.Wrap, Size.Low, DifferenceFlags;
      ghost var f := ccr;
      var sign := size.SignBit();
      res := size.Wrap(b - a);
      UpdateFlags(res, size);
      ccr := ccr.(
        c := res > b, v := (a >= sign) != (b >= sign) && (b >= sign) != (res >= sign),
        h := size.Low(res) > size.Low(b));
      DifferenceFacts(f, a, b, 0, size, res == 0);
    }

    method DoSUBX(a: byte, b: byte) returns (res: byte)
      modifies this`ccr
      ensures res == B.Wrap(b - a - old(ccr).Carry())
      ensures ccr == DifferenceFlags(old(ccr), a, b, old(ccr).Carry(), B, false)
    {
      hide Size.Modulus, Size.SignBit, Size.HalfModulus, Size.Wrap, Size.Low, DifferenceFlags;
      ByteModulus();
      ghost var f := ccr;
      var sign := B.SignBit();
      var c := if ccr.c then 1 else 0;
      res := B.Wrap(b - a - c);
      ccr := ccr.(
        z := false, n := res >= sign, c := res > b - c,
        v := (a >= sign) != (b >= sign) && (b >= sign) != (res >= sign), h := B.Low(res) > B.Low(b) - c);
      DifferenceFacts(f, a, b, c, B, false);
    }

    /** Compares without storing; afterwards every branch is taken exactly on the relation it is named for. */
    method DoCMP(a: int, b: int, size: Size)
      requires Fits(a, size.Modulus()) && Fits(b, size.Modulus())
      modifies this`ccr
      ensures ccr == DifferenceFlags(old(ccr), a, b, 0, size, a == b)
      ensures forall condition: nat :: condition < 16 ==>
        (Taken(condition, ccr) <==> Related(condition, b, a, size.Modulus()))
    {
      hide Size.Modulus, Size.Wrap, Related, Taken, DifferenceFlags;
      ghost var before := ccr;
      var copy := DoSUB(a, b, size);
      ZeroDifference(a, b, size);
      forall condition: nat | condition < 16
        ensures Taken(condition, ccr) <==> Related(condition, b, a, size.Modulus())
      {
        CompareDecides(before, a, b, size, condition);
      }
    }

    method DAA(reg: byte) returns (val: byte)
      modifies this`ccr
      ensures val == Adjusted(reg, old(ccr)).0
      ensures ccr == ValueFlags(old(ccr).(c := Adjusted(reg, old(ccr)).1), val, B)
    {
      hide Plus, LowDigit, ValueFlags;
      val := reg;
      if ccr.c || val > 0x99 {
        val := Plus(val, 0x60);
        ccr := ccr.(c := true);
      }
      if ccr.h || LowDigit(val) > 9 {
        val := Plus(val, 6);
      }
      UpdateFlags(val, B);
    }

    method DAS(reg: byte) returns (val: byte)
      modifies this`ccr
      ensures val == Reduced(reg, old(ccr))
      ensures ccr == ValueFlags(old(ccr), val, B)
    {
      hide Plus, ValueFlags;
      val := reg;
      if ccr.c {
        val := Plus(val, -0x60);
      }
      if ccr.h {
        val := Plus(val, -6);
      }
      UpdateFlags(val, B);
    }

    method HandleBranch(conditionCode: nat, offset: bv32)
      requires conditionCode < 16
      modifies this`pc
      ensures pc == if Taken(conditionCode, ccr) then old(pc) + offset else old(pc)
    {
      var condition;
      match conditionCode {
        case 0 => condition := true;
        case 1 => condition := false;
        case 2 => condition := !(ccr.c || ccr.z);
        case 3 => condition := ccr.c || ccr.z;
        case 4 => condition := !ccr.c;
        case 5 => condition := ccr.c;
        case 6 => condition := !ccr.z;
        case 7 => condition := ccr.z;
        case 8 => condition := !ccr.v;
        case 9 => condition := ccr.v;
        case 10 => condition := !ccr.n;
        case 11 => condition := ccr.n;
        case 12 => condition := (!ccr.n != !ccr.v) == false;
        case 13 => condition := !ccr.n != !ccr.v;
        case 14 =>
          var nXorV := !ccr.n != !ccr.v;
          condition := (ccr.z || nXorV) == false;
        case _ =>
          var nXorV := !ccr.n != !ccr.v;
          condition := ccr.z || nXorV;
      }
      if condition {
        pc := pc + offset;
      }
    }
  }

  // ---------- the flag formulas ----------

  lemma WrapOnce(s: int, size: Size)
    requires 0 <= s + size.Modulus() && s < 2 * size.Modulus()
    ensures size.Wrap(s) ==
      if s < 0 then s + size.Modulus() else if s < size.Modulus() then s else s - size.Modulus()
  {
    match size {
      case B =>
      case W =>
      case L =>
    }
  }

  lemma SumOverflow(a: int, b: int, c: nat, res: int, h: nat)
    requires 0 <= a < 2 * h && 0 <= b < 2 * h && c <= 1
    requires res == if a + b + c < 2 * h then a + b + c else a + b + c - 2 * h
    ensures ((a >= h) == (b >= h) && (b >= h) != (res >= h)) <==>
      !InRange(Signed(a, 2 * h) + Signed(b, 2 * h) + c, 2 * h)
  {}

  lemma DifferenceOverflow(a: int, b: int, c: nat, res: int, h: nat)
    requires 0 <= a < 2 * h && 0 <= b < 2 * h && c <= 1
    requires res == if b - a - c < 0 then b - a - c + 2 * h else b - a - c
    ensures ((a >= h) != (b >= h) && (b >= h) != (res >= h)) <==>
      !InRange(Signed(b, 2 * h) - Signed(a, 2 * h) - c, 2 * h)
  {}

  lemma ByteModulus()
    ensures B.Modulus() == 0x100
  {}

  lemma Parts(size: Size)
    ensures size.Modulus() == 16 * size.HalfModulus() == 2 * size.SignBit()
  {}

  lemma SmallMultiple(z: int, k: int)
    requires 0 - k < z * k < k
    ensures z == 0
  {}

  lemma SameRemainder(x: int, q: int, k: int)
    requires k > 0
    ensures (x + q * k) % k == x % k
  {
    var z := (x + q * k) / k - x / k - q;
    assert z * k == x % k - (x + q * k) % k;
    SmallMultiple(z, k);
  }

  /** Numbers a multiple of the half-carry weight apart have the same low part. */
  lemma LowShift(x: int, q: int, size: Size)
    ensures size.Low(x + q * size.HalfModulus()) == size.Low(x)
  {
    hide Size.HalfModulus;
    SameRemainder(x, q, size.HalfModulus());
  }

  lemma LowSmall(x: int, size: Size)
    requires 0 <= x + size.HalfModulus() && x < 2 * size.HalfModulus()
    ensures size.Low(x) ==
      if x < 0 then x + size.HalfModulus() else if x < size.HalfModulus() then x else x - size.HalfModulus()
  {
    hide Size.HalfModulus;
    var k: int := size.HalfModulus();
    var q: int := if x < 0 then -1 else if x < k then 0 else 1;
    SameRemainder(x - q * k, q, k);
    OwnRemainder(x - q * k, k);
  }

  lemma OwnRemainder(r: int, k: int)
    requires 0 <= r < k
    ensures r % k == r
  {}

  /** A number is its low part and a multiple of the weight. */
  lemma LowSplit(x: int, size: Size) returns (q: int)
    ensures x == size.Low(x) + q * size.HalfModulus()
  {
    q := x / size.HalfModulus();
  }

  lemma LowSum(a: int, b: int, c: nat, s: int, w: int, size: Size)
    requires s == a + b + c + w * size.HalfModulus() && c <= 1
    ensures size.Low(s) < size.Low(b) + c <==> size.Low(a) + size.Low(b) + c >= size.HalfModulus()
  {
    hide Size.HalfModulus, Size.Low;
    var p := LowSplit(a, size);
    var q := LowSplit(b, size);
    var t := size.Low(a) + size.Low(b) + c;
    Distribute(p, q, w, size.HalfModulus());
    LowShift(t, p + q + w, size);
    LowSmall(t, size);
  }

  lemma LowDifference(a: int, b: int, c: nat, s: int, w: int, size: Size)
    requires s == b - a - c + w * size.HalfModulus() && c <= 1
    ensures size.Low(s) > size.Low(b) - c <==> size.Low(b) - size.Low(a) - c < 0
  {
    hide Size.HalfModulus, Size.Low;
    var p := LowSplit(a, size);
    var q := LowSplit(b, size);
    var t := size.Low(b) - size.Low(a) - c;
    Distribute(-p, q, w, size.HalfModulus());
    LowShift(t, q - p + w, size);
    LowSmall(t, size);
  }

  lemma Distribute(p: int, q: int, w: int, k: int)
    ensures (p + q + w) * k == p * k + q * k + w * k && (q + p + w) * k == (p + q + w) * k && (-p) * k == -(p * k)
  {}

  /** The flags the tests of an addition set are those of the exact sum. */
  lemma SumFacts(f: Flags, a: int, b: int, c: nat, size: Size, zero: bool)
    requires Fits(a, size.Modulus()) && Fits(b, size.Modulus()) && c <= 1
    ensures var res, sign := size.Wrap(a + b + c), size.SignBit();
      SumFlags(f, a, b, c, size, zero) == f.(
        c := res < b + c, v := (a >= sign) == (b >= sign) && (b >= sign) != (res >= sign), z := zero, n := res >= sign,
        h := size.Low(res) < size.Low(b) + c)
  {
    hide Size.Modulus, Size.SignBit, Size.HalfModulus, Size.Wrap, Size.Low, Signed, InRange;
    var res := size.Wrap(a + b + c);
    Parts(size);
    WrapOnce(a + b + c, size);
    SumOverflow(a, b, c, res, size.SignBit());
    LowSum(a, b, c, res, if res == a + b + c then 0 else -16, size);
  }

  /** The flags the tests of a subtraction set are those of the exact difference. */
  lemma DifferenceFacts(f: Flags, a: int, b: int, c: nat, size: Size, zero: bool)
    requires Fits(a, size.Modulus()) && Fits(b, size.Modulus()) && c <= 1
    ensures var res, sign := size.Wrap(b - a - c), size.SignBit();
      DifferenceFlags(f, a, b, c, size, zero) == f.(
        c := res > b - c, v := (a >= sign) != (b >= sign) && (b >= sign) != (res >= sign), z := zero, n := res >= sign,
        h := size.Low(res) > size.Low(b) - c)
  {
    hide Size.Modulus, Size.SignBit, Size.HalfModulus, Size.Wrap, Size.Low, Signed, InRange;
    var res := size.Wrap(b - a - c);
    Parts(size);
    WrapOnce(b - a - c, size);
    DifferenceOverflow(a, b, c, res, size.SignBit());
    LowDifference(a, b, c, res, if res == b - a - c then 0 else 16, size);
  }

  // ---------- comparing and branching ----------

  lemma ZeroDifference(a: int, b: int, size: Size)
    requires Fits(a, size.Modulus()) && Fits(b, size.Modulus())
    ensures size.Wrap(b - a) == 0 <==> a == b
  {
    hide Size.Modulus, Size.Wrap;
    WrapOnce(b - a, size);
  }

  /** The sign of a wrapped difference is its true sign unless the difference overflowed. */
  lemma WrappedSign(x: int, y: int, h: nat)
    requires 0 <= x < 2 * h && 0 <= y < 2 * h
    ensures ((if x < y then x - y + 2 * h else x - y) >= h)
      <==> (InRange(Signed(x, 2 * h) - Signed(y, 2 * h), 2 * h) == (Signed(x, 2 * h) < Signed(y, 2 * h)))
  {}

  /** The conditions that look at the zero flag: BHI, BLS, BNE, BEQ, BGT and BLE. */
  predicate UsesZero(condition: nat) {
    condition == 2 || condition == 3 || condition == 6 || condition == 7 || condition == 14 || condition == 15
  }

  /** Flags that tell the order of `x` and `y`, apart from the zero flag. */
  predicate Orders(f: Flags, x: int, y: int, h: nat) {
    && (f.c <==> x < y)
    && (f.v <==> !InRange(Signed(x, 2 * h) - Signed(y, 2 * h), 2 * h))
    && (f.n <==> (if x < y then x - y + 2 * h else x - y) >= h)
  }

  /** What the branches test of any flags, among themselves: each one is the opposite of its neighbour, and those that
      combine flags are taken exactly when one of two simpler ones is. */
  lemma BranchesCombine(f: Flags, condition: nat)
    requires condition < 16
    ensures Taken(condition, f) <==> !Taken(if condition % 2 == 0 then condition + 1 else condition - 1, f)
    ensures Taken(3, f) <==> Taken(5, f) || Taken(7, f)
    ensures Taken(15, f) <==> Taken(7, f) || Taken(13, f)
    ensures Taken(13, f) <==> Taken(11, f) != Taken(9, f)
    ensures (Taken(0, f) && !Taken(1, f)) && Taken(5, f) == f.c && Taken(7, f) == f.z && Taken(9, f) == f.v &&
      Taken(11, f) == f.n
  {}

  /** With such flags every branch decides its relation, except where a zero flag that is clear for equal numbers is
      looked at. */
  lemma BranchDecides(f: Flags, x: int, y: int, h: nat, condition: nat)
    requires 0 <= x < 2 * h && 0 <= y < 2 * h && condition < 16 && Orders(f, x, y, h) && (f.z ==> x == y)
    ensures (Taken(condition, f) <==> Related(condition, x, y, 2 * h))
      <==> !(UsesZero(condition) && x == y && !f.z)
  {
    hide InRange;
    WrappedSign(x, y, h);
    SignedOrder(x, y, h);
  }

  lemma SignedOrder(x: int, y: int, h: nat)
    requires 0 <= x < 2 * h && 0 <= y < 2 * h
    ensures Signed(x, 2 * h) == Signed(y, 2 * h) <==> x == y
    ensures x == y ==> InRange(Signed(x, 2 * h) - Signed(y, 2 * h), 2 * h)
  {}

  /** After a comparison the sixteen branches decide the sixteen relations, unsigned and signed, at every size. */
  lemma CompareDecides(f: Flags, a: int, b: int, size: Size, condition: nat)
    requires Fits(a, size.Modulus()) && Fits(b, size.Modulus()) && condition < 16
    ensures Taken(condition, DifferenceFlags(f, a, b, 0, size, a == b)) <==> Related(condition, b, a, size.Modulus())
  {
    hide Size.Modulus, Size.SignBit, Size.HalfModulus, Size.Wrap, Size.Low, InRange, Signed, Taken, Related;
    Parts(size);
    WrapOnce(b - a, size);
    BranchDecides(DifferenceFlags(f, a, b, 0, size, a == b), b, a, size.SignBit(), condition);
  }

  // ---------- multi-byte numbers ----------

  /** The number a row of bytes stands for, the lowest byte first. */
  function Number(s: seq<byte>): nat {
    if s == [] then 0 else s[0] + 0x100 * Number(s[1..])
  }

  /** Half the number of values of `n` bytes. */
  function Half(n: nat): nat
    requires n > 0
  {
    if n == 1 then 0x80 else 0x100 * Half(n - 1)
  }

  lemma {:induction false} NumberBound(s: seq<byte>)
    requires s != []
    ensures Number(s) < 2 * Half(|s|)
  {
    if |s| > 1 {
      NumberBound(s[1..]);
    }
  }

  /** The bytes a chain of instructions leaves, and the flags after the last one. */
  datatype Run = Run(bytes: seq<byte>, flags: Flags)

  /** ADDX on each pair of bytes in turn, from the lowest. */
  function AddChain(f: Flags, a: seq<byte>, b: seq<byte>): Run
    requires |a| == |b|
    decreases |a|
  {
    if a == [] then Run([], f) else
      var rest := AddChain(SumFlags(f, a[0], b[0], f.Carry(), B, false), a[1..], b[1..]);
      Run([B.Wrap(a[0] + b[0] + f.Carry())] + rest.bytes, rest.flags)
  }

  /** SUBX of each byte of `a` from that of `b`, from the lowest. */
  function SubChain(f: Flags, a: seq<byte>, b: seq<byte>): Run
    requires |a| == |b|
    decreases |a|
  {
    if a == [] then Run([], f) else
      var rest := SubChain(DifferenceFlags(f, a[0], b[0], f.Carry(), B, false), a[1..], b[1..]);
      Run([B.Wrap(b[0] - a[0] - f.Carry())] + rest.bytes, rest.flags)
  }

  lemma SumCarries(f: Flags, a: byte, b: byte, z: bool)
    ensures B.Wrap(a + b + f.Carry()) + 0x100 * SumFlags(f, a, b, f.Carry(), B, z).Carry() == a + b + f.Carry()
  {
    hide Size.Wrap, Size.Low, Signed, InRange;
    WrapOnce(a + b + f.Carry(), B);
  }

  lemma DifferenceBorrows(f: Flags, a: byte, b: byte, z: bool)
    ensures B.Wrap(b - a - f.Carry()) - 0x100 * DifferenceFlags(f, a, b, f.Carry(), B, z).Carry() == b - a - f.Carry()
  {
    hide Size.Wrap, Size.Low, Signed, InRange;
    WrapOnce(b - a - f.Carry(), B);
  }

  lemma SignedGrows(x: byte, y: int, h: nat)
    requires 0 <= y < 2 * h
    ensures Signed(x + 0x100 * y, 2 * (0x100 * h)) == x + 0x100 * Signed(y, 2 * h)
  {}

  lemma RangeGrows(x: byte, y: int, h: nat)
    ensures InRange(x + 0x100 * y, 2 * (0x100 * h)) <==> InRange(y, 2 * h)
  {}

  lemma NumberUnfolds(s: seq<byte>)
    requires |s| > 1
    ensures Number(s) == s[0] + 0x100 * Number(s[1..]) && Half(|s|) == 0x100 * Half(|s| - 1)
    ensures Number(s[1..]) < 2 * Half(|s| - 1)
  {
    NumberBound(s[1..]);
  }

  /** The result of adding, over whole numbers. */
  predicate Sums(r: Run, x: int, y: int, c: nat, h: nat) {
    && Number(r.bytes) + (if r.flags.c then 2 * h else 0) == x + y + c
    && (r.flags.n <==> Number(r.bytes) >= h)
    && (r.flags.v <==> !InRange(Signed(x, 2 * h) + Signed(y, 2 * h) + c, 2 * h))
    && !r.flags.z
  }

  /** A chain of ADDX adds the whole numbers: the bytes and the final carry are the exact sum, the sign flag is the
      sign of the stored number, and the overflow flag says whether the signed sum fits. */
  lemma {:induction false} AddChainAdds(f: Flags, a: seq<byte>, b: seq<byte>)
    requires |a| == |b| && a != []
    ensures |AddChain(f, a, b).bytes| == |a|
    ensures Sums(AddChain(f, a, b), Number(a), Number(b), f.Carry(), Half(|a|))
    decreases |a|
  {
    hide SumFlags, Sums;
    var f' := SumFlags(f, a[0], b[0], f.Carry(), B, false);
    if |a| == 1 {
      assert a == [a[0]] && b == [b[0]];
      assert AddChain(f', a[1..], b[1..]) == Run([], f');
      OneByteSum(f, a[0], b[0], AddChain(f, a, b));
    } else {
      AddChainAdds(f', a[1..], b[1..]);
      NumberUnfolds(a);
      NumberUnfolds(b);
      SumGrows(f, a[0], b[0], AddChain(f, a, b), Number(a[1..]), Number(b[1..]), Half(|a| - 1));
    }
  }

  lemma OneByteSum(f: Flags, a: byte, b: byte, r: Run)
    requires r == Run([B.Wrap(a + b + f.Carry())], SumFlags(f, a, b, f.Carry(), B, false))
    ensures Sums(r, a, b, f.Carry(), 0x80)
  {
    hide Signed, InRange;
    SumCarries(f, a, b, false);
    assert Number(r.bytes) == r.bytes[0];
  }

  lemma SumGrows(f: Flags, a: byte, b: byte, r: Run, x: int, y: int, h: nat)
    requires r.bytes != [] && r.bytes[0] == B.Wrap(a + b + f.Carry())
    requires 0 <= x < 2 * h && 0 <= y < 2 * h
    requires Sums(Run(r.bytes[1..], r.flags), x, y, SumFlags(f, a, b, f.Carry(), B, false).Carry(), h)
    ensures Sums(r, a + 0x100 * x, b + 0x100 * y, f.Carry(), 0x100 * h)
  {
    hide SumFlags, Signed, InRange;
    var c := SumFlags(f, a, b, f.Carry(), B, false).Carry();
    SumCarries(f, a, b, false);
    SignedGrows(a, x, h);
    SignedGrows(b, y, h);
    RangeGrows(r.bytes[0], Signed(x, 2 * h) + Signed(y, 2 * h) + c, h);
  }

  /** The result of subtracting `x` from `y`, over whole numbers. */
  predicate Differs(r: Run, x: int, y: int, c: nat, h: nat) {
    && Number(r.bytes) - (if r.flags.c then 2 * h else 0) == y - x - c
    && (r.flags.n <==> Number(r.bytes) >= h)
    && (r.flags.v <==> !InRange(Signed(y, 2 * h) - Signed(x, 2 * h) - c, 2 * h))
    && !r.flags.z
  }

  /** A chain of SUBX subtracts the whole numbers: the final carry is the borrow, and sign and overflow are those of
      the difference of the whole numbers. The zero flag is clear even when the difference is 0. */
  lemma {:induction false} SubChainSubtracts(f: Flags, a: seq<byte>, b: seq<byte>)
    requires |a| == |b| && a != []
    ensures |SubChain(f, a, b).bytes| == |a|
    ensures Differs(SubChain(f, a, b), Number(a), Number(b), f.Carry(), Half(|a|))
    decreases |a|
  {
    hide DifferenceFlags, Differs;
    var f' := DifferenceFlags(f, a[0], b[0], f.Carry(), B, false);
    if |a| == 1 {
      assert a == [a[0]] && b == [b[0]];
      assert SubChain(f', a[1..], b[1..]) == Run([], f');
      OneByteDifference(f, a[0], b[0], SubChain(f, a, b));
    } else {
      SubChainSubtracts(f', a[1..], b[1..]);
      NumberUnfolds(a);
      NumberUnfolds(b);
      DifferenceGrows(f, a[0], b[0], SubChain(f, a, b), Number(a[1..]), Number(b[1..]), Half(|a| - 1));
    }
  }

  lemma OneByteDifference(f: Flags, a: byte, b: byte, r: Run)
    requires r == Run([B.Wrap(b - a - f.Carry())], DifferenceFlags(f, a, b, f.Carry(), B, false))
    ensures Differs(r, a, b, f.Carry(), 0x80)
  {
    hide Signed, InRange;
    DifferenceBorrows(f, a, b, false);
    assert Number(r.bytes) == r.bytes[0];
  }

  lemma DifferenceGrows(f: Flags, a: byte, b: byte, r: Run, x: int, y: int, h: nat)
    requires r.bytes != [] && r.bytes[0] == B.Wrap(b - a - f.Carry())
    requires 0 <= x < 2 * h && 0 <= y < 2 * h
    requires Differs(Run(r.bytes[1..], r.flags), x, y, DifferenceFlags(f, a, b, f.Carry(), B, false).Carry(), h)
    ensures Differs(r, a + 0x100 * x, b + 0x100 * y, f.Carry(), 0x100 * h)
  {
    hide DifferenceFlags, Signed, InRange;
    var c := DifferenceFlags(f, a, b, f.Carry(), B, false).Carry();
    DifferenceBorrows(f, a, b, false);
    SignedGrows(a, x, h);
    SignedGrows(b, y, h);
    RangeGrows(r.bytes[0], Signed(y, 2 * h) - Signed(x, 2 * h) - c, h);
  }

  /** The bytes of an operand of each size. */
  function ByteCount(size: Size): (n: nat)
    ensures n > 0
  {
    match size
    case B => 1
    case W => 2
    case L => 4
  }

  /** An addition at any size is the chain of ADDX over the bytes of its operands: the same number, C, V and N. */
  lemma SumInBytes(f: Flags, a: seq<byte>, b: seq<byte>, size: Size, zero: bool)
    requires |a| == |b| == ByteCount(size)
    ensures Fits(Number(a), size.Modulus()) && Fits(Number(b), size.Modulus())
    ensures var r, s := AddChain(f.(c := false), a, b), SumFlags(f, Number(a), Number(b), 0, size, zero);
      Number(r.bytes) == size.Wrap(Number(a) + Number(b)) &&
      s.c == r.flags.c && s.v == r.flags.v && s.n == r.flags.n
  {
    hide AddChain, Number, InRange, Signed, Size.Modulus, Size.Low, Size.Wrap, SumFlags, Sums;
    var r := AddChain(f.(c := false), a, b);
    AddChainAdds(f.(c := false), a, b);
    NumberBound(a);
    NumberBound(b);
    assert |r.bytes| == |a|;
    NumberBound(r.bytes);
    SizeInBytes(size);
    SumAlike(f, r, Number(a), Number(b), size, zero);
  }

  lemma SumAlike(f: Flags, r: Run, x: nat, y: nat, size: Size, zero: bool)
    requires x < size.Modulus() && y < size.Modulus() && Number(r.bytes) < size.Modulus()
    requires Sums(r, x, y, 0, size.SignBit()) && size.Modulus() == 2 * size.SignBit()
    ensures var s := SumFlags(f, x, y, 0, size, zero);
      Number(r.bytes) == size.Wrap(x + y) && s.c == r.flags.c && s.v == r.flags.v && s.n == r.flags.n
  {
    hide Number, InRange, Signed, Size.Modulus, Size.Low, Size.Wrap;
    WrapOnce(x + y, size);
  }

  /** A subtraction or comparison likewise is the chain of SUBX. */
  lemma DifferenceInBytes(f: Flags, a: seq<byte>, b: seq<byte>, size: Size, zero: bool)
    requires |a| == |b| == ByteCount(size)
    ensures Fits(Number(a), size.Modulus()) && Fits(Number(b), size.Modulus())
    ensures var r, s := SubChain(f.(c := false), a, b), DifferenceFlags(f, Number(a), Number(b), 0, size, zero);
      Number(r.bytes) == size.Wrap(Number(b) - Number(a)) &&
      s.c == r.flags.c && s.v == r.flags.v && s.n == r.flags.n
  {
    hide SubChain, Number, InRange, Signed, Size.Modulus, Size.Low, Size.Wrap, DifferenceFlags, Differs;
    var r := SubChain(f.(c := false), a, b);
    SubChainSubtracts(f.(c := false), a, b);
    NumberBound(a);
    NumberBound(b);
    assert |r.bytes| == |a|;
    NumberBound(r.bytes);
    SizeInBytes(size);
    DifferenceAlike(f, r, Number(a), Number(b), size, zero);
  }

  lemma DifferenceAlike(f: Flags, r: Run, x: nat, y: nat, size: Size, zero: bool)
    requires x < size.Modulus() && y < size.Modulus() && Number(r.bytes) < size.Modulus()
    requires Differs(r, x, y, 0, size.SignBit()) && size.Modulus() == 2 * size.SignBit()
    ensures var s := DifferenceFlags(f, x, y, 0, size, zero);
      Number(r.bytes) == size.Wrap(y - x) && s.c == r.flags.c && s.v == r.flags.v && s.n == r.flags.n
  {
    hide Number, InRange, Signed, Size.Modulus, Size.Low, Size.Wrap;
    WrapOnce(y - x, size);
  }

  lemma SizeInBytes(size: Size)
    ensures size.Modulus() == 2 * Half(ByteCount(size)) && size.SignBit() == Half(ByteCount(size))
  {
    assert Half(1) == 0x80 && Half(2) == 0x8000;
    assert Half(3) == 0x80_0000;
    assert Half(4) == 0x8000_0000;
  }

  /** After a chain of SUBX a branch decides the relation of the two whole numbers exactly when it does not look at the
      zero flag or the numbers differ. */
  lemma BranchAfterChain(f: Flags, a: seq<byte>, b: seq<byte>, condition: nat)
    requires |a| == |b| && a != [] && !f.c && condition < 16
    ensures (Taken(condition, SubChain(f, a, b).flags) <==> Related(condition, Number(b), Number(a), 2 * Half(|a|)))
      <==> !(UsesZero(condition) && Number(a) == Number(b))
  {
    hide SubChain, Number, Half, InRange, Signed, Taken, Related;
    var h, r := Half(|a|), SubChain(f, a, b);
    SubChainSubtracts(f, a, b);
    NumberBound(a);
    NumberBound(b);
    assert |r.bytes| == |a|;
    NumberBound(r.bytes);
    BranchDecides(r.flags, Number(b), Number(a), h, condition);
  }

  // ---------- decimal numbers ----------

  /** A byte holding two decimal digits. */
  predicate Packed(x: byte) {
    x / 16 <= 9 && x % 16 <= 9
  }

  function Digits(x: byte): nat {
    10 * (x / 16) + x % 16
  }

  function Decimal(s: seq<byte>): nat {
    if s == [] then 0 else Digits(s[0]) + 100 * Decimal(s[1..])
  }

  /** How many numbers `n` bytes of decimal digits hold. */
  function Hundreds(n: nat): nat {
    if n == 0 then 1 else 100 * Hundreds(n - 1)
  }

  predicate AllPacked(s: seq<byte>) {
    forall x :: x in s ==> Packed(x)
  }

  /** ADDX then DAA on one pair of bytes. */
  function DecimalSum(f: Flags, a: byte, b: byte): (byte, Flags) {
    var sum, f' := B.Wrap(a + b + f.Carry()), SumFlags(f, a, b, f.Carry(), B, false);
    var (val, c) := Adjusted(sum, f');
    (val, ValueFlags(f'.(c := c), val, B))
  }

  /** SUBX then DAS on one pair of bytes. */
  function DecimalDifference(f: Flags, a: byte, b: byte): (byte, Flags) {
    var difference, f' := B.Wrap(b - a - f.Carry()), DifferenceFlags(f, a, b, f.Carry(), B, false);
    var val := Reduced(difference, f');
    (val, ValueFlags(f', val, B))
  }

  function DecimalAddChain(f: Flags, a: seq<byte>, b: seq<byte>): Run
    requires |a| == |b|
    decreases |a|
  {
    if a == [] then Run([], f) else
      var (val, f') := DecimalSum(f, a[0], b[0]);
      var rest := DecimalAddChain(f', a[1..], b[1..]);
      Run([val] + rest.bytes, rest.flags)
  }

  function DecimalSubChain(f: Flags, a: seq<byte>, b: seq<byte>): Run
    requires |a| == |b|
    decreases |a|
  {
    if a == [] then Run([], f) else
      var (val, f') := DecimalDifference(f, a[0], b[0]);
      var rest := DecimalSubChain(f', a[1..], b[1..]);
      Run([val] + rest.bytes, rest.flags)
  }

  lemma DigitsOf(x: byte, high: nat, low: nat)
    requires x == 16 * high + low && high <= 9 && low <= 9
    ensures Packed(x) && Digits(x) == 10 * high + low
  {}

  /** DAA carries 10 from the low digit sum into the high one, and 10 from that into the carry. */
  lemma AdjustedPair(high: nat, low: nat, sum: byte, f: Flags)
    requires high <= 18 && low <= 19
    requires sum == if 16 * high + low >= 0x100 then 16 * high + low - 0x100 else 16 * high + low
    requires f.c == (16 * high + low >= 0x100) && f.h == (low >= 16)
    ensures var k := if low > 9 then 1 else 0; var c := if high + k > 9 then 1 else 0;
      Adjusted(sum, f) == (16 * (high + k - 10 * c) + (low - 10 * k), c == 1)
  {
    hide Plus, LowDigit;
    var k := if low > 9 then 1 else 0;
    var c := if high + k > 9 then 1 else 0;
    PlusOnce(sum, 0x60);
    var mid := if c == 1 then Plus(sum, 0x60) else sum;
    PlusOnce(mid, 6);
    if low < 16 {
      LowNibble(mid, if c == 0 then high else if mid == 16 * high + low + 0x60 then high + 6 else high - 10, low);
    }
  }

  lemma PlusOnce(val: byte, d: int)
    requires -0x100 <= d < 0x100
    ensures Plus(val, d) ==
      if val + d < 0 then val + d + 0x100 else if val + d < 0x100 then val + d else val + d - 0x100
  {}

  lemma LowNibble(x: byte, high: int, low: nat)
    requires x == 16 * high + low && low < 16
    ensures LowDigit(x) == low
  {}

  /** DAS borrows 10 for the low digit from the high one, and 10 for that from the carry. */
  lemma ReducedPair(high: int, low: int, difference: byte, f: Flags)
    requires -9 <= high <= 9 && -10 <= low <= 9
    requires difference == if 16 * high + low < 0 then 16 * high + low + 0x100 else 16 * high + low
    requires f.c == (16 * high + low < 0) && f.h == (low < 0)
    ensures var k := if low < 0 then 1 else 0; var c := if high - k < 0 then 1 else 0;
      Reduced(difference, f) == 16 * (high - k + 10 * c) + (low + 10 * k) && f.Carry() == c
  {
    hide Plus;
    PlusOnce(difference, -0x60);
    PlusOnce(if f.c then Plus(difference, -0x60) else difference, -6);
  }

  lemma NibbleSum(f: Flags, a: byte, b: byte, high: nat, low: nat)
    requires high == a / 16 + b / 16 && low == a % 16 + b % 16 + f.Carry()
    ensures var s, f' := 16 * high + low, SumFlags(f, a, b, f.Carry(), B, false);
      && B.Wrap(a + b + f.Carry()) == (if s >= 0x100 then s - 0x100 else s)
      && f'.c == (s >= 0x100) && f'.h == (low >= 16)
  {
    hide Signed, InRange, Size.Wrap;
    assert a + b + f.Carry() == 16 * high + low;
    WrapOnce(a + b + f.Carry(), B);
  }

  lemma NibbleDifference(f: Flags, a: byte, b: byte, high: int, low: int)
    requires high == b / 16 - a / 16 && low == b % 16 - a % 16 - f.Carry()
    ensures var s, f' := 16 * high + low, DifferenceFlags(f, a, b, f.Carry(), B, false);
      && B.Wrap(b - a - f.Carry()) == (if s < 0 then s + 0x100 else s)
      && f'.c == (s < 0) && f'.h == (low < 0)
  {
    hide Signed, InRange, Size.Wrap;
    assert b - a - f.Carry() == 16 * high + low;
    WrapOnce(b - a - f.Carry(), B);
  }

  lemma OnePairSum(f: Flags, a: byte, b: byte)
    requires Packed(a) && Packed(b)
    ensures var (val, f') := DecimalSum(f, a, b);
      Packed(val) && Digits(val) + 100 * f'.Carry() == Digits(a) + Digits(b) + f.Carry()
  {
    hide Adjusted, SumFlags;
    var high, low := a / 16 + b / 16, a % 16 + b % 16 + f.Carry();
    var sum, f' := B.Wrap(a + b + f.Carry()), SumFlags(f, a, b, f.Carry(), B, false);
    NibbleSum(f, a, b, high, low);
    AdjustedPair(high, low, sum, f');
    var k := if low > 9 then 1 else 0;
    var c := if high + k > 9 then 1 else 0;
    DigitsOf(Adjusted(sum, f').0, high + k - 10 * c, low - 10 * k);
  }

  lemma OnePairDifference(f: Flags, a: byte, b: byte)
    requires Packed(a) && Packed(b)
    ensures var (val, f') := DecimalDifference(f, a, b);
      Packed(val) && Digits(val) - 100 * f'.Carry() == Digits(b) - Digits(a) - f.Carry()
  {
    hide Reduced, DifferenceFlags;
    var high, low := b / 16 - a / 16, b % 16 - a % 16 - f.Carry();
    var difference, f' := B.Wrap(b - a - f.Carry()), DifferenceFlags(f, a, b, f.Carry(), B, false);
    NibbleDifference(f, a, b, high, low);
    ReducedPair(high, low, difference, f');
    var k := if low < 0 then 1 else 0;
    var c := if high - k < 0 then 1 else 0;
    DigitsOf(Reduced(difference, f'), high - k + 10 * c, low + 10 * k);
  }

  /** ADDX and DAA over packed decimal bytes add the decimal numbers, with the carry into the next digit. */
  lemma {:induction false} DecimalAddChainAdds(f: Flags, a: seq<byte>, b: seq<byte>)
    requires |a| == |b| && AllPacked(a) && AllPacked(b)
    ensures var r := DecimalAddChain(f, a, b);
      && |r.bytes| == |a| && AllPacked(r.bytes)
      && Decimal(r.bytes) + (if r.flags.c then Hundreds(|a|) else 0) == Decimal(a) + Decimal(b) + f.Carry()
    decreases |a|
  {
    hide DecimalSum, Packed, Digits;
    if a != [] {
      OnePairSum(f, a[0], b[0]);
      DecimalAddChainAdds(DecimalSum(f, a[0], b[0]).1, a[1..], b[1..]);
    }
  }

  /** SUBX and DAS over packed decimal bytes subtract the decimal numbers, with the borrow from the next digit. */
  lemma {:induction false} DecimalSubChainSubtracts(f: Flags, a: seq<byte>, b: seq<byte>)
    requires |a| == |b| && AllPacked(a) && AllPacked(b)
    ensures var r := DecimalSubChain(f, a, b);
      && |r.bytes| == |a| && AllPacked(r.bytes)
      && Decimal(r.bytes) - (if r.flags.c then Hundreds(|a|) else 0) == Decimal(b) - Decimal(a) - f.Carry()
    decreases |a|
  {
    hide DecimalDifference, Packed, Digits;
    if a != [] {
      OnePairDifference(f, a[0], b[0]);
      DecimalSubChainSubtracts(DecimalDifference(f, a[0], b[0]).1, a[1..], b[1..]);
    }
  }
}
