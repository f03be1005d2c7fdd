/** The RF serial device's error-correction tables and encoder, as the emulator builds and runs them. */
module RFSerial {
  import opened GF256
  import opened Polynomials
  import opened Distance
  import opened ReedSolomon

  // ---------- bytes as array indices ----------

  function Index(b: bv8): (i: int)
    ensures 0 <= i < 256
  {
    b as int
  }

  function Byte(i: int): bv8
    requires 0 <= i < 256
  {
    i as bv8
  }

  lemma IndexOfByte(i: int)
    requires 0 <= i < 256
    ensures Index(Byte(i)) == i
  {
    assert i % 256 == i;
  }

  lemma IndexInjective(a: bv8, b: bv8)
    ensures Index(a) == Index(b) <==> a == b
    ensures Index(0) == 0
  {}

  // ---------- the modulus loop ----------

  /** The residue of `v`, for every `v` a table index sum can reach; beyond that the two-byte fold loses carries. */
  function Folded(v: nat): nat {
    if v < 255 then v else (v - 255) % 65536 % 255
  }

  /** The low two bytes added up. */
  function BytesSum(u: nat): nat {
    u % 256 + u / 256 % 256
  }

  lemma FoldStep(u: nat)
    ensures BytesSum(u) % 255 == u % 65536 % 255 && BytesSum(u) <= 510 && BytesSum(u) <= u
  {
    LowBytes(u, u / 256, u / 256 / 256);
    FoldBytes(u % 256, u / 256 % 256);
  }

  lemma LowBytes(u: nat, v: nat, w: nat)
    requires v == u / 256 && w == v / 256
    ensures u % 65536 == 256 * (v % 256) + u % 256 && u % 256 + v % 256 <= u
  {
    assert u == 256 * v + u % 256 && v == 256 * w + v % 256;
    WordRemainder(u, w, 256 * (v % 256) + u % 256);
  }

  lemma WordRemainder(u: nat, w: nat, r: nat)
    requires u == 65536 * w + r && r < 65536
    ensures u % 65536 == r
  {}

  /** One round of the loop, from the start and from then on. */
  lemma FoldOnce(v: nat)
    requires v >= 255
    ensures BytesSum(v - 255) < v && BytesSum(v - 255) <= 510 && BytesSum(v - 255) % 255 == Folded(v)
    ensures v <= 510 ==> BytesSum(v - 255) % 255 == v % 255
  {
    hide BytesSum;
    FoldStep(v - 255);
    if v <= 510 { assert (v - 255) % 65536 == v - 255; }
  }

  lemma FoldBytes(lo: nat, hi: nat)
    ensures (256 * hi + lo) % 255 == (lo + hi) % 255
  {
    assert 256 * hi + lo == 255 * hi + (lo + hi);
  }

  /** The loop computes v mod 255 exactly when the bits above the second byte, once 255 is taken off, cancel. */
  lemma FoldedIsMod(v: nat)
    ensures Folded(v) == v % 255 <==> v < 255 || (v - 255) / 65536 % 255 == 0
    ensures v < 65536 + 255 ==> Folded(v) == v % 255
  {
    if v >= 255 {
      var k, w := (v - 255) / 65536, (v - 255) % 65536;
      HighBits(v, k, w);
      ModShift(k, w);
    }
  }

  lemma HighBits(v: nat, k: nat, w: nat)
    requires v == 255 + 65536 * k + w
    ensures v % 255 == (k + w) % 255
  {
    assert v == 255 * (257 * k + 1) + (k + w);
  }

  lemma ModShift(k: nat, w: nat)
    ensures (k + w) % 255 == w % 255 <==> k % 255 == 0
  {
    var a, b := k % 255, w % 255;
    assert k + w == 255 * (k / 255 + w / 255) + (a + b);
    assert (k + w) % 255 == (a + b) % 255;
  }

  // ---------- one table step ----------

  /** A byte in the wider variable of the loop. */
  function Widen(a: bv8): bv16 {
    a as bv16
  }

  lemma WidenOne()
    ensures Widen(1) == 1
  {}

  /** Shifting left and folding the bit that leaves the byte is multiplication by x. */
  lemma ShiftIsXTime(a: bv8)
    ensures Widen(a) < 256 && Widen(a) as bv8 == a
    ensures var e := Widen(a) << 1; Widen(XTime(a)) == if e >= 256 then (e ^ 0x1D) & 0xFF else e
  {}

  lemma {:induction false} ExpPeriodic(i: nat)
    ensures Exp(i % 255) == Exp(i)
  {
    hide Exp;
    ExpLandmarks();
    ExpPeriod(255, i / 255, i % 255);
  }

  class RFSerial {
    const rsExpTable: array<bv8>
    const rsLogTable: array<bv8>
    const rsPoly20: array<bv8>
    const rsPoly80: array<bv8>

    /** Table sizes as declared, no two tables sharing storage. */
    ghost predicate Allocated() {
      rsExpTable.Length == 256 && rsLogTable.Length == 256 && rsPoly20.Length == 21 && rsPoly80.Length == 81 &&
      rsExpTable != rsLogTable && rsExpTable != rsPoly20 && rsExpTable != rsPoly80 &&
      rsLogTable != rsPoly20 && rsLogTable != rsPoly80 && rsPoly20 != rsPoly80
    }

    /** The tables invert each other on the nonzero bytes; 255 stands for the logarithm of 0. */
    ghost predicate Tables()
      reads rsExpTable, rsLogTable
    {
      Allocated() &&
      (forall i :: 0 <= i < 255 ==> rsExpTable[i] == Exp(i)) && rsExpTable[255] == 0 &&
      (forall i :: 0 <= i < 255 ==> rsLogTable[Index(Exp(i))] == Byte(i)) && rsLogTable[0] == Byte(255)
    }

    /** `poly` holds the generator's coefficients as exponents, none of them the exponent of 0. */
    static ghost predicate IndexForm(poly: array<bv8>, n: nat)
      reads poly
    {
      poly.Length > n &&
      forall j :: 0 <= j <= n ==> Index(poly[j]) < 255 && Exp(Index(poly[j])) == Generator(n)[j]
    }

    ghost predicate Ready()
      reads rsExpTable, rsLogTable, rsPoly20, rsPoly80
    {
      Tables() && IndexForm(rsPoly20, 20) && IndexForm(rsPoly80, 80)
    }

    static method RsMod(v0: nat) returns (r: nat)
      ensures r < 255 && r == Folded(v0)
    {
      hide BytesSum, Folded;
      var v := v0;
      while v >= 0xFF
        invariant v == v0 || (v <= 510 && v % 255 == Folded(v0))
        decreases v
      {
        FoldOnce(v);
        v := BytesSum(v - 0xFF);
      }
      Small(v, v0);
      return v;
    }

    static lemma Small(v: nat, v0: nat)
      requires v < 255
      ensures v % 255 == v && (v == v0 ==> Folded(v0) == v)
    {}

    /** What a table lookup of a nonzero byte means. */
    lemma LogLookup(a: bv8)
      requires Tables() && a != 0
      ensures Index(rsLogTable[Index(a)]) < 255 && Exp(Index(rsLogTable[Index(a)])) == a
    {
      hide Exp, Index, Byte;
      var i := Log(a);
      IndexOfByte(i);
    }

    method FillTables()
      requires Allocated()
      modifies rsExpTable, rsLogTable
      ensures Tables()
    {
      hide Exp, Index, Byte, XTime, Widen;
      var e: bv16 := 1;
      ExpZero();
      WidenOne();
      for i := 0 to 255
        invariant e == Widen(Exp(i))
        invariant forall k :: 0 <= k < i ==> rsExpTable[k] == Exp(k)
        invariant forall k :: 0 <= k < i ==> rsLogTable[Index(Exp(k))] == Byte(k)
      {
        ShiftIsXTime(Exp(i));
        ExpNext(i);
        rsExpTable[i] := e as bv8;
        forall k | 0 <= k < i ensures Index(Exp(k)) != Index(Exp(i)) {
          ExpInjective(k, i);
          IndexInjective(Exp(k), Exp(i));
        }
        rsLogTable[Index(e as bv8)] := Byte(i);

        e := e << 1;
        if e >= 256 {
          e := (e ^ 0x1D) & 0xFF;
        }
      }
      rsExpTable[255] := 0;
      IndexInjective(0, 0);
      forall k | 0 <= k < 255 ensures Index(Exp(k)) != 0 {
        ExpNonzero(k);
        IndexInjective(Exp(k), 0);
      }
      rsLogTable[0] := Byte(255);
    }

    /** The table lookup every product goes through. */
    method Antilog(v: nat) returns (r: bv8)
      requires Tables() && v < 65536
      ensures r == Exp(v)
    {
      hide Exp, Index, Byte;
      FoldedIsMod(v);
      ExpPeriodic(v);
      var m := RsMod(v);
      r := rsExpTable[m];
    }

    /** The new coefficient in place of `a`, whose lower neighbour is `below`. */
    method NextTerm(below: bv8, a: bv8, root: nat) returns (r: bv8)
      requires Tables() && root < 255
      ensures r == Add(below, Mul(Exp(root), a))
    {
      hide Exp, Index, Byte, Mul;
      RootTerm(a, root);
      if a != 0 {
        LogLookup(a);
        var t := Antilog(Index(rsLogTable[Index(a)]) + root);
        r := below ^ t;
      } else {
        r := below;
      }
    }

    /** The constant term times the root.  The logarithm of 0, being 255, acts as an exponent of 0 here. */
    method NextConstant(a: bv8, root: nat) returns (r: bv8)
      requires Tables() && root < 255
      ensures r == if a == 0 then Exp(root) else Mul(Exp(root), a)
    {
      hide Exp, Index, Byte, Mul;
      RootTerm(a, root);
      if a == 0 {
        IndexInjective(0, 0);
        IndexOfByte(255);
        ExpPeriodic(255 + root);
        ExpPeriodic(root);
      }
      r := Antilog(Index(rsLogTable[Index(a)]) + root);
    }

    /** Multiplies the polynomial of the first `i` roots, in place, by x plus the next one.  The first call starts
        from a constant term of 0 instead of 1. */
    method TimesNextRoot(i: nat, out: array<bv8>)
      requires Tables() && i < 254 && out.Length > i + 1 && out != rsExpTable && out != rsLogTable
      requires if i == 0 then out[0] == 0 else out[..i + 1] == Generator(i)
      modifies out
      ensures out[..i + 2] == Generator(i + 1)
      ensures out[i + 2..] == old(out[i + 2..])
    {
      hide Exp, Index, Byte, Add, Mul, Generator, Tables;
      var root := i + 1;
      ghost var p := out[..i + 1];
      out[i + 1] := 1;

      var j := i;
      while j > 0
        invariant 0 <= j <= i && Tables()
        invariant forall k :: 0 <= k <= j ==> out[k] == p[k]
        invariant forall k :: j < k <= i ==> out[k] == Add(p[k - 1], Mul(Exp(root), p[k]))
        invariant out[i + 1] == 1
        invariant forall k :: i + 2 <= k < out.Length ==> out[k] == old(out[k])
      {
        out[j] := NextTerm(out[j - 1], out[j], root);
        j := j - 1;
      }

      out[0] := NextConstant(out[0], root);
      if i > 0 { GeneratorDense(i); }
      TimesRootTerms(i, p, out[..i + 2]);
    }

    method GenPoly(numRoots: nat, out: array<bv8>)
      requires Tables() && numRoots <= 254 && out.Length > numRoots && out != rsExpTable && out != rsLogTable
      modifies out
      ensures numRoots > 0 ==> IndexForm(out, numRoots)
      ensures numRoots == 0 ==> out[0] == Byte(255)
      ensures out[numRoots + 1..] == old(out[numRoots + 1..])
    {
      hide Exp, Index, Byte, Generator, Tables;
      out[0] := 0;
      for i := 0 to numRoots
        invariant Tables()
        invariant if i == 0 then out[0] == 0 else out[..i + 1] == Generator(i)
        invariant out[numRoots + 1..] == old(out[numRoots + 1..])
      {
        ghost var before := out[..];
        TimesNextRoot(i, out);
        assert out[numRoots + 1..] == out[i + 2..][numRoots - i - 1..];
        assert before[numRoots + 1..] == before[i + 2..][numRoots - i - 1..];
      }
      ghost var g := out[..numRoots + 1];
      TableFacts();
      for i := 0 to numRoots + 1
        invariant Tables()
        invariant forall k :: 0 <= k < i ==> out[k] == rsLogTable[Index(g[k])]
        invariant forall k :: i <= k <= numRoots ==> out[k] == g[k]
        invariant out[numRoots + 1..] == old(out[numRoots + 1..])
      {
        out[i] := rsLogTable[Index(out[i])];
      }
      if numRoots == 0 {
        IndexInjective(0, 0);
      } else {
        GeneratorDense(numRoots);
        forall j | 0 <= j <= numRoots
          ensures Index(out[j]) < 255 && Exp(Index(out[j])) == Generator(numRoots)[j]
        {
          LogLookup(g[j]);
        }
      }
    }

    lemma TableFacts()
      requires Tables()
      ensures rsExpTable.Length == 256 && rsLogTable.Length == 256 && rsLogTable[0] == Byte(255)
    {}

    constructor ()
      ensures Ready() && fresh(rsExpTable) && fresh(rsLogTable) && fresh(rsPoly20) && fresh(rsPoly80)
    {
      rsExpTable := new bv8[256];
      rsLogTable := new bv8[256];
      rsPoly20 := new bv8[21];
      rsPoly80 := new bv8[81];
      new;
      EccInit();
    }

    method EccInit()
      requires Allocated()
      modifies rsExpTable, rsLogTable, rsPoly20, rsPoly80
      ensures Ready()
    {
      hide Exp, Index, Byte, Generator;
      FillTables();
      GenPoly(20, rsPoly20);
      GenPoly(80, rsPoly80);
    }

    // ---------- the encoder ----------

    /** The `n` bytes at `ecc`, and what lies before and behind them. */
    static function Register(all: Poly, ecc: nat, n: nat): (r: Poly)
      requires ecc + n <= |all|
      ensures |r| == n
    {
      all[ecc..ecc + n]
    }

    static function Outside(all: Poly, ecc: nat, n: nat): (Poly, Poly)
      requires ecc + n <= |all|
    {
      (all[..ecc], all[ecc + n..])
    }

    /** Moves the register at `ecc` up one place; nothing is fed back. */
    method ShiftRegister(data: array<bv8>, ecc: nat, eccLen: nat)
      requires eccLen > 0 && ecc + eccLen <= data.Length
      modifies data
      ensures data[ecc..ecc + eccLen] == [0] + old(data[ecc..ecc + eccLen - 1])
      ensures Outside(data[..], ecc, eccLen) == old(Outside(data[..], ecc, eccLen))
    {
      ghost var p := data[..];
      var j := eccLen - 1;
      while j > 0
        invariant 0 <= j < eccLen
        invariant forall k :: 0 <= k <= ecc + j || ecc + eccLen <= k < data.Length ==> data[k] == p[k]
        invariant forall k :: ecc + j < k < ecc + eccLen ==> data[k] == p[k - 1]
      {
        data[ecc + j] := data[ecc + j - 1];
        j := j - 1;
      }
      data[ecc] := 0;
      ShiftedUp(p, data[..], ecc, eccLen);
    }

    static lemma ShiftedUp(p: Poly, q: Poly, ecc: nat, eccLen: nat)
      requires |p| == |q| && eccLen > 0 && ecc + eccLen <= |p| && q[ecc] == 0
      requires forall k :: 0 <= k < ecc || ecc + eccLen <= k < |p| ==> q[k] == p[k]
      requires forall k :: ecc < k < ecc + eccLen ==> q[k] == p[k - 1]
      ensures q[ecc..ecc + eccLen] == [0] + p[ecc..ecc + eccLen - 1]
      ensures q[..ecc] == p[..ecc] && q[ecc + eccLen..] == p[ecc + eccLen..]
    {}

    /** One product of the feedback, by way of exponents. */
    method FeedTerm(b: nat, e: bv8, below: bv8, ghost g: bv8) returns (r: bv8)
      requires Tables() && b < 255 && Index(e) < 255 && Exp(Index(e)) == g
      ensures r == Add(below, Mul(Exp(b), g))
    {
      hide Exp, Index, Byte, Mul;
      ExpAdd(b, Index(e));
      var t := Antilog(b + Index(e));
      AddLaws(t, below, 0);
      r := t ^ below;
    }

    /** Moves the register up one place and adds the generator times a^b. */
    method FeedRegister(data: array<bv8>, ecc: nat, eccLen: nat, b: nat, poly: array<bv8>)
      requires Tables() && eccLen > 0 && ecc + eccLen <= data.Length && b < 255 && IndexForm(poly, eccLen)
      requires data != rsExpTable && data != rsLogTable && data != poly
      modifies data
      ensures data[ecc..ecc + eccLen]
           == Sum([0] + old(data[ecc..ecc + eccLen - 1]), Scale(Exp(b), Generator(eccLen)[..eccLen]))
      ensures Outside(data[..], ecc, eccLen) == old(Outside(data[..], ecc, eccLen))
    {
      hide Exp, Index, Byte, Generator, Tables, Mul, Add, Sum, Scale, Fed;
      ghost var p, g := data[..], Generator(eccLen);
      ghost var t := Fed(p, ecc, eccLen, g, Exp(b));
      var j := eccLen - 1;
      while j > 0
        invariant 0 <= j < eccLen && Tables() && IndexForm(poly, eccLen)
        invariant forall k :: 0 <= k <= ecc + j ==> data[k] == p[k]
        invariant forall k :: ecc + j < k < data.Length ==> data[k] == t[k]
      {
        FedAt(p, ecc, eccLen, g, Exp(b), j);
        data[ecc + j] := FeedTerm(b, poly[j], data[ecc + j - 1], g[j]);
        j := j - 1;
      }
      FedAt(p, ecc, eccLen, g, Exp(b), 0);
      data[ecc] := FeedTerm(b, poly[0], 0, g[0]);
      assert data[..] == t;
      FedUp(p, ecc, eccLen, g, Exp(b));
    }

    /** All of the buffer after the register was fed. */
    static function Fed(p: Poly, ecc: nat, eccLen: nat, g: Poly, f: bv8): (t: Poly)
      requires eccLen > 0 && ecc + eccLen <= |p| && |g| == eccLen + 1
      ensures |t| == |p|
      ensures forall k :: 0 <= k < ecc || ecc + eccLen <= k < |p| ==> t[k] == p[k]
    {
      p[..ecc] + Sum([0] + p[ecc..ecc + eccLen - 1], Scale(f, g[..eccLen])) + p[ecc + eccLen..]
    }

    static lemma FedAt(p: Poly, ecc: nat, eccLen: nat, g: Poly, f: bv8, j: nat)
      requires eccLen > 0 && ecc + eccLen <= |p| && |g| == eccLen + 1 && j < eccLen
      ensures Fed(p, ecc, eccLen, g, f)[ecc + j] == Add(if j == 0 then 0 else p[ecc + j - 1], Mul(f, g[j]))
    {
      hide Add, Mul;
      var s := [0] + p[ecc..ecc + eccLen - 1];
      assert s[j] == if j == 0 then 0 else p[ecc + j - 1];
    }

    static lemma FedUp(p: Poly, ecc: nat, eccLen: nat, g: Poly, f: bv8)
      requires eccLen > 0 && ecc + eccLen <= |p| && |g| == eccLen + 1
      ensures var t := Fed(p, ecc, eccLen, g, f);
        t[ecc..ecc + eccLen] == Sum([0] + p[ecc..ecc + eccLen - 1], Scale(f, g[..eccLen])) &&
        t[..ecc] == p[..ecc] && t[ecc + eccLen..] == p[ecc + eccLen..]
    {
      hide Sum, Scale;
    }

    /** The `memset` in front of the loop. */
    method ClearRegister(data: array<bv8>, ecc: nat, eccLen: nat)
      requires ecc + eccLen <= data.Length
      modifies data
      ensures Register(data[..], ecc, eccLen) == Zeros(eccLen)
      ensures Outside(data[..], ecc, eccLen) == old(Outside(data[..], ecc, eccLen))
    {
      for k := ecc to ecc + eccLen
        invariant data[..ecc] == old(data[..ecc]) && data[ecc + eccLen..] == old(data[ecc + eccLen..])
        invariant forall m :: ecc <= m < k ==> data[m] == 0
      {
        data[k] := 0;
      }
    }

    /** Fills in the parity bytes behind the packet's data, which starts at `base`. */
    method EccCalc(data: array<bv8>, base: nat, longPkt: bool)
      requires Ready()
      requires data != rsExpTable && data != rsLogTable && data != rsPoly20 && data != rsPoly80
      requires base + (if longPkt then 200 else 50) <= data.Length
      modifies data
      ensures var dataLen, eccLen := if longPkt then 120 else 30, if longPkt then 80 else 20;
        var message := old(data[base..base + dataLen]);
        data[base..base + dataLen + eccLen] == Packet(message, eccLen) &&
        Codeword(message, data[base + dataLen..base + dataLen + eccLen])
      ensures data[..base] == old(data[..base])
      ensures var end := base + (if longPkt then 200 else 50); data[end..] == old(data[end..])
    {
      hide Exp, Index, Byte, Generator, Tables, Mul, Add, Sum, Scale, Feed, Codeword, Parity;
      var dataLen := if longPkt then 120 else 30;
      var eccLen := if longPkt then 80 else 20;
      var poly := if longPkt then rsPoly80 else rsPoly20;
      ghost var message := data[base..base + dataLen];

      EccLoop(data, base, dataLen, eccLen, poly);
      ParityIsCodeword(message, eccLen);
      assert data[base..base + dataLen + eccLen] == message + data[base + dataLen..base + dataLen + eccLen];
    }

    /** The register is cleared, then absorbs the data bytes from the last to the first. */
    method EccLoop(data: array<bv8>, base: nat, dataLen: nat, eccLen: nat, poly: array<bv8>)
      requires Tables() && eccLen > 0 && IndexForm(poly, eccLen)
      requires data != rsExpTable && data != rsLogTable && data != poly
      requires base + dataLen + eccLen <= data.Length
      modifies data
      ensures var ecc := base + dataLen;
        Register(data[..], ecc, eccLen) == Parity(old(data[base..ecc]), eccLen) &&
        Outside(data[..], ecc, eccLen) == old(Outside(data[..], ecc, eccLen))
    {
      hide Exp, Index, Byte, Generator, Tables, Parity, Feed, Zeros, Register, Outside;
      var ecc := base + dataLen;
      ghost var p, message := data[..], data[base..ecc];
      ClearRegister(data, ecc, eccLen);
      ParityNone(eccLen);

      var i := dataLen - 1;
      assert message[i + 1..] == [];
      while i >= 0
        invariant -1 <= i < dataLen && Tables() && IndexForm(poly, eccLen)
        invariant Outside(data[..], ecc, eccLen) == Outside(p, ecc, eccLen)
        invariant Register(data[..], ecc, eccLen) == Parity(message[i + 1..], eccLen)
      {
        ParityMore(message, i, eccLen);
        SameBelow(data[..], p, ecc, eccLen, base + i);
        EccStep(data, ecc, eccLen, data[base + i], poly);
        i := i - 1;
      }
      assert message[0..] == message;
    }

    static lemma ParityNone(n: nat)
      requires n > 0
      ensures Parity([], n) == Zeros(n)
    {}

    static lemma ParityMore(message: Poly, i: nat, n: nat)
      requires n > 0 && i < |message|
      ensures Parity(message[i..], n) == Feed(Parity(message[i + 1..], n), message[i])
    {
      hide Feed;
      assert message[i..][1..] == message[i + 1..];
    }

    static lemma SameBelow(p: Poly, q: Poly, ecc: nat, n: nat, k: nat)
      requires ecc + n <= |p| && ecc + n <= |q| && Outside(p, ecc, n) == Outside(q, ecc, n) && k < ecc
      ensures p[k] == q[k]
    {
      assert p[..ecc][k] == q[..ecc][k];
    }

    /** Absorbs one data byte into the parity register. */
    method EccStep(data: array<bv8>, ecc: nat, eccLen: nat, d: bv8, poly: array<bv8>)
      requires Tables() && eccLen > 0 && ecc + eccLen <= data.Length && IndexForm(poly, eccLen)
      requires data != rsExpTable && data != rsLogTable && data != poly
      modifies data
      ensures Register(data[..], ecc, eccLen) == Feed(old(Register(data[..], ecc, eccLen)), d)
      ensures Outside(data[..], ecc, eccLen) == old(Outside(data[..], ecc, eccLen))
    {
      hide Exp, Index, Byte, Generator, Mul, Sum, Scale;
      ghost var p := data[ecc..ecc + eccLen];
      assert p[..eccLen - 1] == data[ecc..ecc + eccLen - 1];
      var f := data[ecc + eccLen - 1] ^ d;
      var b := Index(rsLogTable[Index(f)]);
      if f != 0 { LogLookup(f); } else { IndexInjective(0, 0); IndexOfByte(255); }
      if b == 0xFF {
        NoFeedback(p, eccLen);
        ShiftRegister(data, ecc, eccLen);
      } else {
        FeedRegister(data, ecc, eccLen, b, poly);
      }
    }

    lemma NoFeedback(p: Poly, n: nat)
      requires |p| == n > 0
      ensures Sum([0] + p[..n - 1], Scale(0, Generator(n)[..n])) == [0] + p[..n - 1]
    {
      hide Add, Mul, Generator;
      forall k | 0 <= k < n ensures Add(([0] + p[..n - 1])[k], Mul(0, Generator(n)[k])) == ([0] + p[..n - 1])[k] {
        MulZero(Generator(n)[k]);
        AddLaws(([0] + p[..n - 1])[k], 0, 0);
      }
    }

    lemma RootTerm(a: bv8, root: nat)
      requires Tables()
      ensures a == 0 ==> Mul(Exp(root), a) == 0
      ensures a != 0 ==> Exp(Index(rsLogTable[Index(a)]) + root) == Mul(Exp(root), a)
    {
      hide Exp, Index, Byte, Mul;
      if a == 0 {
        MulZero(Exp(root));
      } else {
        LogLookup(a);
        ExpAdd(Index(rsLogTable[Index(a)]), root);
        MulCommutes(a, Exp(root));
      }
    }
  }

  lemma TimesRootTerms(i: nat, p: Poly, q: Poly)
    requires |p| == i + 1 && |q| == i + 2 && q[i + 1] == 1
    requires if i == 0 then q[0] == Exp(1) else p == Generator(i) && q[0] == Mul(Exp(i + 1), p[0])
    requires forall k :: 1 <= k <= i ==> q[k] == Add(p[k - 1], Mul(Exp(i + 1), p[k]))
    ensures q == Generator(i + 1)
  {
    hide Add, Mul, Exp;
    var g, r := Generator(i), Exp(i + 1);
    GeneratorMonic(i);
    MulOne(r);
    AddLaws(Mul(r, g[0]), 0, 0);
    AddLaws(1, 0, 0);
    assert Generator(i + 1) == TimesRoot(g, r);
    forall k | 0 <= k <= i + 1 ensures q[k] == TimesRoot(g, r)[k] {
    }
  }
}
