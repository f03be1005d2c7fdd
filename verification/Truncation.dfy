/** What becomes of a BMC encoding that is longer than its buffer: when exactly the cut does no harm. */
module Truncation {
  import opened Bytes
  import opened Tokens
  import opened BitFields
  import opened BMCCodes
  import opened BitStream
  import opened Greedy
  import opened BMC

  // ---------- reading what is not all there ----------

  /** As long as bits are left over, more bits behind them change nothing. */
  lemma {:induction false} GetExtends(s: bits, u: bits, w: nat)
    ensures s == [] ==> Get(s, w).1 == []
    ensures Get(s, w).1 != [] ==> Get(Then(s, u), w) == (Get(s, w).0, Then(Get(s, w).1, u))
    decreases w
  {
    hide Pow2, Head, Tail, Digit, Then;
    if w > 0 {
      GetExtends(s, u, w - 1);
      TailExtends(Get(s, w - 1).1, u);
    }
  }

  lemma TailExtends(s: bits, u: bits)
    ensures s == [] ==> Tail(s) == []
    ensures s != [] ==> Head(Then(s, u)) == Head(s) && Tail(Then(s, u)) == Then(Tail(s), u)
  {
    if s != [] {
      assert (s + u)[0] == s[0] && (s + u)[1..] == s[1..] + u;
    }
  }

  lemma GetsExtend(u: bits)
    ensures forall s: bits, w: nat {:trigger Get(s, w)} :: s == [] ==> Get(s, w).1 == []
    ensures forall s: bits, w: nat {:trigger Get(Then(s, u), w)} ::
      Get(s, w).1 != [] ==> Get(Then(s, u), w) == (Get(s, w).0, Then(Get(s, w).1, u))
  {
    hide Get, Then;
    forall s: bits, w: nat
      ensures s == [] ==> Get(s, w).1 == []
      ensures Get(s, w).1 != [] ==> Get(Then(s, u), w) == (Get(s, w).0, Then(Get(s, w).1, u))
    {
      GetExtends(s, u, w);
    }
  }

  lemma TopLengthExtends(s: bits, u: bits)
    ensures s == [] ==> GetTopLength(s).1 == []
    ensures GetTopLength(s).1 != [] ==> GetTopLength(Then(s, u)) == (GetTopLength(s).0, Then(GetTopLength(s).1, u))
  {
    hide Get, Pow2, Then;
    GetsExtend(u);
  }

  lemma LongLengthExtends(s: bits, u: bits)
    ensures s == [] ==> GetLongLength(s).1 == []
    ensures GetLongLength(s).1 != [] ==> GetLongLength(Then(s, u)) == (GetLongLength(s).0, Then(GetLongLength(s).1, u))
  {
    hide Get, Pow2, Then, GetTopLength;
    GetsExtend(u);
    TopLengthExtends(Get(s, 3).1, u);
  }

  lemma LengthExtends(s: bits, u: bits)
    ensures s == [] ==> GetLength(s).1 == []
    ensures GetLength(s).1 != [] ==> GetLength(Then(s, u)) == (GetLength(s).0, Then(GetLength(s).1, u))
  {
    hide Get, Pow2, Then, GetLongLength;
    GetsExtend(u);
    LongLengthExtends(Get(Get(s, 2).1, 2).1, u);
  }

  lemma NearOffsetExtends(s: bits, u: bits)
    ensures s == [] ==> GetNearOffset(s).1 == []
    ensures GetNearOffset(s).1 != [] ==> GetNearOffset(Then(s, u)) == (GetNearOffset(s).0, Then(GetNearOffset(s).1, u))
  {
    hide Get, Pow2, Then;
    GetsExtend(u);
  }

  lemma OffsetExtends(s: bits, u: bits)
    ensures s == [] ==> GetOffset(s).1 == []
    ensures GetOffset(s).1 != [] ==> GetOffset(Then(s, u)) == (GetOffset(s).0, Then(GetOffset(s).1, u))
  {
    hide Get, Pow2, Then, GetNearOffset;
    GetsExtend(u);
    NearOffsetExtends(Get(s, 3).1, u);
  }

  lemma TokenExtends(s: bits, u: bits)
    ensures GetToken(s).1 != [] ==> GetToken(Then(s, u)) == (GetToken(s).0, Then(GetToken(s).1, u))
  {
    hide Get, Pow2, Then, GetLength, GetOffset;
    GetsExtend(u);
    var rest := Get(s, 1).1;
    LengthExtends(rest, u);
    OffsetExtends(GetLength(rest).1, u);
  }

  /** A token cut short takes all the bits there are. */
  lemma CutTakesAll(t: Token, c: nat)
    requires Encodable(t) && c < |Emit(t, [])|
    ensures GetToken(Emit(t, [])[..c]).1 == []
  {
    hide Emit, GetToken;
    var e := Emit(t, []);
    assert e == Then(e[..c], e[c..]);
    TokenReadsBack(t, []);
    TokenExtends(e[..c], e[c..]);
  }

  // ---------- the exact condition ----------

  /** The stored bits of a token, with zeros for the lost ones, still say how the text goes on from `i` to its end. */
  predicate StillTrue(x: seq<byte>, i: nat, s: bits)
    requires i <= |x|
  {
    var t := GetToken(s).0;
    Fits(x[..i], t, |x|) && Apply(x[..i], t) == x
  }

  /** Keeping only `c` bits of what is written for the text from `i` on does no harm: the first token that is not kept
      whole is the last one, a byte of it is kept, and it is still true. */
  predicate Harmless(x: seq<byte>, i: nat, c: nat)
    requires i < |x|
    decreases |x| - i
  {
    var t := NextToken(Format.BMC, x, i);
    FromNext(x, i, []);
    var e := Emit(t, []);
    if |e| <= c then i + t.Size() < |x| && Harmless(x, i + t.Size(), c - |e|)
    else i + t.Size() == |x| && c >= 8 && StillTrue(x, i, e[..c])
  }

  /** A token no longer than the one chosen cannot finish the text where that one does not. */
  lemma NoShortcut(x: seq<byte>, i: nat, t: Token)
    requires i < |x| && Encodable(t) && Fits(x[..i], t, |x|) && Apply(x[..i], t) == x
    ensures i + NextToken(Format.BMC, x, i).Size() == |x|
  {
    hide Best, CopyBack;
    AppliesToAll(x, i, t);
    var (len, back) := Best(Format.BMC, x, i);
    if t.Copy? {
      assert Usable(Format.BMC, x, i, t.len, t.back);
      assert IsBest(Format.BMC, x, i, len, back);
    }
    assert Describes(x, i, NextToken(Format.BMC, x, i));
  }

  lemma {:induction false} CutDecodes(x: seq<byte>, i: nat, c: nat, k: bits)
    requires i < |x| && c < |From(x, i, [])|
    ensures c <= |From(x, i, k)|
    ensures Decode(From(x, i, k)[..c], x[..i], |x|) == (true, x) <==> Harmless(x, i, c)
    decreases |x| - i
  {
    hide Emit, GetToken, Decode, Apply, NextToken, From, StillTrue;
    var t := NextToken(Format.BMC, x, i);
    FromNext(x, i, k);
    FromNext(x, i, []);
    var j, w := i + t.Size(), |Emit(t, [])|;
    var rest := From(x, j, k);
    EmitCut(t, From(x, j, []), 0);
    if w <= c {
      if j == |x| { FromEnd(x, []); }
      CutDecodes(x, j, c - w, k);
      EmitCut(t, rest, c - w);
      TokenStep(x, i, t, rest[..c - w]);
    } else {
      EmitSuffix(t, rest);
      CutToken(x, i, t, (Emit(t, []) + rest)[..c], c);
    }
  }

  /** The token the cut falls into. */
  lemma CutToken(x: seq<byte>, i: nat, t: Token, s: bits, c: nat)
    requires i < |x| && t == NextToken(Format.BMC, x, i) && Encodable(t)
    requires c < |Emit(t, [])| && s == Emit(t, [])[..c]
    ensures Decode(s, x[..i], |x|) == (true, x) <==> i + t.Size() == |x| && c >= 8 && StillTrue(x, i, s)
  {
    hide Emit, GetToken, Decode, Apply, NextToken;
    if c < 8 {
      DecodeDone(s, x[..i], |x|);
    } else {
      DecodeOne(s, x[..i], |x|);
      CutTakesAll(t, c);
      var u := GetToken(s).0;
      if Fits(x[..i], u, |x|) {
        DecodeDone([], Apply(x[..i], u), |x|);
        if Apply(x[..i], u) == x { NoShortcut(x, i, u); }
      }
    }
  }

  /** Through memory: what the encoder leaves of `x` in a buffer of `cap` bytes is decoded to `x` if and only if its
      bits fit or the cut does no harm.  With 19 bits for every two bytes they fit. */
  lemma MemoryRoundTrip(x: seq<byte>, stored: seq<byte>, cap: nat)
    requires Unpack(stored) == Stored(Encoding(x), 8 * cap)
    ensures Decode(Unpack(stored), [], |x|) == (true, x) <==>
      |From(x, 0, [])| <= 8 * cap || (x != [] && Harmless(x, 0, 8 * cap))
    ensures (19 * |x| + 15) / 16 <= cap ==> |From(x, 0, [])| <= 8 * cap
  {
    hide Decode, EmitAll, GreedyTokens, Harmless, Unpack;
    var ts := GreedyTokens(Format.BMC, x, 0);
    var pad := Zeros(Padding(|EmitAll(ts, [])|));
    EmitAllLength(ts, pad);
    SizeBound(x);
    assert Encoding(x) == From(x, 0, pad) && x[..0] == [];
    if |From(x, 0, [])| <= 8 * cap {
      RoundTrip(x);
    } else {
      if x == [] { FromEnd(x, []); }
      CutDecodes(x, 0, 8 * cap, pad);
    }
  }
}
