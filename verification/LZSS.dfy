/** The LZSS compressor: groups of up to eight tokens, each group behind a byte of flags that is patched as its
    tokens are written. */
module LZSS {
  import opened Bytes
  import opened Tokens
  import opened BitFields
  import opened Greedy

  // ---------- the format ----------

  predicate Encodable(t: Token) {
    t.Copy? ==> 3 <= t.len <= 18 && t.back <= 0xFFF
  }

  predicate AllEncodable(ts: seq<Token>) {
    forall t :: t in ts ==> Encodable(t)
  }

  function Operand(t: Token): (r: seq<byte>)
    requires Encodable(t)
    ensures 1 <= |r| <= t.Size()
  {
    match t
    case Literal(b) => [b]
    case Copy(len, back) => [back % 256, (len - 3) + back / 256 * 16]
  }

  function Operands(ts: seq<Token>): seq<byte>
    requires AllEncodable(ts)
  {
    if ts == [] then [] else Operand(ts[0]) + Operands(ts[1..])
  }

  /** Bit i is set when token i is a literal. */
  function Flags(ts: seq<Token>): nat {
    if ts == [] then 0 else Digit(ts[0].Literal?) + 2 * Flags(ts[1..])
  }

  lemma {:induction false} FlagsBound(ts: seq<Token>)
    ensures Flags(ts) < Pow2(|ts|)
    ensures |ts| <= 8 ==> Flags(ts) < 256
  {
    if ts != [] { FlagsBound(ts[1..]); }
    if |ts| <= 8 { Pow2Grows(|ts|, 8); }
  }

  lemma {:induction false} Pow2Grows(m: nat, n: nat)
    requires m <= n
    ensures Pow2(m) <= Pow2(n)
    decreases n
  {
    if m < n { Pow2Grows(m, n - 1); }
  }

  lemma {:induction false} FlagsPush(ts: seq<Token>, t: Token)
    ensures Flags(ts + [t]) == Flags(ts) + (if t.Literal? then Pow2(|ts|) else 0)
  {
    if ts == [] {
      assert [t][1..] == [];
    } else {
      assert (ts + [t])[1..] == ts[1..] + [t];
      FlagsPush(ts[1..], t);
    }
  }

  function Group(g: seq<Token>): seq<byte>
    requires AllEncodable(g) && |g| <= 8
  {
    FlagsBound(g);
    if g == [] then [] else [Flags(g)] + Operands(g)
  }

  function Layout(ts: seq<Token>): seq<byte>
    requires AllEncodable(ts)
  {
    if |ts| <= 8 then Group(ts) else Group(ts[..8]) + Layout(ts[8..])
  }

  // ---------- sizes ----------

  lemma {:induction false} LayoutSize(ts: seq<Token>)
    requires AllEncodable(ts)
    ensures |Layout(ts)| == |Operands(ts)| + (|ts| + 7) / 8
  {
    hide Operand, Flags;
    if |ts| > 8 {
      OperandsAppend(ts[..8], ts[8..]);
      assert ts == ts[..8] + ts[8..];
      LayoutSize(ts[8..]);
    }
  }

  lemma {:induction false} OperandsAppend(a: seq<Token>, b: seq<Token>)
    requires AllEncodable(a) && AllEncodable(b)
    ensures AllEncodable(a + b) && Operands(a + b) == Operands(a) + Operands(b)
  {
    hide Operand;
    if a == [] {
      assert a + b == b;
    } else {
      assert (a + b)[1..] == a[1..] + b;
      OperandsAppend(a[1..], b);
    }
  }

  lemma {:induction false} ParseSize(x: seq<byte>, i: nat, ts: seq<Token>)
    requires Parses(x, i, ts) && AllEncodable(ts)
    ensures i + |Operands(ts)| <= |x| && i + |ts| <= |x|
    decreases |ts|
  {
    if ts != [] { ParseSize(x, i + ts[0].Size(), ts[1..]); }
  }

  /** The bytes the encoder writes. */
  function Encoding(x: seq<byte>): seq<byte> {
    Layout(GreedyTokens(Format.LZSS, x, 0))
  }

  /** The buffer imgtool allocates is always large enough. */
  lemma SizeBound(x: seq<byte>)
    ensures |Encoding(x)| <= |x| + (|x| + 7) / 8
  {
    var ts := GreedyTokens(Format.LZSS, x, 0);
    LayoutSize(ts);
    ParseSize(x, 0, ts);
  }

  // ---------- decoding ----------

  /** `Overrun`: the decoder would read past the end of its input, which it does not test for. */
  datatype Outcome = Overrun | Done(ok: bool, out: seq<byte>)

  /** Copying inside the output buffer.  An offset of 0 leaves the buffer as it is. */
  function CopyIn(buf: seq<byte>, pos: nat, len: nat, offset: nat): (r: seq<byte>)
    requires offset <= pos && pos + len <= |buf|
    ensures |r| == |buf|
    decreases len
  {
    if len == 0 then buf else CopyIn(buf[pos := buf[pos - offset]], pos + 1, len - 1, offset)
  }

  /** The head of the decoder's loop: stop, or make sure there is a flag to look at. */
  function DecodeFrom(s: seq<byte>, flags: nat, used: nat, buf: seq<byte>, pos: nat): Outcome
    requires pos <= |buf| && used <= 8
    decreases |buf| - pos, 1
  {
    if s == [] || pos == |buf| then Done(s == [] && pos == |buf|, buf)
    else if used == 8 then DecodeToken(s[1..], s[0], 0, buf, pos)
    else DecodeToken(s, flags, used, buf, pos)
  }

  /** Length and offset, out of the two operand bytes of a copy. */
  function CopyOperands(lo: int, hi: int): (r: (nat, nat))
    requires 0 <= lo && 0 <= hi
    ensures 3 <= r.0 <= 18
  {
    (hi % 16 + 3, lo + hi / 16 * 256)
  }

  lemma OperandReadsBack(len: nat, back: nat)
    requires Encodable(Copy(len, back))
    ensures var s := Operand(Copy(len, back)); |s| == 2 && CopyOperands(s[0], s[1]) == (len, back)
  {}

  function DecodeToken(s: seq<byte>, flags: nat, used: nat, buf: seq<byte>, pos: nat): Outcome
    requires pos < |buf| && used < 8
    decreases |buf| - pos, 0
  {
    if flags % 2 == 1 then
      if s == [] then Overrun else DecodeFrom(s[1..], flags / 2, used + 1, buf[pos := s[0]], pos + 1)
    else if |s| < 2 then Overrun else
      var (len, offset) := CopyOperands(s[0], s[1]);
      if offset > pos || pos + len > |buf| then Done(false, buf)
      else DecodeFrom(s[2..], flags / 2, used + 1, CopyIn(buf, pos, len, offset), pos + len)
  }

  lemma {:induction false} CopyInRepeats(x: seq<byte>, buf: seq<byte>, i: nat, len: nat, offset: nat)
    requires |buf| == |x| && Repeats(x, i, len, offset) && buf[..i] == x[..i]
    ensures CopyIn(buf, i, len, offset)[..i + len] == x[..i + len]
    decreases len
  {
    if len > 0 {
      assert buf[i - offset] == buf[..i][i - offset] == x[..i][i - offset];
      var buf' := buf[i := buf[i - offset]];
      assert buf'[..i + 1] == x[..i + 1] by { assert buf'[..i + 1] == buf[..i] + [x[i]]; }
      CopyInRepeats(x, buf', i + 1, len - 1, offset);
    }
  }

  /** In the middle of a group: `g` is what is left of it, `rest` the tokens of the groups after it. */
  lemma {:induction false} DecodeLayout(x: seq<byte>, i: nat, g: seq<Token>, rest: seq<Token>, used: nat,
                                        buf: seq<byte>)
    requires |buf| == |x| && i <= |x| && buf[..i] == x[..i]
    requires AllEncodable(g) && AllEncodable(rest) && Parses(x, i, g + rest)
    requires used + |g| <= 8 && (rest != [] ==> used + |g| == 8)
    ensures DecodeFrom(Operands(g) + Layout(rest), Flags(g), used, buf, i) == Done(true, x)
    decreases |x| - i, 1
  {
    hide Operand, Flags, Operands, Layout, DecodeToken;
    ParsesPosition(x, i, g + rest);
    if g != [] {
      OperandsNonempty(g);
      DecodeLayoutToken(x, i, g, rest, used, buf);
    } else if rest != [] {
      assert g + rest == rest;
      var n := if |rest| <= 8 then |rest| else 8;
      LayoutFirst(rest, n);
      assert rest[..n] + rest[n..] == rest;
      var s := Operands(g) + Layout(rest);
      assert s[1..] == Operands(rest[..n]) + Layout(rest[n..]);
      DecodeLayoutToken(x, i, rest[..n], rest[n..], 0, buf);
    } else {
      LayoutNothing();
      assert buf[..i] == buf && x[..i] == x;
    }
  }

  lemma OperandsNonempty(g: seq<Token>)
    requires AllEncodable(g)
    ensures g == [] ==> Operands(g) == []
    ensures g != [] ==> |Operands(g)| > 0 && Operands(g) == Operand(g[0]) + Operands(g[1..])
  {}

  lemma LayoutNothing()
    ensures Layout([]) == [] == Operands([])
  {}

  lemma LayoutFirst(ts: seq<Token>, n: nat)
    requires AllEncodable(ts) && ts != [] && n == (if |ts| <= 8 then |ts| else 8)
    ensures Operands([]) == [] && Flags(ts[..n]) < 256
    ensures Layout(ts) == [Flags(ts[..n])] + Operands(ts[..n]) + Layout(ts[n..])
  {
    hide Operands, Flags;
    LayoutNothing();
    FlagsBound(ts[..n]);
    if |ts| <= 8 { assert ts[..n] == ts; }
  }

  lemma {:induction false} DecodeLayoutToken(x: seq<byte>, i: nat, g: seq<Token>, rest: seq<Token>, used: nat,
                                             buf: seq<byte>)
    requires |buf| == |x| && i < |x| && buf[..i] == x[..i]
    requires AllEncodable(g) && AllEncodable(rest) && g != [] && Parses(x, i, g + rest)
    requires used + |g| <= 8 && (rest != [] ==> used + |g| == 8)
    ensures DecodeToken(Operands(g) + Layout(rest), Flags(g), used, buf, i) == Done(true, x)
    decreases |x| - i, 0
  {
    hide Operands, Layout, DecodeFrom, DecodeToken, Flags, Operand, Parses, Repeats, CopyIn;
    var t, s := g[0], Operands(g) + Layout(rest);
    var s' := Operands(g[1..]) + Layout(rest);
    OperandInFront(g, Layout(rest));
    ParsesFirst(x, i, g, rest);
    if t.Literal? {
      var buf' := buf[i := t.b];
      LiteralInPlace(x, buf, i, t.b);
      DecodeLayout(x, i + 1, g[1..], rest, used + 1, buf');
      LiteralToken(s, s', g, used, buf, i, t.b);
    } else {
      CopyInRepeats(x, buf, i, t.len, t.back);
      DecodeLayout(x, i + t.len, g[1..], rest, used + 1, CopyIn(buf, i, t.len, t.back));
      CopyToken(s, s', g, used, buf, i, t.len, t.back);
    }
  }

  lemma OperandInFront(g: seq<Token>, k: seq<byte>)
    requires AllEncodable(g) && g != []
    ensures AllEncodable(g[1..]) && Operands(g) + k == Operand(g[0]) + (Operands(g[1..]) + k)
  {
    hide Operands, Operand;
    OperandsNonempty(g);
  }

  lemma ParsesFirst(x: seq<byte>, i: nat, g: seq<Token>, rest: seq<Token>)
    requires g != [] && Parses(x, i, g + rest)
    ensures Describes(x, i, g[0]) && i + g[0].Size() <= |x| && Parses(x, i + g[0].Size(), g[1..] + rest)
    ensures g[0].Copy? ==> g[0].back <= i
  {
    assert (g + rest)[1..] == g[1..] + rest;
    ParsesPosition(x, i + g[0].Size(), g[1..] + rest);
  }

  lemma LiteralInPlace(x: seq<byte>, buf: seq<byte>, i: nat, b: byte)
    requires i < |x| == |buf| && buf[..i] == x[..i] && x[i] == b
    ensures buf[i := b][..i + 1] == x[..i + 1]
  {
    assert buf[i := b][..i + 1] == buf[..i] + [b] && x[..i + 1] == x[..i] + [b];
  }

  lemma FlagsFirst(g: seq<Token>)
    requires g != []
    ensures Flags(g) == Digit(g[0].Literal?) + 2 * Flags(g[1..])
  {}

  lemma LiteralToken(s: seq<byte>, s': seq<byte>, g: seq<Token>, used: nat, buf: seq<byte>, i: nat, b: byte)
    requires g != [] && g[0] == Literal(b) && s == Operand(g[0]) + s' && i < |buf| && used < 8
    ensures DecodeToken(s, Flags(g), used, buf, i)
      == DecodeFrom(s', Flags(g[1..]), used + 1, buf[i := b], i + 1)
  {
    hide DecodeFrom, Flags, Operand;
    FlagsFirst(g);
    assert Operand(g[0]) == [b] by { OperandOfLiteral(b); }
    assert s[1..] == s' && s[0] == b;
  }

  lemma OperandOfLiteral(b: byte)
    ensures Operand(Literal(b)) == [b]
  {}

  lemma CopyToken(s: seq<byte>, s': seq<byte>, g: seq<Token>, used: nat, buf: seq<byte>, i: nat, len: nat, back: nat)
    requires g != [] && g[0] == Copy(len, back) && Encodable(g[0]) && s == Operand(g[0]) + s' && used < 8
    requires back <= i && i + len <= |buf|
    ensures DecodeToken(s, Flags(g), used, buf, i)
      == DecodeFrom(s', Flags(g[1..]), used + 1, CopyIn(buf, i, len, back), i + len)
  {
    hide DecodeFrom, CopyOperands, Operand, CopyIn, Flags;
    FlagsFirst(g);
    OperandReadsBack(len, back);
    assert s[2..] == s' && s[0] == Operand(g[0])[0] && s[1] == Operand(g[0])[1];
  }

  /** Whatever the output buffer held before, decoding the encoding of `x` fills it with `x` and succeeds. */
  lemma RoundTrip(x: seq<byte>, buf: seq<byte>)
    requires |buf| == |x|
    ensures DecodeFrom(Encoding(x), 0, 8, buf, 0) == Done(true, x)
  {
    hide DecodeFrom, Layout;
    var ts := GreedyTokens(Format.LZSS, x, 0);
    LayoutNothing();
    assert [] + ts == ts;
    DecodeLayout(x, 0, [], ts, 8, buf);
    assert Operands([]) + Layout(ts) == Layout(ts);
  }

  // ---------- the decoder ----------

  /** The loop compares its input pointer with the end only between tokens, and only for equality: an input that ends
      inside a token can make it run on over whatever bytes lie behind, and never meet the end again.  `past` tells
      whether a byte behind the input was read. */
  method DecodeLZSS(input: array<byte>, out: array<byte>, inLength: nat, outLength: nat)
    returns (ok: bool, ghost past: bool)
    requires input != out && inLength <= input.Length && outLength <= out.Length
    modifies out
    ensures var r := DecodeFrom(input[..inLength], 0, 8, old(out[..outLength]), 0);
      past == r.Overrun? && if r.Done? then Done(ok, out[..outLength]) == r else !ok
    ensures out[outLength..] == old(out[outLength..])
  {
    hide DecodeToken;
    ghost var target := DecodeFrom(input[..inLength], 0, 8, out[..outLength], 0);
    var inPtr, outPtr := 0, 0;
    var flagBits, flagBitsUsed := 0, 8;
    var valid := true;
    past := false;
    while inPtr != inLength && outPtr != outLength && valid
      invariant 0 <= outPtr <= outLength && 0 <= flagBitsUsed <= 8
      invariant (past <==> inPtr > inLength) && (past ==> target.Overrun?)
      invariant !past && valid ==>
        DecodeFrom(input[inPtr..inLength], flagBits, flagBitsUsed, out[..outLength], outPtr) == target
      invariant !past && !valid ==> target == Done(false, out[..outLength]) && outPtr < outLength
      invariant out[outLength..] == old(out[outLength..])
      decreases valid, outLength - outPtr
    {
      ghost var behind := false;
      if flagBitsUsed == 8 {
        assert !past ==> input[inPtr..inLength][1..] == input[inPtr + 1..inLength];
        flagBits, behind := Fetch(input, inLength, inPtr);
        inPtr := inPtr + 1;
        flagBitsUsed := 0;
      }
      inPtr, outPtr, valid, behind := TakeToken(input, out, inLength, outLength, inPtr, outPtr, flagBits, flagBitsUsed);
      past := past || behind;
      flagBitsUsed := flagBitsUsed + 1;
      flagBits := flagBits / 2;
    }
    ok := inPtr == inLength && outPtr == outLength;
  }

  /** One token, as the next flag says. */
  method TakeToken(input: array<byte>, out: array<byte>, inLength: nat, outLength: nat, inPtr: nat, outPtr: nat,
                   flagBits: nat, flagBitsUsed: nat)
    returns (inPtr': nat, outPtr': nat, valid: bool, ghost behind: bool)
    requires input != out && inLength <= input.Length && outPtr < outLength <= out.Length && flagBitsUsed < 8
    modifies out
    ensures outPtr' <= outLength && (if valid then outPtr < outPtr' else outPtr' == outPtr) && inPtr < inPtr'
    ensures behind <==> inPtr' > inLength
    ensures inPtr <= inLength ==>
      DecodeToken(input[inPtr..inLength], flagBits, flagBitsUsed, old(out[..outLength]), outPtr) ==
        if behind then Overrun
        else if !valid then Done(false, out[..outLength])
        else DecodeFrom(input[inPtr'..inLength], flagBits / 2, flagBitsUsed + 1, out[..outLength], outPtr')
    ensures out[outLength..] == old(out[outLength..])
  {
    hide CopyIn, CopyOperands, DecodeFrom;
    ghost var s, buf := Rest(input[..], inPtr, inLength), out[..outLength];
    inPtr', outPtr', valid := inPtr, outPtr, true;
    if flagBits % 2 == 1 {
      var b: byte;
      b, behind := Fetch(input, inLength, inPtr);
      assert !behind ==> s[0] == b && s[1..] == input[inPtr + 1..inLength];
      out[outPtr] := b;
      assert out[..outLength] == buf[outPtr := b];
      outPtr' := outPtr + 1;
      inPtr' := inPtr + 1;
    } else {
      var lo: byte, hi: byte;
      lo, behind := Fetch(input, inLength, inPtr);
      hi, behind := Fetch(input, inLength, inPtr + 1);
      if !behind { TakeTwo(input[..], s, inPtr, inLength); }
      var (len, offset) := CopyOperands(lo, hi);
      inPtr' := inPtr + 2;
      // a copy may not start before the output or end after it
      if offset > outPtr || outPtr + len > outLength {
        valid := false;
      } else {
        CopyForward(out, outLength, outPtr, len, offset);
        outPtr' := outPtr + len;
      }
    }
  }

  /** The bytes of the input from one place on; none behind its end. */
  function Rest(s: seq<byte>, from: nat, to: nat): seq<byte>
    requires to <= |s|
  {
    if from <= to then s[from..to] else []
  }

  /** Reading a byte: behind the input it is whatever memory holds there. */
  method Fetch(input: array<byte>, inLength: nat, i: nat) returns (b: byte, ghost behind: bool)
    requires inLength <= input.Length
    ensures behind == (i >= inLength) && (!behind ==> b == input[i])
  {
    behind := i >= inLength;
    if i < inLength {
      b := input[i];
    } else {
      b := *;
    }
  }

  lemma TakeTwo(p: seq<byte>, s: seq<byte>, from: nat, to: nat)
    requires from + 2 <= to <= |p| && s == p[from..to]
    ensures s[0] == p[from] && s[1] == p[from + 1] && s[2..] == p[from + 2..to]
  {}

  method CopyForward(out: array<byte>, outLength: nat, outPtr: nat, len: nat, offset: nat)
    requires offset <= outPtr && outPtr + len <= outLength <= out.Length
    modifies out
    ensures out[..outLength] == CopyIn(old(out[..outLength]), outPtr, len, offset)
    ensures out[outLength..] == old(out[outLength..])
  {
    ghost var target := CopyIn(out[..outLength], outPtr, len, offset);
    for i := 0 to len
      invariant CopyIn(out[..outLength], outPtr + i, len - i, offset) == target
      invariant out[outLength..] == old(out[outLength..])
    {
      ghost var buf := out[..outLength];
      out[outPtr + i] := out[outPtr + i - offset];
      assert out[..outLength] == buf[outPtr + i := buf[outPtr + i - offset]];
    }
  }

  // ---------- the encoder ----------

  /** The length of the repetition at distance `offset`, as far as the format cares; it may run into itself. */
  method MatchLength(input: array<byte>, inLength: nat, i: nat, offset: nat) returns (len: nat)
    requires i < inLength <= input.Length && 1 <= offset <= i
    ensures len <= 18 && Repeats(input[..inLength], i, len, offset)
    ensures forall l :: len < l <= 18 ==> !Repeats(input[..inLength], i, l, offset)
  {
    ghost var x := input[..inLength];
    len := 0;
    while len < 16 + 3 && i + len != inLength && input[i - offset + len] == input[i + len]
      invariant len <= 19 && i + len <= inLength
      invariant forall j :: i <= j < i + len ==> x[j - offset] == x[j]
    {
      len := len + 1;
    }
    // the loop looks one byte further than a copy can reach
    if len == 16 + 3 {
      len := len - 1;
    } else if i + len < inLength {
      assert x[i + len - offset] != x[i + len];
    }
  }

  /** The longest match; the loop keeps the first, hence nearest, of equally long ones. */
  method FindMatch(input: array<byte>, inLength: nat, i: nat) returns (bestLen: nat, bestOff: nat)
    requires i < inLength <= input.Length
    ensures (bestLen, bestOff) == Best(Format.LZSS, input[..inLength], i)
  {
    hide Repeats, Best;
    ghost var x := input[..inLength];
    bestLen, bestOff := 0, 0;
    BestOfNone(Format.LZSS, x, i);
    var offset := 1;
    while offset <= 0xFFF
      invariant 1 <= offset <= 0x1000 && BestBelow(Format.LZSS, x, i, offset, bestLen, bestOff)
    {
      if offset > i { break; }
      var len := MatchLength(input, inLength, i, offset);
      BestStep(Format.LZSS, x, i, offset, bestLen, bestOff, len);
      if len > bestLen {
        bestLen, bestOff := len, offset;
      }
      offset := offset + 1;
    }
    BestOfAll(Format.LZSS, x, i, offset, bestLen, bestOff);
  }

  /** Whole groups lay out one after the other. */
  lemma {:induction false} LayoutGroups(q: seq<Token>, g: seq<Token>)
    requires AllEncodable(q) && AllEncodable(g) && |q| % 8 == 0 && |g| <= 8
    ensures Layout(q + g) == Layout(q) + Group(g)
    decreases |q|
  {
    hide Operands, Flags;
    if q == [] {
      assert q + g == g;
    } else if |q| == 8 {
      if g == [] {
        assert q + g == q;
      } else {
        assert (q + g)[..8] == q && (q + g)[8..] == g;
      }
    } else {
      assert (q + g)[..8] == q[..8] && (q + g)[8..] == q[8..] + g;
      LayoutGroups(q[8..], g);
    }
  }

  /** The group being filled: its flag byte, then its operands. */
  function Open(g: seq<Token>): seq<byte>
    requires AllEncodable(g) && |g| <= 8
  {
    FlagsBound(g);
    [Flags(g)] + Operands(g)
  }

  lemma EncodablePush(g: seq<Token>, t: Token)
    requires AllEncodable(g) && Encodable(t)
    ensures AllEncodable(g + [t])
  {}

  /** The open group with a token more: its operand goes to the end, its flag into the byte in front. */
  function OpenWith(g: seq<Token>, t: Token): seq<byte>
    requires AllEncodable(g) && Encodable(t) && |g| < 8
  {
    FlagsBound(g);
    FlagsRoom(g);
    [Flags(g) + (if t.Literal? then Pow2(|g|) else 0)] + (Operands(g) + Operand(t))
  }

  lemma OpenPush(g: seq<Token>, t: Token)
    requires AllEncodable(g) && Encodable(t) && |g| < 8
    ensures AllEncodable(g + [t]) && Open(g + [t]) == OpenWith(g, t)
  {
    hide Flags, Operands, Operand, Pow2, AllEncodable, Encodable;
    EncodablePush(g, t);
    FlagsPush(g, t);
    OperandsOne(t);
    OperandsAppend(g, [t]);
  }

  lemma OpenSize(g: seq<Token>, t: Token)
    requires AllEncodable(g) && Encodable(t) && |g| < 8
    ensures |Open(g)| == 1 + |Operands(g)|
    ensures AllEncodable(g + [t]) && |Open(g + [t])| == |Open(g)| + |Operand(t)|
  {
    hide Operand, Flags, Operands;
    OpenPush(g, t);
  }

  lemma FlagsRoom(g: seq<Token>)
    requires |g| < 8
    ensures Flags(g) + Pow2(|g|) < 256
  {
    hide Flags;
    FlagsBound(g);
    Pow2Grows(|g| + 1, 8);
    assert Pow2(8) == 256;
  }

  lemma OperandsOne(t: Token)
    requires Encodable(t)
    ensures AllEncodable([t]) && Operands([t]) == Operand(t)
  {
    assert Operands([t]) == Operand(t) + Operands([]);
  }

  /** Writes one token into the open group, patching the group's flag byte. */
  method WriteToken(out: array<byte>, flagsPtr: nat, outPtr: nat, flagBitsUsed: nat, t: Token, ghost g: seq<Token>)
    returns (end: nat)
    requires AllEncodable(g) && Encodable(t) && |g| == flagBitsUsed < 8
    requires flagsPtr < outPtr && outPtr + |Operand(t)| <= out.Length
    requires out[flagsPtr..outPtr] == Open(g)
    modifies out
    ensures AllEncodable(g + [t]) && end == outPtr + |Operand(t)| && out[flagsPtr..end] == Open(g + [t])
    ensures out[..flagsPtr] == old(out[..flagsPtr]) && out[end..] == old(out[end..])
  {
    hide Flags, Operands, Pow2, Open, OpenWith, AllEncodable, Operand, Encodable;
    OperandBytes(t);
    OpenPush(g, t);
    OpenParts(g, t);
    ghost var p := out[..];
    assert out[flagsPtr] == p[flagsPtr..outPtr][0];
    match t
    case Copy(len, back) =>
      out[outPtr] := back % 256;
      out[outPtr + 1] := (len - 3) + back / 256 % 16 * 16;
      end := outPtr + 2;
      CopyWritten(p, out[..], flagsPtr, outPtr, Operand(t));
    case Literal(b) =>
      out[flagsPtr] := out[flagsPtr] + Pow2(flagBitsUsed);
      out[outPtr] := b;
      end := outPtr + 1;
      LiteralWritten(p, out[..], flagsPtr, outPtr, b);
  }

  lemma OperandBytes(t: Token)
    requires Encodable(t)
    ensures match t
      case Literal(b) => Operand(t) == [b]
      case Copy(len, back) =>
        3 <= len <= 18 && back < 0x1000 && Operand(t) == [back % 256, (len - 3) + back / 256 % 16 * 16]
  {}

  lemma OpenParts(g: seq<Token>, t: Token)
    requires AllEncodable(g) && Encodable(t) && |g| < 8
    ensures |Open(g)| > 0 && Open(g)[0] + Pow2(|g|) < 256
    ensures OpenWith(g, t) == [Open(g)[0] + (if t.Literal? then Pow2(|g|) else 0)] + (Open(g)[1..] + Operand(t))
  {
    hide Flags, Operands, Pow2, Operand;
    FlagsRoom(g);
  }

  lemma CopyWritten(p: seq<byte>, q: seq<byte>, from: nat, to: nat, d: seq<byte>)
    requires |p| == |q| && from < to && to + 2 <= |p| && |d| == 2
    requires q == p[to := d[0]][to + 1 := d[1]]
    ensures q[from..to + 2] == [p[from..to][0]] + (p[from..to][1..] + d)
    ensures q[..from] == p[..from] && q[to + 2..] == p[to + 2..]
  {
    assert q[from..to + 2] == p[from..to] + d;
  }

  lemma LiteralWritten(p: seq<byte>, q: seq<byte>, from: nat, to: nat, b: byte)
    requires |p| == |q| && from < to && to + 1 <= |p|
    requires q == p[from := q[from]][to := b]
    ensures q[from..to + 1] == [q[from]] + (p[from..to][1..] + [b])
    ensures q[..from] == p[..from] && q[to + 1..] == p[to + 1..]
  {}

  /** The tokens written so far are the first ones of the parse, and no larger than what they describe. */
  ghost predicate Behind(x: seq<byte>, i: nat, ts: seq<Token>)
  {
    i <= |x| && AllEncodable(ts) && ts + GreedyTokens(Format.LZSS, x, i) == GreedyTokens(Format.LZSS, x, 0) &&
    |Operands(ts)| <= i && |ts| <= i
  }

  /** What is in the buffer, in terms of the tokens so far: whole groups `q`, then the open one. */
  ghost predicate Progress(x: seq<byte>, i: nat, q: seq<Token>, g: seq<Token>)
  {
    AllEncodable(q) && AllEncodable(g) && |q| % 8 == 0 && |g| <= 8 && Behind(x, i, q + g)
  }

  lemma ProgressStarts(x: seq<byte>)
    ensures Progress(x, 0, [], [])
  {
    var none: seq<Token> := [];
    assert none + none == none && none + GreedyTokens(Format.LZSS, x, 0) == GreedyTokens(Format.LZSS, x, 0);
  }

  lemma NextGroup(x: seq<byte>, i: nat, q: seq<Token>, g: seq<Token>)
    requires Progress(x, i, q, g) && |g| == 8
    ensures Progress(x, i, q + g, []) && Layout(q + g) == Layout(q) + Open(g)
  {
    hide Operands, Flags, Encodable, Behind, Layout;
    LayoutGroups(q, g);
    assert q + g + [] == q + g;
  }

  lemma NextProgress(x: seq<byte>, i: nat, q: seq<Token>, g: seq<Token>)
    requires Progress(x, i, q, g) && |g| < 8 && i < |x|
    ensures AllEncodable(g)
    ensures var t := NextToken(Format.LZSS, x, i); Encodable(t) && Progress(x, i + t.Size(), q, g + [t])
  {
    hide Behind, NextToken;
    var t := NextToken(Format.LZSS, x, i);
    NextBehind(x, i, q + g);
    assert q + g + [t] == q + (g + [t]);
  }

  lemma NextBehind(x: seq<byte>, i: nat, ts: seq<Token>)
    requires Behind(x, i, ts) && i < |x|
    ensures var t := NextToken(Format.LZSS, x, i); Encodable(t) && Behind(x, i + t.Size(), ts + [t])
  {
    hide Operands, Operand, NextToken;
    var t := NextToken(Format.LZSS, x, i);
    var rest := GreedyTokens(Format.LZSS, x, i + t.Size());
    assert GreedyTokens(Format.LZSS, x, i) == [t] + rest;
    assert ts + ([t] + rest) == (ts + [t]) + rest;
    OperandsAppend(ts, [t]);
    OperandsOne(t);
  }

  /** The encoder never leaves the buffer. */
  lemma ProgressSize(x: seq<byte>, i: nat, q: seq<Token>, g: seq<Token>)
    requires Progress(x, i, q, g) && g != []
    ensures |Layout(q)| + |Open(g)| <= |x| + (|x| + 7) / 8
  {
    hide Operands, Flags, GreedyTokens, Layout;
    LayoutSize(q + g);
    LayoutGroups(q, g);
  }

  lemma ProgressEnds(x: seq<byte>, q: seq<Token>, g: seq<Token>)
    requires Progress(x, |x|, q, g)
    ensures Encoding(x) == if g == [] then Layout(q) else Layout(q) + Open(g)
  {
    hide Operands, Flags, Layout;
    LayoutGroups(q, g);
    assert q + g + [] == q + g && q + [] == q;
  }

  /** A full group joins the whole ones. */
  lemma CloseGroup(x: seq<byte>, i: nat, q: seq<Token>, g: seq<Token>, below: seq<byte>, top: seq<byte>)
    returns (q': seq<Token>, g': seq<Token>)
    requires Progress(x, i, q, g)
    requires if g == [] then q == [] && below == top == [] else |g| == 8 && below == Layout(q) && top == Open(g)
    ensures g' == [] && Progress(x, i, q', g') && below + top == Layout(q') && Open(g') == [0]
  {
    q', g' := q + g, [];
    if g == [] {
      LayoutNothing();
    } else {
      NextGroup(x, i, q, g);
    }
  }

  /** There is room for the flag byte of another group and its first token. */
  lemma GroupRoom(x: seq<byte>, i: nat, q: seq<Token>)
    requires Progress(x, i, q, []) && i < |x|
    ensures |Layout(q)| < |x| + (|x| + 7) / 8
  {
    hide Layout, Open, Operand, Operands, GreedyTokens, Best;
    var t := NextToken(Format.LZSS, x, i);
    NextProgress(x, i, q, []);
    ProgressSize(x, i + t.Size(), q, [] + [t]);
    OpenSize([], t);
  }

  /** Finds the token at `i` and writes it into the open group. */
  method WriteNext(input: array<byte>, inLength: nat, out: array<byte>, i: nat, flagsPtr: nat, outPtr: nat,
                   flagBitsUsed: nat, ghost q: seq<Token>, ghost g: seq<Token>)
    returns (next: nat, end: nat)
    requires input != out && i < inLength <= input.Length && inLength + (inLength + 7) / 8 <= out.Length
    requires Progress(input[..inLength], i, q, g) && |g| == flagBitsUsed < 8
    requires flagsPtr <= outPtr <= out.Length && out[..flagsPtr] == Layout(q) && out[flagsPtr..outPtr] == Open(g)
    modifies out
    ensures var t := NextToken(Format.LZSS, input[..inLength], i);
      next == i + t.Size() && Progress(input[..inLength], next, q, g + [t]) &&
      outPtr < end <= inLength + (inLength + 7) / 8 && out[flagsPtr..end] == Open(g + [t])
    ensures out[..flagsPtr] == old(out[..flagsPtr])
    ensures var cap := inLength + (inLength + 7) / 8; out[cap..] == old(out[cap..])
  {
    hide Layout, Open, Operand, Operands, GreedyTokens, Best, AllEncodable, Encodable, Describes, Progress;
    ghost var x := input[..inLength];
    NextProgress(x, i, q, g);
    var bestLen, bestOff := FindMatch(input, inLength, i);
    var t := if bestLen >= 3 then Copy(bestLen, bestOff) else Literal(input[i]);
    assert t == NextToken(Format.LZSS, x, i);
    ProgressSize(x, i + t.Size(), q, g + [t]);
    OpenSize(g, t);
    end := WriteToken(out, flagsPtr, outPtr, flagBitsUsed, t, g);
    next := i + t.Size();
    SameTail(old(out[..]), out[..], end, inLength + (inLength + 7) / 8);
  }

  method EncodeLZSS(input: array<byte>, out: array<byte>, inLength: nat) returns (outLength: nat)
    requires input != out && inLength <= input.Length && inLength + (inLength + 7) / 8 <= out.Length
    modifies out
    ensures outLength <= inLength + (inLength + 7) / 8 && out[..outLength] == Encoding(input[..inLength])
    ensures var cap := inLength + (inLength + 7) / 8; out[cap..] == old(out[cap..])
  {
    hide Layout, Open, Operand, Operands, GreedyTokens, Best, AllEncodable, Encodable, Encoding, Describes, Behind;
    ghost var cap := inLength + (inLength + 7) / 8;
    ghost var x := input[..inLength];
    ghost var q: seq<Token>, g: seq<Token> := [], [];
    var i, outPtr := 0, 0;
    var flagsPtr, flagBitsUsed := 0, 8;
    ProgressStarts(x);
    while i != inLength
      invariant 0 <= i <= inLength && 0 <= outPtr <= cap && input[..inLength] == x
      invariant Progress(x, i, q, g)
      invariant if g == [] then q == [] && flagBitsUsed == 8 && outPtr == 0
                else flagBitsUsed == |g|
      invariant 0 <= flagsPtr <= outPtr
      invariant g != [] ==> out[..flagsPtr] == Layout(q) && out[flagsPtr..outPtr] == Open(g)
      invariant out[cap..] == old(out[cap..])
    {
      if flagBitsUsed == 8 {
        q, g := CloseGroup(x, i, q, g, out[..flagsPtr], out[flagsPtr..outPtr]);
        assert out[..outPtr] == out[..flagsPtr] + out[flagsPtr..outPtr];
        flagsPtr := outPtr;
        GroupRoom(x, i, q);
        out[flagsPtr] := 0;
        outPtr := outPtr + 1;
        flagBitsUsed := 0;
      }
      assert out[flagsPtr..outPtr] == Open(g);
      ghost var t := NextToken(Format.LZSS, x, i);
      i, outPtr := WriteNext(input, inLength, out, i, flagsPtr, outPtr, flagBitsUsed, q, g);
      g := g + [t];
      flagBitsUsed := flagBitsUsed + 1;
    }
    ProgressEnds(x, q, g);
    LayoutNothing();
    assert out[..outPtr] == out[..flagsPtr] + out[flagsPtr..outPtr];
    return outPtr;
  }
}
