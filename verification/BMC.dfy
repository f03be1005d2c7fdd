/** The BMC compressor: greedy tokens, each a flag bit followed by a byte or by a length and an offset. */
module BMC {
  import opened Bytes
  import opened Tokens
  import opened BitFields
  import opened BMCCodes
  import opened BitStream
  import opened Greedy

  // ---------- the format ----------

  predicate Encodable(t: Token) {
    t.Copy? ==> 2 <= t.len <= MAX_LENGTH && t.len <= t.back <= t.len + MAX_OFFSET
  }

  /** One token in front of `k`.  The offset counts back from the start of the copy's source to its end. */
  function Emit(t: Token, k: bits): bits
    requires Encodable(t)
  {
    match t
    case Literal(b) => Put(1, 0, Put(8, b, k))
    case Copy(len, back) => Put(1, 1, PutLength(len, PutOffset(back - len, k)))
  }

  function EmitAll(ts: seq<Token>, k: bits): bits
    requires forall t :: t in ts ==> Encodable(t)
  {
    if ts == [] then k else Emit(ts[0], EmitAll(ts[1..], k))
  }

  /** The token at the front of a bit string, and what follows it. */
  function GetToken(s: bits): (r: (Token, bits))
    ensures Encodable(r.0)
  {
    var (flag, s) := Get(s, 1);
    if flag == 1 then
      LengthRange(s);
      var (len, s) := GetLength(s);
      OffsetRange(s);
      var (offset, s) := GetOffset(s);
      (Copy(len, offset + len), s)
    else
      var (b, s) := Get(s, 8);
      assert Pow2(8) == 256;
      (Literal(b), s)
  }

  /** A copy must start inside the bytes produced and end inside the room left. */
  predicate Fits(out: seq<byte>, t: Token, outLen: nat) {
    t.Copy? ==> 1 <= t.back <= |out| && |out| + t.len <= outLen
  }

  /** What a decoder makes of a bit string: whether it was accepted, and the bytes produced. */
  function Decode(s: bits, out: seq<byte>, outLen: nat): (r: (bool, seq<byte>))
    requires |out| <= outLen
    ensures |r.1| <= outLen && (r.0 ==> |r.1| == outLen)
    decreases outLen - |out|
  {
    if |s| < 8 || |out| == outLen then (|s| < 8 && |out| == outLen, out) else
      var (t, rest) := GetToken(s);
      if Fits(out, t, outLen) then Decode(rest, Apply(out, t), outLen) else (false, out)
  }

  // ---------- the round trip ----------

  lemma TokenReadsBack(t: Token, k: bits)
    requires Encodable(t)
    ensures GetToken(Emit(t, k)) == (t, k)
  {
    hide Put, Get, PutLength, PutOffset, GetLength, GetOffset;
    assert Pow2(1) == 2 && Pow2(8) == 256;
    if t.Copy? {
      LengthReadsBack(t.len, PutOffset(t.back - t.len, k));
      OffsetReadsBack(t.back - t.len, k);
    }
  }

  /** Token costs in bits, whatever follows: at least 9, and at most 9.5 for each byte described. */
  lemma EmitCost(t: Token, k: bits)
    requires Encodable(t)
    ensures |Emit(t, k)| >= |k| + 9
    ensures 2 * |Emit(t, k)| <= 2 * |k| + 19 * t.Size()
  {
    hide Put, PutLength, PutOffset;
    if t.Copy? {
      LengthCost(t.len, PutOffset(t.back - t.len, k));
      OffsetCost(t.back - t.len, k);
    }
  }

  lemma {:induction false} DecodeEmitted(x: seq<byte>, i: nat, ts: seq<Token>, k: bits)
    requires Parses(x, i, ts) && i <= |x| && |k| < 8
    requires forall t :: t in ts ==> Encodable(t)
    ensures Decode(EmitAll(ts, k), x[..i], |x|) == (true, x)
    decreases |ts|
  {
    hide Emit, GetToken;
    ParsesPosition(x, i, ts);
    if ts == [] {
      assert x[..i] == x;
    } else {
      var t, rest := ts[0], EmitAll(ts[1..], k);
      EmitCost(t, rest);
      TokenReadsBack(t, rest);
      ParsesPosition(x, i + t.Size(), ts[1..]);
      ApplyDescribes(x, i, t);
      DecodeEmitted(x, i + t.Size(), ts[1..], k);
    }
  }

  /** The bit string the encoder makes of `x`, padded to whole bytes. */
  function Encoding(x: seq<byte>): bits {
    var ts := GreedyTokens(Format.BMC, x, 0);
    EmitAll(ts, Zeros(Padding(|EmitAll(ts, [])|)))
  }

  lemma {:induction false} EmitAllLength(ts: seq<Token>, k: bits)
    requires forall t :: t in ts ==> Encodable(t)
    ensures |EmitAll(ts, k)| == |EmitAll(ts, [])| + |k|
  {
    hide Emit;
    if ts != [] {
      EmitAllLength(ts[1..], k);
      EmitLength(ts[0], EmitAll(ts[1..], k), EmitAll(ts[1..], []));
    }
  }

  lemma EmitLength(t: Token, k: bits, k': bits)
    requires Encodable(t)
    ensures |Emit(t, k)| - |k| == |Emit(t, k')| - |k'|
  {
    hide Put, PutLength, PutOffset;
    if t.Copy? {
      CodeLengths(t.len, PutOffset(t.back - t.len, k), PutOffset(t.back - t.len, k'));
      OffsetLengths(t.back - t.len, k, k');
    }
  }

  lemma {:induction false} EmitAllCost(x: seq<byte>, i: nat, ts: seq<Token>)
    requires Parses(x, i, ts) && i <= |x|
    requires forall t :: t in ts ==> Encodable(t)
    ensures 2 * |EmitAll(ts, [])| <= 19 * (|x| - i)
    decreases |ts|
  {
    hide Emit;
    ParsesPosition(x, i, ts);
    if ts != [] {
      ParsesPosition(x, i + ts[0].Size(), ts[1..]);
      EmitAllCost(x, i + ts[0].Size(), ts[1..]);
      EmitCost(ts[0], EmitAll(ts[1..], []));
    }
  }

  /** Every byte string survives the trip, its own bits followed by fewer than eight of padding. */
  lemma RoundTrip(x: seq<byte>)
    ensures Decode(Encoding(x), [], |x|) == (true, x)
  {
    hide EmitAll, Decode;
    var ts := GreedyTokens(Format.BMC, x, 0);
    DecodeEmitted(x, 0, ts, Zeros(Padding(|EmitAll(ts, [])|)));
    assert x[..0] == [];
  }

  /** An upper bound: 19 bits for every two bytes, rounded up to whole bytes. */
  lemma SizeBound(x: seq<byte>)
    ensures |Encoding(x)| % 8 == 0 && |Encoding(x)| / 8 <= (19 * |x| + 15) / 16
  {
    hide EmitAll;
    var ts := GreedyTokens(Format.BMC, x, 0);
    EmitAllLength(ts, Zeros(Padding(|EmitAll(ts, [])|)));
    EmitAllCost(x, 0, ts);
  }

  // ---------- the bits token by token ----------

  /** The bits of the text from `i` on, in front of `k`. */
  function From(x: seq<byte>, i: nat, k: bits): bits
    requires i <= |x|
  {
    EmitAll(GreedyTokens(Format.BMC, x, i), k)
  }

  lemma NextTokens(x: seq<byte>, i: nat)
    requires i < |x|
    ensures var t, ts := NextToken(Format.BMC, x, i), GreedyTokens(Format.BMC, x, i);
      Encodable(t) && ts != [] && ts[0] == t && ts[1..] == GreedyTokens(Format.BMC, x, i + t.Size())
  {
    hide NextToken;
  }

  lemma FromNext(x: seq<byte>, i: nat, k: bits)
    requires i < |x|
    ensures var t := NextToken(Format.BMC, x, i);
      Encodable(t) && t.Size() > 0 && i + t.Size() <= |x| && From(x, i, k) == Emit(t, From(x, i + t.Size(), k))
  {
    hide Emit, NextToken, GreedyTokens;
    NextTokens(x, i);
    assert Describes(x, i, NextToken(Format.BMC, x, i));
  }

  lemma FromEnd(x: seq<byte>, k: bits)
    ensures From(x, |x|, k) == k
  {}

  /** What stands behind a token does not change its bits. */
  lemma EmitSuffix(t: Token, k: bits)
    requires Encodable(t)
    ensures Emit(t, k) == Emit(t, []) + k
  {
    hide Emit;
    assert [] + k == k;
    EmitThen(t, [], k);
  }

  lemma EmitThen(t: Token, k: bits, z: bits)
    requires Encodable(t)
    ensures Emit(t, Then(k, z)) == Then(Emit(t, k), z)
  {
    hide Put, Then, Get, Pow2, PutLength, PutOffset;
    PutThens(z);
    if t.Copy? {
      OffsetThen(t.back - t.len, k, z);
      LengthThen(t.len, PutOffset(t.back - t.len, k), z);
    }
  }

  /** Cutting the bits behind a token. */
  lemma EmitCut(t: Token, k: bits, n: nat)
    requires Encodable(t) && n <= |k|
    ensures var w := |Emit(t, [])|;
      |Emit(t, k)| == w + |k| && Emit(t, k)[..w + n] == Emit(t, k[..n]) && (n < |k| ==> Emit(t, k)[w + n] == k[n])
  {
    hide Emit;
    EmitSuffix(t, k);
    EmitSuffix(t, k[..n]);
    CutAfter(Emit(t, []), k, n);
  }

  lemma CutAfter(s: bits, k: bits, n: nat)
    requires n <= |k|
    ensures (s + k)[..|s| + n] == s + k[..n] && (n < |k| ==> (s + k)[|s| + n] == k[n])
  {}

  lemma DecodeOne(s: bits, out: seq<byte>, outLen: nat)
    requires |s| >= 8 && |out| < outLen
    ensures Decode(s, out, outLen) ==
      if Fits(out, GetToken(s).0, outLen)
      then Decode(GetToken(s).1, Apply(out, GetToken(s).0), outLen) else (false, out)
  {
    hide GetToken, Apply;
  }

  lemma DecodeStops(s: bits, out: seq<byte>, outLen: nat)
    requires |out| <= outLen && (|s| < 8 || |out| == outLen)
    ensures Decode(s, out, outLen) == (|s| < 8 && |out| == outLen, out)
  {}

  /** With less than a byte left there is nothing more to decode. */
  lemma DecodeDone(s: bits, out: seq<byte>, outLen: nat)
    requires |s| < 8 && |out| <= outLen
    ensures Decode(s, out, outLen) == (|out| == outLen, out)
  {}

  /** Decoding one token of the text. */
  lemma TokenStep(x: seq<byte>, i: nat, t: Token, k: bits)
    requires i < |x| && t == NextToken(Format.BMC, x, i) && Encodable(t)
    ensures i + t.Size() <= |x|
    ensures Decode(Emit(t, k), x[..i], |x|) == Decode(k, x[..i + t.Size()], |x|)
  {
    hide Emit, GetToken, Decode, Apply, NextToken, Repeats;
    assert Describes(x, i, NextToken(Format.BMC, x, i));
    DescribesWithin(x, i, t);
    TokenReadsBack(t, k);
    EmitCost(t, k);
    ApplyDescribes(x, i, t);
    DecodeOne(Emit(t, k), x[..i], |x|);
  }

  lemma DescribesWithin(x: seq<byte>, i: nat, t: Token)
    requires Describes(x, i, t)
    ensures i + t.Size() <= |x| && Fits(x[..i], t, |x|)
  {}

  // ---------- writing codes ----------

  method WriteLength(stream: BitStream, n: nat, ghost k: bits)
    requires stream.Writing() && 2 <= n <= MAX_LENGTH
    modifies stream, stream.buf
    ensures stream.Writing() && stream.SentThen(k) == old(stream.SentThen(PutLength(n, k)))
    ensures stream.Outside() == old(stream.Outside())
  {
    hide Put, PutMidLength, BitStream.Writing, BitStream.Outside, BitStream.SentThen, Get, Pow2;
    if n < 4 {
      stream.WriteBits(2, n - 2, k);
    } else if n < 6 {
      stream.WriteBits(2, 2, Put(1, n - 4, k));
      stream.WriteBit(n - 4, k);
    } else {
      stream.WriteBits(2, 3, PutMidLength(n, k));
      WriteMidLength(stream, n, k);
    }
  }

  method WriteMidLength(stream: BitStream, n: nat, ghost k: bits)
    requires stream.Writing() && 6 <= n <= MAX_LENGTH
    modifies stream, stream.buf
    ensures stream.Writing() && stream.SentThen(k) == old(stream.SentThen(PutMidLength(n, k)))
    ensures stream.Outside() == old(stream.Outside())
  {
    hide Put, PutLongLength, BitStream.Writing, BitStream.Outside, BitStream.SentThen, Get, Pow2;
    if n == 6 {
      stream.WriteBits(2, 0, k);
    } else if n == 7 {
      stream.WriteBits(2, 2, Put(1, 0, k));
      stream.WriteBit(0, k);
    } else if n < 10 {
      stream.WriteBits(2, 1, Put(1, n - 8, k));
      stream.WriteBit(n - 8, k);
    } else if n < 12 {
      ghost var last := Put(1, n - 10, k);
      stream.WriteBits(2, 2, Put(1, 1, last));
      stream.WriteBit(1, last);
      stream.WriteBit(n - 10, k);
    } else {
      stream.WriteBits(2, 3, PutLongLength(n, k));
      WriteLongLength(stream, n, k);
    }
  }

  method WriteLongLength(stream: BitStream, n: nat, ghost k: bits)
    requires stream.Writing() && 12 <= n <= MAX_LENGTH
    modifies stream, stream.buf
    ensures stream.Writing() && stream.SentThen(k) == old(stream.SentThen(PutLongLength(n, k)))
    ensures stream.Outside() == old(stream.Outside())
  {
    hide Put, BitStream.Writing, BitStream.Outside, BitStream.SentThen, Get, Pow2;
    if n < 14 {
      stream.WriteBits(3, n - 12, k);
    } else if n == 14 {
      stream.WriteBits(3, 5, k);
    } else if n == 15 {
      stream.WriteBits(3, 7, Put(1, 0, k));
      stream.WriteBit(0, k);
    } else if n < 18 {
      stream.WriteBits(3, 3, Put(1, n - 16, k));
      stream.WriteBit(n - 16, k);
    } else if n < 20 {
      ghost var last := Put(1, n - 18, k);
      stream.WriteBits(3, 6, Put(1, 1, last));
      stream.WriteBit(1, last);
      stream.WriteBit(n - 18, k);
    } else if n < 24 {
      stream.WriteBits(3, 2, Put(2, n - 20, k));
      stream.WriteBits(2, n - 20, k);
    } else if n < 32 {
      stream.WriteBits(3, 4, Put(3, n - 24, k));
      stream.WriteBits(3, n - 24, k);
    } else if n < 64 {
      ghost var last := Put(5, n - 32, k);
      stream.WriteBits(3, 6, Put(1, 0, last));
      stream.WriteBit(0, last);
      stream.WriteBits(5, n - 32, k);
    } else {
      WriteTopLength(stream, n, k);
    }
  }

  method WriteTopLength(stream: BitStream, n: nat, ghost k: bits)
    requires stream.Writing() && 64 <= n <= MAX_LENGTH
    modifies stream, stream.buf
    ensures stream.Writing() && stream.SentThen(k) == old(stream.SentThen(PutLongLength(n, k)))
    ensures stream.Outside() == old(stream.Outside())
  {
    hide Put, BitStream.Writing, BitStream.Outside, BitStream.SentThen, Get, Pow2;
    if n < 128 {
      ghost var last := Put(6, n - 64, k);
      stream.WriteBits(3, 7, Put(1, 1, Put(1, 0, last)));
      stream.WriteBit(1, Put(1, 0, last));
      stream.WriteBit(0, last);
      stream.WriteBits(6, n - 64, k);
    } else if n < 256 {
      ghost var last := Put(7, n - 128, k);
      ghost var rest := Put(1, 1, Put(1, 0, last));
      stream.WriteBits(3, 7, Put(1, 1, rest));
      stream.WriteBit(1, rest);
      stream.WriteBit(1, Put(1, 0, last));
      stream.WriteBit(0, last);
      stream.WriteBits(7, n - 128, k);
    } else {
      ghost var last := Put(1, 1, k);
      stream.WriteBits(3, 7, Put(1, 1, Put(1, 1, last)));
      stream.WriteBit(1, Put(1, 1, last));
      stream.WriteBit(1, last);
      stream.WriteBit(1, k);
    }
  }

  method WriteOffset(stream: BitStream, n: nat, ghost k: bits)
    requires stream.Writing() && n <= MAX_OFFSET
    modifies stream, stream.buf
    ensures stream.Writing() && stream.SentThen(k) == old(stream.SentThen(PutOffset(n, k)))
    ensures stream.Outside() == old(stream.Outside())
  {
    hide Put, PutNearOffset, BitStream.Writing, BitStream.Outside, BitStream.SentThen, Get, Pow2;
    if n < 16 {
      stream.WriteBits(3, 7, PutNearOffset(n, k));
      WriteNearOffset(stream, n, k);
    } else if n < 32 {
      ghost var last := Put(4, n - 16, k);
      stream.WriteBits(3, 6, Put(1, 1, last));
      stream.WriteBit(1, last);
      stream.WriteBits(4, n - 16, k);
    } else if n < 64 {
      ghost var last := Put(5, n - 32, k);
      stream.WriteBits(3, 6, Put(1, 0, last));
      stream.WriteBit(0, last);
      stream.WriteBits(5, n - 32, k);
    } else if n < 128 {
      stream.WriteBits(3, 3, Put(6, n - 64, k));
      stream.WriteBits(6, n - 64, k);
    } else if n < 256 {
      stream.WriteBits(3, 4, Put(7, n - 128, k));
      stream.WriteBits(7, n - 128, k);
    } else if n < 512 {
      stream.WriteBits(3, 2, Put(8, n - 256, k));
      stream.WriteBits(8, n - 256, k);
    } else if n < 1024 {
      stream.WriteBits(3, 1, Put(9, n - 512, k));
      stream.WriteBits(9, n - 512, k);
    } else if n < 2048 {
      stream.WriteBits(3, 0, Put(10, n - 1024, k));
      stream.WriteBits(10, n - 1024, k);
    } else if n < 4096 {
      ghost var last := Put(11, n - 2048, k);
      stream.WriteBits(3, 5, Put(1, 0, last));
      stream.WriteBit(0, last);
      stream.WriteBits(11, n - 2048, k);
    } else {
      ghost var last := Put(12, n - 4096, k);
      stream.WriteBits(3, 5, Put(1, 1, last));
      stream.WriteBit(1, last);
      stream.WriteBits(12, n - 4096, k);
    }
  }

  method WriteNearOffset(stream: BitStream, n: nat, ghost k: bits)
    requires stream.Writing() && n < 16
    modifies stream, stream.buf
    ensures stream.Writing() && stream.SentThen(k) == old(stream.SentThen(PutNearOffset(n, k)))
    ensures stream.Outside() == old(stream.Outside())
  {
    hide Put, BitStream.Writing, BitStream.Outside, BitStream.SentThen, Get, Pow2;
    if n < 2 {
      stream.WriteBits(2, 0, Put(1, n, k));
      stream.WriteBit(n, k);
    } else if n == 2 {
      stream.WriteBits(2, 2, Put(1, 1, k));
      stream.WriteBit(1, k);
    } else if n == 3 {
      stream.WriteBits(2, 3, Put(2, 2, k));
      stream.WriteBits(2, 2, k);
    } else if n < 6 {
      ghost var last := Put(1, n - 4, k);
      stream.WriteBits(2, 2, Put(1, 0, last));
      stream.WriteBit(0, last);
      stream.WriteBit(n - 4, k);
    } else if n < 10 {
      stream.WriteBits(2, 1, Put(2, n - 6, k));
      stream.WriteBits(2, n - 6, k);
    } else if n < 12 {
      ghost var last := Put(1, n - 10, k);
      stream.WriteBits(2, 3, Put(2, 3, last));
      stream.WriteBits(2, 3, last);
      stream.WriteBit(n - 10, k);
    } else if n < 14 {
      ghost var last := Put(1, n - 12, k);
      stream.WriteBits(2, 3, Put(2, 0, last));
      stream.WriteBits(2, 0, last);
      stream.WriteBit(n - 12, k);
    } else {
      ghost var last := Put(1, n - 14, k);
      stream.WriteBits(2, 3, Put(2, 1, last));
      stream.WriteBits(2, 1, last);
      stream.WriteBit(n - 14, k);
    }
  }

  // ---------- reading codes ----------

  method ReadLength(stream: BitStream) returns (n: nat)
    requires stream.Reading()
    modifies stream
    ensures stream.Reading() && (n, stream.Unread()) == GetLength(old(stream.Unread()))
  {
    hide Get, GetLongLength, BitStream.Unread;
    Powers();
    var tmp := stream.ReadBits(2);
    if tmp == 0 {
      n := 2;
    } else if tmp == 1 {
      n := 3;
    } else if tmp == 2 {
      n := stream.ReadBits(1);
      n := n + 4;
    } else {
      tmp := stream.ReadBits(2);
      if tmp == 0 {
        n := 6;
      } else if tmp == 1 {
        n := stream.ReadBits(1);
        n := n + 8;
      } else if tmp == 2 {
        tmp := stream.ReadBits(1);
        if tmp == 1 {
          n := stream.ReadBits(1);
          n := n + 10;
        } else {
          n := 7;
        }
      } else {
        n := ReadLongLength(stream);
      }
    }
  }

  method ReadLongLength(stream: BitStream) returns (n: nat)
    requires stream.Reading()
    modifies stream
    ensures stream.Reading() && (n, stream.Unread()) == GetLongLength(old(stream.Unread()))
  {
    hide Get, GetTopLength, BitStream.Unread;
    Powers();
    var tmp := stream.ReadBits(3);
    match tmp {
      case 0 => n := 12;
      case 1 => n := 13;
      case 2 => n := stream.ReadBits(2); n := n + 20;
      case 3 => n := stream.ReadBits(1); n := n + 16;
      case 4 => n := stream.ReadBits(3); n := n + 24;
      case 5 => n := 14;
      case 6 =>
        tmp := stream.ReadBits(1);
        if tmp == 1 {
          n := stream.ReadBits(1);
          n := n + 18;
        } else {
          n := stream.ReadBits(5);
          n := n + 32;
        }
      case _ =>
        n := ReadTopLength(stream);
    }
  }

  method ReadTopLength(stream: BitStream) returns (n: nat)
    requires stream.Reading()
    modifies stream
    ensures stream.Reading() && (n, stream.Unread()) == GetTopLength(old(stream.Unread()))
  {
    hide Get, BitStream.Unread;
    Powers();
    var tmp := stream.ReadBits(1);
    if tmp == 1 {
      tmp := stream.ReadBits(1);
      if tmp == 1 {
        tmp := stream.ReadBits(1);
        if tmp == 1 {
          n := 256;
        } else {
          n := stream.ReadBits(7);
          n := n + 128;
        }
      } else {
        n := stream.ReadBits(6);
        n := n + 64;
      }
    } else {
      n := 15;
    }
  }

  method ReadOffset(stream: BitStream) returns (n: nat)
    requires stream.Reading()
    modifies stream
    ensures stream.Reading() && (n, stream.Unread()) == GetOffset(old(stream.Unread()))
  {
    hide Get, GetNearOffset, BitStream.Unread;
    Powers();
    var tmp := stream.ReadBits(3);
    match tmp {
      case 0 => n := stream.ReadBits(10); n := n + 1024;
      case 1 => n := stream.ReadBits(9); n := n + 512;
      case 2 => n := stream.ReadBits(8); n := n + 256;
      case 3 => n := stream.ReadBits(6); n := n + 64;
      case 4 => n := stream.ReadBits(7); n := n + 128;
      case 5 =>
        tmp := stream.ReadBits(1);
        if tmp == 1 {
          n := stream.ReadBits(12);
          n := n + 4096;
        } else {
          n := stream.ReadBits(11);
          n := n + 2048;
        }
      case 6 =>
        tmp := stream.ReadBits(1);
        if tmp == 1 {
          n := stream.ReadBits(4);
          n := n + 16;
        } else {
          n := stream.ReadBits(5);
          n := n + 32;
        }
      case _ =>
        n := ReadNearOffset(stream);
    }
  }

  method ReadNearOffset(stream: BitStream) returns (n: nat)
    requires stream.Reading()
    modifies stream
    ensures stream.Reading() && (n, stream.Unread()) == GetNearOffset(old(stream.Unread()))
  {
    hide Get, BitStream.Unread;
    Powers();
    var tmp := stream.ReadBits(2);
    match tmp {
      case 0 => n := stream.ReadBits(1);
      case 1 => n := stream.ReadBits(2); n := n + 6;
      case 2 =>
        tmp := stream.ReadBits(1);
        if tmp == 1 {
          n := 2;
        } else {
          n := stream.ReadBits(1);
          n := n + 4;
        }
      case _ =>
        tmp := stream.ReadBits(2);
        match tmp {
          case 0 => n := stream.ReadBits(1); n := n + 12;
          case 1 => n := stream.ReadBits(1); n := n + 14;
          case 2 => n := 3;
          case _ => n := stream.ReadBits(1); n := n + 10;
        }
    }
  }

  // ---------- the decoder ----------

  /** Accepts any bytes at all; never writes past `outLength`. */
  method DecodeBMC(input: array<byte>, out: array<byte>, inLength: nat, outLength: nat) returns (ok: bool)
    requires input != out && inLength <= input.Length && outLength <= out.Length
    modifies out
    ensures var r := Decode(Unpack(input[..inLength]), [], outLength);
      |r.1| <= outLength && ok == r.0 && out[..|r.1|] == r.1 && out[|r.1|..] == old(out[|r.1|..])
  {
    hide Unpack, GetToken, BitStream.Unread, BitStream.Writing, Apply, Fits, Decode;
    var stream := new BitStream(input, 0, inLength, 0);
    ghost var p := out[..];
    ghost var target := Decode(Unpack(input[..inLength]), [], outLength);
    var outPtr := 0;
    assert out[..outPtr] == [];
    var eof := stream.Eof();
    var fits := true;
    while !eof && outPtr != outLength && fits
      invariant stream.Reading() && fresh(stream) && stream.buf == input && 0 <= outPtr <= outLength
      invariant eof <==> |stream.Unread()| < 8
      invariant fits ==> Decode(stream.Unread(), out[..outPtr], outLength) == target
      invariant !fits ==> target == (false, out[..outPtr]) && outPtr < outLength
      invariant out[outPtr..] == p[outPtr..]
      decreases fits, outLength - outPtr
    {
      DecodeOne(stream.Unread(), out[..outPtr], outLength);
      var t := ReadToken(stream);
      if outPtr + t.Size() <= out.Length { SameTail(out[..], p, outPtr, outPtr + t.Size()); }
      fits := ApplyToken(out, outPtr, outLength, t);
      outPtr := if fits then outPtr + t.Size() else outPtr;
      eof := stream.Eof();
    }
    if fits { DecodeStops(stream.Unread(), out[..outPtr], outLength); }
    ok := eof && outPtr == outLength;
  }

  /** Carries a token out where it fits; a copy of no bytes has no code. */
  method ApplyToken(out: array<byte>, outPtr: nat, outLength: nat, t: Token) returns (fits: bool)
    requires outPtr < outLength <= out.Length && Encodable(t)
    modifies out
    ensures fits == Fits(old(out[..outPtr]), t, outLength)
    ensures fits ==> outPtr + t.Size() <= outLength && t.Size() > 0
    ensures fits ==> out[..outPtr + t.Size()] == Apply(old(out[..outPtr]), t)
    ensures fits ==> out[outPtr + t.Size()..] == old(out[outPtr + t.Size()..])
    ensures !fits ==> out[..] == old(out[..])
  {
    match t
    case Literal(b) =>
      ghost var before := out[..outPtr];
      out[outPtr] := b;
      assert out[..outPtr + 1] == before + [b];
      fits := true;
    case Copy(len, back) =>
      fits := back <= outPtr && outPtr + len <= outLength;
      if fits {
        CopyWithin(out, outPtr, len, back);
      }
  }

  /** One flag bit and what it announces. */
  method ReadToken(stream: BitStream) returns (t: Token)
    requires stream.Reading()
    modifies stream
    ensures stream.Reading() && (t, stream.Unread()) == GetToken(old(stream.Unread()))
  {
    hide Get, GetLength, GetOffset, BitStream.Unread;
    Powers();
    var flag := stream.ReadBits(1);
    if flag == 1 {
      var len := ReadLength(stream);
      var offset := ReadOffset(stream);
      t := Copy(len, offset + len);
    } else {
      var b := stream.ReadBits(8);
      t := Literal(b);
    }
  }

  /** Copies byte by byte, lowest address first. */
  method CopyWithin(out: array<byte>, outPtr: nat, len: nat, back: nat)
    requires 1 <= back <= outPtr && outPtr + len <= out.Length
    modifies out
    ensures out[..outPtr + len] == CopyBack(old(out[..outPtr]), len, back)
    ensures out[outPtr + len..] == old(out[outPtr + len..])
  {
    hide CopyBack;
    ghost var target, p := CopyBack(out[..outPtr], len, back), out[..];
    for i := 0 to len
      invariant CopyBack(out[..outPtr + i], len - i, back) == target
      invariant out[outPtr + i..] == p[outPtr + i..]
    {
      ghost var before := out[..];
      CopyStep(out[..outPtr + i], len - i, back);
      out[outPtr + i] := out[outPtr + i - back];
      Written(before, out[..], p, outPtr + i);
    }
    CopyStep(out[..outPtr + len], 0, back);
  }

  lemma CopyStep(out: seq<byte>, len: nat, back: nat)
    requires 1 <= back <= |out|
    ensures CopyBack(out, len, back) == if len == 0 then out else CopyBack(out + [out[|out| - back]], len - 1, back)
  {}

  lemma Written(p: seq<byte>, q: seq<byte>, r: seq<byte>, k: nat)
    requires k < |p| == |q| == |r| && q == p[k := q[k]] && p[k..] == r[k..]
    ensures q[..k + 1] == p[..k] + [q[k]] && q[k + 1..] == r[k + 1..]
  {
    assert p[k..][1..] == p[k + 1..] && r[k..][1..] == r[k + 1..];
  }

  // ---------- the encoder ----------

  /** The length of the repetition at distance `offset`, as far as the format cares. */
  method MatchLength(input: array<byte>, inLength: nat, i: nat, offset: nat) returns (len: nat)
    requires i < inLength <= input.Length && 1 <= offset <= i
    ensures len <= 256 && len <= offset && Repeats(input[..inLength], i, len, offset)
    ensures forall l :: len < l <= 256 && l <= offset ==> !Repeats(input[..inLength], i, l, offset)
  {
    ghost var x := input[..inLength];
    len := 0;
    while len <= 256 && i + len != inLength && len < offset && input[i - offset + len] == input[i + len]
      invariant len <= 257 && len <= offset && i + len <= inLength
      invariant forall j :: i <= j < i + len ==> x[j - offset] == x[j]
    {
      len := len + 1;
    }
    // the loop looks one byte further than a copy can reach
    if len > 256 {
      len := len - 1;
    } else if i + len < inLength && len < offset {
      assert x[i + len - offset] != x[i + len];
    }
  }

  /** The longest match; the loop keeps the first, hence nearest, of equally long ones. */
  method FindMatch(input: array<byte>, inLength: nat, i: nat) returns (bestLen: nat, bestOff: nat)
    requires i < inLength <= input.Length
    ensures (bestLen, bestOff) == Best(Format.BMC, input[..inLength], i)
  {
    hide Repeats, Best;
    ghost var x := input[..inLength];
    bestLen, bestOff := 0, 0;
    var offset := 1;
    while offset < 8192 + 256
      invariant 1 <= offset <= 8192 + 256 && BestBelow(Format.BMC, x, i, offset, bestLen, bestOff)
    {
      if offset > i { break; }
      var len := MatchLength(input, inLength, i, offset);
      BestStep(Format.BMC, x, i, offset, bestLen, bestOff, len);
      if len > bestLen && offset <= 8191 + len {
        bestLen, bestOff := len, offset;
      }
      offset := offset + 1;
    }
    BestOfAll(Format.BMC, x, i, offset, bestLen, bestOff);
  }

  /** Writes one token; `k` is everything still to come. */
  method WriteToken(stream: BitStream, t: Token, ghost k: bits)
    requires stream.Writing() && Encodable(t)
    modifies stream, stream.buf
    ensures stream.Writing() && stream.SentThen(k) == old(stream.SentThen(Emit(t, k)))
    ensures stream.Outside() == old(stream.Outside())
  {
    hide Put, PutLength, PutOffset, BitStream.Writing, BitStream.Outside, BitStream.SentThen, Get, Pow2;
    match t
    case Copy(len, back) =>
      stream.WriteBit(1, PutLength(len, PutOffset(back - len, k)));
      WriteLength(stream, len, PutOffset(back - len, k));
      WriteOffset(stream, back - len, k);
    case Literal(b) =>
      stream.WriteBit(0, Put(8, b, k));
      stream.WriteBits(8, b, k);
  }

  /** The encoding of the rest of `x`, in front of the padding of the whole. */
  ghost function Remaining(x: seq<byte>, i: nat): bits
    requires i <= |x|
  {
    From(x, i, Zeros(Padding(|EmitAll(GreedyTokens(Format.BMC, x, 0), [])|)))
  }

  lemma RemainingStep(x: seq<byte>, i: nat)
    requires i < |x|
    ensures var t := NextToken(Format.BMC, x, i);
      Encodable(t) && i + t.Size() <= |x| && Remaining(x, i) == Emit(t, Remaining(x, i + t.Size()))
  {
    hide Emit, NextToken, From;
    FromNext(x, i, Zeros(Padding(|EmitAll(GreedyTokens(Format.BMC, x, 0), [])|)));
  }

  lemma RemainingEnds(x: seq<byte>, sent: bits)
    requires sent + Remaining(x, |x|) == Encoding(x)
    ensures sent + Zeros(Padding(|sent|)) == Encoding(x)
  {
    var ts := GreedyTokens(Format.BMC, x, 0);
    EmitAllLength(ts, Zeros(Padding(|EmitAll(ts, [])|)));
  }

  /** Fills at most `maxOutLength` bytes with the encoding of the input; bits beyond that are dropped. */
  method EncodeBMC(input: array<byte>, out: array<byte>, inLength: nat, maxOutLength: nat, garbage: byte)
    returns (n: nat)
    requires input != out && inLength <= input.Length && maxOutLength <= out.Length
    modifies out
    ensures n <= maxOutLength
    ensures Unpack(out[..n]) == Stored(Encoding(input[..inLength]), 8 * maxOutLength)
    ensures out[maxOutLength..] == old(out[maxOutLength..])
  {
    hide Unpack, BitStream.Writing, Best, Emit, Remaining, Encoding, EmitAll, Stored;
    ghost var x := input[..inLength];
    assert Remaining(x, 0) == Encoding(x) by { RemainingAll(x); }
    var stream := new BitStream(out, 0, maxOutLength, garbage);
    var i := 0;
    while i != inLength
      invariant 0 <= i <= inLength && input[..inLength] == x
      invariant stream.Writing() && fresh(stream) && stream.buf == out
      invariant stream.SentThen(Remaining(x, i)) == Encoding(x)
      invariant stream.Outside() == old(([], out[maxOutLength..]))
    {
      RemainingStep(x, i);
      var bestLen, bestOff := FindMatch(input, inLength, i);
      var t := if bestLen >= 2 then Copy(bestLen, bestOff) else Literal(input[i]);
      assert t == NextToken(Format.BMC, x, i);
      WriteToken(stream, t, Remaining(x, i + t.Size()));
      i := i + t.Size();
    }
    RemainingEnds(x, stream.sent);
    stream.Flush();
    n := stream.data;
  }

  lemma RemainingAll(x: seq<byte>)
    ensures Remaining(x, 0) == Encoding(x)
  {}
}
