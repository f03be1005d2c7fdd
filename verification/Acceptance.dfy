/** Which inputs the LZSS decoder accepts, and what it makes of them. */
module Acceptance {
  import opened Bytes
  import opened Tokens
  import opened BitFields
  import opened Greedy
  import opened LZSS
  import opened Overrun

  // ---------- tokens that fill the output ----------

  /** The tokens can be carried out one after another from `pos` on and end where the output does. */
  predicate Fills(ts: seq<Token>, pos: nat, room: nat) {
    if ts == [] then pos == room
    else (ts[0].Copy? ==> ts[0].back <= pos) && Fills(ts[1..], pos + ts[0].Size(), room)
  }

  lemma {:induction false} FillsRoom(ts: seq<Token>, pos: nat, room: nat)
    requires Fills(ts, pos, room)
    ensures pos <= room && (ts != [] ==> pos + ts[0].Size() <= room)
  {
    if ts != [] { FillsRoom(ts[1..], pos + ts[0].Size(), room); }
  }

  /** What carrying them out leaves in the output. */
  function Played(ts: seq<Token>, buf: seq<byte>, pos: nat): (r: seq<byte>)
    requires Fills(ts, pos, |buf|)
    ensures |r| == |buf|
    decreases |ts|
  {
    FillsRoom(ts, pos, |buf|);
    if ts == [] then buf else
      match ts[0]
      case Literal(b) => Played(ts[1..], buf[pos := b], pos + 1)
      case Copy(len, back) => Played(ts[1..], CopyIn(buf, pos, len, back), pos + len)
  }

  /** The input ends behind token `k` of a layout; the tokens up to there fill the output. */
  predicate Complete(s: seq<byte>, ts: seq<Token>, k: nat, room: nat) {
    && AllEncodable(ts) && k <= |ts| && s <= Layout(ts) && |s| == |Layout(ts[..k])|
    && Fills(ts[..k], 0, room)
  }

  /** The same in the middle of a group. */
  predicate EndsAt(s: seq<byte>, g: seq<Token>, rest: seq<Token>, k: nat, pos: nat, room: nat) {
    && AllEncodable(g) && AllEncodable(rest) && k <= |g| + |rest|
    && s <= Operands(g) + Layout(rest) && |s| == Width(g, rest, k)
    && Fills((g + rest)[..k], pos, room)
  }

  // ---------- such an input is accepted ----------

  lemma EndsNow(s: seq<byte>, g: seq<Token>, rest: seq<Token>, pos: nat, room: nat)
    requires EndsAt(s, g, rest, 0, pos, room)
    ensures s == [] && pos == room && (g + rest)[..0] == []
  {
    WidthNone(g, rest);
  }

  /** One token further on. */
  lemma EndsNext(s: seq<byte>, g: seq<Token>, rest: seq<Token>, k: nat, pos: nat, room: nat)
    requires EndsAt(s, g, rest, k, pos, room) && g != [] && k > 0
    ensures AllEncodable(g[1..]) && |Operand(g[0])| <= |s| && pos + g[0].Size() <= room && (g + rest)[..k] != []
    ensures (g[0].Copy? ==> g[0].back <= pos) && (g + rest)[..k][0] == g[0]
    ensures (g + rest)[..k][1..] == (g[1..] + rest)[..k - 1]
    ensures var s' := s[|Operand(g[0])|..];
      s == Operand(g[0]) + s' && EndsAt(s', g[1..], rest, k - 1, pos + g[0].Size(), room)
  {
    hide Operand, Operands, Layout, Width;
    WidthFirst(g, rest, k);
    OperandInFront(g, Layout(rest));
    assert (g + rest)[..k][1..] == (g[1..] + rest)[..k - 1];
    FillsRoom((g + rest)[..k], pos, room);
    PrefixTail(s, Operand(g[0]), Operands(g[1..]) + Layout(rest));
  }

  lemma PrefixTail(s: seq<byte>, a: seq<byte>, b: seq<byte>)
    requires s <= a + b && |a| <= |s|
    ensures s == a + s[|a|..] && s[|a|..] <= b
  {}

  /** A new group. */
  lemma EndsGroup(s: seq<byte>, rest: seq<Token>, k: nat, pos: nat, room: nat) returns (n: nat)
    requires EndsAt(s, [], rest, k, pos, room) && k > 0
    ensures rest != [] && n == (if |rest| <= 8 then |rest| else 8) && s != []
    ensures s[0] == Flags(rest[..n]) && EndsAt(s[1..], rest[..n], rest[n..], k, pos, room)
    ensures rest[..n] + rest[n..] == [] + rest
  {
    hide Operands, Layout, Flags, Fills;
    n := if |rest| <= 8 then |rest| else 8;
    LayoutFirst(rest, n);
    WidthGroup(rest, n, k);
    assert [] + rest == rest == rest[..n] + rest[n..];
    assert Operands([]) + Layout(rest) == [Flags(rest[..n])] + (Operands(rest[..n]) + Layout(rest[n..]));
  }

  lemma {:induction false} EndsAccepted(s: seq<byte>, g: seq<Token>, rest: seq<Token>, k: nat, used: nat,
                                        buf: seq<byte>, pos: nat)
    requires EndsAt(s, g, rest, k, pos, |buf|)
    requires used + |g| <= 8 && (rest != [] ==> used + |g| == 8)
    ensures pos <= |buf|
    ensures DecodeFrom(s, Flags(g), used, buf, pos) == Done(true, Played((g + rest)[..k], buf, pos))
    decreases k, 1
  {
    hide Operands, Layout, Flags, DecodeToken, Width, EndsAt;
    EndsRoom(s, g, rest, k, pos, |buf|);
    if k == 0 {
      EndsNow(s, g, rest, pos, |buf|);
    } else if g != [] {
      EndsSome(s, g, rest, k, pos, |buf|);
      EndsTaken(s, g, rest, k, used, buf, pos);
    } else {
      var n := EndsGroup(s, rest, k, pos, |buf|);
      EndsSome(s[1..], rest[..n], rest[n..], k, pos, |buf|);
      EndsTaken(s[1..], rest[..n], rest[n..], k, 0, buf, pos);
    }
  }

  lemma EndsRoom(s: seq<byte>, g: seq<Token>, rest: seq<Token>, k: nat, pos: nat, room: nat)
    requires EndsAt(s, g, rest, k, pos, room)
    ensures Fills((g + rest)[..k], pos, room) && pos <= room && k <= |g| + |rest|
    ensures AllEncodable(g) && AllEncodable(rest)
  {
    FillsRoom((g + rest)[..k], pos, room);
  }

  lemma EndsSome(s: seq<byte>, g: seq<Token>, rest: seq<Token>, k: nat, pos: nat, room: nat)
    requires EndsAt(s, g, rest, k, pos, room) && g != [] && k > 0
    ensures s != [] && pos < room
  {
    hide Operands, Layout, Width, EndsAt;
    EndsNext(s, g, rest, k, pos, room);
    EndsRoom(s, g, rest, k, pos, room);
  }

  lemma {:induction false} EndsTaken(s: seq<byte>, g: seq<Token>, rest: seq<Token>, k: nat, used: nat, buf: seq<byte>,
                                     pos: nat)
    requires EndsAt(s, g, rest, k, pos, |buf|) && g != [] && k > 0 && pos < |buf|
    requires used + |g| <= 8 && (rest != [] ==> used + |g| == 8)
    ensures Fills((g + rest)[..k], pos, |buf|)
    ensures DecodeToken(s, Flags(g), used, buf, pos) == Done(true, Played((g + rest)[..k], buf, pos))
    decreases k, 0
  {
    hide Operand, Operands, Layout, Flags, DecodeFrom, DecodeToken, Width, EndsAt, CopyIn;
    var t := g[0];
    EndsRoom(s, g, rest, k, pos, |buf|);
    EndsNext(s, g, rest, k, pos, |buf|);
    var s' := s[|Operand(t)|..];
    if t.Literal? {
      EndsAccepted(s', g[1..], rest, k - 1, used + 1, buf[pos := t.b], pos + 1);
      LiteralToken(s, s', g, used, buf, pos, t.b);
    } else {
      EndsAccepted(s', g[1..], rest, k - 1, used + 1, CopyIn(buf, pos, t.len, t.back), pos + t.len);
      CopyToken(s, s', g, used, buf, pos, t.len, t.back);
    }
  }

  // ---------- an accepted input is one ----------

  predicate Accepted(r: Outcome) {
    r.Done? && r.ok
  }

  /** Nothing is left of the input, and of the output nothing to fill. */
  lemma EndsHere(flags: nat, used: nat, room: nat) returns (g: seq<Token>)
    requires used <= 8 && flags < Pow2(8 - used)
    ensures |g| == 8 - used && Flags(g) == flags && EndsAt([], g, [], 0, room, room)
  {
    hide Flags;
    g := Filling(flags, 8 - used);
    WidthNone(g, []);
    assert (g + [])[..0] == [];
  }

  /** A token in front. */
  lemma EndsPrepend(s: seq<byte>, t: Token, g: seq<Token>, rest: seq<Token>, k: nat, pos: nat, room: nat)
    requires Encodable(t) && (t.Copy? ==> t.back <= pos)
    requires EndsAt(s, g, rest, k, pos + t.Size(), room)
    ensures EndsAt(Operand(t) + s, [t] + g, rest, k + 1, pos, room)
  {
    hide Operand, Operands, Layout, Width;
    var g' := [t] + g;
    assert g'[1..] == g && AllEncodable(g') && (g' + rest)[..k + 1][1..] == (g + rest)[..k];
    OperandInFront(g', Layout(rest));
    WidthFirst(g', rest, k + 1);
  }

  /** A group in front of the rest. */
  lemma EndsGroups(s: seq<byte>, g: seq<Token>, rest: seq<Token>, k: nat, pos: nat, room: nat)
    requires EndsAt(s, g, rest, k, pos, room) && |g| == 8 && k > 0
    ensures Flags(g) < 256 && EndsAt([Flags(g)] + s, [], g + rest, k, pos, room)
  {
    hide Operands, Layout, Flags, Fills;
    var ts := g + rest;
    LayoutFirst(ts, 8);
    assert ts[..8] == g && ts[8..] == rest && [] + ts == ts;
    WidthGroup(ts, 8, k);
    assert Operands([]) + Layout(ts) == [Flags(g)] + (Operands(g) + Layout(rest));
  }

  lemma {:induction false} FindTokens(s: seq<byte>, flags: nat, used: nat, buf: seq<byte>, pos: nat)
    returns (g: seq<Token>, rest: seq<Token>, k: nat)
    requires pos <= |buf| && used <= 8 && flags < Pow2(8 - used)
    requires Accepted(DecodeFrom(s, flags, used, buf, pos))
    ensures |g| == 8 - used && Flags(g) == flags && EndsAt(s, g, rest, k, pos, |buf|)
    decreases |buf| - pos, 1
  {
    hide EndsAt, Flags, DecodeToken;
    if s == [] || pos == |buf| {
      g := EndsHere(flags, used, |buf|);
      rest, k := [], 0;
    } else if used == 8 {
      EightBits();
      g, rest, k := FindTaken(s[1..], s[0], 0, buf, pos);
      EndsGroups(s[1..], g, rest, k, pos, |buf|);
      assert s == [s[0]] + s[1..];
      NoFlags();
      g, rest := [], g + rest;
    } else {
      g, rest, k := FindTaken(s, flags, used, buf, pos);
    }
  }

  lemma {:induction false} FindTaken(s: seq<byte>, flags: nat, used: nat, buf: seq<byte>, pos: nat)
    returns (g: seq<Token>, rest: seq<Token>, k: nat)
    requires pos < |buf| && used < 8 && flags < Pow2(8 - used)
    requires Accepted(DecodeToken(s, flags, used, buf, pos))
    ensures |g| == 8 - used && Flags(g) == flags && EndsAt(s, g, rest, k, pos, |buf|) && k > 0
    decreases |buf| - pos, 0
  {
    hide EndsAt, Flags, CopyIn, Operand, DecodeFrom;
    var t, n := Literal(0), 1;
    if flags % 2 == 1 {
      t := Literal(s[0]);
      OperandOfLiteral(s[0]);
      g, rest, k := FindTokens(s[1..], flags / 2, used + 1, buf[pos := s[0]], pos + 1);
    } else {
      var (len, offset) := CopyOperands(s[0], s[1]);
      t, n := Copy(len, offset), 2;
      OperandWritesBack(s[0], s[1]);
      g, rest, k := FindTokens(s[2..], flags / 2, used + 1, CopyIn(buf, pos, len, offset), pos + len);
    }
    assert s == Operand(t) + s[n..];
    FlagsPrepend(t, g);
    EndsPrepend(s[n..], t, g, rest, k, pos, |buf|);
    g, k := [t] + g, k + 1;
  }

  // ---------- exactly those ----------

  lemma CompleteEnds(s: seq<byte>, ts: seq<Token>, k: nat, room: nat)
    ensures Complete(s, ts, k, room) <==> EndsAt(s, [], ts, k, 0, room)
  {
    hide Operands, Fills;
    assert [] + ts == ts;
    if AllEncodable(ts) && k <= |ts| {
      LayoutNothing();
      assert Operands([]) + Layout(ts) == Layout(ts);
      WidthNone([], ts);
      assert ts[..0] == [];
    }
  }

  /** An input is accepted if and only if it ends behind a token of a layout, the copies up to there start inside the
      output, and the sizes add up to its length; the flags that are left over of the last group are free. */
  lemma AcceptExact(s: seq<byte>, buf: seq<byte>)
    ensures Accepted(DecodeFrom(s, 0, 8, buf, 0)) <==> exists ts, k :: Complete(s, ts, k, |buf|)
  {
    hide EndsAt, Complete, DecodeFrom;
    EightBits();
    NoFlags();
    if Accepted(DecodeFrom(s, 0, 8, buf, 0)) {
      var g, ts, k := FindTokens(s, 0, 8, buf, 0);
      assert g == [];
      CompleteEnds(s, ts, k, |buf|);
    }
    forall ts, k | Complete(s, ts, k, |buf|)
      ensures Accepted(DecodeFrom(s, 0, 8, buf, 0))
    {
      AcceptedPlays(s, ts, k, buf);
    }
  }

  /** And then the output is what those tokens say. */
  lemma AcceptedPlays(s: seq<byte>, ts: seq<Token>, k: nat, buf: seq<byte>)
    requires Complete(s, ts, k, |buf|)
    ensures DecodeFrom(s, 0, 8, buf, 0) == Done(true, Played(ts[..k], buf, 0))
  {
    hide EndsAt, DecodeFrom, Played;
    NoFlags();
    CompleteEnds(s, ts, k, |buf|);
    EndsAccepted(s, [], ts, k, 8, buf, 0);
    assert [] + ts == ts;
  }

  // ---------- what the output is ----------

  lemma {:induction false} CopyInWithin(buf: seq<byte>, pos: nat, len: nat, offset: nat)
    requires 1 <= offset <= pos && pos + len <= |buf|
    ensures var r := CopyIn(buf, pos, len, offset); r[..pos] == buf[..pos] && Repeats(r, pos, len, offset)
    decreases len
  {
    if len > 0 {
      var b := buf[pos := buf[pos - offset]];
      CopyInWithin(b, pos + 1, len - 1, offset);
      var r := CopyIn(buf, pos, len, offset);
      assert r[..pos + 1] == b[..pos + 1];
      assert r[..pos] == r[..pos + 1][..pos] == b[..pos + 1][..pos] == buf[..pos];
      assert r[pos] == r[..pos + 1][pos] == b[pos];
      assert r[pos - offset] == r[..pos][pos - offset] == buf[..pos][pos - offset];
    }
  }

  /** A text the tokens describe, when no copy has offset 0; what stood in the output before plays no part. */
  lemma {:induction false} PlayedText(ts: seq<Token>, buf: seq<byte>, pos: nat)
    requires Fills(ts, pos, |buf|) && AllEncodable(ts) && forall t :: t in ts && t.Copy? ==> t.back > 0
    ensures pos <= |buf|
    ensures Played(ts, buf, pos)[..pos] == buf[..pos] && Parses(Played(ts, buf, pos), pos, ts)
    decreases |ts|
  {
    hide Repeats, CopyIn;
    FillsRoom(ts, pos, |buf|);
    if ts != [] {
      var t := ts[0];
      assert t in ts;
      var x := Played(ts, buf, pos);
      if t.Literal? {
        var b := buf[pos := t.b];
        PlayedText(ts[1..], b, pos + 1);
        assert x[..pos] == x[..pos + 1][..pos] == b[..pos + 1][..pos] == buf[..pos];
        assert x[pos] == x[..pos + 1][pos] == b[..pos + 1][pos];
      } else {
        var b := CopyIn(buf, pos, t.len, t.back);
        CopyInWithin(buf, pos, t.len, t.back);
        PlayedText(ts[1..], b, pos + t.len);
        assert x[..pos] == x[..pos + t.len][..pos] == b[..pos + t.len][..pos] == b[..pos];
        RepeatsAlike(b, x, pos, t.len, t.back);
      }
    }
  }

  lemma RepeatsAlike(b: seq<byte>, x: seq<byte>, pos: nat, len: nat, back: nat)
    requires Repeats(b, pos, len, back) && |x| == |b| && x[..pos + len] == b[..pos + len]
    ensures Repeats(x, pos, len, back)
  {
    forall j | pos <= j < pos + len
      ensures x[j - back] == x[j]
    {
      assert x[j] == x[..pos + len][j] == b[j] && x[j - back] == x[..pos + len][j - back] == b[j - back];
    }
  }

  // ---------- the wrong length ----------

  function Total(ts: seq<Token>): nat {
    if ts == [] then 0 else ts[0].Size() + Total(ts[1..])
  }

  lemma {:induction false} AcceptedLength(g: seq<Token>, rest: seq<Token>, used: nat, buf: seq<byte>, pos: nat)
    requires AllEncodable(g) && AllEncodable(rest) && pos <= |buf|
    requires used + |g| <= 8 && (rest != [] ==> used + |g| == 8)
    requires Accepted(DecodeFrom(Operands(g) + Layout(rest), Flags(g), used, buf, pos))
    ensures pos + Total(g + rest) == |buf|
    decreases |g| + |rest|, 1
  {
    hide Operands, Layout, Flags, DecodeToken;
    if g != [] {
      OperandsNonempty(g);
      AcceptedToken(g, rest, used, buf, pos);
    } else if rest != [] {
      var n := if |rest| <= 8 then |rest| else 8;
      LayoutFirst(rest, n);
      assert g + rest == rest == rest[..n] + rest[n..];
      var s := Operands(g) + Layout(rest);
      assert s[1..] == Operands(rest[..n]) + Layout(rest[n..]);
      AcceptedToken(rest[..n], rest[n..], 0, buf, pos);
    } else {
      LayoutNothing();
    }
  }

  lemma {:induction false} AcceptedToken(g: seq<Token>, rest: seq<Token>, used: nat, buf: seq<byte>, pos: nat)
    requires AllEncodable(g) && AllEncodable(rest) && g != [] && pos < |buf|
    requires used + |g| <= 8 && (rest != [] ==> used + |g| == 8)
    requires Accepted(DecodeToken(Operands(g) + Layout(rest), Flags(g), used, buf, pos))
    ensures pos + Total(g + rest) == |buf|
    decreases |g| + |rest|, 0
  {
    hide Operands, Layout, Flags, Operand, DecodeFrom, DecodeToken, CopyIn;
    var t, s, s' := g[0], Operands(g) + Layout(rest), Operands(g[1..]) + Layout(rest);
    OperandInFront(g, Layout(rest));
    assert (g + rest)[1..] == g[1..] + rest;
    if t.Literal? {
      LiteralToken(s, s', g, used, buf, pos, t.b);
      AcceptedLength(g[1..], rest, used + 1, buf[pos := t.b], pos + 1);
    } else {
      CopyFits(s, s', g, used, buf, pos);
      CopyToken(s, s', g, used, buf, pos, t.len, t.back);
      AcceptedLength(g[1..], rest, used + 1, CopyIn(buf, pos, t.len, t.back), pos + t.len);
    }
  }

  /** A copy that is accepted stays inside the output. */
  lemma CopyFits(s: seq<byte>, s': seq<byte>, g: seq<Token>, used: nat, buf: seq<byte>, pos: nat)
    requires g != [] && g[0].Copy? && Encodable(g[0]) && s == Operand(g[0]) + s' && used < 8 && pos < |buf|
    requires Accepted(DecodeToken(s, Flags(g), used, buf, pos))
    ensures g[0].back <= pos && pos + g[0].len <= |buf|
  {
    hide DecodeFrom, CopyOperands, Operand, CopyIn, Flags;
    FlagsFirst(g);
    OperandReadsBack(g[0].len, g[0].back);
    assert s[0] == Operand(g[0])[0] && s[1] == Operand(g[0])[1];
  }

  lemma {:induction false} ParsesTotal(x: seq<byte>, i: nat, ts: seq<Token>)
    requires Parses(x, i, ts) && i <= |x|
    ensures i + Total(ts) == |x|
    decreases |ts|
  {
    if ts != [] {
      ParsesPosition(x, i + ts[0].Size(), ts[1..]);
      ParsesTotal(x, i + ts[0].Size(), ts[1..]);
    }
  }

  /** The encoding of a text is accepted for an output of its length and for no other. */
  lemma OnlyItsLength(x: seq<byte>, buf: seq<byte>)
    ensures Accepted(DecodeFrom(Encoding(x), 0, 8, buf, 0)) <==> |buf| == |x|
  {
    hide DecodeFrom, Layout;
    if |buf| == |x| {
      RoundTrip(x, buf);
    } else if Accepted(DecodeFrom(Encoding(x), 0, 8, buf, 0)) {
      var ts := GreedyTokens(Format.LZSS, x, 0);
      LayoutNothing();
      NoFlags();
      assert Operands([]) + Layout(ts) == Layout(ts) && [] + ts == ts;
      AcceptedLength([], ts, 8, buf, 0);
      ParsesTotal(x, 0, ts);
      assert false;
    }
  }
}
