/** Which inputs make the LZSS decoder read past their end. */
module Overrun {
  import opened Bytes
  import opened Tokens
  import opened BitFields
  import opened LZSS

  // ---------- inputs that end inside a token ----------

  /** The tokens can be carried out one after another from `pos` on and leave room in the output. */
  predicate LeavesRoom(ts: seq<Token>, pos: nat, room: nat) {
    if ts == [] then pos < room
    else (ts[0].Copy? ==> ts[0].back <= pos) && LeavesRoom(ts[1..], pos + ts[0].Size(), room)
  }

  /** The input is the layout of tokens, cut inside token `k`; the ones before it are whole and leave room. */
  predicate CutInside(s: seq<byte>, ts: seq<Token>, k: nat, room: nat) {
    && AllEncodable(ts) && k < |ts| && s <= Layout(ts)
    && |Layout(ts[..k])| < |s| < |Layout(ts[..k + 1])|
    && LeavesRoom(ts[..k], 0, room)
  }

  // ---------- the same in the middle of a group ----------

  /** The bytes of the first `k` tokens, `g` being what is left of a group and `rest` the tokens of the next ones. */
  function Width(g: seq<Token>, rest: seq<Token>, k: nat): nat
    requires AllEncodable(g) && AllEncodable(rest) && k <= |g| + |rest|
  {
    if k <= |g| then |Operands(g[..k])| else |Operands(g)| + |Layout(rest[..k - |g|])|
  }

  predicate CutAt(s: seq<byte>, g: seq<Token>, rest: seq<Token>, k: nat, pos: nat, room: nat) {
    && AllEncodable(g) && AllEncodable(rest) && k < |g| + |rest|
    && s <= Operands(g) + Layout(rest)
    && |s| < Width(g, rest, k + 1) && (k > 0 ==> Width(g, rest, k) < |s|)
    && LeavesRoom((g + rest)[..k], pos, room)
  }

  lemma WidthFirst(g: seq<Token>, rest: seq<Token>, k: nat)
    requires AllEncodable(g) && AllEncodable(rest) && g != [] && 0 < k <= |g| + |rest|
    ensures AllEncodable(g[1..]) && Width(g, rest, k) == |Operand(g[0])| + Width(g[1..], rest, k - 1)
  {
    hide Operand, Layout;
    OperandsNonempty(g);
    if k <= |g| {
      OperandsNonempty(g[..k]);
      assert g[..k][1..] == g[1..][..k - 1];
    }
  }

  lemma WidthNone(g: seq<Token>, rest: seq<Token>)
    requires AllEncodable(g) && AllEncodable(rest)
    ensures Width(g, rest, 0) == 0
  {
    assert g[..0] == [];
  }

  /** A group of tokens starts with its flag byte. */
  lemma WidthGroup(ts: seq<Token>, n: nat, k: nat)
    requires AllEncodable(ts) && ts != [] && n == (if |ts| <= 8 then |ts| else 8) && 0 < k <= |ts|
    ensures |Layout(ts[..k])| == 1 + Width(ts[..n], ts[n..], k)
  {
    hide Operands, Flags;
    LayoutNothing();
    if k <= n {
      LayoutFirst(ts[..k], k);
      assert ts[..k][..k] == ts[..k] == ts[..n][..k] && ts[..k][k..] == [];
    } else {
      LayoutFirst(ts[..k], n);
      assert ts[..k][..n] == ts[..n] && ts[..k][n..] == ts[n..][..k - n];
    }
  }

  // ---------- such an input is read past its end ----------

  /** One token further on. */
  lemma CutNext(s: seq<byte>, g: seq<Token>, rest: seq<Token>, k: nat, pos: nat, room: nat)
    requires CutAt(s, g, rest, k, pos, room) && g != [] && k > 0
    ensures AllEncodable(g[1..]) && |Operand(g[0])| < |s| && pos + g[0].Size() < room
    ensures g[0].Copy? ==> g[0].back <= pos
    ensures var s' := s[|Operand(g[0])|..];
      s == Operand(g[0]) + s' && CutAt(s', g[1..], rest, k - 1, pos + g[0].Size(), room)
  {
    hide Operand, Operands, Layout, Width;
    WidthFirst(g, rest, k);
    WidthFirst(g, rest, k + 1);
    OperandInFront(g, Layout(rest));
    assert (g + rest)[..k][1..] == (g[1..] + rest)[..k - 1];
    RoomLeft((g + rest)[..k], pos, room);
    CutFirst(s, Operand(g[0]), Operands(g[1..]) + Layout(rest));
  }

  lemma CutFirst(s: seq<byte>, a: seq<byte>, b: seq<byte>)
    requires s <= a + b && |a| < |s|
    ensures s == a + s[|a|..] && s[|a|..] <= b
  {}

  lemma {:induction false} RoomLeft(ts: seq<Token>, pos: nat, room: nat)
    requires LeavesRoom(ts, pos, room)
    ensures pos < room && (ts != [] ==> pos + ts[0].Size() < room)
  {
    if ts != [] { RoomLeft(ts[1..], pos + ts[0].Size(), room); }
  }

  lemma {:induction false} CutOverruns(s: seq<byte>, g: seq<Token>, rest: seq<Token>, k: nat, used: nat, buf: seq<byte>,
                                       pos: nat)
    requires CutAt(s, g, rest, k, pos, |buf|) && g != []
    requires used + |g| <= 8 && (rest != [] ==> used + |g| == 8)
    ensures pos < |buf| && DecodeToken(s, Flags(g), used, buf, pos) == Overrun
    decreases k, 0
  {
    hide Operand, Operands, Layout, Flags, DecodeFrom, DecodeToken, Width, CutAt, CopyIn;
    CutRoom(s, g, rest, k, pos, |buf|);
    if k == 0 {
      CutFirstToken(s, g, rest, pos, |buf|);
      ShortToken(s, g, used, buf, pos);
    } else {
      var t := g[0];
      CutNext(s, g, rest, k, pos, |buf|);
      var s' := s[|Operand(t)|..];
      if t.Literal? {
        CutOverrunsFrom(s', g[1..], rest, k - 1, used + 1, buf[pos := t.b], pos + 1);
        LiteralToken(s, s', g, used, buf, pos, t.b);
      } else {
        CutOverrunsFrom(s', g[1..], rest, k - 1, used + 1, CopyIn(buf, pos, t.len, t.back), pos + t.len);
        CopyToken(s, s', g, used, buf, pos, t.len, t.back);
      }
    }
  }

  lemma CutRoom(s: seq<byte>, g: seq<Token>, rest: seq<Token>, k: nat, pos: nat, room: nat)
    requires CutAt(s, g, rest, k, pos, room)
    ensures pos < room && AllEncodable(g) && AllEncodable(rest)
  {
    RoomLeft((g + rest)[..k], pos, room);
  }

  lemma CutFirstToken(s: seq<byte>, g: seq<Token>, rest: seq<Token>, pos: nat, room: nat)
    requires CutAt(s, g, rest, 0, pos, room) && g != []
    ensures |s| < |Operand(g[0])|
  {
    hide Operand, Operands, Layout, Width;
    WidthFirst(g, rest, 1);
    WidthNone(g[1..], rest);
  }

  lemma ShortToken(s: seq<byte>, g: seq<Token>, used: nat, buf: seq<byte>, pos: nat)
    requires g != [] && Encodable(g[0]) && |s| < |Operand(g[0])| && pos < |buf| && used < 8
    ensures DecodeToken(s, Flags(g), used, buf, pos) == Overrun
  {
    hide DecodeFrom, Flags, CopyIn;
    FlagsFirst(g);
  }

  lemma {:induction false} CutOverrunsFrom(s: seq<byte>, g: seq<Token>, rest: seq<Token>, k: nat, used: nat,
                                           buf: seq<byte>, pos: nat)
    requires CutAt(s, g, rest, k, pos, |buf|) && s != []
    requires used + |g| <= 8 && (rest != [] ==> used + |g| == 8)
    ensures pos < |buf| && DecodeFrom(s, Flags(g), used, buf, pos) == Overrun
    decreases k, 1
  {
    hide Operands, Layout, Flags, DecodeToken, Width, CutAt;
    CutRoom(s, g, rest, k, pos, |buf|);
    if g != [] {
      CutOverruns(s, g, rest, k, used, buf, pos);
    } else {
      var n := CutGroup(s, rest, k, pos, |buf|);
      CutOverruns(s[1..], rest[..n], rest[n..], k, 0, buf, pos);
    }
  }

  /** A new group. */
  lemma CutGroup(s: seq<byte>, rest: seq<Token>, k: nat, pos: nat, room: nat) returns (n: nat)
    requires CutAt(s, [], rest, k, pos, room) && s != []
    ensures rest != [] && n == (if |rest| <= 8 then |rest| else 8)
    ensures s[0] == Flags(rest[..n]) && CutAt(s[1..], rest[..n], rest[n..], k, pos, room)
  {
    hide Operands, Layout, Flags, LeavesRoom;
    n := if |rest| <= 8 then |rest| else 8;
    LayoutFirst(rest, n);
    WidthGroup(rest, n, k + 1);
    if k > 0 { WidthGroup(rest, n, k); }
    assert [] + rest == rest == rest[..n] + rest[n..];
    assert Operands([]) + Layout(rest) == [Flags(rest[..n])] + (Operands(rest[..n]) + Layout(rest[n..]));
  }

  // ---------- an input that is read past its end is one ----------

  /** Any tokens with these flags. */
  function Filling(flags: nat, n: nat): (ts: seq<Token>)
    requires flags < Pow2(n)
    ensures |ts| == n && AllEncodable(ts) && Flags(ts) == flags
    decreases n
  {
    if n == 0 then [] else
      var t := if flags % 2 == 1 then Literal(0) else Copy(3, 0);
      var ts := [t] + Filling(flags / 2, n - 1);
      assert ts[1..] == Filling(flags / 2, n - 1);
      ts
  }

  lemma FlagsPrepend(t: Token, g: seq<Token>)
    ensures Flags([t] + g) == Digit(t.Literal?) + 2 * Flags(g)
  {
    assert ([t] + g)[1..] == g;
  }

  /** A group's first token is where the input ends. */
  lemma CutHere(s: seq<byte>, flags: nat, used: nat, pos: nat, room: nat) returns (g: seq<Token>)
    requires used < 8 && flags < Pow2(8 - used) && pos < room
    requires if flags % 2 == 1 then s == [] else |s| < 2
    ensures |g| == 8 - used && Flags(g) == flags && CutAt(s, g, [], 0, pos, room)
  {
    hide Flags;
    var t := if flags % 2 == 1 then Literal(0) else Copy(3, if s == [] then 0 else s[0]);
    var tail := Filling(flags / 2, 7 - used);
    g := [t] + tail;
    FlagsPrepend(t, tail);
    assert g[1..] == tail && (g + [])[..0] == [];
    OperandsNonempty(g);
    WidthFirst(g, [], 1);
    WidthNone(tail, []);
    assert s <= Operand(t) + Operands(tail) + Layout([]);
  }

  /** A token in front. */
  lemma CutPrepend(s: seq<byte>, t: Token, g: seq<Token>, rest: seq<Token>, k: nat, pos: nat, room: nat)
    requires Encodable(t) && (t.Copy? ==> t.back <= pos) && s != []
    requires CutAt(s, g, rest, k, pos + t.Size(), room)
    ensures CutAt(Operand(t) + s, [t] + g, rest, k + 1, pos, room)
  {
    hide Operand, Operands, Layout, Width;
    var g' := [t] + g;
    assert g'[1..] == g && AllEncodable(g') && (g' + rest)[..k + 1][1..] == (g + rest)[..k];
    OperandInFront(g', Layout(rest));
    WidthFirst(g', rest, k + 2);
    WidthFirst(g', rest, k + 1);
    if k == 0 { WidthNone(g, rest); }
  }

  /** A group in front of the rest. */
  lemma CutGroups(s: seq<byte>, g: seq<Token>, rest: seq<Token>, k: nat, pos: nat, room: nat)
    requires CutAt(s, g, rest, k, pos, room) && |g| == 8
    ensures Flags(g) < 256 && CutAt([Flags(g)] + s, [], g + rest, k, pos, room)
  {
    hide Operands, Layout, Flags, LeavesRoom;
    var ts := g + rest;
    LayoutFirst(ts, 8);
    assert ts[..8] == g && ts[8..] == rest && [] + ts == ts;
    WidthGroup(ts, 8, k + 1);
    if k > 0 { WidthGroup(ts, 8, k); }
    assert Operands([]) + Layout(ts) == [Flags(g)] + (Operands(g) + Layout(rest));
  }

  lemma {:induction false} Reconstruct(s: seq<byte>, flags: nat, used: nat, buf: seq<byte>, pos: nat)
    returns (g: seq<Token>, rest: seq<Token>, k: nat)
    requires pos < |buf| && used < 8 && flags < Pow2(8 - used)
    requires DecodeToken(s, flags, used, buf, pos) == Overrun
    ensures |g| == 8 - used && Flags(g) == flags && CutAt(s, g, rest, k, pos, |buf|)
    decreases |buf| - pos, 0
  {
    hide CutAt, Flags, CopyIn, Operand, DecodeFrom;
    if flags % 2 == 1 && s != [] {
      var t := Literal(s[0]);
      OperandOfLiteral(s[0]);
      g, rest, k := ReconstructFrom(s[1..], flags / 2, used + 1, buf[pos := s[0]], pos + 1);
      assert s == Operand(t) + s[1..];
      FlagsPrepend(t, g);
      CutPrepend(s[1..], t, g, rest, k, pos, |buf|);
      g, k := [t] + g, k + 1;
    } else if flags % 2 == 0 && |s| >= 2 {
      var (len, offset) := CopyOperands(s[0], s[1]);
      var t := Copy(len, offset);
      OperandWritesBack(s[0], s[1]);
      g, rest, k := ReconstructFrom(s[2..], flags / 2, used + 1, CopyIn(buf, pos, len, offset), pos + len);
      assert s == Operand(t) + s[2..];
      FlagsPrepend(t, g);
      CutPrepend(s[2..], t, g, rest, k, pos, |buf|);
      g, k := [t] + g, k + 1;
    } else {
      g := CutHere(s, flags, used, pos, |buf|);
      rest, k := [], 0;
    }
  }

  /** The bytes of a copy, read and written again. */
  lemma OperandWritesBack(lo: byte, hi: byte)
    ensures var (len, back) := CopyOperands(lo, hi);
      Encodable(Copy(len, back)) && Operand(Copy(len, back)) == [lo, hi]
  {}

  lemma {:induction false} ReconstructFrom(s: seq<byte>, flags: nat, used: nat, buf: seq<byte>, pos: nat)
    returns (g: seq<Token>, rest: seq<Token>, k: nat)
    requires pos <= |buf| && used <= 8 && flags < Pow2(8 - used)
    requires DecodeFrom(s, flags, used, buf, pos) == Overrun
    ensures s != [] && |g| == 8 - used && Flags(g) == flags && CutAt(s, g, rest, k, pos, |buf|)
    decreases |buf| - pos, 1
  {
    hide CutAt, Flags, DecodeToken;
    if used == 8 {
      EightBits();
      g, rest, k := Reconstruct(s[1..], s[0], 0, buf, pos);
      CutGroups(s[1..], g, rest, k, pos, |buf|);
      assert s == [s[0]] + s[1..];
      NoFlags();
      g, rest := [], g + rest;
    } else {
      g, rest, k := Reconstruct(s, flags, used, buf, pos);
    }
  }

  lemma EightBits()
    ensures Pow2(8) == 256 && Pow2(0) == 1
  {}

  lemma NoFlags()
    ensures Flags([]) == 0
  {}

  // ---------- exactly those ----------

  /** The decoder reads past its input if and only if that is the layout of tokens cut inside one, and the tokens before
      that one leave room in the output.  What the output holds plays no part. */
  lemma OverrunExact(s: seq<byte>, buf: seq<byte>)
    ensures DecodeFrom(s, 0, 8, buf, 0) == Overrun <==> exists ts, k :: CutInside(s, ts, k, |buf|)
  {
    hide CutAt, CutInside, DecodeFrom;
    EightBits();
    NoFlags();
    if DecodeFrom(s, 0, 8, buf, 0) == Overrun {
      var g, ts, k := ReconstructFrom(s, 0, 8, buf, 0);
      assert g == [];
      CutBetween(s, ts, k, |buf|);
    }
    forall ts, k | CutInside(s, ts, k, |buf|)
      ensures DecodeFrom(s, 0, 8, buf, 0) == Overrun
    {
      CutBetween(s, ts, k, |buf|);
      CutOverrunsFrom(s, [], ts, k, 8, buf, 0);
    }
  }

  lemma CutBetween(s: seq<byte>, ts: seq<Token>, k: nat, room: nat)
    ensures CutInside(s, ts, k, room) <==> s != [] && CutAt(s, [], ts, k, 0, room)
  {
    hide Operands, LeavesRoom;
    assert [] + ts == ts;
    if AllEncodable(ts) && k < |ts| {
      LayoutNothing();
      assert Operands([]) + Layout(ts) == Layout(ts);
      WidthNone([], ts);
      assert ts[..0] == [];
    }
  }

  /** A flag byte that announces a copy, and nothing behind it. */
  lemma OverrunSample(b: byte)
    ensures DecodeFrom([0], 0, 8, [b], 0) == Overrun
  {}
}
