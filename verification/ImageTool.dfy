/** The output buffer the image tool gives the BMC encoder: for which lengths of input it is enough. */
module ImageTool {
  import opened Bytes
  import opened Tokens
  import opened BitFields
  import opened BMCCodes
  import opened BitStream
  import opened Greedy
  import opened BMC

  /** The size of the buffer the tool allocates for `n` input bytes. */
  function Room(n: nat): nat {
    n + (n + 7) / 8
  }

  // ---------- where the buffer is enough ----------

  /** A copy of two bytes from so far back that it costs more than nine bits a byte. */
  predicate Dear(t: Token) {
    t.Copy? && t.len == 2 && t.back >= 4098
  }

  lemma EmitFair(t: Token, k: bits)
    requires Encodable(t)
    ensures |Emit(t, k)| <= |k| + 9 * t.Size() + (if Dear(t) then 1 else 0)
  {
    hide Put, PutMidLength, PutNearOffset;
    if t.Copy? {
      LengthCost(t.len, PutOffset(t.back - t.len, k));
      OffsetCost(t.back - t.len, k);
      if t.back - t.len < 4096 {
        NearerCost(t.back - t.len, k);
      }
    }
  }

  lemma NearerCost(n: nat, k: bits)
    requires n < 4096
    ensures |PutOffset(n, k)| <= |k| + 15
  {
    hide Put;
  }

  /** How many dear copies fit between `i` and the end. */
  function DearRoom(n: nat, i: nat): nat {
    var from := if i < 4098 then 4098 else i;
    if n < from then 0 else (n - from) / 2
  }

  lemma {:induction false} EmitAllFair(x: seq<byte>, i: nat, ts: seq<Token>)
    requires Parses(x, i, ts) && i <= |x|
    requires forall t :: t in ts ==> Encodable(t)
    ensures |EmitAll(ts, [])| <= 9 * (|x| - i) + DearRoom(|x|, i)
    decreases |ts|
  {
    hide Emit;
    ParsesPosition(x, i, ts);
    if ts != [] {
      ParsesPosition(x, i + ts[0].Size(), ts[1..]);
      EmitAllFair(x, i + ts[0].Size(), ts[1..]);
      EmitFair(ts[0], EmitAll(ts[1..], []));
    }
  }

  /** The bits of the encoding: nine a byte, and one more for every two bytes from the 4099th on. */
  lemma BitBound(x: seq<byte>)
    ensures |EmitAll(GreedyTokens(Format.BMC, x, 0), [])| <= 9 * |x| + DearRoom(|x|, 0)
  {
    EmitAllFair(x, 0, GreedyTokens(Format.BMC, x, 0));
  }

  /** The bits the buffer has beyond nine for every byte of input. */
  function Slack(n: nat): (s: nat)
    ensures s < 8 && 9 * n + s == 8 * Room(n)
  {
    (n + 7) / 8 * 8 - n
  }

  /** The length leaves room for every dear copy that fits in it. */
  predicate Enough(n: nat) {
    9 * n + DearRoom(n, 0) <= 8 * Room(n)
  }

  /** The lengths spelled out. */
  lemma EnoughLengths(n: nat)
    ensures Enough(n) <==> n <= 4102 || n == 4105 || n == 4106 || n == 4107 || n == 4113
  {}

  lemma EncodingFits(x: seq<byte>)
    requires Enough(|x|)
    ensures |Encoding(x)| <= 8 * Room(|x|)
  {
    hide EmitAll, GreedyTokens, DearRoom, Room, Padding;
    var ts := GreedyTokens(Format.BMC, x, 0);
    BitBound(x);
    EmitAllLength(ts, Zeros(Padding(|EmitAll(ts, [])|)));
    PaddedFits(|EmitAll(ts, [])|, Room(|x|));
  }

  lemma PaddedFits(bits: nat, bytes: nat)
    requires bits <= 8 * bytes
    ensures bits + Padding(bits) <= 8 * bytes
  {}

  // ---------- an image the buffer loses, for every other length ----------

  /** Bytes in which no two neighbours stand together twice within 20000 places. */
  function Fresh(p: nat): byte {
    var q := p / 2;
    if p % 2 == 0 then q % 100 else 100 + (q / 100 + q) % 100
  }

  lemma FreshParity(p: nat)
    ensures Fresh(p) < 200 && (Fresh(p) < 100 <==> p % 2 == 0)
  {}

  lemma OddPair(p: nat, q: nat)
    requires p == 2 * q + 1
    ensures Fresh(p) == 100 + (q / 100 + q) % 100 && Fresh(p + 1) == (q + 1) % 100
  {}

  lemma EvenPair(p: nat, q: nat)
    requires p == 2 * q
    ensures Fresh(p) == q % 100 && Fresh(p + 1) == 100 + (q / 100 + q) % 100
  {}

  lemma NextPlace(q: nat)
    ensures (q + 1) % 100 == if q % 100 == 99 then 0 else q % 100 + 1
  {}

  /** Equal places in blocks that differ by less than a hundred are equal. */
  lemma SameBlock(u: nat, v: nat, r: nat)
    requires u < v < u + 100
    ensures (u + r) % 100 != (v + r) % 100
  {}

  lemma BlockSum(q: nat)
    ensures (q / 100 + q) % 100 == (q / 100 + q % 100) % 100
  {
    assert q / 100 + q == 100 * (q / 100) + (q / 100 + q % 100);
  }

  lemma SamePlace(a: nat, b: nat)
    requires a < b < a + 10000
    ensures !(a % 100 == b % 100 && (a / 100 + a) % 100 == (b / 100 + b) % 100)
  {
    if a % 100 == b % 100 {
      BlockSum(a);
      BlockSum(b);
      SameBlock(a / 100, b / 100, a % 100);
    }
  }

  /** A pair of neighbours does not come back soon. */
  lemma FreshPair(p: nat, q: nat)
    requires p < q < p + 20000
    ensures !(Fresh(p) == Fresh(q) && Fresh(p + 1) == Fresh(q + 1))
  {
    hide Fresh;
    FreshParity(p);
    FreshParity(q);
    var a, b := p / 2, q / 2;
    if p % 2 == q % 2 {
      if p % 2 == 1 {
        OddPair(p, a);
        OddPair(q, b);
        NextPlace(a);
        NextPlace(b);
      } else {
        EvenPair(p, a);
        EvenPair(q, b);
      }
      SamePlace(a, b);
    }
  }

  lemma FreshStep(p: nat)
    ensures Fresh(p) != Fresh(p + 2)
  {
    var q := p / 2;
    assert (p + 2) / 2 == q + 1;
    NextPlace(q);
    if p % 2 == 1 {
      BlockSum(q);
      BlockSum(q + 1);
      NextBlock(q);
    }
  }

  lemma NextBlock(q: nat)
    ensures (q / 100 + q % 100) % 100 != ((q + 1) / 100 + (q + 1) % 100) % 100
  {
    if q % 100 == 99 {
      assert (q + 1) / 100 == q / 100 + 1 && (q + 1) % 100 == 0;
    } else {
      assert (q + 1) / 100 == q / 100 && (q + 1) % 100 == q % 100 + 1;
    }
  }

  /** A byte that is never fresh. */
  const MARK: byte := 255

  /** `m` dear copies behind `start` literals; the shortest images with an odd number of copies cannot do it. */
  predicate Plan(start: nat, m: nat) {
    1 <= m <= 8 && start >= (if m == 1 || m == 3 then 4099 else 4098)
  }

  /** The distance of the `t`-th copy: dear, never twice the same, and odd for the last one. */
  function Back(m: nat, t: nat): (back: nat)
    requires t < m <= 8
    ensures 4098 <= back <= 4106
    ensures t == m - 1 ==> back % 2 == 1
  {
    if m % 2 == 0 then 4098 + t
    else if m < 5 then 4099 + t
    else if t < m - 1 then 4098 + t
    else 4094 + m
  }

  /** Where the `t`-th copy comes from. */
  function Source(start: nat, m: nat, t: nat): (j: nat)
    requires Plan(start, m) && t < m
    ensures j + Back(m, t) == start + 2 * t && j + 4000 < start
  {
    start + 2 * t - Back(m, t)
  }

  lemma Sources(start: nat, m: nat, u: nat, t: nat)
    requires Plan(start, m) && u < t < m
    ensures 0 < Source(start, m, t) - Source(start, m, u) < 20
    ensures t == u + 1 ==>
      Source(start, m, t) == Source(start, m, u) + 1 || (t == m - 1 && Source(start, m, t) == Source(start, m, u) + 4)
  {}

  function SampleByte(start: nat, m: nat, i: nat): byte
    requires Plan(start, m) && i < start + 2 * m
  {
    if i < start - 1 then Fresh(i)
    else if i == start - 1 then MARK
    else Fresh(Source(start, m, (i - start) / 2) + (i - start) % 2)
  }

  /** Fresh bytes, the mark, and pairs of the fresh bytes again. */
  function Sample(start: nat, m: nat): (x: seq<byte>)
    requires Plan(start, m)
    ensures |x| == start + 2 * m
    ensures forall i :: 0 <= i < |x| ==> x[i] == SampleByte(start, m, i)
  {
    seq(start + 2 * m, i requires 0 <= i < start + 2 * m => SampleByte(start, m, i))
  }

  lemma SampleFresh(start: nat, m: nat, i: nat)
    requires Plan(start, m) && i < start - 1
    ensures Sample(start, m)[i] == Fresh(i)
  {}

  lemma SampleMark(start: nat, m: nat)
    requires Plan(start, m)
    ensures Sample(start, m)[start - 1] == MARK
  {}

  lemma SamplePair(start: nat, m: nat, t: nat)
    requires Plan(start, m) && t < m
    ensures var j := Source(start, m, t);
      Sample(start, m)[start + 2 * t] == Fresh(j) && Sample(start, m)[start + 2 * t + 1] == Fresh(j + 1)
  {
    hide Fresh;
    Halves(start, t);
  }

  lemma Halves(start: nat, t: nat)
    ensures (start + 2 * t - start) / 2 == t && (start + 2 * t - start) % 2 == 0
    ensures (start + 2 * t + 1 - start) / 2 == t && (start + 2 * t + 1 - start) % 2 == 1
  {}

  /** A usable copy of two bytes or more repeats a pair. */
  lemma RepeatsPair(x: seq<byte>, i: nat, len: nat, back: nat)
    requires Usable(Format.BMC, x, i, len, back) && len >= 2
    ensures 2 <= back <= 8447 && back <= i && i + len <= |x|
    ensures x[i - back] == x[i] && x[i - back + 1] == x[i + 1]
    ensures len >= 3 ==> x[i - back + 2] == x[i + 2]
  {
    assert x[i - back] == x[i];
    assert x[i + 1 - back] == x[i + 1];
    if len >= 3 { assert x[i + 2 - back] == x[i + 2]; }
  }

  /** Nothing up to the mark repeats. */
  lemma NewPair(start: nat, m: nat, i: nat, p: nat)
    requires Plan(start, m) && p < i < start && i <= p + 8447
    ensures var x := Sample(start, m); !(x[p] == x[i] && x[p + 1] == x[i + 1])
  {
    hide Fresh, Sample, SampleByte;
    SampleFresh(start, m, p);
    FreshParity(p);
    if i < start - 1 { SampleFresh(start, m, i); }
    if i == start - 1 {
      SampleMark(start, m);
    } else if i == start - 2 {
      SampleMark(start, m);
      SampleFresh(start, m, p + 1);
      FreshParity(p + 1);
    } else {
      SampleFresh(start, m, p + 1);
      SampleFresh(start, m, i + 1);
      FreshPair(p, i);
    }
  }

  lemma SampleLiteral(start: nat, m: nat, i: nat)
    requires Plan(start, m) && i < start
    ensures NextToken(Format.BMC, Sample(start, m), i) == Literal(Sample(start, m)[i])
  {
    hide Fresh, Sample, SampleByte, Usable, Best;
    var (len, back) := Best(Format.BMC, Sample(start, m), i);
    if len >= 2 {
      RepeatsPair(Sample(start, m), i, len, back);
      NewPair(start, m, i, i - back);
    }
  }

  /** A pair copied at the end stands only where it was copied from. */
  lemma PairPlace(start: nat, m: nat, t: nat, p: nat)
    requires Plan(start, m) && t < m && p + 2 <= start + 2 * t <= p + 8447
    requires Sample(start, m)[p] == Sample(start, m)[start + 2 * t]
    requires Sample(start, m)[p + 1] == Sample(start, m)[start + 2 * t + 1]
    ensures p == Source(start, m, t)
  {
    hide Fresh, Sample, SampleByte, Source;
    var j := Source(start, m, t);
    SamplePair(start, m, t);
    FreshParity(j);
    FreshParity(j + 1);
    if p + 1 < start - 1 {
      SampleFresh(start, m, p);
      SampleFresh(start, m, p + 1);
      if p < j { FreshPair(p, j); }
      if j < p { FreshPair(j, p); }
    } else if p < start {
      SampleMark(start, m);
    } else {
      PairInTail(start, m, t, p);
    }
  }

  lemma PairInTail(start: nat, m: nat, t: nat, p: nat)
    requires Plan(start, m) && t < m && start <= p && p + 2 <= start + 2 * t
    ensures var x := Sample(start, m); !(x[p] == x[start + 2 * t] && x[p + 1] == x[start + 2 * t + 1])
  {
    hide Sample, SampleByte;
    var u := (p - start) / 2;
    if p == start + 2 * u { OtherPair(start, m, t, u); } else { BetweenPairs(start, m, t, u); }
  }

  lemma OtherPair(start: nat, m: nat, t: nat, u: nat)
    requires Plan(start, m) && u < t < m
    ensures var x := Sample(start, m);
      !(x[start + 2 * u] == x[start + 2 * t] && x[start + 2 * u + 1] == x[start + 2 * t + 1])
  {
    hide Fresh, Sample, SampleByte, Source, Back;
    SamplePair(start, m, u);
    SamplePair(start, m, t);
    Sources(start, m, u, t);
    FreshPair(Source(start, m, u), Source(start, m, t));
  }

  lemma BetweenPairs(start: nat, m: nat, t: nat, u: nat)
    requires Plan(start, m) && u + 1 < t < m
    ensures var x := Sample(start, m);
      !(x[start + 2 * u + 1] == x[start + 2 * t] && x[start + 2 * u + 2] == x[start + 2 * t + 1])
  {
    hide Fresh, Sample, SampleByte, Source, Back;
    var j := Source(start, m, t);
    SamplePair(start, m, u);
    SamplePair(start, m, u + 1);
    SamplePair(start, m, t);
    Sources(start, m, u, u + 1);
    FreshParity(j);
    FreshParity(j + 1);
  }

  lemma SampleCopy(start: nat, m: nat, t: nat, len: nat, back: nat)
    requires Plan(start, m) && t < m
    requires len >= 2 && Usable(Format.BMC, Sample(start, m), start + 2 * t, len, back)
    ensures len == 2 && back == Back(m, t)
  {
    hide Fresh, Sample, SampleByte, Usable, Source, Back;
    var i := start + 2 * t;
    RepeatsPair(Sample(start, m), i, len, back);
    PairPlace(start, m, t, i - back);
    if len >= 3 { PairEnds(start, m, t); }
  }

  /** Behind the pair the text goes on differently. */
  lemma PairEnds(start: nat, m: nat, t: nat)
    requires Plan(start, m) && t + 1 < m
    ensures Sample(start, m)[Source(start, m, t) + 2] != Sample(start, m)[start + 2 * t + 2]
  {
    hide Fresh, Sample, SampleByte, Source, Back;
    var j := Source(start, m, t);
    SampleFresh(start, m, j + 2);
    SamplePair(start, m, t + 1);
    Sources(start, m, t, t + 1);
    FreshParity(j + 1);
    FreshParity(j + 2);
    FreshStep(j + 2);
  }

  lemma SampleUsable(start: nat, m: nat, t: nat)
    requires Plan(start, m) && t < m
    ensures Usable(Format.BMC, Sample(start, m), start + 2 * t, 2, Back(m, t))
  {
    hide Fresh, Sample, SampleByte;
    var i, j := start + 2 * t, Source(start, m, t);
    SamplePair(start, m, t);
    SampleFresh(start, m, j);
    SampleFresh(start, m, j + 1);
  }

  lemma SampleCopyBest(start: nat, m: nat, t: nat)
    requires Plan(start, m) && t < m
    ensures NextToken(Format.BMC, Sample(start, m), start + 2 * t) == Copy(2, Back(m, t))
  {
    hide Fresh, Sample, SampleByte, Best, Usable, Back;
    var x, i := Sample(start, m), start + 2 * t;
    SampleUsable(start, m, t);
    forall l: nat, b: nat | Usable(Format.BMC, x, i, l, b)
      ensures l <= 2 && (l == 2 ==> Back(m, t) <= b)
    {
      if l >= 2 { SampleCopy(start, m, t, l, b); }
    }
    BestUnique(Format.BMC, x, i, 2, Back(m, t));
  }

  /** The flag, length and offset prefix of a copy of two bytes at offset 4096 or more. */
  function Far(k: bits): (r: bits)
    ensures |r| == 7 + |k|
  {
    Put(1, 1, Put(2, 0, Put(3, 5, Put(1, 1, k))))
  }

  lemma FarEmit(back: nat, k: bits)
    requires 4098 <= back <= 8193
    ensures Emit(Copy(2, back), k) == Far(Put(12, back - 4098, k))
  {
    hide Put, PutLength, PutOffset;
    ShortLength(PutOffset(back - 2, k));
    FarOffset(back - 2, k);
  }

  lemma ShortLength(k: bits)
    ensures PutLength(2, k) == Put(2, 0, k)
  {}

  lemma FarOffset(n: nat, k: bits)
    requires 4096 <= n <= MAX_OFFSET
    ensures PutOffset(n, k) == Put(3, 5, Put(1, 1, Put(12, n - 4096, k)))
  {
    hide Put;
  }

  lemma Regroup<T>(a: seq<T>, b: seq<T>, c: seq<T>, d: seq<T>)
    ensures a + (b + c + d) == (a + b) + c + d
  {}

  lemma FarPrefix(k: bits)
    ensures Far(k) == Far([]) + k
  {
    hide Put;
    var a, b, c, d := Put(1, 1, []), Put(2, 0, []), Put(3, 5, []), Put(1, 1, []);
    FarParts(k);
    FarParts([]);
    assert d + [] == d;
    assert a + (b + (c + (d + k))) == (a + (b + (c + d))) + k;
  }

  lemma FarParts(k: bits)
    ensures Far(k) == Put(1, 1, []) + (Put(2, 0, []) + (Put(3, 5, []) + (Put(1, 1, []) + k)))
  {
    hide Put;
    PutPrefix(1, 1, k);
    PutPrefix(3, 5, Put(1, 1, k));
    PutPrefix(2, 0, Put(3, 5, Put(1, 1, k)));
    PutPrefix(1, 1, Put(2, 0, Put(3, 5, Put(1, 1, k))));
  }

  /** A copy from an odd distance without the last bit of its code. */
  function Cut(back: nat): (r: bits)
    requires back >= 4098
    ensures |r| == 18
  {
    Far(Put(11, (back - 4098) / 2, []))
  }

  lemma LastToken(back: nat, k: bits)
    requires 4098 <= back <= 8193 && back % 2 == 1
    ensures Emit(Copy(2, back), k) == Cut(back) + [true] + k
  {
    hide Far, Emit, Put;
    var v := back - 4098;
    FarEmit(back, k);
    LowDigit(v, k);
    FarPrefix(Put(12, v, k));
    FarPrefix(Put(11, v / 2, []));
    Regroup(Far([]), Put(11, v / 2, []), [true], k);
  }

  lemma LowDigit(v: nat, k: bits)
    ensures Put(12, v, k) == Put(11, v / 2, []) + [v % 2 == 1] + k
  {
    hide Get, Pow2;
    PutPrefix(11, v / 2, [v % 2 == 1] + k);
    assert Put(12, v, k) == Put(11, v / 2, [v % 2 == 1] + k);
    Regroup([], Put(11, v / 2, []), [v % 2 == 1], k);
  }

  /** The missing bit is read as 0, one place too near. */
  lemma CutReads(back: nat)
    requires 4098 <= back <= 8193 && back % 2 == 1
    ensures GetToken(Cut(back)) == (Copy(2, back - 1), [])
  {
    hide Put, Get, Emit;
    Powers();
    var v := (back - 4098) / 2;
    var low := Put(11, v, []);
    assert Get(low, 12) == (2 * v, []) by { ReadPastEnd(low, v); }
  }

  lemma ReadPastEnd(s: bits, v: nat)
    requires Get(s, 11) == (v, [])
    ensures Get(s, 12) == (2 * v, [])
  {
    hide Pow2;
  }

  lemma DearSize(back: nat)
    requires 4098 <= back <= 8193
    ensures |Emit(Copy(2, back), [])| == 19
  {
    hide Put, Emit;
    FarEmit(back, []);
  }

  lemma LiteralSize(b: byte)
    ensures |Emit(Literal(b), [])| == 9
  {}

  /** What the decoder makes of the stored sample. */
  function Mangled(start: nat, m: nat): (y: seq<byte>)
    requires Plan(start, m)
    ensures |y| == start + 2 * m
  {
    var x, j := Sample(start, m), Source(start, m, m - 1);
    x[..start + 2 * m - 2] + [x[j + 1], x[j + 2]]
  }

  lemma MangledDiffers(start: nat, m: nat)
    requires Plan(start, m)
    ensures Mangled(start, m) != Sample(start, m)
  {
    hide Fresh, Sample, SampleByte, Source, Back;
    var j := Source(start, m, m - 1);
    SamplePair(start, m, m - 1);
    SampleFresh(start, m, j + 1);
    FreshParity(j);
    FreshParity(j + 1);
    assert Mangled(start, m)[start + 2 * m - 2] == Fresh(j + 1);
  }

  lemma CutApplies(start: nat, m: nat)
    requires Plan(start, m)
    ensures var out, t := Sample(start, m)[..start + 2 * m - 2], Copy(2, Back(m, m - 1) - 1);
      Fits(out, t, start + 2 * m) && Apply(out, t) == Mangled(start, m)
  {
    hide Sample, SampleByte, Source, Back, CopyBack;
    var j := Source(start, m, m - 1);
    CopyTwo(Sample(start, m)[..start + 2 * m - 2], Back(m, m - 1) - 1);
  }

  lemma CopyTwo(out: seq<byte>, back: nat)
    requires 2 <= back <= |out|
    ensures CopyBack(out, 2, back) == out + [out[|out| - back], out[|out| - back + 1]]
  {
    var a, b := out[|out| - back], out[|out| - back + 1];
    assert CopyBack(out + [a] + [b], 0, back) == out + [a] + [b];
    assert CopyBack(out + [a], 1, back) == out + [a] + [b];
  }

  /** From the first copy on: cut one bit short, the bits decode to the mangled image. */
  lemma {:induction false} TailDecodes(start: nat, m: nat, t: nat, k: bits)
    requires Plan(start, m) && t < m
    ensures var s, n := From(Sample(start, m), start + 2 * t, k), 19 * (m - t) - 1;
      |s| == n + 1 + |k| && s[n] &&
      Decode(s[..n], Sample(start, m)[..start + 2 * t], start + 2 * m) == (true, Mangled(start, m))
    decreases m - t
  {
    hide Sample, SampleByte, Emit, GetToken, Cut, Decode, NextToken, Mangled, Apply, From, Back;
    var x, i, back := Sample(start, m), start + 2 * t, Back(m, t);
    SampleCopyBest(start, m, t);
    FromNext(x, i, k);
    var rest := From(x, i + 2, k);
    if t == m - 1 {
      FromEnd(x, k);
      LastToken(back, k);
      LastCut(start, m, Cut(back), k);
    } else {
      var n := 19 * (m - t - 1) - 1;
      TailDecodes(start, m, t + 1, k);
      DearSize(back);
      EmitCut(Copy(2, back), rest, n);
      TokenStep(x, i, Copy(2, back), rest[..n]);
    }
  }

  lemma LastCut(start: nat, m: nat, cut: bits, k: bits)
    requires Plan(start, m) && cut == Cut(Back(m, m - 1))
    ensures var s := cut + [true] + k;
      |s| == 19 + |k| && s[18] && s[..18] == cut &&
      Decode(s[..18], Sample(start, m)[..start + 2 * m - 2], start + 2 * m) == (true, Mangled(start, m))
  {
    hide Sample, SampleByte, GetToken, Cut, Decode, Mangled, Apply, Fits, Back;
    var out, back := Sample(start, m)[..start + 2 * m - 2], Back(m, m - 1);
    assert (cut + [true] + k)[..18] == cut;
    CutReads(back);
    CutApplies(start, m);
    DecodeOne(cut, out, start + 2 * m);
    DecodeDone([], Mangled(start, m), start + 2 * m);
  }

  /** From any literal on, the same. */
  lemma {:induction false} CutDecodes(start: nat, m: nat, i: nat, k: bits)
    requires Plan(start, m) && i <= start
    ensures var s, n := From(Sample(start, m), i, k), 9 * (start - i) + 19 * m - 1;
      |s| == n + 1 + |k| && s[n] &&
      Decode(s[..n], Sample(start, m)[..i], start + 2 * m) == (true, Mangled(start, m))
    decreases start - i
  {
    hide Sample, SampleByte, Emit, GetToken, Decode, NextToken, Mangled, Apply, From;
    if i == start {
      TailDecodes(start, m, 0, k);
    } else {
      var x, n := Sample(start, m), 9 * (start - i - 1) + 19 * m - 1;
      CutDecodes(start, m, i + 1, k);
      SampleLiteral(start, m, i);
      FromNext(x, i, k);
      var rest := From(x, i + 1, k);
      LiteralSize(x[i]);
      EmitCut(Literal(x[i]), rest, n);
      TokenStep(x, i, Literal(x[i]), rest[..n]);
    }
  }

  /** The image of `n` bytes whose encoding is one bit longer than the buffer. */
  lemma SamplePlan(n: nat)
    requires !Enough(n)
    ensures n >= 2 * (Slack(n) + 1) && Plan(n - 2 * (Slack(n) + 1), Slack(n) + 1)
  {}

  /** It is stored one bit short, and accepted by the decoder as a different image. */
  lemma SampleLost(n: nat) returns (x: seq<byte>, y: seq<byte>)
    requires !Enough(n)
    ensures |x| == n && |Encoding(x)| > 8 * Room(n)
    ensures Decode(Stored(Encoding(x), 8 * Room(n)), [], n) == (true, y) && y != x
  {
    hide Sample, SampleByte, Mangled, Decode, EmitAll, GreedyTokens;
    SamplePlan(n);
    var m := Slack(n) + 1;
    var start := n - 2 * m;
    x, y := Sample(start, m), Mangled(start, m);
    MangledDiffers(start, m);
    var k := Zeros(Padding(|EmitAll(GreedyTokens(Format.BMC, x, 0), [])|));
    CutDecodes(start, m, 0, k);
    assert From(x, 0, k) == Encoding(x);
    assert x[..0] == [];
  }

  // ---------- for which lengths the buffer is enough ----------

  /** The buffer holds the encoding of every image of `n` bytes if and only if the length is enough. */
  lemma RoomEnough(n: nat)
    ensures (forall x: seq<byte> :: |x| == n ==> |Encoding(x)| <= 8 * Room(n)) <==> Enough(n)
  {
    hide Encoding, Room, Enough, Decode;
    if Enough(n) {
      forall x: seq<byte> | |x| == n ensures |Encoding(x)| <= 8 * Room(n) {
        EncodingFits(x);
      }
    } else {
      var x, y := SampleLost(n);
    }
  }

  /** What the buffer holds is decoded to the image, for every image of `n` bytes, if and only if the length is
      enough. */
  lemma ImagesSurvive(n: nat)
    ensures (forall x: seq<byte> :: |x| == n ==> Decode(Stored(Encoding(x), 8 * Room(n)), [], n) == (true, x))
      <==> Enough(n)
  {
    hide Encoding, Room, Enough, Decode;
    if Enough(n) {
      forall x: seq<byte> | |x| == n ensures Decode(Stored(Encoding(x), 8 * Room(n)), [], n) == (true, x) {
        EncodingFits(x);
        RoundTrip(x);
      }
    } else {
      var x, y := SampleLost(n);
    }
  }
}
