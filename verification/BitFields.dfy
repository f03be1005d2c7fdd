/** Bit strings: bytes hold them from the lowest bit up, numbers are written in them from the highest bit down. */
module BitFields {
  import opened Bytes

  type bits = seq<bool>

  // ---------- bytes ----------

  /** The low `n` bits of `b`, lowest first. */
  function LowBits(b: nat, n: nat): (r: bits)
    ensures |r| == n
    decreases n
  {
    if n == 0 then [] else [b % 2 == 1] + LowBits(b / 2, n - 1)
  }

  function Unpack(s: seq<byte>): (r: bits)
    ensures |r| == 8 * |s|
  {
    if s == [] then [] else LowBits(s[0], 8) + Unpack(s[1..])
  }

  function Zeros(n: nat): (r: bits)
    ensures |r| == n
  {
    seq(n, i => false)
  }

  lemma {:induction false} UnpackAppend(s: seq<byte>, t: seq<byte>)
    ensures Unpack(s + t) == Unpack(s) + Unpack(t)
  {
    if s == [] {
      assert s + t == t;
    } else {
      assert (s + t)[1..] == s[1..] + t;
      UnpackAppend(s[1..], t);
    }
  }

  lemma UnpackPush(s: seq<byte>, b: byte)
    ensures Unpack(s + [b]) == Unpack(s) + LowBits(b, 8)
  {
    UnpackAppend(s, [b]);
    assert Unpack([b]) == LowBits(b, 8) + Unpack([]);
  }

  /** Shifting a byte right past a new top bit drops its lowest bit and appends the new one. */
  lemma {:induction false} ShiftIn(b: nat, n: nat, top: nat, bit: bool)
    requires b < 2 * top && IsPow2(top, n)
    ensures LowBits(b / 2 + (if bit then top else 0), n + 1) == LowBits(b, n + 1)[1..] + [bit]
    decreases n
  {
    if n > 0 {
      hide Unpack;
      ShiftIn(b / 2, n - 1, top / 2, bit);
      HalvesEven(b / 2, if bit then top else 0);
    }
  }

  lemma HalvesEven(x: nat, y: nat)
    requires y % 2 == 0
    ensures (x + y) / 2 == x / 2 + y / 2 && (x + y) % 2 == x % 2
  {}

  predicate IsPow2(m: nat, n: nat)
    decreases n
  {
    if n == 0 then m == 1 else m % 2 == 0 && IsPow2(m / 2, n - 1)
  }

  /** Shifting a byte right by `m` moves its top bits down and clears the rest. */
  lemma {:induction false} ShiftDown(b: byte, m: nat)
    requires m <= 8
    ensures Shr(b, m) < 256
    ensures LowBits(Shr(b, m), 8) == LowBits(b, 8)[m..] + Zeros(m)
    decreases m
  {
    hide LowBits;
    if m > 0 {
      ShiftIn(b, 7, 128, false);
      ShiftDown(b / 2, m - 1);
      assert (LowBits(b, 8)[1..] + [false])[m - 1..] == LowBits(b, 8)[m..] + [false];
      assert [false] + Zeros(m - 1) == Zeros(m);
    }
  }

  // ---------- fields ----------

  /** Reading past the end gives zeros. */
  function Head(s: bits): bool {
    s != [] && s[0]
  }

  function Tail(s: bits): bits {
    if s == [] then [] else s[1..]
  }

  function Digit(b: bool): nat {
    if b then 1 else 0
  }

  /** The value of the first `w` bits, highest first, and what follows them. */
  function Get(s: bits, w: nat): (r: (nat, bits))
    ensures r.0 < Pow2(w)
    decreases w
  {
    if w == 0 then (0, s) else
      var (v, rest) := Get(s, w - 1);
      (2 * v + Digit(Head(rest)), Tail(rest))
  }

  /** `w` bits of `v`, highest first, in front of `k`. */
  function Put(w: nat, v: nat, k: bits): (r: bits)
    ensures |r| == w + |k|
    ensures v < Pow2(w) ==> Get(r, w) == (v, k)
    decreases w
  {
    if w == 0 then k else
      assert ([v % 2 == 1] + k)[1..] == k;
      Put(w - 1, v / 2, [v % 2 == 1] + k)
  }

  /** Writing back a value just read reproduces the bits it was read from. */
  lemma {:induction false} PutGet(s: bits, w: nat)
    requires w <= |s|
    ensures Put(w, Get(s, w).0, Get(s, w).1) == s && |Get(s, w).1| == |s| - w
    decreases w
  {
    hide Pow2, Head, Tail, Digit;
    if w > 0 {
      PutGet(s, w - 1);
      var (v, rest) := Get(s, w - 1);
      HeadAndTail(rest);
      DigitParity(v, Head(rest));
    }
  }

  lemma HeadAndTail(s: bits)
    requires s != []
    ensures [Head(s)] + Tail(s) == s && |Tail(s)| == |s| - 1
  {}

  lemma DigitParity(v: nat, b: bool)
    ensures (2 * v + Digit(b)) / 2 == v && (((2 * v + Digit(b)) % 2 == 1) == b)
  {}

  lemma {:induction false} PutPrefix(w: nat, v: nat, k: bits)
    ensures Put(w, v, k) == Put(w, v, []) + k
    decreases w
  {
    hide Get, Pow2;
    if w > 0 {
      var b := [v % 2 == 1];
      PutPrefix(w - 1, v / 2, b + k);
      PutPrefix(w - 1, v / 2, b + []);
      Associate(b, [], []);
      Associate(Put(w - 1, v / 2, []), b, k);
    }
  }

  lemma Associate(a: bits, b: bits, c: bits)
    ensures a + (b + c) == (a + b) + c && a + [] == a == [] + a
  {}

  /** What stands behind a field does not change its bits. */
  lemma PutSuffix(w: nat, v: nat, k: bits, z: bits)
    ensures Put(w, v, k + z) == Put(w, v, k) + z
  {
    hide Put, Get, Pow2;
    PutPrefix(w, v, k + z);
    PutPrefix(w, v, k);
    Associate(Put(w, v, []), k, z);
  }

  function Then(s: bits, z: bits): bits {
    s + z
  }

  lemma PutThens(z: bits)
    ensures forall w: nat, v: nat, k: bits {:trigger Put(w, v, Then(k, z))} ::
      Put(w, v, Then(k, z)) == Then(Put(w, v, k), z)
  {
    hide Put;
    forall w: nat, v: nat, k: bits ensures Put(w, v, Then(k, z)) == Then(Put(w, v, k), z) {
      PutSuffix(w, v, k, z);
    }
  }

  // ---------- zeros past the end ----------

  predicate At(s: bits, i: nat) {
    i < |s| && s[i]
  }

  /** Bit strings that read the same, zeros standing for what is past the end. */
  ghost predicate Alike(s: bits, t: bits) {
    forall i: nat :: At(s, i) == At(t, i)
  }

  lemma AlikeZeros(s: bits, n: nat)
    ensures Alike(s, s + Zeros(n))
  {}

  lemma AlikeTail(s: bits, t: bits)
    requires Alike(s, t)
    ensures Head(s) == Head(t) && Alike(Tail(s), Tail(t))
  {
    assert Head(s) == At(s, 0) && Head(t) == At(t, 0);
    forall i: nat ensures At(Tail(s), i) == At(Tail(t), i) {
      assert At(Tail(s), i) == At(s, i + 1) && At(Tail(t), i) == At(t, i + 1);
    }
  }

  lemma {:induction false} GetAlike(s: bits, t: bits, w: nat)
    requires Alike(s, t)
    ensures Get(s, w).0 == Get(t, w).0 && Alike(Get(s, w).1, Get(t, w).1)
    decreases w
  {
    hide Alike;
    if w > 0 {
      GetAlike(s, t, w - 1);
      AlikeTail(Get(s, w - 1).1, Get(t, w - 1).1);
    }
  }

  lemma GetAlikes()
    ensures forall s: bits, t: bits, w: nat {:trigger Alike(s, t), Get(s, w)} {:trigger Alike(s, t), Get(t, w)} ::
      Alike(s, t) ==> Get(s, w).0 == Get(t, w).0 && Alike(Get(s, w).1, Get(t, w).1)
  {
    hide Get, Alike;
    forall s: bits, t: bits, w: nat | Alike(s, t)
      ensures Get(s, w).0 == Get(t, w).0 && Alike(Get(s, w).1, Get(t, w).1)
    {
      GetAlike(s, t, w);
    }
  }

  /** The source's `v >> n` and `v << n`. */
  function Shr(v: nat, n: nat): nat
    decreases n
  {
    if n == 0 then v else Shr(v / 2, n - 1)
  }

  function Shl(v: nat, n: nat): nat {
    if n == 0 then v else 2 * Shl(v, n - 1)
  }

  lemma {:induction false} ShiftBoth(v: nat, n: nat, i: nat)
    requires i <= n
    ensures Shr(Shl(v, i), n) == Shr(v, n - i)
    decreases i
  {
    if i > 0 { ShiftBoth(v, n - 1, i - 1); }
  }

  /** The bit written at step `i` of a field. */
  lemma {:induction false} PutAt(w: nat, v: nat, i: nat)
    requires i < w
    ensures Put(w, v, [])[i] == (Shr(v, w - 1 - i) % 2 == 1)
    decreases w
  {
    var b := [v % 2 == 1];
    assert b + [] == b;
    PutPrefix(w - 1, v / 2, b);
    if i < w - 1 {
      PutAt(w - 1, v / 2, i);
    }
  }

  // ---------- runs of fields ----------

  datatype Field = Field(width: nat, value: nat)

  function PutAll(fs: seq<Field>, k: bits): bits {
    if fs == [] then k else Put(fs[0].width, fs[0].value, PutAll(fs[1..], k))
  }

  /** Reads fields of the same widths as `fs`. */
  function GetAll(fs: seq<Field>, s: bits): (r: (seq<nat>, bits))
    ensures |r.0| == |fs|
  {
    if fs == [] then ([], s) else
      var (v, rest) := Get(s, fs[0].width);
      var (vs, end) := GetAll(fs[1..], rest);
      ([v] + vs, end)
  }

  /** The low `w` binary digits of `v`. */
  function LowPart(w: nat, v: nat): nat
    decreases w
  {
    if w == 0 then 0 else 2 * LowPart(w - 1, v / 2) + v % 2
  }

  lemma {:induction false} LowPartSmall(w: nat, v: nat)
    ensures LowPart(w, v) < Pow2(w) && (v < Pow2(w) ==> LowPart(w, v) == v)
    decreases w
  {
    if w > 0 { LowPartSmall(w - 1, v / 2); }
  }

  /** A field holds what its width can show of the value written. */
  lemma {:induction false} PutReads(w: nat, v: nat, k: bits)
    ensures Get(Put(w, v, k), w) == (LowPart(w, v), k)
    decreases w
  {
    hide Pow2, Head, Tail, Digit;
    if w > 0 {
      PutReads(w - 1, v / 2, [v % 2 == 1] + k);
      Prepended(v % 2 == 1, k);
    }
  }

  lemma Prepended(b: bool, k: bits)
    ensures Head([b] + k) == b && Tail([b] + k) == k && Digit(b) == if b then 1 else 0
  {}

  function LowParts(fs: seq<Field>): seq<nat> {
    if fs == [] then [] else [LowPart(fs[0].width, fs[0].value)] + LowParts(fs[1..])
  }

  function Values(fs: seq<Field>): seq<nat> {
    if fs == [] then [] else [fs[0].value] + Values(fs[1..])
  }

  /** Every value fits the width it is written in. */
  predicate AllFit(fs: seq<Field>) {
    forall f :: f in fs ==> f.value < Pow2(f.width)
  }

  lemma {:induction false} FittingParts(fs: seq<Field>)
    requires AllFit(fs)
    ensures LowParts(fs) == Values(fs)
  {
    hide Pow2, LowPart;
    if fs != [] {
      assert fs[0] in fs;
      LowPartSmall(fs[0].width, fs[0].value);
      FittingParts(fs[1..]);
    }
  }

  /** Any run of fields is read back by fields of the same widths, whatever comes after it: the values themselves when
      they fit, and otherwise their low digits. */
  lemma {:induction false} FieldsReadBack(fs: seq<Field>, k: bits)
    ensures GetAll(fs, PutAll(fs, k)) == (LowParts(fs), k)
    ensures AllFit(fs) ==> GetAll(fs, PutAll(fs, k)) == (Values(fs), k)
  {
    hide Put, Get, AllFit;
    if fs != [] {
      PutReads(fs[0].width, fs[0].value, PutAll(fs[1..], k));
      FieldsReadBack(fs[1..], k);
    }
    if AllFit(fs) { FittingParts(fs); }
  }
}
