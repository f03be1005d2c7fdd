/** The choice both encoders make at every position: the longest copy the format can represent, the nearest among
    the longest, and a literal when that is too short. */
module Greedy {
  import opened Bytes
  import opened Tokens

  datatype Format = LZSS | BMC {
    function MaxLen(): nat {
      if LZSS? then 18 else 256
    }

    /** The shortest copy worth a token. */
    function MinLen(): nat {
      if LZSS? then 3 else 2
    }

    /** The distances the search tries are the ones below this. */
    function Reach(): nat {
      if LZSS? then 0x1000 else 8192 + 256
    }

    /** The copies the format has a code for. */
    predicate Codes(len: nat, back: nat) {
      1 <= len <= MaxLen() &&
      match this
      case LZSS => back <= 0xFFF
      case BMC => len <= back <= len + 8191
    }
  }

  predicate Usable(f: Format, x: seq<byte>, i: nat, len: nat, back: nat) {
    f.Codes(len, back) && Repeats(x, i, len, back)
  }

  /** Some copy of this length is usable. */
  predicate HasCopy(f: Format, x: seq<byte>, i: nat, len: nat) {
    exists back | 1 <= back <= i :: Usable(f, x, i, len, back)
  }

  function LongestUpTo(f: Format, x: seq<byte>, i: nat, n: nat): (len: nat)
    ensures len <= n && (len > 0 ==> HasCopy(f, x, i, len))
    ensures forall l :: len < l <= n ==> !HasCopy(f, x, i, l)
    decreases n
  {
    if n == 0 || HasCopy(f, x, i, n) then n else LongestUpTo(f, x, i, n - 1)
  }

  function NearestFrom(f: Format, x: seq<byte>, i: nat, len: nat, from: nat): (back: nat)
    requires exists b :: from <= b <= i && Usable(f, x, i, len, b)
    ensures from <= back <= i && Usable(f, x, i, len, back)
    ensures forall b :: from <= b < back ==> !Usable(f, x, i, len, b)
    decreases i - from
  {
    if Usable(f, x, i, len, from) then from else NearestFrom(f, x, i, len, from + 1)
  }

  /** `len` and `back` are the best copy at `i`, or both 0 when there is none. */
  ghost predicate IsBest(f: Format, x: seq<byte>, i: nat, len: nat, back: nat) {
    (if len == 0 then back == 0 else Usable(f, x, i, len, back)) &&
    forall l: nat, b: nat :: Usable(f, x, i, l, b) ==> l <= len && (l == len ==> back <= b)
  }

  function Best(f: Format, x: seq<byte>, i: nat): (r: (nat, nat))
    ensures IsBest(f, x, i, r.0, r.1)
  {
    var len := LongestUpTo(f, x, i, f.MaxLen());
    assert forall l: nat, b: nat :: Usable(f, x, i, l, b) ==> HasCopy(f, x, i, l);
    if len == 0 then (0, 0) else (len, NearestFrom(f, x, i, len, 1))
  }

  /** The description leaves no choice. */
  lemma BestUnique(f: Format, x: seq<byte>, i: nat, len: nat, back: nat)
    requires IsBest(f, x, i, len, back)
    ensures Best(f, x, i) == (len, back)
  {
    hide Best, Usable;
    assert IsBest(f, x, i, Best(f, x, i).0, Best(f, x, i).1);
  }

  function NextToken(f: Format, x: seq<byte>, i: nat): (t: Token)
    requires i < |x|
    ensures Describes(x, i, t)
    ensures t.Copy? ==> t.len >= f.MinLen() && f.Codes(t.len, t.back)
  {
    var (len, back) := Best(f, x, i);
    if len >= f.MinLen() then Copy(len, back) else Literal(x[i])
  }

  function GreedyTokens(f: Format, x: seq<byte>, i: nat): (ts: seq<Token>)
    requires i <= |x|
    ensures Parses(x, i, ts)
    ensures forall t :: t in ts && t.Copy? ==> t.len >= f.MinLen() && f.Codes(t.len, t.back)
    decreases |x| - i
  {
    if i == |x| then [] else
      var t := NextToken(f, x, i);
      [t] + GreedyTokens(f, x, i + t.Size())
  }

  // ---------- the search, one distance after another ----------

  /** The best copy among those less than `offset` back. */
  ghost predicate BestBelow(f: Format, x: seq<byte>, i: nat, offset: nat, len: nat, back: nat) {
    back < offset && (if len == 0 then back == 0 else Usable(f, x, i, len, back)) &&
    forall l: nat, b: nat :: b < offset && Usable(f, x, i, l, b) ==> l <= len && (l == len ==> back <= b)
  }

  lemma BestOfNone(f: Format, x: seq<byte>, i: nat)
    ensures BestBelow(f, x, i, 1, 0, 0)
  {}

  /** `len` is how long the text repeats at distance `offset`, as far as the format cares. */
  ghost predicate LongestAt(f: Format, x: seq<byte>, i: nat, offset: nat, len: nat) {
    len <= f.MaxLen() && (f.BMC? ==> len <= offset) && Repeats(x, i, len, offset) &&
    forall l :: len < l <= f.MaxLen() && (f.BMC? ==> l <= offset) ==> !Repeats(x, i, l, offset)
  }

  lemma BestStep(f: Format, x: seq<byte>, i: nat, offset: nat, bestLen: nat, bestOff: nat, len: nat)
    requires BestBelow(f, x, i, offset, bestLen, bestOff) && offset < f.Reach() && LongestAt(f, x, i, offset, len)
    ensures if len > bestLen && f.Codes(len, offset) then BestBelow(f, x, i, offset + 1, len, offset)
            else BestBelow(f, x, i, offset + 1, bestLen, bestOff)
  {
    hide Repeats;
  }

  lemma BestOfAll(f: Format, x: seq<byte>, i: nat, offset: nat, len: nat, back: nat)
    requires BestBelow(f, x, i, offset, len, back)
    requires offset > i || offset == f.Reach()
    ensures Best(f, x, i) == (len, back)
  {
    assert forall l: nat, b: nat :: Usable(f, x, i, l, b) ==> b < offset;
    BestUnique(f, x, i, len, back);
  }
}
