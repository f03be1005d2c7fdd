/** What both compressors write down: literals, and copies of bytes already produced. */
module Tokens {
  import opened Bytes

  /** `Copy(len, back)`: the next `len` bytes repeat the ones starting `back` bytes earlier. */
  datatype Token = Literal(b: byte) | Copy(len: nat, back: nat) {
    function Size(): nat {
      if Literal? then 1 else len
    }
  }

  /** Byte-by-byte copying, so a copy may read what it has just written. */
  function CopyBack(out: seq<byte>, len: nat, back: nat): (r: seq<byte>)
    requires 1 <= back <= |out|
    ensures |r| == |out| + len
    decreases len
  {
    if len == 0 then out else CopyBack(out + [out[|out| - back]], len - 1, back)
  }

  predicate Applicable(out: seq<byte>, t: Token) {
    t.Literal? || 1 <= t.back <= |out|
  }

  function Apply(out: seq<byte>, t: Token): (r: seq<byte>)
    requires Applicable(out, t)
    ensures |r| == |out| + t.Size()
  {
    match t
    case Literal(b) => out + [b]
    case Copy(len, back) => CopyBack(out, len, back)
  }

  /** The text at `i` repeats for `len` bytes what stands `back` bytes earlier; the two stretches may overlap. */
  predicate Repeats(x: seq<byte>, i: nat, len: nat, back: nat) {
    1 <= back <= i && i + len <= |x| && forall j :: i <= j < i + len ==> x[j - back] == x[j]
  }

  lemma {:induction false} CopyRepeats(x: seq<byte>, i: nat, len: nat, back: nat)
    requires Repeats(x, i, len, back)
    ensures CopyBack(x[..i], len, back) == x[..i + len]
    decreases len
  {
    if len > 0 {
      assert x[..i] + [x[i]] == x[..i + 1];
      CopyRepeats(x, i + 1, len - 1, back);
    }
  }

  /** And copying makes the text repeat. */
  lemma {:induction false} CopyMakesRepeats(out: seq<byte>, len: nat, back: nat)
    requires 1 <= back <= |out|
    ensures CopyBack(out, len, back)[..|out|] == out && Repeats(CopyBack(out, len, back), |out|, len, back)
    decreases len
  {
    if len > 0 {
      var b := out[|out| - back];
      CopyMakesRepeats(out + [b], len - 1, back);
      var r := CopyBack(out, len, back);
      assert r[..|out| + 1] == out + [b];
      assert r[..|out|] == r[..|out| + 1][..|out|];
      assert r[|out|] == r[..|out| + 1][|out|] == b && r[|out| - back] == r[..|out|][|out| - back];
    }
  }

  /** A token that says the truth about `x` at `i`. */
  predicate Describes(x: seq<byte>, i: nat, t: Token) {
    match t
    case Literal(b) => i < |x| && x[i] == b
    case Copy(len, back) => len > 0 && Repeats(x, i, len, back)
  }

  lemma ApplyDescribes(x: seq<byte>, i: nat, t: Token)
    requires Describes(x, i, t)
    ensures Applicable(x[..i], t) && Apply(x[..i], t) == x[..i + t.Size()]
  {
    match t
    case Literal(b) => assert x[..i] + [b] == x[..i + 1];
    case Copy(len, back) => CopyRepeats(x, i, len, back);
  }

  /** Only a true token extends a beginning of the text to all of it. */
  lemma AppliesToAll(x: seq<byte>, i: nat, t: Token)
    requires i <= |x| && Applicable(x[..i], t) && t.Size() > 0 && Apply(x[..i], t) == x
    ensures Describes(x, i, t) && i + t.Size() == |x|
  {
    if t.Copy? { CopyMakesRepeats(x[..i], t.len, t.back); }
  }

  /** Consecutive tokens describing all of `x` from `i` on. */
  predicate Parses(x: seq<byte>, i: nat, ts: seq<Token>)
    decreases |ts|
  {
    if ts == [] then i == |x| else Describes(x, i, ts[0]) && Parses(x, i + ts[0].Size(), ts[1..])
  }

  lemma {:induction false} ParsesPosition(x: seq<byte>, i: nat, ts: seq<Token>)
    requires Parses(x, i, ts)
    ensures i <= |x| && (ts == [] <==> i == |x|)
    decreases |ts|
  {
    if ts != [] { ParsesPosition(x, i + ts[0].Size(), ts[1..]); }
  }
}
