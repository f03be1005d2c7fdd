/** The minimum distance of the code: a nonzero word with zero syndromes at a, ..., a^t has more than t nonzero
    symbols.  The proof removes one locator at a time: weighting each symbol by its locator plus a chosen one
    kills that symbol, keeps every other nonzero, and costs a single syndrome. */
module Distance {
  import opened GF256
  import opened Polynomials

  function Weight(c: Poly): nat {
    if c == [] then 0 else (if c[0] != 0 then 1 else 0) + Weight(c[1..])
  }

  lemma {:induction false} WeightBounds(c: Poly)
    ensures Weight(c) <= |c|
    ensures Weight(c) == |c| <==> forall i :: 0 <= i < |c| ==> c[i] != 0
    ensures Weight(c) == 0 <==> forall i :: 0 <= i < |c| ==> c[i] == 0
  {
    if c != [] {
      WeightBounds(c[1..]);
      assert forall i :: 1 <= i < |c| ==> c[i] == c[1..][i - 1];
      assert forall i :: 0 <= i < |c| - 1 ==> c[1..][i] == c[i + 1];
    }
  }

  lemma {:induction false} WeightAppend(c: Poly, d: Poly)
    ensures Weight(c + d) == Weight(c) + Weight(d)
  {
    if c == [] {
      assert c + d == d;
    } else {
      assert (c + d)[1..] == c[1..] + d;
      WeightAppend(c[1..], d);
    }
  }

  /** The sum of c[m] * (a^(k + m))^j: the j-th syndrome of the word whose first locator is a^k. */
  function Syndrome(c: Poly, j: nat, k: nat): bv8
    decreases |c|
  {
    if c == [] then 0 else Add(Mul(c[0], Exp(j * k)), Syndrome(c[1..], j, k + 1))
  }

  lemma {:induction false} SyndromeIsEval(c: Poly, j: nat, k: nat)
    ensures Syndrome(c, j, k) == Mul(Exp(j * k), Eval(c, Exp(j)))
    decreases |c|
  {
    hide Add, Mul, Exp;
    var b := Exp(j * k);
    if c == [] {
      MulZero(b);
    } else {
      var v := Eval(c[1..], Exp(j));
      SyndromeIsEval(c[1..], j, k + 1);
      assert j * (k + 1) == j * k + j;
      ExpAdd(j * k, j);
      MulAssociates(b, Exp(j), v);
      MulCommutes(c[0], b);
      MulDistributes(b, c[0], Mul(Exp(j), v));
    }
  }

  /** Each symbol times its locator plus a^p. */
  function Eliminate(c: Poly, p: nat, k: nat): (d: Poly)
    ensures |d| == |c|
    decreases |c|
  {
    if c == [] then [] else [Mul(c[0], Add(Exp(k), Exp(p)))] + Eliminate(c[1..], p, k + 1)
  }

  lemma {:induction false} EliminateSyndrome(c: Poly, p: nat, j: nat, k: nat)
    ensures Syndrome(Eliminate(c, p, k), j, k) == Add(Syndrome(c, j + 1, k), Mul(Exp(p), Syndrome(c, j, k)))
    decreases |c|
  {
    hide Add, Mul, Exp;
    if c == [] {
      MulZero(Exp(p));
      AddLaws(0, 0, 0);
    } else {
      var d := Eliminate(c, p, k);
      assert d[1..] == Eliminate(c[1..], p, k + 1);
      EliminateSyndrome(c[1..], p, j, k + 1);
      EliminateTerm(c[0], Exp(k), Exp(p), Exp(j * k));
      assert k + j * k == (j + 1) * k;
      ExpAdd(k, j * k);
      var s1, s0 := Syndrome(c[1..], j + 1, k + 1), Syndrome(c[1..], j, k + 1);
      MulDistributes(Exp(p), Mul(c[0], Exp(j * k)), s0);
      AddSwap(Mul(c[0], Exp((j + 1) * k)), Mul(Exp(p), Mul(c[0], Exp(j * k))), s1, Mul(Exp(p), s0));
    }
  }

  lemma EliminateTerm(a: bv8, x: bv8, r: bv8, e: bv8)
    ensures Mul(Mul(a, Add(x, r)), e) == Add(Mul(a, Mul(x, e)), Mul(r, Mul(a, e)))
  {
    hide *;
    MulDistributes(a, x, r);
    MulDistributes(Mul(a, x), Mul(a, r), e);
    MulAssociates(a, x, e);
    MulCommutes(a, r);
    MulAssociates(r, a, e);
  }

  /** Elimination kills exactly the symbol at locator a^p. */
  lemma {:induction false} EliminateWeight(c: Poly, p: nat, k: nat)
    requires k + |c| <= 255 && p < 255
    ensures Weight(Eliminate(c, p, k)) == Weight(c) - (if k <= p < k + |c| && c[p - k] != 0 then 1 else 0)
    decreases |c|
  {
    hide Add, Mul, Exp;
    if c != [] {
      EliminateWeight(c[1..], p, k + 1);
      assert Eliminate(c, p, k)[1..] == Eliminate(c[1..], p, k + 1);
      AddLaws(Exp(k), Exp(p), 0);
      MulNonzero(c[0], Add(Exp(k), Exp(p)));
      if k < p { ExpInjective(k, p); }
      if p < k { ExpInjective(p, k); }
    }
  }

  lemma {:induction false} SyndromeOfZero(c: Poly, j: nat, k: nat)
    requires Weight(c) == 0
    ensures Syndrome(c, j, k) == 0
    decreases |c|
  {
    hide Add, Mul, Exp;
    if c != [] {
      SyndromeOfZero(c[1..], j, k + 1);
      MulZero(Exp(j * k));
      AddLaws(0, 0, 0);
    }
  }

  /** A word with a single nonzero symbol has no zero syndrome. */
  lemma {:induction false} SyndromeOfOne(c: Poly, j: nat, k: nat)
    requires Weight(c) == 1
    ensures Syndrome(c, j, k) != 0
    decreases |c|
  {
    hide Add, Mul, Exp;
    var e := Exp(j * k);
    ExpNonzero(j * k);
    MulNonzero(c[0], e);
    if c[0] != 0 {
      SyndromeOfZero(c[1..], j, k + 1);
      AddLaws(Mul(c[0], e), 0, 0);
    } else {
      SyndromeOfOne(c[1..], j, k + 1);
      AddLaws(Syndrome(c[1..], j, k + 1), 0, 0);
    }
  }

  ghost predicate ZeroSyndromes(c: Poly, t: nat) {
    forall j :: 1 <= j <= t ==> Syndrome(c, j, 0) == 0
  }

  lemma {:induction false} MinimumWeight(c: Poly, t: nat)
    requires |c| <= 255 && Weight(c) > 0 && ZeroSyndromes(c, t)
    ensures Weight(c) > t
    decreases t
  {
    hide Add, Mul, Exp, Weight, Syndrome, Eliminate;
    if t > 0 {
      WeightBounds(c);
      var p :| 0 <= p < |c| && c[p] != 0;
      var d := Eliminate(c, p, 0);
      EliminateWeight(c, p, 0);
      forall j | 1 <= j <= t - 1 ensures Syndrome(d, j, 0) == 0 {
        EliminateSyndrome(c, p, j, 0);
        MulZero(Exp(p));
        AddLaws(0, 0, 0);
      }
      if Weight(d) == 0 {
        SyndromeOfOne(c, 1, 0);
      } else {
        MinimumWeight(d, t - 1);
      }
    }
  }

  /** In terms of roots: a nonzero polynomial of degree below 255 vanishing at a, ..., a^t has more than t terms. */
  lemma RootsForceWeight(c: Poly, t: nat)
    requires |c| <= 255 && Weight(c) > 0
    requires forall j :: 1 <= j <= t ==> Eval(c, Exp(j)) == 0
    ensures Weight(c) > t
  {
    hide Add, Mul, Exp, Weight, Syndrome, Eval;
    forall j | 1 <= j <= t ensures Syndrome(c, j, 0) == 0 {
      SyndromeIsEval(c, j, 0);
      MulZero(Exp(j * 0));
    }
    MinimumWeight(c, t);
  }

  /** Hence no coefficient of a generator polynomial vanishes. */
  lemma GeneratorDense(n: nat)
    requires n <= 254
    ensures forall i :: 0 <= i <= n ==> Generator(n)[i] != 0
  {
    hide Add, Mul, Exp, Weight, Syndrome, Eval, Generator;
    var g := Generator(n);
    GeneratorMonic(n);
    WeightBounds(g);
    forall j | 1 <= j <= n ensures Eval(g, Exp(j)) == 0 { GeneratorRoot(n, j); }
    RootsForceWeight(g, n);
  }
}
