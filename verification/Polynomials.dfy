/** Polynomials over GF(256), as coefficient sequences with the constant term first. */
module Polynomials {
  import opened GF256

  type Poly = seq<bv8>

  function Eval(p: Poly, x: bv8): bv8 {
    if p == [] then 0 else Add(p[0], Mul(x, Eval(p[1..], x)))
  }

  function Pow(x: bv8, n: nat): bv8 {
    if n == 0 then 1 else Mul(x, Pow(x, n - 1))
  }

  /** The coefficients of p + q, for sequences of one length. */
  function Sum(p: Poly, q: Poly): (r: Poly)
    requires |p| == |q|
    ensures |r| == |p|
  {
    seq(|p|, i requires 0 <= i < |p| => Add(p[i], q[i]))
  }

  function Scale(c: bv8, p: Poly): (r: Poly)
    ensures |r| == |p|
  {
    seq(|p|, i requires 0 <= i < |p| => Mul(c, p[i]))
  }

  lemma {:induction false} EvalSum(p: Poly, q: Poly, x: bv8)
    requires |p| == |q|
    ensures Eval(Sum(p, q), x) == Add(Eval(p, x), Eval(q, x))
  {
    hide Add, Mul;
    if p == [] {
      AddLaws(0, 0, 0);
    } else {
      var p', q' := p[1..], q[1..];
      assert Sum(p, q)[1..] == Sum(p', q');
      EvalSum(p', q', x);
      MulDistributes(x, Eval(p', x), Eval(q', x));
      AddSwap(p[0], q[0], Mul(x, Eval(p', x)), Mul(x, Eval(q', x)));
    }
  }

  lemma {:induction false} EvalScale(c: bv8, p: Poly, x: bv8)
    ensures Eval(Scale(c, p), x) == Mul(c, Eval(p, x))
  {
    hide Add, Mul;
    if p == [] {
      MulZero(c);
    } else {
      var v := Eval(p[1..], x);
      assert Scale(c, p)[1..] == Scale(c, p[1..]);
      EvalScale(c, p[1..], x);
      MulDistributes(c, p[0], Mul(x, v));
      MulExchange(c, x, v);
    }
  }

  lemma MulExchange(a: bv8, b: bv8, c: bv8)
    ensures Mul(a, Mul(b, c)) == Mul(b, Mul(a, c))
  {
    hide *;
    MulAssociates(a, b, c);
    MulAssociates(b, a, c);
    MulCommutes(a, b);
  }

  lemma {:induction false} EvalAppend(p: Poly, q: Poly, x: bv8)
    ensures Eval(p + q, x) == Add(Eval(p, x), Mul(Pow(x, |p|), Eval(q, x)))
  {
    hide Add, Mul;
    var v := Eval(q, x);
    if p == [] {
      assert p + q == q;
      AddLaws(v, 0, 0);
      MulOne(v);
    } else {
      var p' := p[1..];
      assert (p + q)[1..] == p' + q;
      EvalAppend(p', q, x);
      MulDistributes(x, Eval(p', x), Mul(Pow(x, |p'|), v));
      MulAssociates(x, Pow(x, |p'|), v);
      AddLaws(p[0], Mul(x, Eval(p', x)), Mul(Pow(x, |p|), v));
    }
  }

  lemma EvalShift(p: Poly, x: bv8)
    ensures Eval([0] + p, x) == Mul(x, Eval(p, x))
  {
    hide Add, Mul;
    assert ([0] + p)[1..] == p;
    AddLaws(Mul(x, Eval(p, x)), 0, 0);
  }

  lemma EvalConstant(c: bv8, x: bv8)
    ensures Eval([c], x) == c
  {
    hide Add, Mul;
    MulZero(x);
    AddLaws(c, 0, 0);
    assert [c][1..] == [];
  }

  // ---------- multiplying by x + r ----------

  function TimesRoot(p: Poly, r: bv8): (q: Poly)
    ensures |q| == |p| + 1
  {
    Sum([0] + p, Scale(r, p) + [0])
  }

  lemma EvalTimesRoot(p: Poly, r: bv8, x: bv8)
    ensures Eval(TimesRoot(p, r), x) == Mul(Add(x, r), Eval(p, x))
  {
    hide Add, Mul, Eval, Pow;
    EvalSum([0] + p, Scale(r, p) + [0], x);
    EvalShift(p, x);
    EvalAppend(Scale(r, p), [0], x);
    EvalConstant(0, x);
    MulZero(Pow(x, |p|));
    EvalScale(r, p, x);
    AddLaws(Mul(r, Eval(p, x)), 0, 0);
    MulDistributes(x, r, Eval(p, x));
  }

  // ---------- the generator polynomial ----------

  /** (x + a)(x + a^2)...(x + a^n), a being the field's generator. */
  function Generator(n: nat): (g: Poly)
    ensures |g| == n + 1
  {
    if n == 0 then [1] else TimesRoot(Generator(n - 1), Exp(n))
  }

  /** The product Generator(n) stands for, at a point. */
  function RootProduct(n: nat, x: bv8): bv8 {
    if n == 0 then 1 else Mul(Add(x, Exp(n)), RootProduct(n - 1, x))
  }

  lemma {:induction false} GeneratorIsProduct(n: nat, x: bv8)
    ensures Eval(Generator(n), x) == RootProduct(n, x)
  {
    hide Add, Mul, Eval, Exp, TimesRoot;
    if n == 0 {
      EvalConstant(1, x);
    } else {
      EvalTimesRoot(Generator(n - 1), Exp(n), x);
      GeneratorIsProduct(n - 1, x);
    }
  }

  lemma {:induction false} GeneratorMonic(n: nat)
    ensures Generator(n)[n] == 1
  {
    hide Add, Mul, Exp;
    if n > 0 {
      GeneratorMonic(n - 1);
      AddLaws(1, 0, 0);
    }
  }

  ghost predicate AmongRoots(n: nat, x: bv8) {
    exists i :: 1 <= i <= n && x == Exp(i)
  }

  /** The generator vanishes exactly at a, a^2, ..., a^n. */
  lemma GeneratorRoots(n: nat, x: bv8)
    ensures Eval(Generator(n), x) == 0 <==> AmongRoots(n, x)
  {
    hide Add, Mul, Eval, Exp, Generator, AmongRoots, RootProduct;
    GeneratorIsProduct(n, x);
    RootProductZero(n, x);
  }

  lemma MoreRoots(n: nat, x: bv8)
    requires n > 0
    ensures AmongRoots(n, x) <==> x == Exp(n) || AmongRoots(n - 1, x)
  {
    hide Exp;
    if i :| 1 <= i <= n && x == Exp(i) {
      assert i == n || 1 <= i <= n - 1;
    }
  }

  lemma {:induction false} RootProductZero(n: nat, x: bv8)
    ensures RootProduct(n, x) == 0 <==> AmongRoots(n, x)
  {
    hide Add, Mul, Exp;
    if n > 0 {
      RootProductZero(n - 1, x);
      MoreRoots(n, x);
      MulNonzero(Add(x, Exp(n)), RootProduct(n - 1, x));
      AddLaws(x, Exp(n), 0);
    }
  }

  lemma GeneratorRoot(n: nat, j: nat)
    requires 1 <= j <= n
    ensures Eval(Generator(n), Exp(j)) == 0
  {
    hide Eval, Exp, Generator;
    assert AmongRoots(n, Exp(j));
    GeneratorRoots(n, Exp(j));
  }
}
