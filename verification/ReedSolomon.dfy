/** The systematic code of the RF packets: what the parity bytes are, and what they are for. */
module ReedSolomon {
  import opened GF256
  import opened Polynomials
  import opened Distance

  // ---------- the encoder as a recursion ----------

  function Zeros(n: nat): (p: Poly)
    ensures |p| == n
  {
    seq(n, i => 0)
  }

  /** One step of the division register: `d` enters at the top, the feedback is spread over the generator. */
  function Feed(p: Poly, d: bv8): (q: Poly)
    requires p != []
    ensures |q| == |p|
  {
    var n := |p|;
    Sum([0] + p[..n - 1], Scale(Add(p[n - 1], d), Generator(n)[..n]))
  }

  /** The `n` parity bytes of `data`, fed from its last byte to its first. */
  function Parity(data: Poly, n: nat): (p: Poly)
    requires n > 0
    ensures |p| == n
  {
    if data == [] then Zeros(n) else Feed(Parity(data[1..], n), data[0])
  }

  /** The packet as it lies in memory: data, then parity. */
  function Packet(data: Poly, n: nat): (p: Poly)
    requires n > 0
    ensures |p| == |data| + n
  {
    data + Parity(data, n)
  }

  // ---------- parity completes a codeword ----------

  /** Read with the parity in the low coefficients, the packet vanishes at a, ..., a^n. */
  ghost predicate Codeword(data: Poly, parity: Poly) {
    forall j :: 1 <= j <= |parity| ==> Eval(parity + data, Exp(j)) == 0
  }

  lemma EvalZeros(n: nat, x: bv8)
    ensures Eval(Zeros(n), x) == 0
  {
    hide Add, Mul, Eval;
    assert Zeros(n) == Scale(0, Zeros(n)) by {
      MulZero(0);
    }
    EvalScale(0, Zeros(n), x);
    MulZero(Eval(Zeros(n), x));
  }

  /** The generator's leading term is x^n, so at a root the other terms add up to x^n too. */
  lemma GeneratorTail(n: nat, x: bv8)
    requires Eval(Generator(n), x) == 0
    ensures Eval(Generator(n)[..n], x) == Pow(x, n)
  {
    hide Add, Mul, Eval, Pow, Generator;
    var g := Generator(n);
    GeneratorMonic(n);
    assert g == g[..n] + [1];
    EvalAppend(g[..n], [1], x);
    EvalConstant(1, x);
    MulOne(Pow(x, n));
    AddLaws(Eval(g[..n], x), Pow(x, n), 0);
  }

  /** Shifting the register up loses its top term. */
  lemma EvalShiftUp(p: Poly, x: bv8)
    requires p != []
    ensures Mul(x, Eval(p, x)) == Add(Eval([0] + p[..|p| - 1], x), Mul(Pow(x, |p|), p[|p| - 1]))
  {
    hide Add, Mul, Eval, Pow;
    var n := |p|;
    assert [0] + p == ([0] + p[..n - 1]) + [p[n - 1]];
    EvalShift(p, x);
    EvalAppend([0] + p[..n - 1], [p[n - 1]], x);
    EvalConstant(p[n - 1], x);
  }

  lemma EvalFeed(p: Poly, d: bv8, x: bv8)
    requires p != [] && Eval(Generator(|p|), x) == 0
    ensures Eval(Feed(p, d), x) == Add(Mul(x, Eval(p, x)), Mul(Pow(x, |p|), d))
  {
    hide Add, Mul, Eval, Pow, Generator, Sum, Scale;
    var n := |p|;
    var g, t, xn := Generator(n)[..n], p[n - 1], Pow(x, n);
    var u := Eval([0] + p[..n - 1], x);
    GeneratorTail(n, x);
    EvalShiftUp(p, x);
    EvalScale(Add(t, d), g, x);
    EvalSum([0] + p[..n - 1], Scale(Add(t, d), g), x);
    Feedback(u, t, d, xn);
  }

  lemma Feedback(u: bv8, t: bv8, d: bv8, xn: bv8)
    ensures Add(u, Mul(Add(t, d), xn)) == Add(Add(u, Mul(xn, t)), Mul(xn, d))
  {
    hide *;
    MulCommutes(Add(t, d), xn);
    MulDistributes(xn, t, d);
    AddLaws(u, Mul(xn, t), Mul(xn, d));
  }

  lemma {:induction false} EvalParity(data: Poly, n: nat, x: bv8)
    requires n > 0 && Eval(Generator(n), x) == 0
    ensures Eval(Parity(data, n), x) == Mul(Pow(x, n), Eval(data, x))
  {
    hide Add, Mul, Pow, Generator, Feed;
    if data == [] {
      EvalZeros(n, x);
      MulZero(Pow(x, n));
    } else {
      var v := Eval(data[1..], x);
      EvalParity(data[1..], n, x);
      EvalFeed(Parity(data[1..], n), data[0], x);
      MulExchange(x, Pow(x, n), v);
      MulDistributes(Pow(x, n), Mul(x, v), data[0]);
      AddLaws(Mul(x, v), data[0], 0);
    }
  }

  lemma ParityIsCodeword(data: Poly, n: nat)
    requires n > 0
    ensures Codeword(data, Parity(data, n))
  {
    hide Add, Mul, Exp, Pow, Generator, Parity, Eval;
    var p := Parity(data, n);
    forall j | 1 <= j <= n ensures Eval(p + data, Exp(j)) == 0 {
      GeneratorRoot(n, j);
      EvalParity(data, n, Exp(j));
      EvalAppend(p, data, Exp(j));
      AddLaws(Eval(p, Exp(j)), Eval(p, Exp(j)), 0);
    }
  }

  // ---------- distance ----------

  /** The number of positions at which two words differ. */
  function Differences(p: Poly, q: Poly): nat
    requires |p| == |q|
  {
    if p == [] then 0 else (if p[0] != q[0] then 1 else 0) + Differences(p[1..], q[1..])
  }

  lemma {:induction false} DifferencesWeight(p: Poly, q: Poly)
    requires |p| == |q|
    ensures Differences(p, q) == Weight(Sum(p, q))
    ensures Differences(p, q) == 0 <==> p == q
  {
    hide Add;
    if p != [] {
      assert Sum(p, q)[1..] == Sum(p[1..], q[1..]);
      AddLaws(p[0], q[0], 0);
      DifferencesWeight(p[1..], q[1..]);
      assert p == [p[0]] + p[1..] && q == [q[0]] + q[1..];
    }
  }

  lemma SumAppend(d: Poly, p: Poly, d': Poly, p': Poly)
    requires |d| == |d'| && |p| == |p'|
    ensures Sum(d + p, d' + p') == Sum(d, d') + Sum(p, p')
  {
    hide Add;
    assert forall i :: 0 <= i < |d| + |p| ==> Sum(d + p, d' + p')[i] == (Sum(d, d') + Sum(p, p'))[i];
  }

  lemma WeightOfSum(d: Poly, p: Poly, d': Poly, p': Poly)
    requires |d| == |d'| && |p| == |p'|
    ensures Weight(Sum(p + d, p' + d')) == Differences(d + p, d' + p')
  {
    hide Add, Weight, Differences, Sum;
    DifferencesWeight(d + p, d' + p');
    SumAppend(d, p, d', p');
    SumAppend(p, d, p', d');
    WeightAppend(Sum(d, d'), Sum(p, p'));
    WeightAppend(Sum(p, p'), Sum(d, d'));
  }

  /** Two different codewords differ in more symbols than there are parity symbols. */
  lemma CodewordDistance(d: Poly, p: Poly, d': Poly, p': Poly)
    requires |d| == |d'| && |p| == |p'| && |d| + |p| <= 255
    requires Codeword(d, p) && Codeword(d', p')
    requires d + p != d' + p'
    ensures Differences(d + p, d' + p') > |p|
  {
    hide Add, Mul, Eval, Weight, Differences, Sum;
    DifferencesWeight(d + p, d' + p');
    WeightOfSum(d, p, d', p');
    var w := Sum(p + d, p' + d');
    forall j | 1 <= j <= |p| ensures Eval(w, Exp(j)) == 0 {
      EvalSum(p + d, p' + d', Exp(j));
      AddLaws(0, 0, 0);
    }
    RootsForceWeight(w, |p|);
  }

  lemma MinimumDistance(data: Poly, data': Poly, n: nat)
    requires n > 0 && |data| == |data'| && |data| + n <= 255 && data != data'
    ensures Differences(Packet(data, n), Packet(data', n)) > n
  {
    hide Parity, Differences;
    ParityIsCodeword(data, n);
    ParityIsCodeword(data', n);
    assert Packet(data, n)[..|data|] == data && Packet(data', n)[..|data|] == data';
    CodewordDistance(data, Parity(data, n), data', Parity(data', n));
  }

  /** The codeword property leaves no freedom: it determines the parity bytes. */
  lemma ParityUnique(data: Poly, parity: Poly)
    requires |parity| > 0 && |data| + |parity| <= 255
    ensures Codeword(data, parity) <==> parity == Parity(data, |parity|)
  {
    hide Parity, Differences, Codeword;
    var p := Parity(data, |parity|);
    ParityIsCodeword(data, |parity|);
    if Codeword(data, parity) && parity != p {
      assert (data + parity)[|data|..] == parity && (data + p)[|data|..] == p;
      CodewordDistance(data, parity, data, p);
      SharedPrefix(data, parity, p);
    }
  }

  /** The generator polynomial is itself a codeword: a 1 in front of its lower coefficients. */
  lemma GeneratorCodeword(n: nat, k: nat)
    requires n > 0 && k > 0
    ensures Codeword([1] + Zeros(k - 1), Generator(n)[..n])
  {
    hide Generator, Eval, Zeros;
    var g, z := Generator(n), Zeros(k - 1);
    GeneratorMonic(n);
    assert g[..n] + ([1] + z) == g + z;
    forall j | 1 <= j <= n ensures Eval(g[..n] + ([1] + z), Exp(j)) == 0 {
      GeneratorRoot(n, j);
      EvalAppend(g, z, Exp(j));
      EvalZeros(k - 1, Exp(j));
      MulZero(Pow(Exp(j), |g|));
      AddLaws(0, 0, 0);
    }
  }

  lemma ZeroCodeword(n: nat, k: nat)
    ensures Codeword(Zeros(k), Zeros(n))
  {
    hide Eval;
    assert Zeros(n) + Zeros(k) == Zeros(n + k);
    forall j | 1 <= j <= n ensures Eval(Zeros(n) + Zeros(k), Exp(j)) == 0 {
      EvalZeros(n + k, Exp(j));
    }
  }

  /** The distance is exact: for every size there are two packets that differ in n + 1 places and no more. */
  lemma DistanceAttained(n: nat, k: nat)
    requires n > 0 && k > 0 && n + k <= 255
    ensures Differences(Packet([1] + Zeros(k - 1), n), Packet(Zeros(k), n)) == n + 1
  {
    hide Generator, Parity, Differences, Codeword, Zeros;
    var one, none := [1] + Zeros(k - 1), Zeros(k);
    GeneratorCodeword(n, k);
    ZeroCodeword(n, k);
    ParityUnique(one, Generator(n)[..n]);
    ParityUnique(none, Zeros(n));
    assert Zeros(k) == [0] + Zeros(k - 1) by { ZerosFirst(k); }
    assert one[0] == 1 && none[0] == 0;
    MinimumDistance(one, none, n);
    FewDifferences(Zeros(k - 1), Generator(n)[..n], Zeros(n));
    assert one + Generator(n)[..n] == [1] + (Zeros(k - 1) + Generator(n)[..n]);
    assert none + Zeros(n) == [0] + (Zeros(k - 1) + Zeros(n));
  }

  lemma ZerosFirst(k: nat)
    requires k > 0
    ensures Zeros(k) == [0] + Zeros(k - 1)
  {}

  /** Behind one different symbol and equal ones there is only the parity to differ in. */
  lemma FewDifferences(d: Poly, p: Poly, q: Poly)
    requires |p| == |q|
    ensures Differences([1] + (d + p), [0] + (d + q)) <= 1 + |p|
  {
    SharedPrefix(d, p, q);
    assert ([1] + (d + p))[1..] == d + p && ([0] + (d + q))[1..] == d + q;
  }

  lemma {:induction false} SharedPrefix(d: Poly, p: Poly, q: Poly)
    requires |p| == |q|
    ensures Differences(d + p, d + q) <= |p|
  {
    if d == [] {
      assert d + p == p && d + q == q;
      if p != [] {
        assert p[1..] == [] + p[1..] && q[1..] == [] + q[1..];
        SharedPrefix([], p[1..], q[1..]);
      }
    } else {
      assert (d + p)[1..] == d[1..] + p && (d + q)[1..] == d[1..] + q;
      SharedPrefix(d[1..], p, q);
    }
  }

  lemma {:induction false} Triangle(p: Poly, q: Poly, w: Poly)
    requires |p| == |q| == |w|
    ensures Differences(p, q) <= Differences(p, w) + Differences(w, q)
  {
    if p != [] { Triangle(p[1..], q[1..], w[1..]); }
  }

  /** What a receiver gets from the distance: a word within n / 2 symbols of a packet is that close to no other. */
  lemma UniqueDecoding(data: Poly, data': Poly, n: nat, w: Poly)
    requires n > 0 && |data| == |data'| && |w| == |data| + n <= 255
    requires Differences(Packet(data, n), w) <= n / 2
    requires Differences(w, Packet(data', n)) <= n / 2
    ensures data == data'
  {
    hide Packet, Differences;
    if data != data' {
      MinimumDistance(data, data', n);
      Triangle(Packet(data, n), Packet(data', n), w);
    }
  }
}
