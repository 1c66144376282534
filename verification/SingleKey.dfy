/** Single-key bootstrapping with the CGGI accumulator, end to end: test polynomial, blind rotation,
    extraction, modulus switching, key switching and modulus switching. */
module SingleKey {
  import opened NegacyclicRing
  import opened RingModulus
  import opened Arithmetic
  import opened Gadget
  import opened RingVectors
  import opened KeyAlgebra
  import opened BlindRotation
  import opened RingGsw
  import opened DmAccumulator
  import opened CggiAccumulator
  import opened MkLwe
  import opened MkLweKeys
  import opened TestPolynomial
  import opened FunctionalBootstrap
  import opened SwitchChain
  import PhaseTracking
  import MkNand

  /** Evaluation keys: the accumulator's and the switching key from the ring secret to the LWE one. */
  datatype EvalKeys = EvalKeys(p: Params, table: Vec, ek1: seq<Rows>, ek2: seq<Rows>, ks: SwitchKey, q1: int, base: nat, count: nat, n: nat)

  datatype EvalSecrets = EvalSecrets(x: Secret, e: KeyErrors, eta: nat)

  ghost predicate Matching(g: EvalKeys, y: EvalSecrets) {
    CggiKeys(g.p, y.x, g.ek1, g.ek2) && |g.table| == 2 * g.p.N && (forall i :: 0 <= i < 2 * g.p.N ==> g.table[i] == TableEntry(g.p, i)) &&
    g.n == |y.x.s| && g.q1 > 0 && g.base > 0 && g.q1 <= Pow(g.base, g.count) && KeyShape(g.ks, 1, g.p.N, |y.x.s|, g.base, g.count) &&
    SwitchesTo(g.ks, g.q1, g.base, g.count, [y.x.s], [y.x.z], y.e) && SmallNoise(y.e, y.eta)
  }

  /** The noise of n multiplexers. */
  function RotationNoise(g: EvalKeys, y: EvalSecrets): nat
    requires g.p.Valid()
  {
    Times(Times(|y.x.s|, 4), ExternalBound(g.p, y.x.zeta, y.x.sigma))
  }

  function SwitchingNoise(g: EvalKeys, y: EvalSecrets): nat {
    Times(1, Times(g.p.N, Times(g.count, y.eta)))
  }

  //////// Blind rotation ////////

  lemma {:induction false} NearCoefficient(Q: int, f: Poly, g: Poly, beta: nat) returns (err: int)
    requires Q > 0 && |f| == |g| > 0 && Near(Q, f, g, beta)
    ensures Abs(err) <= beta && Residue(f[0], Q) == Residue(g[0] + err, Q)
  {
    hide Cong;
    var x: Poly :| |x| == |f| && Bounded(x, beta) && Cong(Q, f, Add(g, x));
    CongCoefficient(Q, f, Add(g, x), 0);
    err := x[0];
  }

  /** The accumulator's constant coefficient is that of the rotated test polynomial, up to noise. */
  method Rotate(g: EvalKeys, q: nat, a: seq<int>, test: Poly, ghost y: EvalSecrets, ghost r: nat) returns (acc: RingCiphertext, ghost err: int)
    requires Matching(g, y) && g.p.Valid() && q > 0 && r > 0 && q * r == 2 * g.p.N && |a| == |y.x.s| && (forall i :: 0 <= i < |a| ==> 0 <= a[i] < q) && |test| == g.p.N
    ensures fresh(acc) && |acc.c0| == |acc.c1| == |y.x.z| == g.p.N && Canonical(g.p, acc.c0) && Canonical(g.p, acc.c1) && Abs(err) <= RotationNoise(g, y)
    ensures Residue(RingGsw.Phase(y.x.z, acc.c0, acc.c1)[0], g.p.Q) == Residue(Mono(-(r * Inner(a, y.x.s, |a|)), test)[0] + err, g.p.Q)
  {
    hide Near, Mono, RingGsw.Phase, Residue, Inner, TableEntry, KeyShape, SwitchesTo, SmallNoise, BitKey, Bounded, Cong, Reduce, Zero, ExternalBound;
    var p := g.p;
    ghost var z, e := y.x.z, -(r * Inner(a, y.x.s, |a|));
    acc := new RingCiphertext(Zero(p.N), Reduce(p.Q, test));
    ghost var m := Reduce(p.Q, test);
    StartCanonical(p, z, m);
    ghost var done := CggiAccumulator.EvalAcc(p, g.table, g.ek1, g.ek2, q, acc, a, y.x, r, m);
    ghost var e0 := NearCoefficient(p.Q, RingGsw.Phase(z, acc.c0, acc.c1), Mono(e, m), RotationNoise(g, y));
    err := e0;
    ReduceCong(p.Q, test);
    CongMono(p.Q, e, m, test);
    RotatedResidue(p.Q, Mono(e, m), Mono(e, test), e0);
  }

  lemma {:induction false} RotatedResidue(Q: int, f: Poly, g: Poly, e: int)
    requires Q > 0 && Cong(Q, f, g) && |f| > 0
    ensures Residue(f[0] + e, Q) == Residue(g[0] + e, Q)
  {
    CongCoefficient(Q, f, g, 0);
    ModAddCong(f[0], g[0], e, e, Q);
  }

  lemma {:induction false} StartCanonical(p: Params, z: Poly, m: Poly)
    requires p.Valid() && |z| == |m| == p.N
    ensures Canonical(p, Zero(p.N)) && RingGsw.Phase(z, Zero(p.N), m) == m
  {
    MulZero(z);
  }

  //////// Extraction and switching ////////

  /** The LWE phase of the extracted sample is the constant coefficient of the ring phase. */
  lemma {:induction false} ExtractedSample(p: Params, z: Poly, c0: Poly, c1: Poly, extra: int, ext: seq<int>, b: int)
    requires p.Valid() && |z| == |c0| == |c1| == p.N && ext == Reduce(p.Q, Transpose(c0)) && b == Residue(c1[0] + extra, p.Q)
    ensures SameShape([ext], [z]) && Residue(MkLwe.Phase([ext], b, [z]), p.Q) == Residue(RingGsw.Phase(z, c0, c1)[0] + extra, p.Q)
  {
    hide Mul, Transpose, Reduce, Inner, Residue;
    MkNand.ExtractOne(p, c0, z, ext);
    OneUser(ext, b, z);
    PhaseParts(p.Q, c1[0] + extra, b, Inner(ext, z, p.N), Mul(z, c0)[0]);
    assert RingGsw.Phase(z, c0, c1)[0] == c1[0] - Mul(z, c0)[0];
  }

  lemma {:induction false} OneUser(a: seq<int>, b: int, s: seq<int>)
    requires |a| == |s|
    ensures SameShape([a], [s]) && MkLwe.Phase([a], b, [s]) == b - Inner(a, s, |s|) && AbsSumAll([s], 1) == AbsSum(s, |s|)
  {
    hide Inner, AbsSum;
    assert InnerAll([a], [s], 0) == 0 && AbsSumAll([s], 0) == 0;
  }

  lemma {:induction false} PhaseParts(Q: int, c: int, b: int, x: int, y: int)
    requires Q > 0 && b == Residue(c, Q) && Residue(x, Q) == Residue(y, Q)
    ensures Residue(b - x, Q) == Residue(c - y, Q)
  {
    ModOfMod(c, Q);
    ModAddCong(b, c, x, y, Q);
  }

  /** Modulus switching to q1, key switching to s, modulus switching to fm. */
  method SwitchThrice(g: EvalKeys, ext: seq<int>, b0: int, fm: int, ghost y: EvalSecrets, ghost v: int, ghost e0: int)
    returns (a: seq<int>, b: int, ghost w: int, ghost eps1: int, ghost ks: int, ghost eps2: int)
    requires Matching(g, y) && g.p.Valid() && |ext| == |y.x.z| == g.p.N && fm > 0 && SameShape([ext], [y.x.z])
    requires Residue(MkLwe.Phase([ext], b0, [y.x.z]), g.p.Q) == Residue(v + e0, g.p.Q)
    ensures |a| == |y.x.s| && 0 <= b < fm && (forall i :: 0 <= i < |a| ==> 0 <= a[i] < fm)
    ensures Residue(b - Inner(a, y.x.s, |a|), fm) == Residue(w, fm)
    ensures 2 * (g.p.Q * g.q1) * w == 2 * (g.q1 * fm) * (v + e0) + fm * eps1 - 2 * (g.p.Q * fm) * ks + g.p.Q * eps2
    ensures Abs(eps1) <= g.p.Q * (1 + AbsSum(y.x.z, |y.x.z|)) && Abs(eps2) <= g.q1 * (1 + AbsSum(y.x.s, |y.x.s|)) && Abs(ks) <= SwitchingNoise(g, y)
  {
    hide Residue, Inner, TableEntry, KeyShape, SwitchesTo, SmallNoise, CggiKeys, RoundqQ, AbsSum, MkLwe.Phase, SwitchAll, SwitchNoise, Pow, InnerAll, Times;
    var Q, q1 := g.p.Q, g.q1;
    ghost var s, z := y.x.s, y.x.z;
    var a1, b1 := ModSwitch(q1, Q, [ext], b0);
    ghost var t1, t2;
    eps1, t1 := ModSwitchPhase(q1, Q, [ext], b0, [z]);
    SwitchedRange(q1, Q, [ext]);
    OneUser(ext, b0, z);
    var a2, b2 := KeySwitch(g.n, q1, g.base, g.count, g.ks, a1, b1, [s], [z], y.e);
    ks := SwitchNoise(g.base, g.count, a1, y.e, 1);
    MkLweKeys.SwitchNoiseBound(g.base, g.count, a1, y.e, 1, g.p.N, y.eta);
    var a3, b3 := ModSwitch(fm, q1, a2, b2);
    eps2, t2 := ModSwitchPhase(fm, q1, a2, b2, [s]);
    SwitchedRange(fm, q1, a2);
    OneUser(a3[0], b3, s);
    assert a3 == [a3[0]];
    a, b := a3[0], b3;
    w := ChainPhase(Q, q1, fm, v + e0, MkLwe.Phase([ext], b0, [z]), eps1, t1, MkLwe.Phase(a1, b1, [z]), ks, MkLwe.Phase(a2, b2, [s]), eps2, t2, MkLwe.Phase(a3, b3, [s]));
  }

  /** From the accumulator to an LWE sample of modulus fm: the phase is fm/Q times v, with bounded
      noise. */
  method SwitchDown(g: EvalKeys, acc: RingCiphertext, extra: int, fm: int, ghost y: EvalSecrets, ghost v: int, ghost e0: int)
    returns (a: seq<int>, b: int, ghost w: int, ghost noise: int)
    requires Matching(g, y) && g.p.Valid() && |acc.c0| == |acc.c1| == |y.x.z| == g.p.N && fm > 0 && Abs(e0) <= RotationNoise(g, y)
    requires Residue(RingGsw.Phase(y.x.z, acc.c0, acc.c1)[0] + extra, g.p.Q) == Residue(v + e0, g.p.Q)
    ensures |a| == |y.x.s| && 0 <= b < fm && (forall i :: 0 <= i < |a| ==> 0 <= a[i] < fm)
    ensures Residue(b - Inner(a, y.x.s, |a|), fm) == Residue(w, fm)
    ensures g.q1 > 0 && 2 * (g.p.Q * g.q1) * w == 2 * (g.q1 * fm) * v + noise
    ensures Abs(noise) <= DownNoise(g, y, fm)
  {
    assert g.q1 > 0;
    hide Matching, RingGsw.Phase, Residue, Inner, Reduce, Transpose, AbsSum, MkLwe.Phase, RotationNoise, SwitchingNoise, ChainNoise;
    ghost var eps1, ks, eps2;
    var ext, b0 := Reduce(g.p.Q, Transpose(acc.c0)), Residue(acc.c1[0] + extra, g.p.Q);
    ExtractedSample(g.p, y.x.z, acc.c0, acc.c1, extra, ext, b0);
    a, b, w, eps1, ks, eps2 := SwitchThrice(g, ext, b0, fm, y, v, e0);
    ChainBound(g.p.Q, g.q1, fm, RotationNoise(g, y), AbsSum(y.x.z, |y.x.z|), SwitchingNoise(g, y), AbsSum(y.x.s, |y.x.s|), e0, eps1, ks, eps2);
    noise := 2 * (g.q1 * fm) * e0 + fm * eps1 - 2 * (g.p.Q * fm) * ks + g.p.Q * eps2;
    Distribute(2 * (g.q1 * fm), v, e0);
  }

  function DownNoise(g: EvalKeys, y: EvalSecrets, fm: int): nat
    requires g.p.Valid() && fm > 0 && g.q1 > 0
  {
    ChainNoise(g.p.Q, g.q1, fm, RotationNoise(g, y), AbsSum(y.x.z, |y.x.z|), SwitchingNoise(g, y), AbsSum(y.x.s, |y.x.s|))
  }

  lemma {:induction false} SwitchedRange(q: int, Q: int, a: Matrix)
    requires q > 0 && Q > 0
    ensures var r := SwitchAll(q, Q, a); SameShape(r, a) && forall u, i :: 0 <= u < |r| && 0 <= i < |r[u]| ==> 0 <= r[u][i] < q
  {
    hide RoundqQ;
  }

  //////// BootstrapFunc ////////

  /** The lookup in scaled form: K·L for K = floor(Q/fm), up to the remainder of the division. */
  ghost predicate FuncBudget(g: EvalKeys, y: EvalSecrets, fm: int, E: nat)
    requires g.p.Valid() && fm > 0 && g.q1 > 0
  {
    2 * Times(g.q1, Times(g.p.Q % fm, fm)) + DownNoise(g, y, fm) <= 2 * Times(Times(g.p.Q, g.q1), E)
  }

  lemma {:induction false} FuncError(Q: nat, q1: nat, fm: nat, L: int, w: int, noise: int, bound: nat, E: nat)
    requires Q > 0 && q1 > 0 && fm > 0 && Abs(L) <= fm && 2 * (Q * q1) * w == 2 * (q1 * fm) * (Q / fm * L) + noise && Abs(noise) <= bound
    requires 2 * Times(q1, Times(Q % fm, fm)) + bound <= 2 * Times(Times(Q, q1), E)
    ensures Abs(w - L) <= E
  {
    var K, rho := Q / fm, Q % fm;
    DivMod(Q, fm);
    var z := -(2 * (q1 * (rho * L))) + noise;
    assert 2 * (q1 * fm) * (K * L) == 2 * (Q * q1) * L - 2 * (q1 * (rho * L)) by { ScaledLookup(Q, q1, fm, K, rho, L); }
    Distribute(2 * (Q * q1), w, L);
    assert Abs(q1 * (rho * L)) <= q1 * (rho * fm) by { ScaledTerm(rho, L, fm); ScaledTerm(q1, rho * L, rho * fm); }
    MulMono(1, Q, q1);
    Arithmetic.Regroup(2, Q * q1, E);
    DivideOut(Q * q1, w - L, z, E);
  }

  lemma {:induction false} ScaledLookup(Q: int, q1: int, fm: int, K: int, rho: int, L: int)
    requires Q == rho + fm * K
    ensures 2 * (q1 * fm) * (K * L) == 2 * (Q * q1) * L - 2 * (q1 * (rho * L))
  {
    assert (q1 * fm) * (K * L) == q1 * (fm * K * L);
    assert fm * K * L == Q * L - rho * L;
    assert q1 * (Q * L - rho * L) == (Q * q1) * L - q1 * (rho * L);
  }

  /** BootstrapFunc: the output is the lookup of f with a bounded error, for every ciphertext modulus q
      dividing 2N. It is the sample that the functional programs bootstrap to. */
  method BootstrapFunc(g: EvalKeys, q: nat, a: seq<int>, b: int, f: int -> int, fm: int, ghost y: EvalSecrets, ghost E: nat) returns (a': seq<int>, b': int, ghost err: int)
    requires Matching(g, y) && g.p.Valid() && q > 0 && q % 2 == 0 && (2 * g.p.N) % q == 0 && |a| == |y.x.s| && (forall i :: 0 <= i < |a| ==> 0 <= a[i] < q)
    requires g.q1 > 0 && fm > 0 && FuncBudget(g, y, fm, E) && forall x :: 0 <= x < q ==> Abs(f(x)) <= fm
    ensures |a'| == |y.x.s| && 0 <= b' < fm && (forall i :: 0 <= i < |a'| ==> 0 <= a'[i] < fm) && Abs(err) <= E
    ensures var ct := Sample(b, Inner(a, y.x.s, |a|), q);
            PhaseIs(Sample(b', Inner(a', y.x.s, |a'|), fm), Looked(f, ct) + err) &&
            SetModulus(Sample(b', Inner(a', y.x.s, |a'|), fm), fm) == Bootstrap(f, ct, fm, Inner(a', y.x.s, |a'|), err)
  {
    hide Matching, Mono, RingGsw.Phase, Residue, Inner, IsFuncPolynomial, DownNoise, RotationNoise, Looked;
    var Q, N := g.p.Q, g.p.N;
    var test := FuncPolynomial(N, Q, q, fm, b, f);
    ghost var r := 2 * N / q;
    ghost var ct := Sample(b, Inner(a, y.x.s, |a|), q);
    ghost var L, K := Looked(f, ct), Q / fm;
    ExactFactor(N, q, r);
    var acc, e0 := Rotate(g, q, a, test, y, r);
    RotatedFunction(test, K, f, ct, r);
    LookupRange(f, ct, fm);
    ghost var w, noise;
    a', b', w, noise := SwitchDown(g, acc, 0, fm, y, K * L, e0);
    FuncError(Q, g.q1, fm, L, w, noise, DownNoise(g, y, fm), E);
    err := w - L;
    SameSample(b', Inner(a', y.x.s, |a'|), fm, L, err);
  }

  lemma {:induction false} ExactFactor(N: nat, q: nat, r: nat)
    requires N > 0 && q > 0 && (2 * N) % q == 0 && r == 2 * N / q
    ensures r > 0 && q * r == 2 * N
  {
    DivMod(2 * N, q);
  }

  lemma {:induction false} LookupRange(f: int -> int, ct: Sample, fm: int)
    requires ct.q > 0 && forall x :: 0 <= x < ct.q ==> Abs(f(x)) <= fm
    ensures Abs(Looked(f, ct)) <= fm
  {
    hide Residue;
  }

  lemma {:induction false} SameSample(b: int, t: int, fm: int, L: int, err: int)
    requires fm > 0 && 0 <= b < fm && Residue(b - t, fm) == Residue(L + err, fm)
    ensures PhaseIs(Sample(b, t, fm), L + err)
    ensures Residue(b, fm) == Residue(L + err + t, fm)
  {
    ModAddCong(b - t, L + err, t, t, fm);
  }
}
