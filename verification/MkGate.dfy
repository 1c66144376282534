/** The multi-key NAND gate on values: from two encoded inputs to an encoded output. */
module MkGate {
  import opened NegacyclicRing
  import opened RingModulus
  import opened Arithmetic
  import opened Gadget
  import opened RingVectors
  import opened HybridProduct
  import opened KeyAlgebra
  import opened BlindRotation
  import opened MultiKeyRun
  import opened MultiKeyEval
  import opened MkLwe
  import opened MkLweKeys
  import opened TestPolynomial
  import opened MkNand

  /** Public evaluation material. */
  datatype GateKeys = GateKeys(p: Params, table: Vec, keys: AccKeys, pkey: seq<Vec>,
                               ks: SwitchKey, q: int, base: nat, count: nat, n: nat)

  /** What the evaluation material hides. */
  datatype Secrets = Secrets(w: World, z: Poly, s: Matrix, e: KeyErrors, eta: nat)

  ghost predicate GateSetting(g: GateKeys, x: Secrets) {
    Genuine(Binary, x.w, x.z, g.keys, x.s, g.n) && g.p == x.w.p && g.pkey == x.w.pkey && g.p.N % 2 == 0 &&
    |g.table| == 2 * g.p.N && (forall i :: 0 <= i < 2 * g.p.N ==> g.table[i] == TableEntry(g.p, i)) &&
    g.q > 0 && g.base > 0 && g.q <= Pow(g.base, g.count) && |x.s| == |x.w.s| &&
    (forall u :: 0 <= u < |x.s| ==> |x.w.s[u]| == |x.w.s[0]| && |x.s[u]| == |x.s[0]| == g.n) &&
    KeyShape(g.ks, |x.s|, |x.w.s[0]|, g.n, g.base, g.count) &&
    SwitchesTo(g.ks, g.q, g.base, g.count, x.s, x.w.s, x.e) && SmallNoise(x.e, x.eta)
  }

  /** Noise of a complete run. */
  function AccNoise(w: World, n: nat): nat
    requires w.p.Valid()
  {
    FirstBound(Binary, w) + (if Times(|w.s|, n) == 0 then 0 else Times(Times(|w.s|, n) - 1, StepBound(Binary, w)))
  }

  function KsNoise(g: GateKeys, x: Secrets): nat {
    Times(|x.s|, Times(g.p.N, Times(g.count, x.eta)))
  }

  /** Per-gate noise budget: inputs with noise E leave room for the rounding, and the noise the
      gate produces fits in E again. */
  ghost predicate Budget(g: GateKeys, x: Secrets, E: nat)
    requires GateSetting(g, x)
  {
    InputBudget(g.p.N, g.q, AbsSumAll(x.s, |x.s|), E) &&
    OutputBudget(g.p.Q, g.q, AbsSumAll(x.w.s, |x.w.s|), AccNoise(x.w, g.n), KsNoise(g, x), E) &&
    8 * E + 16 <= g.q
  }

  predicate Shaped(a: Matrix, k: nat, n: nat) {
    |a| == k && forall u :: 0 <= u < k ==> |a[u]| == n
  }

  //////// Preparation: 5q/8 - (ct1 + ct2) ////////

  /** The a-part and b-part of 5q/8 - (ct1 + ct2). */
  function PrepA(q: int, n: nat, a1: Matrix, a2: Matrix): (r: Matrix)
    requires q > 0 && Shaped(a1, |a1|, n) && Shaped(a2, |a1|, n)
    ensures Shaped(r, |a1|, n)
  {
    Combine(q, false, Zeros(|a1|, n), Combine(q, true, a1, a2))
  }

  function PrepB(q: int, b1: int, b2: int): int
    requires q > 0
  {
    Residue(Residue(5 * q / 8, q) - Residue(b1 + b2, q), q)
  }

  lemma {:induction false} PrepPhase(q: int, n: nat, a1: Matrix, b1: int, a2: Matrix, b2: int, s: Matrix)
    requires q > 0 && Shaped(a1, |s|, n) && Shaped(a2, |s|, n) && Shaped(s, |s|, n)
    ensures Residue(Phase(PrepA(q, n, a1, a2), PrepB(q, b1, b2), s), q)
         == Residue(5 * q / 8 - Phase(a1, b1, s) - Phase(a2, b2, s), q)
  {
    var z, c := Zeros(|s|, n), Combine(q, true, a1, a2);
    CombinePhase(q, true, a1, b1, a2, b2, s);
    CombinePhase(q, false, z, (5 * q / 8) % q, c, (b1 + b2) % q, s);
    InnerZeros(z, s, |s|);
    hide Phase, Combine, Zeros;
    ZeroPhase(z, (5 * q / 8) % q, s);
    PrepSum(q, 5 * q / 8, Phase(a1, b1, s), Phase(a2, b2, s), Phase(c, (b1 + b2) % q, s), Phase(z, (5 * q / 8) % q, s));
  }

  lemma {:induction false} ZeroPhase(z: Matrix, b: int, s: Matrix)
    requires SameShape(z, s) && InnerAll(z, s, |z|) == 0
    ensures Phase(z, b, s) == b
  {
  }

  lemma {:induction false} PrepSum(q: int, k: int, f1: int, f2: int, f: int, z: int)
    requires q > 0 && f % q == (f1 + f2) % q && z == k % q
    ensures Residue(z - f, q) == Residue(k - f1 - f2, q)
  {
    ModOfMod(k, q);
    ModAddCong(k % q, k, f, f1 + f2, q);
  }

  lemma {:induction false} PrepNoise(q: int, phi: int, f1: int, f2: int, m1: int, m2: int, E: nat) returns (e: int)
    requires Encodes(q, f1, m1, E) && Encodes(q, f2, m2, E) && Residue(phi, q) == Residue(5 * q / 8 - f1 - f2, q)
    ensures Abs(e) <= 2 * E && Residue(phi, q) == Residue(5 * q / 8 - (m1 + m2) * (q / 4) - e, q)
  {
    var e1: int :| Abs(e1) <= E && Residue(f1, q) == Residue(m1 * (q / 4) + e1, q);
    var e2: int :| Abs(e2) <= E && Residue(f2, q) == Residue(m2 * (q / 4) + e2, q);
    e := e1 + e2;
    var k, d := 5 * q / 8, q / 4;
    hide Residue;
    ResidueSum(q, k, k, f1, m1 * d + e1);
    ResidueSum(q, k - f1, k - (m1 * d + e1), f2, m2 * d + e2);
    assert (m1 + m2) * d == m1 * d + m2 * d;
  }

  //////// From the accumulator to the output ////////

  /** Exponents of the run: -a modulo 2N. */
  function NegA(M: int, n: nat, a: Matrix): (r: Matrix)
    requires M > 0 && Shaped(a, |a|, n)
    ensures Shaped(r, |a|, n) && forall u, i :: 0 <= u < |a| && 0 <= i < n ==> 0 <= r[u][i] < M
  {
    Combine(M, false, Zeros(|a|, n), a)
  }

  ghost predicate Ready(g: GateKeys, k: nat, a: Matrix, rx: Poly) {
    g.p.Valid() && k > 0 && |rx| == g.p.N && Shaped(a, |a|, g.n) &&
    RunShape(g.p, g.pkey, g.keys, NegA(2 * g.p.N, g.n, a), g.n, Start(g.p, k, rx))
  }

  /** The accumulator after the whole run from (Rx, 0, ..., 0). */
  function FinalAcc(g: GateKeys, k: nat, a: Matrix, rx: Poly): (r: Vec)
    requires Ready(g, k, a, rx)
    ensures |r| == k && Sized(r, g.p.N)
  {
    Run(Binary, g.p, g.pkey, g.keys, NegA(2 * g.p.N, g.n, a), g.n, Start(g.p, k, rx), k, 0)
  }

  ghost predicate Outcome(p: Params, f: Poly, theta: int, h: int, err: int, beta: int)
    requires p.Valid() && |f| == p.N
  {
    var d := theta % (2 * p.N);
    Abs(err) <= beta && Residue(f[0], p.Q) == Residue((if p.N / 2 < d <= p.N + p.N / 2 then -h else h) + err, p.Q)
  }

  /** The run's constant coefficient is -h when theta is in the upper half, h otherwise. */
  lemma {:induction false} RunOutcome(w: World, z: Poly, g: GateKeys, s: Matrix, a: Matrix, b: nat, rx: Poly, h: int) returns (err: int)
    requires Genuine(Binary, w, z, g.keys, s, g.n) && g.p == w.p && g.pkey == w.pkey && g.p.N % 2 == 0
    requires |s| == |w.s| && Shaped(s, |s|, g.n) && Shaped(a, |s|, g.n) && SameShape(a, s) && Canonical(g.p, rx)
    requires Cong(g.p.Q, rx, Mono(b, HalfPlane(g.p.N, h)))
    ensures Ready(g, |w.s|, a, rx)
    ensures Outcome(g.p, w.Phase(FinalAcc(g, |w.s|, a, rx)), Phase(a, b, s), h, err, AccNoise(w, g.n))
  {
    hide Cong, Mono, Run, Near, Dot, Combine, Zeros, InnerExponent, HalfPlane, FirstBound, StepBound, KeyFor, PublicKeys, Start, InnerAll, Times;
    var M, k := 2 * g.p.N, |w.s|;
    var neg := NegA(M, g.n, a);
    EvalAccCorrect(Binary, w, z, g.keys, s, neg, g.n, rx);
    NegatedExponent(M, a, b, s, g.n, neg);
    err := FinalCoefficient(g.p, h, w.Phase(FinalAcc(g, k, a, rx)), rx, b, InnerExponent(neg, s, g.n, k, 0), Phase(a, b, s), AccNoise(w, g.n));
  }

  /** h minus the extracted constant coefficient is 2h for NAND = 1 and 0 for NAND = 0, up to noise. */
  lemma {:induction false} ExtractedPhase(p: Params, acc: Vec, s: Vec, h: int, m: int, err: int)
    requires p.Valid() && Sized(acc, p.N) && Sized(s, p.N) && |s| == |acc| && 0 <= m <= 1
    requires SameShape(Extract(p, acc), s)
    requires Residue(Dot(p.N, s, acc, |s|)[0], p.Q) == Residue((if m == 1 then -h else h) + err, p.Q)
    ensures Residue(Phase(Extract(p, acc), h, s), p.Q) == Residue(2 * m * h - err, p.Q)
  {
    hide Dot, Extract, InnerAll;
    ExtractAll(p, acc, s, |s|);
    ResidueSum(p.Q, h, h, InnerAll(Extract(p, acc), s, |s|), (if m == 1 then -h else h) + err);
    assert m == 1 ==> 2 * m * h == 2 * h;
  }

  /** Everything after the gate's inputs have been combined, on values. */
  lemma {:induction false} GateOutcome(g: GateKeys, x: Secrets, E: nat, m1: int, m2: int, f1: int, f2: int,
                                       a: Matrix, b: int, rx: Poly, acc: Vec, sw: Matrix, out: int)
    requires GateSetting(g, x) && Budget(g, x, E)
    requires Encodes(g.q, f1, m1, E) && Encodes(g.q, f2, m2, E)
    requires Shaped(a, |x.s|, g.n) && SameShape(a, x.s) && Residue(Phase(a, b, x.s), g.q) == Residue(5 * g.q / 8 - f1 - f2, g.q)
    requires var a1, b1 := SwitchAll(2 * g.p.N, g.q, a), RoundqQ(b, 2 * g.p.N, g.q);
             Canonical(g.p, rx) && Cong(g.p.Q, rx, Mono(b1, HalfPlane(g.p.N, g.p.Q / 8 + 1))) &&
             Ready(g, |x.w.s|, a1, rx) && acc == FinalAcc(g, |x.w.s|, a1, rx)
    requires sw == SwitchAll(g.q, g.p.Q, Extract(g.p, acc)) && SameShape(sw, x.w.s)
    requires forall u, j :: 0 <= u < |sw| && 0 <= j < |sw[u]| ==> sw[u][j] >= 0
    requires Residue(out, g.q) == Residue(Phase(sw, RoundqQ(g.p.Q / 8 + 1, g.q, g.p.Q), x.w.s)
                                          - SwitchNoise(g.base, g.count, sw, x.e, |x.w.s|), g.q)
    ensures Encodes(g.q, out, Nand(m1, m2), E)
  {
    hide Cong, Mono, Run, Near, Dot, Combine, Zeros, HalfPlane, FirstBound, StepBound, TableEntry, KeyFor, PublicKeys, SwitchesTo, KeyShape, Start, InnerAll;
    hide RoundqQ, SwitchAll, NegA, Extract, InputBudget, OutputBudget, Genuine, RunShape, Encodes, Phase, SwitchNoise, SmallNoise, Times, Residue, AbsSumAll, FinalAcc, Ready;
    var p, q, M, h := g.p, g.q, 2 * g.p.N, g.p.Q / 8 + 1;
    assert p.Valid() && Sized(x.w.s, p.N) && |x.w.s| == |x.s| by { Unpack(g, x); }
    var a1, b1 := SwitchAll(M, q, a), RoundqQ(b, M, q);
    var eps, t := ModSwitchPhase(M, q, a, b, x.s);
    var e := PrepNoise(q, Phase(a, b, x.s), f1, f2, m1, m2, E);
    ExponentHalf(p.N, q, AbsSumAll(x.s, |x.s|), E, m1, m2, e, Phase(a, b, x.s), Phase(a1, b1, x.s), eps, t) by {
      EncodesBit(q, f1, m1, E);
      EncodesBit(q, f2, m2, E);
    }
    var err := RunOutcome(x.w, x.z, g, x.s, a1, b1, rx, h);
    var m := Nand(m1, m2);
    var ext := Extract(p, acc);
    ExtractedPhase(p, acc, x.w.s, h, m, err);
    var eps2, t2 := ModSwitchPhase(q, p.Q, ext, h, x.w.s);
    MkLweKeys.SwitchNoiseBound(g.base, g.count, sw, x.e, |x.w.s|, p.N, x.eta);
    OutputPhase(p.Q, q, AbsSumAll(x.w.s, |x.w.s|), AccNoise(x.w, g.n), KsNoise(g, x), E, m,
                Phase(ext, h, x.w.s), err, Phase(sw, RoundqQ(h, q, p.Q), x.w.s), eps2, t2, out,
                SwitchNoise(g.base, g.count, sw, x.e, |x.w.s|));
  }

  lemma {:induction false} Unpack(g: GateKeys, x: Secrets)
    requires GateSetting(g, x)
    ensures g.p.Valid() && Sized(x.w.s, g.p.N) && |x.w.s| == |x.s|
  {
  }

  lemma {:induction false} EncodesBit(q: int, f: int, m: int, E: nat)
    requires Encodes(q, f, m, E)
    ensures q > 0 && 0 <= m <= 1
  {
  }
}
