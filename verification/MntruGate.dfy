/** Matrix-NTRU encryption, the NAND gate and decryption, end to end. */
module MntruGate {
  import opened NegacyclicRing
  import opened RingModulus
  import opened Arithmetic
  import opened Gadget
  import opened RingVectors
  import opened HybridProduct
  import opened KeyAlgebra
  import opened BlindRotation
  import opened MultiKeyRun
  import opened MultiKeyEval
  import opened MkLwe
  import opened MkLweKeys
  import opened TestPolynomial
  import opened MkNand
  import opened MatrixNtru
  import opened MntruNand
  import MatrixSwitch
  import MkCircuit

  //////// Encryption ////////

  /** e[0][0] + e[1][0] + ... */
  function FirstSum(e: Matrix, n: nat, k: nat): int
    requires n > 0 && Rows(e, |e|, n) && k <= |e|
  {
    if k == 0 then 0 else FirstSum(e, n, k - 1) + e[k - 1][0]
  }

  /** The secrets: first columns of the matrices F_u, and the inverses of the F_u. */
  ghost predicate Inverses(q: int, n: nat, Finv: seq<Matrix>, f: Matrix, unit: seq<int>) {
    |Finv| == |f| && forall u :: 0 <= u < |f| ==> MatrixSwitch.FirstColumn(q, Finv[u], n, f[u], unit)
  }

  /** e·F_inv has phase e[0]. */
  lemma {:induction false} RowEncrypts(q: int, e: seq<int>, Finv: Matrix, n: nat, f: seq<int>, unit: seq<int>, c: seq<int>)
    requires MatrixSwitch.IsProduct(q, e, Finv, n, c) && MatrixSwitch.FirstColumn(q, Finv, n, f, unit) && |e| == n
    ensures Residue(Inner(c, f, n), q) == Residue(e[0], q)
  {
    hide Inner, Residue;
    MatrixSwitch.ProductCong(q, e, Finv, n, c);
    CongInner(q, c, RowMat(e, Finv, n), f);
    Associate(e, Finv, f);
    CongInner(q, MatVec(Finv, f), unit, e);
    MatrixSwitch.InnerUnit(e, unit, n);
  }

  /** One row of c: e·F_inv modulo q. */
  method RowProduct(q: int, e: seq<int>, Finv: Matrix, n: nat) returns (c: seq<int>)
    requires q > 0 && |e| == n && Rows(Finv, n, n)
    ensures MatrixSwitch.IsProduct(q, e, Finv, n, c)
  {
    hide Inner;
    c := [];
    for j := 0 to n
      invariant |c| == j && forall i :: 0 <= i < j ==> c[i] == Residue(Inner(e, Column(Finv, n, i), |e|), q)
    {
      var sum := MatrixSwitch.DotMod(q, e, Column(Finv, n, j));
      c := c + [sum];
    }
  }

  /** Encrypt with delta = (m mod p)·floor(q/p), ctGateGen with delta = 5q/8: delta is added to the
      first error of user 0, and the phase is delta plus the first errors. */
  method EncryptAll(q: int, delta: int, e: Matrix, Finv: seq<Matrix>, n: nat, ghost f: Matrix, ghost unit: seq<int>) returns (c: Matrix)
    requires q > 0 && n > 0 && |e| > 0 && Rows(e, |e|, n) && Inverses(q, n, Finv, f, unit) && |f| == |e|
    ensures SameShape(c, f) && Rows(c, |f|, n) && forall u, j :: 0 <= u < |c| && 0 <= j < n ==> 0 <= c[u][j] < q
    ensures Residue(InnerAll(c, f, |f|), q) == Residue(delta + FirstSum(e, n, |e|), q)
  {
    hide Inner, Residue;
    c := [];
    EmptySum(q, c, f, e, n);
    for u := 0 to |e|
      invariant |c| == u && (forall v :: 0 <= v < u ==> |c[v]| == |f[v]| == n) && forall v, j :: 0 <= v < u && 0 <= j < n ==> 0 <= c[v][j] < q
      invariant Residue(InnerPrefix(c, f, u), q) == Residue((if u == 0 then 0 else delta) + FirstSum(e, n, u), q)
    {
      var eu := e[u];
      if u == 0 {
        eu := eu[0 := Residue(eu[0] + delta, q)];
      }
      var row := RowProduct(q, eu, Finv[u], n);
      RowEncrypts(q, eu, Finv[u], n, f[u], unit, row);
      PrefixExtend(c, row, f, u);
      MatrixSwitch.StepMod(q, e[u][0] + delta, 0);
      ResidueSum(q, InnerPrefix(c, f, u), (if u == 0 then 0 else delta) + FirstSum(e, n, u), Inner(row, f[u], n), e[u][0] + if u == 0 then delta else 0);
      c := c + [row];
    }
    PrefixIsAll(c, f, |f|);
  }

  lemma {:induction false} EmptySum(q: int, c: Matrix, f: Matrix, e: Matrix, n: nat)
    requires q > 0 && n > 0 && Rows(e, |e|, n)
    ensures Residue(InnerPrefix(c, f, 0), q) == Residue(FirstSum(e, n, 0), q)
  {
  }

  //////// Keys ////////

  datatype NtruKeys = NtruKeys(p: Params, table: Vec, keys: AccKeys, pkey: seq<Vec>, ks: seq<seq<Matrix>>, q: int, base: nat, d: nat, n: nat)

  /** Per user: the matrix of key errors E, the matrix E' it is embedded in, and the key K. */
  datatype NtruSecrets = NtruSecrets(w: World, z: Poly, f: Matrix, Finv: seq<Matrix>, unit: seq<int>, E: seq<Matrix>, E': seq<Matrix>, K: seq<Matrix>, eta: nat)

  ghost predicate UserKey(g: NtruKeys, s: seq<int>, f: seq<int>, Finv: Matrix, unit: seq<int>, E: Matrix, E': Matrix, K: Matrix, T: seq<Matrix>, eta: nat) {
    |s| == g.p.N && Embedded(g.q, g.base, g.d, s, E, g.n, E') && IsSwitchKey(g.q, E', Finv, g.n, K) &&
    MatrixSwitch.FirstColumn(g.q, Finv, g.n, f, unit) && MatrixSwitch.IsTable(g.q, g.base, K, g.n, T) &&
    forall l :: 0 <= l < |E| ==> Abs(E[l][0]) <= eta
  }

  ghost predicate NtruSetting(g: NtruKeys, x: NtruSecrets) {
    Genuine(Ternary, x.w, x.z, g.keys, x.f, g.n) && g.p == x.w.p && g.pkey == x.w.pkey && g.p.N % 2 == 0 && g.q > 8 && g.base > 0 && g.d > 0 &&
    |g.table| == 2 * g.p.N && (forall i :: 0 <= i < 2 * g.p.N ==> g.table[i] == TableEntry(g.p, i)) && g.q <= Pow(g.base, g.d) &&
    |x.f| == |x.w.s| == |x.Finv| == |x.E| == |x.E'| == |x.K| == |g.ks| &&
    forall u :: 0 <= u < |x.f| ==> UserKey(g, x.w.s[u], x.f[u], x.Finv[u], x.unit, x.E[u], x.E'[u], x.K[u], g.ks[u], x.eta)
  }

  //////// Key switching of all users ////////

  /** k users, N·d digits below base each, errors up to eta. */
  function SwitchBound(g: NtruKeys, k: nat, eta: nat): nat {
    Times(k, Times(Times(g.p.N, g.d), Times(g.base, eta)))
  }

  lemma {:induction false} InnerBound(x: seq<int>, y: seq<int>, i: nat, alpha: nat, beta: nat)
    requires i <= |x| && i <= |y| && forall j :: 0 <= j < i ==> Abs(x[j]) <= alpha && Abs(y[j]) <= beta
    ensures Abs(Inner(x, y, i)) <= Times(i, Times(alpha, beta))
  {
    if i > 0 {
      InnerBound(x, y, i - 1, alpha, beta);
      AbsMul(x[i - 1], y[i - 1]);
      MulMono(Abs(x[i - 1]), alpha, Abs(y[i - 1]));
      MulMono(Abs(y[i - 1]), beta, alpha);
      TimesStep(i, Times(alpha, beta));
    }
  }

  /** One user: <c', f> = <c, s> + noise. */
  method SwitchUser(g: NtruKeys, T: seq<Matrix>, ct: seq<int>, ghost s: seq<int>, ghost f: seq<int>, ghost Finv: Matrix, ghost unit: seq<int>,
                    ghost E: Matrix, ghost E': Matrix, ghost K: Matrix, ghost eta: nat) returns (c: seq<int>, ghost noise: int)
    requires UserKey(g, s, f, Finv, unit, E, E', K, T, eta) && g.q > 0 && g.base > 0 && g.d > 0 && g.q <= Pow(g.base, g.d) && |ct| == g.p.N && MatrixSwitch.Reduced(g.q, ct)
    ensures |c| == g.n == |f| && Residue(Inner(c, f, g.n), g.q) == Residue(Inner(ct, s, |ct|) + noise, g.q)
    ensures Abs(noise) <= Times(Times(g.p.N, g.d), Times(g.base, eta))
  {
    ghost var hat;
    hide Inner, Residue, Pow, Embedded, IsSwitchKey, MatrixSwitch.FirstColumn, MatrixSwitch.IsTable, MatrixSwitch.IsDigits, MatrixSwitch.IsProduct;
    KeySize(g, s, f, Finv, unit, E, E', K, T, eta);
    c, hat := MatrixSwitch.KeySwitch2(g.q, g.base, g.d, T, ct, g.n, K);
    MatrixSwitch.SwitchPhase(g.q, g.base, g.d, s, E, E', Finv, g.n, K, f, unit, ct, hat, c);
    DigitRange(g.base, g.d, ct, hat, E, g.n, g.q, K, c, eta, s, E');
    noise := MatrixSwitch.ColumnNoise(hat, E, g.n);
    InnerBound(hat, Column(E, g.n, 0), |hat|, g.base, eta);
  }

  lemma {:induction false} KeySize(g: NtruKeys, s: seq<int>, f: seq<int>, Finv: Matrix, unit: seq<int>, E: Matrix, E': Matrix, K: Matrix, T: seq<Matrix>, eta: nat)
    requires UserKey(g, s, f, Finv, unit, E, E', K, T, eta)
    ensures |K| == |E| == Times(g.p.N, g.d) && |s| == g.p.N && |f| == g.n > 0 && Rows(E, |E|, g.n)
  {
  }

  lemma {:induction false} DigitRange(base: nat, d: nat, ct: seq<int>, hat: seq<int>, E: Matrix, n: nat, q: int, K: Matrix, c: seq<int>, eta: nat, s: seq<int>, E': Matrix)
    requires MatrixSwitch.IsDigits(base, d, ct, hat) && MatrixSwitch.IsProduct(q, hat, K, n, c) && |s| == |ct| && |E| == Times(|s|, d) && n > 0 && Rows(E, |E|, n)
    requires forall l :: 0 <= l < |E| ==> Abs(E[l][0]) <= eta
    ensures |hat| == |E| && |c| == n && (forall j :: 0 <= j < |hat| ==> Abs(hat[j]) <= base && Abs(Column(E, n, 0)[j]) <= eta)
  {
  }

  method SwitchUsers(g: NtruKeys, ct: Matrix, ghost x: NtruSecrets) returns (c: Matrix, ghost noise: int)
    requires NtruSetting(g, x) && SameShape(ct, x.w.s) && forall u :: 0 <= u < |ct| ==> MatrixSwitch.Reduced(g.q, ct[u])
    ensures SameShape(c, x.f) && Residue(InnerAll(c, x.f, |x.f|), g.q) == Residue(InnerAll(ct, x.w.s, |ct|) + noise, g.q)
    ensures Abs(noise) <= SwitchBound(g, |x.f|, x.eta)
  {
    hide Inner, Residue, Pow, UserKey, Genuine, TableEntry;
    c, noise := [], 0;
    ghost var bound := Times(Times(g.p.N, g.d), Times(g.base, x.eta));
    NoUsers(g.q, c, x.f, ct, x.w.s, bound);
    for u := 0 to |ct|
      invariant |c| == u && (forall v :: 0 <= v < u ==> |c[v]| == |x.f[v]|) && Abs(noise) <= Times(u, bound)
      invariant Residue(InnerPrefix(c, x.f, u), g.q) == Residue(InnerAll(ct, x.w.s, u) + noise, g.q)
    {
      assert |x.w.s[u]| == g.p.N by { KeySizeOf(g, x, u); }
      var row, e := SwitchUser(g, g.ks[u], ct[u], x.w.s[u], x.f[u], x.Finv[u], x.unit, x.E[u], x.E'[u], x.K[u], x.eta);
      PrefixExtend(c, row, x.f, u);
      ResidueSum(g.q, InnerPrefix(c, x.f, u), InnerAll(ct, x.w.s, u) + noise, Inner(row, x.f[u], g.n), Inner(ct[u], x.w.s[u], |ct[u]|) + e);
      TimesStep(u + 1, bound);
      c, noise := c + [row], noise + e;
    }
    PrefixIsAll(c, x.f, |x.f|);
  }

  lemma {:induction false} KeySizeOf(g: NtruKeys, x: NtruSecrets, u: nat)
    requires NtruSetting(g, x) && u < |x.f|
    ensures |x.w.s[u]| == g.p.N && |x.f[u]| == g.n > 0
  {
    hide TableEntry, Genuine, Embedded, IsSwitchKey, MatrixSwitch.IsTable;
    assert UserKey(g, x.w.s[u], x.f[u], x.Finv[u], x.unit, x.E[u], x.E'[u], x.K[u], g.ks[u], x.eta);
  }

  lemma {:induction false} NoUsers(q: int, c: Matrix, f: Matrix, ct: Matrix, s: Matrix, bound: nat)
    requires q > 0 && SameShape(ct, s)
    ensures Residue(InnerPrefix(c, f, 0), q) == Residue(InnerAll(ct, s, 0) + 0, q) && Abs(0) <= Times(0, bound)
  {
  }

  //////// The blind rotation ////////

  function TernaryNoise(w: World, n: nat): nat
    requires w.p.Valid()
  {
    FirstBound(Ternary, w) + (if Times(|w.s|, n) == 0 then 0 else Times(Times(|w.s|, n) - 1, StepBound(Ternary, w)))
  }

  /** -h on the first half, h on the second, as stored. */
  method TestVector(N: nat, Q: int, h: int) returns (rx: Poly)
    requires N > 0 && 0 < h < Q
    ensures |rx| == N && (forall i :: 0 <= i < N ==> 0 <= rx[i] < Q) && Cong(Q, rx, Mono(0, HalfPlane(N, -h)))
  {
    rx := seq(N, j => if j < N / 2 then Q - h else h);
    ghost var t := seq(N, j => if j < N / 2 then 1 else 0);
    MonoZero(HalfPlane(N, -h));
    CongByCoefficients(Q, rx, HalfPlane(N, -h), t);
  }

  ghost predicate Started(g: NtruKeys, ct: Matrix, rx: Poly) {
    g.p.Valid() && g.q > 0 && |ct| > 0 && |rx| == g.p.N &&
    RunShape(g.p, g.pkey, g.keys, ExponentsOf(Ternary, g.p, g.q, ct), g.n, Start(g.p, |ct|, rx))
  }

  function RunOf(g: NtruKeys, ct: Matrix, rx: Poly): (r: Vec)
    requires Started(g, ct, rx)
    ensures |r| == |ct| && Sized(r, g.p.N)
  {
    Run(Ternary, g.p, g.pkey, g.keys, ExponentsOf(Ternary, g.p, g.q, ct), g.n, Start(g.p, |ct|, rx), |ct|, 0)
  }

  ghost predicate Ciphertext(g: NtruKeys, x: NtruSecrets, ct: Matrix) {
    SameShape(ct, x.f) && Rows(ct, |x.f|, g.n) && forall u, i :: 0 <= u < |ct| && 0 <= i < g.n ==> 0 <= ct[u][i] < g.q
  }

  lemma {:induction false} Exponents(p: Params, q: int, ct: Matrix)
    requires p.N > 0 && q > 0 && forall u, i :: 0 <= u < |ct| && 0 <= i < |ct[u]| ==> 0 <= ct[u][i] < q
    ensures Floored(2 * p.N, q, ct, ExponentsOf(Ternary, p, q, ct)) && MultiKeyRun.InRange(ExponentsOf(Ternary, p, q, ct), p)
  {
    var r := ExponentsOf(Ternary, p, q, ct);
    forall u, i | 0 <= u < |ct| && 0 <= i < |ct[u]| ensures r[u][i] == ct[u][i] * (2 * p.N) / q && 0 <= r[u][i] < 2 * p.N {
      MonomialIndexRange(p, q, ct[u][i]);
      assert ct[u][i] * 2 * p.N == ct[u][i] * (2 * p.N);
    }
  }

  /** The run's constant coefficient is h when NAND is 1 and -h when it is 0. */
  lemma {:induction false} RunSide(g: NtruKeys, x: NtruSecrets, ct: Matrix, rx: Poly, h: int, m1: int, m2: int, e: int, E: nat) returns (err: int)
    requires Genuine(Ternary, x.w, x.z, g.keys, x.f, g.n) && g.p == x.w.p && g.pkey == x.w.pkey && g.p.N % 2 == 0 && g.q > 0 && |x.f| == |x.w.s|
    requires Ciphertext(g, x, ct) && Canonical(g.p, rx) && Cong(g.p.Q, rx, Mono(0, HalfPlane(g.p.N, -h)))
    requires InputBudget(g.p.N, g.q, 2 * AbsSumAll(x.f, |x.f|), E) && 0 <= m1 <= 1 && 0 <= m2 <= 1 && Abs(e) <= 2 * E
    requires Residue(InnerAll(ct, x.f, |ct|), g.q) == Residue(5 * g.q / 8 - (m1 + m2) * (g.q / 4) - e, g.q)
    ensures Started(g, ct, rx) && Abs(err) <= TernaryNoise(x.w, g.n)
    ensures Residue(x.w.Phase(RunOf(g, ct, rx))[0], g.p.Q) == Residue((if Nand(m1, m2) == 1 then h else -h) + err, g.p.Q)
  {
    hide Cong, Mono, Run, Near, Dot, HalfPlane, FirstBound, StepBound, KeyFor, PublicKeys, Start, InnerAll, InnerExponent, Times, ExponentsOf, InputBudget, Residue, Floored, AbsSumAll, MultiKeyRun.InRange;
    var exps, k, M := ExponentsOf(Ternary, g.p, g.q, ct), |ct|, 2 * g.p.N;
    Exponents(g.p, g.q, ct);
    EvalAccCorrect(Ternary, x.w, x.z, g.keys, x.f, exps, g.n, rx);
    assert SameShape(exps, x.f);
    var theta := InnerExponent(exps, x.f, g.n, k, 0);
    ExponentIsInner(exps, x.f, g.n, k, 0);
    var eps := FloorInnerAll(M, g.q, ct, exps, x.f, k);
    ExponentSide(g.p.N, g.q, AbsSumAll(x.f, |x.f|), E, m1, m2, e, InnerAll(ct, x.f, k), theta, eps);
    err := FinalCoefficient(g.p, -h, x.w.Phase(RunOf(g, ct, rx)), rx, 0, theta, theta, TernaryNoise(x.w, g.n));
  }

  //////// The gate ////////

  class MatrixCiphertext {
    var c: Matrix

    constructor (c: Matrix)
      ensures this.c == c
    {
      this.c := c;
    }
  }

  datatype NtruResult = Refused | Output(c: Matrix)

  /** Input noise, rounding of the exponents, and output noise all fit. */
  ghost predicate Budgets(g: NtruKeys, x: NtruSecrets, E: nat)
    requires NtruSetting(g, x)
  {
    InputBudget(g.p.N, g.q, 2 * AbsSumAll(x.f, |x.f|), 2 * E) &&
    FinalBudget(g.p.Q, g.q, AbsSumAll(x.w.s, |x.w.s|), TernaryNoise(x.w, g.n), SwitchBound(g, |x.f|, x.eta))
  }

  /** 5q/8 - (ct1 + ct2). */
  lemma {:induction false} Prepared(q: int, a: Matrix, c1: Matrix, c2: Matrix, f: Matrix, m1: int, m2: int, E: nat) returns (e: int)
    requires q > 0 && SameShape(a, f) && SameShape(c1, f) && SameShape(c2, f) && SameShape(a, c1) && SameShape(c1, c2)
    requires Encodes(q, InnerAll(c1, f, |f|), m1, E) && Encodes(q, InnerAll(c2, f, |f|), m2, E) && NandConstant(q, InnerAll(a, f, |f|), E)
    ensures SameShape(a, Combine(q, true, c1, c2)) && SameShape(Combine(q, false, a, Combine(q, true, c1, c2)), f) && Abs(e) <= 3 * E && 0 <= m1 <= 1 && 0 <= m2 <= 1
    ensures Residue(InnerAll(Combine(q, false, a, Combine(q, true, c1, c2)), f, |f|), q) == Residue(5 * q / 8 - (m1 + m2) * (q / 4) - e, q)
  {
    hide Encodes, NandConstant, Residue, InnerAll;
    var x, y, z := InnerAll(c1, f, |f|), InnerAll(c2, f, |f|), InnerAll(a, f, |f|);
    CombineInner(q, true, c1, c2, f, |f|);
    CombineInner(q, false, a, Combine(q, true, c1, c2), f, |f|);
    e := PreparedValue(q, x, y, z, InnerAll(Combine(q, true, c1, c2), f, |f|), m1, m2, E);
  }

  lemma {:induction false} PreparedValue(q: int, x: int, y: int, z: int, s: int, m1: int, m2: int, E: nat) returns (e: int)
    requires q > 0 && Encodes(q, x, m1, E) && Encodes(q, y, m2, E) && NandConstant(q, z, E) && Residue(s, q) == Residue(x + y, q)
    ensures Abs(e) <= 3 * E && 0 <= m1 <= 1 && 0 <= m2 <= 1 && Residue(z - s, q) == Residue(5 * q / 8 - (m1 + m2) * (q / 4) - e, q)
  {
    hide Residue;
    var e0: int :| Abs(e0) <= E && Residue(z, q) == Residue(5 * q / 8 + e0, q);
    var e1: int :| Abs(e1) <= E && Residue(x, q) == Residue(m1 * (q / 4) + e1, q);
    var e2: int :| Abs(e2) <= E && Residue(y, q) == Residue(m2 * (q / 4) + e2, q);
    e := e1 + e2 - e0;
    ResidueSum(q, x, m1 * (q / 4) + e1, y, m2 * (q / 4) + e2);
    ResidueSum(q, z, 5 * q / 8 + e0, s, m1 * (q / 4) + e1 + (m2 * (q / 4) + e2));
    Distribute(q / 4, m1, m2);
  }

  ghost predicate NandConstant(q: int, phase: int, E: nat)
    requires q > 0
  {
    exists e: int :: Abs(e) <= E && Residue(phase, q) == Residue(5 * q / 8 + e, q)
  }

  lemma {:induction false} SettingParts(g: NtruKeys, x: NtruSecrets)
    requires NtruSetting(g, x)
    ensures Genuine(Ternary, x.w, x.z, g.keys, x.f, g.n) && g.p == x.w.p && g.pkey == x.w.pkey && g.p.Valid() && g.p.N % 2 == 0 && g.q > 8 && |x.f| == |x.w.s| > 0
    ensures |g.table| == 2 * g.p.N && (forall i :: 0 <= i < 2 * g.p.N ==> g.table[i] == TableEntry(g.p, i)) && Rows(x.f, |x.f|, g.n) && Sized(x.w.s, g.p.N)
  {
    hide TableEntry, UserKey, Pow, KeyFor, PublicKeys;
  }

  /** BootstrapGateCore for matrix-NTRU ciphertexts. */
  method BootstrapGateCore(g: NtruKeys, ct: Matrix, ghost x: NtruSecrets, ghost m1: int, ghost m2: int, ghost e: int, ghost E: nat) returns (acc: Accumulator, ghost err: int)
    requires NtruSetting(g, x) && Ciphertext(g, x, ct) && InputBudget(g.p.N, g.q, 2 * AbsSumAll(x.f, |x.f|), E) && 0 <= m1 <= 1 && 0 <= m2 <= 1 && Abs(e) <= 2 * E
    requires Residue(InnerAll(ct, x.f, |ct|), g.q) == Residue(5 * g.q / 8 - (m1 + m2) * (g.q / 4) - e, g.q)
    ensures g.p.Valid() && |acc.elements| == |x.w.s| && Sized(acc.elements, g.p.N) && Abs(err) <= TernaryNoise(x.w, g.n)
    ensures Residue(x.w.Phase(acc.elements)[0], g.p.Q) == Residue((if Nand(m1, m2) == 1 then g.p.Q / 8 + 1 else -(g.p.Q / 8 + 1)) + err, g.p.Q)
  {
    hide NtruSetting, Cong, Mono, Run, HalfPlane, TableEntry, Residue, InnerAll, InputBudget, Genuine, ExponentsOf, TernaryNoise, AbsSumAll, Nand, MultiKeyRun.InRange, RunShape, Dot, Start;
    SettingParts(g, x);
    var h := g.p.Q / 8 + 1;
    var rx := TestVector(g.p.N, g.p.Q, h);
    err := RunSide(g, x, ct, rx, h, m1, m2, e, E);
    Exponents(g.p, g.q, ct);
    acc := new Accumulator(Start(g.p, |ct|, rx));
    EvalAcc(Ternary, g.p, g.table, g.keys, g.pkey, acc, g.q, ct, g.n);
  }

  /** Extraction, modulus switching and key switching; decryption of the result is m. */
  method SwitchBack(g: NtruKeys, acc: Accumulator, ghost x: NtruSecrets, ghost m: int, ghost err: int, ghost E: nat) returns (c: Matrix)
    requires NtruSetting(g, x) && Budgets(g, x, E) && g.p.Valid() && |acc.elements| == |x.w.s| && Sized(acc.elements, g.p.N) && Abs(err) <= TernaryNoise(x.w, g.n)
    requires 0 <= m <= 1 && Residue(x.w.Phase(acc.elements)[0], g.p.Q) == Residue((if m == 1 then g.p.Q / 8 + 1 else -(g.p.Q / 8 + 1)) + err, g.p.Q)
    ensures SameShape(c, x.f) && DecodeShifted(g.q, 4, InnerAll(c, x.f, |x.f|)) == m
  {
    hide NtruSetting, Genuine, TableEntry, UserKey, InputBudget, InnerAll, Residue, RoundqQ, SwitchAll, Extract, Dot, TernaryNoise, AbsSumAll, SwitchBound, FinalBudget, DecodeShifted;
    SettingParts(g, x);
    var ext := MkCircuit.ExtractSample(g.p, acc);
    var sw, zero := ModSwitch(g.q, g.p.Q, ext, 0);
    MkCircuit.SwitchRange(g.q, g.p.Q, ext);
    ghost var k := |x.w.s|;
    ExtractAll(g.p, acc.elements, x.w.s, k);
    ghost var eps, t := SwitchInnerAll(g.q, g.p.Q, ext, x.w.s, k);
    ghost var noise;
    c, noise := SwitchUsers(g, sw, x);
    DecodesNand(g.p.Q, g.q, AbsSumAll(x.w.s, k), TernaryNoise(x.w, g.n), SwitchBound(g, |x.f|, x.eta), m,
                InnerAll(ext, x.w.s, k), err, InnerAll(sw, x.w.s, k), eps, t, InnerAll(c, x.f, |x.f|), noise);
  }

  /** EvalBinGate(NAND): distinct inputs encoding m1 and m2 give an output that decrypts to NAND. */
  method EvalBinGate(g: NtruKeys, ct1: MatrixCiphertext, ct2: MatrixCiphertext, ctNAND: MatrixCiphertext, ghost x: NtruSecrets, ghost m1: int, ghost m2: int, ghost E: nat)
    returns (r: NtruResult)
    requires NtruSetting(g, x) && Budgets(g, x, E) && Ciphertext(g, x, ct1.c) && Ciphertext(g, x, ct2.c) && Ciphertext(g, x, ctNAND.c) && g.q > 0
    requires Encodes(g.q, InnerAll(ct1.c, x.f, |x.f|), m1, E) && Encodes(g.q, InnerAll(ct2.c, x.f, |x.f|), m2, E)
    requires NandConstant(g.q, InnerAll(ctNAND.c, x.f, |x.f|), E)
    ensures r.Refused? <==> ct1 == ct2
    ensures r.Output? ==> SameShape(r.c, x.f) && DecodeShifted(g.q, 4, InnerAll(r.c, x.f, |x.f|)) == Nand(m1, m2)
  {
    hide NtruSetting, Genuine, TableEntry, UserKey, InputBudget, InnerAll, Residue, Encodes, NandConstant, TernaryNoise, AbsSumAll, FinalBudget, DecodeShifted, Dot, SwitchBound;
    if ct1 == ct2 {
      return Refused;
    }
    var sum := Combine(g.q, true, ct1.c, ct2.c);
    var prep := Combine(g.q, false, ctNAND.c, sum);
    ghost var e := Prepared(g.q, ctNAND.c, ct1.c, ct2.c, x.f, m1, m2, E);
    var acc, err := BootstrapGateCore(g, prep, x, m1, m2, e, 2 * E);
    var c := SwitchBack(g, acc, x, Nand(m1, m2), err, E);
    return Output(c);
  }

  /** Decrypt: the inner product with the first columns, then floor(p·(inner + q/p)/q). */
  method Decrypt(q: int, p: nat, c: Matrix, f: Matrix) returns (m: int)
    requires q > 0 && p > 0 && SameShape(c, f)
    ensures m == DecodeShifted(q, p, InnerAll(c, f, |c|))
  {
    hide Inner, Residue;
    var inner := 0;
    MatrixSwitch.SmallIsZero(q);
    for u := 0 to |c|
      invariant inner == Residue(InnerAll(c, f, u), q)
    {
      var sum := MatrixSwitch.DotMod(q, c[u], f[u]);
      MatrixSwitch.StepMod(q, InnerAll(c, f, u), Inner(c[u], f[u], |c[u]|));
      inner := Residue(inner + sum, q);
    }
    MatrixSwitch.StepMod(q, InnerAll(c, f, |c|), q / p);
    m := p * Residue(inner + q / p, q) / q;
  }

  lemma {:induction false} SettingInverses(g: NtruKeys, x: NtruSecrets)
    requires NtruSetting(g, x)
    ensures Inverses(g.q, g.n, x.Finv, x.f, x.unit) && g.n > 0 && g.q > 8 && |x.f| > 0
  {
    SettingParts(g, x);
    hide Genuine, TableEntry, Embedded, IsSwitchKey, MatrixSwitch.IsTable, MatrixSwitch.FirstColumn, Pow;
    forall u | 0 <= u < |x.f| ensures MatrixSwitch.FirstColumn(g.q, x.Finv[u], g.n, x.f[u], x.unit) {
      assert UserKey(g, x.w.s[u], x.f[u], x.Finv[u], x.unit, x.E[u], x.E'[u], x.K[u], g.ks[u], x.eta);
    }
    KeySizeOf(g, x, 0);
  }

  /** An encryption of a bit whose first errors add up to at most E encodes it; the gate constant likewise. */
  lemma {:induction false} EncryptedBit(q: int, phase: int, m: int, err: int, E: nat)
    requires q > 0 && 0 <= m <= 1 && Abs(err) <= E && Residue(phase, q) == Residue((m % 4) * (q / 4) + err, q)
    ensures Encodes(q, phase, m, E)
  {
    assert m % 4 == m;
  }

  lemma {:induction false} EncryptedConstant(q: int, phase: int, err: int, E: nat)
    requires q > 0 && Abs(err) <= E && Residue(phase, q) == Residue(5 * q / 8 + err, q)
    ensures NandConstant(q, phase, E)
  {
  }

  /** Encrypt two bits, generate the gate constant, evaluate the gate and decrypt: the result is NAND. */
  method EncryptNandDecrypt(g: NtruKeys, Finv: seq<Matrix>, f: Matrix, m1: int, m2: int, e1: Matrix, e2: Matrix, eN: Matrix, ghost x: NtruSecrets, ghost E: nat) returns (m: int)
    requires NtruSetting(g, x) && Budgets(g, x, E) && Finv == x.Finv && f == x.f && 0 <= m1 <= 1 && 0 <= m2 <= 1 && g.n > 0
    requires Rows(e1, |f|, g.n) && Rows(e2, |f|, g.n) && Rows(eN, |f|, g.n)
    requires Abs(FirstSum(e1, g.n, |e1|)) <= E && Abs(FirstSum(e2, g.n, |e2|)) <= E && Abs(FirstSum(eN, g.n, |eN|)) <= E
    ensures m == Nand(m1, m2)
  {
    hide NtruSetting, Budgets, Inverses, InnerAll, Residue, Encodes, NandConstant, DecodeShifted, FirstSum;
    SettingInverses(g, x);
    var q := g.q;
    var c1 := EncryptAll(q, (m1 % 4) * (q / 4), e1, Finv, g.n, f, x.unit);
    var c2 := EncryptAll(q, (m2 % 4) * (q / 4), e2, Finv, g.n, f, x.unit);
    var cN := EncryptAll(q, 5 * q / 8, eN, Finv, g.n, f, x.unit);
    EncryptedBit(q, InnerAll(c1, f, |f|), m1, FirstSum(e1, g.n, |e1|), E);
    EncryptedBit(q, InnerAll(c2, f, |f|), m2, FirstSum(e2, g.n, |e2|), E);
    EncryptedConstant(q, InnerAll(cN, f, |f|), FirstSum(eN, g.n, |eN|), E);
    var ct1 := new MatrixCiphertext(c1);
    var ct2 := new MatrixCiphertext(c2);
    var ctNAND := new MatrixCiphertext(cN);
    var r := EvalBinGate(g, ct1, ct2, ctNAND, x, m1, m2, E);
    m := Decrypt(q, 4, r.c, f);
  }
}
