/** The arithmetic of the multi-key NAND gate on LWE ciphertexts: where the exponent lands, what the
    output carries, and reading the accumulator. */
module MkNand {
  import opened NegacyclicRing
  import opened RingModulus
  import opened Arithmetic
  import opened Gadget
  import opened RingVectors
  import opened HybridProduct
  import opened KeyAlgebra
  import opened BlindRotation
  import opened MultiKeyRun
  import opened MultiKeyEval
  import opened MkLwe
  import opened MkLweKeys
  import opened TestPolynomial

  /** The ciphertext carries the bit m as m·floor(q/4) with noise at most E. */
  ghost predicate Encodes(q: int, phase: int, m: int, E: nat) {
    q > 0 && 0 <= m <= 1 && exists e: int :: Abs(e) <= E && Residue(phase, q) == Residue(m * (q / 4) + e, q)
  }

  function Nand(m1: int, m2: int): int {
    if m1 == 1 && m2 == 1 then 0 else 1
  }

  //////// Where the exponent lands ////////

  /** Input noise, rounding and integer-division slack together stay below a quarter turn. */
  ghost predicate InputBudget(N: nat, q: int, S: nat, E: nat) {
    N * (16 * E + 12) + 2 * (q * (1 + S)) < N * q
  }

  /** theta = (2N/q)·(5q/8 - phase1 - phase2) up to rounding lies in (N/2, 3N/2] modulo 2N exactly
      when NAND is 1. */
  lemma {:induction false} ExponentHalf(N: nat, q: int, S: nat, E: nat, m1: int, m2: int, e: int, phi: int, theta: int, eps: int, t: int)
    requires N > 0 && N % 2 == 0 && q > 0 && InputBudget(N, q, S, E)
    requires 0 <= m1 <= 1 && 0 <= m2 <= 1 && Abs(e) <= 2 * E
    requires Residue(phi, q) == Residue(5 * q / 8 - (m1 + m2) * (q / 4) - e, q)
    requires 2 * q * theta == 2 * (2 * N) * phi + eps + 2 * q * (2 * N) * t && Abs(eps) <= q * (1 + S)
    ensures N / 2 < theta % (2 * N) <= N + N / 2 <==> Nand(m1, m2) == 1
  {
    hide InputBudget;
    var sigma := m1 + m2;
    var x := 5 * q / 8 - sigma * (q / 4) - e;
    var k := ModEqWitness(phi, x, q);
    var y := theta - 2 * N * (k + t);
    DeltaBound(q, sigma, e, E, x);
    ShiftTheta(N, q, theta, phi, x, eps, t, k, y);
    CentreTheta(N, q, S, E, sigma, x, eps, y, 8 * x - (5 - 2 * sigma) * q);
    DivModUnique(theta, 2 * N, k + t, y);
    assert sigma <= 1 <==> Nand(m1, m2) == 1;
  }

  lemma {:induction false} DeltaBound(q: int, sigma: int, e: int, E: nat, x: int)
    requires q > 0 && 0 <= sigma <= 2 && Abs(e) <= 2 * E && x == 5 * q / 8 - sigma * (q / 4) - e
    ensures Abs(8 * x - (5 - 2 * sigma) * q) <= 16 * E + 12
  {
  }

  lemma {:induction false} ShiftTheta(N: nat, q: int, theta: int, phi: int, x: int, eps: int, t: int, k: int, y: int)
    requires 2 * q * theta == 2 * (2 * N) * phi + eps + 2 * q * (2 * N) * t && phi == x + q * k && y == theta - 2 * N * (k + t)
    ensures 2 * q * y == 4 * N * x + eps
  {
    assert 2 * q * (2 * N * (k + t)) == 2 * q * (2 * N) * k + 2 * q * (2 * N) * t;
    assert 2 * q * y == 2 * q * theta - 2 * q * (2 * N * (k + t));
    assert 2 * (2 * N) * (x + q * k) == 4 * N * x + 2 * q * (2 * N) * k;
  }

  lemma {:induction false} CentreTheta(N: nat, q: int, S: nat, E: nat, sigma: int, x: int, eps: int, y: int, delta: int)
    requires N > 0 && N % 2 == 0 && q > 0 && InputBudget(N, q, S, E) && 0 <= sigma <= 2
    requires 2 * q * y == 4 * N * x + eps && Abs(eps) <= q * (1 + S)
    requires delta == 8 * x - (5 - 2 * sigma) * q && Abs(delta) <= 16 * E + 12
    ensures 0 <= y < 2 * N && (N / 2 < y <= N + N / 2 <==> sigma <= 1)
  {
    var w := 5 - 2 * sigma;
    ScaleTheta(N, q, w, x, eps, y, delta);
    DeviationBound(N, q, S, 16 * E + 12, delta, eps);
    StrictBetween(q, 4 * y, N * w, N * delta + 2 * eps, N);
    PlaceTheta(N, sigma, w, y);
  }

  lemma {:induction false} PlaceTheta(N: nat, sigma: int, w: int, y: int)
    requires N > 0 && N % 2 == 0 && 0 <= sigma <= 2 && w == 5 - 2 * sigma && N * w - N < 4 * y < N * w + N
    ensures 0 <= y < 2 * N && (N / 2 < y <= N + N / 2 <==> sigma <= 1)
  {
    if sigma == 0 {
      assert N * w == 5 * N;
    } else if sigma == 1 {
      assert N * w == 3 * N;
    } else {
      assert N * w == N;
    }
  }

  /** 4q·y = q·N·w + (N·delta + 2·eps). */
  lemma {:induction false} ScaleTheta(N: int, q: int, w: int, x: int, eps: int, y: int, delta: int)
    requires 2 * q * y == 4 * N * x + eps && delta == 8 * x - w * q
    ensures q * (4 * y) == q * (N * w) + (N * delta + 2 * eps)
  {
    var a, b := N * x, N * (w * q);
    assert 4 * N * x == 4 * a;
    assert N * delta == 8 * a - b by { assert N * (8 * x - w * q) == N * (8 * x) - N * (w * q); }
    assert q * (N * w) == b;
    assert q * (4 * y) == 2 * (2 * q * y);
  }

  lemma {:induction false} DeviationBound(N: nat, q: int, S: nat, D: nat, delta: int, eps: int)
    requires N * D + 2 * (q * (1 + S)) < N * q && Abs(eps) <= q * (1 + S) && Abs(delta) <= D
    ensures Abs(N * delta + 2 * eps) < N * q
  {
    AbsMul(N, delta);
    MulMono(Abs(delta), D, N);
  }

  lemma {:induction false} StrictBetween(q: int, z: int, c: int, r: int, N: int)
    requires q > 0 && q * z == q * c + r && Abs(r) < N * q
    ensures c - N < z < c + N
  {
    assert q * (z - c) == r;
    assert q * -N == -(N * q);
    if z - c >= N {
      MulMono(N, z - c, q);
    }
    if z - c <= -N {
      MulMono(z - c, -N, q);
    }
  }

  //////// What the output carries ////////

  /** Accumulator noise beta, rounding, slack and key-switching noise fit in E. */
  ghost predicate OutputBudget(Q: int, q: int, SN: nat, beta: nat, eks: nat, E: nat) {
    4 * q + 2 * Q + 2 * (q * beta) + Q * (1 + SN) + 2 * (Q * eks) <= 2 * (Q * E)
  }

  /** From the extracted constant coefficient to the output phase. */
  lemma {:induction false} OutputPhase(Q: int, q: int, SN: nat, beta: nat, eks: nat, E: nat, m: int,
                                       phi: int, err: int, phi': int, eps: int, t: int, out: int, ks: int)
    requires Q > 0 && q > 0 && 0 <= m <= 1 && OutputBudget(Q, q, SN, beta, eks, E)
    requires Residue(phi, Q) == Residue(2 * m * (Q / 8 + 1) - err, Q) && Abs(err) <= beta
    requires 2 * Q * phi' == 2 * q * phi + eps + 2 * Q * q * t && Abs(eps) <= Q * (1 + SN)
    requires Residue(out, q) == Residue(phi' - ks, q) && Abs(ks) <= eks
    ensures Encodes(q, out, m, E)
  {
    var x := 2 * m * (Q / 8 + 1) - err;
    var k := ModEqWitness(phi, x, Q);
    var y := phi' - q * (k + t);
    ShiftOutput(Q, q, phi, x, phi', eps, t, k, y);
    var e := y - m * (q / 4);
    SlackBound(Q, q, m, err, x, y, eps, beta, SN, e);
    AbsScaled(Q, e, 4 * q + 2 * Q + 2 * (q * beta) + Q * (1 + SN), ks, eks, E);
    OutputWitness(q, m, phi', ks, k + t, e, out, E);
  }

  lemma {:induction false} OutputWitness(q: int, m: int, phi': int, ks: int, d: int, e: int, out: int, E: nat)
    requires q > 0 && 0 <= m <= 1 && e == phi' - q * d - m * (q / 4) && Abs(e - ks) <= E
    requires Residue(out, q) == Residue(phi' - ks, q)
    ensures Encodes(q, out, m, E)
  {
    ModShift(phi' - ks, m * (q / 4) + (e - ks), q, d);
    assert Residue(out, q) == Residue(m * (q / 4) + (e - ks), q);
  }

  lemma {:induction false} ShiftOutput(Q: int, q: int, phi: int, x: int, phi': int, eps: int, t: int, k: int, y: int)
    requires 2 * Q * phi' == 2 * q * phi + eps + 2 * Q * q * t && phi == x + Q * k && y == phi' - q * (k + t)
    ensures 2 * Q * y == 2 * q * x + eps
  {
    assert 2 * Q * (q * (k + t)) == 2 * Q * q * k + 2 * Q * q * t;
    assert 2 * Q * y == 2 * Q * phi' - 2 * Q * (q * (k + t));
    assert 2 * q * (x + Q * k) == 2 * q * x + 2 * Q * q * k;
  }

  lemma {:induction false} SlackBound(Q: int, q: int, m: int, err: int, x: int, y: int, eps: int, beta: nat, SN: nat, e: int)
    requires Q > 0 && q > 0 && 0 <= m <= 1 && Abs(err) <= beta && x == 2 * m * (Q / 8 + 1) - err
    requires 2 * Q * y == 2 * q * x + eps && Abs(eps) <= Q * (1 + SN) && e == y - m * (q / 4)
    ensures 2 * (Q * Abs(e)) <= 4 * q + 2 * Q + 2 * (q * beta) + Q * (1 + SN)
  {
    var f, z := q * err, 2 * Q * e;
    assert Abs(f) <= q * beta by {
      AbsMul(q, err);
      MulMono(Abs(err), beta, q);
    }
    assert Abs(z) == 2 * (Q * Abs(e)) by {
      AbsMul(2 * Q, e);
      Arithmetic.Regroup(2, Q, Abs(e));
    }
    if m == 0 {
      assert z == -2 * f + eps by { SlackNone(Q, q, err, x, y, eps, e); }
    } else {
      SlackOne(Q, q, Q / 8 + 1, q / 4, err, y, eps, e);
    }
    SlackTotal(f, z, eps, q, Q, q * beta, Q * (1 + SN));
  }

  lemma {:induction false} SlackNone(Q: int, q: int, err: int, x: int, y: int, eps: int, e: int)
    requires x == -err && e == y && 2 * Q * y == 2 * q * x + eps
    ensures 2 * Q * e == -2 * (q * err) + eps
  {
    Arithmetic.Regroup(2, q, x);
    assert q * -err == -(q * err);
  }

  lemma {:induction false} SlackTotal(f: int, z: int, eps: int, q: int, Q: int, fb: int, eb: int)
    requires q > 0 && Q > 0 && Abs(f) <= fb && Abs(eps) <= eb && -2 * f + eps <= z <= -2 * f + eps + 4 * q + 2 * Q
    ensures Abs(z) <= 4 * q + 2 * Q + 2 * fb + eb
  {
  }

  /** For m = 1: q·4h lies in (qQ/2, qQ/2 + 4q] and Q·2d in [qQ/2 - 3Q/2, qQ/2]. */
  lemma {:induction false} SlackOne(Q: int, q: int, h: int, d: int, err: int, y: int, eps: int, e: int)
    requires Q > 0 && q > 0 && Q < 8 * h <= Q + 8 && q - 3 <= 4 * d <= q
    requires 2 * Q * y == 2 * q * (2 * h - err) + eps && e == y - d
    ensures -2 * (q * err) + eps <= 2 * Q * e <= -2 * (q * err) + eps + 4 * q + 2 * Q
  {
    var a, b, c, f, g := q * h, Q * d, Q * q, q * err, Q * y;
    assert 2 * Q * y == 2 * g by { Arithmetic.Regroup(2, Q, y); }
    assert 2 * q * (2 * h - err) == 4 * a - 2 * f by {
      Arithmetic.Regroup(2, q, 2 * h - err);
      Distribute(q, 2 * h, err);
      Arithmetic.Regroup(q, 2, h);
    }
    assert 2 * Q * e == 2 * g - 2 * b by {
      Arithmetic.Regroup(2, Q, e);
      Distribute(Q, y, d);
    }
    assert c <= 8 * a <= c + 8 * q by {
      MulMono(8 * h, Q + 8, q);
      MulMono(Q, 8 * h, q);
      Arithmetic.Regroup(q, 8, h);
      Distribute(q, Q, 8);
    }
    assert c - 3 * Q <= 4 * b <= c by {
      MulMono(4 * d, q, Q);
      MulMono(q - 3, 4 * d, Q);
      Arithmetic.Regroup(Q, 4, d);
      Distribute(Q, q, 3);
    }
    SlackLinear(a, b, c, f, g, eps, q, Q, 2 * Q * e);
  }

  lemma {:induction false} SlackLinear(a: int, b: int, c: int, f: int, g: int, eps: int, q: int, Q: int, z: int)
    requires Q > 0 && 2 * g == 4 * a - 2 * f + eps && z == 2 * g - 2 * b && c <= 8 * a <= c + 8 * q && c - 3 * Q <= 4 * b <= c
    ensures -2 * f + eps <= z <= -2 * f + eps + 4 * q + 2 * Q
  {
  }

  lemma {:induction false} AbsScaled(Q: int, e: int, bound: int, ks: int, eks: nat, E: nat)
    requires Q > 0 && 2 * (Q * Abs(e)) <= bound && bound + 2 * (Q * eks) <= 2 * (Q * E) && Abs(ks) <= eks
    ensures Abs(e - ks) <= E
  {
    assert Q * (Abs(e) + eks) == Q * Abs(e) + Q * eks;
    assert Q * (E + 1) == Q * E + Q;
    if Abs(e) + eks > E {
      MulMono(E + 1, Abs(e) + eks, Q);
    }
  }

  //////// Reading the accumulator ////////

  /** Transposed accumulator elements, reduced modulo Q. */
  function Extract(p: Params, acc: Vec): (r: Matrix)
    requires p.Valid() && Sized(acc, p.N)
    ensures |r| == |acc| && forall u :: 0 <= u < |r| ==> |r[u]| == p.N
  {
    seq(|acc|, u requires 0 <= u < |acc| => Reduce(p.Q, Transpose(acc[u])))
  }

  lemma {:induction false} ExtractAll(p: Params, acc: Vec, s: Vec, k: nat)
    requires p.Valid() && Sized(acc, p.N) && Sized(s, p.N) && |s| == |acc| && k <= |s| && SameShape(Extract(p, acc), s)
    ensures Residue(InnerAll(Extract(p, acc), s, k), p.Q) == Residue(Dot(p.N, s, acc, k)[0], p.Q)
  {
    hide Inner, Mul, Transpose, Residue;
    if k > 0 {
      var u := k - 1;
      ExtractAll(p, acc, s, u);
      ExtractOne(p, acc[u], s[u], Extract(p, acc)[u]);
      ResidueSum(p.Q, InnerAll(Extract(p, acc), s, u), Dot(p.N, s, acc, u)[0],
                 Inner(Extract(p, acc)[u], s[u], p.N), Mul(s[u], acc[u])[0]);
    }
  }

  lemma {:induction false} ExtractOne(p: Params, c: Poly, s: Poly, r: seq<int>)
    requires p.Valid() && |c| == |s| == p.N && r == Reduce(p.Q, Transpose(c))
    ensures Residue(Inner(r, s, p.N), p.Q) == Residue(Mul(s, c)[0], p.Q)
  {
    hide Inner, Mul, Transpose;
    ReducedRow(p.Q, Transpose(c), r, s);
    Extraction(c, s);
  }

  lemma {:induction false} ResidueSum(q: int, a: int, a': int, b: int, b': int)
    requires q > 0 && Residue(a, q) == Residue(a', q) && Residue(b, q) == Residue(b', q)
    ensures Residue(a + b, q) == Residue(a' + b', q) && Residue(a - b, q) == Residue(a' - b', q)
  {
    ModAddCong(a, a', b, b', q);
  }

  /** The exponent sum of a run is the inner product of the exponents with the secrets. */
  lemma {:induction false} ExponentIsInner(exps: Exponents, t: Matrix, n: nat, u: nat, i: nat)
    requires |exps| == |t| && i <= n && (if i == 0 then u <= |exps| else u < |exps|)
    requires Rectangular(exps, |exps|, n) && Rectangular(t, |exps|, n) && SameShape(exps, t)
    ensures InnerExponent(exps, t, n, u, i) == InnerAll(exps, t, u) + (if i == 0 then 0 else Inner(exps[u], t[u], i))
    decreases u, i
  {
    if i > 0 {
      ExponentIsInner(exps, t, n, u, i - 1);
    } else if u > 0 {
      ExponentIsInner(exps, t, n, u - 1, n);
      if n == 0 {
        assert Inner(exps[u - 1], t[u - 1], n) == 0;
      }
    }
  }

  function Zeros(k: nat, n: nat): (r: Matrix)
    ensures |r| == k && forall u :: 0 <= u < k ==> |r[u]| == n
    ensures forall u, i :: 0 <= u < k && 0 <= i < n ==> r[u][i] == 0
  {
    seq(k, _ => seq(n, _ => 0))
  }

  lemma {:induction false} InnerZeros(z: Matrix, s: Matrix, k: nat)
    requires SameShape(z, s) && k <= |s| && forall u, i :: 0 <= u < |z| && 0 <= i < |z[u]| ==> z[u][i] == 0
    ensures InnerAll(z, s, k) == 0
  {
    hide Inner;
    if k > 0 {
      InnerZeros(z, s, k - 1);
      InnerZero(z[k - 1], s[k - 1], |s[k - 1]|);
    }
  }

  /** X^(sum of (-a)·s)·X^b = X^(b - <a,s>). */
  lemma {:induction false} NegatedExponent(M: int, a: Matrix, b: int, s: Matrix, n: nat, neg: Matrix)
    requires M > 0 && SameShape(a, s) && Rectangular(a, |s|, n) && Rectangular(s, |s|, n)
    requires SameShape(Zeros(|a|, n), a) && neg == Combine(M, false, Zeros(|a|, n), a) && SameShape(neg, s)
    ensures Rectangular(neg, |s|, n)
    ensures Residue(InnerExponent(neg, s, n, |s|, 0) + b, M) == Residue(Phase(a, b, s), M)
  {
    hide InnerAll, Residue, InnerExponent, Combine;
    ExponentIsInner(neg, s, n, |s|, 0);
    CombineInner(M, false, Zeros(|a|, n), a, s, |s|);
    InnerZeros(Zeros(|a|, n), s, |s|);
    assert Signed(false, InnerAll(a, s, |s|)) == -InnerAll(a, s, |s|);
    ResidueSum(M, InnerAll(neg, s, |s|), -InnerAll(a, s, |s|), b, b);
  }

  /** The constant coefficient of the final phase is -h or h according to the exponent, up to noise. */
  lemma {:induction false} FinalCoefficient(p: Params, h: int, f: Poly, rx: Poly, b: int, e: int, theta: int, beta: nat) returns (err: int)
    requires p.Valid() && p.N % 2 == 0 && |f| == |rx| == p.N
    requires Near(p.Q, f, Mono(e, rx), beta) && Cong(p.Q, rx, Mono(b, HalfPlane(p.N, h)))
    requires Residue(e + b, 2 * p.N) == Residue(theta, 2 * p.N)
    ensures Abs(err) <= beta
    ensures var d := theta % (2 * p.N);
            Residue(f[0], p.Q) == Residue((if p.N / 2 < d <= p.N + p.N / 2 then -h else h) + err, p.Q)
  {
    hide Cong, Mono, Add;
    var hp := HalfPlane(p.N, h);
    CongMono(p.Q, e, rx, Mono(b, hp));
    MonoMono(e, b, hp);
    MonoMod(e + b, theta, hp);
    NearCong(p.Q, f, Mono(e, rx), Mono(theta, hp), beta);
    var x: Poly :| |x| == |f| && Bounded(x, beta) && Cong(p.Q, f, Add(Mono(theta, hp), x));
    CongCoefficient(p.Q, f, Add(Mono(theta, hp), x), 0);
    RotatedHalfPlane(p.N, h, theta);
    SumCoefficient(Mono(theta, hp), x);
    err := x[0];
  }

  lemma {:induction false} SumCoefficient(a: Poly, b: Poly)
    requires |a| == |b| > 0
    ensures Add(a, b)[0] == a[0] + b[0]
  {
  }
}
