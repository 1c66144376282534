/** The arithmetic of the matrix-NTRU NAND gate: where the exponent lands, and what decryption sees. */
module MntruNand {
  import opened Arithmetic
  import opened Gadget
  import opened MkLwe
  import opened MkLweKeys
  import opened MultiKeyRun
  import opened MultiKeyEval
  import opened MkNand

  //////// Rounding the exponents down ////////

  lemma {:induction false} FloorTerm(M: nat, q: int, x: int) returns (d: int)
    requires q > 0
    ensures M * x == q * (x * M / q) + d && 0 <= d < q
  {
    DivMod(x * M, q);
    d := (x * M) % q;
    assert x * M == M * x;
  }

  /** floor(x·2N/q), entry by entry. */
  ghost predicate Floored(M: nat, q: int, a: Matrix, r: Matrix) {
    q > 0 && SameShape(r, a) && forall u, i :: 0 <= u < |a| && 0 <= i < |a[u]| ==> r[u][i] == a[u][i] * M / q
  }

  lemma {:induction false} FloorInner(M: nat, q: int, a: seq<int>, r: seq<int>, f: seq<int>, i: nat) returns (eps: int)
    requires q > 0 && i <= |a| && i <= |r| && i <= |f| && forall j :: 0 <= j < i ==> r[j] == a[j] * M / q
    ensures M * Inner(a, f, i) == q * Inner(r, f, i) + eps && Abs(eps) <= q * AbsSum(f, i)
  {
    if i == 0 {
      eps := 0;
    } else {
      var j := i - 1;
      var e0 := FloorInner(M, q, a, r, f, j);
      var d := FloorTerm(M, q, a[j]);
      eps := e0 + d * f[j];
      FloorStep(M, q, Inner(a, f, j), Inner(r, f, j), e0, a[j], r[j], f[j], d);
      ErrorTerm(q, d, f[j], AbsSum(f, j));
    }
  }

  lemma {:induction false} FloorStep(M: int, q: int, x: int, y: int, e: int, a: int, r: int, f: int, d: int)
    requires M * x == q * y + e && M * a == q * r + d
    ensures M * (x + a * f) == q * (y + r * f) + (e + d * f)
  {
    Distribute(M, x, a * f);
    Distribute(q, y, r * f);
    Arithmetic.Regroup(M, a, f);
    Arithmetic.Regroup(q, r, f);
    Distribute(f, q * r, d);
  }

  /** The exponent is 2N/q times the phase, up to the Hamming weight of the keys. */
  lemma {:induction false} FloorInnerAll(M: nat, q: int, a: Matrix, r: Matrix, f: Matrix, k: nat) returns (eps: int)
    requires Floored(M, q, a, r) && SameShape(a, f) && SameShape(r, f) && k <= |a|
    ensures M * InnerAll(a, f, k) == q * InnerAll(r, f, k) + eps && Abs(eps) <= q * AbsSumAll(f, k)
  {
    if k == 0 {
      eps := 0;
    } else {
      var u := k - 1;
      var e0 := FloorInnerAll(M, q, a, r, f, u);
      var e1 := FloorInner(M, q, a[u], r[u], f[u], |f[u]|);
      eps := e0 + e1;
      Distribute(M, InnerAll(a, f, u), Inner(a[u], f[u], |f[u]|));
      Distribute(q, InnerAll(r, f, u), Inner(r[u], f[u], |f[u]|));
      Distribute(q, AbsSumAll(f, u), AbsSum(f[u], |f[u]|));
    }
  }

  /** NAND is 1 exactly when the exponent lies in (N/2, 3N/2] modulo 2N. */
  lemma {:induction false} ExponentSide(N: nat, q: int, S: nat, E: nat, m1: int, m2: int, e: int, phi: int, theta: int, eps: int)
    requires N > 0 && N % 2 == 0 && q > 0 && InputBudget(N, q, 2 * S, E) && 0 <= m1 <= 1 && 0 <= m2 <= 1 && Abs(e) <= 2 * E
    requires Residue(phi, q) == Residue(5 * q / 8 - (m1 + m2) * (q / 4) - e, q)
    requires 2 * N * phi == q * theta + eps && Abs(eps) <= q * S
    ensures N / 2 < theta % (2 * N) <= N + N / 2 <==> Nand(m1, m2) == 1
  {
    hide InputBudget, Nand;
    SideForm(N, q, phi, theta, eps, S);
    ExponentHalf(N, q, 2 * S, E, m1, m2, e, phi, theta, -2 * eps, 0);
  }

  lemma {:induction false} SideForm(N: nat, q: int, phi: int, theta: int, eps: int, S: nat)
    requires q > 0 && 2 * N * phi == q * theta + eps && Abs(eps) <= q * S
    ensures 2 * q * theta == 2 * (2 * N) * phi + -2 * eps + 2 * q * (2 * N) * 0 && Abs(-2 * eps) <= q * (1 + 2 * S)
  {
    Arithmetic.Regroup(2, q, theta);
    Arithmetic.Regroup(2, 2 * N, phi);
    Arithmetic.Regroup(2, q, S);
    Distribute(q, 1, 2 * S);
    assert q * (2 * S) == 2 * (q * S);
  }

  //////// Decryption ////////

  /** floor(4·(phase + q/4)/q). */
  function DecodeShifted(q: int, p: nat, phase: int): int
    requires q > 0 && p > 0
  {
    p * Residue(phase + q / p, q) / q
  }

  /** Every message modulo p is decoded from the phases between q·m/p - q/p and q·(m + 1)/p - q/p. */
  lemma {:induction false} DecodesWindow(q: int, p: nat, m: int, v: int, phase: int)
    requires q > 0 && p > 0 && 0 <= m < p && q * m <= p * (v + q / p) < q * (m + 1) && Residue(phase, q) == Residue(v, q)
    ensures DecodeShifted(q, p, phase) == m
  {
    var x := v + q / p;
    ModAddCong(phase, v, q / p, q / p, q);
    MulNonNeg(q, m);
    MulMono(m + 1, p, q);
    WithinTurn(p, q, x, p * x);
    DivModUnique(x, q, 0, x);
    Distribute(q, m, 1);
    DivModUnique(p * x, q, m, p * x - q * m);
  }

  ghost predicate FinalBudget(Q: int, q: int, SN: nat, beta: nat, eks: nat) {
    16 * q + 16 * (q * beta) + 8 * (Q * SN) + 16 * (Q * eks) <= 2 * (Q * (q - 8))
  }

  /** The output phase is (q/4)·NAND - q/8 within q/8, so decryption returns NAND. */
  lemma {:induction false} DecodesNand(Q: int, q: int, SN: nat, beta: nat, eks: nat, m: int, X: int, err: int, X': int, eps: int, t: int, out: int, ks: int)
    requires Q > 0 && q > 8 && 0 <= m <= 1 && FinalBudget(Q, q, SN, beta, eks) && Abs(err) <= beta && Abs(ks) <= eks
    requires Residue(X, Q) == Residue((if m == 1 then Q / 8 + 1 else -(Q / 8 + 1)) + err, Q)
    requires 2 * Q * X' == 2 * q * X + eps + 2 * Q * q * t && Abs(eps) <= Q * SN
    requires Residue(out, q) == Residue(X' + ks, q)
    ensures DecodeShifted(q, 4, out) == m
  {
    var h := Q / 8 + 1;
    var s := if m == 1 then 1 else -1;
    var x := (if m == 1 then h else -h) + err;
    var k := ModEqWitness(X, x, Q);
    var y := X' - q * (k + t);
    ShiftOutput(Q, q, X, x, X', eps, t, k, y);
    OutputSide(Q, q, h, s, err, eps, y, ks, beta, SN, eks, x);
    ModShift(X' + ks, y + ks, q, k + t);
    DecodeSide(q, s, y + ks, m, out);
  }

  lemma {:induction false} OutputSide(Q: int, q: int, h: int, s: int, err: int, eps: int, y: int, ks: int, beta: nat, SN: nat, eks: nat, x: int)
    requires Q > 0 && q > 8 && (s == 1 || s == -1) && Q < 8 * h <= Q + 8 && 2 * Q * y == 2 * q * x + eps && x == s * h + err
    requires Abs(err) <= beta && Abs(ks) <= eks && Abs(eps) <= Q * SN && FinalBudget(Q, q, SN, beta, eks)
    ensures s * q - (q - 8) <= 8 * (y + ks) <= s * q + (q - 8)
  {
    ScaledForm(Q, q, h, s, err, eps, y, x);
    ScaledBounds(Q, q, h, err, ks, beta, eks);
    Distribute(Q, y, ks);
    SideLinear(q * h, q * err, Q * y, Q * ks, Q * q, s, q, eps, q * beta, Q * SN, Q * eks, Q * (q - 8));
    DivideSide(Q, q, s, y + ks, Q * y + Q * ks, Q * q);
  }

  lemma {:induction false} ScaledForm(Q: int, q: int, h: int, s: int, err: int, eps: int, y: int, x: int)
    requires 2 * Q * y == 2 * q * x + eps && x == s * h + err
    ensures 2 * (Q * y) == 2 * (s * (q * h)) + 2 * (q * err) + eps
  {
    Arithmetic.Regroup(2, Q, y);
    Arithmetic.Regroup(2, q, x);
    Distribute(q, s * h, err);
    Arithmetic.Regroup(q, s, h);
  }

  lemma {:induction false} ScaledBounds(Q: int, q: int, h: int, err: int, ks: int, beta: nat, eks: nat)
    requires Q > 0 && q > 0 && Q < 8 * h <= Q + 8 && Abs(err) <= beta && Abs(ks) <= eks
    ensures Q * q <= 8 * (q * h) <= Q * q + 8 * q && Abs(q * err) <= q * beta && Abs(Q * ks) <= Q * eks
  {
    MulMono(8 * h, Q + 8, q);
    MulMono(Q, 8 * h, q);
    Arithmetic.Regroup(q, 8, h);
    Distribute(q, Q, 8);
    AbsMul(q, err);
    MulMono(Abs(err), beta, q);
    AbsMul(Q, ks);
    MulMono(Abs(ks), eks, Q);
  }

  lemma {:induction false} SideLinear(a: int, f: int, g: int, b: int, c: int, s: int, q: int, eps: int, fb: int, eb: int, kb: int, room: int)
    requires q > 0 && (s == 1 || s == -1) && 2 * g == 2 * (s * a) + 2 * f + eps && c <= 8 * a <= c + 8 * q
    requires Abs(f) <= fb && Abs(eps) <= eb && Abs(b) <= kb && 16 * q + 16 * fb + 8 * eb + 16 * kb <= 2 * room
    ensures s * c - room <= 8 * (g + b) <= s * c + room
  {
  }

  lemma {:induction false} DivideSide(Q: int, q: int, s: int, v: int, w: int, c: int)
    requires Q > 0 && (s == 1 || s == -1) && w == Q * v - 0 && c == Q * q && s * c - Q * (q - 8) <= 8 * w <= s * c + Q * (q - 8)
    ensures s * q - (q - 8) <= 8 * v <= s * q + (q - 8)
  {
    var lo, hi := s * q - (q - 8), s * q + (q - 8);
    assert Q * lo == s * c - Q * (q - 8) by { Distribute(Q, s * q, q - 8); Arithmetic.Regroup(Q, s, q); }
    assert Q * hi == s * c + Q * (q - 8) by { Distribute(Q, s * q, q - 8); Arithmetic.Regroup(Q, s, q); }
    assert 8 * w == Q * (8 * v) by { Arithmetic.Regroup(Q, 8, v); }
    Distribute(Q, hi, 1);
    Distribute(Q, lo, 1);
    if 8 * v > hi {
      MulMono(hi + 1, 8 * v, Q);
    } else if 8 * v < lo {
      MulMono(8 * v, lo - 1, Q);
    }
  }

  lemma {:induction false} DecodeSide(q: int, s: int, v: int, m: int, out: int)
    requires q > 8 && (if m == 1 then s == 1 else m == 0 && s == -1) && s * q - (q - 8) <= 8 * v <= s * q + (q - 8)
    requires Residue(out, q) == Residue(v, q)
    ensures DecodeShifted(q, 4, out) == m
  {
    var d := q / 4;
    ModAddCong(out, v, d, d, q);
    DivModUnique(v + d, q, 0, v + d);
    DivModUnique(4 * (v + d), q, m, 4 * (v + d) - q * m);
  }
}
