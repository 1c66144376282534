/** Functional bootstrapping: the test polynomial of BootstrapFuncCore, and what a bootstrap does to
    the phase of an LWE ciphertext. */
module FunctionalBootstrap {
  import opened Arithmetic
  import opened NegacyclicRing
  import opened TestPolynomial

  /** An LWE ciphertext seen through its secret: b, the inner product t = <a, s>, and the modulus. */
  datatype Sample = Sample(b: int, t: int, q: int)

  /** The phase b - t is v modulo the ciphertext modulus. */
  ghost predicate PhaseIs(ct: Sample, v: int) {
    ct.q > 0 && Residue(ct.b - ct.t, ct.q) == Residue(v, ct.q)
  }

  //////// Arithmetic on ciphertexts ////////

  function AddConst(ct: Sample, c: int): Sample
    requires ct.q > 0
  {
    ct.(b := Residue(ct.b + c, ct.q))
  }

  function Minus(x: Sample, y: Sample): Sample
    requires x.q > 0
  {
    Sample(Residue(x.b - y.b, x.q), Residue(x.t - y.t, x.q), x.q)
  }

  function SetModulus(ct: Sample, q: int): Sample
    requires q > 0
  {
    Sample(Residue(ct.b, q), Residue(ct.t, q), q)
  }

  lemma {:induction false} AddConstPhase(ct: Sample, c: int, v: int)
    requires PhaseIs(ct, v)
    ensures PhaseIs(AddConst(ct, c), v + c)
  {
    var q := ct.q;
    ModOfMod(ct.b + c, q);
    ModAddCong((ct.b + c) % q, ct.b + c, ct.t, ct.t, q);
    ModAddCong(ct.b - ct.t, v, c, c, q);
  }

  lemma {:induction false} MinusPhase(x: Sample, y: Sample, v: int, u: int)
    requires PhaseIs(x, v) && PhaseIs(y, u) && x.q == y.q
    ensures PhaseIs(Minus(x, y), v - u)
  {
    var q := x.q;
    ModOfMod(x.b - y.b, q);
    ModOfMod(x.t - y.t, q);
    ModAddCong((x.b - y.b) % q, x.b - y.b, (x.t - y.t) % q, x.t - y.t, q);
    ModAddCong(x.b - x.t, v, y.b - y.t, u, q);
  }

  /** Reducing to a divisor of the modulus keeps the phase. */
  lemma {:induction false} SetModulusPhase(ct: Sample, q: int, r: int, v: int)
    requires PhaseIs(ct, v) && q > 0 && ct.q == q * r
    ensures PhaseIs(SetModulus(ct, q), v)
  {
    ModOfMod(ct.b, q);
    ModOfMod(ct.t, q);
    ModAddCong(ct.b % q, ct.b, ct.t % q, ct.t, q);
    var k := ModEqWitness(ct.b - ct.t, v, ct.q);
    Arithmetic.Regroup(q, r, k);
    ModShift(ct.b - ct.t, v, q, r * k);
  }

  /** Doubling the modulus leaves the phase known up to one multiple of q. */
  lemma {:induction false} RaisePhase(ct: Sample, v: int) returns (u: int)
    requires PhaseIs(ct, v)
    ensures PhaseIs(ct.(q := 2 * ct.q), v + ct.q * u)
  {
    u := ModEqWitness(ct.b - ct.t, v, ct.q);
  }

  //////// One bootstrap ////////

  /** f(x + q/2) = -f(x) modulo fmod. */
  ghost predicate Negacyclic(f: int -> int, q: int, fmod: int) {
    q > 0 && fmod > 0 && forall x :: 0 <= x < q / 2 ==> Residue(f(x) + f(x + q / 2), fmod) == 0
  }

  /** What the accumulator holds at X^0: f at the phase, or -f half a turn further, depending on
      which half of the circle t lies in. */
  function Looked(f: int -> int, ct: Sample): int
    requires ct.q > 0
  {
    var x := Residue(ct.b - ct.t, ct.q);
    if Residue(ct.t, ct.q) < ct.q / 2 then f(x) else -f(Residue(x + ct.q / 2, ct.q))
  }

  /** The refreshed ciphertext: a new inner product, and an error from the accumulator, the key
      switch and the rounding. */
  function Bootstrap(f: int -> int, ct: Sample, fmod: int, mask: int, err: int): Sample
    requires ct.q > 0 && fmod > 0
  {
    Sample(Residue(Looked(f, ct) + err + mask, fmod), Residue(mask, fmod), fmod)
  }

  /** For a negacyclic f the half in which t lies does not matter. */
  lemma {:induction false} LookedNegacyclic(f: int -> int, ct: Sample, fmod: int, x: int)
    requires PhaseIs(ct, x) && 0 <= x < ct.q && ct.q % 2 == 0 && Negacyclic(f, ct.q, fmod)
    ensures Residue(Looked(f, ct), fmod) == Residue(f(x), fmod)
  {
    var q, h := ct.q, ct.q / 2;
    assert q == 2 * h;
    SmallResidue(x, q);
    assert Residue(ct.b - ct.t, q) == x;
    hide Residue, PhaseIs, Negacyclic;
    if Residue(ct.t, q) >= h {
      var y := Residue(x + h, q);
      if x < h {
        SmallResidue(x + h, q);
      } else {
        OneTurn(x + h, q);
      }
      HalfTurnPair(f, q, fmod, x, y);
      NegatedValue(f(x), f(y), fmod);
    }
  }

  lemma {:induction false} HalfTurnPair(f: int -> int, q: int, fmod: int, x: int, y: int)
    requires Negacyclic(f, q, fmod) && 0 <= x < q && q == 2 * (q / 2) && y == if x < q / 2 then x + q / 2 else x - q / 2
    ensures Residue(f(x) + f(y), fmod) == 0
  {
    hide Residue;
    if x >= q / 2 {
      assert x == y + q / 2 && 0 <= y < q / 2;
    }
  }

  lemma {:induction false} SmallResidue(x: int, q: int)
    requires 0 <= x < q
    ensures Residue(x, q) == x
  {
    DivModUnique(x, q, 0, x);
  }

  lemma {:induction false} OneTurn(x: int, q: int)
    requires 0 < q <= x < 2 * q
    ensures Residue(x, q) == x - q
  {
    DivModUnique(x, q, 1, x - q);
  }

  lemma {:induction false} NegatedValue(u: int, v: int, m: int)
    requires m > 0 && Residue(u + v, m) == 0
    ensures Residue(-v, m) == Residue(u, m)
  {
    DivModUnique(0, m, 0, 0);
    ModAddCong(u + v, 0, v, v, m);
  }

  lemma {:induction false} BootstrapPhase(f: int -> int, ct: Sample, fmod: int, mask: int, err: int, x: int)
    requires PhaseIs(ct, x) && 0 <= x < ct.q && ct.q % 2 == 0 && Negacyclic(f, ct.q, fmod)
    ensures PhaseIs(Bootstrap(f, ct, fmod, mask, err), f(x) + err)
  {
    LookedNegacyclic(f, ct, fmod, x);
    var v := Looked(f, ct);
    hide Looked;
    ModOfMod(v + err + mask, fmod);
    ModOfMod(mask, fmod);
    ModAddCong((v + err + mask) % fmod, v + err + mask, mask % fmod, mask, fmod);
    ModAddCong(v, f(x), err, err, fmod);
  }

  /** A phase determines its residue. */
  lemma {:induction false} PhaseShift(ct: Sample, v: int, w: int, k: int)
    requires PhaseIs(ct, v) && v == w + ct.q * k
    ensures PhaseIs(ct, w)
  {
    ModShift(v, w, ct.q, k);
  }

  //////// Where the looked-up value comes from ////////

  /** K·f(b - j) at X^(j·factor) for j < q/2, zero elsewhere. */
  ghost predicate IsFuncPolynomial(m: Poly, K: int, f: int -> int, b: int, q: int, factor: int) {
    q > 0 && q % 2 == 0 && factor > 0 && 2 * |m| == q * factor &&
    forall j :: 0 <= j < q / 2 ==> 0 <= j * factor < |m| && m[j * factor] == K * f(Residue(b - j, q))
  }

  method FuncPolynomial(N: nat, Q: int, ctMod: int, fmod: int, b: int, f: int -> int) returns (m: Poly)
    requires N > 0 && Q > 0 && fmod > 0 && ctMod > 0 && ctMod % 2 == 0 && (2 * N) % ctMod == 0
    ensures |m| == N && IsFuncPolynomial(m, Q / fmod, f, b, ctMod, 2 * N / ctMod)
  {
    var factor := 2 * N / ctMod;
    DivMod(2 * N, ctMod);
    assert factor > 0 by { if factor <= 0 { MulMono(factor, 0, ctMod); } }
    m := Zero(N);
    assert m == seq(N, _ => 0);
    for j := 0 to ctMod / 2
      invariant |m| == N
      invariant forall i :: 0 <= i < j ==> 0 <= i * factor < N && m[i * factor] == (Q / fmod) * f(Residue(b - i, ctMod))
    {
      SlotRange(N, ctMod, factor, j);
      forall i | 0 <= i < j ensures i * factor < j * factor { MulMono(i + 1, j, factor); Distribute(factor, i, 1); }
      var temp := Residue(b - j, ctMod);
      m := m[j * factor := Q / fmod * f(temp)];
    }
    assert factor == 2 * N / ctMod && 2 * |m| == ctMod * factor;
    forall j | 0 <= j < ctMod / 2 ensures 0 <= j * factor < |m| { SlotRange(N, ctMod, factor, j); }
  }

  lemma {:induction false} SlotRange(N: int, q: int, factor: int, j: int)
    requires factor > 0 && q % 2 == 0 && 2 * N == q * factor && 0 <= j < q / 2
    ensures 0 <= j * factor < N
  {
    var h := q / 2;
    Arithmetic.Regroup(2, h, factor);
    MulNonNeg(j, factor);
    MulMono(j + 1, h, factor);
    Distribute(factor, j, 1);
  }

  /** The constant coefficient of X^(-(2N/q)·t)·m is K times the looked-up value. */
  lemma {:induction false} RotatedFunction(m: Poly, K: int, f: int -> int, ct: Sample, factor: int)
    requires IsFuncPolynomial(m, K, f, ct.b, ct.q, factor) && |m| > 0
    ensures Mono(-(factor * ct.t), m)[0] == K * Looked(f, ct)
  {
    hide Mono, Residue;
    var q, n, j := ct.q, |m|, Residue(ct.t, ct.q);
    var e := if j == 0 then 0 else 2 * n - j * factor;
    var h := q / 2;
    assert 2 * h == q;
    Arithmetic.Regroup(2, h, factor);
    TurnResidue(q, factor, ct.t, 2 * n, e);
    MonoMod(-(factor * ct.t), e, m);
    assert 0 <= e < 2 * n by { MulNonNeg(j, factor); MulMono(1, factor, j); MulMono(j, q - 1, factor); Distribute(factor, q, 1); }
    MonoCoefficient(e, m, 0);
    LookedAt(ct);
    if j < h {
      assert 0 <= j * factor < n;
    } else {
      Distribute(factor, j, h);
      assert 0 <= (j - h) * factor < n;
    }
    assert K * -f(Residue(ct.b - (j - h), q)) == -(K * f(Residue(ct.b - (j - h), q)));
  }

  /** -(2N/q)·t modulo 2N. */
  lemma {:induction false} TurnResidue(q: int, factor: int, t: int, M: int, e: int)
    requires q > 0 && factor > 0 && M == q * factor > 0 && e == if Residue(t, q) == 0 then 0 else M - Residue(t, q) * factor
    ensures (-(factor * t)) % M == e % M
  {
    var j, d := Residue(t, q), t / q;
    DivMod(t, q);
    assert factor * t == j * factor + M * d by { Distribute(factor, j, q * d); Arithmetic.Regroup(factor, q, d); }
    var c := if j == 0 then -d else -d - 1;
    assert -(factor * t) == e + M * c by { Distribute(M, -d, 1); assert M * -d == -(M * d); }
    ModShift(-(factor * t), e, M, c);
  }

  /** The two indices at which f is read. */
  lemma {:induction false} LookedAt(ct: Sample)
    requires ct.q > 0
    ensures var j := Residue(ct.t, ct.q);
            Residue(ct.b - j, ct.q) == Residue(ct.b - ct.t, ct.q) &&
            Residue(ct.b - (j - ct.q / 2), ct.q) == Residue(Residue(ct.b - ct.t, ct.q) + ct.q / 2, ct.q)
  {
    var q := ct.q;
    var h := q / 2;
    ModOfMod(ct.t, q);
    ModAddCong(ct.b, ct.b, ct.t % q, ct.t, q);
    ModOfMod(ct.b - ct.t, q);
    ModAddCong(ct.b - ct.t % q, (ct.b - ct.t) % q, h, h, q);
  }

  /** With f(x) + f(x + q/2) = c·fmod, both halves agree modulo Q up to c·(Q mod fmod), the
      error of scaling by floor(Q/fmod). */
  lemma {:induction false} ScaledNegacyclic(Q: int, fmod: int, u: int, v: int, c: int)
    requires Q > 0 && fmod > 0 && u + v == c * fmod
    ensures Residue((Q / fmod) * -v, Q) == Residue((Q / fmod) * u + c * (Q % fmod), Q)
  {
    var K := Q / fmod;
    DivMod(Q, fmod);
    assert K * -v == K * u - K * (c * fmod) by { Distribute(K, u, c * fmod); }
    assert K * (c * fmod) == c * Q - c * (Q % fmod) by { Arithmetic.Regroup(K, c, fmod); Distribute(c, Q, Q % fmod); assert K * fmod == fmod * K; }
    ModShift(K * -v, K * u + c * (Q % fmod), Q, -c);
  }
}
