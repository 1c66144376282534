/** What modulus switching, key switching and modulus switching together do to an extracted phase. */
module SwitchChain {
  import opened Arithmetic
  import opened MkLwe

  /** From modulus Q through q1 to fm: the phase V + e0 becomes y with
      2·Q·q1·y = 2·q1·fm·(V + e0) + fm·eps1 - 2·Q·fm·ks + Q·eps2. */
  lemma {:induction false} ChainPhase(Q: int, q1: int, fm: int, v: int, X: int, eps1: int, t1: int, X1: int, ks: int, X2: int, eps2: int, t2: int, X3: int) returns (y: int)
    requires Q > 0 && q1 > 0 && fm > 0 && Residue(X, Q) == Residue(v, Q) && 2 * Q * X1 == 2 * q1 * X + eps1 + 2 * Q * q1 * t1
    requires Residue(X2, q1) == Residue(X1 - ks, q1) && 2 * q1 * X3 == 2 * fm * X2 + eps2 + 2 * q1 * fm * t2
    ensures Residue(X3, fm) == Residue(y, fm)
    ensures 2 * (Q * q1) * y == 2 * (q1 * fm) * v + fm * eps1 - 2 * (Q * fm) * ks + Q * eps2
  {
    var j := ModEqWitness(X, v, Q);
    var k := ModEqWitness(X2, X1 - ks, q1);
    var d := j + t1 + k + t2;
    y := X3 - fm * d;
    assert fm * -d == -(fm * d);
    ModShift(y, X3, fm, -d);
    FirstSwitch(Q, q1, fm, v, X, j, X1, eps1, t1);
    MiddleSwitch(Q, q1, fm, X1, ks, k, X2);
    LastSwitch(Q, q1, fm, X2, X3, eps2, t2);
    Turns(Q, q1, fm, X3, j, t1, k, t2, d, y);
  }

  lemma {:induction false} FirstSwitch(Q: int, q1: int, fm: int, v: int, X: int, j: int, X1: int, eps: int, t: int)
    requires X == v + Q * j && 2 * Q * X1 == 2 * q1 * X + eps + 2 * Q * q1 * t
    ensures 2 * (Q * fm) * X1 == 2 * (q1 * fm) * v + fm * eps + 2 * (Q * q1 * fm) * (j + t)
  {
    var w := Q * q1 * fm;
    assert fm * (2 * Q * X1) == 2 * (Q * fm) * X1;
    assert fm * (2 * q1 * X) == 2 * (q1 * fm) * v + 2 * w * j by {
      assert fm * (2 * q1 * X) == 2 * (q1 * fm) * X;
      Distribute(2 * (q1 * fm), v, Q * j);
      assert 2 * (q1 * fm) * (Q * j) == 2 * w * j;
    }
    assert fm * (2 * Q * q1 * t) == 2 * w * t;
    Distribute(fm, 2 * q1 * X, eps);
    Distribute(fm, 2 * q1 * X + eps, 2 * Q * q1 * t);
    Distribute(2 * w, j, t);
  }

  lemma {:induction false} MiddleSwitch(Q: int, q1: int, fm: int, X1: int, ks: int, k: int, X2: int)
    requires X2 == X1 - ks + q1 * k
    ensures 2 * (Q * fm) * X2 == 2 * (Q * fm) * X1 - 2 * (Q * fm) * ks + 2 * (Q * q1 * fm) * k
  {
    var w := 2 * (Q * fm);
    Distribute(w, X1 - ks, q1 * k);
    Distribute(w, X1, ks);
    assert w * (q1 * k) == 2 * (Q * q1 * fm) * k;
  }

  lemma {:induction false} LastSwitch(Q: int, q1: int, fm: int, X2: int, X3: int, eps: int, t: int)
    requires 2 * q1 * X3 == 2 * fm * X2 + eps + 2 * q1 * fm * t
    ensures 2 * (Q * q1) * X3 == 2 * (Q * fm) * X2 + Q * eps + 2 * (Q * q1 * fm) * t
  {
    assert Q * (2 * q1 * X3) == 2 * (Q * q1) * X3;
    assert Q * (2 * fm * X2) == 2 * (Q * fm) * X2;
    assert Q * (2 * q1 * fm * t) == 2 * (Q * q1 * fm) * t;
    Distribute(Q, 2 * fm * X2, eps);
    Distribute(Q, 2 * fm * X2 + eps, 2 * q1 * fm * t);
  }

  lemma {:induction false} Turns(Q: int, q1: int, fm: int, X3: int, j: int, t1: int, k: int, t2: int, d: int, y: int)
    requires d == j + t1 + k + t2 && y == X3 - fm * d
    ensures 2 * (Q * q1) * y == 2 * (Q * q1) * X3 - 2 * (Q * q1 * fm) * (j + t1) - 2 * (Q * q1 * fm) * k - 2 * (Q * q1 * fm) * t2
  {
    var w := 2 * (Q * q1 * fm);
    Distribute(2 * (Q * q1), X3, fm * d);
    assert 2 * (Q * q1) * (fm * d) == w * d;
    Distribute(w, j + t1 + k, t2);
    Distribute(w, j + t1, k);
  }

  /** Size of the noise terms, for accumulator noise beta, secrets of total size SN and S, and
      key-switching noise KS. */
  function ChainNoise(Q: nat, q1: nat, fm: nat, beta: nat, SN: nat, KS: nat, S: nat): nat {
    2 * Times(Times(q1, fm), beta) + Times(fm, Times(Q, 1 + SN)) + 2 * Times(Times(Q, fm), KS) + Times(Q, Times(q1, 1 + S))
  }

  lemma {:induction false} ChainBound(Q: nat, q1: nat, fm: nat, beta: nat, SN: nat, KS: nat, S: nat, e0: int, eps1: int, ks: int, eps2: int)
    requires Abs(e0) <= beta && Abs(eps1) <= Q * (1 + SN) && Abs(ks) <= KS && Abs(eps2) <= q1 * (1 + S)
    ensures Abs(2 * (q1 * fm) * e0 + fm * eps1 - 2 * (Q * fm) * ks + Q * eps2) <= ChainNoise(Q, q1, fm, beta, SN, KS, S)
  {
    var a, b := q1 * fm, Q * fm;
    ScaledTerm(a, e0, beta);
    ScaledTerm(fm, eps1, Q * (1 + SN));
    ScaledTerm(b, ks, KS);
    ScaledTerm(Q, eps2, q1 * (1 + S));
    Arithmetic.Regroup(2, a, e0);
    Arithmetic.Regroup(2, b, ks);
  }

  lemma {:induction false} ScaledTerm(w: int, x: int, bound: int)
    requires w >= 0 && Abs(x) <= bound
    ensures Abs(w * x) <= w * bound
  {
    AbsMul(w, x);
    MulMono(Abs(x), bound, w);
  }

  /** 2·Q·q1·err within 2·Q·q1·E means err within E. */
  lemma {:induction false} DivideOut(w: int, err: int, z: int, E: nat)
    requires w > 0 && 2 * w * err == z && Abs(z) <= 2 * w * E
    ensures Abs(err) <= E
  {
    AbsMul(2 * w, err);
    if Abs(err) > E {
      MulMono(E + 1, Abs(err), 2 * w);
      Distribute(2 * w, E, 1);
    }
  }
}
