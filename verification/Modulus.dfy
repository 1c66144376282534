/** Ring elements modulo Q, and the size of ring elements. */
module RingModulus {
  import opened NegacyclicRing
  import Arithmetic

  /** a = b in Z_Q[X]/(X^N+1). */
  ghost predicate Cong(Q: int, a: Poly, b: Poly) {
    |a| == |b| && exists t: Poly :: |t| == |a| && a == Add(b, Scale(Q, t))
  }

  /** The representative with coefficients in [0, Q), as the library stores it. */
  function Reduce(Q: int, a: Poly): (r: Poly)
    requires Q > 0
    ensures |r| == |a| && forall i :: 0 <= i < |r| ==> 0 <= r[i] < Q
  {
    seq(|a|, i requires 0 <= i < |a| => a[i] % Q)
  }

  lemma {:induction false} ReduceCong(Q: int, a: Poly)
    requires Q > 0
    ensures Cong(Q, Reduce(Q, a), a) && Cong(Q, a, Reduce(Q, a))
  {
    var r := Reduce(Q, a);
    var t := seq(|a|, i requires 0 <= i < |a| => a[i] / Q);
    forall i | 0 <= i < |a| ensures a[i] == r[i] + Q * t[i] {
      Arithmetic.DivMod(a[i], Q);
    }
    CongByCoefficients(Q, a, r, t);
    CongSym(Q, a, r);
  }

  lemma {:induction false} CongByCoefficients(Q: int, a: Poly, b: Poly, t: Poly)
    requires |a| == |b| == |t|
    requires forall i :: 0 <= i < |a| ==> a[i] == b[i] + Q * t[i]
    ensures Cong(Q, a, b)
  {
    assert a == Add(b, Scale(Q, t));
  }

  lemma {:induction false} CongRefl(Q: int, a: Poly)
    ensures Cong(Q, a, a)
  {
    assert a == Add(a, Scale(Q, Zero(|a|)));
  }

  lemma {:induction false} CongSym(Q: int, a: Poly, b: Poly)
    requires Cong(Q, a, b)
    ensures Cong(Q, b, a)
  {
    var t: Poly :| |t| == |a| && a == Add(b, Scale(Q, t));
    ScaleScale(Q, -1, t);
    ScaleScale(-1, Q, t);
    assert b == Add(a, Scale(-1, Scale(Q, t)));
    assert b == Add(a, Scale(Q, Scale(-1, t)));
  }

  lemma {:induction false} CongTrans(Q: int, a: Poly, b: Poly, c: Poly)
    requires Cong(Q, a, b) && Cong(Q, b, c)
    ensures Cong(Q, a, c)
  {
    var t: Poly :| |t| == |a| && a == Add(b, Scale(Q, t));
    var u: Poly :| |u| == |b| && b == Add(c, Scale(Q, u));
    ScaleAdd(Q, u, t);
    AddAssoc(c, Scale(Q, u), Scale(Q, t));
    assert a == Add(c, Scale(Q, Add(u, t)));
  }

  lemma {:induction false} CongAdd(Q: int, a: Poly, a': Poly, b: Poly, b': Poly)
    requires Cong(Q, a, a') && Cong(Q, b, b') && |a| == |b|
    ensures Cong(Q, Add(a, b), Add(a', b'))
  {
    var t: Poly :| |t| == |a| && a == Add(a', Scale(Q, t));
    var u: Poly :| |u| == |b| && b == Add(b', Scale(Q, u));
    hide Add, Scale;
    ScaleAdd(Q, t, u);
    AddPairs(a', Scale(Q, t), b', Scale(Q, u));
    assert Add(a, b) == Add(Add(a', b'), Scale(Q, Add(t, u)));
  }

  lemma {:induction false} CongScale(Q: int, k: int, a: Poly, b: Poly)
    requires Cong(Q, a, b)
    ensures Cong(Q, Scale(k, a), Scale(k, b))
  {
    var t: Poly :| |t| == |a| && a == Add(b, Scale(Q, t));
    ScaleAdd(k, b, Scale(Q, t));
    ScaleScale(k, Q, t);
    ScaleScale(Q, k, t);
    assert k * Q == Q * k;
    assert Scale(k, a) == Add(Scale(k, b), Scale(Q, Scale(k, t)));
  }

  lemma {:induction false} CongSub(Q: int, a: Poly, a': Poly, b: Poly, b': Poly)
    requires Cong(Q, a, a') && Cong(Q, b, b') && |a| == |b|
    ensures Cong(Q, Sub(a, b), Sub(a', b'))
  {
    CongScale(Q, -1, b, b');
    CongAdd(Q, a, a', Scale(-1, b), Scale(-1, b'));
    SubIsAdd(a, b);
    SubIsAdd(a', b');
  }

  lemma {:induction false} CongMulRight(Q: int, a: Poly, b: Poly, b': Poly)
    requires Cong(Q, b, b') && |a| == |b|
    ensures Cong(Q, Mul(a, b), Mul(a, b'))
  {
    var t: Poly :| |t| == |b| && b == Add(b', Scale(Q, t));
    MulAdd(a, b', Scale(Q, t));
    MulScale(Q, a, t);
    assert Mul(a, b) == Add(Mul(a, b'), Scale(Q, Mul(a, t)));
  }

  lemma {:induction false} CongMul(Q: int, a: Poly, a': Poly, b: Poly, b': Poly)
    requires Cong(Q, a, a') && Cong(Q, b, b') && |a| == |b| > 0
    ensures Cong(Q, Mul(a, b), Mul(a', b'))
  {
    CongMulRight(Q, a, b, b');
    CongMulRight(Q, b', a, a');
    MulComm(a, b');
    MulComm(a', b');
    CongTrans(Q, Mul(a, b), Mul(a, b'), Mul(a', b'));
  }

  lemma {:induction false} CongMono(Q: int, e: int, a: Poly, b: Poly)
    requires Cong(Q, a, b) && |a| > 0
    ensures Cong(Q, Mono(e, a), Mono(e, b))
  {
    var t: Poly :| |t| == |a| && a == Add(b, Scale(Q, t));
    MonoAdd(e, b, Scale(Q, t));
    MonoScale(e, Q, t);
    assert Mono(e, a) == Add(Mono(e, b), Scale(Q, Mono(e, t)));
  }

  lemma {:induction false} CongCoefficient(Q: int, a: Poly, b: Poly, i: nat)
    requires Q > 0 && Cong(Q, a, b) && i < |a|
    ensures a[i] % Q == b[i] % Q
  {
    var t: Poly :| |t| == |a| && a == Add(b, Scale(Q, t));
    assert a[i] == b[i] + Q * t[i];
    Arithmetic.ModShift(a[i], b[i], Q, t[i]);
  }

  //////// Size ////////

  /** Every coefficient is at most beta in absolute value. */
  predicate Bounded(a: Poly, beta: int) {
    forall i :: 0 <= i < |a| ==> -beta <= a[i] <= beta
  }

  lemma {:induction false} BoundedAdd(a: Poly, b: Poly, alpha: int, beta: int)
    requires |a| == |b| && Bounded(a, alpha) && Bounded(b, beta)
    ensures Bounded(Add(a, b), alpha + beta) && Bounded(Sub(a, b), alpha + beta)
  {
  }

  lemma {:induction false} BoundedMore(a: Poly, alpha: int, beta: int)
    requires Bounded(a, alpha) && alpha <= beta
    ensures Bounded(a, beta)
  {
  }

  lemma {:induction false} BoundedShifts(e: nat, a: Poly, beta: int)
    requires Bounded(a, beta)
    ensures Bounded(Shifts(e, a), beta)
  {
    if e != 0 {
      BoundedShifts(e - 1, a, beta);
    }
  }

  /** Multiplying by a monomial moves coefficients and flips signs, nothing more. */
  lemma {:induction false} BoundedMono(e: int, a: Poly, beta: int)
    requires |a| > 0 && Bounded(a, beta)
    ensures Bounded(Mono(e, a), beta)
  {
    BoundedShifts(e % (2 * |a|), a, beta);
  }

  lemma {:induction false} BoundedScale(k: int, a: Poly, kappa: int, beta: int)
    requires -kappa <= k <= kappa && Bounded(a, beta)
    ensures Bounded(Scale(k, a), kappa * beta)
  {
    forall i | 0 <= i < |a| ensures -(kappa * beta) <= k * a[i] <= kappa * beta {
      ProductBound(k, a[i], kappa, beta);
    }
  }

  lemma {:induction false} ProductBound(x: int, y: int, alpha: int, beta: int)
    requires -alpha <= x <= alpha && -beta <= y <= beta
    ensures -(alpha * beta) <= x * y <= alpha * beta
  {
    var x', y' := if x < 0 then -x else x, if y < 0 then -y else y;
    Arithmetic.MulMono(x', alpha, y');
    Arithmetic.MulMono(y', beta, alpha);
    assert x * y == x' * y' || x * y == -(x' * y');
  }

  lemma {:induction false} BoundedEval(p: seq<int>, k: nat, b: Poly, alpha: nat, beta: nat)
    requires Bounded(p, alpha) && Bounded(b, beta)
    ensures Bounded(Eval(p, k, b), Arithmetic.Times(|p|, Arithmetic.Times(alpha, beta)))
    decreases |p|
  {
    var c := alpha * beta;
    if p != [] {
      BoundedEval(p[1..], k, b, alpha, beta);
      BoundedScale(p[0], b, alpha, beta);
      BoundedShifts(k, Eval(p[1..], k, b), (|p| - 1) * c);
      BoundedAdd(Scale(p[0], b), Shifts(k, Eval(p[1..], k, b)), c, (|p| - 1) * c);
      assert c + (|p| - 1) * c == |p| * c;
    }
  }

  lemma {:induction false} BoundedMul(a: Poly, b: Poly, alpha: nat, beta: nat)
    requires |a| == |b| && Bounded(a, alpha) && Bounded(b, beta)
    ensures Bounded(Mul(a, b), Arithmetic.Times(|a|, Arithmetic.Times(alpha, beta)))
  {
    BoundedEval(a, 1, b, alpha, beta);
  }
}
