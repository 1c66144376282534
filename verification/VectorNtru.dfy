/** Vector-NTRU ciphertexts: c has phase f·c for the secret f; products with gadget vectors. */
module VectorNtru {
  import opened NegacyclicRing
  import opened RingModulus
  import opened Arithmetic
  import opened Gadget
  import opened RingVectors
  import opened KeyAlgebra
  import opened MultiKeyRun
  import opened MultiKeyEval
  import opened SignedPermutation
  import opened RingGsw

  /** f·v_i = e_i + w·B^(i+1) modulo Q, with e_i of size at most sigma. */
  ghost predicate NtruKey(p: Params, f: Poly, v: Vec, w: Poly, sigma: nat) {
    p.Valid() && |f| == |w| == p.N && |v| == p.Kept() && Sized(v, p.N) &&
    exists e: Vec :: |e| == p.Kept() && Sized(e, p.N) && SmallVec(e, sigma) && KeyRows(p, f, v, w, e)
  }

  ghost predicate KeyRows(p: Params, f: Poly, v: Vec, w: Poly, e: Vec)
    requires p.Valid() && |f| == |w| == p.N && |v| == |e| == p.Kept() && Sized(v, p.N) && Sized(e, p.N)
  {
    forall i :: 0 <= i < p.Kept() ==> Cong(p.Q, Mul(f, v[i]), Add(e[i], Mul(w, GadgetVec(p)[i])))
  }

  function Multiplied(f: Poly, v: Vec): (r: Vec)
    requires Sized(v, |f|)
    ensures |r| == |v| && Sized(r, |f|)
  {
    seq(|v|, i requires 0 <= i < |v| => Mul(f, v[i]))
  }

  lemma {:induction false} DotMultiplied(f: Poly, x: Vec, v: Vec, i: nat)
    requires |f| > 0 && Sized(x, |f|) && Sized(v, |f|) && |x| == |v| && i <= |x|
    ensures Dot(|f|, x, Multiplied(f, v), i) == Mul(f, Dot(|f|, x, v, i))
  {
    hide Mul, Add;
    if i == 0 {
      MulZero(f);
    } else {
      DotMultiplied(f, x, v, i - 1);
      CommuteProduct(x[i - 1], f, v[i - 1]);
      MulAdd(f, Dot(|f|, x, v, i - 1), Mul(x[i - 1], v[i - 1]));
    }
  }

  lemma {:induction false} CommuteProduct(x: Poly, f: Poly, v: Poly)
    requires |x| == |f| == |v| > 0
    ensures Mul(x, Mul(f, v)) == Mul(f, Mul(x, v))
  {
    EvalCommute(x, 1, f, 1, v);
  }

  /** The rows f·v as a gadget encryption under the secret 0. */
  lemma {:induction false} AsGadget(p: Params, f: Poly, v: Vec, w: Poly, e: Vec, zeros: Vec)
    requires p.Valid() && |f| == |w| == p.N && |v| == |e| == p.Kept() && Sized(v, p.N) && Sized(e, p.N) && KeyRows(p, f, v, w, e)
    requires |zeros| == p.Kept() && Sized(zeros, p.N) && forall i :: 0 <= i < p.Kept() ==> zeros[i] == Zero(p.N)
    ensures GadgetEncrypts(p, Zero(p.N), Rows(zeros, Multiplied(f, v)), w, e)
  {
    hide Mul, Add, Cong, GadgetVec;
    MulZero(Zero(p.N));
    forall i | 0 <= i < p.Kept()
      ensures Cong(p.Q, Multiplied(f, v)[i], Add(Mul(Zero(p.N), zeros[i]), Add(e[i], Mul(w, GadgetVec(p)[i]))))
    {
      AddZero(Add(e[i], Mul(w, GadgetVec(p)[i])));
    }
  }

  /** sum_i digit_i(c)·v_i. */
  function Switched(p: Params, v: Vec, c: Poly): (r: Poly)
    requires p.Valid() && |v| == p.Kept() && Sized(v, p.N) && |c| == p.N
    ensures Canonical(p, r)
  {
    Reduce(p.Q, Dot(p.N, Digits(p, c), v, p.Kept()))
  }

  /** The product has phase w·c up to noise. */
  lemma {:induction false} SwitchedNear(p: Params, f: Poly, v: Vec, w: Poly, c: Poly, sigma: nat, tau: nat)
    requires NtruKey(p, f, v, w, sigma) && |c| == p.N && Bounded(Mul(w, Dropped(p, c)), tau)
    ensures Near(p.Q, Mul(f, Switched(p, v, c)), Mul(w, c), DigitNoise(p, sigma) + tau)
  {
    hide Mul, Add, Cong, Dot, Digits, Dropped, Bounded, KeyRows, Reduce, Near, DigitNoise, SmallVec;
    var e: Vec :| |e| == p.Kept() && Sized(e, p.N) && SmallVec(e, sigma) && KeyRows(p, f, v, w, e);
    var b := Dot(p.N, Digits(p, c), v, p.Kept());
    RowsNear(p, f, v, w, e, c, sigma, tau);
    ReduceCong(p.Q, b);
    CongMulRight(p.Q, f, Reduce(p.Q, b), b);
    NearCongLeft(p.Q, Mul(f, Switched(p, v, c)), Mul(f, b), Mul(w, c), DigitNoise(p, sigma) + tau);
  }

  lemma {:induction false} RowsNear(p: Params, f: Poly, v: Vec, w: Poly, e: Vec, c: Poly, sigma: nat, tau: nat)
    requires p.Valid() && |f| == |w| == |c| == p.N && |v| == |e| == p.Kept() && Sized(v, p.N) && Sized(e, p.N)
    requires KeyRows(p, f, v, w, e) && SmallVec(e, sigma) && Bounded(Mul(w, Dropped(p, c)), tau)
    ensures Near(p.Q, Mul(f, Dot(p.N, Digits(p, c), v, p.Kept())), Mul(w, c), DigitNoise(p, sigma) + tau)
  {
    hide Mul, Dot, Digits, Dropped, Bounded, KeyRows, Near, GadgetEncrypts, DigitNoise, Zero, Multiplied, SmallVec, RingGsw.Phase;
    var n, z := p.N, Zero(p.N);
    var zeros := seq(p.Kept(), _ => z);
    AsGadget(p, f, v, w, e, zeros);
    GadgetProductNear(p, z, Rows(zeros, Multiplied(f, v)), w, e, c, sigma, tau);
    DotMultiplied(f, Digits(p, c), v, p.Kept());
    PhaseUnderZero(Dot(n, Digits(p, c), zeros, p.Kept()), Mul(f, Dot(n, Digits(p, c), v, p.Kept())));
  }

  lemma {:induction false} PhaseUnderZero(a: Poly, b: Poly)
    requires |a| == |b|
    ensures RingGsw.Phase(Zero(|a|), a, b) == b
  {
    MulZero(a);
  }

  /** Noise of one product, for secrets of size at most zeta >= 1. */
  function StepNoise(p: Params, zeta: nat, sigma: nat): nat
    requires p.Valid()
  {
    DigitNoise(p, sigma) + Times(p.N, Times(zeta, DropBound(p)))
  }

  /** Dropped digits against a multiplier of size at most zeta. */
  lemma {:induction false} DroppedTimes(p: Params, w: Poly, c: Poly, zeta: nat)
    requires p.Valid() && |w| == p.N && Canonical(p, c) && Bounded(w, zeta)
    ensures Bounded(Mul(w, Dropped(p, c)), Times(p.N, Times(zeta, DropBound(p))))
  {
    hide Bounded, Mul, Dropped, DropBound;
    DroppedBounded(p, c);
    BoundedMul(w, Dropped(p, c), zeta, DropBound(p));
  }

  lemma {:induction false} BoundedOne(n: nat, zeta: nat)
    requires zeta >= 1
    ensures Bounded(One(n), zeta)
  {
  }

  /** A first-step key encrypts X^m/f: it turns c itself into phase X^m·c. */
  lemma {:induction false} FirstNear(p: Params, f: Poly, v: Vec, m: int, c: Poly, zeta: nat, sigma: nat)
    requires p.Valid() && NtruKey(p, f, v, Mono(m, One(p.N)), sigma) && Canonical(p, c) && zeta >= 1
    ensures |v| == p.Kept() && Sized(v, p.N) && |f| == p.N
    ensures Near(p.Q, Mul(f, Switched(p, v, c)), Mono(m, c), StepNoise(p, zeta, sigma))
  {
    hide Near, Mul, Mono, Bounded, Dropped, One, DigitNoise, DropBound, Times, KeyRows;
    BoundedOne(p.N, zeta);
    BoundedMono(m, One(p.N), zeta);
    DroppedTimes(p, Mono(m, One(p.N)), c, zeta);
    SwitchedNear(p, f, v, Mono(m, One(p.N)), c, sigma, Times(p.N, Times(zeta, DropBound(p))));
    MonoMul(m, One(p.N), c);
    MulOne(c);
  }

  /** A later key encrypts X^m: it multiplies the phase by X^m. */
  lemma {:induction false} LaterNear(p: Params, f: Poly, v: Vec, m: int, c: Poly, zeta: nat, sigma: nat)
    requires p.Valid() && |f| == p.N && NtruKey(p, f, v, Mono(m, f), sigma) && Canonical(p, c) && Bounded(f, zeta)
    ensures |v| == p.Kept() && Sized(v, p.N)
    ensures Near(p.Q, Mul(f, Switched(p, v, c)), Mono(m, Mul(f, c)), StepNoise(p, zeta, sigma))
  {
    hide Near, Mul, Mono, Bounded, Dropped, DigitNoise, DropBound, Times, KeyRows;
    BoundedMono(m, f, zeta);
    DroppedTimes(p, Mono(m, f), c, zeta);
    SwitchedNear(p, f, v, Mono(m, f), c, sigma, Times(p.N, Times(zeta, DropBound(p))));
    MonoMul(m, f, c);
  }

  /** An automorphism followed by the switch from f(X^k) to f. */
  lemma {:induction false} AutoNear(p: Params, f: Poly, v: Vec, k: nat, c: Poly, b: nat, zeta: nat, sigma: nat)
    requires p.Valid() && |f| == p.N == Pow(2, b) && k % 2 == 1 && NtruKey(p, f, v, Auto(k, f), sigma) && |c| == p.N && Bounded(f, zeta)
    ensures |v| == p.Kept() && Sized(v, p.N)
    ensures Near(p.Q, Mul(f, Switched(p, v, Reduce(p.Q, Auto(k, c)))), Auto(k, Mul(f, c)), StepNoise(p, zeta, sigma))
  {
    hide Near, Mul, Auto, Bounded, Dropped, DigitNoise, DropBound, Times, KeyRows, Reduce, Cong;
    var x := Reduce(p.Q, Auto(k, c));
    BoundedAuto(b, k, f, zeta);
    DroppedTimes(p, Auto(k, f), x, zeta);
    SwitchedNear(p, f, v, Auto(k, f), x, sigma, Times(p.N, Times(zeta, DropBound(p))));
    ReduceCong(p.Q, Auto(k, c));
    CongMulRight(p.Q, Auto(k, f), x, Auto(k, c));
    AutoMul(k, f, c);
    NearCong(p.Q, Mul(f, Switched(p, v, x)), Mul(Auto(k, f), x), Auto(k, Mul(f, c)), StepNoise(p, zeta, sigma));
  }
}
