/** Inner products of vectors of ring elements, and the gadget vector. */
module RingVectors {
  import opened NegacyclicRing
  import opened RingModulus
  import opened Arithmetic
  import opened Gadget

  type Vec = seq<Poly>

  predicate Sized(xs: Vec, n: nat) {
    forall i :: 0 <= i < |xs| ==> |xs[i]| == n
  }

  /** xs[0]·ys[0] + ... + xs[i-1]·ys[i-1]. */
  function Dot(n: nat, xs: Vec, ys: Vec, i: nat): (r: Poly)
    requires i <= |xs| && i <= |ys| && Sized(xs, n) && Sized(ys, n)
    ensures |r| == n
  {
    if i == 0 then Zero(n) else Add(Dot(n, xs, ys, i - 1), Mul(xs[i - 1], ys[i - 1]))
  }

  lemma {:induction false} DotCong(Q: int, n: nat, xs: Vec, xs': Vec, ys: Vec, ys': Vec, i: nat)
    requires n > 0 && Sized(xs, n) && Sized(ys, n) && Sized(xs', n) && Sized(ys', n)
    requires i <= |xs| && i <= |ys| && i <= |xs'| && i <= |ys'|
    requires forall j :: 0 <= j < i ==> Cong(Q, xs[j], xs'[j]) && Cong(Q, ys[j], ys'[j])
    ensures Cong(Q, Dot(n, xs, ys, i), Dot(n, xs', ys', i))
  {
    hide Cong, Mul, Add;
    if i == 0 {
      CongRefl(Q, Zero(n));
    } else {
      DotCong(Q, n, xs, xs', ys, ys', i - 1);
      CongMul(Q, xs[i - 1], xs'[i - 1], ys[i - 1], ys'[i - 1]);
      CongAdd(Q, Dot(n, xs, ys, i - 1), Dot(n, xs', ys', i - 1),
              Mul(xs[i - 1], ys[i - 1]), Mul(xs'[i - 1], ys'[i - 1]));
    }
  }

  /** An inner product against a vector r·a + b + m·g. */
  lemma {:induction false} DotCombination(n: nat, xs: Vec, ys: Vec, r: Poly, a: Vec, b: Vec, m: Poly, g: Vec, i: nat)
    requires n > 0 && |r| == |m| == n
    requires Sized(xs, n) && Sized(ys, n) && Sized(a, n) && Sized(b, n) && Sized(g, n)
    requires i <= |xs| && i <= |ys| && i <= |a| && i <= |b| && i <= |g|
    requires forall j :: 0 <= j < i ==> ys[j] == Add(Mul(r, a[j]), Add(b[j], Mul(m, g[j])))
    ensures Dot(n, xs, ys, i) == Add(Mul(r, Dot(n, xs, a, i)), Add(Dot(n, xs, b, i), Mul(m, Dot(n, xs, g, i))))
  {
    hide Mul, Add;
    if i == 0 {
      MulZero(r);
      MulZero(m);
      AddZero(Zero(n));
    } else {
      var j := i - 1;
      DotCombination(n, xs, ys, r, a, b, m, g, j);
      TermCombination(xs[j], r, a[j], b[j], m, g[j]);
      MulAdd(r, Dot(n, xs, a, j), Mul(xs[j], a[j]));
      MulAdd(m, Dot(n, xs, g, j), Mul(xs[j], g[j]));
      RegroupSums(Mul(r, Dot(n, xs, a, j)), Dot(n, xs, b, j), Mul(m, Dot(n, xs, g, j)),
                  Mul(r, Mul(xs[j], a[j])), Mul(xs[j], b[j]), Mul(m, Mul(xs[j], g[j])));
    }
  }

  lemma {:induction false} TermCombination(x: Poly, r: Poly, a: Poly, b: Poly, m: Poly, g: Poly)
    requires |x| == |r| == |a| == |b| == |m| == |g| > 0
    ensures Mul(x, Add(Mul(r, a), Add(b, Mul(m, g))))
         == Add(Mul(r, Mul(x, a)), Add(Mul(x, b), Mul(m, Mul(x, g))))
  {
    MulAdd(x, Mul(r, a), Add(b, Mul(m, g)));
    MulAdd(x, b, Mul(m, g));
    EvalCommute(x, 1, r, 1, a);
    EvalCommute(x, 1, m, 1, g);
  }

  lemma {:induction false} RegroupSums(a: Poly, b: Poly, c: Poly, a': Poly, b': Poly, c': Poly)
    requires |a| == |b| == |c| == |a'| == |b'| == |c'|
    ensures Add(Add(a, Add(b, c)), Add(a', Add(b', c'))) == Add(Add(a, a'), Add(Add(b, b'), Add(c, c')))
  {
  }

  lemma {:induction false} BoundedZero(n: nat, b: nat)
    ensures Bounded(Zero(n), b)
  {
  }

  lemma {:induction false} BoundedDot(n: nat, xs: Vec, ys: Vec, i: nat, alpha: nat, beta: nat)
    requires i <= |xs| && i <= |ys| && Sized(xs, n) && Sized(ys, n)
    requires forall j :: 0 <= j < i ==> Bounded(xs[j], alpha) && Bounded(ys[j], beta)
    ensures Bounded(Dot(n, xs, ys, i), Times(i, Times(n, Times(alpha, beta))))
  {
    hide Bounded;
    var c := Times(n, Times(alpha, beta));
    if i == 0 {
      assert Dot(n, xs, ys, 0) == Zero(n);
      BoundedZero(n, 0);
    } else {
      BoundedDot(n, xs, ys, i - 1, alpha, beta);
      BoundedMul(xs[i - 1], ys[i - 1], alpha, beta);
      BoundedAdd(Dot(n, xs, ys, i - 1), Mul(xs[i - 1], ys[i - 1]), (i - 1) * c, c);
      assert (i - 1) * c + c == i * c;
    }
  }

  //////// Digit vectors ////////

  /** The kept digits of every coefficient, as stored. */
  function Digits(p: Params, c: Poly): (xs: Vec)
    requires p.Valid() && |c| == p.N
    ensures |xs| == p.Kept() && Sized(xs, p.N)
  {
    seq(p.Kept(), i requires 0 <= i < p.Kept() => seq(p.N, k requires 0 <= k < p.N => Stored(p, c[k], i)))
  }

  /** The same digits as signed integers. */
  function Centred(p: Params, c: Poly): (xs: Vec)
    requires p.Valid() && |c| == p.N
    ensures |xs| == p.Kept() && Sized(xs, p.N)
  {
    seq(p.Kept(), i requires 0 <= i < p.Kept() =>
      seq(p.N, k requires 0 <= k < p.N => Digit(p.B, Centre(p.Q, c[k]), i + 1)))
  }

  /** What the decomposition leaves out: the lowest digit and the carry, whose weight B^D counts
      as B^D - Q modulo Q. */
  function Dropped(p: Params, c: Poly): (r: Poly)
    requires p.Valid() && |c| == p.N
    ensures |r| == p.N
  {
    seq(p.N, k requires 0 <= k < p.N =>
      Digit(p.B, Centre(p.Q, c[k]), 0) + (Pow(p.B, p.digits) - p.Q) * Carry(p, c[k]))
  }

  function Carry(p: Params, t: int): int
    requires p.Valid()
  {
    Residual(p.B, Centre(p.Q, t), p.digits)
  }

  /** The gadget vector (B, B^2, ..., B^(D-1)). */
  function GadgetVec(p: Params): (g: Vec)
    requires p.Valid()
    ensures |g| == p.Kept() && Sized(g, p.N)
  {
    seq(p.Kept(), i requires 0 <= i < p.Kept() => Constant(p.N, Pow(p.B, i + 1)))
  }

  lemma {:induction false} DigitsCong(p: Params, c: Poly, i: nat)
    requires p.Valid() && |c| == p.N && i < p.Kept()
    ensures Cong(p.Q, Digits(p, c)[i], Centred(p, c)[i])
  {
    var a, b := Digits(p, c)[i], Centred(p, c)[i];
    CongByCoefficients(p.Q, a, b, seq(p.N, k requires 0 <= k < p.N => if b[k] < 0 then 1 else 0));
  }

  lemma {:induction false} CentredBounded(p: Params, c: Poly, i: nat)
    requires p.Valid() && |c| == p.N && i < p.Kept()
    ensures Bounded(Centred(p, c)[i], p.B / 2)
  {
  }

  lemma {:induction false} DotGadget(p: Params, c: Poly, i: nat, k: nat)
    requires p.Valid() && |c| == p.N && i <= p.Kept() && k < p.N
    ensures var v := Centre(p.Q, c[k]);
            Dot(p.N, Centred(p, c), GadgetVec(p), i)[k] + Weighted(p.B, v, i + 1, p.digits)
              == Weighted(p.B, v, 1, p.digits)
  {
    hide Mul, Digit, Centre, Pow;
    if i > 0 {
      DotGadget(p, c, i - 1, k);
      DigitTimesPower(p, c, i - 1, k);
    }
  }

  lemma {:induction false} DigitTimesPower(p: Params, c: Poly, i: nat, k: nat)
    requires p.Valid() && |c| == p.N && i < p.Kept() && k < p.N
    ensures Mul(Centred(p, c)[i], GadgetVec(p)[i])[k] == Pow(p.B, i + 1) * Digit(p.B, Centre(p.Q, c[k]), i + 1)
  {
    hide Mul, Digit, Centre, Pow;
    MulConstant(Centred(p, c)[i], Pow(p.B, i + 1));
  }

  /** Digits against the gadget vector rebuild the element, up to what was dropped. */
  lemma {:induction false} GadgetRecompose(p: Params, c: Poly)
    requires p.Valid() && |c| == p.N
    ensures Cong(p.Q, c, Add(Dot(p.N, Centred(p, c), GadgetVec(p), p.Kept()), Dropped(p, c)))
  {
    hide Cong, Dot, Carry;
    var r := Add(Dot(p.N, Centred(p, c), GadgetVec(p), p.Kept()), Dropped(p, c));
    var t := seq(p.N, k requires 0 <= k < p.N => Carry(p, c[k]) + if c[k] < p.Q / 2 then 0 else 1);
    forall k | 0 <= k < p.N ensures c[k] == r[k] + p.Q * t[k] {
      RecomposeCoefficient(p, c, k);
      assert p.Q * t[k] == p.Q * Carry(p, c[k]) + if c[k] < p.Q / 2 then 0 else p.Q;
    }
    CongByCoefficients(p.Q, c, r, t);
  }

  lemma {:induction false} RecomposeCoefficient(p: Params, c: Poly, k: nat)
    requires p.Valid() && |c| == p.N && k < p.N
    ensures Centre(p.Q, c[k])
         == Dot(p.N, Centred(p, c), GadgetVec(p), p.Kept())[k] + Dropped(p, c)[k] + p.Q * Carry(p, c[k])
  {
    hide Dot, Digit, Centre, Residual;
    var v, x := Centre(p.Q, c[k]), Carry(p, c[k]);
    DotGadget(p, c, p.Kept(), k);
    Recompose(p.B, v, p.digits);
    assert Weighted(p.B, v, p.Kept() + 1, p.digits) == 0;
    assert Weighted(p.B, v, 0, p.digits) == Pow(p.B, 0) * Digit(p.B, v, 0) + Weighted(p.B, v, 1, p.digits);
    assert (Pow(p.B, p.digits) - p.Q) * x == Pow(p.B, p.digits) * x - p.Q * x;
  }

  /** Bound on a dropped coefficient: half a digit, plus B^D - Q if some coefficient can carry. */
  function DropBound(p: Params): (b: nat)
    requires p.Valid()
  {
    if p.Q / 2 - 1 <= Largest(p.B, p.digits) then p.B / 2 else p.B / 2 + (Pow(p.B, p.digits) - p.Q)
  }

  lemma {:induction false} DroppedBounded(p: Params, c: Poly)
    requires p.Valid() && |c| == p.N && forall k :: 0 <= k < p.N ==> 0 <= c[k] < p.Q
    ensures Bounded(Dropped(p, c), DropBound(p))
  {
    forall k | 0 <= k < p.N ensures 0 - DropBound(p) <= Dropped(p, c)[k] <= DropBound(p) {
      CarryOfCoefficient(p, c[k]);
    }
  }

  lemma {:induction false} DroppedZero(p: Params)
    requires p.Valid()
    ensures Dropped(p, Zero(p.N)) == Zero(p.N)
    ensures forall i :: 0 <= i < p.Kept() ==> Centred(p, Zero(p.N))[i] == Zero(p.N)
  {
    forall j: nat ensures Residual(p.B, 0, j) == 0 { ZeroResidual(p.B, j); }
    ZeroDigit(p.B);
    forall i | 0 <= i < p.Kept() ensures Centred(p, Zero(p.N))[i] == Zero(p.N) {
      assert Residual(p.B, 0, i + 1) == 0;
    }
    assert Residual(p.B, 0, p.digits) == 0;
    assert (Pow(p.B, p.digits) - p.Q) * 0 == 0;
  }

  lemma {:induction false} ZeroDigit(B: nat)
    requires B >= 2
    ensures LowDigit(B, 0) == 0 && Next(B, 0) == 0
  {
    DivModUnique(B / 2, B, 0, B / 2);
    DivModUnique(0, B, 0, 0);
  }

  lemma {:induction false} ZeroResidual(B: nat, j: nat)
    requires B >= 2
    ensures Residual(B, 0, j) == 0
    decreases j
  {
    if j > 0 {
      ZeroDigit(B);
      ZeroResidual(B, j - 1);
    }
  }
}
