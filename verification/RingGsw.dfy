/** Ring ciphertexts (c0, c1) with phase c1 - z·c0, products with gadget encryptions, the external
    product with a ring-GSW key, and automorphisms followed by a key switch. */
module RingGsw {
  import opened NegacyclicRing
  import opened RingModulus
  import opened Arithmetic
  import opened Gadget
  import opened RingVectors
  import opened KeyAlgebra
  import opened SignedPermutation
  import opened MultiKeyEval
  import opened MultiKeyRun

  function Phase(z: Poly, c0: Poly, c1: Poly): (f: Poly)
    requires |z| == |c0| == |c1|
    ensures |f| == |z|
  {
    Sub(c1, Mul(z, c0))
  }

  /** Rows (a[i], b[i]), one per kept digit. */
  datatype Rows = Rows(a: Vec, b: Vec) {
    predicate Shaped(p: Params)
      requires p.digits >= 2
    {
      |a| == |b| == p.Kept() && Sized(a, p.N) && Sized(b, p.N)
    }
  }

  /** Row i has phase w·B^(i+1) + e[i] modulo Q. */
  ghost predicate GadgetEncrypts(p: Params, z: Poly, k: Rows, w: Poly, e: Vec) {
    p.Valid() && |z| == |w| == p.N && k.Shaped(p) && |e| == p.Kept() && Sized(e, p.N) &&
    forall i :: 0 <= i < p.Kept() ==>
      Cong(p.Q, k.b[i], Add(Mul(z, k.a[i]), Add(e[i], Mul(w, GadgetVec(p)[i]))))
  }

  /** The phase of sum_i digit_i(c)·row_i is w·(c - dropped) plus digits times noise. */
  lemma {:induction false} GadgetProductPhase(p: Params, z: Poly, k: Rows, w: Poly, e: Vec, c: Poly)
    requires GadgetEncrypts(p, z, k, w, e) && |c| == p.N
    ensures Cong(p.Q, Phase(z, Dot(p.N, Digits(p, c), k.a, p.Kept()), Dot(p.N, Digits(p, c), k.b, p.Kept())),
                 Sub(Add(Mul(w, c), Dot(p.N, Centred(p, c), e, p.Kept())), Mul(w, Dropped(p, c))))
  {
    hide Cong, Mul, Add, Sub, Dot, Digits, Centred, Dropped, GadgetVec;
    var n, L, x, y, g := p.N, p.Kept(), Digits(p, c), Centred(p, c), GadgetVec(p);
    var rows := seq(L, i requires 0 <= i < L => Add(Mul(z, k.a[i]), Add(e[i], Mul(w, g[i]))));
    forall i | 0 <= i < L ensures Cong(p.Q, x[i], y[i]) && Cong(p.Q, k.a[i], k.a[i]) { DigitsCong(p, c, i); CongRefl(p.Q, k.a[i]); }
    DotCong(p.Q, n, x, y, k.b, rows, L);
    DotCong(p.Q, n, x, y, k.a, k.a, L);
    DotCombination(n, y, rows, z, k.a, e, w, g, L);
    GadgetRecompose(p, c);
    ProductAlgebra(p.Q, z, w, c, Dot(n, x, k.a, L), Dot(n, x, k.b, L), Dot(n, y, k.a, L), Dot(n, y, e, L), Dot(n, y, g, L), Dropped(p, c));
  }

  lemma {:induction false} ProductAlgebra(Q: int, z: Poly, w: Poly, c: Poly, xa: Poly, xb: Poly, ya: Poly, ye: Poly, yg: Poly, d: Poly)
    requires |z| == |w| == |c| == |xa| == |xb| == |ya| == |ye| == |yg| == |d| > 0
    requires Cong(Q, xb, Add(Mul(z, ya), Add(ye, Mul(w, yg)))) && Cong(Q, xa, ya) && Cong(Q, c, Add(yg, d))
    ensures Cong(Q, Phase(z, xa, xb), Sub(Add(Mul(w, c), ye), Mul(w, d)))
  {
    hide Cong, Mul, Add, Sub;
    CongMulRight(Q, z, xa, ya);
    CongSub(Q, xb, Add(Mul(z, ya), Add(ye, Mul(w, yg))), Mul(z, xa), Mul(z, ya));
    CancelFirst(Mul(z, ya), Add(ye, Mul(w, yg)));
    CongMulRight(Q, w, c, Add(yg, d));
    MulAdd(w, yg, d);
    CongSym(Q, Mul(w, c), Add(Mul(w, yg), Mul(w, d)));
    CongRefl(Q, ye);
    CongRefl(Q, Mul(w, d));
    CongAdd(Q, Add(Mul(w, yg), Mul(w, d)), Mul(w, c), ye, ye);
    CongSub(Q, Add(Add(Mul(w, yg), Mul(w, d)), ye), Add(Mul(w, c), ye), Mul(w, d), Mul(w, d));
    MoveLast(Mul(w, yg), Mul(w, d), ye);
    CongTrans(Q, Phase(z, xa, xb), Add(ye, Mul(w, yg)), Sub(Add(Mul(w, c), ye), Mul(w, d)));
  }

  lemma {:induction false} CancelFirst(a: Poly, b: Poly)
    requires |a| == |b|
    ensures Sub(Add(a, b), a) == b
  {
  }

  lemma {:induction false} MoveLast(a: Poly, d: Poly, e: Poly)
    requires |a| == |d| == |e|
    ensures Sub(Add(Add(a, d), e), d) == Add(e, a)
  {
  }

  ghost predicate SmallVec(e: Vec, sigma: nat) {
    forall i :: 0 <= i < |e| ==> Bounded(e[i], sigma)
  }

  /** The product has phase w·c up to the digit noise and the weight tau of the dropped digits. */
  lemma {:induction false} GadgetProductNear(p: Params, z: Poly, k: Rows, w: Poly, e: Vec, c: Poly, sigma: nat, tau: nat)
    requires GadgetEncrypts(p, z, k, w, e) && |c| == p.N && SmallVec(e, sigma) && Bounded(Mul(w, Dropped(p, c)), tau)
    ensures Near(p.Q, Phase(z, Dot(p.N, Digits(p, c), k.a, p.Kept()), Dot(p.N, Digits(p, c), k.b, p.Kept())), Mul(w, c),
                 DigitNoise(p, sigma) + tau)
  {
    hide Cong, Mul, Add, Sub, Dot, Digits, Centred, Dropped, GadgetVec, Bounded, Phase, DigitNoise;
    GadgetProductPhase(p, z, k, w, e, c);
    DigitDotBound(p, c, e, sigma);
    var x, d := Dot(p.N, Centred(p, c), e, p.Kept()), Mul(w, Dropped(p, c));
    BoundedAdd(x, d, DigitNoise(p, sigma), tau);
    AddSub(Mul(w, c), x, d);
  }

  lemma {:induction false} AddSub(a: Poly, b: Poly, c: Poly)
    requires |a| == |b| == |c|
    ensures Sub(Add(a, b), c) == Add(a, Sub(b, c))
  {
  }

  //////// Nearness ////////

  lemma {:induction false} NearAdd(Q: int, a: Poly, a': Poly, b: Poly, b': Poly, alpha: int, beta: int)
    requires |a| == |b| && Near(Q, a, a', alpha) && Near(Q, b, b', beta)
    ensures Near(Q, Add(a, b), Add(a', b'), alpha + beta)
  {
    hide Cong, Add, Bounded;
    var x: Poly :| |x| == |a| && Bounded(x, alpha) && Cong(Q, a, Add(a', x));
    var y: Poly :| |y| == |b| && Bounded(y, beta) && Cong(Q, b, Add(b', y));
    CongAdd(Q, a, Add(a', x), b, Add(b', y));
    AddPairs(a', x, b', y);
    BoundedAdd(x, y, alpha, beta);
  }

  lemma {:induction false} NearCongLeft(Q: int, r: Poly, f: Poly, g: Poly, beta: int)
    requires |r| == |f| == |g| && Near(Q, f, g, beta) && Cong(Q, r, f)
    ensures Near(Q, r, g, beta)
  {
    hide Cong, Add, Bounded;
    var x: Poly :| |x| == |f| && Bounded(x, beta) && Cong(Q, f, Add(g, x));
    CongTrans(Q, r, f, Add(g, x));
  }

  lemma {:induction false} NearExact(Q: int, a: Poly, beta: nat)
    ensures Near(Q, a, a, beta)
  {
    hide Cong, Bounded;
    AddZero(a);
    CongRefl(Q, a);
    BoundedZero(|a|, beta);
  }

  /** Reducing both components does not change the phase modulo Q. */
  lemma {:induction false} ReducedPhase(Q: int, z: Poly, c0: Poly, c1: Poly)
    requires Q > 0 && |z| == |c0| == |c1|
    ensures Cong(Q, Phase(z, Reduce(Q, c0), Reduce(Q, c1)), Phase(z, c0, c1))
  {
    hide Cong, Mul, Sub;
    ReduceCong(Q, c0);
    ReduceCong(Q, c1);
    CongMulRight(Q, z, Reduce(Q, c0), c0);
    CongSub(Q, Reduce(Q, c1), c1, Mul(z, Reduce(Q, c0)), Mul(z, c0));
  }

  lemma {:induction false} PhaseAdd(z: Poly, c0: Poly, c1: Poly, d0: Poly, d1: Poly)
    requires |z| == |c0| == |c1| == |d0| == |d1|
    ensures Phase(z, Add(c0, d0), Add(c1, d1)) == Add(Phase(z, c0, c1), Phase(z, d0, d1))
  {
    hide Mul;
    MulAdd(z, c0, d0);
  }

  //////// The external product ////////

  /** Digits of c0 and c1 alternate, as do the two halves of a ring-GSW key. */
  function Weave(xs: Vec, ys: Vec): (r: Vec)
    requires |xs| == |ys|
    ensures |r| == 2 * |xs|
  {
    seq(2 * |xs|, l requires 0 <= l < 2 * |xs| => if l % 2 == 0 then xs[l / 2] else ys[l / 2])
  }

  function Evens(col: Vec): (r: Vec)
    ensures |r| == |col| / 2
  {
    seq(|col| / 2, i requires 0 <= i < |col| / 2 => col[2 * i])
  }

  function Odds(col: Vec): (r: Vec)
    ensures |r| == |col| / 2
  {
    seq(|col| / 2, i requires 0 <= i < |col| / 2 => col[2 * i + 1])
  }

  lemma {:induction false} DotWeave(n: nat, xs: Vec, ys: Vec, col: Vec, i: nat)
    requires |xs| == |ys| && |col| == 2 * |xs| && Sized(xs, n) && Sized(ys, n) && Sized(col, n) && i <= |xs|
    requires Sized(Weave(xs, ys), n) && Sized(Evens(col), n) && Sized(Odds(col), n)
    ensures Dot(n, Weave(xs, ys), col, 2 * i) == Add(Dot(n, xs, Evens(col), i), Dot(n, ys, Odds(col), i))
  {
    hide Mul, Add;
    var w := Weave(xs, ys);
    if i == 0 {
      AddZero(Zero(n));
    } else {
      var j := i - 1;
      DotWeave(n, xs, ys, col, j);
      assert w[2 * j] == xs[j] && w[2 * j + 1] == ys[j] && Evens(col)[j] == col[2 * j] && Odds(col)[j] == col[2 * j + 1];
      hide Weave, Evens, Odds;
      var e, o := Dot(n, xs, Evens(col), j), Dot(n, ys, Odds(col), j);
      var x, y := Mul(xs[j], col[2 * j]), Mul(ys[j], col[2 * j + 1]);
      assert Dot(n, w, col, 2 * i) == Add(Add(Dot(n, w, col, 2 * j), x), y) by {
        assert Dot(n, w, col, 2 * j + 1) == Add(Dot(n, w, col, 2 * j), x);
      }
      TwoMore(e, o, x, y);
    }
  }

  lemma {:induction false} TwoMore(e: Poly, o: Poly, x: Poly, y: Poly)
    requires |e| == |o| == |x| == |y|
    ensures Add(Add(Add(e, o), x), y) == Add(Add(e, x), Add(o, y))
  {
  }

  predicate GswShaped(p: Params, ek: Rows)
    requires p.digits >= 2
  {
    |ek.a| == |ek.b| == 2 * p.Kept() && Sized(ek.a, p.N) && Sized(ek.b, p.N)
  }

  /** Even rows encrypt -z·X^m, odd rows X^m. */
  ghost predicate GswEncrypts(p: Params, z: Poly, ek: Rows, m: int, e0: Vec, e1: Vec) {
    p.Valid() && |z| == p.N && GswShaped(p, ek) &&
    GadgetEncrypts(p, z, Rows(Evens(ek.a), Evens(ek.b)), Scale(-1, Mono(m, z)), e0) &&
    GadgetEncrypts(p, z, Rows(Odds(ek.a), Odds(ek.b)), Mono(m, One(p.N)), e1)
  }

  /** One component of the external product. */
  function External(p: Params, col: Vec, c0: Poly, c1: Poly): (r: Poly)
    requires p.Valid() && |col| == 2 * p.Kept() && Sized(col, p.N) && |c0| == |c1| == p.N
    ensures Canonical(p, r)
  {
    var w := Weave(Digits(p, c0), Digits(p, c1));
    Reduce(p.Q, Dot(p.N, w, col, |w|))
  }

  lemma {:induction false} ExternalSplit(p: Params, col: Vec, c0: Poly, c1: Poly)
    requires p.Valid() && |col| == 2 * p.Kept() && Sized(col, p.N) && |c0| == |c1| == p.N
    ensures Sized(Evens(col), p.N) && Sized(Odds(col), p.N)
    ensures External(p, col, c0, c1)
         == Reduce(p.Q, Add(Dot(p.N, Digits(p, c0), Evens(col), p.Kept()), Dot(p.N, Digits(p, c1), Odds(col), p.Kept())))
  {
    hide Dot, Digits, Reduce;
    DotWeave(p.N, Digits(p, c0), Digits(p, c1), col, p.Kept());
  }

  /** Noise of one external product, for secrets with coefficients up to zeta. */
  function ExternalBound(p: Params, zeta: nat, sigma: nat): nat
    requires p.Valid()
  {
    DigitNoise(p, sigma) + Times(p.N, Times(zeta, DropBound(p))) + (DigitNoise(p, sigma) + DropBound(p))
  }

  /** The external product multiplies the phase by X^m. */
  lemma {:induction false} ExternalNear(p: Params, z: Poly, ek: Rows, m: int, e0: Vec, e1: Vec, c0: Poly, c1: Poly, zeta: nat, sigma: nat)
    requires GswEncrypts(p, z, ek, m, e0, e1) && SmallVec(e0, sigma) && SmallVec(e1, sigma) && Bounded(z, zeta)
    requires Canonical(p, c0) && Canonical(p, c1)
    ensures Near(p.Q, Phase(z, External(p, ek.a, c0, c1), External(p, ek.b, c0, c1)), Mono(m, Phase(z, c0, c1)),
                 ExternalBound(p, zeta, sigma))
  {
    hide Cong, Mul, Add, Sub, Dot, Digits, Dropped, Bounded, Phase, Reduce, Mono, Scale, External, Near, GadgetEncrypts, DigitNoise, DropBound, Times, Evens, Odds;
    var n, L := p.N, p.Kept();
    ExternalSplit(p, ek.a, c0, c1);
    ExternalSplit(p, ek.b, c0, c1);
    var a0, b0 := Dot(n, Digits(p, c0), Evens(ek.a), L), Dot(n, Digits(p, c0), Evens(ek.b), L);
    var a1, b1 := Dot(n, Digits(p, c1), Odds(ek.a), L), Dot(n, Digits(p, c1), Odds(ek.b), L);
    ReducedPhase(p.Q, z, Add(a0, a1), Add(b0, b1));
    PhaseAdd(z, a0, b0, a1, b1);
    EvenPart(p, z, Rows(Evens(ek.a), Evens(ek.b)), m, e0, c0, zeta, sigma);
    OddPart(p, z, Rows(Odds(ek.a), Odds(ek.b)), m, e1, c1, sigma);
    var f0, f1 := Mul(Scale(-1, Mono(m, z)), c0), Mul(Mono(m, One(n)), c1);
    NearAdd(p.Q, Phase(z, a0, b0), f0, Phase(z, a1, b1), f1,
            DigitNoise(p, sigma) + Times(n, Times(zeta, DropBound(p))), DigitNoise(p, sigma) + DropBound(p));
    NearCongLeft(p.Q, Phase(z, External(p, ek.a, c0, c1), External(p, ek.b, c0, c1)), Add(Phase(z, a0, b0), Phase(z, a1, b1)),
                 Add(f0, f1), ExternalBound(p, zeta, sigma));
    MonoOfPhase(m, z, c0, c1);
  }

  lemma {:induction false} EvenPart(p: Params, z: Poly, k: Rows, m: int, e: Vec, c: Poly, zeta: nat, sigma: nat)
    requires p.Valid() && |z| == p.N && GadgetEncrypts(p, z, k, Scale(-1, Mono(m, z)), e) && SmallVec(e, sigma) && Bounded(z, zeta) && Canonical(p, c)
    ensures Near(p.Q, Phase(z, Dot(p.N, Digits(p, c), k.a, p.Kept()), Dot(p.N, Digits(p, c), k.b, p.Kept())),
                 Mul(Scale(-1, Mono(m, z)), c), DigitNoise(p, sigma) + Times(p.N, Times(zeta, DropBound(p))))
  {
    hide Cong, Mul, Add, Sub, Dot, Digits, Dropped, Bounded, Phase, Mono, Scale, Near, DigitNoise, DropBound, GadgetVec;
    BoundedMono(m, z, zeta);
    BoundedScale(-1, Mono(m, z), 1, zeta);
    DroppedBounded(p, c);
    BoundedMul(Scale(-1, Mono(m, z)), Dropped(p, c), zeta, DropBound(p));
    GadgetProductNear(p, z, k, Scale(-1, Mono(m, z)), e, c, sigma, Times(p.N, Times(zeta, DropBound(p))));
  }

  lemma {:induction false} OddPart(p: Params, z: Poly, k: Rows, m: int, e: Vec, c: Poly, sigma: nat)
    requires p.Valid() && |z| == p.N && GadgetEncrypts(p, z, k, Mono(m, One(p.N)), e) && SmallVec(e, sigma) && Canonical(p, c)
    ensures Near(p.Q, Phase(z, Dot(p.N, Digits(p, c), k.a, p.Kept()), Dot(p.N, Digits(p, c), k.b, p.Kept())),
                 Mul(Mono(m, One(p.N)), c), DigitNoise(p, sigma) + DropBound(p))
  {
    hide Cong, Mul, Add, Sub, Dot, Digits, Dropped, Bounded, Phase, Mono, Near, DigitNoise, DropBound, GadgetVec, One;
    DroppedBounded(p, c);
    MonoMul(m, One(p.N), Dropped(p, c));
    MulOne(Dropped(p, c));
    BoundedMono(m, Dropped(p, c), DropBound(p));
    GadgetProductNear(p, z, k, Mono(m, One(p.N)), e, c, sigma, DropBound(p));
  }

  lemma {:induction false} MonoOfPhase(m: int, z: Poly, c0: Poly, c1: Poly)
    requires |z| == |c0| == |c1| > 0
    ensures Add(Mul(Scale(-1, Mono(m, z)), c0), Mul(Mono(m, One(|z|)), c1)) == Mono(m, Phase(z, c0, c1))
  {
    hide Mul, Mono, One;
    MonoMul(m, One(|z|), c1);
    MulOne(c1);
    MulScale(-1, Mono(m, z), c0);
    MonoMul(m, z, c0);
    MonoScale(m, -1, Mul(z, c0));
    MonoAdd(m, c1, Scale(-1, Mul(z, c0)));
    SubIsAdd(c1, Mul(z, c0));
    AddComm(Mono(m, c1), Scale(-1, Mono(m, Mul(z, c0))));
  }

  //////// Automorphisms ////////

  /** Both components of an automorphism followed by the key switch from z(X^k) back to z. */
  function Rotated(p: Params, k: nat, ak: Rows, c0: Poly, c1: Poly): (r: (Poly, Poly))
    requires p.Valid() && ak.Shaped(p) && |c0| == |c1| == p.N
    ensures Canonical(p, r.0) && Canonical(p, r.1)
  {
    var d := Digits(p, Reduce(p.Q, Auto(k, c0)));
    (Reduce(p.Q, Dot(p.N, d, ak.a, |d|)), Reduce(p.Q, Add(Auto(k, c1), Dot(p.N, d, ak.b, |d|))))
  }

  function RotateBound(p: Params, zeta: nat, sigma: nat): nat
    requires p.Valid()
  {
    DigitNoise(p, sigma) + Times(p.N, Times(zeta, DropBound(p)))
  }

  /** Automorphism with a key for k applies X -> X^k to the phase. */
  lemma {:induction false} RotatedNear(p: Params, z: Poly, k: nat, ak: Rows, e: Vec, c0: Poly, c1: Poly, b: nat, zeta: nat, sigma: nat)
    requires p.Valid() && p.N == Pow(2, b) && k % 2 == 1 && |z| == p.N && Bounded(z, zeta) && SmallVec(e, sigma)
    requires GadgetEncrypts(p, z, ak, Scale(-1, Auto(k, z)), e) && |c0| == |c1| == p.N
    ensures var r := Rotated(p, k, ak, c0, c1);
            Near(p.Q, Phase(z, r.0, r.1), Auto(k, Phase(z, c0, c1)), RotateBound(p, zeta, sigma))
  {
    hide Cong, Mul, Add, Sub, Dot, Digits, Dropped, Bounded, Phase, Reduce, Scale, Near, DigitNoise, DropBound, Auto, GadgetVec, Times;
    var x := Reduce(p.Q, Auto(k, c0));
    var w, y := Scale(-1, Auto(k, z)), Auto(k, c1);
    var L, d := p.Kept(), Digits(p, x);
    BoundedAuto(b, k, z, zeta);
    BoundedScale(-1, Auto(k, z), 1, zeta);
    DroppedBounded(p, x);
    BoundedMul(w, Dropped(p, x), zeta, DropBound(p));
    GadgetProductNear(p, z, ak, w, e, x, sigma, Times(p.N, Times(zeta, DropBound(p))));
    var da, db := Dot(p.N, d, ak.a, L), Dot(p.N, d, ak.b, L);
    ReducedPhase(p.Q, z, da, Add(y, db));
    PhaseShift(z, da, y, db);
    NearExact(p.Q, y, 0);
    NearAdd(p.Q, y, y, Phase(z, da, db), Mul(w, x), 0, RotateBound(p, zeta, sigma));
    NearCongLeft(p.Q, Phase(z, Reduce(p.Q, da), Reduce(p.Q, Add(y, db))), Add(y, Phase(z, da, db)), Add(y, Mul(w, x)), RotateBound(p, zeta, sigma));
    AutoOfPhase(p.Q, k, z, c0, c1);
    NearCong(p.Q, Phase(z, Reduce(p.Q, da), Reduce(p.Q, Add(y, db))), Add(y, Mul(w, x)), Auto(k, Phase(z, c0, c1)), RotateBound(p, zeta, sigma));
  }

  lemma {:induction false} PhaseShift(z: Poly, c0: Poly, y: Poly, c1: Poly)
    requires |z| == |c0| == |y| == |c1|
    ensures Phase(z, c0, Add(y, c1)) == Add(y, Phase(z, c0, c1))
  {
    hide Mul;
  }

  lemma {:induction false} AutoOfPhase(Q: int, k: nat, z: Poly, c0: Poly, c1: Poly)
    requires Q > 0 && |z| == |c0| == |c1| > 0 && k % 2 == 1
    ensures Cong(Q, Add(Auto(k, c1), Mul(Scale(-1, Auto(k, z)), Reduce(Q, Auto(k, c0)))), Auto(k, Phase(z, c0, c1)))
  {
    hide Cong, Mul, Add, Sub, Scale, Auto, Reduce;
    var w, x := Scale(-1, Auto(k, z)), Auto(k, c0);
    ReduceCong(Q, x);
    CongMulRight(Q, w, Reduce(Q, x), x);
    CongRefl(Q, Auto(k, c1));
    CongAdd(Q, Auto(k, c1), Auto(k, c1), Mul(w, Reduce(Q, x)), Mul(w, x));
    MulScale(-1, Auto(k, z), x);
    AutoMul(k, z, c0);
    AutoScale(k, -1, Mul(z, c0));
    AutoAdd(k, c1, Scale(-1, Mul(z, c0)));
    SubIsAdd(c1, Mul(z, c0));
  }

  lemma {:induction false} AutoScale(k: nat, j: int, a: Poly)
    ensures Auto(k, Scale(j, a)) == Scale(j, Auto(k, a))
  {
    EvalScaleLeft(j, a, k, One(|a|));
  }

  //////// The updates as performed ////////

  class RingCiphertext {
    var c0: Poly
    var c1: Poly

    constructor (c0: Poly, c1: Poly)
      ensures this.c0 == c0 && this.c1 == c1
    {
      this.c0 := c0;
      this.c1 := c1;
    }
  }

  /** acc = digits(acc)·ek. */
  method AddToAcc(p: Params, ek: Rows, acc: RingCiphertext)
    requires p.Valid() && GswShaped(p, ek) && |acc.c0| == |acc.c1| == p.N
    modifies acc
    ensures acc.c0 == External(p, ek.a, old(acc.c0), old(acc.c1)) && acc.c1 == External(p, ek.b, old(acc.c0), old(acc.c1))
  {
    hide Dot, Digits, Reduce;
    var d0 := Decompose(p, acc.c0);
    var d1 := Decompose(p, acc.c1);
    var dct := Weave(d0, d1);
    var r0 := InnerProduct(p, dct, ek.a);
    var r1 := InnerProduct(p, dct, ek.b);
    acc.c0, acc.c1 := r0, r1;
  }

  /** The automorphism on both components; the first is decomposed and key-switched. */
  method Automorphism(p: Params, k: nat, ak: Rows, acc: RingCiphertext)
    requires p.Valid() && ak.Shaped(p) && |acc.c0| == |acc.c1| == p.N
    modifies acc
    ensures (acc.c0, acc.c1) == Rotated(p, k, ak, old(acc.c0), old(acc.c1))
  {
    hide Dot, Digits, Reduce, Auto, Add, Mul, Zero;
    ghost var y := Auto(k, acc.c1);
    acc.c1 := Reduce(p.Q, Auto(k, acc.c1));
    var cta := acc.c0;
    acc.c0 := Zero(p.N);
    cta := Reduce(p.Q, Auto(k, cta));
    var dcta := Decompose(p, cta);
    ReduceOfZero(p);
    DotNone(p.N, dcta, ak.a);
    DotNone(p.N, dcta, ak.b);
    AddZero(y);
    for d := 0 to p.Kept()
      invariant acc.c0 == Reduce(p.Q, Dot(p.N, dcta, ak.a, d)) && acc.c1 == Reduce(p.Q, y)
    {
      DotMore(p.N, dcta, ak.a, d);
      ReduceSum(p.Q, Dot(p.N, dcta, ak.a, d), Mul(dcta[d], ak.a[d]));
      acc.c0 := Reduce(p.Q, Add(acc.c0, Mul(dcta[d], ak.a[d])));
    }
    for d := 0 to p.Kept()
      invariant acc.c0 == Reduce(p.Q, Dot(p.N, dcta, ak.a, p.Kept())) && acc.c1 == Reduce(p.Q, Add(y, Dot(p.N, dcta, ak.b, d)))
    {
      DotMore(p.N, dcta, ak.b, d);
      ReduceSum(p.Q, Add(y, Dot(p.N, dcta, ak.b, d)), Mul(dcta[d], ak.b[d]));
      AddAssoc(y, Dot(p.N, dcta, ak.b, d), Mul(dcta[d], ak.b[d]));
      acc.c1 := Reduce(p.Q, Add(acc.c1, Mul(dcta[d], ak.b[d])));
    }
  }

  lemma {:induction false} DotNone(n: nat, xs: Vec, ys: Vec)
    requires Sized(xs, n) && Sized(ys, n)
    ensures Dot(n, xs, ys, 0) == Zero(n)
  {
  }

  lemma {:induction false} DotMore(n: nat, xs: Vec, ys: Vec, i: nat)
    requires i < |xs| && i < |ys| && Sized(xs, n) && Sized(ys, n)
    ensures Dot(n, xs, ys, i + 1) == Add(Dot(n, xs, ys, i), Mul(xs[i], ys[i]))
  {
  }
}
