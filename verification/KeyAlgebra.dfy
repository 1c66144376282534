/** Linear combinations of uni-encryption keys, and the size of the hybrid product's noise. */
module KeyAlgebra {
  import opened NegacyclicRing
  import opened RingModulus
  import opened Arithmetic
  import opened Gadget
  import opened RingVectors
  import opened HybridProduct

  function VecAdd(a: Vec, b: Vec): (r: Vec)
    requires |a| == |b| && forall i :: 0 <= i < |a| ==> |a[i]| == |b[i]|
    ensures |r| == |a| && forall i :: 0 <= i < |r| ==> |r[i]| == |a[i]|
  {
    seq(|a|, i requires 0 <= i < |a| => Add(a[i], b[i]))
  }

  function VecSub(a: Vec, b: Vec): (r: Vec)
    requires |a| == |b| && forall i :: 0 <= i < |a| ==> |a[i]| == |b[i]|
    ensures |r| == |a| && forall i :: 0 <= i < |r| ==> |r[i]| == |a[i]|
  {
    seq(|a|, i requires 0 <= i < |a| => Sub(a[i], b[i]))
  }

  function VecMono(e: int, a: Vec): (r: Vec)
    requires forall i :: 0 <= i < |a| ==> |a[i]| > 0
    ensures |r| == |a| && forall i :: 0 <= i < |r| ==> |r[i]| == |a[i]|
  {
    seq(|a|, i requires 0 <= i < |a| => Mono(e, a[i]))
  }

  function KeyAdd(p: Params, a: EvalKey, b: EvalKey): (r: EvalKey)
    requires p.Valid() && a.Shaped(p) && b.Shaped(p)
    ensures r.Shaped(p)
  {
    EvalKey(VecAdd(a.d, b.d), VecAdd(a.f, b.f))
  }

  function KeySub(p: Params, a: EvalKey, b: EvalKey): (r: EvalKey)
    requires p.Valid() && a.Shaped(p) && b.Shaped(p)
    ensures r.Shaped(p)
  {
    EvalKey(VecSub(a.d, b.d), VecSub(a.f, b.f))
  }

  function KeyMono(p: Params, e: int, a: EvalKey): (r: EvalKey)
    requires p.Valid() && a.Shaped(p)
    ensures r.Shaped(p)
  {
    EvalKey(VecMono(e, a.d), VecMono(e, a.f))
  }

  function OpenAdd(p: Params, a: Opening, b: Opening): (r: Opening)
    requires p.Valid() && a.Shaped(p) && b.Shaped(p)
    ensures r.Shaped(p)
  {
    Opening(Add(a.r, b.r), VecAdd(a.e0, b.e0), VecAdd(a.e1, b.e1))
  }

  function OpenSub(p: Params, a: Opening, b: Opening): (r: Opening)
    requires p.Valid() && a.Shaped(p) && b.Shaped(p)
    ensures r.Shaped(p)
  {
    Opening(Sub(a.r, b.r), VecSub(a.e0, b.e0), VecSub(a.e1, b.e1))
  }

  function OpenMono(p: Params, e: int, a: Opening): (r: Opening)
    requires p.Valid() && a.Shaped(p)
    ensures r.Shaped(p)
  {
    Opening(Mono(e, a.r), VecMono(e, a.e0), VecMono(e, a.e1))
  }

  /** Modulus and shapes of a setting without a particular key. */
  ghost predicate Base(p: Params, crs: Vec, s: Poly) {
    p.Valid() && |s| == p.N && |crs| == p.Kept() && Sized(crs, p.N)
  }

  lemma {:induction false} DFormSub(p: Params, crs: Vec, m: Poly, o: Opening, m': Poly, o': Opening, i: nat)
    requires p.Valid() && |crs| == p.Kept() && Sized(crs, p.N) && |m| == |m'| == p.N
    requires o.Shaped(p) && o'.Shaped(p) && i < p.Kept()
    ensures DForm(p, crs, Sub(m, m'), OpenSub(p, o, o'), i) == Sub(DForm(p, crs, m, o, i), DForm(p, crs, m', o', i))
    ensures FForm(p, OpenSub(p, o, o'), i) == Sub(FForm(p, o, i), FForm(p, o', i))
  {
    hide Mul, Add, Sub, GadgetVec;
    var g := GadgetVec(p)[i];
    MulSub(crs[i], o.r, o'.r);
    MulSub(g, m, m');
    MulSub(g, o.r, o'.r);
    SubTriples(Mul(o.r, crs[i]), o.e0[i], Mul(m, g), Mul(o'.r, crs[i]), o'.e0[i], Mul(m', g));
    SubPairs2(o.e1[i], Mul(o.r, g), o'.e1[i], Mul(o'.r, g));
  }

  lemma {:induction false} SubTriples(a: Poly, b: Poly, c: Poly, a': Poly, b': Poly, c': Poly)
    requires |a| == |b| == |c| == |a'| == |b'| == |c'|
    ensures Add(Sub(a, a'), Add(Sub(b, b'), Sub(c, c'))) == Sub(Add(a, Add(b, c)), Add(a', Add(b', c')))
    ensures Add(Add(a, a'), Add(Add(b, b'), Add(c, c'))) == Add(Add(a, Add(b, c)), Add(a', Add(b', c')))
  {
  }

  lemma {:induction false} SubPairs2(a: Poly, b: Poly, a': Poly, b': Poly)
    requires |a| == |b| == |a'| == |b'|
    ensures Add(Sub(a, a'), Sub(b, b')) == Sub(Add(a, b), Add(a', b'))
    ensures Add(Add(a, a'), Add(b, b')) == Add(Add(a, b), Add(a', b'))
  {
  }

  lemma {:induction false} DFormAdd(p: Params, crs: Vec, m: Poly, o: Opening, m': Poly, o': Opening, i: nat)
    requires p.Valid() && |crs| == p.Kept() && Sized(crs, p.N) && |m| == |m'| == p.N
    requires o.Shaped(p) && o'.Shaped(p) && i < p.Kept()
    ensures DForm(p, crs, Add(m, m'), OpenAdd(p, o, o'), i) == Add(DForm(p, crs, m, o, i), DForm(p, crs, m', o', i))
    ensures FForm(p, OpenAdd(p, o, o'), i) == Add(FForm(p, o, i), FForm(p, o', i))
  {
    hide Mul, Add, Sub, GadgetVec;
    var g := GadgetVec(p)[i];
    MulAdd(crs[i], o.r, o'.r);
    MulAdd(g, m, m');
    MulAdd(g, o.r, o'.r);
    SubTriples(Mul(o.r, crs[i]), o.e0[i], Mul(m, g), Mul(o'.r, crs[i]), o'.e0[i], Mul(m', g));
    SubPairs2(o.e1[i], Mul(o.r, g), o'.e1[i], Mul(o'.r, g));
  }

  lemma {:induction false} DFormMono(p: Params, crs: Vec, e: int, m: Poly, o: Opening, i: nat)
    requires p.Valid() && |crs| == p.Kept() && Sized(crs, p.N) && |m| == p.N && o.Shaped(p) && i < p.Kept()
    ensures DForm(p, crs, Mono(e, m), OpenMono(p, e, o), i) == Mono(e, DForm(p, crs, m, o, i))
    ensures FForm(p, OpenMono(p, e, o), i) == Mono(e, FForm(p, o, i))
  {
    hide Mul, Add, Mono, GadgetVec;
    var g := GadgetVec(p)[i];
    MonoMul(e, o.r, crs[i]);
    MonoMul(e, m, g);
    MonoMul(e, o.r, g);
    MonoAdd(e, Mul(o.r, crs[i]), Add(o.e0[i], Mul(m, g)));
    MonoAdd(e, o.e0[i], Mul(m, g));
    MonoAdd(e, o.e1[i], Mul(o.r, g));
  }

  lemma {:induction false} EncryptsSub(p: Params, crs: Vec, s: Poly, a: EvalKey, m: Poly, o: Opening, b: EvalKey, m': Poly, o': Opening)
    requires Base(p, crs, s) && |m| == |m'| == p.N
    requires a.Shaped(p) && o.Shaped(p) && b.Shaped(p) && o'.Shaped(p)
    requires Encrypts(p, crs, s, a, m, o) && Encrypts(p, crs, s, b, m', o')
    ensures Encrypts(p, crs, s, KeySub(p, a, b), Sub(m, m'), OpenSub(p, o, o'))
  {
    hide Cong, Mul, Sub, DForm, FForm, OpenSub;
    forall i | 0 <= i < p.Kept()
      ensures Cong(p.Q, KeySub(p, a, b).d[i], DForm(p, crs, Sub(m, m'), OpenSub(p, o, o'), i))
      ensures Cong(p.Q, Mul(s, KeySub(p, a, b).f[i]), FForm(p, OpenSub(p, o, o'), i))
    {
      DFormSub(p, crs, m, o, m', o', i);
      CongSub(p.Q, a.d[i], DForm(p, crs, m, o, i), b.d[i], DForm(p, crs, m', o', i));
      MulSub(s, a.f[i], b.f[i]);
      CongSub(p.Q, Mul(s, a.f[i]), FForm(p, o, i), Mul(s, b.f[i]), FForm(p, o', i));
    }
  }

  lemma {:induction false} EncryptsAdd(p: Params, crs: Vec, s: Poly, a: EvalKey, m: Poly, o: Opening, b: EvalKey, m': Poly, o': Opening)
    requires Base(p, crs, s) && |m| == |m'| == p.N
    requires a.Shaped(p) && o.Shaped(p) && b.Shaped(p) && o'.Shaped(p)
    requires Encrypts(p, crs, s, a, m, o) && Encrypts(p, crs, s, b, m', o')
    ensures Encrypts(p, crs, s, KeyAdd(p, a, b), Add(m, m'), OpenAdd(p, o, o'))
  {
    hide Cong, Mul, Add, DForm, FForm, OpenAdd;
    forall i | 0 <= i < p.Kept()
      ensures Cong(p.Q, KeyAdd(p, a, b).d[i], DForm(p, crs, Add(m, m'), OpenAdd(p, o, o'), i))
      ensures Cong(p.Q, Mul(s, KeyAdd(p, a, b).f[i]), FForm(p, OpenAdd(p, o, o'), i))
    {
      DFormAdd(p, crs, m, o, m', o', i);
      CongAdd(p.Q, a.d[i], DForm(p, crs, m, o, i), b.d[i], DForm(p, crs, m', o', i));
      MulAdd(s, a.f[i], b.f[i]);
      CongAdd(p.Q, Mul(s, a.f[i]), FForm(p, o, i), Mul(s, b.f[i]), FForm(p, o', i));
    }
  }

  lemma {:induction false} EncryptsMono(p: Params, crs: Vec, s: Poly, a: EvalKey, m: Poly, o: Opening, e: int)
    requires Base(p, crs, s) && |m| == p.N && a.Shaped(p) && o.Shaped(p) && Encrypts(p, crs, s, a, m, o)
    ensures Encrypts(p, crs, s, KeyMono(p, e, a), Mono(e, m), OpenMono(p, e, o))
  {
    hide Cong, Mul, Mono, DForm, FForm, OpenMono;
    forall i | 0 <= i < p.Kept()
      ensures Cong(p.Q, KeyMono(p, e, a).d[i], DForm(p, crs, Mono(e, m), OpenMono(p, e, o), i))
      ensures Cong(p.Q, Mul(s, KeyMono(p, e, a).f[i]), FForm(p, OpenMono(p, e, o), i))
    {
      DFormMono(p, crs, e, m, o, i);
      CongMono(p.Q, e, a.d[i], DForm(p, crs, m, o, i));
      MonoMul(e, s, a.f[i]);
      CongMono(p.Q, e, Mul(s, a.f[i]), FForm(p, o, i));
    }
  }

  /** Keys that agree modulo Q encrypt the same message. */
  lemma {:induction false} EncryptsCong(p: Params, crs: Vec, s: Poly, a: EvalKey, b: EvalKey, m: Poly, o: Opening)
    requires Base(p, crs, s) && |m| == p.N && a.Shaped(p) && b.Shaped(p) && o.Shaped(p) && Encrypts(p, crs, s, b, m, o)
    requires forall i :: 0 <= i < p.Kept() ==> Cong(p.Q, a.d[i], b.d[i]) && Cong(p.Q, a.f[i], b.f[i])
    ensures Encrypts(p, crs, s, a, m, o)
  {
    hide Cong, Mul, DForm, FForm;
    forall i | 0 <= i < p.Kept()
      ensures Cong(p.Q, a.d[i], DForm(p, crs, m, o, i)) && Cong(p.Q, Mul(s, a.f[i]), FForm(p, o, i))
    {
      CongTrans(p.Q, a.d[i], b.d[i], DForm(p, crs, m, o, i));
      CongMulRight(p.Q, s, a.f[i], b.f[i]);
      CongTrans(p.Q, Mul(s, a.f[i]), Mul(s, b.f[i]), FForm(p, o, i));
    }
  }

  //////// Size of the noise ////////

  ghost predicate SmallOpening(p: Params, o: Opening, rho: nat, sigma: nat)
    requires p.Valid() && o.Shaped(p)
  {
    Bounded(o.r, rho) && forall i :: 0 <= i < p.Kept() ==> Bounded(o.e0[i], sigma) && Bounded(o.e1[i], sigma)
  }

  lemma {:induction false} SmallSub(p: Params, a: Opening, b: Opening, rho: nat, sigma: nat, rho': nat, sigma': nat)
    requires p.Valid() && a.Shaped(p) && b.Shaped(p)
    requires SmallOpening(p, a, rho, sigma) && SmallOpening(p, b, rho', sigma')
    ensures SmallOpening(p, OpenSub(p, a, b), rho + rho', sigma + sigma')
    ensures SmallOpening(p, OpenAdd(p, a, b), rho + rho', sigma + sigma')
  {
    hide Bounded, Add, Sub;
    BoundedAdd(a.r, b.r, rho, rho');
    forall i | 0 <= i < p.Kept()
      ensures Bounded(Sub(a.e0[i], b.e0[i]), sigma + sigma') && Bounded(Sub(a.e1[i], b.e1[i]), sigma + sigma')
      ensures Bounded(Add(a.e0[i], b.e0[i]), sigma + sigma') && Bounded(Add(a.e1[i], b.e1[i]), sigma + sigma')
    {
      BoundedAdd(a.e0[i], b.e0[i], sigma, sigma');
      BoundedAdd(a.e1[i], b.e1[i], sigma, sigma');
    }
  }

  lemma {:induction false} SmallMono(p: Params, e: int, a: Opening, rho: nat, sigma: nat)
    requires p.Valid() && a.Shaped(p) && SmallOpening(p, a, rho, sigma)
    ensures SmallOpening(p, OpenMono(p, e, a), rho, sigma)
  {
    hide Bounded, Mono;
    BoundedMono(e, a.r, rho);
    forall i | 0 <= i < p.Kept() ensures Bounded(Mono(e, a.e0[i]), sigma) && Bounded(Mono(e, a.e1[i]), sigma) {
      BoundedMono(e, a.e0[i], sigma);
      BoundedMono(e, a.e1[i], sigma);
    }
  }

  /** Bound on an inner product of centred digits with noise of size sigma. */
  function DigitNoise(p: Params, sigma: nat): nat
    requires p.Valid()
  {
    Times(p.Kept(), Times(p.N, Times(p.B / 2, sigma)))
  }

  /** Bound on HbError without its last term, for k users with secrets of size at most zeta. */
  function HbBound(p: Params, k: nat, zeta: nat, rho: nat, sigma: nat): nat
    requires p.Valid()
  {
    Times(k, Times(p.N, Times(zeta, DigitNoise(p, sigma)))) + Times(p.N, Times(rho, Times(k, DigitNoise(p, sigma))))
    + DigitNoise(p, sigma) + Times(p.N, Times(rho, DropBound(p)))
  }

  lemma {:induction false} DigitDotBound(p: Params, c: Poly, y: Vec, sigma: nat)
    requires p.Valid() && |c| == p.N && |y| == p.Kept() && Sized(y, p.N)
    requires forall i :: 0 <= i < p.Kept() ==> Bounded(y[i], sigma)
    ensures Bounded(Dot(p.N, Centred(p, c), y, p.Kept()), DigitNoise(p, sigma))
  {
    hide Bounded, Dot, Centred;
    forall i | 0 <= i < p.Kept() ensures Bounded(Centred(p, c)[i], p.B / 2) { CentredBounded(p, c, i); }
    BoundedDot(p.N, Centred(p, c), y, p.Kept(), p.B / 2, sigma);
  }

  lemma {:induction false} PNoiseBound(p: Params, eP: seq<Vec>, c: Vec, k: nat, sigma: nat)
    requires p.Valid() && k <= |c| && Sized(c, p.N) && PerUser(p, eP, |c|)
    requires forall u, i :: 0 <= u < |c| && 0 <= i < p.Kept() ==> Bounded(eP[u][i], sigma)
    ensures Bounded(PNoise(p, eP, c, k), Times(k, DigitNoise(p, sigma)))
  {
    hide Bounded, Dot, Centred, Add, DigitNoise;
    var b := DigitNoise(p, sigma);
    if k == 0 {
      assert k * b == 0;
      BoundedZero(p.N, 0);
    } else {
      PNoiseBound(p, eP, c, k - 1, sigma);
      DigitDotBound(p, c[k - 1], eP[k - 1], sigma);
      BoundedAdd(PNoise(p, eP, c, k - 1), Dot(p.N, Centred(p, c[k - 1]), eP[k - 1], p.Kept()), (k - 1) * b, b);
      assert (k - 1) * b + b == k * b;
    }
  }

  ghost predicate Canonical(p: Params, c: Poly) {
    |c| == p.N && forall i :: 0 <= i < |c| ==> 0 <= c[i] < p.Q
  }

  ghost predicate SmallKeys(p: Params, s: Vec, eP: seq<Vec>, zeta: nat, sigma: nat)
    requires p.Valid() && PerUser(p, eP, |s|)
  {
    (forall u :: 0 <= u < |s| ==> Bounded(s[u], zeta)) &&
    forall u :: 0 <= u < |s| ==> forall i :: 0 <= i < p.Kept() ==> Bounded(eP[u][i], sigma)
  }

  lemma {:induction false} KeyNoiseBound(p: Params, s: Vec, eP: seq<Vec>, o: Opening, c: Vec, zeta: nat, rho: nat, sigma: nat)
    requires p.Valid() && |s| == |c| && Sized(s, p.N) && Sized(c, p.N) && o.Shaped(p) && PerUser(p, eP, |c|)
    requires SmallOpening(p, o, rho, sigma) && SmallKeys(p, s, eP, zeta, sigma)
    ensures Bounded(Add(Dot(p.N, s, XVec(p, o.e0, c), |c|), Mul(o.r, PNoise(p, eP, c, |c|))),
                    Times(|c|, Times(p.N, Times(zeta, DigitNoise(p, sigma)))) + Times(p.N, Times(rho, Times(|c|, DigitNoise(p, sigma)))))
  {
    hide Bounded, Mul, Add, Dot, Centred, PNoise, DigitNoise;
    var k, n, b := |c|, p.N, DigitNoise(p, sigma);
    var x := XVec(p, o.e0, c);
    forall u | 0 <= u < k ensures Bounded(x[u], b) { DigitDotBound(p, c[u], o.e0, sigma); }
    BoundedDot(n, s, x, k, zeta, b);
    PNoiseBound(p, eP, c, k, sigma);
    BoundedMul(o.r, PNoise(p, eP, c, k), rho, Times(k, b));
    BoundedAdd(Dot(n, s, x, k), Mul(o.r, PNoise(p, eP, c, k)), Times(k, Times(n, Times(zeta, b))), Times(n, Times(rho, Times(k, b))));
  }

  lemma {:induction false} SwitchNoiseBound(p: Params, v: Poly, o: Opening, mD: Poly, rho: nat, sigma: nat, tau: nat)
    requires p.Valid() && Canonical(p, v) && |mD| == p.N && o.Shaped(p)
    requires SmallOpening(p, o, rho, sigma) && Bounded(mD, tau)
    ensures Bounded(Sub(Sub(Dot(p.N, Centred(p, v), o.e1, p.Kept()), Mul(o.r, Dropped(p, v))), mD),
                    DigitNoise(p, sigma) + Times(p.N, Times(rho, DropBound(p))) + tau)
  {
    hide Bounded, Mul, Sub, Dot, Centred, Dropped, DigitNoise, DropBound;
    DigitDotBound(p, v, o.e1, sigma);
    DroppedBounded(p, v);
    BoundedMul(o.r, Dropped(p, v), rho, DropBound(p));
    var e1, rd := Dot(p.N, Centred(p, v), o.e1, p.Kept()), Mul(o.r, Dropped(p, v));
    BoundedAdd(e1, rd, DigitNoise(p, sigma), Times(p.N, Times(rho, DropBound(p))));
    BoundedAdd(Sub(e1, rd), mD, DigitNoise(p, sigma) + Times(p.N, Times(rho, DropBound(p))), tau);
  }

  /** a = b + noise modulo Q, with noise of size at most beta. */
  ghost predicate Near(Q: int, a: Poly, b: Poly, beta: int) {
    |a| == |b| && exists e: Poly :: |e| == |a| && Bounded(e, beta) && Cong(Q, a, Add(b, e))
  }

  /** The hybrid product multiplies the phase by m up to HbBound, plus the weight tau of the
      input's dropped digits. */
  lemma {:induction false} HbProdNear(p: Params, crs: Vec, s: Vec, pkey: seq<Vec>, eP: seq<Vec>, key: EvalKey, index: nat,
                   m: Poly, o: Opening, c: Vec, zeta: nat, rho: nat, sigma: nat, y: Poly, tau: nat)
    requires Setting(p, crs, s, pkey, eP, key, index, m, o, c)
    requires PerUser(p, eP, |s|) && SmallOpening(p, o, rho, sigma) && SmallKeys(p, s, eP, zeta, sigma)
    requires |y| == p.N && Bounded(y, tau) && Cong(p.Q, Mul(m, Dot(p.N, s, DroppedVec(p, c), |c|)), y)
    ensures Shapes(p, key, index, pkey, c)
    ensures Near(p.Q, Dot(p.N, s, Product(p, key, index, pkey, c), |c|), Mul(m, Dot(p.N, s, c, |c|)),
                 HbBound(p, |c|, zeta, rho, sigma) + tau)
  {
    hide Bounded, Cong, Mul, Add, Sub, Dot, Centred, Dropped, DroppedVec, PNoise, DigitNoise, SumV, Product;
    hide SmallOpening, SmallKeys, XVec, DropBound, PublicKeys, Encrypts, Times;
    HbProdPhase(p, crs, s, pkey, eP, key, index, m, o, c);
    var v := HbV(p, pkey, c);
    var mD := Mul(m, Dot(p.N, s, DroppedVec(p, c), |c|));
    var a := Add(Dot(p.N, s, XVec(p, o.e0, c), |c|), Mul(o.r, PNoise(p, eP, c, |c|)));
    var b := Sub(Dot(p.N, Centred(p, v), o.e1, p.Kept()), Mul(o.r, Dropped(p, v)));
    assert HbError(p, s, pkey, eP, m, o, c) == Add(a, Sub(b, mD));
    KeyNoiseBound(p, s, eP, o, c, zeta, rho, sigma);
    SwitchNoiseBound(p, v, o, y, rho, sigma, tau);
    NearFromParts(p.Q, Dot(p.N, s, Product(p, key, index, pkey, c), |c|), Mul(m, Dot(p.N, s, c, |c|)), a, b, mD, y,
                  Times(|c|, Times(p.N, Times(zeta, DigitNoise(p, sigma)))) + Times(p.N, Times(rho, Times(|c|, DigitNoise(p, sigma)))),
                  DigitNoise(p, sigma) + Times(p.N, Times(rho, DropBound(p))) + tau);
  }

  lemma {:induction false} NearFromParts(Q: int, r: Poly, f: Poly, a: Poly, b: Poly, d: Poly, y: Poly, alpha: int, beta: int)
    requires |r| == |f| == |a| == |b| == |d| == |y|
    requires Cong(Q, r, Add(f, Add(a, Sub(b, d)))) && Cong(Q, d, y)
    requires Bounded(a, alpha) && Bounded(Sub(b, y), beta)
    ensures Near(Q, r, f, alpha + beta)
  {
    hide Bounded, Cong, Add, Sub;
    CongRefl(Q, b);
    CongRefl(Q, a);
    CongRefl(Q, f);
    CongSub(Q, b, b, d, y);
    CongAdd(Q, a, a, Sub(b, d), Sub(b, y));
    CongAdd(Q, f, f, Add(a, Sub(b, d)), Add(a, Sub(b, y)));
    CongTrans(Q, r, Add(f, Add(a, Sub(b, d))), Add(f, Add(a, Sub(b, y))));
    BoundedAdd(a, Sub(b, y), alpha, beta);
  }

  /** The dropped digits of a reduced k-user ciphertext weigh at most k·N·zeta·DropBound in the phase. */
  lemma {:induction false} DroppedPhaseBound(p: Params, s: Vec, c: Vec, zeta: nat)
    requires p.Valid() && |s| == |c| && Sized(s, p.N) && Sized(c, p.N)
    requires forall u :: 0 <= u < |s| ==> Bounded(s[u], zeta)
    requires forall u :: 0 <= u < |c| ==> Canonical(p, c[u])
    ensures Bounded(Dot(p.N, s, DroppedVec(p, c), |c|), Times(|c|, Times(p.N, Times(zeta, DropBound(p)))))
  {
    hide Bounded, Dropped, Dot, DropBound;
    forall u | 0 <= u < |c| ensures Bounded(DroppedVec(p, c)[u], DropBound(p)) { DroppedBounded(p, c[u]); }
    BoundedDot(p.N, s, DroppedVec(p, c), |c|, zeta, DropBound(p));
  }
}
