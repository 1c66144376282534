/** The multi-key accumulators: one hybrid product per secret coefficient of every user, for
    ternary secrets (two keys per coefficient) and for binary secrets (one key). */
module BlindRotation {
  import opened NegacyclicRing
  import opened RingModulus
  import opened Arithmetic
  import opened Gadget
  import opened RingVectors
  import opened HybridProduct
  import opened KeyAlgebra

  /** Entry i of the monomial table: X^i - 1. */
  function TableEntry(p: Params, i: int): (r: Poly)
    requires p.Valid()
    ensures |r| == p.N
  {
    Reduce(p.Q, Sub(Mono(i, One(p.N)), One(p.N)))
  }

  /** -c modulo 2N, computed as ModSubFast does. */
  function NegIndex(p: Params, c: int): int {
    if 0 < c then 2 * p.N - c else 0 - c
  }

  lemma {:induction false} NegIndexIsNeg(p: Params, c: int)
    requires p.Valid() && 0 <= c < 2 * p.N
    ensures 0 <= NegIndex(p, c) < 2 * p.N && NegIndex(p, c) % (2 * p.N) == (-c) % (2 * p.N)
  {
    ModShift(2 * p.N - c, -c, 2 * p.N, 1);
  }

  /** Multiplying by a table entry is X^i·a - a. */
  lemma {:induction false} TimesEntry(p: Params, a: Poly, i: int)
    requires p.Valid() && |a| == p.N
    ensures Cong(p.Q, Mul(a, TableEntry(p, i)), Sub(Mono(i, a), a))
  {
    hide Cong, Mul, Mono, Sub, Reduce;
    var one := One(p.N);
    ReduceCong(p.Q, Sub(Mono(i, one), one));
    CongMulRight(p.Q, a, TableEntry(p, i), Sub(Mono(i, one), one));
    MulSub(a, Mono(i, one), one);
    MonoMul(i, a, one);
    MulOne(a);
  }

  //////// One step ////////

  /** acc + HbProd((X^c - 1)·acc). */
  function Temp(p: Params, c: int, acc: Vec): (r: Vec)
    requires p.Valid() && Sized(acc, p.N)
    ensures |r| == |acc| && Sized(r, p.N) && forall u :: 0 <= u < |r| ==> Canonical(p, r[u])
  {
    seq(|acc|, u requires 0 <= u < |acc| => Reduce(p.Q, Mul(acc[u], TableEntry(p, c))))
  }

  function AddAll(p: Params, a: Vec, b: Vec): (r: Vec)
    requires p.Valid() && |a| == |b| && Sized(a, p.N) && Sized(b, p.N)
    ensures |r| == |a| && Sized(r, p.N) && forall u :: 0 <= u < |r| ==> Canonical(p, r[u])
  {
    seq(|a|, u requires 0 <= u < |a| => Reduce(p.Q, Add(a[u], b[u])))
  }

  lemma {:induction false} TempShapes(p: Params, key: EvalKey, c: int, index: nat, pkey: seq<Vec>, acc: Vec)
    requires Shapes(p, key, index, pkey, acc)
    ensures Shapes(p, key, index, pkey, Temp(p, c, acc))
  {
    hide Temp;
  }

  function AddToAcc(p: Params, key: EvalKey, c: int, index: nat, pkey: seq<Vec>, acc: Vec): (r: Vec)
    requires Shapes(p, key, index, pkey, acc)
    ensures |r| == |acc| && Sized(r, p.N) && forall u :: 0 <= u < |r| ==> Canonical(p, r[u])
  {
    TempShapes(p, key, c, index, pkey, acc);
    AddAll(p, acc, Product(p, key, index, pkey, Temp(p, c, acc)))
  }

  lemma {:induction false} DotMono(n: nat, e: int, xs: Vec, ys: Vec, zs: Vec, i: nat)
    requires n > 0 && Sized(xs, n) && Sized(ys, n) && Sized(zs, n) && i <= |xs| && i <= |ys| && i <= |zs|
    requires forall j :: 0 <= j < i ==> zs[j] == Mono(e, ys[j])
    ensures Dot(n, xs, zs, i) == Mono(e, Dot(n, xs, ys, i))
  {
    hide Mul, Add, Mono;
    if i == 0 {
      MonoOfZero(n, e);
    } else {
      DotMono(n, e, xs, ys, zs, i - 1);
      MonoMul(e, xs[i - 1], ys[i - 1]);
      MonoAdd(e, Dot(n, xs, ys, i - 1), Mul(xs[i - 1], ys[i - 1]));
    }
  }

  lemma {:induction false} MonoOfZero(n: nat, e: int)
    requires n > 0
    ensures Mono(e, Zero(n)) == Zero(n)
  {
    ShiftsZero(e % (2 * n), n);
  }

  lemma {:induction false} DotPlus(n: nat, xs: Vec, ys: Vec, a: Vec, b: Vec, i: nat)
    requires Sized(xs, n) && Sized(ys, n) && Sized(a, n) && Sized(b, n)
    requires i <= |xs| && i <= |ys| && i <= |a| && i <= |b|
    requires forall j :: 0 <= j < i ==> ys[j] == Add(a[j], b[j])
    ensures Dot(n, xs, ys, i) == Add(Dot(n, xs, a, i), Dot(n, xs, b, i))
  {
    hide Mul, Add;
    if i == 0 {
      AddZero(Zero(n));
    } else {
      var j := i - 1;
      DotPlus(n, xs, ys, a, b, j);
      MulAdd(xs[j], a[j], b[j]);
      AddPairs(Dot(n, xs, a, j), Dot(n, xs, b, j), Mul(xs[j], a[j]), Mul(xs[j], b[j]));
    }
  }

  /** The phase of (X^c - 1)·acc. */
  lemma {:induction false} TempPhase(p: Params, s: Vec, c: int, acc: Vec)
    requires p.Valid() && |s| == |acc| && Sized(s, p.N) && Sized(acc, p.N)
    ensures Cong(p.Q, Dot(p.N, s, Temp(p, c, acc), |acc|),
                 Sub(Mono(c, Dot(p.N, s, acc, |acc|)), Dot(p.N, s, acc, |acc|)))
  {
    hide Cong, Mul, Mono, Sub, Dot, Reduce, TableEntry;
    var k, t := |acc|, Temp(p, c, acc);
    var ms := VecMono(c, acc);
    var ys := VecSub(ms, acc);
    forall u | 0 <= u < k ensures Cong(p.Q, s[u], s[u]) && Cong(p.Q, t[u], ys[u]) {
      CongRefl(p.Q, s[u]);
      ReduceCong(p.Q, Mul(acc[u], TableEntry(p, c)));
      TimesEntry(p, acc[u], c);
      CongTrans(p.Q, t[u], Mul(acc[u], TableEntry(p, c)), ys[u]);
    }
    DotCong(p.Q, p.N, s, s, t, ys, k);
    DotMinus(p.N, s, ys, ms, acc, k);
    DotMono(p.N, c, s, acc, ms, k);
  }

  /** The phase of acc + product. */
  lemma {:induction false} SumPhase(p: Params, s: Vec, acc: Vec, prod: Vec)
    requires p.Valid() && |s| == |acc| == |prod| && Sized(s, p.N) && Sized(acc, p.N) && Sized(prod, p.N)
    ensures Cong(p.Q, Dot(p.N, s, AddAll(p, acc, prod), |s|), Add(Dot(p.N, s, acc, |s|), Dot(p.N, s, prod, |s|)))
  {
    hide Cong, Add, Dot, Reduce;
    var r, ys := AddAll(p, acc, prod), VecAdd(acc, prod);
    forall u | 0 <= u < |s| ensures Cong(p.Q, s[u], s[u]) && Cong(p.Q, r[u], ys[u]) {
      CongRefl(p.Q, s[u]);
      ReduceCong(p.Q, Add(acc[u], prod[u]));
    }
    DotCong(p.Q, p.N, s, s, r, ys, |s|);
    DotPlus(p.N, s, ys, acc, prod, |s|);
  }

  /** f + m·(X^c·f - f) = g, with each of the three terms known up to noise or modulo Q. */
  lemma {:induction false} StepCombine(Q: int, r: Poly, f: Poly, pr: Poly, m: Poly, t: Poly, c: int, g: Poly, beta: int)
    requires |r| == |f| == |pr| == |m| == |t| == |g| > 0
    requires Cong(Q, r, Add(f, pr)) && Near(Q, pr, Mul(m, t), beta) && Cong(Q, t, Sub(Mono(c, f), f))
    requires Add(f, Mul(m, Sub(Mono(c, f), f))) == g
    ensures Near(Q, r, g, beta)
  {
    hide Cong, Add, Sub, Mul, Mono, Bounded;
    var e: Poly :| |e| == |pr| && Bounded(e, beta) && Cong(Q, pr, Add(Mul(m, t), e));
    var x := Mul(m, Sub(Mono(c, f), f));
    CongMulRight(Q, m, t, Sub(Mono(c, f), f));
    CongRefl(Q, e);
    CongAdd(Q, Mul(m, t), x, e, e);
    CongTrans(Q, pr, Add(Mul(m, t), e), Add(x, e));
    CongRefl(Q, f);
    CongAdd(Q, f, f, pr, Add(x, e));
    AddAssoc(f, x, e);
    CongTrans(Q, r, Add(f, pr), Add(g, e));
  }

  /** The multiplier b+ - b-·X^-c for a ternary secret t in {-1, 0, 1}. */
  function Multiplier(p: Params, c: int, t: int): (m: Poly)
    requires p.Valid()
    ensures |m| == p.N
  {
    Sub(Constant(p.N, PlusBit(t)), Mono(-c, Constant(p.N, MinusBit(t))))
  }

  function PlusBit(t: int): int { if t == 1 then 1 else 0 }
  function MinusBit(t: int): int { if t == -1 then 1 else 0 }

  lemma {:induction false} MultiplierForm(p: Params, c: int, t: int)
    requires p.Valid() && -1 <= t <= 1
    ensures Multiplier(p, c, t) == Scale(t, Mono(if t == -1 then -c else 0, One(p.N)))
  {
    hide Mono;
    MonoOfZero(p.N, -c);
    MonoZero(One(p.N));
    assert Constant(p.N, 0) == Zero(p.N);
    assert Sub(Zero(p.N), Mono(-c, One(p.N))) == Scale(-1, Mono(-c, One(p.N)));
    assert Sub(One(p.N), Zero(p.N)) == Scale(1, One(p.N));
    assert Sub(Zero(p.N), Zero(p.N)) == Scale(0, One(p.N));
  }

  /** 1 + (X^c - 1)(b+ - b-·X^-c) = X^(ct). */
  lemma {:induction false} MultiplierIdentity(p: Params, c: int, t: int, f: Poly)
    requires p.Valid() && -1 <= t <= 1 && |f| == p.N
    ensures Add(f, Mul(Multiplier(p, c, t), Sub(Mono(c, f), f))) == Mono(c * t, f)
  {
    hide Mul, Mono, Sub, Add, Multiplier;
    var one, d := One(p.N), Sub(Mono(c, f), f);
    var e := if t == -1 then -c else 0;
    MultiplierForm(p, c, t);
    MulScale(t, Mono(e, one), d);
    MonoMul(e, one, d);
    MulOne(d);
    MonoDiff(e, Mono(c, f), f);
    MonoMono(e, c, f);
    MonoZero(f);
    TernaryCases(f, Mono(c, f), Mono(-c, f), t);
    if t == 1 {
      MonoZero(Mono(c, f));
    } else if t == 0 {
      MonoZero(Mono(c, f));
    }
  }

  lemma {:induction false} MonoDiff(e: int, a: Poly, b: Poly)
    requires |a| == |b| > 0
    ensures Mono(e, Sub(a, b)) == Sub(Mono(e, a), Mono(e, b))
  {
    hide Mono;
    SubIsAdd(a, b);
    MonoAdd(e, a, Scale(-1, b));
    MonoScale(e, -1, b);
    SubIsAdd(Mono(e, a), Mono(e, b));
  }

  lemma {:induction false} TernaryCases(f: Poly, up: Poly, down: Poly, t: int)
    requires |f| == |up| == |down| && -1 <= t <= 1
    ensures t == 1 ==> Add(f, Scale(t, Sub(up, f))) == up
    ensures t == 0 ==> Add(f, Scale(t, Sub(up, f))) == f
    ensures t == -1 ==> Add(f, Scale(t, Sub(f, down))) == down
  {
  }

  /** Weight of the dropped digits in one step. */
  function DropWeight(p: Params, k: nat, zeta: nat): nat
    requires p.Valid()
  {
    Times(k, Times(p.N, Times(zeta, DropBound(p))))
  }

  /** Users, their public keys, and the noise bounds on all key material. */
  datatype World = World(p: Params, crs: Vec, s: Vec, pkey: seq<Vec>, eP: seq<Vec>, zeta: nat, rho: nat, sigma: nat) {
    ghost predicate Valid() {
      p.Valid() && |crs| == p.Kept() && Sized(crs, p.N) && |s| > 0 && Sized(s, p.N) &&
      PublicKeys(p, crs, s, pkey, eP) && SmallKeys(p, s, eP, zeta, sigma)
    }

    /** The phase of a k-user ciphertext: sum of s_u·c_u. */
    function Phase(c: Vec): (r: Poly)
      requires |c| == |s| && Sized(s, p.N) && Sized(c, p.N)
      ensures |r| == p.N
    {
      Dot(p.N, s, c, |s|)
    }
  }

  /** key encrypts m under user u's secret, with r and noise of size at most a·rho and a·sigma. */
  ghost predicate KeyFor(w: World, u: nat, key: EvalKey, m: Poly, a: nat)
    requires w.Valid() && u < |w.s|
  {
    |m| == w.p.N && key.Shaped(w.p) &&
    exists o: Opening :: o.Shaped(w.p) && Encrypts(w.p, w.crs, w.s[u], key, m, o) &&
                         SmallOpening(w.p, o, Times(a, w.rho), Times(a, w.sigma))
  }

  lemma {:induction false} WorldShapes(w: World, key: EvalKey, u: nat, acc: Vec)
    requires w.Valid() && u < |w.s| && key.Shaped(w.p) && |acc| == |w.s| && Sized(acc, w.p.N)
    ensures Shapes(w.p, key, u, w.pkey, acc) && PerUser(w.p, w.eP, |w.s|)
  {
  }

  lemma {:induction false} SmallKeysMore(w: World, a: nat)
    requires w.Valid() && a >= 1
    ensures SmallKeys(w.p, w.s, w.eP, w.zeta, Times(a, w.sigma))
  {
    MulMono(1, a, w.sigma);
    forall u, i | 0 <= u < |w.s| && 0 <= i < w.p.Kept() ensures Bounded(w.eP[u][i], Times(a, w.sigma)) {
      assert Bounded(w.eP[u][i], w.sigma);
    }
  }

  /** A step with a key for multiplier m turns the phase f into f + m·(X^c·f - f). */
  lemma {:induction false} StepNear(w: World, u: nat, key: EvalKey, m: Poly, a: nat, c: int, acc: Vec, g: Poly)
    requires w.Valid() && u < |w.s| && KeyFor(w, u, key, m, a) && a >= 1
    requires |acc| == |w.s| && Sized(acc, w.p.N) && |g| == w.p.N
    requires Bounded(Mul(m, w.Phase(DroppedVec(w.p, Temp(w.p, c, acc)))), DropWeight(w.p, |w.s|, w.zeta))
    requires Add(w.Phase(acc), Mul(m, Sub(Mono(c, w.Phase(acc)), w.Phase(acc)))) == g
    ensures Shapes(w.p, key, u, w.pkey, acc)
    ensures Near(w.p.Q, w.Phase(AddToAcc(w.p, key, c, u, w.pkey, acc)), g,
                 HbBound(w.p, |w.s|, w.zeta, Times(a, w.rho), Times(a, w.sigma)) + DropWeight(w.p, |w.s|, w.zeta))
  {
    hide Cong, Near, Mul, Mono, Sub, Add, Dot, Bounded, Temp, Product, AddAll, DroppedVec, HbBound, DropWeight, Times, PublicKeys, Encrypts, SmallKeys, SmallOpening;
    var p, t := w.p, Temp(w.p, c, acc);
    WorldShapes(w, key, u, acc);
    TempShapes(p, key, c, u, w.pkey, acc);
    var o: Opening :| o.Shaped(p) && Encrypts(p, w.crs, w.s[u], key, m, o) &&
                      SmallOpening(p, o, Times(a, w.rho), Times(a, w.sigma));
    SmallKeysMore(w, a);
    var y := Mul(m, w.Phase(DroppedVec(p, t)));
    CongRefl(p.Q, y);
    HbProdNear(p, w.crs, w.s, w.pkey, w.eP, key, u, m, o, t, w.zeta, Times(a, w.rho), Times(a, w.sigma), y, DropWeight(p, |w.s|, w.zeta));
    TempPhase(p, w.s, c, acc);
    var prod := Product(p, key, u, w.pkey, t);
    SumPhase(p, w.s, acc, prod);
    StepCombine(p.Q, w.Phase(AddAll(p, acc, prod)), w.Phase(acc), w.Phase(prod), m, w.Phase(t), c, g,
                HbBound(p, |w.s|, w.zeta, Times(a, w.rho), Times(a, w.sigma)) + DropWeight(p, |w.s|, w.zeta));
  }

  //////// Combining the keys of one coefficient ////////

  function StepVec(p: Params, a: Vec, b: Vec, c: int): (r: Vec)
    requires p.Valid() && |a| == |b| && Sized(a, p.N) && Sized(b, p.N)
    ensures |r| == |a| && Sized(r, p.N)
  {
    seq(|a|, i requires 0 <= i < |a| =>
      Reduce(p.Q, Sub(Sub(a[i], Mul(b[i], TableEntry(p, NegIndex(p, c)))), b[i])))
  }

  function FirstVec(p: Params, z: Vec, a: Vec, b: Vec, c: int): (r: Vec)
    requires p.Valid() && |z| == |a| == |b| && Sized(z, p.N) && Sized(a, p.N) && Sized(b, p.N)
    ensures |r| == |a| && Sized(r, p.N)
  {
    seq(|a|, i requires 0 <= i < |a| =>
      Reduce(p.Q, Add(Add(z[i], Mul(a[i], TableEntry(p, c))), Mul(b[i], TableEntry(p, NegIndex(p, c))))))
  }

  function FirstVecBinary(p: Params, z: Vec, a: Vec, c: int): (r: Vec)
    requires p.Valid() && |z| == |a| && Sized(z, p.N) && Sized(a, p.N)
    ensures |r| == |a| && Sized(r, p.N)
  {
    seq(|a|, i requires 0 <= i < |a| => Reduce(p.Q, Add(z[i], Mul(a[i], TableEntry(p, c)))))
  }

  lemma {:induction false} StepVecCong(p: Params, a: Vec, b: Vec, c: int, i: nat)
    requires p.Valid() && |a| == |b| && Sized(a, p.N) && Sized(b, p.N) && i < |a| && 0 <= c < 2 * p.N
    ensures Cong(p.Q, StepVec(p, a, b, c)[i], Sub(a[i], Mono(-c, b[i])))
  {
    hide Cong, Mul, Mono, Reduce, TableEntry;
    var e := NegIndex(p, c);
    NegIndexIsNeg(p, c);
    MonoMod(e, -c, b[i]);
    var x := Mul(b[i], TableEntry(p, e));
    TimesEntry(p, b[i], e);
    CongRefl(p.Q, a[i]);
    CongRefl(p.Q, b[i]);
    CongSub(p.Q, a[i], a[i], x, Sub(Mono(-c, b[i]), b[i]));
    CongSub(p.Q, Sub(a[i], x), Sub(a[i], Sub(Mono(-c, b[i]), b[i])), b[i], b[i]);
    ReduceCong(p.Q, Sub(Sub(a[i], x), b[i]));
    assert Sub(Sub(a[i], Sub(Mono(-c, b[i]), b[i])), b[i]) == Sub(a[i], Mono(-c, b[i]));
    CongTrans(p.Q, StepVec(p, a, b, c)[i], Sub(Sub(a[i], x), b[i]), Sub(a[i], Mono(-c, b[i])));
  }

  lemma {:induction false} FirstVecCong(p: Params, z: Vec, a: Vec, b: Vec, c: int, i: nat)
    requires p.Valid() && |z| == |a| == |b| && Sized(z, p.N) && Sized(a, p.N) && Sized(b, p.N) && i < |a| && 0 <= c < 2 * p.N
    ensures Cong(p.Q, FirstVec(p, z, a, b, c)[i],
                 Add(Add(z[i], Sub(Mono(c, a[i]), a[i])), Sub(Mono(-c, b[i]), b[i])))
  {
    hide Cong, Mul, Mono, Reduce, TableEntry, Add, Sub;
    var e := NegIndex(p, c);
    NegIndexIsNeg(p, c);
    MonoMod(e, -c, b[i]);
    var x, y := Mul(a[i], TableEntry(p, c)), Mul(b[i], TableEntry(p, e));
    TimesEntry(p, a[i], c);
    TimesEntry(p, b[i], e);
    CongRefl(p.Q, z[i]);
    CongAdd(p.Q, z[i], z[i], x, Sub(Mono(c, a[i]), a[i]));
    CongAdd(p.Q, Add(z[i], x), Add(z[i], Sub(Mono(c, a[i]), a[i])), y, Sub(Mono(-c, b[i]), b[i]));
    ReduceCong(p.Q, Add(Add(z[i], x), y));
    CongTrans(p.Q, FirstVec(p, z, a, b, c)[i], Add(Add(z[i], x), y),
              Add(Add(z[i], Sub(Mono(c, a[i]), a[i])), Sub(Mono(-c, b[i]), b[i])));
  }

  lemma {:induction false} FirstVecBinaryCong(p: Params, z: Vec, a: Vec, c: int, i: nat)
    requires p.Valid() && |z| == |a| && Sized(z, p.N) && Sized(a, p.N) && i < |a|
    ensures Cong(p.Q, FirstVecBinary(p, z, a, c)[i], Add(z[i], Sub(Mono(c, a[i]), a[i])))
  {
    hide Cong, Mul, Mono, Reduce, TableEntry, Add, Sub;
    var x := Mul(a[i], TableEntry(p, c));
    TimesEntry(p, a[i], c);
    CongRefl(p.Q, z[i]);
    CongAdd(p.Q, z[i], z[i], x, Sub(Mono(c, a[i]), a[i]));
    ReduceCong(p.Q, Add(z[i], x));
    CongTrans(p.Q, FirstVecBinary(p, z, a, c)[i], Add(z[i], x), Add(z[i], Sub(Mono(c, a[i]), a[i])));
  }

  /** The key AddToAccXZW builds from evk+ and evk-. */
  function StepKey(p: Params, ek1: EvalKey, ek2: EvalKey, c: int): (r: EvalKey)
    requires p.Valid() && ek1.Shaped(p) && ek2.Shaped(p)
    ensures r.Shaped(p)
  {
    EvalKey(StepVec(p, ek1.d, ek2.d, c), StepVec(p, ek1.f, ek2.f, c))
  }

  /** The key AddToAccXZW0 builds for the very first coefficient. */
  function FirstKey(p: Params, star: EvalKey, ek1: EvalKey, ek2: EvalKey, c: int): (r: EvalKey)
    requires p.Valid() && star.Shaped(p) && ek1.Shaped(p) && ek2.Shaped(p)
    ensures r.Shaped(p)
  {
    EvalKey(FirstVec(p, star.d, ek1.d, ek2.d, c), FirstVec(p, star.f, ek1.f, ek2.f, c))
  }

  function FirstKeyBinary(p: Params, star: EvalKey, ek1: EvalKey, c: int): (r: EvalKey)
    requires p.Valid() && star.Shaped(p) && ek1.Shaped(p)
    ensures r.Shaped(p)
  {
    EvalKey(FirstVecBinary(p, star.d, ek1.d, c), FirstVecBinary(p, star.f, ek1.f, c))
  }

  //////// Linearity of KeyFor ////////

  lemma {:induction false} KeyForMono(w: World, u: nat, key: EvalKey, m: Poly, a: nat, e: int)
    requires w.Valid() && u < |w.s| && KeyFor(w, u, key, m, a)
    ensures KeyFor(w, u, KeyMono(w.p, e, key), Mono(e, m), a)
  {
    hide Cong, Mono, Encrypts, SmallOpening, PublicKeys, KeyMono, OpenMono, Times;
    var o: Opening :| o.Shaped(w.p) && Encrypts(w.p, w.crs, w.s[u], key, m, o) &&
                      SmallOpening(w.p, o, Times(a, w.rho), Times(a, w.sigma));
    EncryptsMono(w.p, w.crs, w.s[u], key, m, o, e);
    SmallMono(w.p, e, o, Times(a, w.rho), Times(a, w.sigma));
  }

  lemma {:induction false} KeyForSub(w: World, u: nat, key: EvalKey, m: Poly, a: nat, key': EvalKey, m': Poly, b: nat)
    requires w.Valid() && u < |w.s| && KeyFor(w, u, key, m, a) && KeyFor(w, u, key', m', b)
    ensures KeyFor(w, u, KeySub(w.p, key, key'), Sub(m, m'), a + b)
  {
    hide Cong, Sub, Encrypts, SmallOpening, PublicKeys, KeySub, OpenSub, Times;
    var o: Opening :| o.Shaped(w.p) && Encrypts(w.p, w.crs, w.s[u], key, m, o) &&
                      SmallOpening(w.p, o, Times(a, w.rho), Times(a, w.sigma));
    var o': Opening :| o'.Shaped(w.p) && Encrypts(w.p, w.crs, w.s[u], key', m', o') &&
                       SmallOpening(w.p, o', Times(b, w.rho), Times(b, w.sigma));
    EncryptsSub(w.p, w.crs, w.s[u], key, m, o, key', m', o');
    SmallSub(w.p, o, o', Times(a, w.rho), Times(a, w.sigma), Times(b, w.rho), Times(b, w.sigma));
    TimesSum(a, b, w.rho);
    TimesSum(a, b, w.sigma);
  }

  lemma {:induction false} TimesSum(a: nat, b: nat, c: nat)
    ensures Times(a, c) + Times(b, c) == Times(a + b, c)
  {
  }

  lemma {:induction false} KeyForAdd(w: World, u: nat, key: EvalKey, m: Poly, a: nat, key': EvalKey, m': Poly, b: nat)
    requires w.Valid() && u < |w.s| && KeyFor(w, u, key, m, a) && KeyFor(w, u, key', m', b)
    ensures KeyFor(w, u, KeyAdd(w.p, key, key'), Add(m, m'), a + b)
  {
    hide Cong, Add, Encrypts, SmallOpening, PublicKeys, KeyAdd, OpenAdd, Times;
    var o: Opening :| o.Shaped(w.p) && Encrypts(w.p, w.crs, w.s[u], key, m, o) &&
                      SmallOpening(w.p, o, Times(a, w.rho), Times(a, w.sigma));
    var o': Opening :| o'.Shaped(w.p) && Encrypts(w.p, w.crs, w.s[u], key', m', o') &&
                       SmallOpening(w.p, o', Times(b, w.rho), Times(b, w.sigma));
    EncryptsAdd(w.p, w.crs, w.s[u], key, m, o, key', m', o');
    SmallSub(w.p, o, o', Times(a, w.rho), Times(a, w.sigma), Times(b, w.rho), Times(b, w.sigma));
    TimesSum(a, b, w.rho);
    TimesSum(a, b, w.sigma);
  }

  lemma {:induction false} KeyForCong(w: World, u: nat, key: EvalKey, key': EvalKey, m: Poly, a: nat)
    requires w.Valid() && u < |w.s| && KeyFor(w, u, key', m, a) && key.Shaped(w.p)
    requires forall i :: 0 <= i < w.p.Kept() ==> Cong(w.p.Q, key.d[i], key'.d[i]) && Cong(w.p.Q, key.f[i], key'.f[i])
    ensures KeyFor(w, u, key, m, a)
  {
    hide Cong, Encrypts, SmallOpening, PublicKeys, Times;
    var o: Opening :| o.Shaped(w.p) && Encrypts(w.p, w.crs, w.s[u], key', m, o) &&
                      SmallOpening(w.p, o, Times(a, w.rho), Times(a, w.sigma));
    EncryptsCong(w.p, w.crs, w.s[u], key, key', m, o);
  }

  /** The combined key encrypts b+ - b-·X^-c. */
  lemma {:induction false} StepKeyFor(w: World, u: nat, ek1: EvalKey, ek2: EvalKey, c: int, t: int)
    requires w.Valid() && u < |w.s| && 0 <= c < 2 * w.p.N
    requires KeyFor(w, u, ek1, Constant(w.p.N, PlusBit(t)), 1) && KeyFor(w, u, ek2, Constant(w.p.N, MinusBit(t)), 1)
    ensures KeyFor(w, u, StepKey(w.p, ek1, ek2, c), Multiplier(w.p, c, t), 2)
  {
    hide Cong, Mono, Sub, StepVec, KeyFor, PublicKeys, Constant;
    var m1, m2 := Constant(w.p.N, PlusBit(t)), Constant(w.p.N, MinusBit(t));
    KeyForShape(w, u, ek1, m1, 1);
    KeyForShape(w, u, ek2, m2, 1);
    KeyForMono(w, u, ek2, m2, 1, -c);
    var k2 := KeyMono(w.p, -c, ek2);
    KeyForSub(w, u, ek1, m1, 1, k2, Mono(-c, m2), 1);
    forall i | 0 <= i < w.p.Kept()
      ensures Cong(w.p.Q, StepVec(w.p, ek1.d, ek2.d, c)[i], Sub(ek1.d[i], Mono(-c, ek2.d[i])))
      ensures Cong(w.p.Q, StepVec(w.p, ek1.f, ek2.f, c)[i], Sub(ek1.f[i], Mono(-c, ek2.f[i])))
    {
      StepVecCong(w.p, ek1.d, ek2.d, c, i);
      StepVecCong(w.p, ek1.f, ek2.f, c, i);
    }
    KeyForCong(w, u, StepKey(w.p, ek1, ek2, c), KeySub(w.p, ek1, k2), Multiplier(w.p, c, t), 2);
  }

  lemma {:induction false} KeyForShape(w: World, u: nat, key: EvalKey, m: Poly, a: nat)
    requires w.Valid() && u < |w.s| && KeyFor(w, u, key, m, a)
    ensures |m| == w.p.N && key.Shaped(w.p)
  {
  }

  /** sInv·(1 + b+(X^c - 1) + b-(X^-c - 1)) = sInv·X^(ct). */
  lemma {:induction false} FirstMessage(n: nat, c: int, t: int, z: Poly)
    requires n > 0 && |z| == n && -1 <= t <= 1
    ensures var a, b := Scale(PlusBit(t), z), Scale(MinusBit(t), z);
            Add(Add(z, Sub(Mono(c, a), a)), Sub(Mono(-c, b), b)) == Mono(c * t, z)
  {
    hide Mono;
    var a, b := Scale(PlusBit(t), z), Scale(MinusBit(t), z);
    MonoScale(c, PlusBit(t), z);
    MonoScale(-c, MinusBit(t), z);
    MonoZero(z);
    var up, down := Mono(c, z), Mono(-c, z);
    if t == 1 {
      assert Add(Add(z, Sub(Scale(1, up), Scale(1, z))), Sub(Scale(0, down), Scale(0, z))) == up;
    } else if t == 0 {
      assert Add(Add(z, Sub(Scale(0, up), Scale(0, z))), Sub(Scale(0, down), Scale(0, z))) == z;
    } else {
      assert Add(Add(z, Sub(Scale(0, up), Scale(0, z))), Sub(Scale(1, down), Scale(1, z))) == down;
    }
  }

  /** The first key encrypts X^(ct)/s_0. */
  lemma {:induction false} FirstKeyFor(w: World, star: EvalKey, ek1: EvalKey, ek2: EvalKey, z: Poly, c: int, t: int)
    requires w.Valid() && 0 <= c < 2 * w.p.N && |z| == w.p.N && -1 <= t <= 1 && KeyFor(w, 0, star, z, 1)
    requires KeyFor(w, 0, ek1, Scale(PlusBit(t), z), 1) && KeyFor(w, 0, ek2, Scale(MinusBit(t), z), 1)
    ensures KeyFor(w, 0, FirstKey(w.p, star, ek1, ek2, c), Mono(c * t, z), 5)
  {
    hide Cong, Mono, Sub, Add, FirstVec, KeyFor, PublicKeys, Scale;
    var p, a, b := w.p, Scale(PlusBit(t), z), Scale(MinusBit(t), z);
    KeyForShape(w, 0, star, z, 1);
    KeyForShape(w, 0, ek1, a, 1);
    KeyForShape(w, 0, ek2, b, 1);
    KeyForMono(w, 0, ek1, a, 1, c);
    KeyForMono(w, 0, ek2, b, 1, -c);
    KeyForSub(w, 0, KeyMono(p, c, ek1), Mono(c, a), 1, ek1, a, 1);
    KeyForSub(w, 0, KeyMono(p, -c, ek2), Mono(-c, b), 1, ek2, b, 1);
    var k1, k2 := KeySub(p, KeyMono(p, c, ek1), ek1), KeySub(p, KeyMono(p, -c, ek2), ek2);
    KeyForAdd(w, 0, star, z, 1, k1, Sub(Mono(c, a), a), 2);
    KeyForAdd(w, 0, KeyAdd(p, star, k1), Add(z, Sub(Mono(c, a), a)), 3, k2, Sub(Mono(-c, b), b), 2);
    FirstMessage(p.N, c, t, z);
    var key := FirstKey(p, star, ek1, ek2, c);
    var ref := KeyAdd(p, KeyAdd(p, star, k1), k2);
    forall i | 0 <= i < p.Kept() ensures Cong(p.Q, key.d[i], ref.d[i]) && Cong(p.Q, key.f[i], ref.f[i]) {
      FirstVecCong(p, star.d, ek1.d, ek2.d, c, i);
      FirstVecCong(p, star.f, ek1.f, ek2.f, c, i);
    }
    KeyForCong(w, 0, key, ref, Mono(c * t, z), 5);
  }

  lemma {:induction false} FirstKeyBinaryFor(w: World, star: EvalKey, ek1: EvalKey, z: Poly, c: int, t: int)
    requires w.Valid() && |z| == w.p.N && 0 <= t <= 1 && KeyFor(w, 0, star, z, 1)
    requires KeyFor(w, 0, ek1, Scale(t, z), 1)
    ensures KeyFor(w, 0, FirstKeyBinary(w.p, star, ek1, c), Mono(c * t, z), 3)
  {
    hide Cong, Mono, Sub, Add, FirstVecBinary, KeyFor, PublicKeys, Scale;
    var p, a := w.p, Scale(t, z);
    KeyForShape(w, 0, star, z, 1);
    KeyForShape(w, 0, ek1, a, 1);
    KeyForMono(w, 0, ek1, a, 1, c);
    KeyForSub(w, 0, KeyMono(p, c, ek1), Mono(c, a), 1, ek1, a, 1);
    var k1 := KeySub(p, KeyMono(p, c, ek1), ek1);
    KeyForAdd(w, 0, star, z, 1, k1, Sub(Mono(c, a), a), 2);
    FirstMessage(p.N, c, t, z);
    var b := Scale(MinusBit(t), z);
    AbsorbZero(Add(z, Sub(Mono(c, a), a)), -c, z);
    var key := FirstKeyBinary(p, star, ek1, c);
    var ref := KeyAdd(p, star, k1);
    forall i | 0 <= i < p.Kept() ensures Cong(p.Q, key.d[i], ref.d[i]) && Cong(p.Q, key.f[i], ref.f[i]) {
      FirstVecBinaryCong(p, star.d, ek1.d, c, i);
      FirstVecBinaryCong(p, star.f, ek1.f, c, i);
    }
    KeyForCong(w, 0, key, ref, Mono(c * t, z), 3);
  }

  lemma {:induction false} AbsorbZero(a: Poly, e: int, z: Poly)
    requires |a| == |z| > 0
    ensures Add(a, Sub(Mono(e, Scale(0, z)), Scale(0, z))) == a
  {
    hide Mono;
    MonoScale(e, 0, z);
  }
}
