/** Whole runs of the multi-key accumulators. */
module MultiKeyRun {
  import opened NegacyclicRing
  import opened RingModulus
  import opened Arithmetic
  import opened Gadget
  import opened RingVectors
  import opened HybridProduct
  import opened KeyAlgebra
  import opened BlindRotation

  type Exponents = seq<seq<int>>

  /** Ternary secrets use evk+ and evk-; binary secrets use one key per coefficient. */
  datatype Variant = Ternary | Binary {
    function FirstFactor(): (a: nat) { if Ternary? then 5 else 3 }
    function StepFactor(): (a: nat) { if Ternary? then 2 else 1 }
    predicate Secret(t: int) { if Ternary? then -1 <= t <= 1 else 0 <= t <= 1 }
  }

  /** Bootstrapping keys: evk* for the first coefficient, evk+ and evk- for all coefficients. */
  datatype AccKeys = AccKeys(star: EvalKey, plus: seq<seq<EvalKey>>, minus: seq<seq<EvalKey>>) {
    ghost predicate Shaped(p: Params, k: nat, n: nat)
      requires p.digits >= 2
    {
      star.Shaped(p) && |plus| == |minus| == k &&
      (forall u :: 0 <= u < k ==> |plus[u]| == |minus[u]| == n) &&
      forall u, i :: 0 <= u < k && 0 <= i < n ==> plus[u][i].Shaped(p) && minus[u][i].Shaped(p)
    }
  }

  ghost predicate Rectangular(m: seq<seq<int>>, k: nat, n: nat) {
    |m| == k && forall u :: 0 <= u < k ==> |m[u]| == n
  }

  ghost predicate RunShape(p: Params, pkey: seq<Vec>, keys: AccKeys, exps: Exponents, n: nat, start: Vec) {
    p.Valid() && |start| > 0 && n > 0 && Sized(start, p.N) && PerUser(p, pkey, |start|) &&
    keys.Shaped(p, |start|, n) && Rectangular(exps, |start|, n)
  }

  function FirstKeyOf(v: Variant, p: Params, star: EvalKey, ek1: EvalKey, ek2: EvalKey, c: int): (r: EvalKey)
    requires p.Valid() && star.Shaped(p) && ek1.Shaped(p) && ek2.Shaped(p)
    ensures r.Shaped(p)
  {
    if v.Ternary? then FirstKey(p, star, ek1, ek2, c) else FirstKeyBinary(p, star, ek1, c)
  }

  function StepKeyOf(v: Variant, p: Params, ek1: EvalKey, ek2: EvalKey, c: int): (r: EvalKey)
    requires p.Valid() && ek1.Shaped(p) && ek2.Shaped(p)
    ensures r.Shaped(p)
  {
    if v.Ternary? then StepKey(p, ek1, ek2, c) else ek1
  }

  /** One iteration of EvalAcc's nested loop. */
  function Step(v: Variant, p: Params, pkey: seq<Vec>, keys: AccKeys, exps: Exponents, n: nat, u: nat, i: nat, acc: Vec): (r: Vec)
    requires RunShape(p, pkey, keys, exps, n, acc) && u < |acc| && i < n
    ensures |r| == |acc| && Sized(r, p.N)
  {
    var c := exps[u][i];
    if u == 0 && i == 0 then
      Product(p, FirstKeyOf(v, p, keys.star, keys.plus[0][0], keys.minus[0][0], c), 0, pkey, acc)
    else
      AddToAcc(p, StepKeyOf(v, p, keys.plus[u][i], keys.minus[u][i], c), c, u, pkey, acc)
  }

  /** The accumulator after users 0..u-1 and the first i coefficients of user u. */
  function Run(v: Variant, p: Params, pkey: seq<Vec>, keys: AccKeys, exps: Exponents, n: nat, start: Vec, u: nat, i: nat): (r: Vec)
    requires RunShape(p, pkey, keys, exps, n, start) && i <= n && (if i == 0 then u <= |start| else u < |start|)
    ensures |r| == |start| && Sized(r, p.N)
    decreases u, i
  {
    if i > 0 then Step(v, p, pkey, keys, exps, n, u, i - 1, Run(v, p, pkey, keys, exps, n, start, u, i - 1))
    else if u > 0 then Run(v, p, pkey, keys, exps, n, start, u - 1, n)
    else start
  }

  /** The inner product of exponents and secrets over the same range. */
  function InnerExponent(exps: Exponents, t: seq<seq<int>>, n: nat, u: nat, i: nat): int
    requires |exps| == |t| && i <= n && (if i == 0 then u <= |exps| else u < |exps|)
    requires Rectangular(exps, |exps|, n) && Rectangular(t, |exps|, n)
    decreases u, i
  {
    if i > 0 then exps[u][i - 1] * t[u][i - 1] + InnerExponent(exps, t, n, u, i - 1)
    else if u > 0 then InnerExponent(exps, t, n, u - 1, n)
    else 0
  }

  /** The keys encrypt the secrets t; the first coefficient's keys carry the factor
      z = 1/s_0. */
  ghost predicate Genuine(v: Variant, w: World, z: Poly, keys: AccKeys, t: seq<seq<int>>, n: nat) {
    w.Valid() && |z| == w.p.N && Cong(w.p.Q, Mul(z, w.s[0]), One(w.p.N)) && n > 0 &&
    keys.Shaped(w.p, |w.s|, n) && Rectangular(t, |w.s|, n) &&
    KeyFor(w, 0, keys.star, z, 1) &&
    forall u, i :: 0 <= u < |w.s| && 0 <= i < n ==> GenuineAt(v, w, z, keys, t, u, i)
  }

  ghost predicate GenuineAt(v: Variant, w: World, z: Poly, keys: AccKeys, t: seq<seq<int>>, u: nat, i: nat)
    requires w.Valid() && |z| == w.p.N && u < |w.s| && u < |t| && u < |keys.plus| && u < |keys.minus|
    requires i < |t[u]| && i < |keys.plus[u]| && i < |keys.minus[u]|
  {
    v.Secret(t[u][i]) &&
    KeyFor(w, u, keys.plus[u][i], Message(w.p, z, PlusBit(t[u][i]), u, i), 1) &&
    (v.Ternary? ==> KeyFor(w, u, keys.minus[u][i], Message(w.p, z, MinusBit(t[u][i]), u, i), 1))
  }

  function Message(p: Params, z: Poly, bit: int, u: nat, i: nat): (m: Poly)
    requires |z| == p.N
    ensures |m| == p.N
  {
    if u == 0 && i == 0 then Scale(bit, z) else Constant(p.N, bit)
  }

  /** (Rx, 0, ..., 0). */
  function Start(p: Params, k: nat, rx: Poly): (r: Vec)
    requires k > 0 && |rx| == p.N
    ensures |r| == k && Sized(r, p.N)
  {
    [rx] + seq(k - 1, _ => Zero(p.N))
  }

  /** Noise of the first step. */
  function FirstBound(v: Variant, w: World): nat
    requires w.p.Valid()
  {
    HbBound(w.p, |w.s|, w.zeta, Times(v.FirstFactor(), w.rho), Times(v.FirstFactor(), w.sigma)) + DropBound(w.p)
  }

  /** Noise of every later step. */
  function StepBound(v: Variant, w: World): nat
    requires w.p.Valid()
  {
    HbBound(w.p, |w.s|, w.zeta, Times(v.StepFactor(), w.rho), Times(v.StepFactor(), w.sigma)) + DropWeight(w.p, |w.s|, w.zeta)
  }

  lemma {:induction false} NearStep(Q: int, r: Poly, f: Poly, g: Poly, e: int, d: int, alpha: int, beta: int)
    requires |r| == |f| == |g| > 0
    requires Near(Q, f, Mono(e, g), alpha) && Near(Q, r, Mono(d, f), beta)
    ensures Near(Q, r, Mono(d + e, g), alpha + beta)
  {
    hide Cong, Bounded, Mono, Add;
    var x: Poly :| |x| == |f| && Bounded(x, alpha) && Cong(Q, f, Add(Mono(e, g), x));
    var y: Poly :| |y| == |r| && Bounded(y, beta) && Cong(Q, r, Add(Mono(d, f), y));
    CongMono(Q, d, f, Add(Mono(e, g), x));
    MonoAdd(d, Mono(e, g), x);
    MonoMono(d, e, g);
    var h := Mono(d + e, g);
    CongRefl(Q, y);
    CongAdd(Q, Mono(d, f), Add(h, Mono(d, x)), y, y);
    CongTrans(Q, r, Add(Mono(d, f), y), Add(Add(h, Mono(d, x)), y));
    AddAssoc(h, Mono(d, x), y);
    BoundedMono(d, x, alpha);
    BoundedAdd(Mono(d, x), y, alpha, beta);
  }

  lemma {:induction false} NearCong(Q: int, r: Poly, f: Poly, g: Poly, beta: int)
    requires |r| == |f| == |g| && Near(Q, r, f, beta) && Cong(Q, f, g)
    ensures Near(Q, r, g, beta)
  {
    hide Cong, Bounded, Add;
    var x: Poly :| |x| == |r| && Bounded(x, beta) && Cong(Q, r, Add(f, x));
    CongRefl(Q, x);
    CongAdd(Q, f, g, x, x);
    CongTrans(Q, r, Add(f, x), Add(g, x));
  }

  //////// The first step removes s_0 ////////

  lemma {:induction false} DotFirstOnly(n: nat, s: Vec, c: Vec, k: nat)
    requires n > 0 && 0 < k <= |s| && k <= |c| && Sized(s, n) && Sized(c, n)
    requires forall u :: 1 <= u < k ==> c[u] == Zero(n)
    ensures Dot(n, s, c, k) == Mul(s[0], c[0])
  {
    hide Mul, Add;
    if k == 1 {
      assert Dot(n, s, c, 0) == Zero(n);
      AddZero(Mul(s[0], c[0]));
    } else {
      DotFirstOnly(n, s, c, k - 1);
      MulZero(s[k - 1]);
      AddZero(Mul(s[0], c[0]));
    }
  }

  /** X^e·z·(s_0·x) = X^e·x modulo Q. */
  lemma {:induction false} RemoveSecret(Q: int, e: int, z: Poly, s0: Poly, x: Poly)
    requires |z| == |s0| == |x| > 0 && Cong(Q, Mul(z, s0), One(|z|))
    ensures Cong(Q, Mul(Mono(e, z), Mul(s0, x)), Mono(e, x))
  {
    hide Cong, Mul, Mono, One;
    MonoMul(e, z, Mul(s0, x));
    MulAssoc(z, s0, x);
    CongRefl(Q, x);
    CongMul(Q, Mul(z, s0), One(|z|), x, x);
    MulOne(x);
    CongMono(Q, e, Mul(Mul(z, s0), x), x);
  }

  lemma {:induction false} StartPhase(w: World, rx: Poly)
    requires w.Valid() && |rx| == w.p.N
    ensures w.Phase(Start(w.p, |w.s|, rx)) == Mul(w.s[0], rx)
    ensures w.Phase(DroppedVec(w.p, Start(w.p, |w.s|, rx))) == Mul(w.s[0], Dropped(w.p, rx))
  {
    hide Mul, Dot, Dropped, PublicKeys, SmallKeys;
    var st := Start(w.p, |w.s|, rx);
    DotFirstOnly(w.p.N, w.s, st, |w.s|);
    DroppedZero(w.p);
    DotFirstOnly(w.p.N, w.s, DroppedVec(w.p, st), |w.s|);
  }

  /** AddToAccXZW0 on (Rx, 0, ..., 0) with any key for X^e/s_0: the phase becomes X^e·Rx; because
      the other components are zero, only Rx's own dropped digits enter the noise. */
  lemma {:induction false} FirstStepNear(w: World, z: Poly, key: EvalKey, e: int, a: nat, rx: Poly)
    requires w.Valid() && |z| == w.p.N && Cong(w.p.Q, Mul(z, w.s[0]), One(w.p.N))
    requires KeyFor(w, 0, key, Mono(e, z), a) && a >= 1 && Canonical(w.p, rx)
    ensures var st := Start(w.p, |w.s|, rx);
            Shapes(w.p, key, 0, w.pkey, st) &&
            Near(w.p.Q, w.Phase(Product(w.p, key, 0, w.pkey, st)), Mono(e, rx),
                 HbBound(w.p, |w.s|, w.zeta, Times(a, w.rho), Times(a, w.sigma)) + DropBound(w.p))
  {
    hide Cong, Near, Mul, Mono, Dot, Bounded, Product, DroppedVec, HbBound, DropBound, Times, PublicKeys, Encrypts, SmallKeys, SmallOpening, Start, Dropped, One;
    var p, st, m := w.p, Start(w.p, |w.s|, rx), Mono(e, z);
    KeyForShape(w, 0, key, m, a);
    WorldShapes(w, key, 0, st);
    var o: Opening :| o.Shaped(p) && Encrypts(p, w.crs, w.s[0], key, m, o) &&
                      SmallOpening(p, o, Times(a, w.rho), Times(a, w.sigma));
    SmallKeysMore(w, a);
    StartPhase(w, rx);
    RemoveSecret(p.Q, e, z, w.s[0], Dropped(p, rx));
    RemoveSecret(p.Q, e, z, w.s[0], rx);
    DroppedBounded(p, rx);
    BoundedMono(e, Dropped(p, rx), DropBound(p));
    HbProdNear(p, w.crs, w.s, w.pkey, w.eP, key, 0, m, o, st, w.zeta, Times(a, w.rho), Times(a, w.sigma),
               Mono(e, Dropped(p, rx)), DropBound(p));
    NearCong(p.Q, w.Phase(Product(p, key, 0, w.pkey, st)), Mul(m, w.Phase(st)), Mono(e, rx),
             HbBound(p, |w.s|, w.zeta, Times(a, w.rho), Times(a, w.sigma)) + DropBound(p));
  }

  //////// Every other step multiplies by X^(ct) ////////

  lemma {:induction false} MultiplierDrop(w: World, c: int, t: int, acc: Vec)
    requires w.Valid() && -1 <= t <= 1 && |acc| == |w.s| && Sized(acc, w.p.N)
    ensures Bounded(Mul(Multiplier(w.p, c, t), w.Phase(DroppedVec(w.p, Temp(w.p, c, acc)))), DropWeight(w.p, |w.s|, w.zeta))
  {
    hide Mul, Mono, Dot, Bounded, Multiplier, DroppedVec, Temp, PublicKeys, Scale, One, DropBound;
    var d := w.Phase(DroppedVec(w.p, Temp(w.p, c, acc)));
    var e := if t == -1 then -c else 0;
    var one := One(w.p.N);
    DroppedPhaseBound(w.p, w.s, Temp(w.p, c, acc), w.zeta);
    MultiplierForm(w.p, c, t);
    MulScale(t, Mono(e, one), d);
    MonoMul(e, one, d);
    MulOne(d);
    BoundedMono(e, d, DropWeight(w.p, |w.s|, w.zeta));
    BoundedScale(t, Mono(e, d), 1, DropWeight(w.p, |w.s|, w.zeta));
  }

  lemma {:induction false} LaterStepNear(v: Variant, w: World, u: nat, ek1: EvalKey, ek2: EvalKey, c: int, t: int, acc: Vec)
    requires w.Valid() && u < |w.s| && 0 <= c < 2 * w.p.N && v.Secret(t) && ek2.Shaped(w.p)
    requires KeyFor(w, u, ek1, Constant(w.p.N, PlusBit(t)), 1)
    requires v.Ternary? ==> KeyFor(w, u, ek2, Constant(w.p.N, MinusBit(t)), 1)
    requires |acc| == |w.s| && Sized(acc, w.p.N)
    ensures ek1.Shaped(w.p)
    ensures var key := StepKeyOf(v, w.p, ek1, ek2, c);
            Shapes(w.p, key, u, w.pkey, acc) &&
            Near(w.p.Q, w.Phase(AddToAcc(w.p, key, c, u, w.pkey, acc)), Mono(c * t, w.Phase(acc)), StepBound(v, w))
  {
    hide Near, Mul, Mono, Dot, Bounded, Multiplier, DroppedVec, Temp, PublicKeys, AddToAcc, HbBound, KeyFor, DropWeight, Times, StepKey, Constant;
    KeyForShape(w, u, ek1, Constant(w.p.N, PlusBit(t)), 1);
    if v.Ternary? {
      StepKeyFor(w, u, ek1, ek2, c, t);
    } else {
      BinaryMultiplier(w.p, c, t);
    }
    MultiplierDrop(w, c, t, acc);
    MultiplierIdentity(w.p, c, t, w.Phase(acc));
    StepNear(w, u, StepKeyOf(v, w.p, ek1, ek2, c), Multiplier(w.p, c, t), v.StepFactor(), c, acc, Mono(c * t, w.Phase(acc)));
  }

  lemma {:induction false} BinaryMultiplier(p: Params, c: int, t: int)
    requires p.Valid() && 0 <= t <= 1
    ensures Multiplier(p, c, t) == Constant(p.N, PlusBit(t))
  {
    hide Mono;
    assert Constant(p.N, 0) == Zero(p.N);
    MonoOfZero(p.N, -c);
  }

  /** Bound after (u, i) with at least one step taken. */
  function RunBound(v: Variant, w: World, n: nat, u: nat, i: nat): (b: nat)
    requires w.p.Valid() && (u > 0 || i > 0) && n > 0
    decreases u, i
  {
    if i > 0 then (if u == 0 && i == 1 then FirstBound(v, w) else RunBound(v, w, n, u, i - 1) + StepBound(v, w))
    else RunBound(v, w, n, u - 1, n)
  }

  lemma {:induction false} RunBoundForm(v: Variant, w: World, n: nat, u: nat, i: nat)
    requires w.p.Valid() && (u > 0 || i > 0) && n > 0
    ensures Times(u, n) + i >= 1 && RunBound(v, w, n, u, i) == FirstBound(v, w) + Times(Times(u, n) + i - 1, StepBound(v, w))
    decreases u, i
  {
    hide FirstBound, StepBound;
    if i > 0 && !(u == 0 && i == 1) {
      RunBoundForm(v, w, n, u, i - 1);
      TimesSum(Times(u, n) + i - 2, 1, StepBound(v, w));
    } else if i == 0 {
      RunBoundForm(v, w, n, u - 1, n);
      TimesSum(u - 1, 1, n);
    }
  }

  ghost predicate InRange(exps: Exponents, p: Params) {
    forall u, i :: 0 <= u < |exps| && 0 <= i < |exps[u]| ==> 0 <= exps[u][i] < 2 * p.N
  }

  /** After any number of steps the phase is X^(inner product)·Rx up to the noise bound. */
  lemma {:induction false} RunNear(v: Variant, w: World, z: Poly, keys: AccKeys, t: seq<seq<int>>, exps: Exponents,
                                   n: nat, rx: Poly, u: nat, i: nat)
    requires Genuine(v, w, z, keys, t, n) && Rectangular(exps, |w.s|, n) && InRange(exps, w.p) && Canonical(w.p, rx)
    requires RunShape(w.p, w.pkey, keys, exps, n, Start(w.p, |w.s|, rx))
    requires i <= n && (if i == 0 then 0 < u <= |w.s| else u < |w.s|)
    ensures Near(w.p.Q, w.Phase(Run(v, w.p, w.pkey, keys, exps, n, Start(w.p, |w.s|, rx), u, i)),
                 Mono(InnerExponent(exps, t, n, u, i), rx), RunBound(v, w, n, u, i))
    decreases u, i
  {
    hide Near, Mono, Dot, Cong, Mul, AddToAcc, StepKeyOf, FirstKeyOf, Product, StepBound, FirstBound, Start, KeyFor, PublicKeys, SmallKeys, Constant, Scale, One;
    var st := Start(w.p, |w.s|, rx);
    if i == 0 {
      RunNear(v, w, z, keys, t, exps, n, rx, u - 1, n);
    } else {
      var j := i - 1;
      assert GenuineAt(v, w, z, keys, t, u, j);
      var c, tt := exps[u][j], t[u][j];
      assert 0 <= c < 2 * w.p.N;
      var ek1, ek2 := keys.plus[u][j], keys.minus[u][j];
      if u == 0 && j == 0 {
        FirstRun(v, w, z, keys.star, ek1, ek2, c, tt, rx);
        assert InnerExponent(exps, t, n, 0, 1) == c * tt + InnerExponent(exps, t, n, 0, 0);
      } else {
        RunNear(v, w, z, keys, t, exps, n, rx, u, j);
        var acc := Run(v, w.p, w.pkey, keys, exps, n, st, u, j);
        LaterStepNear(v, w, u, ek1, ek2, c, tt, acc);
        NearStep(w.p.Q, w.Phase(AddToAcc(w.p, StepKeyOf(v, w.p, ek1, ek2, c), c, u, w.pkey, acc)), w.Phase(acc), rx,
                 InnerExponent(exps, t, n, u, j), c * tt, RunBound(v, w, n, u, j), StepBound(v, w));
      }
    }
  }

  lemma {:induction false} FirstRun(v: Variant, w: World, z: Poly, star: EvalKey, ek1: EvalKey, ek2: EvalKey, c: int, t: int, rx: Poly)
    requires w.Valid() && |z| == w.p.N && Cong(w.p.Q, Mul(z, w.s[0]), One(w.p.N)) && Canonical(w.p, rx)
    requires 0 <= c < 2 * w.p.N && v.Secret(t) && KeyFor(w, 0, star, z, 1) && ek2.Shaped(w.p)
    requires KeyFor(w, 0, ek1, Scale(PlusBit(t), z), 1) && (v.Ternary? ==> KeyFor(w, 0, ek2, Scale(MinusBit(t), z), 1))
    ensures star.Shaped(w.p) && ek1.Shaped(w.p)
    ensures var key := FirstKeyOf(v, w.p, star, ek1, ek2, c);
            Shapes(w.p, key, 0, w.pkey, Start(w.p, |w.s|, rx)) &&
            Near(w.p.Q, w.Phase(Product(w.p, key, 0, w.pkey, Start(w.p, |w.s|, rx))), Mono(c * t, rx), FirstBound(v, w))
  {
    hide Near, Mono, Dot, Cong, Mul, Product, KeyFor, PublicKeys, SmallKeys, Start, HbBound, DropBound, Scale, One;
    KeyForShape(w, 0, star, z, 1);
    KeyForShape(w, 0, ek1, Scale(PlusBit(t), z), 1);
    if v.Ternary? {
      FirstKeyFor(w, star, ek1, ek2, z, c, t);
    } else {
      FirstKeyBinaryFor(w, star, ek1, z, c, t);
    }
    FirstStepNear(w, z, FirstKeyOf(v, w.p, star, ek1, ek2, c), c * t, v.FirstFactor(), rx);
  }

  /** The main theorem: a complete run over k users with n coefficients each, from (Rx, 0, ..., 0),
      ends at phase X^(sum of exponent·secret)·Rx, within FirstBound + (kn-1)·StepBound. */
  lemma {:induction false} EvalAccCorrect(v: Variant, w: World, z: Poly, keys: AccKeys, t: seq<seq<int>>, exps: Exponents, n: nat, rx: Poly)
    requires Genuine(v, w, z, keys, t, n) && Rectangular(exps, |w.s|, n) && InRange(exps, w.p) && Canonical(w.p, rx)
    ensures RunShape(w.p, w.pkey, keys, exps, n, Start(w.p, |w.s|, rx)) && Times(|w.s|, n) >= 1
    ensures Near(w.p.Q, w.Phase(Run(v, w.p, w.pkey, keys, exps, n, Start(w.p, |w.s|, rx), |w.s|, 0)),
                 Mono(InnerExponent(exps, t, n, |w.s|, 0), rx),
                 FirstBound(v, w) + Times(Times(|w.s|, n) - 1, StepBound(v, w)))
  {
    hide Near, Mono, Dot, Cong, Mul, Run, InnerExponent, StepBound, FirstBound, Start, KeyFor, RunBound, One;
    RunNear(v, w, z, keys, t, exps, n, rx, |w.s|, 0);
    RunBoundForm(v, w, n, |w.s|, 0);
  }
}
