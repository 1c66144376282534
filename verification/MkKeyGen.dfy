/** KeyGenAcc of the multi-key accumulators, and a run from generated keys. */
module MkKeyGen {
  import opened NegacyclicRing
  import opened RingModulus
  import opened Arithmetic
  import opened Gadget
  import opened RingVectors
  import opened HybridProduct
  import opened KeyAlgebra
  import opened BlindRotation
  import opened MultiKeyRun
  import opened MultiKeyEval
  import opened KeyGeneration

  /** The samples of one key: r and e1 are small, and so is e0 together with the difference between
      the integer multiple and the ring multiple of the CRS, all modulo Q. */
  ghost predicate SmallSample(p: Params, roots: seq<nat>, crs: Vec, o: Opening, rho: nat, sigma: nat)
    requires p.Valid() && |crs| == p.Kept() <= |roots| && Sized(crs, p.N)
  {
    o.Shaped(p) && exists e: Vec :: NoiseOf(p, roots, crs, o, e) && SmallOpening(p, Opening(o.r, e, o.e1), rho, sigma)
  }

  ghost predicate NoiseOf(p: Params, roots: seq<nat>, crs: Vec, o: Opening, e: Vec)
    requires p.Valid() && |crs| == p.Kept() <= |roots| && Sized(crs, p.N) && o.Shaped(p)
  {
    |e| == p.Kept() && Sized(e, p.N) &&
    forall i :: 0 <= i < p.Kept() ==> Cong(p.Q, EffectiveNoise(p, roots, crs, o.r, o.e0)[i], e[i])
  }

  /** An opening may be replaced by a congruent one. */
  lemma {:induction false} SameOpening(p: Params, crs: Vec, s: Poly, key: EvalKey, m: Poly, r: Poly, e: Vec, e': Vec, e1: Vec)
    requires p.Valid() && |s| == |m| == p.N && |crs| == p.Kept() && Sized(crs, p.N) && key.Shaped(p)
    requires Opening(r, e, e1).Shaped(p) && Opening(r, e', e1).Shaped(p) && Encrypts(p, crs, s, key, m, Opening(r, e, e1))
    requires forall i :: 0 <= i < p.Kept() ==> Cong(p.Q, e[i], e'[i])
    ensures Encrypts(p, crs, s, key, m, Opening(r, e', e1))
  {
    hide Cong, Mul, Add, GadgetVec;
    forall i | 0 <= i < p.Kept()
      ensures Cong(p.Q, key.d[i], DForm(p, crs, m, Opening(r, e', e1), i)) && FForm(p, Opening(r, e', e1), i) == FForm(p, Opening(r, e, e1), i)
    {
      var y, g := Mul(r, crs[i]), Mul(m, GadgetVec(p)[i]);
      CongRefl(p.Q, g);
      CongRefl(p.Q, y);
      CongAdd(p.Q, e[i], e'[i], g, g);
      CongAdd(p.Q, y, y, Add(e[i], g), Add(e'[i], g));
      CongTrans(p.Q, key.d[i], DForm(p, crs, m, Opening(r, e, e1), i), DForm(p, crs, m, Opening(r, e', e1), i));
    }
  }

  /** A key generated from small samples is a key of its message. */
  lemma {:induction false} GeneratedKeyFor(w: World, u: nat, roots: seq<nat>, sInv: Poly, kdm: bool, m: bool, o: Opening, key: EvalKey)
    requires w.Valid() && u < |w.s| && w.p.Kept() <= |roots| && |sInv| == w.p.N && Cong(w.p.Q, Mul(sInv, w.s[u]), One(w.p.N))
    requires SmallSample(w.p, roots, w.crs, o, w.rho, w.sigma) && Generated(w.p, roots, w.crs, sInv, kdm, m, o.r, o.e0, o.e1, key)
    ensures KeyFor(w, u, key, Scale(if m then 1 else 0, if kdm then sInv else One(w.p.N)), 1)
  {
    hide Cong, Mul, One, Scale, SmallOpening, Encrypts, EffectiveNoise, PublicKeys, SmallKeys, DRow, FRow, Slot;
    var e: Vec :| NoiseOf(w.p, roots, w.crs, o, e) && SmallOpening(w.p, Opening(o.r, e, o.e1), w.rho, w.sigma);
    var msg := Scale(if m then 1 else 0, if kdm then sInv else One(w.p.N));
    GeneratedEncrypts(w.p, roots, w.crs, w.s[u], sInv, kdm, m, o.r, o.e0, o.e1, key);
    SameOpening(w.p, w.crs, w.s[u], key, msg, o.r, EffectiveNoise(w.p, roots, w.crs, o.r, o.e0), e, o.e1);
    assert Times(1, w.rho) == w.rho && Times(1, w.sigma) == w.sigma;
    assert Opening(o.r, e, o.e1).Shaped(w.p);
  }

  /** A stored secret is the residue of -1, 0 or 1; it is compared with 1 and with mod - 1. */
  lemma {:induction false} StoredBit(mod: int, t: int, s: int)
    requires mod > 2 && -1 <= t <= 1 && s == Residue(t, mod)
    ensures (s == 1 <==> t == 1) && (s == mod - 1 <==> t == -1)
  {
    if t == -1 {
      DivModUnique(-1, mod, -1, mod - 1);
    } else {
      DivModUnique(t, mod, 0, t);
    }
  }

  lemma {:induction false} MessageForm(p: Params, z: Poly, bit: bool, u: nat, i: nat)
    requires |z| == p.N
    ensures Message(p, z, if bit then 1 else 0, u, i) == Scale(if bit then 1 else 0, if u == 0 && i == 0 then z else One(p.N))
  {
    assert Constant(p.N, if bit then 1 else 0) == Scale(if bit then 1 else 0, One(p.N));
  }

  /** The public setting of key generation and the users' ring secrets with their inverses. */
  ghost predicate KeySetting(w: World, g: seq<int>, roots: seq<nat>, sInv: Vec) {
    w.Valid() && w.p.Kept() <= |roots| && |g| == w.p.digits && (forall i :: 0 <= i < w.p.digits ==> g[i] == Pow(w.p.B, i) % w.p.Q) &&
    |sInv| == |w.s| && Sized(sInv, w.p.N) && forall u :: 0 <= u < |w.s| ==> Cong(w.p.Q, Mul(sInv[u], w.s[u]), One(w.p.N))
  }

  /** The keys of coefficient i of user u: evk+ and evk-, or the one key of a binary secret. */
  method CoefficientKeys(v: Variant, p: Params, g: seq<int>, roots: seq<nat>, crs: Vec, sInv: Vec, mod: int, s: int, u: nat, i: nat, plus: Opening, minus: Opening,
                         ghost w: World, ghost t: int) returns (ep: EvalKey, em: EvalKey)
    requires KeySetting(w, g, roots, sInv) && p == w.p && crs == w.crs && u < |w.s| && mod > 2 && v.Secret(t) && s == Residue(t, mod)
    requires SmallSample(p, roots, crs, plus, w.rho, w.sigma) && (v.Ternary? ==> SmallSample(p, roots, crs, minus, w.rho, w.sigma))
    ensures ep.Shaped(p) && em.Shaped(p) && KeyFor(w, u, ep, Message(p, sInv[0], PlusBit(t), u, i), 1)
    ensures v.Ternary? ==> KeyFor(w, u, em, Message(p, sInv[0], MinusBit(t), u, i), 1)
  {
    hide Cong, Mul, One, Scale, Message, KeyFor, PublicKeys, SmallKeys, Generated, Pow, Residue;
    var kdm := u == 0 && i == 0;
    StoredBit(mod, t, s);
    ep := KeyGen(p, g, roots, crs, sInv[u], kdm, s == 1, plus.r, plus.e0, plus.e1);
    GeneratedKeyFor(w, u, roots, sInv[u], kdm, s == 1, plus, ep);
    MessageForm(p, sInv[0], s == 1, u, i);
    KeyForShape(w, u, ep, Message(p, sInv[0], PlusBit(t), u, i), 1);
    em := ep;
    if v.Ternary? {
      em := KeyGen(p, g, roots, crs, sInv[u], kdm, s == mod - 1, minus.r, minus.e0, minus.e1);
      GeneratedKeyFor(w, u, roots, sInv[u], kdm, s == mod - 1, minus, em);
      MessageForm(p, sInv[0], s == mod - 1, u, i);
      KeyForShape(w, u, em, Message(p, sInv[0], MinusBit(t), u, i), 1);
    }
  }

  /** The stored secrets are the residues of the secrets t. */
  ghost predicate StoredSecrets(v: Variant, mod: int, sv: seq<seq<int>>, t: seq<seq<int>>, k: nat, n: nat) {
    mod > 2 && Rectangular(sv, k, n) && Rectangular(t, k, n) &&
    forall u, i :: 0 <= u < k && 0 <= i < n ==> v.Secret(t[u][i]) && sv[u][i] == Residue(t[u][i], mod)
  }

  /** The samples of every key of a run. */
  ghost predicate SmallSamples(v: Variant, p: Params, roots: seq<nat>, crs: Vec, k: nat, n: nat, star: Opening, plus: (nat, nat) -> Opening, minus: (nat, nat) -> Opening,
                               rho: nat, sigma: nat)
    requires p.Valid() && |crs| == p.Kept() <= |roots| && Sized(crs, p.N)
  {
    SmallSample(p, roots, crs, star, rho, sigma) &&
    forall u: nat, i: nat :: u < k && i < n ==>
      SmallSample(p, roots, crs, plus(u, i), rho, sigma) && (v.Ternary? ==> SmallSample(p, roots, crs, minus(u, i), rho, sigma))
  }

  lemma {:induction false} SampleShape(p: Params, roots: seq<nat>, crs: Vec, o: Opening, rho: nat, sigma: nat)
    requires p.Valid() && |crs| == p.Kept() <= |roots| && Sized(crs, p.N) && SmallSample(p, roots, crs, o, rho, sigma)
    ensures o.Shaped(p)
  {
  }

  /** evk*, the key of 1/s_0. */
  lemma {:induction false} StarKeyFor(w: World, roots: seq<nat>, z: Poly, o: Opening, key: EvalKey)
    requires w.Valid() && w.p.Kept() <= |roots| && |z| == w.p.N && Cong(w.p.Q, Mul(z, w.s[0]), One(w.p.N))
    requires SmallSample(w.p, roots, w.crs, o, w.rho, w.sigma) && Generated(w.p, roots, w.crs, z, true, true, o.r, o.e0, o.e1, key)
    ensures key.Shaped(w.p) && KeyFor(w, 0, key, z, 1)
  {
    hide Cong, Mul, One, KeyFor, PublicKeys, SmallKeys, SmallSample, Generated;
    GeneratedKeyFor(w, 0, roots, z, true, true, o, key);
    assert Scale(1, z) == z;
    KeyForShape(w, 0, key, z, 1);
  }

  /** The keys of the first i coefficients of user u. */
  ghost predicate RowKeys(v: Variant, w: World, z: Poly, plus: seq<EvalKey>, minus: seq<EvalKey>, t: seq<int>, u: nat, i: nat)
    requires w.Valid() && |z| == w.p.N && u < |w.s|
  {
    |plus| == |minus| == i <= |t| && forall j :: 0 <= j < i ==>
      v.Secret(t[j]) && plus[j].Shaped(w.p) && minus[j].Shaped(w.p) && KeyFor(w, u, plus[j], Message(w.p, z, PlusBit(t[j]), u, j), 1) &&
      (v.Ternary? ==> KeyFor(w, u, minus[j], Message(w.p, z, MinusBit(t[j]), u, j), 1))
  }

  lemma {:induction false} AllRows(v: Variant, w: World, z: Poly, keys: AccKeys, t: seq<seq<int>>, n: nat)
    requires w.Valid() && |z| == w.p.N && Cong(w.p.Q, Mul(z, w.s[0]), One(w.p.N)) && n > 0 && Rectangular(t, |w.s|, n)
    requires keys.star.Shaped(w.p) && KeyFor(w, 0, keys.star, z, 1) && |keys.plus| == |keys.minus| == |w.s|
    requires forall u :: 0 <= u < |w.s| ==> RowKeys(v, w, z, keys.plus[u], keys.minus[u], t[u], u, n)
    ensures Genuine(v, w, z, keys, t, n)
  {
    hide Cong, Mul, One, KeyFor, PublicKeys, SmallKeys, Message, EvalKey.Shaped;
  }

  /** KeyGenAcc: the keys are genuine keys of the secrets t. A binary secret has no evk-; its slot
      repeats evk+ and is never read. */
  method KeyGenAcc(v: Variant, p: Params, g: seq<int>, roots: seq<nat>, crs: Vec, sInv: Vec, mod: int, sv: seq<seq<int>>, n: nat,
                   star: Opening, plus: (nat, nat) -> Opening, minus: (nat, nat) -> Opening, ghost w: World, ghost t: seq<seq<int>>) returns (keys: AccKeys)
    requires KeySetting(w, g, roots, sInv) && p == w.p && crs == w.crs && n > 0 && StoredSecrets(v, mod, sv, t, |w.s|, n)
    requires SmallSamples(v, p, roots, crs, |w.s|, n, star, plus, minus, w.rho, w.sigma)
    ensures Genuine(v, w, sInv[0], keys, t, n)
  {
    hide Cong, Mul, One, Message, KeyFor, PublicKeys, SmallKeys, SmallSample, Pow, Residue, Generated;
    var evkStar := EvalKey([], []);
    var evkPlus, evkMinus := [], [];
    for u := 0 to |sv|
      invariant |evkPlus| == |evkMinus| == u
      invariant u > 0 ==> evkStar.Shaped(p) && KeyFor(w, 0, evkStar, sInv[0], 1)
      invariant forall x :: 0 <= x < u ==> RowKeys(v, w, sInv[0], evkPlus[x], evkMinus[x], t[x], x, n)
    {
      var rowPlus, rowMinus := [], [];
      for i := 0 to n
        invariant u > 0 || i > 0 ==> evkStar.Shaped(p) && KeyFor(w, 0, evkStar, sInv[0], 1)
        invariant RowKeys(v, w, sInv[0], rowPlus, rowMinus, t[u], u, i)
      {
        if u == 0 && i == 0 {
          evkStar := KeyGen(p, g, roots, crs, sInv[u], true, true, star.r, star.e0, star.e1) by { SampleShape(p, roots, crs, star, w.rho, w.sigma); }
          StarKeyFor(w, roots, sInv[0], star, evkStar);
        }
        var ep, em := CoefficientKeys(v, p, g, roots, crs, sInv, mod, sv[u][i], u, i, plus(u, i), minus(u, i), w, t[u][i]);
        rowPlus, rowMinus := rowPlus + [ep], rowMinus + [em];
      }
      evkPlus, evkMinus := evkPlus + [rowPlus], evkMinus + [rowMinus];
    }
    keys := AccKeys(evkStar, evkPlus, evkMinus);
    AllRows(v, w, sInv[0], keys, t, n);
  }

  /** Key generation for k users followed by a blind rotation from (Rx, 0, ..., 0): the accumulator
      ends at phase X^(sum of exponent·secret)·Rx. */
  method GenerateAndRun(v: Variant, p: Params, roots: seq<nat>, crs: Vec, s: Vec, sInv: Vec, eP: seq<Vec>, mod: int, sv: seq<seq<int>>, n: nat,
                        star: Opening, plus: (nat, nat) -> Opening, minus: (nat, nat) -> Opening, q: int, ct: seq<seq<int>>, rx: Poly,
                        ghost t: seq<seq<int>>, ghost zeta: nat, ghost rho: nat, ghost sigma: nat) returns (acc: Accumulator, pkey: seq<Vec>)
    requires p.Valid() && |crs| == p.Kept() <= |roots| && Sized(crs, p.N) && |s| == |sInv| > 0 && Sized(s, p.N) && Sized(sInv, p.N) && PerUser(p, eP, |s|)
    requires SmallKeys(p, s, eP, zeta, sigma) && forall u :: 0 <= u < |s| ==> Cong(p.Q, Mul(sInv[u], s[u]), One(p.N))
    requires n > 0 && StoredSecrets(v, mod, sv, t, |s|, n) && Rectangular(ct, |s|, n) && q > 0 && InRange(ExponentsOf(v, p, q, ct), p) && Canonical(p, rx)
    requires SmallSamples(v, p, roots, crs, |s|, n, star, plus, minus, rho, sigma)
    ensures var w := World(p, crs, s, pkey, eP, zeta, rho, sigma);
            |acc.elements| == |s| && Sized(acc.elements, p.N) && Times(|s|, n) >= 1 &&
            Near(p.Q, w.Phase(acc.elements), Mono(InnerExponent(ExponentsOf(v, p, q, ct), t, n, |s|, 0), rx),
                 FirstBound(v, w) + Times(Times(|s|, n) - 1, StepBound(v, w)))
  {
    hide Cong, Mul, One, Message, KeyFor, PublicKeys, SmallKeys, SmallSamples, Pow, Residue, Generated, Near, Mono, Dot, Genuine, Run, StepBound, FirstBound, InnerExponent, Start,
         TableEntry, MonomialIndex;
    var g := PowerTable(p);
    var table := MonomialTable(p);
    pkey := PublicKeyGen(p, crs, s, eP);
    ghost var w := World(p, crs, s, pkey, eP, zeta, rho, sigma);
    var keys := KeyGenAcc(v, p, g, roots, crs, sInv, mod, sv, n, star, plus, minus, w, t);
    EvalAccCorrect(v, w, sInv[0], keys, t, ExponentsOf(v, p, q, ct), n, rx);
    acc := new Accumulator(Start(p, |s|, rx));
    EvalAcc(v, p, table, keys, pkey, acc, q, ct, n);
  }
}
