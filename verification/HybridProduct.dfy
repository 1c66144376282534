/** The hybrid product of the multi-key accumulator: multiplies a k-user ciphertext by a message
    encrypted under one user's key, using every user's public key. */
module HybridProduct {
  import opened NegacyclicRing
  import opened RingModulus
  import opened Arithmetic
  import opened Gadget
  import opened RingVectors

  /** A uni-encryption key: the vectors d and f. */
  datatype EvalKey = EvalKey(d: Vec, f: Vec) {
    predicate Shaped(p: Params)
      requires p.digits >= 2
    {
      |d| == |f| == p.Kept() && Sized(d, p.N) && Sized(f, p.N)
    }
  }

  /** The randomness and noise behind a key. */
  datatype Opening = Opening(r: Poly, e0: Vec, e1: Vec) {
    predicate Shaped(p: Params)
      requires p.digits >= 2
    {
      |r| == p.N && |e0| == |e1| == p.Kept() && Sized(e0, p.N) && Sized(e1, p.N)
    }
  }

  /** d_i = r·CRS_i + e0_i + m·B^(i+1) and s·f_i = e1_i + r·B^(i+1) modulo Q. */
  ghost predicate Encrypts(p: Params, crs: Vec, s: Poly, key: EvalKey, m: Poly, o: Opening)
    requires p.Valid() && |s| == |m| == p.N && |crs| == p.Kept() && Sized(crs, p.N)
    requires key.Shaped(p) && o.Shaped(p)
  {
    forall i :: 0 <= i < p.Kept() ==>
      Cong(p.Q, key.d[i], DForm(p, crs, m, o, i)) && Cong(p.Q, Mul(s, key.f[i]), FForm(p, o, i))
  }

  function DForm(p: Params, crs: Vec, m: Poly, o: Opening, i: nat): (r: Poly)
    requires p.Valid() && |m| == p.N && |crs| == p.Kept() && Sized(crs, p.N) && o.Shaped(p) && i < p.Kept()
    ensures |r| == p.N
  {
    Add(Mul(o.r, crs[i]), Add(o.e0[i], Mul(m, GadgetVec(p)[i])))
  }

  function FForm(p: Params, o: Opening, i: nat): (r: Poly)
    requires p.Valid() && o.Shaped(p) && i < p.Kept()
    ensures |r| == p.N
  {
    Add(o.e1[i], Mul(o.r, GadgetVec(p)[i]))
  }

  /** One vector of kept-digit length per user. */
  predicate PerUser(p: Params, ks: seq<Vec>, k: nat)
    requires p.digits >= 2
  {
    |ks| == k && forall u :: 0 <= u < k ==> |ks[u]| == p.Kept() && Sized(ks[u], p.N)
  }

  /** Public keys of all users: Pkey_u,i = eP_u,i - CRS_i·s_u modulo Q. */
  ghost predicate PublicKeys(p: Params, crs: Vec, s: Vec, pkey: seq<Vec>, eP: seq<Vec>)
    requires p.Valid() && |crs| == p.Kept() && Sized(crs, p.N) && Sized(s, p.N)
  {
    PerUser(p, pkey, |s|) && PerUser(p, eP, |s|) &&
    forall u :: 0 <= u < |s| ==>
      forall i :: 0 <= i < p.Kept() ==> Cong(p.Q, pkey[u][i], Sub(eP[u][i], Mul(s[u], crs[i])))
  }

  //////// What HbProd computes ////////

  /** v = sum over users of <digits(c_u), Pkey_u>. */
  function SumV(p: Params, pkey: seq<Vec>, c: Vec, k: nat): (r: Poly)
    requires p.Valid() && k <= |c| && Sized(c, p.N) && PerUser(p, pkey, |c|)
    ensures |r| == p.N
  {
    if k == 0 then Zero(p.N)
    else Add(SumV(p, pkey, c, k - 1), Dot(p.N, Digits(p, c[k - 1]), pkey[k - 1], p.Kept()))
  }

  ghost predicate Shapes(p: Params, key: EvalKey, index: nat, pkey: seq<Vec>, c: Vec) {
    p.Valid() && key.Shaped(p) && index < |c| && Sized(c, p.N) && PerUser(p, pkey, |c|)
  }

  function Product(p: Params, key: EvalKey, index: nat, pkey: seq<Vec>, c: Vec): (r: Vec)
    requires Shapes(p, key, index, pkey, c)
    ensures |r| == |c| && Sized(r, p.N)
  {
    var v := Reduce(p.Q, SumV(p, pkey, c, |c|));
    seq(|c|, u requires 0 <= u < |c| =>
      var w := Dot(p.N, Digits(p, c[u]), key.d, p.Kept());
      Reduce(p.Q, if u == index then Add(w, Dot(p.N, Digits(p, v), key.f, p.Kept())) else w))
  }

  //////// The phase identity ////////

  /** One user's share: s·<x,d> + r·<x,P> = s·<x,e0> + r·<x,eP> + m·s·<x,g>; the CRS is gone. */
  lemma {:induction false} UserShare(p: Params, crs: Vec, s: Poly, key: EvalKey, m: Poly, o: Opening, pk: Vec, eP: Vec, c: Poly)
    requires p.Valid() && |s| == |m| == |c| == p.N && |crs| == p.Kept() && Sized(crs, p.N)
    requires key.Shaped(p) && o.Shaped(p)
    requires |pk| == |eP| == p.Kept() && Sized(pk, p.N) && Sized(eP, p.N)
    requires forall i :: 0 <= i < p.Kept() ==> Cong(p.Q, key.d[i], DForm(p, crs, m, o, i))
    requires forall i :: 0 <= i < p.Kept() ==> Cong(p.Q, pk[i], Sub(eP[i], Mul(s, crs[i])))
    ensures var l, x, dg := p.Kept(), Centred(p, c), Digits(p, c);
            Cong(p.Q, Add(Mul(s, Dot(p.N, dg, key.d, l)), Mul(o.r, Dot(p.N, dg, pk, l))),
                 Share(p, s, m, o, eP, x))
  {
    hide Cong, Mul, Add, Sub, Dot, Digits, Centred;
    var n, l, x, dg := p.N, p.Kept(), Centred(p, c), Digits(p, c);
    var dd := seq(l, i requires 0 <= i < l => DForm(p, crs, m, o, i));
    var pp := seq(l, i requires 0 <= i < l => Sub(eP[i], Mul(s, crs[i])));
    forall i | 0 <= i < l ensures Cong(p.Q, dg[i], x[i]) { DigitsCong(p, c, i); }
    DotCong(p.Q, n, dg, x, key.d, dd, l);
    DotCong(p.Q, n, dg, x, pk, pp, l);
    DotCombination(n, x, dd, o.r, crs, o.e0, m, GadgetVec(p), l);
    DotDifference(n, x, pp, eP, s, crs, l);
    CongMulRight(p.Q, s, Dot(n, dg, key.d, l), Dot(n, x, dd, l));
    CongMulRight(p.Q, o.r, Dot(n, dg, pk, l), Dot(n, x, pp, l));
    CongAdd(p.Q, Mul(s, Dot(n, dg, key.d, l)), Mul(s, Dot(n, x, dd, l)),
            Mul(o.r, Dot(n, dg, pk, l)), Mul(o.r, Dot(n, x, pp, l)));
    ShareIdentity(s, o.r, m, Dot(n, x, crs, l), Dot(n, x, o.e0, l), Dot(n, x, GadgetVec(p), l), Dot(n, x, eP, l));
  }

  function Share(p: Params, s: Poly, m: Poly, o: Opening, eP: Vec, x: Vec): (r: Poly)
    requires p.Valid() && |s| == |m| == p.N && o.Shaped(p)
    requires |x| == |eP| == p.Kept() && Sized(x, p.N) && Sized(eP, p.N)
    ensures |r| == p.N
  {
    var l := p.Kept();
    Add(Add(Mul(s, Dot(p.N, x, o.e0, l)), Mul(o.r, Dot(p.N, x, eP, l))),
        Mul(m, Mul(s, Dot(p.N, x, GadgetVec(p), l))))
  }

  lemma {:induction false} DotDifference(n: nat, xs: Vec, ys: Vec, b: Vec, s: Poly, a: Vec, i: nat)
    requires n > 0 && |s| == n && Sized(xs, n) && Sized(ys, n) && Sized(a, n) && Sized(b, n)
    requires i <= |xs| && i <= |ys| && i <= |a| && i <= |b|
    requires forall j :: 0 <= j < i ==> ys[j] == Sub(b[j], Mul(s, a[j]))
    ensures Dot(n, xs, ys, i) == Sub(Dot(n, xs, b, i), Mul(s, Dot(n, xs, a, i)))
  {
    hide Mul, Add, Sub;
    if i == 0 {
      MulZero(s);
      SubSelf(Zero(n));
    } else {
      var j := i - 1;
      DotDifference(n, xs, ys, b, s, a, j);
      MulSub(xs[j], b[j], Mul(s, a[j]));
      EvalCommute(xs[j], 1, s, 1, a[j]);
      MulIsEval(xs[j], Mul(s, a[j]));
      MulIsEval(s, a[j]);
      MulIsEval(s, Mul(xs[j], a[j]));
      MulIsEval(xs[j], a[j]);
      MulAdd(s, Dot(n, xs, a, j), Mul(xs[j], a[j]));
      SubPairs(Dot(n, xs, b, j), Mul(s, Dot(n, xs, a, j)), Mul(xs[j], b[j]), Mul(s, Mul(xs[j], a[j])));
    }
  }

  lemma {:induction false} MulIsEval(a: Poly, b: Poly)
    requires |a| == |b|
    ensures Mul(a, b) == Eval(a, 1, b)
  {
  }

  lemma {:induction false} SubSelf(a: Poly)
    ensures Sub(a, a) == Zero(|a|)
  {
  }

  lemma {:induction false} SubPairs(a: Poly, b: Poly, c: Poly, d: Poly)
    requires |a| == |b| == |c| == |d|
    ensures Add(Sub(a, b), Sub(c, d)) == Sub(Add(a, c), Add(b, d))
  {
  }

  /** s(rA + E + mG) + r(P - sA) = (sE + rP) + m(sG). */
  lemma {:induction false} ShareIdentity(s: Poly, r: Poly, m: Poly, A: Poly, E: Poly, G: Poly, P: Poly)
    requires |s| == |r| == |m| == |A| == |E| == |G| == |P| > 0
    ensures Add(Mul(s, Add(Mul(r, A), Add(E, Mul(m, G)))), Mul(r, Sub(P, Mul(s, A))))
         == Add(Add(Mul(s, E), Mul(r, P)), Mul(m, Mul(s, G)))
  {
    hide Mul, Add, Sub;
    MulAdd(s, Mul(r, A), Add(E, Mul(m, G)));
    MulAdd(s, E, Mul(m, G));
    MulSub(r, P, Mul(s, A));
    MulSwap(s, r, A);
    MulSwap(s, m, G);
    CancelShare(Mul(r, Mul(s, A)), Mul(s, E), Mul(m, Mul(s, G)), Mul(r, P));
  }

  lemma {:induction false} MulSwap(a: Poly, b: Poly, c: Poly)
    requires |a| == |b| == |c|
    ensures Mul(a, Mul(b, c)) == Mul(b, Mul(a, c))
  {
    EvalCommute(a, 1, b, 1, c);
  }

  lemma {:induction false} CancelShare(a: Poly, e: Poly, g: Poly, q: Poly)
    requires |a| == |e| == |g| == |q|
    ensures Add(Add(a, Add(e, g)), Sub(q, a)) == Add(Add(e, q), g)
  {
  }

  //////// Summing over the users ////////

  /** <digits(c_u), d> for every user. */
  function UVec(p: Params, d: Vec, c: Vec): (r: Vec)
    requires p.Valid() && Sized(c, p.N) && |d| == p.Kept() && Sized(d, p.N)
    ensures |r| == |c| && Sized(r, p.N)
  {
    seq(|c|, u requires 0 <= u < |c| => Dot(p.N, Digits(p, c[u]), d, p.Kept()))
  }

  /** <centred digits of c_u, y> for every user. */
  function XVec(p: Params, y: Vec, c: Vec): (r: Vec)
    requires p.Valid() && Sized(c, p.N) && |y| == p.Kept() && Sized(y, p.N)
    ensures |r| == |c| && Sized(r, p.N)
  {
    seq(|c|, u requires 0 <= u < |c| => Dot(p.N, Centred(p, c[u]), y, p.Kept()))
  }

  function DroppedVec(p: Params, c: Vec): (r: Vec)
    requires p.Valid() && Sized(c, p.N)
    ensures |r| == |c| && Sized(r, p.N)
  {
    seq(|c|, u requires 0 <= u < |c| => Dropped(p, c[u]))
  }

  /** sum over users of <centred digits of c_u, eP_u>. */
  function PNoise(p: Params, eP: seq<Vec>, c: Vec, k: nat): (r: Poly)
    requires p.Valid() && k <= |c| && Sized(c, p.N) && PerUser(p, eP, |c|)
    ensures |r| == p.N
  {
    if k == 0 then Zero(p.N)
    else Add(PNoise(p, eP, c, k - 1), Dot(p.N, Centred(p, c[k - 1]), eP[k - 1], p.Kept()))
  }

  /** Everything the hybrid product is asked to assume about its inputs. */
  ghost predicate Setting(p: Params, crs: Vec, s: Vec, pkey: seq<Vec>, eP: seq<Vec>,
                          key: EvalKey, index: nat, m: Poly, o: Opening, c: Vec)
  {
    p.Valid() && |crs| == p.Kept() && Sized(crs, p.N) &&
    |s| == |c| && Sized(s, p.N) && Sized(c, p.N) && index < |c| && |m| == p.N &&
    key.Shaped(p) && o.Shaped(p) &&
    PublicKeys(p, crs, s, pkey, eP) && Encrypts(p, crs, s[index], key, m, o)
  }

  lemma {:induction false} AllShares(p: Params, crs: Vec, s: Vec, pkey: seq<Vec>, eP: seq<Vec>,
                                     key: EvalKey, index: nat, m: Poly, o: Opening, c: Vec, k: nat)
    requires Setting(p, crs, s, pkey, eP, key, index, m, o, c) && k <= |c|
    ensures Cong(p.Q, Add(Dot(p.N, s, UVec(p, key.d, c), k), Mul(o.r, SumV(p, pkey, c, k))),
                 Add(Add(Dot(p.N, s, XVec(p, o.e0, c), k), Mul(o.r, PNoise(p, eP, c, k))),
                     Mul(m, Dot(p.N, s, XVec(p, GadgetVec(p), c), k))))
  {
    hide Cong, Mul, Add, Sub, Digits, Centred, DForm, FForm, GadgetVec;
    if k == 0 {
      MulZero(o.r);
      MulZero(m);
      AddZero(Zero(p.N));
      CongRefl(p.Q, Zero(p.N));
    } else {
      var u, n, l := k - 1, p.N, p.Kept();
      AllShares(p, crs, s, pkey, eP, key, index, m, o, c, u);
      UserShare(p, crs, s[u], key, m, o, pkey[u], eP[u], c[u]);
      var su, dg, x := s[u], Digits(p, c[u]), Centred(p, c[u]);
      var S, V := Dot(n, s, UVec(p, key.d, c), u), SumV(p, pkey, c, u);
      var sU, v := Mul(su, Dot(n, dg, key.d, l)), Dot(n, dg, pkey[u], l);
      MulAdd(o.r, V, v);
      AddPairs(S, sU, Mul(o.r, V), Mul(o.r, v));
      var E, P, G := Dot(n, s, XVec(p, o.e0, c), u), PNoise(p, eP, c, u), Dot(n, s, XVec(p, GadgetVec(p), c), u);
      var e, q, g := Mul(su, Dot(n, x, o.e0, l)), Dot(n, x, eP[u], l), Mul(su, Dot(n, x, GadgetVec(p), l));
      CongAdd(p.Q, Add(S, Mul(o.r, V)), Add(Add(E, Mul(o.r, P)), Mul(m, G)),
              Add(sU, Mul(o.r, v)), Add(Add(e, Mul(o.r, q)), Mul(m, g)));
      MulAdd(o.r, P, q);
      MulAdd(m, G, g);
      AddPairs(Add(E, Mul(o.r, P)), Mul(m, G), Add(e, Mul(o.r, q)), Mul(m, g));
      AddPairs(E, Mul(o.r, P), e, Mul(o.r, q));
    }
  }

  /** <s, gadget part> is the phase less the dropped digits. */
  lemma {:induction false} GadgetPhase(p: Params, s: Vec, c: Vec)
    requires p.Valid() && |s| == |c| && Sized(s, p.N) && Sized(c, p.N)
    ensures Cong(p.Q, Dot(p.N, s, XVec(p, GadgetVec(p), c), |c|),
                 Sub(Dot(p.N, s, c, |c|), Dot(p.N, s, DroppedVec(p, c), |c|)))
  {
    hide Cong, Mul, Add, Sub, Dot, Centred, Dropped, GadgetVec;
    var gs := XVec(p, GadgetVec(p), c);
    var ys := seq(|c|, u requires 0 <= u < |c| => Sub(c[u], Dropped(p, c[u])));
    forall u | 0 <= u < |c| ensures Cong(p.Q, s[u], s[u]) && Cong(p.Q, gs[u], ys[u]) {
      CongRefl(p.Q, s[u]);
      GadgetRecompose(p, c[u]);
      MoveAddend(p.Q, c[u], Dot(p.N, Centred(p, c[u]), GadgetVec(p), p.Kept()), Dropped(p, c[u]));
    }
    DotCong(p.Q, p.N, s, s, gs, ys, |c|);
    DotMinus(p.N, s, ys, c, DroppedVec(p, c), |c|);
  }

  /** a = g + d gives g = a - d. */
  lemma {:induction false} MoveAddend(Q: int, a: Poly, g: Poly, d: Poly)
    requires |a| == |g| == |d| && Cong(Q, a, Add(g, d))
    ensures Cong(Q, g, Sub(a, d))
  {
    hide Cong;
    CongRefl(Q, d);
    CongSub(Q, a, Add(g, d), d, d);
    assert Sub(Add(g, d), d) == g;
    CongSym(Q, Sub(a, d), g);
  }

  lemma {:induction false} DotMinus(n: nat, xs: Vec, ys: Vec, b: Vec, a: Vec, i: nat)
    requires Sized(xs, n) && Sized(ys, n) && Sized(a, n) && Sized(b, n)
    requires i <= |xs| && i <= |ys| && i <= |a| && i <= |b|
    requires forall j :: 0 <= j < i ==> ys[j] == Sub(b[j], a[j])
    ensures Dot(n, xs, ys, i) == Sub(Dot(n, xs, b, i), Dot(n, xs, a, i))
  {
    hide Mul, Add, Sub;
    if i == 0 {
      SubSelf(Zero(n));
    } else {
      var j := i - 1;
      DotMinus(n, xs, ys, b, a, j);
      MulSub(xs[j], b[j], a[j]);
      SubPairs(Dot(n, xs, b, j), Dot(n, xs, a, j), Mul(xs[j], b[j]), Mul(xs[j], a[j]));
    }
  }

  lemma {:induction false} DotAffine(n: nat, xs: Vec, ys: Vec, b: Vec, r: Poly, g: Vec, i: nat)
    requires n > 0 && |r| == n && Sized(xs, n) && Sized(ys, n) && Sized(b, n) && Sized(g, n)
    requires i <= |xs| && i <= |ys| && i <= |b| && i <= |g|
    requires forall j :: 0 <= j < i ==> ys[j] == Add(b[j], Mul(r, g[j]))
    ensures Dot(n, xs, ys, i) == Add(Dot(n, xs, b, i), Mul(r, Dot(n, xs, g, i)))
  {
    hide Mul, Add;
    if i == 0 {
      MulZero(r);
      AddZero(Zero(n));
    } else {
      var j := i - 1;
      DotAffine(n, xs, ys, b, r, g, j);
      MulAdd(xs[j], b[j], Mul(r, g[j]));
      MulSwap(xs[j], r, g[j]);
      MulAdd(r, Dot(n, xs, g, j), Mul(xs[j], g[j]));
      AddPairs(Dot(n, xs, b, j), Mul(r, Dot(n, xs, g, j)), Mul(xs[j], b[j]), Mul(r, Mul(xs[j], g[j])));
    }
  }

  lemma {:induction false} DotFactor(n: nat, s: Poly, xs: Vec, ys: Vec, zs: Vec, i: nat)
    requires n > 0 && |s| == n && Sized(xs, n) && Sized(ys, n) && Sized(zs, n)
    requires i <= |xs| && i <= |ys| && i <= |zs|
    requires forall j :: 0 <= j < i ==> zs[j] == Mul(s, ys[j])
    ensures Mul(s, Dot(n, xs, ys, i)) == Dot(n, xs, zs, i)
  {
    hide Mul, Add;
    if i == 0 {
      MulZero(s);
    } else {
      var j := i - 1;
      DotFactor(n, s, xs, ys, zs, j);
      MulAdd(s, Dot(n, xs, ys, j), Mul(xs[j], ys[j]));
      MulSwap(s, xs[j], ys[j]);
    }
  }

  /** s·<digits(v), f> = <x,e1> + r·(v - dropped(v)). */
  lemma {:induction false} KeyShare(p: Params, s: Poly, f: Vec, o: Opening, v: Poly)
    requires p.Valid() && |s| == |v| == p.N && |f| == p.Kept() && Sized(f, p.N) && o.Shaped(p)
    requires forall i :: 0 <= i < p.Kept() ==> Cong(p.Q, Mul(s, f[i]), FForm(p, o, i))
    ensures Cong(p.Q, Mul(s, Dot(p.N, Digits(p, v), f, p.Kept())),
                 Add(Dot(p.N, Centred(p, v), o.e1, p.Kept()), Mul(o.r, Sub(v, Dropped(p, v)))))
  {
    hide Cong, Mul, Add, Sub, Dot, Digits, Centred, Dropped, GadgetVec;
    var n, l, dg, x, g := p.N, p.Kept(), Digits(p, v), Centred(p, v), GadgetVec(p);
    var sf := seq(l, i requires 0 <= i < l => Mul(s, f[i]));
    var ff := seq(l, i requires 0 <= i < l => FForm(p, o, i));
    DotFactor(n, s, dg, f, sf, l);
    forall i | 0 <= i < l ensures Cong(p.Q, dg[i], x[i]) { DigitsCong(p, v, i); }
    DotCong(p.Q, n, dg, x, sf, ff, l);
    DotAffine(n, x, ff, o.e1, o.r, g, l);
    GadgetRecompose(p, v);
    MoveAddend(p.Q, v, Dot(n, x, g, l), Dropped(p, v));
    CongMulRight(p.Q, o.r, Dot(n, x, g, l), Sub(v, Dropped(p, v)));
    CongRefl(p.Q, Dot(n, x, o.e1, l));
    CongAdd(p.Q, Dot(n, x, o.e1, l), Dot(n, x, o.e1, l), Mul(o.r, Dot(n, x, g, l)), Mul(o.r, Sub(v, Dropped(p, v))));
    CongTrans(p.Q, Mul(s, Dot(n, dg, f, l)), Dot(n, x, ff, l),
              Add(Dot(n, x, o.e1, l), Mul(o.r, Sub(v, Dropped(p, v)))));
  }

  /** The phase of the product before the key relation is used. */
  lemma {:induction false} ProductPhase(p: Params, key: EvalKey, index: nat, pkey: seq<Vec>, s: Vec, c: Vec, w: Poly, k: nat)
    requires Shapes(p, key, index, pkey, c) && |s| == |c| && Sized(s, p.N) && k <= |c|
    requires w == Dot(p.N, Digits(p, Reduce(p.Q, SumV(p, pkey, c, |c|))), key.f, p.Kept())
    ensures Cong(p.Q, Dot(p.N, s, Product(p, key, index, pkey, c), k),
                 Add(Dot(p.N, s, UVec(p, key.d, c), k), if index < k then Mul(s[index], w) else Zero(p.N)))
  {
    hide Cong, Mul, Add, Digits, Reduce, SumV;
    var R, U := Product(p, key, index, pkey, c), UVec(p, key.d, c);
    if k == 0 {
      AddZero(Zero(p.N));
      CongRefl(p.Q, Zero(p.N));
    } else {
      var u := k - 1;
      ProductPhase(p, key, index, pkey, s, c, w, u);
      var t := if u == index then Add(U[u], w) else U[u];
      assert R[u] == Reduce(p.Q, t);
      ReduceCong(p.Q, t);
      CongMulRight(p.Q, s[u], R[u], t);
      MulAdd(s[u], U[u], w);
      var D, z := Dot(p.N, s, U, u), if index < u then Mul(s[index], w) else Zero(p.N);
      CongAdd(p.Q, Dot(p.N, s, R, u), Add(D, z), Mul(s[u], R[u]), Mul(s[u], t));
      if u == index {
        AddZero(D);
        AddAssoc(D, Mul(s[u], U[u]), Mul(s[u], w));
      } else {
        AddMiddle(D, z, Mul(s[u], U[u]));
      }
    }
  }

  lemma {:induction false} AddMiddle(a: Poly, b: Poly, c: Poly)
    requires |a| == |b| == |c|
    ensures Add(Add(a, b), c) == Add(Add(a, c), b)
  {
  }

  /** The noise the hybrid product adds to the phase: digits times key noise, r times public-key
      noise, and the dropped digits. */
  function HbError(p: Params, s: Vec, pkey: seq<Vec>, eP: seq<Vec>, m: Poly, o: Opening, c: Vec): (r: Poly)
    requires p.Valid() && |s| == |c| && Sized(s, p.N) && Sized(c, p.N) && |m| == p.N && o.Shaped(p)
    requires PerUser(p, pkey, |c|) && PerUser(p, eP, |c|)
    ensures |r| == p.N
  {
    var v := HbV(p, pkey, c);
    Add(Add(Dot(p.N, s, XVec(p, o.e0, c), |c|), Mul(o.r, PNoise(p, eP, c, |c|))),
        Sub(Sub(Dot(p.N, Centred(p, v), o.e1, p.Kept()), Mul(o.r, Dropped(p, v))),
            Mul(m, Dot(p.N, s, DroppedVec(p, c), |c|))))
  }

  /** The aggregated public-key product, reduced as it is before its decomposition. */
  function HbV(p: Params, pkey: seq<Vec>, c: Vec): (r: Poly)
    requires p.Valid() && Sized(c, p.N) && PerUser(p, pkey, |c|)
    ensures |r| == p.N
  {
    Reduce(p.Q, SumV(p, pkey, c, |c|))
  }

  lemma {:induction false} SettingShapes(p: Params, crs: Vec, s: Vec, pkey: seq<Vec>, eP: seq<Vec>,
                      key: EvalKey, index: nat, m: Poly, o: Opening, c: Vec)
    requires Setting(p, crs, s, pkey, eP, key, index, m, o, c)
    ensures Shapes(p, key, index, pkey, c) && PerUser(p, eP, |c|)
    ensures forall i :: 0 <= i < p.Kept() ==> Cong(p.Q, Mul(s[index], key.f[i]), FForm(p, o, i))
  {
    hide Cong, Mul;
  }

  lemma {:induction false} PhaseWithKey(p: Params, key: EvalKey, index: nat, pkey: seq<Vec>, s: Vec, o: Opening, c: Vec)
    requires Shapes(p, key, index, pkey, c) && |s| == |c| && Sized(s, p.N) && o.Shaped(p)
    requires forall i :: 0 <= i < p.Kept() ==> Cong(p.Q, Mul(s[index], key.f[i]), FForm(p, o, i))
    ensures var v := HbV(p, pkey, c);
            Cong(p.Q, Dot(p.N, s, Product(p, key, index, pkey, c), |c|),
                 Add(Dot(p.N, s, UVec(p, key.d, c), |c|),
                     Add(Dot(p.N, Centred(p, v), o.e1, p.Kept()), Mul(o.r, Sub(v, Dropped(p, v))))))
  {
    hide Cong, Mul, Add, Sub, Dot, Digits, Centred, Dropped, Product, UVec, SumV, FForm;
    var v := HbV(p, pkey, c);
    var w := Dot(p.N, Digits(p, v), key.f, p.Kept());
    ProductPhase(p, key, index, pkey, s, c, w, |c|);
    KeyShare(p, s[index], key.f, o, v);
    var U := Dot(p.N, s, UVec(p, key.d, c), |c|);
    var y := Add(Dot(p.N, Centred(p, v), o.e1, p.Kept()), Mul(o.r, Sub(v, Dropped(p, v))));
    CongRefl(p.Q, U);
    CongAdd(p.Q, U, U, Mul(s[index], w), y);
    CongTrans(p.Q, Dot(p.N, s, Product(p, key, index, pkey, c), |c|), Add(U, Mul(s[index], w)), Add(U, y));
  }

  /** HbProd multiplies the phase by m, exactly up to HbError, whatever the number of users. */
  lemma {:induction false} HbProdPhase(p: Params, crs: Vec, s: Vec, pkey: seq<Vec>, eP: seq<Vec>,
                    key: EvalKey, index: nat, m: Poly, o: Opening, c: Vec)
    requires Setting(p, crs, s, pkey, eP, key, index, m, o, c)
    ensures Shapes(p, key, index, pkey, c) && PerUser(p, eP, |c|)
    ensures Cong(p.Q, Dot(p.N, s, Product(p, key, index, pkey, c), |c|),
                 Add(Mul(m, Dot(p.N, s, c, |c|)), HbError(p, s, pkey, eP, m, o, c)))
  {
    hide Cong, Mul, Add, Sub, Dot, Centred, Dropped, GadgetVec, Reduce, Product, XVec, UVec, DroppedVec, PNoise, SumV, FForm, PublicKeys, Encrypts;
    SettingShapes(p, crs, s, pkey, eP, key, index, m, o, c);
    PhaseWithKey(p, key, index, pkey, s, o, c);
    AllShares(p, crs, s, pkey, eP, key, index, m, o, c, |c|);
    GadgetPhase(p, s, c);
    ReduceCong(p.Q, SumV(p, pkey, c, |c|));
    var v := HbV(p, pkey, c);
    Assemble(p.Q, Dot(p.N, s, Product(p, key, index, pkey, c), |c|), Dot(p.N, s, UVec(p, key.d, c), |c|),
             o.r, SumV(p, pkey, c, |c|), v, Dropped(p, v),
             Dot(p.N, s, XVec(p, o.e0, c), |c|), Mul(o.r, PNoise(p, eP, c, |c|)),
             Dot(p.N, Centred(p, v), o.e1, p.Kept()), m,
             Dot(p.N, s, XVec(p, GadgetVec(p), c), |c|), Dot(p.N, s, c, |c|), Dot(p.N, s, DroppedVec(p, c), |c|));
  }

  lemma {:induction false} Assemble(Q: int, R: Poly, U: Poly, r: Poly, V: Poly, v: Poly, dv: Poly,
                 E: Poly, P: Poly, E1: Poly, m: Poly, G: Poly, F: Poly, D: Poly)
    requires |R| == |U| == |r| == |V| == |v| == |dv| == |E| == |P| == |E1| == |m| == |G| == |F| == |D|
    requires Cong(Q, R, Add(U, Add(E1, Mul(r, Sub(v, dv))))) && Cong(Q, v, V)
    requires Cong(Q, Add(U, Mul(r, V)), Add(Add(E, P), Mul(m, G))) && Cong(Q, G, Sub(F, D))
    ensures Cong(Q, R, Add(Mul(m, F), Add(Add(E, P), Sub(Sub(E1, Mul(r, dv)), Mul(m, D)))))
  {
    hide Cong, Mul, Add, Sub;
    var rv, rV, rd := Mul(r, v), Mul(r, V), Mul(r, dv);
    MulSub(r, v, dv);
    CongMulRight(Q, r, v, V);
    CongMulRight(Q, m, G, Sub(F, D));
    MulSub(m, F, D);
    CongRefl(Q, Add(E, P));
    CongAdd(Q, Add(E, P), Add(E, P), Mul(m, G), Sub(Mul(m, F), Mul(m, D)));
    var Y := Add(Add(E, P), Sub(Mul(m, F), Mul(m, D)));
    CongTrans(Q, Add(U, rV), Add(Add(E, P), Mul(m, G)), Y);
    CongRefl(Q, E1);
    CongRefl(Q, rd);
    CongSub(Q, rv, rV, rd, rd);
    CongAdd(Q, E1, E1, Sub(rv, rd), Sub(rV, rd));
    var Z := Add(E1, Sub(rV, rd));
    CongRefl(Q, U);
    CongAdd(Q, U, U, Add(E1, Sub(rv, rd)), Z);
    CongTrans(Q, R, Add(U, Add(E1, Sub(rv, rd))), Add(U, Z));
    var t := Sub(E1, rd);
    CongRefl(Q, t);
    CongAdd(Q, Add(U, rV), Y, t, t);
    Rearrange(U, rV, E1, rd, Add(E, P), Mul(m, F), Mul(m, D));
    CongTrans(Q, R, Add(U, Z), Add(Y, t));
  }

  lemma {:induction false} Rearrange(U: Poly, rV: Poly, E1: Poly, rd: Poly, EP: Poly, mF: Poly, mD: Poly)
    requires |U| == |rV| == |E1| == |rd| == |EP| == |mF| == |mD|
    ensures Add(U, Add(E1, Sub(rV, rd))) == Add(Add(U, rV), Sub(E1, rd))
    ensures Add(Add(EP, Sub(mF, mD)), Sub(E1, rd)) == Add(mF, Add(EP, Sub(Sub(E1, rd), mD)))
  {
  }
}
