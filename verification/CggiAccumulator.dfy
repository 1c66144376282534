/** The CGGI accumulator: one ternary multiplexer per coefficient. */
module CggiAccumulator {
  import opened NegacyclicRing
  import opened RingModulus
  import opened Arithmetic
  import opened Gadget
  import opened RingVectors
  import opened KeyAlgebra
  import opened MultiKeyRun
  import opened MultiKeyEval
  import opened BlindRotation
  import opened RingGsw
  import opened Lmkcdey
  import opened PhaseTracking
  import opened MkLwe
  import opened DmAccumulator

  /** ek encrypts the bit t: X^0 for 1, nothing for 0. */
  ghost predicate BitKey(p: Params, x: Secret, ek: Rows, t: int) {
    p.Valid() && |x.z| == p.N && GswShaped(p, ek) &&
    if t == 1 then AddKey(p, x.z, ek, 0, x.sigma) else ZeroKey(p, x.z, ek, x.sigma)
  }

  ghost predicate ZeroKey(p: Params, z: Poly, ek: Rows, sigma: nat)
    requires p.Valid() && |z| == p.N && GswShaped(p, ek)
  {
    exists e0: Vec, e1: Vec :: SmallVec(e0, sigma) && SmallVec(e1, sigma) &&
      GadgetEncrypts(p, z, Rows(Evens(ek.a), Evens(ek.b)), Zero(p.N), e0) &&
      GadgetEncrypts(p, z, Rows(Odds(ek.a), Odds(ek.b)), Zero(p.N), e1)
  }

  /** The external product with a key of 0 has phase 0 up to noise. */
  lemma {:induction false} ZeroNear(p: Params, x: Secret, ek: Rows, c0: Poly, c1: Poly)
    requires p.Valid() && |x.z| == p.N && GswShaped(p, ek) && ZeroKey(p, x.z, ek, x.sigma) && Canonical(p, c0) && Canonical(p, c1)
    ensures Near(p.Q, RingGsw.Phase(x.z, External(p, ek.a, c0, c1), External(p, ek.b, c0, c1)), Zero(p.N), ExternalBound(p, x.zeta, x.sigma))
  {
    hide Cong, Mul, Add, Dot, Digits, Dropped, Bounded, RingGsw.Phase, Reduce, External, Near, GadgetEncrypts, DigitNoise, DropBound, Times, Evens, Odds, Zero, SmallVec;
    var e0, e1 :| SmallVec(e0, x.sigma) && SmallVec(e1, x.sigma) &&
      GadgetEncrypts(p, x.z, Rows(Evens(ek.a), Evens(ek.b)), Zero(p.N), e0) &&
      GadgetEncrypts(p, x.z, Rows(Odds(ek.a), Odds(ek.b)), Zero(p.N), e1);
    var n, L, z, o := p.N, p.Kept(), x.z, Zero(p.N);
    ExternalSplit(p, ek.a, c0, c1);
    ExternalSplit(p, ek.b, c0, c1);
    var a0, b0 := Dot(n, Digits(p, c0), Evens(ek.a), L), Dot(n, Digits(p, c0), Evens(ek.b), L);
    var a1, b1 := Dot(n, Digits(p, c1), Odds(ek.a), L), Dot(n, Digits(p, c1), Odds(ek.b), L);
    ReducedPhase(p.Q, z, Add(a0, a1), Add(b0, b1));
    PhaseAdd(z, a0, b0, a1, b1);
    NothingDropped(p, c0);
    NothingDropped(p, c1);
    GadgetProductNear(p, z, Rows(Evens(ek.a), Evens(ek.b)), o, e0, c0, x.sigma, 0);
    GadgetProductNear(p, z, Rows(Odds(ek.a), Odds(ek.b)), o, e1, c1, x.sigma, 0);
    var d := DigitNoise(p, x.sigma);
    NearAdd(p.Q, RingGsw.Phase(z, a0, b0), o, RingGsw.Phase(z, a1, b1), o, d, d);
    AddZero(o);
    NearCongLeft(p.Q, RingGsw.Phase(z, External(p, ek.a, c0, c1), External(p, ek.b, c0, c1)),
                 Add(RingGsw.Phase(z, a0, b0), RingGsw.Phase(z, a1, b1)), o, d + d);
    NearMore(p.Q, RingGsw.Phase(z, External(p, ek.a, c0, c1), External(p, ek.b, c0, c1)), o, d + d, ExternalBound(p, x.zeta, x.sigma));
  }

  lemma {:induction false} NothingDropped(p: Params, c: Poly)
    requires p.Valid() && |c| == p.N
    ensures Bounded(Mul(Zero(p.N), Dropped(p, c)), 0) && Mul(Zero(p.N), c) == Zero(p.N)
  {
    MulZero(Dropped(p, c));
    MulZero(c);
    BoundedZero(p.N, 0);
  }

  /** A bit key multiplies the phase by its bit. */
  lemma {:induction false} BitNear(p: Params, x: Secret, ek: Rows, t: int, c0: Poly, c1: Poly)
    requires BitKey(p, x, ek, t) && (t == 0 || t == 1) && Bounded(x.z, x.zeta) && Canonical(p, c0) && Canonical(p, c1)
    ensures Near(p.Q, RingGsw.Phase(x.z, External(p, ek.a, c0, c1), External(p, ek.b, c0, c1)),
                 Scale(t, RingGsw.Phase(x.z, c0, c1)), ExternalBound(p, x.zeta, x.sigma))
  {
    hide Near, Mono, External, ExternalBound, GadgetEncrypts, SmallVec, ZeroKey, Bounded;
    var f := RingGsw.Phase(x.z, c0, c1);
    hide RingGsw.Phase;
    if t == 1 {
      var e0, e1 :| GswEncrypts(p, x.z, ek, 0, e0, e1) && SmallVec(e0, x.sigma) && SmallVec(e1, x.sigma);
      ExternalNear(p, x.z, ek, 0, e0, e1, c0, c1, x.zeta, x.sigma);
      MonoZero(f);
      ScaleOne(f);
    } else {
      ZeroNear(p, x, ek, c0, c1);
      ScaleNone(f);
    }
  }

  lemma {:induction false} ScaleOne(f: Poly)
    ensures Scale(1, f) == f
  {
  }

  lemma {:induction false} ScaleNone(f: Poly)
    ensures Scale(0, f) == Zero(|f|)
  {
  }

  //////// One multiplexer ////////

  /** c + t1·(X^c - 1) + t2·(X^-c - 1), one component. */
  function Mux(p: Params, c: Poly, t1: Poly, t2: Poly, e: int): (r: Poly)
    requires p.Valid() && |c| == |t1| == |t2| == p.N
    ensures Canonical(p, r)
  {
    var r1 := Reduce(p.Q, Add(c, Reduce(p.Q, Mul(t1, TableEntry(p, e)))));
    Reduce(p.Q, Add(r1, Reduce(p.Q, Mul(t2, TableEntry(p, NegIndex(p, e))))))
  }

  method AddToAccCGGI(p: Params, table: Vec, ek1: Rows, ek2: Rows, e: nat, acc: RingCiphertext)
    requires p.Valid() && GswShaped(p, ek1) && GswShaped(p, ek2) && e < 2 * p.N && |acc.c0| == |acc.c1| == p.N
    requires |table| == 2 * p.N && forall i :: 0 <= i < 2 * p.N ==> table[i] == TableEntry(p, i)
    modifies acc
    ensures var c0, c1 := old(acc.c0), old(acc.c1);
            acc.c0 == Mux(p, c0, External(p, ek1.a, c0, c1), External(p, ek2.a, c0, c1), e) &&
            acc.c1 == Mux(p, c1, External(p, ek1.b, c0, c1), External(p, ek2.b, c0, c1), e)
  {
    hide Dot, Digits, Reduce, Mul, Add, TableEntry;
    var d0 := Decompose(p, acc.c0);
    var d1 := Decompose(p, acc.c1);
    var dct := Weave(d0, d1);
    var neg := NegIndex(p, e);
    var monomial := table[if e == 2 * p.N then 0 else e];
    var monomialNeg := table[if neg == 2 * p.N then 0 else neg];
    var tmp := InnerProduct(p, dct, ek1.a);
    acc.c0 := Reduce(p.Q, Add(acc.c0, Reduce(p.Q, Mul(tmp, monomial))));
    tmp := InnerProduct(p, dct, ek1.b);
    acc.c1 := Reduce(p.Q, Add(acc.c1, Reduce(p.Q, Mul(tmp, monomial))));
    tmp := InnerProduct(p, dct, ek2.a);
    acc.c0 := Reduce(p.Q, Add(acc.c0, Reduce(p.Q, Mul(tmp, monomialNeg))));
    tmp := InnerProduct(p, dct, ek2.b);
    acc.c1 := Reduce(p.Q, Add(acc.c1, Reduce(p.Q, Mul(tmp, monomialNeg))));
  }

  lemma {:induction false} MuxCong(p: Params, c: Poly, t1: Poly, t2: Poly, e: int)
    requires p.Valid() && |c| == |t1| == |t2| == p.N
    ensures Cong(p.Q, Mux(p, c, t1, t2, e), Add(Add(c, Mul(t1, TableEntry(p, e))), Mul(t2, TableEntry(p, NegIndex(p, e)))))
  {
    hide Cong, Mul, Add, Reduce, TableEntry;
    var Q, u, v := p.Q, Mul(t1, TableEntry(p, e)), Mul(t2, TableEntry(p, NegIndex(p, e)));
    ReduceCong(Q, u);
    ReduceCong(Q, v);
    CongRefl(Q, c);
    CongAdd(Q, c, c, Reduce(Q, u), u);
    var r := Add(c, Reduce(Q, u));
    ReduceCong(Q, r);
    CongTrans(Q, Reduce(Q, r), r, Add(c, u));
    CongAdd(Q, Reduce(Q, r), Add(c, u), Reduce(Q, v), v);
    ReduceCong(Q, Add(Reduce(Q, r), Reduce(Q, v)));
    CongTrans(Q, Mux(p, c, t1, t2, e), Add(Reduce(Q, r), Reduce(Q, v)), Add(Add(c, u), v));
  }

  /** The phase of a multiplexer output is f + T(c)·f1 + T(-c)·f2. */
  lemma {:induction false} MuxPhase(p: Params, z: Poly, c0: Poly, c1: Poly, s0: Poly, s1: Poly, t0: Poly, t1: Poly, e: int)
    requires p.Valid() && |z| == |c0| == |c1| == |s0| == |s1| == |t0| == |t1| == p.N
    ensures Cong(p.Q, RingGsw.Phase(z, Mux(p, c0, s0, t0, e), Mux(p, c1, s1, t1, e)),
                 Add(Add(RingGsw.Phase(z, c0, c1), Mul(RingGsw.Phase(z, s0, s1), TableEntry(p, e))),
                     Mul(RingGsw.Phase(z, t0, t1), TableEntry(p, NegIndex(p, e)))))
  {
    hide Cong, Mul, Add, Mux, TableEntry, RingGsw.Phase;
    var Q, u, v := p.Q, TableEntry(p, e), TableEntry(p, NegIndex(p, e));
    MuxCong(p, c0, s0, t0, e);
    MuxCong(p, c1, s1, t1, e);
    var a, b := Add(Add(c0, Mul(s0, u)), Mul(t0, v)), Add(Add(c1, Mul(s1, u)), Mul(t1, v));
    CongPhase(Q, z, Mux(p, c0, s0, t0, e), a, Mux(p, c1, s1, t1, e), b);
    PhaseAdd(z, Add(c0, Mul(s0, u)), Add(c1, Mul(s1, u)), Mul(t0, v), Mul(t1, v));
    PhaseAdd(z, c0, c1, Mul(s0, u), Mul(s1, u));
    PhaseTimes(z, s0, s1, u);
    PhaseTimes(z, t0, t1, v);
  }

  lemma {:induction false} CongPhase(Q: int, z: Poly, a: Poly, a': Poly, b: Poly, b': Poly)
    requires |z| == |a| == |b| && Cong(Q, a, a') && Cong(Q, b, b')
    ensures Cong(Q, RingGsw.Phase(z, a, b), RingGsw.Phase(z, a', b'))
  {
    hide Cong, Mul, Sub;
    CongMulRight(Q, z, a, a');
    CongSub(Q, b, b', Mul(z, a), Mul(z, a'));
  }

  lemma {:induction false} PhaseTimes(z: Poly, a: Poly, b: Poly, u: Poly)
    requires |z| == |a| == |b| == |u| > 0
    ensures RingGsw.Phase(z, Mul(a, u), Mul(b, u)) == Mul(RingGsw.Phase(z, a, b), u)
  {
    hide Mul;
    MulAssoc(z, a, u);
    MulSub(u, b, Mul(z, a));
  }

  /** Multiplying by a table entry X^e - 1 at most doubles the noise. */
  lemma {:induction false} NearTable(p: Params, f: Poly, g: Poly, e: int, beta: nat)
    requires p.Valid() && |f| == |g| == p.N && Near(p.Q, f, g, beta)
    ensures Near(p.Q, Mul(f, TableEntry(p, e)), Sub(Mono(e, g), g), 2 * beta)
  {
    hide Cong, Mul, Add, Sub, Mono, Bounded, Reduce, One;
    var x: Poly :| |x| == |f| && Bounded(x, beta) && Cong(p.Q, f, Add(g, x));
    var n, Q := p.N, p.Q;
    var t := Sub(Mono(e, One(n)), One(n));
    ReduceCong(Q, t);
    CongMul(Q, f, Add(g, x), TableEntry(p, e), t);
    TimesTable(Add(g, x), e);
    MonoAdd(e, g, x);
    SplitDifference(Mono(e, g), Mono(e, x), g, x);
    BoundedMono(e, x, beta);
    BoundedAdd(Mono(e, x), x, beta, beta);
  }

  lemma {:induction false} TimesTable(f: Poly, e: int)
    requires |f| > 0
    ensures Mul(f, Sub(Mono(e, One(|f|)), One(|f|))) == Sub(Mono(e, f), f)
  {
    hide Mul, Mono, One;
    MulSub(f, Mono(e, One(|f|)), One(|f|));
    MonoMul(e, f, One(|f|));
    MulOne(f);
  }

  lemma {:induction false} SplitDifference(a: Poly, b: Poly, c: Poly, d: Poly)
    requires |a| == |b| == |c| == |d|
    ensures Sub(Add(a, b), Add(c, d)) == Add(Sub(a, c), Sub(b, d))
  {
  }

  /** f + b+·(X^e - 1)·f + b-·(X^-e - 1)·f = X^(e·t)·f for t = b+ - b-. */
  lemma {:induction false} TernaryMux(p: Params, f: Poly, e: int, t: int)
    requires p.Valid() && |f| == p.N && -1 <= t <= 1 && 0 <= e < 2 * p.N
    ensures var g1, g2 := Scale(PlusBit(t), f), Scale(MinusBit(t), f);
            Add(Add(f, Sub(Mono(e, g1), g1)), Sub(Mono(NegIndex(p, e), g2), g2)) == Mono(e * t, f)
  {
    var o := Zero(p.N);
    ScaleOne(f);
    ScaleNone(f);
    MonoOfZero(p.N, e);
    MonoOfZero(p.N, NegIndex(p, e));
    NegIndexIsNeg(p, e);
    MonoMod(NegIndex(p, e), -e, f);
    MonoZero(f);
    hide Mono, NegIndex;
    assert e * 1 == e && e * 0 == 0 && e * -1 == -e;
    Collapse(f, Mono(e, f), o);
    Collapse(f, Mono(-e, f), o);
  }

  lemma {:induction false} Collapse(f: Poly, g: Poly, o: Poly)
    requires |f| == |g| && o == Zero(|f|)
    ensures Add(Add(f, Sub(g, f)), Sub(o, o)) == g && Add(Add(f, Sub(o, o)), Sub(g, f)) == g && Add(Add(f, Sub(o, o)), Sub(o, o)) == f
  {
  }

  /** One multiplexer multiplies the phase by X^(e·t), with the noise of four external products. */
  lemma {:induction false} MuxNear(p: Params, x: Secret, ek1: Rows, ek2: Rows, e: int, t: int, c0: Poly, c1: Poly)
    requires BitKey(p, x, ek1, PlusBit(t)) && BitKey(p, x, ek2, MinusBit(t)) && -1 <= t <= 1 && Bounded(x.z, x.zeta)
    requires Canonical(p, c0) && Canonical(p, c1) && 0 <= e < 2 * p.N
    ensures Near(p.Q, RingGsw.Phase(x.z, Mux(p, c0, External(p, ek1.a, c0, c1), External(p, ek2.a, c0, c1), e),
                                    Mux(p, c1, External(p, ek1.b, c0, c1), External(p, ek2.b, c0, c1), e)),
                 Mono(e * t, RingGsw.Phase(x.z, c0, c1)), 4 * ExternalBound(p, x.zeta, x.sigma))
  {
    hide Near, Mono, External, ExternalBound, Mux, Bounded, TableEntry, RingGsw.Phase, Mul, Add, Sub, Scale, AddKey, ZeroKey, NegIndex, Cong;
    var Q, z, f, beta := p.Q, x.z, RingGsw.Phase(x.z, c0, c1), ExternalBound(p, x.zeta, x.sigma);
    var s0, s1, t0, t1 := External(p, ek1.a, c0, c1), External(p, ek1.b, c0, c1), External(p, ek2.a, c0, c1), External(p, ek2.b, c0, c1);
    var f1, f2, g1, g2 := RingGsw.Phase(z, s0, s1), RingGsw.Phase(z, t0, t1), Scale(PlusBit(t), f), Scale(MinusBit(t), f);
    BitNear(p, x, ek1, PlusBit(t), c0, c1);
    BitNear(p, x, ek2, MinusBit(t), c0, c1);
    NearTable(p, f1, g1, e, beta);
    NearTable(p, f2, g2, NegIndex(p, e), beta);
    var u, v := Mul(f1, TableEntry(p, e)), Mul(f2, TableEntry(p, NegIndex(p, e)));
    var u', v' := Sub(Mono(e, g1), g1), Sub(Mono(NegIndex(p, e), g2), g2);
    NearExact(Q, f, 0);
    NearAdd(Q, f, f, u, u', 0, 2 * beta);
    NearAdd(Q, Add(f, u), Add(f, u'), v, v', 2 * beta, 2 * beta);
    MuxPhase(p, z, c0, c1, s0, s1, t0, t1, e);
    NearCongLeft(Q, RingGsw.Phase(z, Mux(p, c0, s0, t0, e), Mux(p, c1, s1, t1, e)), Add(Add(f, u), v), Add(Add(f, u'), v'), 4 * beta);
    TernaryMux(p, f, e, t);
  }

  //////// Whole runs ////////

  /** ek1[i] encrypts s_i = 1, ek2[i] encrypts s_i = -1. */
  ghost predicate CggiKeys(p: Params, x: Secret, ek1: seq<Rows>, ek2: seq<Rows>) {
    p.Valid() && |x.z| == p.N && Bounded(x.z, x.zeta) && |ek1| == |ek2| == |x.s| &&
    forall i :: 0 <= i < |x.s| ==> -1 <= x.s[i] <= 1 && BitKey(p, x, ek1[i], PlusBit(x.s[i])) && BitKey(p, x, ek2[i], MinusBit(x.s[i]))
  }

  method Step(p: Params, table: Vec, ek1: Rows, ek2: Rows, e: nat, acc: RingCiphertext, ghost x: Secret, ghost t: int, ghost m: Poly, ghost done: int, ghost count: nat)
    requires BitKey(p, x, ek1, PlusBit(t)) && BitKey(p, x, ek2, MinusBit(t)) && -1 <= t <= 1 && Bounded(x.z, x.zeta) && e < 2 * p.N
    requires |table| == 2 * p.N && (forall i :: 0 <= i < 2 * p.N ==> table[i] == TableEntry(p, i)) && RotatedBy(p, x, m, acc.c0, acc.c1, done, count)
    modifies acc
    ensures RotatedBy(p, x, m, acc.c0, acc.c1, e * t + done, count + 4)
  {
    hide Near, Mono, ExternalBound, Bounded, RingGsw.Phase, AddKey, ZeroKey, External, Mux, TableEntry;
    ghost var f, beta := RingGsw.Phase(x.z, acc.c0, acc.c1), ExternalBound(p, x.zeta, x.sigma);
    MuxNear(p, x, ek1, ek2, e, t, acc.c0, acc.c1);
    AddToAccCGGI(p, table, ek1, ek2, e, acc);
    NearStep(p.Q, RingGsw.Phase(x.z, acc.c0, acc.c1), f, m, done, e * t, Times(count, beta), 4 * beta);
    Distribute(beta, count, 4);
  }

  /** EvalAcc: the phase is multiplied by X^(-(2N/q)·<a, s>), as by the DM accumulator. */
  method EvalAcc(p: Params, table: Vec, ek1: seq<Rows>, ek2: seq<Rows>, q: nat, acc: RingCiphertext, a: seq<int>,
                 ghost x: Secret, ghost r: nat, ghost m: Poly) returns (ghost done: int)
    requires CggiKeys(p, x, ek1, ek2) && q > 0 && r > 0 && q * r == 2 * p.N && |a| == |x.s| && forall i :: 0 <= i < |a| ==> 0 <= a[i] < q
    requires |table| == 2 * p.N && forall i :: 0 <= i < 2 * p.N ==> table[i] == TableEntry(p, i)
    requires Canonical(p, acc.c0) && Canonical(p, acc.c1) && m == RingGsw.Phase(x.z, acc.c0, acc.c1)
    modifies acc
    ensures RotatedBy(p, x, m, acc.c0, acc.c1, -(r * Inner(a, x.s, |a|)), Times(|a|, 4))
  {
    hide Near, Mono, BitKey, Bounded, RingGsw.Phase, ExternalBound, Turned, Inner, TableEntry;
    var MbyMod := 2 * p.N / q;
    DivModUnique(2 * p.N, q, r, 0);
    done := 0;
    MonoZero(m);
    NearExact(p.Q, m, 0);
    TurnedStart(q, r, a, x.s);
    assert RotatedBy(p, x, m, acc.c0, acc.c1, 0, 0);
    hide RotatedBy;
    for i := 0 to |a|
      invariant RotatedBy(p, x, m, acc.c0, acc.c1, done, Times(i, 4)) && Turned(q, r, done, -Inner(a, x.s, i))
    {
      NegModIs(q, a[i]);
      var e := NegMod(q, a[i]) * MbyMod;
      IndexRange(q, r, NegMod(q, a[i]));
      Step(p, table, ek1[i], ek2[i], e, acc, x, x.s[i], m, done, Times(i, 4));
      TurnedMux(q, r, done, -Inner(a, x.s, i), NegMod(q, a[i]), x.s[i]);
      done := e * x.s[i] + done;
      TurnedNeg(q, r, done, -Inner(a, x.s, i), x.s[i], a[i], NegMod(q, a[i]));
      InnerNext(a, x.s, i);
    }
    TurnedEnd(p, x, m, acc.c0, acc.c1, q, r, done, Inner(a, x.s, |a|), Times(|a|, 4));
  }

  lemma {:induction false} IndexRange(q: int, r: int, y: int)
    requires 0 <= y < q && r > 0
    ensures 0 <= y * r < q * r
  {
    MulNonNeg(y, r);
    MulMono(y + 1, q, r);
    Distribute(r, y, 1);
  }

  lemma {:induction false} TurnedMux(q: nat, r: nat, done: int, v: int, y: int, s: int)
    requires Turned(q, r, done, v)
    ensures Turned(q, r, (y * r) * s + done, v + s * y)
  {
    assert (y * r) * s == r * (s * y) by { Arithmetic.Regroup(y, r, s); assert r * s == s * r; Arithmetic.Regroup(y, s, r); Arithmetic.Regroup(r, s, y); }
    Distribute(r, v, s * y);
    ModAddCong(done, r * v, r * (s * y), r * (s * y), q * r);
  }
}
