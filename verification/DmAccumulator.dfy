/** The DM accumulator: one external product per nonzero base-R digit of -a_i. */
module DmAccumulator {
  import opened NegacyclicRing
  import opened RingModulus
  import opened Arithmetic
  import opened Gadget
  import opened RingVectors
  import opened KeyAlgebra
  import opened MultiKeyRun
  import opened RingGsw
  import opened Lmkcdey
  import opened PhaseTracking
  import opened LmkcdeyExponent
  import opened MkLwe
  import MkLweKeys

  /** ek[i][v][j] encrypts X^((2N/q)·s_i·v·R^j); the slot v = 0 is not used. */
  type DmKey = seq<seq<seq<Rows>>>

  datatype Secret = Secret(z: Poly, zeta: nat, sigma: nat, s: seq<int>)

  ghost predicate DmKeys(p: Params, x: Secret, q: nat, base: nat, d: nat, ek: DmKey) {
    p.Valid() && |x.z| == p.N && Bounded(x.z, x.zeta) && q > 0 && base > 0 && |ek| == |x.s| &&
    (forall i :: 0 <= i < |ek| ==> |ek[i]| == base) && (forall i, v :: 0 <= i < |ek| && 0 <= v < base ==> |ek[i][v]| == d) &&
    forall i, v, j :: 0 <= i < |ek| && 0 < v < base && 0 <= j < d ==>
      AddKey(p, x.z, ek[i][v][j], KeyExponent(q, 2 * p.N, x.s[i] * Times(v, Pow(base, j))), x.sigma)
  }

  /** Phase = X^done·m up to the noise of `count` external products. */
  ghost predicate RotatedBy(p: Params, x: Secret, m: Poly, c0: Poly, c1: Poly, done: int, count: nat) {
    p.Valid() && |x.z| == |m| == p.N && Canonical(p, c0) && Canonical(p, c1) &&
    Near(p.Q, RingGsw.Phase(x.z, c0, c1), Mono(done, m), Times(count, ExternalBound(p, x.zeta, x.sigma)))
  }

  method AddToAccDM(p: Params, ek: Rows, acc: RingCiphertext, ghost x: Secret, ghost m: Poly, ghost e: int, ghost done: int, ghost count: nat)
    requires p.Valid() && |x.z| == p.N && Bounded(x.z, x.zeta) && AddKey(p, x.z, ek, e, x.sigma) && RotatedBy(p, x, m, acc.c0, acc.c1, done, count)
    modifies acc
    ensures RotatedBy(p, x, m, acc.c0, acc.c1, e + done, count + 1)
  {
    hide Near, Mono, ExternalBound, Bounded, RingGsw.Phase, GadgetEncrypts, External;
    ghost var e0, e1 :| GswEncrypts(p, x.z, ek, e, e0, e1) && SmallVec(e0, x.sigma) && SmallVec(e1, x.sigma);
    hide AddKey, SmallVec;
    ghost var f := RingGsw.Phase(x.z, acc.c0, acc.c1);
    ghost var beta := ExternalBound(p, x.zeta, x.sigma);
    ExternalNear(p, x.z, ek, e, e0, e1, acc.c0, acc.c1, x.zeta, x.sigma);
    AddToAcc(p, ek, acc);
    NearStep(p.Q, RingGsw.Phase(x.z, acc.c0, acc.c1), f, m, done, e, Times(count, beta), beta);
    Distribute(beta, count, 1);
  }

  lemma {:induction false} CountMore(p: Params, x: Secret, m: Poly, c0: Poly, c1: Poly, done: int, count: nat)
    requires RotatedBy(p, x, m, c0, c1, done, count)
    ensures RotatedBy(p, x, m, c0, c1, done, count + 1)
  {
    hide Near, Mono, ExternalBound, RingGsw.Phase;
    var beta := ExternalBound(p, x.zeta, x.sigma);
    Distribute(beta, count, 1);
    NearMore(p.Q, RingGsw.Phase(x.z, c0, c1), Mono(done, m), Times(count, beta), Times(count + 1, beta));
  }

  /** The exponent so far is (2N/q)·v modulo 2N. */
  ghost predicate Turned(q: nat, r: nat, done: int, v: int) {
    q * r > 0 && Residue(done, q * r) == Residue(r * v, q * r)
  }

  lemma {:induction false} TurnedAdd(q: nat, r: nat, done: int, v: int, k: int)
    requires q > 0 && r > 0 && Turned(q, r, done, v)
    ensures Turned(q, r, KeyExponent(q, q * r, k) + done, v + k)
  {
    hide KeyExponent;
    KeyExponentScaled(q, r, k);
    ModAddCong(KeyExponent(q, q * r, k), k * r, done, r * v, q * r);
    Distribute(r, v, k);
    assert r * k == k * r;
  }

  /** aI = -a_i modulo q, so s_i·aI turns like -a_i·s_i. */
  lemma {:induction false} TurnedNeg(q: nat, r: nat, done: int, v: int, s: int, a: int, aI: int)
    requires q > 0 && r > 0 && Turned(q, r, done, v + s * aI) && Residue(aI, q) == Residue(-a, q)
    ensures Turned(q, r, done, v - a * s)
  {
    var k := ModEqWitness(aI, -a, q);
    var M := q * r;
    assert s * aI == -(a * s) + q * (s * k) by { Distribute(s, -a, q * k); Arithmetic.Regroup(s, q, k); }
    var w := v - a * s;
    assert r * (v + s * aI) == r * w + M * (s * k) by { Distribute(r, w, q * (s * k)); Arithmetic.Regroup(r, q, s * k); assert r * q == q * r; }
    ModShift(r * (v + s * aI), r * w, M, s * k);
  }

  function NegMod(q: int, a: int): int {
    if a == 0 then 0 else q - a
  }

  lemma {:induction false} NegModIs(q: int, a: int)
    requires 0 <= a < q
    ensures 0 <= NegMod(q, a) < q && Residue(NegMod(q, a), q) == Residue(-a, q)
  {
    if a > 0 {
      ModShift(q - a, -a, q, 1);
    }
  }

  /** The digit walk for one coefficient, skipping zero digits. */
  method WalkDigits(p: Params, ek: DmKey, base: nat, d: nat, i: nat, aI: nat, acc: RingCiphertext,
                    ghost x: Secret, ghost q: nat, ghost r: nat, ghost m: Poly, ghost start: int, ghost v: int, ghost count: nat) returns (ghost done: int)
    requires DmKeys(p, x, q, base, d, ek) && r > 0 && q * r == 2 * p.N && i < |ek| && aI < Pow(base, d)
    requires RotatedBy(p, x, m, acc.c0, acc.c1, start, count) && Turned(q, r, start, v)
    modifies acc
    ensures RotatedBy(p, x, m, acc.c0, acc.c1, done, count + d) && Turned(q, r, done, v + x.s[i] * aI)
  {
    hide RotatedBy, Turned, AddKey, KeyExponent, Bounded, Pow;
    var t := aI;
    done := start;
    assert v + x.s[i] * 0 == v;
    for j := 0 to d
      invariant t == MkLweKeys.Quotient(base, aI, j) && RotatedBy(p, x, m, acc.c0, acc.c1, done, count + j)
      invariant Turned(q, r, done, v + x.s[i] * MkLweKeys.UValue(base, aI, j))
    {
      var a0 := t % base;
      ghost var w := Times(a0, Pow(base, j));
      Distribute(x.s[i], MkLweKeys.UValue(base, aI, j), w);
      if a0 != 0 {
        AddToAccDM(p, ek[i][a0][j], acc, x, m, KeyExponent(q, 2 * p.N, x.s[i] * w), done, count + j);
        TurnedAdd(q, r, done, v + x.s[i] * MkLweKeys.UValue(base, aI, j), x.s[i] * w);
        done := KeyExponent(q, 2 * p.N, x.s[i] * w) + done;
      } else {
        CountMore(p, x, m, acc.c0, acc.c1, done, count + j);
      }
      t := t / base;
    }
    MkLweKeys.DigitsRebuild(base, aI, d);
  }

  /** EvalAcc: the phase is multiplied by X^(-(2N/q)·<a, s>), with the noise of at most n·d products. */
  method EvalAcc(p: Params, ek: DmKey, base: nat, d: nat, q: nat, acc: RingCiphertext, a: seq<int>,
                 ghost x: Secret, ghost r: nat, ghost m: Poly) returns (ghost done: int)
    requires DmKeys(p, x, q, base, d, ek) && r > 0 && q * r == 2 * p.N && |a| == |ek| && q <= Pow(base, d)
    requires (forall i :: 0 <= i < |a| ==> 0 <= a[i] < q) && Canonical(p, acc.c0) && Canonical(p, acc.c1) && m == RingGsw.Phase(x.z, acc.c0, acc.c1)
    modifies acc
    ensures RotatedBy(p, x, m, acc.c0, acc.c1, -(r * Inner(a, x.s, |a|)), Times(|a|, d))
  {
    hide Near, Mono, AddKey, KeyExponent, Bounded, Pow, RingGsw.Phase, ExternalBound, Turned, Inner;
    done := 0;
    MonoZero(m);
    NearExact(p.Q, m, 0);
    TurnedStart(q, r, a, x.s);
    assert RotatedBy(p, x, m, acc.c0, acc.c1, 0, 0);
    hide RotatedBy;
    for i := 0 to |a|
      invariant RotatedBy(p, x, m, acc.c0, acc.c1, done, Times(i, d)) && Turned(q, r, done, -Inner(a, x.s, i))
    {
      NegModIs(q, a[i]);
      var aI := NegMod(q, a[i]);
      done := WalkDigits(p, ek, base, d, i, aI, acc, x, q, r, m, done, -Inner(a, x.s, i), Times(i, d));
      TurnedNeg(q, r, done, -Inner(a, x.s, i), x.s[i], a[i], aI);
      InnerNext(a, x.s, i);
      TimesStep(i + 1, d);
    }
    TurnedEnd(p, x, m, acc.c0, acc.c1, q, r, done, Inner(a, x.s, |a|), Times(|a|, d));
  }

  lemma {:induction false} TurnedStart(q: nat, r: nat, a: seq<int>, s: seq<int>)
    requires q * r > 0
    ensures Turned(q, r, 0, -Inner(a, s, 0))
  {
    assert r * 0 == 0;
  }

  lemma {:induction false} InnerNext(a: seq<int>, s: seq<int>, i: nat)
    requires i < |a| && i < |s|
    ensures Inner(a, s, i + 1) == Inner(a, s, i) + a[i] * s[i]
  {
  }

  lemma {:induction false} TurnedEnd(p: Params, x: Secret, m: Poly, c0: Poly, c1: Poly, q: nat, r: nat, done: int, v: int, count: nat)
    requires RotatedBy(p, x, m, c0, c1, done, count) && q * r == 2 * p.N && Turned(q, r, done, -v)
    ensures RotatedBy(p, x, m, c0, c1, -(r * v), count)
  {
    hide Mono, Near, Canonical, RingGsw.Phase, ExternalBound;
    SameRotation(m, q, r, done, v);
  }

  lemma {:induction false} SameRotation(m: Poly, q: nat, r: nat, done: int, v: int)
    requires |m| > 0 && q * r == 2 * |m| && Turned(q, r, done, -v)
    ensures Mono(done, m) == Mono(-(r * v), m)
  {
    assert r * -v == -(r * v);
    MonoMod(done, -(r * v), m);
  }
}
