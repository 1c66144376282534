/** The LMKCDEY accumulator: blind rotation by walking through the powers of 5 with windowed
    automorphisms. */
module Lmkcdey {
  import opened NegacyclicRing
  import opened RingModulus
  import opened Arithmetic
  import opened Gadget
  import opened RingVectors
  import opened KeyAlgebra
  import opened MultiKeyRun
  import opened SignedPermutation
  import opened PhaseTracking
  import opened LogTable
  import opened RingGsw

  /** add[j] encrypts X^(e_j); auto[0] switches from X -> X^-5, auto[i] from X -> X^(5^i). */
  datatype Keys = Keys(add: seq<Rows>, auto: seq<Rows>)

  datatype RingWorld = RingWorld(p: Params, k: nat, z: Poly, zeta: nat, sigma: nat, keys: Keys, exps: seq<int>) {
    ghost predicate Valid() {
      p.Valid() && k > 0 && p.N == 2 * Quarter(k) && |z| == p.N && Bounded(z, zeta) &&
      |keys.add| == |exps| && |keys.auto| > 1 &&
      (forall j :: 0 <= j < |exps| ==> AddKey(p, z, keys.add[j], exps[j], sigma)) &&
      AutoKey(p, z, keys.auto[0], NegFive(k), sigma) &&
      forall i :: 1 <= i < |keys.auto| ==> AutoKey(p, z, keys.auto[i], FivePower(k, i), sigma)
    }

    function AddNoise(): nat requires p.Valid() { ExternalBound(p, zeta, sigma) }

    function AutoNoise(): nat requires p.Valid() { RotateBound(p, zeta, sigma) }
  }

  function NegFive(k: nat): (r: nat)
    requires k > 0
    ensures r == CyclOrder(k) - 5 && r % 2 == 1
  {
    assert Quarter(k) == 2 * Quarter(k - 1);
    CyclOrder(k) - 5
  }

  ghost predicate AddKey(p: Params, z: Poly, ek: Rows, m: int, sigma: nat) {
    exists e0: Vec, e1: Vec :: GswEncrypts(p, z, ek, m, e0, e1) && SmallVec(e0, sigma) && SmallVec(e1, sigma)
  }

  ghost predicate AutoKey(p: Params, z: Poly, ak: Rows, f: nat, sigma: nat)
    requires p.Valid() && |z| == p.N
  {
    exists e: Vec :: GadgetEncrypts(p, z, ak, Scale(-1, Auto(f, z)), e) && SmallVec(e, sigma)
  }

  //////// One update ////////

  /** Once the automorphisms that remain (their product is rho) are applied, the phase is
      X^done·m up to noise. */
  ghost predicate Tracks(w: RingWorld, m: Poly, c0: Poly, c1: Poly, rho: nat, done: int, noise: int) {
    w.Valid() && |m| == w.p.N && Canonical(w.p, c0) && Canonical(w.p, c1) && rho % 2 == 1 &&
    Near(w.p.Q, Auto(rho, RingGsw.Phase(w.z, c0, c1)), Mono(done, m), noise)
  }

  lemma {:induction false} PowerOfTwo(w: RingWorld)
    requires w.Valid()
    ensures w.p.N == Pow(2, w.k + 1) && CyclOrder(w.k) == 2 * w.p.N
  {
  }

  /** Multiplies the accumulator by X^(e_j). */
  method AddIndex(p: Params, keys: Keys, j: nat, acc: RingCiphertext, ghost w: RingWorld, ghost m: Poly, ghost rho: nat, ghost odd: int, ghost done: int, ghost noise: int)
    requires p == w.p && keys == w.keys && j < |w.exps| && Tracks(w, m, acc.c0, acc.c1, rho, done, noise)
    requires Residue(rho, CyclOrder(w.k)) == Residue(odd, CyclOrder(w.k))
    modifies acc
    ensures Tracks(w, m, acc.c0, acc.c1, rho, odd * w.exps[j] + done, noise + w.AddNoise())
  {
    hide Near, Auto, Mono, ExternalBound, AutoKey, Bounded, CyclOrder, Quarter, FivePower, NegFive, RingGsw.Phase, GadgetEncrypts, External;
    assert AddKey(p, w.z, keys.add[j], w.exps[j], w.sigma);
    ghost var e0, e1 :| GswEncrypts(p, w.z, keys.add[j], w.exps[j], e0, e1) && SmallVec(e0, w.sigma) && SmallVec(e1, w.sigma);
    hide AddKey, SmallVec, Residue;
    ghost var f := RingGsw.Phase(w.z, acc.c0, acc.c1);
    ExternalNear(p, w.z, keys.add[j], w.exps[j], e0, e1, acc.c0, acc.c1, w.zeta, w.sigma);
    AddToAcc(p, keys.add[j], acc);
    PowerOfTwo(w);
    TrackAdd(w.k + 1, p.Q, m, f, RingGsw.Phase(w.z, acc.c0, acc.c1), rho, odd, w.exps[j], done, noise, w.AddNoise());
  }

  /** Applies X -> X^factor with its key. */
  method Rotate(p: Params, factor: nat, ak: Rows, acc: RingCiphertext, ghost w: RingWorld, ghost m: Poly, ghost rho: nat, ghost rho': nat, ghost done: int, ghost noise: int)
    requires p == w.p && Tracks(w, m, acc.c0, acc.c1, rho, done, noise) && factor % 2 == 1 && rho' % 2 == 1
    requires AutoKey(p, w.z, ak, factor, w.sigma)
    requires Residue(Times(factor, rho'), CyclOrder(w.k)) == Residue(rho, CyclOrder(w.k))
    modifies acc
    ensures Tracks(w, m, acc.c0, acc.c1, rho', done, noise + w.AutoNoise())
  {
    hide Near, Auto, Mono, RotateBound, AddKey, Bounded, CyclOrder, Quarter, FivePower, NegFive, RingGsw.Phase, Rotated, Scale;
    ghost var e: Vec :| GadgetEncrypts(p, w.z, ak, Scale(-1, Auto(factor, w.z)), e) && SmallVec(e, w.sigma);
    hide AutoKey, SmallVec, Residue;
    PowerOfTwo(w);
    ghost var f := RingGsw.Phase(w.z, acc.c0, acc.c1);
    RotatedNear(p, w.z, factor, ak, e, acc.c0, acc.c1, w.k + 1, w.zeta, w.sigma);
    Automorphism(p, factor, ak, acc);
    TrackRotate(w.k + 1, p.Q, m, f, RingGsw.Phase(w.z, acc.c0, acc.c1), factor, rho, rho', done, noise, w.AutoNoise());
  }
}
