/** Phases seen through the automorphisms that are still to come: if those compose to X -> X^rho,
    the invariant of a run is that the phase under X -> X^rho is X^done·m up to noise. */
module PhaseTracking {
  import opened NegacyclicRing
  import opened RingModulus
  import opened Arithmetic
  import opened KeyAlgebra
  import opened MultiKeyRun
  import opened SignedPermutation
  import opened RingGsw

  lemma {:induction false} NearAuto(b: nat, Q: int, k: nat, r: Poly, f: Poly, beta: nat)
    requires |r| == |f| == Pow(2, b) && k % 2 == 1 && Near(Q, r, f, beta)
    ensures Near(Q, Auto(k, r), Auto(k, f), beta)
  {
    hide Cong, Bounded, Auto, Add;
    var x: Poly :| |x| == |r| && Bounded(x, beta) && Cong(Q, r, Add(f, x));
    CongAuto(Q, k, r, Add(f, x));
    AutoAdd(k, f, x);
    BoundedAuto(b, k, x, beta);
  }

  lemma {:induction false} CongAuto(Q: int, k: nat, a: Poly, b: Poly)
    requires Cong(Q, a, b)
    ensures Cong(Q, Auto(k, a), Auto(k, b))
  {
    var t: Poly :| |t| == |a| && a == Add(b, Scale(Q, t));
    hide Auto;
    AutoAdd(k, b, Scale(Q, t));
    AutoScale(k, Q, t);
    assert Auto(k, a) == Add(Auto(k, b), Scale(Q, Auto(k, t)));
  }

  lemma {:induction false} NearTrans(Q: int, r: Poly, f: Poly, g: Poly, alpha: int, beta: int)
    requires |r| == |f| == |g| > 0 && Near(Q, r, f, alpha) && Near(Q, f, g, beta)
    ensures Near(Q, r, g, alpha + beta)
  {
    hide Near;
    MonoZero(f);
    MonoZero(g);
    NearStep(Q, r, f, g, 0, 0, beta, alpha);
  }

  lemma {:induction false} NearMore(Q: int, r: Poly, f: Poly, alpha: int, beta: int)
    requires Near(Q, r, f, alpha) && alpha <= beta
    ensures Near(Q, r, f, beta)
  {
    hide Cong, Bounded, Add;
    var x: Poly :| |x| == |r| && Bounded(x, alpha) && Cong(Q, r, Add(f, x));
    BoundedMore(x, alpha, beta);
  }

  lemma {:induction false} SameTurn(M: int, x: int, y: int, e: int)
    requires M > 0 && Residue(x, M) == Residue(y, M)
    ensures (x * e) % M == (y * e) % M
  {
    ModMulCong(x, y, e, e, M);
  }

  /** Multiplying the phase by X^e while rho = odd remains adds odd·e to the final exponent. */
  lemma {:induction false} TrackAdd(b: nat, Q: int, m: Poly, f: Poly, f': Poly, rho: nat, odd: int, e: int, done: int, noise: int, beta: nat)
    requires |m| == |f| == |f'| == Pow(2, b) && rho % 2 == 1 && Residue(rho, 2 * |m|) == Residue(odd, 2 * |m|)
    requires Near(Q, Auto(rho, f), Mono(done, m), noise) && Near(Q, f', Mono(e, f), beta)
    ensures Near(Q, Auto(rho, f'), Mono(odd * e + done, m), noise + beta)
  {
    hide Near, Auto, Mono, Pow;
    NearAuto(b, Q, rho, f', Mono(e, f), beta);
    AutoMono(rho, e, f);
    SameTurn(2 * |m|, rho, odd, e);
    MonoMod(rho * e, odd * e, Auto(rho, f));
    NearStep(Q, Auto(rho, f'), Auto(rho, f), m, done, odd * e, noise, beta);
  }

  /** Applying X -> X^factor uses it up: rho = factor·rho' becomes rho'. */
  lemma {:induction false} TrackRotate(b: nat, Q: int, m: Poly, f: Poly, f': Poly, factor: nat, rho: nat, rho': nat, done: int, noise: int, beta: nat)
    requires |m| == |f| == |f'| == Pow(2, b) && rho % 2 == 1 && rho' % 2 == 1
    requires Residue(Times(factor, rho'), 2 * |m|) == Residue(rho, 2 * |m|)
    requires Near(Q, Auto(rho, f), Mono(done, m), noise) && Near(Q, f', Auto(factor, f), beta)
    ensures Near(Q, Auto(rho', f'), Mono(done, m), noise + beta)
  {
    hide Near, Auto, Mono, Pow;
    NearAuto(b, Q, rho', f', Auto(factor, f), beta);
    AutoAuto(factor, rho', f);
    AutoMod(Times(factor, rho'), rho, f);
    NearTrans(Q, Auto(rho', f'), Auto(rho, f), Mono(done, m), beta, noise);
  }
}
