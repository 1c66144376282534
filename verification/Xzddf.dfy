/** The XZDDF accumulator: blind rotation with telescoping automorphisms over vector-NTRU, for
    2N/q = 2. */
module Xzddf {
  import opened NegacyclicRing
  import opened RingModulus
  import opened Arithmetic
  import opened Gadget
  import opened RingVectors
  import opened KeyAlgebra
  import opened MultiKeyEval
  import opened RingGsw
  import opened PhaseTracking
  import opened VectorNtru
  import opened MkLwe

  /** add[i] for the n secret coefficients and their sum; auto[i] for X -> X^(2i+3). */
  datatype Keys = Keys(add: seq<Vec>, auto: seq<Vec>)

  datatype NtruWorld = NtruWorld(p: Params, b: nat, f: Poly, zeta: nat, sigma: nat, keys: Keys, s: seq<int>) {
    ghost predicate Valid() {
      p.Valid() && p.N == Pow(2, b) && |f| == p.N && Bounded(f, zeta) && zeta >= 1 &&
      |s| > 0 && |keys.add| == |s| + 1 && |keys.auto| == p.N - 1 &&
      NtruKey(p, f, keys.add[0], Mono(-s[0], One(p.N)), sigma) &&
      (forall i :: 0 < i < |s| ==> NtruKey(p, f, keys.add[i], Mono(-s[i], f), sigma)) &&
      NtruKey(p, f, keys.add[|s|], Mono(Total(s, |s|), f), sigma) &&
      forall i :: 0 <= i < p.N - 1 ==> NtruKey(p, f, keys.auto[i], Auto(2 * i + 3, f), sigma)
    }

    function Noise(): nat requires p.Valid() { StepNoise(p, zeta, sigma) }
  }

  function Total(s: seq<int>, i: nat): int
    requires i <= |s|
  {
    if i == 0 then 0 else Total(s, i - 1) + s[i - 1]
  }

  /** The automorphisms from step i on compose to w_i = 2a_i + 1, and to 1 at the end. */
  function Remaining(a: seq<int>, i: nat): int
    requires i <= |a|
  {
    if i < |a| then 2 * a[i] + 1 else 1
  }

  /** Exponent collected by the first i secret coefficients: -sum of w_j·s_j. */
  function Collected(a: seq<int>, s: seq<int>, i: nat): int
    requires i <= |a| && i <= |s|
  {
    if i == 0 then 0 else (2 * a[i - 1] + 1) * -s[i - 1] + Collected(a, s, i - 1)
  }

  /** The sum of the secrets removes the +1 of every w_j. */
  lemma {:induction false} Telescoped(a: seq<int>, s: seq<int>, i: nat)
    requires i <= |a| && i <= |s|
    ensures Collected(a, s, i) + Total(s, i) == -2 * Inner(a, s, i)
  {
    if i > 0 {
      Telescoped(a, s, i - 1);
      WeightedTerm(a[i - 1], s[i - 1]);
    }
  }

  lemma {:induction false} WeightedTerm(a: int, s: int)
    ensures (2 * a + 1) * -s + s == -2 * (a * s)
  {
    assert (2 * a + 1) * -s == -(2 * (a * s)) - s;
  }

  class NtruCiphertext {
    var c: Poly

    constructor (c: Poly)
      ensures this.c == c
    {
      this.c := c;
    }
  }

  /** acc = digits(acc)·ek. */
  method AddToAcc(p: Params, ek: Vec, acc: NtruCiphertext)
    requires p.Valid() && |ek| == p.Kept() && Sized(ek, p.N) && |acc.c| == p.N
    modifies acc
    ensures acc.c == Switched(p, ek, old(acc.c))
  {
    hide Digits, Reduce, Dot, Mul, Add, Zero;
    var dct := Decompose(p, acc.c);
    var sum := Zero(p.N);
    ReduceOfZero(p);
    DotNone(p.N, dct, ek);
    for d := 0 to p.Kept()
      invariant sum == Reduce(p.Q, Dot(p.N, dct, ek, d)) && acc.c == old(acc.c)
    {
      DotMore(p.N, dct, ek, d);
      ReduceSum(p.Q, Dot(p.N, dct, ek, d), Mul(dct[d], ek[d]));
      sum := Reduce(p.Q, Add(sum, Mul(dct[d], ek[d])));
    }
    acc.c := sum;
  }

  /** X -> X^k, then the product with the automorphism key. */
  method Automorphism(p: Params, k: nat, ak: Vec, acc: NtruCiphertext)
    requires p.Valid() && |ak| == p.Kept() && Sized(ak, p.N) && |acc.c| == p.N
    modifies acc
    ensures acc.c == Switched(p, ak, Reduce(p.Q, Auto(k, old(acc.c))))
  {
    acc.c := Reduce(p.Q, Auto(k, acc.c));
    AddToAcc(p, ak, acc);
  }

  //////// Invariant ////////

  ghost predicate Tracks(w: NtruWorld, m: Poly, phi: Poly, rho: nat, done: int, noise: int) {
    w.Valid() && |m| == |phi| == w.p.N && rho % 2 == 1 && Near(w.p.Q, Auto(rho, phi), Mono(done, m), noise)
  }

  lemma {:induction false} Parts(w: NtruWorld)
    requires w.Valid()
    ensures w.p.Valid() && w.p.N == Pow(2, w.b) && |w.f| == w.p.N && Bounded(w.f, w.zeta) && w.zeta >= 1
    ensures |w.s| > 0 && |w.keys.add| == |w.s| + 1 && |w.keys.auto| == w.p.N - 1
  {
    hide NtruKey, Bounded, Pow;
  }

  /** The key that step i multiplies with. */
  function StepExponent(s: seq<int>, i: nat): int
    requires i <= |s|
  {
    if i < |s| then -s[i] else Total(s, i)
  }

  /** The phase before step i: the accumulator itself before the first step, f·acc afterwards. */
  function PhaseAt(f: Poly, c: Poly, i: nat): (r: Poly)
    requires |f| == |c|
    ensures |r| == |f|
  {
    if i == 0 then c else Mul(f, c)
  }

  lemma {:induction false} StepNear(w: NtruWorld, i: nat, c: Poly)
    requires w.Valid() && w.p.Valid() && |w.f| == w.p.N && |w.keys.add| == |w.s| + 1 && i <= |w.s| && Canonical(w.p, c)
    ensures |w.keys.add[i]| == w.p.Kept() && Sized(w.keys.add[i], w.p.N)
    ensures Near(w.p.Q, Mul(w.f, Switched(w.p, w.keys.add[i], c)), Mono(StepExponent(w.s, i), PhaseAt(w.f, c, i)), w.Noise())
  {
    hide Near, Mul, Mono, Switched, StepNoise, Total, One, Bounded, NtruKey, Auto, Pow;
    if i == 0 {
      assert NtruKey(w.p, w.f, w.keys.add[0], Mono(-w.s[0], One(w.p.N)), w.sigma);
      FirstNear(w.p, w.f, w.keys.add[0], -w.s[0], c, w.zeta, w.sigma);
    } else {
      assert NtruKey(w.p, w.f, w.keys.add[i], Mono(StepExponent(w.s, i), w.f), w.sigma);
      LaterNear(w.p, w.f, w.keys.add[i], StepExponent(w.s, i), c, w.zeta, w.sigma);
    }
  }

  /** Multiply by X^(-s_i), or by X^(sum s) at the end. */
  method Step(p: Params, keys: Keys, i: nat, acc: NtruCiphertext, ghost w: NtruWorld, ghost m: Poly, ghost rho: nat, ghost done: int, ghost noise: int)
    requires p == w.p && keys == w.keys && i <= |w.s| && Canonical(p, acc.c) && |w.f| == |acc.c| && p.Valid()
    requires Tracks(w, m, PhaseAt(w.f, acc.c, i), rho, done, noise)
    modifies acc
    ensures Canonical(p, acc.c) && Tracks(w, m, Mul(w.f, acc.c), rho, rho * StepExponent(w.s, i) + done, noise + w.Noise())
  {
    hide NtruWorld.Valid, Near, Mul, Mono, Auto, Switched, NtruWorld.Noise, PhaseAt, StepExponent, Pow, Bounded;
    Parts(w);
    ghost var phi := PhaseAt(w.f, acc.c, i);
    StepNear(w, i, acc.c);
    AddToAcc(p, keys.add[i], acc);
    TrackAdd(w.b, p.Q, m, phi, Mul(w.f, acc.c), rho, rho, StepExponent(w.s, i), done, noise, w.Noise());
  }

  /** Where the key of X -> X^k is looked up. */
  function IndexOf(k: int): int {
    (k - 3) / 2
  }

  /** Slot i holds the key of (2N/q)·(i + 1) + 1; the lookup inverts this for every slot exactly
      when 2N/q = 2. */
  lemma {:induction false} IndexInverts(r: int, slots: int)
    requires r > 0 && slots >= 2
    ensures (forall i :: 0 <= i < slots ==> IndexOf(Slot(r, i)) == i) <==> r == 2
  {
    if r == 2 {
    } else {
      assert IndexOf(Slot(r, 0)) == 0 ==> IndexOf(Slot(r, 1)) != 1;
    }
  }

  function Slot(r: int, i: int): int {
    r * (i + 1) + 1
  }

  /** The key stored there is the key of k. */
  lemma {:induction false} KeyIndex(w: NtruWorld, k: nat)
    requires w.Valid() && w.p.Valid() && |w.f| == w.p.N && |w.keys.auto| == w.p.N - 1 && k % 2 == 1 && 1 < k < 2 * w.p.N
    ensures 0 <= IndexOf(k) < |w.keys.auto| && NtruKey(w.p, w.f, w.keys.auto[IndexOf(k)], Auto(k, w.f), w.sigma)
  {
    hide NtruKey, Auto, Bounded, Pow, Mono;
    var i := IndexOf(k);
    assert k == 2 * i + 3;
  }

  /** Apply the automorphism k = rho/rho', unless it is the identity. */
  method Turn(p: Params, keys: Keys, k: nat, index: int, acc: NtruCiphertext,
              ghost w: NtruWorld, ghost m: Poly, ghost rho: nat, ghost rho': nat, ghost done: int, ghost noise: nat)
    requires p == w.p && keys == w.keys && Canonical(p, acc.c) && |w.f| == |acc.c| && p.Valid() && k < 2 * p.N && k % 2 == 1 && rho' % 2 == 1
    requires index == IndexOf(k) && Residue(Times(k, rho'), 2 * p.N) == Residue(rho, 2 * p.N)
    requires Tracks(w, m, Mul(w.f, acc.c), rho, done, noise)
    modifies acc
    ensures Canonical(p, acc.c) && Tracks(w, m, Mul(w.f, acc.c), rho', done, noise + w.Noise())
  {
    hide NtruWorld.Valid, Near, Mul, Mono, Auto, Switched, NtruWorld.Noise, NtruKey, Pow, Bounded, Residue;
    Parts(w);
    if k != 1 {
      ghost var phi, c := Mul(w.f, acc.c), acc.c;
      KeyIndex(w, k);
      NoiseIs(w);
      AutoNear(p, w.f, keys.auto[index], k, c, w.b, w.zeta, w.sigma);
      Automorphism(p, k, keys.auto[index], acc);
      TrackRotate(w.b, p.Q, m, phi, Mul(w.f, acc.c), k, rho, rho', done, noise, w.Noise());
    } else {
      SameAuto(rho, rho', Mul(w.f, acc.c));
      NearMore(p.Q, Auto(rho', Mul(w.f, acc.c)), Mono(done, m), noise, noise + w.Noise());
    }
  }

  lemma {:induction false} NoiseIs(w: NtruWorld)
    requires w.p.Valid()
    ensures w.Noise() == StepNoise(w.p, w.zeta, w.sigma)
  {
  }

  lemma {:induction false} SameAuto(j: nat, k: nat, a: Poly)
    requires |a| > 0 && Residue(Times(1, k), 2 * |a|) == Residue(j, 2 * |a|)
    ensures Auto(j, a) == Auto(k, a)
  {
    AutoMod(j, k, a);
  }

  //////// Whole runs ////////

  /** ModInverse on odd residues. */
  ghost predicate IsInverse(M: int, inv: int -> int) {
    M > 0 && forall x :: 0 < x < M && x % 2 == 1 ==> 0 <= inv(x) < M && Residue(x * inv(x), M) == Residue(1, M)
  }

  predicate InRange(q: int, a: seq<int>) {
    forall i :: 0 <= i < |a| ==> 0 <= a[i] < q
  }

  /** w_i·w_(i+1)^-1 times w_(i+1) is w_i; the quotient is odd. */
  lemma {:induction false} Quotient(M: int, x: int, y: int, v: int, k: int)
    requires M > 0 && M % 2 == 0 && x % 2 == 1 && y % 2 == 1 && Residue(y * v, M) == Residue(1, M) && k == Residue(x * v, M)
    ensures k % 2 == 1 && Residue(k * y, M) == Residue(x, M)
  {
    ModOfMod(x * v, M);
    ModMulCong(k, x * v, y, y, M);
    ModMulCong(y * v, 1, x, x, M);
    assert x * v * y == y * v * x by { Arithmetic.Regroup(x, v, y); assert v * y == y * v; }
    OddQuotient(M, k, y, x);
  }

  lemma {:induction false} OddQuotient(M: int, k: int, y: int, x: int)
    requires M > 0 && M % 2 == 0 && x % 2 == 1 && Residue(k * y, M) == Residue(x, M)
    ensures k % 2 == 1
  {
    var t := ModEqWitness(k * y, x, M);
    var h := M / 2;
    Arithmetic.Regroup(2, h, t);
    if k % 2 == 0 {
      var j := k / 2;
      Arithmetic.Regroup(2, j, y);
      Contradiction(x, j * y - h * t);
    }
  }

  lemma {:induction false} Contradiction(x: int, z: int)
    requires x % 2 == 1
    ensures x != 2 * z
  {
  }

  /** The automorphism of step i. */
  function StepFactor(M: int, a: seq<int>, inv: int -> int, i: nat): (k: int)
    requires M > 0 && i < |a|
    ensures 0 <= k < M
  {
    Residue(Remaining(a, i) * (if i + 1 < |a| then inv(Remaining(a, i + 1)) else 1), M)
  }

  lemma {:induction false} StepFactorOdd(M: int, a: seq<int>, inv: int -> int, i: nat)
    requires IsInverse(M, inv) && M % 2 == 0 && InRange(M / 2, a) && i < |a|
    ensures var k := StepFactor(M, a, inv, i); k % 2 == 1 && Residue(k * Remaining(a, i + 1), M) == Residue(Remaining(a, i), M)
  {
    var x, y := Remaining(a, i), Remaining(a, i + 1);
    hide Residue;
    assert x % 2 == 1;
    if i + 1 < |a| {
      assert 0 < y < M && y % 2 == 1;
      Quotient(M, x, y, inv(y), StepFactor(M, a, inv, i));
    } else {
      Quotient(M, x, 1, 1, StepFactor(M, a, inv, i));
    }
  }

  /** BootstrapGateCore's start state: the test polynomial under X -> X^(1/w_0). */
  lemma {:induction false} StartTracks(w: NtruWorld, m: Poly, c: Poly, w0: nat, v: nat)
    requires w.Valid() && w.p.Valid() && w.p.N == Pow(2, w.b) && |m| == w.p.N && c == Reduce(w.p.Q, Auto(v, m)) && w0 % 2 == 1 && |w.f| == w.p.N
    requires Residue(Times(v, w0), 2 * w.p.N) == Residue(1, 2 * w.p.N)
    ensures Tracks(w, m, PhaseAt(w.f, c, 0), w0, 0, 0)
  {
    hide NtruWorld.Valid, Near, Mul, Mono, Auto, Cong, Reduce, Residue, Pow;
    var Q := w.p.Q;
    ReduceCong(Q, Auto(v, m));
    CongAuto(Q, w0, c, Auto(v, m));
    AutoAuto(v, w0, m);
    SameAuto(Times(v, w0), 1, m);
    AutoOne(m);
    MonoZero(m);
    NearExact(Q, m, 0);
    NearCongLeft(Q, Auto(w0, c), m, m, 0);
  }

  /** The accumulator holds the test polynomial m under X -> X^(1/w_0). */
  ghost predicate Ready(w: NtruWorld, m: Poly, c: Poly, a: seq<int>, inv: int -> int) {
    w.Valid() && w.p.Valid() && |w.f| == w.p.N && |m| == w.p.N && |a| == |w.s| > 0 && InRange(w.p.N, a) && IsInverse(2 * w.p.N, inv) &&
    inv(2 * a[0] + 1) >= 0 && c == Reduce(w.p.Q, Auto(inv(2 * a[0] + 1), m))
  }

  lemma {:induction false} ReadyParts(w: NtruWorld, m: Poly, c: Poly, a: seq<int>, inv: int -> int)
    requires Ready(w, m, c, a, inv)
    ensures w.Valid() && w.p.Valid() && |w.f| == w.p.N && |m| == w.p.N && Canonical(w.p, c) && |a| == |w.s| > 0 && InRange(w.p.N, a) && IsInverse(2 * w.p.N, inv)
    ensures Tracks(w, m, PhaseAt(w.f, c, 0), Remaining(a, 0), 0, 0)
  {
    hide NtruWorld.Valid, Tracks, Auto, IsInverse;
    StartOfRun(w, m, c, a, inv);
  }

  /** The state before iteration i. */
  ghost predicate At(w: NtruWorld, m: Poly, a: seq<int>, c: Poly, i: nat) {
    w.p.Valid() && |w.f| == |c| == w.p.N && Canonical(w.p, c) && i <= |a| == |w.s| && InRange(w.p.N, a) &&
    Tracks(w, m, PhaseAt(w.f, c, i), Remaining(a, i), Collected(a, w.s, i), Times(2 * i, w.Noise()))
  }

  /** EvalAcc: the run ends at X^(-2<a, s>)·m, up to the noise of 2n + 1 products, and every
      automorphism used has its key at the computed index. */
  method EvalAcc(p: Params, q: int, keys: Keys, acc: NtruCiphertext, a: seq<int>, inv: int -> int, ghost w: NtruWorld, ghost m: Poly)
    requires p == w.p && keys == w.keys && q == p.N && Ready(w, m, acc.c, a, inv)
    modifies acc
    ensures p.Valid() && Canonical(p, acc.c) && |w.f| == |m| == p.N && |a| == |w.s|
    ensures Near(p.Q, Mul(w.f, acc.c), Mono(-2 * Inner(a, w.s, |a|), m), Times(2 * |a| + 1, w.Noise()))
  {
    hide NtruWorld.Valid, NtruWorld.Noise, Near, Mul, Mono, Tracks, Residue, Inner, IsInverse, StepFactor, Ready;
    ReadyParts(w, m, acc.c, a, inv);
    assert At(w, m, a, acc.c, 0);
    hide At, Times;
    var n, M := |a|, 2 * p.N;
    var factors, index := StepFactors(p, q, a, inv);
    for i := 0 to n
      invariant At(w, m, a, acc.c, i)
    {
      Iterate(p, keys, i, factors[i], index[i], acc, a, inv, w, m);
    }
    Finish(p, keys, acc, a, w, m);
  }

  /** The last product, with the key of the sum of all secrets. */
  method Finish(p: Params, keys: Keys, acc: NtruCiphertext, a: seq<int>, ghost w: NtruWorld, ghost m: Poly)
    requires p == w.p && keys == w.keys && At(w, m, a, acc.c, |a|) && p.Valid() && |w.f| == |m| == p.N && |a| == |w.s|
    modifies acc
    ensures Canonical(p, acc.c)
    ensures Near(p.Q, Mul(w.f, acc.c), Mono(-2 * Inner(a, w.s, |a|), m), Times(2 * |a| + 1, w.Noise()))
  {
    hide NtruWorld.Valid, NtruWorld.Noise, Near, Mul, Mono, Tracks, Inner, Total, Collected, InRange;
    var n := |a|;
    Step(p, keys, n, acc, w, m, 1, Collected(a, w.s, n), Times(2 * n, w.Noise()));
    Distribute(w.Noise(), 2 * n, 1);
    Telescoped(a, w.s, n);
    AtEnd(w, m, Mul(w.f, acc.c), Total(w.s, n) + Collected(a, w.s, n), Times(2 * n + 1, w.Noise()));
  }

  /** One iteration of the main loop. */
  method Iterate(p: Params, keys: Keys, i: nat, k: nat, index: int, acc: NtruCiphertext, ghost a: seq<int>, ghost inv: int -> int, ghost w: NtruWorld, ghost m: Poly)
    requires p == w.p && keys == w.keys && At(w, m, a, acc.c, i) && i < |a|
    requires IsInverse(2 * p.N, inv) && k == StepFactor(2 * p.N, a, inv, i) && index == IndexOf(k)
    modifies acc
    ensures At(w, m, a, acc.c, i + 1)
  {
    hide NtruWorld.Valid, NtruWorld.Noise, Mul, Tracks, Residue, IsInverse, StepFactor, Total, IndexOf, Times;
    ghost var noise := Times(2 * i, w.Noise());
    Step(p, keys, i, acc, w, m, Remaining(a, i), Collected(a, w.s, i), noise);
    StepFactorOdd(2 * p.N, a, inv, i);
    assert Times(k, Remaining(a, i + 1)) == k * Remaining(a, i + 1);
    Turn(p, keys, k, index, acc, w, m, Remaining(a, i), Remaining(a, i + 1), Collected(a, w.s, i + 1), noise + w.Noise());
    TwoSteps(i, w.Noise());
  }

  lemma {:induction false} TwoSteps(i: nat, x: nat)
    ensures Times(2 * i, x) + x + x == Times(2 * (i + 1), x)
  {
    Distribute(x, 2 * i, 2);
  }

  lemma {:induction false} AtEnd(w: NtruWorld, m: Poly, phi: Poly, done: int, noise: int)
    requires Tracks(w, m, phi, 1, done, noise)
    ensures |m| == |phi| > 0 && Near(w.p.Q, phi, Mono(done, m), noise)
  {
    Parts(w);
    AutoOne(phi);
  }

  lemma {:induction false} StartOfRun(w: NtruWorld, m: Poly, c: Poly, a: seq<int>, inv: int -> int)
    requires w.Valid() && w.p.Valid() && |w.f| == w.p.N && |a| > 0 && InRange(w.p.N, a) && IsInverse(2 * w.p.N, inv) && |m| == w.p.N
    requires inv(2 * a[0] + 1) >= 0 && c == Reduce(w.p.Q, Auto(inv(2 * a[0] + 1), m))
    ensures Tracks(w, m, PhaseAt(w.f, c, 0), Remaining(a, 0), 0, 0)
  {
    hide NtruWorld.Valid, Tracks, Residue, Pow;
    Parts(w);
    var w0 := 2 * a[0] + 1;
    assert Times(inv(w0), w0) == w0 * inv(w0);
    StartTracks(w, m, c, w0, inv(w0));
  }

  /** The tables w, invw, NATIVEw and invindex. */
  method StepFactors(p: Params, q: int, a: seq<int>, inv: int -> int) returns (factors: seq<nat>, index: seq<int>)
    requires p.N > 0 && q == p.N && InRange(q, a) && |a| > 0
    ensures |factors| == |index| == |a|
    ensures forall i :: 0 <= i < |a| ==> factors[i] == StepFactor(2 * p.N, a, inv, i) && index[i] == IndexOf(factors[i])
  {
    var n := |a|;
    var ws, invw := [], [];
    DivModUnique(2 * p.N, q, 2, 0);
    for i := 0 to n
      invariant |ws| == |invw| == i && forall j :: 0 <= j < i ==> ws[j] == Remaining(a, j) && invw[j] == inv(ws[j])
    {
      var wi := 2 * p.N / q * a[i] + 1;
      ws := ws + [wi];
      invw := invw + [inv(wi)];
    }
    invw := invw + [1];
    factors, index := [], [];
    for i := 0 to n
      invariant |factors| == |index| == i
      invariant forall j :: 0 <= j < i ==> factors[j] == StepFactor(2 * p.N, a, inv, j) && index[j] == IndexOf(factors[j])
    {
      var k := Residue(ws[i] * invw[i + 1], 2 * p.N);
      factors := factors + [k];
      index := index + [IndexOf(k)];
    }
  }
}
