/** The order in which the LMKCDEY accumulator visits the indices, and whole runs. */
module LmkcdeySchedule {
  import opened NegacyclicRing
  import opened RingModulus
  import opened Arithmetic
  import opened Gadget
  import opened RingVectors
  import opened KeyAlgebra
  import opened MultiKeyRun
  import opened LogTable
  import opened RingGsw
  import opened Lmkcdey
  import opened PhaseTracking

  /** (-x mod M) | 1. */
  function OddOf(M: nat, x: int): (r: int)
    requires M > 0 && M % 2 == 0 && 0 <= x < M
    ensures 0 <= r < M && r % 2 == 1
  {
    var y := if x == 0 then 0 else M - x;
    if y % 2 == 0 then y + 1 else y
  }

  //////// Buckets ////////

  /** The indices below n whose logarithm is c, in increasing order. */
  function Bucket(logs: seq<int>, c: int, n: nat): (r: seq<nat>)
    requires n <= |logs|
    ensures forall i :: 0 <= i < |r| ==> r[i] < n && logs[r[i]] == c
  {
    if n == 0 then [] else Bucket(logs, c, n - 1) + (if logs[n - 1] == c then [n - 1] else [])
  }

  lemma {:induction false} BucketNone(logs: seq<int>, c: int)
    ensures Bucket(logs, c, 0) == []
  {
  }

  lemma {:induction false} BucketMore(logs: seq<int>, c: int, n: nat)
    requires n < |logs|
    ensures Bucket(logs, c, n + 1) == Bucket(logs, c, n) + (if logs[n] == c then [n] else [])
  {
  }

  predicate InRange(M: nat, a: seq<int>) {
    M > 0 && M % 2 == 0 && forall j :: 0 <= j < |a| ==> 0 <= a[j] < M
  }

  /** The logarithms of the odd multipliers. */
  function Logs(M: nat, logGen: seq<int>, a: seq<int>): (r: seq<int>)
    requires InRange(M, a) && |logGen| == M
    ensures |r| == |a|
  {
    seq(|a|, j requires 0 <= j < |a| => logGen[OddOf(M, a[j])])
  }

  ghost predicate MapOf(logs: seq<int>, permuteMap: map<int, seq<nat>>) {
    (forall c :: c in permuteMap <==> Bucket(logs, c, |logs|) != []) &&
    forall c :: c in permuteMap ==> permuteMap[c] == Bucket(logs, c, |logs|)
  }

  /** permuteMap: the nonempty buckets by logarithm. */
  method BuildPermuteMap(M: nat, logGen: seq<int>, a: seq<int>) returns (permuteMap: map<int, seq<nat>>)
    requires InRange(M, a) && |logGen| == M
    ensures MapOf(Logs(M, logGen, a), permuteMap)
  {
    hide Bucket, OddOf;
    ghost var logs := Logs(M, logGen, a);
    permuteMap := map[];
    forall c ensures Bucket(logs, c, 0) == [] { BucketNone(logs, c); }
    for i := 0 to |a|
      invariant forall c :: c in permuteMap <==> Bucket(logs, c, i) != []
      invariant forall c :: c in permuteMap ==> permuteMap[c] == Bucket(logs, c, i)
    {
      var index := logGen[OddOf(M, a[i])];
      forall c ensures Bucket(logs, c, i + 1) == Bucket(logs, c, i) + (if index == c then [i] else []) { BucketMore(logs, c, i); }
      if index !in permuteMap {
        permuteMap := permuteMap[index := []];
      }
      permuteMap := permuteMap[index := permuteMap[index] + [i]];
    }
  }

  /** w[list[0]] + ... + w[list[i-1]]. */
  function ListSum(w: seq<int>, list: seq<nat>, i: nat): int
    requires i <= |list| && forall j :: 0 <= j < |list| ==> list[j] < |w|
  {
    if i == 0 then 0 else ListSum(w, list, i - 1) + w[list[i - 1]]
  }

  //////// Positions in the schedule ////////

  /** -5^(N/2-1), ..., -5, then -1, then 5^(N/2-1), ..., 5, then 1. */
  function Pos(k: nat, c: int): int {
    if c == CyclOrder(k) then Quarter(k) - 1 else if c < 0 then Quarter(k) - 1 + c else 2 * Quarter(k) - 1 - c
  }

  predicate IsLog(k: nat, c: int) {
    c == CyclOrder(k) || 0 - Quarter(k) < c < Quarter(k)
  }

  /** Sum of the weights of the indices below n whose position is before t. */
  function Before(k: nat, w: seq<int>, logs: seq<int>, t: int, n: nat): int
    requires n <= |logs| && n <= |w|
  {
    if n == 0 then 0 else Before(k, w, logs, t, n - 1) + if Pos(k, logs[n - 1]) < t then w[n - 1] else 0
  }

  function Sum(w: seq<int>, n: nat): int
    requires n <= |w|
  {
    if n == 0 then 0 else Sum(w, n - 1) + w[n - 1]
  }

  /** Moving past the position of c picks up exactly the bucket of c. */
  lemma {:induction false} BeforeNext(k: nat, w: seq<int>, logs: seq<int>, c: int, n: nat)
    requires n <= |logs| && n <= |w| && IsLog(k, c) && forall j :: 0 <= j < |logs| ==> IsLog(k, logs[j])
    ensures Before(k, w, logs, Pos(k, c) + 1, n)
         == Before(k, w, logs, Pos(k, c), n) + ListSum(w, Bucket(logs, c, n), |Bucket(logs, c, n)|)
  {
    hide CyclOrder, Quarter;
    if n > 0 {
      BeforeNext(k, w, logs, c, n - 1);
      var list := Bucket(logs, c, n - 1);
      if logs[n - 1] == c {
        ListSumMore(w, list, n - 1, |list|);
      } else {
        PosInjective(k, logs[n - 1], c);
        assert Bucket(logs, c, n) == list;
      }
    }
  }

  lemma {:induction false} PosInjective(k: nat, c: int, d: int)
    requires IsLog(k, c) && IsLog(k, d) && c != d
    ensures Pos(k, c) != Pos(k, d)
  {
    hide CyclOrder, Quarter;
    assert CyclOrder(k) == 4 * Quarter(k);
  }

  lemma {:induction false} ListSumMore(w: seq<int>, list: seq<nat>, x: nat, i: nat)
    requires i <= |list| && x < |w| && forall j :: 0 <= j < |list| ==> list[j] < |w|
    ensures ListSum(w, list + [x], i) == ListSum(w, list, i)
  {
    if i > 0 {
      ListSumMore(w, list, x, i - 1);
    }
  }

  lemma {:induction false} BeforeNone(k: nat, w: seq<int>, logs: seq<int>, n: nat)
    requires n <= |logs| && n <= |w| && forall j :: 0 <= j < |logs| ==> IsLog(k, logs[j])
    ensures Before(k, w, logs, 0, n) == 0
  {
    hide CyclOrder, Quarter;
    if n > 0 {
      BeforeNone(k, w, logs, n - 1);
    }
  }

  lemma {:induction false} BeforeAll(k: nat, w: seq<int>, logs: seq<int>, n: nat)
    requires n <= |logs| && n <= |w| && forall j :: 0 <= j < |logs| ==> IsLog(k, logs[j])
    ensures Before(k, w, logs, 2 * Quarter(k), n) == Sum(w, n)
  {
    hide CyclOrder, Quarter;
    if n > 0 {
      BeforeAll(k, w, logs, n - 1);
    }
  }

  function Ones(n: nat): (r: seq<int>)
    ensures |r| == n
  {
    seq(n, _ => 1)
  }

  lemma {:induction false} SumOnes(n: nat, i: nat)
    requires i <= n
    ensures Sum(Ones(n), i) == i
  {
    if i > 0 {
      SumOnes(n, i - 1);
    }
  }

  lemma {:induction false} ListOnes(n: nat, list: seq<nat>, i: nat)
    requires i <= |list| && forall j :: 0 <= j < |list| ==> list[j] < n
    ensures ListSum(Ones(n), list, i) == i
  {
    if i > 0 {
      ListOnes(n, list, i - 1);
    }
  }

  //////// Products of automorphisms ////////

  /** What remains after the first walk: X -> X^-5, then the second walk. */
  function Tail(k: nat): (r: nat)
    requires k > 0
  {
    Times(NegFive(k), Pow(5, Quarter(k) - 1))
  }

  /** (2N - 5)·5^(N/2-1)·5^i = -5^i. */
  lemma {:induction false} TailFactor(k: nat, i: nat)
    requires k > 0
    ensures Residue(Times(Pow(5, i), Tail(k)), CyclOrder(k)) == Residue(CyclOrder(k) - FivePower(k, i), CyclOrder(k))
  {
    var M, H := CyclOrder(k), Quarter(k);
    OrderResidue(k);
    assert Pow(5, H) == 5 * Pow(5, H - 1);
    hide Pow, CyclOrder, Quarter, Residue;
    NegProduct(M, Pow(5, i), Pow(5, H - 1));
    NegCong(M, Pow(5, i), Pow(5, H - 1));
  }

  lemma {:induction false} OrderResidue(k: nat)
    ensures Residue(Pow(5, Quarter(k)), CyclOrder(k)) == Residue(1, CyclOrder(k))
  {
    FullOrder(k);
    DivModUnique(1, CyclOrder(k), 0, 1);
  }

  lemma {:induction false} NegProduct(M: int, x: int, y: int)
    ensures x * ((M - 5) * y) == M - 5 * y * x + M * (x * y - 1)
  {
    assert (M - 5) * y == M * y - 5 * y;
    assert x * (M * y) == M * (x * y);
    assert x * (5 * y) == 5 * y * x;
    Distribute(x, M * y, 5 * y);
    Distribute(M, x * y, 1);
  }

  lemma {:induction false} NegCong(M: int, x: int, y: int)
    requires M > 0 && Residue(5 * y, M) == Residue(1, M)
    ensures Residue(M - 5 * y * x + M * (x * y - 1), M) == Residue(M - Residue(x, M), M)
  {
    var v := 5 * y * x;
    ModShift(M - v + M * (x * y - 1), M - v, M, x * y - 1);
    ModMulCong(5 * y, 1, x, x, M);
    ModOfMod(x, M);
    ModAddCong(M, M, v, x % M, M);
  }

  /** The automorphisms of a whole run compose to the identity. */
  lemma {:induction false} FullCircle(k: nat)
    requires k > 0
    ensures Residue(Times(NegFive(k), Times(Pow(5, Quarter(k) - 1), Tail(k))), CyclOrder(k)) == Residue(1, CyclOrder(k))
  {
    var M, H := CyclOrder(k), Quarter(k);
    TailFactor(k, H - 1);
    FiveNext(k, H - 1);
    OrderResidue(k);
    FiveIs(k, H);
    hide Pow, CyclOrder, Quarter, FivePower, Residue;
    CircleCong(M, Times(Pow(5, H - 1), Tail(k)), FivePower(k, H - 1));
    ResidueResidue(FivePower(k, H - 1) * 5, M);
  }

  lemma {:induction false} ResidueResidue(x: int, M: int)
    requires M > 0
    ensures Residue(Residue(x, M), M) == Residue(x, M)
  {
    ModOfMod(x, M);
  }

  lemma {:induction false} CircleCong(M: int, r: int, g: int)
    requires M > 0 && Residue(r, M) == Residue(M - g, M)
    ensures Residue((M - 5) * r, M) == Residue(g * 5, M)
  {
    ModMulCong(M - 5, M - 5, r, M - g, M);
    LogTable.NegTimesNeg(M, 5, g);
    assert 5 * g == g * 5;
  }

  lemma {:induction false} FiveIs(k: nat, i: nat)
    ensures FivePower(k, i) == Residue(Pow(5, i), CyclOrder(k))
  {
  }

  lemma {:induction false} PowerResidue(k: nat, i: nat)
    ensures Residue(Times(Pow(5, i), 1), CyclOrder(k)) == Residue(FivePower(k, i), CyclOrder(k))
  {
    ModOfMod(Pow(5, i), CyclOrder(k));
  }

  /** 5^s · (5^i · tail) = 5^(i+s) · tail. */
  lemma {:induction false} FactorOut(k: nat, s: nat, i: nat, tail: nat)
    ensures Residue(Times(FivePower(k, s), Times(Pow(5, i), tail)), CyclOrder(k)) == Residue(Times(Pow(5, i + s), tail), CyclOrder(k))
  {
    FiveIs(k, s);
    PowAdd(5, i, s);
    hide Pow, CyclOrder, Residue, FivePower;
    FactorCong(CyclOrder(k), Pow(5, s), Pow(5, i), tail);
  }

  lemma {:induction false} FactorCong(M: int, x: int, y: int, tail: int)
    requires M > 0
    ensures Residue(Residue(x, M) * (y * tail), M) == Residue((y * x) * tail, M)
  {
    ModOfMod(x, M);
    ModMulCong(x % M, x, y * tail, y * tail, M);
    Arithmetic.Regroup(x, y, tail);
    assert x * y == y * x;
  }

  lemma {:induction false} OddProduct(i: nat, tail: nat)
    requires tail % 2 == 1
    ensures Times(Pow(5, i), tail) % 2 == 1
  {
    var c := FiveOdd(i);
    hide Pow;
    assert (4 * c + 1) * tail == 2 * (2 * (c * tail)) + tail;
  }

  //////// Whole runs ////////

  /** Per index: the odd multiplier, its logarithm and the exponent it contributes. */
  datatype Plan = Plan(odds: seq<int>, logs: seq<int>, terms: seq<int>)

  ghost predicate Fits(w: RingWorld, plan: Plan) {
    |plan.odds| == |plan.logs| == |plan.terms| == |w.exps| &&
    (forall j :: 0 <= j < |w.exps| ==> IsLog(w.k, plan.logs[j]) && Exp(w.k, plan.logs[j]) == plan.odds[j]) &&
    forall j :: 0 <= j < |w.exps| ==> plan.terms[j] == plan.odds[j] * w.exps[j]
  }

  /** Noise after the indices before position t and automorphisms worth `steps` powers of 5. */
  function NoiseAt(w: RingWorld, plan: Plan, t: int, steps: nat): int
    requires w.p.Valid() && |plan.logs| == |w.exps|
  {
    Before(w.k, Ones(|w.exps|), plan.logs, t, |w.exps|) * w.AddNoise() + Times(steps, w.AutoNoise())
  }

  ghost predicate At(w: RingWorld, plan: Plan, m: Poly, c0: Poly, c1: Poly, rho: nat, t: int, steps: nat) {
    w.Valid() && Fits(w, plan) &&
    Tracks(w, m, c0, c1, rho, Before(w.k, plan.terms, plan.logs, t, |w.exps|), NoiseAt(w, plan, t, steps))
  }

  /** An empty bucket needs no update. */
  lemma {:induction false} SkipBucket(w: RingWorld, plan: Plan, m: Poly, c0: Poly, c1: Poly, rho: nat, c: int, steps: nat)
    requires At(w, plan, m, c0, c1, rho, Pos(w.k, c), steps) && IsLog(w.k, c) && Bucket(plan.logs, c, |plan.logs|) == []
    ensures At(w, plan, m, c0, c1, rho, Pos(w.k, c) + 1, steps)
  {
    hide RingWorld.Valid, Tracks, Pos, Before, Bucket, IsLog;
    BeforeNext(w.k, plan.terms, plan.logs, c, |w.exps|);
    BeforeNext(w.k, Ones(|w.exps|), plan.logs, c, |w.exps|);
  }

  lemma {:induction false} ValidParams(w: RingWorld)
    requires w.Valid()
    ensures w.p.Valid() && w.k > 0 && w.p.N == 2 * Quarter(w.k) && |w.keys.auto| > 1
  {
    hide AddKey, AutoKey, Bounded;
  }

  /** All indices of one bucket. */
  method AddAll(p: Params, keys: Keys, indexVec: seq<nat>, acc: RingCiphertext, ghost w: RingWorld, ghost plan: Plan, ghost m: Poly,
                ghost rho: nat, ghost odd: int, ghost done: int, ghost noise: int, ghost beta: nat)
    requires p == w.p && keys == w.keys && Tracks(w, m, acc.c0, acc.c1, rho, done, noise) && p.Valid() && beta == w.AddNoise()
    requires |plan.terms| == |w.exps| && Residue(rho, CyclOrder(w.k)) == Residue(odd, CyclOrder(w.k))
    requires forall j :: 0 <= j < |indexVec| ==> indexVec[j] < |w.exps| && plan.terms[indexVec[j]] == odd * w.exps[indexVec[j]]
    modifies acc
    ensures Tracks(w, m, acc.c0, acc.c1, rho, done + ListSum(plan.terms, indexVec, |indexVec|), noise + |indexVec| * beta)
  {
    hide RingWorld.Valid, RingWorld.AddNoise, Tracks, CyclOrder, Residue, ListSum;
    ListSumNone(plan.terms, indexVec);
    for j := 0 to |indexVec|
      invariant Tracks(w, m, acc.c0, acc.c1, rho, done + ListSum(plan.terms, indexVec, j), noise + j * beta)
    {
      AddIndex(p, keys, indexVec[j], acc, w, m, rho, odd, done + ListSum(plan.terms, indexVec, j), noise + j * beta);
      ListSumNext(plan.terms, indexVec, j);
      Distribute(beta, j, 1);
    }
  }

  method AddBucket(p: Params, keys: Keys, indexVec: seq<nat>, acc: RingCiphertext,
                   ghost w: RingWorld, ghost plan: Plan, ghost m: Poly, ghost rho: nat, ghost c: int, ghost steps: nat)
    requires p == w.p && keys == w.keys && At(w, plan, m, acc.c0, acc.c1, rho, Pos(w.k, c), steps) && IsLog(w.k, c)
    requires indexVec == Bucket(plan.logs, c, |plan.logs|) && Residue(rho, CyclOrder(w.k)) == Residue(Exp(w.k, c), CyclOrder(w.k))
    modifies acc
    ensures At(w, plan, m, acc.c0, acc.c1, rho, Pos(w.k, c) + 1, steps)
  {
    hide RingWorld.Valid, RingWorld.AddNoise, RingWorld.AutoNoise, Tracks, Pos, Before, IsLog, Bucket, CyclOrder, Residue, Exp, ListSum, Ones, Times;
    ValidParams(w);
    ghost var n, t, beta := |w.exps|, Pos(w.k, c), w.AddNoise();
    AddAll(p, keys, indexVec, acc, w, plan, m, rho, Exp(w.k, c), Before(w.k, plan.terms, plan.logs, t, n), NoiseAt(w, plan, t, steps), beta);
    BeforeNext(w.k, plan.terms, plan.logs, c, n);
    BeforeNext(w.k, Ones(n), plan.logs, c, n);
    ListOnes(n, indexVec, |indexVec|);
    Distribute(beta, Before(w.k, Ones(n), plan.logs, t, n), |indexVec|);
  }

  lemma {:induction false} ListSumNone(w: seq<int>, list: seq<nat>)
    requires forall j :: 0 <= j < |list| ==> list[j] < |w|
    ensures ListSum(w, list, 0) == 0
  {
  }

  lemma {:induction false} ListSumNext(w: seq<int>, list: seq<nat>, i: nat)
    requires i < |list| && forall j :: 0 <= j < |list| ==> list[j] < |w|
    ensures ListSum(w, list, i + 1) == ListSum(w, list, i) + w[list[i]]
  {
  }

  lemma {:induction false} TracksMore(w: RingWorld, m: Poly, c0: Poly, c1: Poly, rho: nat, done: int, noise: int, noise': int)
    requires Tracks(w, m, c0, c1, rho, done, noise) && noise <= noise'
    ensures Tracks(w, m, c0, c1, rho, done, noise')
  {
    hide Near, Auto, Mono, RingGsw.Phase, AddKey, AutoKey, Bounded;
    NearMore(w.p.Q, Auto(rho, RingGsw.Phase(w.z, c0, c1)), Mono(done, m), noise, noise');
  }

  lemma {:induction false} RotateSteps(w: RingWorld, plan: Plan, m: Poly, c0: Poly, c1: Poly, rho: nat, t: int, steps: nat, more: nat)
    requires w.p.Valid() && w.Valid() && Fits(w, plan) && more > 0
    requires Tracks(w, m, c0, c1, rho, Before(w.k, plan.terms, plan.logs, t, |w.exps|), NoiseAt(w, plan, t, steps) + w.AutoNoise())
    ensures At(w, plan, m, c0, c1, rho, t, steps + more)
  {
    hide RingWorld.Valid, RingWorld.AddNoise, RingWorld.AutoNoise, Before, Tracks;
    var gamma := w.AutoNoise();
    Distribute(gamma, steps, more);
    MulMono(1, more, gamma);
    TracksMore(w, m, c0, c1, rho, Before(w.k, plan.terms, plan.logs, t, |w.exps|),
               NoiseAt(w, plan, t, steps) + gamma, NoiseAt(w, plan, t, steps + more));
  }

  /** Every window 1..numAutoKeys has the key of its power of 5. */
  lemma {:induction false} WindowKey(w: RingWorld, i: nat)
    requires w.Valid() && 1 <= i < |w.keys.auto|
    ensures w.p.Valid() && |w.z| == w.p.N && AutoKey(w.p, w.z, w.keys.auto[i], FivePower(w.k, i), w.sigma)
  {
    hide AddKey, AutoKey, Bounded, FivePower;
  }

  /** The automorphism 5^nSkips that the skipped positions have left pending. */
  method Flush(p: Params, M: nat, nSkips: nat, keys: Keys, acc: RingCiphertext,
               ghost w: RingWorld, ghost plan: Plan, ghost m: Poly, ghost i: nat, ghost tail: nat, ghost t: int, ghost steps: nat)
    requires p == w.p && keys == w.keys && M == CyclOrder(w.k) && 1 <= nSkips < |keys.auto| && tail % 2 == 1
    requires At(w, plan, m, acc.c0, acc.c1, Times(Pow(5, i + nSkips), tail), t, steps)
    modifies acc
    ensures At(w, plan, m, acc.c0, acc.c1, Times(Pow(5, i), tail), t, steps + nSkips)
  {
    hide RingWorld.Valid, RingWorld.AddNoise, RingWorld.AutoNoise, Tracks, Before, AutoKey, CyclOrder, Pow, Times, FivePower, Fits, NoiseAt, Residue;
    AtShape(w, plan, m, acc.c0, acc.c1, Times(Pow(5, i + nSkips), tail), t, steps);
    var factor := Residue(Pow(5, nSkips), M);
    FiveIs(w.k, nSkips);
    WindowKey(w, nSkips);
    FiveOddPower(w.k, nSkips);
    OddProduct(i, tail);
    FactorOut(w.k, nSkips, i, tail);
    Rotate(p, factor, keys.auto[nSkips], acc, w, m, Times(Pow(5, i + nSkips), tail), Times(Pow(5, i), tail),
           Before(w.k, plan.terms, plan.logs, t, |w.exps|), NoiseAt(w, plan, t, steps));
    RotateSteps(w, plan, m, acc.c0, acc.c1, Times(Pow(5, i), tail), t, steps, nSkips);
  }

  lemma {:induction false} AtShape(w: RingWorld, plan: Plan, m: Poly, c0: Poly, c1: Poly, rho: nat, t: int, steps: nat)
    requires At(w, plan, m, c0, c1, rho, t, steps)
    ensures w.Valid() && w.p.Valid() && Fits(w, plan) && |plan.logs| == |plan.terms| == |w.exps|
    ensures Tracks(w, m, c0, c1, rho, Before(w.k, plan.terms, plan.logs, t, |w.exps|), NoiseAt(w, plan, t, steps))
  {
    hide Tracks, Before, RingWorld.Valid;
    ValidParams(w);
  }

  function LogAt(negative: bool, i: nat): int {
    if negative then 0 - i else i
  }

  /** While walking, what remains at power i is the multiplier of the bucket visited there. */
  ghost predicate Aligned(k: nat, negative: bool, tail: nat) {
    tail % 2 == 1 &&
    forall i: nat :: 0 < i < Quarter(k) ==>
      Residue(Times(Pow(5, i), tail), CyclOrder(k)) == Residue(Exp(k, LogAt(negative, i)), CyclOrder(k))
  }

  /** The schedule position at which power i of a walk is visited. */
  function WalkPos(k: nat, negative: bool, i: int): int {
    (if negative then 0 else Quarter(k)) + Quarter(k) - 1 - i
  }

  /** One walk from 5^(N/2-1) down to 5. */
  method Walk(p: Params, M: nat, Nh: nat, keys: Keys, permuteMap: map<int, seq<nat>>, negative: bool, acc: RingCiphertext,
              ghost w: RingWorld, ghost plan: Plan, ghost m: Poly, ghost tail: nat, ghost steps: nat)
    requires p == w.p && keys == w.keys && M == CyclOrder(w.k) && Nh == Quarter(w.k) > 1 && |keys.auto| > 1
    requires MapOf(plan.logs, permuteMap) && Aligned(w.k, negative, tail)
    requires At(w, plan, m, acc.c0, acc.c1, Times(Pow(5, Nh - 1), tail), WalkPos(w.k, negative, Nh - 1), steps)
    modifies acc
    ensures At(w, plan, m, acc.c0, acc.c1, Times(Pow(5, 0), tail), WalkPos(w.k, negative, 0), steps + (Nh - 1))
  {
    hide At, CyclOrder, Quarter, Pow, Times, Bucket, Exp, Residue;
    var numAutoKeys := |keys.auto| - 1;
    var nSkips := 0;
    var i := Nh - 1;
    while i > 0
      invariant 0 <= i < Nh && 0 <= nSkips < numAutoKeys && (i == 0 ==> nSkips == 0) && nSkips <= Nh - 1 - i
      invariant At(w, plan, m, acc.c0, acc.c1, Times(Pow(5, i + nSkips), tail), WalkPos(w.k, negative, i), steps + (Nh - 1 - i - nSkips))
    {
      var c := LogAt(negative, i);
      assert IsLog(w.k, c) && Pos(w.k, c) == WalkPos(w.k, negative, i) by { LogPosition(w.k, negative, i); }
      if c in permuteMap {
        if nSkips != 0 {
          Flush(p, M, nSkips, keys, acc, w, plan, m, i, tail, WalkPos(w.k, negative, i), steps + (Nh - 1 - i - nSkips));
          nSkips := 0;
        }
        AddBucket(p, keys, permuteMap[c], acc, w, plan, m, Times(Pow(5, i), tail), c, steps + (Nh - 1 - i));
      } else {
        SkipBucket(w, plan, m, acc.c0, acc.c1, Times(Pow(5, i + nSkips), tail), c, steps + (Nh - 1 - i - nSkips));
      }
      nSkips := nSkips + 1;
      if nSkips == numAutoKeys || i == 1 {
        Flush(p, M, nSkips, keys, acc, w, plan, m, i - 1, tail, WalkPos(w.k, negative, i - 1), steps + (Nh - i - nSkips));
        nSkips := 0;
      }
      i := i - 1;
    }
  }

  lemma {:induction false} LogPosition(k: nat, negative: bool, i: nat)
    requires 0 < i < Quarter(k)
    ensures IsLog(k, LogAt(negative, i)) && Pos(k, LogAt(negative, i)) == WalkPos(k, negative, i)
  {
    hide CyclOrder, Quarter;
    assert CyclOrder(k) == 4 * Quarter(k);
  }

  /** The exponents OddOf(a_j)·e_j. */
  function Contributions(M: nat, a: seq<int>, exps: seq<int>): (r: seq<int>)
    requires InRange(M, a) && |exps| == |a|
    ensures |r| == |a|
  {
    seq(|a|, j requires 0 <= j < |a| => OddOf(M, a[j]) * exps[j])
  }

  ghost function PlanOf(w: RingWorld, logGen: seq<int>, a: seq<int>): (plan: Plan)
    requires InRange(CyclOrder(w.k), a) && |a| == |w.exps| && IsLogTable(w.k, logGen)
    ensures Fits(w, plan) && plan.logs == Logs(CyclOrder(w.k), logGen, a) && plan.terms == Contributions(CyclOrder(w.k), a, w.exps)
  {
    var M := CyclOrder(w.k);
    var plan := Plan(seq(|a|, j requires 0 <= j < |a| => OddOf(M, a[j])), Logs(M, logGen, a), Contributions(M, a, w.exps));
    assert Fits(w, plan) by {
      hide Exp, IsLogTable, OddOf;
      forall j | 0 <= j < |a| ensures IsLog(w.k, plan.logs[j]) && Exp(w.k, plan.logs[j]) == plan.odds[j] {
        LogRoundTrip(w.k, logGen, OddOf(M, a[j]));
      }
    }
    plan
  }

  /** Before anything is added, the start state is the test polynomial seen through all the
      automorphisms of the run. */
  lemma {:induction false} AtStart(w: RingWorld, plan: Plan, m: Poly, c0: Poly, c1: Poly)
    requires w.Valid() && w.p.Valid() && w.k > 0 && Fits(w, plan) && |m| == w.p.N
    requires c0 == Zero(w.p.N) && c1 == Reduce(w.p.Q, Auto(NegFive(w.k), m)) && Canonical(w.p, c0)
    ensures At(w, plan, m, c0, c1, Times(Pow(5, Quarter(w.k) - 1), Tail(w.k)), 0, 0)
  {
    hide RingWorld.Valid, RingWorld.AddNoise, RingWorld.AutoNoise, Before, Near, Auto, Mono, Cong, Reduce, Pow, CyclOrder, Quarter, Tail, NegFive, Residue, RingGsw.Phase, IsLog, Exp, Times, Zero;
    var n, Q, rho := w.p.N, w.p.Q, Times(Pow(5, Quarter(w.k) - 1), Tail(w.k));
    var g := Auto(NegFive(w.k), m);
    StartOdd(w.k);
    BeforeNone(w.k, plan.terms, plan.logs, |w.exps|);
    BeforeNone(w.k, Ones(|w.exps|), plan.logs, |w.exps|);
    ShapeOf(w);
    PhaseOfZero(w.z, c1);
    ReduceCong(Q, g);
    CongAuto(Q, rho, c1, g);
    AutoAuto(NegFive(w.k), rho, m);
    FullCircle(w.k);
    AutoResidue(Times(NegFive(w.k), rho), 1, m);
    AutoOne(m);
    MonoZero(m);
    NearExact(Q, m, 0);
    NearCongLeft(Q, Auto(rho, c1), m, m, 0);
    NoNoise(w, plan);
  }

  lemma {:induction false} NoNoise(w: RingWorld, plan: Plan)
    requires w.p.Valid() && |plan.logs| == |w.exps| && Before(w.k, Ones(|w.exps|), plan.logs, 0, |w.exps|) == 0
    ensures NoiseAt(w, plan, 0, 0) == 0
  {
    hide RingWorld.AddNoise, RingWorld.AutoNoise, Before;
  }

  lemma {:induction false} StartOdd(k: nat)
    requires k > 0
    ensures Times(Pow(5, Quarter(k) - 1), Tail(k)) % 2 == 1 && Tail(k) % 2 == 1
  {
    hide Pow, CyclOrder, Quarter;
    assert Times(Pow(5, Quarter(k) - 1), NegFive(k)) == Tail(k) by { hide NegFive; assert Pow(5, Quarter(k) - 1) * NegFive(k) == NegFive(k) * Pow(5, Quarter(k) - 1); }
    hide Tail, Times, NegFive;
    OddProduct(Quarter(k) - 1, NegFive(k));
    OddProduct(Quarter(k) - 1, Tail(k));
  }

  lemma {:induction false} ShapeOf(w: RingWorld)
    requires w.Valid()
    ensures w.p.Valid() && |w.z| == w.p.N && CyclOrder(w.k) == 2 * w.p.N
  {
    hide AddKey, AutoKey, Bounded;
  }

  lemma {:induction false} AutoResidue(j: nat, k: nat, a: Poly)
    requires |a| > 0 && Residue(j, 2 * |a|) == Residue(k, 2 * |a|)
    ensures Auto(j, a) == Auto(k, a)
  {
    AutoMod(j, k, a);
  }

  lemma {:induction false} PhaseOfZero(z: Poly, c: Poly)
    requires |z| == |c|
    ensures RingGsw.Phase(z, Zero(|z|), c) == c
  {
    MulZero(z);
  }

  /** Between the walks -1 is visited, after them 1. */
  lemma {:induction false} UnitsAligned(k: nat)
    requires k > 0
    ensures Residue(Times(Pow(5, 0), Tail(k)), CyclOrder(k)) == Residue(Exp(k, CyclOrder(k)), CyclOrder(k))
    ensures Residue(Times(Pow(5, 0), 1), CyclOrder(k)) == Residue(Exp(k, 0), CyclOrder(k))
  {
    hide Pow, CyclOrder, Quarter, Tail, Residue, FivePower, Times;
    TailFactor(k, 0);
    FiveNext(k, 0);
    PowerResidue(k, 0);
    assert CyclOrder(k) == 4 * Quarter(k);
  }

  /** The first walk meets -5^i, the second 5^i. */
  lemma {:induction false} FirstWalkAligned(k: nat)
    requires k > 0 && Tail(k) % 2 == 1
    ensures Aligned(k, true, Tail(k))
  {
    forall i: nat | 0 < i < Quarter(k)
      ensures Residue(Times(Pow(5, i), Tail(k)), CyclOrder(k)) == Residue(Exp(k, LogAt(true, i)), CyclOrder(k))
    {
      hide Pow, CyclOrder, Quarter, Tail, Residue, FivePower, Times;
      TailFactor(k, i);
    }
  }

  lemma {:induction false} SecondWalkAligned(k: nat)
    ensures Aligned(k, false, 1)
  {
    forall i: nat | 0 < i < Quarter(k)
      ensures Residue(Times(Pow(5, i), 1), CyclOrder(k)) == Residue(Exp(k, LogAt(false, i)), CyclOrder(k))
    {
      hide Pow, CyclOrder, Quarter, Residue, FivePower, Times;
      assert CyclOrder(k) == 4 * Quarter(k);
      PowerResidue(k, i);
    }
  }

  /** After the last position everything has been added and nothing remains. */
  lemma {:induction false} AtEnd(w: RingWorld, plan: Plan, m: Poly, c0: Poly, c1: Poly)
    requires w.p.Valid() && At(w, plan, m, c0, c1, Times(Pow(5, 0), 1), 2 * Quarter(w.k), w.p.N - 1) && |plan.terms| == |w.exps|
    ensures |w.z| == |c0| == |c1| == |m| == w.p.N
    ensures Near(w.p.Q, RingGsw.Phase(w.z, c0, c1), Mono(Sum(plan.terms, |w.exps|), m),
                 |w.exps| * w.AddNoise() + Times(w.p.N - 1, w.AutoNoise()))
  {
    hide RingWorld.Valid, RingWorld.AddNoise, RingWorld.AutoNoise, Before, Near, Auto, Mono, Quarter, RingGsw.Phase, Sum, IsLog, Exp;
    ShapeOf(w);
    assert Times(Pow(5, 0), 1) == 1;
    AutoOne(RingGsw.Phase(w.z, c0, c1));
    BeforeAll(w.k, plan.terms, plan.logs, |w.exps|);
    BeforeAll(w.k, Ones(|w.exps|), plan.logs, |w.exps|);
    SumOnes(|w.exps|, |w.exps|);
  }

  /** The second X -> X^-5, between the walks. */
  method Turn(p: Params, M: nat, keys: Keys, acc: RingCiphertext, ghost w: RingWorld, ghost plan: Plan, ghost m: Poly, ghost t: int, ghost steps: nat)
    requires p == w.p && keys == w.keys && w.k > 0 && M == CyclOrder(w.k) && |keys.auto| > 0
    requires At(w, plan, m, acc.c0, acc.c1, Times(Pow(5, 0), Tail(w.k)), t, steps)
    modifies acc
    ensures At(w, plan, m, acc.c0, acc.c1, Times(Pow(5, Quarter(w.k) - 1), 1), t, steps + 1)
  {
    hide RingWorld.Valid, RingWorld.AddNoise, RingWorld.AutoNoise, Tracks, Before, AutoKey, CyclOrder, Pow, FivePower, Fits, NoiseAt, Residue, Quarter, NegFive;
    ghost var rho, rho' := Times(Pow(5, 0), Tail(w.k)), Times(Pow(5, Quarter(w.k) - 1), 1);
    AtShape(w, plan, m, acc.c0, acc.c1, rho, t, steps);
    TurnKey(w);
    OddProduct(Quarter(w.k) - 1, 1);
    assert Pow(5, 0) == 1 by { PowZero(); }
    assert rho == Times(NegFive(w.k), rho');
    hide Times, Tail;
    Rotate(p, M - 5, keys.auto[0], acc, w, m, rho, rho', Before(w.k, plan.terms, plan.logs, t, |w.exps|), NoiseAt(w, plan, t, steps));
    RotateSteps(w, plan, m, acc.c0, acc.c1, rho', t, steps, 1);
  }

  lemma {:induction false} PowZero()
    ensures Pow(5, 0) == 1
  {
  }

  lemma {:induction false} TurnKey(w: RingWorld)
    requires w.Valid()
    ensures w.p.Valid() && |w.z| == w.p.N && w.k > 0 && |w.keys.auto| > 1 && NegFive(w.k) == CyclOrder(w.k) - 5 && NegFive(w.k) % 2 == 1
    ensures AutoKey(w.p, w.z, w.keys.auto[0], NegFive(w.k), w.sigma)
  {
    hide AddKey, AutoKey, Bounded, FivePower;
  }

  /** Both walks with the visits of -1 and 1. */
  method WalkAll(p: Params, M: nat, Nh: nat, keys: Keys, permuteMap: map<int, seq<nat>>, acc: RingCiphertext, ghost w: RingWorld, ghost plan: Plan, ghost m: Poly)
    requires p == w.p && keys == w.keys && w.k > 0 && M == CyclOrder(w.k) && Nh == Quarter(w.k) && |keys.auto| > 1 && MapOf(plan.logs, permuteMap)
    requires At(w, plan, m, acc.c0, acc.c1, Times(Pow(5, Nh - 1), Tail(w.k)), 0, 0)
    modifies acc
    ensures At(w, plan, m, acc.c0, acc.c1, Times(Pow(5, 0), 1), 2 * Nh, 2 * Nh - 1)
  {
    hide At, CyclOrder, Quarter, MapOf, Tail, Times, Pow, Residue, Exp, Aligned;
    assert Aligned(w.k, true, Tail(w.k)) && Aligned(w.k, false, 1) by { WalksAligned(w.k); }
    UnitsAligned(w.k);
    QuarterBig(w.k);
    Walk(p, M, Nh, keys, permuteMap, true, acc, w, plan, m, Tail(w.k), 0);
    Visit(p, keys, permuteMap, M, acc, w, plan, m, Times(Pow(5, 0), Tail(w.k)), Nh - 1);
    Turn(p, M, keys, acc, w, plan, m, Nh, Nh - 1);
    Walk(p, M, Nh, keys, permuteMap, false, acc, w, plan, m, 1, Nh);
    Visit(p, keys, permuteMap, 0, acc, w, plan, m, Times(Pow(5, 0), 1), 2 * Nh - 1);
  }

  /** EvalAcc: from (0, m) to X^(sum of odd_j·e_j)·m, with odd_j = (-a_j mod 2N) | 1, using only the
      automorphism keys 0..numAutoKeys; the noise is that of one external product per index and at
      most N - 1 automorphisms. */
  method EvalAcc(p: Params, keys: Keys, logGen: seq<int>, acc: RingCiphertext, a: seq<int>, ghost w: RingWorld, ghost m: Poly)
    requires p == w.p && keys == w.keys && w.Valid() && IsLogTable(w.k, logGen) && |a| == |w.exps| && InRange(2 * p.N, a)
    requires p.Valid() && Canonical(p, m) && acc.c0 == Zero(p.N) && acc.c1 == m
    modifies acc
    ensures |acc.c0| == |acc.c1| == |w.z| == p.N
    ensures Near(p.Q, RingGsw.Phase(w.z, acc.c0, acc.c1), Mono(Sum(Contributions(2 * p.N, a, w.exps), |a|), m),
                 |a| * w.AddNoise() + Times(p.N - 1, w.AutoNoise()))
  {
    hide RingWorld.Valid, IsLogTable, At, Near, Auto, Mono, RingGsw.Phase, CyclOrder, Quarter, Fits, Logs, Contributions, MapOf, Tail, Times, Pow, Sum, Zero, Reduce;
    ShapeOf(w);
    ValidParams(w);
    TurnKey(w);
    var M, Nh := 2 * p.N, p.N / 2;
    ghost var plan := PlanOf(w, logGen, a);
    var permuteMap := BuildPermuteMap(M, logGen, a) by { TableSize(w.k, logGen); }
    ZeroCanonical(p);
    acc.c1 := Reduce(p.Q, Auto(M - 5, acc.c1));
    AtStart(w, plan, m, acc.c0, acc.c1);
    WalkAll(p, M, Nh, keys, permuteMap, acc, w, plan, m);
    AtEnd(w, plan, m, acc.c0, acc.c1);
  }

  lemma {:induction false} WalksAligned(k: nat)
    requires k > 0
    ensures Aligned(k, true, Tail(k)) && Aligned(k, false, 1)
  {
    StartOdd(k);
    hide Aligned, Tail;
    FirstWalkAligned(k);
    SecondWalkAligned(k);
  }

  lemma {:induction false} TableSize(k: nat, t: seq<int>)
    requires IsLogTable(k, t)
    ensures |t| == CyclOrder(k)
  {
  }

  lemma {:induction false} QuarterBig(k: nat)
    requires k > 0
    ensures Quarter(k) > 1
  {
    assert Quarter(k) == 2 * Quarter(k - 1);
  }

  lemma {:induction false} ZeroCanonical(p: Params)
    requires p.Valid()
    ensures Canonical(p, Zero(p.N))
  {
  }

  /** The buckets of -1 and 1, which need no automorphism first. */
  method Visit(p: Params, keys: Keys, permuteMap: map<int, seq<nat>>, c: int, acc: RingCiphertext,
               ghost w: RingWorld, ghost plan: Plan, ghost m: Poly, ghost rho: nat, ghost steps: nat)
    requires p == w.p && keys == w.keys && At(w, plan, m, acc.c0, acc.c1, rho, Pos(w.k, c), steps) && IsLog(w.k, c)
    requires MapOf(plan.logs, permuteMap) && Residue(rho, CyclOrder(w.k)) == Residue(Exp(w.k, c), CyclOrder(w.k))
    modifies acc
    ensures At(w, plan, m, acc.c0, acc.c1, rho, Pos(w.k, c) + 1, steps)
  {
    hide At, Pos, IsLog, Residue, Exp, Bucket;
    if c in permuteMap {
      AddBucket(p, keys, permuteMap[c], acc, w, plan, m, rho, c, steps);
    } else {
      SkipBucket(w, plan, m, acc.c0, acc.c1, rho, c, steps);
    }
  }
}
