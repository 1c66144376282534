/** EvalSign and EvalDecomp: the loops that consume one digit per round. */
module SignLoop {
  import opened Arithmetic
  import opened MkLwe
  import opened FunctionalBootstrap
  import opened LargePrecision
  import opened LargeSign
  import MkLweKeys

  /** One round's bootstraps and rounding. */
  datatype Round = Round(z1: BootstrapNoise, z2: BootstrapNoise, drift: int)

  ghost predicate Bounded(z: Round, E: nat, D: nat) {
    Abs(z.z1.err) <= E && Abs(z.z2.err) <= E && Abs(z.drift) <= D
  }

  /** Bootstrap error E and rounding drift D leave the noise margin intact after rescaling. */
  ghost predicate Quiet(beta: nat, q: int, E: nat, D: nat) {
    2 * beta * E + q * (1 + D) <= q * (beta - E - 1)
  }

  lemma {:induction false} WidthOrder(beta: nat, a: nat, c: nat)
    requires beta > 0
    ensures Width(beta, c) > 0 && (Width(beta, a) < Width(beta, c) <==> a < c)
  {
    hide Pow;
    MulMono(1, Pow(2, c), beta);
    if a < c {
      PowGrows(a, c);
      MulMono(Pow(2, a) + 1, Pow(2, c), 2 * beta);
      Distribute(2 * beta, Pow(2, a), 1);
    } else {
      if c < a {
        PowGrows(c, a);
      }
      MulMono(Pow(2, c), Pow(2, a), 2 * beta);
    }
  }

  lemma {:induction false} PowGrows(a: nat, c: nat)
    requires a < c
    ensures Pow(2, a) < Pow(2, c)
  {
    if a + 1 < c {
      PowGrows(a, c - 1);
    }
  }

  /** The next modulus: mod·2·beta/q, or mod/q·2·beta. */
  lemma {:induction false} NextModulus(beta: nat, a: nat, c: nat)
    requires beta > 0 && a < c
    ensures Width(beta, a) > 0
    ensures Width(beta, c) * 2 * beta / Width(beta, a) == Width(beta, c - a)
    ensures Width(beta, c) / Width(beta, a) * 2 * beta == Width(beta, c - a)
  {
    WidthOrder(beta, a, a);
    WidthSplit(beta, a, c);
    var q, r := Width(beta, a), Pow(2, c - a);
    assert Width(beta, c - a) == 2 * beta * r;
    hide Pow, Width;
    DivModUnique(q * r, q, r, 0);
    assert r * 2 * beta == 2 * beta * r;
    assert q * r * 2 * beta == q * (2 * beta * r) by { Arithmetic.Regroup(q, r, 2 * beta); Arithmetic.Regroup(r, 2, beta); }
    DivModUnique(q * r * 2 * beta, q, 2 * beta * r, 0);
  }

  /** A message of c bits loses its low digit of a bits. */
  lemma {:induction false} DropDigit(a: nat, c: nat, m: nat)
    requires 0 < a < c && m < Pow(2, c)
    ensures m / Pow(2, a) < Pow(2, c - a) && (m / Pow(2, a) >= Pow(2, c - a - 1) <==> m >= Pow(2, c - 1))
  {
    var t, h := Pow(2, a), Pow(2, c - a - 1);
    PowAdd(2, a, c - a - 1);
    PowAdd(2, a, c - a);
    hide Pow;
    QuotientBelow(m, t, Pow(2, c - a));
    QuotientBelow(m, t, h);
  }

  lemma {:induction false} QuotientBelow(m: nat, t: nat, k: nat)
    requires t > 0
    ensures m / t < k <==> m < t * k
  {
    var d := m / t;
    DivMod(m, t);
    if d < k {
      MulMono(d + 1, k, t);
      Distribute(t, d, 1);
    } else {
      MulMono(k, d, t);
    }
  }

  /** One round keeps the encoding and replaces m by floor(m / 2^a). */
  lemma {:induction false} RoundHolds(r: Sample, beta: nat, a: nat, c: nat, m: nat, E: nat, D: nat, z: Round)
    requires beta > 0 && 0 < a < c && m < Pow(2, c) && Bounded(z, E, D) && Quiet(beta, Width(beta, a), E, D)
    requires r.q == Width(beta, c) > 0 && Width(beta, c - a) > 0 && PhaseIs(r, Width(beta, a) * (m / Pow(2, a)) - z.z2.err)
    ensures Holds(ModSwitched(r, Width(beta, c - a), z.drift), beta, c - a, m / Pow(2, a), E)
  {
    var q, s, m' := Width(beta, a), Pow(2, c - a), m / Pow(2, a);
    WidthSplit(beta, a, c);
    WidthOrder(beta, a, a);
    DropDigit(a, c, m);
    assert Width(beta, c - a) == 2 * beta * s;
    hide PhaseIs, ModSwitched, Pow, Width;
    var e := SwitchPhase(r, beta, q, s, m', z.z2.err, z.drift);
    MarginKept(beta, q, E, D, z.z2.err, z.drift, e);
    var out := ModSwitched(r, 2 * beta * s, z.drift);
    assert PhaseIs(out, 2 * beta * m' + e);
    SwitchedModulus(r, 2 * beta * s, z.drift);
  }

  lemma {:induction false} SwitchedModulus(ct: Sample, q: int, drift: int)
    requires ct.q > 0 && q > 0
    ensures ModSwitched(ct, q, drift).q == q
  {
  }

  lemma {:induction false} MarginKept(beta: nat, q: int, E: nat, D: nat, e2: int, drift: int, e: int)
    requires q > 0 && Quiet(beta, q, E, D) && Abs(e2) <= E && Abs(drift) <= D && q * Abs(e) <= 2 * beta * Abs(e2) + q * (1 + Abs(drift))
    ensures E - beta <= e < beta - E
  {
    MulMono(Abs(e2), E, 2 * beta);
    MulMono(1 + Abs(drift), 1 + D, q);
    Distribute(q, beta - E - 1, 1);
    if Abs(e) > beta - E - 1 {
      MulMono(beta - E, Abs(e), q);
    }
  }

  //////// Choosing the key ////////

  /** The position of the most significant bit. */
  function FloorLog(x: nat): (l: nat)
    ensures x >= 1 ==> Pow(2, l) <= x < Pow(2, l + 1)
  {
    if x < 2 then 0 else 1 + FloorLog(x / 2)
  }

  /** The binary logarithm, rounded up. */
  function CeilLog(x: nat): (l: nat)
    ensures x >= 2 ==> l >= 1 && Pow(2, l - 1) < x <= Pow(2, l)
    ensures x <= 1 ==> l == 0
  {
    if x < 2 then 0 else 1 + CeilLog((x + 1) / 2)
  }

  lemma {:induction false} FloorLogBelow(x: nat, k: nat)
    requires x > 0
    ensures FloorLog(x) <= k <==> x < Pow(2, k + 1)
  {
    var l := FloorLog(x);
    hide Pow, FloorLog;
    if l < k {
      PowGrows(l + 1, k + 1);
    } else if k + 1 < l {
      PowGrows(k + 1, l);
    }
  }

  lemma {:induction false} CeilLogAtMost(x: nat, k: nat)
    requires x > 0
    ensures CeilLog(x) <= k <==> x <= Pow(2, k)
  {
    var l := CeilLog(x);
    hide Pow, CeilLog;
    if l < k {
      PowGrows(l, k);
    } else if k + 1 < l {
      PowGrows(k, l - 1);
    }
  }

  lemma {:induction false} BaseLiterals()
    ensures Pow(2, 17) == 131072 && Pow(2, 18) == 262144 && Pow(2, 26) == 67108864 && Pow(2, 27) == 134217728
  {
    assert Pow(2, 9) == 512;
    PowAdd(2, 9, 8);
    PowAdd(2, 9, 9);
    PowAdd(2, 18, 8);
    PowAdd(2, 18, 9);
  }

  ghost predicate Keyring(EKs: map<nat, Key>) {
    forall b :: b in EKs ==> EKs[b].base == b
  }

  /** With three keys the base follows the modulus, which EvalSign measures by its top bit and
      EvalDecomp (`rounded`) by its logarithm rounded up. The base is changed before the key is
      looked up, so a missing key leaves the new base in place. */
  method FollowModulus(params: SchemeParams, EKs: map<nat, Key>, ek: Key, mod: nat, rounded: bool) returns (ok: bool, next: Key)
    requires Keyring(EKs) && ek.base == params.baseG && mod > 0
    modifies params
    ensures |EKs| != 3 ==> ok && next == ek && params.baseG == old(params.baseG)
    ensures |EKs| == 3 && (if rounded then mod <= 131072 else mod < 262144) ==>
              params.baseG == 134217728 && (ok <==> 134217728 in EKs)
    ensures |EKs| == 3 && (if rounded then 131072 < mod <= 67108864 else 262144 <= mod < 134217728) ==>
              params.baseG == 262144 && (ok <==> 262144 in EKs)
    ensures |EKs| == 3 && (if rounded then 67108864 < mod else 134217728 <= mod) ==>
              ok && next == ek && params.baseG == old(params.baseG)
    ensures ok ==> next.base == params.baseG
  {
    BaseLiterals();
    hide Pow, FloorLog, CeilLog;
    if rounded {
      CeilLogAtMost(mod, 17);
      CeilLogAtMost(mod, 26);
    } else {
      FloorLogBelow(mod, 17);
      FloorLogBelow(mod, 26);
    }
    ok, next := true, ek;
    if |EKs| == 3 {
      var binLog := if rounded then CeilLog(mod) else FloorLog(mod);
      var base := if binLog <= 17 then Pow(2, 27) else if binLog <= 26 then Pow(2, 18) else 0;
      if base != 0 {
        params.baseG := base;
        if base !in EKs {
          return false, ek;
        }
        next := EKs[base];
      }
    }
  }

  /** The base in force once a run that started with base `start` has come down to `mod`. */
  function BaseAt(mod: nat, start: nat, rounded: bool): nat {
    if (if rounded then mod <= 131072 else mod < 262144) then 134217728
    else if (if rounded then mod <= 67108864 else mod < 134217728) then 262144
    else start
  }

  /** The base in force in round i: the modulus is then 2·beta·2^(c - a·i). Without the three keys
      of a dynamic run it never changes. */
  ghost function RoundBase(EKs: map<nat, Key>, beta: nat, a: nat, c: nat, i: nat, start: nat, rounded: bool): nat {
    if |EKs| != 3 || i == 0 || Times(a, i) >= c then start else BaseAt(Width(beta, c - Times(a, i)), start, rounded)
  }

  /** Every round that a run from c message bits to at most a reaches has the key of its base. */
  ghost predicate KeysPresent(EKs: map<nat, Key>, beta: nat, a: nat, c: nat, start: nat, rounded: bool) {
    forall i: nat :: Times(a, i) < c ==> RoundBase(EKs, beta, a, c, i, start, rounded) in EKs
  }

  /** The noise of round i is bounded for the base that is in force in round i. */
  ghost predicate RoundsBounded(env: (nat, nat) -> Round, EKs: map<nat, Key>, beta: nat, a: nat, c: nat, start: nat, rounded: bool, E: nat, D: nat) {
    forall i: nat :: Times(a, i) < c ==> Bounded(env(i, RoundBase(EKs, beta, a, c, i, start, rounded)), E, D)
  }

  /** The keys of 2^18 and 2^27 together with that of the first base are enough for every modulus. */
  lemma {:induction false} ThreeSuffice(EKs: map<nat, Key>, beta: nat, a: nat, c: nat, start: nat, rounded: bool)
    requires start in EKs && 262144 in EKs && 134217728 in EKs
    ensures KeysPresent(EKs, beta, a, c, start, rounded)
  {
  }

  lemma {:induction false} FirstBase(EKs: map<nat, Key>, beta: nat, a: nat, c: nat, start: nat, rounded: bool)
    requires c > 0
    ensures RoundBase(EKs, beta, a, c, 0, start, rounded) == start && Times(a, 0) == 0
    ensures start !in EKs ==> !KeysPresent(EKs, beta, a, c, start, rounded)
  {
    assert Times(a, 0) == 0;
  }

  /** The modulus only shrinks, so the base of the next round depends on its modulus alone. */
  lemma {:induction false} NextBase(EKs: map<nat, Key>, beta: nat, a: nat, c: nat, i: nat, start: nat, rounded: bool)
    requires beta > 0 && a > 0 && Times(a, i + 1) < c
    ensures Times(a, i) < c
    ensures |EKs| == 3 ==> RoundBase(EKs, beta, a, c, i + 1, start, rounded)
                           == BaseAt(Width(beta, c - Times(a, i + 1)), RoundBase(EKs, beta, a, c, i, start, rounded), rounded)
    ensures |EKs| != 3 ==> RoundBase(EKs, beta, a, c, i + 1, start, rounded) == RoundBase(EKs, beta, a, c, i, start, rounded)
  {
    Distribute(a, i, 1);
    hide Width;
    WidthOrder(beta, c - Times(a, i + 1), c - Times(a, i));
  }

  /** A run that has come down to at most a bits has been through every round. */
  lemma {:induction false} AllVisited(EKs: map<nat, Key>, beta: nat, a: nat, c: nat, n: nat, start: nat, rounded: bool)
    requires c - Times(a, n) <= a && forall j: nat :: j <= n ==> RoundBase(EKs, beta, a, c, j, start, rounded) in EKs
    ensures KeysPresent(EKs, beta, a, c, start, rounded)
  {
    hide RoundBase;
    forall j: nat | Times(a, j) < c ensures j <= n {
      Distribute(a, n, 1);
      if j > n {
        MulMono(n + 1, j, a);
      }
    }
  }

  lemma {:induction false} OneMissing(EKs: map<nat, Key>, beta: nat, a: nat, c: nat, i: nat, start: nat, rounded: bool)
    requires Times(a, i) < c && RoundBase(EKs, beta, a, c, i, start, rounded) !in EKs
    ensures !KeysPresent(EKs, beta, a, c, start, rounded)
  {
  }

  lemma {:induction false} RoundBounded(env: (nat, nat) -> Round, EKs: map<nat, Key>, beta: nat, a: nat, c: nat, i: nat, start: nat, rounded: bool, E: nat, D: nat)
    requires RoundsBounded(env, EKs, beta, a, c, start, rounded, E, D) && Times(a, i) < c
    ensures Bounded(env(i, RoundBase(EKs, beta, a, c, i, start, rounded)), E, D)
  {
  }

  //////// EvalSign ////////

  datatype SignResult = TooSmall | MissingKey(base: nat) | Sign(ct: Sample)

  /** Q/4 on the first half, -Q/4 on the second. */
  function SignFunction(q: int, Q: int): int -> int {
    x => if x < q / 2 then Q / 4 else Q - Q / 4
  }

  function NegSignFunction(q: int, Q: int): int -> int {
    x => if x < q / 2 then Q - Q / 4 else Q / 4
  }

  lemma {:induction false} SignNegacyclic(q: int, Q: int)
    requires q > 0 && q % 2 == 0 && Q > 0
    ensures Negacyclic(SignFunction(q, Q), q, Q) && Negacyclic(NegSignFunction(q, Q), q, Q)
  {
    OneModulus(Q);
  }

  /** The last bootstrap looks at the top bit only. */
  lemma {:induction false} TopBit(ct: Sample, beta: nat, c: nat, m: nat, E: nat, f: int -> int, q: int, z: BootstrapNoise, lo: int, hi: int)
    requires beta > 0 && c > 0 && Holds(ct, beta, c, m, E) && q > 0 && Negacyclic(f, ct.q, q)
    requires forall x :: f(x) == if x < ct.q / 2 then lo else hi
    ensures ct.q > 0 && PhaseIs(Bootstrap(f, AddConst(ct, beta), q, z.mask, z.err), (if m < Pow(2, c - 1) then lo else hi) + z.err)
  {
    var x: int :| PhaseIs(ct, x) && E - beta <= x - 2 * beta * m < beta - E;
    hide PhaseIs, Bootstrap, AddConst, Negacyclic, Pow, Width;
    AddConstPhase(ct, beta, x);
    AddConstModulus(ct, beta) by { SampleModulus(ct, x); }
    TopBitOrder(beta, c, m, x + beta);
    BootstrapPhase(f, AddConst(ct, beta), q, z.mask, z.err, x + beta);
  }

  lemma {:induction false} TopBitOrder(beta: nat, c: nat, m: nat, y: int)
    requires beta > 0 && c > 0 && m < Pow(2, c) && 0 <= y - 2 * beta * m < 2 * beta
    ensures 0 <= y < Width(beta, c) && Width(beta, c) % 2 == 0 && (y < Width(beta, c) / 2 <==> m < Pow(2, c - 1))
  {
    WidthHalf(beta, c);
    assert Pow(2, c) == 2 * Pow(2, c - 1);
    var h := Pow(2, c - 1);
    assert Width(beta, c) == 2 * beta * (2 * h);
    hide Pow, Width;
    HalfOrder(beta, h, m, y - 2 * beta * m);
  }

  lemma {:induction false} HalfOrder(beta: nat, h: nat, m: nat, g: int)
    requires beta > 0 && 0 <= g < 2 * beta && m < 2 * h
    ensures 0 <= 2 * beta * m + g < 2 * beta * (2 * h)
    ensures 2 * beta * m + g < 2 * beta * h <==> m < h
  {
    var w := 2 * beta;
    MulNonNeg(w, m);
    MulMono(m + 1, 2 * h, w);
    Distribute(w, m, 1);
    if m < h {
      MulMono(m + 1, h, w);
    } else {
      MulMono(h, m, w);
    }
  }

  /** The sign is the top bit of the message, whatever the number of rounds. Round i runs with the
      base that its own modulus asks for, and so does the last bootstrap. */
  method EvalSign(params: SchemeParams, EKs: map<nat, Key>, ct: Sample, beta: nat, schemeSwitch: bool, env: (nat, nat) -> Round, last: nat -> BootstrapNoise,
                  ghost a: nat, ghost c: nat, ghost m: nat, ghost E: nat, ghost D: nat) returns (r: SignResult, ghost rounds: nat)
    requires beta > 0 && a > 0 && c > 0 && params.q == Width(beta, a) && Keyring(EKs) && Holds(ct, beta, c, m, E)
    requires Quiet(beta, params.q, E, D) && RoundsBounded(env, EKs, beta, a, c, params.baseG, false, E, D)
    modifies params
    ensures r.TooSmall? <==> ct.q <= params.q
    ensures r.Sign? <==> ct.q > params.q && KeysPresent(EKs, beta, a, c, old(params.baseG), false)
    ensures ct.q > params.q && old(params.baseG) in EKs && 262144 in EKs && 134217728 in EKs ==> r.Sign?
    ensures params.baseG == old(params.baseG) <==> ct.q <= params.q || old(params.baseG) !in EKs || KeysPresent(EKs, beta, a, c, old(params.baseG), false)
    ensures r.MissingKey? ==> params.baseG == r.base == RoundBase(EKs, beta, a, c, rounds, old(params.baseG), false) && r.base !in EKs
    ensures r.Sign? ==> 0 < c - Times(a, rounds) <= a
    ensures r.Sign? && !schemeSwitch ==>
              PhaseIs(r.ct, (if m < Pow(2, c - 1) then 0 else params.q / 2) + last(RoundBase(EKs, beta, a, c, rounds, old(params.baseG), false)).err)
    ensures r.Sign? && schemeSwitch ==>
              PhaseIs(r.ct, (if m < Pow(2, c - 1) then -(params.q / 4) else params.q / 4) + last(RoundBase(EKs, beta, a, c, rounds, old(params.baseG), false)).err)
  {
    hide PhaseIs, Width, Pow, Bounded, Clear, Quiet;
    assert ct.q == Width(beta, c);
    hide Holds;
    rounds := 0;
    WidthOrder(beta, a, c);
    var mod: nat, q := ct.q, params.q;
    if mod <= q {
      return TooSmall, 0;
    }
    var curBase := params.baseG;
    FirstBase(EKs, beta, a, c, curBase, false);
    hide RoundBase, KeysPresent, RoundsBounded;
    if curBase !in EKs {
      return MissingKey(curBase), 0;
    }
    if 262144 in EKs && 134217728 in EKs {
      ThreeSuffice(EKs, beta, a, c, curBase, false);
    }
    var curEK := EKs[curBase];
    var cttmp := ct;
    ghost var ci: nat, mi: nat := c, m;
    var i := 0;
    while mod > q
      invariant ci > 0 && ci == c - Times(a, i) && mod == cttmp.q == Width(beta, ci) && Holds(cttmp, beta, ci, mi, E)
      invariant mi < Pow(2, ci - 1) <==> m < Pow(2, c - 1)
      invariant curEK.base == params.baseG == RoundBase(EKs, beta, a, c, i, curBase, false)
      invariant forall j: nat :: j <= i ==> RoundBase(EKs, beta, a, c, j, curBase, false) in EKs
      decreases ci
    {
      WidthOrder(beta, a, ci);
      assert mi < Pow(2, ci) by { HoldsMessage(cttmp, beta, ci, mi, E); }
      DropDigit(a, ci, mi);
      var ok;
      cttmp, mod, ok, curEK := OneRound(params, EKs, curEK, cttmp, beta, env, i, false, a, c, ci, mi, E, D, curBase);
      ci, mi, i := ci - a, mi / Pow(2, a), i + 1;
      if !ok {
        OneMissing(EKs, beta, a, c, i, curBase, false);
        return MissingKey(params.baseG), i;
      }
    }
    WidthOrder(beta, a, ci);
    AllVisited(EKs, beta, a, c, i, curBase, false);
    cttmp := LastBootstrap(cttmp, beta, q, schemeSwitch, last(curEK.base), a, ci, mi, E);
    params.baseG := curBase;
    return Sign(cttmp), i;
  }

  /** EvalFloor and ModSwitch with the noise of the key in use; the new modulus is computed as
      (mod·2)·beta/q or as mod/q·2·beta. */
  method NextRound(params: SchemeParams, ek: Key, ct: Sample, beta: nat, env: (nat, nat) -> Round, i: nat, productFirst: bool,
                   ghost a: nat, ghost c: nat, ghost m: nat, ghost E: nat, ghost D: nat) returns (r: Sample, mod: nat)
    requires beta > 0 && 0 < a < c && params.q == Width(beta, a) && ek.base == params.baseG && Holds(ct, beta, c, m, E)
    requires Quiet(beta, params.q, E, D) && Bounded(env(i, params.baseG), E, D)
    ensures r.q == mod == Width(beta, c - a) && Holds(r, beta, c - a, m / Pow(2, a), E)
  {
    var z := env(i, ek.base);
    ghost var x: int :| PhaseIs(ct, x) && E - beta <= x - 2 * beta * m < beta - E;
    DropBits(beta, a, m, E, z.z1.err, x);
    WidthSplit(beta, a, c);
    hide PhaseIs, Clear, Width, Pow, Quiet, Residue;
    WidthOrder(beta, a, c);
    WidthOrder(beta, a, c - a);
    NextModulus(beta, a, c);
    var f := EvalFloor(params, ek, ct, beta, 0, z.z1, z.z2, x, Pow(2, c - a));
    mod := if productFirst then ct.q * 2 * beta / params.q else ct.q / params.q * 2 * beta;
    r := ModSwitched(f, mod, z.drift);
    RoundHolds(f, beta, a, c, m, E, D, z);
  }

  lemma {:induction false} HoldsMessage(ct: Sample, beta: nat, c: nat, m: nat, E: nat)
    requires Holds(ct, beta, c, m, E)
    ensures m < Pow(2, c)
  {
  }

  /** One iteration of either loop: floor, rescale and follow the modulus. The key of the new base is
      missing exactly when the iteration fails. */
  method OneRound(params: SchemeParams, EKs: map<nat, Key>, ek: Key, ct: Sample, beta: nat, env: (nat, nat) -> Round, i: nat, rounded: bool,
                  ghost a: nat, ghost c: nat, ghost ci: nat, ghost m: nat, ghost E: nat, ghost D: nat, ghost start: nat) returns (r: Sample, mod: nat, ok: bool, next: Key)
    requires beta > 0 && 0 < a < ci == c - Times(a, i) && params.q == Width(beta, a) && Keyring(EKs) && Holds(ct, beta, ci, m, E)
    requires Quiet(beta, params.q, E, D) && RoundsBounded(env, EKs, beta, a, c, start, rounded, E, D)
    requires ek.base == params.baseG == RoundBase(EKs, beta, a, c, i, start, rounded) && params.baseG in EKs
    modifies params
    ensures r.q == mod == Width(beta, ci - a) && Holds(r, beta, ci - a, m / Pow(2, a), E) && ci - a == c - Times(a, i + 1)
    ensures params.baseG == RoundBase(EKs, beta, a, c, i + 1, start, rounded) && (ok <==> params.baseG in EKs) && (ok ==> next.base == params.baseG)
  {
    hide PhaseIs, Width, Pow, Bounded, Quiet, RoundBase, Holds, RoundsBounded;
    Distribute(a, i, 1);
    RoundBounded(env, EKs, beta, a, c, i, start, rounded, E, D);
    r, mod := NextRound(params, ek, ct, beta, env, i, !rounded, a, ci, m, E, D);
    WidthOrder(beta, ci - a, ci - a);
    ok, next := FollowModulus(params, EKs, ek, mod, rounded);
    NextBase(EKs, beta, a, c, i, start, rounded);
  }

  method LastBootstrap(ct: Sample, beta: nat, q: int, schemeSwitch: bool, z: BootstrapNoise, ghost a: nat, ghost c: nat, ghost m: nat, ghost E: nat) returns (r: Sample)
    requires beta > 0 && a > 0 && c > 0 && q == Width(beta, a) && Holds(ct, beta, c, m, E)
    ensures r.q == q
    ensures !schemeSwitch ==> PhaseIs(r, (if m < Pow(2, c - 1) then 0 else q / 2) + z.err)
    ensures schemeSwitch ==> PhaseIs(r, (if m < Pow(2, c - 1) then -(q / 4) else q / 4) + z.err)
  {
    WidthHalf(beta, a);
    WidthHalf(beta, c);
    hide PhaseIs, Width, Pow, Negacyclic;
    SignNegacyclic(ct.q, q);
    var top := AddConst(ct, beta);
    if !schemeSwitch {
      TopBit(ct, beta, c, m, E, SignFunction(ct.q, q), q, z, q / 4, q - q / 4);
      r := Bootstrap(SignFunction(ct.q, q), top, q, z.mask, z.err);
      AddConstPhase(r, -(q / 4), (if m < Pow(2, c - 1) then q / 4 else q - q / 4) + z.err);
      r := AddConst(r, -(q / 4));
    } else {
      TopBit(ct, beta, c, m, E, NegSignFunction(ct.q, q), q, z, q - q / 4, q / 4);
      r := Bootstrap(NegSignFunction(ct.q, q), top, q, z.mask, z.err);
      SamePhase(r, (if m < Pow(2, c - 1) then q - q / 4 else q / 4) + z.err, (if m < Pow(2, c - 1) then -(q / 4) else q / 4) + z.err,
                if m < Pow(2, c - 1) then 1 else 0);
    }
  }

  //////// EvalDecomp ////////

  datatype DecompResult = SmallModulus | NoKey(base: nat) | Digits(cts: seq<Sample>)

  /** The ciphertexts carry the base-2^a digits of m, the last one the leading remainder. */
  ghost predicate CarriesDigits(cts: seq<Sample>, beta: nat, a: nat, c: nat, m: nat, E: nat) {
    |cts| > 0 && Times(a, |cts| - 1) < c &&
    (forall j :: 0 <= j < |cts| - 1 ==> Holds(cts[j], beta, a, MkLweKeys.UDigit(Pow(2, a), m, j), E)) &&
    Holds(cts[|cts| - 1], beta, c - Times(a, |cts| - 1), MkLweKeys.Quotient(Pow(2, a), m, |cts| - 1), E)
  }

  /** The digits add up to the message. */
  lemma {:induction false} DigitsAddUp(a: nat, m: nat, j: nat)
    ensures m == MkLweKeys.UValue(Pow(2, a), m, j) + Pow(Pow(2, a), j) * MkLweKeys.Quotient(Pow(2, a), m, j)
  {
    MkLweKeys.UValueQuotient(Pow(2, a), m, j);
  }

  /** The digits of the message, least significant first. Round i runs with the base that its own
      modulus asks for. */
  method EvalDecomp(params: SchemeParams, EKs: map<nat, Key>, ct: Sample, beta: nat, env: (nat, nat) -> Round,
                    ghost a: nat, ghost c: nat, ghost m: nat, ghost E: nat, ghost D: nat) returns (r: DecompResult, ghost rounds: nat)
    requires beta > 0 && a > 0 && c > 0 && params.q == Width(beta, a) && Keyring(EKs) && Holds(ct, beta, c, m, E)
    requires Quiet(beta, params.q, E, D) && RoundsBounded(env, EKs, beta, a, c, params.baseG, true, E, D)
    modifies params
    ensures r.SmallModulus? <==> ct.q <= params.q
    ensures r.Digits? <==> ct.q > params.q && KeysPresent(EKs, beta, a, c, old(params.baseG), true)
    ensures ct.q > params.q && old(params.baseG) in EKs && 262144 in EKs && 134217728 in EKs ==> r.Digits?
    ensures params.baseG == old(params.baseG) <==> ct.q <= params.q || old(params.baseG) !in EKs || KeysPresent(EKs, beta, a, c, old(params.baseG), true)
    ensures r.NoKey? ==> params.baseG == r.base == RoundBase(EKs, beta, a, c, rounds, old(params.baseG), true) && r.base !in EKs
    ensures r.Digits? ==> CarriesDigits(r.cts, beta, a, c, m, E) && c - Times(a, |r.cts| - 1) <= a && r.cts[|r.cts| - 1].q <= params.q
  {
    hide PhaseIs, Width, Pow, Bounded, Clear, Quiet, MkLweKeys.UDigit;
    assert ct.q == Width(beta, c);
    hide Holds;
    rounds := 0;
    WidthOrder(beta, a, c);
    var mod: nat, q := ct.q, params.q;
    if mod <= q {
      return SmallModulus, 0;
    }
    var curBase := params.baseG;
    FirstBase(EKs, beta, a, c, curBase, true);
    hide RoundBase, KeysPresent, RoundsBounded;
    if curBase !in EKs {
      return NoKey(curBase), 0;
    }
    if 262144 in EKs && 134217728 in EKs {
      ThreeSuffice(EKs, beta, a, c, curBase, true);
    }
    var curEK := EKs[curBase];
    var cttmp := ct;
    var ret := [];
    ghost var ci: nat, mi: nat := c, m;
    while mod > q
      invariant ci > 0 && ci == c - Times(a, |ret|) && mod == cttmp.q == Width(beta, ci) && Holds(cttmp, beta, ci, mi, E)
      invariant mi == MkLweKeys.Quotient(Pow(2, a), m, |ret|)
      invariant curEK.base == params.baseG == RoundBase(EKs, beta, a, c, |ret|, curBase, true)
      invariant forall j: nat :: j <= |ret| ==> RoundBase(EKs, beta, a, c, j, curBase, true) in EKs
      invariant forall j :: 0 <= j < |ret| ==> Holds(ret[j], beta, a, MkLweKeys.UDigit(Pow(2, a), m, j), E)
      decreases ci
    {
      WidthOrder(beta, a, ci);
      LowDigit(cttmp, beta, a, ci, mi, E);
      MkLweKeys.DigitStep(Pow(2, a), m, |ret|);
      var ctq := SetModulus(cttmp, q);
      var ok;
      cttmp, mod, ok, curEK := OneRound(params, EKs, curEK, cttmp, beta, env, |ret|, true, a, c, ci, mi, E, D, curBase);
      ret := ret + [ctq];
      ci, mi := ci - a, mi / Pow(2, a);
      if !ok {
        OneMissing(EKs, beta, a, c, |ret|, curBase, true);
        return NoKey(params.baseG), |ret|;
      }
    }
    WidthOrder(beta, a, ci);
    AllVisited(EKs, beta, a, c, |ret|, curBase, true);
    params.baseG := curBase;
    rounds := |ret|;
    ret := ret + [cttmp];
    return Digits(ret), rounds;
  }

  //////// A run that loses the base ////////

  /** The keys of 2^14, 2^18 and 2^20: none for the base 2^27 that a short modulus asks for. */
  method ShortRing() returns (EKs: map<nat, Key>)
    ensures Keyring(EKs) && |EKs| == 3 && 16384 in EKs && 134217728 !in EKs
  {
    EKs := ThreeKeys(16384, 262144, 1048576);
  }

  method ThreeKeys(x: nat, y: nat, z: nat) returns (EKs: map<nat, Key>)
    requires x < y < z
    ensures Keyring(EKs) && |EKs| == 3 && forall b :: b in EKs <==> b == x || b == y || b == z
  {
    EKs := map[x := Key(x)];
    EKs := EKs[y := Key(y)];
    EKs := EKs[z := Key(z)];
  }

  /** With beta = 2, q = 8 and modulus 16 the one round of EvalSign and EvalDecomp ends at modulus 8. */
  lemma {:induction false} ShortModulus(ct: Sample, EKs: map<nat, Key>)
    requires ct == Sample(0, 0, 16) && |EKs| == 3 && 134217728 !in EKs
    ensures Width(2, 1) == 8 && Holds(ct, 2, 2, 0, 0) && Quiet(2, 8, 0, 0)
    ensures !KeysPresent(EKs, 2, 1, 2, 16384, false) && !KeysPresent(EKs, 2, 1, 2, 16384, true)
    ensures forall i: nat, rounded :: RoundBase(EKs, 2, 1, 2, i, 16384, rounded) == 16384 || RoundBase(EKs, 2, 1, 2, i, 16384, rounded) == 134217728
  {
    assert Pow(2, 1) == 2 * Pow(2, 0) && Pow(2, 2) == 2 * Pow(2, 1);
    hide Pow;
    assert PhaseIs(ct, 0);
    assert Times(1, 1) == 1;
    assert RoundBase(EKs, 2, 1, 2, 1, 16384, false) == RoundBase(EKs, 2, 1, 2, 1, 16384, true) == 134217728;
  }

  /** EvalSign without the key of 2^27: it fails and leaves that base behind. */
  method SignLosesBase() returns (params: SchemeParams, r: SignResult)
    ensures fresh(params) && r == MissingKey(134217728) && params.baseG == 134217728
  {
    var EKs := ShortRing();
    var ct, z := Sample(0, 0, 16), BootstrapNoise(0, 0);
    ShortModulus(ct, EKs);
    hide Pow, Width, Holds, Quiet, KeysPresent;
    params := new SchemeParams(8, 16384);
    ghost var rounds;
    r, rounds := EvalSign(params, EKs, ct, 2, false, (i, g) => Round(z, z, 0), g => z, 1, 2, 0, 0, 0);
  }

  /** EvalDecomp without the key of 2^27. */
  method DecompLosesBase() returns (params: SchemeParams, r: DecompResult)
    ensures fresh(params) && r == NoKey(134217728) && params.baseG == 134217728
  {
    var EKs := ShortRing();
    var ct, z := Sample(0, 0, 16), BootstrapNoise(0, 0);
    ShortModulus(ct, EKs);
    hide Pow, Width, Holds, Quiet, KeysPresent;
    params := new SchemeParams(8, 16384);
    ghost var rounds;
    r, rounds := EvalDecomp(params, EKs, ct, 2, (i, g) => Round(z, z, 0), 1, 2, 0, 0, 0);
  }
}
