/** Flooring, large-precision sign and digit decomposition. */
module LargeSign {
  import opened Arithmetic
  import opened MkLwe
  import opened FunctionalBootstrap
  import opened LargePrecision

  //////// EvalFloor ////////

  /** A bootstrapping key for one gadget base. */
  datatype Key = Key(base: nat)

  class SchemeParams {
    const q: int
    var baseG: nat

    constructor (q: int, baseG: nat)
      ensures this.q == q && this.baseG == baseG
    {
      this.q := q;
      this.baseG := baseG;
    }
  }

  predicate Multiple(m: int, q: int, c: int) {
    m == q * c
  }

  /** After the first bootstrap the phase lies in the middle half modulo q. */
  lemma {:induction false} CentredPhase(ct: Sample, q: int, c: int, beta: int, z1: BootstrapNoise, x: int)
    requires PhaseIs(ct, x) && q > 0 && q % 4 == 0 && Multiple(ct.q, q, c) && ct.q > 0 && Clear(x + beta, q / 2, z1.err)
    ensures PhaseIs(Centred(ct, q, beta, z1), x + beta - Shifted(q, ct.q, x + beta) - z1.err)
  {
    hide Multiple;
    var mod, Y := ct.q, x + beta;
    var f1 := QuarterSign(q, mod);
    var y, k := ModForm(Y, q);
    assert f1(y) == Shifted(q, mod, Y);
    QuarterSignNegacyclic(q, mod);
    hide PhaseIs, Bootstrap, AddConst, Minus, SetModulus, QuarterSign, Negacyclic, Clear, Shifted, Multiple;
    var ct1 := AddConst(ct, beta);
    AddConstPhase(ct, beta, x);
    AddConstModulus(ct, beta);
    var s := RoundTrip(ct1, q, c, f1, z1, Y, y, k);
    MinusPhase(ct1, s, Y, f1(y) + z1.err);
  }

  /** The value of the first bootstrap. */
  function Shifted(q: int, mod: int, Y: int): int
    requires q > 0
  {
    if Residue(Y, q) < q / 2 then mod - q / 4 else q / 4
  }

  /** The first bootstrap moves the residue of the phase into the middle half, where the second
      one reads it off exactly; its error e1 cancels. */
  lemma {:induction false} FloorPhase(ct: Sample, q: int, c: int, beta: int, z1: BootstrapNoise, z2: BootstrapNoise, x: int)
    requires PhaseIs(ct, x) && q > 0 && q % 4 == 0 && Multiple(ct.q, q, c) && ct.q > 0 && Clear(x + beta, q / 2, z1.err)
    ensures PhaseIs(Floored(ct, q, beta, z1, z2), x + beta - Residue(x + beta, q) - z2.err)
  {
    hide PhaseIs, Bootstrap, Minus, SetModulus, Middle, Negacyclic, Centred, Clear, Shifted, Residue, Multiple;
    var mod, Y := ct.q, x + beta;
    CentredPhase(ct, q, c, beta, z1, x);
    CentredModulus(ct, q, beta, z1);
    MiddleNegacyclic(q, mod);
    var y, z, k, d := MiddleCase(q, mod, c, Y, z1.err);
    var ct1, v := Centred(ct, q, beta, z1), Y - Shifted(q, mod, Y) - z1.err;
    var u := RoundTrip(ct1, q, c, Middle(q, mod), z2, v, z, k);
    MinusPhase(ct1, u, v, z + z2.err);
    MinusModulus(ct1, u);
    SamePhase(Minus(ct1, u), v - (z + z2.err), Y - y - z2.err, d);
  }

  /** Where the phase lies after the first bootstrap, and what the second one reads there. */
  lemma {:induction false} MiddleCase(q: int, mod: int, c: int, Y: int, e: int) returns (y: int, z: int, k': int, d: int)
    requires q > 0 && q % 4 == 0 && Multiple(mod, q, c) && Clear(Y, q / 2, e)
    ensures y == Residue(Y, q) && 0 <= z < q && Middle(q, mod)(z) == z
    ensures Y - Shifted(q, mod, Y) - e == z + q * k' && Y - Shifted(q, mod, Y) - e - z == Y - y + mod * d
  {
    hide Multiple;
    EvenFromFour(q);
    var k;
    y, k := ModForm(Y, q);
    HalfResidue(Y, q, y, k);
    var s := Shifted(q, mod, Y);
    z, k' := MiddleValue(q, mod, c, y, k, s, e, Y, Residue(Y, q / 2));
    d := if y < q / 2 then -1 else 0;
    FloorAlgebra(q, c, mod, Y, y, k, Y - (s + e), z, k', s, e);
  }

  lemma {:induction false} CentredModulus(ct: Sample, q: int, beta: int, z1: BootstrapNoise)
    requires ct.q > 0 && q > 0
    ensures Centred(ct, q, beta, z1).q == ct.q
  {
  }

  /** Reduce to modulus q, bootstrap f back to the large modulus. */
  lemma {:induction false} RoundTrip(ct: Sample, q: int, c: int, f: int -> int, z: BootstrapNoise, v: int, x: int, k: int) returns (r: Sample)
    requires PhaseIs(ct, v) && q > 0 && q % 4 == 0 && Multiple(ct.q, q, c) && ct.q > 0 && Negacyclic(f, q, ct.q) && v == x + q * k && 0 <= x < q
    ensures r == Bootstrap(f, SetModulus(ct, q), ct.q, z.mask, z.err) && PhaseIs(r, f(x) + z.err) && r.q == ct.q
  {
    SetModulusPhase(ct, q, c, v);
    hide PhaseIs, Bootstrap, SetModulus, Residue, Negacyclic, Multiple;
    EvenFromFour(q);
    var m := SetModulus(ct, q);
    SetModulusModulus(ct, q);
    BootstrapModulus(f, m, ct.q, z.mask, z.err);
    SamePhase(m, v, x, k);
    BootstrapPhase(f, m, ct.q, z.mask, z.err, x);
    r := Bootstrap(f, m, ct.q, z.mask, z.err);
  }

  lemma {:induction false} MiddleValue(q: int, mod: int, c: int, y: int, k: int, s: int, e: int, Y: int, r: int) returns (z: int, k': int)
    requires q > 0 && q % 4 == 0 && Y == y + q * k && 0 <= y < q && 0 <= r - e < q / 2 && Multiple(mod, q, c)
    requires s == (if y < q / 2 then mod - q / 4 else q / 4) && r == if y < q / 2 then y else y - q / 2
    ensures z == r - e + q / 4 && Y - (s + e) == z + q * k' && q / 4 <= z < 3 * (q / 4) && 0 <= z < q
    ensures Middle(q, mod)(z) == z
  {
    z := r - e + q / 4;
    k' := if y < q / 2 then k - c else k;
    Distribute(q, k, c);
  }

  lemma {:induction false} FloorAlgebra(q: int, c: int, mod: int, Y: int, y: int, k: int, v: int, z: int, k': int, s: int, e: int)
    requires q > 0 && q % 4 == 0 && v == Y - (s + e) && s == (if y < q / 2 then mod - q / 4 else q / 4)
    requires z == (if y < q / 2 then y else y - q / 2) - e + q / 4
    ensures v - z == Y - y + mod * (if y < q / 2 then -1 else 0)
  {
  }

  /** EvalFloor after its first bootstrap. */
  function Centred(ct: Sample, q: int, beta: int, z1: BootstrapNoise): Sample
    requires ct.q > 0 && q > 0
  {
    var ct1 := AddConst(ct, beta);
    Minus(ct1, Bootstrap(QuarterSign(q, ct.q), SetModulus(ct1, q), ct.q, z1.mask, z1.err))
  }

  /** EvalFloor after both bootstraps. */
  function Floored(ct: Sample, q: int, beta: int, z1: BootstrapNoise, z2: BootstrapNoise): Sample
    requires ct.q > 0 && q > 0
  {
    var ct1 := Centred(ct, q, beta, z1);
    Minus(ct1, Bootstrap(Middle(q, ct.q), SetModulus(ct1, q), ct.q, z2.mask, z2.err))
  }

  /** The modulus for roundbits > 0, beta·2^(roundbits + 1), is 2·beta·2^roundbits. */
  lemma {:induction false} RoundingModulus(beta: int, roundbits: nat)
    requires beta > 0 && roundbits > 0
    ensures beta * Pow(2, roundbits + 1) == 2 * beta * Pow(2, roundbits) > 0
    ensures 2 * beta * Pow(2, roundbits) % 4 == 0 && 2 * beta * Pow(2, roundbits) / 2 == beta * Pow(2, roundbits)
  {
    WidthHalf(beta, roundbits);
    var t := Pow(2, roundbits);
    assert Pow(2, roundbits + 1) == 2 * t;
    hide Pow;
    Arithmetic.Regroup(2, beta, t);
    Arithmetic.Regroup(beta, 2, t);
    DivModUnique(2 * (beta * t), 2, beta * t, 0);
  }

  /** EvalFloor subtracts the residue: (x + beta) - ((x + beta) mod q), up to the second bootstrap's
      error, where q is the modulus of the parameters or, to drop `roundbits` bits, 2·beta·2^roundbits.
      With no error in the first bootstrap this holds for every phase x. */
  method EvalFloor(params: SchemeParams, ek: Key, ct: Sample, beta: int, roundbits: nat, z1: BootstrapNoise, z2: BootstrapNoise, ghost x: int, ghost c: int) returns (r: Sample)
    requires ek.base == params.baseG && PhaseIs(ct, x)
    requires roundbits == 0 ==> params.q > 0 && params.q % 4 == 0 && ct.q == params.q * c
    requires roundbits > 0 ==> beta > 0 && ct.q == 2 * beta * Pow(2, roundbits) * c
    ensures r.q == ct.q
    ensures roundbits == 0 && Clear(x + beta, params.q / 2, z1.err) ==> PhaseIs(r, x + beta - Residue(x + beta, params.q) - z2.err)
    ensures roundbits > 0 ==> 2 * beta * Pow(2, roundbits) > 0 && beta * Pow(2, roundbits) > 0
    ensures roundbits > 0 && Clear(x + beta, beta * Pow(2, roundbits), z1.err) ==>
              PhaseIs(r, x + beta - Residue(x + beta, 2 * beta * Pow(2, roundbits)) - z2.err)
  {
    hide PhaseIs, Clear, Residue, Pow;
    SampleModulus(ct, x);
    var q := if roundbits == 0 then params.q else beta * Pow(2, roundbits + 1);
    if roundbits > 0 {
      RoundingModulus(beta, roundbits);
    }
    var mod := ct.q;
    var ct1 := AddConst(ct, beta);
    var ct1Modq := SetModulus(ct1, q);
    var ct2 := Bootstrap(QuarterSign(q, mod), ct1Modq, mod, z1.mask, z1.err);
    ct1 := Minus(ct1, ct2);
    var ct2Modq := SetModulus(ct1, q);
    var ct3 := Bootstrap(Middle(q, mod), ct2Modq, mod, z2.mask, z2.err);
    ct1 := Minus(ct1, ct3);
    if Clear(x + beta, q / 2, z1.err) {
      FloorPhase(ct, q, c, beta, z1, z2, x);
    }
    return ct1;
  }

  /** Dropping r >= 1 bits: a phase 2·beta·m + e becomes 2·beta·2^r·floor(m / 2^r). */
  method EvalFloorBits(params: SchemeParams, ek: Key, ct: Sample, beta: nat, r: nat, z1: BootstrapNoise, z2: BootstrapNoise, ghost m: nat, ghost e: int, ghost E: nat, ghost c: int)
    returns (floor: Sample)
    requires ek.base == params.baseG && beta > 0 && r > 0 && ct.q == 2 * beta * Pow(2, r) * c && PhaseIs(ct, 2 * beta * m + e)
    requires E - beta <= e < beta - E && Abs(z1.err) <= E
    ensures floor.q == ct.q && PhaseIs(floor, 2 * beta * Pow(2, r) * (m / Pow(2, r)) - z2.err)
  {
    DropBits(beta, r, m, E, z1.err, 2 * beta * m + e);
    RoundingModulus(beta, r);
    hide PhaseIs, Clear, Residue, Pow;
    floor := EvalFloor(params, ek, ct, beta, r, z1, z2, 2 * beta * m + e, c);
  }

  //////// One round: floor, then switch to the smaller modulus ////////

  /** 2·beta·2^c: the modulus that carries c message bits. */
  function Width(beta: nat, c: nat): nat {
    Times(2 * beta, Pow(2, c))
  }

  /** ct carries the c-bit message m with noise in [-beta + E, beta - E). */
  ghost predicate Holds(ct: Sample, beta: nat, c: nat, m: nat, E: nat) {
    ct.q == Width(beta, c) && m < Pow(2, c) &&
    exists x: int :: PhaseIs(ct, x) && E - beta <= x - 2 * beta * m < beta - E
  }

  lemma {:induction false} WidthSplit(beta: nat, a: nat, c: nat)
    requires a <= c
    ensures Width(beta, c) == Width(beta, a) * Pow(2, c - a)
    ensures Pow(2, c) == Pow(2, a) * Pow(2, c - a)
  {
    PowAdd(2, a, c - a);
    Arithmetic.Regroup(2 * beta, Pow(2, a), Pow(2, c - a));
  }

  /** q/2 = 2·beta·2^(a-1) is a multiple of 4·beta/2. */
  lemma {:induction false} WidthHalf(beta: nat, a: nat)
    requires beta > 0 && a > 0
    ensures Width(beta, a) > 0 && Width(beta, a) % 4 == 0 && Width(beta, a) / 2 == Times(2 * beta, Pow(2, a - 1)) > 0
  {
    var t := Pow(2, a - 1);
    assert Pow(2, a) == 2 * t;
    hide Pow;
    MulMono(1, t, beta);
    Arithmetic.Regroup(2, beta, t);
    Arithmetic.Regroup(2, beta, 2 * t);
    assert beta * (2 * t) == 2 * (beta * t);
    DivModUnique(4 * (beta * t), 4, beta * t, 0);
    DivModUnique(4 * (beta * t), 2, 2 * (beta * t), 0);
  }

  /** (2·beta·m + g) modulo 2·beta·t, for 0 <= g < 2·beta. */
  lemma {:induction false} DigitResidue(beta: nat, t: nat, m: nat, g: int)
    requires beta > 0 && t > 0 && 0 <= g < 2 * beta
    ensures Times(2 * beta, t) > 0 && Residue(2 * beta * m + g, Times(2 * beta, t)) == 2 * beta * (m % t) + g
    ensures 2 * beta * (m % t) + g + (2 * beta - g) <= Times(2 * beta, t)
    ensures 2 * beta * m + g - (2 * beta * (m % t) + g) == Times(2 * beta, t) * (m / t)
  {
    var w, r, d := 2 * beta, m % t, m / t;
    DivMod(m, t);
    MulMono(r + 1, t, w);
    Distribute(w, r, 1);
    MulNonNeg(w, r);
    MulMono(1, t, w);
    assert w * m + g == (w * t) * d + (w * r + g) by { Distribute(w, r, t * d); Arithmetic.Regroup(w, t, d); }
    DivModUnique(w * m + g, w * t, d, w * r + g);
  }

  /** The phase is far enough from the boundaries, and flooring leaves q·floor(m / 2^a). */
  lemma {:induction false} DropBits(beta: nat, a: nat, m: nat, E: nat, err: int, x: int)
    requires beta > 0 && a > 0 && E - beta <= x - 2 * beta * m < beta - E && Abs(err) <= E
    ensures Width(beta, a) > 0 && Width(beta, a) % 4 == 0 && Clear(x + beta, Width(beta, a) / 2, err)
    ensures x + beta - Residue(x + beta, Width(beta, a)) == Width(beta, a) * (m / Pow(2, a))
  {
    var g := x + beta - 2 * beta * m;
    hide Residue, Pow;
    WidthHalf(beta, a);
    DigitResidue(beta, Pow(2, a - 1), m, g);
    DigitResidue(beta, Pow(2, a), m, g);
    MulNonNeg(2 * beta, m % Pow(2, a - 1));
  }

  /** Reduced modulo q, the ciphertext carries the low digit m mod 2^a. */
  lemma {:induction false} LowDigit(ct: Sample, beta: nat, a: nat, c: nat, m: nat, E: nat)
    requires beta > 0 && 0 < a <= c && Holds(ct, beta, c, m, E)
    ensures Width(beta, a) > 0 && Holds(SetModulus(ct, Width(beta, a)), beta, a, m % Pow(2, a), E)
  {
    var x: int :| PhaseIs(ct, x) && E - beta <= x - 2 * beta * m < beta - E;
    var g, q := x + beta - 2 * beta * m, Width(beta, a);
    hide PhaseIs, SetModulus, Residue, Pow;
    WidthSplit(beta, a, c);
    WidthHalf(beta, a);
    DigitResidue(beta, Pow(2, a), m, g);
    SetModulusPhase(ct, q, Pow(2, c - a), x);
    SetModulusModulus(ct, q);
    SamePhase(SetModulus(ct, q), x, 2 * beta * (m % Pow(2, a)) + g - beta, m / Pow(2, a));
  }

  lemma {:induction false} SetModulusModulus(ct: Sample, q: int)
    requires q > 0
    ensures SetModulus(ct, q).q == q
  {
  }

  //////// Modulus switching ////////

  /** floor(1/2 + t·q'/q), the rounding of one coefficient before reduction. */
  function Rounded(t: int, q': int, q: int): int
    requires q > 0
  {
    (2 * (t * q') + q) / (2 * q)
  }

  /** ModSwitch on b and on the inner product; rounding the coefficients of a one by one instead of
      their inner product moves the latter by `drift`. */
  function ModSwitched(ct: Sample, q': int, drift: int): Sample
    requires ct.q > 0 && q' > 0
  {
    Sample(Residue(Rounded(ct.b, q', ct.q), q'), Residue(Rounded(ct.t, q', ct.q) + drift, q'), q')
  }

  /** Rounding every coefficient of a is ModSwitched with a drift of at most (1 + sum of |s|)/2. */
  lemma {:induction false} ModSwitchDrift(a: seq<int>, a': seq<int>, b: int, s: seq<int>, q': int, q: int) returns (drift: int)
    requires q > 0 && q' > 0 && |a| == |a'| == |s| && forall i :: 0 <= i < |a| ==> a'[i] == RoundqQ(a[i], q', q)
    ensures SetModulus(Sample(RoundqQ(b, q', q), Inner(a', s, |s|), q'), q') == ModSwitched(Sample(b, Inner(a, s, |s|), q), q', drift)
    ensures 2 * Abs(drift) <= 1 + AbsSum(s, |s|)
  {
    var x, y := Inner(a', s, |s|), Inner(a, s, |s|);
    var eps, t := SwitchInner(q', q, a, a', s, |s|);
    var e := RoundedError(y, q', q);
    var R := Rounded(y, q', q);
    drift := x - R - q' * t;
    assert q' * -t == -(q' * t);
    ModShift(R + drift, x, q', -t);
    DriftBound(q, q', x, y, R, eps, e, t, AbsSum(s, |s|), drift);
    assert RoundqQ(b, q', q) == Residue(Rounded(b, q', q), q');
    ModOfMod(Rounded(b, q', q), q');
  }

  lemma {:induction false} DriftBound(q: int, q': int, x: int, y: int, R: int, eps: int, e: int, t: int, S: nat, drift: int)
    requires q > 0 && 2 * q * x == 2 * q' * y + eps + 2 * q * q' * t && 2 * q * R == 2 * q' * y + e && Abs(eps) <= q * S && Abs(e) <= q && drift == x - R - q' * t
    ensures 2 * Abs(drift) <= 1 + S
  {
    Distribute(2 * q, x - R, q' * t);
    Distribute(2 * q, x, R);
    Arithmetic.Regroup(2 * q, q', t);
    assert 2 * q * drift == eps - e;
    AbsMul(2 * q, drift);
    Distribute(q, 1, S);
    Arithmetic.Regroup(2, q, Abs(drift));
    Arithmetic.Regroup(q, 2, Abs(drift));
    if 2 * Abs(drift) > 1 + S {
      MulMono(2 + S, 2 * Abs(drift), q);
      Distribute(q, 1 + S, 1);
    }
  }

  lemma {:induction false} RoundedError(t: int, q': int, q: int) returns (eps: int)
    requires q > 0
    ensures 2 * q * Rounded(t, q', q) == 2 * q' * t + eps && -q < eps <= q
  {
    var y := 2 * (t * q') + q;
    DivMod(y, 2 * q);
    eps := q - y % (2 * q);
    assert 2 * q' * t == 2 * (t * q');
  }

  /** From q·m' - e (modulus q·r) to 2·beta·m' + e' (modulus 2·beta·r), with
      q·|e'| <= 2·beta·|e| + q·(1 + |drift|). */
  lemma {:induction false} SwitchPhase(ct: Sample, beta: nat, q: int, r: nat, m: int, e: int, drift: int) returns (e': int)
    requires q > 0 && r > 0 && beta > 0 && ct.q == q * r && q * r > 0 && 2 * beta * r > 0 && PhaseIs(ct, q * m - e)
    ensures PhaseIs(ModSwitched(ct, 2 * beta * r, drift), 2 * beta * m + e')
    ensures q * Abs(e') <= 2 * beta * Abs(e) + q * (1 + Abs(drift))
  {
    var mod, mod', w := q * r, 2 * beta * r, 2 * beta;
    var j := ModEqWitness(ct.b - ct.t, q * m - e, mod);
    var eb := RoundedError(ct.b, mod', mod);
    var et := RoundedError(ct.t, mod', mod);
    var B, T := Rounded(ct.b, mod', mod), Rounded(ct.t, mod', mod);
    e' := B - (T + drift) - w * m - mod' * j;
    hide Rounded;
    SwitchError(q, r, w, m, e, drift, j, ct.b, ct.t, B, T, eb, et, e');
    SwitchResidue(B, T + drift, mod', w * m + e', j);
  }

  lemma {:induction false} SwitchResidue(B: int, T: int, M: int, v: int, j: int)
    requires M > 0 && B - T == v + M * j
    ensures PhaseIs(Sample(Residue(B, M), Residue(T, M), M), v)
  {
    ModOfMod(B, M);
    ModOfMod(T, M);
    ModAddCong(B % M, B, T % M, T, M);
    ModShift(B - T, v, M, j);
  }

  lemma {:induction false} SwitchError(q: int, r: int, w: int, m: int, e: int, drift: int, j: int, b: int, t: int, B: int, T: int, eb: int, et: int, e': int)
    requires q > 0 && r > 0 && w > 0 && b - t == q * m - e + q * r * j
    requires 2 * (q * r) * B == 2 * (w * r) * b + eb && 2 * (q * r) * T == 2 * (w * r) * t + et && Abs(eb) <= q * r && Abs(et) <= q * r
    requires e' == B - (T + drift) - w * m - w * r * j
    ensures q * Abs(e') <= w * Abs(e) + q * (1 + Abs(drift))
  {
    SwitchIdentity(q, r, w, m, e, drift, j, b, t, B, T, eb, et, e');
    var lhs, rhs := q * e', -(w * e) - q * drift;
    assert 2 * r * lhs == 2 * r * rhs + (eb - et);
    DivideError(r, q, lhs, rhs, eb - et);
    AbsMul(q, e');
    AbsMul(w, e);
    AbsMul(q, drift);
    Distribute(q, 1, Abs(drift));
  }

  lemma {:induction false} SwitchIdentity(q: int, r: int, w: int, m: int, e: int, drift: int, j: int, b: int, t: int, B: int, T: int, eb: int, et: int, e': int)
    requires b - t == q * m - e + q * r * j
    requires 2 * (q * r) * B == 2 * (w * r) * b + eb && 2 * (q * r) * T == 2 * (w * r) * t + et
    requires e' == B - (T + drift) - w * m - w * r * j
    ensures 2 * r * (q * e') == 2 * r * (-(w * e) - q * drift) + (eb - et)
  {
    var u, v := q * r, w * r;
    assert 2 * u * (B - T) == 2 * v * (b - t) + (eb - et) by { Distribute(2 * u, B, T); Distribute(2 * v, b, t); }
    assert 2 * v * (b - t) == 2 * v * (q * m) - 2 * v * e + 2 * v * (u * j) by { Distribute(2 * v, q * m - e, u * j); Distribute(2 * v, q * m, e); }
    assert 2 * u * e' == 2 * u * (B - T) - 2 * u * drift - 2 * u * (w * m) - 2 * u * (v * j) by {
      Distribute(2 * u, B - T - drift - w * m, v * j);
      Distribute(2 * u, B - T - drift, w * m);
      Distribute(2 * u, B - T, drift);
    }
    assert 2 * u * (w * m) == 2 * v * (q * m) by { Swap(q, r, w, m); }
    assert 2 * u * (v * j) == 2 * v * (u * j) by { Arithmetic.Regroup(2 * u, v, j); Arithmetic.Regroup(2 * v, u, j); assert u * v == v * u; Arithmetic.Regroup(2, u, v); Arithmetic.Regroup(2, v, u); }
    assert 2 * r * (q * e') == 2 * u * e' by { Arithmetic.Regroup(2 * r, q, e'); Arithmetic.Regroup(2, r, q); assert r * q == u; }
    assert 2 * r * (-(w * e) - q * drift) == -(2 * v * e) - 2 * u * drift by {
      Distribute(2 * r, -(w * e), q * drift);
      Arithmetic.Regroup(2 * r, w, e);
      Arithmetic.Regroup(2 * r, q, drift);
      Arithmetic.Regroup(2, r, w);
      Arithmetic.Regroup(2, r, q);
      assert 2 * r * -(w * e) == -(2 * r * (w * e));
    }
  }

  lemma {:induction false} Swap(q: int, r: int, w: int, m: int)
    ensures 2 * (q * r) * (w * m) == 2 * (w * r) * (q * m)
  {
    assert (q * r) * (w * m) == (w * r) * (q * m);
  }

  lemma {:induction false} DivideError(r: int, q: int, lhs: int, rhs: int, d: int)
    requires r > 0 && q > 0 && 2 * r * lhs == 2 * r * rhs + d && Abs(d) <= 2 * (q * r)
    ensures Abs(lhs) <= Abs(rhs) + q
  {
    var x := lhs - rhs;
    Distribute(2 * r, lhs, rhs);
    Arithmetic.Regroup(2, r, q);
    Distribute(2 * r, q, 1);
    Distribute(2 * r, -q, 1);
    assert 2 * r * -q == -(2 * r * q);
    if x > q {
      MulMono(q + 1, x, 2 * r);
    } else if x < -q {
      MulMono(x, -q - 1, 2 * r);
    }
  }
}
