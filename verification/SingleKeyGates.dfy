/** Gates on single-key LWE ciphertexts, end to end. */
module SingleKeyGates {
  import opened NegacyclicRing
  import opened RingModulus
  import opened Arithmetic
  import opened Gadget
  import opened RingVectors
  import opened KeyAlgebra
  import opened RingGsw
  import opened DmAccumulator
  import opened MkLwe
  import opened FunctionalBootstrap
  import opened SwitchChain
  import opened SingleKey
  import opened GateTables
  import LargePrecision

  //////// The test polynomial ////////

  /** BootstrapGateCore's sparse polynomial: Q - h or h at X^(j·2N/q), as the two orders of the end points
      require; `signed` is the same with -h for Q - h. */
  method GatePolynomial(N: nat, Q: int, q: nat, q1: int, h: int, b: int) returns (m: Poly, ghost signed: Poly)
    requires N > 0 && 0 < h < Q && q > 0 && q % 2 == 0 && (2 * N) % q == 0 && 0 <= q1 < q
    ensures |m| == |signed| == N && m == Reduce(Q, signed)
    ensures IsFuncPolynomial(signed, 1, ArcSign(q, q1, h), b, q, 2 * N / q)
  {
    var qHalf := q / 2;
    var q2 := Residue(q1 + qHalf, q);
    ghost var f := ArcSign(q, q1, h);
    var factor := 2 * N / q;
    ExactFactor(N, q, factor);
    assert (q * factor) == 2 * N;
    m := Zero(N);
    signed := Zero(N);
    ReducedZero(Q, N);
    for j := 0 to qHalf
      invariant |m| == |signed| == N && m == Reduce(Q, signed)
      invariant forall i :: 0 <= i < j ==> 0 <= i * factor < N && signed[i * factor] == f(Residue(b - i, q))
    {
      SlotRange(N, q, factor, j);
      forall i | 0 <= i < j ensures i * factor < j * factor { MulMono(i + 1, j, factor); Distribute(factor, i, 1); }
      var temp := Residue(b - j, q);
      var value;
      if q1 < q2 {
        value := if temp >= q1 && temp < q2 then Q - h else h;
      } else {
        value := if temp >= q2 && temp < q1 then h else Q - h;
      }
      SignedValue(Q, h);
      ghost var old_signed := signed;
      signed := signed[j * factor := f(temp)];
      ReducedUpdate(Q, old_signed, j * factor, f(temp), value);
      m := m[j * factor := value];
    }
    forall j | 0 <= j < q / 2 ensures 0 <= j * factor < N { SlotRange(N, q, factor, j); }
  }

  lemma {:induction false} ReducedZero(Q: int, n: nat)
    requires Q > 0
    ensures Reduce(Q, Zero(n)) == Zero(n)
  {
    DivModUnique(0, Q, 0, 0);
  }

  lemma {:induction false} SignedValue(Q: int, h: int)
    requires 0 < h < Q
    ensures Residue(h, Q) == h && Residue(-h, Q) == Q - h
  {
    DivModUnique(h, Q, 0, h);
    DivModUnique(-h, Q, -1, Q - h);
  }

  lemma {:induction false} ReducedUpdate(Q: int, s: Poly, i: nat, x: int, y: int)
    requires Q > 0 && i < |s| && y == Residue(x, Q)
    ensures Reduce(Q, s[i := x]) == Reduce(Q, s)[i := y]
  {
  }

  //////// From the prepared ciphertext to the output ////////

  /** Slack of the integer divisions and noise of the refresh fit in E. */
  ghost predicate GateRoom(g: EvalKeys, y: EvalSecrets, q: nat, E: nat)
    requires g.p.Valid() && q > 0 && g.q1 > 0
  {
    2 * Times(g.q1, 2 * q + g.p.Q) + DownNoise(g, y, q) <= 2 * Times(Times(g.p.Q, g.q1), E)
  }

  lemma {:induction false} GateError(Q: nat, q1: nat, q: nat, p: nat, h: int, m: int, w: int, noise: int, bound: nat, E: nat)
    requires Q > 0 && q1 > 0 && q > 0 && p > 0 && h == Q / (2 * p) + 1 && 0 <= m <= 1
    requires 2 * (Q * q1) * w == 2 * (q1 * q) * (2 * m * h) + noise && Abs(noise) <= bound
    requires 2 * Times(q1, 2 * q + Q) + bound <= 2 * Times(Times(Q, q1), E)
    ensures Abs(w - m * (q / p)) <= E
  {
    var d, u := q / p, m * (q / p);
    var gap := if m == 0 then 0 else 2 * (q * h) - Q * d;
    assert 2 * (q1 * q) * (2 * m * h) == 2 * (Q * q1) * u + 2 * (q1 * gap) by { GapForm(Q, q1, q, h, m, d, gap); }
    GapRange(Q, q, p, h);
    GateErrorFrom(Q, q1, u, gap, 2 * q + Q, w, noise, bound, E);
  }

  lemma {:induction false} GateErrorFrom(Q: nat, q1: nat, u: int, gap: int, room: int, w: int, noise: int, bound: nat, E: nat)
    requires Q > 0 && q1 > 0 && 2 * (Q * q1) * w == 2 * (Q * q1) * u + 2 * (q1 * gap) + noise && Abs(noise) <= bound && 0 <= gap <= room
    requires 2 * (q1 * room) + bound <= 2 * Times(Times(Q, q1), E)
    ensures Abs(w - u) <= E
  {
    MulMono(gap, room, q1);
    MulNonNeg(q1, gap);
    Distribute(2 * (Q * q1), w, u);
    MulMono(1, Q, q1);
    Arithmetic.Regroup(2, Q * q1, E);
    DivideOut(Q * q1, w - u, 2 * (q1 * gap) + noise, E);
  }

  lemma {:induction false} GapRange(Q: nat, q: nat, p: nat, h: int)
    requires p > 0 && h == Q / (2 * p) + 1
    ensures 0 <= 2 * (q * h) - Q * (q / p) <= 2 * q + Q
  {
    var k, r, d, s := Q / (2 * p), Q % (2 * p), q / p, q % p;
    assert k >= 0 && d >= 0 by { QuotientSign(Q, 2 * p); QuotientSign(q, p); }
    DivMod(Q, 2 * p);
    DivMod(q, p);
    GapBound(Q, q, p, h, d, k, r, s);
  }

  lemma {:induction false} QuotientSign(x: nat, m: nat)
    requires m > 0
    ensures x / m >= 0
  {
  }

  lemma {:induction false} GapForm(Q: int, q1: int, q: int, h: int, m: int, d: int, gap: int)
    requires 0 <= m <= 1 && gap == if m == 0 then 0 else 2 * (q * h) - Q * d
    ensures 2 * (q1 * q) * (2 * m * h) == 2 * (Q * q1) * (m * d) + 2 * (q1 * gap)
  {
    if m == 1 {
      assert q1 * gap == q1 * (2 * (q * h)) - q1 * (Q * d);
      assert 2 * (q1 * q) * (2 * h) == 2 * (q1 * (2 * (q * h)));
      assert 2 * (Q * q1) * d == 2 * (q1 * (Q * d));
    } else {
      assert m * d == 0 && 2 * m * h == 0;
    }
  }

  lemma {:induction false} GapBound(Q: nat, q: nat, p: nat, h: int, d: nat, k: nat, r: nat, s: nat)
    requires p > 0 && Q == r + 2 * p * k && r < 2 * p && q == s + p * d && s < p && h == k + 1
    ensures 0 <= 2 * (q * h) - Q * d <= 2 * q + Q
  {
    GapSplit(Q, q, p, h, d, k, r, s);
    MulNonNeg(s, k);
    MulNonNeg(r, d);
    MulMono(r, 2 * p, d);
    Arithmetic.Regroup(2, p, d);
    MulMono(s, p, k);
    Arithmetic.Regroup(2, p, k);
    GapLinear(2 * (q * h) - Q * d, s * k, r * d, p * k, p * d, q, Q, r, s);
  }

  lemma {:induction false} GapLinear(x: int, sk: int, rd: int, pk: int, pd: int, q: int, Q: int, r: int, s: int)
    requires x == 2 * sk + 2 * q - rd && 0 <= sk <= pk && 0 <= rd <= 2 * pd && Q == r + 2 * pk && q == s + pd && r >= 0 && s >= 0
    ensures 0 <= x <= 2 * q + Q
  {
  }

  lemma {:induction false} GapSplit(Q: int, q: int, p: int, h: int, d: int, k: int, r: int, s: int)
    requires Q == r + 2 * p * k && q == s + p * d && h == k + 1
    ensures 2 * (q * h) - Q * d == 2 * (s * k) + 2 * q - r * d
  {
    Distribute(d, r, 2 * p * k);
    assert (2 * p * k) * d == 2 * (p * d * k);
    Distribute(q, k, 1);
    Distribute(k, s, p * d);
  }

  /** The prepared ciphertext of a gate becomes an encoding of the gate's value. */
  method EvalPrepared(g: EvalKeys, gate: Gate, p: int, q: nat, a: seq<int>, b: int, ghost y: EvalSecrets, ghost bits: seq<bool>, ghost e: int, ghost E: nat)
    returns (a': seq<int>, b': int, ghost err: int)
    requires Matching(g, y) && g.p.Valid() && q > 0 && q % 2 == 0 && (2 * g.p.N) % q == 0 && |a| == |y.x.s| && (forall i :: 0 <= i < |a| ==> 0 <= a[i] < q)
    requires p == if gate.AND3? || gate.OR3? then 6 else if gate.AND4? || gate.OR4? then 8 else 4
    requires g.q1 > 0 && GateRoom(g, y, q, E) && |bits| == Inputs(gate) && WithinMargin(p, q, e)
    requires PhaseIs(Sample(b, Inner(a, y.x.s, |a|), q), Combined(gate, bits) * (q / p) + e)
    ensures |a'| == |y.x.s| && 0 <= b' < q && (forall i :: 0 <= i < |a'| ==> 0 <= a'[i] < q) && Abs(err) <= E
    ensures PhaseIs(Sample(b', Inner(a', y.x.s, |a'|), q), (if Truth(gate, bits) then q / p else 0) + err)
  {
    hide Matching, Mono, RingGsw.Phase, Residue, Inner, IsFuncPolynomial, DownNoise, RotationNoise, Truth, Combined, GateConstant, InArc, ArcSign, Cong;
    var Q, N := g.p.Q, g.p.N;
    var h := Q / (2 * p) + 1;
    ConstantRange(gate, q);
    HeightRange(Q, p, h);
    var m, signed := GatePolynomial(N, Q, q, GateConstant(gate, q), h, b);
    ghost var r := 2 * N / q;
    ghost var ct := Sample(b, Inner(a, y.x.s, |a|), q);
    ExactFactor(N, q, r);
    var acc, e0 := Rotate(g, q, a, m, y, r);
    GateEvaluates(gate, p, signed, h, ct, r, bits, e);
    ghost var t := if Truth(gate, bits) then 1 else 0;
    TestResidue(Q, m, signed, -(r * Inner(a, y.x.s, |a|)), e0, h, RingGsw.Phase(y.x.z, acc.c0, acc.c1)[0], t);
    ghost var w, noise;
    a', b', w, noise := SwitchDown(g, acc, h, q, y, 2 * t * h, e0);
    GateError(Q, g.q1, q, p, h, t, w, noise, DownNoise(g, y, q), E);
    err := w - t * (q / p);
    SameSample(b', Inner(a', y.x.s, |a'|), q, t * (q / p), err);
    assert t * (q / p) == if t == 1 then q / p else 0;
  }

  lemma {:induction false} HeightRange(Q: nat, p: nat, h: int)
    requires Q > 1 && 4 <= p <= 8 && h == Q / (2 * p) + 1
    ensures 0 < h < Q
  {
    DivMod(Q, 2 * p);
    var k := Q / (2 * p);
    MulMono(8, 2 * p, k);
  }

  /** h plus the rotated coefficient is 2h or 0, up to noise. */
  lemma {:induction false} TestResidue(Q: int, m: Poly, signed: Poly, e: int, e0: int, h: int, x: int, t: int)
    requires Q > 0 && |m| == |signed| > 0 && m == Reduce(Q, signed) && 0 <= t <= 1 && Mono(e, signed)[0] == if t == 1 then h else -h
    requires Residue(x, Q) == Residue(Mono(e, m)[0] + e0, Q)
    ensures Residue(x + h, Q) == Residue(2 * t * h + e0, Q)
  {
    hide Mono, Cong, Reduce, Residue;
    ReduceCong(Q, signed);
    CongMono(Q, e, m, signed);
    CongCoefficient(Q, Mono(e, m), Mono(e, signed), 0);
    var u, v := Mono(e, m)[0], Mono(e, signed)[0];
    assert 2 * t * h == v + h;
    ShiftedResidue(Q, u, v, e0, h, x);
  }

  lemma {:induction false} ShiftedResidue(Q: int, u: int, v: int, e: int, h: int, x: int)
    requires Q > 0 && u % Q == v % Q && Residue(x, Q) == Residue(u + e, Q)
    ensures Residue(x + h, Q) == Residue(v + h + e, Q)
  {
    ModAddCong(u, v, e, e, Q);
    ModAddCong(x, v + e, h, h, Q);
  }

  //////// Preparing the inputs ////////

  class LweCiphertext {
    var a: seq<int>
    var b: int
    const q: int
    const p: int

    constructor (a: seq<int>, b: int, q: int, p: int)
      ensures this.a == a && this.b == b && this.q == q && this.p == p
    {
      this.a := a;
      this.b := b;
      this.q := q;
      this.p := p;
    }
  }

  ghost predicate Reduced(q: nat, n: nat, a: seq<int>) {
    q > 0 && |a| == n && forall i :: 0 <= i < n ==> 0 <= a[i] < q
  }

  /** ct encodes the bit as bit·floor(q/p), p being its plaintext modulus, with noise at most E. */
  ghost predicate CarriesBit(ct: LweCiphertext, s: seq<int>, q: nat, p: int, bit: bool, E: nat)
    reads ct
  {
    ct.q == q && ct.p == p > 0 && Reduced(q, |s|, ct.a) && exists e: int :: Abs(e) <= E && PhaseIs(Sample(ct.b, Inner(ct.a, s, |s|), q), Weight(bit) * (q / p) + e)
  }

  /** x + y or x - y modulo q. */
  method CombineVectors(q: nat, plus: bool, x: seq<int>, bx: int, y: seq<int>, cy: int, ghost s: seq<int>, ghost v: int, ghost u: int) returns (a: seq<int>, b: int)
    requires Reduced(q, |s|, x) && Reduced(q, |s|, y) && PhaseIs(Sample(bx, Inner(x, s, |s|), q), v) && PhaseIs(Sample(cy, Inner(y, s, |s|), q), u)
    ensures Reduced(q, |s|, a) && |a| == |s| && PhaseIs(Sample(b, Inner(a, s, |s|), q), v + Signed(plus, u))
  {
    hide Inner, Residue, Signed;
    a := [];
    for i := 0 to |x|
      invariant |a| == i && forall j :: 0 <= j < i ==> a[j] == Residue(x[j] + Signed(plus, y[j]), q)
    {
      a := a + [Residue(x[i] + Signed(plus, y[i]), q)];
    }
    b := Residue(bx + Signed(plus, cy), q);
    CombineRow(q, plus, x, y, a, s);
    CombinedPhase(q, plus, bx, Inner(x, s, |s|), cy, Inner(y, s, |s|), Inner(a, s, |s|), v, u, b);
  }

  lemma {:induction false} CombinedPhase(q: int, plus: bool, bx: int, tx: int, cy: int, ty: int, t: int, v: int, u: int, b: int)
    requires q > 0 && Residue(t, q) == Residue(tx + Signed(plus, ty), q) && Residue(bx - tx, q) == Residue(v, q) && Residue(cy - ty, q) == Residue(u, q)
    requires b == Residue(bx + Signed(plus, cy), q)
    ensures Residue(b - t, q) == Residue(v + Signed(plus, u), q)
  {
    ModOfMod(bx + Signed(plus, cy), q);
    ModAddCong(b, bx + Signed(plus, cy), t, tx + Signed(plus, ty), q);
    ModAddCong(bx - tx, v, cy - ty, u, q);
  }

  lemma {:induction false} OnesNext(bits: seq<bool>, i: nat)
    requires i < |bits|
    ensures Ones(bits[..i + 1]) == Ones(bits[..i]) + Weight(bits[i])
    decreases i
  {
    if i == 0 {
      assert bits[..1] == [bits[0]] && bits[..0] == [];
      assert [bits[0]][1..] == [];
    } else {
      OnesNext(bits[1..], i - 1);
      assert bits[..i + 1][1..] == bits[1..][..i] && bits[..i][1..] == bits[1..][..i - 1];
    }
  }

  lemma {:induction false} OnesAll(bits: seq<bool>)
    ensures Ones(bits[..|bits|]) == Ones(bits)
  {
    assert bits[..|bits|] == bits;
  }

  lemma {:induction false} BitNoise(ct: LweCiphertext, s: seq<int>, q: nat, p: int, bit: bool, E: nat) returns (e: int)
    requires CarriesBit(ct, s, q, p, bit, E)
    ensures Reduced(q, |s|, ct.a) && |ct.a| == |s| && p > 0 && Abs(e) <= E && PhaseIs(Sample(ct.b, Inner(ct.a, s, |s|), q), Weight(bit) * (q / p) + e)
  {
    hide Inner, PhaseIs;
    var x: int :| Abs(x) <= E && PhaseIs(Sample(ct.b, Inner(ct.a, s, |s|), q), Weight(bit) * (q / p) + x);
    e := x;
  }

  /** Twice the difference, for the fast XORs. */
  method DoubleDifference(q: nat, p: int, ct1: LweCiphertext, ct2: LweCiphertext, ghost s: seq<int>, ghost b1: bool, ghost b2: bool, ghost E: nat) returns (a: seq<int>, b: int, ghost e: int)
    requires CarriesBit(ct1, s, q, p, b1, E) && CarriesBit(ct2, s, q, p, b2, E)
    ensures Reduced(q, |s|, a) && |a| == |s| && p > 0 && Abs(e) <= 4 * E && PhaseIs(Sample(b, Inner(a, s, |s|), q), 2 * (Weight(b1) - Weight(b2)) * (q / p) + e)
  {
    hide Inner, PhaseIs, CarriesBit, Signed;
    ghost var e1 := BitNoise(ct1, s, q, p, b1, E);
    ghost var e2 := BitNoise(ct2, s, q, p, b2, E);
    ghost var u := q / p;
    ghost var v, v2 := Weight(b1) * u + e1, Weight(b2) * u + e2;
    a, b := CombineVectors(q, false, ct1.a, ct1.b, ct2.a, ct2.b, s, v, v2);
    a, b := CombineVectors(q, true, a, b, a, b, s, v + Signed(false, v2), v + Signed(false, v2));
    e := 2 * (e1 - e2);
    TwiceDifference(Weight(b1), Weight(b2), u, e1, e2);
  }

  /** The sum of all inputs. */
  method SumInputs(q: nat, p: int, cts: seq<LweCiphertext>, ghost s: seq<int>, ghost bits: seq<bool>, ghost E: nat) returns (a: seq<int>, b: int, ghost e: int)
    requires |cts| == |bits| && 0 < |cts| <= 4 && forall i :: 0 <= i < |cts| ==> CarriesBit(cts[i], s, q, p, bits[i], E)
    ensures Reduced(q, |s|, a) && |a| == |s| && p > 0 && Abs(e) <= 4 * E && PhaseIs(Sample(b, Inner(a, s, |s|), q), Ones(bits) * (q / p) + e)
  {
    hide Inner, PhaseIs, CarriesBit, Ones, Weight, Times, Signed, Reduced;
    a, b := cts[0].a, cts[0].b;
    e := BitNoise(cts[0], s, q, p, bits[0], E);
    ghost var u := q / p;
    NoOnes(bits);
    OnesNext(bits, 0);
    for i := 1 to |cts|
      invariant Reduced(q, |s|, a) && |a| == |s| && Abs(e) <= Times(i, E) && PhaseIs(Sample(b, Inner(a, s, |s|), q), Ones(bits[..i]) * u + e)
    {
      ghost var e1 := BitNoise(cts[i], s, q, p, bits[i], E);
      a, b := CombineVectors(q, true, a, b, cts[i].a, cts[i].b, s, Ones(bits[..i]) * u + e, Weight(bits[i]) * u + e1);
      OnesNext(bits, i);
      SumStep(Ones(bits[..i]), Weight(bits[i]), u, e, e1, i, E);
      e := e + e1;
    }
    OnesAll(bits);
    MulMono(|cts|, 4, E);
  }

  lemma {:induction false} SumStep(o: int, w: int, u: int, e: int, e1: int, i: nat, E: nat)
    requires Abs(e) <= Times(i, E) && Abs(e1) <= E
    ensures (o + w) * u + (e + e1) == o * u + e + Signed(true, w * u + e1) && Abs(e + e1) <= Times(i + 1, E)
  {
    assert (o + w) * u == o * u + w * u by { Distribute(u, o, w); }
    TimesStep(i + 1, E);
    hide Times;
  }

  lemma {:induction false} NoOnes(bits: seq<bool>)
    ensures Ones(bits[..0]) == 0
  {
  }

  /** The sum of the inputs, or twice their difference for the fast XORs. */
  method PrepareInputs(gate: Gate, p: int, q: nat, cts: seq<LweCiphertext>, ghost s: seq<int>, ghost bits: seq<bool>, ghost E: nat) returns (a: seq<int>, b: int, ghost e: int)
    requires |cts| == |bits| == Inputs(gate) && forall i :: 0 <= i < |cts| ==> CarriesBit(cts[i], s, q, p, bits[i], E)
    ensures Reduced(q, |s|, a) && |a| == |s| && p > 0 && Abs(e) <= 4 * E && PhaseIs(Sample(b, Inner(a, s, |s|), q), Combined(gate, bits) * (q / p) + e)
  {
    hide Inner, PhaseIs, CarriesBit, Ones, Weight, Reduced;
    if gate.XOR_FAST? || gate.XNOR_FAST? {
      a, b, e := DoubleDifference(q, p, cts[0], cts[1], s, bits[0], bits[1], E);
    } else {
      a, b, e := SumInputs(q, p, cts, s, bits, E);
    }
  }

  lemma {:induction false} TwiceDifference(x: int, y: int, u: int, e: int, f: int)
    ensures (x * u + e + Signed(false, y * u + f)) + Signed(true, x * u + e + Signed(false, y * u + f)) == 2 * (x - y) * u + 2 * (e - f)
  {
    Distribute(u, x, y);
    Arithmetic.Regroup(2, x - y, u);
  }

  //////// The gates ////////

  datatype GateOutput = Refused | Output(a: seq<int>, b: int)

  predicate Repeated(cts: seq<LweCiphertext>) {
    exists i, j :: 0 <= i < j < |cts| && cts[i] == cts[j]
  }

  method HasRepeat(cts: seq<LweCiphertext>) returns (r: bool)
    ensures r <==> Repeated(cts)
  {
    for i := 0 to |cts|
      invariant forall k, l :: 0 <= k < i && k < l < |cts| ==> cts[k] != cts[l]
    {
      for j := i + 1 to |cts|
        invariant forall l :: i < l < j ==> cts[i] != cts[l]
      {
        if cts[j] == cts[i] {
          return true;
        }
      }
    }
    return false;
  }

  /** EvalBinGate for all eleven gates: inputs carrying bits with noise Ein give an output carrying
      the gate's value with noise E; the same object given twice is refused. */
  method EvalGate(g: EvalKeys, gate: Gate, q: nat, cts: seq<LweCiphertext>, ghost y: EvalSecrets, ghost bits: seq<bool>, ghost Ein: nat, ghost E: nat) returns (r: GateOutput, ghost err: int)
    requires Matching(g, y) && g.p.Valid() && q > 0 && q % 2 == 0 && (2 * g.p.N) % q == 0 && g.q1 > 0 && GateRoom(g, y, q, E)
    requires |cts| == |bits| == Inputs(gate) && cts[0].p == if gate.AND3? || gate.OR3? then 6 else if gate.AND4? || gate.OR4? then 8 else 4
    requires 4 * Ein + (if q % (2 * cts[0].p) == 0 then 1 else 48) <= q / (2 * cts[0].p) && forall i :: 0 <= i < |cts| ==> CarriesBit(cts[i], y.x.s, q, cts[0].p, bits[i], Ein)
    ensures r.Refused? <==> Repeated(cts)
    ensures r.Output? ==> Reduced(q, |y.x.s|, r.a) && 0 <= r.b < q && Abs(err) <= E
    ensures r.Output? ==> PhaseIs(Sample(r.b, Inner(r.a, y.x.s, |y.x.s|), q), (if Truth(gate, bits) then q / cts[0].p else 0) + err)
  {
    hide Matching, GateRoom, PhaseIs, Inner, Truth, Combined, CarriesBit, Repeated;
    err := 0;
    var repeated := HasRepeat(cts);
    if repeated {
      return Refused, 0;
    }
    var p := cts[0].p;
    var a, b, e := PrepareInputs(gate, p, q, cts, y.x.s, bits, Ein);
    var a', b';
    a', b', err := EvalPrepared(g, gate, p, q, a, b, y, bits, e, E);
    return Output(a', b'), err;
  }
}
