/** Arbitrary functions, flooring, sign and digit decomposition built from functional bootstraps. */
module LargePrecision {
  import opened Arithmetic
  import opened FunctionalBootstrap

  //////// The functions that are bootstrapped ////////

  /** -q/4 on the first half, q/4 on the second. */
  function QuarterSign(q: int, Q: int): int -> int {
    x => if x < q / 2 then Q - q / 4 else q / 4
  }

  /** The table on the first half, its negation on the second. */
  function HalfTable(lut: seq<int>, q: int, Q: int): int -> int {
    x => if 0 <= x < q / 2 && x < |lut| then lut[x]
         else if 0 <= x - q / 2 < |lut| then Q - lut[x - q / 2] else 0
  }

  function WholeTable(lut: seq<int>): int -> int {
    x => if 0 <= x < |lut| then lut[x] else 0
  }

  /** Identity on the middle half, reflected outside. */
  function Middle(q: int, Q: int): int -> int {
    x => if x < q / 4 then Q - q / 2 - x else if x < 3 * (q / 4) then x else Q + q / 2 - x
  }

  lemma {:induction false} QuarterSignNegacyclic(q: int, Q: int)
    requires q > 0 && q % 4 == 0 && Q > 0
    ensures Negacyclic(QuarterSign(q, Q), q, Q)
  {
    OneModulus(Q);
  }

  lemma {:induction false} OneModulus(Q: int)
    requires Q > 0
    ensures Residue(Q, Q) == 0 && Residue(0, Q) == 0
  {
    DivModUnique(Q, Q, 1, 0);
    DivModUnique(0, Q, 0, 0);
  }

  lemma {:induction false} HalfTableNegacyclic(lut: seq<int>, q: int, Q: int)
    requires q > 0 && q % 2 == 0 && Q > 0 && |lut| >= q / 2
    ensures Negacyclic(HalfTable(lut, q, Q), q, Q)
  {
    OneModulus(Q);
  }

  lemma {:induction false} MiddleNegacyclic(q: int, Q: int)
    requires q > 0 && q % 4 == 0 && Q > 0
    ensures Negacyclic(Middle(q, Q), q, Q)
  {
    OneModulus(Q);
  }

  //////// Classification of tables ////////

  ghost predicate NegacyclicTable(lut: seq<int>, mod: int)
    requires |lut| > 0
  {
    lut[0] == mod - lut[|lut| / 2] && forall i :: 0 < i < |lut| / 2 ==> lut[i] == mod - lut[|lut| / 2 + i]
  }

  ghost predicate PeriodicTable(lut: seq<int>)
    requires |lut| > 0
  {
    lut[0] == lut[|lut| / 2] && forall i :: 0 < i < |lut| / 2 ==> lut[i] == lut[|lut| / 2 + i]
  }

  /** 0 for negacyclic, 1 for periodic, 2 otherwise. A periodic table that starts like a
      negacyclic one is classified as arbitrary. */
  method CheckInputFunction(lut: seq<int>, mod: int) returns (r: nat)
    requires |lut| > 0
    ensures r <= 2 && (r == 0 <==> NegacyclicTable(lut, mod))
    ensures r == 1 <==> PeriodicTable(lut) && lut[0] != mod - lut[|lut| / 2]
  {
    var mid := |lut| / 2;
    if lut[0] == mod - lut[mid] {
      var i := 1;
      while i < mid
        invariant 1 <= i && (mid > 0 ==> i <= mid)
        invariant forall j :: 0 < j < i && j < mid ==> lut[j] == mod - lut[mid + j]
      {
        if lut[i] != mod - lut[mid + i] {
          return 2;
        }
        i := i + 1;
      }
      return 0;
    }
    if lut[0] == lut[mid] {
      var i := 1;
      while i < mid
        invariant 1 <= i && (mid > 0 ==> i <= mid)
        invariant forall j :: 0 < j < i && j < mid ==> lut[j] == lut[mid + j]
      {
        if lut[i] != lut[mid + i] {
          return 2;
        }
        i := i + 1;
      }
      return 1;
    }
    return 2;
  }

  /** A periodic table that is classified as arbitrary. */
  method PeriodicAsArbitrary() returns (lut: seq<int>, r: nat)
    ensures lut == [2, 1, 2, 1] && PeriodicTable(lut) && r == 2
  {
    lut := [2, 1, 2, 1];
    r := CheckInputFunction(lut, 4);
    assert lut[1] != 4 - lut[3];
  }

  //////// Folding the phase into the first half ////////

  /** Subtracting the bootstrap error e does not carry y out of its interval of length h. */
  predicate Clear(y: int, h: int, e: int)
    requires h > 0
  {
    0 <= Residue(y, h) - e < h
  }

  /** ct - (±M/4), shifted by beta - M/4: the first bootstrap of EvalFunc. */
  function Fold(ct: Sample, beta: int, mask: int, err: int): Sample
    requires ct.q > 0
  {
    var sign := Bootstrap(QuarterSign(ct.q, ct.q), AddConst(ct, beta), ct.q, mask, err);
    AddConst(AddConst(Minus(ct, sign), beta), -(ct.q / 4))
  }

  lemma {:induction false} FoldPhase(ct: Sample, beta: int, mask: int, err: int, x: int)
    requires PhaseIs(ct, x) && ct.q % 4 == 0 && Clear(x + beta, ct.q / 2, err)
    ensures PhaseIs(Fold(ct, beta, mask, err), Residue(x + beta, ct.q / 2) - err)
  {
    SampleModulus(ct, x);
    EvenFromFour(ct.q);
    hide PhaseIs, Bootstrap, AddConst, Minus, QuarterSign, Clear, Residue;
    var M, h, Y := ct.q, ct.q / 2, x + beta;
    var y, k := ModForm(Y, M);
    var v := FoldSign(ct, beta, mask, err, x, y, k);
    var s := Bootstrap(QuarterSign(M, M), AddConst(ct, beta), M, mask, err);
    MinusPhase(ct, s, x, v + err);
    MinusModulus(ct, s);
    var c := Minus(ct, s);
    AddConstPhase(c, beta, x - (v + err));
    AddConstModulus(c, beta);
    var d := AddConst(c, beta);
    AddConstPhase(d, -(M / 4), x - (v + err) + beta);
    AddConstModulus(d, -(M / 4));
    HalfResidue(Y, M, y, k);
    FoldedValue(M, y, k, v, err, Y, Residue(Y, h));
    SamePhase(Fold(ct, beta, mask, err), x - (v + err) + beta - M / 4, Residue(Y, h) - err, if y < h then k - 1 else k);
  }

  /** The first bootstrap of Fold. */
  lemma {:induction false} FoldSign(ct: Sample, beta: int, mask: int, err: int, x: int, y: int, k: int) returns (v: int)
    requires PhaseIs(ct, x) && ct.q > 0 && ct.q % 4 == 0 && x + beta == y + ct.q * k && 0 <= y < ct.q
    ensures v == if y < ct.q / 2 then ct.q - ct.q / 4 else ct.q / 4
    ensures var s := Bootstrap(QuarterSign(ct.q, ct.q), AddConst(ct, beta), ct.q, mask, err); s.q == ct.q && PhaseIs(s, v + err)
  {
    var M, f := ct.q, QuarterSign(ct.q, ct.q);
    v := f(y);
    QuarterSignNegacyclic(M, M);
    hide PhaseIs, Bootstrap, AddConst, QuarterSign, Negacyclic;
    var c := AddConst(ct, beta);
    AddConstModulus(ct, beta);
    AddConstPhase(ct, beta, x);
    SamePhase(c, x + beta, y, k);
    EvenFromFour(M);
    BootstrapPhase(f, c, M, mask, err, y);
    BootstrapModulus(f, c, M, mask, err);
  }

  lemma {:induction false} EvenFromFour(M: int)
    requires M % 4 == 0
    ensures M % 2 == 0
  {
    var c := M / 4;
    assert M == 4 * c;
    DivModUnique(M, 2, 2 * c, 0);
  }

  lemma {:induction false} FoldedValue(M: int, y: int, k: int, v: int, err: int, Y: int, r: int)
    requires M > 0 && M % 4 == 0 && Y == y + M * k
    requires v == (if y < M / 2 then M - M / 4 else M / 4) && r == if y < M / 2 then y else y - M / 2
    ensures Y - (v + err) - M / 4 == r - err + M * (if y < M / 2 then k - 1 else k)
  {
    Distribute(M, k, 1);
  }

  lemma {:induction false} ModForm(Y: int, M: int) returns (y: int, k: int)
    requires M > 0
    ensures y == Residue(Y, M) && Y == y + M * k && 0 <= y < M
  {
    y, k := Y % M, Y / M;
    DivMod(Y, M);
  }

  /** Y mod M/2 from Y mod M. */
  lemma {:induction false} HalfResidue(Y: int, M: int, y: int, k: int)
    requires M > 0 && M % 2 == 0 && Y == y + M * k && 0 <= y < M
    ensures Residue(Y, M / 2) == if y < M / 2 then y else y - M / 2
  {
    var h := M / 2;
    Arithmetic.Regroup(2, h, k);
    if y < h {
      DivModUnique(Y, h, 2 * k, y);
    } else {
      Distribute(h, 2 * k, 1);
      DivModUnique(Y, h, 2 * k + 1, y - h);
    }
  }

  lemma {:induction false} SamePhase(ct: Sample, v: int, w: int, k: int)
    requires PhaseIs(ct, v) && v == w + ct.q * k
    ensures PhaseIs(ct, w)
  {
    PhaseShift(ct, v, w, k);
  }

  lemma {:induction false} SampleModulus(ct: Sample, v: int)
    requires PhaseIs(ct, v)
    ensures ct.q > 0
  {
  }

  lemma {:induction false} AddConstModulus(ct: Sample, c: int)
    requires ct.q > 0
    ensures AddConst(ct, c).q == ct.q
  {
  }

  lemma {:induction false} MinusModulus(x: Sample, y: Sample)
    requires x.q > 0
    ensures Minus(x, y).q == x.q
  {
  }

  lemma {:induction false} BootstrapModulus(f: int -> int, ct: Sample, fmod: int, mask: int, err: int)
    requires ct.q > 0 && fmod > 0
    ensures Bootstrap(f, ct, fmod, mask, err).q == fmod
  {
  }

  //////// EvalFunc ////////

  /** The new inner product and the error of one bootstrap. */
  datatype BootstrapNoise = BootstrapNoise(mask: int, err: int)

  datatype FuncResult = NotImplemented | Value(ct: Sample)

  /** The second bootstrap reads the table at the folded phase. */
  lemma {:induction false} ReadTable(ct: Sample, lut: seq<int>, z: BootstrapNoise, w: int)
    requires PhaseIs(ct, w) && 0 <= w < ct.q / 2 && ct.q % 2 == 0 && |lut| >= ct.q / 2
    ensures PhaseIs(Bootstrap(HalfTable(lut, ct.q, ct.q), ct, ct.q, z.mask, z.err), lut[w] + z.err)
  {
    hide Bootstrap, Looked;
    HalfTableNegacyclic(lut, ct.q, ct.q);
    BootstrapPhase(HalfTable(lut, ct.q, ct.q), ct, ct.q, z.mask, z.err, w);
  }

  lemma {:induction false} TableNegacyclic(lut: seq<int>, q: int)
    requires |lut| == q > 0 && q % 2 == 0 && NegacyclicTable(lut, q)
    ensures Negacyclic(WholeTable(lut), q, q)
  {
    OneModulus(q);
    var f := WholeTable(lut);
    forall x | 0 <= x < q / 2 ensures Residue(f(x) + f(x + q / 2), q) == 0 {
      hide Residue;
      assert lut[x] == q - lut[q / 2 + x];
    }
  }

  lemma {:induction false} NegacyclicCase(ct: Sample, lut: seq<int>, beta: int, z: BootstrapNoise, x: int)
    requires PhaseIs(ct, x) && ct.q % 4 == 0 && |lut| == ct.q && NegacyclicTable(lut, ct.q)
    ensures PhaseIs(Bootstrap(WholeTable(lut), AddConst(ct, beta), ct.q, z.mask, z.err), lut[Residue(x + beta, ct.q)] + z.err)
  {
    var q := ct.q;
    SampleModulus(ct, x);
    hide PhaseIs, Bootstrap, Negacyclic, AddConst, NegacyclicTable;
    TableNegacyclic(lut, q);
    AddConstModulus(ct, beta);
    AddConstPhase(ct, beta, x);
    var y, k := ModForm(x + beta, q);
    SamePhase(AddConst(ct, beta), x + beta, y, k);
    BootstrapPhase(WholeTable(lut), AddConst(ct, beta), q, z.mask, z.err, y);
  }

  lemma {:induction false} FoldModulus(ct: Sample, beta: int, mask: int, err: int)
    requires ct.q > 0
    ensures Fold(ct, beta, mask, err).q == ct.q
  {
  }

  lemma {:induction false} PeriodicCase(ct: Sample, lut: seq<int>, beta: int, z1: BootstrapNoise, z2: BootstrapNoise, x: int)
    requires PhaseIs(ct, x) && ct.q % 4 == 0 && |lut| == ct.q && PeriodicTable(lut) && Clear(x + beta, ct.q / 2, z1.err)
    ensures PhaseIs(Bootstrap(HalfTable(lut, ct.q, ct.q), Fold(ct, beta, z1.mask, z1.err), ct.q, z2.mask, z2.err),
                    lut[Residue(x + beta - z1.err, ct.q)] + z2.err)
  {
    var q := ct.q;
    SampleModulus(ct, x);
    hide PhaseIs, Bootstrap, Fold, PeriodicTable, HalfTable, Residue;
    FoldPhase(ct, beta, z1.mask, z1.err, x);
    FoldModulus(ct, beta, z1.mask, z1.err);
    var h := HalfOf(q);
    var w := Residue(x + beta, h) - z1.err;
    var folded := Fold(ct, beta, z1.mask, z1.err);
    ReadTable(folded, lut, z2, w);
    PeriodicIndex(lut, x + beta, z1.err, w);
  }

  lemma {:induction false} HalfOf(q: int) returns (h: int)
    requires q > 0 && q % 4 == 0
    ensures h == q / 2 && q == 2 * h && q % 2 == 0 && h > 0
  {
    h := q / 2;
    EvenFromFour(q);
  }

  lemma {:induction false} PeriodicIndex(lut: seq<int>, Y: int, e: int, w: int)
    requires |lut| > 0 && |lut| % 2 == 0 && PeriodicTable(lut) && w == Residue(Y, |lut| / 2) - e && 0 <= w < |lut| / 2
    ensures lut[Residue(Y - e, |lut|)] == lut[w]
  {
    var M, h := |lut|, |lut| / 2;
    var y, k := ModForm(Y, M);
    HalfResidue(Y, M, y, k);
    if y < h {
      DivModUnique(Y - e, M, k, w);
    } else {
      DivModUnique(Y - e, M, k, w + h);
    }
  }

  /** Raising the modulus to 2q turns the unknown multiple of q into the half that Fold removes. */
  lemma {:induction false} ArbitraryCase(ct: Sample, lifted: Sample, lut: seq<int>, beta: int, z1: BootstrapNoise, z2: BootstrapNoise, x: int, u: int)
    requires PhaseIs(lifted, x + ct.q * u) && lifted.q == 2 * ct.q && ct.q % 4 == 0 && |lut| == ct.q > 0 && Clear(x + beta, ct.q, z1.err)
    ensures PhaseIs(SetModulus(Bootstrap(HalfTable(lut + lut, 2 * ct.q, 2 * ct.q), Fold(lifted, beta, z1.mask, z1.err), 2 * ct.q, z2.mask, z2.err), ct.q),
                    lut[Residue(x + beta - z1.err, ct.q)] + z2.err)
  {
    var q, M := ct.q, 2 * ct.q;
    hide PhaseIs, Bootstrap, Fold, SetModulus, HalfTable;
    EvenFromFour(q);
    ModShift(x + q * u + beta, x + beta, q, u);
    FoldPhase(lifted, beta, z1.mask, z1.err, x + q * u);
    FoldModulus(lifted, beta, z1.mask, z1.err);
    var w := Residue(x + beta, q) - z1.err;
    ReadTable(Fold(lifted, beta, z1.mask, z1.err), lut + lut, z2, w);
    var out := Bootstrap(HalfTable(lut + lut, M, M), Fold(lifted, beta, z1.mask, z1.err), M, z2.mask, z2.err);
    BootstrapModulus(HalfTable(lut + lut, M, M), Fold(lifted, beta, z1.mask, z1.err), M, z2.mask, z2.err);
    SetModulusPhase(out, q, 2, lut[w] + z2.err);
    var y, k := ModForm(x + beta, q);
    DivModUnique(x + beta - z1.err, q, k, w);
  }

  /** Whatever the class of the table, the result is the table at the rounded phase. The first
      bootstrap's error e1 shifts the table index; with e1 = 0 the result is lut[(x + beta) mod q]
      for every phase x. Raising the modulus adds an unknown multiple `lift` of q. */
  method EvalFunc(N: nat, ct: Sample, lut: seq<int>, beta: int, z1: BootstrapNoise, z2: BootstrapNoise, lift: int, ghost x: int) returns (r: FuncResult)
    requires PhaseIs(ct, x) && ct.q % 4 == 0 && |lut| == ct.q
    ensures r.NotImplemented? <==> !NegacyclicTable(lut, ct.q) && !(PeriodicTable(lut) && lut[0] != ct.q - lut[|lut| / 2]) && ct.q > N
    ensures r.Value? && NegacyclicTable(lut, ct.q) ==> PhaseIs(r.ct, lut[Residue(x + beta, ct.q)] + z2.err)
    ensures r.Value? && !NegacyclicTable(lut, ct.q) && Clear(x + beta, if PeriodicTable(lut) && lut[0] != ct.q - lut[|lut| / 2] then ct.q / 2 else ct.q, z1.err)
        ==> PhaseIs(r.ct, lut[Residue(x + beta - z1.err, ct.q)] + z2.err)
    ensures r.Value? ==> r.ct.q == ct.q
  {
    SampleModulus(ct, x);
    hide NegacyclicTable, PeriodicTable, PhaseIs, Clear;
    var q := ct.q;
    var ct1 := ct;
    var property := CheckInputFunction(lut, q);
    if property == 0 {
      ct1 := AddConst(ct1, beta);
      NegacyclicCase(ct, lut, beta, z2, x);
      return Value(Bootstrap(WholeTable(lut), ct1, q, z2.mask, z2.err));
    }
    if property == 2 {
      if q > N {
        return NotImplemented;
      }
      var lut2 := lut + lut;
      var dq := 2 * q;
      ct1 := Sample(ct.b, ct.t + q * lift, dq);
      var ct2 := AddConst(ct1, beta);
      var ct3 := Bootstrap(QuarterSign(dq, dq), ct2, dq, z1.mask, z1.err);
      ct3 := Minus(ct1, ct3);
      ct3 := AddConst(ct3, beta);
      ct3 := AddConst(ct3, -(q / 2));
      assert ct3 == Fold(ct1, beta, z1.mask, z1.err);
      ghost var u := LiftPhase(ct, lift, x);
      if Clear(x + beta, q, z1.err) {
        ArbitraryCase(ct, ct1, lut, beta, z1, z2, x, u);
      }
      var ct4 := Bootstrap(HalfTable(lut2, dq, dq), ct3, dq, z2.mask, z2.err);
      return Value(SetModulus(ct4, q));
    }
    ct1 := AddConst(ct1, beta);
    var ct2 := Bootstrap(QuarterSign(q, q), ct1, q, z1.mask, z1.err);
    ct2 := Minus(ct, ct2);
    ct2 := AddConst(ct2, beta);
    ct2 := AddConst(ct2, -(q / 4));
    assert ct2 == Fold(ct, beta, z1.mask, z1.err);
    if Clear(x + beta, q / 2, z1.err) {
      PeriodicCase(ct, lut, beta, z1, z2, x);
    }
    return Value(Bootstrap(HalfTable(lut, q, q), ct2, q, z2.mask, z2.err));
  }

  lemma {:induction false} LiftPhase(ct: Sample, lift: int, x: int) returns (u: int)
    requires PhaseIs(ct, x)
    ensures PhaseIs(Sample(ct.b, ct.t + ct.q * lift, 2 * ct.q), x + ct.q * u)
  {
    var v := RaisePhase(ct, x);
    u := v - lift;
    var k := ModEqWitness(ct.b - ct.t, x + ct.q * v, 2 * ct.q);
    Distribute(ct.q, v, lift);
    ModShift(ct.b - (ct.t + ct.q * lift), x + ct.q * u, 2 * ct.q, k);
  }
}
