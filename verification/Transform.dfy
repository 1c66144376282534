/** Ring elements by their values at the roots of X^N + 1 modulo a prime Q, the form in which the
    library stores an element in evaluation format. */
module Transform {
  import opened NegacyclicRing
  import opened RingModulus
  import opened Arithmetic

  /** p(x), by Horner's rule. */
  function ValueAt(p: seq<int>, x: int): int {
    if p == [] then 0 else p[0] + x * ValueAt(p[1..], x)
  }

  /** Q has no zero divisors. */
  ghost predicate Prime(Q: int) {
    Q > 1 && forall a: int, b: int :: ZeroProduct(Q, a, b) ==> Residue(a, Q) == 0 || Residue(b, Q) == 0
  }

  ghost predicate ZeroProduct(Q: int, a: int, b: int) {
    Q > 0 && Residue(a * b, Q) == 0
  }

  ghost predicate Apart(Q: int, x: int, y: int) {
    Q > 0 && Residue(x - y, Q) != 0
  }

  ghost predicate AllApart(Q: int, xs: seq<nat>) {
    forall i, j :: 0 <= i < j < |xs| ==> Apart(Q, xs[i], xs[j])
  }

  /** N different roots of X^N + 1 modulo Q, in the order in which values are stored. */
  ghost predicate Roots(Q: int, n: nat, roots: seq<nat>) {
    Q > 1 && |roots| == n > 0 &&
    (forall j :: 0 <= j < n ==> Residue(Pow(roots[j], n) + 1, Q) == 0) &&
    AllApart(Q, roots)
  }

  /** The stored values of r. */
  function TransformOf(Q: int, roots: seq<nat>, r: Poly): (v: seq<int>)
    requires Q > 0
    ensures |v| == |roots| && forall j :: 0 <= j < |roots| ==> v[j] == Residue(ValueAt(r, roots[j]), Q)
  {
    seq(|roots|, j requires 0 <= j < |roots| => Residue(ValueAt(r, roots[j]), Q))
  }

  //////// Values of sums and products ////////

  lemma {:induction false} ValueAdd(a: seq<int>, b: seq<int>, x: int)
    requires |a| == |b|
    ensures ValueAt(Add(a, b), x) == ValueAt(a, x) + ValueAt(b, x)
    decreases |a|
  {
    if a != [] {
      TailOfAdd(a, b);
      ValueAdd(a[1..], b[1..], x);
      Distribute(x, ValueAt(a[1..], x), ValueAt(b[1..], x));
    }
  }

  lemma {:induction false} ValueScale(k: int, a: seq<int>, x: int)
    ensures ValueAt(Scale(k, a), x) == k * ValueAt(a, x)
    decreases |a|
  {
    if a != [] {
      TailOfScale(k, a);
      ValueScale(k, a[1..], x);
      Distribute(k, a[0], x * ValueAt(a[1..], x));
      Arithmetic.Regroup(k, x, ValueAt(a[1..], x));
      Arithmetic.Regroup(x, k, ValueAt(a[1..], x));
    }
  }

  lemma {:induction false} ValueAppend(p: seq<int>, c: int, x: nat)
    ensures ValueAt(p + [c], x) == ValueAt(p, x) + c * Pow(x, |p|)
    decreases |p|
  {
    if p != [] {
      assert (p + [c])[1..] == p[1..] + [c];
      ValueAppend(p[1..], c, x);
      Distribute(x, ValueAt(p[1..], x), c * Pow(x, |p| - 1));
      Arithmetic.Regroup(x, c, Pow(x, |p| - 1));
      Arithmetic.Regroup(c, x, Pow(x, |p| - 1));
    } else {
      assert [c][1..] == [];
    }
  }

  /** Multiplication by X multiplies the value by the root. */
  lemma {:induction false} ValueShift(Q: int, a: Poly, x: nat)
    requires Q > 0 && |a| > 0 && Residue(Pow(x, |a|) + 1, Q) == 0
    ensures Residue(ValueAt(Shift(a), x), Q) == Residue(x * ValueAt(a, x), Q)
  {
    var n := |a|;
    var p, c := a[..n - 1], a[n - 1];
    SplitLast(a);
    assert ([-c] + p)[1..] == p;
    ValueAppend(p, c, x);
    var v, w := ValueAt(p, x), Pow(x, n - 1);
    assert Pow(x, n) == x * w;
    var y := ValueAt(Shift(a), x);
    assert y == -c + x * v;
    WrapValue(Q, c, x, v, w);
  }

  lemma {:induction false} WrapValue(Q: int, c: int, x: int, v: int, w: int)
    requires Q > 0 && Residue(x * w + 1, Q) == 0
    ensures Residue(-c + x * v, Q) == Residue(x * (v + c * w), Q)
  {
    DivModUnique(0, Q, 0, 0);
    var k := ModEqWitness(x * w + 1, 0, Q);
    assert x * (v + c * w) == -c + x * v + Q * (c * k) by {
      Distribute(x, v, c * w);
      Arithmetic.Regroup(x, c, w);
      Distribute(c, x * w, 1);
      Arithmetic.Regroup(c, Q, k);
    }
    ModShift(x * (v + c * w), -c + x * v, Q, c * k);
  }

  lemma {:induction false} ValueEval(Q: int, p: seq<int>, b: Poly, x: nat)
    requires Q > 0 && |b| > 0 && Residue(Pow(x, |b|) + 1, Q) == 0
    ensures Residue(ValueAt(Eval(p, 1, b), x), Q) == Residue(ValueAt(p, x) * ValueAt(b, x), Q)
    decreases |p|
  {
    if p == [] {
      ValueZero(|b|, x);
    } else {
      var e := Eval(p[1..], 1, b);
      ValueEval(Q, p[1..], b, x);
      assert Shifts(1, e) == Shift(e) by { assert Shifts(0, e) == e; }
      ValueAdd(Scale(p[0], b), Shift(e), x);
      ValueScale(p[0], b, x);
      ValueShift(Q, e, x);
      HornerValue(Q, p[0], x, ValueAt(p[1..], x), ValueAt(b, x), ValueAt(e, x), ValueAt(Shift(e), x));
    }
  }

  lemma {:induction false} HornerValue(Q: int, c: int, x: int, v: int, b: int, e: int, s: int)
    requires Q > 0 && Residue(e, Q) == Residue(v * b, Q) && Residue(s, Q) == Residue(x * e, Q)
    ensures Residue(c * b + s, Q) == Residue((c + x * v) * b, Q)
  {
    ModMulCong(x, x, e, v * b, Q);
    ModAddCong(c * b, c * b, s, x * (v * b), Q);
    Distribute(b, c, x * v);
    Arithmetic.Regroup(x, v, b);
  }

  lemma {:induction false} ValueZero(n: nat, x: int)
    ensures ValueAt(Zero(n), x) == 0
  {
    if n > 0 {
      assert Zero(n)[1..] == Zero(n - 1);
      ValueZero(n - 1, x);
    }
  }

  /** The value at a root is a ring homomorphism. */
  lemma {:induction false} ValueMul(Q: int, a: Poly, b: Poly, x: nat)
    requires Q > 0 && |a| == |b| > 0 && Residue(Pow(x, |b|) + 1, Q) == 0
    ensures Residue(ValueAt(Mul(a, b), x), Q) == Residue(ValueAt(a, x) * ValueAt(b, x), Q)
  {
    ValueEval(Q, a, b, x);
  }

  lemma {:induction false} ValueCong(Q: int, a: Poly, b: Poly, x: int)
    requires Q > 0 && Cong(Q, a, b)
    ensures Residue(ValueAt(a, x), Q) == Residue(ValueAt(b, x), Q)
  {
    var t: Poly :| |t| == |a| && a == Add(b, Scale(Q, t));
    ValueAdd(b, Scale(Q, t), x);
    ValueScale(Q, t, x);
    ModShift(ValueAt(a, x), ValueAt(b, x), Q, ValueAt(t, x));
  }

  //////// Elements with the same values ////////

  /** p(x) = p(a) + (x - a)·q(x). */
  function SyntheticQuotient(p: seq<int>, a: int): (q: seq<int>)
    ensures |q| == if |p| <= 1 then 0 else |p| - 1
  {
    if |p| <= 1 then [] else [ValueAt(p[1..], a)] + SyntheticQuotient(p[1..], a)
  }

  lemma {:induction false} QuotientValue(p: seq<int>, a: int, x: int)
    ensures ValueAt(p, x) == ValueAt(p, a) + (x - a) * ValueAt(SyntheticQuotient(p, a), x)
    decreases |p|
  {
    if |p| > 1 {
      QuotientValue(p[1..], a, x);
      var q := SyntheticQuotient(p, a);
      assert q[1..] == SyntheticQuotient(p[1..], a);
      FactorStep(p[0], x, a, ValueAt(p[1..], x), ValueAt(p[1..], a), ValueAt(q[1..], x));
    } else if |p| == 1 {
      assert p[1..] == [];
    }
  }

  lemma {:induction false} FactorStep(c: int, x: int, a: int, v: int, w: int, y: int)
    requires v == w + (x - a) * y
    ensures c + x * v == c + a * w + (x - a) * (w + x * y)
  {
    Distribute(x, w, (x - a) * y);
    Distribute(x - a, w, x * y);
    Arithmetic.Regroup(x, x - a, y);
    Distribute(w, x, a);
  }

  ghost predicate Vanishes(Q: int, p: seq<int>)
    requires Q > 0
  {
    forall i :: 0 <= i < |p| ==> Residue(p[i], Q) == 0
  }

  lemma {:induction false} QuotientVanishes(Q: int, p: seq<int>, a: int)
    requires Q > 0 && Residue(ValueAt(p, a), Q) == 0 && Vanishes(Q, SyntheticQuotient(p, a))
    ensures Vanishes(Q, p)
    decreases |p|
  {
    if |p| == 1 {
      assert p[1..] == [];
    } else if |p| > 1 {
      var q := SyntheticQuotient(p, a);
      assert q[0] == ValueAt(p[1..], a) && q[1..] == SyntheticQuotient(p[1..], a);
      forall i | 0 <= i < |q[1..]| ensures Residue(q[1..][i], Q) == 0 { assert q[1..][i] == q[i + 1]; }
      QuotientVanishes(Q, p[1..], a);
      HeadVanishes(Q, p[0], a, q[0]);
      forall i | 0 <= i < |p| ensures Residue(p[i], Q) == 0 { assert i > 0 ==> p[i] == p[1..][i - 1]; }
    }
  }

  lemma {:induction false} HeadVanishes(Q: int, c: int, a: int, w: int)
    requires Q > 0 && Residue(c + a * w, Q) == 0 && Residue(w, Q) == 0
    ensures Residue(c, Q) == 0
  {
    DivModUnique(0, Q, 0, 0);
    ModMulCong(a, a, w, 0, Q);
    ModAddCong(c + a * w, 0, a * w, 0, Q);
  }

  /** All values of p at xs are zero modulo Q. */
  ghost predicate RootsOf(Q: int, p: seq<int>, xs: seq<nat>) {
    Q > 0 && forall j :: 0 <= j < |xs| ==> Residue(ValueAt(p, xs[j]), Q) == 0
  }

  /** A polynomial with at least as many different roots as coefficients is zero modulo a prime. */
  lemma {:induction false} ManyRoots(Q: int, p: seq<int>, xs: seq<nat>)
    requires Prime(Q) && |p| <= |xs| && AllApart(Q, xs) && RootsOf(Q, p, xs)
    ensures Vanishes(Q, p)
    decreases |p|
  {
    hide Prime, ValueAt, SyntheticQuotient, Vanishes, Apart, Residue;
    if p == [] {
      NothingVanishes(Q, p);
    } else {
      var a, q, rest := xs[0], SyntheticQuotient(p, xs[0]), xs[1..];
      forall j | 0 <= j < |rest| ensures Residue(ValueAt(q, rest[j]), Q) == 0 {
        assert rest[j] == xs[j + 1] && Apart(Q, xs[0], xs[j + 1]);
        QuotientValue(p, a, rest[j]);
        DividedRoot(Q, ValueAt(p, rest[j]), ValueAt(p, a), a, rest[j], ValueAt(q, rest[j]));
      }
      ManyRoots(Q, q, rest);
      QuotientVanishes(Q, p, a);
    }
  }

  lemma {:induction false} NothingVanishes(Q: int, p: seq<int>)
    requires Q > 0 && p == []
    ensures Vanishes(Q, p)
  {
  }

  lemma {:induction false} DividedRoot(Q: int, v: int, w: int, a: int, x: int, y: int)
    requires Prime(Q) && v == w + (x - a) * y && Residue(v, Q) == 0 && Residue(w, Q) == 0 && Apart(Q, a, x)
    ensures Residue(y, Q) == 0
  {
    DivModUnique(0, Q, 0, 0);
    ModAddCong(v, 0, w, 0, Q);
    NotZeroEither(Q, x - a);
    hide Prime;
    assert ZeroProduct(Q, x - a, y);
    ZeroFactor(Q, x - a, y);
  }

  lemma {:induction false} NotZeroEither(Q: int, d: int)
    requires Q > 0
    ensures Residue(d, Q) == 0 ==> Residue(-d, Q) == 0
  {
    DivModUnique(0, Q, 0, 0);
    if Residue(d, Q) == 0 {
      ModAddCong(0, 0, d, 0, Q);
    }
  }

  lemma {:induction false} ZeroFactor(Q: int, a: int, b: int)
    requires Prime(Q) && ZeroProduct(Q, a, b)
    ensures Residue(a, Q) == 0 || Residue(b, Q) == 0
  {
    hide Residue;
  }

  /** Elements are equal modulo Q exactly when all their stored values are. */
  lemma {:induction false} CongByValues(Q: int, roots: seq<nat>, a: Poly, b: Poly)
    requires Prime(Q) && Roots(Q, |a|, roots) && |b| == |a|
    ensures Cong(Q, a, b) <==> forall j :: 0 <= j < |a| ==> Residue(ValueAt(a, roots[j]), Q) == Residue(ValueAt(b, roots[j]), Q)
  {
    hide Prime, ValueAt, Cong, Residue, Add, Scale, Vanishes, AllApart;
    if Cong(Q, a, b) {
      forall j | 0 <= j < |a| ensures Residue(ValueAt(a, roots[j]), Q) == Residue(ValueAt(b, roots[j]), Q) {
        ValueCong(Q, a, b, roots[j]);
      }
    }
    if forall j :: 0 <= j < |a| ==> Residue(ValueAt(a, roots[j]), Q) == Residue(ValueAt(b, roots[j]), Q) {
      var d := Add(a, Scale(-1, b));
      forall j | 0 <= j < |a| ensures Residue(ValueAt(d, roots[j]), Q) == 0 {
        ValueAdd(a, Scale(-1, b), roots[j]);
        ValueScale(-1, b, roots[j]);
        SameValue(Q, ValueAt(a, roots[j]), ValueAt(b, roots[j]));
      }
      ManyRoots(Q, d, roots);
      DifferenceCong(Q, a, b);
    }
  }

  lemma {:induction false} SameValue(Q: int, x: int, y: int)
    requires Q > 0 && Residue(x, Q) == Residue(y, Q)
    ensures Residue(x + -1 * y, Q) == 0
  {
    ModAddCong(x, y, y, y, Q);
    DivModUnique(0, Q, 0, 0);
  }

  lemma {:induction false} DifferenceCong(Q: int, a: Poly, b: Poly)
    requires Q > 0 && |a| == |b| && Vanishes(Q, Add(a, Scale(-1, b)))
    ensures Cong(Q, a, b)
  {
    var d := Add(a, Scale(-1, b));
    var t := seq(|a|, i requires 0 <= i < |a| => d[i] / Q);
    forall i | 0 <= i < |a| ensures a[i] == b[i] + Q * t[i] {
      assert Residue(d[i], Q) == 0;
      DivMod(d[i], Q);
    }
    CongByCoefficients(Q, a, b, t);
  }

  lemma {:induction false} ValueConstant(n: nat, k: int, x: int)
    requires n > 0
    ensures ValueAt(Constant(n, k), x) == k
  {
    assert Constant(n, k)[1..] == Zero(n - 1);
    ValueZero(n - 1, x);
  }

  /** Multiplying c by an integer k agrees with multiplying it by r exactly when r takes the value k
      at every root where c is not zero. */
  lemma {:induction false} IntegerMultiple(Q: int, roots: seq<nat>, r: Poly, c: Poly, k: int)
    requires Prime(Q) && Roots(Q, |r|, roots) && |c| == |r|
    ensures Cong(Q, Scale(k, c), Mul(r, c))
       <==> forall j :: 0 <= j < |r| ==> Residue(ValueAt(c, roots[j]), Q) == 0 || Residue(ValueAt(r, roots[j]), Q) == Residue(k, Q)
  {
    hide Prime, ValueAt, Cong, Residue, Mul, Scale, AllApart;
    CongByValues(Q, roots, Scale(k, c), Mul(r, c));
    forall j | 0 <= j < |r|
      ensures Residue(ValueAt(Scale(k, c), roots[j]), Q) == Residue(ValueAt(Mul(r, c), roots[j]), Q)
         <==> Residue(ValueAt(c, roots[j]), Q) == 0 || Residue(ValueAt(r, roots[j]), Q) == Residue(k, Q)
    {
      ValueScale(k, c, roots[j]);
      ValueMul(Q, r, c, roots[j]);
      CancelFactor(Q, k, ValueAt(r, roots[j]), ValueAt(c, roots[j]));
    }
  }

  lemma {:induction false} CancelFactor(Q: int, k: int, v: int, c: int)
    requires Prime(Q)
    ensures Residue(k * c, Q) == Residue(v * c, Q) <==> Residue(c, Q) == 0 || Residue(v, Q) == Residue(k, Q)
  {
    DivModUnique(0, Q, 0, 0);
    hide Prime;
    if Residue(k * c, Q) == Residue(v * c, Q) {
      ModAddCong(k * c, v * c, v * c, v * c, Q);
      Distribute(c, k, v);
      assert ZeroProduct(Q, k - v, c);
      ZeroFactor(Q, k - v, c);
      if Residue(k - v, Q) == 0 {
        ModAddCong(k - v, 0, v, v, Q);
      }
    }
    if Residue(c, Q) == 0 {
      ModMulCong(k, k, c, 0, Q);
      ModMulCong(v, v, c, 0, Q);
    }
    if Residue(v, Q) == Residue(k, Q) {
      ModMulCong(v, k, c, c, Q);
    }
  }

  /** An invertible element is zero at no root. */
  lemma {:induction false} InvertibleValues(Q: int, roots: seq<nat>, c: Poly, u: Poly)
    requires Roots(Q, |c|, roots) && |u| == |c| && Cong(Q, Mul(c, u), One(|c|))
    ensures forall j :: 0 <= j < |c| ==> Residue(ValueAt(c, roots[j]), Q) != 0
  {
    hide Cong, Mul, ValueAt, AllApart, Pow;
    forall j | 0 <= j < |c| ensures Residue(ValueAt(c, roots[j]), Q) != 0 {
      var x := roots[j];
      ValueCong(Q, Mul(c, u), One(|c|), x);
      ValueMul(Q, c, u, x);
      ValueConstant(|c|, 1, x);
      assert One(|c|) == Constant(|c|, 1);
      NotZero(Q, ValueAt(c, x), ValueAt(u, x));
    }
  }

  lemma {:induction false} NotZero(Q: int, v: int, w: int)
    requires Q > 1 && Residue(v * w, Q) == Residue(1, Q)
    ensures Residue(v, Q) != 0
  {
    DivModUnique(1, Q, 0, 1);
    DivModUnique(0, Q, 0, 0);
    if Residue(v, Q) == 0 {
      ModMulCong(v, 0, w, w, Q);
    }
  }

  /** All coefficients but the first are zero modulo Q. */
  ghost predicate IsConstant(Q: int, r: Poly)
    requires Q > 0
  {
    forall j :: 1 <= j < |r| ==> Residue(r[j], Q) == 0
  }

  /** r takes the same value k at every root exactly when it is the constant k modulo Q. */
  lemma {:induction false} SameEverywhere(Q: int, roots: seq<nat>, r: Poly, k: int)
    requires Prime(Q) && Roots(Q, |r|, roots)
    ensures (forall j :: 0 <= j < |r| ==> Residue(ValueAt(r, roots[j]), Q) == Residue(k, Q)) <==> Cong(Q, r, Constant(|r|, k))
  {
    hide Prime, ValueAt, AllApart, Cong, Constant, Residue, Pow;
    CongByValues(Q, roots, r, Constant(|r|, k));
    forall j | 0 <= j < |r| ensures ValueAt(Constant(|r|, k), roots[j]) == k { ValueConstant(|r|, k, roots[j]); }
  }

  lemma {:induction false} ConstantForm(Q: int, r: Poly, k: int)
    requires Q > 0 && |r| > 0 && Cong(Q, r, Constant(|r|, k))
    ensures IsConstant(Q, r)
  {
    DivModUnique(0, Q, 0, 0);
    forall j | 1 <= j < |r| ensures Residue(r[j], Q) == 0 {
      hide Cong;
      CongCoefficient(Q, r, Constant(|r|, k), j);
    }
  }

  lemma {:induction false} ConstantPart(Q: int, r: Poly)
    requires Q > 0 && |r| > 0 && IsConstant(Q, r)
    ensures Cong(Q, r, Constant(|r|, r[0]))
  {
    var t := seq(|r|, i requires 0 <= i < |r| => if i == 0 then 0 else r[i] / Q);
    forall i | 0 <= i < |r| ensures r[i] == Constant(|r|, r[0])[i] + Q * t[i] {
      if i > 0 {
        assert Residue(r[i], Q) == 0;
        DivMod(r[i], Q);
      }
    }
    CongByCoefficients(Q, r, Constant(|r|, r[0]), t);
  }
}
