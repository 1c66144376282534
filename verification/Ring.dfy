/** The negacyclic ring Z[X]/(X^N+1).

    An element is the sequence of its N integer coefficients.  The library works modulo a
    prime Q; here products and sums are exact over the integers and `Cong` says when two
    elements agree modulo Q, so that noise terms keep their true size.

    Multiplication is Horner evaluation: `Eval(p, k, b)` is p(X^k)·b.  With k = 1 this is the
    ring product, with b = 1 it is the automorphism X -> X^k.
 */
module NegacyclicRing {
  import Arithmetic

  type Poly = seq<int>

  function Zero(n: nat): (r: Poly)
    ensures |r| == n
  {
    seq(n, _ => 0)
  }

  /** The constant polynomial k. */
  function Constant(n: nat, k: int): (r: Poly)
    ensures |r| == n
  {
    seq(n, i => if i == 0 then k else 0)
  }

  function One(n: nat): (r: Poly)
    ensures |r| == n
  {
    Constant(n, 1)
  }

  function Add(a: Poly, b: Poly): (r: Poly)
    requires |a| == |b|
    ensures |r| == |a|
  {
    seq(|a|, i requires 0 <= i < |a| => a[i] + b[i])
  }

  function Sub(a: Poly, b: Poly): (r: Poly)
    requires |a| == |b|
    ensures |r| == |a|
  {
    seq(|a|, i requires 0 <= i < |a| => a[i] - b[i])
  }

  function Scale(k: int, a: Poly): (r: Poly)
    ensures |r| == |a|
  {
    seq(|a|, i requires 0 <= i < |a| => k * a[i])
  }

  /** Multiplication by X: the top coefficient wraps around with its sign flipped. */
  function Shift(a: Poly): (r: Poly)
    ensures |r| == |a|
  {
    if a == [] then [] else [-a[|a| - 1]] + a[..|a| - 1]
  }

  /** Multiplication by X^e. */
  function Shifts(e: nat, a: Poly): (r: Poly)
    ensures |r| == |a|
  {
    if e == 0 then a else Shift(Shifts(e - 1, a))
  }

  /** p(X^k)·b, by Horner's rule. */
  function Eval(p: seq<int>, k: nat, b: Poly): (r: Poly)
    ensures |r| == |b|
    decreases |p|
  {
    if p == [] then Zero(|b|)
    else Add(Scale(p[0], b), Shifts(k, Eval(p[1..], k, b)))
  }

  function Mul(a: Poly, b: Poly): (r: Poly)
    requires |a| == |b|
    ensures |r| == |b|
  {
    Eval(a, 1, b)
  }

  //////// Shifts are linear and add up ////////

  lemma {:induction false} ShiftAdd(a: Poly, b: Poly)
    requires |a| == |b|
    ensures Shift(Add(a, b)) == Add(Shift(a), Shift(b))
  {
    forall i | 0 <= i < |a| ensures Shift(Add(a, b))[i] == Add(Shift(a), Shift(b))[i] {
      if i > 0 {
        assert Shift(Add(a, b))[i] == Add(a, b)[i - 1];
      }
    }
  }

  lemma {:induction false} ShiftScale(k: int, a: Poly)
    ensures Shift(Scale(k, a)) == Scale(k, Shift(a))
  {
    if a != [] {
      var m := |a| - 1;
      assert -(k * a[m]) == k * (-a[m]);
      assert Shift(Scale(k, a)) == Scale(k, Shift(a));
    }
  }

  lemma {:induction false} ShiftsAdd(e: nat, a: Poly, b: Poly)
    requires |a| == |b|
    ensures Shifts(e, Add(a, b)) == Add(Shifts(e, a), Shifts(e, b))
  {
    if e != 0 {
      ShiftsAdd(e - 1, a, b);
      ShiftAdd(Shifts(e - 1, a), Shifts(e - 1, b));
    }
  }

  lemma {:induction false} ShiftsScale(e: nat, k: int, a: Poly)
    ensures Shifts(e, Scale(k, a)) == Scale(k, Shifts(e, a))
  {
    if e != 0 {
      ShiftsScale(e - 1, k, a);
      ShiftScale(k, Shifts(e - 1, a));
    }
  }

  lemma {:induction false} ShiftsZero(e: nat, n: nat)
    ensures Shifts(e, Zero(n)) == Zero(n)
  {
    if e != 0 {
      ShiftsZero(e - 1, n);
      assert Shift(Zero(n)) == Zero(n);
    }
  }

  lemma {:induction false} ShiftsCompose(e: nat, f: nat, a: Poly)
    ensures Shifts(e, Shifts(f, a)) == Shifts(e + f, a)
  {
    if e != 0 {
      ShiftsCompose(e - 1, f, a);
    }
  }

  /** Closed form of a shift by at most one full turn. */
  lemma {:induction false} ShiftsForm(e: nat, a: Poly)
    requires e <= |a|
    ensures Shifts(e, a) == Scale(-1, a[|a| - e..]) + a[..|a| - e]
  {
    var n := |a|;
    if e == 0 {
      assert a == Scale(-1, a[n..]) + a[..n];
    } else {
      ShiftsForm(e - 1, a);
      ShiftFormStep(n - e, a);
    }
  }

  lemma {:induction false} ShiftFormStep(m: nat, a: Poly)
    requires m < |a|
    ensures Shift(Scale(-1, a[m + 1..]) + a[..m + 1]) == Scale(-1, a[m..]) + a[..m]
  {
    var s := Scale(-1, a[m + 1..]) + a[..m + 1];
    var t := Scale(-1, a[m..]) + a[..m];
    assert |Shift(s)| == |t| == |a|;
    forall i | 0 <= i < |a| ensures Shift(s)[i] == t[i] {
      if i == 0 {
        assert s[|a| - 1] == a[m];
      } else {
        assert Shift(s)[i] == s[i - 1];
      }
    }
  }

  /** X^N = -1. */
  lemma {:induction false} FullTurn(a: Poly)
    ensures Shifts(|a|, a) == Scale(-1, a)
  {
    ShiftsForm(|a|, a);
    assert Scale(-1, a[0..]) + a[..0] == Scale(-1, a);
  }

  lemma {:induction false} DoubleNeg(a: Poly)
    ensures Scale(-1, Scale(-1, a)) == a
  {
  }

  lemma {:induction false} OneMoreTurn(e: nat, a: Poly)
    ensures Shifts(|a| + e, a) == Scale(-1, Shifts(e, a))
  {
    ShiftsCompose(|a|, e, a);
    FullTurn(Shifts(e, a));
  }

  function Sign(k: nat, a: Poly): (r: Poly)
    ensures |r| == |a|
  {
    if k % 2 == 0 then a else Scale(-1, a)
  }

  lemma {:induction false} SignStep(k: nat, a: Poly)
    ensures Scale(-1, Sign(k, a)) == Sign(k + 1, a)
  {
    DoubleNeg(a);
  }

  /** X^(kN) = (-1)^k. */
  lemma {:induction false} Turns(k: nat, e: nat, n: nat, a: Poly)
    requires n == |a| && e == k * n
    ensures Shifts(e, a) == Sign(k, a)
  {
    if k == 0 {
      assert e == 0;
    } else {
      var f: nat := (k - 1) * n;
      assert e == n + f by { PrevMultiple(k, n); }
      hide Shifts, Sign;
      Turns(k - 1, f, n, a);
      OneMoreTurn(f, a);
      SignStep(k - 1, a);
    }
  }

  lemma {:induction false} PrevMultiple(k: nat, n: nat)
    requires k != 0
    ensures 0 <= (k - 1) * n == k * n - n
  {
    assert (k - 1) * n == k * n - n;
  }

  //////// Eval is linear in both arguments ////////

  lemma {:induction false} AddPairs(a: Poly, b: Poly, c: Poly, d: Poly)
    requires |a| == |b| == |c| == |d|
    ensures Add(Add(a, b), Add(c, d)) == Add(Add(a, c), Add(b, d))
  {
  }

  lemma {:induction false} ScaleSum(j: int, k: int, a: Poly)
    ensures Scale(j + k, a) == Add(Scale(j, a), Scale(k, a))
  {
    forall i | 0 <= i < |a| ensures (j + k) * a[i] == j * a[i] + k * a[i] {}
  }

  lemma {:induction false} TailOfAdd(p: seq<int>, r: seq<int>)
    requires |p| == |r| > 0
    ensures Add(p, r)[0] == p[0] + r[0] && Add(p, r)[1..] == Add(p[1..], r[1..])
  {
  }

  lemma {:induction false} TailOfScale(j: int, p: seq<int>)
    requires p != []
    ensures Scale(j, p)[0] == j * p[0] && Scale(j, p)[1..] == Scale(j, p[1..])
  {
  }

  lemma {:induction false} AddZero(a: Poly)
    ensures Add(a, Zero(|a|)) == a == Add(Zero(|a|), a)
  {
  }

  lemma {:induction false} ScaleZero(j: int, n: nat)
    ensures Scale(j, Zero(n)) == Zero(n)
  {
  }

  lemma {:induction false} EvalAddRight(p: seq<int>, k: nat, b: Poly, c: Poly)
    requires |b| == |c|
    ensures Eval(p, k, Add(b, c)) == Add(Eval(p, k, b), Eval(p, k, c))
    decreases |p|
  {
    hide Add, Scale, Shifts;
    if p == [] {
      AddZero(Zero(|b|));
    } else {
      var eb, ec := Eval(p[1..], k, b), Eval(p[1..], k, c);
      EvalAddRight(p[1..], k, b, c);
      ShiftsAdd(k, eb, ec);
      ScaleAdd(p[0], b, c);
      AddPairs(Scale(p[0], b), Scale(p[0], c), Shifts(k, eb), Shifts(k, ec));
    }
  }

  lemma {:induction false} ScaleAdd(k: int, a: Poly, b: Poly)
    requires |a| == |b|
    ensures Scale(k, Add(a, b)) == Add(Scale(k, a), Scale(k, b))
  {
    forall i | 0 <= i < |a| ensures k * (a[i] + b[i]) == k * a[i] + k * b[i] {}
  }

  lemma {:induction false} ScaleScale(k: int, j: int, a: Poly)
    ensures Scale(k, Scale(j, a)) == Scale(k * j, a)
  {
    forall i | 0 <= i < |a| ensures k * (j * a[i]) == k * j * a[i] {}
  }

  lemma {:induction false} EvalScaleRight(p: seq<int>, k: nat, j: int, b: Poly)
    ensures Eval(p, k, Scale(j, b)) == Scale(j, Eval(p, k, b))
    decreases |p|
  {
    hide Add, Scale, Shifts;
    if p == [] {
      ScaleZero(j, |b|);
    } else {
      var eb := Eval(p[1..], k, b);
      EvalScaleRight(p[1..], k, j, b);
      ShiftsScale(k, j, eb);
      ScaleScale(p[0], j, b);
      ScaleScale(j, p[0], b);
      assert p[0] * j == j * p[0];
      ScaleAdd(j, Scale(p[0], b), Shifts(k, eb));
    }
  }

  lemma {:induction false} EvalShiftRight(p: seq<int>, k: nat, e: nat, b: Poly)
    ensures Eval(p, k, Shifts(e, b)) == Shifts(e, Eval(p, k, b))
    decreases |p|
  {
    hide Add, Scale, Shifts;
    if p == [] {
      ShiftsZero(e, |b|);
    } else {
      var eb := Eval(p[1..], k, b);
      EvalShiftRight(p[1..], k, e, b);
      ShiftsCompose(k, e, eb);
      ShiftsCompose(e, k, eb);
      ShiftsScale(e, p[0], b);
      ShiftsAdd(e, Scale(p[0], b), Shifts(k, eb));
    }
  }

  lemma {:induction false} EvalAddLeft(p: seq<int>, r: seq<int>, k: nat, b: Poly)
    requires |p| == |r|
    ensures Eval(Add(p, r), k, b) == Add(Eval(p, k, b), Eval(r, k, b))
    decreases |p|
  {
    hide Add, Scale, Shifts;
    if p == [] {
      AddZero(Zero(|b|));
    } else {
      var ep, er := Eval(p[1..], k, b), Eval(r[1..], k, b);
      EvalAddLeft(p[1..], r[1..], k, b);
      TailOfAdd(p, r);
      ShiftsAdd(k, ep, er);
      ScaleSum(p[0], r[0], b);
      AddPairs(Scale(p[0], b), Scale(r[0], b), Shifts(k, ep), Shifts(k, er));
    }
  }

  lemma {:induction false} EvalScaleLeft(j: int, p: seq<int>, k: nat, b: Poly)
    ensures Eval(Scale(j, p), k, b) == Scale(j, Eval(p, k, b))
    decreases |p|
  {
    hide Add, Scale, Shifts;
    if p == [] {
      ScaleZero(j, |b|);
    } else {
      var ep := Eval(p[1..], k, b);
      EvalScaleLeft(j, p[1..], k, b);
      TailOfScale(j, p);
      ShiftsScale(k, j, ep);
      ScaleScale(j, p[0], b);
      ScaleAdd(j, Scale(p[0], b), Shifts(k, ep));
    }
  }

  lemma {:induction false} EvalAppend(p: seq<int>, x: int, k: nat, e: nat, b: Poly)
    requires e == |p| * k
    ensures Eval(p + [x], k, b) == Add(Eval(p, k, b), Scale(x, Shifts(e, b)))
    decreases |p|
  {
    if p == [] {
      assert p + [x] == [x] + [];
      EvalCons(x, [], k, b);
      ShiftsZero(k, |b|);
      AddZero(Scale(x, b));
      assert e == 0;
    } else {
      hide Add, Scale, Shifts;
      var f := e - k;
      PrevMultiple(|p|, k);
      EvalAppend(p[1..], x, k, f, b);
      assert (p + [x])[1..] == p[1..] + [x];
      HornerAppend(p[0], Eval(p[1..], k, b), x, k, f, b);
    }
  }

  lemma {:induction false} HornerAppend(c: int, ep: Poly, x: int, k: nat, f: nat, b: Poly)
    requires |ep| == |b|
    ensures Add(Scale(c, b), Shifts(k, Add(ep, Scale(x, Shifts(f, b)))))
         == Add(Add(Scale(c, b), Shifts(k, ep)), Scale(x, Shifts(k + f, b)))
  {
    ShiftsAdd(k, ep, Scale(x, Shifts(f, b)));
    ShiftsScale(k, x, Shifts(f, b));
    ShiftsCompose(k, f, b);
    AddAssoc(Scale(c, b), Shifts(k, ep), Scale(x, Shifts(k + f, b)));
  }

  lemma {:induction false} AddAssoc(a: Poly, b: Poly, c: Poly)
    requires |a| == |b| == |c|
    ensures Add(a, Add(b, c)) == Add(Add(a, b), c)
  {
  }

  lemma {:induction false} AddComm(a: Poly, b: Poly)
    requires |a| == |b|
    ensures Add(a, b) == Add(b, a)
  {
  }

  lemma {:induction false} EvalCons(c: int, q: seq<int>, k: nat, b: Poly)
    ensures Eval([c] + q, k, b) == Add(Scale(c, b), Shifts(k, Eval(q, k, b)))
  {
    assert ([c] + q)[1..] == q;
  }

  lemma {:induction false} EvalRotate(q: seq<int>, x: int, k: nat, e: nat, b: Poly)
    requires |q| + 1 == |b| && k % 2 == 1 && e == |q| * k && k + e == k * |b|
    ensures Eval([-x] + q, k, b) == Shifts(k, Eval(q + [x], k, b))
  {
    EvalAppend(q, x, k, e, b);
    WrapTop(Eval(q, k, b), x, k, e, b);
    EvalCons(-x, q, k, b);
  }

  /** Substituting X^k for odd k turns multiplication by X into multiplication by X^k. */
  lemma {:induction false} EvalShiftLeft(p: Poly, k: nat, b: Poly)
    requires |p| == |b| > 0 && k % 2 == 1
    ensures Eval(Shift(p), k, b) == Shifts(k, Eval(p, k, b))
  {
    var m := |p| - 1;
    PrevMultiple(|p|, k);
    EvalRotate(p[..m], p[m], k, m * k, b);
    SplitLast(p);
  }

  lemma {:induction false} SplitLast(p: Poly)
    requires p != []
    ensures p == p[..|p| - 1] + [p[|p| - 1]] && Shift(p) == [-p[|p| - 1]] + p[..|p| - 1]
  {
  }

  lemma {:induction false} WrapTop(eq: Poly, x: int, k: nat, e: nat, b: Poly)
    requires |eq| == |b| && k % 2 == 1 && k + e == k * |b|
    ensures Shifts(k, Add(eq, Scale(x, Shifts(e, b)))) == Add(Scale(-x, b), Shifts(k, eq))
  {
    ShiftsAdd(k, eq, Scale(x, Shifts(e, b)));
    ShiftsScale(k, x, Shifts(e, b));
    ShiftsCompose(k, e, b);
    Turns(k, k + e, |b|, b);
    ScaleScale(x, -1, b);
    AddComm(Shifts(k, eq), Scale(-x, b));
  }

  lemma {:induction false} EvalShiftsLeft(e: nat, p: Poly, k: nat, f: nat, b: Poly)
    requires |p| == |b| > 0 && k % 2 == 1 && f == e * k
    ensures Eval(Shifts(e, p), k, b) == Shifts(f, Eval(p, k, b))
  {
    hide Add, Scale, Eval, Shift;
    if e == 0 {
      assert f == 0;
    } else {
      PrevMultiple(e, k);
      EvalShiftsLeft(e - 1, p, k, f - k, b);
      EvalShiftLeft(Shifts(e - 1, p), k, b);
      ShiftsCompose(k, f - k, Eval(p, k, b));
    }
  }

  //////// The commutative ring ////////

  /** The operators p(X^k)· and r(X^j)· commute. */
  lemma {:induction false} EvalCommute(p: seq<int>, k: nat, r: seq<int>, j: nat, c: Poly)
    ensures Eval(p, k, Eval(r, j, c)) == Eval(r, j, Eval(p, k, c))
    decreases |p|
  {
    if p == [] {
      EvalZeroRight(r, j, |c|);
    } else {
      var ep := Eval(p[1..], k, c);
      EvalCommute(p[1..], k, r, j, c);
      EvalScaleRight(r, j, p[0], c);
      EvalShiftRight(r, j, k, ep);
      EvalAddRight(r, j, Scale(p[0], c), Shifts(k, ep));
    }
  }

  lemma {:induction false} EvalZeroRight(p: seq<int>, k: nat, n: nat)
    ensures Eval(p, k, Zero(n)) == Zero(n)
    decreases |p|
  {
    if p != [] {
      EvalZeroRight(p[1..], k, n);
      ShiftsZero(k, n);
      assert Add(Scale(p[0], Zero(n)), Zero(n)) == Zero(n);
    }
  }

  lemma {:induction false} EvalZeroLeft(m: nat, k: nat, b: Poly)
    ensures Eval(Zero(m), k, b) == Zero(|b|)
  {
    if m != 0 {
      assert Zero(m)[1..] == Zero(m - 1);
      EvalZeroLeft(m - 1, k, b);
      ShiftsZero(k, |b|);
      assert Add(Scale(0, b), Zero(|b|)) == Zero(|b|);
    }
  }

  /** Substitution: (a(X^j)·b)(X^k)·c = a(X^(jk))·b(X^k)·c for odd k. */
  lemma {:induction false} EvalEval(a: seq<int>, j: nat, b: Poly, k: nat, c: Poly)
    requires |b| == |c| > 0 && k % 2 == 1
    ensures j * k >= 0 && Eval(Eval(a, j, b), k, c) == Eval(a, j * k, Eval(b, k, c))
    decreases |a|
  {
    Arithmetic.MulNonNeg(j, k);
    if a == [] {
      EvalZeroLeft(|b|, k, c);
    } else {
      var ea := Eval(a[1..], j, b);
      EvalEval(a[1..], j, b, k, c);
      EvalAddLeft(Scale(a[0], b), Shifts(j, ea), k, c);
      EvalScaleLeft(a[0], b, k, c);
      EvalShiftsLeft(j, ea, k, j * k, c);
    }
  }

  lemma {:induction false} EvalConstant(x: int, m: nat, k: nat, b: Poly)
    requires m > 0
    ensures Eval(Constant(m, x), k, b) == Scale(x, b)
  {
    assert Constant(m, x)[1..] == Zero(m - 1);
    EvalZeroLeft(m - 1, k, b);
    ShiftsZero(k, |b|);
    assert Add(Scale(x, b), Zero(|b|)) == Scale(x, b);
  }

  lemma {:induction false} MulConstant(a: Poly, x: int)
    requires |a| > 0
    ensures Mul(a, Constant(|a|, x)) == Scale(x, a)
  {
    MulComm(a, Constant(|a|, x));
    EvalConstant(x, |a|, 1, a);
  }

  lemma {:induction false} EvalOneLeft(k: nat, b: Poly)
    requires |b| > 0
    ensures Eval(One(|b|), k, b) == b
  {
    EvalConstant(1, |b|, k, b);
    assert Scale(1, b) == b;
  }

  lemma {:induction false} EvalOneRight(p: seq<int>, n: nat)
    requires |p| <= n
    ensures Eval(p, 1, One(n)) == p + Zero(n - |p|)
    decreases |p|
  {
    if p == [] {
      assert Zero(n) == p + Zero(n - |p|);
    } else {
      hide Add, Scale, Shift, One, Zero;
      EvalOneRight(p[1..], n);
      var t := p[1..] + Zero(n - |p| + 1);
      assert Shifts(1, t) == Shift(Shifts(0, t)) == Shift(t);
      ShiftPadded(p[1..], n);
      PrependConstant(p[0], p[1..] + Zero(n - |p|));
      ConsAppend(p, Zero(n - |p|));
    }
  }

  lemma {:induction false} ConsAppend(p: seq<int>, z: seq<int>)
    requires p != []
    ensures [p[0]] + (p[1..] + z) == p + z
  {
  }

  lemma {:induction false} ShiftPadded(q: seq<int>, n: nat)
    requires |q| < n
    ensures Shift(q + Zero(n - |q|)) == [0] + (q + Zero(n - |q| - 1))
  {
    var t := q + Zero(n - |q|);
    assert t[n - 1] == 0;
    assert t[..n - 1] == q + Zero(n - |q| - 1);
  }

  lemma {:induction false} PrependConstant(x: int, t: seq<int>)
    ensures Add(Scale(x, One(|t| + 1)), [0] + t) == [x] + t
  {
  }

  lemma {:induction false} MulOne(a: Poly)
    requires |a| > 0
    ensures Mul(a, One(|a|)) == a && Mul(One(|a|), a) == a
  {
    EvalOneRight(a, |a|);
    assert a + Zero(0) == a;
    EvalOneLeft(1, a);
  }

  lemma {:induction false} MulComm(a: Poly, b: Poly)
    requires |a| == |b| > 0
    ensures Mul(a, b) == Mul(b, a)
  {
    MulOne(a);
    MulOne(b);
    EvalCommute(a, 1, b, 1, One(|a|));
  }

  lemma {:induction false} MulAssoc(a: Poly, b: Poly, c: Poly)
    requires |a| == |b| == |c| > 0
    ensures Mul(Mul(a, b), c) == Mul(a, Mul(b, c))
  {
    EvalEval(a, 1, b, 1, c);
  }

  lemma {:induction false} MulAdd(a: Poly, b: Poly, c: Poly)
    requires |a| == |b| == |c|
    ensures Mul(a, Add(b, c)) == Add(Mul(a, b), Mul(a, c))
    ensures Mul(Add(b, c), a) == Add(Mul(b, a), Mul(c, a))
  {
    EvalAddRight(a, 1, b, c);
    EvalAddLeft(b, c, 1, a);
  }

  lemma {:induction false} MulScale(k: int, a: Poly, b: Poly)
    requires |a| == |b|
    ensures Mul(a, Scale(k, b)) == Scale(k, Mul(a, b)) == Mul(Scale(k, a), b)
  {
    EvalScaleRight(a, 1, k, b);
    EvalScaleLeft(k, a, 1, b);
  }

  lemma {:induction false} SubIsAdd(a: Poly, b: Poly)
    requires |a| == |b|
    ensures Sub(a, b) == Add(a, Scale(-1, b))
  {
  }

  lemma {:induction false} MulSub(a: Poly, b: Poly, c: Poly)
    requires |a| == |b| == |c|
    ensures Mul(a, Sub(b, c)) == Sub(Mul(a, b), Mul(a, c))
    ensures Mul(Sub(b, c), a) == Sub(Mul(b, a), Mul(c, a))
  {
    SubIsAdd(b, c);
    MulAdd(a, b, Scale(-1, c));
    MulScale(-1, a, c);
    MulScale(-1, c, a);
    SubIsAdd(Mul(a, b), Mul(a, c));
    SubIsAdd(Mul(b, a), Mul(c, a));
  }

  lemma {:induction false} MulZero(a: Poly)
    ensures Mul(a, Zero(|a|)) == Zero(|a|) == Mul(Zero(|a|), a)
  {
    EvalZeroRight(a, 1, |a|);
    EvalZeroLeft(|a|, 1, a);
  }

  //////// Monomials with integer exponents ////////

  /** X^e·a; exponents are taken modulo 2N because X^N = -1. */
  function Mono(e: int, a: Poly): (r: Poly)
    requires |a| > 0
    ensures |r| == |a|
  {
    Shifts(e % (2 * |a|), a)
  }

  lemma {:induction false} MonoNat(e: nat, a: Poly)
    requires |a| > 0
    ensures Shifts(e, a) == Mono(e, a)
  {
    hide Shifts;
    var k, f := EvenTurns(e, |a|);
    FullCircles(k, f, Shifts(e - f, a));
    ShiftsCompose(f, e - f, a);
  }

  lemma {:induction false} FullCircles(k: nat, f: nat, a: Poly)
    requires f == (2 * k) * |a|
    ensures Shifts(f, a) == a
  {
    hide Shifts, Scale;
    Turns(2 * k, f, |a|, a);
  }

  lemma {:induction false} EvenTurns(e: nat, n: nat) returns (k: nat, f: nat)
    requires n > 0
    ensures f == (2 * k) * n && f <= e && e - f == e % (2 * n)
  {
    k := e / (2 * n);
    Arithmetic.DivMod(e, 2 * n);
    assert 2 * n * k == (2 * k) * n;
    f := e - e % (2 * n);
  }

  lemma {:induction false} MonoMod(e: int, f: int, a: Poly)
    requires |a| > 0 && e % (2 * |a|) == f % (2 * |a|)
    ensures Mono(e, a) == Mono(f, a)
  {
  }

  lemma {:induction false} MonoMono(e: int, f: int, a: Poly)
    requires |a| > 0
    ensures Mono(e, Mono(f, a)) == Mono(e + f, a)
  {
    var m := 2 * |a|;
    ShiftsCompose(e % m, f % m, a);
    MonoNat(e % m + f % m, a);
    Arithmetic.ModAddMod(e, f, m);
  }

  lemma {:induction false} MonoZero(a: Poly)
    requires |a| > 0
    ensures Mono(0, a) == a
  {
  }

  lemma {:induction false} MonoMul(e: int, a: Poly, b: Poly)
    requires |a| == |b| > 0
    ensures Mul(a, Mono(e, b)) == Mono(e, Mul(a, b)) == Mul(Mono(e, a), b)
  {
    EvalShiftRight(a, 1, e % (2 * |a|), b);
    EvalShiftsLeft(e % (2 * |a|), a, 1, e % (2 * |a|), b);
  }

  lemma {:induction false} MonoAdd(e: int, a: Poly, b: Poly)
    requires |a| == |b| > 0
    ensures Mono(e, Add(a, b)) == Add(Mono(e, a), Mono(e, b))
  {
    ShiftsAdd(e % (2 * |a|), a, b);
  }

  lemma {:induction false} MonoScale(e: int, k: int, a: Poly)
    requires |a| > 0
    ensures Mono(e, Scale(k, a)) == Scale(k, Mono(e, a))
  {
    ShiftsScale(e % (2 * |a|), k, a);
  }

  //////// The automorphisms X -> X^k ////////

  function Auto(k: nat, a: Poly): (r: Poly)
    ensures |r| == |a|
  {
    Eval(a, k, One(|a|))
  }

  lemma {:induction false} AutoOne(a: Poly)
    requires |a| > 0
    ensures Auto(1, a) == a
  {
    MulOne(a);
  }

  lemma {:induction false} AutoMul(k: nat, a: Poly, b: Poly)
    requires |a| == |b| > 0 && k % 2 == 1
    ensures Auto(k, Mul(a, b)) == Mul(Auto(k, a), Auto(k, b))
  {
    var one := One(|a|);
    EvalEval(a, 1, b, k, one);
    EvalEval(a, k, one, 1, Auto(k, b));
    EvalOneLeft(1, Auto(k, b));
  }

  lemma {:induction false} AutoAuto(j: nat, k: nat, a: Poly)
    requires |a| > 0 && k % 2 == 1
    ensures j * k >= 0 && Auto(k, Auto(j, a)) == Auto(j * k, a)
  {
    EvalEval(a, j, One(|a|), k, One(|a|));
    EvalOneLeft(k, One(|a|));
  }

  lemma {:induction false} AutoAdd(k: nat, a: Poly, b: Poly)
    requires |a| == |b|
    ensures Auto(k, Add(a, b)) == Add(Auto(k, a), Auto(k, b))
  {
    EvalAddLeft(a, b, k, One(|a|));
  }

  lemma {:induction false} AutoMono(k: nat, e: int, a: Poly)
    requires |a| > 0 && k % 2 == 1
    ensures Auto(k, Mono(e, a)) == Mono(k * e, Auto(k, a))
  {
    var m := 2 * |a|;
    var r := e % m;
    assert 0 <= r * k && (r * k) % m == (k * e) % m by {
      Arithmetic.MulNonNeg(r, k);
      Arithmetic.ModOfMod(e, m);
      Arithmetic.ModMulCong(k, k, r, e, m);
      assert r * k == k * r;
    }
    AutoShifts(k, r, r * k, a);
  }

  lemma {:induction false} AutoShifts(k: nat, r: nat, f: nat, a: Poly)
    requires |a| > 0 && k % 2 == 1 && f == r * k
    ensures Auto(k, Shifts(r, a)) == Mono(f, Auto(k, a))
  {
    EvalShiftsLeft(r, a, k, f, One(|a|));
    MonoNat(f, Auto(k, a));
  }

  /** X^k depends only on k modulo 2N, hence so does the automorphism. */
  lemma {:induction false} EvalMod(p: seq<int>, j: nat, k: nat, b: Poly)
    requires |b| > 0 && j % (2 * |b|) == k % (2 * |b|)
    ensures Eval(p, j, b) == Eval(p, k, b)
    decreases |p|
  {
    if p != [] {
      EvalMod(p[1..], j, k, b);
      MonoNat(j, Eval(p[1..], j, b));
      MonoNat(k, Eval(p[1..], k, b));
    }
  }

  lemma {:induction false} AutoMod(j: nat, k: nat, a: Poly)
    requires |a| > 0 && j % (2 * |a|) == k % (2 * |a|)
    ensures Auto(j, a) == Auto(k, a)
  {
    EvalMod(a, j, k, One(|a|));
  }
}
