/** Multi-key LWE: a ciphertext holds one vector per user and a scalar b; its phase is
    b minus the sum of the users' inner products, modulo the ciphertext modulus. */
module MkLwe {
  import opened Arithmetic

  type Matrix = seq<seq<int>>

  /** a[0]·s[0] + ... + a[i-1]·s[i-1]. */
  function Inner(a: seq<int>, s: seq<int>, i: nat): int
    requires i <= |a| && i <= |s|
  {
    if i == 0 then 0 else Inner(a, s, i - 1) + a[i - 1] * s[i - 1]
  }

  predicate SameShape(a: Matrix, s: Matrix) {
    |a| == |s| && forall u :: 0 <= u < |a| ==> |a[u]| == |s[u]|
  }

  function InnerAll(a: Matrix, s: Matrix, k: nat): int
    requires SameShape(a, s) && k <= |a|
  {
    if k == 0 then 0 else InnerAll(a, s, k - 1) + Inner(a[k - 1], s[k - 1], |s[k - 1]|)
  }

  function Phase(a: Matrix, b: int, s: Matrix): int
    requires SameShape(a, s)
  {
    b - InnerAll(a, s, |a|)
  }

  lemma {:induction false} InnerCong(q: int, a: seq<int>, a': seq<int>, s: seq<int>, i: nat)
    requires q > 0 && i <= |a| && i <= |a'| && i <= |s| && forall j :: 0 <= j < i ==> a[j] % q == a'[j] % q
    ensures Inner(a, s, i) % q == Inner(a', s, i) % q
  {
    if i > 0 {
      InnerCong(q, a, a', s, i - 1);
      ModMulCong(a[i - 1], a'[i - 1], s[i - 1], s[i - 1], q);
      ModAddCong(Inner(a, s, i - 1), Inner(a', s, i - 1), a[i - 1] * s[i - 1], a'[i - 1] * s[i - 1], q);
    }
  }

  lemma {:induction false} InnerAllCong(q: int, a: Matrix, a': Matrix, s: Matrix, k: nat)
    requires q > 0 && SameShape(a, s) && SameShape(a', s) && k <= |a|
    requires forall u, j :: 0 <= u < k && 0 <= j < |s[u]| ==> a[u][j] % q == a'[u][j] % q
    ensures InnerAll(a, s, k) % q == InnerAll(a', s, k) % q
  {
    if k > 0 {
      InnerAllCong(q, a, a', s, k - 1);
      var u := k - 1;
      InnerCong(q, a[u], a'[u], s[u], |s[u]|);
      ModAddCong(InnerAll(a, s, u), InnerAll(a', s, u), Inner(a[u], s[u], |s[u]|), Inner(a'[u], s[u], |s[u]|), q);
    }
  }

  /** y or -y. */
  function Signed(plus: bool, y: int): int {
    if plus then y else -y
  }

  lemma {:induction false} InnerLinear(a: seq<int>, x: seq<int>, y: seq<int>, plus: bool, s: seq<int>, i: nat)
    requires i <= |a| && i <= |x| && i <= |y| && i <= |s|
    requires forall j :: 0 <= j < i ==> a[j] == x[j] + Signed(plus, y[j])
    ensures Inner(a, s, i) == Inner(x, s, i) + Signed(plus, Inner(y, s, i))
  {
    if i > 0 {
      InnerLinear(a, x, y, plus, s, i - 1);
      var j := i - 1;
      LinearTerm(x[j], y[j], plus, s[j], Inner(y, s, j));
    }
  }

  lemma {:induction false} LinearTerm(x: int, y: int, plus: bool, s: int, t: int)
    ensures (x + Signed(plus, y)) * s == x * s + Signed(plus, y * s)
    ensures Signed(plus, t + y * s) == Signed(plus, t) + Signed(plus, y * s)
  {
    assert Signed(plus, y) * s == Signed(plus, y * s);
  }

  //////// Homomorphic addition and subtraction, in place ////////

  class Ciphertext {
    var a: Matrix
    var b: int
    const q: int

    ghost predicate Valid()
      reads this
    {
      q > 0 && 0 <= b < q && forall u, i :: 0 <= u < |a| && 0 <= i < |a[u]| ==> 0 <= a[u][i] < q
    }

    constructor (a: Matrix, b: int, q: int)
      requires q > 0 && 0 <= b < q && forall u, i :: 0 <= u < |a| && 0 <= i < |a[u]| ==> 0 <= a[u][i] < q
      ensures Valid() && this.a == a && this.b == b && this.q == q
    {
      this.a := a;
      this.b := b;
      this.q := q;
    }
  }

  /** x + y or x - y, coefficient by coefficient, modulo q. */
  function Combine(q: int, plus: bool, x: Matrix, y: Matrix): (r: Matrix)
    requires q > 0 && SameShape(x, y)
    ensures SameShape(r, x)
  {
    seq(|x|, u requires 0 <= u < |x| => seq(|x[u]|, i requires 0 <= i < |x[u]| => Residue(x[u][i] + Signed(plus, y[u][i]), q)))
  }

  method EvalAddEq(ct1: Ciphertext, ct2: Ciphertext)
    requires ct1.Valid() && ct2.Valid() && ct1.q == ct2.q && SameShape(ct1.a, ct2.a)
    modifies ct1
    ensures ct1.Valid() && ct1.a == Combine(ct1.q, true, old(ct1.a), old(ct2.a))
    ensures ct1.b == Residue(old(ct1.b) + old(ct2.b), ct1.q)
  {
    CombineInPlace(ct1, ct2, true);
  }

  method EvalSubEq(ct1: Ciphertext, ct2: Ciphertext)
    requires ct1.Valid() && ct2.Valid() && ct1.q == ct2.q && SameShape(ct1.a, ct2.a)
    modifies ct1
    ensures ct1.Valid() && ct1.a == Combine(ct1.q, false, old(ct1.a), old(ct2.a))
    ensures ct1.b == Residue(old(ct1.b) - old(ct2.b), ct1.q)
  {
    CombineInPlace(ct1, ct2, false);
  }

  /** The loop over users of EvalAddEq and EvalSubEq. */
  method CombineInPlace(ct1: Ciphertext, ct2: Ciphertext, plus: bool)
    requires ct1.Valid() && ct2.Valid() && ct1.q == ct2.q && SameShape(ct1.a, ct2.a)
    modifies ct1
    ensures ct1.Valid() && ct1.a == Combine(ct1.q, plus, old(ct1.a), old(ct2.a))
    ensures ct1.b == Residue(old(ct1.b) + Signed(plus, old(ct2.b)), ct1.q)
  {
    ghost var x, y, r := ct1.a, ct2.a, Combine(ct1.q, plus, ct1.a, ct2.a);
    var y2, q := ct2.a, ct1.q;
    var b2 := ct2.b;
    for u := 0 to |ct1.a|
      invariant |ct1.a| == |x| && ct1.b == old(ct1.b)
      invariant forall v :: 0 <= v < |x| ==> ct1.a[v] == if v < u then r[v] else x[v]
    {
      var row := ct1.a[u];
      for i := 0 to |row|
        invariant |row| == |x[u]| && forall j :: 0 <= j < |row| ==> row[j] == if j < i then r[u][j] else x[u][j]
      {
        row := row[i := Residue(row[i] + Signed(plus, y2[u][i]), q)];
      }
      assert row == r[u];
      ct1.a := ct1.a[u := row];
    }
    assert ct1.a == r;
    ct1.b := Residue(ct1.b + Signed(plus, b2), q);
  }

  lemma {:induction false} CombineRow(q: int, plus: bool, x: seq<int>, y: seq<int>, r: seq<int>, s: seq<int>)
    requires q > 0 && |x| == |y| == |r| == |s|
    requires forall i :: 0 <= i < |x| ==> r[i] == Residue(x[i] + Signed(plus, y[i]), q)
    ensures Residue(Inner(r, s, |s|), q) == Residue(Inner(x, s, |s|) + Signed(plus, Inner(y, s, |s|)), q)
  {
    hide Signed, Inner, Residue, RowSum;
    var z := RowSum(plus, x, y);
    ReducedRow(q, z, r, s);
    InnerLinear(z, x, y, plus, s, |s|);
  }

  function RowSum(plus: bool, x: seq<int>, y: seq<int>): (r: seq<int>)
    requires |x| == |y|
    ensures |r| == |x| && forall i :: 0 <= i < |x| ==> r[i] == x[i] + Signed(plus, y[i])
  {
    seq(|x|, i requires 0 <= i < |x| => x[i] + Signed(plus, y[i]))
  }

  lemma {:induction false} ReducedRow(q: int, z: seq<int>, r: seq<int>, s: seq<int>)
    requires q > 0 && |z| == |r| == |s| && forall i :: 0 <= i < |z| ==> r[i] == Residue(z[i], q)
    ensures Residue(Inner(r, s, |s|), q) == Residue(Inner(z, s, |s|), q)
  {
    forall j | 0 <= j < |s| ensures r[j] % q == z[j] % q { ModOfMod(z[j], q); }
    InnerCong(q, r, z, s, |s|);
  }

  lemma {:induction false} CombineInner(q: int, plus: bool, x: Matrix, y: Matrix, s: Matrix, k: nat)
    requires q > 0 && SameShape(x, y) && SameShape(x, s) && k <= |x|
    ensures Residue(InnerAll(Combine(q, plus, x, y), s, k), q) == Residue(InnerAll(x, s, k) + Signed(plus, InnerAll(y, s, k)), q)
  {
    hide Inner, Signed, Residue;
    if k == 0 {
      SignedZero(plus);
    } else {
      var u, r := k - 1, Combine(q, plus, x, y);
      CombineInner(q, plus, x, y, s, u);
      assert |r[u]| == |x[u]| && forall i :: 0 <= i < |x[u]| ==> r[u][i] == Residue(x[u][i] + Signed(plus, y[u][i]), q);
      hide Combine;
      CombineRow(q, plus, x[u], y[u], r[u], s[u]);
      SumTerms(q, plus, InnerAll(r, s, u), InnerAll(x, s, u), InnerAll(y, s, u),
               Inner(r[u], s[u], |s[u]|), Inner(x[u], s[u], |s[u]|), Inner(y[u], s[u], |s[u]|));
    }
  }

  lemma {:induction false} SignedZero(plus: bool)
    ensures Signed(plus, 0) == 0
  {
  }

  lemma {:induction false} SumTerms(q: int, plus: bool, r: int, x: int, y: int, r': int, x': int, y': int)
    requires q > 0 && Residue(r, q) == Residue(x + Signed(plus, y), q) && Residue(r', q) == Residue(x' + Signed(plus, y'), q)
    ensures Residue(r + r', q) == Residue(x + x' + Signed(plus, y + y'), q)
  {
    ModAddCong(r, x + Signed(plus, y), r', x' + Signed(plus, y'), q);
    assert Signed(plus, y + y') == Signed(plus, y) + Signed(plus, y');
  }

  /** Adding or subtracting ciphertexts adds or subtracts their phases modulo q. */
  lemma {:induction false} CombinePhase(q: int, plus: bool, x: Matrix, bx: int, y: Matrix, cy: int, s: Matrix)
    requires q > 0 && SameShape(x, y) && SameShape(x, s) && SameShape(y, s) && SameShape(Combine(q, plus, x, y), s)
    ensures Phase(Combine(q, plus, x, y), (bx + Signed(plus, cy)) % q, s) % q == (Phase(x, bx, s) + Signed(plus, Phase(y, cy, s))) % q
  {
    CombineInner(q, plus, x, y, s, |x|);
    var b := bx + Signed(plus, cy);
    ModOfMod(b, q);
    ModAddCong(b % q, b, InnerAll(Combine(q, plus, x, y), s, |x|), InnerAll(x, s, |x|) + Signed(plus, InnerAll(y, s, |x|)), q);
    assert Signed(plus, cy - InnerAll(y, s, |x|)) == Signed(plus, cy) - Signed(plus, InnerAll(y, s, |x|));
  }

  //////// Modulus switching ////////

  /** floor(1/2 + v·q/Q) mod q. */
  function RoundqQ(v: int, q: int, Q: int): (r: int)
    requires q > 0 && Q > 0
    ensures 0 <= r < q
  {
    ((2 * (v * q) + Q) / (2 * Q)) % q
  }

  /** The nearest integer to v·q/Q modulo q, halves rounded up. */
  lemma {:induction false} RoundWitness(v: int, q: int, Q: int) returns (eps: int, t: int)
    requires q > 0 && Q > 0
    ensures 2 * Q * RoundqQ(v, q, Q) == 2 * q * v + eps + 2 * Q * q * t && -Q < eps <= Q
  {
    var y := 2 * (v * q) + Q;
    var r := y / (2 * Q);
    DivMod(y, 2 * Q);
    DivMod(r, q);
    eps := Q - y % (2 * Q);
    t := -(r / q);
    RoundAlgebra(v, q, Q, y, r, r % q, r / q);
  }

  lemma {:induction false} RoundAlgebra(v: int, q: int, Q: int, y: int, r: int, m: int, d: int)
    requires r == m + q * d && y == 2 * (v * q) + Q
    ensures 2 * Q * m == 2 * q * v + (Q - (y - 2 * Q * r)) + 2 * Q * q * (-d)
  {
    assert 2 * Q * m == 2 * Q * r - 2 * Q * (q * d);
    assert 2 * Q * (q * d) == 2 * Q * q * d;
    assert 2 * Q * q * (-d) == -(2 * Q * q * d);
    assert 2 * q * v == 2 * (v * q);
  }

  method ModSwitch(q: int, Q: int, a: Matrix, b: int) returns (a': Matrix, b': int)
    requires q > 0 && Q > 0
    ensures a' == SwitchAll(q, Q, a) && b' == RoundqQ(b, q, Q)
  {
    a' := [];
    for u := 0 to |a|
      invariant |a'| == u && forall v :: 0 <= v < u ==> a'[v] == SwitchAll(q, Q, a)[v]
    {
      var row := [];
      for i := 0 to |a[u]|
        invariant |row| == i && forall j :: 0 <= j < i ==> row[j] == RoundqQ(a[u][j], q, Q)
      {
        row := row + [RoundqQ(a[u][i], q, Q)];
      }
      assert row == SwitchAll(q, Q, a)[u];
      a' := a' + [row];
    }
    b' := RoundqQ(b, q, Q);
  }

  function SwitchAll(q: int, Q: int, a: Matrix): (r: Matrix)
    requires q > 0 && Q > 0
    ensures SameShape(r, a)
  {
    seq(|a|, u requires 0 <= u < |a| => seq(|a[u]|, i requires 0 <= i < |a[u]| => RoundqQ(a[u][i], q, Q)))
  }

  function Abs(x: int): nat { if x < 0 then -x else x }

  function AbsSum(s: seq<int>, i: nat): nat
    requires i <= |s|
  {
    if i == 0 then 0 else AbsSum(s, i - 1) + Abs(s[i - 1])
  }

  function AbsSumAll(s: Matrix, k: nat): nat
    requires k <= |s|
  {
    if k == 0 then 0 else AbsSumAll(s, k - 1) + AbsSum(s[k - 1], |s[k - 1]|)
  }

  lemma {:induction false} SwitchInner(q: int, Q: int, a: seq<int>, a': seq<int>, s: seq<int>, i: nat) returns (eps: int, t: int)
    requires q > 0 && Q > 0 && i <= |a| && i <= |a'| && i <= |s|
    requires forall j :: 0 <= j < i ==> a'[j] == RoundqQ(a[j], q, Q)
    ensures 2 * Q * Inner(a', s, i) == 2 * q * Inner(a, s, i) + eps + 2 * Q * q * t
    ensures Abs(eps) <= Q * AbsSum(s, i)
  {
    if i == 0 {
      eps, t := 0, 0;
    } else {
      var j := i - 1;
      var e0, t0 := SwitchInner(q, Q, a, a', s, j);
      var e1, t1 := RoundWitness(a[j], q, Q);
      eps, t := e0 + e1 * s[j], t0 + t1 * s[j];
      SwitchTerm(q, Q, a[j], a'[j], s[j], e1, t1, t0, Inner(a', s, j), Inner(a, s, j));
      ErrorTerm(Q, e1, s[j], AbsSum(s, j));
    }
  }

  lemma {:induction false} SwitchTerm(q: int, Q: int, a: int, a': int, s: int, e: int, t: int, t0: int, x': int, x: int)
    requires 2 * Q * a' == 2 * q * a + e + 2 * Q * q * t
    ensures 2 * Q * (x' + a' * s) == 2 * Q * x' + (2 * q * (a * s) + e * s + 2 * Q * q * (t * s))
    ensures 2 * q * (x + a * s) == 2 * q * x + 2 * q * (a * s)
    ensures 2 * Q * q * (t0 + t * s) == 2 * Q * q * t0 + 2 * Q * q * (t * s)
  {
    calc {
      2 * Q * (a' * s);
      (2 * Q * a') * s;
      (2 * q * a + e + 2 * Q * q * t) * s;
      (2 * q * a) * s + e * s + (2 * Q * q * t) * s;
      { assert (2 * q * a) * s == 2 * q * (a * s); assert (2 * Q * q * t) * s == 2 * Q * q * (t * s); }
      2 * q * (a * s) + e * s + 2 * Q * q * (t * s);
    }
    assert 2 * Q * (x' + a' * s) == 2 * Q * x' + 2 * Q * (a' * s);
  }

  lemma {:induction false} ErrorTerm(Q: int, e: int, s: int, c: int)
    requires Q > 0 && -Q <= e <= Q
    ensures Abs(e * s) <= Q * Abs(s) && Q * (c + Abs(s)) == Q * c + Q * Abs(s)
  {
    AbsMul(e, s);
    MulMono(Abs(e), Q, Abs(s));
  }

  lemma {:induction false} AbsMul(x: int, y: int)
    ensures Abs(x * y) == Abs(x) * Abs(y)
  {
    if x >= 0 && y >= 0 { MulNonNeg(x, y); }
    else if x >= 0 { MulNonNeg(x, -y); assert x * -y == -(x * y); }
    else if y >= 0 { MulNonNeg(-x, y); assert -x * y == -(x * y); }
    else { MulNonNeg(-x, -y); assert -x * -y == x * y; }
  }

  lemma {:induction false} SwitchInnerAll(q: int, Q: int, a: Matrix, s: Matrix, k: nat) returns (eps: int, t: int)
    requires q > 0 && Q > 0 && SameShape(a, s) && k <= |a| && SameShape(SwitchAll(q, Q, a), s)
    ensures 2 * Q * InnerAll(SwitchAll(q, Q, a), s, k) == 2 * q * InnerAll(a, s, k) + eps + 2 * Q * q * t
    ensures Abs(eps) <= Q * AbsSumAll(s, k)
  {
    if k == 0 {
      eps, t := 0, 0;
    } else {
      var u := k - 1;
      var e0, t0 := SwitchInnerAll(q, Q, a, s, u);
      var a' := SwitchAll(q, Q, a);
      var e1, t1 := SwitchInner(q, Q, a[u], a'[u], s[u], |s[u]|);
      eps, t := e0 + e1, t0 + t1;
      SumOfSwitches(q, Q, InnerAll(a', s, u), Inner(a'[u], s[u], |s[u]|), InnerAll(a, s, u), Inner(a[u], s[u], |s[u]|),
                    t0, t1, AbsSumAll(s, u), AbsSum(s[u], |s[u]|));
    }
  }

  lemma {:induction false} SumOfSwitches(q: int, Q: int, x': int, y': int, x: int, y: int, t: int, r: int, c: int, d: int)
    ensures 2 * Q * (x' + y') == 2 * Q * x' + 2 * Q * y' && 2 * q * (x + y) == 2 * q * x + 2 * q * y
    ensures 2 * Q * q * (t + r) == 2 * Q * q * t + 2 * Q * q * r && Q * (c + d) == Q * c + Q * d
  {
    assert 2 * Q * q * (t + r) == 2 * Q * q * t + 2 * Q * q * r;
  }

  /** Switching to modulus q rescales the phase by q/Q with an error of at most (1 + sum |s|)/2:
      2Q·phase' = 2q·phase + eps modulo 2Qq, with |eps| <= Q(1 + sum |s|). */
  lemma {:induction false} ModSwitchPhase(q: int, Q: int, a: Matrix, b: int, s: Matrix) returns (eps: int, t: int)
    requires q > 0 && Q > 0 && SameShape(a, s)
    ensures SameShape(SwitchAll(q, Q, a), s)
    ensures 2 * Q * Phase(SwitchAll(q, Q, a), RoundqQ(b, q, Q), s) == 2 * q * Phase(a, b, s) + eps + 2 * Q * q * t
    ensures Abs(eps) <= Q * (1 + AbsSumAll(s, |s|))
  {
    var e0, t0 := SwitchInnerAll(q, Q, a, s, |a|);
    var e1, t1 := RoundWitness(b, q, Q);
    eps, t := e1 - e0, t1 - t0;
    var x', x := InnerAll(SwitchAll(q, Q, a), s, |a|), InnerAll(a, s, |a|);
    DiffOfSwitches(q, Q, RoundqQ(b, q, Q), x', b, x, t1, t0, AbsSumAll(s, |s|));
  }

  lemma {:induction false} DiffOfSwitches(q: int, Q: int, x': int, y': int, x: int, y: int, t: int, r: int, c: int)
    ensures 2 * Q * (x' - y') == 2 * Q * x' - 2 * Q * y' && 2 * q * (x - y) == 2 * q * x - 2 * q * y
    ensures 2 * Q * q * (t - r) == 2 * Q * q * t - 2 * Q * q * r && Q * (1 + c) == Q + Q * c
  {
    assert 2 * Q * q * (t - r) == 2 * Q * q * t - 2 * Q * q * r;
  }
}
