/** Test polynomials, their rotation, and reading off one coefficient. */
module TestPolynomial {
  import opened NegacyclicRing
  import opened RingModulus
  import opened Arithmetic
  import opened MkLwe

  /** Coefficient t of X^e·a for 0 <= e < 2N. */
  lemma {:induction false} MonoCoefficient(e: nat, a: Poly, t: nat)
    requires t < |a| && e < 2 * |a|
    ensures Mono(e, a)[t] ==
      var n := |a|;
      if e < n then (if t < e then -a[n - e + t] else a[t - e])
      else (if t < e - n then a[2 * n - e + t] else -a[t - (e - n)])
  {
    var n := |a|;
    DivModUnique(e, 2 * n, 0, e);
    if e < n {
      ShiftsForm(e, a);
      RotatedIndex(e, a, t);
    } else {
      OneMoreTurn(e - n, a);
      ShiftsForm(e - n, a);
      RotatedIndex(e - n, a, t);
    }
  }

  lemma {:induction false} RotatedIndex(e: nat, a: Poly, t: nat)
    requires t < |a| && e < |a|
    ensures (Scale(-1, a[|a| - e..]) + a[..|a| - e])[t] == if t < e then -a[|a| - e + t] else a[t - e]
  {
  }

  /** +h on the first half, -h on the second. */
  function HalfPlane(n: nat, h: int): (r: Poly)
    ensures |r| == n
  {
    seq(n, j => if j < n / 2 then h else -h)
  }

  /** The constant coefficient of X^theta·HalfPlane is -h exactly for theta in (N/2, 3N/2]. */
  lemma {:induction false} RotatedHalfPlane(n: nat, h: int, theta: int)
    requires n > 0 && n % 2 == 0
    ensures var e := theta % (2 * n);
            Mono(theta, HalfPlane(n, h))[0] == if n / 2 < e <= n + n / 2 then -h else h
  {
    var e := theta % (2 * n);
    ModOfMod(theta, 2 * n);
    MonoMod(theta, e, HalfPlane(n, h));
    MonoCoefficient(e, HalfPlane(n, h), 0);
  }

  /** X -> X^-1 on coefficients. */
  function Transpose(c: Poly): (r: Poly)
    ensures |r| == |c|
  {
    seq(|c|, j requires 0 <= j < |c| => if j == 0 then c[0] else -c[|c| - j])
  }

  lemma {:induction false} TransposeIsShift(c: Poly, j: nat)
    requires j < |c|
    ensures Shifts(j, c)[0] == Transpose(c)[j]
  {
    ShiftsForm(j, c);
    if j > 0 {
      RotatedIndex(j, c, 0);
    }
  }

  lemma {:induction false} ConstantOfEval(s: Poly, c: Poly, i: nat)
    requires |s| == |c| > 0 && i <= |s|
    ensures Eval(s[..i], 1, c)[0] == Inner(Transpose(c), s, i)
  {
    hide Shifts, Transpose;
    if i > 0 {
      ConstantOfEval(s, c, i - 1);
      TakeOneMore(s, i - 1);
      ConstantOfAppend(s[..i - 1], s[i - 1], i - 1, c);
    }
  }

  lemma {:induction false} TakeOneMore(s: Poly, i: nat)
    requires i < |s|
    ensures s[..i + 1] == s[..i] + [s[i]]
  {
  }

  lemma {:induction false} ConstantOfAppend(p: seq<int>, x: int, i: nat, c: Poly)
    requires |p| == i < |c|
    ensures Eval(p + [x], 1, c)[0] == Eval(p, 1, c)[0] + Transpose(c)[i] * x
  {
    hide Eval, Shifts, Transpose;
    EvalAppend(p, x, 1, i, c);
    TransposeIsShift(c, i);
  }

  /** The inner product of Transpose(c) with s is the constant coefficient of c·s. */
  lemma {:induction false} Extraction(c: Poly, s: Poly)
    requires |c| == |s| > 0
    ensures Inner(Transpose(c), s, |s|) == Mul(s, c)[0]
  {
    ConstantOfEval(s, c, |s|);
    assert s[..|s|] == s;
  }

  /** The rotated test polynomial X^b·Rx of BootstrapGateCore, written coefficient by coefficient. */
  method RotatedTest(n: nat, Q: int, h: int, b: nat) returns (r: Poly)
    requires n > 0 && 0 < h < Q && b < 2 * n
    ensures |r| == n && forall i :: 0 <= i < n ==> 0 <= r[i] < Q
    ensures Cong(Q, r, Mono(b, HalfPlane(n, h)))
  {
    hide Mono, Cong;
    var rx := seq(n, j => if j < n / 2 then h else Q - h);
    r := seq(n, _ => 0);
    ghost var beta, hp := if b < n then b else b - n, HalfPlane(n, h);
    for j := 0 to n
      invariant |r| == n && forall i :: 0 <= i < n ==> 0 <= r[i] < Q
      invariant forall t :: beta <= t < n && t - beta < j ==> r[t] == Entry(Q, rx, b < n, t - beta)
      invariant forall t :: 0 <= t < beta && t + n - beta < j ==> r[t] == Entry(Q, rx, b >= n, t + n - beta)
    {
      var index := b + j;
      IndexModN(n, b, j);
      if index >= n && index < 2 * n {
        r := r[index % n := Q - rx[j]];
      } else {
        r := r[index % n := rx[j]];
      }
    }
    ghost var w := seq(n, t requires 0 <= t < n => Wrap(n, b < n, beta, t));
    forall t | 0 <= t < n ensures r[t] == Mono(b, hp)[t] + Q * w[t] {
      MonoCoefficient(b, hp, t);
    }
    CongByCoefficients(Q, r, Mono(b, hp), w);
  }

  function Entry(Q: int, rx: seq<int>, keep: bool, j: nat): int
    requires j < |rx|
  {
    if keep then rx[j] else Q - rx[j]
  }

  lemma {:induction false} IndexModN(n: nat, b: nat, j: nat)
    requires n > 0 && b < 2 * n && j < n
    ensures (b + j) % n == if b + j < n then b + j else if b + j < 2 * n then b + j - n else b + j - 2 * n
  {
    if b + j < n {
      DivModUnique(b + j, n, 0, b + j);
    } else if b + j < 2 * n {
      DivModUnique(b + j, n, 1, b + j - n);
    } else {
      DivModUnique(b + j, n, 2, b + j - 2 * n);
    }
  }

  /** How many Qs the stored representative adds at position t. */
  function Wrap(n: nat, low: bool, beta: nat, t: nat): int
    requires t < n && beta <= n
  {
    var j := if t < beta then t + n - beta else t - beta;
    var keep := if t < beta then !low else low;
    if keep then (if j < n / 2 then 0 else 1) else (if j < n / 2 then 1 else 0)
  }
}
