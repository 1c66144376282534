/** What the exponent of an LMKCDEY run means for the LWE phase. */
module LmkcdeyExponent {
  import opened Arithmetic
  import opened MkLwe
  import opened LmkcdeySchedule

  /** The exponent encrypted for a secret coefficient: (s mod q)·(2N/q). */
  function KeyExponent(q: nat, M: nat, s: int): int
    requires q > 0
  {
    (s % q) * (M / q)
  }

  function KeyExponents(q: nat, M: nat, s: seq<int>): (r: seq<int>)
    requires q > 0
    ensures |r| == |s|
  {
    seq(|s|, j requires 0 <= j < |s| => KeyExponent(q, M, s[j]))
  }

  /** The secrets of the coefficients that are rounded to odd. */
  function RoundedUp(a: seq<int>, s: seq<int>, n: nat): int
    requires n <= |a| && n <= |s|
  {
    if n == 0 then 0 else RoundedUp(a, s, n - 1) + if a[n - 1] % 2 == 0 then s[n - 1] else 0
  }

  lemma {:induction false} KeyExponentScaled(q: nat, r: nat, s: int)
    requires q > 0 && r > 0
    ensures q * r > 0 && Residue(KeyExponent(q, q * r, s), q * r) == Residue(s * r, q * r)
  {
    DivModUnique(q * r, q, r, 0);
    DivMod(s, q);
    var t := s / q;
    assert s * r == (s % q) * r + q * r * t by { Distribute(r, s % q, q * t); Arithmetic.Regroup(r, q, t); assert r * q == q * r; }
    ModShift(s * r, (s % q) * r, q * r, t);
  }

  lemma {:induction false} OddOfForm(M: nat, x: int) returns (t: int)
    requires M > 0 && M % 2 == 0 && 0 <= x < M
    ensures OddOf(M, x) == (if x % 2 == 0 then 1 else 0) - x + M * t
  {
    t := if x == 0 then 0 else 1;
  }

  lemma {:induction false} TermForm(M: nat, r: int, x: int, s: int, e: int)
    requires M > 0 && M % 2 == 0 && 0 <= x < M && Residue(e, M) == Residue(s * r, M)
    ensures Residue(OddOf(M, x) * e, M) == Residue(r * ((if x % 2 == 0 then s else 0) - x * s), M)
  {
    var t := OddOfForm(M, x);
    var o, up := OddOf(M, x), if x % 2 == 0 then 1 else 0;
    hide OddOf;
    ModShift(o, up - x, M, t);
    ModMulCong(o, up - x, e, s * r, M);
    TermAlgebra(up, x, s, r);
  }

  lemma {:induction false} TermAlgebra(up: int, x: int, s: int, r: int)
    requires 0 <= up <= 1
    ensures (up - x) * (s * r) == r * ((if up == 1 then s else 0) - x * s)
  {
    var v := (up - x) * s;
    assert v == (if up == 1 then s else 0) - x * s;
    assert (up - x) * (s * r) == r * v by { Arithmetic.Regroup(up - x, s, r); }
  }

  /** For q dividing 2N, the run rotates by (2N/q)·(-<a, s> + the secrets of the even a_j). */
  lemma {:induction false} ScheduleExponent(q: nat, r: nat, a: seq<int>, s: seq<int>, n: nat)
    requires q > 0 && r > 0 && q * r > 0 && InRange(q * r, a) && |s| == |a| && n <= |a|
    ensures Residue(Sum(Contributions(q * r, a, KeyExponents(q, q * r, s)), n), q * r)
         == Residue(r * (RoundedUp(a, s, n) - Inner(a, s, n)), q * r)
  {
    hide KeyExponent, OddOf, Residue;
    var M := q * r;
    if n == 0 {
      assert r * 0 == 0;
    } else {
      var j, w := n - 1, Contributions(M, a, KeyExponents(q, M, s));
      ScheduleExponent(q, r, a, s, j);
      KeyExponentScaled(q, r, s[j]);
      TermForm(M, r, a[j], s[j], KeyExponent(q, M, s[j]));
      AddTerm(M, r, Sum(w, j), RoundedUp(a, s, j) - Inner(a, s, j), w[j], (if a[j] % 2 == 0 then s[j] else 0) - a[j] * s[j]);
    }
  }

  lemma {:induction false} AddTerm(M: int, r: int, x: int, u: int, y: int, v: int)
    requires M > 0 && Residue(x, M) == Residue(r * u, M) && Residue(y, M) == Residue(r * v, M)
    ensures Residue(x + y, M) == Residue(r * (u + v), M)
  {
    ModAddCong(x, r * u, y, r * v, M);
    Distribute(r, u, v);
  }
}
