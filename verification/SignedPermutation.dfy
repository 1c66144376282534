/** For N a power of two and k odd, X -> X^k permutes the coefficients up to sign. */
module SignedPermutation {
  import opened NegacyclicRing
  import opened RingModulus
  import opened Arithmetic

  /** The coefficients of ±X^(e mod N). */
  lemma {:induction false} UnitShift(e: nat, n: nat, t: nat)
    requires n > 0 && t < n
    ensures var c := Shifts(e, One(n))[t]; if Residue(e, n) == t then c == 1 || c == -1 else c == 0
  {
    if e == 0 {
      DivModUnique(0, n, 0, 0);
    } else {
      var u, p := if t == 0 then n - 1 else t - 1, Shifts(e - 1, One(n));
      assert Shifts(e, One(n)) == Shift(p);
      assert Shift(p)[t] == if t == 0 then -p[u] else p[u];
      hide Residue, Shifts, Shift, One;
      NextResidue(e - 1, n);
      UnitShift(e - 1, n, u);
    }
  }

  lemma {:induction false} NextResidue(e: nat, n: nat)
    requires n > 0
    ensures Residue(e + 1, n) == if Residue(e, n) == n - 1 then 0 else Residue(e, n) + 1
  {
    DivMod(e, n);
    var q, r := e / n, e % n;
    if r == n - 1 {
      Distribute(n, q, 1);
      DivModUnique(e + 1, n, q + 1, 0);
    } else {
      DivModUnique(e + 1, n, q, r + 1);
    }
  }

  /** 2^b divides x·k with k odd only if it divides x. */
  lemma {:induction false} OddCancel(b: nat, x: nat, k: nat, c: int)
    requires k % 2 == 1 && x * k == Pow(2, b) * c
    ensures x % Pow(2, b) == 0
  {
    if b == 0 {
      DivModUnique(x, 1, x, 0);
    } else {
      var w := Pow(2, b - 1);
      Arithmetic.Regroup(2, w, c);
      EvenFactor(x, k, w * c);
      var y := x / 2;
      Arithmetic.Regroup(2, y, k);
      OddCancel(b - 1, y, k, c);
      DivMod(y, w);
      Arithmetic.Regroup(2, w, y / w);
      DivModUnique(x, 2 * w, y / w, 0);
    }
  }

  lemma {:induction false} EvenFactor(x: nat, k: nat, z: int)
    requires k % 2 == 1 && x * k == 2 * z
    ensures x % 2 == 0
  {
    var h := k / 2;
    assert x * k == 2 * (x * h) + x by { Distribute(x, 2 * h, 1); Arithmetic.Regroup(2, x, h); }
    DivModUnique(x, 2, z - x * h, 0);
  }

  /** Multiplication by k moves different exponents to different positions. */
  lemma {:induction false} Spread(b: nat, n: nat, k: nat, i: nat, j: nat)
    requires n == Pow(2, b) && k % 2 == 1 && j < i < n
    ensures Residue(Times(i, k), n) != Residue(Times(j, k), n)
  {
    if Residue(Times(i, k), n) == Residue(Times(j, k), n) {
      var c := ModEqWitness(i * k, j * k, n);
      assert (i - j) * k == n * c by { Distribute(k, i, j); }
      OddCancel(b, i - j, k, c);
      DivModUnique(i - j, n, 0, i - j);
    }
  }

  ghost predicate Hit(n: nat, k: nat, i: nat, t: nat)
    requires n > 0
  {
    exists j: nat :: j < i && Residue(Times(j, k), n) == t
  }

  lemma {:induction false} PrefixBound(b: nat, k: nat, a: Poly, beta: nat, i: nat, t: nat)
    requires |a| == Pow(2, b) && k % 2 == 1 && Bounded(a, beta) && i <= |a| && t < |a|
    ensures var c := Eval(a[..i], k, One(|a|))[t]; 0 - beta <= c <= beta && (c != 0 ==> Hit(|a|, k, i, t))
  {
    hide Bounded, Shifts, One;
    var n := |a|;
    if i == 0 {
      assert Eval(a[..0], k, One(n)) == Zero(n);
    } else {
      PrefixBound(b, k, a, beta, i - 1, t);
      var p, x, e := a[..i - 1], a[i - 1], Times(i - 1, k);
      assert a[..i] == p + [x];
      EvalAppend(p, x, k, e, One(n));
      UnitShift(e, n, t);
      hide Eval;
      if Residue(e, n) == t && Hit(n, k, i - 1, t) {
        var j: nat :| j < i - 1 && Residue(Times(j, k), n) == t;
        Spread(b, n, k, i - 1, j);
        assert false;
      }
      Sum(Eval(p, k, One(n)), x, Shifts(e, One(n)), t);
      CoefficientBound(a, beta, i - 1);
      if Residue(e, n) == t {
        assert Hit(n, k, i, t);
      } else if Hit(n, k, i - 1, t) {
        var j: nat :| j < i - 1 && Residue(Times(j, k), n) == t;
        assert Hit(n, k, i, t);
      }
    }
  }

  lemma {:induction false} CoefficientBound(a: Poly, beta: nat, i: nat)
    requires Bounded(a, beta) && i < |a|
    ensures 0 - beta <= a[i] <= beta
  {
  }

  lemma {:induction false} Sum(a: Poly, x: int, s: Poly, t: nat)
    requires |a| == |s| && t < |a|
    ensures Add(a, Scale(x, s))[t] == a[t] + x * s[t]
  {
  }

  /** An automorphism does not change the size of an element. */
  lemma {:induction false} BoundedAuto(b: nat, k: nat, a: Poly, beta: nat)
    requires |a| == Pow(2, b) && k % 2 == 1 && Bounded(a, beta)
    ensures Bounded(Auto(k, a), beta)
  {
    forall t | 0 <= t < |a| ensures 0 - beta <= Auto(k, a)[t] <= beta {
      PrefixBound(b, k, a, beta, |a|, t);
      assert a[..|a|] == a;
    }
  }
}
