/** Switching a matrix-NTRU ciphertext, with the key itself or with a table of its multiples. */
module MatrixSwitch {
  import opened Arithmetic
  import opened MkLwe
  import opened MkLweKeys
  import opened MatrixNtru

  predicate Reduced(q: int, x: seq<int>) {
    forall i :: 0 <= i < |x| ==> 0 <= x[i] < q
  }

  /** Entry i·d + j is digit j of coefficient i. */
  function HatDigit(base: nat, d: nat, c: seq<int>, l: nat): (r: nat)
    requires base > 0 && d > 0 && l < Times(|c|, d) && forall i :: 0 <= i < |c| ==> c[i] >= 0
    ensures r < base
  {
    RowIndex(|c|, d, l);
    UDigit(base, c[l / d], l % d)
  }

  /** ctQN_hat: d base-B digits per coefficient. */
  ghost predicate IsDigits(base: nat, d: nat, c: seq<int>, hat: seq<int>) {
    base > 0 && d > 0 && |hat| == Times(|c|, d) && (forall i :: 0 <= i < |c| ==> c[i] >= 0) &&
    forall l :: 0 <= l < |hat| ==> hat[l] == HatDigit(base, d, c, l)
  }

  method DigitVector(q: int, base: nat, d: nat, c: seq<int>) returns (hat: seq<int>)
    requires base > 0 && d > 0 && Reduced(q, c)
    ensures IsDigits(base, d, c, hat) && forall l :: 0 <= l < |hat| ==> 0 <= hat[l] < base
  {
    hide UDigit, Quotient, HatDigit;
    hat := seq(Times(|c|, d), _ => 0);
    for i := 0 to |c|
      invariant |hat| == Times(|c|, d) && forall l :: 0 <= l < |hat| && l < Times(i, d) ==> hat[l] == HatDigit(base, d, c, l)
    {
      var ctmp := c[i];
      DigitStart(base, c[i]);
      for j := 0 to d
        invariant |hat| == Times(|c|, d) && ctmp == Quotient(base, c[i], j)
        invariant forall l :: 0 <= l < |hat| && l < Times(i, d) + j ==> hat[l] == HatDigit(base, d, c, l)
      {
        HatSlot(base, d, c, i, j);
        DigitStep(base, c[i], j);
        var c0 := ctmp % base;
        ctmp := ctmp / base;
        hat := hat[Times(i, d) + j := c0];
      }
      TimesStep(i + 1, d);
    }
  }

  lemma {:induction false} HatSlot(base: nat, d: nat, c: seq<int>, i: nat, j: nat)
    requires base > 0 && i < |c| && j < d && forall i :: 0 <= i < |c| ==> c[i] >= 0
    ensures Times(i, d) + j < Times(|c|, d) && HatDigit(base, d, c, Times(i, d) + j) == UDigit(base, c[i], j)
  {
    SlotOf(|c|, d, i, j);
  }

  //////// The plain product ////////

  /** hat·K modulo q. */
  ghost predicate IsProduct(q: int, hat: seq<int>, K: Matrix, n: nat, c: seq<int>) {
    q > 0 && Rows(K, |hat|, n) && |c| == n && forall i :: 0 <= i < n ==> c[i] == Residue(Inner(hat, Column(K, n, i), |hat|), q)
  }

  method KeySwitch(q: int, base: nat, d: nat, K: Matrix, ct: seq<int>, n: nat) returns (c: seq<int>, ghost hat: seq<int>)
    requires q > 0 && base > 0 && d > 0 && Reduced(q, ct) && Rows(K, Times(|ct|, d), n)
    ensures IsDigits(base, d, ct, hat) && IsProduct(q, hat, K, n, c)
  {
    var digits := DigitVector(q, base, d, ct);
    hat := digits;
    hide IsDigits, Inner;
    c := [];
    for i := 0 to n
      invariant |c| == i && forall j :: 0 <= j < i ==> c[j] == Residue(Inner(hat, Column(K, n, j), |hat|), q)
    {
      var sum := DotMod(q, digits, Column(K, n, i));
      c := c + [sum];
    }
  }

  /** Sum of products, reduced at every step. */
  method DotMod(q: int, x: seq<int>, y: seq<int>) returns (sum: int)
    requires q > 0 && |x| == |y|
    ensures sum == Residue(Inner(x, y, |x|), q)
  {
    sum := 0;
    SmallIsZero(q);
    for l := 0 to |x|
      invariant sum == Residue(Inner(x, y, l), q)
    {
      var temp := Residue(x[l] * y[l], q);
      StepMod(q, Inner(x, y, l), x[l] * y[l]);
      sum := Residue(sum + temp, q);
    }
  }

  lemma {:induction false} SmallIsZero(q: int)
    requires q > 0
    ensures Residue(0, q) == 0
  {
    DivModUnique(0, q, 0, 0);
  }

  lemma {:induction false} StepMod(q: int, a: int, b: int)
    requires q > 0
    ensures Residue(Residue(a, q) + Residue(b, q), q) == Residue(a + b, q)
    ensures Residue(Residue(a, q) + b, q) == Residue(a + b, q)
  {
    ModAddMod(a, b, q);
    ModOfMod(a, q);
    ModAddCong(a % q, a, b, b, q);
  }

  //////// The table of multiples ////////

  /** T[v][l] = v·K[l] modulo q, for every digit v. */
  ghost predicate IsTable(q: int, base: nat, K: Matrix, n: nat, T: seq<Matrix>) {
    q > 0 && Rows(K, |K|, n) && |T| == base && (forall v :: 0 <= v < base ==> Rows(T[v], |K|, n)) &&
    forall v, l, i :: 0 <= v < base && 0 <= l < |K| && 0 <= i < n ==> T[v][l][i] == Residue(K[l][i] * v, q)
  }

  method MultiplesTable(q: int, base: nat, K: Matrix, n: nat) returns (T: seq<Matrix>)
    requires q > 0 && Rows(K, |K|, n)
    ensures IsTable(q, base, K, n, T)
  {
    hide Residue;
    T := [];
    for v := 0 to base
      invariant |T| == v && (forall w :: 0 <= w < v ==> Rows(T[w], |K|, n))
      invariant forall w, l, i :: 0 <= w < v && 0 <= l < |K| && 0 <= i < n ==> T[w][l][i] == Residue(K[l][i] * w, q)
    {
      var plane: Matrix := [];
      for l := 0 to |K|
        invariant Rows(plane, l, n) && forall l', i :: 0 <= l' < l && 0 <= i < n ==> plane[l'][i] == Residue(K[l'][i] * v, q)
      {
        var row := seq(n, i requires 0 <= i < n => Residue(K[l][i] * v, q));
        plane := plane + [row];
      }
      T := T + [plane];
    }
  }

  /** KeySwitch2 adds table rows and skips zero digits; it equals the plain product. */
  method KeySwitch2(q: int, base: nat, d: nat, T: seq<Matrix>, ct: seq<int>, n: nat, ghost K: Matrix) returns (c: seq<int>, ghost hat: seq<int>)
    requires q > 0 && base > 0 && d > 0 && Reduced(q, ct) && |K| == Times(|ct|, d) && IsTable(q, base, K, n, T)
    ensures IsDigits(base, d, ct, hat) && IsProduct(q, hat, K, n, c)
  {
    var digits := DigitVector(q, base, d, ct);
    hat := digits;
    hide IsDigits, Inner, Residue;
    c := seq(n, _ => 0);
    InnerStart(q, hat, K, n);
    for l := 0 to |digits|
      invariant |c| == n && forall i :: 0 <= i < n ==> c[i] == Residue(Inner(hat, Column(K, n, i), l), q)
    {
      var index := digits[l];
      if index != 0 {
        ghost var before := c;
        for i := 0 to n
          invariant |c| == n && forall j :: 0 <= j < n ==> c[j] == if j < i then Residue(before[j] + T[index][l][j], q) else before[j]
        {
          c := c[i := Residue(c[i] + T[index][l][i], q)];
        }
      }
      forall i | 0 <= i < n ensures c[i] == Residue(Inner(hat, Column(K, n, i), l + 1), q) {
        TableStep(q, hat, Column(K, n, i), l, K[l][i]);
      }
    }
  }

  lemma {:induction false} InnerStart(q: int, hat: seq<int>, K: Matrix, n: nat)
    requires q > 0 && Rows(K, |hat|, n)
    ensures forall i :: 0 <= i < n ==> Residue(Inner(hat, Column(K, n, i), 0), q) == 0
  {
    SmallIsZero(q);
  }

  lemma {:induction false} TableStep(q: int, hat: seq<int>, col: seq<int>, l: nat, x: int)
    requires q > 0 && |hat| == |col| && l < |hat| && col[l] == x
    ensures Residue(Inner(hat, col, l + 1), q)
         == if hat[l] == 0 then Residue(Inner(hat, col, l), q) else Residue(Residue(Inner(hat, col, l), q) + Residue(x * hat[l], q), q)
  {
    assert hat[l] * x == x * hat[l];
    StepMod(q, Inner(hat, col, l), x * hat[l]);
  }

  //////// The phase ////////

  /** The digits of c against the gadget column rebuild <c, s>. */
  lemma {:induction false} DigitsAgainstGadget(base: nat, d: nat, c: seq<int>, s: seq<int>, hat: seq<int>, i: nat)
    requires base > 0 && d > 0 && |s| == |c| && IsDigits(base, d, c, hat) && i <= |c|
    requires forall l :: 0 <= l < |c| ==> 0 <= c[l] < Pow(base, d)
    ensures Times(i, d) <= |hat| && Inner(hat, GadgetColumn(base, d, s), Times(i, d)) == Inner(c, s, i)
  {
    hide GadgetColumn, Times, UDigit, UValue, Pow, IsDigits, HatDigit, Inner;
    PrefixFits(base, d, c, hat, i);
    if i == 0 {
      NoTerms(hat, GadgetColumn(base, d, s), c, s, d);
    } else {
      var l := i - 1;
      DigitsAgainstGadget(base, d, c, s, hat, l);
      TimesStep(i, d);
      OneCoefficient(base, d, c, s, hat, l, d);
      DigitsRebuild(base, c[l], d);
      OneTerm(c, s, l);
    }
  }

  lemma {:induction false} PrefixFits(base: nat, d: nat, c: seq<int>, hat: seq<int>, i: nat)
    requires IsDigits(base, d, c, hat) && i <= |c|
    ensures Times(i, d) <= |hat| == Times(|c|, d)
  {
    MulMono(i, |c|, d);
  }

  lemma {:induction false} NoTerms(hat: seq<int>, g: seq<int>, c: seq<int>, s: seq<int>, d: nat)
    ensures Times(0, d) == 0 && Inner(hat, g, 0) == 0 == Inner(c, s, 0)
  {
  }

  lemma {:induction false} OneTerm(c: seq<int>, s: seq<int>, l: nat)
    requires l < |c| && l < |s|
    ensures Inner(c, s, l + 1) == Inner(c, s, l) + s[l] * c[l]
  {
    assert s[l] * c[l] == c[l] * s[l];
  }

  lemma {:induction false} OneCoefficient(base: nat, d: nat, c: seq<int>, s: seq<int>, hat: seq<int>, i: nat, j: nat)
    requires base > 0 && d > 0 && |s| == |c| && IsDigits(base, d, c, hat) && i < |c| && j <= d && Times(i, d) + d <= |hat| && c[i] >= 0
    ensures Inner(hat, GadgetColumn(base, d, s), Times(i, d) + j)
         == Inner(hat, GadgetColumn(base, d, s), Times(i, d)) + s[i] * UValue(base, c[i], j)
  {
    hide Inner, GadgetColumn, IsDigits, HatDigit, Pow, UDigit;
    if j == 0 {
      assert s[i] * 0 == 0;
    } else {
      OneCoefficient(base, d, c, s, hat, i, j - 1);
      var l, g := Times(i, d) + (j - 1), GadgetColumn(base, d, s);
      SlotTerm(base, d, c, s, hat, i, j - 1, l);
      Distribute(s[i], UValue(base, c[i], j - 1), Times(UDigit(base, c[i], j - 1), Pow(base, j - 1)));
    }
  }

  lemma {:induction false} SlotTerm(base: nat, d: nat, c: seq<int>, s: seq<int>, hat: seq<int>, i: nat, j: nat, l: nat)
    requires base > 0 && d > 0 && |s| == |c| && IsDigits(base, d, c, hat) && i < |c| && j < d && l == Times(i, d) + j < |hat| && c[i] >= 0
    ensures Inner(hat, GadgetColumn(base, d, s), l + 1)
         == Inner(hat, GadgetColumn(base, d, s), l) + s[i] * Times(UDigit(base, c[i], j), Pow(base, j))
  {
    SlotOf(|s|, d, i, j);
    HatSlot(base, d, c, i, j);
    var g := GadgetColumn(base, d, s);
    assert g[l] == s[i] * Pow(base, j) && hat[l] == UDigit(base, c[i], j);
    assert Inner(hat, g, l + 1) == Inner(hat, g, l) + hat[l] * g[l];
    hide Inner, GadgetColumn, IsDigits, Pow, UDigit, HatDigit;
    Arithmetic.Regroup(hat[l], s[i], Pow(base, j));
    Arithmetic.Regroup(s[i], hat[l], Pow(base, j));
  }

  /** f is the first column of F, and F_inv·F = I modulo q: F_inv·f = (1, 0, ..., 0). */
  ghost predicate FirstColumn(q: int, Finv: Matrix, n: nat, f: seq<int>, unit: seq<int>) {
    q > 0 && n > 0 && Rows(Finv, n, n) && |f| == n && |unit| == n && CongVec(q, MatVec(Finv, f), unit) &&
    forall i :: 0 <= i < n ==> unit[i] == if i == 0 then 1 else 0
  }

  lemma {:induction false} InnerUnit(x: seq<int>, unit: seq<int>, i: nat)
    requires |unit| == |x| && i <= |x| && forall j :: 0 <= j < |x| ==> unit[j] == if j == 0 then 1 else 0
    ensures Inner(x, unit, i) == if i == 0 then 0 else x[0]
  {
    if i > 0 {
      InnerUnit(x, unit, i - 1);
    }
  }

  /** Row l of the key has phase E'[l][0]. */
  lemma {:induction false} RowPhase(q: int, E': Matrix, Finv: Matrix, n: nat, K: Matrix, f: seq<int>, unit: seq<int>, l: nat)
    requires IsSwitchKey(q, E', Finv, n, K) && FirstColumn(q, Finv, n, f, unit) && l < |E'|
    ensures Residue(Inner(K[l], f, n), q) == Residue(E'[l][0], q)
  {
    hide Inner, Residue;
    CongInner(q, K[l], RowMat(E'[l], Finv, n), f);
    Associate(E'[l], Finv, f);
    CongInner(q, MatVec(Finv, f), unit, E'[l]);
    InnerUnit(E'[l], unit, n);
  }

  /** The noise picked up: sum of digit·E[l][0]. */
  function ColumnNoise(hat: seq<int>, E: Matrix, n: nat): int
    requires n > 0 && Rows(E, |hat|, n)
  {
    Inner(hat, Column(E, n, 0), |hat|)
  }

  /** Key switching preserves the phase up to the digits times the key errors:
      <c', f> = <c, s> + sum of digit_l·E[l][0] modulo q. */
  lemma {:induction false} SwitchPhase(q: int, base: nat, d: nat, s: seq<int>, E: Matrix, E': Matrix, Finv: Matrix, n: nat, K: Matrix,
                                       f: seq<int>, unit: seq<int>, ct: seq<int>, hat: seq<int>, c: seq<int>)
    requires Embedded(q, base, d, s, E, n, E') && IsSwitchKey(q, E', Finv, n, K) && FirstColumn(q, Finv, n, f, unit)
    requires |s| == |ct| && base > 0 && q <= Pow(base, d) && Reduced(q, ct) && IsDigits(base, d, ct, hat) && IsProduct(q, hat, K, n, c)
    ensures Residue(Inner(c, f, n), q) == Residue(Inner(ct, s, |ct|) + ColumnNoise(hat, E, n), q)
  {
    hide Inner, GadgetColumn, Pow, Times;
    var P, phases, first, g := RowMat(hat, K, n), MatVec(K, f), Column(E', n, 0), GadgetColumn(base, d, s);
    ProductCong(q, hat, K, n, c);
    CongInner(q, c, P, f);
    Associate(hat, K, f);
    assert CongVec(q, phases, first) by {
      forall l | 0 <= l < |hat| ensures Residue(phases[l], q) == Residue(first[l], q) {
        RowPhase(q, E', Finv, n, K, f, unit, l);
      }
    }
    CongInner(q, phases, first, hat);
    FirstColumnSum(q, base, d, s, E, n, E', hat);
    DigitsAgainstGadget(base, d, ct, s, hat, |ct|);
  }

  lemma {:induction false} ProductCong(q: int, hat: seq<int>, K: Matrix, n: nat, c: seq<int>)
    requires IsProduct(q, hat, K, n, c)
    ensures CongVec(q, c, RowMat(hat, K, n))
  {
    forall i | 0 <= i < n ensures Residue(c[i], q) == Residue(RowMat(hat, K, n)[i], q) {
      ModOfMod(Inner(hat, Column(K, n, i), |hat|), q);
    }
  }

  lemma {:induction false} FirstColumnSum(q: int, base: nat, d: nat, s: seq<int>, E: Matrix, n: nat, E': Matrix, hat: seq<int>)
    requires Embedded(q, base, d, s, E, n, E') && |hat| == |E|
    ensures Residue(Inner(hat, Column(E', n, 0), |hat|), q)
         == Residue(Inner(hat, GadgetColumn(base, d, s), |hat|) + Inner(hat, Column(E, n, 0), |hat|), q)
  {
    var a, g, e := Column(E', n, 0), GadgetColumn(base, d, s), Column(E, n, 0);
    var sum := RowSum(true, g, e);
    assert CongVec(q, a, sum) by {
      forall l | 0 <= l < |a| ensures Residue(a[l], q) == Residue(sum[l], q) {
        ModOfMod(e[l] + g[l], q);
      }
    }
    CongInner(q, a, sum, hat);
    InnerLinear(sum, g, e, true, hat, |hat|);
    InnerComm(hat, sum, |hat|);
    InnerComm(hat, g, |hat|);
    InnerComm(hat, e, |hat|);
  }
}
