/** Matrix-NTRU key switching: key generation with a blocked matrix product, the vector-matrix
    product, and the table-lookup variant. */
module MatrixNtru {
  import opened Arithmetic
  import opened MkLwe
  import opened MkLweKeys

  //////// Vectors and matrices ////////

  predicate Rows(m: Matrix, rows: nat, cols: nat) {
    |m| == rows && forall l :: 0 <= l < rows ==> |m[l]| == cols
  }

  function Column(m: Matrix, cols: nat, j: nat): (r: seq<int>)
    requires Rows(m, |m|, cols) && j < cols
    ensures |r| == |m| && forall l :: 0 <= l < |m| ==> r[l] == m[l][j]
  {
    seq(|m|, l requires 0 <= l < |m| => m[l][j])
  }

  /** x·m. */
  function RowMat(x: seq<int>, m: Matrix, cols: nat): (r: seq<int>)
    requires Rows(m, |x|, cols)
    ensures |r| == cols && forall j :: 0 <= j < cols ==> r[j] == Inner(x, Column(m, cols, j), |x|)
  {
    seq(cols, j requires 0 <= j < cols => Inner(x, Column(m, cols, j), |x|))
  }

  /** m·v. */
  function MatVec(m: Matrix, v: seq<int>): (r: seq<int>)
    requires Rows(m, |m|, |v|)
    ensures |r| == |m| && forall l :: 0 <= l < |m| ==> r[l] == Inner(m[l], v, |v|)
  {
    seq(|m|, l requires 0 <= l < |m| => Inner(m[l], v, |v|))
  }

  /** Partial sums: the first i rows of x·m against the first j entries of v. */
  function Double(x: seq<int>, m: Matrix, v: seq<int>, i: nat, j: nat): int
    requires Rows(m, |x|, |v|) && i <= |x| && j <= |v|
  {
    if i == 0 then 0 else Double(x, m, v, i - 1, j) + x[i - 1] * Inner(m[i - 1], v, j)
  }

  lemma {:induction false} DoubleByRows(x: seq<int>, m: Matrix, v: seq<int>, i: nat)
    requires Rows(m, |x|, |v|) && i <= |x|
    ensures Double(x, m, v, i, |v|) == Inner(x, MatVec(m, v), i)
  {
    if i > 0 {
      DoubleByRows(x, m, v, i - 1);
    }
  }

  lemma {:induction false} DoubleNoColumns(x: seq<int>, m: Matrix, v: seq<int>, i: nat)
    requires Rows(m, |x|, |v|) && i <= |x|
    ensures Double(x, m, v, i, 0) == 0
  {
    if i > 0 {
      DoubleNoColumns(x, m, v, i - 1);
      assert x[i - 1] * 0 == 0;
    }
  }

  lemma {:induction false} DoubleNextColumn(x: seq<int>, m: Matrix, v: seq<int>, i: nat, j: nat)
    requires Rows(m, |x|, |v|) && i <= |x| && j < |v|
    ensures Double(x, m, v, i, j + 1) == Double(x, m, v, i, j) + Inner(x, Column(m, |v|, j), i) * v[j]
  {
    if i > 0 {
      DoubleNextColumn(x, m, v, i - 1, j);
      var l, col := i - 1, Column(m, |v|, j);
      assert Inner(m[l], v, j + 1) == Inner(m[l], v, j) + m[l][j] * v[j];
      assert Inner(x, col, i) == Inner(x, col, l) + x[l] * m[l][j];
      assert Double(x, m, v, i, j + 1) == Double(x, m, v, l, j + 1) + x[l] * Inner(m[l], v, j + 1);
      assert Double(x, m, v, i, j) == Double(x, m, v, l, j) + x[l] * Inner(m[l], v, j);
      hide Inner, Double, Column;
      NextTerm(x[l], Inner(m[l], v, j), m[l][j], v[j], Inner(x, col, l));
    }
  }

  lemma {:induction false} NextTerm(x: int, s: int, m: int, v: int, t: int)
    ensures x * (s + m * v) == x * s + (x * m) * v && (t + x * m) * v == t * v + (x * m) * v
  {
    Distribute(x, s, m * v);
    Arithmetic.Regroup(x, m, v);
    Distribute(v, t, x * m);
  }

  lemma {:induction false} DoubleByColumns(x: seq<int>, m: Matrix, v: seq<int>, j: nat)
    requires Rows(m, |x|, |v|) && j <= |v|
    ensures Double(x, m, v, |x|, j) == Inner(RowMat(x, m, |v|), v, j)
  {
    if j == 0 {
      DoubleNoColumns(x, m, v, |x|);
    } else {
      DoubleByColumns(x, m, v, j - 1);
      DoubleNextColumn(x, m, v, |x|, j - 1);
    }
  }

  /** (x·m)·v = x·(m·v). */
  lemma {:induction false} Associate(x: seq<int>, m: Matrix, v: seq<int>)
    requires Rows(m, |x|, |v|)
    ensures Inner(RowMat(x, m, |v|), v, |v|) == Inner(x, MatVec(m, v), |x|)
  {
    DoubleByRows(x, m, v, |x|);
    DoubleByColumns(x, m, v, |v|);
  }

  ghost predicate CongVec(q: int, a: seq<int>, b: seq<int>) {
    q > 0 && |a| == |b| && forall i :: 0 <= i < |a| ==> Residue(a[i], q) == Residue(b[i], q)
  }

  lemma {:induction false} CongInner(q: int, a: seq<int>, b: seq<int>, v: seq<int>)
    requires CongVec(q, a, b) && |v| == |a|
    ensures Residue(Inner(a, v, |v|), q) == Residue(Inner(b, v, |v|), q) && Residue(Inner(v, a, |v|), q) == Residue(Inner(v, b, |v|), q)
  {
    InnerCong(q, a, b, v, |v|);
    InnerComm(a, v, |v|);
    InnerComm(b, v, |v|);
  }

  lemma {:induction false} InnerComm(a: seq<int>, b: seq<int>, i: nat)
    requires i <= |a| && i <= |b|
    ensures Inner(a, b, i) == Inner(b, a, i)
  {
    if i > 0 {
      InnerComm(a, b, i - 1);
    }
  }

  //////// The blocked product ////////

  /** The C remainder, which takes the sign of the dividend. */
  function Remainder(x: int, q: int): int
    requires q > 0
  {
    if x >= 0 then x % q else -((-x) % q)
  }

  /** mod_q: non-negative residues. */
  method ModQ(input: seq<int>, q: int) returns (output: seq<int>)
    requires q > 0
    ensures |output| == |input| && forall i :: 0 <= i < |input| ==> output[i] == Residue(input[i], q)
  {
    output := [];
    for i := 0 to |input|
      invariant |output| == i && forall j :: 0 <= j < i ==> output[j] == Residue(input[j], q)
    {
      var coef := Remainder(input[i], q);
      RemainderResidue(input[i], q);
      if coef < 0 {
        coef := coef + q;
      }
      output := output + [coef];
    }
  }

  lemma {:induction false} RemainderResidue(x: int, q: int)
    requires q > 0
    ensures var r := Remainder(x, q); Residue(x, q) == if r < 0 then r + q else r
  {
    if x < 0 {
      var y := -x;
      DivMod(y, q);
      var d := y / q;
      if y % q == 0 {
        assert q * -d == -(q * d);
        DivModUnique(x, q, -d, 0);
      } else {
        assert q * (-d - 1) == -(q * d) - q;
        DivModUnique(x, q, -d - 1, q - y % q);
      }
    }
  }

  /** The representative in (-q/2, q/2]. */
  function Centre(q: int, x: int): int {
    if x > q / 2 then x - q else x
  }

  function CentreAll(q: int, x: seq<int>): (r: seq<int>)
    ensures |r| == |x| && forall i :: 0 <= i < |x| ==> r[i] == Centre(q, x[i])
  {
    seq(|x|, i requires 0 <= i < |x| => Centre(q, x[i]))
  }

  lemma {:induction false} CentreCong(q: int, x: seq<int>)
    requires q > 0
    ensures CongVec(q, CentreAll(q, x), x)
  {
    forall i | 0 <= i < |x| ensures Residue(Centre(q, x[i]), q) == Residue(x[i], q) {
      ModShift(x[i], x[i] - q, q, 1);
    }
  }

  /** k_row += coef·f_row, four entries at a time and then the rest. */
  method AddScaledRow(q: int, coef: int, f: seq<int>, start: seq<int>) returns (row: seq<int>)
    requires |f| == |start|
    ensures |row| == |start| && forall j :: 0 <= j < |start| ==> row[j] == start[j] + coef * Centre(q, f[j])
  {
    var n := |f|;
    var block := 4;
    var blocks, rem := n / block * block, n % block;
    row := start;
    var j := 0;
    while j < blocks
      invariant j % 4 == 0 && 0 <= j <= blocks && |row| == n
      invariant forall i :: 0 <= i < n ==> row[i] == if i < j then start[i] + coef * Centre(q, f[i]) else start[i]
    {
      var f0, f1, f2, f3 := Centre(q, f[j]), Centre(q, f[j + 1]), Centre(q, f[j + 2]), Centre(q, f[j + 3]);
      row := row[j := row[j] + coef * f0];
      row := row[j + 1 := row[j + 1] + coef * f1];
      row := row[j + 2 := row[j + 2] + coef * f2];
      row := row[j + 3 := row[j + 3] + coef * f3];
      j := j + block;
    }
    for i := 0 to rem
      invariant |row| == n
      invariant forall l :: 0 <= l < n ==> row[l] == if l < blocks + i then start[l] + coef * Centre(q, f[l]) else start[l]
    {
      row := row[blocks + i := row[blocks + i] + coef * Centre(q, f[blocks + i])];
    }
  }

  /** One row of the product, lazily reduced: sums of centred products, one reduction at the end. */
  method BlockedRow(q: int, g: seq<int>, m: Matrix, n: nat) returns (row: seq<int>)
    requires q > 0 && Rows(m, |g|, n)
    ensures |row| == n && forall j :: 0 <= j < n ==> row[j] == Residue(Inner(g, Column(m, n, j), |g|), q)
  {
    var acc := seq(n, _ => 0);
    for l := 0 to |g|
      invariant |acc| == n && forall j :: 0 <= j < n ==> acc[j] == Inner(g, CentreAll(q, Column(m, n, j)), l)
    {
      acc := AddScaledRow(q, g[l], m[l], acc);
    }
    row := ModQ(acc, q);
    forall j | 0 <= j < n ensures row[j] == Residue(Inner(g, Column(m, n, j), |g|), q) {
      CentreCong(q, Column(m, n, j));
      CongInner(q, CentreAll(q, Column(m, n, j)), Column(m, n, j), g);
    }
  }

  //////// Key generation ////////

  /** base^j·s_i for row i·d + j. */
  function GadgetColumn(base: nat, d: nat, s: seq<int>): (r: seq<int>)
    requires d > 0
    ensures |r| == Times(|s|, d)
  {
    seq(Times(|s|, d), l requires 0 <= l < Times(|s|, d) => SlotValue(base, d, s, l))
  }

  function SlotValue(base: nat, d: nat, s: seq<int>, l: nat): int
    requires d > 0 && l < Times(|s|, d)
  {
    RowIndex(|s|, d, l);
    s[l / d] * Pow(base, l % d)
  }

  lemma {:induction false} RowIndex(N: nat, d: nat, l: nat)
    requires d > 0 && l < Times(N, d)
    ensures 0 <= l / d < N
  {
    DivMod(l, d);
    if l / d >= N {
      MulMono(N, l / d, d);
    }
  }

  lemma {:induction false} SlotOf(N: nat, d: nat, i: nat, j: nat)
    requires i < N && j < d
    ensures Times(i, d) + j < Times(N, d) && (Times(i, d) + j) / d == i && (Times(i, d) + j) % d == j
  {
    MulMono(i + 1, N, d);
    Distribute(d, i, 1);
    DivModUnique(Times(i, d) + j, d, i, j);
  }

  /** E with the gadget multiples of s added to its first column. */
  ghost predicate Embedded(q: int, base: nat, d: nat, s: seq<int>, E: Matrix, n: nat, E': Matrix) {
    q > 0 && d > 0 && n > 0 && Rows(E, Times(|s|, d), n) && Rows(E', Times(|s|, d), n) &&
    forall l :: 0 <= l < |E| ==> E'[l] == E[l][0 := Residue(E[l][0] + GadgetColumn(base, d, s)[l], q)]
  }

  /** The loop that adds s_i·base^j to E[i·d + j][0]. */
  method Embed(q: int, base: nat, d: nat, s: seq<int>, E: Matrix, n: nat) returns (E': Matrix)
    requires q > 0 && d > 0 && n > 0 && Rows(E, Times(|s|, d), n)
    ensures Embedded(q, base, d, s, E, n, E')
  {
    hide Pow;
    E' := E;
    ghost var g := GadgetColumn(base, d, s);
    for i := 0 to |s|
      invariant Rows(E', |E|, n)
      invariant forall l :: 0 <= l < |E| ==> E'[l] == if l < Times(i, d) then E[l][0 := Residue(E[l][0] + g[l], q)] else E[l]
    {
      var coef := s[i];
      PowStart(base, s[i]);
      for j := 0 to d
        invariant Rows(E', |E|, n) && coef == s[i] * Pow(base, j)
        invariant forall l :: 0 <= l < |E| ==> E'[l] == if l < Times(i, d) + j then E[l][0 := Residue(E[l][0] + g[l], q)] else E[l]
      {
        SlotOf(|s|, d, i, j);
        var l := Times(i, d) + j;
        E' := E'[l := E'[l][0 := Residue(E'[l][0] + coef, q)]];
        PowNext(base, j, s[i]);
        coef := coef * base;
      }
      TimesStep(i + 1, d);
    }
  }

  lemma {:induction false} PowStart(base: nat, s: int)
    ensures s == s * Pow(base, 0)
  {
  }

  lemma {:induction false} PowNext(base: nat, j: nat, s: int)
    ensures s * Pow(base, j) * base == s * Pow(base, j + 1)
  {
    assert s * Pow(base, j) * base == s * (base * Pow(base, j));
  }

  /** K = E'·F_inv modulo q. */
  ghost predicate IsSwitchKey(q: int, E': Matrix, Finv: Matrix, n: nat, K: Matrix) {
    q > 0 && Rows(E', |E'|, n) && Rows(Finv, n, n) && Rows(K, |E'|, n) &&
    forall l :: 0 <= l < |E'| ==> CongVec(q, K[l], RowMat(E'[l], Finv, n))
  }

  /** KeySwitchGen for one user: the blocked, centred, lazily reduced product is the plain
      product modulo q, whatever n modulo 4. */
  method KeySwitchGen(q: int, base: nat, d: nat, s: seq<int>, E: Matrix, Finv: Matrix, n: nat) returns (K: Matrix, ghost E': Matrix)
    requires q > 0 && d > 0 && n > 0 && Rows(E, Times(|s|, d), n) && Rows(Finv, n, n)
    ensures Embedded(q, base, d, s, E, n, E') && IsSwitchKey(q, E', Finv, n, K)
    ensures forall l, j :: 0 <= l < |K| && 0 <= j < n ==> 0 <= K[l][j] < q
  {
    var G := Embed(q, base, d, s, E, n);
    E' := G;
    hide Residue, Embedded, Inner;
    K := [];
    for l := 0 to |G|
      invariant Rows(K, l, n) && forall i :: 0 <= i < l ==> CongVec(q, K[i], RowMat(G[i], Finv, n))
      invariant forall i, j :: 0 <= i < l && 0 <= j < n ==> 0 <= K[i][j] < q
    {
      var g := [];
      for j := 0 to n
        invariant |g| == j && forall i :: 0 <= i < j ==> g[i] == Centre(q, G[l][i])
      {
        g := g + [Centre(q, G[l][j])];
      }
      assert g == CentreAll(q, G[l]);
      var row := BlockedRow(q, g, Finv, n);
      CentredProduct(q, G[l], Finv, n, row);
      K := K + [row];
    }
  }

  lemma {:induction false} CentredProduct(q: int, x: seq<int>, m: Matrix, n: nat, row: seq<int>)
    requires q > 0 && Rows(m, |x|, n) && |row| == n
    requires forall j :: 0 <= j < n ==> row[j] == Residue(Inner(CentreAll(q, x), Column(m, n, j), |x|), q)
    ensures CongVec(q, row, RowMat(x, m, n))
  {
    CentreCong(q, x);
    forall j | 0 <= j < n ensures Residue(row[j], q) == Residue(RowMat(x, m, n)[j], q) {
      CongInner(q, CentreAll(q, x), x, Column(m, n, j));
      ModOfMod(Inner(CentreAll(q, x), Column(m, n, j), |x|), q);
    }
  }
}
