/** Multi-key LWE encryption, decryption and key switching. */
module MkLweKeys {
  import opened Arithmetic
  import opened MkLwe

  //////// Unsigned digits ////////

  /** What is left of x after j divisions by base. */
  function Quotient(base: nat, x: nat, j: nat): (r: nat)
    requires base > 0
  {
    if j == 0 then x else Quotient(base, x, j - 1) / base
  }

  function UDigit(base: nat, x: nat, j: nat): (d: nat)
    requires base > 0
    ensures d < base
  {
    Quotient(base, x, j) % base
  }

  lemma {:induction false} DigitStart(base: nat, x: nat)
    requires base > 0
    ensures Quotient(base, x, 0) == x
  {
  }

  lemma {:induction false} DigitStep(base: nat, x: nat, j: nat)
    requires base > 0
    ensures UDigit(base, x, j) == Quotient(base, x, j) % base && Quotient(base, x, j + 1) == Quotient(base, x, j) / base
  {
  }

  function UValue(base: nat, x: nat, j: nat): nat
    requires base > 0
  {
    if j == 0 then 0 else UValue(base, x, j - 1) + Times(UDigit(base, x, j - 1), Pow(base, j - 1))
  }

  lemma {:induction false} UValueQuotient(base: nat, x: nat, j: nat)
    requires base > 0
    ensures x == UValue(base, x, j) + Pow(base, j) * Quotient(base, x, j)
  {
    if j > 0 {
      UValueQuotient(base, x, j - 1);
      var y := Quotient(base, x, j - 1);
      DivMod(y, base);
      SplitQuotient(Pow(base, j - 1), base, y % base, y / base);
    }
  }

  lemma {:induction false} SplitQuotient(w: int, b: int, r: int, y: int)
    ensures w * (r + b * y) == r * w + (b * w) * y
  {
    assert w * (b * y) == (b * w) * y;
  }

  /** digitCount digits rebuild every x below base^digitCount. */
  lemma {:induction false} DigitsRebuild(base: nat, x: nat, count: nat)
    requires base > 0 && x < Pow(base, count)
    ensures UValue(base, x, count) == x
  {
    UValueQuotient(base, x, count);
    var y := Quotient(base, x, count);
    if y > 0 {
      MulMono(1, y, Pow(base, count));
    }
  }

  //////// Key switching ////////

  /** Switching-key tables indexed by user, coefficient, digit value and digit position. */
  datatype SwitchKey = SwitchKey(A: seq<seq<seq<seq<seq<int>>>>>, B: seq<seq<seq<seq<int>>>>)

  ghost predicate KeyShape(K: SwitchKey, k: nat, N: nat, n: nat, base: nat, count: nat) {
    |K.A| == |K.B| == k &&
    (forall u :: 0 <= u < k ==> |K.A[u]| == |K.B[u]| == N) &&
    (forall u, i :: 0 <= u < k && 0 <= i < N ==> |K.A[u][i]| == |K.B[u][i]| == base) &&
    (forall u, i, v :: 0 <= u < k && 0 <= i < N && 0 <= v < base ==> |K.A[u][i][v]| == |K.B[u][i][v]| == count) &&
    forall u, i, v, j :: 0 <= u < k && 0 <= i < N && 0 <= v < base && 0 <= j < count ==> |K.A[u][i][v][j]| == n
  }

  /** Key noise, as a function of the same indices. */
  type KeyErrors = (nat, nat, nat, nat) -> int

  /** B = <A, s_u> + e + sN_u,i·v·base^j modulo Q. */
  ghost predicate KeyEntry(Q: int, base: nat, A: seq<int>, B: int, s: seq<int>, sN: int, v: nat, j: nat, e: int) {
    Q > 0 && |A| == |s| && B % Q == (Inner(A, s, |s|) + e + sN * Times(v, Pow(base, j))) % Q
  }

  ghost predicate SwitchesTo(K: SwitchKey, Q: int, base: nat, count: nat, s: Matrix, sN: Matrix, e: KeyErrors)
    requires KeyShape(K, |s|, if |sN| > 0 then |sN[0]| else 0, if |s| > 0 then |s[0]| else 0, base, count)
    requires |sN| == |s| && forall u :: 0 <= u < |s| ==> |sN[u]| == |sN[0]| && |s[u]| == |s[0]|
  {
    forall u, i, v, j :: 0 <= u < |s| && 0 <= i < |sN[0]| && 0 <= v < base && 0 <= j < count ==>
      KeyEntry(Q, base, K.A[u][i][v][j], K.B[u][i][v][j], s[u], sN[u][i], v, j, e(u, i, v, j))
  }

  /** One entry of KeySwitchGen: the scalar b for a given vector a. */
  method KeySwitchEntry(Q: int, base: nat, a: seq<int>, sv: seq<int>, svN: int, v: nat, j: nat, e: int) returns (b: int)
    requires Q > 0 && |a| == |sv|
    ensures 0 <= b < Q && KeyEntry(Q, base, a, b, sv, svN, v, j, e)
  {
    b := (e + (svN * Times(v, Pow(base, j))) % Q) % Q;
    ghost var m := e + svN * Times(v, Pow(base, j));
    ModOfMod(svN * Times(v, Pow(base, j)), Q);
    ModAddCong(e, e, (svN * Times(v, Pow(base, j))) % Q, svN * Times(v, Pow(base, j)), Q);
    ModOfMod(e + (svN * Times(v, Pow(base, j))) % Q, Q);
    for i := 0 to |a|
      invariant b % Q == (Inner(a, sv, i) + m) % Q
    {
      ModOfMod(a[i] * sv[i], Q);
      ModAddCong(b, Inner(a, sv, i) + m, (a[i] * sv[i]) % Q, a[i] * sv[i], Q);
      b := b + (a[i] * sv[i]) % Q;
    }
    ModOfMod(b, Q);
    b := b % Q;
  }

  /** The sampled vectors, by the same indices. */
  type Samples = (nat, nat, nat, nat) -> seq<int>

  ghost predicate DigitEntries(Q: int, base: nat, count: nat, s: seq<int>, sN: int, A: seq<seq<int>>, B: seq<int>, u: nat, i: nat, v: nat, e: KeyErrors) {
    |A| == |B| == count && forall j :: 0 <= j < count ==> |A[j]| == |s| && KeyEntry(Q, base, A[j], B[j], s, sN, v, j, e(u, i, v, j))
  }

  ghost predicate ValueEntries(Q: int, base: nat, count: nat, s: seq<int>, sN: int, A: seq<seq<seq<int>>>, B: seq<seq<int>>, u: nat, i: nat, e: KeyErrors) {
    |A| == |B| == base && forall v :: 0 <= v < base ==> DigitEntries(Q, base, count, s, sN, A[v], B[v], u, i, v, e)
  }

  ghost predicate UserEntries(Q: int, base: nat, count: nat, s: seq<int>, sN: seq<int>, A: seq<seq<seq<seq<int>>>>, B: seq<seq<seq<int>>>, u: nat, e: KeyErrors) {
    |A| == |B| == |sN| && forall i :: 0 <= i < |sN| ==> ValueEntries(Q, base, count, s, sN[i], A[i], B[i], u, i, e)
  }

  /** All digit positions of one digit value. */
  method DigitRows(Q: int, base: nat, count: nat, s: seq<int>, sN: int, u: nat, i: nat, v: nat, samples: Samples, e: KeyErrors) returns (A: seq<seq<int>>, B: seq<int>)
    requires Q > 0 && forall j: nat :: |samples(u, i, v, j)| == |s|
    ensures DigitEntries(Q, base, count, s, sN, A, B, u, i, v, e)
  {
    hide KeyEntry;
    A, B := [], [];
    for j := 0 to count
      invariant |A| == |B| == j && forall k :: 0 <= k < j ==> |A[k]| == |s| && KeyEntry(Q, base, A[k], B[k], s, sN, v, k, e(u, i, v, k))
    {
      var a := samples(u, i, v, j);
      var b := KeySwitchEntry(Q, base, a, s, sN, v, j, e(u, i, v, j));
      A, B := A + [a], B + [b];
    }
  }

  /** All digit values of one coefficient. */
  method ValueRows(Q: int, base: nat, count: nat, s: seq<int>, sN: int, u: nat, i: nat, samples: Samples, e: KeyErrors) returns (A: seq<seq<seq<int>>>, B: seq<seq<int>>)
    requires Q > 0 && forall v: nat, j: nat :: |samples(u, i, v, j)| == |s|
    ensures ValueEntries(Q, base, count, s, sN, A, B, u, i, e)
  {
    hide DigitEntries;
    A, B := [], [];
    for v := 0 to base
      invariant |A| == |B| == v && forall k :: 0 <= k < v ==> DigitEntries(Q, base, count, s, sN, A[k], B[k], u, i, k, e)
    {
      var a, b := DigitRows(Q, base, count, s, sN, u, i, v, samples, e);
      A, B := A + [a], B + [b];
    }
  }

  /** All coefficients of one user. */
  method UserRows(Q: int, base: nat, count: nat, s: seq<int>, sN: seq<int>, u: nat, samples: Samples, e: KeyErrors) returns (A: seq<seq<seq<seq<int>>>>, B: seq<seq<seq<int>>>)
    requires Q > 0 && forall i: nat, v: nat, j: nat :: |samples(u, i, v, j)| == |s|
    ensures UserEntries(Q, base, count, s, sN, A, B, u, e)
  {
    hide ValueEntries;
    A, B := [], [];
    for i := 0 to |sN|
      invariant |A| == |B| == i && forall k :: 0 <= k < i ==> ValueEntries(Q, base, count, s, sN[k], A[k], B[k], u, k, e)
    {
      var a, b := ValueRows(Q, base, count, s, sN[i], u, i, samples, e);
      A, B := A + [a], B + [b];
    }
  }

  /** KeySwitchGen: every entry of every user's table satisfies its relation. */
  method KeySwitchGen(Q: int, base: nat, count: nat, s: Matrix, sN: Matrix, n: nat, samples: Samples, e: KeyErrors) returns (K: SwitchKey)
    requires Q > 0 && |s| == |sN| > 0 && (forall u :: 0 <= u < |s| ==> |sN[u]| == |sN[0]| && |s[u]| == |s[0]| == n)
    requires forall u: nat, i: nat, v: nat, j: nat :: |samples(u, i, v, j)| == n
    ensures KeyShape(K, |s|, |sN[0]|, n, base, count) && SwitchesTo(K, Q, base, count, s, sN, e)
  {
    hide UserEntries;
    var A, B := [], [];
    for u := 0 to |s|
      invariant |A| == |B| == u && forall k :: 0 <= k < u ==> UserEntries(Q, base, count, s[k], sN[k], A[k], B[k], k, e)
    {
      var a, b := UserRows(Q, base, count, s[u], sN[u], u, samples, e);
      A, B := A + [a], B + [b];
    }
    K := SwitchKey(A, B);
    TablesComplete(K, Q, base, count, s, sN, n, e);
  }

  lemma {:induction false} TablesComplete(K: SwitchKey, Q: int, base: nat, count: nat, s: Matrix, sN: Matrix, n: nat, e: KeyErrors)
    requires |s| == |sN| > 0 && (forall u :: 0 <= u < |s| ==> |sN[u]| == |sN[0]| && |s[u]| == |s[0]| == n)
    requires |K.A| == |K.B| == |s| && forall u :: 0 <= u < |s| ==> UserEntries(Q, base, count, s[u], sN[u], K.A[u], K.B[u], u, e)
    ensures KeyShape(K, |s|, |sN[0]|, n, base, count) && SwitchesTo(K, Q, base, count, s, sN, e)
  {
    hide KeyEntry;
    forall u, i | 0 <= u < |s| && 0 <= i < |sN[0]| ensures |K.A[u]| == |K.B[u]| == |sN[0]| && ValueEntries(Q, base, count, s[u], sN[u][i], K.A[u][i], K.B[u][i], u, i, e) {
    }
    forall u, i, v | 0 <= u < |s| && 0 <= i < |sN[0]| && 0 <= v < base
      ensures |K.A[u]| == |K.B[u]| == |sN[0]| && |K.A[u][i]| == |K.B[u][i]| == base && DigitEntries(Q, base, count, s[u], sN[u][i], K.A[u][i][v], K.B[u][i][v], u, i, v, e)
    {
      assert ValueEntries(Q, base, count, s[u], sN[u][i], K.A[u][i], K.B[u][i], u, i, e);
    }
  }

  /** The noise collected from coefficient i of user u, digits 0..j-1. */
  function DigitNoise(base: nat, x: nat, e: KeyErrors, u: nat, i: nat, j: nat): int
    requires base > 0
  {
    if j == 0 then 0 else DigitNoise(base, x, e, u, i, j - 1) + e(u, i, UDigit(base, x, j - 1), j - 1)
  }

  function RowNoise(base: nat, count: nat, x: seq<int>, e: KeyErrors, u: nat, i: nat): int
    requires base > 0 && i <= |x| && forall j :: 0 <= j < |x| ==> x[j] >= 0
  {
    if i == 0 then 0 else RowNoise(base, count, x, e, u, i - 1) + DigitNoise(base, x[i - 1], e, u, i - 1, count)
  }

  /** Sum of the k·N·digitCount key errors that a ciphertext selects. */
  function SwitchNoise(base: nat, count: nat, a: Matrix, e: KeyErrors, u: nat): int
    requires base > 0 && u <= |a| && forall v, j :: 0 <= v < |a| && 0 <= j < |a[v]| ==> a[v][j] >= 0
  {
    if u == 0 then 0 else SwitchNoise(base, count, a, e, u - 1) + RowNoise(base, count, a[u - 1], e, u - 1, |a[u - 1]|)
  }

  //////// Size of the switching noise ////////

  ghost predicate SmallNoise(e: KeyErrors, eta: nat) {
    forall u: nat, i: nat, v: nat, j: nat :: Abs(e(u, i, v, j)) <= eta
  }

  lemma {:induction false} DigitNoiseBound(base: nat, x: nat, e: KeyErrors, u: nat, i: nat, j: nat, eta: nat)
    requires base > 0 && SmallNoise(e, eta)
    ensures Abs(DigitNoise(base, x, e, u, i, j)) <= Times(j, eta)
  {
    hide Times, UDigit;
    if j > 0 {
      DigitNoiseBound(base, x, e, u, i, j - 1, eta);
      assert Abs(e(u, i, UDigit(base, x, j - 1), j - 1)) <= eta;
      TimesStep(j, eta);
    }
  }

  lemma {:induction false} RowNoiseBound(base: nat, count: nat, x: seq<int>, e: KeyErrors, u: nat, i: nat, eta: nat)
    requires base > 0 && i <= |x| && (forall j :: 0 <= j < |x| ==> x[j] >= 0) && SmallNoise(e, eta)
    ensures Abs(RowNoise(base, count, x, e, u, i)) <= Times(i, Times(count, eta))
  {
    hide DigitNoise, SmallNoise, Times;
    if i > 0 {
      RowNoiseBound(base, count, x, e, u, i - 1, eta);
      DigitNoiseBound(base, x[i - 1], e, u, i - 1, count, eta);
      TimesStep(i, Times(count, eta));
    }
  }

  /** At most k·N·digitCount times the size of one key error. */
  lemma {:induction false} SwitchNoiseBound(base: nat, count: nat, a: Matrix, e: KeyErrors, u: nat, N: nat, eta: nat)
    requires base > 0 && u <= |a| && (forall v, j :: 0 <= v < |a| && 0 <= j < |a[v]| ==> a[v][j] >= 0)
    requires SmallNoise(e, eta) && forall v :: 0 <= v < |a| ==> |a[v]| == N
    ensures Abs(SwitchNoise(base, count, a, e, u)) <= Times(u, Times(N, Times(count, eta)))
  {
    hide RowNoise, SmallNoise, Times;
    if u > 0 {
      SwitchNoiseBound(base, count, a, e, u - 1, N, eta);
      RowNoiseBound(base, count, a[u - 1], e, u - 1, N, eta);
      TimesStep(u, Times(N, Times(count, eta)));
    }
  }

  /** One table subtraction: b - B and x - A keep b - <x, s> on track modulo Q. */
  lemma {:induction false} SubtractEntry(Q: int, base: nat, b: int, x: seq<int>, x': seq<int>, A: seq<int>, B: int, s: seq<int>, sN: int, v: nat, j: nat, e: int)
    requires KeyEntry(Q, base, A, B, s, sN, v, j, e) && |x| == |x'| == |s|
    requires forall l :: 0 <= l < |s| ==> x'[l] == Residue(x[l] - A[l], Q)
    ensures Residue(Residue(b - B, Q) - Inner(x', s, |s|), Q) == Residue(b - Inner(x, s, |s|) - (e + sN * Times(v, Pow(base, j))), Q)
  {
    CombineRow(Q, false, x, A, x', s);
    var ix, ia, m := Inner(x, s, |s|), Inner(A, s, |s|), e + sN * Times(v, Pow(base, j));
    ModOfMod(b - B, Q);
    ModAddCong(b, b, B, ia + m, Q);
    ModAddCong((b - B) % Q, b - (ia + m), Inner(x', s, |s|), ix - ia, Q);
  }

  method SubtractVector(Q: int, a: seq<int>, r: seq<int>) returns (d: seq<int>)
    requires Q > 0 && |a| == |r|
    ensures |d| == |a| && forall l :: 0 <= l < |a| ==> d[l] == Residue(a[l] - r[l], Q)
  {
    d := a;
    for l := 0 to |a|
      invariant |d| == |a| && forall m :: 0 <= m < |a| ==> d[m] == if m < l then Residue(a[m] - r[m], Q) else a[m]
    {
      d := d[l := Residue(d[l] - r[l], Q)];
    }
  }

  /** The digit loop for coefficient i. */
  method SwitchCoefficient(n: nat, Q: int, base: nat, count: nat, A: seq<seq<seq<int>>>, B: seq<seq<int>>, x: nat, a0: seq<int>, b0: int,
                           ghost s: seq<int>, ghost sN: int, ghost e: KeyErrors, ghost u: nat, ghost i: nat, ghost target: int) returns (a: seq<int>, b: int)
    requires Q > 0 && base > 0 && |s| == n && |A| == |B| == base && x < Pow(base, count) && |a0| == n && (forall l :: 0 <= l < n ==> 0 <= a0[l] < Q)
    requires forall v :: 0 <= v < base ==> |A[v]| == |B[v]| == count
    requires forall v, j :: 0 <= v < base && 0 <= j < count ==> |A[v][j]| == n && KeyEntry(Q, base, A[v][j], B[v][j], s, sN, v, j, e(u, i, v, j))
    requires Residue(b0 - Inner(a0, s, n), Q) == Residue(target, Q)
    ensures |a| == n && (forall l :: 0 <= l < n ==> 0 <= a[l] < Q) && (0 <= b0 < Q ==> 0 <= b < Q)
    ensures Residue(b - Inner(a, s, n), Q) == Residue(target - sN * x - DigitNoise(base, x, e, u, i, count), Q)
  {
    hide Inner, Pow, Residue, KeyEntry, UDigit;
    a, b := a0, b0;
    var atmp := x;
    assert sN * 0 == 0;
    for j := 0 to count
      invariant |a| == n && (forall l :: 0 <= l < n ==> 0 <= a[l] < Q) && (0 <= b0 < Q ==> 0 <= b < Q) && atmp == Quotient(base, x, j)
      invariant Residue(b - Inner(a, s, n), Q) == Residue(target - sN * UValue(base, x, j) - DigitNoise(base, x, e, u, i, j), Q)
    {
      var d := atmp % base;
      DigitStep(base, x, j);
      atmp := atmp / base;
      var refA, refB := A[d][j], B[d][j];
      var a2 := SubtractVector(Q, a, refA);
      SubtractEntry(Q, base, b, a, a2, refA, refB, s, sN, d, j, e(u, i, d, j));
      SwitchDigit(Q, b - Inner(a, s, n), target, sN, UValue(base, x, j), Times(d, Pow(base, j)), DigitNoise(base, x, e, u, i, j), e(u, i, d, j));
      a, b := a2, Residue(b - refB, Q);
    }
    DigitsRebuild(base, x, count);
  }

  /** KeySwitch on one user: subtracts the table rows chosen by the digits of that user's vector. */
  method SwitchUser(n: nat, Q: int, base: nat, count: nat, A: seq<seq<seq<seq<int>>>>, B: seq<seq<seq<int>>>,
                    x: seq<int>, b0: int, ghost s: seq<int>, ghost sN: seq<int>, ghost e: KeyErrors, ghost u: nat)
    returns (a: seq<int>, b: int)
    requires Q > 0 && base > 0 && |s| == n && |A| == |B| == |x| == |sN|
    requires forall i :: 0 <= i < |x| ==> 0 <= x[i] < Q && Q <= Pow(base, count)
    requires forall i :: 0 <= i < |x| ==> |A[i]| == |B[i]| == base
    requires forall i, v :: 0 <= i < |x| && 0 <= v < base ==> |A[i][v]| == |B[i][v]| == count
    requires forall i, v, j :: 0 <= i < |x| && 0 <= v < base && 0 <= j < count ==> |A[i][v][j]| == n
    requires forall i, v, j :: 0 <= i < |x| && 0 <= v < base && 0 <= j < count ==>
               KeyEntry(Q, base, A[i][v][j], B[i][v][j], s, sN[i], v, j, e(u, i, v, j))
    ensures |a| == n && (forall l :: 0 <= l < n ==> 0 <= a[l] < Q) && (0 <= b0 < Q ==> 0 <= b < Q)
    ensures Residue(b - Inner(a, s, n), Q) == Residue(b0 - Inner(x, sN, |x|) - RowNoise(base, count, x, e, u, |x|), Q)
  {
    hide Inner, Pow, Residue, KeyEntry, DigitNoise;
    a, b := seq(n, _ => 0), b0;
    InnerZero(a, s, n);
    InnerNone(x, sN);
    for i := 0 to |x|
      invariant |a| == n && (forall l :: 0 <= l < n ==> 0 <= a[l] < Q) && (0 <= b0 < Q ==> 0 <= b < Q)
      invariant Residue(b - Inner(a, s, n), Q) == Residue(b0 - Inner(x, sN, i) - RowNoise(base, count, x, e, u, i), Q)
    {
      a, b := SwitchCoefficient(n, Q, base, count, A[i], B[i], x[i], a, b, s, sN[i], e, u, i, b0 - Inner(x, sN, i) - RowNoise(base, count, x, e, u, i));
      InnerMore(x, sN, i);
    }
  }

  lemma {:induction false} InnerNone(x: seq<int>, y: seq<int>)
    ensures Inner(x, y, 0) == 0
  {
  }

  lemma {:induction false} InnerMore(x: seq<int>, y: seq<int>, i: nat)
    requires i < |x| && i < |y|
    ensures Inner(x, y, i + 1) == Inner(x, y, i) + y[i] * x[i]
  {
    assert x[i] * y[i] == y[i] * x[i];
  }

  lemma {:induction false} SwitchDigit(Q: int, y: int, target: int, s: int, w: int, d: int, z: int, e: int)
    requires Q > 0 && Residue(y, Q) == Residue(target - s * w - z, Q)
    ensures Residue(y - (e + s * d), Q) == Residue(target - s * (w + d) - (z + e), Q)
  {
    ModAddCong(y, target - s * w - z, e + s * d, e + s * d, Q);
    assert s * (w + d) == s * w + s * d;
  }

  lemma {:induction false} InnerZero(a: seq<int>, s: seq<int>, i: nat)
    requires i <= |a| && i <= |s| && forall j :: 0 <= j < i ==> a[j] == 0
    ensures Inner(a, s, i) == 0
  {
    if i > 0 {
      InnerZero(a, s, i - 1);
    }
  }

  /** KeySwitch: the phase under the new secrets is the phase under the old ones minus exactly the
      key errors selected by the digits. */
  method KeySwitch(n: nat, Q: int, base: nat, count: nat, K: SwitchKey, a: Matrix, b: int, ghost s: Matrix, ghost sN: Matrix, ghost e: KeyErrors)
    returns (a': Matrix, b': int)
    requires Q > 0 && base > 0 && Q <= Pow(base, count) && |a| > 0
    requires SameShape(a, sN) && |s| == |sN|
    requires forall u :: 0 <= u < |s| ==> |sN[u]| == |sN[0]| && |s[u]| == |s[0]| == n
    requires forall u, i :: 0 <= u < |a| && 0 <= i < |a[u]| ==> 0 <= a[u][i] < Q
    requires KeyShape(K, |s|, |sN[0]|, n, base, count) && SwitchesTo(K, Q, base, count, s, sN, e)
    ensures SameShape(a', s) && (0 <= b < Q ==> 0 <= b' < Q)
    ensures forall u, l :: 0 <= u < |a'| && 0 <= l < |a'[u]| ==> 0 <= a'[u][l] < Q
    ensures Residue(Phase(a', b', s), Q) == Residue(Phase(a, b, sN) - SwitchNoise(base, count, a, e, |a|), Q)
  {
    hide Residue, Inner, RowNoise, KeyShape, SwitchesTo, KeyEntry, InnerPrefix;
    a', b' := [], b;
    PrefixEmpty(a', s);
    for u := 0 to |a|
      invariant |a'| == u && (forall v :: 0 <= v < u ==> |a'[v]| == |s[v]|) && (0 <= b < Q ==> 0 <= b' < Q)
      invariant forall v, l :: 0 <= v < u && 0 <= l < |a'[v]| ==> 0 <= a'[v][l] < Q
      invariant Residue(b' - InnerPrefix(a', s, u), Q) == Residue(b - InnerAll(a, sN, u) - SwitchNoise(base, count, a, e, u), Q)
    {
      UserKey(K, Q, base, count, n, s, sN, e, u);
      var au, bu := SwitchUser(n, Q, base, count, K.A[u], K.B[u], a[u], b', s[u], sN[u], e, u);
      PrefixExtend(a', au, s, u);
      SwitchUserSum(Q, b', bu, InnerPrefix(a', s, u), Inner(au, s[u], n), b - InnerAll(a, sN, u) - SwitchNoise(base, count, a, e, u),
                    Inner(a[u], sN[u], |a[u]|) + RowNoise(base, count, a[u], e, u, |a[u]|));
      a', b' := a' + [au], bu;
    }
    PrefixIsAll(a', s, |a|);
  }

  /** The part of the switching key that belongs to user u. */
  lemma {:induction false} UserKey(K: SwitchKey, Q: int, base: nat, count: nat, n: nat, s: Matrix, sN: Matrix, e: KeyErrors, u: nat)
    requires |sN| == |s| > 0 && forall v :: 0 <= v < |s| ==> |sN[v]| == |sN[0]| && |s[v]| == |s[0]| == n
    requires KeyShape(K, |s|, |sN[0]|, n, base, count) && SwitchesTo(K, Q, base, count, s, sN, e) && u < |s|
    ensures |K.A| == |K.B| == |s| && |K.A[u]| == |K.B[u]| == |sN[u]|
    ensures forall i :: 0 <= i < |sN[u]| ==> |K.A[u][i]| == |K.B[u][i]| == base
    ensures forall i, v :: 0 <= i < |sN[u]| && 0 <= v < base ==> |K.A[u][i][v]| == |K.B[u][i][v]| == count
    ensures forall i, v, j :: 0 <= i < |sN[u]| && 0 <= v < base && 0 <= j < count ==> |K.A[u][i][v][j]| == n
    ensures forall i, v, j :: 0 <= i < |sN[u]| && 0 <= v < base && 0 <= j < count ==>
              KeyEntry(Q, base, K.A[u][i][v][j], K.B[u][i][v][j], s[u], sN[u][i], v, j, e(u, i, v, j))
  {
    hide KeyEntry;
  }

  lemma {:induction false} SwitchUserSum(Q: int, b: int, bu: int, p: int, iu: int, target: int, d: int)
    requires Q > 0 && Residue(b - p, Q) == Residue(target, Q) && Residue(bu - iu, Q) == Residue(b - d, Q)
    ensures Residue(bu - (p + iu), Q) == Residue(target - d, Q)
  {
    ModAddCong(bu - iu, b - d, p, p, Q);
    ModAddCong(b - p, target, d, d, Q);
  }

  /** InnerAll on a matrix still being built. */
  function InnerPrefix(a: Matrix, s: Matrix, k: nat): int
    requires k <= |a| && k <= |s| && forall u :: 0 <= u < k ==> |a[u]| == |s[u]|
  {
    if k == 0 then 0 else InnerPrefix(a, s, k - 1) + Inner(a[k - 1], s[k - 1], |s[k - 1]|)
  }

  lemma {:induction false} PrefixEmpty(a: Matrix, s: Matrix)
    ensures InnerPrefix(a, s, 0) == 0
  {
  }

  lemma {:induction false} PrefixExtend(a: Matrix, x: seq<int>, s: Matrix, k: nat)
    requires |a| == k < |s| && |x| == |s[k]| && forall u :: 0 <= u < k ==> |a[u]| == |s[u]|
    ensures InnerPrefix(a + [x], s, k + 1) == InnerPrefix(a, s, k) + Inner(x, s[k], |s[k]|)
  {
    PrefixSame(a, a + [x], s, k);
  }

  lemma {:induction false} PrefixSame(a: Matrix, a': Matrix, s: Matrix, k: nat)
    requires k <= |a| && k <= |a'| && k <= |s| && forall u :: 0 <= u < k ==> |a[u]| == |s[u]| && a'[u] == a[u]
    ensures InnerPrefix(a, s, k) == InnerPrefix(a', s, k)
  {
    if k > 0 { PrefixSame(a, a', s, k - 1); }
  }

  lemma {:induction false} PrefixIsAll(a: Matrix, s: Matrix, k: nat)
    requires SameShape(a, s) && k <= |a|
    ensures InnerPrefix(a, s, k) == InnerAll(a, s, k)
  {
    if k > 0 { PrefixIsAll(a, s, k - 1); }
  }

  //////// Encryption and decryption ////////

  /** b = (m mod p)·floor(q/p) + err + sum of inner products, modulo q. */
  method Encrypt(q: int, p: nat, m: nat, a: Matrix, s: Matrix, err: int) returns (b: int)
    requires q > 0 && p > 0 && SameShape(a, s)
    ensures 0 <= b < q && Phase(a, b, s) % q == ((m % p) * (q / p) + err) % q
  {
    b := (m % p) * (q / p) + err;
    ghost var m0 := b;
    for u := 0 to |a|
      invariant b % q == (m0 + InnerAll(a, s, u)) % q
    {
      ghost var start := b;
      for i := 0 to |a[u]|
        invariant b % q == (start + Inner(a[u], s[u], i)) % q
      {
        ModOfMod(a[u][i] * s[u][i], q);
        ModAddCong(b, start + Inner(a[u], s[u], i), (a[u][i] * s[u][i]) % q, a[u][i] * s[u][i], q);
        b := b + (a[u][i] * s[u][i]) % q;
      }
      ModAddCong(start, m0 + InnerAll(a, s, u), Inner(a[u], s[u], |a[u]|), Inner(a[u], s[u], |a[u]|), q);
    }
    ModOfMod(b, q);
    ModAddCong(b % q, m0 + InnerAll(a, s, |a|), InnerAll(a, s, |a|), InnerAll(a, s, |a|), q);
    b := b % q;
  }

  /** round(p·phase/q), computed as floor(p·(phase + q/2p)/q). */
  function DecodePhase(q: int, p: nat, phase: int): int
    requires q > 0 && p > 0
  {
    p * ((phase + q / (p * 2)) % q) / q
  }

  method Decrypt(q: int, p: nat, a: Matrix, b: int, s: Matrix) returns (m: int)
    requires q > 0 && p > 0 && SameShape(a, s) && 0 <= b < q
    ensures m == DecodePhase(q, p, Phase(a, b, s))
  {
    var inner := 0;
    for u := 0 to |a|
      invariant inner % q == InnerAll(a, s, u) % q && (u > 0 ==> 0 <= inner < q) && (u == 0 ==> inner == 0)
    {
      ghost var start := inner;
      for i := 0 to |a[u]|
        invariant inner % q == (start + Inner(a[u], s[u], i)) % q
      {
        ModOfMod(a[u][i] * s[u][i], q);
        ModAddCong(inner, start + Inner(a[u], s[u], i), (a[u][i] * s[u][i]) % q, a[u][i] * s[u][i], q);
        inner := inner + (a[u][i] * s[u][i]) % q;
      }
      ModAddCong(start, InnerAll(a, s, u), Inner(a[u], s[u], |a[u]|), Inner(a[u], s[u], |a[u]|), q);
      ModOfMod(inner, q);
      inner := inner % q;
    }
    var r := (b - inner) % q;
    ModAddCong(b, b, inner, InnerAll(a, s, |a|), q);
    var h := q / (p * 2);
    ModOfMod(b - inner, q);
    ModAddCong(r, Phase(a, b, s), h, h, q);
    r := (r + h) % q;
    m := p * r / q;
  }

  /** With p = 4 and noise e, the bit m decrypts correctly whenever 8|e| + 16 <= q. */
  lemma {:induction false} DecryptsBit(q: int, m: int, e: int, phase: int)
    requires q > 0 && 0 <= m <= 1 && 8 * Abs(e) + 16 <= q && phase % q == (m * (q / 4) + e) % q
    ensures DecodePhase(q, 4, phase) == m
  {
    var h := q / 8;
    ModAddCong(phase, m * (q / 4) + e, h, h, q);
    var x := m * (q / 4) + e + h;
    assert 0 <= x < q;
    DivModUnique(x, q, 0, x);
    DivModUnique(4 * x, q, m, 4 * x - q * m);
  }

  /** Every message modulo p decrypts correctly for noise in the window that decoding rounds to m. */
  lemma {:induction false} DecryptsInWindow(q: int, p: nat, m: int, e: int, phase: int)
    requires q > 0 && p > 0 && 0 <= m < p && 0 <= p * (e + q / (p * 2)) - m * (q % p) < q
    requires phase % q == (m * (q / p) + e) % q
    ensures DecodePhase(q, p, phase) == m
  {
    var d, r, h := q / p, q % p, q / (p * 2);
    var x := m * d + (e + h);
    ModAddCong(phase, m * d + e, h, h, q);
    DivMod(q, p);
    WindowForm(q, p, m, d, r, e + h);
    MulMono(m + 1, p, q);
    Distribute(q, m, 1);
    var y := p * (e + h) - m * r;
    WithinTurn(p, q, x, q * m + y);
    DivModUnique(x, q, 0, x);
    DivModUnique(p * x, q, m, y);
  }

  lemma {:induction false} WindowForm(q: int, p: int, m: int, d: int, r: int, f: int)
    requires q == r + p * d
    ensures p * (m * d + f) == q * m + (p * f - m * r)
  {
    Distribute(p, m * d, f);
    Arithmetic.Regroup(p, m, d);
    Distribute(m, r, p * d);
  }

  /** Noise below q/(2p) less p is within the window, whatever the remainder of q modulo p. */
  lemma {:induction false} DecryptsMessage(q: int, p: nat, m: int, e: int, phase: int)
    requires q > 0 && p > 0 && 0 <= m < p && Abs(e) + p <= q / (2 * p) && phase % q == (m * (q / p) + e) % q
    ensures DecodePhase(q, p, phase) == m
  {
    var h, r := q / (2 * p), q % p;
    hide DecodePhase;
    DivMod(q, 2 * p);
    MulMono(p, e + h, p);
    MulMono(e + h, 2 * h - p, p);
    Distribute(p, 2 * h, p);
    Arithmetic.Regroup(2, p, h);
    Arithmetic.Regroup(p, 2, h);
    MulNonNeg(m, r);
    MulMono(m, p - 1, r);
    MulMono(r, p - 1, p - 1);
    Distribute(p, p, 1);
    MulMono(p - 1, p, p - 1);
    MulMono(p - 1, p, p);
    assert p * 2 == 2 * p;
    DecryptsInWindow(q, p, m, e, phase);
  }

  /** Decryption undoes encryption. */
  method EncryptDecrypt(q: int, p: nat, m: nat, a: Matrix, s: Matrix, err: int) returns (r: int)
    requires q > 0 && p > 0 && m < p && SameShape(a, s) && Abs(err) + p <= q / (2 * p)
    ensures r == m
  {
    hide DecodePhase, Phase;
    DivModUnique(m, p, 0, m);
    var b := Encrypt(q, p, m, a, s, err);
    r := Decrypt(q, p, a, b, s);
    DecryptsMessage(q, p, m, err, Phase(a, b, s));
  }
}
