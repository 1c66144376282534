/** The accumulator updates as the library performs them: loops over users and digits that
    overwrite the elements of the accumulator, reducing modulo Q after every operation. */
module MultiKeyEval {
  import opened NegacyclicRing
  import opened RingModulus
  import opened Arithmetic
  import opened Gadget
  import opened RingVectors
  import opened HybridProduct
  import opened KeyAlgebra
  import opened BlindRotation
  import opened MultiKeyRun

  /** A k-user ring ciphertext. */
  class Accumulator {
    var elements: Vec

    constructor (init: Vec)
      ensures elements == init
    {
      elements := init;
    }
  }

  lemma {:induction false} ReduceSum(Q: int, a: Poly, b: Poly)
    requires Q > 0 && |a| == |b|
    ensures Reduce(Q, Add(Reduce(Q, a), Reduce(Q, b))) == Reduce(Q, Add(a, b))
    ensures Reduce(Q, Add(Reduce(Q, a), b)) == Reduce(Q, Add(a, b))
  {
    forall i | 0 <= i < |a|
      ensures (a[i] % Q + b[i] % Q) % Q == (a[i] + b[i]) % Q == (a[i] % Q + b[i]) % Q
    {
      ModAddMod(a[i], b[i], Q);
      ModOfMod(a[i], Q);
      ModAddCong(a[i] % Q, a[i], b[i], b[i], Q);
    }
  }

  method Decompose(p: Params, c: Poly) returns (dct: Vec)
    requires p.Valid() && |c| == p.N
    ensures dct == Digits(p, c)
  {
    var output := new int[p.Kept(), p.N]((i, k) => 0);
    SignedDigitDecompose(p, c, output);
    dct := seq(p.Kept(), i requires 0 <= i < p.Kept() reads output =>
      seq(p.N, k requires 0 <= k < p.N reads output => output[i, k]));
    forall i | 0 <= i < p.Kept() ensures dct[i] == Digits(p, c)[i] {
      assert forall k :: 0 <= k < p.N ==> dct[i][k] == Digits(p, c)[i][k];
    }
  }

  /** <dct, y> modulo Q. */
  method InnerProduct(p: Params, dct: Vec, y: Vec) returns (r: Poly)
    requires p.Valid() && |dct| == |y| > 0 && Sized(dct, p.N) && Sized(y, p.N)
    ensures r == Reduce(p.Q, Dot(p.N, dct, y, |dct|))
  {
    hide Mul, Add, Reduce;
    r := Reduce(p.Q, Mul(dct[0], y[0]));
    AddZero(Mul(dct[0], y[0]));
    assert Dot(p.N, dct, y, 1) == Add(Dot(p.N, dct, y, 0), Mul(dct[0], y[0]));
    for i := 1 to |dct|
      invariant r == Reduce(p.Q, Dot(p.N, dct, y, i))
    {
      ReduceSum(p.Q, Dot(p.N, dct, y, i), Mul(dct[i], y[i]));
      r := Reduce(p.Q, Add(r, Reduce(p.Q, Mul(dct[i], y[i]))));
    }
  }

  method HbProd(p: Params, d: Vec, f: Vec, index: nat, pkey: seq<Vec>, acc: Accumulator)
    requires Shapes(p, EvalKey(d, f), index, pkey, acc.elements)
    modifies acc
    ensures acc.elements == Product(p, EvalKey(d, f), index, pkey, old(acc.elements))
  {
    hide Dot, Digits, Reduce, Add;
    var ct := acc.elements;
    var k := |ct|;
    var sumV := Zero(p.N);
    ReduceOfZero(p);
    for u := 0 to k
      invariant |acc.elements| == k && sumV == Reduce(p.Q, SumV(p, pkey, ct, u))
      invariant forall j :: 0 <= j < u ==> acc.elements[j] == Reduce(p.Q, Dot(p.N, Digits(p, ct[j]), d, p.Kept()))
    {
      var dct := Decompose(p, ct[u]);
      var uj := InnerProduct(p, dct, d);
      var v := InnerProduct(p, dct, pkey[u]);
      ReduceSum(p.Q, SumV(p, pkey, ct, u), Dot(p.N, Digits(p, ct[u]), pkey[u], p.Kept()));
      sumV := Reduce(p.Q, Add(sumV, v));
      acc.elements := acc.elements[u := uj];
    }
    var dct := Decompose(p, sumV);
    ghost var wf := Dot(p.N, dct, f, p.Kept());
    ghost var target := Product(p, EvalKey(d, f), index, pkey, ct);
    for u := 0 to k
      invariant |acc.elements| == k
      invariant forall j :: 0 <= j < k ==>
        acc.elements[j] == if j < u then target[j] else Reduce(p.Q, Dot(p.N, Digits(p, ct[j]), d, p.Kept()))
    {
      if index == u {
        var w := InnerProduct(p, dct, f);
        ReduceSum(p.Q, Dot(p.N, Digits(p, ct[index]), d, p.Kept()), wf);
        acc.elements := acc.elements[index := Reduce(p.Q, Add(acc.elements[index], w))];
      }
    }
    assert acc.elements == target;
  }

  lemma {:induction false} ReduceOfZero(p: Params)
    requires p.Valid()
    ensures Reduce(p.Q, Zero(p.N)) == Zero(p.N)
  {
    DivModUnique(0, p.Q, 0, 0);
  }

  /** The table of X^i - 1 for 0 <= i < 2N, filled in two halves. */
  method MonomialTable(p: Params) returns (table: Vec)
    requires p.Valid()
    ensures |table| == 2 * p.N
    ensures forall i :: 0 <= i < 2 * p.N ==> table[i] == TableEntry(p, i)
  {
    hide TableEntry;
    table := [];
    for i := 0 to p.N
      invariant |table| == i && forall j :: 0 <= j < i ==> table[j] == TableEntry(p, j)
    {
      var a := Zero(p.N);
      a := a[0 := (a[0] - 1) % p.Q];
      a := a[i := (a[i] + 1) % p.Q];
      TablePoly(p, i, 1, a);
      table := table + [a];
    }
    for i := 0 to p.N
      invariant |table| == p.N + i && forall j :: 0 <= j < p.N + i ==> table[j] == TableEntry(p, j)
    {
      var a := Zero(p.N);
      a := a[0 := (a[0] - 1) % p.Q];
      a := a[i := (a[i] - 1) % p.Q];
      TablePoly(p, i, -1, a);
      table := table + [a];
    }
  }

  /** The unit vector at position i is X^i; with the opposite sign it is X^(N+i). */
  lemma {:induction false} UnitMonomial(n: nat, i: nat)
    requires i < n
    ensures Mono(i, One(n)) == seq(n, j => if j == i then 1 else 0)
    ensures Mono(n + i, One(n)) == Scale(-1, Mono(i, One(n)))
  {
    hide Shifts;
    var one, e := One(n), seq(n, j => if j == i then 1 else 0);
    ShiftsForm(i, one);
    DivModUnique(i, 2 * n, 0, i);
    DivModUnique(n + i, 2 * n, 0, n + i);
    OneMoreTurn(i, one);
    var s := Scale(-1, one[n - i..]) + one[..n - i];
    forall j | 0 <= j < n ensures s[j] == e[j] {
      if j < i {
        assert s[j] == -1 * one[n - i + j];
      } else {
        assert s[j] == one[j - i];
      }
    }
    assert s == e;
  }

  lemma {:induction false} TablePoly(p: Params, i: nat, sign: int, a: Poly)
    requires p.Valid() && i < p.N && (sign == 1 || sign == -1)
    requires |a| == p.N
    requires forall j :: 0 <= j < p.N ==>
      a[j] == if i == 0 then (if j == 0 then ((-1) % p.Q + sign) % p.Q else 0)
              else if j == 0 then (-1) % p.Q else if j == i then sign % p.Q else 0
    ensures a == TableEntry(p, if sign == 1 then i else p.N + i)
  {
    hide Mono;
    var n := p.N;
    UnitMonomial(n, i);
    var e := if sign == 1 then i else n + i;
    var m := Mono(e, One(n));
    DivModUnique(0, p.Q, 0, 0);
    ModOfMod(-1, p.Q);
    ModAddCong((-1) % p.Q, -1, sign, sign, p.Q);
    forall j | 0 <= j < n ensures a[j] == TableEntry(p, e)[j] {
      assert m[j] == if j == i then sign else 0;
    }
  }

  method AddToAccXZW(p: Params, table: Vec, ek1: EvalKey, ek2: EvalKey, c: nat, pkey: seq<Vec>, index: nat, acc: Accumulator)
    requires p.Valid() && ek1.Shaped(p) && ek2.Shaped(p) && c < 2 * p.N
    requires |table| == 2 * p.N && forall i :: 0 <= i < 2 * p.N ==> table[i] == TableEntry(p, i)
    requires Shapes(p, ek1, index, pkey, acc.elements)
    modifies acc
    ensures acc.elements == AddToAcc(p, StepKey(p, ek1, ek2, c), c, index, pkey, old(acc.elements))
  {
    hide Product, Mul, Add, Sub, Reduce, TableEntry;
    var monomial := table[if c == 2 * p.N then 0 else c];
    var neg := NegIndex(p, c);
    var monomialNeg := table[if neg == 2 * p.N then 0 else neg];
    var d, f := [], [];
    for i := 0 to p.Kept()
      invariant |d| == |f| == i
      invariant forall j :: 0 <= j < i ==> d[j] == StepVec(p, ek1.d, ek2.d, c)[j] && f[j] == StepVec(p, ek1.f, ek2.f, c)[j]
    {
      d := d + [Reduce(p.Q, Sub(Sub(ek1.d[i], Mul(ek2.d[i], monomialNeg)), ek2.d[i]))];
      f := f + [Reduce(p.Q, Sub(Sub(ek1.f[i], Mul(ek2.f[i], monomialNeg)), ek2.f[i]))];
    }
    assert d == StepVec(p, ek1.d, ek2.d, c) && f == StepVec(p, ek1.f, ek2.f, c);
    UpdateAcc(p, d, f, monomial, c, pkey, index, acc);
  }

  method AddToAccXZWBinary(p: Params, table: Vec, ek1: EvalKey, c: nat, pkey: seq<Vec>, index: nat, acc: Accumulator)
    requires p.Valid() && ek1.Shaped(p) && c < 2 * p.N
    requires |table| == 2 * p.N && forall i :: 0 <= i < 2 * p.N ==> table[i] == TableEntry(p, i)
    requires Shapes(p, ek1, index, pkey, acc.elements)
    modifies acc
    ensures acc.elements == AddToAcc(p, ek1, c, index, pkey, old(acc.elements))
  {
    hide Product, Mul, Add, Reduce, TableEntry;
    UpdateAcc(p, ek1.d, ek1.f, table[if c == 2 * p.N then 0 else c], c, pkey, index, acc);
  }

  /** acc += HbProd(acc·monomial): the common tail of AddToAccXZW. */
  method UpdateAcc(p: Params, d: Vec, f: Vec, monomial: Poly, ghost c: int, pkey: seq<Vec>, index: nat, acc: Accumulator)
    requires Shapes(p, EvalKey(d, f), index, pkey, acc.elements) && monomial == TableEntry(p, c)
    modifies acc
    ensures acc.elements == AddToAcc(p, EvalKey(d, f), c, index, pkey, old(acc.elements))
  {
    hide Product, Mul, Add, Reduce, TableEntry;
    var k := |acc.elements|;
    var acctemp := new Accumulator(acc.elements);
    for u := 0 to k
      invariant |acctemp.elements| == k && acc.elements == old(acc.elements)
      invariant forall j :: 0 <= j < k ==>
        acctemp.elements[j] == if j < u then Temp(p, c, acc.elements)[j] else acc.elements[j]
    {
      acctemp.elements := acctemp.elements[u := Reduce(p.Q, Mul(acctemp.elements[u], monomial))];
    }
    assert acctemp.elements == Temp(p, c, acc.elements);
    TempShapes(p, EvalKey(d, f), c, index, pkey, acc.elements);
    HbProd(p, d, f, index, pkey, acctemp);
    for u := 0 to k
      invariant |acc.elements| == k
      invariant acctemp.elements == Product(p, EvalKey(d, f), index, pkey, Temp(p, c, old(acc.elements)))
      invariant forall j :: 0 <= j < k ==>
        acc.elements[j] == if j < u then AddAll(p, old(acc.elements), acctemp.elements)[j] else old(acc.elements)[j]
    {
      acc.elements := acc.elements[u := Reduce(p.Q, Add(acc.elements[u], acctemp.elements[u]))];
    }
    assert acc.elements == AddAll(p, old(acc.elements), acctemp.elements);
  }

  method AddToAccXZW0(p: Params, table: Vec, ekstar: EvalKey, ek1: EvalKey, ek2: EvalKey, c: nat, pkey: seq<Vec>, index: nat, acc: Accumulator)
    requires p.Valid() && ekstar.Shaped(p) && ek1.Shaped(p) && ek2.Shaped(p) && c < 2 * p.N
    requires |table| == 2 * p.N && forall i :: 0 <= i < 2 * p.N ==> table[i] == TableEntry(p, i)
    requires Shapes(p, ek1, index, pkey, acc.elements)
    modifies acc
    ensures acc.elements == Product(p, FirstKey(p, ekstar, ek1, ek2, c), index, pkey, old(acc.elements))
  {
    hide Product, Mul, Add, Reduce, TableEntry;
    var monomial := table[if c == 2 * p.N then 0 else c];
    var neg := NegIndex(p, c);
    var monomialNeg := table[if neg == 2 * p.N then 0 else neg];
    var d, f := [], [];
    for i := 0 to p.Kept()
      invariant |d| == |f| == i
      invariant forall j :: 0 <= j < i ==> d[j] == FirstVec(p, ekstar.d, ek1.d, ek2.d, c)[j]
      invariant forall j :: 0 <= j < i ==> f[j] == FirstVec(p, ekstar.f, ek1.f, ek2.f, c)[j]
    {
      d := d + [Reduce(p.Q, Add(Add(ekstar.d[i], Mul(ek1.d[i], monomial)), Mul(ek2.d[i], monomialNeg)))];
      f := f + [Reduce(p.Q, Add(Add(ekstar.f[i], Mul(ek1.f[i], monomial)), Mul(ek2.f[i], monomialNeg)))];
    }
    assert d == FirstVec(p, ekstar.d, ek1.d, ek2.d, c) && f == FirstVec(p, ekstar.f, ek1.f, ek2.f, c);
    HbProd(p, d, f, index, pkey, acc);
  }

  method AddToAccXZW0Binary(p: Params, table: Vec, ekstar: EvalKey, ek1: EvalKey, c: nat, pkey: seq<Vec>, index: nat, acc: Accumulator)
    requires p.Valid() && ekstar.Shaped(p) && ek1.Shaped(p) && c < 2 * p.N
    requires |table| == 2 * p.N && forall i :: 0 <= i < 2 * p.N ==> table[i] == TableEntry(p, i)
    requires Shapes(p, ek1, index, pkey, acc.elements)
    modifies acc
    ensures acc.elements == Product(p, FirstKeyBinary(p, ekstar, ek1, c), index, pkey, old(acc.elements))
  {
    hide Product, Mul, Add, Reduce, TableEntry;
    var monomial := table[if c == 2 * p.N then 0 else c];
    var d, f := [], [];
    for i := 0 to p.Kept()
      invariant |d| == |f| == i
      invariant forall j :: 0 <= j < i ==> d[j] == FirstVecBinary(p, ekstar.d, ek1.d, c)[j]
      invariant forall j :: 0 <= j < i ==> f[j] == FirstVecBinary(p, ekstar.f, ek1.f, c)[j]
    {
      d := d + [Reduce(p.Q, Add(ekstar.d[i], Mul(ek1.d[i], monomial)))];
      f := f + [Reduce(p.Q, Add(ekstar.f[i], Mul(ek1.f[i], monomial)))];
    }
    assert d == FirstVecBinary(p, ekstar.d, ek1.d, c) && f == FirstVecBinary(p, ekstar.f, ek1.f, c);
    HbProd(p, d, f, index, pkey, acc);
  }

  /** floor(x·2N/q), the monomial index of a ciphertext coefficient. */
  function MonomialIndex(p: Params, q: int, x: int): int
    requires q > 0
  {
    x * 2 * p.N / q
  }

  lemma {:induction false} MonomialIndexRange(p: Params, q: int, x: int)
    requires q > 0 && 0 <= x < q && p.N > 0
    ensures 0 <= MonomialIndex(p, q, x) < 2 * p.N
  {
    var y := x * 2 * p.N;
    DivMod(y, q);
    assert y == x * (2 * p.N);
    MulNonNeg(x, 2 * p.N);
    MulMono(x, q - 1, 2 * p.N);
    assert (q - 1) * (2 * p.N) == q * (2 * p.N) - 2 * p.N;
    if y / q >= 2 * p.N {
      MulMono(2 * p.N, y / q, q);
    } else if y / q < 0 {
      MulMono(y / q, -1, q);
    }
  }

  /** The exponents used for a ciphertext matrix: scaled for the ternary accumulator, taken as
      they are for the binary one. */
  function ExponentsOf(v: Variant, p: Params, q: int, ct: seq<seq<int>>): (r: Exponents)
    requires q > 0
    ensures |r| == |ct| && forall u :: 0 <= u < |ct| ==> |r[u]| == |ct[u]|
  {
    seq(|ct|, u requires 0 <= u < |ct| =>
      seq(|ct[u]|, i requires 0 <= i < |ct[u]| => if v.Ternary? then MonomialIndex(p, q, ct[u][i]) else ct[u][i]))
  }

  /** EvalAcc: one accumulator update per user and coefficient. */
  method EvalAcc(v: Variant, p: Params, table: Vec, keys: AccKeys, pkey: seq<Vec>, acc: Accumulator, q: int, ct: seq<seq<int>>, n: nat)
    requires q > 0 && RunShape(p, pkey, keys, ExponentsOf(v, p, q, ct), n, acc.elements) && InRange(ExponentsOf(v, p, q, ct), p)
    requires |table| == 2 * p.N && forall i :: 0 <= i < 2 * p.N ==> table[i] == TableEntry(p, i)
    modifies acc
    ensures acc.elements == Run(v, p, pkey, keys, ExponentsOf(v, p, q, ct), n, old(acc.elements), |ct|, 0)
  {
    hide TableEntry, Product, AddToAcc, StepKey, FirstKey, FirstKeyBinary, MonomialIndex;
    var k := |ct|;
    ghost var st, exps := acc.elements, ExponentsOf(v, p, q, ct);
    for u := 0 to k
      invariant acc.elements == Run(v, p, pkey, keys, exps, n, st, u, 0)
    {
      for i := 0 to n
        invariant acc.elements == Run(v, p, pkey, keys, exps, n, st, u, i)
      {
        var c := if v.Ternary? then MonomialIndex(p, q, ct[u][i]) else ct[u][i];
        assert c == exps[u][i];
        if u == 0 && i == 0 {
          if v.Ternary? {
            AddToAccXZW0(p, table, keys.star, keys.plus[u][i], keys.minus[u][i], c, pkey, u, acc);
          } else {
            AddToAccXZW0Binary(p, table, keys.star, keys.plus[u][i], c, pkey, u, acc);
          }
        } else {
          if v.Ternary? {
            AddToAccXZW(p, table, keys.plus[u][i], keys.minus[u][i], c, pkey, u, acc);
          } else {
            AddToAccXZWBinary(p, table, keys.plus[u][i], c, pkey, u, acc);
          }
        }
      }
    }
  }
}
