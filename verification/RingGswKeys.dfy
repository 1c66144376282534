/** Generation of ring-GSW keys of X^m and of automorphism keys. */
module RingGswKeys {
  import opened NegacyclicRing
  import opened RingModulus
  import opened Arithmetic
  import opened Gadget
  import opened RingVectors
  import opened KeyAlgebra
  import opened MultiKeyEval
  import opened RingGsw
  import opened Lmkcdey
  import opened LmkcdeyExponent
  import MatrixNtru

  /** a with g added at X^mm, where X^N = -1 turns positions from N on into subtractions. */
  function WithMonomial(a: Poly, g: int, mm: nat): (r: Poly)
    requires mm < 2 * |a|
    ensures |r| == |a|
  {
    if mm >= |a| then a[mm - |a| := a[mm - |a|] - g] else a[mm := a[mm] + g]
  }

  lemma {:induction false} WithMonomialIs(a: Poly, g: int, mm: nat)
    requires mm < 2 * |a|
    ensures WithMonomial(a, g, mm) == Add(a, Scale(g, Mono(mm, One(|a|))))
  {
    hide Mono;
    var n := |a|;
    var i := if mm >= n then mm - n else mm;
    UnitMonomial(n, i);
    var m := Mono(mm, One(n));
    forall j | 0 <= j < n ensures WithMonomial(a, g, mm)[j] == a[j] + g * m[j] {
      assert m[j] == if j != i then 0 else if mm >= n then -1 else 1;
    }
  }

  /** Row i of the key: the random element and the masked row. */
  function KeyRow(p: Params, z: Poly, mm: nat, A: Poly, e: Poly, i: nat): (r: (Poly, Poly))
    requires p.Valid() && |z| == |A| == |e| == p.N && mm < 2 * p.N
    ensures |r.0| == |r.1| == p.N
  {
    var g := Pow(p.B, i / 2 + 1);
    var c0 := if i % 2 == 0 then WithMonomial(A, g, mm) else A;
    var c1 := if i % 2 == 1 then WithMonomial(e, g, mm) else e;
    (Reduce(p.Q, c0), Reduce(p.Q, Add(c1, Mul(A, z))))
  }

  lemma {:induction false} EvenRow(p: Params, z: Poly, mm: nat, A: Poly, e: Poly, i: nat, g: int)
    requires p.Valid() && |z| == |A| == |e| == p.N && mm < 2 * p.N && i % 2 == 0 && g == Pow(p.B, i / 2 + 1)
    ensures var r := KeyRow(p, z, mm, A, e, i);
            Cong(p.Q, r.1, Add(Mul(z, r.0), Add(e, Mul(Scale(-1, Mono(mm, z)), Constant(p.N, g)))))
  {
    hide Cong, Mul, Mono, Reduce, WithMonomial, Constant, One, Pow;
    var Q, r, m := p.Q, KeyRow(p, z, mm, A, e, i), Mono(mm, z);
    var a, b := WithMonomial(A, g, mm), Add(e, Mul(A, z));
    WithMonomialIs(A, g, mm);
    ReduceCong(Q, a);
    ReduceCong(Q, b);
    CongMulRight(Q, z, Reduce(Q, a), a);
    MulConstant(Scale(-1, m), g);
    MulAdd(z, A, Scale(g, Mono(mm, One(p.N))));
    MulScale(g, z, Mono(mm, One(p.N)));
    MonoMul(mm, z, One(p.N));
    MulOne(z);
    MulComm(A, z);
    var w := Add(e, Scale(g, Scale(-1, m)));
    CongRefl(Q, w);
    CongAdd(Q, Mul(z, Reduce(Q, a)), Mul(z, a), w, w);
    MaskCancels(Mul(z, A), e, m, g);
    CongSym(Q, Add(Mul(z, r.0), w), b);
    CongTrans(Q, r.1, b, Add(Mul(z, r.0), w));
  }

  lemma {:induction false} MaskCancels(y: Poly, e: Poly, m: Poly, g: int)
    requires |y| == |e| == |m|
    ensures Add(Add(y, Scale(g, m)), Add(e, Scale(g, Scale(-1, m)))) == Add(e, y)
  {
    forall j | 0 <= j < |m| ensures g * (-1 * m[j]) == -(g * m[j]) {}
  }

  lemma {:induction false} OddRow(p: Params, z: Poly, mm: nat, A: Poly, e: Poly, i: nat, g: int)
    requires p.Valid() && |z| == |A| == |e| == p.N && mm < 2 * p.N && i % 2 == 1 && g == Pow(p.B, i / 2 + 1)
    ensures var r := KeyRow(p, z, mm, A, e, i);
            Cong(p.Q, r.1, Add(Mul(z, r.0), Add(e, Mul(Mono(mm, One(p.N)), Constant(p.N, g)))))
  {
    hide Cong, Mul, Mono, Reduce, WithMonomial, Constant, One, Pow;
    var Q, r, m := p.Q, KeyRow(p, z, mm, A, e, i), Mono(mm, One(p.N));
    WithMonomialIs(e, g, mm);
    var b := Add(Add(e, Scale(g, m)), Mul(A, z));
    ReduceCong(Q, A);
    ReduceCong(Q, b);
    CongMulRight(Q, z, Reduce(Q, A), A);
    MulConstant(m, g);
    MulComm(A, z);
    var w := Add(e, Scale(g, m));
    CongRefl(Q, w);
    CongAdd(Q, Mul(z, Reduce(Q, A)), Mul(z, A), w, w);
    AddComm(Mul(z, A), w);
    CongSym(Q, Add(Mul(z, r.0), w), b);
    CongTrans(Q, r.1, b, Add(Mul(z, r.0), w));
  }

  /** ((m % q) + q) % q·(2N/q) with C remainders: the exponent (m mod q)·(2N/q). */
  method ReducedExponent(q: nat, N: nat, m: int) returns (mm: nat)
    requires q > 0 && N > 0
    ensures mm == KeyExponent(q, 2 * N, m) && mm < 2 * N
  {
    var r := MatrixNtru.Remainder(MatrixNtru.Remainder(m, q) + q, q);
    SignedReduction(m, q);
    ExponentRange(q, 2 * N, m % q);
    mm := r * (2 * N / q);
  }

  lemma {:induction false} SignedReduction(m: int, q: nat)
    requires q > 0
    ensures MatrixNtru.Remainder(MatrixNtru.Remainder(m, q) + q, q) == m % q
  {
    MatrixNtru.RemainderResidue(m, q);
    var c := MatrixNtru.Remainder(m, q);
    assert -(q as int) < c < q;
    if c < 0 {
      DivModUnique(c + q, q, 0, c + q);
    } else {
      DivModUnique(c + q, q, 1, c);
    }
  }

  lemma {:induction false} ExponentRange(q: nat, M: nat, r: int)
    requires q > 0 && M > 0 && 0 <= r < q
    ensures 0 <= r * (M / q) < M
  {
    DivMod(M, q);
    var k := M / q;
    MulNonNeg(r, k);
    if k == 0 {
      assert r * k == 0;
    } else {
      MulMono(r + 1, q, k);
      Distribute(k, r, 1);
    }
  }

  /** KeyGenDM reduces m as an unsigned 64-bit number: that agrees with m mod q for every m exactly
      when q divides the word size. */
  lemma {:induction false} UnsignedReduction(word: nat, q: nat)
    requires word > 0 && q > 0
    ensures (forall m: int :: Residue(Residue(m, word), q) == Residue(m, q)) <==> word % q == 0
  {
    if word % q == 0 {
      DivMod(word, q);
      forall m: int ensures Residue(Residue(m, word), q) == Residue(m, q) {
        DivMod(m, word);
        Arithmetic.Regroup(q, word / q, m / word);
        ModShift(m, m % word, q, word / q * (m / word));
      }
    }
    if Residue(Residue(word, word), q) == Residue(word, q) {
      DivModUnique(word, word, 1, 0);
      DivModUnique(0, q, 0, 0);
    }
  }

  /** KeyGenLMKCDEY and KeyGenDM: the key of m encrypts X^((m mod q)·(2N/q)) with exactly the sampled
      noise. */
  method KeyGen(p: Params, q: nat, z: Poly, m: int, A: Vec, e: Vec) returns (ek: Rows)
    requires p.Valid() && q > 0 && |z| == p.N && |A| == |e| == 2 * p.Kept() && Sized(A, p.N) && Sized(e, p.N)
    ensures GswEncrypts(p, z, ek, KeyExponent(q, 2 * p.N, m), Evens(e), Odds(e))
  {
    hide GadgetEncrypts, KeyExponent;
    var mm := ReducedExponent(q, p.N, m);
    ek := MonomialKey(p, z, mm, A, e);
  }

  /** The key rows for a reduced exponent; positions from N on are subtracted. */
  method MonomialKey(p: Params, z: Poly, mm: nat, A: Vec, e: Vec) returns (ek: Rows)
    requires p.Valid() && |z| == p.N && mm < 2 * p.N && |A| == |e| == 2 * p.Kept() && Sized(A, p.N) && Sized(e, p.N)
    ensures GswEncrypts(p, z, ek, mm, Evens(e), Odds(e))
  {
    hide Cong, Mul, Mono, Reduce, WithMonomial, Constant, One, Pow;
    var a: Vec, b: Vec := [], [];
    for i := 0 to 2 * p.Kept()
      invariant |a| == |b| == i && Sized(a, p.N) && Sized(b, p.N)
      invariant forall j :: 0 <= j < i ==> (a[j], b[j]) == KeyRow(p, z, mm, A[j], e[j], j)
    {
      var row0, row1 := A[i], e[i];
      if i % 2 == 0 {
        row0 := WithMonomial(row0, Pow(p.B, i / 2 + 1), mm);
      } else {
        row1 := WithMonomial(row1, Pow(p.B, i / 2 + 1), mm);
      }
      a := a + [Reduce(p.Q, row0)];
      b := b + [Reduce(p.Q, Add(row1, Mul(A[i], z)))];
    }
    ek := Rows(a, b);
    RowsEncrypt(p, z, mm, A, e, ek);
  }

  lemma {:induction false} RowsEncrypt(p: Params, z: Poly, mm: nat, A: Vec, e: Vec, ek: Rows)
    requires p.Valid() && |z| == p.N && mm < 2 * p.N && |A| == |e| == 2 * p.Kept() && Sized(A, p.N) && Sized(e, p.N) && GswShaped(p, ek)
    requires forall j :: 0 <= j < 2 * p.Kept() ==> (ek.a[j], ek.b[j]) == KeyRow(p, z, mm, A[j], e[j], j)
    ensures GswEncrypts(p, z, ek, mm, Evens(e), Odds(e))
  {
    hide Cong, Mul, Mono, KeyRow, Constant, One, Pow, Add;
    var a, b := ek.a, ek.b;
    forall i | 0 <= i < p.Kept()
      ensures Cong(p.Q, Evens(b)[i], Add(Mul(z, Evens(a)[i]), Add(Evens(e)[i], Mul(Scale(-1, Mono(mm, z)), GadgetVec(p)[i]))))
    {
      assert (a[2 * i], b[2 * i]) == KeyRow(p, z, mm, A[2 * i], e[2 * i], 2 * i);
      EvenRow(p, z, mm, A[2 * i], e[2 * i], 2 * i, Pow(p.B, i + 1));
    }
    forall i | 0 <= i < p.Kept()
      ensures Cong(p.Q, Odds(b)[i], Add(Mul(z, Odds(a)[i]), Add(Odds(e)[i], Mul(Mono(mm, One(p.N)), GadgetVec(p)[i]))))
    {
      assert (a[2 * i + 1], b[2 * i + 1]) == KeyRow(p, z, mm, A[2 * i + 1], e[2 * i + 1], 2 * i + 1);
      OddRow(p, z, mm, A[2 * i + 1], e[2 * i + 1], 2 * i + 1, Pow(p.B, i + 1));
    }
  }

  /** KeyGenAuto: rows (a, e - z(X^k)·B^(i+1) + a·z). */
  method KeyGenAuto(p: Params, z: Poly, k: nat, A: Vec, e: Vec) returns (ak: Rows)
    requires p.Valid() && |z| == p.N && |A| == |e| == p.Kept() && Sized(A, p.N) && Sized(e, p.N)
    ensures GadgetEncrypts(p, z, ak, Scale(-1, Auto(k, z)), e)
  {
    hide Cong, Mul, Auto, Reduce, Constant, Pow, Sub, Add;
    var skAuto := Auto(k, z);
    var b: Vec := [];
    for i := 0 to p.Kept()
      invariant |b| == i && Sized(b, p.N)
      invariant forall j :: 0 <= j < i ==> Cong(p.Q, b[j], Add(Mul(z, A[j]), Add(e[j], Mul(Scale(-1, skAuto), GadgetVec(p)[j]))))
    {
      var row := Sub(e[i], Scale(Pow(p.B, i + 1), skAuto));
      row := Reduce(p.Q, Add(row, Mul(A[i], z)));
      AutoRow(p, z, skAuto, A[i], e[i], Pow(p.B, i + 1), row);
      b := b + [row];
    }
    ak := Rows(A, b);
  }

  lemma {:induction false} AutoRow(p: Params, z: Poly, w: Poly, A: Poly, e: Poly, g: int, row: Poly)
    requires p.Valid() && |z| == |w| == |A| == |e| == p.N && row == Reduce(p.Q, Add(Sub(e, Scale(g, w)), Mul(A, z)))
    ensures Cong(p.Q, row, Add(Mul(z, A), Add(e, Mul(Scale(-1, w), Constant(p.N, g)))))
  {
    hide Cong, Mul, Reduce, Constant;
    ReduceCong(p.Q, Add(Sub(e, Scale(g, w)), Mul(A, z)));
    MulConstant(Scale(-1, w), g);
    MulComm(A, z);
    NegatedRow(Mul(z, A), e, w, g);
  }

  lemma {:induction false} NegatedRow(y: Poly, e: Poly, w: Poly, g: int)
    requires |y| == |e| == |w|
    ensures Add(Sub(e, Scale(g, w)), y) == Add(y, Add(e, Scale(g, Scale(-1, w))))
  {
    forall j | 0 <= j < |w| ensures g * (-1 * w[j]) == -(g * w[j]) {}
  }
}
