/** Generation of the multi-key bootstrapping keys.

    The design is d_i = r·CRS_i + e0_i + m·B^(i+1) with the ring product r·CRS_i.  The code holds r
    in evaluation format and multiplies CRS_i by the i-th stored value of r, a single integer: the
    value of r at the i-th root of X^N + 1 modulo Q. */
module KeyGeneration {
  import opened NegacyclicRing
  import opened RingModulus
  import opened Arithmetic
  import opened Gadget
  import opened RingVectors
  import opened HybridProduct
  import opened KeyAlgebra
  import opened Transform

  function PowerPoly(p: Params, i: nat): (r: Poly)
    requires p.Valid()
    ensures |r| == p.N
  {
    Constant(p.N, Pow(p.B, i + 1) % p.Q)
  }

  function DRow(p: Params, crs: Vec, msg: Poly, slot: int, e0: Vec, i: nat): (r: Poly)
    requires p.Valid() && |msg| == p.N && i < |crs| && i < |e0| && Sized(crs, p.N) && Sized(e0, p.N)
    ensures |r| == p.N
  {
    Add(Add(e0[i], Mul(msg, PowerPoly(p, i))), Scale(slot, crs[i]))
  }

  function FRow(p: Params, sInv: Poly, r: Poly, e1: Vec, i: nat): (f: Poly)
    requires p.Valid() && |sInv| == |r| == p.N && i < |e1| && Sized(e1, p.N)
    ensures |f| == p.N
  {
    Mul(Add(e1[i], Mul(PowerPoly(p, i), r)), sInv)
  }

  /** KeyGenXZW and KDMKeyGenXZW. */
  method KeyGen(p: Params, g: seq<int>, roots: seq<nat>, crs: Vec, sInv: Poly, kdm: bool, m: bool, r: Poly, e0: Vec, e1: Vec)
    returns (key: EvalKey)
    requires p.Valid() && |sInv| == |r| == p.N && |crs| == |e0| == |e1| == p.Kept() <= |roots|
    requires Sized(crs, p.N) && Sized(e0, p.N) && Sized(e1, p.N)
    requires |g| == p.digits && forall i :: 0 <= i < p.digits ==> g[i] == Pow(p.B, i) % p.Q
    ensures Generated(p, roots, crs, sInv, kdm, m, r, e0, e1, key)
  {
    hide Mul, Add, Reduce, ValueAt, Scale, One, Constant;
    ghost var msg := Scale(if m then 1 else 0, if kdm then sInv else One(p.N));
    var skrPoly := TransformOf(p.Q, roots, r);
    var d, f := [], [];
    for i := 0 to p.Kept()
      invariant |d| == |f| == i
      invariant forall j :: 0 <= j < i ==> d[j] == Reduce(p.Q, DRow(p, crs, msg, Slot(p, roots, r, j), e0, j))
      invariant forall j :: 0 <= j < i ==> f[j] == Reduce(p.Q, FRow(p, sInv, r, e1, j))
    {
      var gd := Constant(p.N, g[i + 1]);
      var f0 := Add(e1[i], Mul(gd, r));
      f := f + [Reduce(p.Q, Mul(f0, sInv))];
      var d0 := e0[i];
      MessageTimesGadget(gd, if kdm then sInv else One(p.N), m, e0[i]);
      OneTimesGadget(gd, sInv);
      if m {
        if kdm {
          d0 := Add(d0, Mul(gd, sInv));
        } else {
          d0 := Add(d0, gd);
        }
      }
      d := d + [Reduce(p.Q, Add(d0, Scale(skrPoly[i], crs[i])))];
    }
    key := EvalKey(d, f);
  }

  /** The i-th stored value of r. */
  function Slot(p: Params, roots: seq<nat>, r: Poly, i: nat): int
    requires p.Valid() && i < |roots|
  {
    Residue(ValueAt(r, roots[i]), p.Q)
  }

  lemma {:induction false} MessageTimesGadget(gd: Poly, x: Poly, m: bool, e: Poly)
    requires |gd| == |x| == |e| > 0
    ensures Add(e, Mul(Scale(if m then 1 else 0, x), gd)) == if m then Add(e, Mul(x, gd)) else e
  {
    hide Mul;
    MulScale(if m then 1 else 0, x, gd);
    if m {
      assert Scale(1, x) == x;
    } else {
      assert Add(e, Scale(0, Mul(x, gd))) == e;
    }
  }

  lemma {:induction false} OneTimesGadget(gd: Poly, sInv: Poly)
    requires |gd| == |sInv| > 0
    ensures Mul(One(|gd|), gd) == gd && Mul(sInv, gd) == Mul(gd, sInv)
  {
    MulOne(gd);
    MulComm(sInv, gd);
  }

  lemma {:induction false} PowerPolyCong(p: Params, i: nat)
    requires p.Valid() && i < p.Kept()
    ensures Cong(p.Q, PowerPoly(p, i), GadgetVec(p)[i])
  {
    var x := Pow(p.B, i + 1);
    DivMod(x, p.Q);
    assert GadgetVec(p)[i] == Constant(p.N, x);
    ConstantCong(p.Q, p.N, x % p.Q, x, -(x / p.Q));
  }

  lemma {:induction false} ConstantCong(Q: int, n: nat, a: int, b: int, k: int)
    requires a == b + Q * k
    ensures Cong(Q, Constant(n, a), Constant(n, b))
  {
    CongByCoefficients(Q, Constant(n, a), Constant(n, b), Constant(n, k));
  }

  /** e0_i plus the difference between the integer multiple and the ring multiple of CRS_i. */
  function EffectiveNoise(p: Params, roots: seq<nat>, crs: Vec, r: Poly, e0: Vec): (e: Vec)
    requires p.Valid() && |r| == p.N && |crs| == |e0| <= |roots| && Sized(crs, p.N) && Sized(e0, p.N)
    ensures |e| == |e0| && Sized(e, p.N)
  {
    seq(|e0|, i requires 0 <= i < |e0| => Add(e0[i], Sub(Scale(Slot(p, roots, r, i), crs[i]), Mul(r, crs[i]))))
  }

  ghost predicate Generated(p: Params, roots: seq<nat>, crs: Vec, sInv: Poly, kdm: bool, m: bool, r: Poly, e0: Vec, e1: Vec, key: EvalKey)
  {
    p.Valid() && |sInv| == |r| == p.N && |crs| == |e0| == |e1| == p.Kept() <= |roots| &&
    Sized(crs, p.N) && Sized(e0, p.N) && Sized(e1, p.N) && key.Shaped(p) &&
    (forall i :: 0 <= i < p.Kept() ==> key.d[i] == Reduce(p.Q, DRow(p, crs, Scale(if m then 1 else 0, if kdm then sInv else One(p.N)), Slot(p, roots, r, i), e0, i))) &&
    forall i :: 0 <= i < p.Kept() ==> key.f[i] == Reduce(p.Q, FRow(p, sInv, r, e1, i))
  }

  /** Every generated key encrypts its message with r and the effective noise. */
  lemma {:induction false} GeneratedEncrypts(p: Params, roots: seq<nat>, crs: Vec, s: Poly, sInv: Poly, kdm: bool, m: bool, r: Poly, e0: Vec, e1: Vec, key: EvalKey)
    requires Generated(p, roots, crs, sInv, kdm, m, r, e0, e1, key) && |s| == p.N && Cong(p.Q, Mul(sInv, s), One(p.N))
    ensures Encrypts(p, crs, s, key, Scale(if m then 1 else 0, if kdm then sInv else One(p.N)), Opening(r, EffectiveNoise(p, roots, crs, r, e0), e1))
  {
    hide Cong, Mul, Add, Sub, Scale, Reduce, GadgetVec, PowerPoly, One, Slot;
    var msg, o := Scale(if m then 1 else 0, if kdm then sInv else One(p.N)), Opening(r, EffectiveNoise(p, roots, crs, r, e0), e1);
    forall i | 0 <= i < p.Kept()
      ensures Cong(p.Q, key.d[i], DForm(p, crs, msg, o, i)) && Cong(p.Q, Mul(s, key.f[i]), FForm(p, o, i))
    {
      var row := DRow(p, crs, msg, Slot(p, roots, r, i), e0, i);
      PowerPolyCong(p, i);
      DRowOpens(p.Q, e0[i], msg, PowerPoly(p, i), GadgetVec(p)[i], Scale(Slot(p, roots, r, i), crs[i]), Mul(r, crs[i]));
      ReduceCong(p.Q, row);
      CongTrans(p.Q, key.d[i], row, DForm(p, crs, msg, o, i));
      ReduceCong(p.Q, FRow(p, sInv, r, e1, i));
      CongMulRight(p.Q, s, key.f[i], FRow(p, sInv, r, e1, i));
      FRowOpens(p.Q, s, sInv, e1[i], PowerPoly(p, i), GadgetVec(p)[i], r);
      CongTrans(p.Q, Mul(s, key.f[i]), Mul(s, FRow(p, sInv, r, e1, i)), FForm(p, o, i));
    }
  }

  lemma {:induction false} DRowOpens(Q: int, e: Poly, msg: Poly, g: Poly, g': Poly, x: Poly, y: Poly)
    requires |e| == |msg| == |g| == |g'| == |x| == |y| > 0 && Cong(Q, g, g')
    ensures Cong(Q, Add(Add(e, Mul(msg, g)), x), Add(y, Add(Add(e, Sub(x, y)), Mul(msg, g'))))
  {
    hide Cong, Mul;
    CongMulRight(Q, msg, g, g');
    CongRefl(Q, e);
    CongRefl(Q, x);
    CongAdd(Q, e, e, Mul(msg, g), Mul(msg, g'));
    CongAdd(Q, Add(e, Mul(msg, g)), Add(e, Mul(msg, g')), x, x);
    assert Add(Add(e, Mul(msg, g')), x) == Add(y, Add(Add(e, Sub(x, y)), Mul(msg, g')));
  }

  lemma {:induction false} FRowOpens(Q: int, s: Poly, z: Poly, e: Poly, g: Poly, g': Poly, r: Poly)
    requires |s| == |z| == |e| == |g| == |g'| == |r| > 0 && Cong(Q, g, g') && Cong(Q, Mul(z, s), One(|z|))
    ensures Cong(Q, Mul(s, Mul(Add(e, Mul(g, r)), z)), Add(e, Mul(r, g')))
  {
    hide Cong, Mul, Add, One;
    var x := Add(e, Mul(g, r));
    MulSwap(s, x, z);
    MulComm(s, z);
    CongMulRight(Q, x, Mul(z, s), One(|z|));
    MulOne(x);
    MulComm(g, r);
    CongMulRight(Q, r, g, g');
    CongRefl(Q, e);
    CongAdd(Q, e, e, Mul(r, g), Mul(r, g'));
    CongTrans(Q, Mul(x, Mul(z, s)), x, Add(e, Mul(r, g')));
  }

  /** r takes its i-th stored value at every root where CRS_i is not zero. */
  ghost predicate RowAgrees(p: Params, roots: seq<nat>, c: Poly, r: Poly, i: nat)
    requires p.Valid() && i < |roots|
  {
    forall j :: 0 <= j < |roots| ==>
      Residue(ValueAt(c, roots[j]), p.Q) == 0 || Residue(ValueAt(r, roots[j]), p.Q) == Residue(ValueAt(r, roots[i]), p.Q)
  }

  /** The intended relation with the sampled noise e0 holds exactly when, for every row i, r takes
      its i-th stored value wherever CRS_i is not zero. */
  lemma {:induction false} IntendedRelation(p: Params, roots: seq<nat>, crs: Vec, s: Poly, sInv: Poly, kdm: bool, m: bool, r: Poly, e0: Vec, e1: Vec, key: EvalKey)
    requires Generated(p, roots, crs, sInv, kdm, m, r, e0, e1, key) && |s| == p.N && Cong(p.Q, Mul(sInv, s), One(p.N))
    requires Prime(p.Q) && Roots(p.Q, p.N, roots)
    ensures Encrypts(p, crs, s, key, Scale(if m then 1 else 0, if kdm then sInv else One(p.N)), Opening(r, e0, e1))
       <==> forall i :: 0 <= i < p.Kept() ==> RowAgrees(p, roots, crs[i], r, i)
  {
    hide Cong, Mul, Add, Sub, Scale, Reduce, GadgetVec, One, Slot, Prime, Roots, RowAgrees, Residue, ValueAt;
    GeneratedEncrypts(p, roots, crs, s, sInv, kdm, m, r, e0, e1, key);
    var msg := Scale(if m then 1 else 0, if kdm then sInv else One(p.N));
    var o, o' := Opening(r, EffectiveNoise(p, roots, crs, r, e0), e1), Opening(r, e0, e1);
    forall i | 0 <= i < p.Kept()
      ensures FForm(p, o, i) == FForm(p, o', i)
      ensures Cong(p.Q, key.d[i], DForm(p, crs, msg, o', i)) <==> RowAgrees(p, roots, crs[i], r, i)
    {
      SameNoise(p.Q, key.d[i], Mul(r, crs[i]), e0[i], Scale(Slot(p, roots, r, i), crs[i]), Mul(msg, GadgetVec(p)[i]));
      RowCondition(p, roots, crs[i], r, i);
    }
  }

  lemma {:induction false} RowCondition(p: Params, roots: seq<nat>, c: Poly, r: Poly, i: nat)
    requires p.Valid() && |c| == |r| == p.N && Prime(p.Q) && Roots(p.Q, p.N, roots) && i < |roots|
    ensures Cong(p.Q, Scale(Slot(p, roots, r, i), c), Mul(r, c)) <==> RowAgrees(p, roots, c, r, i)
  {
    IntegerMultiple(p.Q, roots, r, c, Slot(p, roots, r, i));
    ModOfMod(ValueAt(r, roots[i]), p.Q);
  }

  /** If some CRS_i is invertible, the intended relation holds exactly when r is a constant modulo Q. */
  lemma {:induction false} ConstantsOnly(p: Params, roots: seq<nat>, crs: Vec, s: Poly, sInv: Poly, kdm: bool, m: bool, r: Poly, e0: Vec, e1: Vec, key: EvalKey, i: nat, u: Poly)
    requires Generated(p, roots, crs, sInv, kdm, m, r, e0, e1, key) && |s| == p.N && Cong(p.Q, Mul(sInv, s), One(p.N))
    requires Prime(p.Q) && Roots(p.Q, p.N, roots) && i < p.Kept()
    requires |u| == p.N && Cong(p.Q, Mul(crs[i], u), One(p.N))
    ensures Encrypts(p, crs, s, key, Scale(if m then 1 else 0, if kdm then sInv else One(p.N)), Opening(r, e0, e1)) <==> IsConstant(p.Q, r)
  {
    hide Cong, Mul, Encrypts, Prime, ValueAt, IsConstant, RowAgrees, One, Roots, Residue, DRow, FRow, Reduce, Slot;
    IntendedRelation(p, roots, crs, s, sInv, kdm, m, r, e0, e1, key);
    if IsConstant(p.Q, r) {
      forall k | 0 <= k < p.Kept() ensures RowAgrees(p, roots, crs[k], r, k) {
        ConstantAgrees(p, roots, crs[k], r, k);
      }
    }
    InvertibleValues(p.Q, roots, crs[i], u);
    if RowAgrees(p, roots, crs[i], r, i) {
      UnitAgrees(p, roots, crs[i], r, i);
    }
  }

  lemma {:induction false} ConstantAgrees(p: Params, roots: seq<nat>, c: Poly, r: Poly, i: nat)
    requires p.Valid() && |r| == p.N && Prime(p.Q) && Roots(p.Q, p.N, roots) && i < |roots| && IsConstant(p.Q, r)
    ensures RowAgrees(p, roots, c, r, i)
  {
    hide Prime, ValueAt, Cong, Residue;
    ConstantPart(p.Q, r);
    SameEverywhere(p.Q, roots, r, r[0]);
  }

  lemma {:induction false} UnitAgrees(p: Params, roots: seq<nat>, c: Poly, r: Poly, i: nat)
    requires p.Valid() && |r| == p.N && Prime(p.Q) && Roots(p.Q, p.N, roots) && i < |roots| && RowAgrees(p, roots, c, r, i)
    requires forall j :: 0 <= j < p.N ==> Residue(ValueAt(c, roots[j]), p.Q) != 0
    ensures IsConstant(p.Q, r)
  {
    hide Prime, ValueAt, Cong, Residue, IsConstant;
    SameEverywhere(p.Q, roots, r, ValueAt(r, roots[i]));
    ConstantForm(p.Q, r, ValueAt(r, roots[i]));
  }

  lemma {:induction false} SameNoise(Q: int, d: Poly, y: Poly, e: Poly, x: Poly, g: Poly)
    requires |d| == |y| == |e| == |x| == |g| && Cong(Q, d, Add(y, Add(Add(e, Sub(x, y)), g)))
    ensures Cong(Q, d, Add(y, Add(e, g))) <==> Cong(Q, x, y)
  {
    hide Cong;
    var a, b := Add(y, Add(Add(e, Sub(x, y)), g)), Add(y, Add(e, g));
    if Cong(Q, d, b) {
      CongSym(Q, d, a);
      CongTrans(Q, a, d, b);
      CongRefl(Q, Add(e, g));
      CongSub(Q, a, b, Add(e, g), Add(e, g));
      assert Sub(a, Add(e, g)) == x && Sub(b, Add(e, g)) == y;
    }
    if Cong(Q, x, y) {
      CongRefl(Q, Add(e, g));
      CongAdd(Q, x, y, Add(e, g), Add(e, g));
      assert Add(x, Add(e, g)) == a && Add(y, Add(e, g)) == b;
      CongTrans(Q, d, a, b);
    }
  }

  /** In Z_5[X]/(X^2+1), with roots 2 and 3, CRS = (1, 1) and r = X: the generated key of the message
      0 does not satisfy the intended relation. */
  method IntendedRelationFails() returns (p: Params, roots: seq<nat>, crs: Vec, r: Poly, key: EvalKey)
    ensures p == Params(2, 5, 2, 3) && p.Valid() && roots == [2, 3] && Prime(p.Q) && Roots(p.Q, p.N, roots)
    ensures crs == [[1, 0], [1, 0]] && r == [0, 1] && Generated(p, roots, crs, One(2), false, false, r, [[0, 0], [0, 0]], [[0, 0], [0, 0]], key)
    ensures !Encrypts(p, crs, One(2), key, Scale(0, One(2)), Opening(r, [[0, 0], [0, 0]], [[0, 0], [0, 0]]))
  {
    hide Cong, Mul, Encrypts, Prime, Roots, RowAgrees, One, Residue, ValueAt, Generated, Reduce;
    p, roots, crs, r := Params(2, 5, 2, 3), [2, 3], [[1, 0], [1, 0]], [0, 1];
    SmallRing(p);
    var g := PowerTable(p);
    key := KeyGen(p, g, roots, crs, One(2), false, false, r, [[0, 0], [0, 0]], [[0, 0], [0, 0]]);
    OneInverse();
    IntendedRelation(p, roots, crs, One(2), One(2), false, false, r, [[0, 0], [0, 0]], [[0, 0], [0, 0]], key);
    RowDisagrees(p);
    assert 0 < p.Kept() && !RowAgrees(p, roots, crs[0], r, 0);
  }

  lemma {:induction false} OneInverse()
    ensures Cong(5, Mul(One(2), One(2)), One(2))
  {
    MulOne(One(2));
    CongRefl(5, One(2));
  }

  lemma {:induction false} RowDisagrees(p: Params)
    requires p == Params(2, 5, 2, 3) && p.Valid()
    ensures !RowAgrees(p, [2, 3], [1, 0], [0, 1], 0)
  {
    SmallValues();
    var roots: seq<nat> := [2, 3];
    assert roots[1] == 3 && roots[0] == 2;
    assert Residue(ValueAt([1, 0], roots[1]), 5) == 1 && Residue(ValueAt([0, 1], roots[1]), 5) == 3 && Residue(ValueAt([0, 1], roots[0]), 5) == 2;
  }

  lemma {:induction false} SmallRing(p: Params)
    requires p == Params(2, 5, 2, 3)
    ensures p.Valid() && Prime(5) && Roots(5, 2, [2, 3])
  {
    assert Pow(2, 3) == 8 by { assert Pow(2, 0) == 1 && Pow(2, 1) == 2 && Pow(2, 2) == 4; }
    hide Pow, Prime;
    FivePrime();
    SmallPowers();
    var roots: seq<nat> := [2, 3];
    assert AllApart(5, roots) by { assert Apart(5, 2, 3) by { assert Residue(-1, 5) == 4; } }
    forall j | 0 <= j < 2 ensures Residue(Pow(roots[j], 2) + 1, 5) == 0 {
      assert roots[j] == 2 || roots[j] == 3;
    }
  }

  lemma {:induction false} SmallPowers()
    ensures Residue(Pow(2, 2) + 1, 5) == 0 && Residue(Pow(3, 2) + 1, 5) == 0
  {
    assert Pow(2, 0) == 1 && Pow(2, 1) == 2 && Pow(3, 0) == 1 && Pow(3, 1) == 3;
  }

  lemma {:induction false} FivePrime()
    ensures Prime(5)
  {
    forall a: int, b: int | ZeroProduct(5, a, b) ensures Residue(a, 5) == 0 || Residue(b, 5) == 0 {
      ModMulCong(a, a % 5, b, b % 5, 5) by { ModOfMod(a, 5); ModOfMod(b, 5); }
      SmallProducts(a % 5, b % 5);
    }
  }

  lemma {:induction false} SmallProducts(a: int, b: int)
    requires 0 <= a < 5 && 0 <= b < 5
    ensures (a * b) % 5 == 0 <==> a % 5 == 0 || b % 5 == 0
  {
    if 0 < a < 5 && 0 < b < 5 {
      assert a == 1 || a == 2 || a == 3 || a == 4;
    }
  }

  lemma {:induction false} SmallValues()
    ensures ValueAt([1, 0], 3) == 1 && ValueAt([0, 1], 3) == 3 && ValueAt([0, 1], 2) == 2
  {
    assert [1, 0][1..] == [0] && [0][1..] == [] && [0, 1][1..] == [1] && [1][1..] == [];
    assert ValueAt([0], 3) == 0 + 3 * ValueAt([], 3);
    assert ValueAt([1], 3) == 1 + 3 * ValueAt([], 3);
    assert ValueAt([1], 2) == 1 + 2 * ValueAt([], 2);
  }

  /** Public keys Pkey_u,i = e - CRS_i·s_u. */
  method PublicKeyGen(p: Params, crs: Vec, s: Vec, eP: seq<Vec>) returns (pkey: seq<Vec>)
    requires p.Valid() && |crs| == p.Kept() && Sized(crs, p.N) && Sized(s, p.N) && PerUser(p, eP, |s|)
    ensures PublicKeys(p, crs, s, pkey, eP)
  {
    hide Mul, Sub, Reduce, Cong;
    pkey := [];
    for u := 0 to |s|
      invariant |pkey| == u && PerUser(p, pkey, u)
      invariant forall v, i :: 0 <= v < u && 0 <= i < p.Kept() ==> Cong(p.Q, pkey[v][i], Sub(eP[v][i], Mul(s[v], crs[i])))
    {
      var row := [];
      for i := 0 to p.Kept()
        invariant |row| == i && Sized(row, p.N)
        invariant forall j :: 0 <= j < i ==> Cong(p.Q, row[j], Sub(eP[u][j], Mul(s[u], crs[j])))
      {
        MulComm(crs[i], s[u]);
        ReduceCong(p.Q, Sub(eP[u][i], Mul(crs[i], s[u])));
        row := row + [Reduce(p.Q, Sub(eP[u][i], Mul(crs[i], s[u])))];
      }
      pkey := pkey + [row];
    }
  }
}
