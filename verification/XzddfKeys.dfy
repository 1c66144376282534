/** Generation of vector-NTRU keys for the XZDDF accumulator. */
module XzddfKeys {
  import opened NegacyclicRing
  import opened RingModulus
  import opened Arithmetic
  import opened Gadget
  import opened RingVectors
  import opened KeyAlgebra
  import opened MultiKeyEval
  import opened RingGsw
  import opened RingGswKeys
  import opened VectorNtru
  import opened Xzddf
  import opened MkLwe

  //////// Which monomial is stored ////////

  /** Position m mod N, with a minus sign exactly for negative m: X^(N + position) is -X^position. */
  function StoredExponent(n: nat, m: int): (e: nat)
    requires n > 0
    ensures e < 2 * n
  {
    m % n + if m < 0 then n else 0
  }

  /** m and its stored exponent differ by an even number of half turns. */
  predicate Faithful(n: nat, m: int)
    requires n > 0
  {
    (m / n) % 2 == if m < 0 then 1 else 0
  }

  lemma {:induction false} SmallIsFaithful(n: nat, m: int)
    requires n > 0 && 0 - n <= m < n
    ensures Faithful(n, m)
  {
    if m < 0 {
      DivModUnique(m, n, -1, m + n);
    } else {
      DivModUnique(m, n, 0, m);
    }
  }

  /** A sum of exactly N is stored with the wrong sign. */
  lemma {:induction false} FirstUnfaithful(n: nat)
    requires n > 0
    ensures !Faithful(n, n) && !Faithful(n, 0 - n - 1)
  {
    DivModUnique(n, n, 1, 0);
    DivModUnique(0 - n - 1, n, -2, n - 1);
  }

  lemma {:induction false} HalfTurn(a: Poly)
    requires |a| > 0
    ensures Mono(|a|, a) == Scale(-1, a)
  {
    MonoNat(|a|, a);
    FullTurn(a);
  }

  /** The stored monomial is X^m or -X^m. */
  lemma {:induction false} StoredMonomial(m: int, a: Poly)
    requires |a| > 0
    ensures Mono(StoredExponent(|a|, m), a) == if Faithful(|a|, m) then Mono(m, a) else Scale(-1, Mono(m, a))
  {
    hide Mono, StoredExponent, Faithful;
    var n := |a|;
    StoredResidue(n, m);
    if Faithful(n, m) {
      MonoMod(StoredExponent(n, m), m, a);
    } else {
      MonoMod(StoredExponent(n, m), m + n, a);
      MonoMono(m, n, a);
      HalfTurn(a);
      MonoScale(m, -1, a);
    }
  }

  lemma {:induction false} StoredResidue(n: nat, m: int)
    requires n > 0
    ensures StoredExponent(n, m) % (2 * n) == (if Faithful(n, m) then m else m + n) % (2 * n)
  {
    var d, h := m / n, if m < 0 then 1 else 0;
    DivMod(m, n);
    Distribute(n, d, h);
    OddGap(d, h);
    var t := d - h;
    WholeTurns(n, m % n + n * h, m, t);
  }

  lemma {:induction false} WholeTurns(n: nat, e: int, m: int, t: int)
    requires n > 0 && m == e + n * t
    ensures e % (2 * n) == (if t % 2 == 0 then m else m + n) % (2 * n)
  {
    var u := if t % 2 == 0 then t / 2 else (t + 1) / 2;
    Arithmetic.Regroup(n, 2, u);
    Arithmetic.Regroup(2, n, u);
    Distribute(n, t, 1);
    if t % 2 == 0 {
      assert t == 2 * u;
      ModShift(m, e, 2 * n, u);
    } else {
      assert t + 1 == 2 * u;
      ModShift(m + n, e, 2 * n, u);
    }
  }

  lemma {:induction false} OddGap(d: int, h: int)
    requires 0 <= h <= 1
    ensures (d - h) % 2 == 0 <==> d % 2 == h
  {
  }

  //////// Key rows ////////

  lemma {:induction false} TimesInverse(Q: int, f: Poly, finv: Poly, a: Poly)
    requires |f| == |finv| == |a| > 0 && Cong(Q, Mul(f, finv), One(|f|))
    ensures Cong(Q, Mul(f, Mul(a, finv)), a)
  {
    hide Cong, Mul, One;
    CommuteProduct(a, f, finv);
    CongMulRight(Q, a, Mul(f, finv), One(|f|));
    MulOne(a);
  }

  /** (g + X^m·B^(i+1))/f. */
  lemma {:induction false} KdmRow(p: Params, f: Poly, finv: Poly, e: Poly, mm: nat, i: nat, g: int, row: Poly)
    requires p.Valid() && |f| == |finv| == |e| == p.N && Cong(p.Q, Mul(f, finv), One(p.N)) && mm < 2 * p.N && i < p.Kept() && g == Pow(p.B, i + 1)
    requires row == Reduce(p.Q, Mul(WithMonomial(e, g, mm), finv))
    ensures Cong(p.Q, Mul(f, row), Add(e, Mul(Mono(mm, One(p.N)), GadgetVec(p)[i])))
  {
    hide Cong, Mul, Mono, Reduce, WithMonomial, One, Add, Pow, Scale;
    var a := WithMonomial(e, g, mm);
    ReduceCong(p.Q, Mul(a, finv));
    CongMulRight(p.Q, f, row, Mul(a, finv));
    TimesInverse(p.Q, f, finv, a);
    CongTrans(p.Q, Mul(f, row), Mul(f, Mul(a, finv)), a);
    WithMonomialIs(e, g, mm);
    MulConstant(Mono(mm, One(p.N)), g);
  }

  /** g/f + X^m·B^(i+1). */
  lemma {:induction false} PlainRow(p: Params, f: Poly, finv: Poly, e: Poly, mm: nat, i: nat, g: int, row: Poly)
    requires p.Valid() && |f| == |finv| == |e| == p.N && Cong(p.Q, Mul(f, finv), One(p.N)) && mm < 2 * p.N && i < p.Kept() && g == Pow(p.B, i + 1)
    requires row == Reduce(p.Q, Add(Mul(e, finv), WithMonomial(Zero(p.N), g, mm)))
    ensures Cong(p.Q, Mul(f, row), Add(e, Mul(Mono(mm, f), GadgetVec(p)[i])))
  {
    hide Cong, Mul, Mono, Reduce, WithMonomial, One, Add, Pow, Scale, Zero;
    var t := WithMonomial(Zero(p.N), g, mm);
    var m := Scale(g, Mono(mm, One(p.N)));
    ReduceCong(p.Q, Add(Mul(e, finv), t));
    CongMulRight(p.Q, f, row, Add(Mul(e, finv), t));
    MulAdd(f, Mul(e, finv), t);
    TimesInverse(p.Q, f, finv, e);
    WithMonomialIs(Zero(p.N), g, mm);
    AddZero(m);
    MulScale(g, f, Mono(mm, One(p.N)));
    MonoMul(mm, f, One(p.N));
    MulOne(f);
    MulConstant(Mono(mm, f), g);
    CongRefl(p.Q, Mul(f, t));
    CongAdd(p.Q, Mul(f, Mul(e, finv)), e, Mul(f, t), Mul(f, t));
    CongTrans(p.Q, Mul(f, row), Add(Mul(f, Mul(e, finv)), Mul(f, t)), Add(e, Mul(f, t)));
  }

  /** (g + f(X^k)·B^(i+1))/f. */
  lemma {:induction false} AutoRow(p: Params, f: Poly, finv: Poly, e: Poly, w: Poly, i: nat, g: int, row: Poly)
    requires p.Valid() && |f| == |finv| == |e| == |w| == p.N && Cong(p.Q, Mul(f, finv), One(p.N)) && i < p.Kept() && g == Pow(p.B, i + 1)
    requires row == Reduce(p.Q, Mul(Add(e, Scale(g, w)), finv))
    ensures Cong(p.Q, Mul(f, row), Add(e, Mul(w, GadgetVec(p)[i])))
  {
    hide Cong, Mul, Reduce, One, Add, Pow, Scale;
    var a := Add(e, Scale(g, w));
    ReduceCong(p.Q, Mul(a, finv));
    CongMulRight(p.Q, f, row, Mul(a, finv));
    TimesInverse(p.Q, f, finv, a);
    CongTrans(p.Q, Mul(f, row), Mul(f, Mul(a, finv)), a);
    MulConstant(w, g);
  }

  //////// Key generation ////////

  ghost predicate KeyPair(p: Params, f: Poly, finv: Poly) {
    p.Valid() && |f| == |finv| == p.N && Cong(p.Q, Mul(f, finv), One(p.N))
  }

  method KDMKeyGen(p: Params, finv: Poly, m: int, e: Vec, ghost f: Poly) returns (v: Vec)
    requires KeyPair(p, f, finv) && |e| == p.Kept() && Sized(e, p.N)
    ensures |v| == p.Kept() && Sized(v, p.N) && KeyRows(p, f, v, Mono(StoredExponent(p.N, m), One(p.N)), e)
  {
    hide Cong, Mul, Mono, Reduce, WithMonomial, One, Add, Pow, GadgetVec, StoredExponent;
    var mm := StoredExponent(p.N, m);
    v := [];
    for i := 0 to p.Kept()
      invariant |v| == i && Sized(v, p.N)
      invariant forall j :: 0 <= j < i ==> Cong(p.Q, Mul(f, v[j]), Add(e[j], Mul(Mono(mm, One(p.N)), GadgetVec(p)[j])))
    {
      var row := Reduce(p.Q, Mul(WithMonomial(e[i], Pow(p.B, i + 1), mm), finv));
      KdmRow(p, f, finv, e[i], mm, i, Pow(p.B, i + 1), row);
      v := v + [row];
    }
  }

  method KeyGen(p: Params, finv: Poly, m: int, e: Vec, ghost f: Poly) returns (v: Vec)
    requires KeyPair(p, f, finv) && |e| == p.Kept() && Sized(e, p.N)
    ensures |v| == p.Kept() && Sized(v, p.N) && KeyRows(p, f, v, Mono(StoredExponent(p.N, m), f), e)
  {
    hide Cong, Mul, Mono, Reduce, WithMonomial, One, Add, Pow, GadgetVec, StoredExponent, Zero;
    var mm := StoredExponent(p.N, m);
    v := [];
    for i := 0 to p.Kept()
      invariant |v| == i && Sized(v, p.N)
      invariant forall j :: 0 <= j < i ==> Cong(p.Q, Mul(f, v[j]), Add(e[j], Mul(Mono(mm, f), GadgetVec(p)[j])))
    {
      var row := Reduce(p.Q, Add(Mul(e[i], finv), WithMonomial(Zero(p.N), Pow(p.B, i + 1), mm)));
      PlainRow(p, f, finv, e[i], mm, i, Pow(p.B, i + 1), row);
      v := v + [row];
    }
  }

  method KeyGenAuto(p: Params, f: Poly, finv: Poly, k: nat, e: Vec) returns (v: Vec)
    requires KeyPair(p, f, finv) && |e| == p.Kept() && Sized(e, p.N)
    ensures |v| == p.Kept() && Sized(v, p.N) && KeyRows(p, f, v, Auto(k, f), e)
  {
    hide Cong, Mul, Auto, Reduce, One, Add, Pow, GadgetVec, Scale;
    var skAuto := Auto(k, f);
    v := [];
    for i := 0 to p.Kept()
      invariant |v| == i && Sized(v, p.N)
      invariant forall j :: 0 <= j < i ==> Cong(p.Q, Mul(f, v[j]), Add(e[j], Mul(skAuto, GadgetVec(p)[j])))
    {
      var row := Reduce(p.Q, Mul(Add(e[i], Scale(Pow(p.B, i + 1), skAuto)), finv));
      AutoRow(p, f, finv, e[i], skAuto, i, Pow(p.B, i + 1), row);
      v := v + [row];
    }
  }

  //////// What a generated key encrypts ////////

  lemma {:induction false} AsKey(p: Params, f: Poly, v: Vec, w: Poly, e: Vec, sigma: nat)
    requires p.Valid() && |f| == |w| == p.N && |v| == |e| == p.Kept() && Sized(v, p.N) && Sized(e, p.N) && KeyRows(p, f, v, w, e) && SmallVec(e, sigma)
    ensures NtruKey(p, f, v, w, sigma)
  {
    hide KeyRows, SmallVec;
  }

  /** The same rows cannot encrypt both w and -w when w is invertible and 2B is not 0 modulo Q. */
  lemma {:induction false} NotBothSigns(p: Params, f: Poly, v: Vec, w: Poly, y: Poly, e: Vec)
    requires p.Valid() && |f| == |w| == |y| == p.N && |v| == |e| == p.Kept() && Sized(v, p.N) && Sized(e, p.N)
    requires Cong(p.Q, Mul(y, w), One(p.N)) && (2 * p.B) % p.Q != 0 && KeyRows(p, f, v, Scale(-1, w), e)
    ensures !KeyRows(p, f, v, w, e)
  {
    hide KeyRows, Cong, Mul, Scale, One;
    if KeyRows(p, f, v, w, e) {
      FirstRow(p, f, v, w, e);
      FirstRow(p, f, v, Scale(-1, w), e);
      BothSigns(p.Q, Mul(f, v[0]), e[0], w, y, p.B);
    }
  }

  lemma {:induction false} FirstRow(p: Params, f: Poly, v: Vec, w: Poly, e: Vec)
    requires p.Valid() && |f| == |w| == p.N && |v| == |e| == p.Kept() && Sized(v, p.N) && Sized(e, p.N) && KeyRows(p, f, v, w, e)
    ensures Cong(p.Q, Mul(f, v[0]), Add(e[0], Scale(p.B, w)))
  {
    hide Cong, Mul;
    assert Pow(p.B, 1) == p.B * Pow(p.B, 0) == p.B;
    MulConstant(w, p.B);
    assert GadgetVec(p)[0] == Constant(p.N, p.B);
  }

  lemma {:induction false} BothSigns(Q: int, z: Poly, e: Poly, w: Poly, y: Poly, b: int)
    requires Q > 0 && |z| == |e| == |w| == |y| > 0 && Cong(Q, z, Add(e, Scale(b, w))) && Cong(Q, z, Add(e, Scale(b, Scale(-1, w)))) && Cong(Q, Mul(y, w), One(|w|))
    ensures (2 * b) % Q == 0
  {
    hide Cong, Mul, Add, Sub, Scale, One, Zero;
    var x, x', k, o := Add(e, Scale(b, w)), Add(e, Scale(b, Scale(-1, w))), 2 * b, Zero(|w|);
    CongSym(Q, z, x);
    CongTrans(Q, x, z, x');
    CongRefl(Q, x');
    CongSub(Q, x, x', x', x');
    Doubled(e, w, b);
    CongMulRight(Q, y, Scale(k, w), o);
    MulZero(y);
    MulScale(k, y, w);
    CongScale(Q, k, Mul(y, w), One(|w|));
    CongSym(Q, Scale(k, Mul(y, w)), Scale(k, One(|w|)));
    CongTrans(Q, Scale(k, One(|w|)), Mul(y, Scale(k, w)), o);
    CongCoefficient(Q, Scale(k, One(|w|)), o, 0);
    FirstCoefficients(k, |w|);
    DivModUnique(0, Q, 0, 0);
  }

  lemma {:induction false} FirstCoefficients(k: int, n: nat)
    requires n > 0
    ensures Scale(k, One(n))[0] == k && Zero(n)[0] == 0
  {
  }

  lemma {:induction false} Doubled(e: Poly, w: Poly, b: int)
    requires |e| == |w|
    ensures Sub(Add(e, Scale(b, w)), Add(e, Scale(b, Scale(-1, w)))) == Scale(2 * b, w)
    ensures Sub(Add(e, Scale(b, Scale(-1, w))), Add(e, Scale(b, Scale(-1, w)))) == Zero(|w|)
  {
    forall j | 0 <= j < |w| ensures b * w[j] - b * (-1 * w[j]) == 2 * b * w[j] {
      assert b * (-1 * w[j]) == -(b * w[j]);
    }
  }

  /** A key-dependent key encrypts X^m/f with the sampled noise exactly when m and its stored exponent
      differ by whole turns. */
  lemma {:induction false} KdmEncrypts(p: Params, f: Poly, v: Vec, m: int, e: Vec)
    requires p.Valid() && |f| == p.N && |v| == |e| == p.Kept() && Sized(v, p.N) && Sized(e, p.N) && (2 * p.B) % p.Q != 0
    requires KeyRows(p, f, v, Mono(StoredExponent(p.N, m), One(p.N)), e)
    ensures KeyRows(p, f, v, Mono(m, One(p.N)), e) <==> Faithful(p.N, m)
  {
    hide KeyRows, Mono, Cong, Mul, One, Faithful, StoredExponent;
    StoredMonomial(m, One(p.N));
    if !Faithful(p.N, m) {
      MonomialInverse(p.Q, m, One(p.N), One(p.N)) by { MulOne(One(p.N)); CongRefl(p.Q, One(p.N)); }
      NotBothSigns(p, f, v, Mono(m, One(p.N)), Mono(-m, One(p.N)), e);
    }
  }

  /** The same for a plain key of X^m. */
  lemma {:induction false} PlainEncrypts(p: Params, f: Poly, finv: Poly, v: Vec, m: int, e: Vec)
    requires KeyPair(p, f, finv) && |v| == |e| == p.Kept() && Sized(v, p.N) && Sized(e, p.N) && (2 * p.B) % p.Q != 0
    requires KeyRows(p, f, v, Mono(StoredExponent(p.N, m), f), e)
    ensures KeyRows(p, f, v, Mono(m, f), e) <==> Faithful(p.N, m)
  {
    hide KeyRows, Mono, Cong, Mul, One, Faithful, StoredExponent;
    StoredMonomial(m, f);
    if !Faithful(p.N, m) {
      MonomialInverse(p.Q, m, f, finv);
      NotBothSigns(p, f, v, Mono(m, f), Mono(-m, finv), e);
    }
  }

  lemma {:induction false} MonomialInverse(Q: int, m: int, f: Poly, finv: Poly)
    requires |f| == |finv| > 0 && Cong(Q, Mul(f, finv), One(|f|))
    ensures Cong(Q, Mul(Mono(-m, finv), Mono(m, f)), One(|f|))
  {
    hide Cong, Mul, Mono, One;
    MonoMul(m, Mono(-m, finv), f);
    MonoMul(-m, finv, f);
    MonoMono(m, -m, Mul(finv, f));
    MonoZero(Mul(finv, f));
    MulComm(f, finv);
    assert m + -m == 0;
  }

  //////// The keys of a run ////////

  /** The signed secret behind a residue. */
  function SignedSecret(mod: int, x: int): int {
    if x > mod / 2 then x - mod else x
  }

  function SignedSecrets(mod: int, sv: seq<int>): (s: seq<int>)
    ensures |s| == |sv| && forall i :: 0 <= i < |sv| ==> s[i] == SignedSecret(mod, sv[i])
  {
    seq(|sv|, i requires 0 <= i < |sv| => SignedSecret(mod, sv[i]))
  }

  /** The sum of the residues, reduced and made signed. */
  method SumSecrets(mod: int, sv: seq<int>) returns (sums: int)
    requires mod > 0 && forall i :: 0 <= i < |sv| ==> 0 <= sv[i] < mod
    ensures sums == SignedSecret(mod, Residue(Total(SignedSecrets(mod, sv), |sv|), mod))
  {
    hide Residue;
    var s := SignedSecrets(mod, sv);
    sums := 0;
    for i := 0 to |sv|
      invariant sums >= 0 && Residue(sums, mod) == Residue(Total(s, i), mod)
    {
      SignedSum(mod, sums, Total(s, i), sv[i]);
      sums := sums + sv[i];
    }
    sums := Residue(sums, mod);
    if sums > mod / 2 {
      sums := sums - mod;
    }
  }

  lemma {:induction false} SignedSum(mod: int, x: int, y: int, v: int)
    requires mod > 0 && Residue(x, mod) == Residue(y, mod)
    ensures Residue(x + v, mod) == Residue(y + SignedSecret(mod, v), mod)
  {
    ModShift(v, v - mod, mod, 1);
    ModAddCong(x, y, v, SignedSecret(mod, v), mod);
  }

  /** A sum between -mod/2 and mod/2 is recovered from its residue. */
  lemma {:induction false} SumRecovered(mod: int, t: int)
    requires mod > 0 && 0 - mod < 2 * t < mod
    ensures SignedSecret(mod, Residue(t, mod)) == t
  {
    if t >= 0 {
      DivModUnique(t, mod, 0, t);
    } else {
      DivModUnique(t, mod, -1, t + mod);
    }
  }

  /** Secrets and their sum stay within half a turn of the ring and of the key modulus. */
  ghost predicate WithinHalfTurn(n: nat, mod: int, s: seq<int>) {
    2 * n < mod && 0 - n <= Total(s, |s|) < n && forall i :: 0 <= i < |s| ==> 0 - n < s[i] <= n
  }

  ghost predicate SmallKeyNoise(p: Params, e: seq<Vec>, sigma: nat)
    requires p.digits >= 2
  {
    forall i :: 0 <= i < |e| ==> |e[i]| == p.Kept() && Sized(e[i], p.N) && SmallVec(e[i], sigma)
  }

  /** KeyGenAcc: for secrets within half a turn the keys are those that the run needs. */
  method KeyGenAcc(p: Params, q: int, mod: int, sv: seq<int>, f: Poly, finv: Poly, eAdd: seq<Vec>, eAuto: seq<Vec>, ghost b: nat, ghost zeta: nat, ghost sigma: nat)
    returns (keys: Keys)
    requires KeyPair(p, f, finv) && p.N == Pow(2, b) && q == p.N && Bounded(f, zeta) && zeta >= 1 && mod > 0 && |sv| > 0
    requires (forall i :: 0 <= i < |sv| ==> 0 <= sv[i] < mod) && |eAdd| == |sv| + 1 && |eAuto| == p.N - 1 && SmallKeyNoise(p, eAdd, sigma) && SmallKeyNoise(p, eAuto, sigma)
    ensures WithinHalfTurn(p.N, mod, SignedSecrets(mod, sv)) ==> NtruWorld(p, b, f, zeta, sigma, keys, SignedSecrets(mod, sv)).Valid()
  {
    hide NtruKey, Mono, Auto, SmallVec, Bounded, Cong, Mul, One, Faithful, StoredExponent, Pow, Residue, KeyRows, Total;
    var s := SignedSecrets(mod, sv);
    var n := |sv|;
    var first := KDMKeyGen(p, finv, -s[0], eAdd[0], f);
    StoredKdm(p, f, first, -s[0], eAdd[0], sigma);
    var add := [first];
    for i := 1 to n
      invariant |add| == i && add[0] == first
      invariant forall j :: 0 < j < i ==> (0 - p.N < s[j] <= p.N ==> NtruKey(p, f, add[j], Mono(-s[j], f), sigma))
    {
      var key := KeyGen(p, finv, -s[i], eAdd[i], f);
      StoredPlain(p, f, key, -s[i], eAdd[i], sigma);
      add := add + [key];
    }
    var sums := SumSecrets(mod, sv);
    var last := KeyGen(p, finv, sums, eAdd[n], f);
    StoredPlain(p, f, last, sums, eAdd[n], sigma);
    add := add + [last];
    var auto := AutoKeys(p, q, f, finv, eAuto, sigma);
    keys := Keys(add, auto);
    if WithinHalfTurn(p.N, mod, s) {
      SumRecovered(mod, Total(s, n));
    }
  }

  lemma {:induction false} StoredKdm(p: Params, f: Poly, v: Vec, m: int, e: Vec, sigma: nat)
    requires p.Valid() && |f| == p.N && |v| == |e| == p.Kept() && Sized(v, p.N) && Sized(e, p.N) && SmallVec(e, sigma)
    requires KeyRows(p, f, v, Mono(StoredExponent(p.N, m), One(p.N)), e)
    ensures 0 - p.N <= m < p.N ==> NtruKey(p, f, v, Mono(m, One(p.N)), sigma)
  {
    hide NtruKey, KeyRows, SmallVec, Mono, One, StoredExponent, Faithful;
    if 0 - p.N <= m < p.N {
      SmallIsFaithful(p.N, m);
      StoredMonomial(m, One(p.N));
      AsKey(p, f, v, Mono(m, One(p.N)), e, sigma);
    }
  }

  lemma {:induction false} StoredPlain(p: Params, f: Poly, v: Vec, m: int, e: Vec, sigma: nat)
    requires p.Valid() && |f| == p.N && |v| == |e| == p.Kept() && Sized(v, p.N) && Sized(e, p.N) && SmallVec(e, sigma)
    requires KeyRows(p, f, v, Mono(StoredExponent(p.N, m), f), e)
    ensures 0 - p.N <= m < p.N ==> NtruKey(p, f, v, Mono(m, f), sigma)
  {
    hide NtruKey, KeyRows, SmallVec, Mono, StoredExponent, Faithful;
    if 0 - p.N <= m < p.N {
      SmallIsFaithful(p.N, m);
      StoredMonomial(m, f);
      AsKey(p, f, v, Mono(m, f), e, sigma);
    }
  }

  /** The automorphism keys of (2N/q)·(i + 1) + 1. */
  method AutoKeys(p: Params, q: int, f: Poly, finv: Poly, e: seq<Vec>, ghost sigma: nat) returns (auto: seq<Vec>)
    requires KeyPair(p, f, finv) && q == p.N && |e| == p.N - 1 && SmallKeyNoise(p, e, sigma)
    ensures |auto| == p.N - 1 && forall i :: 0 <= i < p.N - 1 ==> NtruKey(p, f, auto[i], Auto(2 * i + 3, f), sigma)
  {
    hide NtruKey, Auto, SmallVec, Cong, Mul, One, KeyRows;
    DivModUnique(2 * p.N, q, 2, 0);
    auto := [];
    for i := 0 to q - 1
      invariant |auto| == i && forall j :: 0 <= j < i ==> NtruKey(p, f, auto[j], Auto(2 * j + 3, f), sigma)
    {
      var key := KeyGenAuto(p, f, finv, 2 * p.N / q * (i + 1) + 1, e[i]);
      AsKey(p, f, key, Auto(2 * i + 3, f), e[i], sigma);
      auto := auto + [key];
    }
  }

  /** From generated keys: the run ends at m·X^(-2<a, s>) whenever the secrets and their sum stay
      within half a turn. */
  method GenerateAndRun(p: Params, q: int, mod: int, sv: seq<int>, f: Poly, finv: Poly, eAdd: seq<Vec>, eAuto: seq<Vec>, m: Poly, a: seq<int>, inv: int -> int,
                        ghost b: nat, ghost zeta: nat, ghost sigma: nat) returns (acc: NtruCiphertext)
    requires KeyPair(p, f, finv) && p.N == Pow(2, b) && q == p.N && Bounded(f, zeta) && zeta >= 1 && mod > 0 && |sv| > 0
    requires (forall i :: 0 <= i < |sv| ==> 0 <= sv[i] < mod) && |eAdd| == |sv| + 1 && |eAuto| == p.N - 1 && SmallKeyNoise(p, eAdd, sigma) && SmallKeyNoise(p, eAuto, sigma)
    requires WithinHalfTurn(p.N, mod, SignedSecrets(mod, sv)) && |a| == |sv| && Xzddf.InRange(q, a) && IsInverse(2 * p.N, inv) && |m| == p.N && inv(2 * a[0] + 1) >= 0
    ensures |acc.c| == p.N && Near(p.Q, Mul(f, acc.c), Mono(-2 * Inner(a, SignedSecrets(mod, sv), |a|), m), Times(2 * |a| + 1, StepNoise(p, zeta, sigma)))
  {
    hide NtruKey, Mono, Auto, SmallVec, Bounded, Cong, Mul, One, Pow, Reduce, IsInverse, Near, NtruWorld.Valid, WithinHalfTurn, Inner, Times, StepNoise, SmallKeyNoise;
    var keys := KeyGenAcc(p, q, mod, sv, f, finv, eAdd, eAuto, b, zeta, sigma);
    ghost var w := NtruWorld(p, b, f, zeta, sigma, keys, SignedSecrets(mod, sv));
    acc := new NtruCiphertext(Reduce(p.Q, Auto(inv(2 * a[0] + 1), m)));
    Xzddf.EvalAcc(p, q, keys, acc, a, inv, w, m);
  }
}
