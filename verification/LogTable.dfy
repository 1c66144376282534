/** The signed discrete logarithm to base 5 modulo 2N, for N a power of two. Throughout,
    N = 2^(k+1), so that 2N = 2^(k+2) and N/2 = 2^k. */
module LogTable {
  import opened Arithmetic

  function CyclOrder(k: nat): (M: nat)
    ensures M > 0
  {
    Pow(2, k + 2)
  }

  function Quarter(k: nat): (h: nat)
    ensures h > 0 && CyclOrder(k) == 4 * h
  {
    assert Pow(2, k + 2) == 2 * Pow(2, k + 1) == 4 * Pow(2, k);
    Pow(2, k)
  }

  /** 5^i mod 2N. */
  function FivePower(k: nat, i: nat): (g: nat)
    ensures g < CyclOrder(k)
  {
    Residue(Pow(5, i), CyclOrder(k))
  }

  //////// The order of 5 ////////

  lemma {:induction false} PowDouble(b: nat, e: nat)
    ensures Pow(b, 2 * e) == Pow(b, e) * Pow(b, e)
  {
    PowAdd(b, e, e);
    assert 2 * e == e + e;
  }

  /** 5^(2^j) = 1 + 2^(j+2)·odd. */
  lemma {:induction false} FiveSquares(j: nat) returns (h: nat)
    ensures Pow(5, Pow(2, j)) == 1 + Pow(2, j + 2) * (2 * h + 1)
  {
    assert Pow(2, j + 2) == 2 * Pow(2, j + 1) == 4 * Pow(2, j);
    if j == 0 {
      h := 0;
      assert Pow(5, 1) == 5 * Pow(5, 0) == 5;
    } else {
      var p := FiveSquares(j - 1);
      var u := Pow(2, j - 1);
      assert Pow(2, j + 1) == 4 * u && Pow(2, j) == 2 * u;
      hide Pow;
      PowDouble(5, u);
      h := SquareStep(u, 2 * p + 1, p);
    }
  }

  lemma {:induction false} SquareStep(u: nat, o: nat, p: nat) returns (h: nat)
    requires o == 2 * p + 1
    ensures (1 + 4 * u * o) * (1 + 4 * u * o) == 1 + 8 * u * (2 * h + 1)
  {
    var x := u * o;
    h := p + Times(x, o);
    Arithmetic.Regroup(4, u, o);
    SquareOfSum(4 * x);
    Arithmetic.Regroup(u, o, x);
    Expand(u, o, Times(x, o));
    assert 16 * (x * x) == 8 * (2 * (u * (o * x)));
  }

  lemma {:induction false} SquareOfSum(y: int)
    ensures (1 + y) * (1 + y) == 1 + 2 * y + y * y
  {
  }

  lemma {:induction false} Expand(u: int, o: int, z: int)
    ensures 8 * u * (o + 2 * z) == 8 * (u * o) + 16 * (u * z)
  {
  }

  lemma {:induction false} FiveOdd(i: nat) returns (c: nat)
    ensures Pow(5, i) == 4 * c + 1
  {
    if i == 0 {
      c := 0;
    } else {
      var d := FiveOdd(i - 1);
      c := 5 * d + 1;
    }
  }

  /** If b^e = 1 modulo m then b^(e·f) = 1. */
  lemma {:induction false} PowerOfOne(b: nat, e: nat, f: nat, d: nat, m: int)
    requires m > 1 && Pow(b, e) % m == 1 && d == e * f
    ensures Pow(b, d) % m == 1
  {
    if f == 0 {
      DivModUnique(1, m, 0, 1);
    } else {
      assert d - e == e * (f - 1);
      MulNonNeg(e, f - 1);
      PowerOfOne(b, e, f - 1, d - e, m);
      PowAdd(b, e, d - e);
      DivModUnique(1, m, 0, 1);
      ModMulCong(Pow(b, e), 1, Pow(b, d - e), 1, m);
    }
  }

  lemma {:induction false} FullOrder(k: nat)
    ensures Pow(5, Quarter(k)) % CyclOrder(k) == 1
  {
    var h := FiveSquares(k);
    assert CyclOrder(k) == 4 * Quarter(k);
    DivModUnique(1 + CyclOrder(k) * (2 * h + 1), CyclOrder(k), 2 * h + 1, 1);
  }

  /** 5 has order exactly N/2 modulo 2N. */
  lemma {:induction false} OrderOfFive(k: nat, d: nat)
    ensures Pow(5, d) % CyclOrder(k) == 1 <==> d % Quarter(k) == 0
    decreases k, 0
  {
    var M, H := CyclOrder(k), Quarter(k);
    if d % H == 0 {
      DivMod(d, H);
      FullOrder(k);
      PowerOfOne(5, H, d / H, d, M);
    } else if k == 0 {
      DivModUnique(d, 1, d, 0);
      assert false;
    } else if Pow(5, d) % M == 1 {
      NotHalfOrder(k - 1, d);
      assert false;
    }
  }

  lemma {:induction false} NotHalfOrder(k: nat, d: nat)
    requires Pow(5, d) % CyclOrder(k + 1) == 1
    ensures d % Quarter(k + 1) == 0
    decreases k, 1
  {
    hide Pow, CyclOrder, Quarter;
    var W, H := CyclOrder(k), Quarter(k);
    Doubling(k);
    OneModHalf(W, Pow(5, d));
    OrderOfFive(k, d);
    var h := FiveSquares(k);
    OrderForm(k, h);
    FullOrder(k + 1);
    HalfTurn(W, h);
    if d % (2 * H) != 0 {
      HalfMultiple(H, d, d / H);
      OddMultiple(W, H, d, d / H / 2);
    }
  }

  lemma {:induction false} OneModHalf(W: nat, y: int)
    requires W > 1 && y % (2 * W) == 1
    ensures y % W == 1
  {
    var c := y / (2 * W);
    DivMod(y, 2 * W);
    assert y == 1 + W * (2 * c) by { Arithmetic.Regroup(2, W, c); }
    DivModUnique(y, W, 2 * c, 1);
  }

  lemma {:induction false} HalfMultiple(H: nat, d: nat, e: nat)
    requires H > 0 && d % H == 0 && e == d / H && d % (2 * H) != 0
    ensures e % 2 == 1 && d == 2 * H * (e / 2) + H && 2 * H * (e / 2) >= 0
  {
    DivMod(d, H);
    var f := e / 2;
    MulNonNeg(2 * H, f);
    assert H * (2 * f) == 2 * H * f && H * (2 * f + 1) == 2 * H * f + H;
    if e % 2 == 0 {
      DivModUnique(d, 2 * H, f, 0);
    }
  }

  lemma {:induction false} OddMultiple(W: nat, H: nat, d: nat, f: nat)
    requires W > 0 && d == 2 * H * f + H && 2 * H * f >= 0 && Pow(5, 2 * H) % (2 * W) == 1
    ensures Pow(5, d) % (2 * W) == Pow(5, H) % (2 * W)
  {
    hide Pow;
    PowerOfOne(5, 2 * H, f, 2 * H * f, 2 * W);
    PowAdd(5, 2 * H * f, H);
    DivModUnique(1, 2 * W, 0, 1);
    ModMulCong(Pow(5, 2 * H * f), 1, Pow(5, H), Pow(5, H), 2 * W);
  }

  lemma {:induction false} HalfTurn(W: nat, h: nat)
    requires W > 1
    ensures (1 + W * (2 * h + 1)) % (2 * W) == 1 + W
  {
    Distribute(W, 2 * h, 1);
    Arithmetic.Regroup(2, W, h);
    DivModUnique(1 + W * (2 * h + 1), 2 * W, h, 1 + W);
  }

  /** Every residue that is 1 modulo 4 is a power of 5. */
  lemma {:induction false} PowersCover(k: nat, x: int) returns (i: nat)
    requires x % 4 == 1
    ensures i < Quarter(k) && FivePower(k, i) == x % CyclOrder(k)
  {
    if k == 0 {
      i := 0;
      assert CyclOrder(0) == 4 by { assert Pow(2, 1) == 2 * Pow(2, 0); }
    } else {
      var j := PowersCover(k - 1, x);
      i := LiftPower(k - 1, x, j);
    }
  }

  lemma {:induction false} LiftPower(k: nat, x: int, j: nat) returns (i: nat)
    requires j < Quarter(k) && FivePower(k, j) == x % CyclOrder(k)
    ensures i < Quarter(k + 1) && FivePower(k + 1, i) == x % CyclOrder(k + 1)
  {
    hide Pow, CyclOrder, Quarter;
    var W, H, y := CyclOrder(k), Quarter(k), Pow(5, j);
    Doubling(k);
    var h := FiveSquares(k);
    var c := ModEqWitness(x, y, W);
    var d := FiveOdd(j);
    PowAdd(5, j, H);
    OrderForm(k, h);
    i := if c % 2 == 0 then j else j + H;
    if c % 2 == 0 {
      EvenLift(W, x, y, c / 2);
    } else {
      OddLift(W, x, y, d, h, c / 2);
    }
  }

  lemma {:induction false} OrderForm(k: nat, h: nat)
    requires Pow(5, Pow(2, k)) == 1 + Pow(2, k + 2) * (2 * h + 1)
    ensures Pow(5, Quarter(k)) == 1 + CyclOrder(k) * (2 * h + 1)
  {
  }

  lemma {:induction false} Doubling(k: nat)
    ensures CyclOrder(k + 1) == 2 * CyclOrder(k) && Quarter(k + 1) == 2 * Quarter(k)
  {
  }

  lemma {:induction false} EvenLift(W: nat, x: int, y: int, c: int)
    requires W > 0 && x == y + W * (2 * c)
    ensures y % (2 * W) == x % (2 * W)
  {
    Arithmetic.Regroup(2, W, c);
    ModShift(x, y, 2 * W, c);
  }

  /** (4d+1)(2h+1) is odd, so y·(1 + W·(2h+1)) and y + W·(2c+1) differ by an even multiple of W. */
  lemma {:induction false} OddLift(W: nat, x: int, y: int, d: int, h: int, c: int)
    requires W > 0 && y == 4 * d + 1 && x == y + W * (2 * c + 1)
    ensures (y * (1 + W * (2 * h + 1))) % (2 * W) == x % (2 * W)
  {
    var z, v := y * (1 + W * (2 * h + 1)), 2 * d + h + 4 * (d * h);
    assert y * (2 * h + 1) == 2 * v + 1 by { Distribute(4 * d, 2 * h, 1); Arithmetic.Regroup(4, d, 2 * h); Arithmetic.Regroup(2, d, h); }
    assert z == y + W * (2 * v + 1) by { Distribute(y, 1, W * (2 * h + 1)); Arithmetic.Regroup(y, W, 2 * h + 1); }
    Distribute(W, 2 * c + 1, 2 * v + 1);
    EvenLift(W, x, z, c - v);
  }

  /** Powers of 5 below the order are distinct. */
  lemma {:induction false} PowersDistinct(k: nat, i: nat, j: nat)
    requires i < j < Quarter(k)
    ensures FivePower(k, i) != FivePower(k, j)
  {
    if FivePower(k, i) == FivePower(k, j) {
      Cancel(k, i, j - i);
      OrderOfFive(k, j - i);
      DivModUnique(j - i, Quarter(k), 0, j - i);
    }
  }

  /** 5^(i+d) = 5^i modulo 2N gives 5^d = 1, by multiplying with 5^(order·i - i). */
  lemma {:induction false} Cancel(k: nat, i: nat, d: nat)
    requires FivePower(k, i) == FivePower(k, i + d)
    ensures Pow(5, d) % CyclOrder(k) == 1
  {
    var M, H := CyclOrder(k), Quarter(k);
    MulMono(1, H, i);
    var c := H * i - i;
    FullOrder(k);
    MulNonNeg(H, i);
    PowerOfOne(5, H, i, H * i, M);
    ModMulCong(Pow(5, i), Pow(5, i + d), Pow(5, c), Pow(5, c), M);
    PowAdd(5, i, c);
    PowAdd(5, i + d, c);
    PowAdd(5, H * i, d);
    assert i + d + c == H * i + d;
    DivModUnique(1, M, 0, 1);
    ModMulCong(Pow(5, H * i), 1, Pow(5, d), Pow(5, d), M);
  }

  //////// The table ////////

  /** 0 for 1, 2N for -1, i for 5^i and -i for -5^i. */
  ghost predicate IsLogTable(k: nat, t: seq<int>) {
    |t| == CyclOrder(k) && t[1] == 0 && t[|t| - 1] == |t| &&
    (forall i :: 0 < i < Quarter(k) ==> t[FivePower(k, i)] == i) &&
    forall i :: 0 < i < Quarter(k) ==> FivePower(k, i) > 0 && t[|t| - FivePower(k, i)] == -i
  }

  lemma {:induction false} FiveOddPower(k: nat, i: nat)
    ensures FivePower(k, i) % 4 == 1 && FivePower(k, i) % 2 == 1 && 0 < FivePower(k, i) < CyclOrder(k)
  {
    hide Pow, CyclOrder, Quarter, Residue;
    var c := FiveOdd(i);
    var q := ResidueForm(Pow(5, i), CyclOrder(k));
    Arithmetic.Regroup(4, Quarter(k), q);
    OneModFour(FivePower(k, i), c, Quarter(k) * q);
  }

  lemma {:induction false} ResidueForm(y: int, M: int) returns (q: int)
    requires M > 0
    ensures y == Residue(y, M) + M * q
  {
    q := y / M;
    DivMod(y, M);
  }

  lemma {:induction false} OneModFour(r: int, c: int, z: int)
    requires 4 * c + 1 == r + 4 * z && r >= 0
    ensures r % 4 == 1 && r % 2 == 1 && r > 0
  {
    DivModUnique(r, 4, c - z, 1);
    DivModUnique(r, 2, 2 * (c - z), 1);
  }

  lemma {:induction false} FiveNext(k: nat, i: nat)
    ensures FivePower(k, i + 1) == Residue(FivePower(k, i) * 5, CyclOrder(k)) && FivePower(k, 0) == 1
  {
    var M := CyclOrder(k);
    assert Pow(5, i + 1) == 5 * Pow(5, i) && Pow(5, 0) == 1;
    assert M == 4 * Quarter(k);
    hide Pow, CyclOrder;
    DivModUnique(1, M, 0, 1);
    ModOfMod(Pow(5, i), M);
    ModMulCong(Pow(5, i) % M, Pow(5, i), 5, 5, M);
  }

  /** The slots of different steps do not meet. */
  lemma {:induction false} SlotsDistinct(k: nat, j: nat, i: nat)
    requires j < i < Quarter(k)
    ensures FivePower(k, i) != FivePower(k, j) && FivePower(k, i) != CyclOrder(k) - FivePower(k, j)
    ensures 0 < FivePower(k, j) && 0 < FivePower(k, i) && FivePower(k, i) % 2 == 1
    ensures (CyclOrder(k) - FivePower(k, i)) % 2 == 1 && FivePower(k, i) != CyclOrder(k) - FivePower(k, i)
  {
    hide Pow, CyclOrder, Quarter, FivePower;
    PowersDistinct(k, j, i);
    FiveOddPower(k, j);
    FiveOddPower(k, i);
    assert CyclOrder(k) == 4 * Quarter(k);
  }

  /** The loop of PreCompute. */
  method LogGen(k: nat) returns (t: seq<int>)
    ensures IsLogTable(k, t)
  {
    hide Pow, CyclOrder, Quarter, FivePower, Residue;
    var M := CyclOrder(k);
    ghost var H := Quarter(k);
    var gPow := 1;
    t := seq(M, _ => 0);
    t := t[M - gPow := M];
    FiveNext(k, 0);
    for i := 1 to Quarter(k)
      invariant |t| == M && t[M - 1] == M && t[1] == 0 && gPow == FivePower(k, i - 1)
      invariant forall j :: 0 < j < i ==> t[FivePower(k, j)] == j
      invariant forall j :: 0 < j < i ==> FivePower(k, j) > 0 && t[M - FivePower(k, j)] == -j
    {
      FiveNext(k, i - 1);
      gPow := Residue(gPow * 5, M);
      SlotsDistinct(k, 0, i);
      forall j | 0 < j < i ensures gPow != FivePower(k, j) && gPow != M - FivePower(k, j) && FivePower(k, j) > 0 {
        SlotsDistinct(k, j, i);
      }
      t := t[gPow := i];
      t := t[M - gPow := -i];
    }
  }

  /** The residue with a given table entry. */
  function Exp(k: nat, v: int): (x: int)
  {
    if v == CyclOrder(k) then CyclOrder(k) - 1
    else if v >= 0 then FivePower(k, v)
    else CyclOrder(k) - FivePower(k, -v)
  }

  /** The table is a complete discrete logarithm: every odd residue is recovered from its entry,
      so entries of different odd residues differ. */
  lemma {:induction false} LogRoundTrip(k: nat, t: seq<int>, x: int)
    requires IsLogTable(k, t) && 0 <= x < CyclOrder(k) && x % 2 == 1
    ensures Exp(k, t[x]) == x && (t[x] == CyclOrder(k) || 0 - Quarter(k) < t[x] < Quarter(k))
  {
    hide Pow, CyclOrder, Quarter, FivePower, IsLogTable;
    var i := PlusMinusPower(k, x);
    EntryOf(k, t, i);
    FiveNext(k, 0);
  }

  /** Every odd residue is a power of 5 or the negative of one. */
  lemma {:induction false} PlusMinusPower(k: nat, x: int) returns (i: nat)
    requires 0 <= x < CyclOrder(k) && x % 2 == 1
    ensures i < Quarter(k) && (x == FivePower(k, i) || x == CyclOrder(k) - FivePower(k, i))
  {
    hide Pow, CyclOrder, Quarter, FivePower;
    var M, H := CyclOrder(k), Quarter(k);
    var y := if x % 4 == 1 then x else M - x;
    assert y % 4 == 1 by { if x % 4 != 1 { NegOdd(x, H); } }
    i := PowersCover(k, y);
    DivModUnique(y, M, 0, y);
  }

  lemma {:induction false} NegOdd(x: int, H: int)
    requires x % 2 == 1 && x % 4 != 1
    ensures (4 * H - x) % 4 == 1
  {
    var c, r := x / 4, x % 4;
    assert x == 4 * c + r && 0 <= r < 4;
    if r == 0 {
      DivModUnique(x, 2, 2 * c, 0);
    } else if r == 2 {
      DivModUnique(x, 2, 2 * c + 1, 0);
    } else {
      DivModUnique(4 * H - x, 4, H - c - 1, 1);
    }
  }

  lemma {:induction false} EntryOf(k: nat, t: seq<int>, i: nat)
    requires IsLogTable(k, t) && i < Quarter(k)
    ensures |t| == CyclOrder(k) && 0 < FivePower(k, i)
    ensures t[FivePower(k, i)] == i
    ensures t[|t| - FivePower(k, i)] == if i == 0 then |t| else 0 - i
  {
    hide Pow, CyclOrder, Quarter, FivePower;
    FiveNext(k, 0);
  }

  /** Every odd residue has an inverse modulo 2N: that of ±5^i is ±5^(N/2-i). */
  lemma {:induction false} OddInvertible(k: nat, x: int) returns (y: nat)
    requires 0 <= x < CyclOrder(k) && x % 2 == 1
    ensures y < CyclOrder(k) && Residue(x * y, CyclOrder(k)) == Residue(1, CyclOrder(k))
  {
    hide Pow, CyclOrder, Quarter, FivePower;
    var i := PlusMinusPower(k, x);
    var M, g, g' := CyclOrder(k), FivePower(k, i), FivePower(k, Quarter(k) - i);
    PowersMeet(k, i);
    FiveOddPower(k, Quarter(k) - i);
    if x == g {
      y := g';
    } else {
      y := M - g';
      NegTimesNeg(M, g, g');
    }
  }

  lemma {:induction false} PowersMeet(k: nat, i: nat)
    requires i <= Quarter(k)
    ensures Residue(FivePower(k, i) * FivePower(k, Quarter(k) - i), CyclOrder(k)) == Residue(1, CyclOrder(k))
  {
    var M, H := CyclOrder(k), Quarter(k);
    FullOrder(k);
    PowAdd(5, i, H - i);
    hide Pow, CyclOrder, Quarter;
    var a, b := Pow(5, i), Pow(5, H - i);
    ModOfMod(a, M);
    ModOfMod(b, M);
    ModMulCong(a % M, a, b % M, b, M);
    DivModUnique(1, M, 0, 1);
  }

  lemma {:induction false} NegTimesNeg(M: int, g: int, h: int)
    requires M > 0
    ensures Residue((M - g) * (M - h), M) == Residue(g * h, M)
  {
    Distribute(M - g, M, h);
    Distribute(M, M - g, h);
    Distribute(h, M, g);
    ModShift((M - g) * (M - h), g * h, M, M - g - h);
  }
}
