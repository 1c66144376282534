/** Signed approximate gadget decomposition: a coefficient of [0, Q) is centred and written in
    base B with digits in [-B/2, B/2); the lowest digit is dropped. */
module Gadget {
  import opened NegacyclicRing
  import opened RingModulus
  import opened Arithmetic

  /** The ring dimension, the ciphertext modulus, the gadget base and the digit count. */
  datatype Params = Params(N: nat, Q: int, B: nat, digits: nat) {
    ghost predicate Valid() {
      N > 0 && Q > 1 && B >= 2 && B % 2 == 0 && digits >= 2 && Pow(B, digits) >= Q
    }

    /** Number of digits that are kept. */
    function Kept(): (l: nat)
      requires digits >= 2
      ensures l >= 1
    {
      digits - 1
    }
  }

  function Centre(Q: int, t: int): (v: int)
    requires Q > 0
  {
    if t < Q / 2 then t else t - Q
  }

  /** Sign extension of the low log2(B) bits. */
  function LowDigit(B: nat, d: int): (r: int)
    requires B > 0
    ensures -(B / 2) <= r < B - B / 2
  {
    (d + B / 2) % B - B / 2
  }

  function Next(B: nat, d: int): int
    requires B > 0
  {
    (d - LowDigit(B, d)) / B
  }

  lemma {:induction false} NextStep(B: nat, d: int)
    requires B > 0
    ensures d == LowDigit(B, d) + B * Next(B, d)
    ensures Next(B, d) == (d + B / 2) / B
  {
    DivMod(d + B / 2, B);
    DivModUnique(d - LowDigit(B, d), B, (d + B / 2) / B, 0);
  }

  /** What is left of v after j digits have been taken off. */
  function Residual(B: nat, v: int, j: nat): int
    requires B > 0
    decreases j
  {
    if j == 0 then v else Residual(B, Next(B, v), j - 1)
  }

  lemma {:induction false} ResidualStep(B: nat, v: int, j: nat)
    requires B > 0
    ensures Residual(B, v, j + 1) == Next(B, Residual(B, v, j))
    decreases j
  {
    if j > 0 {
      ResidualStep(B, Next(B, v), j - 1);
    }
  }

  function Digit(B: nat, v: int, j: nat): (r: int)
    requires B > 0
    ensures -(B / 2) <= r < B - B / 2
  {
    LowDigit(B, Residual(B, v, j))
  }

  /** B^i·digit_i + ... + B^(D-1)·digit_(D-1). */
  function Weighted(B: nat, v: int, i: nat, D: nat): int
    requires B > 0 && i <= D
    decreases D - i
  {
    if i == D then 0 else Pow(B, i) * Digit(B, v, i) + Weighted(B, v, i + 1, D)
  }

  lemma {:induction false} WeightedResidual(B: nat, v: int, i: nat, D: nat)
    requires B > 0 && i <= D
    ensures Pow(B, i) * Residual(B, v, i) == Weighted(B, v, i, D) + Pow(B, D) * Residual(B, v, D)
    decreases D - i
  {
    if i < D {
      WeightedResidual(B, v, i + 1, D);
      ResidualStep(B, v, i);
      var d := Residual(B, v, i);
      NextStep(B, d);
      SplitDigit(Pow(B, i), B, LowDigit(B, d), Next(B, d));
    }
  }

  lemma {:induction false} SplitDigit(w: int, b: int, r: int, x: int)
    ensures w * (r + b * x) == w * r + (b * w) * x
  {
    assert w * (b * x) == (b * w) * x;
  }

  /** Every integer is its D signed digits plus what the last step carries out. */
  lemma {:induction false} Recompose(B: nat, v: int, D: nat)
    requires B > 0
    ensures v == Weighted(B, v, 0, D) + Pow(B, D) * Residual(B, v, D)
  {
    WeightedResidual(B, v, 0, D);
  }

  //////// The carry ////////

  /** Largest integer with D digits: every digit equal to B/2 - 1. */
  function Largest(B: nat, D: nat): int {
    if D == 0 then 0 else B * Largest(B, D - 1) + (B / 2 - 1)
  }

  lemma {:induction false} PowEven(B: nat, m: nat)
    requires B % 2 == 0 && m > 0
    ensures Pow(B, m) % 2 == 0
  {
    var h, p := B / 2, Pow(B, m - 1);
    assert B == 2 * h;
    assert Pow(B, m) == 2 * (h * p);
  }

  lemma {:induction false} NextShrinks(B: nat, d: int, m: nat)
    requires B >= 2 && B % 2 == 0 && m >= 1 && 0 - Pow(B, m) <= 2 * d <= Pow(B, m)
    ensures m >= 2 ==> 0 - Pow(B, m - 1) <= 2 * Next(B, d) <= Pow(B, m - 1)
    ensures m == 1 ==> 0 <= Next(B, d) <= 1
  {
    NextStep(B, d);
    HalfDigit(B, d);
    ShrinkBound(B, Pow(B, m - 1), d, LowDigit(B, d), Next(B, d));
    if m >= 2 {
      PowEven(B, m - 1);
      EvenBound(Next(B, d), Pow(B, m - 1));
    }
  }

  lemma {:induction false} HalfDigit(B: nat, d: int)
    requires B >= 2 && B % 2 == 0
    ensures 0 - B <= 2 * LowDigit(B, d) <= B - 2
  {
  }

  lemma {:induction false} EvenBound(x: int, p: int)
    requires p % 2 == 0 && 2 * x <= p + 1
    ensures 2 * x <= p
  {
  }

  lemma {:induction false} ShrinkBound(b: int, p: int, d: int, r: int, x: int)
    requires b >= 2 && d == r + b * x && -b <= 2 * r <= b - 2 && -(b * p) <= 2 * d <= b * p
    ensures -p <= 2 * x <= p + 1
  {
    assert b * (2 * x) == 2 * d - 2 * r;
    assert b * (p + 2) == b * p + 2 * b;
    assert b * (-p - 1) == -(b * p) - b;
    if 2 * x > p + 1 {
      MulMono(p + 2, 2 * x, b);
    }
    if 2 * x < -p {
      MulMono(2 * x, -p - 1, b);
    }
  }

  lemma {:induction false} CarryRange(B: nat, v: int, D: nat)
    requires B >= 2 && B % 2 == 0 && D >= 1 && 0 - Pow(B, D) <= 2 * v <= Pow(B, D)
    ensures 0 <= Residual(B, v, D) <= 1
    decreases D
  {
    NextShrinks(B, v, D);
    if D > 1 {
      CarryRange(B, Next(B, v), D - 1);
    }
  }

  lemma {:induction false} CarryPositive(B: nat, v: int, D: nat)
    requires B >= 2 && B % 2 == 0
    ensures Residual(B, v, D) >= 1 <==> v > Largest(B, D)
    decreases D
  {
    if D > 0 {
      CarryPositive(B, Next(B, v), D - 1);
      NextStep(B, v);
      HalfDigit(B, v);
      CarryStep(B, v, LowDigit(B, v), Next(B, v), Largest(B, D - 1));
    }
  }

  lemma {:induction false} CarryStep(b: int, v: int, r: int, x: int, y: int)
    requires b >= 2 && b % 2 == 0 && v == r + b * x && -b <= 2 * r <= b - 2
    ensures x > y <==> v > b * y + (b / 2 - 1)
  {
    assert b * (y + 1) == b * y + b;
    if x > y {
      MulMono(y + 1, x, b);
    } else {
      MulMono(x, y, b);
    }
  }

  /** The centred value of a coefficient carries at most 1 out of the top digit, and carries
      exactly when it exceeds the largest number the digits can express. */
  lemma {:induction false} CarryOfCoefficient(p: Params, t: int)
    requires p.Valid() && 0 <= t < p.Q
    ensures var c := Residual(p.B, Centre(p.Q, t), p.digits);
            0 <= c <= 1 && (c == 1 <==> Centre(p.Q, t) > Largest(p.B, p.digits))
  {
    var v := Centre(p.Q, t);
    PowEven(p.B, p.digits);
    CarryRange(p.B, v, p.digits);
    CarryPositive(p.B, v, p.digits);
  }

  /** Largest has the closed form (B/2-1)(B^D-1)/(B-1). */
  lemma {:induction false} LargestForm(B: nat, D: nat)
    requires B >= 2
    ensures (B - 1) * Largest(B, D) == (B / 2 - 1) * (Pow(B, D) - 1)
  {
    if D > 0 {
      LargestForm(B, D - 1);
      GeometricStep(B, B / 2 - 1, Largest(B, D - 1), Pow(B, D - 1));
    }
  }

  lemma {:induction false} GeometricStep(b: int, h: int, y: int, w: int)
    requires (b - 1) * y == h * (w - 1)
    ensures (b - 1) * (b * y + h) == h * (b * w - 1)
  {
    assert (b - 1) * (b * y) == b * ((b - 1) * y);
    assert b * (h * (w - 1)) == h * (b * w) - h * b;
    assert (b - 1) * h == h * b - h;
  }

  /** The largest centred coefficient is (Q-1)/2 rounded down, so no coefficient ever carries
      if and only if that value is expressible. */
  lemma {:induction false} NeverCarries(p: Params)
    requires p.Valid()
    ensures (forall t :: 0 <= t < p.Q ==> Residual(p.B, Centre(p.Q, t), p.digits) == 0)
       <==> p.Q / 2 - 1 <= Largest(p.B, p.digits)
  {
    forall t | 0 <= t < p.Q
      ensures Residual(p.B, Centre(p.Q, t), p.digits) == 0 <==> Centre(p.Q, t) <= Largest(p.B, p.digits)
    {
      CarryOfCoefficient(p, t);
    }
    assert Centre(p.Q, p.Q / 2 - 1) == p.Q / 2 - 1;
    LargestNonNegative(p.B, p.digits);
  }

  lemma {:induction false} LargestNonNegative(B: nat, D: nat)
    requires B >= 2
    ensures Largest(B, D) >= 0
  {
    if D > 0 {
      LargestNonNegative(B, D - 1);
      MulNonNeg(B, Largest(B, D - 1));
    }
  }

  /** B = 2^9 with a modulus just below 2^27: some coefficient does carry. */
  lemma {:induction false} CarryExample()
    ensures Params(1, 0x7FFFFFF, 512, 3).Valid()
    ensures Residual(512, Centre(0x7FFFFFF, 0x3FFFFFE), 3) == 1
  {
    var p := Params(1, 0x7FFFFFF, 512, 3);
    assert Pow(512, 3) == 512 * Pow(512, 2) == 512 * (512 * Pow(512, 1)) == 512 * (512 * (512 * Pow(512, 0)));
    assert Largest(512, 3) == 512 * Largest(512, 2) + 255 == 512 * (512 * Largest(512, 1) + 255) + 255;
    CarryOfCoefficient(p, 0x3FFFFFE);
  }

  //////// The loops ////////

  /** Digit i as stored: negative digits are represented by adding Q. */
  function Stored(p: Params, t: int, i: nat): (r: int)
    requires p.B > 0 && p.Q > 0
  {
    var r := Digit(p.B, Centre(p.Q, t), i + 1);
    if r < 0 then r + p.Q else r
  }

  /** SignedDigitDecompose on one ring element: adds the kept digits of every coefficient into
      the output. */
  method SignedDigitDecompose(p: Params, input: Poly, output: array2<int>)
    requires p.Valid() && |input| == p.N
    requires output.Length0 == p.Kept() && output.Length1 == p.N
    modifies output
    ensures forall i, k :: 0 <= i < p.Kept() && 0 <= k < p.N ==>
              output[i, k] == old(output[i, k]) + Stored(p, input[k], i)
  {
    for k := 0 to p.N
      invariant forall i, j :: 0 <= i < p.Kept() && 0 <= j < k ==>
                  output[i, j] == old(output[i, j]) + Stored(p, input[j], i)
      invariant forall i, j :: 0 <= i < p.Kept() && k <= j < p.N ==> output[i, j] == old(output[i, j])
    {
      DecomposeCoefficient(p, input[k], k, output);
    }
  }

  /** The body of the loop over coefficients. */
  method DecomposeCoefficient(p: Params, t: int, k: nat, output: array2<int>)
    requires p.Valid() && k < p.N
    requires output.Length0 == p.Kept() && output.Length1 == p.N
    modifies output
    ensures forall i, j :: 0 <= i < p.Kept() && 0 <= j < p.N ==>
              output[i, j] == old(output[i, j]) + if j == k then Stored(p, t, i) else 0
  {
    var d := if t < p.Q / 2 then t else t - p.Q;
    var r := LowDigit(p.B, d);
    d := (d - r) / p.B;
    ghost var v := Centre(p.Q, t);
    ResidualStep(p.B, v, 0);
    for i := 0 to p.Kept()
      invariant d == Residual(p.B, v, i + 1)
      invariant forall a, j :: 0 <= a < p.Kept() && 0 <= j < p.N ==>
                  output[a, j] == old(output[a, j]) + if j == k && a < i then Stored(p, t, a) else 0
    {
      r := LowDigit(p.B, d);
      d := (d - r) / p.B;
      ResidualStep(p.B, v, i + 1);
      if r < 0 {
        r := r + p.Q;
      }
      output[i, k] := output[i, k] + r;
    }
  }

  /** The table of powers B^i mod Q built by PreCompute. */
  method PowerTable(p: Params) returns (g: seq<int>)
    requires p.Valid()
    ensures |g| == p.digits
    ensures forall i :: 0 <= i < p.digits ==> g[i] == Pow(p.B, i) % p.Q
  {
    g := [];
    var v := 1;
    assert 1 % p.Q == 1;
    for i := 0 to p.digits
      invariant |g| == i && v == Pow(p.B, i) % p.Q
      invariant forall j :: 0 <= j < i ==> g[j] == Pow(p.B, j) % p.Q
    {
      g := g + [v];
      ModOfMod(Pow(p.B, i), p.Q);
      ModMulCong(v, Pow(p.B, i), p.B, p.B, p.Q);
      assert v * p.B == p.B * v;
      assert Pow(p.B, i) * p.B == Pow(p.B, i + 1);
      v := (v * p.B) % p.Q;
    }
  }
}
