/** Facts about Euclidean division by a symbolic modulus, and powers. */
module Arithmetic {

  lemma {:induction false} DivMod(x: int, m: int)
    requires m > 0
    ensures x == x % m + m * (x / m)
  {
  }

  lemma {:induction false} DivModUnique(x: int, m: int, q: int, r: int)
    requires m > 0 && 0 <= r < m && x == m * q + r
    ensures x / m == q && x % m == r
  {
    var d := x / m - q;
    assert x == m * (x / m) + x % m;
    assert m * d == r - x % m by { assert m * d == m * (x / m) - m * q; }
    if d > 0 {
      MulMono(1, d, m);
    } else if d < 0 {
      MulMono(d, -1, m);
    }
  }

  lemma {:induction false} ModShift(x: int, y: int, m: int, k: int)
    requires m > 0 && x == y + m * k
    ensures x % m == y % m
  {
    var q := y / m;
    assert y == m * q + y % m;
    assert x == m * (q + k) + y % m by { assert m * (q + k) == m * q + m * k; }
    DivModUnique(x, m, q + k, y % m);
  }

  lemma {:induction false} ModEqWitness(x: int, y: int, m: int) returns (k: int)
    requires m > 0 && x % m == y % m
    ensures x == y + m * k
  {
    k := x / m - y / m;
    assert x == m * (x / m) + x % m && y == m * (y / m) + y % m;
    assert m * k == m * (x / m) - m * (y / m);
  }

  lemma {:induction false} ModAddMod(x: int, y: int, m: int)
    requires m > 0
    ensures (x % m + y % m) % m == (x + y) % m
  {
    var a, b := x / m, y / m;
    assert x == m * a + x % m && y == m * b + y % m;
    assert x + y == x % m + y % m + m * (a + b) by { assert m * (a + b) == m * a + m * b; }
    ModShift(x + y, x % m + y % m, m, a + b);
  }

  lemma {:induction false} ModAddCong(x: int, x': int, y: int, y': int, m: int)
    requires m > 0 && x % m == x' % m && y % m == y' % m
    ensures (x + y) % m == (x' + y') % m && (x - y) % m == (x' - y') % m
  {
    var a := ModEqWitness(x, x', m);
    var b := ModEqWitness(y, y', m);
    assert m * (a + b) == m * a + m * b && m * (a - b) == m * a - m * b;
    ModShift(x + y, x' + y', m, a + b);
    ModShift(x - y, x' - y', m, a - b);
  }

  lemma {:induction false} MulPerturbed(x': int, y': int, m: int, a: int, b: int, x: int, y: int)
    requires x == x' + m * a && y == y' + m * b
    ensures x * y == x' * y' + m * (x' * b + a * y)
  {
    Distribute(y, x', m * a);
    Distribute(x', y', m * b);
    Distribute(m, x' * b, a * y);
    Regroup(x', m, b);
    Regroup(m, a, y);
    assert x * y == y * (x' + m * a);
    assert y * (m * a) == m * (a * y);
  }

  lemma {:induction false} ModMulCong(x: int, x': int, y: int, y': int, m: int)
    requires m > 0 && x % m == x' % m && y % m == y' % m
    ensures (x * y) % m == (x' * y') % m
  {
    var a := ModEqWitness(x, x', m);
    var b := ModEqWitness(y, y', m);
    MulPerturbed(x', y', m, a, b, x, y);
    ModShift(x * y, x' * y', m, x' * b + a * y);
  }

  /** x mod m, as a named function. */
  function Residue(x: int, m: int): (r: int)
    requires m > 0
    ensures 0 <= r < m
  {
    x % m
  }

  lemma {:induction false} ModOfMod(x: int, m: int)
    requires m > 0
    ensures (x % m) % m == x % m
  {
    DivModUnique(x % m, m, 0, x % m);
  }

  lemma {:induction false} MulNonNeg(a: int, b: int)
    requires a >= 0 && b >= 0
    ensures a * b >= 0
  {
  }

  lemma {:induction false} Distribute(x: int, y: int, z: int)
    ensures x * (y + z) == x * y + x * z && x * (y - z) == x * y - x * z
  {
  }

  lemma {:induction false} Regroup(x: int, y: int, z: int)
    ensures x * y * z == x * (y * z) == y * (x * z)
  {
  }

  function Times(a: nat, b: nat): (r: nat)
    ensures r == a * b
  {
    MulNonNeg(a, b);
    a * b
  }

  lemma {:induction false} TimesStep(j: nat, x: nat)
    requires j > 0
    ensures Times(j, x) == Times(j - 1, x) + x
  {
    Distribute(x, j - 1, 1);
  }

  lemma {:induction false} MulMono(a: int, b: int, c: int)
    requires a <= b && c >= 0
    ensures a * c <= b * c && c * a <= c * b
  {
    assert (b - a) * c >= 0;
    assert (b - a) * c == b * c - a * c;
  }

  lemma {:induction false} WithinTurn(p: int, q: int, x: int, y: int)
    requires p > 0 && q > 0 && p * x == y && 0 <= y < p * q
    ensures 0 <= x < q
  {
    if x < 0 {
      MulMono(x, -1, p);
    } else if x >= q {
      MulMono(q, x, p);
    }
  }

  function Pow(b: nat, e: nat): (r: nat)
    ensures b > 0 ==> r > 0
  {
    if e == 0 then 1 else b * Pow(b, e - 1)
  }

  lemma {:induction false} PowAdd(b: nat, e: nat, f: nat)
    ensures Pow(b, e + f) == Pow(b, e) * Pow(b, f)
  {
    if e == 0 {
    } else {
      PowAdd(b, e - 1, f);
      assert b * (Pow(b, e - 1) * Pow(b, f)) == (b * Pow(b, e - 1)) * Pow(b, f);
    }
  }
}
