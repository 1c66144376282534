/** The gates on ring-GSW ciphertexts: one test polynomial per gate constant, and truth tables. */
module GateTables {
  import opened Arithmetic
  import opened NegacyclicRing
  import opened MkLwe
  import opened FunctionalBootstrap
  import opened LargePrecision

  datatype Gate = OR | AND | NOR | NAND | XOR_FAST | XNOR_FAST | MAJORITY | AND3 | OR3 | AND4 | OR4

  /** The lower end of the half circle that a gate maps to false. */
  function GateConstant(g: Gate, q: int): int {
    match g
    case OR => 5 * (q / 8)
    case AND => 7 * (q / 8)
    case NOR => 1 * (q / 8)
    case NAND => 3 * (q / 8)
    case XOR_FAST => 5 * (q / 8)
    case XNOR_FAST => 1 * (q / 8)
    case MAJORITY => 7 * (q / 8)
    case AND3 => 11 * (q / 12)
    case OR3 => 7 * (q / 12)
    case AND4 => 15 * (q / 16)
    case OR4 => 9 * (q / 16)
  }

  function Inputs(g: Gate): nat {
    match g
    case MAJORITY => 3
    case AND3 => 3
    case OR3 => 3
    case AND4 => 4
    case OR4 => 4
    case _ => 2
  }

  function Ones(bits: seq<bool>): nat {
    if bits == [] then 0 else (if bits[0] then 1 else 0) + Ones(bits[1..])
  }

  function Weight(b: bool): int { if b then 1 else 0 }

  /** What is added up: 2·(m1 - m2) for the fast XORs, the number of ones otherwise. */
  function Combined(g: Gate, bits: seq<bool>): int
    requires |bits| == Inputs(g)
  {
    if g.XOR_FAST? || g.XNOR_FAST? then 2 * (Weight(bits[0]) - Weight(bits[1])) else Ones(bits)
  }

  /** The Boolean function of the gate. */
  predicate Truth(g: Gate, bits: seq<bool>)
    requires |bits| == Inputs(g)
  {
    match g
    case OR => bits[0] || bits[1]
    case AND => bits[0] && bits[1]
    case NOR => !(bits[0] || bits[1])
    case NAND => !(bits[0] && bits[1])
    case XOR_FAST => bits[0] != bits[1]
    case XNOR_FAST => bits[0] == bits[1]
    case MAJORITY => (bits[0] && bits[1]) || (bits[0] && bits[2]) || (bits[1] && bits[2])
    case AND3 => bits[0] && bits[1] && bits[2]
    case OR3 => bits[0] || bits[1] || bits[2]
    case AND4 => bits[0] && bits[1] && bits[2] && bits[3]
    case OR4 => bits[0] || bits[1] || bits[2] || bits[3]
  }

  /** The number of ones is what the Boolean function depends on. */
  lemma {:induction false} TruthByCount(g: Gate, bits: seq<bool>)
    requires |bits| == Inputs(g)
    ensures var c := Combined(g, bits);
            (Truth(g, bits) <==> ByCount(g, c)) && -2 <= c <= Inputs(g) && ((g.XOR_FAST? || g.XNOR_FAST?) ==> c % 2 == 0) &&
            (!(g.XOR_FAST? || g.XNOR_FAST?) ==> c >= 0)
  {
    assert Ones(bits) == Weight(bits[0]) + Ones(bits[1..]);
    assert Ones(bits[1..]) == Weight(bits[1]) + Ones(bits[1..][1..]);
    if |bits| > 2 {
      assert Ones(bits[1..][1..]) == Weight(bits[2]) + Ones(bits[1..][1..][1..]);
      if |bits| > 3 {
        assert Ones(bits[1..][1..][1..]) == Weight(bits[3]) + Ones(bits[1..][1..][1..][1..]);
      }
    }
  }

  predicate ByCount(g: Gate, c: int) {
    match g
    case OR => c >= 1
    case AND => c == 2
    case NOR => c == 0
    case NAND => c < 2
    case XOR_FAST => c != 0
    case XNOR_FAST => c == 0
    case MAJORITY => c >= 2
    case AND3 => c == 3
    case OR3 => c >= 1
    case AND4 => c == 4
    case OR4 => c >= 1
  }

  //////// The half circle [q1, q1 + q/2) ////////

  ghost predicate InArc(q: int, q1: int, x: int)
    requires q > 0
  {
    Residue(x - q1, q) < q / 2
  }

  /** The value written for b - j: -h inside [q1, q1 + q/2), h outside, with the two orders of the
      end points distinguished as in BootstrapGateCore. */
  function ArcSign(q: int, q1: int, h: int): int -> int
    requires q > 0
  {
    var q2 := Residue(q1 + q / 2, q);
    x => if q1 < q2 then (if q1 <= x < q2 then -h else h) else (if q2 <= x < q1 then h else -h)
  }

  lemma {:induction false} ArcSignIs(q: int, q1: int, h: int, x: int)
    requires q > 0 && q % 2 == 0 && 0 <= q1 < q && 0 <= x < q
    ensures ArcSign(q, q1, h)(x) == if InArc(q, q1, x) then -h else h
  {
    var s := q / 2;
    if q1 + s < q { SmallResidue(q1 + s, q); } else { OneTurn(q1 + s, q); }
    if x >= q1 { SmallResidue(x - q1, q); } else { DivModUnique(x - q1, q, -1, x - q1 + q); }
  }

  lemma {:induction false} ArcNegacyclic(q: int, q1: int, h: int, x: int)
    requires q > 0 && q % 2 == 0 && 0 <= q1 < q && 0 <= x < q / 2
    ensures ArcSign(q, q1, h)(x) + ArcSign(q, q1, h)(x + q / 2) == 0
  {
    ArcSignIs(q, q1, h, x);
    ArcSignIs(q, q1, h, x + q / 2);
    var y, k := ModForm(x - q1, q);
    if y < q / 2 { DivModUnique(x + q / 2 - q1, q, k, y + q / 2); } else {
      Distribute(q, k, 1);
      DivModUnique(x + q / 2 - q1, q, k + 1, y - q / 2);
    }
  }

  /** The constant coefficient of the rotated test polynomial depends only on the phase. */
  lemma {:induction false} GateCoefficient(m: Poly, q1: int, h: int, ct: Sample, factor: int, x: int)
    requires ct.q > 0 && IsFuncPolynomial(m, 1, ArcSign(ct.q, q1, h), ct.b, ct.q, factor) && |m| > 0 && 0 <= q1 < ct.q
    requires PhaseIs(ct, x)
    ensures Mono(-(factor * ct.t), m)[0] == if InArc(ct.q, q1, x) then -h else h
  {
    var q, f := ct.q, ArcSign(ct.q, q1, h);
    RotatedFunction(m, 1, f, ct, factor);
    var y := Residue(ct.b - ct.t, q);
    hide IsFuncPolynomial, Mono, ArcSign, InArc;
    ArcSignIs(q, q1, h, y);
    HalfTurnSign(q, q1, h, y, f);
    SameArc(q, q1, x, y);
  }

  lemma {:induction false} HalfTurnSign(q: int, q1: int, h: int, y: int, f: int -> int)
    requires q > 0 && q % 2 == 0 && 0 <= q1 < q && 0 <= y < q && f == ArcSign(q, q1, h)
    ensures -f(Residue(y + q / 2, q)) == f(y)
  {
    if y < q / 2 {
      SmallResidue(y + q / 2, q);
      ArcNegacyclic(q, q1, h, y);
    } else {
      OneTurn(y + q / 2, q);
      ArcNegacyclic(q, q1, h, y - q / 2);
    }
  }

  lemma {:induction false} SameArc(q: int, q1: int, x: int, y: int)
    requires q > 0 && y == Residue(x, q)
    ensures InArc(q, q1, y) == InArc(q, q1, x)
  {
    ModOfMod(x, q);
    ModAddCong(y, x, q1, q1, q);
  }

  //////// Truth tables ////////

  /** Every gate constant is an odd multiple k·(q/(2p)), and in that unit the phase sits at an odd
      position u of the circle, never at p. */
  lemma {:induction false} Place(g: Gate, p: int, q: int, c: int) returns (k: int, j: int, u: int)
    requires -2 <= c <= Inputs(g) && ((g.XOR_FAST? || g.XNOR_FAST?) ==> c % 2 == 0)
    requires !(g.XOR_FAST? || g.XNOR_FAST?) ==> c >= 0
    requires p == if g.AND3? || g.OR3? then 6 else if g.AND4? || g.OR4? then 8 else 4
    ensures GateConstant(g, q) == k * (q / (2 * p)) && 0 < k < 2 * p
    ensures 2 * c - k == u + 2 * p * j && -2 <= j <= 0
    ensures 0 < u < 2 * p && u != p && (u < p <==> !ByCount(g, c))
  {
    k := match g
         case OR => 5
         case AND => 7
         case NOR => 1
         case NAND => 3
         case XOR_FAST => 5
         case XNOR_FAST => 1
         case MAJORITY => 7
         case AND3 => 11
         case OR3 => 7
         case AND4 => 15
         case OR4 => 9;
    var t := 2 * c - k;
    j := if t > 0 then 0 else if t > -(2 * p) then -1 else -2;
    u := t - 2 * p * j;
  }

  lemma {:induction false} ArcGrid(q: int, p: int, s: int, rho: int, u: int, j: int, d: int, eps: int)
    requires p > 0 && s > 0 && q == 2 * (p * s) + rho && 0 <= rho < 2 * p && rho % 2 == 0 && d == u * s + eps + q * j
    requires 0 < u < 2 * p && u != p && rho / 2 - s <= eps < s
    ensures Residue(d, q) < q / 2 <==> u < p
  {
    var x, y := u * s, p * s;
    GridBounds(p, s, u, x, y);
    DivModUnique(d, q, j, x + eps);
  }

  lemma {:induction false} GridBounds(p: int, s: int, u: int, x: int, y: int)
    requires s > 0 && 0 < u < 2 * p && u != p && x == u * s && y == p * s
    ensures s <= x <= 2 * y - s && (u < p ==> x <= y - s) && (u > p ==> x >= y + s)
  {
    MulMono(1, u, s);
    MulMono(u, 2 * p - 1, s);
    Distribute(s, 2 * p, 1);
    Distribute(s, p, 1);
    Arithmetic.Regroup(2, p, s);
    if u < p {
      MulMono(u, p - 1, s);
    } else {
      MulMono(p + 1, u, s);
    }
  }

  /** The whole margin of q/(2p) on either side when 2p divides q, and otherwise the margin less the
      slack of the integer divisions. */
  predicate WithinMargin(p: int, q: int, e: int)
    requires p > 0
  {
    if q % (2 * p) == 0 then -(q / (2 * p)) <= e < q / (2 * p) else Abs(e) + 48 <= q / (2 * p)
  }

  /** The phase lies in the gate's half circle exactly when the gate is false. */
  lemma {:induction false} ArcByCount(g: Gate, p: int, q: int, c: int, e: int)
    requires q > 0 && q % 2 == 0 && -2 <= c <= Inputs(g) && ((g.XOR_FAST? || g.XNOR_FAST?) ==> c % 2 == 0)
    requires !(g.XOR_FAST? || g.XNOR_FAST?) ==> c >= 0
    requires p == if g.AND3? || g.OR3? then 6 else if g.AND4? || g.OR4? then 8 else 4
    requires WithinMargin(p, q, e)
    ensures InArc(q, GateConstant(g, q), c * (q / p) + e) <==> !ByCount(g, c)
  {
    var k, j, u := Place(g, p, q, c);
    assert Inputs(g) <= 4;
    hide GateConstant, ByCount, Inputs;
    var s, rho := q / (2 * p), q % (2 * p);
    DivMod(q, 2 * p);
    Arithmetic.Regroup(2, p, s);
    EvenRemainder(q, p, s, rho);
    var delta := if rho < p then 0 else 1;
    Halved(q, p, s, rho, delta);
    var eps := c * delta + e - rho * j;
    MarginLeft(p, q, c, delta, e, j, eps);
    hide WithinMargin;
    Position(q, p, s, rho, k, c, e, delta, j, u, eps);
    ArcGrid(q, p, s, rho, u, j, c * (q / p) + e - k * s, eps);
  }

  lemma {:induction false} Halved(q: int, p: int, s: int, rho: int, delta: int)
    requires p > 0 && q == 2 * (p * s) + rho && 0 <= rho < 2 * p && delta == if rho < p then 0 else 1
    ensures q / p == 2 * s + delta
  {
    Distribute(p, 2 * s, delta);
    Arithmetic.Regroup(p, 2, s);
    DivModUnique(q, p, 2 * s + delta, rho - p * delta);
  }

  lemma {:induction false} MarginLeft(p: int, q: int, c: int, delta: int, e: int, j: int, eps: int)
    requires 0 < p <= 8 && -2 <= c <= 4 && -2 <= j <= 0 && WithinMargin(p, q, e)
    requires delta == (if q % (2 * p) < p then 0 else 1) && eps == c * delta + e - q % (2 * p) * j
    ensures q % (2 * p) / 2 - q / (2 * p) <= eps < q / (2 * p)
  {
    var s, rho := q / (2 * p), q % (2 * p);
    SlackBound(c, delta, e, rho, j, eps);
    if rho == 0 {
      assert rho * j == 0 && c * delta == 0;
    }
  }

  lemma {:induction false} EvenRemainder(q: int, p: int, s: int, rho: int)
    requires q == 2 * (p * s) + rho && q % 2 == 0
    ensures rho % 2 == 0
  {
  }

  lemma {:induction false} SlackBound(c: int, delta: int, e: int, rho: int, j: int, eps: int)
    requires -2 <= c <= 4 && 0 <= delta <= 1 && 0 <= rho < 16 && -2 <= j <= 0 && eps == c * delta + e - rho * j
    ensures Abs(eps) <= Abs(e) + 40
  {
    assert j == 0 || j == -1 || j == -2;
    assert delta == 0 || delta == 1;
  }

  lemma {:induction false} Position(q: int, p: int, s: int, rho: int, k: int, c: int, e: int, delta: int, j: int, u: int, eps: int)
    requires q == 2 * (p * s) + rho && 2 * c - k == u + 2 * p * j && eps == c * delta + e - rho * j
    ensures c * (2 * s + delta) + e - k * s == u * s + eps + q * j
  {
    assert c * (2 * s + delta) == 2 * c * s + c * delta;
    assert (2 * c - k) * s == 2 * c * s - k * s;
    assert (u + 2 * p * j) * s == u * s + 2 * p * j * s;
    assert 2 * p * j * s == 2 * (p * s) * j;
    assert q * j == 2 * (p * s) * j + rho * j;
  }

  lemma {:induction false} ConstantRange(g: Gate, q: int)
    requires q > 0
    ensures 0 <= GateConstant(g, q) < q
  {
  }

  /** Every gate constant separates the false from the true inputs when bits are encoded modulo 4,
      modulo 6 for AND3 and OR3, modulo 8 for AND4 and OR4. */
  lemma {:induction false} GateTruth(g: Gate, p: int, q: int, bits: seq<bool>, e: int)
    requires p == if g.AND3? || g.OR3? then 6 else if g.AND4? || g.OR4? then 8 else 4
    requires q > 0 && q % 2 == 0 && |bits| == Inputs(g) && WithinMargin(p, q, e)
    ensures 0 <= GateConstant(g, q) < q
    ensures InArc(q, GateConstant(g, q), Combined(g, bits) * (q / p) + e) <==> !Truth(g, bits)
  {
    TruthByCount(g, bits);
    ConstantRange(g, q);
    hide Truth, Combined, GateConstant, ByCount, InArc;
    ArcByCount(g, p, q, Combined(g, bits), e);
  }

  /** Every gate: the rotated test polynomial's constant coefficient is h or -h as the gate is true
      or false. */
  lemma {:induction false} GateEvaluates(g: Gate, p: int, m: Poly, h: int, ct: Sample, factor: int, bits: seq<bool>, e: int)
    requires p == if g.AND3? || g.OR3? then 6 else if g.AND4? || g.OR4? then 8 else 4
    requires |bits| == Inputs(g) && ct.q > 0 && WithinMargin(p, ct.q, e)
    requires IsFuncPolynomial(m, 1, ArcSign(ct.q, GateConstant(g, ct.q), h), ct.b, ct.q, factor) && |m| > 0
    requires PhaseIs(ct, Combined(g, bits) * (ct.q / p) + e)
    ensures Mono(-(factor * ct.t), m)[0] == if Truth(g, bits) then h else -h
  {
    hide Truth, Combined, GateConstant, InArc, ArcSign, Mono, PhaseIs;
    GateTruth(g, p, ct.q, bits, e);
    GateCoefficient(m, GateConstant(g, ct.q), h, ct, factor, Combined(g, bits) * (ct.q / p) + e);
  }
}
