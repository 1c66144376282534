/** EvalBinGate on multi-key LWE ciphertexts, and circuits of NAND gates. */
module MkCircuit {
  import opened NegacyclicRing
  import opened RingModulus
  import opened Arithmetic
  import opened Gadget
  import opened RingVectors
  import opened HybridProduct
  import opened KeyAlgebra
  import opened BlindRotation
  import opened MultiKeyRun
  import opened MultiKeyEval
  import opened MkLwe
  import opened MkLweKeys
  import opened TestPolynomial
  import opened MkNand
  import opened MkGate

  /** The gate's result, or the configuration error it throws. */
  datatype GateResult = Thrown | Fresh(ct: Ciphertext)

  /** ct encrypts the bit m under the secrets x with noise at most E. */
  ghost predicate Carries(g: GateKeys, x: Secrets, ct: Ciphertext, m: int, E: nat)
    reads ct
  {
    ct.Valid() && ct.q == g.q && Shaped(ct.a, |x.s|, g.n) && SameShape(ct.a, x.s) && Encodes(g.q, Phase(ct.a, ct.b, x.s), m, E)
  }

  /** 5q/8 - (ct1 + ct2), on copies. */
  method Prepare(n: nat, ct1: Ciphertext, ct2: Ciphertext) returns (ct: Ciphertext)
    requires ct1.Valid() && ct2.Valid() && ct1.q == ct2.q
    requires Shaped(ct1.a, |ct1.a|, n) && Shaped(ct2.a, |ct1.a|, n)
    ensures fresh(ct) && ct.Valid() && ct.q == ct1.q
    ensures ct.a == PrepA(ct1.q, n, ct1.a, ct2.a) && ct.b == PrepB(ct1.q, ct1.b, ct2.b)
  {
    hide Combine, Residue;
    var q := ct1.q;
    var ctprep := new Ciphertext(ct1.a, ct1.b, q);
    ct := new Ciphertext(Zeros(|ct1.a|, n), Residue(5 * q / 8, q), q);
    EvalAddEq(ctprep, ct2);
    EvalSubEq(ct, ctprep);
  }

  /** BootstrapGateCore: the rotated test polynomial, then the blind rotation by -a. */
  method BootstrapGateCore(g: GateKeys, k: nat, a: Matrix, b: nat) returns (acc: Accumulator, ghost rx: Poly)
    requires g.p.Valid() && k > 0 && |a| == k && Shaped(a, k, g.n) && g.n > 0 && b < 2 * g.p.N
    requires PerUser(g.p, g.pkey, k) && g.keys.Shaped(g.p, k, g.n)
    requires |g.table| == 2 * g.p.N && forall i :: 0 <= i < 2 * g.p.N ==> g.table[i] == TableEntry(g.p, i)
    ensures Canonical(g.p, rx) && Cong(g.p.Q, rx, Mono(b, HalfPlane(g.p.N, g.p.Q / 8 + 1)))
    ensures Ready(g, k, a, rx) && acc.elements == FinalAcc(g, k, a, rx)
  {
    hide Cong, Mono, HalfPlane, TableEntry, Run, PerUser, Combine;
    var M := 2 * g.p.N;
    DivModUnique(b * M, M, b, 0);
    var bhat := b * M / M;
    var rxb := RotatedTest(g.p.N, g.p.Q, g.p.Q / 8 + 1, bhat);
    rx := rxb;
    var neg := NegA(M, g.n, a);
    acc := new Accumulator(Start(g.p, k, rxb));
    BinaryExponents(g.p, M, neg);
    EvalAcc(Binary, g.p, g.table, g.keys, g.pkey, acc, M, neg, g.n);
  }

  /** The binary accumulator uses the residues modulo 2N as exponents. */
  lemma {:induction false} BinaryExponents(p: Params, q: int, ct: seq<seq<int>>)
    requires q > 0
    ensures ExponentsOf(Binary, p, q, ct) == ct
  {
    forall u | 0 <= u < |ct| ensures ExponentsOf(Binary, p, q, ct)[u] == ct[u] {
    }
  }

  /** The constant coefficient of every accumulator component as LWE vectors: X -> 1/X. */
  method ExtractSample(p: Params, acc: Accumulator) returns (ext: Matrix)
    requires p.Valid() && Sized(acc.elements, p.N)
    ensures ext == Extract(p, acc.elements)
  {
    ext := [];
    for u := 0 to |acc.elements|
      invariant |ext| == u && forall v :: 0 <= v < u ==> ext[v] == Extract(p, acc.elements)[v]
    {
      ext := ext + [Reduce(p.Q, Transpose(acc.elements[u]))];
    }
  }

  /** Every coefficient after modulus switching is a residue. */
  lemma {:induction false} SwitchRange(q: int, Q: int, a: Matrix)
    requires q > 0 && Q > 0
    ensures var r := SwitchAll(q, Q, a); SameShape(r, a) && forall u, i :: 0 <= u < |r| && 0 <= i < |r[u]| ==> 0 <= r[u][i] < q
  {
    hide RoundqQ;
  }

  /** The public material is complete for k users. */
  ghost predicate Complete(g: GateKeys, k: nat) {
    g.p.Valid() && k > 0 && g.n > 0 && g.q > 0 && PerUser(g.p, g.pkey, k) && g.keys.Shaped(g.p, k, g.n) &&
    |g.table| == 2 * g.p.N && forall i :: 0 <= i < 2 * g.p.N ==> g.table[i] == TableEntry(g.p, i)
  }

  lemma {:induction false} SettingComplete(g: GateKeys, x: Secrets)
    requires GateSetting(g, x)
    ensures Complete(g, |x.s|) && Shaped(x.s, |x.s|, g.n) && Shaped(x.w.s, |x.s|, g.p.N)
  {
    hide TableEntry, KeyFor, KeyShape, SwitchesTo;
  }

  /** The combined input has the phase 5q/8 - phase1 - phase2. */
  lemma {:induction false} Prepared(g: GateKeys, x: Secrets, a1: Matrix, b1: int, a2: Matrix, b2: int)
    requires g.q > 0 && Shaped(a1, |x.s|, g.n) && Shaped(a2, |x.s|, g.n) && Shaped(x.s, |x.s|, g.n) && SameShape(a1, x.s) && SameShape(a2, x.s)
    ensures Shaped(PrepA(g.q, g.n, a1, a2), |x.s|, g.n) && SameShape(PrepA(g.q, g.n, a1, a2), x.s)
    ensures Residue(Phase(PrepA(g.q, g.n, a1, a2), PrepB(g.q, b1, b2), x.s), g.q)
         == Residue(5 * g.q / 8 - Phase(a1, b1, x.s) - Phase(a2, b2, x.s), g.q)
  {
    PrepPhase(g.q, g.n, a1, b1, a2, b2, x.s);
  }

  /** The key-switching part of EvalBinGate. */
  method SwitchBack(g: GateKeys, acc: Accumulator, ghost x: Secrets) returns (out: Ciphertext, ghost sw: Matrix)
    requires GateSetting(g, x) && |acc.elements| == |x.s| && g.p.Valid() && Sized(acc.elements, g.p.N)
    ensures sw == SwitchAll(g.q, g.p.Q, Extract(g.p, acc.elements)) && SameShape(sw, x.w.s)
    ensures forall u, j :: 0 <= u < |sw| && 0 <= j < |sw[u]| ==> sw[u][j] >= 0
    ensures fresh(out) && out.Valid() && out.q == g.q && Shaped(out.a, |x.s|, g.n) && SameShape(out.a, x.s)
    ensures Residue(Phase(out.a, out.b, x.s), g.q)
         == Residue(Phase(sw, RoundqQ(g.p.Q / 8 + 1, g.q, g.p.Q), x.w.s) - SwitchNoise(g.base, g.count, sw, x.e, |x.w.s|), g.q)
  {
    hide Genuine, TableEntry, KeyShape, SwitchesTo, SmallNoise, Phase, SwitchNoise, Residue, RoundqQ, SwitchAll, Extract;
    SettingComplete(g, x);
    var ext := ExtractSample(g.p, acc);
    var swi, b := ModSwitch(g.q, g.p.Q, ext, g.p.Q / 8 + 1);
    sw := swi;
    SwitchRange(g.q, g.p.Q, ext);
    var a', b' := KeySwitch(g.n, g.q, g.base, g.count, g.ks, swi, b, x.s, x.w.s, x.e);
    out := new Ciphertext(a', b', g.q);
  }

  /** Modulus switching to 2N, blind rotation and switching back. */
  method Bootstrap(g: GateKeys, a: Matrix, b: int, ghost x: Secrets, ghost f1: int, ghost f2: int, ghost m1: int, ghost m2: int, ghost E: nat)
    returns (out: Ciphertext)
    requires GateSetting(g, x) && Budget(g, x, E) && Encodes(g.q, f1, m1, E) && Encodes(g.q, f2, m2, E)
    requires Shaped(a, |x.s|, g.n) && SameShape(a, x.s) && Residue(Phase(a, b, x.s), g.q) == Residue(5 * g.q / 8 - f1 - f2, g.q)
    ensures fresh(out) && Carries(g, x, out, Nand(m1, m2), E)
  {
    hide GateSetting, Budget, Encodes, Phase, SwitchAll, RoundqQ, Ready, Cong, Mono, HalfPlane, FinalAcc, Extract, SwitchNoise, Residue, TableEntry, PerUser;
    SettingComplete(g, x);
    var a1, b1 := ModSwitch(2 * g.p.N, g.q, a, b);
    SwitchRange(2 * g.p.N, g.q, a);
    var acc, rx := BootstrapGateCore(g, |a1|, a1, b1);
    ghost var elements := acc.elements;
    ghost var sw;
    out, sw := SwitchBack(g, acc, x);
    GateOutcome(g, x, E, m1, m2, f1, f2, a, b, rx, elements, sw, Phase(out.a, out.b, x.s));
  }

  /** The gate is closed: inputs carrying m1 and m2 with noise E give a new ciphertext carrying
      NAND(m1, m2) with noise E, and the same object given twice is refused. */
  method EvalBinGate(g: GateKeys, ct1: Ciphertext, ct2: Ciphertext, ghost x: Secrets, ghost m1: int, ghost m2: int, ghost E: nat)
    returns (r: GateResult)
    requires GateSetting(g, x) && Budget(g, x, E) && Carries(g, x, ct1, m1, E) && Carries(g, x, ct2, m2, E)
    ensures r.Thrown? <==> ct1 == ct2
    ensures r.Fresh? ==> fresh(r.ct) && Carries(g, x, r.ct, Nand(m1, m2), E)
  {
    hide GateSetting, Budget, Encodes, PrepA, PrepB, Phase, Residue, TableEntry, PerUser, Complete, Carries;
    if ct1 == ct2 {
      return Thrown;
    }
    SettingComplete(g, x);
    CarriesParts(g, x, ct1, m1, E);
    CarriesParts(g, x, ct2, m2, E);
    hide Ciphertext.Valid;
    var prep := Prepare(g.n, ct1, ct2);
    Prepared(g, x, ct1.a, ct1.b, ct2.a, ct2.b);
    var out := Bootstrap(g, prep.a, prep.b, x, Phase(ct1.a, ct1.b, x.s), Phase(ct2.a, ct2.b, x.s), m1, m2, E);
    return Fresh(out);
  }

  lemma {:induction false} CarriesParts(g: GateKeys, x: Secrets, ct: Ciphertext, m: int, E: nat)
    requires Carries(g, x, ct, m, E)
    ensures ct.Valid() && ct.q == g.q > 0 && Shaped(ct.a, |x.s|, g.n) && SameShape(ct.a, x.s) && Encodes(g.q, Phase(ct.a, ct.b, x.s), m, E)
  {
  }

  //////// Circuits ////////

  /** A circuit lists its gates in order; wire i is input i, or the output of gate i - |inputs|. */
  type Gates = seq<(nat, nat)>

  predicate WellWired(gates: Gates, inputs: nat) {
    forall t :: 0 <= t < |gates| ==> gates[t].0 < inputs + t && gates[t].1 < inputs + t
  }

  /** The plaintext value of every wire after t gates. */
  function Values(bits: seq<int>, gates: Gates, t: nat): (v: seq<int>)
    requires t <= |gates| && WellWired(gates, |bits|)
    ensures |v| == |bits| + t
  {
    if t == 0 then bits
    else
      var v := Values(bits, gates, t - 1);
      v + [Nand(v[gates[t - 1].0], v[gates[t - 1].1])]
  }

  /** A gate reads one ciphertext object twice. */
  predicate Clash(inputs: seq<Ciphertext>, gate: (nat, nat)) {
    gate.0 == gate.1 || (gate.0 < |inputs| && gate.1 < |inputs| && inputs[gate.0] == inputs[gate.1])
  }

  /** Any circuit of NANDs: it completes exactly when no gate reads one object twice, and then
      every wire carries its plaintext value with the noise of a fresh input. */
  method EvalCircuit(g: GateKeys, inputs: seq<Ciphertext>, gates: Gates, ghost x: Secrets, ghost bits: seq<int>, ghost E: nat)
    returns (ok: bool, wires: seq<Ciphertext>)
    requires GateSetting(g, x) && Budget(g, x, E) && |bits| == |inputs| && WellWired(gates, |inputs|)
    requires forall i :: 0 <= i < |inputs| ==> Carries(g, x, inputs[i], bits[i], E)
    ensures ok <==> forall t :: 0 <= t < |gates| ==> !Clash(inputs, gates[t])
    ensures ok ==> |wires| == |inputs| + |gates|
    ensures ok ==> forall i :: 0 <= i < |wires| ==> Carries(g, x, wires[i], Values(bits, gates, |gates|)[i], E)
  {
    hide GateSetting, Budget, Carries;
    ok, wires := true, inputs;
    for t := 0 to |gates|
      invariant ok && |wires| == |inputs| + t && wires[..|inputs|] == inputs
      invariant forall i, j :: 0 <= i < j < |wires| && j >= |inputs| ==> wires[i] != wires[j]
      invariant forall i :: 0 <= i < t ==> !Clash(inputs, gates[i])
      invariant forall i :: 0 <= i < |wires| ==> Carries(g, x, wires[i], Values(bits, gates, t)[i], E)
    {
      var l, r := gates[t].0, gates[t].1;
      ghost var v := Values(bits, gates, t);
      var out := EvalBinGate(g, wires[l], wires[r], x, v[l], v[r], E);
      assert Clash(inputs, gates[t]) <==> wires[l] == wires[r];
      if out.Thrown? {
        return false, wires;
      }
      wires := wires + [out.ct];
    }
  }

  /** What a wire carries is what Decrypt returns. */
  lemma {:induction false} CarriesDecrypts(g: GateKeys, x: Secrets, ct: Ciphertext, m: int, E: nat)
    requires Carries(g, x, ct, m, E) && 8 * E + 16 <= g.q
    ensures DecodePhase(g.q, 4, Phase(ct.a, ct.b, x.s)) == m
  {
    var f := Phase(ct.a, ct.b, x.s);
    hide Phase;
    var e: int :| Abs(e) <= E && Residue(f, g.q) == Residue(m * (g.q / 4) + e, g.q);
    DecryptsBit(g.q, m, e, f);
  }
}
