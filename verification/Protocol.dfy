/** The Caulk-style membership proof of src/main.rs: a setup that sizes the
    evaluation domain and the commitment key, a prover that shows a Pedersen
    commitment cm opens to some entry of a public list, and a verifier that
    checks one pairing equation.

    Group elements are written in the exponent model of module Kzg: a G1
    element by its logarithm to the base g (the SRS's first power), a G2
    element by its logarithm to the base h of the SRS, so that P.mul(k) is
    P·k, P + Q is P + Q, and the pairing e(P, Q) is P·Q, all in Z/pZ, and
    multiplication in the target group is addition of logarithms. */
module Protocol {
  import opened Outcomes
  import opened Field
  import opened Polynomial
  import Kzg
  import opened Tools

  /** An evaluation domain H: its size and the generator omega of the
      multiplicative subgroup. */
  datatype Domain = Domain(size: nat, groupGen: int)

  /** The inverse FFT of the domain, a library routine: the coefficients of
      the polynomial of degree < |H| taking the given values on H. It is a
      parameter of the model; the property it is relied on for is stated by
      Interpolates. */
  type Ifft = (Domain, seq<int>) -> seq<int>

  /** domain.element(i) = omega^i, for every i: there is no bounds check. */
  function Element(p: int, domain: Domain, i: nat): (r: int)
    requires p >= 2
    ensures InField(p, r)
    ensures i == 0 ==> r == 1
  {
    Pow(p, domain.groupGen, i)
  }

  /** The public parameters. */
  datatype Setup = Setup(
    domain: Domain,
    g1: int,        // generator of G1
    g2: int,        // generator of G2
    xg2: int,       // the KZG secret times g2
    h: int,         // second Pedersen base, Ped_r(v) = v·g1 + r·h
    ck: Kzg.Powers) // KZG commitment key

  /** What the prover sends. */
  datatype Proof = Proof(cm: int, zComm: int, tComm: int, sComm: int)

  // ---------------------------------------------------------------------
  // Group operations in the exponent model

  /** P.mul(k). */
  function Scale(p: int, e: int, k: int): (r: int)
    requires p >= 2
    ensures InField(p, r)
  {
    (e * k) % p
  }

  /** P + Q. */
  function GroupAdd(p: int, e1: int, e2: int): (r: int)
    requires p >= 2
    ensures InField(p, r)
  {
    (e1 + e2) % p
  }

  /** P - Q. */
  function GroupSub(p: int, e1: int, e2: int): (r: int)
    requires p >= 2
    ensures InField(p, r)
  {
    (e1 - e2) % p
  }

  /** -k in the scalar field. */
  function Neg(p: int, k: int): (r: int)
    requires p >= 2
    ensures InField(p, r)
  {
    (-k) % p
  }

  /** e(P, Q). In the exponent representation the pairing multiplies the
      two logarithms, which is the same operation as Scale. */
  function Pairing(p: int, e1: int, e2: int): (r: int)
    requires p >= 2
    ensures InField(p, r)
  {
    Scale(p, e1, e2)
  }

  /** Multiplication in the target group: in the exponent representation it
      adds logarithms, which is the same operation as GroupAdd. */
  function GtMul(p: int, t1: int, t2: int): (r: int)
    requires p >= 2
    ensures InField(p, r)
  {
    GroupAdd(p, t1, t2)
  }

  // ---------------------------------------------------------------------
  // setup

  function Max(a: nat, b: nat): nat {
    if a < b then b else a
  }

  /** ck_size = max(n, 2·|H| + 3). */
  function CkSize(n: nat, domainSize: nat): (k: nat)
    ensures k >= n && k >= 2 * domainSize + 3
    ensures k == n || k == 2 * domainSize + 3
  {
    Max(n, 2 * domainSize + 3)
  }

  /** The parameters are honest for KZG secret beta and Pedersen base
      h = eta·g1: g1 and g2 are the generators, xg2 = beta·g2, ck holds the
      powers beta^i·g1, and ck is long enough to commit to any polynomial
      of degree below 2·|H| + 4. */
  ghost predicate HonestSetup(p: int, setup: Setup, beta: int, eta: int)
    requires p >= 2
  {
    && setup.g1 == 1 && setup.g2 == 1
    && setup.xg2 == beta % p && setup.h == eta % p
    && Kzg.IsKeyFor(p, setup.ck.powersOfG, beta)
    && |setup.ck.powersOfG| >= 2 * setup.domain.size + 4
  }

  /** setup(n): a domain for n + 2 points from `newDomain` (the library's
      GeneralEvaluationDomain::new, which may refuse), a trusted KZG setup of
      degree max(n, ck_size) with secret beta, trimmed to ck_size, and the
      random Pedersen base h = eta·g1. The randomness beta, gamma and eta is
      passed in. */
  function MakeSetup(p: int, n: nat, newDomain: nat -> Option<Domain>, beta: int, gamma: int, eta: int)
    : (r: Result<Setup>)
    requires p >= 2
    ensures r.Err? <==> newDomain(n + 2).None?
    ensures r.Err? ==> r.abort == NoEvaluationDomain
    ensures r.Ok? ==>
      && r.value.domain == newDomain(n + 2).value
      && |r.value.ck.powersOfG| == CkSize(n, r.value.domain.size) + 1
      && |r.value.ck.powersOfG| >= n + 1
      && HonestSetup(p, r.value, beta, eta)
  {
    match newDomain(n + 2)
    case None => Err(NoEvaluationDomain)
    case Some(domain) =>
      var ckSize := CkSize(n, domain.size);
      var srs := Kzg.Setup(p, Max(n, ckSize), beta, gamma);
      TrimOfSetupInBounds(p, Max(n, ckSize), beta, gamma, ckSize);
      var (ck, vk) := Trim(srs, ckSize).value;
      TrimKeepsKey(p, srs, ckSize, beta);
      Ok(Setup(domain, ck.powersOfG[0], vk.h, vk.betaH, eta % p, ck))
  }

  /** When the domain routine always returns at least the requested size, the
      domain of the setup has room for n + 2 points. */
  lemma SetupDomainSize(p: int, n: nat, newDomain: nat -> Option<Domain>, beta: int, gamma: int, eta: int)
    requires p >= 2
    requires forall m: nat :: newDomain(m).Some? ==> newDomain(m).value.size >= m
    requires MakeSetup(p, n, newDomain, beta, gamma, eta).Ok?
    ensures MakeSetup(p, n, newDomain, beta, gamma, eta).value.domain.size >= n + 2
  {
    assert newDomain(n + 2).Some?;
  }

  // ---------------------------------------------------------------------
  // prove and verify

  /** C: the polynomial interpolating the entries over H, read as field
      elements and normalised. */
  function EntriesPoly(p: int, domain: Domain, ifft: Ifft, entries: seq<int>): (c: seq<int>)
    requires p >= 2
    ensures |c| <= |ifft(domain, entries)|
    ensures forall i :: 0 <= i < |c| ==> InField(p, c[i])
    ensures |c| == 0 || c[|c| - 1] != 0
  {
    Normalize(Reduce(p, ifft(domain, entries)))
  }

  /** q = (C - value) / (X - omega^index), the remainder dropped. */
  function QuotientPoly(p: int, setup: Setup, ifft: Ifft, entries: seq<int>, index: nat, value: int)
    : (q: seq<int>)
    requires p >= 2
    ensures var c := EntriesPoly(p, setup.domain, ifft, entries);
      |q| == 0 || |q| < |c|
    ensures forall i :: 0 <= i < |q| ==> InField(p, q[i])
  {
    var c := EntriesPoly(p, setup.domain, ifft, entries);
    Quotient(p, Sub(p, c, Normalize([value])), Element(p, setup.domain, index))
  }

  /** The transform interpolates the entries: C has at most |H| coefficients
      and takes value entries[j] at omega^j. */
  predicate Interpolates(p: int, domain: Domain, ifft: Ifft, entries: seq<int>)
    requires p >= 2
  {
    && |ifft(domain, entries)| <= domain.size
    && forall j :: 0 <= j < |entries| ==>
         Eval(p, EntriesPoly(p, domain, ifft, entries), Element(p, domain, j)) == entries[j]
  }

  /** prove: the Pedersen commitment cm to value with randomness r, the
      commitment to q, T = a^-1·q + s·h, z = a·(x - omega^index) in G2 and
      S = -r - s·z in G2. It aborts when q does not fit the key and when a is
      zero, in that order. The randomness r, a and s is passed in. */
  function Prove(p: int, setup: Setup, ifft: Ifft, entries: seq<int>, index: nat, value: int, r: int, a: int, s: int)
    : (res: Result<Proof>)
    requires IsPrime(p)
    requires InField(p, value) && InField(p, r) && InField(p, a) && InField(p, s)
    ensures var q := QuotientPoly(p, setup, ifft, entries, index, value);
      res.Ok? <==> NumCoefficients(q) <= |setup.ck.powersOfG| && a != 0
    ensures var q := QuotientPoly(p, setup, ifft, entries, index, value);
      res.Err? ==> res.abort == if NumCoefficients(q) > |setup.ck.powersOfG| then TooManyCoefficients else NotInvertible
  {
    var cm := GroupAdd(p, Scale(p, setup.g1, value), Scale(p, setup.h, r));
    var q := QuotientPoly(p, setup, ifft, entries, index, value);
    match Commit(p, q, setup.ck)
    case Err(e) => Err(e)
    case Ok(qComm) =>
      match Inverse(p, a)
      case None => Err(NotInvertible)
      case Some(aInv) =>
        var tComm := GroupAdd(p, Scale(p, qComm, aInv), Scale(p, setup.h, s));
        var zComm := GroupSub(p, Scale(p, setup.xg2, a), Scale(p, setup.g2, (a * Element(p, setup.domain, index)) % p));
        var sComm := GroupSub(p, Scale(p, setup.g2, Neg(p, r)), Scale(p, zComm, s));
        Ok(Proof(cm, zComm, tComm, sComm))
  }

  /** verify: commits to C and compares e(C - cm, g2) with
      e(T, z)·e(h, S). It aborts when C does not fit the key. */
  function Verify(p: int, setup: Setup, ifft: Ifft, entries: seq<int>, proof: Proof): (res: Result<bool>)
    requires p >= 2
    ensures res.Ok? <==> NumCoefficients(EntriesPoly(p, setup.domain, ifft, entries)) <= |setup.ck.powersOfG|
    ensures res.Err? ==> res.abort == TooManyCoefficients
  {
    match Commit(p, EntriesPoly(p, setup.domain, ifft, entries), setup.ck)
    case Err(e) => Err(e)
    case Ok(cComm) =>
      var left := Pairing(p, GroupSub(p, cComm, proof.cm), setup.g2);
      var right := GtMul(p, Pairing(p, proof.tComm, proof.zComm), Pairing(p, setup.h, proof.sComm));
      Ok(left == right)
  }

  // ---------------------------------------------------------------------
  // The exponents of the proof

  /** cm = value·g1 + r·h has exponent value + r·eta. */
  lemma PedersenExponent(p: int, value: int, r: int, eta: int)
    requires p >= 2
    ensures GroupAdd(p, Scale(p, 1, value), Scale(p, eta % p, r)) == (value + r * eta) % p
  {
    MulModLeft(eta, r, p);
    AddMod(value, eta * r, p);
  }

  /** z = a·xg2 - (a·omega^i)·g2 has exponent a·(x - omega^i). */
  lemma ZExponent(p: int, beta: int, a: int, c: int)
    requires p >= 2
    ensures GroupSub(p, Scale(p, beta % p, a), Scale(p, 1, (a * c) % p)) == (a * (beta - c)) % p
  {
    MulModLeft(beta, a, p);
    ModMod(a * c, p);
    SubMod(beta * a, a * c, p);
    assert beta * a - a * c == a * (beta - c);
  }

  /** T = a^-1·[q] + s·h has exponent a^-1·q(x) + s·eta. */
  lemma TExponent(p: int, q: int, aInv: int, eta: int, s: int)
    requires p >= 2
    ensures GroupAdd(p, Scale(p, q, aInv), Scale(p, eta % p, s)) == (aInv * q + s * eta) % p
  {
    MulModLeft(eta, s, p);
    AddMod(q * aInv, eta * s, p);
  }

  /** S = (-r)·g2 - s·z has exponent -r - s·z. */
  lemma SExponent(p: int, r: int, z: int, s: int)
    requires p >= 2
    ensures GroupSub(p, Scale(p, 1, Neg(p, r)), Scale(p, z, s)) == (-r - s * z) % p
  {
    ModMod(-r, p);
    SubMod(-r, z * s, p);
  }

  /** The honest proof, exponent by exponent: cm is Ped_r(value), T is
      a^-1·q(x) + s·eta for the inverse a^-1 of a, z is a·(x - omega^index)
      and S is -r - s·z. */
  lemma ProveExponents(p: int, setup: Setup, ifft: Ifft, entries: seq<int>, index: nat, value: int,
                       r: int, a: int, s: int, beta: int, eta: int)
    requires IsPrime(p) && HonestSetup(p, setup, beta, eta)
    requires InField(p, value) && InField(p, r) && InField(p, a) && InField(p, s)
    requires Prove(p, setup, ifft, entries, index, value, r, a, s).Ok?
    ensures var proof := Prove(p, setup, ifft, entries, index, value, r, a, s).value;
      var aInv := Inverse(p, a).value;
      var q := QuotientPoly(p, setup, ifft, entries, index, value);
      && (a * aInv) % p == 1
      && proof.cm == (value + r * eta) % p
      && proof.tComm == (aInv * Eval(p, q, beta) + s * eta) % p
      && proof.zComm == (a * (beta - Element(p, setup.domain, index))) % p
      && proof.sComm == (-r - s * proof.zComm) % p
  {
    var q := QuotientPoly(p, setup, ifft, entries, index, value);
    var aInv := Inverse(p, a).value;
    var c := Element(p, setup.domain, index);
    var proof := Prove(p, setup, ifft, entries, index, value, r, a, s).value;
    ProveFields(p, setup, ifft, entries, index, value, r, a, s);
    CommitIsEvaluation(p, q, setup.ck, beta);
    PedersenExponent(p, value, r, eta);
    TExponent(p, Eval(p, q, beta), aInv, eta, s);
    ZExponent(p, beta, a, c);
    SExponent(p, r, proof.zComm, s);
  }

  /** The fields of a produced proof, read off prove. */
  lemma ProveFields(p: int, setup: Setup, ifft: Ifft, entries: seq<int>, index: nat, value: int,
                    r: int, a: int, s: int)
    requires IsPrime(p)
    requires InField(p, value) && InField(p, r) && InField(p, a) && InField(p, s)
    requires Prove(p, setup, ifft, entries, index, value, r, a, s).Ok?
    ensures var proof := Prove(p, setup, ifft, entries, index, value, r, a, s).value;
      var qComm := Commit(p, QuotientPoly(p, setup, ifft, entries, index, value), setup.ck).value;
      var aInv := Inverse(p, a).value;
      && Commit(p, QuotientPoly(p, setup, ifft, entries, index, value), setup.ck).Ok?
      && Inverse(p, a).Some?
      && proof.cm == GroupAdd(p, Scale(p, setup.g1, value), Scale(p, setup.h, r))
      && proof.tComm == GroupAdd(p, Scale(p, qComm, aInv), Scale(p, setup.h, s))
      && proof.zComm == GroupSub(p, Scale(p, setup.xg2, a),
                                 Scale(p, setup.g2, (a * Element(p, setup.domain, index)) % p))
      && proof.sComm == GroupSub(p, Scale(p, setup.g2, Neg(p, r)), Scale(p, proof.zComm, s))
  {
  }

  /** Verification is the pairing equation in the exponent:
      C(x) - cm = T·z + eta·S. */
  lemma VerifyEquation(p: int, setup: Setup, ifft: Ifft, entries: seq<int>, proof: Proof, beta: int, eta: int)
    requires p >= 2 && HonestSetup(p, setup, beta, eta)
    requires Verify(p, setup, ifft, entries, proof).Ok?
    ensures var cPoly := EntriesPoly(p, setup.domain, ifft, entries);
      Verify(p, setup, ifft, entries, proof).value <==>
        (EvalInt(cPoly, beta) - proof.cm) % p == (proof.tComm * proof.zComm + eta * proof.sComm) % p
  {
    var cPoly := EntriesPoly(p, setup.domain, ifft, entries);
    CommitIsEvaluation(p, cPoly, setup.ck, beta);
    ModMod(EvalInt(cPoly, beta) - proof.cm, p);
    SubMod(EvalInt(cPoly, beta), proof.cm, p);
    ModMod(proof.cm, p);
    CongSub(EvalInt(cPoly, beta) % p, proof.cm, EvalInt(cPoly, beta) % p, proof.cm % p, p);
    MulModLeft(eta, proof.sComm, p);
    AddMod(proof.tComm * proof.zComm, eta * proof.sComm, p);
  }

  // ---------------------------------------------------------------------
  // Completeness

  /** The right-hand exponent of an honest proof: with z = a·(x - c),
      T = a^-1·Q + s·eta and S = -r - s·z, T·z + eta·S = Q·(x - c) - r·eta. */
  lemma RightExponent(p: int, q: int, a: int, aInv: int, beta: int, c: int, r: int, s: int, eta: int)
    requires p >= 2 && (a * aInv) % p == 1
    ensures var z := (a * (beta - c)) % p;
      var t := (aInv * q + s * eta) % p;
      var sc := (-r - s * z) % p;
      (t * z + eta * sc) % p == (q * (beta - c) - r * eta) % p
  {
    var zi := a * (beta - c);
    var ti := aInv * q + s * eta;
    var si := -r - s * zi;
    var z := zi % p;
    var t := ti % p;
    var sc := (-r - s * z) % p;
    ModMod(zi, p);
    ModMod(ti, p);
    ScalarCong(p, r, s, z, zi);
    SumOfProductsCong(p, t, z, sc, ti, zi, si, eta);
    Cancel(q, a, aInv, beta - c, s, eta, r);
    UnitCong(p, q * (beta - c), a * aInv, r * eta);
  }

  /** -r - s·z depends on z only through its residue. */
  lemma ScalarCong(p: int, r: int, s: int, z: int, z2: int)
    requires p >= 2 && z % p == z2 % p
    ensures ((-r - s * z) % p) % p == (-r - s * z2) % p
  {
    ModMod(-r - s * z, p);
    CongMul(s, z, s, z2, p);
    CongSub(-r, s * z, -r, s * z2, p);
  }

  /** t·z + eta·S depends on t, z and S only through their residues. */
  lemma SumOfProductsCong(p: int, t: int, z: int, sc: int, t2: int, z2: int, sc2: int, eta: int)
    requires p >= 2 && t % p == t2 % p && z % p == z2 % p && sc % p == sc2 % p
    ensures (t * z + eta * sc) % p == (t2 * z2 + eta * sc2) % p
  {
    CongMul(t, z, t2, z2, p);
    CongMul(eta, sc, eta, sc2, p);
    CongAdd(t * z, eta * sc, t2 * z2, eta * sc2, p);
  }

  /** Multiplying by a unit u ≡ 1 does not change the residue. */
  lemma UnitCong(p: int, x: int, u: int, y: int)
    requires p >= 2 && u % p == 1
    ensures (x * u - y) % p == (x - y) % p
  {
    ModOfResidue(1, p);
    CongMul(x, u, x, 1, p);
    CongSub(x * u, y, x, y, p);
  }

  /** The ring identity behind RightExponent: the s·eta terms cancel. */
  lemma Cancel(q: int, a: int, aInv: int, d: int, s: int, eta: int, r: int)
    ensures (aInv * q + s * eta) * (a * d) + eta * (-r - s * (a * d))
         == q * d * (a * aInv) - r * eta
  {
    assert (aInv * q + s * eta) * (a * d) == aInv * q * (a * d) + s * eta * (a * d);
    assert eta * (-r - s * (a * d)) == -(eta * r) - eta * (s * (a * d));
    assert aInv * q * (a * d) == q * d * (a * aInv);
  }

  /** The verification equation of an honest proof holds exactly when p
      divides the remainder C(c) - value, i.e. when value = C(c). */
  lemma EquationIffValue(p: int, cPoly: seq<int>, value: int, c: int, beta: int, r: int, eta: int)
    requires p >= 2 && InField(p, value) && InField(p, c)
    ensures var g := Sub(p, cPoly, Normalize([value]));
      var qx := Eval(p, Quotient(p, g, c), beta);
      ((EvalInt(cPoly, beta) - (value + r * eta)) % p == (qx * (beta - c) - r * eta) % p)
        <==> Eval(p, cPoly, c) == value
  {
    var g := Sub(p, cPoly, Normalize([value]));
    var qx := Eval(p, Quotient(p, g, c), beta);
    RemainderRelation(p, cPoly, value, c, beta);
    RemainderIff(p, EvalInt(cPoly, beta), value, qx * (beta - c), Eval(p, g, c), Eval(p, cPoly, c), r * eta);
  }

  /** The integer core of EquationIffValue: if e - value ≡ m + g(c) and
      g(c) = C(c) - value reduced, then e - value - k ≡ m - k exactly when
      C(c) = value. */
  lemma RemainderIff(p: int, e: int, value: int, m: int, gc: int, cc: int, k: int)
    requires p >= 2 && InField(p, value) && InField(p, cc)
    requires (e - value) % p == (m + gc) % p && gc == (cc - value) % p
    ensures ((e - (value + k)) % p == (m - k) % p) <==> cc == value
  {
    assert e - (value + k) == (e - value) - k;
    ShiftedEqIff(p, e - value, m, gc, k);
    ResidueEqIff(cc, value, p);
  }

  /** With g = C - value and q = g / (X - c): C(x) - value ≡ q(x)·(x - c) + g(c),
      and g(c) = C(c) - value. */
  lemma RemainderRelation(p: int, cPoly: seq<int>, value: int, c: int, beta: int)
    requires p >= 2 && InField(p, value)
    ensures var g := Sub(p, cPoly, Normalize([value]));
      var qx := Eval(p, Quotient(p, g, c), beta);
      && (EvalInt(cPoly, beta) - value) % p == (qx * (beta - c) + Eval(p, g, c)) % p
      && Eval(p, g, c) == (Eval(p, cPoly, c) - value) % p
  {
    var v := Normalize([value]);
    var g := Sub(p, cPoly, v);
    var qx := Eval(p, Quotient(p, g, c), beta);
    DivisionIdentity(p, g, c, beta);
    EvalSub(p, cPoly, v, beta);
    EvalSub(p, cPoly, v, c);
    EvalConstant(p, value, beta);
    EvalConstant(p, value, c);
    assert Eval(p, g, beta) == (Eval(p, cPoly, beta) - value) % p;
    ReducedDifference(p, EvalInt(cPoly, beta), value, Eval(p, g, beta), qx * (beta - c) + Eval(p, g, c));
  }

  /** If g(x) is C(x) - value reduced and also m reduced, then the unreduced
      C(x) - value is congruent to m. */
  lemma ReducedDifference(p: int, e: int, value: int, gx: int, m: int)
    requires p >= 2 && gx == (e % p - value) % p && gx == m % p
    ensures (e - value) % p == m % p
  {
    ModMod(e, p);
    CongSub(e, value, e % p, value, p);
  }

  /** If u ≡ w + e with e a field element, then u - k ≡ w - k exactly when e = 0. */
  lemma ShiftedEqIff(p: int, u: int, w: int, e: int, k: int)
    requires p >= 2 && InField(p, e) && u % p == (w + e) % p
    ensures ((u - k) % p == (w - k) % p) <==> e == 0
  {
    CongSub(u, w, w + e, w, p);
    ModOfResidue(e, p);
    assert (u - k) - (w - k) == u - w;
    CongIffDiff(u - k, w - k, p);
  }

  /** C fits a key with at least 2·|H| + 4 powers when the transform
      returns at most |H| coefficients. */
  lemma EntriesCommitFits(p: int, setup: Setup, ifft: Ifft, entries: seq<int>)
    requires p >= 2
    requires |ifft(setup.domain, entries)| <= setup.domain.size
    requires |setup.ck.powersOfG| >= 2 * setup.domain.size + 4
    ensures NumCoefficients(EntriesPoly(p, setup.domain, ifft, entries)) <= |setup.ck.powersOfG|
  {
  }

  /** So does the quotient q, which has fewer coefficients than C - value. */
  lemma QuotientCommitFits(p: int, setup: Setup, ifft: Ifft, entries: seq<int>, index: nat, value: int)
    requires p >= 2
    requires |ifft(setup.domain, entries)| <= setup.domain.size
    requires |setup.ck.powersOfG| >= 2 * setup.domain.size + 4
    ensures NumCoefficients(QuotientPoly(p, setup, ifft, entries, index, value)) <= |setup.ck.powersOfG|
  {
    var cPoly := EntriesPoly(p, setup.domain, ifft, entries);
    var g := Sub(p, cPoly, Normalize([value]));
    assert |SubInt(cPoly, Normalize([value]))| <= setup.domain.size + 1;
    assert |g| <= setup.domain.size + 1;
  }

  /** An honest proof under honest parameters is accepted exactly when the
      committed value is C(omega^index): arkworks' division drops the
      remainder, so a wrong value does not abort; it fails the pairing check.
      Proving aborts only for a = 0. */
  lemma HonestProofVerifiesIff(p: int, setup: Setup, ifft: Ifft, entries: seq<int>, index: nat, value: int,
                               r: int, a: int, s: int, beta: int, eta: int)
    requires IsPrime(p) && HonestSetup(p, setup, beta, eta)
    requires |ifft(setup.domain, entries)| <= setup.domain.size
    requires InField(p, value) && InField(p, r) && InField(p, a) && InField(p, s)
    ensures Prove(p, setup, ifft, entries, index, value, r, a, s).Ok? <==> a != 0
    ensures a != 0 ==>
      var proof := Prove(p, setup, ifft, entries, index, value, r, a, s).value;
      var cPoly := EntriesPoly(p, setup.domain, ifft, entries);
      Verify(p, setup, ifft, entries, proof) == Ok(value == Eval(p, cPoly, Element(p, setup.domain, index)))
  {
    QuotientCommitFits(p, setup, ifft, entries, index, value);
    EntriesCommitFits(p, setup, ifft, entries);
    if a != 0 {
      var proof := Prove(p, setup, ifft, entries, index, value, r, a, s).value;
      ProveExponents(p, setup, ifft, entries, index, value, r, a, s, beta, eta);
      VerifyEquation(p, setup, ifft, entries, proof, beta, eta);
      AcceptIffValue(p, setup, ifft, entries, index, value, r, a, Inverse(p, a).value, s, beta, eta, proof);
    }
  }

  /** The algebra of HonestProofVerifiesIff for a proof with the honest
      exponents. */
  lemma AcceptIffValue(p: int, setup: Setup, ifft: Ifft, entries: seq<int>, index: nat, value: int,
                       r: int, a: int, aInv: int, s: int, beta: int, eta: int, proof: Proof)
    requires p >= 2 && InField(p, value) && (a * aInv) % p == 1
    requires var q := QuotientPoly(p, setup, ifft, entries, index, value);
      && proof.cm == (value + r * eta) % p
      && proof.tComm == (aInv * Eval(p, q, beta) + s * eta) % p
      && proof.zComm == (a * (beta - Element(p, setup.domain, index))) % p
      && proof.sComm == (-r - s * proof.zComm) % p
    ensures var cPoly := EntriesPoly(p, setup.domain, ifft, entries);
      ((EvalInt(cPoly, beta) - proof.cm) % p == (proof.tComm * proof.zComm + eta * proof.sComm) % p)
        <==> value == Eval(p, cPoly, Element(p, setup.domain, index))
  {
    var cPoly := EntriesPoly(p, setup.domain, ifft, entries);
    var c := Element(p, setup.domain, index);
    var qx := Eval(p, QuotientPoly(p, setup, ifft, entries, index, value), beta);
    // the left exponent: cm is value + r·eta reduced
    ModMod(value + r * eta, p);
    CongSub(EvalInt(cPoly, beta), proof.cm, EvalInt(cPoly, beta), value + r * eta, p);
    // the right exponent
    RightExponent(p, qx, a, aInv, beta, c, r, s, eta);
    EquationIffValue(p, cPoly, value, c, beta, r, eta);
  }

  /** A proof made for one list, checked against another list: accepted
      exactly when the two interpolating polynomials agree at the secret
      beta. (That a changed list is then rejected except for the few beta
      where they agree is a probabilistic claim outside this model.) */
  lemma VerifyAgainstOtherList(p: int, setup: Setup, ifft: Ifft, entries: seq<int>, other: seq<int>,
                               index: nat, value: int, r: int, a: int, s: int, beta: int, eta: int)
    requires IsPrime(p) && HonestSetup(p, setup, beta, eta)
    requires |ifft(setup.domain, entries)| <= setup.domain.size
    requires |ifft(setup.domain, other)| <= setup.domain.size
    requires InField(p, r) && InField(p, a) && InField(p, s) && a != 0
    requires value == Eval(p, EntriesPoly(p, setup.domain, ifft, entries), Element(p, setup.domain, index))
    ensures Prove(p, setup, ifft, entries, index, value, r, a, s).Ok?
    ensures var proof := Prove(p, setup, ifft, entries, index, value, r, a, s).value;
      Verify(p, setup, ifft, other, proof) ==
        Ok(Eval(p, EntriesPoly(p, setup.domain, ifft, other), beta)
           == Eval(p, EntriesPoly(p, setup.domain, ifft, entries), beta))
  {
    QuotientCommitFits(p, setup, ifft, entries, index, value);
    EntriesCommitFits(p, setup, ifft, other);
    var proof := Prove(p, setup, ifft, entries, index, value, r, a, s).value;
    ProveExponents(p, setup, ifft, entries, index, value, r, a, s, beta, eta);
    var verdict := Verify(p, setup, ifft, other, proof);
    assert verdict.Ok?;
    VerifyEquation(p, setup, ifft, other, proof, beta, eta);
    AcceptOtherIff(p, setup, ifft, entries, other, index, value, r, a, Inverse(p, a).value, s, beta, eta, proof);
    assert verdict == Ok(verdict.value);
  }

  /** The algebra of VerifyAgainstOtherList. */
  lemma AcceptOtherIff(p: int, setup: Setup, ifft: Ifft, entries: seq<int>, other: seq<int>, index: nat,
                       value: int, r: int, a: int, aInv: int, s: int, beta: int, eta: int, proof: Proof)
    requires p >= 2 && InField(p, value) && (a * aInv) % p == 1
    requires value == Eval(p, EntriesPoly(p, setup.domain, ifft, entries), Element(p, setup.domain, index))
    requires var q := QuotientPoly(p, setup, ifft, entries, index, value);
      && proof.cm == (value + r * eta) % p
      && proof.tComm == (aInv * Eval(p, q, beta) + s * eta) % p
      && proof.zComm == (a * (beta - Element(p, setup.domain, index))) % p
      && proof.sComm == (-r - s * proof.zComm) % p
    ensures var cPoly := EntriesPoly(p, setup.domain, ifft, entries);
      var oPoly := EntriesPoly(p, setup.domain, ifft, other);
      ((EvalInt(oPoly, beta) - proof.cm) % p == (proof.tComm * proof.zComm + eta * proof.sComm) % p)
        <==> Eval(p, oPoly, beta) == Eval(p, cPoly, beta)
  {
    var cPoly := EntriesPoly(p, setup.domain, ifft, entries);
    var oPoly := EntriesPoly(p, setup.domain, ifft, other);
    var c := Element(p, setup.domain, index);
    var qx := Eval(p, QuotientPoly(p, setup, ifft, entries, index, value), beta);
    // the division is exact, so C(beta) - value is q(beta)·(beta - c)
    RemainderRelation(p, cPoly, value, c, beta);
    ResidueEqIff(Eval(p, cPoly, c), value, p);
    AcceptOtherAlgebra(p, EvalInt(oPoly, beta), EvalInt(cPoly, beta), value, qx, c,
                       r, a, aInv, s, beta, eta, proof);
  }

  /** AcceptOtherIff over the integer values o = O(beta) and cv = C(beta). */
  lemma AcceptOtherAlgebra(p: int, o: int, cv: int, value: int, qx: int, c: int,
                           r: int, a: int, aInv: int, s: int, beta: int, eta: int, proof: Proof)
    requires p >= 2 && (a * aInv) % p == 1
    requires (cv - value) % p == (qx * (beta - c)) % p
    requires proof.cm == (value + r * eta) % p
    requires proof.tComm == (aInv * qx + s * eta) % p
    requires proof.zComm == (a * (beta - c)) % p
    requires proof.sComm == (-r - s * proof.zComm) % p
    ensures ((o - proof.cm) % p == (proof.tComm * proof.zComm + eta * proof.sComm) % p)
      <==> o % p == cv % p
  {
    var k := value + r * eta;
    // the left exponent: cm is value + r·eta reduced
    ModMod(k, p);
    CongSub(o, proof.cm, o, k, p);
    // the right exponent is C(beta) - value - r·eta
    RightExponent(p, qx, a, aInv, beta, c, r, s, eta);
    CongSub(cv - value, r * eta, qx * (beta - c), r * eta, p);
    assert cv - value - r * eta == cv - k;
    ShiftCongIff(o, cv, k, p);
  }

  /** Subtracting the same k keeps congruence in both directions. */
  lemma ShiftCongIff(u: int, w: int, k: int, p: int)
    requires p >= 2
    ensures u % p == w % p <==> (u - k) % p == (w - k) % p
  {
    assert (u - k) - (w - k) == u - w;
    CongIffDiff(u, w, p);
    CongIffDiff(u - k, w - k, p);
  }

  /** Completeness: with parameters from setup, a transform that interpolates
      the entries, a nonzero a and the prover's own entry as value, the proof
      is produced and verify returns true. */
  lemma Completeness(p: int, n: nat, newDomain: nat -> Option<Domain>, beta: int, gamma: int, eta: int,
                     ifft: Ifft, entries: seq<int>, index: nat, r: int, a: int, s: int)
    requires IsPrime(p)
    requires MakeSetup(p, n, newDomain, beta, gamma, eta).Ok?
    requires Interpolates(p, MakeSetup(p, n, newDomain, beta, gamma, eta).value.domain, ifft, entries)
    requires index < |entries| && InField(p, entries[index])
    requires InField(p, r) && InField(p, a) && InField(p, s) && a != 0
    ensures var setup := MakeSetup(p, n, newDomain, beta, gamma, eta).value;
      && Prove(p, setup, ifft, entries, index, entries[index], r, a, s).Ok?
      && Verify(p, setup, ifft, entries, Prove(p, setup, ifft, entries, index, entries[index], r, a, s).value) == Ok(true)
  {
    var setup := MakeSetup(p, n, newDomain, beta, gamma, eta).value;
    HonestProofVerifiesIff(p, setup, ifft, entries, index, entries[index], r, a, s, beta, eta);
  }
}
