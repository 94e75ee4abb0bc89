/** The helpers of src/tools.rs: trimming a universal SRS down to the degree
    the protocol needs, and committing to a polynomial. */
module Tools {
  import opened Outcomes
  import opened Field
  import opened Polynomial
  import opened Kzg

  /** The degree trim actually keeps: 1 is bumped to 2, anything else is kept. */
  function TrimmedDegree(supportedDegree: nat): (d: nat)
    ensures d != 1 && d >= supportedDegree
    ensures d != supportedDegree ==> supportedDegree == 1 && d == 2
  {
    if supportedDegree == 1 then supportedDegree + 1 else supportedDegree
  }

  /** trim: keeps powers 0..=d of both power sequences and assembles the
      verifier key from element 0 and the copied h, beta_h and their prepared
      forms. It aborts when powers_of_g has no index d (the slice) or a key
      0..=d is missing from powers_of_gamma_g (the lookup). */
  function Trim(srs: UniversalParams, supportedDegree: nat): (r: Result<(Powers, VerifierKey)>)
    ensures supportedDegree == 1 ==> TrimmedDegree(supportedDegree) == 2
    ensures supportedDegree != 1 ==> TrimmedDegree(supportedDegree) == supportedDegree
    ensures var d := TrimmedDegree(supportedDegree);
      r.Ok? <==> d < |srs.powersOfG| && forall i: nat :: i <= d ==> i in srs.powersOfGammaG
    ensures var d := TrimmedDegree(supportedDegree);
      r.Err? ==> r.abort == if d < |srs.powersOfG| then MissingGammaPower else DegreeOutOfRange
    ensures r.Ok? ==>
      var d := TrimmedDegree(supportedDegree);
      var (powers, vk) := r.value;
      && |powers.powersOfG| == d + 1
      && (forall i :: 0 <= i <= d ==> powers.powersOfG[i] == srs.powersOfG[i])
      && |powers.powersOfGammaG| == d + 1
      && (forall i: nat :: i <= d ==> powers.powersOfGammaG[i] == srs.powersOfGammaG[i])
      && vk.g == srs.powersOfG[0] && vk.gammaG == srs.powersOfGammaG[0]
      && vk.h == srs.h && vk.betaH == srs.betaH
      && vk.preparedH == srs.preparedH && vk.preparedBetaH == srs.preparedBetaH
  {
    var d := TrimmedDegree(supportedDegree);
    if d >= |srs.powersOfG| then Err(DegreeOutOfRange)
    else if exists i: nat :: i <= d && i !in srs.powersOfGammaG then Err(MissingGammaPower)
    else
      var powers := Powers(
        srs.powersOfG[..d + 1],
        seq(d + 1, i requires 0 <= i <= d => srs.powersOfGammaG[i]));
      var vk := VerifierKey(
        srs.powersOfG[0],
        srs.powersOfGammaG[0],
        srs.h,
        srs.betaH,
        srs.preparedH,
        srs.preparedBetaH);
      Ok((powers, vk))
  }

  /** The multi-scalar product sum coeffs[i]·bases[i], over the integers. */
  function MsmInt(coeffs: seq<int>, bases: seq<int>): int
    requires |coeffs| <= |bases|
  {
    if |coeffs| == 0 then 0 else coeffs[0] * bases[0] + MsmInt(coeffs[1..], bases[1..])
  }

  /** commit: KZG10::commit with no hiding bound and no rng, keeping the
      commitment and dropping the (zero) randomness. The library refuses a
      polynomial with more coefficients than the key has powers; otherwise the
      commitment is sum coeff_i·powers_of_g[i]. */
  function Commit(p: int, poly: seq<int>, ck: Powers): (r: Result<int>)
    requires p >= 2
    ensures r.Ok? <==> NumCoefficients(poly) <= |ck.powersOfG|
    ensures r.Err? ==> r.abort == TooManyCoefficients
    ensures r.Ok? ==> InField(p, r.value)
  {
    var coeffs := Normalize(poly);
    if NumCoefficients(poly) > |ck.powersOfG| then Err(TooManyCoefficients)
    else Ok(MsmInt(coeffs, ck.powersOfG) % p)
  }

  // ---------------------------------------------------------------------
  // Properties

  /** The multi-scalar product against bases m·beta^i is m·f(beta). */
  lemma {:induction false} MsmIsScaledEval(p: int, coeffs: seq<int>, bases: seq<int>, beta: int, m: int)
    requires p >= 2 && |coeffs| <= |bases|
    requires forall i :: 0 <= i < |coeffs| ==> bases[i] % p == (m * Pow(p, beta, i)) % p
    ensures MsmInt(coeffs, bases) % p == (m * EvalInt(coeffs, beta)) % p
  {
    if |coeffs| > 0 {
      var c', b' := coeffs[1..], bases[1..];
      forall i | 0 <= i < |c'|
        ensures b'[i] % p == (m * beta * Pow(p, beta, i)) % p
      {
        assert b'[i] == bases[i + 1];
        ModMod(beta * Pow(p, beta, i), p);
        CongMul(m, Pow(p, beta, i + 1), m, beta * Pow(p, beta, i), p);
        assert m * (beta * Pow(p, beta, i)) == m * beta * Pow(p, beta, i);
      }
      MsmIsScaledEval(p, c', b', beta, m * beta);
      assert bases[0] % p == m % p;
      MsmStep(p, coeffs[0], bases[0], m, beta, MsmInt(c', b'), EvalInt(c', beta));
    }
  }

  /** The arithmetic of one step of MsmIsScaledEval. */
  lemma MsmStep(p: int, c0: int, b0: int, m: int, beta: int, rest: int, e: int)
    requires p >= 2 && b0 % p == m % p && rest % p == (m * beta * e) % p
    ensures (c0 * b0 + rest) % p == (m * (c0 + beta * e)) % p
  {
    CongMul(c0, b0, c0, m, p);
    CongAdd(c0 * b0, rest, c0 * m, m * beta * e, p);
    assert c0 * m + m * beta * e == m * (c0 + beta * e);
  }

  /** A commitment under a key for secret beta is the polynomial's value at
      beta: KZG10 commits to f as f(beta)·g. */
  lemma CommitIsEvaluation(p: int, poly: seq<int>, ck: Powers, beta: int)
    requires p >= 2 && IsKeyFor(p, ck.powersOfG, beta)
    requires NumCoefficients(poly) <= |ck.powersOfG|
    ensures Commit(p, poly, ck) == Ok(Eval(p, poly, beta))
  {
    var coeffs := Normalize(poly);
    forall i | 0 <= i < |coeffs|
      ensures ck.powersOfG[i] % p == (1 * Pow(p, beta, i)) % p
    {
      ModMod(Pow(p, beta, i), p);
    }
    MsmIsScaledEval(p, coeffs, ck.powersOfG, beta, 1);
    EvalNormalize(poly, beta);
  }

  /** Trimming a key for secret beta gives a key for the same secret, with
      generator g at index 0 and beta_h still beta·h. */
  lemma TrimKeepsKey(p: int, srs: UniversalParams, supportedDegree: nat, beta: int)
    requires p >= 2 && IsKeyFor(p, srs.powersOfG, beta)
    requires Trim(srs, supportedDegree).Ok?
    ensures var (ck, vk) := Trim(srs, supportedDegree).value;
      && IsKeyFor(p, ck.powersOfG, beta)
      && ck.powersOfG[0] == 1 && vk.g == 1
  {
  }

  /** Trimming the output of the trusted setup of degree D to any degree d
      with d <= D (and D >= 2 when d is 1) never aborts. */
  lemma TrimOfSetupInBounds(p: int, maxDegree: nat, beta: int, gamma: int, supportedDegree: nat)
    requires p >= 2 && supportedDegree <= maxDegree && (supportedDegree == 1 ==> maxDegree >= 2)
    ensures Trim(Kzg.Setup(p, maxDegree, beta, gamma), supportedDegree).Ok?
  {
  }
}
