/** The KZG10 parameter types of arkworks' polynomial-commitment library, in
    the exponent model used throughout: a group element is represented by its
    discrete logarithm in Z/pZ. G1 logarithms are taken to the base of the
    SRS's first power g, G2 logarithms to the base of the SRS's h, so both have
    logarithm 1; a pairing multiplies logarithms.

    The library itself is not part of this model. Setup below is its trusted
    setup written in that representation, so that the size arithmetic of the
    protocol's setup can be checked against it. */
module Kzg {
  import opened Field

  /** UniversalParams: powers_of_g[i] = beta^i·g, powers_of_gamma_g keyed by
      i, h and beta_h = beta·h, and the prepared (precomputed) forms of h and
      beta_h. */
  datatype UniversalParams = UniversalParams(
    powersOfG: seq<int>,
    powersOfGammaG: map<nat, int>,
    h: int,
    betaH: int,
    preparedH: int,
    preparedBetaH: int)

  /** Powers: the commitment key. */
  datatype Powers = Powers(powersOfG: seq<int>, powersOfGammaG: seq<int>)

  /** VerifierKey. */
  datatype VerifierKey = VerifierKey(
    g: int,
    gammaG: int,
    h: int,
    betaH: int,
    preparedH: int,
    preparedBetaH: int)

  /** KZG10::setup(max_degree, ..) with secret beta and blinding generator
      gamma·g: max_degree + 1 powers of g and max_degree + 2 powers of gamma·g. */
  function Setup(p: int, maxDegree: nat, beta: int, gamma: int): (srs: UniversalParams)
    requires p >= 2
    ensures |srs.powersOfG| == maxDegree + 1
    ensures forall i :: 0 <= i < |srs.powersOfG| ==> srs.powersOfG[i] == Pow(p, beta, i)
    ensures forall i: nat :: i <= maxDegree + 1 ==> i in srs.powersOfGammaG
    ensures srs.h == 1 && srs.betaH == beta % p
  {
    UniversalParams(
      seq(maxDegree + 1, i requires 0 <= i => Pow(p, beta, i)),
      map i: nat | i <= maxDegree + 1 :: (gamma * Pow(p, beta, i)) % p,
      1,
      beta % p,
      1,
      beta % p)
  }

  /** A commitment key for secret beta: entry i is beta^i, i.e. beta^i·g. */
  ghost predicate IsKeyFor(p: int, powersOfG: seq<int>, beta: int)
    requires p >= 2
  {
    forall i :: 0 <= i < |powersOfG| ==> powersOfG[i] == Pow(p, beta, i)
  }
}
