/** Dense univariate polynomials over Z/pZ, as the prover and the verifier use
    them: a coefficient sequence, lowest degree first. Only the operations
    that the protocol applies are modelled: evaluation, the normalisation
    that `from_coefficients_vec` performs, subtraction, and division by a
    monic linear divisor X - c.

    Values are computed exactly over the integers (EvalInt) and reduced once
    (Eval); coefficients produced by an operation are reduced into the field
    (Reduce), as arkworks stores them. */
module Polynomial {
  import opened Field

  /** f(x) over the integers, by Horner's rule. */
  function EvalInt(f: seq<int>, x: int): int {
    if |f| == 0 then 0 else f[0] + x * EvalInt(f[1..], x)
  }

  /** f(x) in Z/pZ. */
  function Eval(p: int, f: seq<int>, x: int): (r: int)
    requires p >= 2
    ensures InField(p, r)
  {
    EvalInt(f, x) % p
  }

  /** Every coefficient reduced into Z/pZ. */
  function Reduce(p: int, f: seq<int>): (r: seq<int>)
    requires p >= 2
    ensures |r| == |f| && forall i :: 0 <= i < |f| ==> r[i] == f[i] % p
  {
    seq(|f|, i requires 0 <= i < |f| => f[i] % p)
  }

  /** Drops the zero coefficients at the high end (arkworks keeps dense
      polynomials without leading zeros; the zero polynomial is []). */
  function Normalize(f: seq<int>): (r: seq<int>)
    ensures |r| <= |f| && r == f[..|r|]
    ensures |r| == 0 || r[|r| - 1] != 0
    ensures forall i :: |r| <= i < |f| ==> f[i] == 0
  {
    if |f| == 0 || f[|f| - 1] != 0 then f else Normalize(f[..|f| - 1])
  }

  /** The number of coefficients a KZG commitment needs: degree + 1, where
      the zero polynomial has degree 0. */
  function NumCoefficients(f: seq<int>): (n: nat)
    ensures n >= 1 && n >= |Normalize(f)|
  {
    var g := Normalize(f);
    if |g| == 0 then 1 else |g|
  }

  function Head(f: seq<int>): int { if |f| == 0 then 0 else f[0] }

  function Tail(f: seq<int>): seq<int> { if |f| == 0 then [] else f[1..] }

  /** Coefficient-wise difference over the integers, the shorter operand
      padded with zeros. */
  function SubInt(f: seq<int>, g: seq<int>): (r: seq<int>)
    ensures |r| == if |f| < |g| then |g| else |f|
    decreases |f| + |g|
  {
    if |f| == 0 && |g| == 0 then []
    else [Head(f) - Head(g)] + SubInt(Tail(f), Tail(g))
  }

  /** f - g in Z/pZ[X], normalised: no longer than the longer operand, with
      canonical coefficients and no zero at the top. Its values are those of
      f - g (EvalSub). */
  function Sub(p: int, f: seq<int>, g: seq<int>): (r: seq<int>)
    requires p >= 2
    ensures |r| <= |f| || |r| <= |g|
    ensures forall i :: 0 <= i < |r| ==> InField(p, r[i])
    ensures |r| == 0 || r[|r| - 1] != 0
  {
    Normalize(Reduce(p, SubInt(f, g)))
  }

  /** Synthetic division by X - c over the integers: coefficient k of the
      quotient is f[k+1] + f[k+2]·c + f[k+3]·c² + ... The remainder f(c) is
      not part of the result. A constant or zero f has the zero quotient. */
  function QuotientInt(f: seq<int>, c: int): (q: seq<int>)
    ensures |q| == if |f| == 0 then 0 else |f| - 1
  {
    if |f| <= 1 then [] else [EvalInt(f[1..], c)] + QuotientInt(f[1..], c)
  }

  /** The quotient of f by the monic divisor X - c in Z/pZ[X], which is what
      long division returns once the remainder is dropped. */
  function Quotient(p: int, f: seq<int>, c: int): (q: seq<int>)
    requires p >= 2
    ensures |q| == if |f| == 0 then 0 else |f| - 1
    ensures forall i :: 0 <= i < |q| ==> InField(p, q[i])
  {
    Reduce(p, QuotientInt(f, c))
  }

  // ---------------------------------------------------------------------
  // Exact identities over the integers

  /** Zero coefficients at the high end do not change the value. */
  lemma {:induction false} EvalIntZeroTail(f: seq<int>, k: nat, x: int)
    requires k <= |f|
    requires forall i :: k <= i < |f| ==> f[i] == 0
    ensures EvalInt(f[..k], x) == EvalInt(f, x)
  {
    if |f| == 0 {
    } else if k == 0 {
      EvalIntZeroTail(f[1..], 0, x);
      assert f[1..][..0] == f[..0];
    } else {
      EvalIntZeroTail(f[1..], k - 1, x);
      assert f[..k][1..] == f[1..][..k - 1];
    }
  }

  /** Normalising a polynomial does not change its value anywhere. */
  lemma EvalNormalize(f: seq<int>, x: int)
    ensures EvalInt(Normalize(f), x) == EvalInt(f, x)
  {
    EvalIntZeroTail(f, |Normalize(f)|, x);
  }

  /** Horner's rule also holds for the zero polynomial, read as 0 + x·0. */
  lemma EvalHeadTail(f: seq<int>, x: int)
    ensures EvalInt(f, x) == Head(f) + x * EvalInt(Tail(f), x)
  {
  }

  /** The difference polynomial evaluates to the difference of the values. */
  lemma {:induction false} EvalSubInt(f: seq<int>, g: seq<int>, x: int)
    ensures EvalInt(SubInt(f, g), x) == EvalInt(f, x) - EvalInt(g, x)
    decreases |f| + |g|
  {
    if |f| == 0 && |g| == 0 {
    } else {
      var rest := SubInt(Tail(f), Tail(g));
      assert SubInt(f, g)[1..] == rest;
      EvalSubInt(Tail(f), Tail(g), x);
      EvalHeadTail(f, x);
      EvalHeadTail(g, x);
      assert x * EvalInt(rest, x) == x * EvalInt(Tail(f), x) - x * EvalInt(Tail(g), x);
    }
  }

  /** Division by X - c over the integers: f(x) = q(x)·(x - c) + f(c). */
  lemma {:induction false} QuotientIntIdentity(f: seq<int>, c: int, x: int)
    ensures EvalInt(f, x) == EvalInt(QuotientInt(f, c), x) * (x - c) + EvalInt(f, c)
  {
    if |f| <= 1 {
      if |f| == 1 {
        assert f[1..] == [];
      }
    } else {
      var t := f[1..];
      var q := QuotientInt(f, c);
      QuotientIntIdentity(t, c, x);
      assert q[1..] == QuotientInt(t, c);
      DivisionStep(f[0], x, c, EvalInt(t, c), EvalInt(QuotientInt(t, c), x), EvalInt(t, x));
    }
  }

  /** The ring identity behind one step of QuotientIntIdentity: with
      t(x) = e·(x - c) + t(c), f0 + x·t(x) = (t(c) + x·e)·(x - c) + (f0 + c·t(c)). */
  lemma DivisionStep(f0: int, x: int, c: int, tc: int, e: int, tx: int)
    requires tx == e * (x - c) + tc
    ensures f0 + x * tx == (tc + x * e) * (x - c) + (f0 + c * tc)
  {
    assert x * tx == x * (e * (x - c)) + x * tc;
    assert (tc + x * e) * (x - c) == tc * (x - c) + (x * e) * (x - c);
  }

  // ---------------------------------------------------------------------
  // Reduction into Z/pZ

  /** Reducing the coefficients does not change the value in Z/pZ. */
  lemma {:induction false} EvalReduce(p: int, f: seq<int>, x: int)
    requires p >= 2
    ensures Eval(p, Reduce(p, f), x) == Eval(p, f, x)
  {
    if |f| > 0 {
      var r := Reduce(p, f);
      assert r[1..] == Reduce(p, f[1..]);
      EvalReduce(p, f[1..], x);
      ModMod(f[0], p);
      HornerCong(p, r[0], f[0], x, EvalInt(r[1..], x), EvalInt(f[1..], x));
    }
  }

  /** One Horner step respects congruence modulo p. */
  lemma HornerCong(p: int, c: int, c2: int, x: int, e: int, e2: int)
    requires p >= 2 && c % p == c2 % p && e % p == e2 % p
    ensures (c + x * e) % p == (c2 + x * e2) % p
  {
    CongMul(x, e, x, e2, p);
    CongAdd(c, x * e, c2, x * e2, p);
  }

  /** Reducing and then normalising keeps the value in Z/pZ. */
  lemma EvalCanonical(p: int, d: seq<int>, x: int)
    requires p >= 2
    ensures Eval(p, Normalize(Reduce(p, d)), x) == Eval(p, d, x)
  {
    EvalNormalize(Reduce(p, d), x);
    EvalReduce(p, d, x);
  }

  /** The integer difference polynomial, read in Z/pZ. */
  lemma EvalSubIntMod(p: int, f: seq<int>, g: seq<int>, x: int)
    requires p >= 2
    ensures Eval(p, SubInt(f, g), x) == (Eval(p, f, x) - Eval(p, g, x)) % p
  {
    EvalSubInt(f, g, x);
    SubMod(EvalInt(f, x), EvalInt(g, x), p);
  }

  /** Subtraction in Z/pZ[X] evaluates to the difference of the values. */
  lemma EvalSub(p: int, f: seq<int>, g: seq<int>, x: int)
    requires p >= 2
    ensures Eval(p, Sub(p, f, g), x) == (Eval(p, f, x) - Eval(p, g, x)) % p
  {
    EvalCanonical(p, SubInt(f, g), x);
    EvalSubIntMod(p, f, g, x);
  }

  /** Division by X - c in Z/pZ[X]: f(x) = q(x)·(x - c) + f(c) at every point x. */
  lemma DivisionIdentity(p: int, f: seq<int>, c: int, x: int)
    requires p >= 2
    ensures Eval(p, f, x) == (Eval(p, Quotient(p, f, c), x) * (x - c) + Eval(p, f, c)) % p
  {
    var qi := QuotientInt(f, c);
    QuotientIntIdentity(f, c, x);
    EvalReduce(p, qi, x);
    ModMod(EvalInt(qi, x), p);
    ModMod(EvalInt(f, c), p);
    CongMul(EvalInt(qi, x), x - c, Eval(p, qi, x), x - c, p);
    CongAdd(EvalInt(qi, x) * (x - c), EvalInt(f, c), Eval(p, qi, x) * (x - c), Eval(p, f, c), p);
  }

  /** A constant polynomial built from a field element evaluates to it. */
  lemma EvalConstant(p: int, v: int, x: int)
    requires p >= 2 && InField(p, v)
    ensures Eval(p, Normalize([v]), x) == v
  {
    EvalNormalize([v], x);
    assert [v][1..] == [];
    ModOfResidue(v, p);
  }

  /** The quotient of f - v by X - c is exact, i.e. q·(X - c) = f - v at every
      point, exactly when v is the value of f at c. */
  lemma ExactDivisionIff(p: int, f: seq<int>, v: int, c: int)
    requires p >= 2 && InField(p, v)
    ensures var g := Sub(p, f, Normalize([v]));
            var q := Quotient(p, g, c);
            (forall x :: (Eval(p, q, x) * (x - c)) % p == Eval(p, g, x)) <==> Eval(p, f, c) == v
  {
    var g := Sub(p, f, Normalize([v]));
    var q := Quotient(p, g, c);
    EvalConstant(p, v, c);
    EvalSub(p, f, Normalize([v]), c);
    ResidueEqIff(Eval(p, f, c), v, p);
    if Eval(p, f, c) == v {
      forall x
        ensures (Eval(p, q, x) * (x - c)) % p == Eval(p, g, x)
      {
        DivisionIdentity(p, g, c, x);
      }
    } else {
      assert Eval(p, q, c) * (c - c) == 0;
      DivisionIdentity(p, g, c, c);
    }
  }
}
