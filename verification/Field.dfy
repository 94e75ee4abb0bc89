/** Arithmetic in the prime field Z/pZ.

    Scalars of the prototype are elements of the BLS12-381 scalar field; the
    model keeps the modulus `p` as a parameter, so every result below holds
    for every prime p, that field included. Field elements are the canonical
    residues 0 <= v < p, and every operation reduces with Dafny's `%`, which
    for a positive modulus is the least non-negative residue. */
module Field {
  import opened Outcomes

  /** p is prime: at least 2 and with no divisor strictly between 1 and p. */
  ghost predicate IsPrime(p: int) {
    p >= 2 && forall d :: 2 <= d < p ==> !Divides(d, p)
  }

  predicate Divides(d: int, n: int)
    requires d > 0
  {
    n % d == 0
  }

  /** v is a canonical element of Z/pZ. */
  predicate InField(p: int, v: int) {
    0 <= v < p
  }

  /** x to the power i, reduced modulo p. */
  function Pow(p: int, x: int, i: nat): (r: int)
    requires p >= 2
    ensures InField(p, r)
  {
    if i == 0 then 1 else (x * Pow(p, x, i - 1)) % p
  }

  // ---------------------------------------------------------------------
  // Residues and congruences

  /** A positive multiple of a positive number is at least that number. */
  lemma MulAtLeast(m: int, p: int)
    requires m >= 1 && p > 0
    ensures m * p >= p
  {
    assert m * p == (m - 1) * p + p;
  }

  /** A non-positive multiple of a positive number is non-positive. */
  lemma MulAtMost(m: int, p: int)
    requires m <= 0 && p > 0
    ensures m * p <= 0
  {
    assert m * p == -((-m) * p);
  }

  /** The only multiple of p strictly between -p and p is 0. */
  lemma ZeroMultiple(m: int, p: int)
    requires p > 0 && -p < m * p < p
    ensures m == 0
  {
    if m >= 1 {
      MulAtLeast(m, p);
      assert false;
    } else if m <= -1 {
      MulAtLeast(-m, p);
      assert false;
    }
  }

  /** Euclidean division by a positive modulus has a unique quotient and remainder. */
  lemma ModUnique(n: int, p: int, q: int, r: int)
    requires p > 0 && 0 <= r < p && n == q * p + r
    ensures n % p == r && n / p == q
  {
    var q0, r0 := n / p, n % p;
    assert n == q0 * p + r0;
    assert (q - q0) * p == q * p - q0 * p;
    ZeroMultiple(q - q0, p);
  }

  /** A canonical residue is its own reduction. */
  lemma ModOfResidue(v: int, p: int)
    requires p > 0 && 0 <= v < p
    ensures v % p == v
  {
    ModUnique(v, p, 0, v);
  }

  /** Adding a multiple of p does not change the residue. */
  lemma ModShift(a: int, k: int, p: int)
    requires p > 0
    ensures (a + k * p) % p == a % p
  {
    var q := a / p;
    assert a == q * p + a % p;
    assert a + k * p == (q + k) * p + a % p;
    ModUnique(a + k * p, p, q + k, a % p);
  }

  /** Two integers with the same residue differ by a multiple of p. */
  lemma CongWitness(a: int, b: int, p: int)
    requires p > 0 && a % p == b % p
    ensures a == b + (a / p - b / p) * p
  {
    assert a == (a / p) * p + a % p;
    assert b == (b / p) * p + b % p;
    assert (a / p - b / p) * p == (a / p) * p - (b / p) * p;
  }

  lemma ModMod(a: int, p: int)
    requires p > 0
    ensures (a % p) % p == a % p
  {
    ModOfResidue(a % p, p);
  }

  lemma CongAdd(a: int, b: int, a2: int, b2: int, p: int)
    requires p > 0 && a % p == a2 % p && b % p == b2 % p
    ensures (a + b) % p == (a2 + b2) % p
  {
    CongWitness(a, a2, p);
    CongWitness(b, b2, p);
    var ka, kb := a / p - a2 / p, b / p - b2 / p;
    assert (ka + kb) * p == ka * p + kb * p;
    ModShift(a2 + b2, ka + kb, p);
  }

  lemma CongSub(a: int, b: int, a2: int, b2: int, p: int)
    requires p > 0 && a % p == a2 % p && b % p == b2 % p
    ensures (a - b) % p == (a2 - b2) % p
  {
    CongWitness(a, a2, p);
    CongWitness(b, b2, p);
    var ka, kb := a / p - a2 / p, b / p - b2 / p;
    assert (ka - kb) * p == ka * p - kb * p;
    ModShift(a2 - b2, ka - kb, p);
  }

  lemma CongMul(a: int, b: int, a2: int, b2: int, p: int)
    requires p > 0 && a % p == a2 % p && b % p == b2 % p
    ensures (a * b) % p == (a2 * b2) % p
  {
    CongWitness(a, a2, p);
    CongWitness(b, b2, p);
    var ka, kb := a / p - a2 / p, b / p - b2 / p;
    assert a == a2 + ka * p && b == b2 + kb * p;
    assert a * b == a * b2 + a * (kb * p);
    assert a * b2 == a2 * b2 + (ka * b2) * p;
    assert a * (kb * p) == (a * kb) * p;
    var k := ka * b2 + a * kb;
    assert a * b == a2 * b2 + k * p;
    ModShift(a2 * b2, k, p);
  }

  /** Reducing a factor first does not change the reduced product. */
  lemma MulModLeft(a: int, b: int, p: int)
    requires p > 0
    ensures ((a % p) * b) % p == (a * b) % p
  {
    ModMod(a, p);
    CongMul(a % p, b, a, b, p);
  }

  /** Reducing both summands first does not change the reduced sum. */
  lemma AddMod(a: int, b: int, p: int)
    requires p > 0
    ensures ((a % p) + (b % p)) % p == (a + b) % p
  {
    ModMod(a, p);
    ModMod(b, p);
    CongAdd(a % p, b % p, a, b, p);
  }

  /** Reducing both operands first does not change the reduced difference. */
  lemma SubMod(a: int, b: int, p: int)
    requires p > 0
    ensures ((a % p) - (b % p)) % p == (a - b) % p
  {
    ModMod(a, p);
    ModMod(b, p);
    CongSub(a % p, b % p, a, b, p);
  }

  /** a and b are congruent exactly when p divides a - b. */
  lemma CongIffDiff(a: int, b: int, p: int)
    requires p > 0
    ensures a % p == b % p <==> (a - b) % p == 0
  {
    if a % p == b % p {
      CongSub(a, b, b, b, p);
    }
    if (a - b) % p == 0 {
      CongAdd(b, a - b, b, 0, p);
    }
  }

  /** Two canonical residues are equal exactly when their difference is a multiple of p. */
  lemma ResidueEqIff(u: int, v: int, p: int)
    requires p > 0 && InField(p, u) && InField(p, v)
    ensures (u - v) % p == 0 <==> u == v
  {
    if (u - v) % p == 0 {
      ModUnique(u - v, p, (u - v) / p, 0);
      ZeroMultiple((u - v) / p, p);
    }
  }

  // ---------------------------------------------------------------------
  // Inversion

  /** Bezout coefficients: a * s + b * t == g, where g divides a and b. */
  datatype Bezout = Bezout(g: nat, s: int, t: int)

  /** Extended Euclidean algorithm. */
  function Egcd(a: nat, b: nat): (r: Bezout)
    ensures a * r.s + b * r.t == r.g
    ensures a > 0 || b > 0 ==> r.g > 0
    ensures r.g > 0 ==> Divides(r.g, a) && Divides(r.g, b)
    decreases b
  {
    if b == 0 then Bezout(a, 1, 0)
    else
      var e := Egcd(b, a % b);
      EgcdStep(a, b, e);
      Bezout(e.g, e.t, e.s - (a / b) * e.t)
  }

  /** One step of Euclid carries the Bezout identity and the common divisor back to (a, b). */
  lemma EgcdStep(a: nat, b: nat, e: Bezout)
    requires b > 0
    requires b * e.s + (a % b) * e.t == e.g
    requires e.g > 0 ==> Divides(e.g, b) && Divides(e.g, a % b)
    ensures a * e.t + b * (e.s - (a / b) * e.t) == e.g
    ensures e.g > 0 ==> Divides(e.g, a)
  {
    var k := a / b;
    assert a == k * b + a % b;
    calc {
      a * e.t + b * (e.s - k * e.t);
      (k * b + a % b) * e.t + b * e.s - b * k * e.t;
      b * e.s + (a % b) * e.t;
    }
    if e.g > 0 {
      var g := e.g;
      var u, v := b / g, (a % b) / g;
      assert b == u * g + 0;
      assert a % b == v * g + 0;
      assert a == (k * u + v) * g + 0 by {
        assert k * b == (k * u) * g;
      }
      ModUnique(a, g, k * u + v, 0);
    }
  }

  /** A positive multiple of d is at least d. */
  lemma DivisorAtMost(d: int, n: int)
    requires d > 0 && n > 0 && Divides(d, n)
    ensures d <= n
  {
    var q := n / d;
    assert n == q * d + 0;
    if q <= 0 {
      MulAtMost(q, d);
      assert false;
    }
    MulAtLeast(q, d);
  }

  /** The multiplicative inverse of a, which arkworks' `inverse()` returns as
      None for zero and Some otherwise. */
  function Inverse(p: int, a: int): (r: Option<int>)
    requires IsPrime(p) && InField(p, a)
    ensures r.None? <==> a == 0
    ensures r.Some? ==> InField(p, r.value) && (a * r.value) % p == 1
  {
    if a == 0 then None
    else
      var e := Egcd(a, p);
      InverseFromBezout(p, a, e);
      Some(e.s % p)
  }

  lemma InverseFromBezout(p: int, a: int, e: Bezout)
    requires IsPrime(p) && 0 < a < p
    requires e == Egcd(a, p)
    ensures (a * (e.s % p)) % p == 1
  {
    var g := e.g;
    assert g > 0;
    DivisorAtMost(g, a);
    assert g == 1;
    assert a * e.s == (-e.t) * p + 1;
    ModUnique(a * e.s, p, -e.t, 1);
    ModMod(e.s, p);
    CongMul(a, e.s % p, a, e.s, p);
  }
}
