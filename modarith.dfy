/**
  Modular exponentiation over unbounded naturals: the arithmetic that
  libtommath's mp_exptmod performs for the Diffie-Hellman key exchange.
 */
module ModArith {
  import opened Outcomes

  /** b raised to the e-th power; the reference definition of exponentiation. */
  function Pow(b: nat, e: nat): (r: nat)
    ensures b > 0 ==> r > 0
    decreases e
  {
    if e == 0 then 1 else b * Pow(b, e - 1)
  }

  /** The result of mp_exptmod(b, e, m): b^e mod m, or MP_VAL when m is not positive. */
  function ExptMod(b: nat, e: nat, m: nat): (r: Result<nat>)
    ensures r.Ok? <==> m > 0
    ensures r.Ok? ==> r.value < m
  {
    if m == 0 then Err(InvalidModulus) else Ok(Pow(b, e) % m)
  }

  // ---------------------------------------------------------------------------
  // Arithmetic facts about division, remainder and powers
  // ---------------------------------------------------------------------------

  /** A non-zero integer multiple of m is at least m in magnitude. */
  lemma {:induction false} MulMagnitude(d: int, m: int)
    requires m > 0
    ensures d >= 1 ==> d * m >= m
    ensures d <= -1 ==> d * m <= -m
  {
    if d >= 1 {
      assert d * m == (d - 1) * m + m;
    } else if d <= -1 {
      assert d * m == (d + 1) * m - m;
    }
  }

  /** Division with remainder is unique. */
  lemma {:induction false} DivModUnique(a: int, m: int, q: int, r: int)
    requires m > 0 && 0 <= r < m && a == q * m + r
    ensures a % m == r && a / m == q
  {
    var q0, r0 := a / m, a % m;
    var d := q - q0;
    assert d * m == r0 - r by {
      assert q * m - q0 * m == d * m;
    }
    MulMagnitude(d, m);
  }

  /** Adding a multiple of m does not change the remainder modulo m. */
  lemma {:induction false} ModAddMultiple(a: int, k: int, m: int)
    requires m > 0
    ensures (a + k * m) % m == a % m
  {
    DivModUnique(a + k * m, m, a / m + k, a % m);
  }

  /** Reducing the left factor modulo m first does not change a product's remainder. */
  lemma {:induction false} MulModLeft(a: nat, b: nat, m: nat)
    requires m > 0
    ensures (a * b) % m == ((a % m) * b) % m
  {
    var q := a / m;
    assert a == q * m + a % m;
    assert a * b == (a % m) * b + (q * b) * m;
    ModAddMultiple((a % m) * b, q * b, m);
  }

  /** Reducing either factor modulo m first does not change a product's remainder. */
  lemma {:induction false} MulModBoth(a: nat, b: nat, m: nat)
    requires m > 0
    ensures (a * b) % m == ((a % m) * (b % m)) % m
  {
    MulModLeft(a, b, m);
    MulModLeft(b, a % m, m);
    assert (a % m) * b == b * (a % m);
    assert (b % m) * (a % m) == (a % m) * (b % m);
  }

  /** Reducing the left summand modulo m first does not change a sum's remainder. */
  lemma {:induction false} AddModLeft(a: nat, b: nat, m: nat)
    requires m > 0
    ensures (a + b) % m == ((a % m) + b) % m
  {
    assert a == (a / m) * m + a % m;
    ModAddMultiple((a % m) + b, a / m, m);
  }

  /** Powers of a base above one grow with the exponent. */
  lemma {:induction false} PowMonotone(b: nat, e1: nat, e2: nat)
    requires b > 0 && e1 <= e2
    ensures Pow(b, e1) <= Pow(b, e2)
  {
    if e1 < e2 {
      PowMonotone(b, e1, e2 - 1);
      assert Pow(b, e2) == b * Pow(b, e2 - 1) >= Pow(b, e2 - 1);
    }
  }

  /**
    Associativity of multiplication as a separate fact: stated inline, the
    nonlinear step costs the caller's proof an order of magnitude more.
   */
  lemma {:induction false} MulAssoc(a: int, b: int, c: int)
    ensures a * (b * c) == (a * b) * c
  {}

  lemma {:induction false} PowAdd(b: nat, e1: nat, e2: nat)
    ensures Pow(b, e1 + e2) == Pow(b, e1) * Pow(b, e2)
    decreases e1
  {
    if e1 > 0 {
      PowAdd(b, e1 - 1, e2);
      var p, q := Pow(b, e1 - 1), Pow(b, e2);
      assert Pow(b, e1 + e2) == b * Pow(b, e1 - 1 + e2);
      assert Pow(b, e1) == b * p;
      MulAssoc(b, p, q);
    }
  }

  lemma {:induction false} PowMul(b: nat, e1: nat, e2: nat)
    ensures Pow(b, e1 * e2) == Pow(Pow(b, e1), e2)
    decreases e2
  {
    if e2 > 0 {
      PowMul(b, e1, e2 - 1);
      assert e1 * e2 == e1 * (e2 - 1) + e1;
      var q, f := Pow(b, e1), e1 * (e2 - 1);
      PowAdd(b, f, e1);
      var p := Pow(b, f);
      assert Pow(q, e2) == q * Pow(q, e2 - 1);
      assert p * q == q * p;
    }
  }

  /** Reducing the base modulo m first does not change a power's remainder. */
  lemma {:induction false} PowMod(b: nat, e: nat, m: nat)
    requires m > 0
    ensures Pow(b % m, e) % m == Pow(b, e) % m
    decreases e
  {
    if e > 0 {
      var c := b % m;
      var p, q := Pow(c, e - 1), Pow(b, e - 1);
      PowMod(b, e - 1, m);
      assert p % m == q % m;
      DivModUnique(c, m, 0, c);
      MulModBoth(c, p, m);
      MulModBoth(b, q, m);
      assert (c * p) % m == (b * q) % m;
    }
  }

  /** One step of square-and-multiply: x^e = (x*x)^(e/2) * x^(e mod 2). */
  lemma {:induction false} PowHalve(x: nat, e: nat)
    ensures e % 2 == 1 ==> Pow(x, e) == Pow(x * x, e / 2) * x
    ensures e % 2 == 0 ==> Pow(x, e) == Pow(x * x, e / 2)
  {
    var h := e / 2;
    assert Pow(x, 2) == x * x;
    PowMul(x, 2, h);
    PowAdd(x, 2 * h, e % 2);
  }

  /** Products of congruent factors are congruent. */
  lemma {:induction false} MulModCongruent(a: nat, b: nat, c: nat, d: nat, m: nat)
    requires m > 0 && a % m == c % m && b % m == d % m
    ensures (a * b) % m == (c * d) % m
  {
    MulModBoth(a, b, m);
    MulModBoth(c, d, m);
  }

  /** The square-and-multiply loop keeps r * x^k mod m invariant. */
  lemma {:induction false} SquareMultiplyStep(r: nat, x: nat, k: nat, m: nat)
    requires m > 0 && k > 0
    ensures (r * Pow(x, k)) % m
         == ((if k % 2 == 1 then (r * x) % m else r) * Pow((x * x) % m, k / 2)) % m
  {
    var h, xx := k / 2, x * x;
    var y, z := Pow(xx, h), Pow(xx % m, h);
    PowHalve(x, k);
    PowMod(xx, h, m);
    if k % 2 == 1 {
      OddStep(r, x, y, z, m, Pow(x, k));
    } else {
      MulModCongruent(r, z, r, y, m);
    }
  }

  /** The odd case of a square-and-multiply step, over opaque powers y and z. */
  lemma {:induction false} OddStep(r: nat, x: nat, y: nat, z: nat, m: nat, p: nat)
    requires m > 0 && z % m == y % m && p == y * x
    ensures (r * p) % m == (((r * x) % m) * z) % m
  {
    var r' := (r * x) % m;
    DivModUnique(r', m, 0, r');
    MulModCongruent(r', z, r * x, y, m);
    assert r * p == (r * x) * y;
  }

  /**
    mp_exptmod: computes b^e mod m by binary (square-and-multiply)
    exponentiation, and fails with MP_VAL when the modulus is not positive.
   */
  method ModExp(b: nat, e: nat, m: nat) returns (r: Result<nat>)
    ensures r == ExptMod(b, e, m)
  {
    if m == 0 {
      return Err(InvalidModulus);
    }
    var acc: nat := 1 % m;
    var x: nat := b % m;
    var k: nat := e;
    PowMod(b, e, m);
    MulModLeft(1, Pow(x, k), m);
    assert 1 * Pow(x, k) == Pow(x, k);
    while k > 0
      invariant acc < m && x < m
      invariant (acc * Pow(x, k)) % m == Pow(b, e) % m
      decreases k
    {
      SquareMultiplyStep(acc, x, k, m);
      if k % 2 == 1 {
        acc := (acc * x) % m;
      }
      x := (x * x) % m;
      k := k / 2;
    }
    assert acc * Pow(x, k) == acc;
    DivModUnique(acc, m, 0, acc);
    return Ok(acc);
  }

  /** b^(a*c) can be computed either way round, with reductions modulo m in between. */
  lemma {:induction false} PowModCommute(g: nat, a: nat, c: nat, m: nat)
    requires m > 0
    ensures Pow(Pow(g, a) % m, c) % m == Pow(g, a * c) % m
    ensures Pow(Pow(g, c) % m, a) % m == Pow(g, a * c) % m
  {
    PowMod(Pow(g, a), c, m);
    PowMul(g, a, c);
    PowMod(Pow(g, c), a, m);
    PowMul(g, c, a);
    assert c * a == a * c;
  }
}
