/** Arithmetic modulo m on natural numbers, as the bignum library provides it. */
module ModArith {
  import opened Wrappers

  lemma {:induction false} ModOfMultiple(m: nat, k: nat, r: nat)
    requires m > 0
    ensures (m * k + r) % m == r % m
    decreases k
  {
    if k > 0 {
      ModOfMultiple(m, k - 1, r);
      assert m * k + r == (m * (k - 1) + r) + m;
      ModPlusModulus(m * (k - 1) + r, m);
    } else {
      assert m * k == 0;
    }
  }

  lemma ModPlusModulus(a: nat, m: nat)
    requires m > 0
    ensures (a + m) % m == a % m
  {
    var q, r := a / m, a % m;
    assert a + m == m * (q + 1) + r;
    UniqueRemainder(a + m, m, q + 1, r);
  }

  lemma UniqueRemainder(a: nat, m: nat, q: nat, r: nat)
    requires m > 0 && a == m * q + r && r < m
    ensures a % m == r && a / m == q
  {
    var q' := a / m;
    if q' < q {
      Monotone(m, q' + 1, q);
    } else if q < q' {
      Monotone(m, q + 1, q');
    }
  }

  lemma Monotone(m: nat, x: nat, y: nat)
    requires x <= y
    ensures m * x <= m * y
  {
    assert m * y == m * x + m * (y - x);
  }

  lemma Split(a: nat, m: nat)
    requires m > 0
    ensures a == m * (a / m) + a % m
  {
  }

  /** A factor may be reduced first. */
  lemma {:induction false} MulModLeft(a: nat, b: nat, m: nat)
    requires m > 0
    ensures (a % m * b) % m == (a * b) % m
  {
    Split(a, m);
    var k, r := a / m, a % m;
    assert a * b == m * (k * b) + r * b by {
      assert (m * k + r) * b == m * k * b + r * b;
    }
    ModOfMultiple(m, k * b, r * b);
  }

  lemma {:induction false} MulModRight(a: nat, b: nat, m: nat)
    requires m > 0
    ensures (a * (b % m)) % m == (a * b) % m
  {
    MulModLeft(b, a, m);
    assert b % m * a == a * (b % m) && b * a == a * b;
  }

  lemma {:induction false} AddModRight(a: nat, b: nat, m: nat)
    requires m > 0
    ensures (a + b % m) % m == (a + b) % m
  {
    Split(b, m);
    ModOfMultiple(m, b / m, a + b % m);
    assert m * (b / m) + (a + b % m) == a + b;
  }

  /** mp_exptmod */
  function PowMod(b: nat, e: nat, m: nat): (r: nat)
    requires m > 0
    ensures r < m
  {
    if e == 0 then 1 % m else (b * PowMod(b, e - 1, m)) % m
  }

  function Pow(b: nat, e: nat): nat {
    if e == 0 then 1 else b * Pow(b, e - 1)
  }

  /** The power is taken and then reduced. */
  lemma {:induction false} PowModIsPower(b: nat, e: nat, m: nat)
    requires m > 0
    ensures PowMod(b, e, m) == Pow(b, e) % m
    decreases e
  {
    if e > 0 {
      PowModIsPower(b, e - 1, m);
      MulModRight(b, Pow(b, e - 1), m);
    }
  }

  lemma {:induction false} PowModAdd(b: nat, d: nat, e: nat, m: nat)
    requires m > 0
    ensures PowMod(b, d + e, m) == (PowMod(b, d, m) * PowMod(b, e, m)) % m
    decreases d
  {
    var y := PowMod(b, e, m);
    if d == 0 {
      MulModLeft(1, y, m);
      SmallMod(y, m);
    } else {
      PowModAdd(b, d - 1, e, m);
      PowModStep(b, PowMod(b, d - 1, m), y, m);
    }
  }

  lemma {:induction false} PowModStep(b: nat, x: nat, y: nat, m: nat)
    requires m > 0
    ensures (b * ((x * y) % m)) % m == ((b * x) % m * y) % m
  {
    MulModRight(b, x * y, m);
    assert b * (x * y) == (b * x) * y;
    MulModLeft(b * x, y, m);
  }

  lemma SmallMod(a: nat, m: nat)
    requires a < m
    ensures a % m == a
  {
  }

  lemma {:induction false} PowModBase(b: nat, e: nat, m: nat)
    requires m > 0
    ensures PowMod(b % m, e, m) == PowMod(b, e, m)
    decreases e
  {
    if e > 0 {
      PowModBase(b, e - 1, m);
      MulModLeft(b, PowMod(b, e - 1, m), m);
    }
  }

  /** (b^d)^e == b^(d*e) */
  lemma {:induction false} PowModMul(b: nat, d: nat, e: nat, m: nat)
    requires m > 0
    ensures PowMod(PowMod(b, d, m), e, m) == PowMod(b, d * e, m)
    decreases e
  {
    if e == 0 {
      assert d * e == 0;
    } else {
      PowModMul(b, d, e - 1, m);
      assert d * e == d + d * (e - 1);
      PowModAdd(b, d, d * (e - 1), m);
    }
  }

  lemma {:induction false} PowModOne(e: nat, m: nat)
    requires m > 0
    ensures PowMod(1, e, m) == 1 % m
    decreases e
  {
    if e > 0 {
      PowModOne(e - 1, m);
      MulModRight(1, 1, m);
    }
  }

  /** Exponents may be reduced modulo an order of the base. */
  lemma {:induction false} PowModOrder(b: nat, e: nat, q: nat, m: nat)
    requires m > 0 && q > 0 && PowMod(b, q, m) == 1 % m
    ensures PowMod(b, e % q, m) == PowMod(b, e, m)
  {
    Split(e, q);
    var k, r := e / q, e % q;
    PowModAdd(b, q * k, r, m);
    PowModMul(b, q, k, m);
    PowModBase(1, k, m);
    PowModOne(k, m);
    var y := PowMod(b, r, m);
    MulModLeft(1, y, m);
    SmallMod(y, m);
  }

  /** mp_invmod: the inverse of a modulo m from b on. */
  function InverseFrom(a: nat, m: nat, b: nat): (r: Option<nat>)
    requires m > 0 && b <= m
    ensures r.Some? ==> b <= r.value < m && (a * r.value) % m == 1 % m
    ensures r.None? ==> forall c :: b <= c < m ==> (a * c) % m != 1 % m
    decreases m - b
  {
    if b == m then None else if (a * b) % m == 1 % m then Some(b) else InverseFrom(a, m, b + 1)
  }

  function Inverse(a: nat, m: nat): (r: Option<nat>)
    requires m > 0
    ensures r.Some? ==> r.value < m && (a * r.value) % m == 1 % m
    ensures r.None? ==> forall c :: 0 <= c < m ==> (a * c) % m != 1 % m
  {
    InverseFrom(a, m, 0)
  }
}
