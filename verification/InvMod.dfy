/** bn_mp_invmod.c and bn_fast_mp_invmod.c: modular inverses by the binary extended Euclidean algorithm. */
module InvMod {
  import opened Wrappers
  import opened ModArith

  /** An inverse, which need not be reduced; the error code; or a loop without end. */
  datatype Result = Found(w: nat) | NoInverse | Endless

  // ---- when the loop ends ----

  /** mp_iseven, which does not hold of zero. */
  predicate IsEven(n: int) {
    n != 0 && n % 2 == 0
  }

  function Strip(n: nat): (r: nat)
    ensures r <= n && (r == 0 <==> n == 0)
  {
    if IsEven(n) then Strip(n / 2) else n
  }

  /** Only factors of two are stripped, and all of them; a power of two is left as one. */
  lemma {:induction false} StripsTwos(m: nat, k: nat)
    requires m % 2 == 1
    ensures Strip(m * Pow(2, k)) == m
  {
    var n := m * Pow(2, k);
    if k == 0 {
      assert n == m;
    } else {
      assert n == 2 * (m * Pow(2, k - 1));
      StripsTwos(m, k - 1);
    }
  }

  /** One turn of the loop: both numbers lose their factors of two, and the smaller is taken from the larger. */
  function Turn(u: nat, v: nat): (nat, nat) {
    var u, v := Strip(u), Strip(v);
    if u >= v then (u - v, v) else (u, v - u)
  }

  function Turns(u: nat, v: nat, n: nat): (nat, nat) {
    if n == 0 then (u, v) else var t := Turn(u, v); Turns(t.0, t.1, n - 1)
  }

  /** The loop is left after some turn, the first at the earliest. */
  ghost predicate Ends(u: nat, v: nat) {
    exists n: nat :: n > 0 && Turns(u, v, n).0 == 0
  }

  lemma EndsAfter(u: nat, v: nat, n: nat)
    requires Turns(Turn(u, v).0, Turn(u, v).1, n).0 == 0
    ensures Ends(u, v)
  {
    hide Turn;
    assert Turns(u, v, n + 1).0 == 0;
  }

  lemma {:induction false} PositiveEnds(u: nat, v: nat)
    requires u > 0 && v > 0
    ensures Ends(u, v)
    decreases u + v
  {
    var t := Turn(u, v);
    if t.0 == 0 {
      EndsAfter(u, v, 0);
    } else {
      PositiveEnds(t.0, t.1);
      hide Turn;
      var n: nat :| n > 0 && Turns(t.0, t.1, n).0 == 0;
      EndsAfter(u, v, n);
    }
  }

  lemma {:induction false} ZeroStays(u: nat, n: nat)
    requires u % 2 == 1
    ensures Turns(u, 0, n) == (u, 0)
    decreases n
  {
    if n > 0 {
      assert Turn(u, 0) == (u, 0);
      ZeroStays(u, n - 1);
    }
  }

  /** For an odd modulus the loop ends exactly for numbers other than zero. */
  lemma {:induction false} LoopEnds(a: nat, m: nat)
    requires m % 2 == 1
    ensures Ends(m, a) <==> a > 0
  {
    if a > 0 {
      PositiveEnds(m, a);
    } else if Ends(m, a) {
      var n: nat :| n > 0 && Turns(m, 0, n).0 == 0;
      ZeroStays(m, n);
    }
  }

  // ---- linear combinations ----

  /** n is p times x plus q times y. */
  ghost predicate Combines(n: int, p: int, x: int, q: int, y: int) {
    n == p * x + q * y
  }

  lemma ShiftCombination(n: int, p: int, x: int, q: int, y: int)
    requires Combines(n, p, x, q, y)
    ensures Combines(n, p + y, x, q - x, y)
  {
    assert (p + y) * x + (q - x) * y == p * x + y * x + q * y - x * y;
  }

  lemma HalveCombination(n: int, p: int, x: int, q: int, y: int)
    requires Combines(2 * n, 2 * p, x, 2 * q, y)
    ensures Combines(n, p, x, q, y)
  {
    assert 2 * p * x + 2 * q * y == 2 * (p * x + q * y);
  }

  lemma SubtractCombinations(n: int, p: int, n': int, p': int, x: int, q: int, q': int, y: int)
    requires Combines(n, p, x, q, y) && Combines(n', p', x, q', y)
    ensures Combines(n - n', p - p', x, q - q', y)
  {
    assert (p - p') * x + (q - q') * y == p * x - p' * x + q * y - q' * y;
  }

  lemma ScaleCombination(n: int, e: int, s: int, u: int, f: int, v: int)
    requires Combines(n, e, s * u, f, v)
    ensures Combines(n, e * s, u, f, v)
  {
    assert e * (s * u) == e * s * u;
  }

  lemma ScaleSecond(n: int, e: int, u: int, f: int, s: int, v: int)
    requires Combines(n, e, u, f, s * v)
    ensures Combines(n, e, u, f * s, v)
  {
    assert f * (s * v) == f * s * v;
  }

  lemma Exchange(n: int, p: int, x: int, q: int, y: int)
    requires Combines(n, p, x, q, y)
    ensures Combines(n, q, y, p, x)
  {
  }

  lemma SplitLeft(n: int, e: int, u: int, f: int, v: int)
    requires Combines(n, e, u, f, v)
    ensures Combines(n, e, u - v, e + f, v)
  {
    assert e * (u - v) + (e + f) * v == e * u - e * v + e * v + f * v;
  }

  lemma SplitRight(n: int, e: int, u: int, f: int, v: int)
    requires Combines(n, e, u, f, v)
    ensures Combines(n, e + f, u, f, v - u)
  {
    assert (e + f) * u + f * (v - u) == e * u + f * u + f * v - f * u;
  }

  lemma OddTimesOdd(i: int, j: int)
    ensures (2 * i + 1) * (2 * j + 1) % 2 == 1
  {
    assert (2 * i + 1) * (2 * j + 1) == 2 * (2 * i * j + i + j) + 1;
  }

  lemma OddFactor(p: int, x: int, h: int)
    requires p * x == 2 * h && x % 2 == 1
    ensures p % 2 == 0
  {
    OddTimesOdd(p / 2, x / 2);
  }

  /** When n and the coefficient of y are even and x is odd, the other coefficient is even too. */
  lemma OtherEven(n: int, p: int, x: int, q: int, y: int)
    requires Combines(n, p, x, q, y) && n % 2 == 0 && q % 2 == 0 && x % 2 == 1
    ensures p % 2 == 0
  {
    var h, k := n / 2, q / 2;
    assert q * y == 2 * (k * y);
    OddFactor(p, x, h - k * y);
  }

  lemma FirstEven(n: int, p: int, x: int, q: int, y: int)
    requires Combines(n, p, x, q, y) && n % 2 == 0 && x % 2 == 1 && y % 2 == 0
    ensures p % 2 == 0
  {
    var h, k := n / 2, y / 2;
    assert q * y == 2 * (q * k);
    OddFactor(p, x, h - q * k);
  }

  // ---- what the combinations mean ----

  /** A combination that gives one gives the inverse. */
  lemma {:induction false} CombinationInverts(a: nat, m: nat, w: nat, c: int)
    requires m > 0 && Combines(1, w, a, c, m)
    ensures w * a % m == 1 % m
  {
    if c <= 0 {
      ModOfMultiple(m, -c, 1);
      assert m * -c + 1 == w * a;
    } else {
      Monotone(m, 1, c);
      assert m == 1;
    }
  }

  lemma {:induction false} InverseUnique(a: nat, m: nat, b: nat, c: nat)
    requires m > 0 && a * b % m == 1 % m && a * c % m == 1 % m
    ensures b % m == c % m
  {
    MulModRight(c, a * b, m);
    MulModRight(b, a * c, m);
    MulModRight(c, 1, m);
    MulModRight(b, 1, m);
    assert c * (a * b) == b * (a * c);
  }

  /** What the number found is to mp_mulmod. */
  lemma {:induction false} IsInverse(a: nat, m: nat, w: nat)
    requires m > 0 && w * a % m == 1 % m
    ensures Inverse(a, m).Some? && w % m == Inverse(a, m).value
  {
    assert w * a == a * w;
    MulModRight(a, w, m);
    assert a * (w % m) % m == 1 % m;
    InverseUnique(a, m, w, Inverse(a, m).value);
    SmallMod(Inverse(a, m).value, m);
  }

  /** A common divisor above one rules an inverse out. */
  lemma {:induction false} CommonDivisor(a: nat, m: nat, d: nat, f: int, h: int)
    requires m > 0 && d > 1 && a == f * d && m == h * d
    ensures Inverse(a, m).None?
  {
    var r := Inverse(a, m);
    if r.Some? {
      var c := r.value;
      assert m > 1 by {
        if m == 1 {
          NoUnit(h, d);
        }
      }
      SmallMod(1, m);
      var t := a * c / m;
      Split(a * c, m);
      assert a * c == m * t + 1;
      assert (f * c - h * t) * d == f * d * c - h * d * t == 1;
      NoUnit(f * c - h * t, d);
    }
  }

  lemma NoUnit(k: int, d: nat)
    requires d > 1
    ensures k * d != 1
  {
    if k >= 1 {
      assert k * d >= d;
    } else {
      assert k * d <= 0;
    }
  }

  // ---- odd modulus ----

  lemma OddDifference(q: int, x: int)
    requires q % 2 == 1 && x % 2 == 1
    ensures (q - x) % 2 == 0
  {
  }

  lemma Halved(n: int, p: int, x: int, q: int, y: int)
    requires Combines(n, p, x, q, y) && n % 2 == 0 && p % 2 == 0 && q % 2 == 0
    ensures Combines(n / 2, p / 2, x, q / 2, y)
  {
    hide Combines;
    HalveCombination(n / 2, p / 2, x, q / 2, y);
  }

  /** While n is even it is halved together with its coefficients; x is odd. */
  method HalveFast(x: int, y: int, n0: nat, q0: int, ghost p0: int)
    returns (n: nat, q: int, ghost p: int, ghost s: nat)
    requires x % 2 == 1 && Combines(n0, p0, x, q0, y)
    ensures n == Strip(n0) && n0 == s * n && Combines(n, p, x, q, y)
  {
    hide Combines;
    n, q, p, s := n0, q0, p0, 1;
    while IsEven(n)
      invariant Strip(n) == Strip(n0) && n0 == s * n && Combines(n, p, x, q, y)
      decreases n
    {
      if q % 2 == 1 {
        ShiftCombination(n, p, x, q, y);
        OddDifference(q, x);
        q, p := q - x, p + y;
      }
      OtherEven(n, p, x, q, y);
      Halved(n, p, x, q, y);
      Doubled(s, n);
      n, q, p, s := n / 2, q / 2, p / 2, 2 * s;
    }
  }

  lemma Doubled(s: nat, n: nat)
    requires n % 2 == 0
    ensures s * n == 2 * s * (n / 2)
  {
    assert s * (2 * (n / 2)) == 2 * s * (n / 2);
  }

  /** fast_mp_invmod. Only the coefficients of a are computed; those of m are needed for the proof. */
  method FastInvmod(a: nat, m: nat) returns (r: Result)
    requires m % 2 == 1
    ensures r == Endless <==> !Ends(m, a)
    ensures a > 0 ==> (r.Found? <==> Inverse(a, m).Some?)
    ensures a > 0 && r.Found? ==> r.w % m == Inverse(a, m).value
  {
    hide Ends, Inverse, Combines;
    LoopEnds(a, m);
    if a == 0 {
      return Endless;
    }
    var u, v, b, d := m, a, 0, 1;
    ghost var p, q, e, f, g, h := 1, 0, 0, 1, 1, 0;
    Units(m, a);
    while u != 0
      invariant v > 0 && Combines(u, p, m, b, a) && Combines(v, q, m, d, a)
      invariant Combines(a, e, u, f, v) && Combines(m, g, u, h, v)
      decreases u + v
    {
      ghost var s, t;
      u, b, p, s := HalveFast(m, a, u, b, p);
      ScaleCombination(a, e, s, u, f, v);
      ScaleCombination(m, g, s, u, h, v);
      v, d, q, t := HalveFast(m, a, v, d, q);
      ScaleSecond(a, e * s, u, f, t, v);
      ScaleSecond(m, g * s, u, h, t, v);
      e, f, g, h := e * s, f * t, g * s, h * t;
      if u >= v {
        SubtractCombinations(u, p, v, q, m, b, d, a);
        SplitLeft(a, e, u, f, v);
        SplitLeft(m, g, u, h, v);
        u, b, p, f, h := u - v, b - d, p - q, e + f, g + h;
      } else {
        SubtractCombinations(v, q, u, p, m, d, b, a);
        SplitRight(a, e, u, f, v);
        SplitRight(m, g, u, h, v);
        v, d, q, e, g := v - u, d - b, q - p, e + f, g + h;
      }
    }
    if v != 1 {
      LastDivides(a, m, v, e, f, g, h);
      return NoInverse;
    }
    Exchange(1, q, m, d, a);
    while d < 0
      invariant Combines(1, d, a, q, m)
      decreases -d
    {
      ShiftCombination(1, d, a, q, m);
      d, q := d + m, q - a;
    }
    CombinationInverts(a, m, d, q);
    IsInverse(a, m, d);
    r := Found(d);
  }

  lemma Units(x: int, y: int)
    ensures Combines(x, 1, x, 0, y) && Combines(y, 0, x, 1, y)
  {
  }

  lemma {:induction false} LastDivides(a: nat, m: nat, v: nat, e: int, f: int, g: int, h: int)
    requires m > 0 && v > 1 && Combines(a, e, 0, f, v) && Combines(m, g, 0, h, v)
    ensures Inverse(a, m).None?
  {
    CommonDivisor(a, m, v, f, h);
  }

  // ---- even modulus ----

  lemma Parities(p: int, y: int, q: int, x: int)
    requires p % 2 == 0 && y % 2 == 0 && x % 2 == 1
    ensures (p + y) % 2 == 0 && (q % 2 == 1 ==> (q - x) % 2 == 0)
  {
  }

  /** The same with both coefficients; x is odd and y even. */
  method HalveBoth(x: int, y: int, n0: nat, p0: int, q0: int) returns (n: nat, p: int, q: int, ghost s: nat)
    requires x % 2 == 1 && y % 2 == 0 && Combines(n0, p0, x, q0, y)
    ensures n == Strip(n0) && n0 == s * n && Combines(n, p, x, q, y)
  {
    hide Combines;
    n, p, q, s := n0, p0, q0, 1;
    while IsEven(n)
      invariant Strip(n) == Strip(n0) && n0 == s * n && Combines(n, p, x, q, y)
      decreases n
    {
      FirstEven(n, p, x, q, y);
      Parities(p, y, q, x);
      if p % 2 == 1 || q % 2 == 1 {
        ShiftCombination(n, p, x, q, y);
        p, q := p + y, q - x;
      }
      Halved(n, p, x, q, y);
      Doubled(s, n);
      n, p, q, s := n / 2, p / 2, q / 2, 2 * s;
    }
  }

  /** The loop of mp_invmod for an odd number. */
  method OddInvmod(a: nat, m: nat) returns (r: Result)
    requires m > 0 && m % 2 == 0 && a % 2 == 1
    ensures r != Endless && (r.Found? <==> Inverse(a, m).Some?)
    ensures r.Found? ==> r.w == Inverse(a, m).value
  {
    hide Inverse, Combines;
    var u, v, b, d, p, q := a, m, 0, 1, 1, 0;
    ghost var e, f, g, h := 1, 0, 0, 1;
    Units(a, m);
    while u != 0
      invariant v > 0 && Combines(u, p, a, b, m) && Combines(v, q, a, d, m)
      invariant Combines(a, e, u, f, v) && Combines(m, g, u, h, v)
      decreases u + v
    {
      ghost var s, t;
      u, p, b, s := HalveBoth(a, m, u, p, b);
      ScaleCombination(a, e, s, u, f, v);
      ScaleCombination(m, g, s, u, h, v);
      v, q, d, t := HalveBoth(a, m, v, q, d);
      ScaleSecond(a, e * s, u, f, t, v);
      ScaleSecond(m, g * s, u, h, t, v);
      e, f, g, h := e * s, f * t, g * s, h * t;
      if u >= v {
        SubtractCombinations(u, p, v, q, a, b, d, m);
        SplitLeft(a, e, u, f, v);
        SplitLeft(m, g, u, h, v);
        u, b, p, f, h := u - v, b - d, p - q, e + f, g + h;
      } else {
        SubtractCombinations(v, q, u, p, a, d, b, m);
        SplitRight(a, e, u, f, v);
        SplitRight(m, g, u, h, v);
        v, d, q, e, g := v - u, d - b, q - p, e + f, g + h;
      }
    }
    if v != 1 {
      LastDivides(a, m, v, e, f, g, h);
      return NoInverse;
    }
    ghost var c;
    q, c := Reduce(a, m, q, d);
    CombinationInverts(a, m, q, c);
    IsInverse(a, m, q);
    SmallMod(q, m);
    r := Found(q);
  }

  /** The coefficient is brought between zero and the modulus. */
  method Reduce(a: nat, m: nat, q0: int, ghost d0: int) returns (q: int, ghost d: int)
    requires m > 0 && Combines(1, q0, a, d0, m)
    ensures 0 <= q < m && Combines(1, q, a, d, m)
  {
    hide Combines;
    q, d := q0, d0;
    while q < 0
      invariant Combines(1, q, a, d, m)
      decreases -q
    {
      ShiftCombination(1, q, a, d, m);
      q, d := q + m, d - a;
    }
    while q >= m
      invariant q >= 0 && Combines(1, q, a, d, m)
      decreases q
    {
      Exchange(1, q, a, d, m);
      ShiftCombination(1, d, m, q, a);
      Exchange(1, d + a, m, q - m, a);
      q, d := q - m, d + a;
    }
  }

  /** The loop of mp_invmod for zero: u is zero, so one turn is all. */
  method ZeroInvmod(m: nat) returns (r: Result)
    requires m > 0 && m % 2 == 0
    ensures r == if Strip(m) == 1 then Found(0) else NoInverse
  {
    var v, q, d := m, 0, 1;
    while IsEven(v)
      invariant Strip(v) == Strip(m) && v > 0
      invariant (v == m && q == 0 && d == 1) || (q == v && d == 0)
      decreases v
    {
      v := v / 2;
      if q % 2 == 1 || d % 2 == 1 {
        q := q + m;
      }
      q, d := q / 2, d / 2;
    }
    q := q - 1;
    if v != 1 {
      return NoInverse;
    }
    r := Found(q);
  }

  /** mp_invmod. It fails to end exactly for zero and an odd modulus. Of zero and a power of two it returns zero, which
      is no inverse; every other result is the inverse or the absence of one. */
  method MpInvmod(a: nat, m: nat) returns (r: Result)
    requires m > 0
    ensures r == Endless <==> a == 0 && m % 2 == 1
    ensures a > 0 ==> (r.Found? <==> Inverse(a, m).Some?)
    ensures a > 0 && r.Found? ==> r.w % m == Inverse(a, m).value
    ensures a == 0 && m % 2 == 0 ==> r == if Strip(m) == 1 then Found(0) else NoInverse
  {
    hide Inverse, Ends;
    if m % 2 == 1 {
      LoopEnds(a, m);
      r := FastInvmod(a, m);
    } else if IsEven(a) {
      CommonDivisor(a, m, 2, a / 2, m / 2);
      r := NoInverse;
    } else if a == 0 {
      r := ZeroInvmod(m);
    } else {
      r := OddInvmod(a, m);
      if r.Found? {
        InverseSmall(a, m);
      }
    }
  }

  lemma InverseSmall(a: nat, m: nat)
    requires m > 0 && Inverse(a, m).Some?
    ensures Inverse(a, m).value % m == Inverse(a, m).value
  {
    SmallMod(Inverse(a, m).value, m);
  }
}
