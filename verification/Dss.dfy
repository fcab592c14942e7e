/** dss.c: DSA signatures of FIPS 186 as dropbear makes and checks them. */
module Dss {
  import opened Wrappers
  import opened Bytes
  import opened ModArith
  import opened InvMod
  import opened SshBuffer

  const SHA1_HASH_SIZE: nat := 20

  datatype Key = Key(p: nat, q: nat, g: nat, y: nat, x: nat)
  {
    /** g has order q modulo p, y belongs to x, and signatures fit 160 bits. */
    ghost predicate Valid() {
      p > 0 && 1 < q <= Power256(SHA1_HASH_SIZE) && PowMod(g, q, p) == 1 % p && y == PowMod(g, x, p)
    }
  }

  // ---- signing and checking on numbers ----

  function SignR(key: Key, k: nat): nat
    requires key.p > 0 && key.q > 0
  {
    PowMod(key.g, k, key.p) % key.q
  }

  /** (SHA1(M) + x r) mod q */
  function Sum(key: Key, r: nat, h: nat): nat
    requires key.q > 0
  {
    (h + r * key.x % key.q) % key.q
  }

  function SignS(key: Key, kInv: nat, r: nat, h: nat): nat
    requires key.q > 0
  {
    kInv * Sum(key, r, h) % key.q
  }

  /** The equation of the check for an inverse w of s. */
  predicate Equation(key: Key, r: nat, w: nat, h: nat)
    requires key.p > 0 && key.q > 0
  {
    var u1, u2 := h * w % key.q, r * w % key.q;
    PowMod(key.g, u1, key.p) * PowMod(key.y, u2, key.p) % key.p % key.q == r
  }

  predicate Accepts(key: Key, r: nat, s: nat, h: nat)
    requires key.p > 0 && key.q > 0
  {
    match Inverse(s, key.q)
    case None => false
    case Some(w) => Equation(key, r, w, h)
  }

  /** w need not be reduced. */
  lemma {:induction false} EquationReduced(key: Key, r: nat, w: nat, h: nat)
    requires key.p > 0 && key.q > 0
    ensures Equation(key, r, w, h) <==> Equation(key, r, w % key.q, h)
  {
    hide PowMod;
    MulModRight(h, w, key.q);
    MulModRight(r, w, key.q);
  }

  /** With zero for an inverse only one r satisfies it. */
  lemma {:induction false} EquationZero(key: Key, r: nat, h: nat)
    requires key.p > 0 && key.q > 0
    ensures Equation(key, r, 0, h) <==> r == 1 % key.p % key.q
  {
    assert h * 0 % key.q == 0 && r * 0 % key.q == 0;
    MulModRight(1 % key.p, 1, key.p);
    assert 1 % key.p * 1 == 1 % key.p;
    SmallMod(1 % key.p, key.p);
  }

  lemma {:induction false} SumTimesW(x: nat, r: nat, h: nat, w: nat, q: nat)
    requires q > 0
    ensures w * ((h + r * x % q) % q) % q == (h * w % q + x * (r * w % q)) % q
  {
    AddModRight(h, r * x, q);
    MulModRight(w, h + r * x, q);
    assert w * (h + r * x) == x * (r * w) + h * w;
    AddModRight(x * (r * w), h * w, q);
    AddBoth(h * w % q, x, r * w, q);
  }

  lemma {:induction false} AddBoth(a: nat, x: nat, b: nat, q: nat)
    requires q > 0
    ensures (x * b + a) % q == (a + x * (b % q)) % q
  {
    MulModRight(x, b, q);
    AddModRight(a, x * b, q);
    AddModRight(a, x * (b % q), q);
  }

  /** With s = k^-1 t and w = s^-1, the product w t is k again. */
  lemma {:induction false} WTimesSum(k: nat, kInv: nat, t: nat, w: nat, q: nat)
    requires q > 0 && t < q && k * kInv % q == 1 % q && (kInv * t % q) * w % q == 1 % q
    ensures w * t % q == k % q
  {
    var s := kInv * t % q;
    assert k * s % q == t by {
      MulModRight(k, kInv * t, q);
      assert k * (kInv * t) == k * kInv * t;
      MulModLeft(k * kInv, t, q);
      MulModLeft(1, t, q);
      SmallMod(t, q);
    }
    MulModRight(w, k * s, q);
    assert w * (k * s) == k * (s * w);
    MulModRight(k, s * w, q);
    MulModRight(k, 1, q);
  }

  /** The verifier's power is the signer's. */
  lemma {:induction false} SamePower(key: Key, u1: nat, u2: nat, k: nat)
    requires key.Valid() && (u1 + key.x * u2) % key.q == k % key.q
    ensures PowMod(key.g, u1, key.p) * PowMod(key.y, u2, key.p) % key.p == PowMod(key.g, k, key.p)
  {
    hide PowMod;
    PowModMul(key.g, key.x, u2, key.p);
    PowModAdd(key.g, u1, key.x * u2, key.p);
    PowModOrder(key.g, u1 + key.x * u2, key.q, key.p);
    PowModOrder(key.g, k, key.q, key.p);
  }

  /** A signature made with an invertible k is accepted for the same hash exactly when its s is invertible too. */
  lemma {:induction false} SignatureAccepted(key: Key, k: nat, h: nat)
    requires key.Valid() && Inverse(k, key.q).Some?
    ensures var r := SignR(key, k);
      var s := SignS(key, Inverse(k, key.q).value, r, h);
      Accepts(key, r, s, h) <==> Inverse(s, key.q).Some?
  {
    hide PowMod, Inverse;
    var q, r, kInv := key.q, SignR(key, k), Inverse(k, key.q).value;
    var t := Sum(key, r, h);
    var s := kInv * t % q;
    if Inverse(s, q).Some? {
      var w := Inverse(s, q).value;
      WTimesSum(k, kInv, t, w, q);
      SumTimesW(key.x, r, h, w, q);
      SamePower(key, h * w % q, r * w % q, k);
    }
  }

  lemma {:induction false} TimesK(k: nat, kInv: nat, t: nat, q: nat)
    requires q > 0 && t < q && k * kInv % q == 1 % q
    ensures kInv * t % q * k % q == t
  {
    MulModLeft(kInv * t, k, q);
    assert kInv * t * k == k * kInv * t;
    MulModLeft(k * kInv, t, q);
    MulModLeft(1, t, q);
    SmallMod(t, q);
  }

  lemma SumIs(key: Key, r: nat, h: nat)
    requires key.q > 0
    ensures Sum(key, r, h) == (h + key.x * r) % key.q
  {
    AddModRight(h, r * key.x, key.q);
    assert r * key.x == key.x * r;
  }

  /** Signing: r is a power of g, and s times k is the hash plus x times r. */
  lemma {:induction false} SignatureEquations(key: Key, k: nat, h: nat)
    requires key.Valid() && Inverse(k, key.q).Some?
    ensures var r := SignR(key, k);
      var s := SignS(key, Inverse(k, key.q).value, r, h);
      && r == Pow(key.g, k) % key.p % key.q
      && s < key.q && s * k % key.q == (h + key.x * r) % key.q
  {
    hide PowMod, Inverse, Pow, Power256, Sum;
    KeyFacts(key);
    PowModIsPower(key.g, k, key.p);
    SumIs(key, SignR(key, k), h);
    TimesK(k, Inverse(k, key.q).value, Sum(key, SignR(key, k), h), key.q);
  }

  /** w is an inverse of s and the check with it comes out at r, in the exponent of g. */
  ghost predicate Proves(key: Key, r: nat, s: nat, h: nat, w: nat)
    requires key.p > 0 && key.q > 0
  {
    w < key.q && s * w % key.q == 1 && Pow(key.g, w * (h + key.x * r)) % key.p % key.q == r
  }

  lemma {:induction false} CheckExponent(key: Key, r: nat, h: nat, w: nat)
    requires key.Valid()
    ensures Equation(key, r, w, h) <==> Pow(key.g, w * (h + key.x * r)) % key.p % key.q == r
  {
    hide PowMod, Pow;
    var q, k := key.q, w * (h + key.x * r);
    SumTimesW(key.x, r, h, w, q);
    assert w * ((h + r * key.x % q) % q) % q == k % q by {
      AddModRight(h, r * key.x, q);
      MulModRight(w, h + r * key.x, q);
      assert r * key.x == key.x * r;
    }
    SamePower(key, h * w % q, r * w % q, k);
    PowModIsPower(key.g, k, key.p);
  }

  /** For a key with g^q = 1 and y = g^x, and any numbers at all with s > 0, a signature is good exactly when s has an
      inverse with which the private exponent would have given r. */
  lemma {:induction false} GoodExactly(key: Key, r: nat, s: nat, h: nat)
    requires key.Valid() && s > 0
    ensures Check(key, r, s, h) == Good <==> exists w :: Proves(key, r, s, h, w)
  {
    hide PowMod, Pow, Equation, Inverse;
    var q := key.q;
    SmallMod(1, q);
    if Inverse(s, q).Some? {
      var v := Inverse(s, q).value;
      CheckExponent(key, r, h, v);
      if Equation(key, r, v, h) {
        assert Proves(key, r, s, h, v);
      }
      forall w | Proves(key, r, s, h, w) ensures w == v {
        InverseUnique(s, q, w, v);
        SmallMod(w, q);
        SmallMod(v, q);
      }
    }
  }

  /** A signature made for one hash is good for another exactly when the power of g that the difference of the hashes
      brings in leaves r unchanged. */
  lemma {:induction false} OtherHash(key: Key, k: nat, h: nat, h': nat, r: nat, s: nat, w: nat, e: nat)
    requires key.Valid() && Inverse(k, key.q).Some? && s > 0 && Inverse(s, key.q) == Some(w)
    requires r == SignR(key, k) && s == SignS(key, Inverse(k, key.q).value, r, h)
    requires e == k + w * (h' + (key.q - 1) * h)
    ensures Check(key, r, s, h') == Good <==> Pow(key.g, e) % key.p % key.q == r
  {
    hide Pow, Inverse, SignS, SignR, Check, Key.Valid;
    KeyFacts(key);
    var a := Product(key.x, r);
    a := Product(w, h' + a);
    GoodInExponent(key, r, s, h', w, a);
    ExponentsAgree(key, k, h, h', r, s, w);
    SameExponent(key, a, e);
  }

  lemma {:induction false} GoodInExponent(key: Key, r: nat, s: nat, h: nat, w: nat, e: nat)
    requires key.p > 0 && key.q > 0 && key.Valid() && s > 0 && Inverse(s, key.q) == Some(w) && e == w * (h + key.x * r)
    ensures Check(key, r, s, h) == Good <==> Pow(key.g, e) % key.p % key.q == r
  {
    hide Equation, Inverse, Check, Pow, Key.Valid;
    CheckGood(key, r, s, h, w);
    CheckExponent(key, r, h, w);
  }

  lemma {:induction false} ExponentsAgree(key: Key, k: nat, h: nat, h': nat, r: nat, s: nat, w: nat)
    requires key.Valid() && Inverse(k, key.q).Some? && Inverse(s, key.q) == Some(w)
    requires r == SignR(key, k) && s == SignS(key, Inverse(k, key.q).value, r, h)
    ensures w * (h' + key.x * r) % key.q == (k + w * (h' + (key.q - 1) * h)) % key.q
  {
    hide Inverse, SignS, SignR, Key.Valid;
    KeyFacts(key);
    SignatureEquations(key, k, h);
    InverseOf(s, key.q, w);
    Difference(key.q, k, s, w, key.x * r, h, h');
  }

  lemma InverseOf(s: nat, q: nat, w: nat)
    requires q > 1 && Inverse(s, q) == Some(w)
    ensures s * w % q == 1
  {
    SmallMod(1, q);
  }

  lemma CheckGood(key: Key, r: nat, s: nat, h: nat, w: nat)
    requires key.p > 0 && key.q > 0 && s > 0 && Inverse(s, key.q) == Some(w)
    ensures Check(key, r, s, h) == Good <==> Equation(key, r, w, h)
  {
    hide Equation;
  }

  lemma {:induction false} SameExponent(key: Key, a: nat, b: nat)
    requires key.Valid() && a % key.q == b % key.q
    ensures Pow(key.g, a) % key.p == Pow(key.g, b) % key.p
  {
    hide PowMod, Pow, Power256;
    PowModOrder(key.g, a, key.q, key.p);
    PowModOrder(key.g, b, key.q, key.p);
    PowModIsPower(key.g, a, key.p);
    PowModIsPower(key.g, b, key.p);
  }

  lemma {:induction false} TimesW(q: nat, k: nat, s: nat, w: nat, t: nat)
    requires q > 1 && s * w % q == 1 && s * k % q == t % q
    ensures w * t % q == k % q
  {
    MulModRight(w, t, q);
    MulModRight(w, s * k, q);
    assert w * (s * k) == s * w * k;
    MulModLeft(s * w, k, q);
  }

  lemma Distribute(q: nat, w: nat, xr: nat, h: nat, h': nat)
    requires q > 1
    ensures w * (h + xr) + w * (h' + (q - 1) * h) == q * (w * h) + w * (h' + xr)
  {
    assert w * (h + xr) == w * h + w * xr;
    assert w * (h' + (q - 1) * h) == w * h' + w * ((q - 1) * h);
    assert w * ((q - 1) * h) == (q - 1) * (w * h) == q * (w * h) - w * h;
    assert w * (h' + xr) == w * h' + w * xr;
  }

  lemma {:induction false} Difference(q: nat, k: nat, s: nat, w: nat, xr: nat, h: nat, h': nat)
    requires q > 1 && s * w % q == 1 && s * k % q == (h + xr) % q
    ensures w * (h' + xr) % q == (k + w * (h' + (q - 1) * h)) % q
  {
    TimesW(q, k, s, w, h + xr);
    Distribute(q, w, xr, h, h');
    var a := Product(w, h + xr);
    var b := Product(w, h' + xr);
    var d := Product(q - 1, h);
    d := Product(w, h' + d);
    var m := Product(w, h);
    SameSum(q, k, a, b, d, m);
  }

  lemma Product(a: nat, b: nat) returns (c: nat)
    ensures c == a * b
  {
    c := a * b;
  }

  lemma {:induction false} SameSum(q: nat, k: nat, a: nat, b: nat, d: nat, m: nat)
    requires q > 1 && a % q == k % q && a + d == q * m + b
    ensures b % q == (k + d) % q
  {
    ModOfMultiple(q, m, b);
    AddModRight(d, a, q);
    AddModRight(d, k, q);
  }

  /** The blob of r = 4 and s = 1 is not a signature of the hash 5 under the key with p = 23, q = 11, g = 2, x = 3. */
  lemma {:induction false} ForgedRefused(key: Key)
    requires key == Key(23, 11, 2, 8, 3)
    ensures key.Valid() && Check(key, 4, 1, 5) == Bad
  {
    hide Power256, Check, PowMod, Pow;
    PowersOfTwo();
    SmallOrder();
    assert key.Valid();
    GoodExactly(key, 4, 1, 5);
    PowModIsPower(2, 17, 23);
    NotUndefined(key, 4, 1, 5);
    hide Key.Valid, Proves;
    forall w: nat ensures !Proves(key, 4, 1, 5, w) {
      NotProved(key, w);
    }
  }

  lemma NotProved(key: Key, w: nat)
    requires key == Key(23, 11, 2, 8, 3) && Pow(2, 17) % 23 == 18
    ensures !Proves(key, 4, 1, 5, w)
  {
    hide Pow;
    if w < 11 && 1 * w % 11 == 1 {
      assert w == 1 && w * (5 + key.x * 4) == 17;
    }
  }

  lemma NotUndefined(key: Key, r: nat, s: nat, h: nat)
    requires key.p > 0 && key.q > 0 && s > 0
    ensures Check(key, r, s, h) == Good || Check(key, r, s, h) == Bad
  {
    hide Accepts;
  }

  lemma PowersOfTwo()
    ensures PowMod(2, 3, 23) == 8 && PowMod(2, 11, 23) == 1 && PowMod(2, 17, 23) == 18
  {
    assert PowMod(2, 3, 23) == 8;
    assert PowMod(2, 5, 23) == 9;
    assert PowMod(2, 7, 23) == 13;
    assert PowMod(2, 9, 23) == 6;
    assert PowMod(2, 11, 23) == 1;
    assert PowMod(2, 13, 23) == 4;
    assert PowMod(2, 15, 23) == 16;
    assert PowMod(2, 17, 23) == 18;
  }

  lemma SmallOrder()
    ensures 11 <= Power256(SHA1_HASH_SIZE)
  {
    GrowsFrom(1, SHA1_HASH_SIZE);
  }

  lemma GrowsFrom(m: nat, n: nat)
    requires m <= n
    ensures Power256(m) <= Power256(n)
    decreases n
  {
    if m < n {
      GrowsFrom(m, n - 1);
    }
  }

  // ---- the signature blob ----

  lemma {:induction false} DigitsFit(n: nat, len: nat)
    requires n < Power256(len)
    ensures |Digits(n)| <= len
    decreases len
  {
    if n > 0 && len > 0 {
      DigitsFit(n / 256, len - 1);
    }
  }

  /** Leading zeros up to 160 bits. */
  function Half(n: nat): (r: seq<byte>)
    requires n < Power256(SHA1_HASH_SIZE)
    ensures |r| == SHA1_HASH_SIZE
  {
    DigitsFit(n, SHA1_HASH_SIZE);
    Zeros(SHA1_HASH_SIZE - |Digits(n)|) + Digits(n)
  }

  lemma {:induction false} ZerosValue(k: nat, s: seq<byte>)
    ensures Value(Zeros(k) + s) == Value(s)
    decreases k
  {
    if k == 0 {
      assert Zeros(0) + s == s;
    } else {
      assert Zeros(k) + s == [0] + (Zeros(k - 1) + s);
      LeadingZero(Zeros(k - 1) + s);
      ZerosValue(k - 1, s);
    }
  }

  lemma {:induction false} HalfRoundTrip(n: nat)
    requires n < Power256(SHA1_HASH_SIZE)
    ensures Value(Half(n)) == n
  {
    hide Digits, Value;
    DigitsFit(n, SHA1_HASH_SIZE);
    ZerosValue(SHA1_HASH_SIZE - |Digits(n)|, Digits(n));
    ValueDigits(n);
  }

  /** The i-th random number is the first that is not rejected. */
  predicate FirstKept(random: seq<seq<byte>>, q: nat, i: int) {
    0 <= i < |random| && 0 < Value(random[i]) <= q &&
    forall j :: 0 <= j < i ==> Value(random[j]) == 0 || Value(random[j]) > q
  }

  /** The first random number that is positive and not above q. */
  method ChooseK(q: nat, random: seq<seq<byte>>) returns (k: Option<nat>)
    ensures k.Some? ==> 0 < k.value <= q && exists i :: FirstKept(random, q, i) && k.value == Value(random[i])
    ensures k.None? ==> forall i :: 0 <= i < |random| ==> Value(random[i]) == 0 || Value(random[i]) > q
  {
    for i := 0 to |random|
      invariant forall j :: 0 <= j < i ==> Value(random[j]) == 0 || Value(random[j]) > q
    {
      var n := Value(random[i]);
      if !(n > q || n == 0) {
        assert FirstKept(random, q, i);
        return Some(n);
      }
    }
    k := None;
  }

  /** Writes n with leading zeros to 160 bits. */
  method PutHalf(n: nat) returns (out: seq<byte>)
    requires n < Power256(SHA1_HASH_SIZE)
    ensures out == Half(n)
  {
    DigitsFit(n, SHA1_HASH_SIZE);
    out := [];
    var writelen := |Digits(n)|;
    for i := 0 to SHA1_HASH_SIZE - writelen
      invariant out == Zeros(i)
    {
      out := out + [0];
    }
    out := out + Digits(n);
  }

  /** The signature, the exit of the program, or no end to the random numbers that are rejected. */
  datatype Signing = Signed(blob: seq<byte>) | Exits | Waiting

  /** buf_put_dss_sign; the program exits when k cannot be inverted, which includes k = q. */
  method Sign(key: Key, hash: seq<byte>, random: seq<seq<byte>>) returns (result: Signing, k: nat)
    requires key.Valid()
    ensures result == Waiting <==> forall i :: 0 <= i < |random| ==> Value(random[i]) == 0 || Value(random[i]) > key.q
    ensures result != Waiting ==> exists i :: FirstKept(random, key.q, i) && k == Value(random[i])
    ensures result == Exits ==> Inverse(k, key.q).None?
    ensures result.Signed? ==> Inverse(k, key.q).Some? && result.blob == Signature(key, k, Value(hash))
  {
    hide PowMod, Inverse, Power256, Half, Value, Key.Valid, Signature;
    var chosen := ChooseK(key.q, random);
    if chosen.None? {
      return Waiting, 0;
    }
    k := chosen.value;
    result := SignWith(key, Value(hash), k);
  }

  /** The signature of a hash with an invertible k, as two halves of 160 bits. */
  function Signature(key: Key, k: nat, h: nat): seq<byte>
    requires key.Valid() && Inverse(k, key.q).Some?
  {
    var r := SignR(key, k);
    Half(r) + Half(SignS(key, Inverse(k, key.q).value, r, h))
  }

  method SignWith(key: Key, m: nat, k: nat) returns (result: Signing)
    requires key.Valid() && k > 0
    ensures result != Waiting && (result == Exits <==> Inverse(k, key.q).None?)
    ensures result.Signed? ==> result.blob == Signature(key, k, m)
  {
    hide PowMod, Inverse, Power256, Half;
    var temp1 := PowMod(key.g, k, key.p);
    var r := temp1 % key.q;
    temp1 := r * key.x % key.q;
    var temp2 := (m + temp1) % key.q;
    var kInv := MpInvmod(k, key.q);
    if !kInv.Found? {
      return Exits;
    }
    MulModLeft(kInv.w, temp2, key.q);
    var s := kInv.w * temp2 % key.q;
    var first := PutHalf(r);
    var second := PutHalf(s);
    result := Signed(first + second);
  }

  /** The two results of buf_dss_verify; the clearing of bignums that were never set up; an inversion without end. */
  datatype Verdict = Good | Bad | Undefined | NoEnd

  /** What buf_dss_verify makes of a signature of the right length. Zero has no inverse, but modulo a power of two the
      bignum library gives zero for one. */
  function Check(key: Key, r: nat, s: nat, h: nat): Verdict
    requires key.p > 0 && key.q > 0
  {
    if s > 0 then (if Accepts(key, r, s, h) then Good else Bad)
    else if key.q % 2 == 1 then NoEnd
    else if Strip(key.q) == 1 && r == 1 % key.p % key.q then Good
    else Bad
  }

  /** buf_dss_verify */
  method Verify(key: Key, hash: seq<byte>, blob: seq<byte>) returns (verdict: Verdict)
    requires key.p > 0 && key.q > 0
    ensures verdict == Undefined <==> |blob| != 2 * SHA1_HASH_SIZE
    ensures |blob| == 2 * SHA1_HASH_SIZE ==>
      verdict == Check(key, Value(blob[..SHA1_HASH_SIZE]), Value(blob[SHA1_HASH_SIZE..]), Value(hash))
  {
    hide PowMod, Inverse, Value, Strip, Equation;
    if |blob| != 2 * SHA1_HASH_SIZE {
      return Undefined;
    }
    ghost var r, s, h := Value(blob[..SHA1_HASH_SIZE]), Value(blob[SHA1_HASH_SIZE..]), Value(hash);
    var val1 := Value(blob[SHA1_HASH_SIZE..]);
    var inv := MpInvmod(val1, key.q);
    if inv == Endless {
      return NoEnd;
    }
    if inv == NoInverse {
      return Bad;
    }
    var val2 := inv.w;
    EquationReduced(key, r, val2, h);
    EquationZero(key, r, h);
    val1 := Value(hash);
    var val3 := val1 * val2 % key.q;
    val1 := Value(blob[..SHA1_HASH_SIZE]);
    var val4 := val1 * val2 % key.q;
    var ok := Compare(key, val1, val2, val3, val4, h);
    verdict := if ok then Good else Bad;
  }

  /** The second half of the check, from both exponents on. */
  method Compare(key: Key, r: nat, ghost w: nat, u1: nat, u2: nat, ghost h: nat) returns (ok: bool)
    requires key.p > 0 && key.q > 0 && u1 == h * w % key.q && u2 == r * w % key.q
    ensures ok <==> Equation(key, r, w, h)
  {
    hide PowMod;
    var val2 := PowMod(key.g, u1, key.p);
    var val3 := PowMod(key.y, u2, key.p);
    var val4 := val2 * val3 % key.p;
    val2 := val4 % key.q;
    ok := val2 == r;
  }

  /** What is signed with the first usable k is accepted for the same data exactly when s is invertible; the check of a
      signature with s = 0 never ends when q is odd. A k of q is never usable. */
  method SignThenVerify(key: Key, hash: seq<byte>, random: seq<seq<byte>>)
    returns (result: Signing, k: nat, verdict: Verdict)
    requires key.Valid()
    ensures result == Waiting <==> forall i :: 0 <= i < |random| ==> Value(random[i]) == 0 || Value(random[i]) > key.q
    ensures result != Waiting ==> exists i :: FirstKept(random, key.q, i) && k == Value(random[i])
    ensures result != Waiting ==> (result.Signed? <==> Inverse(k, key.q).Some?) && (k == key.q ==> result == Exits)
    ensures result.Signed? ==>
      var r := SignR(key, k);
      var s := SignS(key, Inverse(k, key.q).value, r, Value(hash));
      && (s > 0 ==> verdict == if Inverse(s, key.q).Some? then Good else Bad)
      && (s == 0 && key.q % 2 == 1 ==> verdict == NoEnd)
      && (s == 0 && key.q % 2 == 0 ==> verdict == if Strip(key.q) == 1 && r == 1 % key.p % key.q then Good else Bad)
  {
    hide PowMod, Inverse, Power256, Half, Value, SignS, SignR, Accepts, Strip, Signature, Key.Valid;
    hide Check, FirstKept;
    verdict := Bad;
    KeyFacts(key);
    NoInverseOfModulus(key.q);
    result, k := Sign(key, hash, random);
    if result.Signed? {
      verdict := Verify(key, hash, result.blob);
      SignedCheck(key, k, Value(hash));
      SignatureParts(key, k, Value(hash));
    }
  }

  lemma {:induction false} SignedCheck(key: Key, k: nat, h: nat)
    requires key.Valid() && Inverse(k, key.q).Some?
    ensures
      var r := SignR(key, k);
      var s := SignS(key, Inverse(k, key.q).value, r, h);
      var verdict := Check(key, r, s, h);
      && (s > 0 ==> verdict == if Inverse(s, key.q).Some? then Good else Bad)
      && (s == 0 && key.q % 2 == 1 ==> verdict == NoEnd)
      && (s == 0 && key.q % 2 == 0 ==> verdict == if Strip(key.q) == 1 && r == 1 % key.p % key.q then Good else Bad)
  {
    hide PowMod, Inverse, Accepts, Strip, Power256, SignR, SignS;
    SignatureAccepted(key, k, h);
  }

  lemma KeyFacts(key: Key)
    requires key.Valid()
    ensures key.p > 0 && key.q > 1
  {
  }

  lemma {:induction false} SignatureParts(key: Key, k: nat, h: nat)
    requires key.Valid() && Inverse(k, key.q).Some?
    ensures var blob := Signature(key, k, h);
      && |blob| == 2 * SHA1_HASH_SIZE
      && Value(blob[..SHA1_HASH_SIZE]) == SignR(key, k)
      && Value(blob[SHA1_HASH_SIZE..]) == SignS(key, Inverse(k, key.q).value, SignR(key, k), h)
  {
    hide PowMod, Inverse, Power256, Half, Value;
    var r := SignR(key, k);
    var s := SignS(key, Inverse(k, key.q).value, r, h);
    HalfRoundTrip(r);
    HalfRoundTrip(s);
    var blob := Half(r) + Half(s);
    assert blob[..SHA1_HASH_SIZE] == Half(r) && blob[SHA1_HASH_SIZE..] == Half(s);
  }

  lemma {:induction false} NoInverseOfModulus(q: nat)
    requires q > 1
    ensures Inverse(q, q).None?
  {
    hide InverseFrom;
    var r := Inverse(q, q);
    if r.Some? {
      ModOfMultiple(q, r.value, 0);
    }
  }
}
