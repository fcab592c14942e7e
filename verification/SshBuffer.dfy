/** buffer.c: byte buffers with a read/write position, and the mpint encoding of section 5 of RFC 4251. */
module SshBuffer {
  import opened Bytes
  import opened SshWire

  const BUF_MAX_INCR: nat := 1_000_000_000
  const MAX_STRING_LEN: nat := 1400

  // ---- unsigned big-endian numbers ----

  function Bits(n: nat): nat {
    if n == 0 then 0 else 1 + Bits(n / 2)
  }

  /** mp_to_unsigned_bin: the shortest big-endian form. */
  function Digits(n: nat): seq<byte> {
    if n == 0 then [] else Digits(n / 256) + [n % 256]
  }

  /** mp_read_unsigned_bin */
  function Value(s: seq<byte>): nat {
    if s == [] then 0 else 256 * Value(s[..|s| - 1]) + s[|s| - 1]
  }

  lemma {:induction false} ValueDigits(n: nat)
    ensures Value(Digits(n)) == n
  {
    if n > 0 {
      var s := Digits(n);
      assert s[..|s| - 1] == Digits(n / 256);
      ValueDigits(n / 256);
    }
  }

  /** The only form without a leading zero is the shortest one. */
  lemma {:induction false} DigitsValue(s: seq<byte>)
    requires s != [] ==> s[0] != 0
    ensures Digits(Value(s)) == s
    decreases |s|
  {
    if s != [] {
      var t := s[..|s| - 1];
      DigitsValue(t);
      var n := Value(s);
      assert n / 256 == Value(t) && n % 256 == s[|s| - 1];
      assert s == t + [s[|s| - 1]];
    }
  }

  function Power256(n: nat): (r: nat)
    ensures r > 0
  {
    if n == 0 then 1 else 256 * Power256(n - 1)
  }

  /** The first byte is the most significant one. */
  lemma {:induction false} ValueFirst(b: byte, s: seq<byte>)
    ensures Value([b] + s) == (b as int) * Power256(|s|) + Value(s)
    decreases |s|
  {
    var z := [b] + s;
    if s == [] {
      assert z[..0] == [];
    } else {
      assert z[..|z| - 1] == [b] + s[..|s| - 1];
      ValueFirst(b, s[..|s| - 1]);
    }
  }

  lemma {:induction false} LeadingZero(s: seq<byte>)
    ensures Value([0] + s) == Value(s)
    decreases |s|
  {
    if s != [] {
      var z := [0] + s;
      assert z[..|z| - 1] == [0] + s[..|s| - 1];
      LeadingZero(s[..|s| - 1]);
    }
  }

  lemma {:induction false} Bits256(n: nat)
    requires n >= 256
    ensures Bits(n) == 8 + Bits(n / 256)
  {
    var a := n / 2; var b := a / 2; var c := b / 2; var d := c / 2;
    var e := d / 2; var f := e / 2; var g := f / 2;
    assert g / 2 == n / 256;
    assert Bits(n) == 1 + Bits(a) && Bits(a) == 1 + Bits(b) && Bits(b) == 1 + Bits(c) && Bits(c) == 1 + Bits(d);
    assert Bits(d) == 1 + Bits(e) && Bits(e) == 1 + Bits(f) && Bits(f) == 1 + Bits(g) && Bits(g) == 1 + Bits(g / 2);
  }

  lemma {:induction false} BitsSmall(n: nat)
    requires 0 < n < 256
    ensures 1 <= Bits(n) <= 8
    ensures n >= 128 <==> Bits(n) == 8
  {
    var a := n / 2; var b := a / 2; var c := b / 2; var d := c / 2;
    var e := d / 2; var f := e / 2; var g := f / 2;
    assert Bits(n) == 1 + Bits(a);
    assert a > 0 ==> Bits(a) == 1 + Bits(b);
    assert b > 0 ==> Bits(b) == 1 + Bits(c);
    assert c > 0 ==> Bits(c) == 1 + Bits(d);
    assert d > 0 ==> Bits(d) == 1 + Bits(e);
    assert e > 0 ==> Bits(e) == 1 + Bits(f);
    assert f > 0 ==> Bits(f) == 1 + Bits(g);
    assert g > 0 ==> g == 1 && Bits(g) == 1;
    assert n >= 128 <==> g > 0;
  }

  lemma DigitsStep(n: nat)
    requires n > 0
    ensures Digits(n) == Digits(n / 256) + [n % 256]
  {
  }

  lemma NoDigit()
    ensures Digits(0) == []
  {
  }

  lemma EightMoreBits(b: nat)
    ensures (8 + b + 7) / 8 == 1 + (b + 7) / 8 && (8 + b) % 8 == b % 8
  {
  }

  /** How many bytes mp_to_unsigned_bin writes, and when their top bit is set. */
  lemma {:induction false} DigitsBits(n: nat)
    requires n > 0
    ensures |Digits(n)| == (Bits(n) + 7) / 8
    ensures Digits(n)[0] != 0 && (Digits(n)[0] >= 128 <==> Bits(n) % 8 == 0)
  {
    hide Bits, Digits;
    DigitsStep(n);
    if n < 256 {
      NoDigit();
      BitsSmall(n);
    } else {
      DigitsBits(n / 256);
      Bits256(n);
      EightMoreBits(Bits(n / 256));
      DigitsStep(n / 256);
      assert Digits(n)[0] == Digits(n / 256)[0];
    }
  }

  // ---- mpint ----

  /** The byte count that buf_putmpint stores. A bignum that is zero has no digits, so the test for a single zero digit
      never holds and zero is written like any other number. */
  function MpintLength(n: nat): nat {
    Bits(n) / 8 + 1
  }

  function MpintBody(n: nat): seq<byte> {
    (if Bits(n) % 8 == 0 then [0] else []) + Digits(n)
  }

  /** Section 5 of RFC 4251 for non-negative numbers: top bit clear, no unneeded leading zero, zero is empty. */
  predicate Canonical(s: seq<byte>) {
    s == [] || (s[0] < 128 && (s[0] == 0 ==> |s| > 1 && s[1] >= 128))
  }

  lemma {:induction false} MpintBodyFacts(n: nat)
    ensures |MpintBody(n)| == MpintLength(n)
    ensures Value(MpintBody(n)) == n
    ensures MpintLength(n) > 0 && MpintBody(n)[0] < 128
    ensures Canonical(MpintBody(n)) <==> n > 0
  {
    if n == 0 {
      assert MpintBody(n) == [0];
    } else {
      DigitsBits(n);
      ValueDigits(n);
      if Bits(n) % 8 == 0 {
        LeadingZero(Digits(n));
      } else {
        assert [] + Digits(n) == Digits(n);
      }
    }
  }

  /** Zero takes five bytes, where the canonical form takes four. */
  lemma {:induction false} MpintZero()
    ensures Mpint(0) == [0, 0, 0, 1, 0] && !Canonical(MpintBody(0))
    ensures Canonical([]) && Value([]) == 0 && |MpintBody(0)| == 1
  {
    assert MpintBody(0) == [0];
    assert Be32(1) == [0, 0, 0, 1];
  }

  /** There is exactly one canonical form of each number, and buf_putmpint writes it for every number but zero. */
  lemma {:induction false} MpintUnique(s: seq<byte>)
    requires Canonical(s)
    ensures s == MpintBody(Value(s)) <==> s != []
    ensures s == [] <==> Value(s) == 0
  {
    if s != [] {
      if s[0] == 0 {
        var t := s[1..];
        assert s == [0] + t;
        LeadingZero(t);
        DigitsValue(t);
        assert Value(t) > 0;
        DigitsBits(Value(t));
      } else {
        DigitsValue(s);
        assert Value(s) > 0;
        DigitsBits(Value(s));
        assert [] + s == s;
      }
    }
  }

  /** The forms that buf_putmpint writes: the canonical ones, and a zero byte instead of the empty one. */
  predicate Written(s: seq<byte>) {
    s == [0] || (s != [] && Canonical(s))
  }

  lemma {:induction false} WrittenForm(s: seq<byte>)
    ensures s == MpintBody(Value(s)) <==> Written(s)
  {
    MpintBodyFacts(Value(s));
    assert MpintBody(0) == [0];
    if s == [0] {
      assert s[..0] == [];
    } else if Canonical(s) {
      MpintUnique(s);
    }
  }

  /** No other non-negative form of a number is as short as the one written, except the empty form of zero. */
  lemma {:induction false} MpintShortest(s: seq<byte>)
    requires s == [] || s[0] < 128
    ensures |s| >= MpintLength(Value(s)) <==> s != []
    ensures |s| == MpintLength(Value(s)) <==> s == MpintBody(Value(s))
    decreases |s|
  {
    MpintBodyFacts(Value(s));
    WrittenForm(s);
    if s != [] && !Written(s) {
      var t := s[1..];
      assert s == [0] + t;
      LeadingZero(t);
      MpintShortest(t);
    }
  }

  // ---- reading ----

  /** Outcomes of the readers: the program exits, the caller gets an error code, or a value and the bytes it took. */
  datatype Parse<T> = Exit | Failure | Read(value: T, taken: int)

  /** The number at the start of s, if it is complete and not negative. */
  function ParseMpint(s: seq<byte>): Parse<nat> {
    if |s| < 4 then Exit
    else
      var len := BeWord(s[..4]);
      if len == 0 then Read(0, 4)
      else if |s| < 5 then Exit
      else if s[4] >= 128 then Failure
      else if |s| < 4 + len then Exit
      else Read(Value(s[4..4 + len]), 4 + len)
  }

  /** buf_getmpint on the unread bytes s, which start at position at of the buffer. The bound check is done in 32 bits,
      so it passes when position and length wrap. Such a length is a negative number of bytes to mp_read_unsigned_bin,
      which reads nothing, and to buf_incrpos, which moves back. */
  function ReadMpint(s: seq<byte>, at: nat): Parse<nat>
    requires at + |s| <= BUF_MAX_SIZE
  {
    if |s| < 4 then Exit
    else
      var len := BeWord(s[..4]);
      if len == 0 then Read(0, 4)
      else if |s| < 5 then Exit
      else if s[4] >= 128 then Failure
      else if (at + 4 + len) % TWO32 > at + |s| then Exit
      else if Signed32(len) < 0 then Read(0, 4 + Signed32(len))
      else Read(Value(s[4..4 + len]), 4 + len)
  }

  /** What is read without a wrap: a zero length is zero, a set top bit is an error, a number that is not complete ends
      the program, and anything else is the big-endian value of its bytes. */
  lemma MpintReads(s: seq<byte>, at: nat)
    requires at + |s| <= BUF_MAX_SIZE && |s| >= 4 && at + 4 + BeWord(s[..4]) < TWO32
    ensures var len := BeWord(s[..4]);
      && (len == 0 ==> ReadMpint(s, at) == Read(0, 4))
      && (len > 0 && |s| == 4 ==> ReadMpint(s, at) == Exit)
      && (len > 0 && |s| > 4 && s[4] >= 128 ==> ReadMpint(s, at) == Failure)
      && (len > 0 && |s| > 4 && s[4] < 128 && |s| < 4 + len ==> ReadMpint(s, at) == Exit)
      && (len > 0 && |s| >= 4 + len && s[4] < 128 ==> ReadMpint(s, at) == Read(Value(s[4..4 + len]), 4 + len))
  {
    hide BeWord, Value;
  }

  /** The length word of a number that starts like a non-negative one takes the position past 2^32. */
  predicate Wraps(s: seq<byte>, at: nat) {
    |s| >= 5 && s[4] < 128 && at + 4 + BeWord(s[..4]) >= TWO32
  }

  /** The reader accepts exactly the complete non-negative numbers and those whose length wraps; the latter read as zero
      and leave the position before the bytes of the number. */
  lemma {:induction false} MpintWraps(s: seq<byte>, at: nat)
    requires at + |s| <= BUF_MAX_SIZE
    ensures ReadMpint(s, at) == ParseMpint(s) <==> !Wraps(s, at)
    ensures Wraps(s, at) ==>
      var r := ReadMpint(s, at);
      && ParseMpint(s) == Exit && r.Read? && r.value == 0
      && r.taken == 4 + BeWord(s[..4]) - TWO32 && 0 <= at + r.taken < at + 4
  {
    hide BeWord, Value;
  }

  function Mpint(n: nat): seq<byte> {
    Be32(MpintLength(n)) + MpintBody(n)
  }

  /** The pieces in which buf_putmpint writes its number. */
  lemma MpintParts(n: nat, size: nat, pad: bool)
    requires size == MpintLength(n) && (pad <==> Bits(n) % 8 == 0)
    ensures Mpint(n) == (if pad then Be32(size) + [0] + Digits(n) else Be32(size) + Digits(n))
  {
    hide Be32, Digits, Bits;
    if pad {
      ConcatAssoc(Be32(size), [0], Digits(n));
    } else {
      assert [] + Digits(n) == Digits(n);
    }
  }

  lemma {:induction false} WordFirst(w: nat, body: seq<byte>, rest: seq<byte>)
    requires w < TWO32 && w == |body|
    ensures var s := Be32(w) + body + rest;
      BeWord(s[..4]) == w && s[4..4 + w] == body
  {
    BeRoundTrip(w, []);
    hide Be32, BeWord;
    var s := Be32(w) + body + rest;
    assert s[..4] == Be32(w) && Be32(w) + [] == Be32(w);
    assert s[4..4 + w] == body;
  }

  /** buf_getmpint after buf_putmpint gives the number back and takes exactly the bytes written. */
  lemma {:induction false} MpintRoundTrip(n: nat, rest: seq<byte>, at: nat)
    requires at + |Mpint(n) + rest| <= BUF_MAX_SIZE
    ensures ReadMpint(Mpint(n) + rest, at) == Read(n, |Mpint(n)|)
    ensures |Mpint(n)| == 4 + MpintLength(n)
  {
    hide MpintBody, MpintLength, BeWord, Be32, Value, ReadMpint;
    MpintBodyFacts(n);
    WordFirst(MpintLength(n), MpintBody(n), rest);
    var s := Mpint(n) + rest;
    assert s[4] == s[4..4 + MpintLength(n)][0];
    MpintWraps(s, at);
  }

  /** Whatever buf_getmpint reads, writing the number back gives the same bytes exactly when they are of the form that
      is written. */
  lemma {:induction false} MpintRewrite(s: seq<byte>, at: nat)
    requires at + |s| <= BUF_MAX_SIZE && ReadMpint(s, at).Read? && !Wraps(s, at)
    ensures var r := ReadMpint(s, at);
      4 <= r.taken <= |s| && (Mpint(r.value) == s[..r.taken] <==> Written(s[4..r.taken]))
  {
    var r := ReadMpint(s, at);
    MpintWraps(s, at);
    hide ReadMpint, Wraps, MpintLength, MpintBody;
    ReadBody(s);
    var body := s[4..r.taken];
    MpintBodyFacts(r.value);
    WrittenForm(body);
    if Written(body) {
      WordBytes(s[..4]);
      assert s[..r.taken] == s[..4] + body;
    }
    if Mpint(r.value) == s[..r.taken] {
      assert s[..r.taken][4..] == body;
      assert Mpint(r.value)[4..] == MpintBody(r.value);
    }
  }

  lemma ReadBody(s: seq<byte>)
    requires ParseMpint(s).Read?
    ensures var r := ParseMpint(s);
      4 <= r.taken <= |s| && r.value == Value(s[4..r.taken]) && BeWord(s[..4]) == r.taken - 4
  {
    hide BeWord;
    var len := BeWord(s[..4]);
    if len == 0 {
      assert s[4..4] == [];
    }
  }

  lemma {:induction false} WordBytes(s: seq<byte>)
    requires |s| == 4
    ensures Be32(BeWord(s)) == s
  {
    var a: int, b: int, c: int, d: int := s[0], s[1], s[2], s[3];
    var w := BeWord(s);
    assert w == d + 256 * (c + 256 * (b + 256 * a));
    assert w % 256 == d && w / 256 == c + 256 * (b + 256 * a);
    assert w / 0x10000 == w / 256 / 256 == b + 256 * a;
    assert w / 0x100_0000 == w / 0x10000 / 256 == a;
  }

  /** buf_getstring on the unread bytes s. */
  function ReadString(s: seq<byte>): Parse<seq<byte>> {
    if |s| < 4 then Exit
    else
      var len := BeWord(s[..4]);
      if len > MAX_STRING_LEN || |s| < 4 + len then Exit else Read(s[4..4 + len], 4 + len)
  }

  /** buf_putstring accepts longer strings than buf_getstring does: a string comes back exactly when it has at most
      1400 bytes. */
  lemma {:induction false} StringRoundTrip(t: seq<byte>, rest: seq<byte>)
    requires |t| < TWO32
    ensures ReadString(Be32(|t|) + t + rest) == (if |t| <= MAX_STRING_LEN then Read(t, 4 + |t|) else Exit)
  {
    WordFirst(|t|, t, rest);
    hide BeWord, Be32;
  }

  // ---- the buffer ----

  const BUF_MAX_SIZE: nat := 1_000_000_000

  /** Where the source exits the program the result is false. */
  class Buffer {
    var data: array<byte>
    var pos: nat
    var len: nat

    ghost predicate Valid()
      reads this
    {
      pos <= len <= data.Length <= BUF_MAX_SIZE
    }

    /** The unread bytes. */
    ghost function Unread(): seq<byte>
      requires Valid()
      reads this, data
    {
      data[pos..len]
    }

    constructor (size: nat)
      requires size <= BUF_MAX_SIZE
      ensures Valid() && fresh(data) && data.Length == size && pos == len == 0
    {
      data := new byte[size];
      pos, len := 0, 0;
    }

    /** buf_resize: what fits is kept, length and position are cut back. */
    method Resize(size: nat) returns (ok: bool)
      requires Valid()
      modifies this
      ensures Valid() && ok == (size <= BUF_MAX_SIZE)
      ensures !ok ==> unchanged(this)
      ensures ok ==> fresh(data) && data.Length == size && len == Min(size, old(len)) && pos == Min(size, old(pos))
      ensures ok ==> data[..len] == old(data[..len])[..len]
    {
      ok := size <= BUF_MAX_SIZE;
      if ok {
        var grown := new byte[size];
        var keep := Min(size, data.Length);
        CopyInto(grown, 0, data[..keep]);
        ghost var was := data[..];
        data, len, pos := grown, Min(size, len), Min(size, pos);
        assert data[..len] == was[..len];
      }
    }

    /** buf_setlen does not look at the position: it keeps pos <= len exactly when the new length is not below it. */
    method SetLen(n: nat) returns (ok: bool)
      requires Valid()
      modifies this`len
      ensures ok == (n <= data.Length) && len == (if ok then n else old(len))
      ensures Valid() <==> (ok ==> pos <= n)
    {
      ok := n <= data.Length;
      if ok { len := n; }
    }

    method SetPos(n: nat) returns (ok: bool)
      requires Valid()
      modifies this`pos
      ensures Valid() && ok == (n <= len) && pos == if ok then n else old(pos)
    {
      ok := n <= len;
      if ok { pos := n; }
    }

    method IncrPos(incr: int) returns (ok: bool)
      requires Valid()
      modifies this`pos
      ensures Valid() && ok == (incr <= BUF_MAX_INCR && 0 <= old(pos) + incr <= len)
      ensures pos == if ok then old(pos) + incr else old(pos)
    {
      ok := incr <= BUF_MAX_INCR && 0 <= pos + incr <= len;
      if ok { pos := pos + incr; }
    }

    method IncrWritePos(incr: nat) returns (ok: bool)
      requires Valid()
      modifies this`pos, this`len
      ensures Valid() && ok == (old(pos) + incr <= data.Length)
      ensures if ok then pos == old(pos) + incr && len == Max(old(len), pos) else pos == old(pos) && len == old(len)
    {
      ok := incr <= BUF_MAX_INCR && pos + incr <= data.Length;
      if ok {
        pos := pos + incr;
        if pos > len { len := pos; }
      }
    }

    /** buf_putbytes; buf_putint and buf_putbyte write their bytes the same way. No string in a 32-bit address space is
        long enough for the sum of buf_getwriteptr to wrap. */
    method PutBytes(s: seq<byte>) returns (ok: bool)
      requires Valid()
      modifies this`pos, this`len, data
      ensures Valid() && ok == (old(pos) + |s| <= data.Length)
      ensures ok ==> data[..] == Put(old(data[..]), old(pos), s) && pos == old(pos) + |s| && len == Max(old(len), pos)
      ensures !ok ==> data[..] == old(data[..]) && pos == old(pos) && len == old(len)
    {
      ok := |s| <= BUF_MAX_INCR && pos + |s| <= data.Length;
      if ok {
        CopyInto(data, pos, s);
        ok := IncrWritePos(|s|);
      }
    }

    /** buf_putbytes of b after a has been written at the same place. */
    method PutMore(b: seq<byte>, ghost was: seq<byte>, ghost at: nat, ghost before: nat, ghost a: seq<byte>)
      returns (ok: bool)
      requires Valid() && at + |a| == pos && at + |a| <= |was| && data[..] == Put(was, at, a) && len == Max(before, pos)
      modifies this`pos, this`len, data
      ensures Valid() && ok == (at + |a + b| <= data.Length)
      ensures ok ==> data[..] == Put(was, at, a + b) && pos == at + |a + b| && len == Max(before, pos)
    {
      hide Put;
      ok := PutBytes(b);
      if ok {
        PutConcat(was, at, a, b);
      }
    }

    /** buf_putmpint: length word, sign byte where needed, magnitude. */
    method PutMpint(n: nat) returns (ok: bool)
      requires Valid() && MpintLength(n) < TWO32
      modifies this`pos, this`len, data
      ensures Valid() && ok == (old(pos) + |Mpint(n)| <= data.Length)
      ensures ok ==>
        data[..] == Put(old(data[..]), old(pos), Mpint(n)) && pos == old(pos) + |Mpint(n)| && len == Max(old(len), pos)
    {
      hide Be32, Digits, Bits, Put;
      ghost var was, at, before := data[..], pos, len;
      var size, pad := Bits(n) / 8 + 1, Bits(n) % 8 == 0;
      var word := Be32(size);
      ok := PutBytes(word);
      MpintParts(n, size, pad);
      hide Mpint;
      if ok {
        if pad {
          ok := PutMore([0], was, at, before, word);
          if ok {
            ok := PutMore(Digits(n), was, at, before, word + [0]);
          }
        } else {
          ok := PutMore(Digits(n), was, at, before, word);
        }
      }
    }

    /** The check of buf_getptr, whose sum wraps. */
    method CanGet(n: nat) returns (ok: bool)
      requires Valid() && n < TWO32
      ensures pos + n < TWO32 ==> ok == (pos + n <= len)
      ensures pos + n >= TWO32 ==> ok
    {
      ok := (pos + n) % TWO32 <= len;
    }

    method GetInt() returns (ok: bool, w: nat)
      requires Valid()
      modifies this`pos
      ensures Valid() && ok == (old(pos) + 4 <= len)
      ensures if ok then w == BeWord(old(Unread())[..4]) && pos == old(pos) + 4 else pos == old(pos)
    {
      w := 0;
      ok := pos + 4 <= len;
      if ok {
        assert data[pos..pos + 4] == Unread()[..4];
        w := BeWord(data[pos..pos + 4]);
        ok := IncrPos(4);
      }
    }

    /** The next n bytes within what was unread k bytes ago. */
    lemma Within(k: nat, n: nat)
      requires Valid() && k <= pos && pos + n <= len
      ensures data[pos..pos + n] == data[pos - k..len][k..k + n]
    {
      var s := data[pos - k..len];
      var t := data[pos..pos + n];
      forall i | 0 <= i < n ensures t[i] == s[k..k + n][i] {
        assert s[k + i] == data[pos + i];
      }
    }

    method GetMpint() returns (r: Parse<nat>)
      requires Valid()
      modifies this`pos
      ensures Valid() && r == ReadMpint(old(Unread()), old(pos))
      ensures r.Read? ==> pos == old(pos) + r.taken
    {
      hide BeWord, Value;
      ghost var s := Unread();
      var ok, size := GetInt();
      if !ok {
        return Exit;
      }
      if size == 0 {
        return Read(0, 4);
      }
      ok := CanGet(1);
      if !ok {
        return Exit;
      }
      if data[pos] >= 128 {
        return Failure;
      }
      ok := CanGet(size);
      if !ok {
        return Exit;
      }
      var n := 0;
      if Signed32(size) >= 0 {
        assert data[pos..pos + size] == s[4..4 + size] by { Within(4, size); }
        n := Value(data[pos..pos + size]);
      }
      ok := IncrPos(Signed32(size));
      r := Read(n, 4 + Signed32(size));
    }

    method GetString() returns (r: Parse<seq<byte>>)
      requires Valid()
      modifies this`pos
      ensures Valid() && r == ReadString(old(Unread()))
      ensures r.Read? ==> pos == old(pos) + r.taken
    {
      hide BeWord;
      ghost var s := Unread();
      var ok, size := GetInt();
      if !ok || size > MAX_STRING_LEN || pos + size > len {
        return Exit;
      }
      assert data[pos..pos + size] == s[4..4 + size] by { Within(4, size); }
      r := Read(data[pos..pos + size], 4 + size);
      ok := IncrPos(size);
    }
  }

  lemma MpintSize(n: nat)
    ensures |Mpint(n)| == 4 + MpintLength(n)
  {
    hide MpintBody, MpintLength;
    MpintBodyFacts(n);
  }

  /** Writing a number, rewinding and reading it: the number and the position come back. */
  method MpintThrough(b: Buffer, n: nat) returns (ok: bool, r: Parse<nat>)
    requires b.Valid() && b.pos == b.len && MpintLength(n) < TWO32
    modifies b, b.data
    ensures b.Valid() && ok == (old(b.pos) + 4 + MpintLength(n) <= old(b.data.Length))
    ensures ok ==> r == Read(n, 4 + MpintLength(n)) && b.pos == b.len == old(b.pos) + 4 + MpintLength(n)
  {
    hide Be32, MpintLength, Mpint, ReadMpint;
    MpintSize(n);
    r := Exit;
    var start := b.pos;
    ok := b.PutMpint(n);
    if ok {
      var back := b.SetPos(start);
      assert b.Unread() == Mpint(n) && Mpint(n) + [] == Mpint(n);
      MpintRoundTrip(n, [], start);
      r := b.GetMpint();
    }
  }
}
