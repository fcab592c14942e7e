/** keyimport.c: BER identifiers and lengths, section 8.1 of ITU-T X.690. */
module Ber {
  import opened Bytes
  import opened Wrappers
  import opened SshBuffer
  import opened Dss
  import ModArith

  /** Where the counting loops of the writer come to shift an int by its whole width. */
  const ID_LIMIT: nat := 0x1000_0000
  const LENGTH_LIMIT: nat := 0x100_0000

  /** What ber_read_id_len reports; identifier and length are ints. */
  datatype Header = Header(id: int, length: int, flags: nat, used: nat)

  /** Class and constructed bits. */
  predicate IsFlags(flags: nat) {
    flags < 256 && flags % 32 == 0
  }

  // ---- writing ----

  /** An identifier of more than five bits, seven bits at a time, all but the last byte with the top bit set. */
  function Septets(id: nat, more: bool): (r: seq<byte>)
    ensures r != []
    decreases id
  {
    (if id < 128 then [] else Septets(id / 128, true)) + [id % 128 + if more then 128 else 0]
  }

  function IdBytes(id: nat, flags: nat): (r: seq<byte>)
    requires IsFlags(flags)
    ensures r != []
  {
    FlagRoom(flags);
    if id <= 30 then [id + flags] else [31 + flags] + Septets(id, false)
  }

  lemma FlagRoom(flags: nat)
    requires IsFlags(flags)
    ensures flags + 31 < 256
  {
  }

  function LengthBytes(length: nat): (r: seq<byte>)
    requires length < LENGTH_LIMIT
    ensures r != []
  {
    if length < 128 then [length] else LengthDigits(length); [128 + |Digits(length)|] + Digits(length)
  }

  lemma LengthDigits(length: nat)
    requires length < LENGTH_LIMIT
    ensures |Digits(length)| <= 3
  {
    assert Power256(3) == LENGTH_LIMIT;
    DigitsFit(length, 3);
  }

  function IdLen(id: nat, length: nat, flags: nat): seq<byte>
    requires IsFlags(flags) && length < LENGTH_LIMIT
  {
    IdBytes(id, flags) + LengthBytes(length)
  }

  // ---- reading ----

  /** The loop over a multi-byte identifier; it starts with the lead byte itself. */
  function ReadId(s: seq<byte>, i: nat, id: nat): (r: Option<(nat, nat)>)
    requires i < |s|
    ensures r.Some? ==> i < r.value.1 <= |s|
    decreases |s| - i
  {
    if s[i] < 128 then Some((id * 128 + s[i], i + 1))
    else if i + 1 == |s| then None
    else ReadId(s, i + 1, id * 128 + s[i] % 128)
  }

  function ReadLength(s: seq<byte>, i: nat): (r: Option<(nat, nat)>)
    requires i < |s|
    ensures r.Some? ==> i < r.value.1 <= |s|
  {
    if s[i] < 128 then Some((s[i], i + 1))
    else
      var n := s[i] - 128;
      if |s| - i - 1 < n then None else Some((Value(s[i + 1..i + 1 + n]), i + 1 + n))
  }

  /** ber_read_id_len */
  function ReadIdLen(s: seq<byte>): (r: Option<Header>)
    ensures r.Some? ==> 2 <= r.value.used <= |s|
  {
    if s == [] then None
    else
      var flags := s[0] / 32 * 32;
      var id := if s[0] % 32 == 31 then ReadId(s, 0, 0) else Some((s[0] % 32, 1));
      if id.None? || id.value.1 == |s| then None
      else
        var length := ReadLength(s, id.value.1);
        if length.None? then None
        else Some(Header(Signed32(id.value.0), Signed32(length.value.0), flags, length.value.1))
  }

  lemma {:induction false} ReadWrittenLength(pre: seq<byte>, length: nat, rest: seq<byte>)
    requires length < LENGTH_LIMIT
    ensures var s := pre + LengthBytes(length) + rest;
      ReadLength(s, |pre|) == Some((length, |pre| + |LengthBytes(length)|))
  {
    var s := pre + LengthBytes(length) + rest;
    if length >= 128 {
      LengthDigits(length);
      var d := Digits(length);
      assert s[|pre|] == 128 + |d|;
      assert s[|pre| + 1..|pre| + 1 + |d|] == d;
      ValueDigits(length);
    }
  }

  lemma Lead(id: nat, flags: nat)
    requires IsFlags(flags) && id < 32
    ensures (id + flags) / 32 * 32 == flags && (id + flags) % 32 == id
  {
  }

  /** Reading inverts writing for identifiers of up to 30, whatever follows. */
  lemma {:induction false} ShortRoundTrip(id: nat, length: nat, flags: nat, rest: seq<byte>)
    requires IsFlags(flags) && length < LENGTH_LIMIT && id <= 30
    ensures ReadIdLen(IdLen(id, length, flags) + rest) == Some(Header(id, length, flags, |IdLen(id, length, flags)|))
  {
    hide LengthBytes, ReadLength;
    Lead(id, flags);
    var s := IdLen(id, length, flags) + rest;
    assert s == IdBytes(id, flags) + LengthBytes(length) + rest;
    ReadWrittenLength(IdBytes(id, flags), length, rest);
    assert s[0] == id + flags;
  }

  // ---- longer identifiers ----

  /** What the reader makes of the septets of id after it has already collected acc. */
  function Collected(acc: nat, id: nat): nat {
    (if id < 128 then acc else Collected(acc, id / 128)) * 128 + id % 128
  }

  lemma ReadIdStep(s: seq<byte>, i: nat, acc: nat)
    requires i < |s|
    ensures s[i] < 128 ==> ReadId(s, i, acc) == Some((acc * 128 + s[i], i + 1))
    ensures s[i] >= 128 && i + 1 < |s| ==> ReadId(s, i, acc) == ReadId(s, i + 1, acc * 128 + s[i] % 128)
  {
  }

  lemma CollectedStep(acc: nat, id: nat)
    ensures Collected(acc, id) == (if id < 128 then acc else Collected(acc, id / 128)) * 128 + id % 128
  {
  }

  lemma SeptetsStep(id: nat, more: bool)
    ensures Septets(id, more) ==
      (if id < 128 then [] else Septets(id / 128, true)) + [id % 128 + if more then 128 else 0]
  {
  }

  lemma {:induction false} ReadContinued(pre: seq<byte>, id: nat, tail: seq<byte>, acc: nat)
    requires tail != []
    ensures var s := pre + Septets(id, true) + tail;
      ReadId(s, |pre|, acc) == ReadId(s, |pre| + |Septets(id, true)|, Collected(acc, id))
    decreases id
  {
    hide ReadId, Collected, Septets;
    SeptetsStep(id, true);
    CollectedStep(acc, id);
    var s := pre + Septets(id, true) + tail;
    var last: byte := id % 128 + 128;
    assert last % 128 == id % 128;
    if id < 128 {
      assert s[|pre|] == last;
      ReadIdStep(s, |pre|, acc);
    } else {
      var head := Septets(id / 128, true);
      ReadContinued(pre, id / 128, [last] + tail, acc);
      assert s == pre + head + ([last] + tail);
      assert s[|pre| + |head|] == last;
      ReadIdStep(s, |pre| + |head|, Collected(acc, id / 128));
    }
  }

  lemma {:induction false} ReadSeptets(pre: seq<byte>, id: nat, rest: seq<byte>, acc: nat)
    ensures var s := pre + Septets(id, false) + rest;
      ReadId(s, |pre|, acc) == Some((Collected(acc, id), |pre| + |Septets(id, false)|))
  {
    hide ReadId, Collected, Septets;
    SeptetsStep(id, false);
    CollectedStep(acc, id);
    var s := pre + Septets(id, false) + rest;
    var last: byte := id % 128;
    if id < 128 {
      assert s[|pre|] == last;
      ReadIdStep(s, |pre|, acc);
    } else {
      var head := Septets(id / 128, true);
      ReadContinued(pre, id / 128, [last] + rest, acc);
      assert s == pre + head + ([last] + rest);
      assert s[|pre| + |head|] == last;
      ReadIdStep(s, |pre| + |head|, Collected(acc, id / 128));
    }
  }

  lemma {:induction false} CollectedIs(acc: nat, id: nat)
    ensures Collected(acc, id) == acc * Power128(|Septets(id, false)|) + id
    decreases id
  {
    if id < 128 {
      assert Power128(1) == 128;
    } else {
      var n := |Septets(id / 128, false)|;
      SameSeptets(id / 128);
      CollectedIs(acc, id / 128);
      Widen(acc, Power128(n), id);
    }
  }

  lemma SameSeptets(id: nat)
    ensures |Septets(id, true)| == |Septets(id, false)|
  {
  }

  lemma Widen(acc: nat, p: nat, id: nat)
    ensures (acc * p + id / 128) * 128 + id % 128 == acc * (128 * p) + id
  {
    assert acc * (128 * p) == acc * p * 128;
  }

  lemma {:induction false} SeptetsFit(id: nat)
    requires id < ID_LIMIT
    ensures 1 <= |Septets(id, false)| <= 4
    ensures |Septets(id, false)| == 4 ==> id >= 0x20_0000
  {
    SeptetCount(id, false, 4);
    SeptetCount(id, false, 3);
    assert Power128(3) == 0x20_0000 && Power128(4) == ID_LIMIT;
  }

  /** The lead byte of a longer identifier of the upper classes counts as a septet of its own, and does not shift out.
      */
  lemma {:induction false} LeadStays(lead: nat, id: nat)
    requires 31 <= lead < 128 && lead % 32 == 31 && id < ID_LIMIT
    ensures Signed32(Collected(lead, id)) != id
  {
    hide Collected, Septets, Power128;
    CollectedIs(lead, id);
    SeptetsFit(id);
    LowPowers();
    var n := |Septets(id, false)|;
    if n == 4 {
      assert lead == 31 || lead == 63 || lead == 95 || lead == 127;
    }
  }

  lemma LowPowers()
    ensures Power128(1) == 128 && Power128(2) == 0x4000 && Power128(3) == 0x20_0000 && Power128(4) == ID_LIMIT
  {
  }

  /** The reader takes the lead byte of a longer identifier for its first septet, and never gets the header right. */
  lemma {:induction false} LongMisread(id: nat, length: nat, flags: nat, rest: seq<byte>)
    requires IsFlags(flags) && length < LENGTH_LIMIT && 30 < id < ID_LIMIT
    ensures ReadIdLen(IdLen(id, length, flags) + rest) != Some(Header(id, length, flags, |IdLen(id, length, flags)|))
  {
    hide LengthBytes, ReadId, ReadIdLen, Septets, Collected, IsFlags, Signed32, ReadLength;
    FlagRoom(flags);
    Lead(31, flags);
    var lead: byte := 31 + flags;
    var tail := LengthBytes(length) + rest;
    var s := IdLen(id, length, flags) + rest;
    assert s == [lead] + Septets(id, false) + tail;
    assert s[0] == lead;
    ReadIdStep(s, 0, 0);
    ReadLead(s);
    if flags < 128 {
      ShortLead(s, id, lead, tail);
    } else {
      assert lead % 128 == lead - 128;
      ReadSeptets([lead], id, tail, lead - 128);
      LeadStays(lead - 128, id) by { UpperLead(flags); }
    }
  }

  lemma ReadLead(s: seq<byte>)
    requires s != [] && s[0] % 32 == 31
    ensures ReadIdLen(s).Some? ==>
      var id := ReadId(s, 0, 0);
      id.Some? && id.value.1 < |s| && ReadIdLen(s).value.id == Signed32(id.value.0) &&
      ReadLength(s, id.value.1).Some? && ReadIdLen(s).value.used == ReadLength(s, id.value.1).value.1
  {
    hide ReadId, ReadLength, Signed32;
  }

  lemma UpperLead(flags: nat)
    requires IsFlags(flags) && flags >= 128
    ensures 31 <= 31 + flags - 128 < 128 && (31 + flags - 128) % 32 == 31
  {
  }

  /** A lead byte without the top bit is taken for the whole identifier. */
  lemma {:induction false} ShortLead(s: seq<byte>, id: nat, lead: byte, tail: seq<byte>)
    requires id > 30 && lead < 128 && s == [lead] + Septets(id, false) + tail && tail != []
    ensures Signed32(lead) == lead
    ensures id == lead ==> ReadLength(s, 1) == Some((id, 2)) && 2 < |s| - |tail| + 1
  {
    hide Septets;
    SeptetsStep(id, false);
    if id == lead {
      assert s[1] == id;
    }
  }

  /** Reading inverts writing exactly for identifiers of up to 30. */
  lemma {:induction false} HeaderRoundTrip(id: nat, length: nat, flags: nat, rest: seq<byte>)
    requires IsFlags(flags) && length < LENGTH_LIMIT && id < ID_LIMIT
    ensures var s := IdLen(id, length, flags);
      ReadIdLen(s + rest) == Some(Header(id, length, flags, |s|)) <==> id <= 30
  {
    if id <= 30 {
      ShortRoundTrip(id, length, flags, rest);
    } else {
      LongMisread(id, length, flags, rest);
    }
  }

  // ---- the writer as it runs ----

  lemma {:induction false} DigitAt(n: nat, k: nat)
    requires k < |Digits(n)|
    ensures Digits(n)[|Digits(n)| - 1 - k] == n / Power256(k) % 256
    decreases k
  {
    if k > 0 {
      var d := Digits(n / 256);
      DigitAt(n / 256, k - 1);
      assert Digits(n)[|Digits(n)| - 1 - k] == d[|d| - 1 - (k - 1)];
      DivDiv(n, 256, Power256(k - 1));
    }
  }

  lemma {:induction false} DivDiv(n: nat, a: nat, b: nat)
    requires a > 0 && b > 0
    ensures a * b > 0 && n / a / b == n / (a * b)
  {
    var q, r, t := n / a / b, n / a % b, n % a;
    ModArith.Split(n, a);
    ModArith.Split(n / a, b);
    Regroup(a, b, q, r, t);
    MulBound(a, b, r, t);
    Quotient(n, a * b, q, a * r + t);
  }

  lemma Regroup(a: nat, b: nat, q: nat, r: nat, t: nat)
    ensures a * (b * q + r) + t == (a * b) * q + (a * r + t)
  {
    assert a * (b * q + r) == a * (b * q) + a * r;
    assert a * (b * q) == (a * b) * q;
  }

  lemma MulBound(a: nat, b: nat, r: nat, t: nat)
    requires r < b && t < a
    ensures a * r + t < a * b
  {
    ModArith.Monotone(a, r + 1, b);
    assert a * (r + 1) == a * r + a;
  }

  lemma Quotient(n: nat, m: nat, q: nat, r: nat)
    requires m > 0 && n == m * q + r && r < m
    ensures n / m == q
  {
    var q' := n / m;
    ModArith.Split(n, m);
    if q' < q {
      ModArith.Monotone(m, q' + 1, q);
    } else if q < q' {
      ModArith.Monotone(m, q + 1, q');
    }
  }

  lemma {:induction false} DigitCount(n: nat, k: nat)
    ensures n / Power256(k) > 0 <==> k < |Digits(n)|
    decreases k
  {
    if k > 0 {
      DivDiv(n, 256, Power256(k - 1));
      DigitCount(n / 256, k - 1);
    }
  }

  function Power128(n: nat): (r: nat)
    ensures r > 0
  {
    if n == 0 then 1 else 128 * Power128(n - 1)
  }

  lemma {:induction false} SeptetAt(id: nat, more: bool, k: nat)
    requires k < |Septets(id, more)|
    ensures Septets(id, more)[|Septets(id, more)| - 1 - k] == id / Power128(k) % 128 + if k > 0 || more then 128 else 0
    decreases k
  {
    if k > 0 {
      var d := Septets(id / 128, true);
      SeptetAt(id / 128, true, k - 1);
      assert Septets(id, more)[|Septets(id, more)| - 1 - k] == d[|d| - 1 - (k - 1)];
      DivDiv(id, 128, Power128(k - 1));
    }
  }

  lemma {:induction false} SeptetCount(id: nat, more: bool, k: nat)
    requires k > 0
    ensures id / Power128(k) > 0 <==> k < |Septets(id, more)|
    decreases k
  {
    DivDiv(id, 128, Power128(k - 1));
    if k > 1 {
      if id >= 128 {
        SeptetCount(id / 128, true, k - 1);
      } else {
        ZeroDiv(Power128(k - 1));
      }
    }
  }

  lemma ZeroDiv(m: nat)
    requires m > 0
    ensures 0 / m == 0
  {
  }

  /** Stores a byte when there is a destination; without one only the size is counted. */
  method Store(dest: array?<byte>, at: nat, b: byte)
    requires dest != null ==> at < dest.Length
    modifies dest
    ensures dest != null ==> dest[..] == old(dest[..])[at := b]
  {
    if dest != null {
      dest[at] := b;
    }
  }

  lemma PutMore(d: seq<byte>, at: nat, s: seq<byte>, b: byte)
    requires at + |s| < |d|
    ensures Put(d, at, s)[at + |s| := b] == Put(d, at, s + [b])
  {
  }

  /** The loop that counts septets; its shift is defined as long as the identifier has at most four. */
  method CountSeptets(id: nat) returns (n: Option<nat>)
    ensures n == if id < ID_LIMIT then Some(|Septets(id, false)|) else None
  {
    hide Septets, Power128;
    LowPowers();
    var k := 1;
    SeptetCount(id, false, 1);
    while true
      invariant 1 <= k <= 5 && k <= |Septets(id, false)| && (id / Power128(k) > 0 <==> k < |Septets(id, false)|)
      invariant k == 5 ==> id >= ID_LIMIT
      decreases 5 - k
    {
      if 7 * k >= 32 {
        return None;
      }
      if id / Power128(k) == 0 {
        Below(id, k);
        return Some(k);
      }
      k := k + 1;
      SeptetCount(id, false, k);
    }
  }

  lemma Below(id: nat, k: nat)
    requires 1 <= k <= 4 && id / Power128(k) == 0
    ensures id < ID_LIMIT
  {
    LowPowers();
  }

  /** The multi-byte part of an identifier, most significant septet first. */
  method WriteSeptets(dest: array?<byte>, at: nat, id: nat, n: nat)
    requires n == |Septets(id, false)| && (dest != null ==> at + n <= dest.Length)
    modifies dest
    ensures dest != null ==> dest[..] == Put(old(dest[..]), at, Septets(id, false))
  {
    hide Septets, Power128, Put;
    ghost var all := Septets(id, false);
    var left, len := n, 0;
    if dest != null { PutNone(dest[..], at); }
    while left > 0
      invariant 0 <= left <= n && len + left == n
      invariant dest != null ==> dest[..] == Put(old(dest[..]), at, all[..len])
    {
      left := left - 1;
      SeptetAt(id, false, left);
      var b: byte := (if left > 0 then 128 else 0) + id / Power128(left) % 128;
      if dest != null { PutMore(old(dest[..]), at, all[..len], b); }
      Store(dest, at + len, b);
      assert all[..len + 1] == all[..len] + [b];
      len := len + 1;
    }
    assert all[..len] == all;
  }

  lemma PutNone(d: seq<byte>, at: nat)
    requires at <= |d|
    ensures Put(d, at, []) == d
  {
  }

  /** The bytes of a long length, most significant first. */
  method WriteDigits(dest: array?<byte>, at: nat, length: nat, n: nat)
    requires n == |Digits(length)| && (dest != null ==> at + n <= dest.Length)
    modifies dest
    ensures dest != null ==> dest[..] == Put(old(dest[..]), at, Digits(length))
  {
    hide Digits, Power256, Put;
    ghost var all := Digits(length);
    var left, len := n, 0;
    if dest != null { PutNone(dest[..], at); }
    while left > 0
      invariant 0 <= left <= n && len + left == n
      invariant dest != null ==> dest[..] == Put(old(dest[..]), at, all[..len])
    {
      left := left - 1;
      DigitAt(length, left);
      var b: byte := length / Power256(left) % 256;
      if dest != null { PutMore(old(dest[..]), at, all[..len], b); }
      Store(dest, at + len, b);
      assert all[..len + 1] == all[..len] + [b];
      len := len + 1;
    }
    assert all[..len] == all;
  }

  /** The loop that counts the bytes of a length; its shift is defined up to three. */
  method CountDigits(length: nat) returns (n: Option<nat>)
    requires length > 0
    ensures n == if length < LENGTH_LIMIT then Some(|Digits(length)|) else None
  {
    hide Digits, Power256;
    LowPowers256();
    var k := 1;
    DigitCount(length, 0);
    DigitCount(length, 1);
    while true
      invariant 1 <= k <= 4 && k <= |Digits(length)| && (length / Power256(k) > 0 <==> k < |Digits(length)|)
      invariant k == 4 ==> length >= LENGTH_LIMIT
      decreases 4 - k
    {
      if 8 * k >= 32 {
        return None;
      }
      if length / Power256(k) == 0 {
        return Some(k);
      }
      k := k + 1;
      DigitCount(length, k);
    }
  }

  lemma LowPowers256()
    ensures Power256(0) == 1 && Power256(1) == 256 && Power256(2) == 0x1_0000 && Power256(3) == LENGTH_LIMIT
  {
  }

  /** An identifier of more than five bits: lead byte and septets. */
  method WriteLongId(dest: array?<byte>, at: nat, id: nat, lead: byte) returns (len: Option<nat>)
    requires dest != null ==> at + |[lead] + Septets(id, false)| <= dest.Length
    modifies dest
    ensures len == if id < ID_LIMIT then Some(1 + |Septets(id, false)|) else None
    ensures dest != null && len.Some? ==> dest[..] == Put(old(dest[..]), at, [lead] + Septets(id, false))
  {
    hide Septets, Put;
    ghost var was := if dest != null then dest[..] else [];
    if dest != null { PutOne(was, at, lead); }
    Store(dest, at, lead);
    var n := CountSeptets(id);
    if n.None? {
      return None;
    }
    WriteSeptets(dest, at + 1, id, n.value);
    if dest != null { PutConcat(was, at, [lead], Septets(id, false)); }
    len := Some(1 + n.value);
  }

  method WriteId(dest: array?<byte>, at: nat, id: nat, flags: nat) returns (len: Option<nat>)
    requires IsFlags(flags) && (dest != null ==> at + |IdBytes(id, flags)| <= dest.Length)
    modifies dest
    ensures len == if id < ID_LIMIT then Some(|IdBytes(id, flags)|) else None
    ensures dest != null && len.Some? ==> dest[..] == Put(old(dest[..]), at, IdBytes(id, flags))
  {
    hide Septets, Put, IsFlags;
    FlagRoom(flags);
    if id <= 30 {
      if dest != null { PutOne(dest[..], at, id + flags); }
      Store(dest, at, id + flags);
      return Some(1);
    }
    len := WriteLongId(dest, at, id, 31 + flags);
  }

  method WriteLength(dest: array?<byte>, at: nat, length: nat) returns (len: Option<nat>)
    requires dest != null && length < LENGTH_LIMIT ==> at + |LengthBytes(length)| <= dest.Length
    modifies dest
    ensures len == if length < LENGTH_LIMIT then Some(|LengthBytes(length)|) else None
    ensures dest != null && len.Some? ==> dest[..] == Put(old(dest[..]), at, LengthBytes(length))
  {
    hide Digits, Put;
    if length < 128 {
      if dest != null { PutOne(dest[..], at, length); }
      Store(dest, at, length);
      return Some(1);
    }
    var n := CountDigits(length);
    if n.None? {
      return None;
    }
    LengthDigits(length);
    ghost var was := if dest != null then dest[..] else [];
    if dest != null { PutOne(was, at, 128 + n.value); }
    Store(dest, at, 128 + n.value);
    WriteDigits(dest, at + 1, length, n.value);
    if dest != null { PutConcat(was, at, [128 + n.value], Digits(length)); }
    len := Some(1 + n.value);
  }

  /** ber_write_id_len: the same count with and without a destination. It is defined exactly for identifiers below
      2^28 and lengths below 2^24; beyond, a counting loop shifts by 32 bits or more. */
  method WriteIdLen(dest: array?<byte>, at: nat, id: nat, length: nat, flags: nat) returns (len: Option<nat>)
    requires IsFlags(flags)
    requires dest != null ==> at + |IdBytes(id, flags)| <= dest.Length
    requires dest != null && length < LENGTH_LIMIT ==> at + |IdLen(id, length, flags)| <= dest.Length
    modifies dest
    ensures len == if id < ID_LIMIT && length < LENGTH_LIMIT then Some(|IdLen(id, length, flags)|) else None
    ensures dest != null && len.Some? ==> dest[..] == Put(old(dest[..]), at, IdLen(id, length, flags))
  {
    hide IdBytes, LengthBytes, Put, IsFlags;
    ghost var was := if dest != null then dest[..] else [];
    var first := WriteId(dest, at, id, flags);
    if first.None? {
      return None;
    }
    var second := WriteLength(dest, at + first.value, length);
    if second.None? {
      return None;
    }
    if dest != null { PutConcat(was, at, IdBytes(id, flags), LengthBytes(length)); }
    len := Some(first.value + second.value);
  }

  lemma PutOne(d: seq<byte>, at: nat, b: byte)
    requires at < |d|
    ensures d[at := b] == Put(d, at, [b])
  {
  }

  /** Adding a digit to a register of 32 bits. */
  lemma RegisterStep(base: nat, acc: nat, b: nat)
    ensures (base * (acc % TWO32) + b) % TWO32 == (base * acc + b) % TWO32
  {
    var k, r := acc / TWO32, acc % TWO32;
    ModArith.Split(acc, TWO32);
    assert base * acc + b == TWO32 * (base * k) + (base * r + b) by {
      assert base * (TWO32 * k + r) == base * (TWO32 * k) + base * r;
      assert base * (TWO32 * k) == TWO32 * (base * k);
    }
    ModArith.ModOfMultiple(TWO32, base * k, base * r + b);
  }

  lemma RegisterValue(acc: nat)
    ensures Signed32(acc % TWO32) == Signed32(acc)
  {
  }

  /** The loop over a multi-byte identifier, in a register of 32 bits. */
  method ReadLongId(s: seq<byte>) returns (r: Option<(nat, nat)>)
    requires s != []
    ensures r.None? <==> ReadId(s, 0, 0).None?
    ensures r.Some? ==> r.value.1 == ReadId(s, 0, 0).value.1 && r.value.0 == ReadId(s, 0, 0).value.0 % TWO32
  {
    hide ReadId;
    var p, id := 0, 0;
    ghost var acc: nat := 0;
    while s[p] >= 128
      invariant p < |s| && ReadId(s, 0, 0) == ReadId(s, p, acc) && id == acc % TWO32
      decreases |s| - p
    {
      ReadIdStep(s, p, acc);
      RegisterStep(128, acc, s[p] % 128);
      if p + 1 == |s| {
        ReadIdEnds(s, p, acc);
        return None;
      }
      id, acc, p := (128 * id + s[p] % 128) % TWO32, 128 * acc + s[p] % 128, p + 1;
    }
    ReadIdStep(s, p, acc);
    RegisterStep(128, acc, s[p]);
    r := Some(((128 * id + s[p]) % TWO32, p + 1));
  }

  /** The loop over a long length, in a register of 32 bits. */
  method ReadDigits(s: seq<byte>, p: nat, n: nat) returns (length: nat)
    requires p + n <= |s|
    ensures length == Value(s[p..p + n]) % TWO32
  {
    hide Value;
    length := 0;
    ValueNone();
    assert s[p..p] == [];
    for k := 0 to n
      invariant length == Value(s[p..p + k]) % TWO32
    {
      ValueMore(s[p..p + k], s[p + k]);
      assert s[p..p + k + 1] == s[p..p + k] + [s[p + k]];
      RegisterStep(256, Value(s[p..p + k]), s[p + k]);
      length := (256 * length + s[p + k]) % TWO32;
    }
  }

  /** ber_read_id_len as it runs. */
  method ReadHeader(s: seq<byte>) returns (r: Option<Header>)
    ensures r == ReadIdLen(s)
  {
    hide ReadId, Value, Signed32;
    if |s| == 0 {
      return None;
    }
    var flags, first := s[0] / 32 * 32, Some((s[0] % 32, 1));
    RegisterValue(s[0] % 32);
    if s[0] % 32 == 31 {
      first := ReadLongId(s);
      if first.None? {
        return None;
      }
      RegisterValue(ReadId(s, 0, 0).value.0);
    }
    var (id, p) := first.value;
    if p == |s| {
      return None;
    }
    if s[p] >= 128 {
      var n := s[p] - 128;
      p := p + 1;
      if |s| - p < n {
        return None;
      }
      var length := ReadDigits(s, p, n);
      RegisterValue(Value(s[p..p + n]));
      r := Some(Header(Signed32(id), Signed32(length), flags, p + n));
    } else {
      r := Some(Header(Signed32(id), Signed32(s[p]), flags, p + 1));
    }
  }

  lemma ReadIdEnds(s: seq<byte>, i: nat, acc: nat)
    requires i + 1 == |s| && s[i] >= 128
    ensures ReadId(s, i, acc) == None
  {
  }

  lemma ValueNone()
    ensures Value([]) == 0
  {
  }

  lemma ValueMore(s: seq<byte>, b: byte)
    ensures Value(s + [b]) == 256 * Value(s) + b
  {
    assert (s + [b])[..|s|] == s;
  }

  // ---- the forms of section 8.1 of ITU-T X.690 ----

  /** Identifiers up to 30 take one byte. Lengths below 128 take one byte; longer ones are their shortest big-endian
      form behind a count. */
  lemma {:induction false} HeaderForm(id: nat, length: nat, flags: nat)
    requires IsFlags(flags) && id <= 30 && length < LENGTH_LIMIT
    ensures length < 128 ==> IdLen(id, length, flags) == [flags + id, length]
    ensures length >= 128 ==>
      var s := IdLen(id, length, flags);
      && |s| >= 3 && s[0] as int == flags + id && s[1] as int == 128 + |s| - 2 && s[2] != 0 && Value(s[2..]) == length
  {
    Lead(id, flags);
    if length >= 128 {
      LongForm(length);
      hide LengthBytes, Value;
      var s, t := IdLen(id, length, flags), LengthBytes(length);
      assert IdBytes(id, flags) == [flags + id];
      assert s[2..] == t[1..] && s[1] == t[0] && s[2] == t[1];
    }
  }

  lemma {:induction false} LongForm(length: nat)
    requires 128 <= length < LENGTH_LIMIT
    ensures var t := LengthBytes(length);
      |t| >= 2 && t[0] as int == 128 + |t| - 1 && t[1] != 0 && Value(t[1..]) == length
  {
    ValueDigits(length);
    DigitsBits(length);
    LengthDigits(length);
    NotNothing(length);
    hide Digits, Value, Bits;
    var t := LengthBytes(length);
    assert t[1..] == Digits(length) && t[1] == Digits(length)[0];
  }

  lemma NotNothing(n: nat)
    requires n > 0
    ensures Digits(n) != []
  {
  }

  /** What the reader makes of any bytes whose identifier takes one byte. */
  lemma {:induction false} ReadForm(s: seq<byte>)
    ensures |s| < 2 ==> ReadIdLen(s) == None
    ensures |s| >= 2 && s[0] % 32 != 31 && s[1] < 128 ==>
      ReadIdLen(s) == Some(Header(s[0] as int % 32, s[1] as int, s[0] as int / 32 * 32, 2))
    ensures |s| >= 2 && s[0] % 32 != 31 && s[1] >= 128 && |s| < s[1] as int - 126 ==> ReadIdLen(s) == None
    ensures |s| >= 2 && s[0] % 32 != 31 && s[1] >= 128 && |s| >= s[1] as int - 126 ==>
      var n := s[1] as int - 128;
      ReadIdLen(s) == Some(Header(s[0] as int % 32, Signed32(Value(s[2..2 + n])), s[0] as int / 32 * 32, 2 + n))
  {
    hide Value;
  }
}
