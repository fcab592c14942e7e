/** keyimport.c: private keys written as a BER sequence of integers and read back in Dropbear's order. */
module KeyImport {
  import opened Wrappers
  import opened Bytes
  import opened Ber
  import opened SshBuffer

  datatype Kind = RSA | DSA

  const CONSTRUCTED: nat := 32
  const SEQUENCE: nat := 16
  const INTEGER: nat := 2

  /** The integers of a private key. RSA fields are e, n, d, p, q with extra dmp1, dmq1, iqmp; DSA fields are p, q, g,
      y, x. */
  function Numbers(kind: Kind, fields: seq<seq<byte>>, extra: seq<seq<byte>>): (r: seq<seq<byte>>)
    requires |fields| == 5 && (kind == RSA ==> |extra| == 3)
    ensures |r| == if kind == RSA then 9 else 6
  {
    if kind == RSA then [[0], fields[1], fields[0], fields[2], fields[3], fields[4], extra[0], extra[1], extra[2]]
    else [[0], fields[0], fields[1], fields[2], fields[3], fields[4]]
  }

  ghost predicate Small(ns: seq<seq<byte>>) {
    forall i :: 0 <= i < |ns| ==> |ns[i]| < LENGTH_LIMIT
  }

  function Integer(n: seq<byte>): seq<byte>
    requires |n| < LENGTH_LIMIT
  {
    IdLen(INTEGER, |n|, 0) + n
  }

  function Body(ns: seq<seq<byte>>): seq<byte>
    requires Small(ns)
  {
    if ns == [] then [] else Integer(ns[0]) + Body(ns[1..])
  }

  /** Every length has a defined encoding. */
  ghost predicate Writable(ns: seq<seq<byte>>) {
    Small(ns) && |Body(ns)| < LENGTH_LIMIT
  }

  function Encode(ns: seq<seq<byte>>): seq<byte>
    requires Writable(ns)
  {
    IdLen(SEQUENCE, |Body(ns)|, CONSTRUCTED) + Body(ns)
  }

  lemma {:induction false} BodyMore(ns: seq<seq<byte>>, n: seq<byte>)
    requires Small(ns) && |n| < LENGTH_LIMIT
    ensures Small(ns + [n]) && Body(ns + [n]) == Body(ns) + Integer(n)
    decreases |ns|
  {
    hide Integer;
    if ns == [] {
      assert ([n])[1..] == [];
      assert Body([n]) == Integer(n) + Body([]);
    } else {
      assert (ns + [n])[1..] == ns[1..] + [n];
      BodyMore(ns[1..], n);
      ConcatAssoc(Integer(ns[0]), Body(ns[1..]), Integer(n));
    }
  }

  lemma {:induction false} BodyGrows(ns: seq<seq<byte>>, k: nat)
    requires Small(ns) && k <= |ns|
    ensures Small(ns[..k]) && |Body(ns[..k])| <= |Body(ns)|
    decreases |ns| - k
  {
    if k == |ns| {
      assert ns[..k] == ns;
    } else {
      hide Body, Integer;
      BodyMore(ns[..k], ns[k]);
      assert ns[..k + 1] == ns[..k] + [ns[k]];
      BodyGrows(ns, k + 1);
    }
  }

  /** The sizing pass of openssh_write. */
  method SizeOf(ns: seq<seq<byte>>) returns (len: Option<nat>)
    ensures Small(ns) ==> len == Some(|Body(ns)|)
    ensures !Small(ns) ==> len == None
  {
    hide Body, IdLen;
    var n := 0;
    BodyNone();
    assert ns[..0] == [];
    for i := 0 to |ns|
      invariant Small(ns[..i]) && n == |Body(ns[..i])|
    {
      var size := WriteIdLen(null, 0, INTEGER, |ns[i]|, 0);
      if size.None? {
        return None;
      }
      BodyMore(ns[..i], ns[i]);
      assert ns[..i + 1] == ns[..i] + [ns[i]];
      n := n + size.value + |ns[i]|;
    }
    assert ns[..|ns|] == ns;
    len := Some(n);
  }

  /** The part of openssh_write from the sizing pass on: the size counted first is exactly what is written. */
  method Write(ns: seq<seq<byte>>) returns (out: array?<byte>)
    ensures out != null <==> Writable(ns)
    ensures out != null ==> fresh(out) && out[..] == Encode(ns)
  {
    hide Body, IdLen, Put;
    var seqlen := SizeOf(ns);
    if seqlen.None? {
      return null;
    }
    var size := WriteIdLen(null, 0, SEQUENCE, seqlen.value, CONSTRUCTED);
    if size.None? {
      return null;
    }
    out := new byte[seqlen.value + size.value];
    ghost var blank, header := out[..], IdLen(SEQUENCE, seqlen.value, CONSTRUCTED);
    HeaderParts(SEQUENCE, seqlen.value, CONSTRUCTED);
    var start := WriteIdLen(out, 0, SEQUENCE, seqlen.value, CONSTRUCTED);
    var pos := start.value;
    BodyNone();
    assert ns[..0] == [] && header + [] == header;
    for i := 0 to |ns|
      invariant Small(ns[..i]) && pos == |header| + |Body(ns[..i])| && |Body(ns[..i])| <= |Body(ns)|
      invariant out[..] == Put(blank, 0, header + Body(ns[..i]))
    {
      BodyMore(ns[..i], ns[i]);
      BodyGrows(ns, i + 1);
      assert ns[..i + 1] == ns[..i] + [ns[i]];
      pos := WriteInteger(out, pos, ns[i]);
      PutConcat(blank, 0, header + Body(ns[..i]), Integer(ns[i]));
      ConcatAssoc(header, Body(ns[..i]), Integer(ns[i]));
    }
    assert ns[..|ns|] == ns;
    PutAll(blank, Encode(ns));
  }

  lemma HeaderParts(id: nat, length: nat, flags: nat)
    requires IsFlags(flags) && length < LENGTH_LIMIT
    ensures |IdBytes(id, flags)| <= |IdLen(id, length, flags)|
  {
    hide IdBytes, LengthBytes;
  }

  method WriteInteger(out: array<byte>, at: nat, n: seq<byte>) returns (pos: nat)
    requires |n| < LENGTH_LIMIT && at + |Integer(n)| <= out.Length
    modifies out
    ensures pos == at + |Integer(n)| && out[..] == Put(old(out[..]), at, Integer(n))
  {
    hide IdLen, Put;
    HeaderParts(INTEGER, |n|, 0);
    PutConcat(out[..], at, IdLen(INTEGER, |n|, 0), n);
    var size := WriteIdLen(out, at, INTEGER, |n|, 0);
    CopyInto(out, at + size.value, n);
    pos := at + size.value + |n|;
  }

  lemma PutAll(d: seq<byte>, s: seq<byte>)
    requires |d| == |s|
    ensures Put(d, 0, s) == s
  {
  }

  lemma BodyNone()
    ensures Body([]) == []
  {
  }

  // ---- reading ----

  /** What the loop over the integers ends with: the integers, a refusal, or an access outside the blob or the buffer.
      A negative length passes the bound test of openssh_read. It moves the position back, maybe before the blob, and
      as the length of a string to store it ends the program or copies without bound. */
  datatype Ints = Ints(list: seq<seq<byte>>) | Refused | Outside

  /** One integer from position pos on: where it starts and how long it is; the first one has to be a single zero. */
  datatype Number = Number(start: nat, length: int) | Bad | Before

  function ReadInt(s: seq<byte>, pos: int, first: bool): (r: Number)
    requires pos <= |s|
    ensures r.Number? ==> pos <= r.start <= |s| && r.start + r.length <= |s|
    ensures r.Number? && first ==> r.length == 1 && s[r.start] == 0
  {
    if pos < 0 then Before
    else
      var h := ReadIdLen(s[pos..]);
      if h.None? || h.value.id != INTEGER || |s| - pos - h.value.used < h.value.length then Bad
      else if first && (h.value.length != 1 || s[pos + h.value.used] != 0) then Bad
      else Number(pos + h.value.used, h.value.length)
  }

  function Count(kind: Kind): nat {
    if kind == RSA then 9 else 6
  }

  /** The integers that are stored as soon as they have been read. */
  predicate Stored(kind: Kind, i: nat) {
    if kind == RSA then 2 <= i <= 5 else i >= 1
  }

  /** The bytes of an integer; those of a negative length are never looked at. */
  function Slice(s: seq<byte>, start: nat, length: int): seq<byte>
    requires start <= |s| && start + length <= |s|
  {
    if length < 0 then [] else s[start..start + length]
  }

  /** The loop of openssh_read from the i-th integer and position pos on; the RSA modulus is stored along with the
      second integer. */
  function ReadInts(kind: Kind, s: seq<byte>, pos: int, i: nat, badModulus: bool): Ints
    requires pos <= |s|
    decreases Count(kind) - i
  {
    if i >= Count(kind) then Ints([])
    else
      match ReadInt(s, pos, i == 0)
      case Bad => Refused
      case Before => Outside
      case Number(start, length) =>
        if (length < 0 && Stored(kind, i)) || (badModulus && i == 2) then Outside
        else
          Prepend([Slice(s, start, length)],
                  ReadInts(kind, s, start + length, i + 1, kind == RSA && i == 1 && length < 0))
  }

  function Prepend(done: seq<seq<byte>>, o: Ints): Ints {
    if o.Ints? then Ints(done + o.list) else o
  }

  /** openssh_read after base64 decoding: the key's fields in Dropbear's order. */
  datatype Outcome = Key(fields: seq<seq<byte>>) | NoKey | Broken

  function Read(kind: Kind, s: seq<byte>): Outcome {
    var h := ReadIdLen(s);
    if h.None? || h.value.id != SEQUENCE then NoKey
    else
      match ReadInts(kind, s, h.value.used, 0, false)
      case Refused => NoKey
      case Outside => Broken
      case Ints(n) =>
        if |n| < 6 then NoKey
        else if kind == RSA then Key([n[2], n[1], n[3], n[4], n[5]])
        else Key([n[1], n[2], n[3], n[4], n[5]])
  }

  /** Integers as they are written are read as such, and the loop goes on behind them. */
  lemma {:induction false} ReadWritten(kind: Kind, pre: seq<byte>, ns: seq<seq<byte>>, rest: seq<byte>, i: nat)
    requires Small(ns) && i + |ns| <= Count(kind) && (i == 0 ==> ns != [] && ns[0] == [0])
    ensures var s := pre + Body(ns) + rest;
      ReadInts(kind, s, |pre|, i, false) == Prepend(ns, ReadInts(kind, s, |pre + Body(ns)|, i + |ns|, false))
    decreases |ns|
  {
    hide IdLen, ReadIdLen, ReadInts, Prepend;
    var s := pre + Body(ns) + rest;
    if ns == [] {
      assert pre + Body(ns) == pre;
      PrependNothing(ReadInts(kind, s, |pre|, i, false));
    } else {
      var n := ns[0];
      var header, tail := IdLen(INTEGER, |n|, 0), Body(ns[1..]);
      assert Body(ns) == header + n + tail;
      hide Body;
      ShortRoundTrip(INTEGER, |n|, 0, n + tail + rest);
      Layout(pre, header, n, tail, rest);
      assert i == 0 ==> s[|pre| + |header|] == n[0];
      ReadIntsStep(kind, s, |pre|, i, false);
      var pre' := pre + header + n;
      ReadWritten(kind, pre', ns[1..], rest, i + 1);
      assert |pre' + tail| == |pre + Body(ns)|;
      PrependMore([n], ns[1..], ReadInts(kind, s, |pre' + tail|, i + |ns|, false));
      assert [n] + ns[1..] == ns;
    }
  }

  lemma Layout(pre: seq<byte>, header: seq<byte>, n: seq<byte>, tail: seq<byte>, rest: seq<byte>)
    ensures var s := pre + (header + n + tail) + rest;
      && s[|pre|..] == header + (n + tail + rest)
      && s[|pre| + |header|..|pre| + |header| + |n|] == n
      && (n != [] ==> s[|pre| + |header|] == n[0])
      && s == (pre + header + n) + tail + rest
  {
  }

  /** Writing a key and reading it back gives the same fields in the same order, whatever padding follows. */
  lemma {:induction false} KeyRoundTrip(kind: Kind, fields: seq<seq<byte>>, extra: seq<seq<byte>>, padding: seq<byte>)
    requires |fields| == 5 && (kind == RSA ==> |extra| == 3)
    requires Writable(Numbers(kind, fields, extra))
    ensures Read(kind, Encode(Numbers(kind, fields, extra)) + padding) == Key(fields)
  {
    hide IdLen, ReadIdLen, ReadInts, Body;
    var ns := Numbers(kind, fields, extra);
    var header := IdLen(SEQUENCE, |Body(ns)|, CONSTRUCTED);
    var s := Encode(ns) + padding;
    ConcatAssoc(header, Body(ns), padding);
    ShortRoundTrip(SEQUENCE, |Body(ns)|, CONSTRUCTED, Body(ns) + padding);
    ReadWritten(kind, header, ns, padding, 0);
    ReadIntsNone(kind, s, |Encode(ns)|, false);
    PrependAll(ns);
    assert fields == [fields[0], fields[1], fields[2], fields[3], fields[4]];
  }

  /** openssh_read's loop as it runs: the modulus is kept back until the exponent has been stored. */
  method ReadKey(kind: Kind, s: seq<byte>) returns (r: Outcome)
    ensures r == Read(kind, s)
  {
    hide ReadIdLen, ReadInt, ReadInts, Blob, Read, Prepend, Slice;
    var h := ReadHeader(s);
    if h.None? || h.value.id != SEQUENCE {
      NoSequence(kind, s);
      return NoKey;
    }
    var pos: int, blob, modulus, badModulus := h.value.used, [], [], false;
    ghost var start, done := pos, [];
    PrependNothing(ReadInts(kind, s, pos, 0, false));
    BlobNone(kind);
    for i := 0 to Count(kind)
      invariant pos <= |s| && |done| == i
      invariant ReadInts(kind, s, start, 0, false) == Prepend(done, ReadInts(kind, s, pos, i, badModulus))
      invariant kind == RSA && i >= 2 ==> modulus == done[1]
      invariant blob == Blob(kind, done)
    {
      ReadIntsStep(kind, s, pos, i, badModulus);
      var n := NextInt(s, pos, i == 0);
      if !n.Number? || (n.length < 0 && Stored(kind, i)) || (badModulus && i == 2) {
        PrependStops(done, ReadInts(kind, s, pos, i, badModulus));
        ReadResult(kind, s, done);
        return if n.Bad? then NoKey else Broken;
      }
      var number := Slice(s, n.start, n.length);
      blob, modulus := StoreNumber(kind, i, number, blob, modulus, done);
      pos, badModulus := n.start + n.length, kind == RSA && i == 1 && n.length < 0;
      PrependMore(done, [number], ReadInts(kind, s, pos, i + 1, badModulus));
      done := done + [number];
    }
    ReadIntsNone(kind, s, pos, badModulus);
    PrependAll(done);
    ReadResult(kind, s, done);
    r := Key(blob);
  }

  /** What becomes of the i-th integer. */
  method StoreNumber(kind: Kind, i: nat, number: seq<byte>, blob: seq<seq<byte>>, modulus: seq<byte>,
                     ghost done: seq<seq<byte>>) returns (blob': seq<seq<byte>>, modulus': seq<byte>)
    requires |done| == i && blob == Blob(kind, done) && (kind == RSA && i >= 2 ==> modulus == done[1])
    ensures blob' == Blob(kind, done + [number]) && (kind == RSA && i >= 1 ==> modulus' == (done + [number])[1])
  {
    hide Blob;
    BlobStep(kind, done, number);
    blob', modulus' := blob, modulus;
    if kind == RSA && i == 1 {
      modulus' := number;
    } else if kind == RSA && 2 <= i <= 5 {
      blob' := blob + [number];
      if i == 2 {
        blob' := blob' + [modulus];
      }
    } else if kind == DSA && i > 0 {
      blob' := blob + [number];
    }
  }

  /** The header of one integer and the tests on it. */
  method NextInt(s: seq<byte>, pos: int, first: bool) returns (r: Number)
    requires pos <= |s|
    ensures r == ReadInt(s, pos, first)
  {
    hide ReadIdLen;
    if pos < 0 {
      return Before;
    }
    var h := ReadHeader(s[pos..]);
    if h.None? || h.value.id != INTEGER || |s| - pos - h.value.used < h.value.length {
      return Bad;
    }
    var start := pos + h.value.used;
    if first && (h.value.length != 1 || s[start] != 0) {
      return Bad;
    }
    r := Number(start, h.value.length);
  }

  /** The strings stored after the given integers have been read. */
  ghost function Blob(kind: Kind, n: seq<seq<byte>>): seq<seq<byte>> {
    if kind == DSA then (if n == [] then [] else n[1..])
    else if |n| <= 2 then []
    else [n[2], n[1]] + (if |n| <= 6 then n[3..] else n[3..6])
  }

  lemma BlobStep(kind: Kind, n: seq<seq<byte>>, number: seq<byte>)
    ensures Blob(kind, n + [number]) ==
      if kind == DSA then (if n == [] then [] else Blob(kind, n) + [number])
      else if |n| == 2 then [number, n[1]]
      else if 3 <= |n| <= 5 then Blob(kind, n) + [number]
      else Blob(kind, n)
    ensures (kind == RSA && |n| <= 2) || n == [] ==> Blob(kind, n) == []
  {
  }

  lemma PrependMore(done: seq<seq<byte>>, more: seq<seq<byte>>, o: Ints)
    ensures Prepend(done, Prepend(more, o)) == Prepend(done + more, o)
  {
    if o.Ints? {
      ConcatAssoc(done, more, o.list);
    }
  }

  lemma BlobNone(kind: Kind)
    ensures Blob(kind, []) == []
  {
  }

  lemma BlobAll(kind: Kind, n: seq<seq<byte>>)
    requires |n| == Count(kind)
    ensures Blob(kind, n) == if kind == RSA then [n[2], n[1], n[3], n[4], n[5]] else [n[1], n[2], n[3], n[4], n[5]]
  {
  }

  lemma PrependAll(done: seq<seq<byte>>)
    ensures Prepend(done, Ints([])) == Ints(done)
  {
    assert done + [] == done;
  }

  lemma PrependStops(done: seq<seq<byte>>, o: Ints)
    requires !o.Ints?
    ensures Prepend(done, o) == o
  {
  }

  lemma NoSequence(kind: Kind, s: seq<byte>)
    requires var h := ReadIdLen(s); h.None? || h.value.id != SEQUENCE
    ensures Read(kind, s) == NoKey
  {
  }

  /** What the integers, or the first bad one, make of the key. */
  lemma ReadResult(kind: Kind, s: seq<byte>, done: seq<seq<byte>>)
    requires ReadIdLen(s).Some? && ReadIdLen(s).value.id == SEQUENCE
    ensures
      var o := ReadInts(kind, s, ReadIdLen(s).value.used, 0, false);
      && (o == Refused ==> Read(kind, s) == NoKey)
      && (o == Outside ==> Read(kind, s) == Broken)
      && (o == Ints(done) && |done| == Count(kind) ==> Read(kind, s) == Key(Blob(kind, done)))
  {
    hide ReadIdLen, ReadInts, Blob;
    if |done| == Count(kind) {
      BlobAll(kind, done);
    }
  }

  lemma PrependNothing(o: Ints)
    ensures Prepend([], o) == o
  {
    if o.Ints? {
      assert [] + o.list == o.list;
    }
  }

  lemma ReadIntsStep(kind: Kind, s: seq<byte>, pos: int, i: nat, badModulus: bool)
    requires pos <= |s| && i < Count(kind)
    ensures ReadInts(kind, s, pos, i, badModulus) ==
      match ReadInt(s, pos, i == 0)
      case Bad => Refused
      case Before => Outside
      case Number(start, length) =>
        if (length < 0 && Stored(kind, i)) || (badModulus && i == 2) then Outside
        else
          Prepend([Slice(s, start, length)],
                  ReadInts(kind, s, start + length, i + 1, kind == RSA && i == 1 && length < 0))
  {
    hide ReadInt, Slice;
  }

  lemma ReadIntsNone(kind: Kind, s: seq<byte>, pos: int, badModulus: bool)
    requires pos <= |s|
    ensures ReadInts(kind, s, pos, Count(kind), badModulus) == Ints([])
  {
  }

  /** The header of an integer whose length of four bytes reads as -1. */
  const MINUS_ONE: seq<byte> := [2, 132, 255, 255, 255, 255]

  lemma {:induction false} AllOnes()
    ensures Value([255, 255, 255, 255]) == 0xFFFF_FFFF
  {
    hide Value;
    ValueNone();
    ValueMore([], 255);
    ValueMore([255], 255);
    ValueMore([255, 255], 255);
    ValueMore([255, 255, 255], 255);
    assert [] + [255] == [255] && [255] + [255] == [255, 255] && [255, 255] + [255] == [255, 255, 255];
    assert [255, 255, 255] + [255] == [255, 255, 255, 255];
  }

  lemma {:induction false} NegativeHeader(rest: seq<byte>)
    ensures ReadIdLen(MINUS_ONE + rest) == Some(Header(INTEGER, -1, 0, 6))
  {
    hide Value;
    var s := MINUS_ONE + rest;
    AllOnes();
    assert s[0] == 2 && s[1] == 132 && s[2..6] == [255, 255, 255, 255];
    assert ReadLength(s, 1) == Some((0xFFFF_FFFF, 6));
  }

  /** The last integer of an RSA key is skipped without a look at it: even with a negative length the key is read. */
  lemma {:induction false} LastNegative(fields: seq<seq<byte>>, extra: seq<seq<byte>>, len: nat, rest: seq<byte>)
    requires |fields| == 5 && |extra| == 3 && Small(Numbers(RSA, fields, extra)[..8]) && len < LENGTH_LIMIT
    ensures
      var first := IdLen(SEQUENCE, len, CONSTRUCTED) + Body(Numbers(RSA, fields, extra)[..8]);
      Read(RSA, first + (MINUS_ONE + rest)) == Key(fields)
  {
    hide IdLen, ReadIdLen, ReadInts, Body;
    var ns := Numbers(RSA, fields, extra)[..8];
    var header := IdLen(SEQUENCE, len, CONSTRUCTED);
    var more := MINUS_ONE + rest;
    var first := header + Body(ns);
    var s := first + more;
    ConcatAssoc(header, Body(ns), more);
    ShortRoundTrip(SEQUENCE, len, CONSTRUCTED, Body(ns) + more);
    ReadWritten(RSA, header, ns, more, 0);
    NegativeHeader(rest);
    assert s[|first|..] == more;
    assert |first| + 6 <= |s|;
    assert ReadInt(s, |first|, false) == Number(|first| + 6, -1);
    ReadIntsStep(RSA, s, |first|, 8, false);
    ReadIntsNone(RSA, s, |first| + 5, false);
    assert |first| + 6 + -1 == |first| + 5 && Count(RSA) == 8 + 1 && Slice(s, |first| + 6, -1) == [];
    assert ReadInts(RSA, s, |first|, 8, false) == Prepend([[]], Ints([])) == Ints([[]]);
    assert ReadInts(RSA, s, |header|, 0, false) == Ints(ns + [[]]);
    assert fields == [fields[0], fields[1], fields[2], fields[3], fields[4]];
  }

  /** A key through both directions; nothing is written exactly when a length has no defined encoding. */
  method WriteThenRead(kind: Kind, fields: seq<seq<byte>>, extra: seq<seq<byte>>) returns (r: Option<Outcome>)
    requires |fields| == 5 && (kind == RSA ==> |extra| == 3)
    ensures Writable(Numbers(kind, fields, extra)) ==> r == Some(Key(fields))
    ensures !Writable(Numbers(kind, fields, extra)) ==> r == None
  {
    hide Writable, Encode, Read, Numbers;
    var out := Write(Numbers(kind, fields, extra));
    if out == null {
      return None;
    }
    KeyRoundTrip(kind, fields, extra, []);
    assert out[..] + [] == out[..];
    var outcome := ReadKey(kind, out[..]);
    r := Some(outcome);
  }

  /** The order of the integers of a private key file. */
  lemma NumbersOrder(a: seq<byte>, b: seq<byte>, c: seq<byte>, d: seq<byte>, e: seq<byte>, dmp1: seq<byte>,
                     dmq1: seq<byte>, iqmp: seq<byte>)
    ensures Numbers(RSA, [a, b, c, d, e], [dmp1, dmq1, iqmp]) == [[0], b, a, c, d, e, dmp1, dmq1, iqmp]
    ensures Numbers(DSA, [a, b, c, d, e], []) == [[0], a, b, c, d, e]
  {
  }

  /** Every integer stands in the file behind its header, one after the other. */
  lemma {:induction false} BodyForm(ns: seq<seq<byte>>, k: nat)
    requires Small(ns) && k < |ns|
    ensures Small(ns[..k]) && Small(ns[k + 1..])
    ensures Body(ns) == Body(ns[..k]) + (IdLen(2, |ns[k]|, 0) + ns[k]) + Body(ns[k + 1..])
    decreases k
  {
    hide IdLen;
    if k == 0 {
      assert ns[..0] == [];
      assert [] + Integer(ns[0]) == Integer(ns[0]);
    } else {
      BodyForm(ns[1..], k - 1);
      assert ns[1..][..k - 1] == ns[..k][1..] && ns[..k][0] == ns[0] && ns[1..][k..] == ns[k + 1..];
      var first, mid, n := Integer(ns[0]), Body(ns[1..][..k - 1]), IdLen(2, |ns[k]|, 0) + ns[k];
      assert Body(ns[..k]) == first + mid;
      ConcatAssoc(first, mid + n, Body(ns[k + 1..]));
      ConcatAssoc(first, mid, n);
    }
  }

  // ---- what the reader accepts ----

  /** An integer in the file: where its header, where its bytes, and how many. */
  datatype Piece = Piece(at: int, start: nat, length: int)

  /** The header stands there, is that of an integer, and the bytes do not pass the end; the first integer is a zero. */
  ghost predicate PieceShown(s: seq<byte>, p: Piece, first: bool) {
    && HeaderShown(s, p) && p.start <= |s| && p.start + p.length <= |s|
    && (first ==> p.length == 1 && s[p.start] == 0)
  }

  ghost predicate HeaderShown(s: seq<byte>, p: Piece) {
    0 <= p.at <= |s| &&
    var h := ReadIdLen(s[p.at..]);
    h.Some? && h.value.id == 2 && h.value.length == p.length && p.at + h.value.used == p.start
  }

  /** The pieces from number i on follow each other from pos on, and integers 1 to 5, which are stored, have no negative
      length. */
  ghost predicate PiecesShown(s: seq<byte>, pos: int, i: nat, ps: seq<Piece>) {
    && (ps != [] ==> ps[0].at == pos)
    && (forall j :: 0 <= j < |ps| ==> PieceShown(s, ps[j], i + j == 0))
    && (forall j :: 0 < j < |ps| ==> ps[j].at == ps[j - 1].start + ps[j - 1].length)
    && (forall j :: 0 <= j < |ps| && 1 <= i + j <= 5 ==> ps[j].length >= 0)
  }

  ghost function BytesOf(s: seq<byte>, p: Piece): seq<byte> {
    if p.length >= 0 && p.start + p.length <= |s| then s[p.start..p.start + p.length] else []
  }

  ghost function AllBytes(s: seq<byte>, ps: seq<Piece>): (r: seq<seq<byte>>)
    ensures |r| == |ps| && forall j :: 0 <= j < |ps| ==> r[j] == BytesOf(s, ps[j])
  {
    seq(|ps|, j requires 0 <= j < |ps| => BytesOf(s, ps[j]))
  }

  lemma IntShown(s: seq<byte>, pos: int, first: bool, p: Piece)
    requires pos <= |s|
    ensures p.at == pos && PieceShown(s, p, first) <==>
      p.at == pos && ReadInt(s, pos, first) == Number(p.start, p.length)
  {
    hide ReadIdLen;
  }

  lemma {:induction false} PiecesFirst(s: seq<byte>, pos: int, i: nat, p: Piece, ps: seq<Piece>)
    requires p.at == pos && PieceShown(s, p, i == 0) && (1 <= i <= 5 ==> p.length >= 0)
    requires PiecesShown(s, p.start + p.length, i + 1, ps)
    ensures PiecesShown(s, pos, i, [p] + ps) && AllBytes(s, [p] + ps) == [BytesOf(s, p)] + AllBytes(s, ps)
  {
    hide PieceShown, BytesOf;
    var all := [p] + ps;
    forall j | 0 <= j < |all| ensures PieceShown(s, all[j], i + j == 0) {
      if j > 0 {
        assert all[j] == ps[j - 1] && PieceShown(s, ps[j - 1], i + 1 + (j - 1) == 0);
      }
    }
  }

  lemma {:induction false} PiecesRest(s: seq<byte>, pos: int, i: nat, ps: seq<Piece>)
    requires PiecesShown(s, pos, i, ps) && ps != []
    ensures ps[0].at == pos && PieceShown(s, ps[0], i == 0) && (1 <= i <= 5 ==> ps[0].length >= 0)
    ensures PiecesShown(s, ps[0].start + ps[0].length, i + 1, ps[1..])
    ensures AllBytes(s, ps) == [BytesOf(s, ps[0])] + AllBytes(s, ps[1..])
  {
    hide PieceShown, BytesOf;
    var rest := ps[1..];
    forall j | 0 <= j < |rest| ensures PieceShown(s, rest[j], i + 1 + j == 0) {
      assert rest[j] == ps[j + 1] && PieceShown(s, ps[j + 1], i + (j + 1) == 0);
    }
  }

  /** A modulus of negative length is never stored. */
  lemma {:induction false} BadModulus(s: seq<byte>, pos: int)
    requires pos <= |s|
    ensures !ReadInts(RSA, s, pos, 2, true).Ints?
  {
    hide ReadInt;
  }

  lemma {:induction false} ReadsOne(kind: Kind, s: seq<byte>, pos: int, i: nat)
    requires pos <= |s| && i < Count(kind) && ReadInts(kind, s, pos, i, false).Ints?
    ensures
      var n := ReadInt(s, pos, i == 0);
      && n.Number? && (1 <= i <= 5 ==> n.length >= 0)
      && var rest := ReadInts(kind, s, n.start + n.length, i + 1, false);
         rest.Ints? && ReadInts(kind, s, pos, i, false).list ==
           [BytesOf(s, Piece(pos, n.start, n.length))] + rest.list
  {
    hide ReadInt, ReadInts;
    var n := ReadInt(s, pos, i == 0);
    ReadIntsStep(kind, s, pos, i, false);
    if n.Number? && kind == RSA && i == 1 {
      BadModulus(s, n.start + n.length);
    }
  }

  lemma {:induction false} ReadsPieces(kind: Kind, s: seq<byte>, pos: int, i: nat) returns (ps: seq<Piece>)
    requires pos <= |s| && i <= Count(kind) && ReadInts(kind, s, pos, i, false).Ints?
    ensures |ps| == Count(kind) - i && PiecesShown(s, pos, i, ps)
    ensures ReadInts(kind, s, pos, i, false).list == AllBytes(s, ps)
    decreases Count(kind) - i
  {
    hide ReadInt, PieceShown, PiecesShown, AllBytes;
    if i == Count(kind) {
      ps := [];
      NoPieces(s, pos, i);
    } else {
      ReadsOne(kind, s, pos, i);
      hide ReadInts;
      var n := ReadInt(s, pos, i == 0);
      var p := Piece(pos, n.start, n.length);
      IntShown(s, pos, i == 0, p);
      var rest := ReadsPieces(kind, s, n.start + n.length, i + 1);
      PiecesFirst(s, pos, i, p, rest);
      ps := [p] + rest;
    }
  }

  lemma NoPieces(s: seq<byte>, pos: int, i: nat)
    ensures PiecesShown(s, pos, i, []) && AllBytes(s, []) == []
  {
  }

  lemma {:induction false} PiecesRead(kind: Kind, s: seq<byte>, pos: int, i: nat, ps: seq<Piece>)
    requires pos <= |s| && |ps| == Count(kind) - i && PiecesShown(s, pos, i, ps)
    ensures ReadInts(kind, s, pos, i, false) == Ints(AllBytes(s, ps))
    decreases Count(kind) - i
  {
    hide ReadInt, ReadInts, PieceShown, PiecesShown, AllBytes;
    if ps == [] {
      NoPieces(s, pos, i);
      ReadIntsNone(kind, s, pos, false);
    } else {
      PiecesRest(s, pos, i, ps);
      IntShown(s, pos, i == 0, ps[0]);
      ReadIntsStep(kind, s, pos, i, false);
      PiecesRead(kind, s, ps[0].start + ps[0].length, i + 1, ps[1..]);
    }
  }

  ghost function InOrder(kind: Kind, n: seq<seq<byte>>): seq<seq<byte>>
    requires |n| >= 6
  {
    if kind == RSA then [n[2], n[1], n[3], n[4], n[5]] else [n[1], n[2], n[3], n[4], n[5]]
  }

  /** A key is read exactly when the blob starts with the header of a sequence and the nine or six integers follow each
      other behind it, and its fields are the bytes of integers 1 to 5. */
  lemma {:induction false} KeyExactly(kind: Kind, s: seq<byte>, fields: seq<seq<byte>>)
    ensures Read(kind, s) == Key(fields) <==>
      && ReadIdLen(s).Some? && ReadIdLen(s).value.id == 16
      && exists ps ::
           && |ps| == (if kind == RSA then 9 else 6) && PiecesShown(s, ReadIdLen(s).value.used, 0, ps)
           && fields == InOrder(kind, AllBytes(s, ps))
  {
    hide ReadIdLen, ReadInts, PiecesShown, BytesOf;
    var h := ReadIdLen(s);
    if h.Some? && h.value.id == SEQUENCE {
      var o := ReadInts(kind, s, h.value.used, 0, false);
      if o.Ints? {
        var ps := ReadsPieces(kind, s, h.value.used, 0);
      }
      forall ps | |ps| == Count(kind) && PiecesShown(s, h.value.used, 0, ps)
        ensures o == Ints(AllBytes(s, ps))
      {
        PiecesRead(kind, s, h.value.used, 0, ps);
      }
    }
  }
}
