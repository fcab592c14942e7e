/** Sender, byte stream and receiver together: any splitting of the stream delivers the payloads in order. */
module SshStream {
  import opened Bytes
  import opened SshWire

  /** The running state of one direction at a packet boundary. */
  datatype Cursor = Cursor(num: nat, iv: seq<byte>)
  {
    ghost predicate For(k: Keys) { num < TWO32 && |iv| == k.blockSize }
  }

  function Next(k: Keys, c: Cursor, p: Packet): (r: Cursor)
    requires k.Sound() && |c.iv| == k.blockSize && |p.padding| < 256
    ensures r.For(k)
  {
    Cursor((c.num + 1) % TWO32, ChainAll(k, c.iv, Encrypt(k, c.iv, Clear(p))))
  }

  // ---- the receiver ----

  /** Reading one packet: the bytes so far, the packet's length once the first block told it (0 before), and that
      block in the clear. */
  datatype Rx = Rx(at: Cursor, buf: seq<byte>, need: nat, head: seq<byte>)

  datatype Exit = BadPacketSize | IntegrityError

  datatype Reading = More(rx: Rx) | Got(rx: Rx, payload: seq<byte>) | Exited(why: Exit)

  predicate GoodLength(k: Keys, len: int)
    requires k.blockSize > 0
  {
    MIN_PACKET_LEN + k.macSize <= len <= MAX_PACKET_LEN && (len - k.macSize) % k.blockSize == 0
  }

  ghost predicate RxValid(k: Keys, rx: Rx) {
    && k.Sound() && rx.at.For(k)
    && (rx.need == 0 ==> |rx.buf| < k.blockSize)
    && (rx.need > 0 ==> GoodLength(k, rx.need) && k.blockSize <= |rx.buf| < rx.need && |rx.head| == k.blockSize)
  }

  /** read_packet_init once a read returned chunk. */
  function RxHead(k: Keys, rx: Rx, chunk: seq<byte>): (r: Reading)
    requires RxValid(k, rx) && rx.need == 0 && |rx.buf| + |chunk| <= k.blockSize
    ensures !r.Got? && (r.More? ==> RxValid(k, r.rx) && r.rx.buf == rx.buf + chunk)
  {
    var buf := rx.buf + chunk;
    if |buf| < k.blockSize then More(rx.(buf := buf))
    else
      var head := DecBlock(k, rx.at.iv, buf);
      var len := Signed32(BeWord(head) + 4 + k.macSize);
      if GoodLength(k, len) then More(Rx(rx.at.(iv := Chain(k, rx.at.iv, buf)), buf, len, head))
      else Exited(BadPacketSize)
  }

  /** decrypt_packet on a complete packet. */
  function RxDone(k: Keys, rx: Rx, buf: seq<byte>): Reading
    requires k.Sound() && rx.at.For(k) && GoodLength(k, rx.need) && |buf| == rx.need && |rx.head| == k.blockSize
  {
    var body := buf[k.blockSize..rx.need - k.macSize];
    var clear := rx.head + Decrypt(k, rx.at.iv, body);
    if k.mac(Be32(rx.at.num) + clear) != buf[rx.need - k.macSize..] then Exited(IntegrityError)
    else
      var len := |clear| - clear[4] - PAYLOAD_OFF;
      if len < 1 || len > MAX_PAYLOAD_LEN then Exited(BadPacketSize)
      else
        var next := Cursor((rx.at.num + 1) % TWO32, ChainAll(k, rx.at.iv, body));
        Got(Rx(next, [], 0, []), clear[PAYLOAD_OFF..PAYLOAD_OFF + len])
  }

  /** The second half of read_packet. */
  function RxBody(k: Keys, rx: Rx, chunk: seq<byte>): Reading
    requires RxValid(k, rx) && rx.need > 0 && |rx.buf| + |chunk| <= rx.need
  {
    var buf := rx.buf + chunk;
    if |buf| < rx.need then More(rx.(buf := buf)) else RxDone(k, rx, buf)
  }

  // ---- one packet ----

  /** The receiver has read part of p's bytes, starting at cursor c. */
  ghost predicate Mid(k: Keys, rx: Rx, c: Cursor, p: Packet)
    requires k.Sound() && c.For(k) && p.Fits(k) && |p.padding| < 256
  {
    var w := Wire(k, c.num, c.iv, p);
    && |rx.buf| < |w| && rx.buf == w[..|rx.buf|] && rx.at.num == c.num
    && if rx.need == 0 then |rx.buf| < k.blockSize && rx.at.iv == c.iv
       else
         && k.blockSize <= |rx.buf| && rx.need == |w|
         && |Clear(p)| >= k.blockSize && rx.head == Clear(p)[..k.blockSize]
         && rx.at.iv == Chain(k, c.iv, w[..k.blockSize])
  }

  lemma {:induction false} FirstBlock(k: Keys, c: Cursor, p: Packet)
    requires k.Sound() && c.For(k) && p.Fits(k)
    ensures |p.padding| < 256 && |Clear(p)| >= MIN_PACKET_LEN
    ensures var n, clear, w := k.blockSize, Clear(p), Wire(k, c.num, c.iv, p);
      && n < |w| == |clear| + k.macSize <= MAX_PACKET_LEN
      && w[..n] == EncBlock(k, c.iv, clear[..n])
      && w[n..|clear|] == Encrypt(k, Chain(k, c.iv, w[..n]), clear[n..])
      && w[|clear|..] == k.mac(Be32(c.num) + clear)
      && |w[..n]| == n
      && Encrypt(k, c.iv, clear) == w[..n] + w[n..|clear|]
  {
    WireLength(k, c.num, c.iv, p);
    ClearFacts(k, p);
    hide Clear, EncBlock, PadLength, BeWord, Be32;
    var n, clear, w := k.blockSize, Clear(p), Wire(k, c.num, c.iv, p);
    BlockRoundTrip(k, c.iv, clear[..n]);
    var e := Encrypt(k, c.iv, clear);
    assert w[..|clear|] == e && w[|clear|..] == k.mac(Be32(c.num) + clear);
    assert e[..n] == w[..n] && e[n..] == w[n..|clear|];
  }

  lemma {:induction false} HeadLength(k: Keys, c: Cursor, p: Packet)
    requires k.Sound() && c.For(k) && p.Fits(k)
    ensures |p.padding| < 256 && |Clear(p)| >= MIN_PACKET_LEN
    ensures var w, head := Wire(k, c.num, c.iv, p), Clear(p)[..k.blockSize];
      && Signed32(BeWord(head) + 4 + k.macSize) == |w|
      && GoodLength(k, |w|)
  {
    hide Clear, Wire, PadLength, Whole, BeWord, GoodLength, Signed32;
    WireLength(k, c.num, c.iv, p);
    ClearFacts(k, p);
    ClearBlocks(k, p);
    var clear := Clear(p);
    BePrefix(clear, k.blockSize);
    GoodTotal(k, |clear|);
  }

  lemma BePrefix(s: seq<byte>, n: nat)
    requires 4 <= n <= |s|
    ensures BeWord(s[..n]) == BeWord(s)
  {
  }

  lemma GoodTotal(k: Keys, n: nat)
    requires k.blockSize > 0 && n % k.blockSize == 0 && MIN_PACKET_LEN <= n && n + k.macSize <= MAX_PACKET_LEN
    ensures Signed32(n - 4 + 4 + k.macSize) == n + k.macSize && GoodLength(k, n + k.macSize)
  {
  }

  lemma {:induction false} HeadStep(k: Keys, rx: Rx, c: Cursor, p: Packet, chunk: seq<byte>)
    requires k.Sound() && c.For(k) && p.Fits(k) && |p.padding| < 256
    requires Mid(k, rx, c, p) && rx.need == 0 && 1 <= |chunk| && |rx.buf| + |chunk| <= k.blockSize
    requires |rx.buf| + |chunk| <= |Wire(k, c.num, c.iv, p)|
    requires rx.buf + chunk == Wire(k, c.num, c.iv, p)[..|rx.buf| + |chunk|]
    ensures RxValid(k, rx)
    ensures var r := RxHead(k, rx, chunk);
      && r.More? && Mid(k, r.rx, c, p) && r.rx.buf == rx.buf + chunk
      && (r.rx.need > 0 <==> |rx.buf| + |chunk| == k.blockSize)
  {
    hide Wire, Clear, EncBlock, DecBlock, BeWord, Signed32, PadLength, GoodLength;
    FirstBlock(k, c, p);
    HeadLength(k, c, p);
    if |rx.buf| + |chunk| == k.blockSize {
      BlockRoundTrip(k, c.iv, Clear(p)[..k.blockSize]);
    }
  }

  lemma {:induction false} MidValid(k: Keys, rx: Rx, c: Cursor, p: Packet)
    requires k.Sound() && c.For(k) && p.Fits(k) && |p.padding| < 256 && Mid(k, rx, c, p)
    ensures RxValid(k, rx)
  {
    hide Wire, Clear, EncBlock, PadLength, GoodLength;
    FirstBlock(k, c, p);
    HeadLength(k, c, p);
  }

  /** The blocks after the first decrypt to the rest of the cleartext and leave the chain where the sender's is. */
  lemma {:induction false} BodyRecovered(k: Keys, c: Cursor, p: Packet)
    requires k.Sound() && c.For(k) && p.Fits(k)
    ensures |p.padding| < 256 && |Clear(p)| >= MIN_PACKET_LEN
    ensures var n, clear, w := k.blockSize, Clear(p), Wire(k, c.num, c.iv, p);
      && n < |w| == |clear| + k.macSize
      && |Chain(k, c.iv, w[..n])| == n
      && clear[..n] + Decrypt(k, Chain(k, c.iv, w[..n]), w[n..|clear|]) == clear
      && ChainAll(k, Chain(k, c.iv, w[..n]), w[n..|clear|]) == Next(k, c, p).iv
      && w[|clear|..] == k.mac(Be32(c.num) + clear)
  {
    hide Clear, Wire, EncBlock, PadLength, Be32, BeWord, Encrypt, Decrypt, ChainAll, Chain, Next, Whole;
    FirstBlock(k, c, p);
    ClearFacts(k, p);
    var n, clear, w := k.blockSize, Clear(p), Wire(k, c.num, c.iv, p);
    NextChain(k, c, p);
    ChainSize(k, c.iv, w[..n]);
    WholeTail(|clear|, n);
    DecryptEncrypt(k, Chain(k, c.iv, w[..n]), clear[n..]);
    assert clear == clear[..n] + clear[n..];
    ChainAllStep(k, c.iv, w[..n], w[n..|clear|]);
  }

  lemma NextChain(k: Keys, c: Cursor, p: Packet)
    requires k.Sound() && c.For(k) && |p.padding| < 256
    ensures Next(k, c, p).iv == ChainAll(k, c.iv, Encrypt(k, c.iv, Clear(p)))
  {
    hide ChainAll, Encrypt, Clear;
  }

  lemma ChainSize(k: Keys, iv: seq<byte>, c: seq<byte>)
    requires |iv| == k.blockSize == |c|
    ensures |Chain(k, iv, c)| == k.blockSize
  {
  }

  lemma {:induction false} DoneStep(k: Keys, rx: Rx, c: Cursor, p: Packet)
    requires k.Sound() && c.For(k) && p.Fits(k) && |p.padding| < 256
    requires Mid(k, rx, c, p) && rx.need > 0
    ensures RxValid(k, rx)
    ensures RxDone(k, rx, Wire(k, c.num, c.iv, p)) == Got(Rx(Next(k, c, p), [], 0, []), p.payload)
  {
    hide Clear, Wire, Encrypt, Decrypt, EncBlock, PadLength, GoodLength, Mid, ChainAll, Be32, BeWord, Chain, Whole,
      RxDone;
    MidValid(k, rx, c, p);
    MidFacts(k, rx, c, p);
    BodyRecovered(k, c, p);
    ClearFacts(k, p);
    var clear, w := Clear(p), Wire(k, c.num, c.iv, p);
    PayloadOf(p, clear);
    RxDoneOf(k, rx, w, clear, p.payload);
  }

  lemma PayloadOf(p: Packet, clear: seq<byte>)
    requires |p.padding| < 256 && clear == Clear(p)
    ensures |clear| - |p.padding| - PAYLOAD_OFF == |p.payload|
  {
  }

  lemma {:induction false} RxDoneOf(k: Keys, rx: Rx, w: seq<byte>, clear: seq<byte>, payload: seq<byte>)
    requires k.Sound() && rx.at.For(k) && GoodLength(k, rx.need) && |w| == rx.need && |rx.head| == k.blockSize
    requires |clear| >= MIN_PACKET_LEN && rx.need == |clear| + k.macSize
    requires rx.head + Decrypt(k, rx.at.iv, w[k.blockSize..|clear|]) == clear
    requires w[|clear|..] == k.mac(Be32(rx.at.num) + clear)
    requires |clear| - clear[4] - PAYLOAD_OFF == |payload| && 1 <= |payload| <= MAX_PAYLOAD_LEN
    requires clear[PAYLOAD_OFF..PAYLOAD_OFF + |payload|] == payload
    ensures RxDone(k, rx, w) ==
      Got(Rx(Cursor((rx.at.num + 1) % TWO32, ChainAll(k, rx.at.iv, w[k.blockSize..|clear|])), [], 0, []), payload)
  {
    hide Decrypt, ChainAll, Be32, GoodLength;
  }

  lemma MidFacts(k: Keys, rx: Rx, c: Cursor, p: Packet)
    requires k.Sound() && c.For(k) && p.Fits(k) && |p.padding| < 256
    requires Mid(k, rx, c, p) && rx.need > 0
    ensures var w := Wire(k, c.num, c.iv, p);
      rx.need == |w| && |w| >= k.blockSize && |Clear(p)| >= k.blockSize && rx.head == Clear(p)[..k.blockSize]
      && rx.at.iv == Chain(k, c.iv, w[..k.blockSize]) && rx.at.num == c.num
  {
    hide Wire, Clear, PadLength;
  }

  lemma WholeTail(n: nat, bs: nat)
    requires bs > 0 && n >= bs && Whole(n, bs) == n
    ensures Whole(n - bs, bs) == n - bs
  {
  }

  lemma {:induction false} ChainAllStep(k: Keys, iv: seq<byte>, c: seq<byte>, rest: seq<byte>)
    requires k.Sound() && |iv| == k.blockSize == |c|
    ensures ChainAll(k, iv, c + rest) == ChainAll(k, Chain(k, iv, c), rest)
  {
    assert (c + rest)[..k.blockSize] == c && (c + rest)[k.blockSize..] == rest;
  }

  lemma {:induction false} BodyStep(k: Keys, rx: Rx, c: Cursor, p: Packet, chunk: seq<byte>)
    requires k.Sound() && c.For(k) && p.Fits(k) && |p.padding| < 256
    requires Mid(k, rx, c, p) && rx.need > 0 && 1 <= |chunk| && |rx.buf| + |chunk| <= rx.need
    requires |rx.buf| + |chunk| <= |Wire(k, c.num, c.iv, p)|
    requires rx.buf + chunk == Wire(k, c.num, c.iv, p)[..|rx.buf| + |chunk|]
    ensures RxValid(k, rx)
    ensures var r := RxBody(k, rx, chunk);
      if |rx.buf| + |chunk| == |Wire(k, c.num, c.iv, p)| then r == Got(Rx(Next(k, c, p), [], 0, []), p.payload)
      else r.More? && Mid(k, r.rx, c, p) && r.rx.buf == rx.buf + chunk && r.rx.need > 0
  {
    hide Wire, Clear, RxDone, PadLength, Next;
    DoneStep(k, rx, c, p);
    var w := Wire(k, c.num, c.iv, p);
    assert w[..|w|] == w;
  }

  // ---- the whole stream ----

  ghost predicate AllFit(k: Keys, ps: seq<Packet>) {
    k.Sound() && forall i :: 0 <= i < |ps| ==> ps[i].Fits(k) && |ps[i].padding| < 256
  }

  ghost function Stream(k: Keys, c: Cursor, ps: seq<Packet>): seq<byte>
    requires AllFit(k, ps) && |c.iv| == k.blockSize
    decreases |ps|
  {
    if ps == [] then [] else Wire(k, c.num, c.iv, ps[0]) + Stream(k, Next(k, c, ps[0]), ps[1..])
  }

  ghost function After(k: Keys, c: Cursor, ps: seq<Packet>): (r: Cursor)
    requires AllFit(k, ps) && |c.iv| == k.blockSize
    ensures |r.iv| == k.blockSize
    ensures c.For(k) ==> r.For(k)
    decreases |ps|
  {
    if ps == [] then c else After(k, Next(k, c, ps[0]), ps[1..])
  }

  lemma {:induction false} StreamAppend(k: Keys, c: Cursor, ps: seq<Packet>, p: Packet)
    requires AllFit(k, ps + [p]) && AllFit(k, ps) && |c.iv| == k.blockSize && |p.padding| < 256
    ensures var end := After(k, c, ps);
      && Stream(k, c, ps + [p]) == Stream(k, c, ps) + Wire(k, end.num, end.iv, p)
      && After(k, c, ps + [p]) == Next(k, end, p)
    decreases |ps|
  {
    hide Wire, Next;
    assert ps + [p] != [];
    var all := ps + [p];
    if ps == [] {
      assert all[1..] == [];
    } else {
      assert all[0] == ps[0] && all[1..] == ps[1..] + [p];
      StreamAppend(k, Next(k, c, ps[0]), ps[1..], p);
      var end := After(k, c, ps);
      ConcatAssoc(Wire(k, c.num, c.iv, ps[0]), Stream(k, Next(k, c, ps[0]), ps[1..]), Wire(k, end.num, end.iv, p));
    }
  }

  // ---- what is on the wire ----

  lemma {:induction false} StreamSplit(k: Keys, c: Cursor, ps: seq<Packet>, i: nat)
    requires AllFit(k, ps) && |c.iv| == k.blockSize && i <= |ps|
    ensures AllFit(k, ps[..i]) && AllFit(k, ps[i..])
    ensures Stream(k, c, ps) == Stream(k, c, ps[..i]) + Stream(k, After(k, c, ps[..i]), ps[i..])
    decreases i
  {
    hide Wire, Next, Keys.Sound, PadLength;
    if i == 0 {
      assert ps[..0] == [] && ps[0..] == ps;
      assert Stream(k, c, ps) == [] + Stream(k, c, ps);
    } else {
      var next := Next(k, c, ps[0]);
      StreamSplit(k, next, ps[1..], i - 1);
      assert ps[..i][0] == ps[0] && ps[..i][1..] == ps[1..][..i - 1] && ps[1..][i - 1..] == ps[i..];
      ConcatAssoc(Wire(k, c.num, c.iv, ps[0]), Stream(k, next, ps[1..][..i - 1]),
                  Stream(k, After(k, next, ps[1..][..i - 1]), ps[i..]));
    }
  }

  /** Sequence numbers count the packets, modulo 2^32. */
  lemma {:induction false} NumberOf(k: Keys, c: Cursor, ps: seq<Packet>)
    requires AllFit(k, ps) && c.For(k)
    ensures After(k, c, ps).num == (c.num + |ps|) % TWO32
    decreases |ps|
  {
    hide Keys.Sound, PadLength, ChainAll, Encrypt, Clear;
    if ps != [] {
      NumberOf(k, Next(k, c, ps[0]), ps[1..]);
      AddWrapped(c.num, |ps| - 1);
    }
  }

  lemma AddWrapped(a: nat, n: nat)
    ensures ((a + 1) % TWO32 + n) % TWO32 == (a + 1 + n) % TWO32
  {
  }

  /** The chaining value is the last ciphertext block that was sent, which stands before the last MAC. */
  lemma {:induction false} ChainOf(k: Keys, c: Cursor, ps: seq<Packet>)
    requires AllFit(k, ps) && c.For(k) && ps != [] && k.cipher.Cbc?
    ensures var s := Stream(k, c, ps);
      |s| >= k.macSize + k.blockSize && After(k, c, ps).iv == s[|s| - k.macSize - k.blockSize..|s| - k.macSize]
  {
    hide Wire, Next, Encrypt, ChainAll, Clear, PadLength, Keys.Sound, Stream, After, Whole;
    var init, p := ps[..|ps| - 1], ps[|ps| - 1];
    assert init + [p] == ps;
    StreamAppend(k, c, init, p);
    var end := After(k, c, init);
    var e := Encrypt(k, end.iv, Clear(p));
    WireIs(k, end, p);
    ClearFacts(k, p);
    BlockSizes(k);
    ChainIsLast(k, end.iv, e);
    LastBefore(Stream(k, c, init), e, k.mac(Be32(end.num) + Clear(p)), k.blockSize);
  }

  lemma WireIs(k: Keys, c: Cursor, p: Packet)
    requires k.Sound() && |c.iv| == k.blockSize && p.Fits(k) && |p.padding| < 256
    ensures var e, m := Encrypt(k, c.iv, Clear(p)), k.mac(Be32(c.num) + Clear(p));
      && Wire(k, c.num, c.iv, p) == e + m && Next(k, c, p).iv == ChainAll(k, c.iv, e)
      && |m| == k.macSize && |e| == Whole(|Clear(p)|, k.blockSize)
  {
    hide Encrypt, ChainAll, Clear, PadLength, Whole;
  }

  lemma LastBefore(a: seq<byte>, e: seq<byte>, m: seq<byte>, n: nat)
    requires n <= |e|
    ensures var s := a + (e + m);
      s[|s| - |m| - n..|s| - |m|] == e[|e| - n..]
  {
  }

  /** From a position on, the bytes are the encrypted packet and the MAC of its sequence number and cleartext. */
  ghost predicate Carries(k: Keys, s: seq<byte>, at: nat, iv: seq<byte>, num: nat, p: Packet)
    requires k.Sound() && |iv| == k.blockSize && |p.padding| < 256 && num < TWO32
  {
    var w := Encrypt(k, iv, Clear(p)) + k.mac(Be32(num) + Clear(p));
    at + |w| <= |s| && s[at..at + |w|] == w
  }

  /** Packet i starts where the bytes of those before it end. It is encrypted from the last ciphertext block before it,
      and its MAC covers the sequence number, which counts on from the first packet's. */
  lemma {:induction false} OnTheWire(k: Keys, c: Cursor, ps: seq<Packet>, i: nat)
    requires AllFit(k, ps) && c.For(k) && i < |ps|
    ensures AllFit(k, ps[..i])
    ensures
      var s, at, n := Stream(k, c, ps), |Stream(k, c, ps[..i])|, k.blockSize;
      && (k.cipher.Cbc? && i > 0 ==> n + k.macSize <= at <= |s|)
      && var iv := if k.cipher.NoCipher? || i == 0 then c.iv else s[at - k.macSize - n..at - k.macSize];
         Carries(k, s, at, iv, (c.num + i) % TWO32, ps[i])
  {
    hide Wire, Next, Encrypt, Clear, PadLength, Keys.Sound, Stream, After, Whole;
    var before, rest := ps[..i], ps[i..];
    StreamSplit(k, c, ps, i);
    NumberOf(k, c, before);
    var end := After(k, c, before);
    WireIs(k, end, ps[i]);
    StreamStep(k, end, rest);
    ChainFor(k, c, before);
    var w := Wire(k, end.num, end.iv, ps[i]);
    var s, head := Stream(k, c, ps), Stream(k, c, before);
    assert s == head + (w + Stream(k, Next(k, end, ps[i]), rest[1..]));
    assert s[|head|..|head| + |w|] == w;
    if k.cipher.Cbc? && i > 0 {
      assert s[|head| - k.macSize - k.blockSize..|head| - k.macSize] ==
             head[|head| - k.macSize - k.blockSize..|head| - k.macSize];
    }
  }

  lemma StreamStep(k: Keys, c: Cursor, ps: seq<Packet>)
    requires AllFit(k, ps) && |c.iv| == k.blockSize && ps != []
    ensures Stream(k, c, ps) == Wire(k, c.num, c.iv, ps[0]) + Stream(k, Next(k, c, ps[0]), ps[1..])
  {
    hide Wire, Next, PadLength;
  }

  lemma {:induction false} ChainFor(k: Keys, c: Cursor, ps: seq<Packet>)
    requires AllFit(k, ps) && c.For(k)
    ensures ps == [] || k.cipher.NoCipher? ==> After(k, c, ps).iv == c.iv
    ensures ps != [] && k.cipher.Cbc? ==>
      var s := Stream(k, c, ps);
      |s| >= k.macSize + k.blockSize && After(k, c, ps).iv == s[|s| - k.macSize - k.blockSize..|s| - k.macSize]
    decreases |ps|
  {
    hide Wire, Encrypt, ChainAll, Clear, PadLength, Keys.Sound, Stream, Whole;
    if ps != [] && k.cipher.Cbc? {
      ChainOf(k, c, ps);
    } else if ps != [] {
      WireIs(k, c, ps[0]);
      ClearFacts(k, ps[0]);
      ChainIsLast(k, c.iv, Clear(ps[0]));
      ChainFor(k, Next(k, c, ps[0]), ps[1..]);
    }
  }

  // ---- what the receiver accepts ----

  /** The cleartext of a packet of the given length frames this payload: the length word, the padding length and the
      payload between them fit. */
  ghost predicate Frames(clear: seq<byte>, total: int, macSize: nat, payload: seq<byte>) {
    && |clear| >= PAYLOAD_OFF && |clear| + macSize == total && Signed32(BeWord(clear) + 4 + macSize) == total
    && 1 <= |payload| <= 32768 && PAYLOAD_OFF + |payload| + clear[4] as int == |clear|
    && payload == clear[PAYLOAD_OFF..PAYLOAD_OFF + |payload|]
  }

  /** A first block is followed up exactly when the length it tells is between the smallest and the largest packet and
      whole blocks; otherwise the session ends. */
  lemma {:induction false} HeadExactly(k: Keys, c: Cursor, w: seq<byte>)
    requires k.Sound() && c.For(k) && |w| == k.blockSize
    ensures
      var r := RxHead(k, Rx(c, [], 0, []), w);
      var len := Signed32(BeWord(Decrypt(k, c.iv, w)) + 4 + k.macSize);
      if 16 + k.macSize <= len <= 35000 && (len - k.macSize) % k.blockSize == 0
      then r.More? && r.rx.need == len && r.rx.buf == w && r.rx.at.num == c.num
      else r == Exited(BadPacketSize)
  {
    hide Signed32, BeWord;
    OneBlock(k, c.iv, w);
    assert [] + w == w;
  }

  lemma OneBlock(k: Keys, iv: seq<byte>, w: seq<byte>)
    requires k.Sound() && |iv| == k.blockSize == |w|
    ensures Decrypt(k, iv, w) == DecBlock(k, iv, w)
  {
    assert w[..k.blockSize] == w && w[k.blockSize..] == [];
  }

  /** Whatever bytes arrive: a packet is delivered exactly when its MAC is that of its sequence number and cleartext and
      the cleartext frames the payload; with a wrong MAC the session ends. */
  lemma {:induction false} AcceptsExactly(k: Keys, c: Cursor, w: seq<byte>, payload: seq<byte>)
    requires k.Sound() && c.For(k) && |w| > k.blockSize && |w| >= k.macSize
    requires RxHead(k, Rx(c, [], 0, []), w[..k.blockSize]).More?
    requires RxHead(k, Rx(c, [], 0, []), w[..k.blockSize]).rx.need == |w|
    ensures
      var r := RxBody(k, RxHead(k, Rx(c, [], 0, []), w[..k.blockSize]).rx, w[k.blockSize..]);
      var end := |w| - k.macSize;
      var clear := Decrypt(k, c.iv, w[..end]);
      var authentic := w[end..] == k.mac(Be32(c.num) + clear);
      && (r.Got? && r.payload == payload <==> authentic && Frames(clear, |w|, k.macSize, payload))
      && (!authentic <==> r == Exited(IntegrityError))
      && (r.Got? ==> r.rx.at.num == (c.num + 1) % TWO32 && r.rx.buf == [])
  {
    hide Signed32, BeWord, Be32, Decrypt, ChainAll, Chain, Whole, DecBlock;
    var n := k.blockSize;
    var rx := RxHead(k, Rx(c, [], 0, []), w[..n]).rx;
    var end := |w| - k.macSize;
    assert [] + w[..n] == w[..n] && w[..n] + w[n..] == w;
    assert rx.at.iv == Chain(k, c.iv, w[..n]) && rx.head == DecBlock(k, c.iv, w[..n]);
    DecryptWhole(k, c.iv, w[..end]);
    assert w[..end][..n] == w[..n] && w[..end][n..] == w[n..end];
    var clear := rx.head + Decrypt(k, rx.at.iv, w[n..end]);
    WholeOf(k, |w|);
    BePrefix(clear, n);
    assert clear[..n] == rx.head;
  }

  lemma WholeOf(k: Keys, len: nat)
    requires k.Sound() && GoodLength(k, len)
    ensures k.blockSize <= len - k.macSize
    ensures Whole(len - k.macSize - k.blockSize, k.blockSize) == len - k.macSize - k.blockSize
  {
    ModLess(len - k.macSize, k.blockSize);
    WholeBlocks(len - k.macSize - k.blockSize, k.blockSize);
  }

  lemma DecryptWhole(k: Keys, iv: seq<byte>, c: seq<byte>)
    requires k.Sound() && |iv| == k.blockSize <= |c|
    ensures Decrypt(k, iv, c) ==
      DecBlock(k, iv, c[..k.blockSize]) + Decrypt(k, Chain(k, iv, c[..k.blockSize]), c[k.blockSize..])
  {
  }

  // ---- runs ----

  /** A packet in the write queue with the position up to which it has been written. */
  datatype Outgoing = Outgoing(data: seq<byte>, pos: nat)

  /** Sender, kernel byte stream and receiver; sent and delivered record the history. */
  datatype Link = Link(tx: Cursor, queue: seq<Outgoing>, wire: seq<byte>, rx: Rx,
                       sent: seq<Packet>, delivered: seq<seq<byte>>)

  /** encrypt_packet on a payload; write_packet whose write took n bytes; read_packet whose reads returned a and b
      bytes. */
  datatype Event = Send(p: Packet) | Write(n: nat) | Read(a: nat, b: nat)

  datatype Outcome = Running(link: Link) | Died(why: Exit)

  /** What a queue still has to write. */
  function Unwritten(q: seq<Outgoing>): seq<byte> {
    if q == [] then [] else (if q[0].pos <= |q[0].data| then q[0].data[q[0].pos..] else []) + Unwritten(q[1..])
  }

  /** The queue once write took n bytes of its first packet: a packet that is written out leaves. */
  function Written(q: seq<Outgoing>, n: nat): seq<Outgoing>
    requires q != []
  {
    if q[0].pos + n == |q[0].data| then q[1..] else [q[0].(pos := q[0].pos + n)] + q[1..]
  }

  lemma UnwrittenStep(q: seq<Outgoing>)
    requires q != []
    ensures Unwritten(q) == (if q[0].pos <= |q[0].data| then q[0].data[q[0].pos..] else []) + Unwritten(q[1..])
  {
  }

  lemma {:induction false} WrittenPart(first: Outgoing, rest: seq<Outgoing>, n: nat)
    requires first.pos + n <= |first.data|
    ensures Unwritten([first] + rest) ==
            first.data[first.pos..first.pos + n] + Unwritten([first.(pos := first.pos + n)] + rest)
  {
    hide Unwritten;
    var after := first.(pos := first.pos + n);
    assert ([first] + rest)[1..] == rest && ([after] + rest)[1..] == rest;
    UnwrittenStep([first] + rest);
    UnwrittenStep([after] + rest);
    var bytes := first.data[first.pos..first.pos + n];
    assert first.data[first.pos..] == bytes + after.data[after.pos..];
    ConcatAssoc(bytes, after.data[after.pos..], Unwritten(rest));
  }

  lemma {:induction false} WrittenBytes(q: seq<Outgoing>, n: nat)
    requires q != [] && q[0].pos + n <= |q[0].data|
    ensures Unwritten(q) == q[0].data[q[0].pos..q[0].pos + n] + Unwritten(Written(q, n))
  {
    hide Unwritten;
    if q[0].pos + n == |q[0].data| {
      UnwrittenStep(q);
    } else {
      assert q == [q[0]] + q[1..];
      WrittenPart(q[0], q[1..], n);
    }
  }

  /** read_packet: finish the first block, then go on to the rest of the packet. */
  function ReadCall(k: Keys, rx: Rx, wire: seq<byte>, a: nat, b: nat): (Reading, nat)
    requires RxValid(k, rx) && CanRead(k, rx, wire, a, b)
  {
    if rx.need > 0 then (RxBody(k, rx, wire[..b]), b)
    else
      var h := RxHead(k, rx, wire[..a]);
      if h.More? && h.rx.need > 0 then (RxBody(k, h.rx, wire[a..a + b]), a + b) else (h, a)
  }

  /** Every read returns at least one byte and no more than was asked for and has arrived. */
  predicate CanRead(k: Keys, rx: Rx, wire: seq<byte>, a: nat, b: nat)
    requires RxValid(k, rx)
  {
    if rx.need > 0 then 1 <= b <= rx.need - |rx.buf| && b <= |wire|
    else
      && 1 <= a <= k.blockSize - |rx.buf| && a <= |wire|
      && var h := RxHead(k, rx, wire[..a]);
         h.More? && h.rx.need > 0 ==> 1 <= b <= h.rx.need - |h.rx.buf| && a + b <= |wire|
  }

  /** The event can happen in this state. */
  ghost predicate Enabled(k: Keys, l: Link, e: Event) {
    && k.Sound() && |l.tx.iv| == k.blockSize && RxValid(k, l.rx)
    && match e
       case Send(p) => p.Fits(k) && |p.padding| < 256
       case Write(n) =>
         l.queue != [] && l.queue[0].pos <= |l.queue[0].data| && 1 <= n <= |l.queue[0].data| - l.queue[0].pos
       case Read(a, b) => CanRead(k, l.rx, l.wire, a, b)
  }

  ghost function Step(k: Keys, l: Link, e: Event): Outcome
    requires Enabled(k, l, e)
  {
    match e
    case Send(p) =>
      var data := Wire(k, l.tx.num, l.tx.iv, p);
      Running(l.(tx := Next(k, l.tx, p), queue := l.queue + [Outgoing(data, 0)], sent := l.sent + [p]))
    case Write(n) =>
      Running(l.(queue := Written(l.queue, n), wire := l.wire + l.queue[0].data[l.queue[0].pos..l.queue[0].pos + n]))
    case Read(a, b) =>
      var (r, n) := ReadCall(k, l.rx, l.wire, a, b);
      match r
      case More(rx) => Running(l.(rx := rx, wire := l.wire[n..]))
      case Got(rx, payload) => Running(l.(rx := rx, wire := l.wire[n..], delivered := l.delivered + [payload]))
      case Exited(why) => Died(why)
  }

  function Payloads(ps: seq<Packet>): (r: seq<seq<byte>>)
    ensures |r| == |ps| && forall i :: 0 <= i < |ps| ==> r[i] == ps[i].payload
  {
    seq(|ps|, i requires 0 <= i < |ps| => ps[i].payload)
  }

  /** The cursor at the start of the packet that the receiver is in, and the packets from there on, account for every
      byte between the two ends. */
  ghost predicate InStep(k: Keys, l: Link, c: Cursor) {
    && k.Sound() && c.For(k) && AllFit(k, l.sent) && |l.delivered| <= |l.sent|
    && l.delivered == Payloads(l.sent[..|l.delivered|])
    && var rest := l.sent[|l.delivered|..];
       && AllFit(k, rest)
       && l.tx == After(k, c, rest)
       && l.rx.buf + l.wire + Unwritten(l.queue) == Stream(k, c, rest)
       && (if rest == [] then l.rx == Rx(c, [], 0, []) else Mid(k, l.rx, c, rest[0]))
  }

  ghost predicate Inv(k: Keys, l: Link) {
    exists c :: InStep(k, l, c)
  }

  // ---- every step keeps the two ends in step ----

  /** The receiver is in packet p, whose bytes are followed by more. */
  ghost predicate Facing(k: Keys, rx: Rx, wire: seq<byte>, tail: seq<byte>, c: Cursor, p: Packet, more: seq<byte>)
    requires k.Sound() && c.For(k) && p.Fits(k) && |p.padding| < 256
  {
    Mid(k, rx, c, p) && rx.buf + wire + tail == Wire(k, c.num, c.iv, p) + more
  }

  lemma {:induction false} Taken(buf: seq<byte>, wire: seq<byte>, tail: seq<byte>, w: seq<byte>, more: seq<byte>,
                                 n: nat)
    requires buf + wire + tail == w + more && n <= |wire| && |buf| + n <= |w|
    ensures buf + wire[..n] == w[..|buf| + n]
    ensures (buf + wire[..n]) + wire[n..] + tail == w + more
    ensures |buf| + n == |w| ==> wire[n..] + tail == more
  {
    var all := buf + wire + tail;
    assert (buf + wire[..n]) + wire[n..] == buf + wire;
    assert all[..|buf| + n] == buf + wire[..n];
    assert all[..|buf| + n] == w[..|buf| + n];
    assert all[|buf| + n..] == wire[n..] + tail;
    if |buf| + n == |w| {
      assert all[|w|..] == more;
    }
  }

  lemma {:induction false} HeadKeeps(k: Keys, rx: Rx, wire: seq<byte>, tail: seq<byte>, c: Cursor, p: Packet,
                                     more: seq<byte>, a: nat)
    requires k.Sound() && c.For(k) && p.Fits(k) && |p.padding| < 256
    requires Facing(k, rx, wire, tail, c, p, more) && rx.need == 0
    requires 1 <= a <= k.blockSize - |rx.buf| && a <= |wire|
    ensures RxValid(k, rx)
    ensures var h := RxHead(k, rx, wire[..a]);
      h.More? && Facing(k, h.rx, wire[a..], tail, c, p, more)
  {
    hide Mid, Wire, RxHead, PadLength, RxValid;
    WireLength(k, c.num, c.iv, p);
    Taken(rx.buf, wire, tail, Wire(k, c.num, c.iv, p), more, a);
    HeadStep(k, rx, c, p, wire[..a]);
  }

  lemma {:induction false} BodyKeeps(k: Keys, rx: Rx, wire: seq<byte>, tail: seq<byte>, c: Cursor, p: Packet,
                                     more: seq<byte>, b: nat)
    requires k.Sound() && c.For(k) && p.Fits(k) && |p.padding| < 256
    requires Facing(k, rx, wire, tail, c, p, more) && rx.need > 0
    requires 1 <= b <= rx.need - |rx.buf| && b <= |wire|
    ensures RxValid(k, rx)
    ensures var r := RxBody(k, rx, wire[..b]);
      || (r.More? && Facing(k, r.rx, wire[b..], tail, c, p, more))
      || (r == Got(Rx(Next(k, c, p), [], 0, []), p.payload) && wire[b..] + tail == more)
  {
    hide Mid, Wire, RxBody, PadLength, RxValid, Clear, Next;
    MidFacts(k, rx, c, p);
    Taken(rx.buf, wire, tail, Wire(k, c.num, c.iv, p), more, b);
    BodyStep(k, rx, c, p, wire[..b]);
  }

  lemma {:induction false} ReadKeeps(k: Keys, rx: Rx, wire: seq<byte>, tail: seq<byte>, c: Cursor, p: Packet,
                                     more: seq<byte>, a: nat, b: nat)
    requires k.Sound() && c.For(k) && p.Fits(k) && |p.padding| < 256
    requires Facing(k, rx, wire, tail, c, p, more) && RxValid(k, rx) && CanRead(k, rx, wire, a, b)
    ensures var (r, n) := ReadCall(k, rx, wire, a, b);
      && n <= |wire|
      && (|| (r.More? && Facing(k, r.rx, wire[n..], tail, c, p, more))
          || (r == Got(Rx(Next(k, c, p), [], 0, []), p.payload) && wire[n..] + tail == more))
  {
    hide RxBody, RxHead, PadLength, RxValid, Clear, Next, Facing;
    if rx.need > 0 {
      BodyKeeps(k, rx, wire, tail, c, p, more, b);
    } else {
      HeadKeeps(k, rx, wire, tail, c, p, more, a);
      var h := RxHead(k, rx, wire[..a]);
      if h.rx.need > 0 {
        BodyKeeps(k, h.rx, wire[a..], tail, c, p, more, b);
        assert wire[a..][..b] == wire[a..a + b] && wire[a..][b..] == wire[a + b..];
      }
    }
  }

  lemma {:induction false} UnwrittenAppend(q: seq<Outgoing>, data: seq<byte>)
    ensures Unwritten(q + [Outgoing(data, 0)]) == Unwritten(q) + data
  {
    var all := q + [Outgoing(data, 0)];
    if q == [] {
      assert all[1..] == [];
      assert data[0..] == data;
    } else {
      UnwrittenAppend(q[1..], data);
      assert all[0] == q[0] && all[1..] == q[1..] + [Outgoing(data, 0)];
      ConcatAssoc(if q[0].pos <= |q[0].data| then q[0].data[q[0].pos..] else [], Unwritten(q[1..]), data);
    }
  }

  lemma {:induction false} MidStart(k: Keys, c: Cursor, p: Packet)
    requires k.Sound() && c.For(k) && p.Fits(k) && |p.padding| < 256
    ensures Mid(k, Rx(c, [], 0, []), c, p)
  {
    hide Wire, PadLength;
    WireLength(k, c.num, c.iv, p);
  }

  lemma {:induction false} SendKeeps(k: Keys, l: Link, c: Cursor, p: Packet)
    requires InStep(k, l, c) && Enabled(k, l, Send(p))
    ensures InStep(k, Step(k, l, Send(p)).link, c)
  {
    hide Wire, Mid, Next, RxValid, PadLength, After, Stream, Unwritten, AllFit;
    var rest := l.sent[|l.delivered|..];
    var l' := Step(k, l, Send(p)).link;
    FitMore(k, l.sent, p);
    FitMore(k, rest, p);
    assert l'.sent[|l.delivered|..] == rest + [p];
    assert l'.sent[..|l.delivered|] == l.sent[..|l.delivered|];
    StreamAppend(k, c, rest, p);
    var data := Wire(k, l.tx.num, l.tx.iv, p);
    UnwrittenAppend(l.queue, data);
    ConcatAssoc(l.rx.buf + l.wire, Unwritten(l.queue), data);
    if rest == [] {
      MidStart(k, c, p);
    } else {
      assert (rest + [p])[0] == rest[0];
    }
  }

  lemma FitMore(k: Keys, ps: seq<Packet>, p: Packet)
    requires AllFit(k, ps) && p.Fits(k) && |p.padding| < 256
    ensures AllFit(k, ps + [p])
  {
  }

  lemma {:induction false} WriteKeeps(k: Keys, l: Link, c: Cursor, n: nat)
    requires InStep(k, l, c) && Enabled(k, l, Write(n))
    ensures InStep(k, Step(k, l, Write(n)).link, c)
  {
    hide Mid, RxValid, After, Stream, AllFit, Unwritten, Written;
    var first := l.queue[0];
    var bytes, rest := first.data[first.pos..first.pos + n], Unwritten(Written(l.queue, n));
    WrittenBytes(l.queue, n);
    ConcatAssoc(l.rx.buf, l.wire, bytes);
    ConcatAssoc(l.rx.buf + l.wire, bytes, rest);
  }

  lemma {:induction false} ReadStep(k: Keys, l: Link, c: Cursor, a: nat, b: nat) returns (c': Cursor)
    requires InStep(k, l, c) && Enabled(k, l, Read(a, b))
    ensures Step(k, l, Read(a, b)).Running?
    ensures InStep(k, Step(k, l, Read(a, b)).link, c')
  {
    hide Mid, RxValid, After, AllFit, Wire, Next, ReadCall, Unwritten, PadLength, RxHead;
    c' := c;
    var d := |l.delivered|;
    var rest := l.sent[d..];
    assert rest != [] by {
      assert l.wire != [];
      assert |l.rx.buf + l.wire + Unwritten(l.queue)| > 0;
    }
    var p := rest[0];
    FitParts(k, rest);
    var more := Stream(k, Next(k, c, p), rest[1..]);
    ReadKeeps(k, l.rx, l.wire, Unwritten(l.queue), c, p, more, a, b);
    var l' := Step(k, l, Read(a, b)).link;
    if ReadCall(k, l.rx, l.wire, a, b).0.Got? {
      c' := Next(k, c, p);
      assert l'.sent[|l'.delivered|..] == rest[1..];
      assert After(k, c, rest) == After(k, c', rest[1..]) by { AfterStep(k, c, rest); }
      assert l'.delivered == Payloads(l'.sent[..d + 1]);
      hide Stream, Payloads;
      assert [] + l'.wire == l'.wire;
      if rest[1..] != [] {
        assert rest[1..][0] == rest[1];
        MidStart(k, c', rest[1]);
      }
    }
  }

  lemma FitParts(k: Keys, ps: seq<Packet>)
    requires AllFit(k, ps) && ps != []
    ensures ps[0].Fits(k) && |ps[0].padding| < 256 && AllFit(k, ps[1..])
    ensures |ps| > 1 ==> ps[1].Fits(k) && |ps[1].padding| < 256
  {
  }

  lemma AfterStep(k: Keys, c: Cursor, ps: seq<Packet>)
    requires AllFit(k, ps) && |c.iv| == k.blockSize && ps != []
    ensures AllFit(k, ps[1..]) && |ps[0].padding| < 256
    ensures After(k, c, ps) == After(k, Next(k, c, ps[0]), ps[1..])
  {
    hide Next;
  }

  lemma {:induction false} StepKeeps(k: Keys, l: Link, e: Event)
    requires Inv(k, l) && Enabled(k, l, e)
    ensures Step(k, l, e).Running? && Inv(k, Step(k, l, e).link)
  {
    hide InStep, Enabled, Step;
    var c :| InStep(k, l, c);
    match e
    case Send(p) =>
      SendKeeps(k, l, c, p);
      StepRuns(k, l, e);
    case Write(n) =>
      WriteKeeps(k, l, c, n);
      StepRuns(k, l, e);
    case Read(a, b) =>
      var c' := ReadStep(k, l, c, a, b);
      assert InStep(k, Step(k, l, e).link, c');
  }

  lemma StepRuns(k: Keys, l: Link, e: Event)
    requires Enabled(k, l, e) && !e.Read?
    ensures Step(k, l, e).Running?
  {
    hide Wire, Next, RxValid;
  }

  // ---- whole runs ----

  ghost predicate AllEnabled(k: Keys, l: Link, es: seq<Event>)
    decreases |es|
  {
    es == [] ||
    (Enabled(k, l, es[0]) && (Step(k, l, es[0]).Running? ==> AllEnabled(k, Step(k, l, es[0]).link, es[1..])))
  }

  ghost function Run(k: Keys, l: Link, es: seq<Event>): Outcome
    requires AllEnabled(k, l, es)
    decreases |es|
  {
    if es == [] then Running(l)
    else
      match Step(k, l, es[0])
      case Running(l') => Run(k, l', es[1..])
      case Died(why) => Died(why)
  }

  lemma {:induction false} RunKeeps(k: Keys, l: Link, es: seq<Event>)
    requires Inv(k, l) && AllEnabled(k, l, es)
    ensures Run(k, l, es).Running? && Inv(k, Run(k, l, es).link)
    decreases |es|
  {
    if es != [] {
      hide Inv, Enabled, Step;
      StepKeeps(k, l, es[0]);
      RunKeeps(k, Step(k, l, es[0]).link, es[1..]);
    }
  }

  function Fresh(c: Cursor): Link {
    Link(c, [], [], Rx(c, [], 0, []), [], [])
  }

  lemma {:induction false} StartsInStep(k: Keys, c: Cursor)
    requires k.Sound() && c.For(k)
    ensures Inv(k, Fresh(c))
  {
    var l := Fresh(c);
    assert l.rx.buf + l.wire + Unwritten(l.queue) == [];
    assert InStep(k, l, c);
  }

  /** Every link whose ends are in step has delivered a prefix of what was sent, and all of it once nothing is in
      between. */
  lemma {:induction false} InvDelivers(k: Keys, l: Link)
    requires Inv(k, l)
    ensures |l.delivered| <= |l.sent| && l.delivered == Payloads(l.sent[..|l.delivered|])
    ensures l.queue == [] && l.wire == [] && l.rx.buf == [] ==> l.delivered == Payloads(l.sent) && l.rx.at == l.tx
  {
    var c :| InStep(k, l, c);
    if l.queue == [] && l.wire == [] && l.rx.buf == [] {
      Drained(k, l, c);
    }
  }

  /** Over every run of sends, partial writes and fragmented reads the receiver never gives up, and it has delivered
      exactly a prefix of the payloads sent, in order; once nothing is left in between, it has delivered them all and
      both ends agree on sequence number and chaining value. */
  lemma {:induction false} Delivered(k: Keys, c: Cursor, es: seq<Event>)
    requires k.Sound() && c.For(k) && AllEnabled(k, Fresh(c), es)
    ensures Run(k, Fresh(c), es).Running?
    ensures var l := Run(k, Fresh(c), es).link;
      && |l.delivered| <= |l.sent| && l.delivered == Payloads(l.sent[..|l.delivered|])
      && (l.queue == [] && l.wire == [] && l.rx.buf == [] ==> l.delivered == Payloads(l.sent) && l.rx.at == l.tx)
  {
    hide AllEnabled, Run, Enabled, Step, Inv;
    StartsInStep(k, c);
    RunKeeps(k, Fresh(c), es);
    InvDelivers(k, Run(k, Fresh(c), es).link);
  }

  lemma {:induction false} Drained(k: Keys, l: Link, c: Cursor)
    requires InStep(k, l, c) && l.queue == [] && l.wire == [] && l.rx.buf == []
    ensures l.delivered == Payloads(l.sent) && l.rx.at == l.tx
  {
    hide Mid, Stream, AllFit, After;
    var rest := l.sent[|l.delivered|..];
    StreamPositive(k, c, rest);
    assert l.rx.buf + l.wire + Unwritten(l.queue) == [];
    assert rest == [];
    AfterNothing(k, c, rest);
    assert l.sent[..|l.delivered|] == l.sent;
  }

  lemma {:induction false} StreamPositive(k: Keys, c: Cursor, ps: seq<Packet>)
    requires AllFit(k, ps) && |c.iv| == k.blockSize
    ensures ps != [] ==> |Stream(k, c, ps)| > 0
  {
    if ps != [] {
      hide Wire, Next, PadLength;
      WireLength(k, c.num, c.iv, ps[0]);
    }
  }

  lemma AfterNothing(k: Keys, c: Cursor, ps: seq<Packet>)
    requires AllFit(k, ps) && |c.iv| == k.blockSize && ps == []
    ensures After(k, c, ps) == c
  {
  }
}
