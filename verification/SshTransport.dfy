/** packet.c: the packet buffers and counters of a session, updated in place. */
module SshTransport {
  import opened Bytes
  import opened SshWire
  import opened SshStream
  import SshQueue

  const INIT_READBUF: nat := 200

  lemma {:induction false} NoneEncrypt(k: Keys, iv: seq<byte>, s: seq<byte>)
    requires k.Sound() && |iv| == k.blockSize && k.cipher.NoCipher? && Whole(|s|, k.blockSize) == |s|
    ensures Encrypt(k, iv, s) == s && Decrypt(k, iv, s) == s && ChainAll(k, iv, s) == iv
    decreases |s|
  {
    if |s| >= k.blockSize {
      NoneEncrypt(k, iv, s[k.blockSize..]);
      assert s == s[..k.blockSize] + s[k.blockSize..];
    }
  }

  lemma {:induction false} EncryptTurn(k: Keys, iv: seq<byte>, s: seq<byte>, pos: nat)
    requires k.Sound() && |iv| == k.blockSize && pos + k.blockSize <= |s|
    ensures var c := EncBlock(k, iv, s[pos..pos + k.blockSize]);
      && |c| == k.blockSize
      && Encrypt(k, iv, s[pos..]) == c + Encrypt(k, Chain(k, iv, c), s[pos + k.blockSize..])
      && ChainAll(k, iv, Encrypt(k, iv, s[pos..])) ==
           ChainAll(k, Chain(k, iv, c), Encrypt(k, Chain(k, iv, c), s[pos + k.blockSize..]))
  {
    hide EncBlock, Whole;
    var t, n := s[pos..], k.blockSize;
    assert t[..n] == s[pos..pos + n] && t[n..] == s[pos + n..];
    BlockRoundTrip(k, iv, t[..n]);
    var c := EncBlock(k, iv, t[..n]);
    ChainAllStep(k, iv, c, Encrypt(k, Chain(k, iv, c), t[n..]));
  }

  lemma {:induction false} DecryptTurn(k: Keys, iv: seq<byte>, s: seq<byte>, pos: nat, done: seq<byte>)
    requires k.Sound() && |iv| == k.blockSize && pos + k.blockSize <= |s|
    ensures var c := s[pos..pos + k.blockSize];
      && done + Decrypt(k, iv, s[pos..]) ==
           done + DecBlock(k, iv, c) + Decrypt(k, Chain(k, iv, c), s[pos + k.blockSize..])
      && ChainAll(k, iv, s[pos..]) == ChainAll(k, Chain(k, iv, c), s[pos + k.blockSize..])
  {
    hide Whole, DecBlock;
    var t, n := s[pos..], k.blockSize;
    assert t[..n] == s[pos..pos + n] && t[n..] == s[pos + n..];
    ConcatAssoc(done, DecBlock(k, iv, t[..n]), Decrypt(k, Chain(k, iv, t[..n]), t[n..]));
  }

  /** The loop over cbc_encrypt: the ciphertext of clear and the next chaining value. */
  method EncryptLoop(k: Keys, iv: seq<byte>, clear: seq<byte>, out: array<byte>) returns (iv': seq<byte>)
    requires k.Sound() && |iv| == k.blockSize && Whole(|clear|, k.blockSize) == |clear| <= out.Length
    modifies out
    ensures out[..|clear|] == Encrypt(k, iv, clear) && iv' == ChainAll(k, iv, Encrypt(k, iv, clear))
  {
    hide Encrypt, ChainAll, EncBlock, Chain, Whole, Keys.Sound;
    BlockSizes(k);
    ghost var all := Encrypt(k, iv, clear);
    var pos := 0;
    iv' := iv;
    assert clear[0..] == clear;
    while pos < |clear|
      invariant 0 <= pos <= |clear| && |iv'| == k.blockSize && Whole(|clear| - pos, k.blockSize) == |clear| - pos
      invariant out[..pos] + Encrypt(k, iv', clear[pos..]) == all
      invariant ChainAll(k, iv', Encrypt(k, iv', clear[pos..])) == ChainAll(k, iv, all)
    {
      WholeTurn(|clear| - pos, k.blockSize);
      EncryptTurn(k, iv', clear, pos);
      var c := EncBlock(k, iv', clear[pos..pos + k.blockSize]);
      ghost var done := out[..pos];
      CopyInto(out, pos, c);
      assert out[..pos + k.blockSize] == done + c;
      ConcatAssoc(done, c, Encrypt(k, Chain(k, iv', c), clear[pos + k.blockSize..]));
      iv', pos := Chain(k, iv', c), pos + k.blockSize;
    }
    NothingLeft(k, iv', clear[pos..]);
    assert out[..pos] + [] == out[..pos];
  }

  /** Encryption of a whole packet, or memcpy without a cipher. */
  method EncryptBlocks(k: Keys, iv: seq<byte>, clear: seq<byte>, out: array<byte>) returns (iv': seq<byte>)
    requires k.Sound() && |iv| == k.blockSize && Whole(|clear|, k.blockSize) == |clear| <= out.Length
    modifies out
    ensures out[..|clear|] == Encrypt(k, iv, clear) && iv' == ChainAll(k, iv, Encrypt(k, iv, clear))
  {
    hide Encrypt, ChainAll, Whole;
    if k.cipher.NoCipher? {
      CopyInto(out, 0, clear);
      NoneEncrypt(k, iv, clear);
      return iv;
    }
    iv' := EncryptLoop(k, iv, clear, out);
  }

  lemma WholeTurn(n: nat, bs: nat)
    requires n > 0 && bs > 0 && Whole(n, bs) == n
    ensures n >= bs && Whole(n - bs, bs) == n - bs
  {
  }

  lemma NothingLeft(k: Keys, iv: seq<byte>, s: seq<byte>)
    requires k.Sound() && |iv| == k.blockSize && s == []
    ensures Encrypt(k, iv, s) == [] && Decrypt(k, iv, s) == [] && ChainAll(k, iv, s) == iv
  {
  }

  /** The loop over cbc_decrypt on all but the first block of a packet. */
  method DecryptLoop(k: Keys, iv: seq<byte>, body: seq<byte>) returns (clear: seq<byte>, iv': seq<byte>)
    requires k.Sound() && |iv| == k.blockSize && Whole(|body|, k.blockSize) == |body|
    ensures clear == Decrypt(k, iv, body) && iv' == ChainAll(k, iv, body)
  {
    hide Decrypt, ChainAll, DecBlock, Chain, Whole, Keys.Sound;
    BlockSizes(k);
    clear, iv' := [], iv;
    var pos := 0;
    assert body[0..] == body;
    while pos < |body|
      invariant 0 <= pos <= |body| && |iv'| == k.blockSize && Whole(|body| - pos, k.blockSize) == |body| - pos
      invariant clear + Decrypt(k, iv', body[pos..]) == Decrypt(k, iv, body)
      invariant ChainAll(k, iv', body[pos..]) == ChainAll(k, iv, body)
    {
      WholeTurn(|body| - pos, k.blockSize);
      DecryptTurn(k, iv', body, pos, clear);
      var c := body[pos..pos + k.blockSize];
      clear := clear + DecBlock(k, iv', c);
      iv', pos := Chain(k, iv', c), pos + k.blockSize;
    }
    NothingLeft(k, iv', body[pos..]);
    assert clear + [] == clear;
  }

  /** Decryption of all but the first block of a packet, or memcpy without a cipher. */
  method DecryptBlocks(k: Keys, iv: seq<byte>, body: seq<byte>) returns (clear: seq<byte>, iv': seq<byte>)
    requires k.Sound() && |iv| == k.blockSize && Whole(|body|, k.blockSize) == |body|
    ensures clear == Decrypt(k, iv, body) && iv' == ChainAll(k, iv, body)
  {
    hide Decrypt, ChainAll, Whole;
    if k.cipher.NoCipher? {
      NoneEncrypt(k, iv, body);
      return body, iv;
    }
    clear, iv' := DecryptLoop(k, iv, body);
  }

  /** How a call of read_packet ended. */
  datatype Status = Waiting | Delivered(payload: seq<byte>) | Quit(why: Exit)

  ghost predicate Reports(r: Reading, st: Status, rx: Rx) {
    match r
    case More(rx') => st == Waiting && rx == rx'
    case Got(rx', payload) => st == Delivered(payload) && rx == rx'
    case Exited(why) => st == Quit(why)
  }

  /** The bytes of encrypt_packet for a payload, and where the next packet starts. */
  method BuildPacket(k: Keys, c: Cursor, payload: seq<byte>, random: seq<byte>)
    returns (data: seq<byte>, c': Cursor, ghost p: Packet)
    requires k.Sound() && c.For(k) && 1 <= |payload| <= MAX_PAYLOAD_LEN && |random| >= 32
    ensures p.Fits(k) && |p.padding| < 256
    ensures p.payload == payload && p.padding <= random
    ensures data == Wire(k, c.num, c.iv, p) && c' == Next(k, c, p)
  {
    hide Wire, Clear, PadLength, Encrypt, ChainAll, Be32, Whole;
    var n := PAYLOAD_OFF + |payload|;
    var padlen := PadLength(k.blockSize, n);
    PadFacts(k.blockSize, n);
    p := Packet(payload, random[..padlen]);
    var clear := new byte[n + MIN_PACKET_LEN + 3](_ => 0);
    FillClear(clear, payload, random[..padlen]);
    var total := n + padlen;
    ClearFacts(k, p);
    var out := new byte[total + k.macSize];
    var iv := EncryptBlocks(k, c.iv, clear[..total], out);
    var mac := k.mac(Be32(c.num) + clear[..total]);
    ghost var cipher := out[..total];
    CopyInto(out, total, mac);
    assert out[..] == cipher + mac;
    WireParts(k, c, p);
    data, c' := out[..], Cursor((c.num + 1) % TWO32, iv);
  }

  /** decrypt_packet on the bytes of a packet: integrity check, length check and payload. */
  method OpenPacket(k: Keys, at: Cursor, head: seq<byte>, buf: seq<byte>) returns (st: Status, at': Cursor)
    requires k.Sound() && at.For(k) && GoodLength(k, |buf|) && |head| == k.blockSize
    ensures !st.Waiting? && at'.For(k)
    ensures Reports(RxDone(k, Rx(at, buf, |buf|, head), buf), st, Rx(at', [], 0, []))
  {
    hide Decrypt, ChainAll, GoodLength, Be32, Whole;
    var n, end := k.blockSize, |buf| - k.macSize;
    DoneFacts(k, Rx(at, buf, |buf|, head), buf);
    var body, iv := DecryptBlocks(k, at.iv, buf[n..end]);
    var clear := head + body;
    if k.mac(Be32(at.num) + clear) != buf[end..] {
      return Quit(IntegrityError), at;
    }
    var len := |clear| - clear[4] - PAYLOAD_OFF;
    if len < 1 || len > MAX_PAYLOAD_LEN {
      return Quit(BadPacketSize), at;
    }
    at' := Cursor((at.num + 1) % TWO32, iv);
    st := Delivered(clear[PAYLOAD_OFF..PAYLOAD_OFF + len]);
  }

  /** A buffer on the write queue: an encrypted packet and the position up to which it has been written. */
  class OutBuffer {
    const data: seq<byte>
    var pos: nat

    constructor (data: seq<byte>)
      ensures this.data == data && pos == 0
    {
      this.data, pos := data, 0;
    }
  }

  class Transport {
    const trans: Keys
    const recv: Keys
    var transAt: Cursor
    const writeQueue: SshQueue.Queue<OutBuffer>
    /** What is on the write queue. */
    ghost var queue: seq<Outgoing>
    ghost var buffers: set<OutBuffer>
    var recvAt: Cursor
    /** readbuf: its bytes, how many of them are a packet, and how many have been read; null between packets. */
    var readBuf: array?<byte>
    var readLen: nat
    var readPos: nat
    /** decryptreadbuf after the first block */
    var head: seq<byte>

    /** The write queue holds the packets of queue, in order, each in a buffer of its own. */
    ghost predicate Sending()
      reads `queue, `buffers, writeQueue, writeQueue.repr, buffers
    {
      && writeQueue.Valid() && |writeQueue.items| == |queue|
      && (forall i {:trigger writeQueue.items[i]} :: 0 <= i < |queue| ==>
            writeQueue.items[i] in buffers && Outgoing(writeQueue.items[i].data, writeQueue.items[i].pos) == queue[i])
      && (forall i, j :: 0 <= i < j < |queue| ==> writeQueue.items[i] != writeQueue.items[j])
    }

    ghost predicate Valid()
      reads this, readBuf, writeQueue, writeQueue.repr, buffers
    {
      && Sending()
      && trans.Sound() && recv.Sound() && transAt.For(trans) && recvAt.For(recv)
      && (readBuf != null ==> readPos <= readLen <= readBuf.Length)
      && (readBuf != null && readLen >= recv.blockSize ==> readBuf.Length == readLen)
      && (readBuf != null && readLen < recv.blockSize ==> readPos == readLen && readBuf.Length == INIT_READBUF)
      && RxValid(recv, Receiving())
    }

    ghost function Receiving(): Rx
      requires readBuf != null ==> readPos <= readBuf.Length
      reads this, readBuf
    {
      if readBuf == null then Rx(recvAt, [], 0, [])
      else if readLen < recv.blockSize then Rx(recvAt, readBuf[..readPos], 0, [])
      else Rx(recvAt, readBuf[..readPos], readLen, head)
    }

    constructor (trans: Keys, recv: Keys, transAt: Cursor, recvAt: Cursor)
      requires trans.Sound() && recv.Sound() && transAt.For(trans) && recvAt.For(recv)
      ensures Valid() && this.trans == trans && this.recv == recv
      ensures this.transAt == transAt && queue == [] && Receiving() == Rx(recvAt, [], 0, [])
      ensures readBuf == null && fresh(writeQueue) && writeQueue.repr == {} && buffers == {}
    {
      this.trans, this.recv, this.transAt, this.recvAt := trans, recv, transAt, recvAt;
      writeQueue := new SshQueue.Queue();
      buffers := {};
      queue, readBuf, readLen, readPos, head := [], null, 0, 0, [];
    }

    /** enqueue of a new buffer with the packet. */
    method Enlist(data: seq<byte>)
      requires Sending()
      modifies `queue, `buffers, writeQueue, writeQueue.repr
      ensures Sending() && queue == old(queue) + [Outgoing(data, 0)]
      ensures fresh(writeQueue.repr - old(writeQueue.repr)) && fresh(buffers - old(buffers))
    {
      hide SshQueue.Queue.Valid;
      var b := new OutBuffer(data);
      writeQueue.Enqueue(b);
      queue, buffers := queue + [Outgoing(data, 0)], buffers + {b};
    }

    /** encrypt_packet: pads, encrypts and authenticates the payload and queues the result. */
    method EncryptPacket(payload: seq<byte>, random: seq<byte>) returns (ghost p: Packet)
      requires Valid() && 1 <= |payload| <= MAX_PAYLOAD_LEN && |random| >= 32
      modifies this, writeQueue, writeQueue.repr
      ensures fresh(writeQueue.repr - old(writeQueue.repr)) && fresh(buffers - old(buffers))
      ensures Valid() && unchanged(this`recvAt, this`readBuf, this`readLen, this`readPos, this`head)
      ensures p.payload == payload && p.Fits(trans) && |p.padding| < 256 && p.padding <= random
      ensures queue == old(queue) + [Outgoing(Wire(trans, old(transAt.num), old(transAt.iv), p), 0)]
      ensures transAt == Next(trans, old(transAt), p)
    {
      hide Wire, Clear, PadLength, RxValid, Transport.Sending, Keys.Sound, Next, Packet.Fits;
      var data, at;
      data, at, p := BuildPacket(trans, transAt, payload, random);
      Enlist(data);
      transAt := at;
    }

    /** isempty of the write queue, which decides whether the main loop waits for the socket to take more. */
    method NothingToWrite() returns (r: bool)
      requires Sending()
      ensures r <==> queue == []
    {
      r := writeQueue.IsEmpty();
    }

    /** write_packet, when write accepted n bytes of the first queued packet. */
    method WritePacket(n: nat) returns (bytes: seq<byte>)
      requires Valid() && queue != [] && queue[0].pos <= |queue[0].data| && 1 <= n <= |queue[0].data| - queue[0].pos
      modifies `queue, writeQueue, buffers
      ensures Valid() && queue == Written(old(queue), n) && writeQueue.repr == old(writeQueue.repr)
      ensures bytes == old(queue[0].data)[old(queue[0].pos)..old(queue[0].pos) + n]
    {
      hide RxValid, Keys.Sound, SshQueue.Queue.Valid;
      var first := writeQueue.Examine();
      bytes := first.data[first.pos..first.pos + n];
      if first.pos + n == |first.data| {
        var _ := writeQueue.Dequeue();
        queue := queue[1..];
        assert forall i :: 0 <= i < |queue| ==> writeQueue.items[i] == old(writeQueue.items)[i + 1];
      } else {
        first.pos := first.pos + n;
        queue := [queue[0].(pos := queue[0].pos + n)] + queue[1..];
      }
    }

    /** The bytes that read returned are added to what is there of the first block. */
    method TakeChunk(chunk: seq<byte>)
      requires Valid() && Receiving().need == 0 && 1 <= |chunk| <= recv.blockSize - |Receiving().buf|
      modifies `readBuf, `readLen, `readPos, `head, readBuf
      ensures readBuf != null && (readBuf == old(readBuf) || fresh(readBuf)) && readBuf.Length == INIT_READBUF
      ensures readLen == readPos == |old(Receiving().buf)| + |chunk| <= recv.blockSize
      ensures readBuf[..readPos] == old(Receiving().buf) + chunk
    {
      hide GoodLength, Transport.Sending;
      if readBuf == null {
        readBuf := new byte[INIT_READBUF];
        readLen, readPos, head := 0, 0, [];
      }
      ghost var before := readBuf[..readPos];
      CopyInto(readBuf, readPos, chunk);
      assert readBuf[..readPos + |chunk|] == before + chunk;
      readPos := readPos + |chunk|;
      readLen := readPos;
    }

    /** read_packet_init, when read returned chunk. */
    method ReadPacketInit(chunk: seq<byte>) returns (st: Status)
      requires Valid() && Receiving().need == 0 && 1 <= |chunk| <= recv.blockSize - |Receiving().buf|
      modifies this, readBuf
      ensures unchanged(this`transAt, this`queue, this`buffers) && readBuf != null
      ensures (readBuf == old(readBuf) || fresh(readBuf))
      ensures !st.Quit? ==> Valid() && Reports(RxHead(recv, old(Receiving()), chunk), st, Receiving())
      ensures st.Quit? ==> RxHead(recv, old(Receiving()), chunk) == Exited(st.why)
    {
      hide DecBlock, BeWord, Signed32, GoodLength, Chain, Transport.Sending;
      TakeChunk(chunk);
      if readLen < recv.blockSize {
        return Waiting;
      }
      st := StartPacket();
    }

    /** The second half of read_packet_init: decrypts the first block and sizes the buffer for the packet. */
    method StartPacket() returns (st: Status)
      requires Sending() && recv.Sound() && trans.Sound() && transAt.For(trans) && recvAt.For(recv)
      requires readBuf != null && readLen == readPos == recv.blockSize && readBuf.Length == INIT_READBUF
      modifies `recvAt, `head, `readBuf, `readLen
      ensures readBuf != null && (readBuf == old(readBuf) || fresh(readBuf))
      ensures !st.Quit? ==> Valid()
      ensures var first := old(readBuf[..readPos]);
        var clear := DecBlock(recv, old(recvAt.iv), first);
        var len := Signed32(BeWord(clear) + 4 + recv.macSize);
        if GoodLength(recv, len)
        then
          && st == Waiting
          && Receiving() == Rx(old(recvAt).(iv := Chain(recv, old(recvAt.iv), first)), first, len, clear)
        else st == Quit(BadPacketSize)
    {
      hide DecBlock, BeWord, Signed32, GoodLength, Chain, Transport.Sending, Keys.Sound, RxValid;
      BlockSizes(recv);
      var first := readBuf[..recv.blockSize];
      var clear := DecBlock(recv, recvAt.iv, first);
      var len := Signed32(BeWord(clear) + 4 + recv.macSize);
      var at := recvAt.(iv := Chain(recv, recvAt.iv, first));
      recvAt := at;
      if !GoodLength(recv, len) {
        return Quit(BadPacketSize);
      }
      LengthRoom(recv, len);
      head := clear;
      Resize(len);
      BodyExpected(recv, at, first, len, clear);
      st := Waiting;
    }

    /** buf_resize of the read buffer to the length of the packet. */
    method Resize(len: nat)
      requires readBuf != null && readBuf.Length == INIT_READBUF && readPos <= len && readPos <= INIT_READBUF
      modifies `readBuf, `readLen
      ensures fresh(readBuf) && readBuf.Length == readLen == len && readBuf[..readPos] == old(readBuf[..readPos])
    {
      var resized := new byte[len];
      CopyInto(resized, 0, readBuf[..Min(len, INIT_READBUF)]);
      assert resized[..readPos] == readBuf[..readPos];
      readBuf, readLen := resized, len;
    }

    /** decrypt_packet on a complete read buffer. */
    method DecryptPacket() returns (st: Status)
      requires Sending() && recv.Sound() && trans.Sound() && transAt.For(trans) && recvAt.For(recv) && readBuf != null
      requires GoodLength(recv, readLen) && readBuf.Length == readLen && |head| == recv.blockSize
      modifies `recvAt, `readBuf
      ensures readBuf == null || readBuf == old(readBuf)
      ensures !st.Quit? ==> Valid() && readBuf == null
      ensures var done := RxDone(recv, old(Rx(recvAt, readBuf[..], readLen, head)), old(readBuf[..]));
        Reports(done, st, Rx(recvAt, [], 0, []))
    {
      hide RxDone, GoodLength, Transport.Sending, Keys.Sound;
      BlockSizes(recv);
      var buf, at := readBuf[..], recvAt;
      st, at := OpenPacket(recv, recvAt, head, buf);
      if st != Quit(IntegrityError) {
        readBuf := null;
      }
      if st.Delivered? {
        recvAt := at;
      }
    }

    /** The rest of read_packet, when read returned chunk. */
    method ReadPacketBody(chunk: seq<byte>) returns (st: Status)
      requires Valid() && Receiving().need > 0 && 1 <= |chunk| <= Receiving().need - |Receiving().buf|
      modifies this, readBuf
      ensures unchanged(this`transAt, this`queue, this`buffers) && (readBuf == null || readBuf == old(readBuf))
      ensures !st.Quit? ==> Valid()
      ensures !st.Quit? ==> Reports(RxBody(recv, old(Receiving()), chunk), st, Receiving())
      ensures st.Quit? ==> RxBody(recv, old(Receiving()), chunk) == Exited(st.why)
    {
      hide RxDone, GoodLength, Keys.Sound, Transport.Sending;
      ghost var before := readBuf[..readPos];
      CopyInto(readBuf, readPos, chunk);
      readPos := readPos + |chunk|;
      assert readBuf[..readPos] == before + chunk;
      if readPos < readLen {
        return Waiting;
      }
      ghost var buf := readBuf[..];
      assert readBuf[..readPos] == buf;
      DoneIgnoresBuffer(recv, Rx(recvAt, buf, readLen, head), before, buf);
      st := DecryptPacket();
    }

    /** read_packet with wire waiting in the socket; its reads return a and b bytes, and it reports how many it took. */
    method ReadPacket(wire: seq<byte>, a: nat, b: nat) returns (st: Status, n: nat)
      requires Valid() && CanRead(recv, Receiving(), wire, a, b)
      modifies this, readBuf
      ensures readBuf == null || readBuf == old(readBuf) || fresh(readBuf)
      ensures unchanged(this`transAt, this`queue, this`buffers) && n == ReadCall(recv, old(Receiving()), wire, a, b).1
      ensures !st.Quit? ==> Valid() && Reports(ReadCall(recv, old(Receiving()), wire, a, b).0, st, Receiving())
      ensures st.Quit? ==> ReadCall(recv, old(Receiving()), wire, a, b).0 == Exited(st.why)
    {
      hide RxHead, RxBody, RxValid, GoodLength, Transport.Sending;
      n := 0;
      if readBuf == null || readLen < recv.blockSize {
        st := ReadPacketInit(wire[..a]);
        n := a;
        if st.Quit? || readLen < recv.blockSize {
          return;
        }
      }
      st := ReadPacketBody(wire[n..n + b]);
      n := n + b;
    }
  }

  lemma DoneFacts(k: Keys, rx: Rx, buf: seq<byte>)
    requires k.Sound() && rx.at.For(k) && GoodLength(k, rx.need) && |buf| == rx.need && |rx.head| == k.blockSize
    ensures k.blockSize <= rx.need - k.macSize <= rx.need
    ensures Whole(rx.need - k.macSize - k.blockSize, k.blockSize) == rx.need - k.macSize - k.blockSize
  {
    WholeBlocks(rx.need - k.macSize, k.blockSize);
    WholeTurn(rx.need - k.macSize, k.blockSize);
  }

  lemma BodyExpected(k: Keys, at: Cursor, first: seq<byte>, len: nat, head: seq<byte>)
    requires k.Sound() && at.For(k) && GoodLength(k, len) && |first| == |head| == k.blockSize < len
    ensures RxValid(k, Rx(at, first, len, head))
  {
    hide GoodLength;
  }

  lemma LengthRoom(k: Keys, len: int)
    requires k.Sound() && GoodLength(k, len)
    ensures len > k.blockSize
  {
  }

  lemma DoneIgnoresBuffer(k: Keys, rx: Rx, before: seq<byte>, buf: seq<byte>)
    requires k.Sound() && rx.at.For(k) && GoodLength(k, rx.need) && |buf| == rx.need && |rx.head| == k.blockSize
    ensures RxDone(k, rx, buf) == RxDone(k, rx.(buf := before), buf)
  {
  }

  lemma WireParts(k: Keys, c: Cursor, p: Packet)
    requires k.Sound() && c.For(k) && |p.padding| < 256
    ensures Wire(k, c.num, c.iv, p) == Encrypt(k, c.iv, Clear(p)) + k.mac(Be32(c.num) + Clear(p))
    ensures Next(k, c, p) == Cursor((c.num + 1) % TWO32, ChainAll(k, c.iv, Encrypt(k, c.iv, Clear(p))))
  {
  }

  /** Writes length, padding length, payload and padding into the cleartext buffer. */
  method FillClear(clear: array<byte>, payload: seq<byte>, padding: seq<byte>)
    requires |padding| < 256 && PAYLOAD_OFF + |payload| + |padding| <= clear.Length && |payload| < TWO24
    modifies clear
    ensures clear[..PAYLOAD_OFF + |payload| + |padding|] == Clear(Packet(payload, padding))
  {
    hide Be32, Clear, Put;
    var len := PAYLOAD_OFF + |payload|;
    var word := Be32(len + |padding| - 4);
    ghost var was := clear[..];
    CopyInto(clear, PAYLOAD_OFF, payload);
    CopyInto(clear, 0, word);
    clear[4] := |padding|;
    CopyInto(clear, len, padding);
    FilledClear(was, word, payload, padding, clear[..]);
    assert clear[..len + |padding|] == clear[..][..len + |padding|];
  }

  lemma FilledClear(was: seq<byte>, word: seq<byte>, payload: seq<byte>, padding: seq<byte>, all: seq<byte>)
    requires |word| == 4 && |padding| < 256 && PAYLOAD_OFF + |payload| + |padding| <= |was| && |payload| < TWO24
    requires word == Be32(PAYLOAD_OFF + |payload| + |padding| - 4)
    requires all == Put(Put(Put(was, PAYLOAD_OFF, payload), 0, word)[4 := |padding|], PAYLOAD_OFF + |payload|, padding)
    ensures all[..PAYLOAD_OFF + |payload| + |padding|] == Clear(Packet(payload, padding))
  {
    hide Be32;
    assert all[..4] == word;
    assert all[PAYLOAD_OFF..PAYLOAD_OFF + |payload|] == payload;
  }
}
