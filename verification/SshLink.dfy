/** Two ends that run packet.c, joined by one byte stream. */
module SshLink {
  import opened Bytes
  import opened SshWire
  import opened SshStream
  import opened SshTransport

  /** The sending end, the bytes under way, the receiving end and what has happened so far are the given link. */
  ghost predicate Shows(tx: Transport, rx: Transport, wire: seq<byte>, delivered: seq<seq<byte>>, l: Link)
    reads tx, tx.readBuf, tx.writeQueue, tx.writeQueue.repr, tx.buffers
    reads rx, rx.readBuf, rx.writeQueue, rx.writeQueue.repr, rx.buffers
  {
    && tx.Valid() && rx.Valid() && l.tx == tx.transAt && l.queue == tx.queue && l.wire == wire
    && l.rx == rx.Receiving() && l.delivered == delivered
  }

  lemma SamePacket(k: Keys, p: Packet, q: Packet, random: seq<byte>)
    requires p.Fits(k) && q.Fits(k) && p.payload == q.payload && p.padding <= random && q.padding <= random
    ensures p == q
  {
    hide PadLength;
  }

  lemma PayloadsMore(ps: seq<Packet>, p: Packet)
    ensures Payloads(ps + [p]) == Payloads(ps) + [p.payload]
  {
  }

  lemma NextEvent(k: Keys, l: Link, es: seq<Event>, n: nat)
    requires n < |es| && AllEnabled(k, l, es[n..])
    ensures Enabled(k, l, es[n])
    ensures Step(k, l, es[n]).Running? ==>
      var l' := Step(k, l, es[n]).link;
      AllEnabled(k, l', es[n + 1..]) && Run(k, l, es[n..]) == Run(k, l', es[n + 1..])
  {
    hide Enabled, Step;
    assert es[n..][0] == es[n] && es[n..][1..] == es[n + 1..];
  }

  lemma RunEnds(k: Keys, l: Link)
    ensures AllEnabled(k, l, []) && Run(k, l, []) == Running(l)
  {
  }

  /** The payloads that are handed to encrypt_packet. */
  function SentIn(es: seq<Event>): seq<seq<byte>> {
    if es == [] then []
    else
      var last := es[|es| - 1];
      SentIn(es[..|es| - 1]) + if last.Send? then [last.p.payload] else []
  }

  lemma SentMore(es: seq<Event>, n: nat)
    requires n < |es|
    ensures SentIn(es[..n + 1]) == SentIn(es[..n]) + if es[n].Send? then [es[n].p.payload] else []
  {
    assert es[..n + 1][..n] == es[..n];
  }

  lemma AllPayloads(ps: seq<Packet>, n: nat)
    requires n <= |ps|
    ensures Payloads(ps[..n]) == Payloads(ps)[..n]
  {
  }

  /** No packet is queued, under way or read in part. */
  method IsIdle(tx: Transport, rx: Transport, wire: seq<byte>) returns (idle: bool)
    requires tx.Valid() && rx.Valid()
    ensures idle <==> tx.queue == [] && wire == [] && rx.Receiving().buf == []
  {
    hide RxValid;
    var empty := tx.NothingToWrite();
    idle := empty && wire == [] && (rx.readBuf == null || rx.readPos == 0);
  }

  /** A packet is encrypted and queued. */
  method SendOne(k: Keys, tx: Transport, p: Packet, ghost l: Link)
    requires tx.Valid() && tx.trans == k && l.tx == tx.transAt && l.queue == tx.queue && Enabled(k, l, Send(p))
    modifies tx, tx.writeQueue, tx.writeQueue.repr
    ensures tx.Valid() && unchanged(tx`readBuf)
    ensures fresh(tx.writeQueue.repr - old(tx.writeQueue.repr)) && fresh(tx.buffers - old(tx.buffers))
    ensures var l' := Step(k, l, Send(p)).link;
      l' == l.(tx := tx.transAt, queue := tx.queue, sent := l.sent + [p])
  {
    hide Wire, Next, PadLength, RxValid, Transport.Sending;
    var random := p.padding + seq(32, _ => 0);
    ghost var q := tx.EncryptPacket(p.payload, random);
    SamePacket(k, p, q, random);
  }

  /** The socket takes n bytes. */
  method WriteOne(k: Keys, tx: Transport, wire: seq<byte>, n: nat, ghost l: Link) returns (wire': seq<byte>)
    requires tx.Valid() && l.queue == tx.queue && l.wire == wire && Enabled(k, l, Write(n))
    modifies tx`queue, tx.writeQueue, tx.buffers
    ensures tx.Valid() && tx.writeQueue.repr == old(tx.writeQueue.repr)
    ensures Step(k, l, Write(n)).link == l.(queue := tx.queue, wire := wire')
  {
    hide RxValid, Transport.Sending, Keys.Sound, Written;
    var bytes := tx.WritePacket(n);
    wire' := wire + bytes;
  }

  /** The socket gives a bytes, and then b bytes. */
  method ReadOne(k: Keys, rx: Transport, wire: seq<byte>, delivered: seq<seq<byte>>, a: nat, b: nat, ghost l: Link)
    returns (wire': seq<byte>, delivered': seq<seq<byte>>)
    requires rx.Valid() && rx.recv == k && l.rx == rx.Receiving() && l.wire == wire && l.delivered == delivered
    requires Enabled(k, l, Read(a, b)) && Step(k, l, Read(a, b)).Running?
    modifies rx, rx.readBuf
    ensures rx.Valid() && unchanged(rx`buffers)
    ensures rx.readBuf == null || rx.readBuf == old(rx.readBuf) || fresh(rx.readBuf)
    ensures Step(k, l, Read(a, b)).link == l.(rx := rx.Receiving(), wire := wire', delivered := delivered')
  {
    CallTakes(k, l.rx, wire, a, b);
    hide RxValid, Transport.Sending, Keys.Sound, CanRead, ReadCall;
    var st, n := rx.ReadPacket(wire, a, b);
    wire', delivered' := wire[n..], delivered;
    if st.Delivered? {
      delivered' := delivered + [st.payload];
    }
  }

  lemma CallTakes(k: Keys, rx: Rx, wire: seq<byte>, a: nat, b: nat)
    requires RxValid(k, rx) && CanRead(k, rx, wire, a, b)
    ensures ReadCall(k, rx, wire, a, b).1 <= |wire|
  {
    hide RxHead, RxBody;
  }

  /** l is the link after n of the events. */
  ghost predicate Reached(k: Keys, c: Cursor, es: seq<Event>, n: nat, l: Link, sent: seq<seq<byte>>) {
    && n <= |es| && Inv(k, l) && AllEnabled(k, Fresh(c), es) && AllEnabled(k, l, es[n..])
    && Run(k, Fresh(c), es) == Run(k, l, es[n..])
    && sent == Payloads(l.sent) && sent == SentIn(es[..n])
  }

  lemma {:induction false} ReachedFirst(k: Keys, c: Cursor, es: seq<Event>)
    requires k.Sound() && c.For(k) && AllEnabled(k, Fresh(c), es)
    ensures Reached(k, c, es, 0, Fresh(c), [])
  {
    hide AllEnabled, Run, Inv, Keys.Sound;
    StartsInStep(k, c);
    assert es[0..] == es;
  }

  lemma {:induction false} ReachedNext(k: Keys, c: Cursor, es: seq<Event>, n: nat, l: Link, sent: seq<seq<byte>>)
    requires Reached(k, c, es, n, l, sent) && n < |es|
    ensures Enabled(k, l, es[n]) && Step(k, l, es[n]).Running?
    ensures
      var l' := Step(k, l, es[n]).link;
      Reached(k, c, es, n + 1, l', sent + if es[n].Send? then [es[n].p.payload] else [])
  {
    hide AllEnabled, Run, Inv, Enabled, SentIn, Payloads;
    NextEvent(k, l, es, n);
    SentMore(es, n);
    StepKeeps(k, l, es[n]);
    SentStep(k, l, es[n]);
  }

  lemma SentStep(k: Keys, l: Link, e: Event)
    requires Enabled(k, l, e) && Step(k, l, e).Running?
    ensures Payloads(Step(k, l, e).link.sent) == Payloads(l.sent) + if e.Send? then [e.p.payload] else []
  {
    hide Wire, Next, ReadCall, CanRead, RxValid, Written;
    if e.Send? {
      PayloadsMore(l.sent, e.p);
    }
  }

  lemma {:induction false} ReachedLast(k: Keys, c: Cursor, es: seq<Event>, l: Link, sent: seq<seq<byte>>)
    requires Reached(k, c, es, |es|, l, sent)
    ensures Run(k, Fresh(c), es) == Running(l) && sent == SentIn(es)
    ensures |l.delivered| <= |sent| && l.delivered == sent[..|l.delivered|]
    ensures l.queue == [] && l.wire == [] && l.rx.buf == [] ==> l.delivered == sent
  {
    hide AllEnabled, Run, Inv, SentIn;
    assert es[|es|..] == [] && es[..|es|] == es;
    RunEnds(k, l);
    InvDelivers(k, l);
    AllPayloads(l.sent, |l.delivered|);
  }

  /** Any sends, partial writes and fragmented reads that can happen, on the buffers of both ends: what has been
      delivered is a prefix of what was sent, and all of it once both ends and the stream are idle. */
  method Drive(k: Keys, c: Cursor, es: seq<Event>) returns (sent: seq<seq<byte>>, delivered: seq<seq<byte>>, idle: bool)
    requires k.Sound() && c.For(k) && AllEnabled(k, Fresh(c), es)
    ensures sent == SentIn(es)
    ensures Run(k, Fresh(c), es).Running?
    ensures var l := Run(k, Fresh(c), es).link;
      delivered == l.delivered && (idle <==> l.queue == [] && l.wire == [] && l.rx.buf == [])
    ensures |delivered| <= |sent| && delivered == sent[..|delivered|]
    ensures idle ==> delivered == sent
  {
    hide AllEnabled, Enabled, Step, Run, Reached, SentIn, Transport.Valid, Transport.Sending, Keys.Sound;
    var tx := new Transport(k, k, c, c);
    var rx := new Transport(k, k, c, c);
    var wire: seq<byte> := [];
    sent, delivered := [], [];
    ghost var l := Fresh(c);
    ReachedFirst(k, c, es);
    for n := 0 to |es|
      invariant fresh(tx) && fresh(rx) && tx != rx && tx.trans == k && rx.recv == k
      invariant fresh(tx.writeQueue) && fresh(tx.writeQueue.repr) && fresh(tx.buffers)
      invariant (rx.readBuf != null ==> fresh(rx.readBuf))
      invariant tx.writeQueue != rx.writeQueue && rx.writeQueue.repr == {} && rx.buffers == {} && tx.readBuf == null
      invariant Shows(tx, rx, wire, delivered, l) && Reached(k, c, es, n, l, sent)
    {
      ReachedNext(k, c, es, n, l, sent);
      match es[n] {
      case Send(p) =>
        SendOne(k, tx, p, l);
        sent := sent + [p.payload];
      case Write(m) =>
        wire := WriteOne(k, tx, wire, m, l);
        assert sent + [] == sent;
      case Read(a, b) =>
        wire, delivered := ReadOne(k, rx, wire, delivered, a, b, l);
        assert sent + [] == sent;
      }
      l := Step(k, l, es[n]).link;
    }
    ReachedLast(k, c, es, l, sent);
    idle := IsIdle(tx, rx, wire);
  }
}
