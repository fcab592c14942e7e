/** channel.c: flow control of one session channel, section 5.2 of RFC 4254. */
module SshChannel {
  import opened Bytes

  const RECV_MAXWINDOW: nat := 6000
  const MAX_TRANS_WINDOW: nat := 500_000_000
  const MAX_TRANS_WIN_INCR: nat := 500_000_000
  const MAX_TRANS_PAYLOAD_LEN: nat := 32768

  /** The program's standard input: not started, open, or closed. */
  datatype Fd = Uninit | Open | Closed

  class Channel {
    // writebuf
    const data: array<byte>
    var pos: nat
    var len: nat
    var recvWindow: nat
    var recvEof: bool
    var infd: Fd
    var exited: bool
    /** Everything written to the program so far. */
    var program: seq<byte>
    var transWindow: nat
    const transMaxPacket: nat
    /** What the client allowed in all, and what was sent to it. */
    ghost var granted: nat
    ghost var emitted: nat

    ghost predicate Valid()
      reads this
    {
      && data.Length == RECV_MAXWINDOW
      && pos <= len <= RECV_MAXWINDOW && (pos == len ==> len == 0)
      && recvWindow <= RECV_MAXWINDOW && (!recvEof ==> recvWindow + len == RECV_MAXWINDOW)
      && (recvEof && len == 0 ==> infd == Closed)
      && (len > 0 ==> infd != Uninit)
      && emitted + transWindow <= granted && transWindow <= MAX_TRANS_WINDOW && transMaxPacket <= MAX_TRANS_PAYLOAD_LEN
    }

    /** Received data that the program has not taken yet. */
    ghost function Pending(): seq<byte>
      requires pos <= len <= data.Length
      reads this, data
    {
      data[pos..len]
    }

    /** newchannel, as recv_msg_channel_open calls it with the client's window and packet size. */
    constructor (window: nat, maxPacket: nat)
      ensures Valid() && fresh(data) && Pending() == [] && infd == Uninit && !recvEof && !exited && program == []
      ensures recvWindow == RECV_MAXWINDOW
      ensures transWindow == Min(window, 500_000_000) && transMaxPacket == Min(maxPacket, 32768)
      ensures granted == window && emitted == 0
    {
      data := new byte[RECV_MAXWINDOW];
      pos, len, recvWindow := 0, 0, RECV_MAXWINDOW;
      recvEof, exited, infd, program := false, false, Uninit, [];
      transWindow := Min(window, MAX_TRANS_WINDOW);
      transMaxPacket := Min(maxPacket, MAX_TRANS_PAYLOAD_LEN);
      granted, emitted := window, 0;
    }

    /** recv_msg_channel_data on a message that claims n bytes and carries those in d. Data inside the window is taken
        whole. Data beyond it is cut to the window when nothing is buffered and ends the session otherwise; so do data
        after EOF, data for a program that is not running and a message shorter than it claims. */
    method RecvData(n: nat, d: seq<byte>)
      requires Valid() && !exited
      modifies this, data
      ensures Valid() && unchanged(`recvEof, `infd, `program, `transWindow, `granted, `emitted)
      ensures !exited <==>
        !recvEof && infd == Open && (n <= old(recvWindow) || old(len) == 0) && Min(n, old(recvWindow)) <= |d|
      ensures !exited ==> Pending() == old(Pending()) + d[..Min(n, old(recvWindow))]
      ensures !exited ==> recvWindow == old(recvWindow) - Min(n, old(recvWindow)) && pos == old(pos)
      ensures exited ==> unchanged(`pos, `len, `recvWindow, data)
    {
      if recvEof || infd != Open {
        exited := true;
        return;
      }
      var count := Min(n, data.Length - pos);
      if len + count > data.Length || count > |d| {
        exited := true;
        return;
      }
      ghost var before := Pending();
      CopyInto(data, len, d[..count]);
      assert data[pos..len] == before;
      assert data[len..len + count] == d[..count];
      assert data[pos..len + count] == data[pos..len] + data[len..len + count];
      len := len + count;
      recvWindow := recvWindow - count;
    }

    /** writechannel, when write returned n: the window is opened again once everything has been written. */
    method WriteChannel(n: int) returns (adjust: nat)
      requires Valid() && !exited && infd == Open && pos < len && n <= len - pos
      modifies this
      ensures Valid() && unchanged(`recvEof, `exited, `transWindow, `granted, `emitted)
      ensures n <= 0 ==>
        adjust == 0 && unchanged(`program, `recvWindow, `pos, `len) && infd == if n < 0 then Closed else Open
      ensures n > 0 ==> program + Pending() == old(program + Pending()) && |program| == |old(program)| + n
      ensures n > 0 ==> program == old(program + Pending()[..n]) && Pending() == old(Pending()[n..])
      ensures n > 0 ==> recvWindow == old(recvWindow) + adjust && (Pending() != [] ==> len == old(len))
      ensures n > 0 && !recvEof ==> infd == Open
      ensures n > 0 && recvEof ==> adjust == 0 && (infd == Closed <==> Pending() == []) && infd != Uninit
      ensures adjust == if n == old(len - pos) && !recvEof then RECV_MAXWINDOW - old(recvWindow) else 0
    {
      adjust := 0;
      if n <= 0 {
        if n < 0 {
          infd := Closed;
        }
        return;
      }
      ghost var before := program + Pending();
      var bytes := data[pos..pos + n];
      assert data[pos..len] == bytes + data[pos + n..len];
      ConcatAssoc(program, bytes, data[pos + n..len]);
      program := program + bytes;
      if n == len - pos {
        pos, len := 0, 0;
        assert program + Pending() == before;
        if recvEof {
          infd := Closed;
          return;
        }
        adjust := data.Length - recvWindow;
        recvWindow := data.Length;
      } else {
        pos := pos + n;
      }
    }

    /** recv_msg_channel_eof: the program's input is closed once the buffer is empty. */
    method RecvEof()
      requires Valid() && !exited
      modifies this`recvEof, this`infd
      ensures Valid() && recvEof && infd == if len == 0 then Closed else old(infd)
    {
      recvEof := true;
      if len == 0 {
        infd := Closed;
      }
    }

    /** The shell or command is started. */
    method Start()
      requires Valid() && infd == Uninit
      modifies this`infd
      ensures Valid() && infd == Open
    {
      infd := Open;
    }

    /** closeinfd, after the probe of channelio failed or the program ended. */
    method Close()
      requires Valid() && infd == Open
      modifies this`infd
      ensures Valid() && infd == Closed
    {
      infd := Closed;
    }

    /** send_msg_channel_data: at most one window and one packet; n is what read returned. */
    method SendData(n: nat, extended: bool) returns (sent: nat)
      requires Valid()
      modifies this`transWindow, this`emitted
      ensures Valid() && sent <= n && sent <= transMaxPacket
      ensures sent + (if extended then 13 else 9) <= MAX_TRANS_PAYLOAD_LEN
      ensures sent == n || transWindow == 0 || sent == transMaxPacket ||
        sent + (if extended then 13 else 9) == MAX_TRANS_PAYLOAD_LEN
      ensures transWindow == old(transWindow) - sent && emitted == old(emitted) + sent
    {
      var most := Min(Min(transWindow, transMaxPacket), MAX_TRANS_PAYLOAD_LEN - 9 - if extended then 4 else 0);
      sent := Min(most, n);
      transWindow := transWindow - sent;
      emitted := emitted + sent;
    }

    /** recv_msg_channel_window_adjust */
    method RecvWindowAdjust(incr: nat)
      requires Valid()
      modifies this`transWindow, this`granted
      ensures Valid() && granted == old(granted) + incr
      ensures old(transWindow) <= transWindow <= old(transWindow) + incr
      ensures transWindow == Min(old(transWindow) + Min(incr, MAX_TRANS_WIN_INCR), MAX_TRANS_WINDOW)
    {
      transWindow := Min(transWindow + Min(incr, MAX_TRANS_WIN_INCR), MAX_TRANS_WINDOW);
      granted := granted + incr;
    }
  }

  // ---- client and server together ----

  datatype Up = Data(bytes: seq<byte>) | Eof

  /** The client sends data or EOF, a message arrives at either end, the program takes n bytes, or it has closed its
      input: a write fails, or the probe or the end of the program closes the descriptor. */
  datatype Event = ClientSend(bytes: seq<byte>) | ClientEof | ServerReceives | ClientReceives | ProgramTakes(n: nat)
                 | WriteFails | InputGone

  type Window = n: nat | n <= RECV_MAXWINDOW

  /** Both ends of a channel and the two message queues between them. Of the client: its window, whether it has sent EOF
      and all data sent. Of the server: what the program has read, what is waiting for it, the used part of the buffer,
      the window, whether EOF was received, whether the program's input is closed, whether that was the program's doing,
      and whether the session was ended. */
  datatype Flow = Flow(sent: seq<byte>, eof: bool, up: seq<Up>, down: seq<nat>, window: nat,
                       program: seq<byte>, pending: seq<byte>, buffered: nat, recvWindow: Window, recvEof: bool,
                       closed: bool, broke: bool, exited: bool)

  const START: Flow := Flow([], false, [], [], RECV_MAXWINDOW, [], [], 0, RECV_MAXWINDOW, false, false, false, false)

  /** A client that keeps to its window. */
  function Send(f: Flow, bytes: seq<byte>): Flow {
    if f.eof || |bytes| > f.window then f
    else f.(window := f.window - |bytes|, up := f.up + [Data(bytes)], sent := f.sent + bytes)
  }

  /** The server takes its next message; the one that ends the session stays where it is. */
  function Receive(f: Flow): Flow {
    if f.up == [] || f.exited then f
    else
      match f.up[0]
      case Eof => f.(up := f.up[1..], recvEof := true, closed := f.closed || f.buffered == 0)
      case Data(d) =>
        var n := Min(|d|, f.recvWindow);
        if f.recvEof || f.closed || (|d| > f.recvWindow && f.buffered > 0) then f.(exited := true)
        else
          f.(up := f.up[1..], pending := f.pending + d[..n], buffered := f.buffered + n, recvWindow := f.recvWindow - n)
  }

  function Take(f: Flow, n: nat): Flow {
    if f.closed || f.exited || n == 0 || n > |f.pending| then f
    else
      var g := f.(program := f.program + f.pending[..n], pending := f.pending[n..]);
      if n < |f.pending| then g
      else if f.recvEof then g.(buffered := 0, closed := true)
      else g.(buffered := 0, down := f.down + [RECV_MAXWINDOW - f.recvWindow], recvWindow := RECV_MAXWINDOW)
  }

  function Step(f: Flow, e: Event): Flow {
    match e
    case ClientSend(bytes) => Send(f, bytes)
    case ClientEof => if f.eof then f else f.(up := f.up + [Eof], eof := true)
    case ServerReceives => Receive(f)
    case ClientReceives => if f.down == [] then f else f.(window := f.window + f.down[0], down := f.down[1..])
    case ProgramTakes(n) => Take(f, n)
    case WriteFails => if f.closed || f.exited || f.pending == [] then f else f.(closed := true, broke := true)
    case InputGone => if f.closed || f.exited then f else f.(closed := true, broke := true)
  }

  function Run(events: seq<Event>): Flow {
    if events == [] then START else Step(Run(events[..|events| - 1]), events[|events| - 1])
  }

  /** The data in a queue of messages. */
  function Carried(q: seq<Up>): seq<byte> {
    if q == [] then [] else (if q[0].Data? then q[0].bytes else []) + Carried(q[1..])
  }

  function Sum(q: seq<nat>): nat {
    if q == [] then 0 else q[0] + Sum(q[1..])
  }

  lemma {:induction false} CarriedMore(q: seq<Up>, m: Up)
    ensures Carried(q + [m]) == Carried(q) + if m.Data? then m.bytes else []
  {
    if q == [] {
      assert ([m])[1..] == [];
    } else {
      assert (q + [m])[1..] == q[1..] + [m];
      CarriedMore(q[1..], m);
      ConcatAssoc(if q[0].Data? then q[0].bytes else [], Carried(q[1..]), if m.Data? then m.bytes else []);
    }
  }

  lemma {:induction false} SumMore(q: seq<nat>, n: nat)
    ensures Sum(q + [n]) == Sum(q) + n
  {
    if q != [] {
      assert (q + [n])[1..] == q[1..] + [n];
      SumMore(q[1..], n);
    }
  }

  // ---- what every run keeps ----

  /** What the program has read, what waits for it and what is on the way are together what the client sent. */
  predicate NothingLost(f: Flow) {
    f.program + f.pending + Carried(f.up) == f.sent
  }

  /** Until EOF the windows of both ends differ by what is on the way, and the server's is the free part of its
      buffer. */
  predicate WindowsAgree(f: Flow) {
    !f.recvEof ==>
      f.window + |Carried(f.up)| + Sum(f.down) == f.recvWindow && f.recvWindow + f.buffered == RECV_MAXWINDOW
  }

  /** EOF is the last message. */
  predicate EofLast(f: Flow) {
    && (forall i :: 0 <= i < |f.up| ==> (f.up[i].Eof? <==> i == |f.up| - 1 && f.eof && !f.recvEof))
    && (f.recvEof ==> f.up == [] && f.eof)
    && (f.eof && !f.recvEof ==> f.up != [])
  }

  /** Unless the program closed its input it is closed exactly when EOF was received and everything has been written. */
  predicate ClosedInTime(f: Flow) {
    && |f.pending| <= f.buffered && (f.pending == [] ==> f.buffered == 0)
    && (f.recvEof && f.pending == [] ==> f.closed)
    && (f.closed && !f.broke ==> f.recvEof && f.pending == [])
    && (f.broke ==> f.closed)
    && (f.exited ==> f.broke && f.up != [] && f.up[0].Data?)
  }

  predicate InStep(f: Flow) {
    NothingLost(f) && WindowsAgree(f) && EofLast(f) && ClosedInTime(f)
  }

  lemma {:induction false} SendKeeps(f: Flow, bytes: seq<byte>)
    requires InStep(f)
    ensures InStep(Send(f, bytes))
  {
    hide Carried, Sum;
    CarriedMore(f.up, Data(bytes));
    ConcatAssoc(f.program + f.pending, Carried(f.up), bytes);
  }

  lemma {:induction false} EofKeeps(f: Flow)
    requires InStep(f)
    ensures InStep(Step(f, ClientEof))
  {
    hide Carried, Sum;
    CarriedMore(f.up, Eof);
    assert Carried(f.up) + [] == Carried(f.up);
  }

  lemma CarriedFirst(q: seq<Up>)
    requires q != []
    ensures Carried(q) == (if q[0].Data? then q[0].bytes else []) + Carried(q[1..])
    ensures q[0].Data? ==> |q[0].bytes| <= |Carried(q)|
    ensures q[0].Eof? ==> Carried(q) == Carried(q[1..])
  {
  }

  lemma {:induction false} ReceiveKeeps(f: Flow)
    requires InStep(f)
    ensures InStep(Receive(f))
  {
    hide Carried, Sum;
    if f.up != [] && !f.exited {
      CarriedFirst(f.up);
      var rest := f.up[1..];
      assert forall i :: 0 <= i < |rest| ==> rest[i] == f.up[i + 1];
      if f.up[0].Data? {
        var d := f.up[0].bytes;
        assert d[..|d|] == d;
        ConcatAssoc(f.program, f.pending, d);
        ConcatAssoc(f.program + f.pending, d, Carried(rest));
      }
    }
  }

  lemma {:induction false} TakeKeeps(f: Flow, n: nat)
    requires InStep(f)
    ensures InStep(Take(f, n))
  {
    hide Carried, Sum;
    if 0 < n <= |f.pending| {
      assert f.pending == f.pending[..n] + f.pending[n..];
      ConcatAssoc(f.program, f.pending[..n], f.pending[n..]);
      SumMore(f.down, RECV_MAXWINDOW - f.recvWindow);
    }
  }

  lemma {:induction false} StepKeeps(f: Flow, e: Event)
    requires InStep(f)
    ensures InStep(Step(f, e))
  {
    match e
    case ClientSend(bytes) => SendKeeps(f, bytes);
    case ClientEof => EofKeeps(f);
    case ServerReceives => ReceiveKeeps(f);
    case ClientReceives =>
    case ProgramTakes(n) => TakeKeeps(f, n);
    case WriteFails =>
    case InputGone =>
  }

  /** Section 5.2 of RFC 4254 over any run with a client that respects its window, whatever the program does with its
      input: nothing is lost, clipped or reordered, the windows agree, and unless the program closed its input itself it
      is closed only after everything was written. */
  lemma {:induction false} FlowKept(events: seq<Event>)
    ensures InStep(Run(events))
    decreases |events|
  {
    if events == [] {
      assert Carried([]) == [] && Sum([]) == 0;
    } else {
      FlowKept(events[..|events| - 1]);
      StepKeeps(Run(events[..|events| - 1]), events[|events| - 1]);
    }
  }

  /** The server takes data for a program that has closed its input. */
  predicate Refused(events: seq<Event>, k: nat)
    requires k < |events|
  {
    var f := Run(events[..k]);
    events[k] == ServerReceives && f.broke && f.up != [] && f.up[0].Data?
  }

  /** The session of a client that respects its window is ended exactly by a data message that arrives after the program
      has closed its input. */
  lemma {:induction false} EndsExactly(events: seq<Event>)
    ensures Run(events).exited <==> exists k :: 0 <= k < |events| && Refused(events, k)
    decreases |events|
  {
    hide Run, InStep, Step;
    if events == [] {
      RunNone();
    } else {
      var n := |events| - 1;
      var before := events[..n];
      EndsExactly(before);
      FlowKept(before);
      RunMore(events, n);
      assert events[..n + 1] == events;
      EndsNow(Run(before), events[n]);
      forall k | 0 <= k < n
        ensures Refused(before, k) <==> Refused(events, k)
      {
        assert before[..k] == events[..k];
      }
      assert Run(events).exited <==> Run(before).exited || Refused(events, n);
      hide Refused;
      if Run(before).exited {
        var k :| 0 <= k < n && Refused(before, k);
        assert Refused(events, k);
      }
    }
  }

  lemma {:induction false} EndsNow(f: Flow, e: Event)
    requires InStep(f)
    ensures Step(f, e).exited <==> f.exited || (e == ServerReceives && f.broke && f.up != [] && f.up[0].Data?)
  {
    hide Sum;
    if f.up != [] {
      hide Carried;
      CarriedFirst(f.up);
    }
  }

  /** As long as the program keeps its input open the session goes on. */
  lemma {:induction false} NeverEnds(events: seq<Event>)
    requires forall i :: 0 <= i < |events| ==> events[i] != WriteFails && events[i] != InputGone
    ensures !Run(events).broke && !Run(events).exited
    decreases |events|
  {
    hide Run, Step, NothingLost, WindowsAgree, EofLast;
    FlowKept(events);
    if events == [] {
      RunNone();
    } else {
      var n := |events| - 1;
      NeverEnds(events[..n]);
      RunMore(events, n);
      assert events[..n + 1] == events;
      NotBroken(Run(events[..n]), events[n]);
    }
  }

  lemma NotBroken(f: Flow, e: Event)
    requires !f.broke && e != WriteFails && e != InputGone
    ensures !Step(f, e).broke
  {
  }

  // ---- everything arrives ----

  function RunFrom(f: Flow, es: seq<Event>): Flow
    decreases |es|
  {
    if es == [] then f else RunFrom(Step(f, es[0]), es[1..])
  }

  lemma {:induction false} RunOn(a: seq<Event>, b: seq<Event>)
    ensures Run(a + b) == RunFrom(Run(a), b)
    decreases |b|
  {
    hide Step;
    if b == [] {
      assert a + b == a;
    } else {
      var a' := a + [b[0]];
      assert a'[..|a|] == a && a'[..|a| + 1] == a';
      RunMore(a', |a|);
      RunOn(a', b[1..]);
      assert a' + b[1..] == a + b;
    }
  }

  function Times(e: Event, n: nat): seq<Event> {
    seq(n, _ => e)
  }

  lemma {:induction false} OneOfTimes(f: Flow, e: Event, n: nat)
    requires n > 0
    ensures RunFrom(f, Times(e, n)) == RunFrom(Step(f, e), Times(e, n - 1))
  {
    hide Step;
    assert Times(e, n)[1..] == Times(e, n - 1);
  }

  /** One more message is taken. */
  lemma {:induction false} ReceiveOne(f: Flow)
    requires InStep(f) && !f.broke && f.up != []
    ensures var g := Receive(f); g.up == f.up[1..] && g.sent == f.sent && g.eof == f.eof && !g.broke && !g.exited
  {
    hide Sum, Carried;
    CarriedFirst(f.up);
  }

  lemma {:induction false} ReceiveAll(f: Flow)
    requires InStep(f) && !f.broke
    ensures var g := RunFrom(f, Times(ServerReceives, |f.up|));
      g.up == [] && g.sent == f.sent && g.eof == f.eof && !g.broke && InStep(g)
    decreases |f.up|
  {
    hide InStep, Receive;
    if f.up == [] {
      assert Times(ServerReceives, 0) == [];
    } else {
      ReceiveOne(f);
      ReceiveKeeps(f);
      OneOfTimes(f, ServerReceives, |f.up|);
      ReceiveAll(Receive(f));
    }
  }

  /** The program takes everything that waits. */
  lemma {:induction false} TakeAll(f: Flow)
    requires InStep(f) && !f.broke && f.up == []
    ensures var g := Take(f, |f.pending|);
      && g.pending == [] && g.program == g.sent == f.sent && g.up == [] && g.eof == f.eof && !g.broke && !g.exited
      && (g.closed <==> f.eof)
  {
    hide Sum;
    TakeKeeps(f, |f.pending|);
    var g := Take(f, |f.pending|);
    assert f.pending[..|f.pending|] == f.pending && f.pending[|f.pending|..] == [];
    assert f.program + f.pending + [] == f.program + f.pending;
    assert f.pending == [] ==> f.program + f.pending == f.program;
  }

  lemma {:induction false} ClientGetsAll(f: Flow)
    ensures var g := RunFrom(f, Times(ClientReceives, |f.down|));
      g == f.(window := f.window + Sum(f.down), down := [])
    decreases |f.down|
  {
    hide Send, Receive, Take;
    if f.down == [] {
      assert Times(ClientReceives, 0) == [];
    } else {
      OneOfTimes(f, ClientReceives, |f.down|);
      ClientGetsAll(Step(f, ClientReceives));
    }
  }

  /** All messages are received, the program takes all data, and the client receives all window messages. */
  function Drain(f: Flow): seq<Event> {
    var g := RunFrom(f, Times(ServerReceives, |f.up|));
    var h := Take(g, |g.pending|);
    Times(ServerReceives, |f.up|) + ([ProgramTakes(|g.pending|)] + Times(ClientReceives, |h.down|))
  }

  lemma {:induction false} FromCat(f: Flow, a: seq<Event>, b: seq<Event>)
    ensures RunFrom(f, a + b) == RunFrom(RunFrom(f, a), b)
    decreases |a|
  {
    hide Step;
    if a == [] {
      assert a + b == b;
    } else {
      assert (a + b)[1..] == a[1..] + b;
      FromCat(Step(f, a[0]), a[1..], b);
    }
  }

  /** After every run in which the program has not closed its input, the program can get everything that the client has
      sent, the window opens again completely, and the input is closed exactly when the client has sent EOF. */
  lemma {:induction false} AllArrives(events: seq<Event>)
    requires !Run(events).broke
    ensures
      var f := Run(events);
      var g := Run(events + Drain(f));
      && g.program == g.sent == f.sent && g.pending == [] && g.up == [] && g.down == [] && !g.exited
      && (g.closed <==> f.eof) && (!f.eof ==> g.window == 6000)
  {
    hide Run, InStep, Step, Take, Receive;
    var f := Run(events);
    FlowKept(events);
    ReceiveAll(f);
    var a := Times(ServerReceives, |f.up|);
    var g := RunFrom(f, a);
    TakeAll(g);
    var h := Take(g, |g.pending|);
    var b := Times(ClientReceives, |h.down|);
    FromCat(f, a, [ProgramTakes(|g.pending|)] + b);
    TakeFirst(g, |g.pending|, b);
    ClientGetsAll(h);
    RunOn(events, Drain(f));
    FlowKept(events + Drain(f));
    if !f.eof {
      FullWindow(Run(events + Drain(f)));
    }
  }

  lemma TakeFirst(f: Flow, n: nat, b: seq<Event>)
    ensures RunFrom(f, [ProgramTakes(n)] + b) == RunFrom(Take(f, n), b)
  {
    hide Take;
    assert ([ProgramTakes(n)] + b)[0] == ProgramTakes(n) && ([ProgramTakes(n)] + b)[1..] == b;
  }

  lemma FullWindow(f: Flow)
    requires InStep(f) && f.up == [] && f.down == [] && f.pending == [] && !f.eof
    ensures f.window == RECV_MAXWINDOW
  {
  }

  /** The first byte is never written, and the second, within the window, ends the session. */
  lemma {:induction false} BrokenRun()
    ensures var f := Run([ClientSend([1]), ServerReceives, WriteFails, ClientSend([2]), ServerReceives]);
      f.exited && f.sent == [1, 2] && f.program == [] && f.pending == [1] && f.window == RECV_MAXWINDOW - 2
  {
    var a := [ClientSend([1])];
    var b := a + [ServerReceives];
    var c := b + [WriteFails];
    var d := c + [ClientSend([2])];
    var e := d + [ServerReceives];
    assert a[..0] == [] && b[..1] == a && c[..2] == b && d[..3] == c && e[..4] == d;
    assert Run(a) == Send(START, [1]);
    assert Run(b) == Receive(Run(a));
    assert Run(c) == Run(b).(closed := true, broke := true);
    assert Run(d) == Send(Run(c), [2]);
    assert Run(e) == Receive(Run(d));
    assert e == [ClientSend([1]), ServerReceives, WriteFails, ClientSend([2]), ServerReceives];
  }

  // ---- the same on the buffer ----

  class Client {
    var window: nat
    var up: seq<Up>
    var down: seq<nat>
    var eof: bool
    var sent: seq<byte>

    constructor ()
      ensures window == RECV_MAXWINDOW && up == [] && down == [] && !eof && sent == []
    {
      window, up, down, eof, sent := RECV_MAXWINDOW, [], [], false, [];
    }
  }

  /** What client and channel hold, as a value. */
  ghost function View(c: Client, ch: Channel, broke: bool): Flow
    requires ch.Valid()
    reads c, ch, ch.data
  {
    Flow(c.sent, c.eof, c.up, c.down, c.window, ch.program, ch.Pending(), ch.len, ch.recvWindow, ch.recvEof,
         ch.infd == Closed, broke, ch.exited)
  }

  method ServerGetsData(c: Client, ch: Channel, d: seq<byte>, ghost broke: bool)
    requires ch.Valid() && ch.infd != Uninit && !ch.exited && c.up != [] && c.up[0] == Data(d)
    modifies c`up, ch, ch.data
    ensures ch.Valid() && ch.infd != Uninit && View(c, ch, broke) == Receive(old(View(c, ch, broke)))
  {
    ghost var f := View(c, ch, broke);
    ReceiveData(f, d);
    hide Receive;
    ch.RecvData(|d|, d);
    if !ch.exited {
      c.up := c.up[1..];
    }
  }

  lemma ReceiveData(f: Flow, d: seq<byte>)
    requires f.up != [] && f.up[0] == Data(d) && !f.exited
    ensures
      var n := Min(|d|, f.recvWindow);
      Receive(f) ==
      if f.recvEof || f.closed || (|d| > f.recvWindow && f.buffered > 0) then f.(exited := true)
      else
        f.(up := f.up[1..], pending := f.pending + d[..n], buffered := f.buffered + n, recvWindow := f.recvWindow - n)
  {
  }

  method ServerGetsEof(c: Client, ch: Channel, ghost broke: bool)
    requires ch.Valid() && ch.infd != Uninit && !ch.exited && c.up != [] && c.up[0] == Eof
    modifies c`up, ch`recvEof, ch`infd
    ensures ch.Valid() && ch.infd != Uninit && View(c, ch, broke) == Receive(old(View(c, ch, broke)))
  {
    ch.RecvEof();
    c.up := c.up[1..];
  }

  method ProgramReads(c: Client, ch: Channel, n: nat, ghost broke: bool)
    requires ch.Valid() && ch.infd != Uninit
    modifies c`down, ch
    ensures ch.Valid() && ch.infd != Uninit && View(c, ch, broke) == Take(old(View(c, ch, broke)), n)
  {
    if ch.infd == Open && !ch.exited && 0 < n <= ch.len - ch.pos {
      var adjust := ch.WriteChannel(n);
      if adjust > 0 {
        c.down := c.down + [adjust];
      }
    }
  }

  method ProgramCloses(c: Client, ch: Channel, e: Event, broke: bool) returns (broke': bool)
    requires ch.Valid() && ch.infd != Uninit && (e == WriteFails || e == InputGone)
    modifies ch
    ensures ch.Valid() && ch.infd != Uninit && View(c, ch, broke') == Step(old(View(c, ch, broke)), e)
  {
    broke' := broke;
    if ch.infd == Open && !ch.exited {
      if e == InputGone {
        ch.Close();
        broke' := true;
      } else if ch.pos < ch.len {
        var _ := ch.WriteChannel(-1);
        broke' := true;
      }
    }
  }

  method ClientActs(c: Client, ch: Channel, e: Event, ghost broke: bool)
    requires ch.Valid() && (e.ClientSend? || e.ClientEof? || e.ClientReceives?)
    modifies c
    ensures View(c, ch, broke) == Step(old(View(c, ch, broke)), e)
  {
    match e
    case ClientSend(bytes) =>
      if !c.eof && |bytes| <= c.window {
        c.window, c.up, c.sent := c.window - |bytes|, c.up + [Data(bytes)], c.sent + bytes;
      }
    case ClientEof =>
      if !c.eof {
        c.up, c.eof := c.up + [Eof], true;
      }
    case ClientReceives =>
      if c.down != [] {
        c.window, c.down := c.window + c.down[0], c.down[1..];
      }
  }

  /** The channel's own buffer and counters follow every run. */
  method RunFlow(events: seq<Event>) returns (f: Flow)
    ensures f == Run(events)
    ensures InStep(f) && (f.exited <==> exists k :: 0 <= k < |events| && Refused(events, k))
  {
    hide InStep, Refused, Run, Send, Take;
    var c := new Client();
    var ch := new Channel(0, 0);
    ch.Start();
    var broke := false;
    RunNone();
    for i := 0 to |events|
      invariant fresh(c) && fresh(ch) && fresh(ch.data) && ch.Valid() && ch.infd != Uninit
      invariant View(c, ch, broke) == Run(events[..i])
    {
      RunMore(events, i);
      match events[i]
      case ServerReceives =>
        if c.up != [] && !ch.exited {
          if c.up[0].Data? {
            ServerGetsData(c, ch, c.up[0].bytes, broke);
          } else {
            ServerGetsEof(c, ch, broke);
          }
        }
      case ProgramTakes(n) => ProgramReads(c, ch, n, broke);
      case WriteFails => broke := ProgramCloses(c, ch, events[i], broke);
      case InputGone => broke := ProgramCloses(c, ch, events[i], broke);
      case _ => ClientActs(c, ch, events[i], broke);
    }
    assert events[..|events|] == events;
    f := Flow(c.sent, c.eof, c.up, c.down, c.window, ch.program, ch.data[ch.pos..ch.len], ch.len, ch.recvWindow,
              ch.recvEof, ch.infd == Closed, broke, ch.exited);
    FlowKept(events);
    EndsExactly(events);
  }

  lemma RunNone()
    ensures Run([]) == START
  {
  }

  lemma RunMore(events: seq<Event>, i: nat)
    requires i < |events|
    ensures Run(events[..i + 1]) == Step(Run(events[..i]), events[i])
  {
    hide Step;
    assert events[..i + 1][..i] == events[..i];
  }

  /** Whatever fits into the window reaches the program as it was sent, and then its input is closed. */
  lemma {:induction false} Transfer(d: seq<byte>)
    requires |d| <= 6000
    ensures
      var events := [ClientSend(d), ClientEof];
      var f := Run(events);
      var g := Run(events + Drain(f));
      f.sent == d && f.eof && !f.broke && g.program == d && g.closed
  {
    var one := [ClientSend(d)];
    var events := [ClientSend(d), ClientEof];
    assert one[..0] == [] && events[..1] == one;
    assert Run([]) == START && Run(one) == Send(START, d);
    assert [] + d == d;
    assert Run(events) == Step(Run(one), ClientEof);
    AllArrives(events);
  }
}
