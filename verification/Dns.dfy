/** dproxy.c: queries that wait for an upstream answer, and what becomes of them. */
module Dns {
  import opened DnsList

  const DNS_TIMEOUT: nat := 240
  const DNS_SERVER_TIMEOUT: nat := 2
  const MAX_NAME_SERVER: nat := 5

  const NO_ERROR: nat := 0
  const FMT_ERROR: nat := 1
  const NAME_ERR: nat := 3

  datatype Reply = Reply(serial: nat, client: nat)

  /** What the cache knows: nothing, the answer, or the query type is not handled. */
  datatype Lookup = Miss | Hit | UnknownType

  datatype Packet = Packet(id: nat, client: nat, response: bool, rcode: nat, authoritative: bool, lookup: Lookup,
                           connected: bool)

  /** A packet arrives, or a second passes without one; servers are the configured name server slots. */
  datatype Event = Arrives(p: Packet) | Second(servers: set<nat>)

  ghost predicate DistinctIds(list: seq<Request>) {
    forall i, j :: 0 <= i < j < |list| ==> list[i].id != list[j].id && list[i].serial != list[j].serial
  }

  function CountOf(replies: seq<Reply>, serial: nat): nat {
    if replies == [] then 0
    else CountOf(replies[..|replies| - 1], serial) + if replies[|replies| - 1].serial == serial then 1 else 0
  }

  ghost predicate Listed(list: seq<Request>, serial: nat) {
    exists i :: 0 <= i < |list| && list[i].serial == serial
  }

  /** Everything listed once has got exactly one reply, except what is still listed, which has none; clients records
      whose queries they were, and every reply went to that client. */
  ghost predicate Accounts(list: seq<Request>, replies: seq<Reply>, clients: seq<nat>) {
    && (forall i :: 0 <= i < |list| ==> list[i].serial < |clients| && list[i].client == clients[list[i].serial])
    && (forall j :: 0 <= j < |replies| ==>
          replies[j].serial < |clients| && replies[j].client == clients[replies[j].serial])
    && (forall n :: 0 <= n < |clients| ==> CountOf(replies, n) == if Listed(list, n) then 0 else 1)
  }

  ghost predicate Sound(list: seq<Request>, replies: seq<Reply>, clients: seq<nat>) {
    DistinctIds(list) && Accounts(list, replies, clients)
  }

  /** No request grows older than the sweep over the name servers takes. */
  ghost predicate Young(list: seq<Request>) {
    forall i :: 0 <= i < |list| ==> list[i].pending < DNS_SERVER_TIMEOUT * MAX_NAME_SERVER
  }

  // ---- the list operations and the accounts ----

  lemma CountMore(replies: seq<Reply>, r: Reply, serial: nat)
    ensures CountOf(replies + [r], serial) == CountOf(replies, serial) + if r.serial == serial then 1 else 0
  {
    assert (replies + [r])[..|replies|] == replies;
  }

  lemma {:induction false} NoReplyYet(replies: seq<Reply>, serial: nat)
    requires forall j :: 0 <= j < |replies| ==> replies[j].serial != serial
    ensures CountOf(replies, serial) == 0
    decreases |replies|
  {
    if replies != [] {
      NoReplyYet(replies[..|replies| - 1], serial);
    }
  }

  /** dns_list_add */
  lemma {:induction false} AddKeeps(list: seq<Request>, replies: seq<Reply>, clients: seq<nat>, id: nat, client: nat)
    requires Sound(list, replies, clients) && forall i :: 0 <= i < |list| ==> list[i].id != id
    ensures Sound([Request(|clients|, id, client, 0)] + list, replies, clients + [client])
  {
    var list', clients' := [Request(|clients|, id, client, 0)] + list, clients + [client];
    assert forall i :: 0 < i < |list'| ==> list'[i] == list[i - 1];
    NoReplyYet(replies, |clients|);
    forall n | 0 <= n < |clients'| ensures CountOf(replies, n) == if Listed(list', n) then 0 else 1 {
      if n == |clients| {
        assert list'[0].serial == n;
      } else if Listed(list, n) {
        var i :| 0 <= i < |list| && list[i].serial == n;
        assert list'[i + 1].serial == n;
      }
    }
  }

  lemma {:induction false} WithoutDistinct(list: seq<Request>, k: nat, n: nat)
    requires DistinctIds(list) && k < |list|
    ensures DistinctIds(Without(list, k))
    ensures Listed(Without(list, k), n) <==> Listed(list, n) && n != list[k].serial
  {
    var list' := Without(list, k);
    if Listed(list, n) && n != list[k].serial {
      var i :| 0 <= i < |list| && list[i].serial == n;
      assert list'[if i < k then i else i - 1].serial == n;
    }
    if Listed(list', n) {
      var i :| 0 <= i < |list'| && list'[i].serial == n;
      assert list[if i < k then i else i + 1].serial == n;
    }
  }

  /** dns_list_remove together with the reply that goes with it. */
  lemma {:induction false} RemoveKeeps(list: seq<Request>, replies: seq<Reply>, clients: seq<nat>, k: nat)
    requires Sound(list, replies, clients) && k < |list|
    ensures Sound(Without(list, k), replies + [Reply(list[k].serial, list[k].client)], clients)
  {
    hide CountOf;
    var r := Reply(list[k].serial, list[k].client);
    WithoutDistinct(list, k, 0);
    assert Listed(list, r.serial);
    forall n | 0 <= n < |clients| ensures CountOf(replies + [r], n) == if Listed(Without(list, k), n) then 0 else 1 {
      CountMore(replies, r, n);
      WithoutDistinct(list, k, n);
    }
    hide Listed, DistinctIds;
  }

  lemma {:induction false} AgeKeeps(list: seq<Request>, replies: seq<Reply>, clients: seq<nat>, k: nat, pending: nat)
    requires Sound(list, replies, clients) && k < |list|
    ensures Sound(list[k := list[k].(pending := pending)], replies, clients)
  {
    var list' := list[k := list[k].(pending := pending)];
    assert forall i :: 0 <= i < |list| ==>
      list'[i].serial == list[i].serial && list'[i].id == list[i].id && list'[i].client == list[i].client;
    forall n | 0 <= n < |clients| ensures Listed(list', n) <==> Listed(list, n) {
      if Listed(list, n) {
        var i :| 0 <= i < |list| && list[i].serial == n;
        assert list'[i].serial == n;
      }
    }
  }

  // ---- the proxy ----

  // ---- what becomes of a packet or a second ----

  /** Responses that are passed on to the client. */
  predicate Forwarded(p: Packet) {
    p.response && (p.rcode == NO_ERROR || p.rcode == FMT_ERROR || (p.rcode == NAME_ERR && p.authoritative))
  }

  /** The pending requests, the replies to listed queries, the clients of all queries that were ever listed, the replies
      to queries that were not, and the queries sent to name server slots. */
  datatype State = State(list: seq<Request>, replies: seq<Reply>, clients: seq<nat>, direct: seq<nat>,
                         asked: seq<(nat, nat)>)

  /** Where the first request with the id stands; the length of the list when there is none. */
  function Place(list: seq<Request>, id: nat): (k: nat)
    ensures k <= |list| && (k < |list| ==> list[k].id == id) && forall i :: 0 <= i < k ==> list[i].id != id
  {
    if list == [] || list[0].id == id then 0 else 1 + Place(list[1..], id)
  }

  /** A packet with an id that is not pending is a new query. */
  function Queried(s: State, p: Packet): State {
    if p.lookup == Miss && p.connected then
      s.(list := [Request(|s.clients|, p.id, p.client, 0)] + s.list, clients := s.clients + [p.client],
         asked := s.asked + [(0, p.id)])
    else s.(direct := s.direct + if p.lookup == UnknownType then [] else [p.client])
  }

  function Arrived(s: State, p: Packet): State {
    var k := Place(s.list, p.id);
    if k == |s.list| then Queried(s, p)
    else if Forwarded(p) then
      s.(list := Without(s.list, k), replies := s.replies + [Reply(s.list[k].serial, s.list[k].client)])
    else s
  }

  function After(s: State, e: Event): State {
    match e
    case Arrives(p) => Arrived(s, p)
    case Second(servers) =>
      s.(list := Kept(s.list, servers), replies := s.replies + Errors(s.list, servers),
         asked := s.asked + Asked(s.list, servers))
  }

  function Run(events: seq<Event>): State {
    if events == [] then State([], [], [], [], []) else After(Run(events[..|events| - 1]), events[|events| - 1])
  }

  lemma RunMore(events: seq<Event>, i: nat)
    requires i < |events|
    ensures Run(events[..i + 1]) == After(Run(events[..i]), events[i])
  {
    hide After;
    assert events[..i + 1][..i] == events[..i];
  }

  lemma PlaceIs(list: seq<Request>, id: nat, k: nat)
    requires k < |list| && list[k].id == id && forall i :: 0 <= i < k ==> list[i].id != id
    ensures Place(list, id) == k
  {
  }

  class Proxy {
    /** dns_request_list */
    var head: Node?
    var replies: seq<Reply>
    var clients: seq<nat>
    /** Replies to queries that were never listed. */
    var direct: seq<nat>
    /** Queries sent to name server slots. */
    var asked: seq<(nat, nat)>
    ghost var nodes: seq<Node>
    ghost var repr: set<Node>
    ghost var list: seq<Request>

    ghost predicate Holds()
      reads this, repr
    {
      (forall i :: 0 <= i < |nodes| ==> nodes[i] in repr) && Linked(head, nodes) && Requests(nodes) == list
    }

    ghost predicate Valid()
      reads this, repr
    {
      Holds() && Sound(list, replies, clients) && Young(list)
    }

    ghost function Contents(): State
      reads this
    {
      State(list, replies, clients, direct, asked)
    }

    constructor ()
      ensures Valid() && Contents() == State([], [], [], [], []) && repr == {}
    {
      head, nodes, repr, list, replies, clients, direct, asked := null, [], {}, [], [], [], [], [];
    }

    /** The request at node m, the k-th of the list, gets a reply to its client and leaves the list. */
    method Answer(m: Node, ghost k: nat)
      requires Holds() && Sound(list, replies, clients) && k < |list| && m == nodes[k]
      modifies this`head, this`nodes, this`list, this`replies, repr
      ensures Holds() && Sound(list, replies, clients) && nodes == Without(old(nodes), k) && m.next == old(m.next)
      ensures list == Without(old(list), k)
      ensures replies == old(replies) + [Reply(old(list)[k].serial, old(list)[k].client)]
    {
      hide Sound, Without, Linked;
      RemoveKeeps(list, replies, clients, k);
      replies := replies + [Reply(m.request.serial, m.request.client)];
      head := Remove(head, m, nodes, k);
      nodes, list := Without(nodes, k), Without(list, k);
    }

    /** dns_handle_new_query */
    method NewQuery(p: Packet)
      requires Valid() && forall i :: 0 <= i < |list| ==> list[i].id != p.id
      modifies this
      ensures Valid() && replies == old(replies) && fresh(repr - old(repr))
      ensures p.lookup == Miss && p.connected ==>
        && list == [Request(|old(clients)|, p.id, p.client, 0)] + old(list) && clients == old(clients) + [p.client]
        && direct == old(direct) && asked == old(asked) + [(0, p.id)]
      ensures !(p.lookup == Miss && p.connected) ==>
        && list == old(list) && clients == old(clients) && asked == old(asked)
        && direct == old(direct) + if p.lookup == UnknownType then [] else [p.client]
    {
      hide Sound, Linked;
      match p.lookup
      case Miss =>
        if p.connected {
          AddKeeps(list, replies, clients, p.id, p.client);
          var request := Request(|clients|, p.id, p.client, 0);
          var node := Add(head, request, nodes);
          head, nodes, repr, list := node, [node] + nodes, repr + {node}, [request] + list;
          clients := clients + [p.client];
          asked := asked + [(0, p.id)];
        } else {
          direct := direct + [p.client];
        }
      case Hit =>
        direct := direct + [p.client];
      case UnknownType =>
    }

    /** dns_handle_request: a packet with the id of a listed query is a response or a repetition, any other a new
        query. */
    method HandleRequest(p: Packet)
      requires Valid()
      modifies this, repr
      ensures Valid() && fresh(repr - old(repr)) && Contents() == Arrived(old(Contents()), p)
      ensures
        var answer := p.response && (p.rcode == 0 || p.rcode == 1 || (p.rcode == 3 && p.authoritative));
        && ((exists k :: 0 <= k < |old(list)| && old(list)[k].id == p.id) && !answer ==> unchanged(this))
        && forall k :: 0 <= k < |old(list)| && old(list)[k].id == p.id && answer ==>
        && replies == old(replies) + [Reply(old(list)[k].serial, old(list)[k].client)] && list == Without(old(list), k)
        && clients == old(clients) && direct == old(direct) && asked == old(asked)
      ensures (forall k :: 0 <= k < |old(list)| ==> old(list)[k].id != p.id) ==>
        && replies == old(replies)
        && (p.lookup == Miss && p.connected ==>
              && list == [Request(|old(clients)|, p.id, p.client, 0)] + old(list)
              && clients == old(clients) + [p.client]
              && direct == old(direct) && asked == old(asked) + [(0, p.id)])
        && (!(p.lookup == Miss && p.connected) ==>
              && list == old(list) && clients == old(clients) && asked == old(asked)
              && direct == old(direct) + if p.lookup == UnknownType then [] else [p.client])
    {
      hide Linked, Accounts;
      var m, k := FindById(head, p.id, nodes);
      if m != null {
        OnlyOne(list, k);
        assert list[k].id == p.id;
        assert forall i :: 0 <= i < k ==> list[i] == nodes[i].request;
        PlaceIs(list, p.id, k);
        if Forwarded(p) {
          Answer(m, k);
        }
      } else {
        assert forall i :: 0 <= i < |list| ==> list[i] == nodes[i].request;
        NewQuery(p);
      }
    }

    /** One turn of the sweep: the request at node m is a second older, and is asked about again or answered with an
        error. */
    method SweepOne(m: Node, servers: set<nat>, ghost k: nat) returns (ghost gone: bool)
      requires Valid() && k < |list| && m == nodes[k]
      modifies this, repr
      ensures Valid() && repr == old(repr) && clients == old(clients) && direct == old(direct) && m.next == old(m.next)
      ensures gone == Expires(old(list)[k], servers)
      ensures gone ==> nodes == Without(old(nodes), k)
      ensures gone ==>
        && list == Without(old(list), k) && asked == old(asked)
        && replies == old(replies) + [Reply(old(list)[k].serial, old(list)[k].client)]
      ensures !gone ==>
        && nodes == old(nodes) && list == old(list)[k := Older(old(list)[k])] && replies == old(replies)
        && asked == old(asked) + Asks(old(list)[k])
    {
      hide Sound, Without;
      var pending := m.request.pending + 1;
      AgeKeeps(list, replies, clients, k, pending);
      m.request := m.request.(pending := pending);
      list := list[k := list[k].(pending := pending)];
      WithoutAged(list, old(list), k);
      assert Requests(nodes) == list;
      assert pending <= DNS_TIMEOUT;
      var next := pending / DNS_SERVER_TIMEOUT;
      gone := false;
      if pending % DNS_SERVER_TIMEOUT == 0 {
        if next >= MAX_NAME_SERVER || next !in servers {
          gone := true;
          Answer(m, k);
        } else {
          asked := asked + [(next, m.request.id)];
        }
      }
    }

    /** The sweep of dns_main_loop after a second without a packet: a request that its name servers have not answered
        goes to the next one every two seconds, and its client gets an error when there is none left. */
    method Sweep(servers: set<nat>)
      requires Valid()
      modifies this, repr
      ensures Valid() && repr == old(repr) && Contents() == After(old(Contents()), Second(servers))
    {
      hide Sound, Kept, Errors, Asked, Without, Expires, Young, Older, Asks;
      ghost var all := list;
      var m := head;
      ghost var k, n := 0, 0;
      KeptNone(servers);
      assert all[..0] == [] && all[0..] == all;
      assert replies + [] == replies && asked + [] == asked;
      while m != null
        invariant Valid() && clients == old(clients) && direct == old(direct) && repr == old(repr)
        invariant 0 <= n <= |all| && 0 <= k <= |list| && list[k..] == all[n..] && list[..k] == Kept(all[..n], servers)
        invariant m == if k < |list| then nodes[k] else null
        invariant replies == old(replies) + Errors(all[..n], servers)
        invariant asked == old(asked) + Asked(all[..n], servers)
        decreases |all| - n
      {
        SameRest(list, k, all, n);
        KeptStep(all, n, servers);
        ghost var before := list;
        var next := m.next;
        ghost var gone := SweepOne(m, servers, k);
        if gone {
          WithoutParts(before, k);
        } else {
          OneOlder(before, k);
          k := k + 1;
        }
        m := next;
        n := n + 1;
      }
      assert all[..n] == all && list[..k] == list;
    }
  }

  lemma SameRest(list: seq<Request>, k: nat, all: seq<Request>, n: nat)
    requires k < |list| && n <= |all| && list[k..] == all[n..]
    ensures n < |all| && list[k] == all[n] && list[k + 1..] == all[n + 1..]
  {
    assert list[k] == list[k..][0] && all[n] == all[n..][0];
    assert list[k + 1..] == list[k..][1..] && all[n + 1..] == all[n..][1..];
  }

  lemma OneOlder(list: seq<Request>, k: nat)
    requires k < |list|
    ensures var list' := list[k := Older(list[k])];
      list'[k + 1..] == list[k + 1..] && list'[..k + 1] == list[..k] + [Older(list[k])]
  {
    hide Older;
  }

  lemma OnlyOne(list: seq<Request>, k: nat)
    requires DistinctIds(list) && k < |list|
    ensures forall j :: 0 <= j < |list| && list[j].id == list[k].id ==> j == k
  {
  }

  lemma WithoutAged(list: seq<Request>, old': seq<Request>, k: nat)
    requires k < |list| == |old'| && list == old'[k := list[k]]
    ensures Without(list, k) == Without(old', k)
  {
  }

  function Older(r: Request): Request {
    r.(pending := r.pending + 1)
  }

  /** The query that goes to the next name server when a request has waited long enough for the last one. */
  function Asks(r: Request): seq<(nat, nat)> {
    if (r.pending + 1) % DNS_SERVER_TIMEOUT == 0 then [((r.pending + 1) / DNS_SERVER_TIMEOUT, r.id)] else []
  }

  /** A request that has waited for the last of its name servers. */
  predicate Expires(r: Request, servers: set<nat>) {
    var pending := r.pending + 1;
    && pending % DNS_SERVER_TIMEOUT == 0
    && (pending / DNS_SERVER_TIMEOUT >= MAX_NAME_SERVER || pending / DNS_SERVER_TIMEOUT !in servers)
  }

  function Kept(list: seq<Request>, servers: set<nat>): seq<Request> {
    if list == [] then []
    else
      var r := list[|list| - 1];
      Kept(list[..|list| - 1], servers) + if Expires(r, servers) then [] else [Older(r)]
  }

  function Errors(list: seq<Request>, servers: set<nat>): seq<Reply> {
    if list == [] then []
    else
      var r := list[|list| - 1];
      Errors(list[..|list| - 1], servers) + if Expires(r, servers) then [Reply(r.serial, r.client)] else []
  }

  /** The queries that the sweep sends on. */
  function Asked(list: seq<Request>, servers: set<nat>): seq<(nat, nat)> {
    if list == [] then []
    else
      var r := list[|list| - 1];
      Asked(list[..|list| - 1], servers) + if Expires(r, servers) then [] else Asks(r)
  }

  lemma KeptNone(servers: set<nat>)
    ensures Kept([], servers) == [] && Errors([], servers) == [] && Asked([], servers) == []
  {
  }

  lemma KeptStep(list: seq<Request>, n: nat, servers: set<nat>)
    requires n < |list|
    ensures Kept(list[..n + 1], servers) ==
      Kept(list[..n], servers) + if Expires(list[n], servers) then [] else [Older(list[n])]
    ensures Errors(list[..n + 1], servers) ==
      Errors(list[..n], servers) + if Expires(list[n], servers) then [Reply(list[n].serial, list[n].client)] else []
    ensures Asked(list[..n + 1], servers) ==
      Asked(list[..n], servers) + if Expires(list[n], servers) then [] else Asks(list[n])
  {
    hide Expires, Asks;
    assert list[..n + 1][..n] == list[..n];
  }

  lemma WithoutParts<T>(list: seq<T>, k: nat)
    requires k < |list|
    ensures Without(list, k)[..k] == list[..k] && Without(list, k)[k..] == list[k + 1..]
  {
  }

  /** Over every sequence of packets and quiet seconds, with whatever name servers are configured at the time: ids
      stay unique, no request is ever ten seconds old, and every request that leaves the list has got exactly one
      reply, at its own client. */
  method RunDproxy(events: seq<Event>) returns (s: State)
    ensures s == Run(events)
    ensures DistinctIds(s.list) && Young(s.list) && Accounts(s.list, s.replies, s.clients)
  {
    hide Run;
    var p := new Proxy();
    assert Run([]) == State([], [], [], [], []) by { RunNone(); }
    for i := 0 to |events|
      invariant p.Valid() && fresh(p) && fresh(p.repr) && p.Contents() == Run(events[..i])
    {
      hide Sound, Young, Arrived;
      RunMore(events, i);
      match events[i]
      case Arrives(packet) => p.HandleRequest(packet);
      case Second(servers) => p.Sweep(servers);
    }
    assert events[..|events|] == events;
    var list := Walk(p.head, p.nodes);
    s := State(list, p.replies, p.clients, p.direct, p.asked);
  }

  lemma RunNone()
    ensures Run([]) == State([], [], [], [], [])
  {
  }

  // ---- the life of one query ----

  /** The first further name server slot that is not configured; there are five slots. */
  function Missing(servers: set<nat>): nat {
    if 1 !in servers then 1
    else if 2 !in servers then 2
    else if 3 !in servers then 3
    else if 4 !in servers then 4
    else 5
  }

  function Seconds(servers: set<nat>, n: nat): seq<Event> {
    seq(n, _ => Second(servers))
  }

  /** The query goes to slots 0 to k, in this order. */
  function Slots(id: nat, k: nat): seq<(nat, nat)> {
    seq(k + 1, j => (j, id))
  }

  /** A query that nobody answers goes to the next name server every two seconds and gets its error reply in the second
      in which there is none left. */
  lemma {:induction false} OneQuery(p: Packet, servers: set<nat>, n: nat)
    requires p.lookup == Miss && p.connected
    ensures
      var s := Run([Arrives(p)] + Seconds(servers, n));
      s == if n < 2 * Missing(servers)
           then State([Request(0, p.id, p.client, n)], [], [p.client], [], Slots(p.id, n / 2))
           else State([], [Reply(0, p.client)], [p.client], [], Slots(p.id, Missing(servers) - 1))
  {
    hide Run, Missing;
    MissingSlot(servers);
    var first := [Arrives(p)];
    if n == 0 {
      assert first + Seconds(servers, 0) == first && first[..0] == [] && first[..1] == first;
      RunMore(first, 0);
      RunNone();
      assert [(0, p.id)] == Slots(p.id, 0);
      assert [] + [(0, p.id)] == [(0, p.id)];
    } else {
      OneQuery(p, servers, n - 1);
      var all := first + Seconds(servers, n);
      assert all[..n] == first + Seconds(servers, n - 1) && all[..n + 1] == all && all[n] == Second(servers);
      RunMore(all, n);
      if n - 1 < 2 * Missing(servers) {
        OneSecond(Request(0, p.id, p.client, n - 1), servers, Slots(p.id, (n - 1) / 2));
      } else {
        KeptNone(servers);
        assert [Reply(0, p.client)] + [] == [Reply(0, p.client)];
        assert Slots(p.id, Missing(servers) - 1) + [] == Slots(p.id, Missing(servers) - 1);
      }
    }
  }

  lemma MissingSlot(servers: set<nat>)
    ensures 1 <= Missing(servers) <= 5 && (Missing(servers) < 5 ==> Missing(servers) !in servers)
    ensures forall k :: 1 <= k < Missing(servers) ==> k in servers
  {
  }

  lemma {:induction false} OneSecond(r: Request, servers: set<nat>, asked: seq<(nat, nat)>)
    requires r.serial == 0 && r.pending < 2 * Missing(servers) && asked == Slots(r.id, r.pending / 2)
    ensures
      var s := After(State([r], [], [r.client], [], asked), Second(servers));
      var next := r.pending + 1;
      s == if next < 2 * Missing(servers)
           then State([r.(pending := next)], [], [r.client], [], Slots(r.id, next / 2))
           else State([], [Reply(0, r.client)], [r.client], [], asked)
  {
    hide Missing;
    MissingSlot(servers);
    var list := [r];
    assert list[..0] == [] && list[..1] == list;
    KeptNone(servers);
    KeptStep(list, 0, servers);
    hide Kept, Errors, Asked;
    var next := (r.pending + 1) / 2;
    if (r.pending + 1) % 2 == 0 && r.pending + 1 < 2 * Missing(servers) {
      assert next in servers && next < 5;
      assert asked + [(next, r.id)] == Slots(r.id, next);
    } else {
      assert asked + [] == asked;
    }
  }
}
