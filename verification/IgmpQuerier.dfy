/** Querier election between routers on one network, section 7 of RFC 2236, as igmp_proxy.c runs it. */
module IgmpQuerier {

  const QUERY_INTERVAL: int := 125
  const OTHER_QUERIER_PRESENT: int := 300

  /** bIsQuerier, general_query_timer and querier_present_timer of an interface. */
  datatype Port = Port(querier: bool, general: int, present: int)

  /** A query from address src arrives at a router with address own. */
  function Hear(p: Port, own: nat, src: nat): Port {
    if src < own then Port(false, 0, OTHER_QUERIER_PRESENT) else p.(present := 0)
  }

  /** The querier part of the timer tick. */
  function Age(p: Port): Port {
    if p.querier then
      p.(general := if p.general <= 0 then QUERY_INTERVAL else p.general - 1)
    else if p.present <= 0 then p.(querier := true)
    else p.(present := p.present - 1)
  }

  /** Whether that tick sends a general query. */
  predicate Sends(p: Port) {
    p.querier && p.general <= 0
  }

  class Interface {
    const address: nat
    var isQuerier: bool
    var generalQueryTimer: int
    var querierPresentTimer: int

    ghost function State(): Port
      reads this
    {
      Port(isQuerier, generalQueryTimer, querierPresentTimer)
    }

    /** An interface starts as querier with an expired query timer. */
    constructor (address: nat)
      ensures this.address == address && State() == Port(true, 0, 0)
    {
      this.address := address;
      isQuerier, generalQueryTimer, querierPresentTimer := true, 0, 0;
    }

    /** igmp_router_received_general_query */
    method ReceivedQuery(src: nat)
      modifies this
      ensures State() == Hear(old(State()), address, src)
    {
      if src < address {
        isQuerier := false;
        querierPresentTimer := OTHER_QUERIER_PRESENT;
        generalQueryTimer := 0;
      } else {
        querierPresentTimer := 0;
      }
    }

    /** The interface part of igmp_router_timer_expired; the result says whether a general query goes out. */
    method TimerExpired() returns (query: bool)
      modifies this
      ensures State() == Age(old(State())) && query == Sends(old(State()))
    {
      query := false;
      if isQuerier {
        if generalQueryTimer <= 0 {
          query := true;
          generalQueryTimer := QUERY_INTERVAL;
        } else {
          generalQueryTimer := generalQueryTimer - 1;
        }
      } else if querierPresentTimer <= 0 {
        isQuerier := true;
      } else {
        querierPresentTimer := querierPresentTimer - 1;
      }
    }
  }

  // ---- the network ----

  /** Routers with their addresses; ticked are those whose tick of the current second has happened, seconds counts the
      complete ones. */
  datatype Net = Net(address: seq<nat>, ports: seq<Port>, ticked: set<nat>, seconds: nat)
  {
    ghost predicate Valid() {
      && |ports| == |address|
      && (forall i, j :: 0 <= i < j < |address| ==> address[i] != address[j])
      && (forall r :: r in ticked ==> r < |address|)
    }
  }

  /** Router r ticks, router r as querier sends a group-specific query, or the second is over. */
  datatype Event = Tick(r: nat) | Query(r: nat) | NextSecond

  /** In each second every router ticks exactly once, in any order, with any queries in between. */
  ghost predicate Enabled(n: Net, e: Event) {
    && n.Valid()
    && match e
       case Tick(r) => r < |n.ports| && r !in n.ticked
       case Query(r) => r < |n.ports|
       case NextSecond => forall r :: 0 <= r < |n.ports| ==> r in n.ticked
  }

  /** A query from r reaches all other routers. */
  function Broadcast(n: Net, r: nat): (m: Net)
    requires |n.ports| == |n.address| && r < |n.ports|
    ensures m.address == n.address && |m.ports| == |n.ports| && m.ticked == n.ticked && m.seconds == n.seconds
    ensures forall i :: 0 <= i < |n.ports| ==>
      m.ports[i] == if i == r then n.ports[i] else Hear(n.ports[i], n.address[i], n.address[r])
  {
    n.(ports := seq(|n.ports|, i requires 0 <= i < |n.ports| =>
         if i == r then n.ports[i] else Hear(n.ports[i], n.address[i], n.address[r])))
  }

  ghost function Step(n: Net, e: Event): Net
    requires Enabled(n, e)
  {
    match e
    case Tick(r) =>
      var m := n.(ports := n.ports[r := Age(n.ports[r])], ticked := n.ticked + {r});
      if Sends(n.ports[r]) then Broadcast(m, r) else m
    case Query(r) => if n.ports[r].querier then Broadcast(n, r) else n
    case NextSecond => n.(ticked := {}, seconds := n.seconds + 1)
  }

  /** l has the lowest address. */
  ghost predicate Lowest(n: Net, l: nat) {
    n.Valid() && l < |n.address| && forall i :: 0 <= i < |n.address| && i != l ==> n.address[l] < n.address[i]
  }

  function Bit(n: Net, r: nat): int { if r in n.ticked then 1 else 0 }

  /** Only l is querier, and every other router will hear from it before its own timer runs out. */
  ghost predicate Settled(n: Net, l: nat) {
    && Lowest(n, l) && n.ports[l].querier && 0 <= n.ports[l].general <= QUERY_INTERVAL
    && forall i :: 0 <= i < |n.ports| && i != l ==>
         !n.ports[i].querier && n.ports[i].present + Bit(n, i) > n.ports[l].general + Bit(n, l)
  }

  /** The lowest router never gives up the querier's duty. */
  lemma {:induction false} LowestStays(n: Net, l: nat, e: Event)
    requires Lowest(n, l) && Enabled(n, e) && n.ports[l].querier
    ensures Lowest(Step(n, e), l) && Step(n, e).ports[l].querier
  {
  }

  /** A sole querier with its timers in relation stays sole querier. */
  lemma {:induction false} SettledStays(n: Net, l: nat, e: Event)
    requires Settled(n, l) && Enabled(n, e)
    ensures Settled(Step(n, e), l)
  {
    var m := Step(n, e);
    match e
    case Tick(r) =>
      if r != l {
        assert n.ports[r].present > 0;
      }
    case Query(r) =>
    case NextSecond =>
  }

  // ---- convergence ----

  /** How many more ticks of its own the router needs until it sends a general query. */
  function Wait(p: Port): int {
    if p.querier then p.general + 1 else p.present + 1 + p.general + 1
  }

  function TicksOf(n: Net, r: nat): int { n.seconds + Bit(n, r) }

  /** Either the election is over, or the lowest router has come closer to its first query with every tick. */
  ghost predicate Converging(n: Net, l: nat, bound: int) {
    && Lowest(n, l) && n.ports[l].general >= 0 && n.ports[l].present >= 0
    && (Settled(n, l) || TicksOf(n, l) + Wait(n.ports[l]) <= bound)
  }

  lemma {:induction false} LowestKept(n: Net, l: nat, e: Event)
    requires Lowest(n, l) && Enabled(n, e)
    ensures Lowest(Step(n, e), l)
  {
  }

  lemma {:induction false} FirstQuery(n: Net, l: nat)
    requires Lowest(n, l) && l !in n.ticked && Sends(n.ports[l])
    ensures Settled(Step(n, Tick(l)), l)
  {
  }

  lemma {:induction false} ConvergingStays(n: Net, l: nat, e: Event, bound: int)
    requires Converging(n, l, bound) && Enabled(n, e)
    ensures Converging(Step(n, e), l, bound)
  {
    LowestKept(n, l, e);
    if Settled(n, l) {
      SettledStays(n, l, e);
      PresentKept(n, l, e);
    } else {
      hide Settled;
      match e
      case Tick(r) =>
        if r == l && Sends(n.ports[l]) {
          FirstQuery(n, l);
        }
      case Query(r) =>
      case NextSecond =>
    }
  }

  lemma {:induction false} PresentKept(n: Net, l: nat, e: Event)
    requires Lowest(n, l) && Enabled(n, e) && n.ports[l].present >= 0 && n.ports[l].general >= 0
    ensures Step(n, e).ports[l].present >= 0 && Step(n, e).ports[l].general >= 0
  {
  }

  // ---- runs ----

  ghost predicate AllEnabled(n: Net, es: seq<Event>)
    decreases |es|
  {
    es == [] || (Enabled(n, es[0]) && AllEnabled(Step(n, es[0]), es[1..]))
  }

  ghost function Run(n: Net, es: seq<Event>): Net
    requires AllEnabled(n, es)
    decreases |es|
  {
    if es == [] then n else Run(Step(n, es[0]), es[1..])
  }

  lemma {:induction false} RunConverges(n: Net, l: nat, es: seq<Event>, bound: int)
    requires AllEnabled(n, es) && Converging(n, l, bound)
    ensures Converging(Run(n, es), l, bound)
    decreases |es|
  {
    if es != [] {
      hide Converging, Step, Enabled;
      ConvergingStays(n, l, es[0], bound);
      RunConverges(Step(n, es[0]), l, es[1..], bound);
    }
  }

  /** From whatever state the timers are in, after 427 seconds the router with the lowest address is the only querier,
      whatever order the ticks have within a second and whatever group-specific queries the queriers send. */
  lemma {:induction false} ElectionConverges(n: Net, l: nat, es: seq<Event>)
    requires AllEnabled(n, es) && Lowest(n, l) && n.seconds == 0 && n.ticked == {}
    requires 0 <= n.ports[l].general <= QUERY_INTERVAL && 0 <= n.ports[l].present <= OTHER_QUERIER_PRESENT
    ensures Run(n, es).seconds >= 427 ==> Settled(Run(n, es), l)
  {
    hide Run, AllEnabled, Settled, Lowest;
    RunConverges(n, l, es, 427);
  }

  /** Once settled, the election stays settled over every run: the present timer of 300 outlasts the query period of
      126 ticks. */
  lemma {:induction false} SettledForever(n: Net, l: nat, es: seq<Event>)
    requires AllEnabled(n, es) && Settled(n, l)
    ensures Settled(Run(n, es), l)
    decreases |es|
  {
    if es != [] {
      hide Settled, Step, Enabled;
      SettledStays(n, l, es[0]);
      SettledForever(Step(n, es[0]), l, es[1..]);
    }
  }

  /** Over every run the lowest router never gives up the querier's duty once it has it. */
  lemma {:induction false} LowestForever(n: Net, l: nat, es: seq<Event>)
    requires AllEnabled(n, es) && Lowest(n, l) && n.ports[l].querier
    ensures Lowest(Run(n, es), l) && Run(n, es).ports[l].querier
    decreases |es|
  {
    if es != [] {
      hide Lowest, Step, Enabled;
      LowestStays(n, l, es[0]);
      LowestForever(Step(n, es[0]), l, es[1..]);
    }
  }

  // ---- one interface by itself ----

  /** The interface after n ticks in which it hears nothing, and the general queries it has sent. */
  function Ages(p: Port, n: nat): (Port, nat) {
    if n == 0 then (p, 0)
    else
      var r := Ages(p, n - 1);
      (Age(r.0), r.1 + if Sends(r.0) then 1 else 0)
  }

  /** A querier sends when its timer has run down and every 126 ticks from then on. */
  lemma {:induction false} SendsEvery(p: Port, n: nat)
    requires p.querier && 0 <= p.general
    ensures var r := Ages(p, n);
      && r.0.querier && r.0.present == p.present
      && (n <= p.general ==> r.0.general == p.general - n && r.1 == 0)
      && (n > p.general ==> r.0.general == 125 - (n - p.general - 1) % 126 && r.1 == 1 + (n - p.general - 1) / 126)
  {
    if n > 0 {
      SendsEvery(p, n - 1);
    }
  }

  /** A router that has heard of a lower one takes the duty back on the tick after its timer has run out. */
  lemma {:induction false} TakesOver(p: Port, n: nat)
    requires !p.querier && 0 <= p.present
    ensures n <= p.present ==> Ages(p, n) == (Port(false, p.general, p.present - n), 0)
    ensures n == p.present + 1 ==> Ages(p, n) == (Port(true, p.general, 0), 0)
  {
    if n > 0 && n <= p.present + 1 {
      TakesOver(p, n - 1);
    }
  }

  /** A query of a lower address takes the duty for 300 ticks, any other query clears the timer. */
  lemma {:induction false} Hears(p: Port, own: nat, src: nat, n: nat)
    ensures src < own && n <= 300 ==> Ages(Hear(p, own, src), n) == (Port(false, 0, 300 - n), 0)
    ensures src < own && n == 301 ==> Ages(Hear(p, own, src), n) == (Port(true, 0, 0), 0)
    ensures src >= own ==> Hear(p, own, src) == Port(p.querier, p.general, 0)
  {
    if src < own {
      TakesOver(Hear(p, own, src), n);
    }
  }

  // ---- one event on the network ----

  function SecondsIn(es: seq<Event>): nat {
    if es == [] then 0 else (if es[0] == NextSecond then 1 else 0) + SecondsIn(es[1..])
  }

  lemma {:induction false} SecondsCount(n: Net, es: seq<Event>)
    requires AllEnabled(n, es)
    ensures Run(n, es).seconds == n.seconds + SecondsIn(es)
    decreases |es|
  {
    if es != [] {
      hide Enabled;
      SecondsCount(Step(n, es[0]), es[1..]);
    }
  }

  /** A router sends its group-specific query as querier, and its general query on the tick on which it is due. All
      others hear it: those with a higher address give up the duty for 300 ticks, those with a lower one forget other
      queriers. */
  lemma {:induction false} Reaches(n: Net, e: Event, r: nat, i: nat)
    requires Enabled(n, e) && (e == Tick(r) || e == Query(r)) && i < |n.ports|
    ensures AllEnabled(n, [e])
    ensures
      var m := Run(n, [e]);
      var sends := n.ports[r].querier && (e == Query(r) || n.ports[r].general <= 0);
      && |m.ports| == |n.ports|
      && (i != r && !sends ==> m.ports[i] == n.ports[i])
      && (i != r && sends && n.address[r] < n.address[i] ==> m.ports[i] == Port(false, 0, 300))
      && (i != r && sends && n.address[r] > n.address[i] ==>
            m.ports[i] == Port(n.ports[i].querier, n.ports[i].general, 0))
      && (i == r ==> m.ports[i] == if e == Tick(r) then Ages(n.ports[r], 1).0 else n.ports[r])
  {
    var es := [e];
    assert es[1..] == [];
  }
}
