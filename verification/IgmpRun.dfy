/** Whole runs of the IGMP proxy. */
module IgmpRun {
  import opened IgmpChains
  import opened IgmpPool
  import opened IgmpTimers
  import opened IgmpRouter

  datatype Event = ReportReceived(i: nat, a: nat, v1: bool) | LeaveReceived(i: nat, a: nat) | TimerTick
                 | InterfaceCleaned

  /** The router as an observer sees it. */
  datatype Final = Final(ifs: seq<nat>, db: seq<seq<nat>>, freeGroups: seq<nat>, freeQueries: seq<nat>, addr: seq<nat>,
                         grp: seq<Timers>, queries: seq<seq<nat>>, mfc: map<nat, seq<nat>>, joined: map<nat, set<nat>>)
  {
    predicate Listed(g: nat) {
      exists i :: 0 <= i < |db| && g in db[i]
    }

    /** Interface i has a group with address a in its database. */
    predicate Has(i: nat, a: nat) {
      i < |db| && exists k :: 0 <= k < |db[i]| && db[i][k] < |addr| && addr[db[i][k]] == a
    }
  }

  /** Every group node is on exactly one list, once. */
  ghost predicate GroupsPlaced(f: Final) {
    && NoRepeat(f.freeGroups) && (forall i :: 0 <= i < |f.db| ==> NoRepeat(f.db[i]))
    && (forall g: nat :: g in f.freeGroups <==> g < MAX_NUMBER_GROUPS && !f.Listed(g))
    && (forall i, g :: 0 <= i < |f.db| && g in f.db[i] ==>
          g < MAX_NUMBER_GROUPS && forall j :: 0 <= j < |f.db| && g in f.db[j] ==> j == i)
  }

  /** Every query node is on exactly one list, once: the free list or that of a group in a database. */
  ghost predicate QueriesPlaced(f: Final) {
    && |f.queries| == MAX_NUMBER_GROUPS && NoRepeat(f.freeQueries)
    && (forall g :: 0 <= g < MAX_NUMBER_GROUPS && f.Listed(g) ==> NoRepeat(f.queries[g]))
    && (forall q :: q in f.freeQueries ==>
          q < MAX_NUMBER_QUERIES && forall g :: 0 <= g < MAX_NUMBER_GROUPS && f.Listed(g) ==> q !in f.queries[g])
    && (forall q :: 0 <= q < MAX_NUMBER_QUERIES && q !in f.freeQueries ==>
          exists g :: 0 <= g < MAX_NUMBER_GROUPS && f.Listed(g) && q in f.queries[g])
    && (forall g, h, q ::
          (&& 0 <= g < MAX_NUMBER_GROUPS && 0 <= h < MAX_NUMBER_GROUPS && f.Listed(g) && f.Listed(h)
           && q in f.queries[g] && q in f.queries[h]) ==>
          g == h)
  }

  ghost predicate EachOnce(list: seq<nat>, addr: seq<nat>) {
    && (forall j :: 0 <= j < |list| ==> list[j] < |addr|)
    && (forall j, k :: 0 <= j < k < |list| ==> addr[list[j]] != addr[list[k]])
  }

  /** Databases hold each address once, only groups with members, and queries only for groups that are being checked. */
  ghost predicate GroupsSound(f: Final) {
    && |f.addr| == |f.grp| == |f.queries| == MAX_NUMBER_GROUPS
    && (forall i :: 0 <= i < |f.db| ==> EachOnce(f.db[i], f.addr))
    && (forall g :: 0 <= g < MAX_NUMBER_GROUPS && f.Listed(g) ==>
          f.grp[g].state != NoMembers && (f.queries[g] != [] ==> f.grp[g].state == Checking))
  }

  /** The kernel forwards each address to exactly the interfaces that have it, and upstream is joined for exactly
      those addresses. */
  ghost predicate Forwards(f: Final, vif: seq<nat>, up: set<nat>) {
    && (forall a {:trigger a in f.mfc} :: a in f.mfc <==> exists i :: i in f.ifs && i !in up && f.Has(i, a))
    && (forall a, i {:trigger f.mfc[a], vif[i]} :: a in f.mfc && 0 <= i < |vif| ==>
          |f.mfc[a]| == MAXVIFS && vif[i] < MAXVIFS && f.mfc[a][vif[i]] == if f.Has(i, a) then 1 else 255)
    && f.joined.Keys == up && (forall u :: u in up ==> f.joined[u] == f.mfc.Keys)
  }

  lemma ListedOn(place: seq<Place>, f: Final, g: nat)
    requires |place| == MAX_NUMBER_GROUPS && Lists(place, f.freeGroups, f.db)
    ensures f.Listed(g) <==> g < |place| && place[g].On?
    ensures forall i :: 0 <= i < |f.db| ==> (g in f.db[i] <==> g < |place| && place[g] == On(i))
    ensures g in f.freeGroups <==> g < |place| && place[g] == Free
  {
    forall i | 0 <= i < |f.db| ensures g in f.db[i] <==> g < |place| && place[g] == On(i) {
      assert Exactly(f.db[i], Placed(place, On(i)));
      assert g in Placed(place, On(i)) <==> g < |place| && place[g] == On(i);
    }
    assert g in Placed(place, Free) <==> g < |place| && place[g] == Free;
    if g < |place| && place[g].On? {
      assert g in f.db[place[g].i];
    }
  }

  lemma GroupsArePlaced(place: seq<Place>, f: Final)
    requires |place| == MAX_NUMBER_GROUPS && Lists(place, f.freeGroups, f.db)
    ensures GroupsPlaced(f)
  {
    forall g: nat ensures (g in f.freeGroups <==> g < MAX_NUMBER_GROUPS && !f.Listed(g))
      && forall i :: 0 <= i < |f.db| ==> (g in f.db[i] <==> g < |place| && place[g] == On(i))
    {
      ListedOn(place, f, g);
    }
    forall i | 0 <= i < |f.db| ensures NoRepeat(f.db[i]) {
      assert Exactly(f.db[i], Placed(place, On(i)));
    }
  }

  lemma QueriesArePlaced(place: seq<Place>, qplace: seq<Place>, f: Final)
    requires |place| == MAX_NUMBER_GROUPS && |qplace| == MAX_NUMBER_QUERIES
    requires Lists(place, f.freeGroups, f.db) && QueryLists(place, qplace, f.freeQueries, f.queries)
    ensures QueriesPlaced(f)
  {
    forall g: nat ensures f.Listed(g) <==> g < |place| && place[g].On? {
      ListedOn(place, f, g);
    }
    forall q: nat ensures q in f.freeQueries <==> q < |qplace| && qplace[q] == Free {
      assert q in Placed(qplace, Free) <==> q < |qplace| && qplace[q] == Free;
    }
    forall q: nat, g: nat | g < |place| && place[g].On?
      ensures q in f.queries[g] <==> q < |qplace| && qplace[q] == On(g)
    {
      assert q in Placed(qplace, On(g)) <==> q < |qplace| && qplace[q] == On(g);
    }
    forall q: nat | q < |qplace| && q !in f.freeQueries
      ensures exists g :: 0 <= g < MAX_NUMBER_GROUPS && f.Listed(g) && q in f.queries[g]
    {
      var g := qplace[q].i;
      assert q in Placed(qplace, On(g));
      assert place[g].On?;
      assert f.Listed(g) && q in f.queries[g];
    }
  }

  lemma GroupsAreSound(place: seq<Place>, f: Final)
    requires |place| == MAX_NUMBER_GROUPS && |f.addr| == MAX_NUMBER_GROUPS && Lists(place, f.freeGroups, f.db)
    requires States(place, f.grp, f.queries) && Once(place, f.addr)
    ensures GroupsSound(f)
  {
    forall g: nat ensures f.Listed(g) <==> g < |place| && place[g].On? {
      ListedOn(place, f, g);
    }
    forall i | 0 <= i < |f.db| ensures EachOnce(f.db[i], f.addr) {
      ListOf(place, f.freeGroups, f.db, i);
      var list := f.db[i];
      forall j, k | 0 <= j < k < |list| ensures f.addr[list[j]] != f.addr[list[k]] {
        assert list[j] != list[k];
      }
    }
  }

  lemma HasHolder(place: seq<Place>, f: Final, i: nat, a: nat)
    requires |place| == |f.addr| == MAX_NUMBER_GROUPS && Lists(place, f.freeGroups, f.db) && i < |f.db|
    ensures f.Has(i, a) <==> i in Holders(place, f.addr, a)
  {
    ListOf(place, f.freeGroups, f.db, i);
    if i in Holders(place, f.addr, a) {
      var g :| 0 <= g < |place| && place[g] == On(i) && f.addr[g] == a;
      assert g in Placed(place, On(i));
      assert g in f.db[i];
    }
  }

  lemma {:induction false} EntryForwards(place: seq<Place>, f: Final, vif: seq<nat>, a: nat, i: nat)
    requires |place| == |f.addr| == MAX_NUMBER_GROUPS && Lists(place, f.freeGroups, f.db) && |f.db| == |vif|
    requires Distinct(vif)
    requires Known(place, |vif|) && i < |vif|
    ensures (KnownHolders(place, f.addr, |vif|, a);
             vif[i] < MAXVIFS && Ttls(vif, Holders(place, f.addr, a))[vif[i]] == if f.Has(i, a) then 1 else 255)
  {
    KnownHolders(place, f.addr, |vif|, a);
    HasHolder(place, f, i, a);
  }

  lemma {:induction false} AllForwards(place: seq<Place>, f: Final, vif: seq<nat>, up: set<nat>)
    requires |place| == |f.addr| == MAX_NUMBER_GROUPS && Lists(place, f.freeGroups, f.db) && |f.db| == |vif|
    requires Distinct(vif)
    requires Known(place, |vif|) && ServedBy(place, f.ifs, up) && Mirror(place, f.addr, vif, f.mfc, f.joined)
    requires f.joined.Keys == up
    requires forall i :: i in f.ifs ==> i < |vif|
    ensures Forwards(f, vif, up)
  {
    hide Lists, Distinct, Ttls, Chains.Valid;
    forall a: nat ensures a in f.mfc <==> exists i :: i in f.ifs && i !in up && f.Has(i, a) {
      forall i | 0 <= i < |vif| ensures f.Has(i, a) <==> i in Holders(place, f.addr, a) {
        HasHolder(place, f, i, a);
      }
      ServedHolders(place, f.addr, f.ifs, up, a);
      if a in f.mfc {
        var i :| i in Holders(place, f.addr, a);
        assert i in f.ifs && i !in up && f.Has(i, a);
      }
    }
    forall a, i | a in f.mfc && 0 <= i < |vif|
      ensures |f.mfc[a]| == MAXVIFS && vif[i] < MAXVIFS && f.mfc[a][vif[i]] == if f.Has(i, a) then 1 else 255
    {
      EntryForwards(place, f, vif, a, i);
    }
  }

  /** Only a report puts an address into a database. */
  ghost predicate Grows(place: seq<Place>, addr: seq<nat>, place': seq<Place>, addr': seq<nat>, e: Event) {
    && |place| == |addr| == |place'| == |addr'|
    && forall g :: 0 <= g < |place'| && place'[g].On? ==>
         || (place[g] == place'[g] && addr[g] == addr'[g])
         || (e.ReportReceived? && place'[g] == On(e.i) && addr'[g] == e.a)
  }

  /** A report on a downstream interface for an address that is not local has been put into its database, unless there
      is no group left. */
  ghost predicate Answered(place: seq<Place>, addr: seq<nat>, ifs: seq<nat>, up: set<nat>, local: nat -> bool,
                           free: seq<nat>, e: Event)
    requires |place| == |addr|
  {
    e.ReportReceived? && e.i in ifs && e.i !in up && !local(e.a) ==> e.i in Holders(place, addr, e.a) || free == []
  }

  lemma TickedShrinks(c: Config, v: Snapshot, w: Snapshot, nets: set<nat>)
    requires Ticked(c, v, w, nets)
    ensures Grows(v.place, v.addr, w.place, w.addr, TimerTick)
  {
  }

  /** A report of the address came in on the interface. */
  ghost predicate Reported(events: seq<Event>, i: nat, a: nat) {
    exists k :: 0 <= k < |events| && events[k].ReportReceived? && events[k].i == i && events[k].a == a
  }

  /** Every group in a database stems from a report. */
  ghost predicate Stems(place: seq<Place>, addr: seq<nat>, events: seq<Event>) {
    |place| == |addr| && forall g :: 0 <= g < |place| && place[g].On? ==> Reported(events, place[g].i, addr[g])
  }

  lemma {:induction false} StemsMore(place: seq<Place>, addr: seq<nat>, place': seq<Place>, addr': seq<nat>,
                                     events: seq<Event>, e: Event)
    requires Stems(place, addr, events) && Grows(place, addr, place', addr', e)
    ensures Stems(place', addr', events + [e])
  {
    forall g | 0 <= g < |place'| && place'[g].On?
      ensures Reported(events + [e], place'[g].i, addr'[g])
    {
      if place[g] == place'[g] && addr[g] == addr'[g] {
        var k :| 0 <= k < |events| && events[k].ReportReceived? && events[k].i == place[g].i && events[k].a == addr[g];
        assert (events + [e])[k] == events[k];
      } else {
        assert (events + [e])[|events|] == e;
      }
    }
  }

  method Handle(r: Router, e: Event)
    requires r.Valid()
    modifies r, r.groups, r.groups.repr, r.pending, r.pending.repr
    ensures r.Valid() && (!e.InterfaceCleaned? ==> r.ifs == old(r.ifs))
    ensures Grows(old(r.place), old(r.addr), r.place, r.addr, e)
    ensures Answered(r.place, r.addr, r.ifs, r.up, r.local, r.freeGroups, e)
  {
    hide Lists, QueryLists, Mirror, States, Once, ServedBy, Distinct, NoRepeat, Known, Ticked, Current, Chains.Valid;
    match e
    case ReportReceived(i, a, v1) => if i in r.ifs { var _ := r.Report(i, a, v1); }
    case LeaveReceived(i, a) => if i in r.ifs { var _ := r.Leave(i, a); }
    case TimerTick =>
      ghost var v := r.View();
      r.Tick();
      TickedShrinks(r.config, v, r.View(), Downstream(r.ifs, r.up));
    case InterfaceCleaned => if r.ifs != [] && r.ifs[0] !in r.up { r.StopFirst(); }
  }

  /** Follows the pointers of all lists. */
  method WalkAll(r: Router) returns (free: seq<nat>, db: seq<seq<nat>>, freeQueries: seq<nat>, queries: seq<seq<nat>>)
    requires r.Valid()
    ensures free == r.freeGroups && db == r.db && freeQueries == r.freeQueries && |queries| == |r.queries| == |r.place|
    ensures forall g :: 0 <= g < |queries| ==> queries[g] == if r.place[g].On? then r.queries[g] else []
  {
    hide Lists, QueryLists, Mirror, States, Once, ServedBy, Distinct, NoRepeat, Known, Holders, Chains.Valid;
    free := r.groups.Walk(0);
    db := [];
    for i := 0 to |r.vif|
      invariant db == r.db[..i]
    {
      var s := r.groups.Walk(i + 1);
      db := db + [s];
    }
    freeQueries := r.pending.Walk(0);
    queries := [];
    for g := 0 to MAX_NUMBER_GROUPS
      invariant |queries| == g && forall h :: 0 <= h < g ==> queries[h] == if r.place[h].On? then r.queries[h] else []
    {
      InSomeDatabase(r.place, r.freeGroups, r.db, g);
      var s := [];
      if exists i :: 0 <= i < |db| && g in db[i] {
        s := r.pending.Walk(g + 1);
      }
      queries := queries + [s];
    }
  }

  lemma InSomeDatabase(place: seq<Place>, free: seq<nat>, db: seq<seq<nat>>, g: nat)
    requires Lists(place, free, db) && g < |place|
    ensures place[g].On? <==> exists i :: 0 <= i < |db| && g in db[i]
  {
    if place[g].On? {
      assert g in Placed(place, On(place[g].i));
      assert g in db[place[g].i];
    }
  }

  lemma OnlyInUse(place: seq<Place>, qplace: seq<Place>, free: seq<nat>, queries: seq<seq<nat>>, grp: seq<Timers>,
                  walked: seq<seq<nat>>)
    requires QueryLists(place, qplace, free, queries) && States(place, grp, queries) && |walked| == |place|
    requires forall g :: 0 <= g < |place| ==> walked[g] == if place[g].On? then queries[g] else []
    ensures QueryLists(place, qplace, free, walked) && States(place, grp, walked)
  {
  }

  method Observe(r: Router) returns (f: Final)
    requires r.Valid()
    ensures GroupsPlaced(f) && QueriesPlaced(f) && GroupsSound(f) && Forwards(f, r.vif, r.up)
    ensures f.ifs == r.ifs && f.freeGroups == r.freeGroups && |f.db| == |r.vif|
    ensures |r.place| == |r.addr| &&
      forall i: nat, a: nat :: i < |r.vif| ==> (f.Has(i, a) <==> i in Holders(r.place, r.addr, a))
  {
    hide Lists, QueryLists, Mirror, States, Once, ServedBy, Distinct, NoRepeat, Known, Current, Chains.Valid;
    hide GroupsPlaced, QueriesPlaced, GroupsSound, Forwards;
    var free, db, freeQueries, queries := WalkAll(r);
    f := Final(r.ifs, db, free, freeQueries, r.addr, r.grp, queries, r.mfc, r.joined);
    OnlyInUse(r.place, r.qplace, r.freeQueries, r.queries, r.grp, queries);
    GroupsArePlaced(r.place, f);
    QueriesArePlaced(r.place, r.qplace, f);
    GroupsAreSound(r.place, f);
    AllForwards(r.place, f, r.vif, r.up);
    forall i: nat, a: nat | i < |r.vif|
      ensures f.Has(i, a) <==> i in Holders(r.place, r.addr, a)
    {
      HasHolder(r.place, f, i, a);
    }
  }

  /** Over every run of reports, leaves, ticks and interface cleanups: nodes stay on exactly one list, databases stay
      sound, and the forwarding entries and upstream memberships mirror them. */
  method RunProxy(vif: seq<nat>, up: set<nat>, config: Config, local: nat -> bool, ifs: seq<nat>, events: seq<Event>)
    returns (f: Final)
    requires Distinct(vif) && NoRepeat(ifs) && (forall i :: i in ifs ==> i < |vif|) && config.count == 2
    ensures GroupsPlaced(f) && QueriesPlaced(f) && GroupsSound(f) && Forwards(f, vif, up)
    ensures forall i: nat, a: nat :: f.Has(i, a) ==> Reported(events, i, a)
    ensures (forall n :: 0 <= n < |events| ==> !events[n].InterfaceCleaned?) ==> f.ifs == ifs
    ensures events != [] && events[|events| - 1].ReportReceived? ==>
      var e := events[|events| - 1];
      e.i in f.ifs && e.i !in up && !local(e.a) ==> f.Has(e.i, e.a) || f.freeGroups == []
  {
    hide Lists, QueryLists, Mirror, States, Once, ServedBy, Distinct, NoRepeat, Known, Current, Chains.Valid;
    hide GroupsPlaced, QueriesPlaced, GroupsSound, Forwards, Reported;
    var r := new Router(vif, up, config, local, ifs);
    for n := 0 to |events|
      invariant r.Valid() && Stems(r.place, r.addr, events[..n])
      invariant (forall k :: 0 <= k < n ==> !events[k].InterfaceCleaned?) ==> r.ifs == ifs
      invariant n > 0 ==> Answered(r.place, r.addr, r.ifs, r.up, r.local, r.freeGroups, events[n - 1])
    {
      hide Stems, Grows, Answered;
      ghost var place, addr := r.place, r.addr;
      Handle(r, events[n]);
      StemsMore(place, addr, r.place, r.addr, events[..n], events[n]);
      assert events[..n] + [events[n]] == events[..n + 1];
    }
    assert events[..|events|] == events;
    f := Observe(r);
  }

  /** The same runs without cleanups in between, and then igmp_proxy_stop: it goes wrong exactly when an interface
      follows an upstream one on the list, and otherwise every node is freed once and the kernel holds nothing more.
      */
  method RunAndStop(vif: seq<nat>, up: set<nat>, config: Config, local: nat -> bool, ifs: seq<nat>, events: seq<Event>)
    returns (ok: bool, groups: seq<nat>, queries: seq<nat>, mfc: map<nat, seq<nat>>, joined: map<nat, set<nat>>)
    requires Distinct(vif) && NoRepeat(ifs) && (forall i :: i in ifs ==> i < |vif|) && config.count == 2
    requires forall n :: 0 <= n < |events| ==> !events[n].InterfaceCleaned?
    ensures ok <==> UpstreamLast(ifs, up)
    ensures ok ==> EachOf(groups, MAX_NUMBER_GROUPS) && EachOf(queries, MAX_NUMBER_QUERIES)
    ensures ok ==> mfc == map[] && joined.Keys == up && forall u :: u in joined ==> joined[u] == {}
  {
    hide Lists, QueryLists, Mirror, States, Once, ServedBy, Distinct, NoRepeat, Known, Current, EachOf, Chains.Valid;
    var r := new Router(vif, up, config, local, ifs);
    for n := 0 to |events|
      invariant r.Valid() && r.ifs == ifs
    {
      Handle(r, events[n]);
    }
    ok, groups, queries := r.Stop();
    mfc, joined := r.mfc, r.joined;
  }

  /** A leave on interface i for a group with version 2 members, and n ticks without a report: the group is there up
      to tick interval * count and gone on the next, after count - 1 group-specific queries. */
  method UnansweredLeave(r: Router, i: nat, g: nat, n: nat) returns (queries: nat)
    requires r.Valid() && i in r.ifs && g < MAX_NUMBER_GROUPS && r.place[g] == On(i) && r.grp[g].state == Members
    requires r.freeQueries != []
    requires n <= r.config.interval * r.config.count + 1
    modifies r, r.groups, r.groups.repr, r.pending, r.pending.repr
    ensures r.Valid() && |r.place| == MAX_NUMBER_GROUPS
    ensures n <= r.config.interval * r.config.count <==> r.place[g] == On(i)
    ensures n == r.config.interval * r.config.count + 1 ==> r.place[g] == Free && queries == r.config.count - 1
    ensures queries + multiset(old(r.sent))[(i, old(r.addr)[g])] == multiset(r.sent)[(i, old(r.addr)[g])]
  {
    hide Lists, QueryLists, Mirror, Distinct, NoRepeat, Known, Ticked, Ticks, Age, Holders, Chains.Valid;
    ghost var a, c := r.addr[g], r.config;
    var start := multiset(r.sent)[(i, r.addr[g])];
    StatesNoQueries(r.place, r.grp, r.queries, g);
    OnlyHolder(r.place, r.addr, g);
    ghost var t := Left(c);
    var _ := r.Leave(i, r.addr[g]);
    hide States, Once, ServedBy;
    TicksZero(c, t, c.count - 1);
    for m := 0 to n
      invariant r.Valid() && r.ifs == old(r.ifs) && r.addr == old(r.addr)
      invariant m <= c.interval * c.count ==> r.place[g] == On(i) && multiset(r.sent)[(i, a)] >= start
      invariant m <= c.interval * c.count ==>
        Ticks(c, t, c.count - 1, m) == Kept(r.grp[g], |r.queries[g]|, multiset(r.sent)[(i, a)] - start)
      invariant m == c.interval * c.count + 1 ==> r.place[g] == Free && multiset(r.sent)[(i, a)] == start + c.count - 1
    {
      LeaveExpires(c, m);
      LeaveExpires(c, m + 1);
      TicksAgain(c, t, c.count - 1, m);
      ghost var v := r.View();
      r.Tick();
      TickedAt(c, v, r.View(), Downstream(r.ifs, r.up), g);
    }
    queries := multiset(r.sent)[(i, r.addr[g])] - start;
  }

  /** n ticks after version 1 members were seen, a leave: it is ignored as long as their timer runs, and starts a check
      from the next tick on, if a query is free. */
  method LeaveAfterVersion1(r: Router, i: nat, g: nat, n: nat) returns (checked: bool)
    requires r.Valid() && i in r.ifs && g < MAX_NUMBER_GROUPS && r.place[g] == On(i) && r.grp[g].state == V1Members
    requires 0 <= r.grp[g].v1 && n <= r.grp[g].group
    modifies r, r.groups, r.groups.repr, r.pending, r.pending.repr
    ensures r.Valid() && |r.place| == |r.grp| == MAX_NUMBER_GROUPS && r.place[g] == On(i)
    ensures n <= old(r.grp)[g].v1 ==> !checked && r.grp[g].state == V1Members
    ensures old(r.grp)[g].v1 < n ==>
      (checked ==> r.grp[g].state == Checking) && (!checked ==> r.freeQueries == [] && r.grp[g].state == Members)
  {
    hide Lists, QueryLists, Mirror, Distinct, NoRepeat, Known, Ticked, Holders, Current, Chains.Valid, Ticks;
    ghost var a, c, t := r.addr[g], r.config, r.grp[g];
    assert i !in r.up;
    StatesNoQueries(r.place, r.grp, r.queries, g);
    hide States, Once, ServedBy;
    TicksZero(c, t, 0);
    for m := 0 to n
      invariant r.Valid() && r.ifs == old(r.ifs) && r.addr == old(r.addr) && r.place[g] == On(i)
      invariant Ticks(c, t, 0, m) == Kept(r.grp[g], 0, 0) && r.queries[g] == []
    {
      Version1After(c, t, 0, m);
      Version1After(c, t, 0, m + 1);
      TicksAgain(c, t, 0, m);
      ghost var v := r.View();
      r.Tick();
      TickedAt(c, v, r.View(), Downstream(r.ifs, r.up), g);
    }
    Version1After(c, t, 0, n);
    OnlyHolder(r.place, r.addr, g);
    var h := r.Leave(i, r.addr[g]);
    checked := h >= 0;
  }

  lemma TicksZero(c: Config, t: Timers, q: nat)
    requires t.state != NoMembers
    ensures Ticks(c, t, q, 0) == Kept(t, q, 0)
  {
  }

  lemma TickedAt(c: Config, v: Snapshot, w: Snapshot, nets: set<nat>, g: nat)
    requires Ticked(c, v, w, nets) && g < |v.place| && v.place[g].On? && v.place[g].i in nets
    requires v.grp[g].state != NoMembers
    ensures Became(c, v.place[g], v.grp[g], v.queries[g], w.place[g], w.grp[g], w.queries[g])
    ensures multiset(w.sent)[(v.place[g].i, v.addr[g])] ==
      multiset(v.sent)[(v.place[g].i, v.addr[g])] + Age(c, v.grp[g], |v.queries[g]|).sent
  {
    hide Age, Became;
    assert AgedOnce(c, v, w, g);
  }
}
