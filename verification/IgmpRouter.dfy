/** igmp_proxy.c: report, leave and timer handlers of the proxy, and the upstream memberships and kernel forwarding
    entries they keep. */
module IgmpRouter {
  import opened IgmpChains
  import opened IgmpPool
  import opened IgmpTimers

  const MAX_NUMBER_GROUPS: nat := 128
  const MAX_NUMBER_QUERIES: nat := 100

  /** Group and query states that belong together. */
  ghost predicate States(place: seq<Place>, grp: seq<Timers>, queries: seq<seq<nat>>) {
    && |grp| == |queries| == |place|
    && forall g :: 0 <= g < |place| && place[g].On? ==>
         grp[g].state != NoMembers && (queries[g] != [] ==> grp[g].state == Checking)
  }

  lemma CountdownExactly(place: seq<Place>, n: nat)
    requires |place| == n && forall g :: 0 <= g < n ==> place[g] == Free
    ensures Exactly(Countdown(n), Placed(place, Free))
    ensures forall i :: Placed(place, On(i)) == {}
  {
    var s := Countdown(n);
    forall x | x in Placed(place, Free) ensures x in s {
      assert s[n - 1 - x] == x;
    }
  }

  lemma InitialLists(place: seq<Place>, free: seq<nat>, db: seq<seq<nat>>, qplace: seq<Place>, freeQueries: seq<nat>,
                     queries: seq<seq<nat>>)
    requires free == Countdown(|place|) && freeQueries == Countdown(|qplace|) && |queries| == |place|
    requires forall g :: 0 <= g < |place| ==> place[g] == Free && queries[g] == []
    requires forall i :: 0 <= i < |db| ==> db[i] == []
    requires forall q :: 0 <= q < |qplace| ==> qplace[q] == Free
    ensures Lists(place, free, db) && QueryLists(place, qplace, freeQueries, queries) && Current(place, queries, {})
  {
    CountdownExactly(place, |place|);
    CountdownExactly(qplace, |qplace|);
    NothingExactly();
    hide Exactly, Countdown, Placed;
  }

  lemma InitialState(place: seq<Place>, addr: seq<nat>, grp: seq<Timers>, queries: seq<seq<nat>>, vif: seq<nat>,
                     ifs: seq<nat>, up: set<nat>, joined: map<nat, set<nat>>)
    requires |addr| == |grp| == |queries| == |place| && forall g :: 0 <= g < |place| ==> place[g] == Free
    requires forall u :: u in joined ==> joined[u] == {}
    ensures States(place, grp, queries) && Once(place, addr) && Known(place, |vif|) && ServedBy(place, ifs, up)
    ensures Mirror(place, addr, vif, map[], joined)
  {
    forall a ensures Holders(place, addr, a) == {} {
    }
  }

  lemma FromStart(free: seq<nat>, n: nat)
    ensures AllLists(free, seq(n, _ => [])) == [free] + seq(n, _ => [])
  {
  }

  ghost predicate ServedBy(place: seq<Place>, ifs: seq<nat>, up: set<nat>) {
    forall g :: 0 <= g < |place| && place[g].On? ==> place[g].i in ifs && place[g].i !in up
  }

  lemma ServedAdd(place: seq<Place>, ifs: seq<nat>, up: set<nat>, n: nat, g: nat, i: nat)
    requires ServedBy(place, ifs, up) && Known(place, n) && g < |place| && i in ifs && i !in up && i < n
    ensures ServedBy(place[g := On(i)], ifs, up) && Known(place[g := On(i)], n)
  {
  }

  lemma ServedDrop(place: seq<Place>, ifs: seq<nat>, up: set<nat>, g: nat)
    requires ServedBy(place, ifs, up) && g < |place|
    ensures ServedBy(place[g := Free], ifs, up)
  {
  }

  lemma KnownDrop(place: seq<Place>, n: nat, g: nat)
    requires Known(place, n) && g < |place|
    ensures Known(place[g := Free], n)
  {
  }

  /** Virtual interface indices are distinct and small enough for the kernel's table. */
  ghost predicate Distinct(vif: seq<nat>) {
    && (forall i :: 0 <= i < |vif| ==> vif[i] < MAXVIFS)
    && (forall i, j :: 0 <= i < j < |vif| ==> vif[i] != vif[j])
  }

  /** The free list and the lists that belong to interfaces or groups. */
  ghost function AllLists(free: seq<nat>, own: seq<seq<nat>>): (r: seq<seq<nat>>)
    ensures |r| == |own| + 1
  {
    [free] + own
  }

  lemma OneList(free: seq<nat>, own: seq<seq<nat>>, i: nat)
    requires i < |own|
    ensures AllLists(free, own)[0] == free && AllLists(free, own)[i + 1] == own[i]
  {
  }

  lemma FreeList(free: seq<nat>, own: seq<seq<nat>>, s: seq<nat>)
    ensures AllLists(free, own)[0] == free && AllLists(free, own)[0 := s] == AllLists(s, own)
  {
  }

  lemma BothChange(free: seq<nat>, own: seq<seq<nat>>, i: nat, s: seq<nat>, t: seq<nat>)
    requires i < |own|
    ensures AllLists(free, own)[0 := s][i + 1 := t] == AllLists(s, own[i := t])
    ensures AllLists(free, own)[i + 1 := t][0 := s] == AllLists(s, own[i := t])
  {
  }

  /** Head pointers of query lists: those of groups in a database are in use, and others empty or left over. */
  ghost predicate Current(place: seq<Place>, queries: seq<seq<nat>>, stale: set<nat>) {
    && |queries| == |place| && 0 !in stale
    && forall g :: 0 <= g < |place| ==> if place[g].On? then g + 1 !in stale else g + 1 in stale || queries[g] == []
  }

  lemma GroupsApart(c: Chains, place: seq<Place>, free: seq<nat>, db: seq<seq<nat>>, l: nat)
    requires Lists(place, free, db) && c.lists == AllLists(free, db) && l <= |db|
    ensures c.Apart(l)
  {
    forall m, x | 0 <= m < |c.lists| && m != l && x in c.lists[l] ensures x !in c.lists[m] {
      assert x in Placed(place, if l == 0 then Free else On(l - 1));
      assert x !in Placed(place, if m == 0 then Free else On(m - 1));
    }
  }

  lemma QueriesApart(c: Chains, place: seq<Place>, qplace: seq<Place>, free: seq<nat>, queries: seq<seq<nat>>, l: nat)
    requires QueryLists(place, qplace, free, queries) && Current(place, queries, c.stale)
    requires c.lists == AllLists(free, queries)
    requires l == 0 || (l <= |place| && place[l - 1].On?)
    ensures c.Apart(l)
  {
    forall m, x | 0 <= m < |c.lists| && m !in c.stale && m != l && x in c.lists[l] ensures x !in c.lists[m] {
      assert x in Placed(qplace, if l == 0 then Free else On(l - 1));
      if m == 0 || place[m - 1].On? {
        assert x !in Placed(qplace, if m == 0 then Free else On(m - 1));
      }
    }
  }

  class Router {
    /** Interfaces by number: their virtual interface indices, and which are upstream. */
    const vif: seq<nat>
    const up: set<nat>
    const config: Config
    /** LOCAL_MCAST: addresses in 224.0.0.0/24 are not proxied. */
    const local: nat -> bool
    /** The group nodes on the free list and the databases of the interfaces, and the query nodes on the free list and
        the query lists of the groups: list 0 is the free list, list n + 1 that of interface or group n. */
    const groups: Chains
    const pending: Chains
    /** network_if_list */
    var ifs: seq<nat>
    // the fields of the group nodes
    var addr: seq<nat>
    var grp: seq<Timers>
    // the kernel
    var mfc: map<nat, seq<nat>>
    var joined: map<nat, set<nat>>
    var sent: seq<(nat, nat)>
    // what the lists hold, and where each node is
    ghost var db: seq<seq<nat>>
    ghost var freeGroups: seq<nat>
    ghost var freeQueries: seq<nat>
    ghost var queries: seq<seq<nat>>
    ghost var place: seq<Place>
    ghost var qplace: seq<Place>

    /** main: all nodes on the free lists, no group anywhere. */
    constructor (vif: seq<nat>, up: set<nat>, config: Config, local: nat -> bool, ifs: seq<nat>)
      requires Distinct(vif) && NoRepeat(ifs) && (forall i :: i in ifs ==> i < |vif|) && config.count == 2
      ensures Valid() && this.vif == vif && this.up == up && this.config == config && this.local == local
      ensures this.ifs == ifs && forall g :: 0 <= g < |place| ==> place[g] == Free
      ensures sent == [] && |freeGroups| == MAX_NUMBER_GROUPS && |freeQueries| == MAX_NUMBER_QUERIES
      ensures fresh(groups) && fresh(groups.repr) && fresh(pending) && fresh(pending.repr)
    {
      groups := new Chains(MAX_NUMBER_GROUPS, |vif|);
      pending := new Chains(MAX_NUMBER_QUERIES, MAX_NUMBER_GROUPS);
      this.vif, this.up, this.config, this.local, this.ifs := vif, up, config, local, ifs;
      db := seq(|vif|, _ => []);
      freeGroups, freeQueries := Countdown(MAX_NUMBER_GROUPS), Countdown(MAX_NUMBER_QUERIES);
      addr := seq(MAX_NUMBER_GROUPS, _ => 0);
      grp := seq(MAX_NUMBER_GROUPS, _ => Timers(NoMembers, 0, 0, 0));
      queries := seq(MAX_NUMBER_GROUPS, _ => []);
      mfc, joined, sent := map[], map u | u in up :: {}, [];
      place, qplace := seq(MAX_NUMBER_GROUPS, _ => Free), seq(MAX_NUMBER_QUERIES, _ => Free);
      new;
      hide Countdown, Lists, QueryLists, States, Once, Known, Distinct, NoRepeat, ServedBy, Mirror, Current, AllLists;
      hide Chains.Valid;
      InitialLists(place, freeGroups, db, qplace, freeQueries, queries);
      InitialState(place, addr, grp, queries, vif, ifs, up, joined);
      FromStart(freeGroups, |vif|);
      FromStart(freeQueries, MAX_NUMBER_GROUPS);
    }

    ghost predicate Shape()
      reads this
    {
      && |db| == |vif| && |addr| == |grp| == |queries| == |place| == MAX_NUMBER_GROUPS && |qplace| == MAX_NUMBER_QUERIES
      && Distinct(vif) && NoRepeat(ifs) && (forall i :: i in ifs ==> i < |vif|)
      && config.count == 2 && Known(place, |vif|)
    }

    /** Groups stand only on interfaces that the proxy still serves downstream. */
    ghost predicate Served()
      reads this
    {
      ServedBy(place, ifs, up)
    }

    /** The pointers lead through exactly the group nodes that the lists hold. */
    ghost predicate GroupLinks()
      reads `freeGroups, `db, groups, groups.repr
    {
      && groups.Valid() && |groups.nodes| == MAX_NUMBER_GROUPS
      && groups.lists == AllLists(freeGroups, db) && groups.stale == {}
    }

    /** The pointers lead through exactly the query nodes that the lists hold. */
    ghost predicate QueryLinks()
      reads `freeQueries, `queries, pending, pending.repr
    {
      pending.Valid() && |pending.nodes| == MAX_NUMBER_QUERIES && pending.lists == AllLists(freeQueries, queries)
    }

    ghost predicate Linked()
      reads this, groups, groups.repr, pending, pending.repr
    {
      && groups != pending && groups.repr !! pending.repr
      && GroupLinks() && QueryLinks() && Current(place, queries, pending.stale)
    }

    ghost predicate Pools()
      reads this, groups, groups.repr, pending, pending.repr
    {
      && Shape() && Linked() && Lists(place, freeGroups, db) && QueryLists(place, qplace, freeQueries, queries)
      && States(place, grp, queries) && Once(place, addr)
    }

    ghost predicate Valid()
      reads this, groups, groups.repr, pending, pending.repr
    {
      Pools() && Served() && Mirror(place, addr, vif, mfc, joined) && joined.Keys == up
    }

    /** What the scans need to know of a consistent router. */
    lemma Parts()
      requires Valid()
      ensures |place| == |grp| == |queries| == |addr| == MAX_NUMBER_GROUPS && |db| == |vif|
      ensures GroupLinks() && QueryLinks() && Current(place, queries, pending.stale)
      ensures Lists(place, freeGroups, db) && States(place, grp, queries) && Once(place, addr)
    {
      hide Lists, States, Once, Current, QueryLists, Known, Distinct, NoRepeat, ServedBy, Mirror;
      hide Router.GroupLinks, Router.QueryLinks;
    }

    /** igmp_router_group_lookup: the group with address a on interface i, if any. */
    method Lookup(i: nat, a: nat) returns (g: int)
      requires Pools() && i < |vif|
      ensures g < 0 <==> i !in Holders(place, addr, a)
      ensures g >= 0 ==> g < MAX_NUMBER_GROUPS && place[g] == On(i) && addr[g] == a
    {
      hide QueryLists, States, Once, Known, Distinct, Current, Router.GroupLinks, Router.QueryLinks;
      var x := FirstGroup(i);
      ghost var k := 0;
      while x >= 0
        invariant 0 <= k <= |db[i]| && x == if k < |db[i]| then db[i][k] else -1
        invariant forall j :: 0 <= j < k ==> db[i][j] < |addr| && addr[db[i][j]] != a
        decreases |db[i]| - k
      {
        InDatabase(place, freeGroups, db, i, k);
        if addr[x] == a {
          return x;
        }
        x := NextGroup(i, x, k);
        k := k + 1;
      }
      g := -1;
      NotHeld(place, freeGroups, db, addr, i, a);
    }

    /** The scans of add and drop membership: the TTL list of address a, and whether any interface holds it. */
    method NetworkList(a: nat) returns (list: array<nat>, held: bool)
      requires Pools() && (forall i :: i in Holders(place, addr, a) ==> i in ifs && i !in up)
      ensures fresh(list) && held == (Holders(place, addr, a) != {})
      ensures (KnownHolders(place, addr, |vif|, a); list[..] == Ttls(vif, Holders(place, addr, a)))
    {
      hide Lists, QueryLists, States, Once, Current, Router.GroupLinks, Router.QueryLinks;
      KnownHolders(place, addr, |vif|, a);
      ghost var all := Holders(place, addr, a);
      ghost var seen: set<nat> := {};
      list := new nat[MAXVIFS](_ => 255);
      held := false;
      assert list[..] == Ttls(vif, seen);
      var n := 0;
      while n < |ifs|
        invariant 0 <= n <= |ifs| && fresh(list) && list.Length == MAXVIFS
        invariant seen <= all && (forall j :: 0 <= j < n && ifs[j] in all ==> ifs[j] in seen)
        invariant held == (seen != {}) && list[..] == Ttls(vif, seen)
      {
        var i := ifs[n];
        assert i in ifs;
        if i !in up {
          var g := Lookup(i, a);
          if g >= 0 {
            TtlsMore(vif, seen, i);
            list[vif[i]] := 1;
            held, seen := true, seen + {i};
            assert list[..] == Ttls(vif, seen);
          }
        }
        n := n + 1;
      }
      assert seen == all by {
        forall i | i in all ensures i in seen {
          assert i in ifs;
        }
      }
    }

    /** igmp_proxy_add_membership: joins upstream and sets the forwarding entry. */
    method AddMembership(a: nat)
      requires Pools() && Served()
      modifies this`mfc, this`joined
      ensures joined.Keys == old(joined.Keys) && forall u :: u in joined ==> joined[u] == old(joined)[u] + {a}
      ensures (KnownHolders(place, addr, |vif|, a); mfc == old(mfc)[a := Ttls(vif, Holders(place, addr, a))])
    {
      hide Lists, QueryLists, States, Once, Ttls, Current, Router.GroupLinks, Router.QueryLinks;
      joined := map u | u in joined :: joined[u] + {a};
      var list, held := NetworkList(a);
      mfc := mfc[a := list[..]];
    }

    /** igmp_proxy_drop_membership: leaves upstream and deletes the entry when no interface holds the address any
        more, and otherwise replaces the entry. */
    method DropMembership(a: nat)
      requires Pools() && (forall i :: i in Holders(place, addr, a) ==> i in ifs && i !in up)
      modifies this`mfc, this`joined
      ensures joined.Keys == old(joined.Keys)
      ensures Holders(place, addr, a) == {} ==>
        mfc == old(mfc) - {a} && forall u :: u in joined ==> joined[u] == old(joined)[u] - {a}
      ensures Holders(place, addr, a) != {} ==>
        (KnownHolders(place, addr, |vif|, a);
         joined == old(joined) && mfc == old(mfc)[a := Ttls(vif, Holders(place, addr, a))])
    {
      hide Lists, QueryLists, States, Once, Ttls, Current, Router.GroupLinks, Router.QueryLinks;
      var list, held := NetworkList(a);
      if !held {
        joined := map u | u in joined :: joined[u] - {a};
        mfc := mfc - {a};
      } else {
        mfc := mfc - {a};
        mfc := mfc[a := list[..]];
        assert mfc == old(mfc)[a := list[..]];
      }
    }

    /** list_get_head of the database of interface i. */
    method FirstGroup(i: nat) returns (g: int)
      requires GroupLinks() && i < |db|
      ensures g == if db[i] == [] then -1 else db[i][0]
    {
      hide AllLists, Chains.Valid;
      OneList(freeGroups, db, i);
      g := groups.Head(i + 1);
    }

    /** list_get_next of group g at position k of the database of interface i. */
    method NextGroup(i: nat, g: nat, ghost k: nat) returns (next: int)
      requires GroupLinks() && i < |db| && k < |db[i]| && db[i][k] == g < MAX_NUMBER_GROUPS
      ensures next == if k + 1 < |db[i]| then db[i][k + 1] else -1
    {
      hide AllLists, Chains.Valid;
      OneList(freeGroups, db, i);
      next := groups.Next(i + 1, g, k);
    }

    /** list_get_head of the query list of group g. */
    method FirstQuery(g: nat) returns (q: int)
      requires QueryLinks() && Current(place, queries, pending.stale) && g < |place| && place[g].On?
      ensures |queries| == |place| && (q < 0 <==> queries[g] == [])
    {
      hide AllLists, Chains.Valid, Current;
      CurrentOn(place, queries, pending.stale, g);
      OneList(freeQueries, queries, g);
      q := pending.Head(g + 1);
    }

    /** The first free group node goes to the database of interface i. */
    method TakeNode(i: nat) returns (g: int)
      requires GroupLinks() && Lists(place, freeGroups, db) && i < |db|
      modifies this`freeGroups, this`db, groups, groups.repr
      ensures GroupLinks() && (g < 0 <==> old(freeGroups) == []) && (g < 0 ==> unchanged(this))
      ensures g >= 0 ==>
        g == old(freeGroups)[0] && freeGroups == old(freeGroups)[1..] && db == old(db)[i := [g] + old(db)[i]]
    {
      hide Lists, AllLists, Chains.Valid, Chains.Apart;
      GroupsApart(groups, place, freeGroups, db, 0);
      OneList(freeGroups, db, i);
      g := groups.Move(0, i + 1);
      if g >= 0 {
        BothChange(freeGroups, db, i, freeGroups[1..], [g] + db[i]);
        freeGroups, db := freeGroups[1..], db[i := [g] + db[i]];
      }
    }

    /** Group node g at position k of the database of interface i goes to the free list. */
    method GiveNode(i: nat, g: nat, ghost k: nat)
      requires GroupLinks() && Lists(place, freeGroups, db) && i < |db| && k < |db[i]|
      requires db[i][k] == g < MAX_NUMBER_GROUPS
      modifies this`freeGroups, this`db, groups, groups.repr
      ensures GroupLinks() && freeGroups == [g] + old(freeGroups)
      ensures db == old(db)[i := old(db)[i][..k] + old(db)[i][k + 1..]]
    {
      hide Lists, AllLists, Chains.Valid, Chains.Apart;
      GroupsApart(groups, place, freeGroups, db, i + 1);
      OneList(freeGroups, db, i);
      groups.MoveNode(i + 1, g, k, 0);
      BothChange(freeGroups, db, i, [g] + freeGroups, db[i][..k] + db[i][k + 1..]);
      freeGroups, db := [g] + freeGroups, db[i := db[i][..k] + db[i][k + 1..]];
    }

    /** The first group node of the database of interface i goes to the free list. */
    method GiveFirst(i: nat) returns (g: int)
      requires GroupLinks() && Lists(place, freeGroups, db) && i < |db|
      modifies this`freeGroups, this`db, groups, groups.repr
      ensures GroupLinks() && (g < 0 <==> old(db)[i] == []) && (g < 0 ==> unchanged(this))
      ensures g >= 0 ==>
        g == old(db)[i][0] && freeGroups == [g] + old(freeGroups) && db == old(db)[i := old(db)[i][1..]]
    {
      hide Lists, AllLists, Chains.Valid, Chains.Apart;
      GroupsApart(groups, place, freeGroups, db, i + 1);
      OneList(freeGroups, db, i);
      g := groups.Move(i + 1, 0);
      if g >= 0 {
        BothChange(freeGroups, db, i, [g] + freeGroups, db[i][1..]);
        freeGroups, db := [g] + freeGroups, db[i := db[i][1..]];
      }
    }

    /** The first free query node goes to the list of group g. */
    method TakeQuery(g: nat) returns (q: int)
      requires QueryLinks() && QueryLists(place, qplace, freeQueries, queries) && Current(place, queries, pending.stale)
      requires g < |place| && place[g].On?
      modifies this`freeQueries, this`queries, pending`heads, pending`lists, pending.repr
      ensures QueryLinks() && (q < 0 <==> old(freeQueries) == []) && (q < 0 ==> unchanged(this))
      ensures q >= 0 ==>
        && q == old(freeQueries)[0] && freeQueries == old(freeQueries)[1..]
        && queries == old(queries)[g := [q] + old(queries)[g]]
    {
      hide QueryLists, Current, AllLists, Chains.Valid, Chains.Apart;
      QueriesApart(pending, place, qplace, freeQueries, queries, 0);
      CurrentOn(place, queries, pending.stale, g);
      OneList(freeQueries, queries, g);
      q := pending.Move(0, g + 1);
      if q >= 0 {
        BothChange(freeQueries, queries, g, freeQueries[1..], [q] + queries[g]);
        freeQueries, queries := freeQueries[1..], queries[g := [q] + queries[g]];
      }
    }

    /** The first query node of group g goes to the free list. */
    method GiveQuery(g: nat) returns (q: nat)
      requires QueryLinks() && QueryLists(place, qplace, freeQueries, queries) && Current(place, queries, pending.stale)
      requires g < |place| && place[g].On? && queries[g] != []
      modifies this`freeQueries, this`queries, pending`heads, pending`lists, pending.repr
      ensures QueryLinks() && q == old(queries)[g][0] && freeQueries == [q] + old(freeQueries)
      ensures queries == old(queries)[g := old(queries)[g][1..]]
    {
      hide QueryLists, Current, AllLists, Chains.Valid, Chains.Apart;
      QueriesApart(pending, place, qplace, freeQueries, queries, g + 1);
      CurrentOn(place, queries, pending.stale, g);
      OneList(freeQueries, queries, g);
      q := pending.Move(g + 1, 0);
      BothChange(freeQueries, queries, g, [q] + freeQueries, queries[g][1..]);
      freeQueries, queries := [q] + freeQueries, queries[g := queries[g][1..]];
    }

    /** All query nodes of group g go to the end of the free list; the group's own head pointer is left as it was. */
    method GiveQueries(g: nat)
      requires QueryLinks() && QueryLists(place, qplace, freeQueries, queries) && Current(place, queries, pending.stale)
      requires g < |place| && place[g].On?
      modifies this`freeQueries, pending, pending.repr
      ensures QueryLinks() && freeQueries == old(freeQueries) + queries[g]
      ensures pending.stale == old(pending.stale) + {g + 1}
    {
      hide QueryLists, Current, AllLists, Chains.Valid, Chains.Apart;
      QueriesApart(pending, place, qplace, freeQueries, queries, 0);
      CurrentOn(place, queries, pending.stale, g);
      OneList(freeQueries, queries, g);
      FreeList(freeQueries, queries, freeQueries + queries[g]);
      pending.Cat(0, g + 1);
      freeQueries := freeQueries + queries[g];
    }

    /** The head pointer of group g's query list is cleared. */
    method ClearQueries(g: nat)
      requires QueryLinks() && g < |queries|
      modifies this`queries, pending`heads, pending`lists, pending`stale
      ensures QueryLinks() && queries == old(queries)[g := []] && pending.stale == old(pending.stale) - {g + 1}
    {
      hide AllLists, Chains.Valid;
      OneList(freeQueries, queries, g);
      BothChange(freeQueries, queries, g, freeQueries, []);
      pending.Reset(g + 1);
      queries := queries[g := []];
    }

    /** The head of the free list, if there is one, is cleared and becomes the head of the database of interface i. */
    method TakeGroup(i: nat, a: nat, t: Timers) returns (g: int)
      requires Pools() && Served() && i in ifs && i !in up && i !in Holders(place, addr, a) && t.state != NoMembers
      modifies this`freeGroups, this`addr, this`grp, this`queries, this`db, this`place
      modifies groups, groups.repr, pending`heads, pending`lists, pending`stale
      ensures Pools() && Served() && (g < 0 <==> old(freeGroups) == []) && (g < 0 ==> unchanged(this))
      ensures g >= 0 ==> g < MAX_NUMBER_GROUPS && old(place)[g].Free? && place == old(place)[g := On(i)]
      ensures g >= 0 ==> addr == old(addr)[g := a] && grp == old(grp)[g := t] && queries == old(queries)[g := []]
      ensures g >= 0 ==> db == old(db)[i := [g] + old(db)[i]] && [g] + freeGroups == old(freeGroups)
    {
      hide Lists, QueryLists, Once, States, Holders, ServedBy, Known, Distinct, Current, NoRepeat;
      hide Router.GroupLinks, Router.QueryLinks;
      g := TakeNode(i);
      if g < 0 {
        return;
      }
      Allocate(place, old(freeGroups), old(db), i);
      ServedAdd(place, ifs, up, |vif|, g, i);
      StatesNew(place, grp, queries, g, i, t);
      QueriesOfNew(place, qplace, freeQueries, queries, g, i);
      OnceAdd(place, addr, g, i, a);
      CurrentNew(place, queries, pending.stale, g, i);
      ClearQueries(g);
      addr, grp, place := addr[g := a], grp[g := t], place[g := On(i)];
    }

    /** A group for address a on interface i, with its forwarding entry. */
    method NewGroup(i: nat, a: nat, v1: bool) returns (g: int)
      requires Valid() && i in ifs && i !in up && i !in Holders(place, addr, a)
      modifies this, groups, groups.repr, pending, pending.repr
      ensures Valid() && ifs == old(ifs) && sent == old(sent)
      ensures (g < 0 <==> old(freeGroups) == []) && (g < 0 ==> unchanged(this))
      ensures g >= 0 ==> g < MAX_NUMBER_GROUPS && old(place)[g].Free?
      ensures g >= 0 ==>
        place == old(place)[g := On(i)] && addr == old(addr)[g := a] && queries == old(queries)[g := []]
      ensures g >= 0 ==>
        grp == old(grp)[g := Timers(if v1 then V1Members else Members, config.membership,
                                    if v1 then config.membership else 0, 0)]
    {
      hide Lists, QueryLists, Once, Mirror, Ttls, Holders, States, ServedBy, Known, Distinct, Current,
        Router.GroupLinks, Router.QueryLinks;
      var t := Timers(if v1 then V1Members else Members, config.membership, if v1 then config.membership else 0, 0);
      g := TakeGroup(i, a, t);
      if g < 0 {
        return;
      }
      AddMembership(a);
      MirrorAdd(old(place), old(addr), vif, old(mfc), old(joined), g, i, a, mfc, joined);
    }

    /** Group g at position k of the database of interface i, which has no queries, goes back to the free list. */
    method GiveGroup(i: nat, g: nat, ghost k: nat)
      requires Pools() && i < |db| && k < |db[i]| && db[i][k] == g < MAX_NUMBER_GROUPS && queries[g] == []
      modifies this`freeGroups, this`grp, this`db, this`place, groups, groups.repr
      ensures Pools() && old(place)[g] == On(i) && place == old(place)[g := Free]
      ensures grp == old(grp)[g := old(grp)[g].(state := NoMembers)]
      ensures db == old(db)[i := old(db)[i][..k] + old(db)[i][k + 1..]] && freeGroups == [g] + old(freeGroups)
    {
      hide Lists, QueryLists, Once, States, Holders, ServedBy, Known, Distinct, Current, NoRepeat;
      hide Router.GroupLinks, Router.QueryLinks;
      Release(place, freeGroups, db, i, k);
      GiveNode(i, g, k);
      KnownDrop(place, |vif|, g);
      StatesDrop(place, grp, queries, g, grp[g].(state := NoMembers));
      QueriesOfOld(place, qplace, freeQueries, queries, g);
      OnceDrop(place, addr, g);
      CurrentDrop(place, queries, pending.stale, g);
      grp, place := grp[g := grp[g].(state := NoMembers)], place[g := Free];
    }

    /** The end of a group: out of the database, out of the forwarding entry, back to the free list. */
    method RemoveGroup(i: nat, g: nat, ghost k: nat)
      requires Valid() && i < |db| && k < |db[i]| && db[i][k] == g < MAX_NUMBER_GROUPS && queries[g] == []
      modifies this, groups, groups.repr
      ensures Valid() && ifs == old(ifs) && sent == old(sent) && old(place)[g] == On(i)
      ensures place == old(place)[g := Free] && addr == old(addr) && queries == old(queries)
      ensures grp == old(grp)[g := old(grp)[g].(state := NoMembers)]
      ensures db == old(db)[i := old(db)[i][..k] + old(db)[i][k + 1..]]
    {
      hide Lists, QueryLists, Once, Mirror, Ttls, Holders, States, Known, Distinct, Current, Router.GroupLinks,
        Router.QueryLinks;
      GiveGroup(i, g, k);
      ServedDrop(old(place), ifs, up, g);
      ServedHolders(place, addr, ifs, up, addr[g]);
      hide ServedBy, Current, Router.GroupLinks, Router.QueryLinks;
      DropMembership(addr[g]);
      MirrorDrop(old(place), addr, vif, old(mfc), old(joined), g, mfc, joined);
    }

    /** Everything but that interface i is no longer on the interface list. */
    ghost predicate Stopping(i: nat)
      reads this, groups, groups.repr, pending, pending.repr
    {
      && Pools() && i < |vif| && ServedBy(place, [i] + ifs, up)
      && Mirror(place, addr, vif, mfc, joined) && joined.Keys == up
    }

    /** The first group of interface i, if there is one, and its queries go back to the free lists. */
    method Detach(i: nat) returns (g: int)
      requires Pools() && i < |db|
      modifies this`db, this`freeGroups, this`freeQueries, this`place, this`qplace
      modifies groups, groups.repr, pending, pending.repr
      ensures Pools() && (g < 0 <==> old(db)[i] == []) && (g < 0 ==> unchanged(this))
      ensures g >= 0 ==> g == old(db)[i][0] && g < MAX_NUMBER_GROUPS && old(place)[g] == On(i)
      ensures g >= 0 ==> place == old(place)[g := Free] && db == old(db)[i := old(db)[i][1..]]
    {
      hide Lists, QueryLists, Once, States, Holders, ServedBy, Known, Distinct, Current, NoRepeat;
      hide Router.GroupLinks, Router.QueryLinks;
      g := GiveFirst(i);
      if g < 0 {
        return;
      }
      Release(place, old(freeGroups), old(db), i, 0);
      assert old(db)[i][..0] + old(db)[i][1..] == old(db)[i][1..];
      KnownDrop(place, |vif|, g);
      StatesDrop(place, grp, queries, g, grp[g]);
      assert grp[g := grp[g]] == grp;
      OnceDrop(place, addr, g);
      CurrentDrop(place, queries, pending.stale, g);
      Cancel(place, qplace, freeQueries, queries, g);
      GiveQueries(g);
      qplace, place := MoveAll(qplace, On(g), Free), place[g := Free];
    }

    /** One turn of igmp_proxy_clean_interface: the first group goes, and its queries with it. */
    method CleanFirst(i: nat) returns (g: int)
      requires Stopping(i)
      modifies this, groups, groups.repr, pending, pending.repr
      ensures Stopping(i) && ifs == old(ifs) && sent == old(sent) && addr == old(addr)
      ensures (g < 0 <==> old(db)[i] == []) && (g < 0 ==> unchanged(this))
      ensures g >= 0 ==>
        && g == old(db)[i][0] && g < MAX_NUMBER_GROUPS && old(place)[g] == On(i)
        && place == old(place)[g := Free] && db == old(db)[i := old(db)[i][1..]]
    {
      hide Lists, QueryLists, Once, Mirror, Ttls, Holders, States, Known, Distinct, ServedBy, Current,
        Router.GroupLinks, Router.QueryLinks;
      g := Detach(i);
      if g < 0 {
        return;
      }
      ServedDrop(old(place), [i] + ifs, up, g);
      StoppedHolders(old(place), addr, ifs, up, i, g);
      DropMembership(addr[g]);
      MirrorDrop(old(place), addr, vif, old(mfc), old(joined), g, mfc, joined);
    }

    /** igmp_proxy_clean_interface of a downstream interface that has been taken off the interface list. */
    method CleanInterface(i: nat)
      requires Stopping(i) && i !in ifs
      modifies this, groups, groups.repr, pending, pending.repr
      ensures Valid() && ifs == old(ifs) && sent == old(sent) && addr == old(addr) && |place| == |old(place)|
      ensures forall g :: 0 <= g < |place| ==> place[g] == if old(place)[g] == On(i) then Free else old(place)[g]
    {
      hide Lists, QueryLists, Once, Mirror, Holders, States, Known, Distinct, Current, Router.GroupLinks,
        Router.QueryLinks;
      var g := CleanFirst(i);
      while g >= 0
        invariant Stopping(i) && ifs == old(ifs) && sent == old(sent) && addr == old(addr) && (g < 0 ==> db[i] == [])
        invariant |place| == |old(place)| && forall g :: 0 <= g < |place| ==>
          place[g] == old(place)[g] || (place[g] == Free && old(place)[g] == On(i))
        decreases |db[i]| + if g < 0 then 0 else 1
      {
        g := CleanFirst(i);
      }
      NobodyOn(place, freeGroups, db, i);
    }

    /** The first interface is taken off the list and cleaned, if it is a downstream one. */
    method StopFirst()
      requires Valid() && ifs != [] && ifs[0] !in up
      modifies this, groups, groups.repr, pending, pending.repr
      ensures Valid() && ifs == old(ifs)[1..] && sent == old(sent) && addr == old(addr) && |place| == |old(place)|
      ensures forall g :: 0 <= g < |place| ==>
        place[g] == if old(place)[g] == On(old(ifs)[0]) then Free else old(place)[g]
    {
      hide Lists, QueryLists, Once, Mirror, Holders, States, Known, Distinct, Current, Router.GroupLinks,
        Router.QueryLinks;
      var i := ifs[0];
      ifs := ifs[1..];
      assert [i] + ifs == old(ifs);
      assert i in old(ifs) && forall j :: j in ifs ==> j in old(ifs);
      CleanInterface(i);
    }

    /** igmp_proxy_stop up to the release of the nodes. When an upstream interface is met, the interface after it is
        freed and then used again: the result is false where that happens. */
    method StopInterfaces() returns (ok: bool)
      requires Valid()
      modifies this, groups, groups.repr, pending, pending.repr
      ensures Valid() && (ok <==> UpstreamLast(old(ifs), up)) && (ok ==> ifs == [])
    {
      hide Lists, QueryLists, Once, Mirror, Holders, States, Known, Distinct, Current, ServedBy, NoRepeat,
        Router.GroupLinks, Router.QueryLinks;
      ghost var m := 0;
      while ifs != []
        invariant Valid() && m <= |old(ifs)| && ifs == old(ifs)[m..] && forall k :: 0 <= k < m ==> old(ifs)[k] !in up
        decreases |ifs|
      {
        assert ifs[0] == old(ifs)[m];
        if ifs[0] in up {
          ok := |ifs| == 1;
          if ok {
            NothingServed(place, ifs, up);
            NothingRepeats();
            ifs := [];
          }
          return;
        }
        StopFirst();
        m := m + 1;
      }
      ok := true;
    }

    /** The loops at the end of igmp_proxy_stop: all nodes come off the free lists. */
    method FreeNodes() returns (freedGroups: seq<nat>, freedQueries: seq<nat>)
      requires Pools()
      modifies groups, groups.repr, pending, pending.repr
      ensures freedGroups == freeGroups && freedQueries == freeQueries
    {
      hide Lists, QueryLists, Once, States, Known, Distinct, NoRepeat, Current, AllLists, Chains.Valid, Chains.Apart;
      CurrentFree(place, queries, pending.stale);
      FreeList(freeQueries, queries, []);
      FreeList(freeGroups, db, []);
      GroupsApart(groups, place, freeGroups, db, 0);
      QueriesApart(pending, place, qplace, freeQueries, queries, 0);
      freedQueries := pending.Drain(0);
      freedGroups := groups.Drain(0);
    }

    /** igmp_proxy_stop: it frees every group and query node exactly once, and leaves no forwarding entry and no
        upstream membership behind, if no interface follows an upstream one on the list. */
    method Stop() returns (ok: bool, freedGroups: seq<nat>, freedQueries: seq<nat>)
      requires Valid()
      modifies this, groups, groups.repr, pending, pending.repr
      ensures ok <==> UpstreamLast(old(ifs), up)
      ensures ok ==> ifs == [] && mfc == map[] && joined.Keys == up && forall u :: u in joined ==> joined[u] == {}
      ensures ok ==> EachOf(freedGroups, MAX_NUMBER_GROUPS) && EachOf(freedQueries, MAX_NUMBER_QUERIES)
    {
      hide Lists, QueryLists, Once, Mirror, Holders, States, Known, Distinct, Current, ServedBy, NoRepeat, EachOf,
        Router.GroupLinks, Router.QueryLinks;
      freedGroups, freedQueries := [], [];
      ok := StopInterfaces();
      if !ok {
        return;
      }
      NobodyServed(place, up);
      NothingForwarded(place, addr, vif, mfc, joined);
      AllFree(place, freeGroups, db, qplace, freeQueries, queries);
      freedGroups, freedQueries := FreeNodes();
    }

    /** list_cat of the scheduled queries of group g back to the free list. */
    method CancelQueries(g: nat)
      requires Valid() && g < MAX_NUMBER_GROUPS && place[g].On?
      modifies this`freeQueries, this`queries, this`qplace, pending, pending.repr
      ensures Valid() && queries == old(queries)[g := []] && freeQueries == old(freeQueries) + old(queries)[g]
    {
      hide Lists, QueryLists, Once, Mirror, ServedBy, Known, Distinct, Current, NoRepeat;
      hide Router.GroupLinks, Router.QueryLinks;
      CurrentSet(place, queries, pending.stale, g, []);
      Cancel(place, qplace, freeQueries, queries, g);
      CurrentOn(place, queries, pending.stale, g);
      GiveQueries(g);
      ClearQueries(g);
      assert pending.stale == old(pending.stale);
      qplace := MoveAll(qplace, On(g), Free);
    }

    method SetTimers(g: nat, t: Timers)
      requires Valid() && g < MAX_NUMBER_GROUPS && t.state != NoMembers && (queries[g] != [] ==> t.state == Checking)
      modifies this`grp
      ensures Valid() && grp == old(grp)[g := t]
    {
      hide Lists, QueryLists, Once, Mirror, Current, Router.GroupLinks, Router.QueryLinks;
      grp := grp[g := t];
    }

    /** The version 1 and version 2 report handlers. Reports on upstream interfaces and for local addresses are
        ignored, and so is a report for a new group when no group node is free. Otherwise the group is a member
        afterwards, with its timers restarted and no query scheduled; other groups are not touched. */
    method Report(i: nat, a: nat, v1: bool) returns (g: int)
      requires Valid() && i in ifs
      modifies this, groups, groups.repr, pending, pending.repr
      ensures Valid() && ifs == old(ifs) && sent == old(sent)
      ensures g < 0 <==> i in up || local(a) || (i !in Holders(old(place), old(addr), a) && old(freeGroups) == [])
      ensures g < 0 ==> unchanged(this)
      ensures g >= 0 ==> g < MAX_NUMBER_GROUPS && place[g] == On(i) && addr[g] == a && queries[g] == []
      ensures g >= 0 ==>
        var was := if old(place)[g].On? then old(grp)[g] else Timers(NoMembers, 0, 0, 0);
        grp[g] == Timers(if v1 || was.state == V1Members then V1Members else Members, config.membership,
                         if v1 then config.membership else was.v1, was.retransmit)
      ensures forall h :: 0 <= h < MAX_NUMBER_GROUPS && h != g ==>
        place[h] == old(place)[h] && addr[h] == old(addr)[h] && grp[h] == old(grp)[h] && queries[h] == old(queries)[h]
    {
      hide Lists, QueryLists, Once, Mirror, Holders, States, Current, Router.GroupLinks, Router.QueryLinks;
      if i in up || local(a) {
        return -1;
      }
      g := Lookup(i, a);
      if g < 0 {
        g := NewGroup(i, a, v1);
        return;
      }
      if grp[g].state == Checking {
        CancelQueries(g);
      } else {
        StatesNoQueries(place, grp, queries, g);
      }
      var state := if v1 || grp[g].state == V1Members then V1Members else Members;
      var v1Timer := if v1 then config.membership else grp[g].v1;
      SetTimers(g, grp[g].(state := state, group := config.membership, v1 := v1Timer));
    }

    /** Query links, placement and states, which change together. */
    ghost predicate QueryPart()
      reads `freeQueries, `queries, `place, `qplace, `grp, pending, pending.repr
    {
      && |grp| == |queries| == |place| && QueryLinks() && Current(place, queries, pending.stale)
      && QueryLists(place, qplace, freeQueries, queries) && States(place, grp, queries)
    }

    /** The first query of group g goes back to the free list, and its retransmission timer starts again. */
    method ReturnQuery(g: nat)
      requires QueryPart() && g < |place| && place[g].On? && queries[g] != [] && grp[g].state == Checking
      modifies `queries, `freeQueries, `qplace, `grp, pending`heads, pending`lists, pending.repr
      ensures QueryPart() && |qplace| == |old(qplace)|
      ensures queries == old(queries)[g := old(queries)[g][1..]]
      ensures freeQueries == [old(queries)[g][0]] + old(freeQueries)
      ensures grp == old(grp)[g := old(grp)[g].(retransmit := config.interval)]
    {
      hide QueryLists, States, Current, Router.QueryLinks;
      CurrentSet(place, queries, pending.stale, g, queries[g][1..]);
      SendFirst(place, qplace, freeQueries, queries, g);
      StatesSet(place, grp, queries, g, grp[g].(retransmit := config.interval), queries[g][1..]);
      var q := GiveQuery(g);
      qplace, grp := qplace[q := Free], grp[g := grp[g].(retransmit := config.interval)];
    }

    /** A free query, if there is one, is scheduled for group g, which is checked from then on. */
    method ScheduleQuery(g: nat) returns (ok: bool)
      requires QueryPart() && g < |place| && place[g].On?
      modifies `queries, `freeQueries, `qplace, `grp, pending`heads, pending`lists, pending.repr
      ensures QueryPart() && |qplace| == |old(qplace)| && ok == (old(freeQueries) != [])
      ensures !ok ==> unchanged(`queries, `freeQueries, `qplace, `grp)
      ensures ok ==> grp == old(grp)[g := Left(config)]
      ensures ok ==>
        freeQueries == old(freeQueries)[1..] && queries == old(queries)[g := [old(freeQueries)[0]] + old(queries)[g]]
    {
      hide QueryLists, States, Current, Router.QueryLinks;
      var q := TakeQuery(g);
      if q < 0 {
        return false;
      }
      CurrentSet(place, old(queries), pending.stale, g, [q] + old(queries)[g]);
      Schedule(place, qplace, old(freeQueries), old(queries), g);
      StatesSet(place, grp, old(queries), g, Left(config), [q] + old(queries)[g]);
      qplace, grp := qplace[q := On(g)], grp[g := Left(config)];
      ok := true;
    }

    /** The head of the free list, if there is one, becomes the first query of group g, which is checked from now on. */
    method Check(g: nat) returns (ok: bool)
      requires Valid() && g < MAX_NUMBER_GROUPS && place[g].On?
      modifies this`queries, this`freeQueries, this`qplace, this`grp, pending, pending.repr
      ensures Valid() && ok == (old(freeQueries) != []) && (!ok ==> unchanged(this))
      ensures ok ==> grp == old(grp)[g := Left(config)]
      ensures ok ==>
        freeQueries == old(freeQueries)[1..] && queries == old(queries)[g := [old(freeQueries)[0]] + old(queries)[g]]
    {
      hide Lists, QueryLists, Once, States, Mirror, ServedBy, Known, Distinct, Current, NoRepeat;
      hide Router.GroupLinks, Router.QueryLinks;
      ok := ScheduleQuery(g);
    }

    /** The leave handler: schedules a query and starts checking, unless version 1 members are present or no query is
        free. */
    method Leave(i: nat, a: nat) returns (g: int)
      requires Valid() && i in ifs
      modifies this, groups, groups.repr, pending, pending.repr
      ensures Valid() && ifs == old(ifs) && sent == old(sent) && place == old(place) && addr == old(addr)
      ensures g < 0 ==> unchanged(this)
      ensures g >= 0 <==>
        && i !in up && old(freeQueries) != []
        && exists h :: 0 <= h < MAX_NUMBER_GROUPS && place[h] == On(i) && addr[h] == a && old(grp)[h].state != V1Members
      ensures g >= 0 ==>
        && g < MAX_NUMBER_GROUPS && place[g] == On(i) && addr[g] == a
        && grp == old(grp)[g := Timers(Checking, config.interval * config.count, 0, config.interval)]
      ensures g >= 0 ==>
        freeQueries == old(freeQueries)[1..] && queries == old(queries)[g := [old(freeQueries)[0]] + old(queries)[g]]
    {
      hide Lists, QueryLists, Mirror, Holders, States, Once, Current, Known, Distinct, ServedBy,
        Router.GroupLinks, Router.QueryLinks;
      g := -1;
      if i in up {
        return;
      }
      var h := Lookup(i, a);
      if h < 0 {
        NobodyHolds(place, addr, i, a);
        return;
      }
      OnlyHolder(place, addr, h);
      if grp[h].state == V1Members {
        return;
      }
      var ok := Check(h);
      if ok {
        g := h;
      }
    }

    /** igmp_router_retransmit_timer_expired with a query left: it goes out on interface i and back to the free list. */
    method SendQuery(i: nat, g: nat)
      requires Valid() && g < MAX_NUMBER_GROUPS && place[g] == On(i) && queries[g] != [] && grp[g].state == Checking
      modifies this`queries, this`freeQueries, this`qplace, this`grp, this`sent, pending, pending.repr
      ensures Valid() && sent == old(sent) + [(i, addr[g])]
      ensures queries == old(queries)[g := old(queries)[g][1..]]
      ensures freeQueries == [old(queries)[g][0]] + old(freeQueries)
      ensures grp == old(grp)[g := old(grp)[g].(retransmit := config.interval)]
    {
      hide Lists, QueryLists, Once, States, Mirror, ServedBy, Known, Distinct, Current, NoRepeat;
      hide Router.GroupLinks, Router.QueryLinks;
      ReturnQuery(g);
      sent := sent + [(i, addr[g])];
    }

    /** The body of the tick for group g at position k of interface i: exactly what Age says. The group after it is
        returned. */
    method TickGroup(i: nat, g: nat, ghost k: nat) returns (next: int, ghost gone: bool)
      requires Valid() && i < |db| && k < |db[i]| && db[i][k] == g
      modifies this, groups, groups.repr, pending, pending.repr
      ensures Valid() && ifs == old(ifs) && addr == old(addr)
      ensures db == if gone then old(db)[i := old(db)[i][..k] + old(db)[i][k + 1..]] else old(db)
      ensures next == if k + 1 < |old(db)[i]| then old(db)[i][k + 1] else -1
      ensures
        && g < MAX_NUMBER_GROUPS && old(place)[g] == On(i) && old(grp)[g].state != NoMembers
        && Became(config, old(place)[g], old(grp)[g], old(queries)[g], place[g], grp[g], queries[g])
        && gone == Age(config, old(grp)[g], |old(queries)[g]|).Gone?
        && sent == old(sent) + Copies((i, addr[g]), Age(config, old(grp)[g], |old(queries)[g]|).sent)
        && forall h :: 0 <= h < MAX_NUMBER_GROUPS && h != g ==>
             place[h] == old(place)[h] && grp[h] == old(grp)[h] && queries[h] == old(queries)[h]
    {
      hide Lists, Once, States, Age, Current, Router.GroupLinks, Router.QueryLinks, Router.Valid;
      Parts();
      InDatabase(place, freeGroups, db, i, k);
      StatesOf(place, grp, queries, g);
      ghost var t0, q0, n := grp[g], |queries[g]|, 0;
      assert sent == old(sent) + Copies((i, addr[g]), 0);
      var q := FirstQuery(g);
      while grp[g].state == Checking && grp[g].retransmit <= 0 && q >= 0
        invariant Valid() && ifs == old(ifs) && addr == old(addr) && db == old(db) && place == old(place)
        invariant |grp| == |queries| == MAX_NUMBER_GROUPS
        invariant grp[g].state == t0.state && (queries[g] != [] ==> grp[g].state == Checking)
        invariant q < 0 <==> queries[g] == []
        invariant Age(config, t0, q0) == More(n, Age(config, grp[g], |queries[g]|))
        invariant sent == old(sent) + Copies((i, addr[g]), n)
        invariant forall h :: 0 <= h < MAX_NUMBER_GROUPS && h != g ==>
          grp[h] == old(grp)[h] && queries[h] == old(queries)[h]
        decreases |queries[g]|
      {
        AgeSends(config, grp[g], |queries[g]|, n);
        CopiesMore(old(sent), (i, addr[g]), n);
        SendQuery(i, g);
        Parts();
        q := FirstQuery(g);
        n := n + 1;
      }
      Parts();
      AgeRest(config, grp[g], |queries[g]|);
      gone := Ends(grp[g]);
      next := NextGroup(i, g, k);
      if Ends(grp[g]) {
        RemoveGroup(i, g, k);
      } else {
        SetTimers(g, Aging(grp[g]));
      }
    }

    ghost function View(): Snapshot
      reads this
    {
      Snapshot(place, grp, queries, addr, sent)
    }

    /** The groups of interface i, each aged once. */
    method TickInterface(i: nat)
      requires Valid() && i < |db|
      modifies this, groups, groups.repr, pending, pending.repr
      ensures Valid() && ifs == old(ifs) && addr == old(addr)
      ensures Ticked(config, old(View()), View(), {i})
    {
      hide Lists, Once, States, Current, Router.GroupLinks, Router.QueryLinks, Router.Valid;
      Parts();
      ghost var list, v0 := db[i], View();
      ListOf(place, freeGroups, db, i);
      HalfwayStart(config, v0, i, list);
      hide NoRepeat, Halfway, Became, Exactly, Ticked, Current, Router.GroupLinks, Router.QueryLinks;
      var x := FirstGroup(i);
      ghost var k, n := 0, 0;
      while x >= 0
        invariant Valid() && ifs == old(ifs) && addr == old(addr)
        invariant |db| == |vif| && 0 <= n <= |list| && 0 <= k <= |db[i]| && db[i][k..] == list[n..]
        invariant x == if n < |list| then list[n] else -1
        invariant Halfway(config, v0, View(), i, list, n)
        decreases |list| - n
      {
        Parts();
        assert db[i][k] == db[i][k..][0] == list[n];
        ghost var v := View();
        ghost var before := db[i];
        assert |before| - k == |before[k..]| == |list| - n;
        assert k + 1 < |before| ==> before[k + 1] == before[k..][1] == list[n..][1];
        InDatabase(place, freeGroups, db, i, k);
        StatesOf(place, grp, queries, x);
        ghost var gone;
        x, gone := TickGroup(i, x, k);
        Parts();
        HalfwayStep(config, v0, v, View(), i, list, n);
        n := n + 1;
        if gone {
          assert db[i][k..] == before[k..][1..];
        } else {
          assert db[i][k + 1..] == before[k..][1..];
          k := k + 1;
        }
        assert list[n - 1..][1..] == list[n..];
      }
      assert n == |list|;
      HalfwayDone(config, v0, View(), i, list);
    }

    /** igmp_router_timer_expired: every group on a downstream interface is aged exactly once. */
    method Tick()
      requires Valid()
      modifies this, groups, groups.repr, pending, pending.repr
      ensures Valid() && ifs == old(ifs) && addr == old(addr)
      ensures Ticked(config, old(View()), View(), Downstream(ifs, up))
    {
      hide Lists, QueryLists, Once, Mirror, Known, Distinct, ServedBy, States, Ticked, Current, Router.GroupLinks,
        Router.QueryLinks;
      ghost var v0 := View();
      ghost var nets: set<nat> := {};
      TickedNone(config, v0);
      var n := 0;
      while n < |ifs|
        invariant Valid() && ifs == old(ifs) && addr == old(addr) && 0 <= n <= |ifs|
        invariant forall i :: i in nets <==> i in ifs[..n] && i !in up
        invariant Ticked(config, v0, View(), nets)
      {
        var i := ifs[n];
        assert i in ifs;
        assert ifs[..n + 1] == ifs[..n] + [i];
        if i !in up {
          ghost var v := View();
          assert i !in ifs[..n];
          TickInterface(i);
          TickedMore(config, v0, v, View(), nets, i);
          nets := nets + {i};
        }
        n := n + 1;
      }
      assert ifs[..n] == ifs;
      assert nets == Downstream(ifs, up);
    }
  }

  /** No interface follows an upstream one on the list. */
  predicate UpstreamLast(ifs: seq<nat>, up: set<nat>) {
    forall k :: 0 <= k < |ifs| - 1 ==> ifs[k] !in up
  }

  /** Each number below n, once. */
  ghost predicate EachOf(s: seq<nat>, n: nat) {
    NoRepeat(s) && forall x: nat :: x in s <==> x < n
  }

  lemma NothingServed(place: seq<Place>, ifs: seq<nat>, up: set<nat>)
    requires ServedBy(place, ifs, up) && |ifs| == 1 && ifs[0] in up
    ensures ServedBy(place, [], up)
  {
  }

  lemma NothingRepeats()
    ensures NoRepeat([])
  {
  }

  lemma NobodyServed(place: seq<Place>, up: set<nat>)
    requires ServedBy(place, [], up)
    ensures forall g :: 0 <= g < |place| ==> place[g].Free?
  {
  }

  lemma NothingForwarded(place: seq<Place>, addr: seq<nat>, vif: seq<nat>, mfc: map<nat, seq<nat>>, joined: map<nat,
                         set<nat>>)
    requires |addr| == |place| && Known(place, |vif|) && Mirror(place, addr, vif, mfc, joined)
    requires forall g :: 0 <= g < |place| ==> place[g].Free?
    ensures mfc == map[] && forall u :: u in joined ==> joined[u] == {}
  {
    forall a ensures Holders(place, addr, a) == {} {
    }
  }

  lemma AllFree(place: seq<Place>, freeGroups: seq<nat>, db: seq<seq<nat>>, qplace: seq<Place>, freeQueries: seq<nat>,
                queries: seq<seq<nat>>)
    requires Lists(place, freeGroups, db) && QueryLists(place, qplace, freeQueries, queries)
    requires forall g :: 0 <= g < |place| ==> place[g].Free?
    ensures EachOf(freeGroups, |place|) && EachOf(freeQueries, |qplace|)
  {
    assert forall x: nat :: x in Placed(place, Free) <==> x < |place|;
    forall q | 0 <= q < |qplace| ensures qplace[q] == Free {
      assert qplace[q].On? ==> q in Placed(qplace, On(qplace[q].i));
    }
    assert forall x: nat :: x in Placed(qplace, Free) <==> x < |qplace|;
  }

  lemma CurrentOn(place: seq<Place>, queries: seq<seq<nat>>, stale: set<nat>, g: nat)
    requires Current(place, queries, stale) && g < |place| && place[g].On?
    ensures |queries| == |place| && 0 !in stale && g + 1 !in stale
  {
  }

  lemma CurrentSet(place: seq<Place>, queries: seq<seq<nat>>, stale: set<nat>, g: nat, q: seq<nat>)
    requires Current(place, queries, stale) && g < |place| && place[g].On?
    ensures Current(place, queries[g := q], stale)
  {
  }

  lemma CurrentNew(place: seq<Place>, queries: seq<seq<nat>>, stale: set<nat>, g: nat, i: nat)
    requires Current(place, queries, stale) && g < |place|
    ensures Current(place[g := On(i)], queries[g := []], stale - {g + 1})
  {
  }

  lemma CurrentDrop(place: seq<Place>, queries: seq<seq<nat>>, stale: set<nat>, g: nat)
    requires Current(place, queries, stale) && g < |place|
    ensures queries[g] == [] ==> Current(place[g := Free], queries, stale)
    ensures Current(place[g := Free], queries, stale + {g + 1})
  {
  }

  lemma CurrentFree(place: seq<Place>, queries: seq<seq<nat>>, stale: set<nat>)
    requires Current(place, queries, stale)
    ensures 0 !in stale
  {
  }

  ghost function Downstream(ifs: seq<nat>, up: set<nat>): set<nat> {
    set i | i in ifs && i !in up
  }

  /** The parts of the router that a tick changes. */
  datatype Snapshot = Snapshot(place: seq<Place>, grp: seq<Timers>, queries: seq<seq<nat>>, addr: seq<nat>,
                               sent: seq<(nat, nat)>)
  {
    ghost predicate Sound() {
      && |place| == |grp| == |queries| == |addr|
      && States(place, grp, queries) && Once(place, addr)
    }
  }

  /** Group g has been aged once between the two snapshots, and the queries for it have been sent. */
  ghost predicate AgedOnce(c: Config, v: Snapshot, w: Snapshot, g: nat)
    requires v.Sound() && |w.place| == |w.grp| == |w.queries| == |v.place| && g < |v.place| && v.place[g].On?
  {
    StatesOf(v.place, v.grp, v.queries, g);
    && Became(c, v.place[g], v.grp[g], v.queries[g], w.place[g], w.grp[g], w.queries[g])
    && multiset(w.sent)[(v.place[g].i, v.addr[g])] ==
         multiset(v.sent)[(v.place[g].i, v.addr[g])] + Age(c, v.grp[g], |v.queries[g]|).sent
  }

  ghost predicate Untouched(v: Snapshot, w: Snapshot, g: nat)
    requires v.Sound() && |w.place| == |w.grp| == |w.queries| == |v.place| && g < |v.place|
  {
    && w.place[g] == v.place[g] && w.grp[g] == v.grp[g] && w.queries[g] == v.queries[g]
    && (v.place[g].On? ==> multiset(w.sent)[(v.place[g].i, v.addr[g])] == multiset(v.sent)[(v.place[g].i, v.addr[g])])
  }

  /** Every group of the given interfaces has been aged once, and no other has been touched. */
  ghost predicate Ticked(c: Config, v: Snapshot, w: Snapshot, nets: set<nat>) {
    && v.Sound() && w.Sound() && w.addr == v.addr && |w.place| == |v.place|
    && Quiet(v.sent, w.sent, nets)
    && forall g :: 0 <= g < |v.place| ==>
         if v.place[g].On? && v.place[g].i in nets then AgedOnce(c, v, w, g) else Untouched(v, w, g)
  }

  /** Queries have been sent on the given interfaces only. */
  ghost predicate Quiet(s: seq<(nat, nat)>, t: seq<(nat, nat)>, nets: set<nat>) {
    forall p: (nat, nat) :: p.0 !in nets ==> multiset(t)[p] == multiset(s)[p]
  }

  /** The first n groups of interface i have been aged. */
  ghost predicate Halfway(c: Config, v: Snapshot, w: Snapshot, i: nat, list: seq<nat>, n: nat) {
    && v.Sound() && w.Sound() && w.addr == v.addr && |w.place| == |v.place| && n <= |list|
    && Exactly(list, Placed(v.place, On(i)))
    && (forall j :: 0 <= j < n ==> list[j] < |v.place| && v.place[list[j]].On? && AgedOnce(c, v, w, list[j]))
    && (forall j :: n <= j < |list| ==> list[j] < |v.place| && Untouched(v, w, list[j]))
    && (forall g :: 0 <= g < |v.place| && v.place[g] != On(i) ==> Untouched(v, w, g))
    && Quiet(v.sent, w.sent, {i})
  }

  /** How one tick changes a group: place, timers and scheduled queries before and after. */
  ghost predicate Became(c: Config, p: Place, t: Timers, q: seq<nat>, p': Place, t': Timers, q': seq<nat>)
    requires t.state != NoMembers
  {
    match Age(c, t, |q|)
    case Gone(_) => p' == Free
    case Kept(kept, left, _) => p' == p && t' == kept && |q'| == left
  }

  /** What is left to do for a group that has no expired retransmission with a query to send. */
  predicate Ends(t: Timers) {
    match t.state
    case Checking => t.retransmit <= 0
    case _ => t.group <= 0
  }

  function Aging(t: Timers): Timers {
    match t.state
    case Checking => t.(retransmit := t.retransmit - 1)
    case V1Members =>
      if t.v1 <= 0 then t.(state := Members, group := t.group - 1) else t.(v1 := t.v1 - 1, group := t.group - 1)
    case _ => t.(group := t.group - 1)
  }

  /** What TickGroup does to group g and to nothing else. */
  ghost predicate OneTicked(c: Config, v: Snapshot, w: Snapshot, g: nat) {
    && v.Sound() && w.Sound() && w.addr == v.addr && |w.place| == |v.place|
    && g < |v.place| && v.place[g].On? && v.grp[g].state != NoMembers
    && Became(c, v.place[g], v.grp[g], v.queries[g], w.place[g], w.grp[g], w.queries[g])
    && w.sent == v.sent + Copies((v.place[g].i, v.addr[g]), Age(c, v.grp[g], |v.queries[g]|).sent)
    && forall h :: 0 <= h < |v.place| && h != g ==>
         w.place[h] == v.place[h] && w.grp[h] == v.grp[h] && w.queries[h] == v.queries[h]
  }

  lemma {:induction false} CountCopies<T>(s: seq<T>, x: T, n: nat, y: T)
    ensures multiset(s + Copies(x, n))[y] == multiset(s)[y] + if y == x then n else 0
  {
    if n == 0 {
      assert s + Copies(x, n) == s;
    } else {
      CountCopies(s, x, n - 1, y);
      CopiesMore(s, x, n - 1);
    }
  }

  lemma {:induction false} HalfwayStep(c: Config, u: Snapshot, v: Snapshot, w: Snapshot, i: nat, list: seq<nat>, n: nat)
    requires Halfway(c, u, v, i, list, n) && n < |list| && OneTicked(c, v, w, list[n]) && v.place[list[n]] == On(i)
    ensures Halfway(c, u, w, i, list, n + 1)
  {
    hide Became, States, Age, Copies;
    var g := list[n];
    ghost var m := Age(c, v.grp[g], |v.queries[g]|).sent;
    forall h | 0 <= h < |u.place| && u.place[h].On?
      ensures multiset(w.sent)[(u.place[h].i, u.addr[h])] ==
              multiset(v.sent)[(u.place[h].i, u.addr[h])] + if h == g then m else 0
    {
      CountCopies(v.sent, (i, u.addr[g]), m, (u.place[h].i, u.addr[h]));
      OnlyHolder(u.place, u.addr, g);
    }
    forall p: (nat, nat) | p.0 != i ensures multiset(w.sent)[p] == multiset(u.sent)[p] {
      CountCopies(v.sent, (i, u.addr[g]), m, p);
    }
    hide Once;
  }

  /** Interfaces are ticked one after the other. */
  lemma {:induction false} TickedMore(c: Config, u: Snapshot, v: Snapshot, w: Snapshot, nets: set<nat>, i: nat)
    requires Ticked(c, u, v, nets) && Ticked(c, v, w, {i}) && i !in nets
    ensures Ticked(c, u, w, nets + {i})
  {
    hide Once, States, Age, Became;
    forall g | 0 <= g < |u.place|
      ensures if u.place[g].On? && u.place[g].i in nets + {i} then AgedOnce(c, u, w, g) else Untouched(u, w, g)
    {
      if u.place[g].On? && u.place[g].i in nets {
        assert AgedOnce(c, u, v, g);
        BecameStays(c, u.place[g], u.grp[g], u.queries[g], v.place[g], v.grp[g], v.queries[g], i) by {
          StatesOf(u.place, u.grp, u.queries, g);
        }
        assert Untouched(v, w, g);
        assert (u.place[g].i, u.addr[g]).0 != i;
      } else {
        assert Untouched(u, v, g);
      }
    }
  }

  lemma BecameStays(c: Config, p: Place, t: Timers, q: seq<nat>, p': Place, t': Timers, q': seq<nat>, i: nat)
    requires t.state != NoMembers && Became(c, p, t, q, p', t', q') && p != On(i) && p.On?
    ensures p' != On(i)
  {
  }

  lemma {:induction false} TickedNone(c: Config, v: Snapshot)
    requires v.Sound()
    ensures Ticked(c, v, v, {})
  {
  }

  lemma {:induction false} HalfwayStart(c: Config, v: Snapshot, i: nat, list: seq<nat>)
    requires v.Sound() && Exactly(list, Placed(v.place, On(i)))
    requires forall j :: 0 <= j < |list| ==> list[j] < |v.place|
    ensures Halfway(c, v, v, i, list, 0)
  {
  }

  lemma {:induction false} HalfwayDone(c: Config, v: Snapshot, w: Snapshot, i: nat, list: seq<nat>)
    requires Halfway(c, v, w, i, list, |list|)
    ensures Ticked(c, v, w, {i})
  {
    hide AgedOnce, Untouched, States, Once;
    forall g | 0 <= g < |v.place| && v.place[g] == On(i) ensures AgedOnce(c, v, w, g) {
      assert g in Placed(v.place, On(i));
      assert g in list;
    }
  }

  lemma ListOf(place: seq<Place>, free: seq<nat>, db: seq<seq<nat>>, i: nat)
    requires Lists(place, free, db) && i < |db|
    ensures Exactly(db[i], Placed(place, On(i)))
    ensures forall j :: 0 <= j < |db[i]| ==> db[i][j] < |place| && place[db[i][j]] == On(i)
  {
    forall j | 0 <= j < |db[i]| ensures db[i][j] < |place| && place[db[i][j]] == On(i) {
      InDatabase(place, free, db, i, j);
    }
  }

  lemma AgeRest(c: Config, t: Timers, q: nat)
    requires t.state != NoMembers && !(t.state == Checking && t.retransmit <= 0 && q > 0)
    ensures Age(c, t, q) == if Ends(t) then Gone(0) else Kept(Aging(t), q, 0)
  {
  }

  lemma AgeSends(c: Config, t: Timers, q: nat, n: nat)
    requires t.state == Checking && t.retransmit <= 0 && q > 0
    ensures More(n, Age(c, t, q)) == More(n + 1, Age(c, t.(retransmit := c.interval), q - 1))
  {
  }

  function Copies<T>(x: T, n: nat): seq<T> {
    seq(n, _ => x)
  }

  lemma CopiesMore<T>(s: seq<T>, x: T, n: nat)
    ensures s + Copies(x, n) + [x] == s + Copies(x, n + 1)
  {
  }

  lemma StatesOf(place: seq<Place>, grp: seq<Timers>, queries: seq<seq<nat>>, g: nat)
    requires States(place, grp, queries) && g < |place| && place[g].On?
    ensures grp[g].state != NoMembers && (queries[g] != [] ==> grp[g].state == Checking)
  {
  }

  lemma ServedHolders(place: seq<Place>, addr: seq<nat>, ifs: seq<nat>, up: set<nat>, a: nat)
    requires |addr| == |place| && ServedBy(place, ifs, up)
    ensures forall i :: i in Holders(place, addr, a) ==> i in ifs && i !in up
  {
  }

  lemma StatesDrop(place: seq<Place>, grp: seq<Timers>, queries: seq<seq<nat>>, g: nat, t: Timers)
    requires States(place, grp, queries) && g < |place|
    ensures States(place[g := Free], grp[g := t], queries)
  {
  }

  lemma NobodyOn(place: seq<Place>, free: seq<nat>, db: seq<seq<nat>>, i: nat)
    requires Lists(place, free, db) && i < |db| && db[i] == []
    ensures forall g :: 0 <= g < |place| ==> place[g] != On(i)
  {
    assert Exactly(db[i], Placed(place, On(i)));
    forall g | 0 <= g < |place| ensures place[g] != On(i) {
      assert g !in Placed(place, On(i));
    }
  }

  lemma StoppedHolders(place: seq<Place>, addr: seq<nat>, ifs: seq<nat>, up: set<nat>, i: nat, g: nat)
    requires |addr| == |place| && ServedBy(place, [i] + ifs, up) && Once(place, addr) && g < |place|
    requires place[g] == On(i)
    ensures forall j :: j in Holders(place[g := Free], addr, addr[g]) ==> j in ifs && j !in up
  {
    HoldersDrop(place, addr, g, addr[g]);
  }

  lemma NobodyHolds(place: seq<Place>, addr: seq<nat>, i: nat, a: nat)
    requires |addr| == |place| && i !in Holders(place, addr, a)
    ensures forall h :: 0 <= h < |place| && place[h] == On(i) ==> addr[h] != a
  {
  }

  lemma OnlyHolder(place: seq<Place>, addr: seq<nat>, g: nat)
    requires |addr| == |place| && Once(place, addr) && g < |place| && place[g].On?
    ensures forall h :: 0 <= h < |place| && place[h] == place[g] && addr[h] == addr[g] ==> h == g
  {
  }

  lemma StatesNoQueries(place: seq<Place>, grp: seq<Timers>, queries: seq<seq<nat>>, g: nat)
    requires States(place, grp, queries) && g < |place| && place[g].On? && grp[g].state != Checking
    ensures queries[g] == []
  {
  }

  lemma StatesSet(place: seq<Place>, grp: seq<Timers>, queries: seq<seq<nat>>, g: nat, t: Timers, q: seq<nat>)
    requires States(place, grp, queries) && g < |place| && t.state != NoMembers && (q != [] ==> t.state == Checking)
    ensures States(place, grp[g := t], queries[g := q])
  {
  }

  lemma StatesNew(place: seq<Place>, grp: seq<Timers>, queries: seq<seq<nat>>, g: nat, i: nat, t: Timers)
    requires States(place, grp, queries) && g < |place| && t.state != NoMembers
    ensures States(place[g := On(i)], grp[g := t], queries[g := []])
  {
  }

  /** A new holder changes the mirror at its own address only. */
  lemma {:induction false} MirrorAdd(place: seq<Place>, addr: seq<nat>, vif: seq<nat>, mfc: map<nat, seq<nat>>,
                                     joined: map<nat, set<nat>>,
                                     g: nat, i: nat, a: nat, mfc': map<nat, seq<nat>>, joined': map<nat, set<nat>>)
    requires |addr| == |place| && Known(place, |vif|) && Mirror(place, addr, vif, mfc, joined)
    requires g < |place| && place[g].Free? && i < |vif| && Known(place[g := On(i)], |vif|)
    requires (KnownHolders(place[g := On(i)], addr[g := a], |vif|, a);
              mfc' == mfc[a := Ttls(vif, Holders(place[g := On(i)], addr[g := a], a))])
    requires joined'.Keys == joined.Keys && forall u :: u in joined' ==> joined'[u] == joined[u] + {a}
    ensures Mirror(place[g := On(i)], addr[g := a], vif, mfc', joined')
  {
    hide Ttls, Holders;
    var p', a' := place[g := On(i)], addr[g := a];
    forall b: nat {:trigger b in mfc'} {:trigger Holders(p', a', b)}
      ensures (b in mfc' <==> Holders(p', a', b) != {}) &&
              (b in mfc' ==> (KnownHolders(p', a', |vif|, b); mfc'[b] == Ttls(vif, Holders(p', a', b))))
    {
      HoldersAdd(place, addr, g, i, a, b);
      KnownHolders(place, addr, |vif|, b);
      KnownHolders(p', a', |vif|, b);
      if b == a {
        assert i in Holders(p', a', b);
      } else {
        assert Holders(p', a', b) == Holders(place, addr, b);
      }
    }
    assert mfc'.Keys == mfc.Keys + {a};
  }

  /** A holder that leaves changes the mirror at its own address only. */
  lemma {:induction false} MirrorDrop(place: seq<Place>, addr: seq<nat>, vif: seq<nat>, mfc: map<nat, seq<nat>>,
                                      joined: map<nat, set<nat>>,
                                      g: nat, mfc': map<nat, seq<nat>>, joined': map<nat, set<nat>>)
    requires |addr| == |place| && Known(place, |vif|) && Mirror(place, addr, vif, mfc, joined)
    requires g < |place| && place[g].On? && Once(place, addr) && Known(place[g := Free], |vif|)
    requires joined'.Keys == joined.Keys
    requires Holders(place[g := Free], addr, addr[g]) == {} ==>
      mfc' == mfc - {addr[g]} && forall u :: u in joined' ==> joined'[u] == joined[u] - {addr[g]}
    requires Holders(place[g := Free], addr, addr[g]) != {} ==>
      (KnownHolders(place[g := Free], addr, |vif|, addr[g]);
       joined' == joined && mfc' == mfc[addr[g] := Ttls(vif, Holders(place[g := Free], addr, addr[g]))])
    ensures Mirror(place[g := Free], addr, vif, mfc', joined')
  {
    hide Ttls, Holders, Once;
    var p', a := place[g := Free], addr[g];
    forall b: nat {:trigger b in mfc'} {:trigger Holders(p', addr, b)}
      ensures (b in mfc' <==> Holders(p', addr, b) != {}) &&
              (b in mfc' ==> (KnownHolders(p', addr, |vif|, b); mfc'[b] == Ttls(vif, Holders(p', addr, b))))
    {
      HoldersDrop(place, addr, g, b);
      KnownHolders(place, addr, |vif|, b);
      KnownHolders(p', addr, |vif|, b);
      if b != a {
        assert Holders(p', addr, b) == Holders(place, addr, b);
      }
    }
    HolderItself(place, addr, g);
    if Holders(p', addr, a) == {} {
      assert mfc'.Keys == mfc.Keys - {a};
    } else {
      assert mfc'.Keys == mfc.Keys;
    }
  }

  lemma HolderItself(place: seq<Place>, addr: seq<nat>, g: nat)
    requires |addr| == |place| && g < |place| && place[g].On?
    ensures place[g].i in Holders(place, addr, addr[g])
  {
  }

  lemma NotHeld(place: seq<Place>, free: seq<nat>, db: seq<seq<nat>>, addr: seq<nat>, i: nat, a: nat)
    requires Lists(place, free, db) && |addr| == |place| && i < |db|
    requires forall j :: 0 <= j < |db[i]| ==> db[i][j] < |addr| && addr[db[i][j]] != a
    ensures i !in Holders(place, addr, a)
  {
    forall h | 0 <= h < |place| && place[h] == On(i) ensures addr[h] != a {
      assert h in Placed(place, On(i));
      assert h in db[i];
    }
  }

  lemma TtlsMore(vif: seq<nat>, s: set<nat>, i: nat)
    requires i < |vif| && vif[i] < MAXVIFS && forall j :: j in s ==> j < |vif|
    ensures Ttls(vif, s + {i}) == Ttls(vif, s)[vif[i] := 1]
  {
    var t := Ttls(vif, s + {i});
    forall v | 0 <= v < MAXVIFS ensures t[v] == Ttls(vif, s)[vif[i] := 1][v] {
      if v == vif[i] {
        assert i in s + {i} && vif[i] == v;
      } else if exists j :: j in s && vif[j] == v {
        var j :| j in s && vif[j] == v;
        assert j in s + {i};
      }
    }
  }
}
