/** Fixed pools of nodes that are always on exactly one list, and the forwarding entries that mirror them. */
module IgmpPool {

  /** The list a node is on: the free list, or the list that belongs to i. */
  datatype Place = Free | On(i: nat)

  ghost predicate NoRepeat(s: seq<nat>) {
    forall i, j :: 0 <= i < j < |s| ==> s[i] != s[j]
  }

  /** The list s holds exactly the nodes in S, each once. */
  ghost predicate Exactly(s: seq<nat>, S: set<nat>) {
    NoRepeat(s) && forall x :: x in s <==> x in S
  }

  ghost function Placed(place: seq<Place>, p: Place): set<nat> {
    set g | 0 <= g < |place| && place[g] == p
  }

  lemma ExactlyCons(s: seq<nat>, S: set<nat>, x: nat)
    requires Exactly(s, S) && x !in S
    ensures Exactly([x] + s, S + {x})
  {
    var t := [x] + s;
    forall i, j | 0 <= i < j < |t| ensures t[i] != t[j] {
      assert t[j] == s[j - 1] && t[j] in s;
    }
  }

  lemma ExactlyWithout(s: seq<nat>, S: set<nat>, k: nat)
    requires Exactly(s, S) && k < |s|
    ensures Exactly(s[..k] + s[k + 1..], S - {s[k]}) && s[k] in S
  {
    var t := s[..k] + s[k + 1..];
    assert s == s[..k] + [s[k]] + s[k + 1..];
    assert forall i :: 0 <= i < |t| ==> t[i] == if i < k then s[i] else s[i + 1];
    forall i, j | 0 <= i < j < |t| ensures t[i] != t[j] {
    }
    forall i | 0 <= i < |t| ensures t[i] != s[k] {
    }
    forall x | x in S - {s[k]} ensures x in t {
      assert x in s;
    }
  }

  lemma ExactlyTail(s: seq<nat>, S: set<nat>)
    requires Exactly(s, S) && s != []
    ensures Exactly(s[1..], S - {s[0]}) && s[0] in S
  {
    ExactlyWithout(s, S, 0);
    assert s[..0] + s[1..] == s[1..];
  }

  lemma ExactlyCat(s: seq<nat>, S: set<nat>, t: seq<nat>, T: set<nat>)
    requires Exactly(s, S) && Exactly(t, T) && S !! T
    ensures Exactly(s + t, S + T)
  {
    var all := s + t;
    forall i, j | 0 <= i < j < |all| ensures all[i] != all[j] {
      if i < |s| <= j {
        assert all[i] in s && all[j] in t;
      }
    }
  }

  lemma PlacedMove(place: seq<Place>, g: nat, p: Place, q: Place)
    requires g < |place|
    ensures Placed(place[g := p], q) ==
      if q == p then Placed(place, q) + {g} else Placed(place, q) - {g}
  {
  }

  lemma PlacedApart(place: seq<Place>, p: Place, q: Place)
    requires p != q
    ensures Placed(place, p) !! Placed(place, q)
  {
  }

  /** All nodes on list p move to list q. */
  ghost function MoveAll(place: seq<Place>, p: Place, q: Place): (r: seq<Place>)
    ensures |r| == |place|
  {
    seq(|place|, g requires 0 <= g < |place| => if place[g] == p then q else place[g])
  }

  lemma PlacedMoveAll(place: seq<Place>, p: Place, q: Place, r: Place)
    requires p != q
    ensures Placed(MoveAll(place, p, q), r) ==
      if r == p then {} else if r == q then Placed(place, p) + Placed(place, q) else Placed(place, r)
  {
  }

  // ---- who holds an address ----

  /** The interfaces on whose lists a node with address a stands. */
  ghost function Holders(place: seq<Place>, addr: seq<nat>, a: nat): set<nat>
    requires |addr| == |place|
  {
    set g | 0 <= g < |place| && place[g].On? && addr[g] == a :: place[g].i
  }

  /** No list holds an address twice. */
  ghost predicate Once(place: seq<Place>, addr: seq<nat>)
    requires |addr| == |place|
  {
    forall g, h :: 0 <= g < h < |place| && place[g].On? && place[g] == place[h] ==> addr[g] != addr[h]
  }

  lemma HoldersAdd(place: seq<Place>, addr: seq<nat>, g: nat, i: nat, a: nat, b: nat)
    requires |addr| == |place| && g < |place| && place[g].Free?
    ensures Holders(place[g := On(i)], addr[g := a], b) == Holders(place, addr, b) + if b == a then {i} else {}
  {
    var p', a' := place[g := On(i)], addr[g := a];
    forall x | x in Holders(place, addr, b) ensures x in Holders(p', a', b) {
      var h :| 0 <= h < |place| && place[h].On? && addr[h] == b && place[h].i == x;
      assert p'[h] == place[h] && a'[h] == b;
    }
    forall x | x in Holders(p', a', b) ensures x in Holders(place, addr, b) || (b == a && x == i) {
      var h :| 0 <= h < |place| && p'[h].On? && a'[h] == b && p'[h].i == x;
      if h != g {
        assert place[h] == p'[h] && addr[h] == b;
      }
    }
    if b == a {
      assert p'[g] == On(i) && a'[g] == b;
    }
  }

  lemma HoldersDrop(place: seq<Place>, addr: seq<nat>, g: nat, b: nat)
    requires |addr| == |place| && g < |place| && place[g].On? && Once(place, addr)
    ensures Holders(place[g := Free], addr, b) == Holders(place, addr, b) - if b == addr[g] then {place[g].i} else {}
  {
    var p' := place[g := Free];
    forall x | x in Holders(place, addr, b) && !(b == addr[g] && x == place[g].i) ensures x in Holders(p', addr, b) {
      var h :| 0 <= h < |place| && place[h].On? && addr[h] == b && place[h].i == x;
      assert h != g;
      assert p'[h] == place[h];
    }
    forall x | x in Holders(p', addr, b) ensures x in Holders(place, addr, b) && !(b == addr[g] && x == place[g].i) {
      var h :| 0 <= h < |place| && p'[h].On? && addr[h] == b && p'[h].i == x;
      assert h != g && place[h] == p'[h];
    }
  }

  lemma OnceAdd(place: seq<Place>, addr: seq<nat>, g: nat, i: nat, a: nat)
    requires |addr| == |place| && g < |place| && Once(place, addr) && i !in Holders(place, addr, a) && place[g].Free?
    ensures Once(place[g := On(i)], addr[g := a])
  {
    var p', a' := place[g := On(i)], addr[g := a];
    forall x, y | 0 <= x < y < |place| && p'[x].On? && p'[x] == p'[y] ensures a'[x] != a'[y] {
      if x == g {
        assert place[y] == On(i) ==> addr[y] != a;
      } else if y == g {
        assert place[x] == On(i) ==> addr[x] != a;
      }
    }
  }

  lemma OnceDrop(place: seq<Place>, addr: seq<nat>, g: nat)
    requires |addr| == |place| && g < |place| && Once(place, addr)
    ensures Once(place[g := Free], addr)
  {
  }

  // ---- the kernel's view ----

  const MAXVIFS: nat := 32

  /** The TTL thresholds of a forwarding entry: 1 forwards to the virtual interface, 255 does not. */
  ghost function Ttls(vif: seq<nat>, holders: set<nat>): (r: seq<nat>)
    requires forall i :: i in holders ==> i < |vif|
    ensures |r| == MAXVIFS
  {
    seq(MAXVIFS, v requires 0 <= v < MAXVIFS => if exists i :: i in holders && vif[i] == v then 1 else 255)
  }

  ghost predicate Known(place: seq<Place>, n: nat) {
    forall g :: 0 <= g < |place| && place[g].On? ==> place[g].i < n
  }

  lemma KnownHolders(place: seq<Place>, addr: seq<nat>, n: nat, a: nat)
    requires |addr| == |place| && Known(place, n)
    ensures forall i :: i in Holders(place, addr, a) ==> i < n
  {
  }

  /** Forwarding entries and upstream memberships say exactly which interfaces hold each address. */
  ghost predicate Mirror(place: seq<Place>, addr: seq<nat>, vif: seq<nat>, mfc: map<nat, seq<nat>>, joined: map<nat,
                         set<nat>>)
    requires |addr| == |place| && Known(place, |vif|)
  {
    && (forall a {:trigger a in mfc} {:trigger Holders(place, addr, a)} ::
          (a in mfc <==> Holders(place, addr, a) != {}) &&
          (a in mfc ==> (KnownHolders(place, addr, |vif|, a); mfc[a] == Ttls(vif, Holders(place, addr, a)))))
    && (forall u :: u in joined ==> joined[u] == mfc.Keys)
  }

  // ---- groups and their queries ----

  /** Every group is on the free list or in the database of exactly one interface. */
  ghost predicate Lists(place: seq<Place>, free: seq<nat>, db: seq<seq<nat>>) {
    && Exactly(free, Placed(place, Free))
    && (forall i :: 0 <= i < |db| ==> Exactly(db[i], Placed(place, On(i))))
    && Known(place, |db|)
  }

  lemma {:induction false} Allocate(place: seq<Place>, free: seq<nat>, db: seq<seq<nat>>, i: nat)
    requires Lists(place, free, db) && free != [] && i < |db|
    ensures free[0] < |place| && place[free[0]].Free?
    ensures Lists(place[free[0] := On(i)], free[1..], db[i := [free[0]] + db[i]])
  {
    hide Exactly;
    var g := free[0];
    ExactlyTail(free, Placed(place, Free));
    var p', db' := place[g := On(i)], db[i := [g] + db[i]];
    PlacedMove(place, g, On(i), Free);
    forall j | 0 <= j < |db| ensures Exactly(db'[j], Placed(p', On(j))) {
      PlacedMove(place, g, On(i), On(j));
      PlacedApart(place, Free, On(j));
      if j == i {
        ExactlyCons(db[i], Placed(place, On(i)), g);
      } else {
        assert Placed(place, On(j)) - {g} == Placed(place, On(j));
      }
    }
  }

  lemma {:induction false} Release(place: seq<Place>, free: seq<nat>, db: seq<seq<nat>>, i: nat, k: nat)
    requires Lists(place, free, db) && i < |db| && k < |db[i]|
    ensures db[i][k] < |place| && place[db[i][k]] == On(i)
    ensures Lists(place[db[i][k] := Free], [db[i][k]] + free, db[i := db[i][..k] + db[i][k + 1..]])
  {
    hide Exactly;
    var g := db[i][k];
    ExactlyWithout(db[i], Placed(place, On(i)), k);
    var p', db' := place[g := Free], db[i := db[i][..k] + db[i][k + 1..]];
    PlacedMove(place, g, Free, Free);
    PlacedApart(place, Free, On(i));
    ExactlyCons(free, Placed(place, Free), g);
    forall j | 0 <= j < |db| ensures Exactly(db'[j], Placed(p', On(j))) {
      PlacedMove(place, g, Free, On(j));
      if j != i {
        PlacedApart(place, On(i), On(j));
        assert Placed(place, On(j)) - {g} == Placed(place, On(j));
      }
    }
  }

  lemma InDatabase(place: seq<Place>, free: seq<nat>, db: seq<seq<nat>>, i: nat, k: nat)
    requires Lists(place, free, db) && i < |db| && k < |db[i]|
    ensures db[i][k] < |place| && place[db[i][k]] == On(i)
  {
    assert db[i][k] in db[i];
  }

  /** Every query is on the free list or scheduled for exactly one group of a database. */
  ghost predicate QueryLists(place: seq<Place>, qplace: seq<Place>, free: seq<nat>, queries: seq<seq<nat>>) {
    && |queries| == |place| && Known(qplace, |place|)
    && Exactly(free, Placed(qplace, Free))
    && (forall g :: 0 <= g < |place| ==>
          if place[g].On? then Exactly(queries[g], Placed(qplace, On(g))) else Placed(qplace, On(g)) == {})
  }

  lemma {:induction false} Schedule(place: seq<Place>, qplace: seq<Place>, free: seq<nat>, queries: seq<seq<nat>>,
                                    g: nat)
    requires QueryLists(place, qplace, free, queries) && free != [] && g < |place| && place[g].On?
    ensures free[0] < |qplace|
    ensures QueryLists(place, qplace[free[0] := On(g)], free[1..], queries[g := [free[0]] + queries[g]])
  {
    hide Exactly;
    var q := free[0];
    ExactlyTail(free, Placed(qplace, Free));
    var qp', qs' := qplace[q := On(g)], queries[g := [q] + queries[g]];
    PlacedMove(qplace, q, On(g), Free);
    forall h | 0 <= h < |place|
      ensures if place[h].On? then Exactly(qs'[h], Placed(qp', On(h))) else Placed(qp', On(h)) == {}
    {
      PlacedMove(qplace, q, On(g), On(h));
      PlacedApart(qplace, Free, On(h));
      if h == g {
        ExactlyCons(queries[g], Placed(qplace, On(g)), q);
      } else {
        assert Placed(qplace, On(h)) - {q} == Placed(qplace, On(h));
      }
    }
  }

  lemma {:induction false} SendFirst(place: seq<Place>, qplace: seq<Place>, free: seq<nat>, queries: seq<seq<nat>>,
                                     g: nat)
    requires QueryLists(place, qplace, free, queries) && g < |place| && place[g].On? && queries[g] != []
    ensures queries[g][0] < |qplace|
    ensures QueryLists(place, qplace[queries[g][0] := Free], [queries[g][0]] + free, queries[g := queries[g][1..]])
  {
    hide Exactly;
    var q := queries[g][0];
    ExactlyTail(queries[g], Placed(qplace, On(g)));
    var qp', qs' := qplace[q := Free], queries[g := queries[g][1..]];
    PlacedMove(qplace, q, Free, Free);
    PlacedApart(qplace, Free, On(g));
    ExactlyCons(free, Placed(qplace, Free), q);
    forall h | 0 <= h < |place|
      ensures if place[h].On? then Exactly(qs'[h], Placed(qp', On(h))) else Placed(qp', On(h)) == {}
    {
      PlacedMove(qplace, q, Free, On(h));
      if h != g {
        PlacedApart(qplace, On(g), On(h));
        assert Placed(qplace, On(h)) - {q} == Placed(qplace, On(h));
      }
    }
  }

  /** list_cat of a group's queries to the free list: they leave the group, whether it stays with an empty list or
      goes with a head pointer that is left over. */
  lemma {:induction false} Cancel(place: seq<Place>, qplace: seq<Place>, free: seq<nat>, queries: seq<seq<nat>>, g: nat)
    requires QueryLists(place, qplace, free, queries) && g < |place| && place[g].On?
    ensures var qp' := MoveAll(qplace, On(g), Free);
      && QueryLists(place, qp', free + queries[g], queries[g := []])
      && QueryLists(place[g := Free], qp', free + queries[g], queries)
  {
    hide Exactly;
    var qp' := MoveAll(qplace, On(g), Free);
    PlacedMoveAll(qplace, On(g), Free, Free);
    PlacedApart(qplace, Free, On(g));
    ExactlyCat(free, Placed(qplace, Free), queries[g], Placed(qplace, On(g)));
    assert Placed(qp', Free) == Placed(qplace, Free) + Placed(qplace, On(g));
    NothingExactly();
    forall h | 0 <= h < |place|
      ensures Placed(qp', On(h)) == if h == g then {} else Placed(qplace, On(h))
    {
      PlacedMoveAll(qplace, On(g), Free, On(h));
    }
  }

  lemma NothingExactly()
    ensures Exactly([], {})
  {
  }

  /** Groups come and go without queries. */
  lemma {:induction false} QueriesOfNew(place: seq<Place>, qplace: seq<Place>, free: seq<nat>, queries: seq<seq<nat>>,
                                        g: nat, i: nat)
    requires QueryLists(place, qplace, free, queries) && g < |place| && place[g].Free?
    ensures QueryLists(place[g := On(i)], qplace, free, queries[g := []])
  {
    hide Exactly, Placed;
    NothingExactly();
  }

  lemma {:induction false} QueriesOfOld(place: seq<Place>, qplace: seq<Place>, free: seq<nat>, queries: seq<seq<nat>>,
                                        g: nat)
    requires QueryLists(place, qplace, free, queries) && g < |place| && place[g].On? && queries[g] == []
    ensures QueryLists(place[g := Free], qplace, free, queries)
  {
    hide Placed;
    assert Placed(qplace, On(g)) == {};
  }
}
