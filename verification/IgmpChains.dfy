/** A fixed pool of nodes, and the list heads of the proxy that thread them: the free list and the lists that belong to
    interfaces or groups. */
module IgmpChains {
  import opened IgmpLists

  /** The free list after list_add of nodes 0, 1, ... */
  function Countdown(n: nat): (s: seq<nat>)
    ensures |s| == n && forall i :: 0 <= i < n ==> s[i] == n - 1 - i
  {
    seq(n, i requires 0 <= i < n => n - 1 - i)
  }

  /** The loops of main that allocate nodes and add them to a free list. */
  method Preallocate(n: nat) returns (nodes: seq<Node>, head: Node?, ghost s: seq<Node>)
    ensures |nodes| == |s| == n && fresh(nodes) && IsList(head, s)
    ensures forall k :: 0 <= k < n ==> nodes[k].id == k && s[k] == nodes[n - 1 - k]
  {
    nodes, head, s := [], null, [];
    for i := 0 to n
      invariant |nodes| == |s| == i && fresh(nodes) && IsList(head, s)
      invariant forall k :: 0 <= k < i ==> nodes[k].id == k && s[k] == nodes[i - 1 - k]
    {
      var node := new Node(i);
      head := ListAdd(head, node, s);
      nodes, s := nodes + [node], [node] + s;
    }
  }

  class Chains {
    const nodes: seq<Node>
    ghost const repr: set<Node>
    var heads: seq<Node?>
    /** What each list holds, by node number. */
    ghost var lists: seq<seq<nat>>
    /** Lists whose head pointer is left over from a former use. */
    ghost var stale: set<nat>

    /** n nodes, all on list 0, and m further lists. */
    constructor (n: nat, m: nat)
      ensures Valid() && |nodes| == n && fresh(repr) && stale == {}
      ensures lists == [Countdown(n)] + seq(m, _ => [])
    {
      var built, head, s := Preallocate(n);
      nodes := built;
      repr := set n | n in built;
      heads := [head] + seq(m, _ => null);
      lists := [Countdown(n)] + seq(m, _ => []);
      stale := {};
      new;
      assert Pick(Countdown(n)) == s;
      forall l | 0 <= l < |lists| ensures Threaded(l) {
        assert l > 0 ==> lists[l] == [] && heads[l] == null;
      }
    }

    ghost predicate Known(s: seq<nat>) {
      forall k :: 0 <= k < |s| ==> s[k] < |nodes|
    }

    ghost function Pick(s: seq<nat>): (r: seq<Node>)
      requires Known(s)
      ensures |r| == |s| && forall k {:trigger r[k]} :: 0 <= k < |s| ==> r[k] == nodes[s[k]]
    {
      seq(|s|, k requires 0 <= k < |s| => nodes[s[k]])
    }

    ghost predicate Numbered() {
      forall k :: 0 <= k < |nodes| ==> nodes[k].id == k && nodes[k] in repr
    }

    /** The head pointer of list l leads through exactly its nodes, in order and without a cycle. */
    ghost predicate Threaded(l: nat)
      requires l < |heads| && l < |lists|
      reads this, repr
    {
      Numbered() && Known(lists[l]) && IsList(heads[l], Pick(lists[l]))
    }

    ghost predicate Valid()
      reads this, repr
    {
      Numbered() && |heads| == |lists| && forall l :: 0 <= l < |lists| && l !in stale ==> Threaded(l)
    }

    /** No other list shares a node with list l. */
    ghost predicate Apart(l: nat)
      reads this
    {
      l < |lists| && forall m, x :: 0 <= m < |lists| && m !in stale && m != l && x in lists[l] ==> x !in lists[m]
    }

    /** Node x is on no list. */
    ghost predicate Off(x: nat)
      reads this
    {
      forall m :: 0 <= m < |lists| && m !in stale ==> x !in lists[m]
    }

    lemma Foreign(s: seq<nat>, t: seq<nat>)
      requires Numbered() && Known(s) && Known(t) && forall x :: x in s ==> x !in t
      ensures forall n :: n in Pick(s) ==> n !in Pick(t)
      ensures var r := Pick(t); forall j {:trigger r[j]} :: 0 <= j < |r| ==> r[j] !in Pick(s)
    {
      forall i, j | 0 <= i < |s| && 0 <= j < |t| ensures Pick(s)[i] != Pick(t)[j] {
        assert s[i] in s && t[j] in t;
        assert nodes[s[i]].id != nodes[t[j]].id;
      }
    }

    lemma Unpicked(s: seq<nat>, x: nat)
      requires Numbered() && Known(s) && x < |nodes| && x !in s
      ensures nodes[x] !in Pick(s)
    {
      forall i | 0 <= i < |s| ensures Pick(s)[i] != nodes[x] {
        assert s[i] in s;
        assert nodes[s[i]].id != nodes[x].id;
      }
    }

    lemma PickTail(s: seq<nat>)
      requires Known(s) && s != []
      ensures Known(s[1..]) && Pick(s)[1..] == Pick(s[1..])
    {
    }

    lemma PickCons(x: nat, s: seq<nat>)
      requires Known(s) && x < |nodes|
      ensures Known([x] + s) && Pick([x] + s) == [nodes[x]] + Pick(s)
    {
    }

    lemma PickCat(s: seq<nat>, t: seq<nat>)
      requires Known(s) && Known(t)
      ensures Known(s + t) && Pick(s + t) == Pick(s) + Pick(t)
    {
    }

    lemma PickWithout(s: seq<nat>, k: nat)
      requires Known(s) && k < |s|
      ensures Known(s[..k] + s[k + 1..]) && Pick(s[..k] + s[k + 1..]) == Without(Pick(s), k)
    {
    }

    lemma FirstOnce(s: seq<nat>)
      requires Known(s) && s != [] && Distinct(Pick(s))
      ensures s[0] !in s[1..]
    {
      forall k | 1 <= k < |s| ensures s[k] != s[0] {
        assert Pick(s)[0] != Pick(s)[k];
      }
    }

    /** list_get_head */
    method Head(l: nat) returns (x: int)
      requires Valid() && l < |lists| && l !in stale
      ensures x == if lists[l] == [] then -1 else lists[l][0]
    {
      assert Threaded(l);
      var head := heads[l];
      if head == null {
        return -1;
      }
      assert head == Pick(lists[l])[0];
      x := head.id;
    }

    /** list_get_next of the node at position k of list l. */
    method Next(l: nat, x: nat, ghost k: nat) returns (y: int)
      requires Valid() && l < |lists| && l !in stale && k < |lists[l]| && lists[l][k] == x < |nodes|
      ensures y == if k + 1 < |lists[l]| then lists[l][k + 1] else -1
    {
      assert Threaded(l);
      ghost var s := Pick(lists[l]);
      assert s[k] == nodes[x] && s[k].next == if k + 1 < |s| then s[k + 1] else null;
      var next := nodes[x].next;
      if next == null {
        return -1;
      }
      y := next.id;
    }

    /** list_remove: takes the first node off list l. */
    method Pop(l: nat) returns (x: int)
      requires Valid() && l < |lists| && l !in stale && Apart(l)
      modifies `heads, `lists, repr
      ensures Valid()
      ensures old(lists)[l] == [] ==> x == -1 && lists == old(lists)
      ensures old(lists)[l] != [] ==>
        x == old(lists)[l][0] && x < |nodes| && lists == old(lists)[l := old(lists)[l][1..]] && Off(x)
      ensures Apart(l)
    {
      assert Threaded(l);
      ghost var s := lists[l];
      if s != [] {
        assert heads[l] == Pick(s)[0];
        FirstOnce(s);
        PickTail(s);
      }
      var node, head := ListRemove(heads[l], Pick(s));
      if node == null {
        return -1;
      }
      forall m | 0 <= m < |lists| && m !in stale && m != l ensures Threaded(m) && s[0] !in lists[m] {
        assert s[0] in s && s[0] !in lists[m];
        Unpicked(lists[m], s[0]);
      }
      heads := heads[l := head];
      lists := lists[l := s[1..]];
      assert forall y :: y in s[1..] ==> y in s;
      x := node.id;
    }

    /** list_add of a node that is on no list. */
    method Push(l: nat, x: nat)
      requires Valid() && l < |lists| && l !in stale && x < |nodes| && Off(x)
      modifies `heads, `lists, repr
      ensures Valid() && lists == old(lists)[l := [x] + old(lists)[l]]
    {
      forall m | 0 <= m < |lists| && m !in stale ensures nodes[x] !in Pick(lists[m]) {
        assert Threaded(m);
        Unpicked(lists[m], x);
      }
      PickCons(x, lists[l]);
      var head := ListAdd(heads[l], nodes[x], Pick(lists[l]));
      heads := heads[l := head];
      lists := lists[l := [x] + lists[l]];
    }

    /** list_remove_node of the node at position k of list l. */
    method Unlink(l: nat, x: nat, ghost k: nat)
      requires Valid() && l < |lists| && l !in stale && Apart(l) && k < |lists[l]| && lists[l][k] == x < |nodes|
      modifies `heads, `lists, repr
      ensures Valid() && Off(x)
      ensures lists == old(lists)[l := old(lists)[l][..k] + old(lists)[l][k + 1..]]
    {
      assert Threaded(l);
      ghost var s := lists[l];
      OnceOnly(s, k);
      PickWithout(s, k);
      var head := ListRemoveNode(heads[l], nodes[x], Pick(s), k);
      forall m | 0 <= m < |lists| && m !in stale && m != l ensures Threaded(m) && x !in lists[m] {
        assert old(Threaded(m));
        assert x in s;
        Foreign(s, lists[m]);
      }
      heads := heads[l := head];
      lists := lists[l := s[..k] + s[k + 1..]];
    }

    lemma OnceOnly(s: seq<nat>, k: nat)
      requires Known(s) && k < |s| && Distinct(Pick(s))
      ensures s[k] !in s[..k] + s[k + 1..]
    {
      forall j | 0 <= j < |s| && j != k ensures s[j] != s[k] {
        assert Pick(s)[j] != Pick(s)[k];
      }
    }

    /** list_remove from list l and list_add to list m. */
    method Move(l: nat, m: nat) returns (x: int)
      requires Valid() && l < |lists| && l !in stale && m < |lists| && m !in stale && l != m && Apart(l)
      modifies `heads, `lists, repr
      ensures Valid()
      ensures old(lists)[l] == [] ==> x == -1 && lists == old(lists)
      ensures old(lists)[l] != [] ==>
        && x == old(lists)[l][0] && x < |nodes|
        && lists == old(lists)[l := old(lists)[l][1..]][m := [x] + old(lists)[m]]
    {
      hide Chains.Valid, Chains.Apart, Chains.Off;
      x := Pop(l);
      if x >= 0 {
        Push(m, x);
      }
    }

    /** list_remove_node of the node at position k of list l, and list_add to list m. */
    method MoveNode(l: nat, x: nat, ghost k: nat, m: nat)
      requires Valid() && l < |lists| && l !in stale && m < |lists| && m !in stale && l != m && Apart(l)
      requires k < |lists[l]| && lists[l][k] == x < |nodes|
      modifies `heads, `lists, repr
      ensures Valid()
      ensures lists == old(lists)[l := old(lists)[l][..k] + old(lists)[l][k + 1..]][m := [x] + old(lists)[m]]
    {
      hide Chains.Valid, Chains.Apart, Chains.Off;
      Unlink(l, x, k);
      Push(m, x);
    }

    /** list_cat of list m to list l; the head pointer of m is left as it was. */
    method Cat(l: nat, m: nat)
      requires Valid() && l < |lists| && m < |lists| && l != m && l !in stale && m !in stale && Apart(l)
      modifies `heads, `lists, `stale, repr
      ensures Valid() && lists == old(lists)[l := old(lists)[l] + old(lists)[m]] && stale == old(stale) + {m}
    {
      assert Threaded(l) && Threaded(m);
      ghost var s, t := lists[l], lists[m];
      PickCat(s, t);
      Foreign(s, t);
      var head := ListCat(heads[l], heads[m], Pick(s), Pick(t));
      forall i | 0 <= i < |lists| && i !in stale && i != l && i != m ensures Threaded(i) {
        assert old(Threaded(i));
        Foreign(s, lists[i]);
      }
      heads := heads[l := head];
      lists := lists[l := s + t];
      stale := stale + {m};
      assert Threaded(l);
    }

    /** A head pointer is set to NULL, whatever it was. */
    method Reset(l: nat)
      requires Valid() && l < |lists|
      modifies `heads, `lists, `stale
      ensures Valid() && lists == old(lists)[l := []] && stale == old(stale) - {l}
    {
      heads := heads[l := null];
      lists := lists[l := []];
      stale := stale - {l};
    }

    /** The nodes of list l in order. */
    method Walk(l: nat) returns (s: seq<nat>)
      requires Valid() && l < |lists| && l !in stale
      ensures s == lists[l]
    {
      assert Threaded(l);
      var x := Head(l);
      s := [];
      while x >= 0
        invariant |s| <= |lists[l]| && s == lists[l][..|s|]
        invariant x == if |s| < |lists[l]| then lists[l][|s|] else -1
        decreases |lists[l]| - |s|
      {
        var y := Next(l, x, |s|);
        s := s + [x];
        x := y;
      }
    }

    /** Takes everything off list l, one node after the other. */
    method Drain(l: nat) returns (s: seq<nat>)
      requires Valid() && l < |lists| && l !in stale && Apart(l)
      modifies `heads, `lists, repr
      ensures Valid() && s == old(lists)[l] && lists == old(lists)[l := []]
    {
      hide Chains.Valid, Chains.Apart, Chains.Off;
      s := [];
      var x := Pop(l);
      while x >= 0
        invariant Valid() && Apart(l) && |lists| == |old(lists)| && lists == old(lists)[l := lists[l]]
        invariant s + (if x < 0 then [] else [x]) + lists[l] == old(lists)[l] && (x < 0 ==> lists[l] == [])
        decreases |lists[l]| + if x < 0 then 0 else 1
      {
        s := s + [x];
        x := Pop(l);
      }
    }
  }
}
