/** listlib.c: singly linked lists whose nodes are moved from list to list. */
module IgmpLists {

  /** A list node; id names the group or query that it is the head of. */
  class Node {
    const id: nat
    var next: Node?

    constructor (id: nat)
      ensures this.id == id && next == null
    {
      this.id, next := id, null;
    }
  }

  ghost predicate Distinct(s: seq<Node>) {
    forall i, j :: 0 <= i < j < |s| ==> s[i] != s[j]
  }

  ghost predicate Linked(head: Node?, s: seq<Node>)
    reads s
  {
    && head == (if s == [] then null else s[0])
    && forall i {:trigger s[i].next} :: 0 <= i < |s| ==> s[i].next == if i + 1 < |s| then s[i + 1] else null
  }

  /** The nodes of s, linked in order; no node occurs twice, so the list has no cycle. */
  ghost predicate IsList(head: Node?, s: seq<Node>)
    reads s
  {
    Distinct(s) && Linked(head, s)
  }

  lemma DistinctCat(d: seq<Node>, s: seq<Node>)
    requires Distinct(d) && Distinct(s) && forall n :: n in d ==> n !in s
    ensures Distinct(d + s)
  {
    var all := d + s;
    forall i, j | 0 <= i < j < |all| ensures all[i] != all[j] {
      if i < |d| <= j {
        assert all[i] in d && all[j] in s;
      }
    }
  }

  /** The nodes of s without the one at position k. */
  ghost function Without(s: seq<Node>, k: nat): (r: seq<Node>)
    requires k < |s|
    ensures |r| == |s| - 1 && forall i {:trigger r[i]} :: 0 <= i < |r| ==> r[i] == if i < k then s[i] else s[i + 1]
  {
    s[..k] + s[k + 1..]
  }

  lemma DistinctWithout(s: seq<Node>, k: nat)
    requires Distinct(s) && k < |s|
    ensures Distinct(Without(s, k))
  {
    var r := Without(s, k);
    forall i, j | 0 <= i < j < |r| ensures r[i] != r[j] {
      assert s[if i < k then i else i + 1] != s[if j < k then j else j + 1];
    }
  }

  lemma Apart(s: seq<Node>, k: nat)
    requires Distinct(s) && k < |s|
    ensures forall i :: 0 <= i < |s| && i != k ==> s[i] != s[k]
  {
  }

  /** list_add: the node becomes the head. */
  method ListAdd(head: Node?, node: Node, ghost s: seq<Node>) returns (head': Node?)
    requires IsList(head, s) && node !in s
    modifies node
    ensures IsList(head', [node] + s)
  {
    if head == null {
      node.next := null;
      return node;
    }
    node.next := head;
    head' := node;
  }

  /** list_cat: the source list is appended; its own head pointer is left for the caller to clear. */
  method ListCat(dst: Node?, src: Node?, ghost d: seq<Node>, ghost s: seq<Node>) returns (dst': Node?)
    requires IsList(dst, d) && IsList(src, s)
    requires forall n :: n in d ==> n !in s
    modifies d
    ensures IsList(dst', d + s)
  {
    if src == null {
      assert d + s == d;
      return dst;
    }
    if dst == null {
      assert d + s == s;
      return src;
    }
    var node := dst;
    ghost var k := 0;
    while node.next != null
      invariant 0 <= k < |d| && node == d[k]
      decreases |d| - k
    {
      node := node.next;
      k := k + 1;
    }
    DistinctCat(d, s);
    Apart(d, k);
    hide Distinct;
    assert node in d;
    forall i | 0 <= i < |s| ensures s[i] != node {
      assert s[i] in s;
    }
    node.next := src;
    dst' := dst;
    ghost var all := d + s;
    forall i {:trigger all[i].next} | 0 <= i < |all| ensures all[i].next == if i + 1 < |all| then all[i + 1] else null {
      if i < |d| {
        assert all[i] == d[i];
      } else {
        assert all[i] == s[i - |d|];
      }
    }
  }

  /** list_remove: the head, with its link cleared. */
  method ListRemove(head: Node?, ghost s: seq<Node>) returns (node: Node?, head': Node?)
    requires IsList(head, s)
    modifies if head == null then {} else {head}
    ensures s == [] ==> node == null && head' == null
    ensures s != [] ==> node == s[0] && node.next == null && IsList(head', s[1..])
  {
    if head == null {
      return null, null;
    }
    node, head' := head, head.next;
    node.next := null;
  }

  /** list_remove_node: takes out one node and keeps the order of the others. The source reads through the null pointer
      that ends the list when the node is not there. */
  method ListRemoveNode(head: Node?, x: Node, ghost s: seq<Node>, ghost at: nat) returns (head': Node?)
    requires IsList(head, s) && at < |s| && s[at] == x
    modifies s
    ensures IsList(head', Without(s, at)) && (|s| > 1 ==> x.next == null)
  {
    hide Without, Distinct;
    DistinctWithout(s, at);
    var node: Node, prev: Node? := head, null;
    var next := node.next;
    ghost var k := 0;
    Apart(s, at);
    while node != x
      invariant 0 <= k <= at && node == s[k] && next == node.next && prev == if k == 0 then null else s[k - 1]
      decreases at - k
    {
      prev := node;
      node := node.next;
      next := node.next;
      k := k + 1;
    }
    head' := Unlink(head, x, prev, next, s, at);
  }

  /** The end of list_remove_node: x stands between prev and next. */
  method Unlink(head: Node?, x: Node, prev: Node?, next: Node?, ghost s: seq<Node>, ghost at: nat)
    returns (head': Node?)
    requires IsList(head, s) && at < |s| && s[at] == x
    requires next == x.next && prev == if at == 0 then null else s[at - 1]
    modifies s
    ensures IsList(head', Without(s, at)) && (|s| > 1 ==> x.next == null)
  {
    hide Without, Distinct;
    DistinctWithout(s, at);
    Apart(s, at);
    ghost var r := Without(s, at);
    if prev == null && next == null {
      assert |r| == 0;
      return null;
    }
    if prev == null {
      x.next := null;
      head' := next;
      assert forall i :: 0 <= i < |r| ==> r[i] == s[i + 1];
      assert Linked(head', r);
    } else {
      Apart(s, at - 1);
      x.next := null;
      prev.next := next;
      head' := head;
      forall i {:trigger r[i].next} | 0 <= i < |r| ensures r[i].next == if i + 1 < |r| then r[i + 1] else null {
        if i < at {
          assert r[i] == s[i];
        } else {
          assert r[i] == s[i + 1];
        }
      }
      assert r[0] == s[0];
    }
  }
}
