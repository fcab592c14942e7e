/** dns_list.c: the singly linked list of pending requests. */
module DnsList {

  /** A listed query: its place in the history of listed queries, its id, its client and its age in seconds. */
  datatype Request = Request(serial: nat, id: nat, client: nat, pending: nat)

  class Node {
    var request: Request
    var next: Node?

    constructor (request: Request, next: Node?)
      ensures this.request == request && this.next == next
    {
      this.request, this.next := request, next;
    }
  }

  ghost predicate Distinct(nodes: seq<Node>) {
    forall i, j :: 0 <= i < j < |nodes| ==> nodes[i] != nodes[j]
  }

  /** The pointers lead from head through the nodes in order; no node occurs twice. */
  ghost predicate Linked(head: Node?, nodes: seq<Node>)
    reads nodes
  {
    && Distinct(nodes) && head == (if nodes == [] then null else nodes[0])
    && forall i {:trigger nodes[i].next} :: 0 <= i < |nodes| ==>
         nodes[i].next == if i + 1 < |nodes| then nodes[i + 1] else null
  }

  ghost function Requests(nodes: seq<Node>): (r: seq<Request>)
    reads nodes
    ensures |r| == |nodes| && forall i {:trigger r[i]} :: 0 <= i < |nodes| ==> r[i] == nodes[i].request
  {
    seq(|nodes|, i requires 0 <= i < |nodes| reads nodes => nodes[i].request)
  }

  /** The list without its k-th element. */
  function Without<T>(list: seq<T>, k: nat): (r: seq<T>)
    requires k < |list|
    ensures |r| == |list| - 1
    ensures forall i {:trigger r[i]} :: 0 <= i < |r| ==> r[i] == if i < k then list[i] else list[i + 1]
  {
    list[..k] + list[k + 1..]
  }

  /** dns_list_add */
  method Add(head: Node?, request: Request, ghost nodes: seq<Node>) returns (head': Node)
    requires Linked(head, nodes)
    ensures fresh(head') && Linked(head', [head'] + nodes) && Requests([head'] + nodes) == [request] + Requests(nodes)
  {
    head' := new Node(request, head);
  }

  /** dns_list_find_by_id */
  method FindById(head: Node?, id: nat, ghost nodes: seq<Node>) returns (node: Node?, ghost k: nat)
    requires Linked(head, nodes)
    ensures node == null <==> forall i :: 0 <= i < |nodes| ==> nodes[i].request.id != id
    ensures node != null ==> k < |nodes| && node == nodes[k] && node.request.id == id
    ensures node != null ==> forall i :: 0 <= i < k ==> nodes[i].request.id != id
  {
    node, k := head, 0;
    while node != null
      invariant 0 <= k <= |nodes| && node == if k < |nodes| then nodes[k] else null
      invariant forall i :: 0 <= i < k ==> nodes[i].request.id != id
      decreases |nodes| - k
    {
      if node.request.id == id {
        return;
      }
      node, k := node.next, k + 1;
    }
  }

  lemma OnlyAt(nodes: seq<Node>, k: nat)
    requires Distinct(nodes) && k < |nodes|
    ensures forall i :: 0 <= i < |nodes| && i != k ==> nodes[i] != nodes[k]
    ensures Distinct(Without(nodes, k))
  {
    var r := Without(nodes, k);
    forall i, j | 0 <= i < j < |r| ensures r[i] != r[j] {
      assert nodes[if i < k then i else i + 1] != nodes[if j < k then j else j + 1];
    }
  }

  /** dns_list_remove: the predecessor is searched from the head; there is none exactly for the first node. */
  method Remove(head: Node?, m: Node, ghost nodes: seq<Node>, ghost k: nat) returns (head': Node?)
    requires Linked(head, nodes) && k < |nodes| && nodes[k] == m
    modifies nodes
    ensures Linked(head', Without(nodes, k)) && Requests(Without(nodes, k)) == Without(old(Requests(nodes)), k)
    ensures m.next == old(m.next)
  {
    OnlyAt(nodes, k);
    hide Distinct;
    var prev := head;
    ghost var j := 0;
    while prev != null && prev.next != m
      invariant 0 <= j <= |nodes| && prev == (if j < |nodes| then nodes[j] else null) && (k > 0 ==> j < k)
      decreases |nodes| - j
    {
      prev, j := prev.next, j + 1;
    }
    if prev == null {
      head' := m.next;
    } else {
      OnlyAt(nodes, j);
      prev.next := m.next;
      head' := head;
    }
  }

  /** The requests of the list, in order. */
  method Walk(head: Node?, ghost nodes: seq<Node>) returns (list: seq<Request>)
    requires Linked(head, nodes)
    ensures list == Requests(nodes)
  {
    list := [];
    var node := head;
    while node != null
      invariant |list| <= |nodes| && node == if |list| < |nodes| then nodes[|list|] else null
      invariant forall i :: 0 <= i < |list| ==> list[i] == nodes[i].request
      decreases |nodes| - |list|
    {
      list := list + [node.request];
      node := node.next;
    }
  }
}
