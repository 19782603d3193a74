/** CSO/HW2/Question1.c: `mystery` walks a linked list of (`id`, `name`)
    records and returns the name of the first record with a given id.

    The `next` pointers from a node form a "lasso": a sequence of distinct
    nodes whose last `next` is either NULL or one of the nodes already passed
    (the self-linked node of `main` is the smallest such cycle). A NULL
    `char *` is `None`. */
module FindById {
  import opened Outcomes

  class Node {
    var id: int
    var name: Option<string>
    var next: Node?

    constructor (i: int, s: Option<string>)
      ensures id == i && name == s && next == null
    {
      id := i;
      name := s;
      next := null;
    }
  }

  /** Following `next` from `head` passes through the distinct `nodes`, in
      order; after the last one it reaches NULL or one of them again. */
  ghost predicate IsChain(head: Node?, nodes: seq<Node>)
    reads nodes
  {
    (if nodes == [] then head == null
     else head == nodes[0] && (nodes[|nodes| - 1].next == null || nodes[|nodes| - 1].next in nodes)) &&
    (forall i :: 0 <= i < |nodes| - 1 ==> nodes[i].next == nodes[i + 1]) &&
    (forall i, j :: 0 <= i < j < |nodes| ==> nodes[i] != nodes[j])
  }

  /** The chain ends in NULL rather than looping back. */
  ghost predicate Acyclic(nodes: seq<Node>)
    reads nodes
  {
    nodes == [] || nodes[|nodes| - 1].next == null
  }

  /** `mystery(n, id)`. It only ends on a cycle if some node on it matches,
      which is what the precondition asks. */
  method Mystery(head: Node?, id: int, ghost nodes: seq<Node>) returns (r: Option<string>)
    requires IsChain(head, nodes)
    requires Acyclic(nodes) || exists i :: 0 <= i < |nodes| && nodes[i].id == id
    ensures forall i :: 0 <= i < |nodes| && nodes[i].id == id && (forall j :: 0 <= j < i ==> nodes[j].id != id) ==> r == nodes[i].name
    ensures (forall i :: 0 <= i < |nodes| ==> nodes[i].id != id) ==> r == None
  {
    var n := head;
    ghost var k := 0;
    while n != null
      invariant 0 <= k <= |nodes|
      invariant k < |nodes| ==> n == nodes[k]
      invariant k == |nodes| ==> n == null
      invariant forall j :: 0 <= j < k ==> nodes[j].id != id
      decreases |nodes| - k
    {
      if n.id == id {
        return n.name;
      }
      n := n.next;
      k := k + 1;
    }
    return None;
  }

  /** `main`: one node with id 10 and a NULL name whose `next` is itself. */
  method SelfLinked() returns (n: Node)
    ensures n.id == 10 && n.name == None && n.next == n
    ensures IsChain(n, [n])
  {
    n := new Node(10, None);
    n.next := n;
  }

  /** Looking up 10 on the self-linked node stops at once and returns its
      NULL name. */
  method SelfLinkedLookup() returns (r: Option<string>)
    ensures r == None
  {
    var n := SelfLinked();
    r := Mystery(n, 10, [n]);
  }

  /** The node reached after `k` steps of `n = n->next`. */
  ghost function Walk(n: Node?, k: nat): (m: Node?)
    reads *
  {
    if k == 0 || n == null then n else Walk(n.next, k - 1)
  }

  /** Looking up any other id on the self-linked node never ends: after any
      number of rounds the loop is still at the same node, which is not NULL
      and does not match. */
  lemma {:induction false} SelfLinkedNeverEnds(n: Node, id: int, k: nat)
    requires n.next == n && n.id != id
    ensures Walk(n, k) == n && n.id != id
  {
    if k > 0 {
      SelfLinkedNeverEnds(n, id, k - 1);
    }
  }
}
