/** CSO/HW2/Question2.c: a singly linked list of `int` values built by
    inserting at the front, printed as `v -> ... -> NULL`, and freed node by
    node.

    The chain of `next` pointers from a head is described by the ghost
    sequence of nodes it passes through (`IsList`); `HeadPtr` is the variable
    `headp` whose address `insert_front` receives. */
module FrontInsertList {
  import opened Text

  class Node {
    var val: int
    var next: Node?

    constructor (v: int, n: Node?)
      ensures val == v && next == n
    {
      val := v;
      next := n;
    }
  }

  /** The head-pointer variable of `main`, passed by address as `node **`. */
  class HeadPtr {
    var head: Node?
    /** The nodes reached from `head`, in list order. */
    ghost var nodes: seq<Node>

    ghost predicate Valid()
      reads this, nodes
    {
      IsList(head, nodes)
    }

    /** `node *headp = NULL;` */
    constructor ()
      ensures Valid() && nodes == []
    {
      head := null;
      nodes := [];
    }
  }

  /** Following `next` from `head` passes through `nodes`, in order, and then
      reaches NULL. */
  ghost predicate IsList(head: Node?, nodes: seq<Node>)
    reads nodes
  {
    (if nodes == [] then head == null else head == nodes[0] && nodes[|nodes| - 1].next == null) &&
    forall i :: 0 <= i < |nodes| - 1 ==> nodes[i].next == nodes[i + 1]
  }

  /** The values stored in `nodes`, in list order. */
  ghost function Values(nodes: seq<Node>): (vs: seq<int>)
    reads nodes
    ensures |vs| == |nodes|
    ensures forall i :: 0 <= i < |nodes| ==> vs[i] == nodes[i].val
  {
    seq(|nodes|, i requires 0 <= i < |nodes| reads nodes => nodes[i].val)
  }

  /** A list of nodes ends in NULL, so no node occurs in it twice: the list
      is acyclic. */
  lemma {:induction false} IsListDistinct(head: Node?, nodes: seq<Node>, i: nat, j: nat)
    requires IsList(head, nodes)
    requires i < j < |nodes|
    ensures nodes[i] != nodes[j]
    decreases |nodes| - j
  {
    assert nodes[i].next == nodes[i + 1];
    if j < |nodes| - 1 {
      IsListDistinct(head, nodes, i + 1, j + 1);
      assert nodes[j].next == nodes[j + 1];
    }
  }

  /** `insert_front`: a new node holding `val` whose `next` is the old head
      becomes the head; the old nodes are not touched. */
  method InsertFront(headdp: HeadPtr, val: int)
    requires headdp.Valid()
    modifies headdp
    ensures headdp.Valid()
    ensures headdp.head != null && fresh(headdp.head)
    ensures headdp.head.val == val && headdp.head.next == old(headdp.head)
    ensures headdp.nodes == [headdp.head] + old(headdp.nodes)
    ensures |headdp.nodes| == |old(headdp.nodes)| + 1
    ensures Values(headdp.nodes) == [val] + old(Values(headdp.nodes))
  {
    ghost var oldNodes := headdp.nodes;
    ghost var oldValues := Values(oldNodes);
    var newNode := new Node(val, headdp.head);
    assert IsList(headdp.head, oldNodes) && Values(oldNodes) == oldValues;
    headdp.head := newNode;
    headdp.nodes := [newNode] + headdp.nodes;
    assert IsList(newNode.next, oldNodes) && Values(oldNodes) == oldValues;
    ConsList(newNode, oldNodes);
    ValuesCons(newNode, oldNodes);
  }

  lemma ValuesCons(n: Node, nodes: seq<Node>)
    ensures Values([n] + nodes) == [n.val] + Values(nodes)
  {
  }

  /** A node whose `next` is the head of a list heads the longer list. */
  lemma ConsList(n: Node, nodes: seq<Node>)
    requires IsList(n.next, nodes)
    ensures IsList(n, [n] + nodes)
  {
    var ns := [n] + nodes;
    forall i | 0 <= i < |ns| - 1
      ensures ns[i].next == ns[i + 1]
    {
      if i > 0 {
        assert ns[i] == nodes[i - 1];
      }
    }
  }

  /** What one round of the `print_list` loop writes for value `v`. */
  function Item(v: int): (s: string)
  {
    Decimal(v) + " -> "
  }

  /** What the loop of `print_list` writes: each value followed by `" -> "`. */
  function Arrows(vs: seq<int>): (s: string)
  {
    if vs == [] then "" else Item(vs[0]) + Arrows(vs[1..])
  }

  /** The whole output of `print_list` for a list holding `vs`. */
  function Rendered(vs: seq<int>): (s: string)
  {
    Arrows(vs) + "NULL\n"
  }

  /** Output for a longer list extends the output for its prefix by one item. */
  lemma {:induction false} ArrowsSnoc(vs: seq<int>, v: int)
    ensures Arrows(vs + [v]) == Arrows(vs) + Item(v)
  {
    if vs != [] {
      var w, item, rest := vs + [v], Item(vs[0]), Arrows(vs[1..]);
      assert w[0] == vs[0] && w[1..] == vs[1..] + [v];
      ArrowsSnoc(vs[1..], v);
      assert Arrows(w) == item + (rest + Item(v));
      assert item + (rest + Item(v)) == (item + rest) + Item(v);
    } else {
      assert vs + [v] == [v] && [v][1..] == [];
    }
  }

  /** One round of the `print_list` loop appends the next value's item. */
  lemma PrintStep(vs: seq<int>, k: nat)
    requires k < |vs|
    ensures Arrows(vs[..k + 1]) == Arrows(vs[..k]) + Item(vs[k])
  {
    assert vs[..k + 1] == vs[..k] + [vs[k]];
    ArrowsSnoc(vs[..k], vs[k]);
  }

  /** The output of a list is the output of its first value followed by the
      output of the rest, so it lists the values in order. */
  lemma {:induction false} ArrowsAppend(us: seq<int>, vs: seq<int>)
    ensures Arrows(us + vs) == Arrows(us) + Arrows(vs)
  {
    if us == [] {
      assert us + vs == vs;
    } else {
      assert (us + vs)[1..] == us[1..] + vs;
      ArrowsAppend(us[1..], vs);
    }
  }

  /** `print_list`: the text it writes for the list from `head`. */
  method PrintList(head: Node?, ghost nodes: seq<Node>) returns (out: string)
    requires IsList(head, nodes)
    ensures out == Rendered(Values(nodes))
  {
    ghost var vs := Values(nodes);
    var current := head;
    out := "";
    ghost var k := 0;
    while current != null
      invariant 0 <= k <= |nodes|
      invariant k < |nodes| ==> current == nodes[k]
      invariant k == |nodes| ==> current == null
      invariant out == Arrows(vs[..k])
      decreases |nodes| - k
    {
      PrintStep(vs, k);
      out := out + Item(current.val);
      current := current.next;
      k := k + 1;
    }
    assert vs[..k] == vs;
    out := out + "NULL\n";
  }

  /** `free_list` traversal: the nodes it releases, in the order it reaches
      them. Every node of the list is reached exactly once and the walk ends. */
  method FreeList(head: Node?, ghost nodes: seq<Node>) returns (freed: seq<Node>)
    requires IsList(head, nodes)
    ensures freed == nodes
    ensures forall i, j :: 0 <= i < j < |freed| ==> freed[i] != freed[j]
  {
    forall i, j | 0 <= i < j < |nodes|
      ensures nodes[i] != nodes[j]
    {
      IsListDistinct(head, nodes, i, j);
    }
    var h := head;
    freed := [];
    while h != null
      invariant |freed| <= |nodes| && freed == nodes[..|freed|]
      invariant |freed| < |nodes| ==> h == nodes[|freed|]
      invariant |freed| == |nodes| ==> h == null
      decreases |nodes| - |freed|
    {
      var temp := h.next;
      freed := freed + [h];
      h := temp;
    }
  }

  /** `main`: inserting 0, 1, 2 at the front and printing the list. */
  method Example() returns (out: string)
    ensures out == "2 -> 1 -> 0 -> NULL\n"
  {
    var headp := new HeadPtr();
    for i := 0 to 3
      invariant headp.Valid()
      invariant |headp.nodes| == i
      invariant forall k :: 0 <= k < i ==> Values(headp.nodes)[k] == i - 1 - k
    {
      InsertFront(headp, i);
    }
    assert Values(headp.nodes) == [2, 1, 0];
    out := PrintList(headp.head, headp.nodes);
    ExampleRendered();
  }

  lemma ExampleRendered()
    ensures Rendered([2, 1, 0]) == "2 -> 1 -> 0 -> NULL\n"
  {
    ExampleArrows();
  }

  lemma ExampleArrows()
    ensures Arrows([2, 1, 0]) == "2 -> 1 -> 0 -> "
  {
    ExampleItems();
    assert [2, 1, 0][1..] == [1, 0] && [1, 0][1..] == [0] && [0][1..] == [];
    assert Arrows([2, 1, 0]) == Item(2) + (Item(1) + (Item(0) + ""));
  }

  lemma ExampleItems()
    ensures Item(0) == "0 -> " && Item(1) == "1 -> " && Item(2) == "2 -> "
  {
    assert DecimalDigits(0) == "0" && DecimalDigits(1) == "1" && DecimalDigits(2) == "2";
  }
}
