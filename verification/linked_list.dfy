/** Data_Structures/Assignment3/nm4358/linkedlist.cpp: a singly linked list
    of (`key`, `value`) pairs with distinct keys. `insert` overwrites the
    value of a key already present and otherwise appends a node at the tail.

    Each node also carries the `freq` counter the hash table uses; it starts
    at `INITIAL_FREQ`. The chain of `next` pointers is described by the ghost
    sequence of nodes it passes through (`IsList`), and the list's contents
    by the ghost `entries` of those nodes. */
module LinkedLists {
  import opened Outcomes
  import opened Text

  /** Initial `freq` of a new node (its initialiser is in linkedlist.h). */
  const INITIAL_FREQ: int := 1

  /** The contents of one node. */
  datatype Entry = Entry(key: Bytes, value: int, freq: int)

  /** No key occurs twice. */
  ghost predicate DistinctKeys(es: seq<Entry>)
  {
    forall i, j | 0 <= i < j < |es| :: KeysDiffer(es, i, j)
  }

  /** Entries `i` and `j` of `es` have different keys. */
  ghost predicate KeysDiffer(es: seq<Entry>, i: nat, j: nat)
    requires i < |es| && j < |es|
  {
    es[i].key != es[j].key
  }

  /** The position of the first entry with key `key`, if any. */
  function IndexOf(es: seq<Entry>, key: Bytes): (r: Option<nat>)
    ensures r.Some? ==> r.value < |es| && es[r.value].key == key
    ensures r.Some? ==> forall j :: 0 <= j < r.value ==> es[j].key != key
    ensures r.None? <==> forall j :: 0 <= j < |es| ==> es[j].key != key
  {
    if es == [] then None
    else if es[0].key == key then Some(0)
    else match IndexOf(es[1..], key)
      case None => None
      case Some(i) => Some(i + 1)
  }

  /** The contents after `insert(key, value)`: the value of an entry with
      that key is overwritten in place, otherwise a new entry goes at the
      end. */
  function Upsert(es: seq<Entry>, key: Bytes, value: int): (r: seq<Entry>)
    ensures |r| == if IndexOf(es, key).None? then |es| + 1 else |es|
  {
    match IndexOf(es, key)
    case Some(i) => es[i := es[i].(value := value)]
    case None => es + [Entry(key, value, INITIAL_FREQ)]
  }

  /** After `insert(key, value)` the key is found with that value; an
      existing key keeps its position and `freq`, a new one starts at
      `INITIAL_FREQ`. */
  lemma UpsertFinds(es: seq<Entry>, key: Bytes, value: int)
    requires DistinctKeys(es)
    ensures DistinctKeys(Upsert(es, key, value))
    ensures IndexOf(Upsert(es, key, value), key).Some?
    ensures var i := IndexOf(Upsert(es, key, value), key).value;
      Upsert(es, key, value)[i].value == value &&
      (IndexOf(es, key).Some? ==> i == IndexOf(es, key).value && Upsert(es, key, value)[i].freq == es[i].freq) &&
      (IndexOf(es, key).None? ==> i == |es| && Upsert(es, key, value)[i].freq == INITIAL_FREQ)
  {
    var r := Upsert(es, key, value);
    if IndexOf(es, key).None? {
      assert r[|es|].key == key;
      AppendDistinct(es, r[|es|]);
    } else {
      var i := IndexOf(es, key).value;
      assert r[i].key == key;
      SameKeysDistinct(es, r);
    }
  }

  /** An entry whose key is new can be added at the end. */
  lemma AppendDistinct(es: seq<Entry>, e: Entry)
    requires DistinctKeys(es) && forall j :: 0 <= j < |es| ==> es[j].key != e.key
    ensures DistinctKeys(es + [e])
  {
    var rs := es + [e];
    forall i, j | 0 <= i < j < |rs|
      ensures KeysDiffer(rs, i, j)
    {
      if j < |es| {
        assert KeysDiffer(es, i, j);
      }
    }
  }

  /** Changing values and counts, but no key, keeps the keys distinct. */
  lemma SameKeysDistinct(es: seq<Entry>, rs: seq<Entry>)
    requires DistinctKeys(es)
    requires |rs| == |es| && forall j :: 0 <= j < |es| ==> rs[j].key == es[j].key
    ensures DistinctKeys(rs)
  {
    forall i, j | 0 <= i < j < |rs|
      ensures KeysDiffer(rs, i, j)
    {
      assert KeysDiffer(es, i, j);
    }
  }

  /** `insert(key, value)` leaves every other key where it was, with the
      same value and `freq`. */
  lemma UpsertKeepsOthers(es: seq<Entry>, key: Bytes, value: int, other: Bytes)
    requires other != key
    ensures IndexOf(Upsert(es, key, value), other) == IndexOf(es, other)
    ensures IndexOf(es, other).Some? ==> Upsert(es, key, value)[IndexOf(es, other).value] == es[IndexOf(es, other).value]
  {
    var r := Upsert(es, key, value);
    assert forall j :: 0 <= j < |es| ==> r[j].key == es[j].key;
    if IndexOf(es, other).None? {
      assert forall j :: 0 <= j < |r| ==> r[j].key != other;
    } else {
      var i := IndexOf(es, other).value;
      var s := IndexOf(r, other).value;
      assert r[i].key == other;
      assert !(s < i) && !(i < s);
    }
  }

  class Node {
    var key: Bytes
    var value: int
    var freq: int
    var next: Node?

    /** `Node(key, value)` */
    constructor (k: Bytes, v: int)
      ensures key == k && value == v && freq == INITIAL_FREQ && next == null
    {
      key := k;
      value := v;
      freq := INITIAL_FREQ;
      next := null;
    }

    /** `getKey()` */
    function GetKey(): Bytes
      reads this
    {
      key
    }

    /** `getValue()` */
    function GetValue(): int
      reads this
    {
      value
    }

    /** `setKey(key)`: only the key changes. */
    method SetKey(k: Bytes)
      modifies this
      ensures key == k && value == old(value) && freq == old(freq) && next == old(next)
    {
      key := k;
    }

    /** `setValue(value)`: only the value changes. */
    method SetValue(v: int)
      modifies this
      ensures value == v && key == old(key) && freq == old(freq) && next == old(next)
    {
      value := v;
    }
  }

  /** Following `next` from `head` passes through `nodes`, in order, and then
      reaches NULL. */
  ghost predicate IsList(head: Node?, nodes: seq<Node>)
    reads nodes
  {
    (if nodes == [] then head == null else head == nodes[0] && nodes[|nodes| - 1].next == null) &&
    forall i :: 0 <= i < |nodes| - 1 ==> nodes[i].next == nodes[i + 1]
  }

  class LinkedList {
    var head: Node?
    var size: nat
    /** The nodes reached from `head`, in list order. */
    ghost var nodes: seq<Node>
    /** Their (`key`, `value`, `freq`) triples, from head to tail. */
    ghost var entries: seq<Entry>

    /** A NULL-terminated chain of `size` nodes holding `entries`, whose
        keys are distinct. */
    ghost predicate Valid()
      reads this, nodes
    {
      IsList(head, nodes) && size == |nodes| && |entries| == |nodes| &&
      (forall i :: 0 <= i < |nodes| ==> entries[i] == Entry(nodes[i].key, nodes[i].value, nodes[i].freq)) &&
      DistinctKeys(entries)
    }

    /** `LinkedList()`: a null head and size 0. */
    constructor ()
      ensures Valid() && head == null && size == 0 && entries == []
    {
      head := null;
      size := 0;
      nodes := [];
      entries := [];
    }

    /** `empty()`: there are no entries. */
    function Empty(): (r: bool)
      reads this, nodes
      requires Valid()
      ensures r <==> entries == []
    {
      size == 0
    }

    /** `getSize()`: the number of entries. */
    function GetSize(): (r: nat)
      reads this, nodes
      requires Valid()
      ensures r == |entries|
    {
      size
    }

    /** The traversal of `insert(key, value)`: stops at the node holding
        `key`, or at NULL with `prev` on the last node. */
    method Locate(key: Bytes) returns (current: Node?, prev: Node?, ghost k: nat)
      requires Valid()
      ensures k <= |nodes| && IndexOf(entries, key) == if k < |nodes| then Some(k) else None
      ensures k < |nodes| ==> current == nodes[k]
      ensures k == |nodes| ==> current == null
      ensures k == 0 ==> prev == null
      ensures k > 0 ==> prev == nodes[k - 1]
    {
      current := head;
      prev := null;
      k := 0;
      while current != null && current.key != key
        invariant 0 <= k <= |nodes|
        invariant k < |nodes| ==> current == nodes[k]
        invariant k == |nodes| ==> current == null
        invariant k == 0 ==> prev == null
        invariant k > 0 ==> prev == nodes[k - 1]
        invariant forall j :: 0 <= j < k ==> nodes[j].key != key
        decreases |nodes| - k
      {
        prev := current;
        current := current.next;
        k := k + 1;
      }
    }

    /** `insert(key, value)` */
    method Insert(key: Bytes, value: int)
      requires Valid()
      modifies this, nodes
      ensures Valid()
      ensures entries == Upsert(old(entries), key, value)
      ensures old(IndexOf(entries, key)).Some? ==> nodes == old(nodes) && size == old(size)
      ensures old(IndexOf(entries, key)).None? ==>
        size == old(size) + 1 && nodes[..|nodes| - 1] == old(nodes) && fresh(nodes[|nodes| - 1])
    {
      var current, prev, k := Locate(key);
      if current != null {
        Overwrite(current, k, value);
      } else {
        Append(prev, key, value);
      }
    }

    /** Lines 56-58 of `insert`: the node at position `k` gets the new value;
        nothing else changes. */
    method Overwrite(current: Node, ghost k: nat, value: int)
      requires Valid() && k < |nodes| && current == nodes[k]
      modifies this, current
      ensures Valid() && nodes == old(nodes) && size == old(size) && head == old(head)
      ensures entries == old(entries[k := entries[k].(value := value)])
    {
      forall i | 0 <= i < |nodes| && i != k
        ensures nodes[i] != current
      {
        if i < k {
          assert KeysDiffer(entries, i, k);
        } else {
          assert KeysDiffer(entries, k, i);
        }
      }
      current.value := value;
      SameKeysDistinct(entries, entries[k := entries[k].(value := value)]);
      entries := entries[k := entries[k].(value := value)];
    }

    /** Lines 65-74 of `insert`: a new node after `prev` (or as the head of
        an empty list), and one more in `size`. */
    method Append(prev: Node?, key: Bytes, value: int)
      requires Valid()
      requires if nodes == [] then prev == null else prev == nodes[|nodes| - 1]
      requires forall j :: 0 <= j < |nodes| ==> nodes[j].key != key
      modifies this, prev
      ensures Valid()
      ensures entries == old(entries) + [Entry(key, value, INITIAL_FREQ)]
      ensures size == old(size) + 1 && nodes[..|nodes| - 1] == old(nodes) && fresh(nodes[|nodes| - 1])
    {
      AppendDistinct(entries, Entry(key, value, INITIAL_FREQ));
      var newNode := new Node(key, value);
      if prev == null {
        head := newNode;
      } else {
        forall j | 0 <= j < |nodes| - 1
          ensures nodes[j] != prev
        {
          assert KeysDiffer(entries, j, |nodes| - 1);
        }
        prev.next := newNode;
      }
      size := size + 1;
      nodes := nodes + [newNode];
      entries := entries + [Entry(key, value, INITIAL_FREQ)];
    }

    /** `find(key)`: the node holding `key`, or NULL when there is none;
        nothing changes. */
    method Find(key: Bytes) returns (n: Node?)
      requires Valid()
      ensures IndexOf(entries, key).None? ==> n == null
      ensures IndexOf(entries, key).Some? ==> n == nodes[IndexOf(entries, key).value] && n.key == key
    {
      var current := head;
      ghost var k := 0;
      while current != null
        invariant 0 <= k <= |nodes|
        invariant k < |nodes| ==> current == nodes[k]
        invariant k == |nodes| ==> current == null
        invariant forall j :: 0 <= j < k ==> nodes[j].key != key
        decreases |nodes| - k
      {
        if current.key == key {
          return current;
        }
        current := current.next;
        k := k + 1;
      }
      return null;
    }

    /** `clear()`: every node is visited once and released; the list is
        left empty. Returns the released nodes, in order. */
    method Clear() returns (ghost freed: seq<Node>)
      requires Valid()
      modifies this
      ensures Valid() && head == null && size == 0 && entries == []
      ensures freed == old(nodes)
    {
      var current := head;
      freed := [];
      while current != null
        invariant |freed| <= |nodes| && freed == nodes[..|freed|]
        invariant |freed| < |nodes| ==> current == nodes[|freed|]
        invariant |freed| == |nodes| ==> current == null
        decreases |nodes| - |freed|
      {
        var temp := current;
        current := current.next;
        freed := freed + [temp];
      }
      head := null;
      size := 0;
      nodes := [];
      entries := [];
    }
  }
}
