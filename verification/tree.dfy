/** Data_Structures/Assignment2/nm4358/tree.cpp: the category tree of the
    library. Every node has a name, a count of books, the books filed under
    it, its children, and a `parent` pointer.

    A tree of nodes is a value here (`Node`) held in the `root` field of a
    `Tree` object; the methods that change nodes in place reassign `root`. A
    `Node*` is the node's address: the child positions that lead to it from
    the root (`Path`). Books are heap objects (`Books.Book`) that the nodes
    point at. */
module Trees {
  import opened Outcomes
  import opened Books
  import opened Text
  import Vectors

  /** A category. `hasParent` says whether the `parent` pointer is set; when
      it is, it points at the node whose `children` hold this one. `insert`
      sets it; the root, and the nodes the library's `addCategory` makes,
      leave it null. */
  datatype Node = Node(name: string, bookCount: int, hasParent: bool, books: seq<Book>, children: seq<Node>)

  /** Child positions from the root to a node: a `Node*`. */
  type Path = seq<nat>

  /** `new Node(name)` (line 19): no books, a count of 0, no children, and a
      null parent. */
  function NewNode(name: string): Node
  {
    Node(name, 0, false, [], [])
  }

  /** A new node with its parent pointer set or left null. */
  function Made(name: string, linked: bool): Node
  {
    NewNode(name).(hasParent := linked)
  }

  /** The node at address `p` below `t`, if `p` leads anywhere. */
  function Sub(t: Node, p: Path): Option<Node>
  {
    if p == [] then Some(t)
    else if p[0] < |t.children| then Sub(t.children[p[0]], p[1..])
    else None
  }

  /** A node's own fields, without its subtree. */
  function Own(n: Node): Node
  {
    n.(children := [])
  }

  /** The own fields of the node at `p`: a tree is the map from addresses to
      these labels (see `LabelsDetermine`). */
  function Label(t: Node, p: Path): Option<Node>
  {
    match Sub(t, p)
    case None => None
    case Some(n) => Some(Own(n))
  }

  /** The tree with the subtree at `p` replaced by `m`. */
  function Replace(t: Node, p: Path, m: Node): (r: Node)
    requires Sub(t, p).Some?
    ensures Sub(r, p) == Some(m)
  {
    if p == [] then m
    else t.(children := t.children[p[0] := Replace(t.children[p[0]], p[1..], m)])
  }

  /** Following `p + q` is following `p`, then `q`. */
  lemma {:induction false} SubAppend(t: Node, p: Path, q: Path)
    ensures Sub(t, p + q) == match Sub(t, p) case None => None case Some(n) => Sub(n, q)
  {
    if p == [] {
      assert p + q == q;
    } else {
      assert (p + q)[0] == p[0] && (p + q)[1..] == p[1..] + q;
      if p[0] < |t.children| {
        SubAppend(t.children[p[0]], p[1..], q);
      }
    }
  }

  /** One more step down: the `i`-th child. */
  lemma SubChild(t: Node, p: Path, i: nat)
    requires Sub(t, p).Some?
    ensures Sub(t, p + [i]) == if i < |Sub(t, p).value.children| then Some(Sub(t, p).value.children[i]) else None
  {
    SubAppend(t, p, [i]);
  }

  /** Every address on the way to a node leads to a node. */
  lemma SubPrefix(t: Node, p: Path, q: Path)
    requires Sub(t, p).Some? && q <= p
    ensures Sub(t, q).Some?
    ensures Sub(Sub(t, q).value, p[|q|..]) == Sub(t, p)
  {
    assert p == q + p[|q|..];
    SubAppend(t, q, p[|q|..]);
  }

  /** Replacing the subtree at `p` relabels exactly the addresses below `p`. */
  lemma {:induction false} ReplaceLabels(t: Node, p: Path, m: Node)
    requires Sub(t, p).Some?
    ensures forall q :: Label(Replace(t, p, m), q) == if p <= q then Label(m, q[|p|..]) else Label(t, q)
  {
    if p != [] {
      var c := t.children[p[0]];
      ReplaceLabels(c, p[1..], m);
      var r := Replace(t, p, m);
      forall q
        ensures Label(r, q) == if p <= q then Label(m, q[|p|..]) else Label(t, q)
      {
        if q == [] {
          assert !(p <= q);
          assert Own(r) == Own(t);
        } else if q[0] == p[0] {
          assert p <= q <==> p[1..] <= q[1..];
          assert Label(r, q) == Label(r.children[p[0]], q[1..]);
          assert Label(t, q) == Label(c, q[1..]);
          if p <= q {
            assert q[|p|..] == q[1..][|p| - 1..];
          }
        } else {
          assert !(p <= q);
          if q[0] < |t.children| {
            assert r.children[q[0]] == t.children[q[0]];
          }
        }
      }
    }
  }

  /** Two trees with the same label at every address are the same tree. */
  lemma {:induction false} LabelsDetermine(a: Node, b: Node)
    requires forall q :: Label(a, q) == Label(b, q)
    ensures a == b
  {
    assert Label(a, []) == Label(b, []);
    assert |a.children| == |b.children| by {
      var k, j := |a.children|, |b.children|;
      assert Label(a, [k]) == Label(b, [k]) && Label(a, [j]) == Label(b, [j]);
      LabelArity(a, k);
      LabelArity(b, k);
      LabelArity(a, j);
      LabelArity(b, j);
    }
    forall i | 0 <= i < |a.children|
      ensures a.children[i] == b.children[i]
    {
      forall q
        ensures Label(a.children[i], q) == Label(b.children[i], q)
      {
        assert Label(a, [i] + q) == Label(b, [i] + q);
        assert ([i] + q)[0] == i && ([i] + q)[1..] == q;
      }
      LabelsDetermine(a.children[i], b.children[i]);
    }
    assert a.children == b.children;
  }

  /** A node has a `k`-th child exactly when `k` is below its number of
      children. */
  lemma LabelArity(t: Node, k: nat)
    ensures Label(t, [k]).Some? <==> k < |t.children|
  {
    assert [k][0] == k && [k][1..] == [];
    if k < |t.children| {
      assert Sub(t, [k]) == Sub(t.children[k], []);
    }
  }

  /** Replacing the `i`-th child of the node at `p` replaces that node. */
  lemma {:induction false} ReplaceChild(t: Node, p: Path, i: nat, m: Node)
    requires Sub(t, p).Some? && i < |Sub(t, p).value.children|
    ensures Sub(t, p + [i]).Some?
    ensures Replace(t, p + [i], m) == Replace(t, p, Sub(t, p).value.(children := Sub(t, p).value.children[i := m]))
  {
    SubChild(t, p, i);
    if p != [] {
      assert (p + [i])[0] == p[0] && (p + [i])[1..] == p[1..] + [i];
      ReplaceChild(t.children[p[0]], p[1..], i, m);
    } else {
      assert p + [i] == [i];
    }
  }

  /** A second replacement at the same address wins. */
  lemma {:induction false} ReplaceTwice(t: Node, p: Path, m: Node, m': Node)
    requires Sub(t, p).Some?
    ensures Replace(Replace(t, p, m), p, m') == Replace(t, p, m')
  {
    if p != [] {
      ReplaceTwice(t.children[p[0]], p[1..], m, m');
    }
  }

  /** Putting back the subtree that is there changes nothing. */
  lemma {:induction false} ReplaceSame(t: Node, p: Path)
    requires Sub(t, p).Some?
    ensures Replace(t, p, Sub(t, p).value) == t
  {
    if p != [] {
      ReplaceSame(t.children[p[0]], p[1..]);
      assert t.children[p[0] := t.children[p[0]]] == t.children;
    }
  }

  // ---------------------------------------------------------------------
  // getChild, getNode, createNode

  /** `getChild(ptr, name)` (lines 112-117): the position of the first child
      with the name, or none. */
  function FirstNamed(cs: seq<Node>, name: string): (r: Option<nat>)
    ensures r.Some? ==> r.value < |cs| && cs[r.value].name == name
    ensures r.Some? ==> forall j :: 0 <= j < r.value ==> cs[j].name != name
    ensures r.None? ==> forall j :: 0 <= j < |cs| ==> cs[j].name != name
  {
    if cs == [] then None
    else if cs[0].name == name then Some(0)
    else match FirstNamed(cs[1..], name)
      case None => None
      case Some(i) => Some(i + 1)
  }

  /** The first match stays first when its node is replaced by one with the
      same name. */
  lemma FirstNamedUpdate(cs: seq<Node>, name: string, i: nat, c: Node)
    requires FirstNamed(cs, name) == Some(i) && c.name == name
    ensures FirstNamed(cs[i := c], name) == Some(i)
  {
    var cs' := cs[i := c];
    assert cs'[i].name == name;
    assert forall j :: 0 <= j < i ==> cs'[j].name != name;
  }

  /** A child appended to children none of which has the name is the first
      with the name. */
  lemma FirstNamedAppend(cs: seq<Node>, name: string, c: Node)
    requires FirstNamed(cs, name).None? && c.name == name
    ensures FirstNamed(cs + [c], name) == Some(|cs|)
  {
    assert (cs + [c])[|cs|].name == name;
    assert forall j :: 0 <= j < |cs| ==> (cs + [c])[j].name != name;
  }

  /** The names `getNode` and `createNode` look up: `path` cut at every `/`
      (`find('/')`, `substr(0, pos)`, `erase(0, pos + 1)`, and what is left). */
  function Segments(path: string): (r: seq<string>)
    ensures |r| >= 1
    decreases |path|
  {
    match Find(path, '/')
    case None => [path]
    case Some(i) => [path[..i]] + Segments(path[i + 1..])
  }

  /** Names joined with `/`. */
  function Join(parts: seq<string>): (s: string)
    requires |parts| >= 1
  {
    if |parts| == 1 then parts[0] else parts[0] + "/" + Join(parts[1..])
  }

  /** Cutting at `/` and joining back gives the path again. */
  lemma {:induction false} JoinSegments(path: string)
    ensures Join(Segments(path)) == path
    decreases |path|
  {
    match Find(path, '/')
    case None =>
    case Some(i) =>
      var later := Segments(path[i + 1..]);
      JoinSegments(path[i + 1..]);
      JoinCons(path[..i], later);
      assert path == path[..i] + "/" + path[i + 1..];
  }

  lemma JoinCons(h: string, t: seq<string>)
    requires |t| >= 1
    ensures Join([h] + t) == h + "/" + Join(t)
  {
    assert ([h] + t)[1..] == t;
  }

  /** Joining names without `/` and cutting at `/` gives the names again. */
  lemma {:induction false} SegmentsJoin(parts: seq<string>)
    requires |parts| >= 1
    requires forall k :: 0 <= k < |parts| ==> '/' !in parts[k]
    ensures Segments(Join(parts)) == parts
  {
    if |parts| == 1 {
      assert Find(parts[0], '/').None?;
    } else {
      SegmentsJoin(parts[1..]);
      CutAtSlash(parts[0], Join(parts[1..]));
      HeadTail(parts);
    }
  }

  /** A name without `/`, a `/`, and the rest: `find('/')` stops at the `/`. */
  lemma CutAtSlash(h: string, rest: string)
    requires '/' !in h
    ensures Find(h + "/" + rest, '/') == Some(|h|)
    ensures (h + "/" + rest)[..|h|] == h && (h + "/" + rest)[|h| + 1..] == rest
  {
    var s := h + "/" + rest;
    assert s[|h|] == '/' && forall j :: 0 <= j < |h| ==> s[j] == h[j];
  }

  lemma HeadTail<T>(s: seq<T>)
    requires s != []
    ensures s == [s[0]] + s[1..]
  {
  }

  lemma PrefixOfCons<T>(q: seq<T>, i: T, r: seq<T>)
    requires q != []
    ensures q <= [i] + r <==> q[0] == i && q[1..] <= r
  {
    if q[0] == i && q[1..] <= r {
      assert q == [i] + q[1..];
    }
  }


  /** The names of the nodes passed on the way down `p`, the root excluded. */
  function NamesAlong(t: Node, p: Path): (r: seq<string>)
    requires Sub(t, p).Some?
    ensures |r| == |p|
  {
    if p == [] then [] else [t.children[p[0]].name] + NamesAlong(t.children[p[0]], p[1..])
  }

  /** `getNode` (lines 77-87) over the cut path: from the root, take the
      first child with each name in turn; none as soon as one is missing. */
  function Lookup(t: Node, segs: seq<string>): (r: Option<Path>)
    ensures r.Some? ==> Sub(t, r.value).Some? && NamesAlong(t, r.value) == segs
  {
    if segs == [] then Some([])
    else match FirstNamed(t.children, segs[0])
      case None => None
      case Some(i) =>
        match Lookup(t.children[i], segs[1..])
        case None => None
        case Some(q) =>
          assert ([i] + q)[0] == i && ([i] + q)[1..] == q;
          Some([i] + q)
  }

  /** `createNode` (lines 90-109) over the cut path, as a definition: from
      the root, take the first child with each name, inserting a new child
      at the end when there is none. Also what the library's `addCategory`
      does, with `linked` false for the parent pointers it leaves null.
      Gives the new tree and the address of the last node. */
  function Ensure(t: Node, segs: seq<string>, linked: bool): (r: (Node, Path))
    ensures |r.1| == |segs| && Sub(r.0, r.1).Some? && Own(r.0) == Own(t)
    decreases |segs|
  {
    if segs == [] then (t, [])
    else match FirstNamed(t.children, segs[0])
      case Some(i) =>
        var e := Ensure(t.children[i], segs[1..], linked);
        assert ([i] + e.1)[0] == i && ([i] + e.1)[1..] == e.1;
        (t.(children := t.children[i := e.0]), [i] + e.1)
      case None =>
        var e := Ensure(Made(segs[0], linked), segs[1..], linked);
        var k := |t.children|;
        assert ([k] + e.1)[0] == k && ([k] + e.1)[1..] == e.1;
        (t.(children := t.children + [e.0]), [k] + e.1)
  }

  /** After `createNode(path)`, `getNode(path)` finds the node it returned. */
  lemma {:induction false} EnsureThenLookup(t: Node, segs: seq<string>, linked: bool)
    ensures Lookup(Ensure(t, segs, linked).0, segs) == Some(Ensure(t, segs, linked).1)
    decreases |segs|
  {
    if segs != [] {
      var r := Ensure(t, segs, linked);
      match FirstNamed(t.children, segs[0])
      case Some(i) =>
        var e := Ensure(t.children[i], segs[1..], linked);
        EnsureThenLookup(t.children[i], segs[1..], linked);
        FirstNamedUpdate(t.children, segs[0], i, e.0);
        assert r.0.children[i] == e.0;
      case None =>
        var e := Ensure(Made(segs[0], linked), segs[1..], linked);
        EnsureThenLookup(Made(segs[0], linked), segs[1..], linked);
        FirstNamedAppend(t.children, segs[0], e.0);
        assert r.0.children[|t.children|] == e.0;
    }
  }

  /** When `getNode(path)` already finds a node, `createNode(path)` changes
      nothing and returns that node: a second call is a no-op. */
  lemma {:induction false} LookupThenEnsure(t: Node, segs: seq<string>, linked: bool)
    requires Lookup(t, segs).Some?
    ensures Ensure(t, segs, linked) == (t, Lookup(t, segs).value)
  {
    if segs != [] {
      var i := FirstNamed(t.children, segs[0]).value;
      LookupThenEnsure(t.children[i], segs[1..], linked);
      assert t.children[i := t.children[i]] == t.children;
    }
  }

  /** `createNode` only adds nodes, and only on the way to the node it
      returns: every node there before keeps its label. */
  lemma {:induction false} EnsureOnlyAdds(t: Node, segs: seq<string>, linked: bool)
    ensures forall q :: Label(t, q).Some? ==> Label(Ensure(t, segs, linked).0, q) == Label(t, q)
    ensures forall q :: Label(t, q).None? && Label(Ensure(t, segs, linked).0, q).Some? ==> q <= Ensure(t, segs, linked).1
    decreases |segs|
  {
    if segs != [] {
      var r := Ensure(t, segs, linked);
      match FirstNamed(t.children, segs[0])
      case Some(i) =>
        var e := Ensure(t.children[i], segs[1..], linked);
        EnsureOnlyAdds(t.children[i], segs[1..], linked);
        forall q | q != [] && (Label(t, q).Some? || Label(r.0, q).Some?)
          ensures Label(t, q).Some? ==> Label(r.0, q) == Label(t, q)
          ensures Label(t, q).None? ==> q <= r.1
        {
          PrefixOfCons(q, i, e.1);
          if q[0] == i {
            assert Label(t, q) == Label(t.children[i], q[1..]);
            assert Label(r.0, q) == Label(e.0, q[1..]);
          }
        }
      case None =>
        var k := |t.children|;
        var e := Ensure(Made(segs[0], linked), segs[1..], linked);
        EnsureOnlyAdds(Made(segs[0], linked), segs[1..], linked);
        forall q | q != [] && (Label(t, q).Some? || Label(r.0, q).Some?)
          ensures Label(t, q).Some? ==> Label(r.0, q) == Label(t, q)
          ensures Label(t, q).None? ==> q <= r.1
        {
          PrefixOfCons(q, k, e.1);
          if q[0] == k {
            assert Label(r.0, q) == Label(e.0, q[1..]);
            if q[1..] != [] {
              assert Sub(Made(segs[0], linked), q[1..]).None?;
            }
          }
        }
    }
  }

  // ---------------------------------------------------------------------
  // updateBookCount and the counts it keeps

  /** Whether following `parent` pointers from the node at `p` leads up to
      `t` itself: every node below `t` on the way has its parent set. */
  predicate Climbs(t: Node, p: Path)
  {
    p == [] || (p[0] < |t.children| && t.children[p[0]].hasParent && Climbs(t.children[p[0]], p[1..]))
  }

  /** Whether the walk up the parent pointers from the node at `p` passes the
      node at `q`. */
  predicate Reaches(t: Node, p: Path, q: Path)
  {
    q <= p && match Sub(t, q) case None => false case Some(n) => Climbs(n, p[|q|..])
  }

  /** A label with `d` added to its count. */
  function Shift(l: Option<Node>, d: int): Option<Node>
  {
    match l
    case None => None
    case Some(n) => Some(n.(bookCount := n.bookCount + d))
  }

  /** `updateBookCount(ptr, offset)` (lines 120-125) as a definition, from the
      root down: a node gains `d` when the parent pointers climb from `p` up
      to it. */
  function Credited(t: Node, p: Path, d: int): (r: Node)
    requires Sub(t, p).Some?
  {
    if p == [] then t.(bookCount := t.bookCount + d)
    else t.(bookCount := t.bookCount + (if Climbs(t, p) then d else 0),
            children := t.children[p[0] := Credited(t.children[p[0]], p[1..], d)])
  }

  /** Climbing `x + y` is climbing `y` to the node at `x`, then `x`. */
  lemma {:induction false} ClimbsAppend(t: Node, x: Path, y: Path)
    requires Sub(t, x).Some?
    ensures Climbs(t, x + y) <==> Climbs(t, x) && Climbs(Sub(t, x).value, y)
  {
    if x != [] {
      assert (x + y)[0] == x[0] && (x + y)[1..] == x[1..] + y;
      ClimbsAppend(t.children[x[0]], x[1..], y);
    } else {
      assert x + y == y;
    }
  }

  /** `updateBookCount(ptr, d)` adds `d` to exactly the nodes its walk up the
      parent pointers passes, and changes nothing else. */
  lemma {:induction false} CreditedLabels(t: Node, p: Path, d: int)
    requires Sub(t, p).Some?
    ensures forall q :: Label(Credited(t, p, d), q) == Shift(Label(t, q), if Reaches(t, p, q) then d else 0)
  {
    var r := Credited(t, p, d);
    if p == [] {
      forall q | q != []
        ensures Label(r, q) == Label(t, q) && !Reaches(t, p, q)
      {
        if q[0] < |t.children| {
          assert r.children[q[0]] == t.children[q[0]];
        }
      }
    } else {
      var c := t.children[p[0]];
      CreditedLabels(c, p[1..], d);
      forall q
        ensures Label(r, q) == Shift(Label(t, q), if Reaches(t, p, q) then d else 0)
      {
        if q == [] {
          assert p[|q|..] == p;
        } else if q[0] == p[0] {
          assert q <= p <==> q[1..] <= p[1..];
          assert Label(r, q) == Label(r.children[p[0]], q[1..]);
          assert Label(t, q) == Label(c, q[1..]);
          assert Sub(t, q) == Sub(c, q[1..]);
          if q <= p {
            assert p[|q|..] == p[1..][|q| - 1..];
          }
        } else {
          assert !(q <= p);
          if q[0] < |t.children| {
            assert r.children[q[0]] == t.children[q[0]];
          }
        }
      }
    }
  }

  /** Changing only the count of the node at `p` relabels only that node. */
  lemma RecountLabels(t: Node, p: Path, d: int)
    requires Sub(t, p).Some?
    ensures forall q :: Label(Replace(t, p, Sub(t, p).value.(bookCount := Sub(t, p).value.bookCount + d)), q)
                        == Shift(Label(t, q), if q == p then d else 0)
  {
    var n := Sub(t, p).value;
    var m := n.(bookCount := n.bookCount + d);
    ReplaceLabels(t, p, m);
    forall q | p <= q && q != p
      ensures Label(m, q[|p|..]) == Label(t, q)
    {
      var r := q[|p|..];
      assert q == p + r;
      SubAppend(t, p, r);
      assert Sub(m, r) == Sub(n, r);
    }
    forall q | p <= q
      ensures q == p <==> q[|p|..] == []
    {
    }
  }

  /** One step of the walk up: when the node at `cur` has its parent set,
      the walk from `p` that reached `cur` reaches its parent too. */
  lemma ClimbStep(t: Node, p: Path, cur: Path)
    requires Sub(t, p).Some? && cur <= p && cur != []
    requires Sub(t, cur).Some? && Sub(t, cur).value.hasParent
    requires Climbs(Sub(t, cur).value, p[|cur|..])
    ensures Sub(t, cur[..|cur| - 1]).Some?
    ensures Climbs(Sub(t, cur[..|cur| - 1]).value, p[|cur| - 1..])
  {
    var up := cur[..|cur| - 1];
    var i := cur[|cur| - 1];
    assert cur == up + [i];
    SubSnoc(t, up, i);
    var rest := p[|cur|..];
    assert p[|cur| - 1..] == [i] + rest;
    ClimbsCons(Sub(t, up).value, i, rest);
  }

  /** The node at `up + [i]` is child `i` of the node at `up`. */
  lemma SubSnoc(t: Node, up: Path, i: nat)
    requires Sub(t, up + [i]).Some?
    ensures Sub(t, up).Some? && i < |Sub(t, up).value.children|
    ensures Sub(t, up + [i]) == Some(Sub(t, up).value.children[i])
  {
    SubAppend(t, up, [i]);
    ClimbsOne(Sub(t, up).value, i);
  }

  /** Climbing from child `i` and then to its parent. */
  lemma ClimbsCons(t: Node, i: nat, rest: Path)
    requires i < |t.children| && t.children[i].hasParent && Climbs(t.children[i], rest)
    ensures Climbs(t, [i] + rest)
  {
    assert ([i] + rest)[0] == i && ([i] + rest)[1..] == rest;
  }

  lemma ClimbsOne(t: Node, i: nat)
    ensures i < |t.children| ==> Sub(t, [i]) == Some(t.children[i])
    ensures i >= |t.children| ==> Sub(t, [i]).None?
    ensures i < |t.children| ==> Climbs(t, [i]) == t.children[i].hasParent
  {
    assert [i][1..] == [];
  }

  /** Where the walk up ends: when it has climbed from `p` to the node at
      `p[..low]` and that node has no parent, it passed exactly the nodes on
      the way from there to `p`. */
  lemma WalkStops(t: Node, p: Path, low: nat)
    requires Sub(t, p).Some? && low <= |p|
    requires Sub(t, p[..low]).Some? && Climbs(Sub(t, p[..low]).value, p[low..])
    requires !Sub(t, p[..low]).value.hasParent
    ensures forall q :: Reaches(t, p, q) <==> q <= p && |q| >= low
  {
    var top := Sub(t, p[..low]).value;
    forall q | q <= p
      ensures Reaches(t, p, q) <==> |q| >= low
    {
      SubPrefix(t, p, q);
      assert q == p[..|q|];
      if |q| >= low {
        var x := p[low..|q|];
        Slices(p, low, |q|);
        SubAppend(t, p[..low], x);
        ClimbsAppend(top, x, p[|q|..]);
      } else {
        var x := p[|q|..low - 1];
        var i := p[low - 1];
        Slices(p, |q|, low - 1);
        Slices(p, low - 1, low);
        assert p[low - 1..low] == [i];
        var rest := [i] + p[low..];
        assert p[|q|..] == x + rest;
        SubAppend(t, q, x);
        SubPrefix(t, p, p[..low - 1]);
        ClimbsAppend(Sub(t, q).value, x, rest);
        SubAppend(t, p[..low - 1], [i]);
      }
    }
  }

  /** Cutting a sequence at `a <= b`. */
  lemma Slices<T>(p: seq<T>, a: nat, b: nat)
    requires a <= b <= |p|
    ensures p[..a] + p[a..b] == p[..b] && p[a..] == p[a..b] + p[b..]
  {
  }

  /** What a child passes up to its parent's `bookCount`: its own count, when
      its parent pointer is set (the walk up stops at it otherwise). */
  function Passed(c: Node): int
  {
    if c.hasParent then c.bookCount else 0
  }

  function PassedSum(cs: seq<Node>): int
  {
    if cs == [] then 0 else Passed(cs[0]) + PassedSum(cs[1..])
  }

  /** The counts `updateBookCount` keeps: at every node, `bookCount` is the
      number of its own books plus what its children pass up. */
  predicate CountsOk(n: Node)
  {
    n.bookCount == |n.books| + PassedSum(n.children) && AllCountsOk(n.children)
  }

  predicate AllCountsOk(cs: seq<Node>)
  {
    forall i :: 0 <= i < |cs| ==> CountsOk(cs[i])
  }

  lemma AllCountsOkUpdate(cs: seq<Node>, i: nat, c: Node)
    requires i < |cs| && AllCountsOk(cs) && CountsOk(c)
    ensures AllCountsOk(cs[i := c])
  {
  }

  lemma AllCountsOkAppend(cs: seq<Node>, c: Node)
    requires AllCountsOk(cs) && CountsOk(c)
    ensures AllCountsOk(cs + [c])
  {
  }

  lemma {:induction false} PassedSumUpdate(cs: seq<Node>, i: nat, c: Node)
    requires i < |cs|
    ensures PassedSum(cs[i := c]) == PassedSum(cs) - Passed(cs[i]) + Passed(c)
  {
    if i > 0 {
      assert cs[i := c][1..] == cs[1..][i - 1 := c];
      PassedSumUpdate(cs[1..], i - 1, c);
    } else {
      assert cs[i := c][1..] == cs[1..];
    }
  }

  lemma {:induction false} PassedSumAppend(cs: seq<Node>, c: Node)
    ensures PassedSum(cs + [c]) == PassedSum(cs) + Passed(c)
  {
    if cs != [] {
      assert (cs + [c])[1..] == cs[1..] + [c];
      PassedSumAppend(cs[1..], c);
    } else {
      assert [c][1..] == [];
    }
  }

  /** The node at `p` with its books replaced by `bs`. */
  function Refiled(t: Node, p: Path, bs: seq<Book>): (r: Node)
    requires Sub(t, p).Some?
  {
    Replace(t, p, Sub(t, p).value.(books := bs))
  }

  /** The walk up from `p` does not depend on what is filed at `p`. */
  lemma {:induction false} ClimbsRefiled(t: Node, p: Path, bs: seq<Book>)
    requires Sub(t, p).Some?
    ensures Climbs(Refiled(t, p, bs), p) == Climbs(t, p)
  {
    if p != [] {
      var c := t.children[p[0]];
      ClimbsRefiled(c, p[1..], bs);
      assert Sub(c, p[1..]) == Sub(t, p);
      assert Refiled(t, p, bs).children[p[0]] == Refiled(c, p[1..], bs);
    }
  }

  /** Filing books at `p` and walking up are independent: the order of
      `push_back` and `updateBookCount` does not matter. */
  lemma {:induction false} RefiledCredited(t: Node, p: Path, bs: seq<Book>, d: int)
    requires Sub(t, p).Some?
    ensures Sub(Credited(t, p, d), p).Some?
    ensures Refiled(Credited(t, p, d), p, bs) == Credited(Refiled(t, p, bs), p, d)
  {
    CreditedLabels(t, p, d);
    assert Label(Credited(t, p, d), p).Some?;
    if p != [] {
      var c := t.children[p[0]];
      RefiledCredited(c, p[1..], bs, d);
      ClimbsRefiled(t, p, bs);
      assert Sub(c, p[1..]) == Sub(t, p);
      assert Sub(Credited(c, p[1..], d), p[1..]) == Sub(Credited(t, p, d), p);
    }
  }

  /** Filing or unfiling books at `p` and then walking up from `p` with the
      difference keeps the counts right. */
  lemma {:induction false} RefileKeepsCounts(t: Node, p: Path, bs: seq<Book>)
    requires Sub(t, p).Some? && CountsOk(t)
    ensures CountsOk(Credited(Refiled(t, p, bs), p, |bs| - |Sub(t, p).value.books|))
  {
    if p != [] {
      var c := t.children[p[0]];
      assert Sub(c, p[1..]) == Sub(t, p);
      RefileKeepsCounts(c, p[1..], bs);
      RefileCountsStep(t, p, bs);
    }
  }

  /** The step of `RefileKeepsCounts` from the child on the path to `t`. */
  lemma RefileCountsStep(t: Node, p: Path, bs: seq<Book>)
    requires p != [] && Sub(t, p).Some? && CountsOk(t)
    requires var c := t.children[p[0]];
      Sub(c, p[1..]) == Sub(t, p) &&
      CountsOk(Credited(Refiled(c, p[1..], bs), p[1..], |bs| - |Sub(c, p[1..]).value.books|))
    ensures CountsOk(Credited(Refiled(t, p, bs), p, |bs| - |Sub(t, p).value.books|))
  {
    var d := |bs| - |Sub(t, p).value.books|;
    var c := t.children[p[0]];
    var c1 := Refiled(c, p[1..], bs);
    var c2 := Credited(c1, p[1..], d);
    ClimbsRefiled(c, p[1..], bs);
    var t1 := Refiled(t, p, bs);
    assert t1 == t.(children := t.children[p[0] := c1]);
    assert c1.hasParent == c.hasParent && c1.bookCount == c.bookCount;
    assert Climbs(t1, p) == (c.hasParent && Climbs(c, p[1..]));
    PassedSumUpdate(t.children, p[0], c2);
    var r := Credited(t1, p, d);
    assert r.children == t.children[p[0] := c2];
    AllCountsOkUpdate(t.children, p[0], c2);
  }

  // ---------------------------------------------------------------------
  // findBook, removeBook, exportData

  /** The books below `n` in the order `findBook` and `removeBook` meet them:
      the node's own books, then those below each child in turn. */
  function Preorder(n: Node): seq<Book>
  {
    n.books + PreorderAll(n.children)
  }

  function PreorderAll(cs: seq<Node>): seq<Book>
  {
    if cs == [] then [] else Preorder(cs[0]) + PreorderAll(cs[1..])
  }

  /** The position of the first book with the title: the loops over a node's
      `books` at lines 130-132 and 150-157. */
  function FirstTitled(bs: seq<Book>, title: string): (r: Option<nat>)
    reads bs`title
    ensures r.Some? ==> r.value < |bs| && bs[r.value].title == title
    ensures r.Some? ==> forall j :: 0 <= j < r.value ==> bs[j].title != title
    ensures r.None? ==> forall j :: 0 <= j < |bs| ==> bs[j].title != title
  {
    if bs == [] then None
    else if bs[0].title == title then Some(0)
    else match FirstTitled(bs[1..], title)
      case None => None
      case Some(i) => Some(i + 1)
  }

  /** The first match in `a + b` is the first in `a`, else the first in `b`. */
  lemma FirstTitledAppend(a: seq<Book>, b: seq<Book>, title: string)
    ensures FirstTitled(a + b, title) ==
      match FirstTitled(a, title)
      case Some(i) => Some(i)
      case None => match FirstTitled(b, title) case None => None case Some(j) => Some(|a| + j)
  {
    var ab := a + b;
    assert forall j :: 0 <= j < |a| ==> ab[j] == a[j];
    assert forall j :: 0 <= j < |b| ==> ab[|a| + j] == b[j];
    match FirstTitled(a, title)
    case Some(i) =>
    case None =>
      match FirstTitled(b, title)
      case None =>
        forall j | 0 <= j < |ab|
          ensures ab[j].title != title
        {
          if j >= |a| {
            assert ab[j] == b[j - |a|];
          }
        }
      case Some(k) =>
        forall j | 0 <= j < |a| + k
          ensures ab[j].title != title
        {
          if j >= |a| {
            assert ab[j] == b[j - |a|];
          }
        }
  }

  /** Where the search of `findBook` and `removeBook` (lines 128-167) stops:
      the address of the node and the position in its `books` of the first
      book with the title, own books before the children's. */
  function Locate(n: Node, title: string): (r: Option<(Path, nat)>)
    reads set b | b in Preorder(n)
    ensures r.Some? ==> Sub(n, r.value.0).Some? && r.value.1 < |Sub(n, r.value.0).value.books|
  {
    match FirstTitled(n.books, title)
    case Some(i) => Some(([], i))
    case None =>
      match LocateAmong(n.children, 0, title)
      case None => None
      case Some(l) =>
        assert l.0 == [l.0[0]] + l.0[1..];
        SubAppend(n, [l.0[0]], l.0[1..]);
        Some(l)
  }

  /** The search over the children `cs`, the first of which is child `k`. */
  function LocateAmong(cs: seq<Node>, k: nat, title: string): (r: Option<(Path, nat)>)
    reads set b | b in PreorderAll(cs)
    ensures r.Some? ==> r.value.0 != [] && k <= r.value.0[0] < k + |cs|
    ensures r.Some? ==> Sub(cs[r.value.0[0] - k], r.value.0[1..]).Some?
    ensures r.Some? ==> r.value.1 < |Sub(cs[r.value.0[0] - k], r.value.0[1..]).value.books|
  {
    if cs == [] then None
    else match Locate(cs[0], title)
      case Some(l) =>
        assert ([k] + l.0)[0] == k && ([k] + l.0)[1..] == l.0;
        Some(([k] + l.0, l.1))
      case None =>
        match LocateAmong(cs[1..], k + 1, title)
        case None => None
        case Some(l) =>
          assert cs[l.0[0] - k] == cs[1..][l.0[0] - (k + 1)];
          Some(l)
  }

  /** The search stops at the first book with the title in `Preorder`. */
  lemma {:induction false} LocateIsPreorderFirst(n: Node, title: string)
    ensures Locate(n, title).None? <==> FirstTitled(Preorder(n), title).None?
    ensures Locate(n, title).Some? ==>
      Sub(n, Locate(n, title).value.0).value.books[Locate(n, title).value.1] == Preorder(n)[FirstTitled(Preorder(n), title).value]
  {
    FirstTitledAppend(n.books, PreorderAll(n.children), title);
    LocateAmongIsFirst(n.children, 0, title);
    match LocateAmong(n.children, 0, title)
    case None =>
    case Some(l) =>
      assert l.0 == [l.0[0]] + l.0[1..];
      SubAppend(n, [l.0[0]], l.0[1..]);
  }

  lemma {:induction false} LocateAmongIsFirst(cs: seq<Node>, k: nat, title: string)
    ensures LocateAmong(cs, k, title).None? <==> FirstTitled(PreorderAll(cs), title).None?
    ensures LocateAmong(cs, k, title).Some? ==>
      var l := LocateAmong(cs, k, title).value;
      Sub(cs[l.0[0] - k], l.0[1..]).value.books[l.1] == PreorderAll(cs)[FirstTitled(PreorderAll(cs), title).value]
  {
    if cs != [] {
      FirstTitledAppend(Preorder(cs[0]), PreorderAll(cs[1..]), title);
      LocateIsPreorderFirst(cs[0], title);
      LocateAmongIsFirst(cs[1..], k + 1, title);
      match Locate(cs[0], title)
      case Some(l) =>
        assert ([k] + l.0)[0] == k && ([k] + l.0)[1..] == l.0;
      case None =>
        match LocateAmong(cs[1..], k + 1, title)
        case None =>
        case Some(l) =>
          assert cs[l.0[0] - k] == cs[1..][l.0[0] - (k + 1)];
    }
  }

  /** `findBook(node, title)` (lines 128-145): the book where the search
      stops. It is the first book with the title in `Preorder`, or none. */
  function FindBook(n: Node, title: string): (r: Option<Book>)
    reads set b | b in Preorder(n)
    ensures r == match FirstTitled(Preorder(n), title) case None => None case Some(i) => Some(Preorder(n)[i])
  {
    LocateIsPreorderFirst(n, title);
    match Locate(n, title)
    case None => None
    case Some(l) => Some(Sub(n, l.0).value.books[l.1])
  }

  /** `exportData(node, file)` (lines 209-225): the number of records it
      writes, one per book of the node and of every node below it. */
  function ExportCount(n: Node): nat
  {
    |n.books| + ExportCountAll(n.children)
  }

  function ExportCountAll(cs: seq<Node>): nat
  {
    if cs == [] then 0 else ExportCount(cs[0]) + ExportCountAll(cs[1..])
  }

  /** `exportData` writes each book of `Preorder` once. */
  lemma {:induction false} ExportCountIsPreorder(n: Node)
    ensures ExportCount(n) == |Preorder(n)|
  {
    ExportCountAllIsPreorder(n.children);
  }

  lemma {:induction false} ExportCountAllIsPreorder(cs: seq<Node>)
    ensures ExportCountAll(cs) == |PreorderAll(cs)|
  {
    if cs != [] {
      ExportCountIsPreorder(cs[0]);
      ExportCountAllIsPreorder(cs[1..]);
    }
  }

  lemma {:induction false} PreorderAllAppend(cs: seq<Node>, c: Node)
    ensures PreorderAll(cs + [c]) == PreorderAll(cs) + Preorder(c)
  {
    if cs == [] {
      assert [c][1..] == [];
    } else {
      assert (cs + [c])[1..] == cs[1..] + [c];
      PreorderAllAppend(cs[1..], c);
    }
  }

  lemma {:induction false} PreorderAllUpdate(cs: seq<Node>, i: nat, c: Node)
    requires i < |cs| && Preorder(c) == Preorder(cs[i])
    ensures PreorderAll(cs[i := c]) == PreorderAll(cs)
  {
    if i == 0 {
      assert cs[i := c][1..] == cs[1..];
    } else {
      assert cs[i := c][1..] == cs[1..][i - 1 := c];
      PreorderAllUpdate(cs[1..], i - 1, c);
    }
  }

  /** The books below a child are among the books below its parent. */
  lemma {:induction false} PreorderAllHas(cs: seq<Node>, i: nat)
    requires i < |cs|
    ensures forall b :: b in Preorder(cs[i]) ==> b in PreorderAll(cs)
    ensures |Preorder(cs[i])| <= |PreorderAll(cs)|
  {
    if i > 0 {
      PreorderAllHas(cs[1..], i - 1);
    }
  }

  /** The books below any node are among the books below the root. */
  lemma {:induction false} PreorderBelow(t: Node, p: Path)
    requires Sub(t, p).Some?
    ensures forall b :: b in Preorder(Sub(t, p).value) ==> b in Preorder(t)
    ensures |Preorder(Sub(t, p).value)| <= |Preorder(t)|
  {
    if p != [] {
      PreorderBelow(t.children[p[0]], p[1..]);
      PreorderAllHas(t.children, p[0]);
    }
  }

  /** `createNode` files no book and loses none: the catalog, in search
      order, is what it was. */
  lemma {:induction false} EnsurePreorder(t: Node, segs: seq<string>, linked: bool)
    ensures Preorder(Ensure(t, segs, linked).0) == Preorder(t)
    decreases |segs|
  {
    if segs != [] {
      match FirstNamed(t.children, segs[0])
      case Some(i) =>
        EnsurePreorder(t.children[i], segs[1..], linked);
        PreorderAllUpdate(t.children, i, Ensure(t.children[i], segs[1..], linked).0);
      case None =>
        var m := Made(segs[0], linked);
        EnsurePreorder(m, segs[1..], linked);
        assert Preorder(m) == [];
        PreorderAllAppend(t.children, Ensure(m, segs[1..], linked).0);
    }
  }

  /** When `getNode(path)` finds nothing, the node `createNode(path)` returns
      is a new one: no book is filed at or below it. */
  lemma {:induction false} EnsureEndsEmpty(t: Node, segs: seq<string>, linked: bool)
    requires Lookup(t, segs).None?
    ensures Preorder(Sub(Ensure(t, segs, linked).0, Ensure(t, segs, linked).1).value) == []
    decreases |segs|
  {
    var r := Ensure(t, segs, linked);
    match FirstNamed(t.children, segs[0])
    case Some(i) =>
      var e := Ensure(t.children[i], segs[1..], linked);
      EnsureEndsEmpty(t.children[i], segs[1..], linked);
      assert r.1[1..] == e.1 && r.0.children[i] == e.0;
    case None =>
      var m := Made(segs[0], linked);
      var e := Ensure(m, segs[1..], linked);
      EnsurePreorder(m, segs[1..], linked);
      PreorderBelow(e.0, e.1);
      assert r.1[0] == |t.children| && r.1[1..] == e.1 && r.0.children[|t.children|] == e.0;
      assert Sub(r.0, r.1) == Sub(e.0, e.1);
  }

  /** `updateBookCount` changes counts only: the books at `p` stay. */
  lemma CreditedKeepsBooks(t: Node, p: Path, d: int)
    requires Sub(t, p).Some?
    ensures Sub(Credited(t, p, d), p).Some?
    ensures Sub(Credited(t, p, d), p).value.books == Sub(t, p).value.books
  {
    CreditedLabels(t, p, d);
    assert Label(Credited(t, p, d), p) == Shift(Label(t, p), if Reaches(t, p, p) then d else 0);
  }

  /** Every node below `n` has its parent pointer set. */
  predicate AllLinked(n: Node)
  {
    forall i :: 0 <= i < |n.children| ==> n.children[i].hasParent && AllLinked(n.children[i])
  }

  /** With every parent pointer set, right counts are the numbers of books
      `exportData` writes: a node's `bookCount` counts every book below it. */
  lemma {:induction false} CountsAreExported(n: Node)
    requires CountsOk(n) && AllLinked(n)
    ensures n.bookCount == ExportCount(n)
  {
    PassedAreExported(n.children);
  }

  lemma {:induction false} PassedAreExported(cs: seq<Node>)
    requires forall i :: 0 <= i < |cs| ==> CountsOk(cs[i]) && cs[i].hasParent && AllLinked(cs[i])
    ensures PassedSum(cs) == ExportCountAll(cs)
  {
    if cs != [] {
      CountsAreExported(cs[0]);
      PassedAreExported(cs[1..]);
    }
  }

  // ---------------------------------------------------------------------
  // getCategory, isLastChild

  /** `getCategory(node)` (lines 32-36) for the node at `p`: its name, after
      its parent's category and a `/` when its parent pointer is set. */
  function Category(t: Node, p: Path): (r: string)
    requires Sub(t, p).Some?
    ensures var name := Sub(t, p).value.name;
      |r| >= |name| && r[|r| - |name|..] == name
    ensures !Sub(t, p).value.hasParent ==> r == Sub(t, p).value.name
    decreases |p|
  {
    var n := Sub(t, p).value;
    if p == [] || !n.hasParent then n.name
    else
      SubPrefix(t, p, p[..|p| - 1]);
      Category(t, p[..|p| - 1]) + "/" + n.name
  }

  lemma {:induction false} NamesAlongSnoc(t: Node, p: Path, i: nat)
    requires Sub(t, p + [i]).Some?
    ensures Sub(t, p).Some?
    ensures NamesAlong(t, p + [i]) == NamesAlong(t, p) + [Sub(t, p + [i]).value.name]
  {
    SubPrefix(t, p + [i], p);
    assert (p + [i])[..|p|] == p;
    if p == [] {
      assert [i][1..] == [];
    } else {
      assert (p + [i])[0] == p[0] && (p + [i])[1..] == p[1..] + [i];
      NamesAlongSnoc(t.children[p[0]], p[1..], i);
    }
  }

  lemma {:induction false} JoinSnoc(parts: seq<string>, s: string)
    requires |parts| >= 1
    ensures Join(parts + [s]) == Join(parts) + "/" + s
  {
    if |parts| > 1 {
      assert (parts + [s])[1..] == parts[1..] + [s];
      JoinSnoc(parts[1..], s);
    }
  }

  /** When every parent pointer on the way to `p` is set, `getCategory` is
      the names from the root down to the node, joined with `/`. */
  lemma {:induction false} CategoryIsJoin(t: Node, p: Path)
    requires Sub(t, p).Some? && Climbs(t, p)
    ensures Category(t, p) == Join([t.name] + NamesAlong(t, p))
    decreases |p|
  {
    if p != [] {
      var up := p[..|p| - 1];
      var i := p[|p| - 1];
      assert p == up + [i];
      SubAppend(t, up, [i]);
      var u := Sub(t, up).value;
      ClimbsAppend(t, up, [i]);
      ClimbsOne(u, i);
      CategoryIsJoin(t, up);
      NamesAlongSnoc(t, up, i);
      JoinSnoc([t.name] + NamesAlong(t, up), Sub(t, p).value.name);
      assert [t.name] + NamesAlong(t, p) == ([t.name] + NamesAlong(t, up)) + [Sub(t, p).value.name];
    }
  }

  /** `isLastChild(ptr)` (lines 186-189) for the node at `p`: false without a
      parent pointer, else whether it is the last of its parent's children,
      that is, whether it has no next sibling. */
  function IsLastChild(t: Node, p: Path): (r: bool)
    requires Sub(t, p).Some?
    ensures r <==> p != [] && Sub(t, p).value.hasParent
                   && Sub(t, p[..|p| - 1] + [p[|p| - 1] + 1]).None?
  {
    if p == [] then false
    else
      SubPrefix(t, p, p[..|p| - 1]);
      SubAppend(t, p[..|p| - 1], [p[|p| - 1]]);
      SubAppend(t, p[..|p| - 1], [p[|p| - 1] + 1]);
      assert p[..|p| - 1] + [p[|p| - 1]] == p;
      Sub(t, p).value.hasParent &&
      match Sub(t, p[..|p| - 1])
      case None => false
      case Some(u) => p[|p| - 1] == |u.children| - 1
  }

  // ---------------------------------------------------------------------
  // insert, remove, getChild

  /** `insert(node, name)` (lines 54-58) as a definition: one new child named
      `name`, with its parent pointer set, after the children of the node at
      `p`. */
  function Inserted(t: Node, p: Path, name: string): Node
    requires Sub(t, p).Some?
  {
    var n := Sub(t, p).value;
    Replace(t, p, n.(children := n.children + [Made(name, true)]))
  }

  /** `remove(node, name)` (lines 61-69) as a definition: the first child of
      the node at `p` named `name` erased, or nothing when there is none. */
  function Removed(t: Node, p: Path, name: string): Node
    requires Sub(t, p).Some?
  {
    var n := Sub(t, p).value;
    match FirstNamed(n.children, name)
    case None => t
    case Some(i) => Replace(t, p, n.(children := Vectors.RemoveAt(n.children, i)))
  }

  /** `getChild(ptr, name)` (lines 112-117) for the node at `p`: the address
      of its first child named `name`, or none when no child has the name. */
  function GetChild(t: Node, p: Path, name: string): (r: Option<Path>)
    requires Sub(t, p).Some?
    ensures r.Some? ==> |r.value| == |p| + 1 && p <= r.value && Sub(t, r.value).Some? && Sub(t, r.value).value.name == name
    ensures r.None? <==> forall j :: 0 <= j < |Sub(t, p).value.children| ==> Sub(t, p).value.children[j].name != name
  {
    match FirstNamed(Sub(t, p).value.children, name)
    case None => None
    case Some(i) =>
      SubChild(t, p, i);
      Some(p + [i])
  }

  /** `insert` adds exactly one node, the new last child of the node at `p`,
      and keeps every other node. */
  lemma InsertedLabels(t: Node, p: Path, name: string)
    requires Sub(t, p).Some?
    ensures var k := |Sub(t, p).value.children|;
      forall q :: Label(Inserted(t, p, name), q) == (if q == p + [k] then Some(Made(name, true)) else Label(t, q))
  {
    var n := Sub(t, p).value;
    var k := |n.children|;
    var m := n.(children := n.children + [Made(name, true)]);
    var r := Inserted(t, p, name);
    ReplaceLabels(t, p, m);
    forall q
      ensures Label(r, q) == if q == p + [k] then Some(Made(name, true)) else Label(t, q)
    {
      if p <= q {
        var s := q[|p|..];
        assert q == p + s;
        SubAppend(t, p, s);
        if s == [] {
        } else if s[0] < k {
          assert Sub(m, s) == Sub(n.children[s[0]], s[1..]) == Sub(n, s);
          assert q != p + [k];
        } else if s[0] == k {
          assert Sub(m, s) == Sub(Made(name, true), s[1..]);
          assert Sub(n, s).None?;
          if s[1..] == [] {
            assert s == [k];
          } else {
            assert q != p + [k];
          }
        } else {
          assert q != p + [k];
        }
      } else {
        assert q != p + [k];
      }
    }
  }

  /** The child `insert` adds is the last child of its parent. */
  lemma InsertedIsLastChild(t: Node, p: Path, name: string)
    requires Sub(t, p).Some?
    ensures Sub(Inserted(t, p, name), p + [|Sub(t, p).value.children|]).Some?
    ensures IsLastChild(Inserted(t, p, name), p + [|Sub(t, p).value.children|])
  {
    var k := |Sub(t, p).value.children|;
    SubChild(Inserted(t, p, name), p, k);
    assert (p + [k])[..|p + [k]| - 1] == p;
  }

  /** `getChild` after `insert` finds the new child when none had its name. */
  lemma InsertThenGetChild(t: Node, p: Path, name: string)
    requires Sub(t, p).Some? && GetChild(t, p, name).None?
    ensures GetChild(Inserted(t, p, name), p, name) == Some(p + [|Sub(t, p).value.children|])
  {
    var n := Sub(t, p).value;
    FirstNamedAppend(n.children, name, Made(name, true));
    SubChild(Inserted(t, p, name), p, |n.children|);
  }

  /** `remove` undoes an `insert` of a name no child had before. */
  lemma RemoveUndoesInsert(t: Node, p: Path, name: string)
    requires Sub(t, p).Some? && GetChild(t, p, name).None?
    ensures Removed(Inserted(t, p, name), p, name) == t
  {
    var n := Sub(t, p).value;
    var cs := n.children + [Made(name, true)];
    FirstNamedAppend(n.children, name, Made(name, true));
    assert Vectors.RemoveAt(cs, |n.children|) == n.children;
    ReplaceTwice(t, p, n.(children := cs), n);
    ReplaceSame(t, p);
  }

  /** Replacing a subtree with one of right counts, the same count and the
      same parent pointer keeps the counts right. */
  lemma {:induction false} ReplaceKeepsCounts(t: Node, p: Path, m: Node)
    requires Sub(t, p).Some? && CountsOk(t) && CountsOk(m)
    requires m.bookCount == Sub(t, p).value.bookCount && m.hasParent == Sub(t, p).value.hasParent
    ensures CountsOk(Replace(t, p, m))
  {
    if p != [] {
      var c := t.children[p[0]];
      var c1 := Replace(c, p[1..], m);
      ReplaceKeepsCounts(c, p[1..], m);
      assert Passed(c1) == Passed(c);
      PassedSumUpdate(t.children, p[0], c1);
      AllCountsOkUpdate(t.children, p[0], c1);
    }
  }

  /** A new child holds no books, so `insert` keeps the counts right. */
  lemma InsertKeepsCounts(t: Node, p: Path, name: string)
    requires Sub(t, p).Some? && CountsOk(t)
    ensures CountsOk(Inserted(t, p, name))
  {
    var n := Sub(t, p).value;
    SubPrefix(t, p, []);
    CountsOkBelow(t, p);
    PassedSumAppend(n.children, Made(name, true));
    var m := n.(children := n.children + [Made(name, true)]);
    AllCountsOkAppend(n.children, Made(name, true));
    ReplaceKeepsCounts(t, p, m);
  }

  /** New categories hold no books, so `createNode`, and the library's
      `addCategory`, keep the counts right. */
  lemma {:induction false} EnsureKeepsCounts(t: Node, segs: seq<string>, linked: bool)
    requires CountsOk(t)
    ensures CountsOk(Ensure(t, segs, linked).0)
    decreases |segs|
  {
    if segs != [] {
      match FirstNamed(t.children, segs[0])
      case Some(i) =>
        var c := t.children[i];
        EnsureKeepsCounts(c, segs[1..], linked);
        var e := Ensure(c, segs[1..], linked).0;
        assert Own(e).bookCount == Own(c).bookCount && Own(e).hasParent == Own(c).hasParent;
        PassedSumUpdate(t.children, i, e);
        AllCountsOkUpdate(t.children, i, e);
      case None =>
        var m := Made(segs[0], linked);
        EnsureKeepsCounts(m, segs[1..], linked);
        var e := Ensure(m, segs[1..], linked).0;
        assert Own(e).bookCount == Own(m).bookCount && Own(e).hasParent == Own(m).hasParent;
        PassedSumAppend(t.children, e);
        AllCountsOkAppend(t.children, e);
    }
  }

  /** Right counts hold at every node of a tree with right counts. */
  lemma {:induction false} CountsOkBelow(t: Node, p: Path)
    requires Sub(t, p).Some? && CountsOk(t)
    ensures CountsOk(Sub(t, p).value)
  {
    if p != [] {
      CountsOkBelow(t.children[p[0]], p[1..]);
    }
  }

  // ---------------------------------------------------------------------
  // createNode, one segment at a time

  /** `Ensure` applied to the node at `p`, in the whole tree: what is left of
      `createNode` (or of the library's `addCategory`) once its loop has
      reached the node at `p`. */
  function EnsureAt(t: Node, p: Path, segs: seq<string>, linked: bool): (Node, Path)
    requires Sub(t, p).Some?
  {
    var e := Ensure(Sub(t, p).value, segs, linked);
    (Replace(t, p, e.0), p + e.1)
  }

  /** A new last child named `name` under the node at `p`, its parent pointer
      set or left null: `insert`, or the library's `addCategory` step. */
  function Attached(t: Node, p: Path, name: string, linked: bool): Node
    requires Sub(t, p).Some?
  {
    var n := Sub(t, p).value;
    Replace(t, p, n.(children := n.children + [Made(name, linked)]))
  }

  /** `createNode`'s step on a name some child has, on the node itself. */
  lemma EnsureFound(n: Node, seg: string, rest: seq<string>, i: nat, linked: bool)
    requires FirstNamed(n.children, seg) == Some(i)
    ensures Ensure(n, [seg] + rest, linked) ==
      (n.(children := n.children[i := Ensure(n.children[i], rest, linked).0]), [i] + Ensure(n.children[i], rest, linked).1)
  {
    assert ([seg] + rest)[0] == seg && ([seg] + rest)[1..] == rest;
  }

  /** `createNode`'s step on a missing name, on the node itself. */
  lemma EnsureMade(n: Node, seg: string, rest: seq<string>, linked: bool)
    requires FirstNamed(n.children, seg).None?
    ensures Ensure(n, [seg] + rest, linked) ==
      (n.(children := n.children + [Ensure(Made(seg, linked), rest, linked).0]), [|n.children|] + Ensure(Made(seg, linked), rest, linked).1)
  {
    assert ([seg] + rest)[0] == seg && ([seg] + rest)[1..] == rest;
  }

  /** `EnsureAt` unfolded, for a known subtree and result. */
  lemma EnsureAtIs(t: Node, p: Path, segs: seq<string>, linked: bool, n: Node, e: (Node, Path))
    requires Sub(t, p) == Some(n) && Ensure(n, segs, linked) == e
    ensures EnsureAt(t, p, segs, linked) == (Replace(t, p, e.0), p + e.1)
  {
  }

  /** The loop's step to an existing child named `seg`. */
  lemma EnsureAtFound(t: Node, p: Path, seg: string, rest: seq<string>, i: nat, linked: bool)
    requires Sub(t, p).Some? && FirstNamed(Sub(t, p).value.children, seg) == Some(i)
    ensures Sub(t, p + [i]).Some?
    ensures EnsureAt(t, p, [seg] + rest, linked) == EnsureAt(t, p + [i], rest, linked)
  {
    var n := Sub(t, p).value;
    SubChild(t, p, i);
    var e := Ensure(n.children[i], rest, linked);
    EnsureFound(n, seg, rest, i, linked);
    EnsureAtIs(t, p, [seg] + rest, linked, n, (n.(children := n.children[i := e.0]), [i] + e.1));
    EnsureAtIs(t, p + [i], rest, linked, n.children[i], e);
    ReplaceChild(t, p, i, e.0);
    ConsAssoc(p, i, e.1);
  }

  /** The loop's step that attaches a new child named `seg`. */
  lemma EnsureAtMade(t: Node, p: Path, seg: string, rest: seq<string>, linked: bool)
    requires Sub(t, p).Some? && FirstNamed(Sub(t, p).value.children, seg).None?
    ensures Sub(Attached(t, p, seg, linked), p + [|Sub(t, p).value.children|]).Some?
    ensures EnsureAt(t, p, [seg] + rest, linked)
         == EnsureAt(Attached(t, p, seg, linked), p + [|Sub(t, p).value.children|], rest, linked)
  {
    var n := Sub(t, p).value;
    var k := |n.children|;
    var made := Made(seg, linked);
    var n' := n.(children := n.children + [made]);
    var t' := Attached(t, p, seg, linked);
    assert Sub(t', p) == Some(n');
    SubChild(t', p, k);
    var e := Ensure(made, rest, linked);
    EnsureMade(n, seg, rest, linked);
    EnsureAtIs(t, p, [seg] + rest, linked, n, (n.(children := n.children + [e.0]), [k] + e.1));
    EnsureAtIs(t', p + [k], rest, linked, made, e);
    ReplaceChild(t', p, k, e.0);
    UpdateLast(n.children, made, e.0);
    ReplaceTwice(t, p, n', n.(children := n.children + [e.0]));
    ConsAssoc(p, k, e.1);
  }

  lemma ConsAssoc<T>(p: seq<T>, i: T, q: seq<T>)
    ensures p + ([i] + q) == p + [i] + q
  {
  }

  lemma UpdateLast<T>(s: seq<T>, x: T, y: T)
    ensures (s + [x])[|s| := y] == s + [y]
  {
  }

  lemma EnsureAtStart(t: Node, segs: seq<string>, linked: bool)
    ensures EnsureAt(t, [], segs, linked) == Ensure(t, segs, linked)
  {
    assert [] + Ensure(t, segs, linked).1 == Ensure(t, segs, linked).1;
  }

  lemma EnsureAtDone(t: Node, p: Path, linked: bool)
    requires Sub(t, p).Some?
    ensures EnsureAt(t, p, [], linked) == (t, p)
  {
    ReplaceSame(t, p);
    assert p + [] == p;
  }

  // ---------------------------------------------------------------------
  // removeBook as a definition

  /** `removeBook(node, title)` (lines 148-167) for the node at `p`: the book
      where the search stops erased from its node, and the count of that node
      and of the nodes its walk up passes lowered by one; the tree unchanged
      when no book has the title. */
  function BookRemoved(t: Node, p: Path, title: string): Node
    requires Sub(t, p).Some?
    reads set b | b in Preorder(Sub(t, p).value)
  {
    match Locate(Sub(t, p).value, title)
    case None => t
    case Some(l) =>
      SubAppend(t, p, l.0);
      var q := p + l.0;
      Credited(Refiled(t, q, Vectors.RemoveAt(Sub(t, q).value.books, l.1)), q, -1)
  }

  /** `removeBook` keeps the counts right. */
  lemma RemoveBookKeepsCounts(t: Node, p: Path, title: string)
    requires Sub(t, p).Some? && CountsOk(t)
    ensures CountsOk(BookRemoved(t, p, title))
  {
    match Locate(Sub(t, p).value, title)
    case None =>
    case Some(l) =>
      SubAppend(t, p, l.0);
      var q := p + l.0;
      var bs := Vectors.RemoveAt(Sub(t, q).value.books, l.1);
      assert |bs| - |Sub(t, q).value.books| == -1;
      assert BookRemoved(t, p, title) == Credited(Refiled(t, q, bs), q, -1);
      RefileKeepsCounts(t, q, bs);
  }

  /** `updateBookCount` changes no book. */
  lemma {:induction false} PreorderCredited(t: Node, p: Path, d: int)
    requires Sub(t, p).Some?
    ensures Preorder(Credited(t, p, d)) == Preorder(t)
  {
    if p != [] {
      var c := t.children[p[0]];
      PreorderCredited(c, p[1..], d);
      PreorderAllUpdate(t.children, p[0], Credited(c, p[1..], d));
    }
  }

  lemma RemoveAtLeft<T>(a: seq<T>, b: seq<T>, i: nat)
    requires i < |a|
    ensures Vectors.RemoveAt(a, i) + b == Vectors.RemoveAt(a + b, i)
  {
    assert (a + b)[..i] == a[..i] && (a + b)[i + 1..] == a[i + 1..] + b;
  }

  lemma RemoveAtRight<T>(a: seq<T>, b: seq<T>, i: nat)
    requires i < |b|
    ensures a + Vectors.RemoveAt(b, i) == Vectors.RemoveAt(a + b, |a| + i)
  {
    assert (a + b)[..|a| + i] == a + b[..i] && (a + b)[|a| + i + 1..] == b[i + 1..];
  }

  /** Erasing the `i`-th own book of `n`, the first with the title. */
  lemma ErasedOwn(n: Node, i: nat, title: string)
    requires FirstTitled(n.books, title) == Some(i)
    ensures FirstTitled(Preorder(n), title) == Some(i)
    ensures Preorder(n.(books := Vectors.RemoveAt(n.books, i))) == Vectors.RemoveAt(Preorder(n), i)
  {
    FirstTitledAppend(n.books, PreorderAll(n.children), title);
    RemoveAtLeft(n.books, PreorderAll(n.children), i);
  }

  /** Erasing below a child of `n`, none of whose own books has the title. */
  lemma ErasedBelow(n: Node, j: nat, c: Node, x: nat, title: string)
    requires j < |n.children| && FirstTitled(n.books, title).None?
    requires FirstTitled(PreorderAll(n.children), title) == Some(x)
    requires PreorderAll(n.children[j := c]) == Vectors.RemoveAt(PreorderAll(n.children), x)
    ensures FirstTitled(Preorder(n), title) == Some(|n.books| + x)
    ensures Preorder(n.(children := n.children[j := c])) == Vectors.RemoveAt(Preorder(n), |n.books| + x)
  {
    FirstTitledAppend(n.books, PreorderAll(n.children), title);
    RemoveAtRight(n.books, PreorderAll(n.children), x);
  }

  /** Erasing below the first of the children `cs`. */
  lemma ErasedFirst(cs: seq<Node>, c: Node, x: nat, title: string)
    requires cs != [] && FirstTitled(Preorder(cs[0]), title) == Some(x)
    requires Preorder(c) == Vectors.RemoveAt(Preorder(cs[0]), x)
    ensures FirstTitled(PreorderAll(cs), title) == Some(x)
    ensures PreorderAll(cs[0 := c]) == Vectors.RemoveAt(PreorderAll(cs), x)
  {
    FirstTitledAppend(Preorder(cs[0]), PreorderAll(cs[1..]), title);
    assert cs[0 := c][1..] == cs[1..];
    RemoveAtLeft(Preorder(cs[0]), PreorderAll(cs[1..]), x);
  }

  /** Erasing below a later one of the children `cs`. */
  lemma ErasedLater(cs: seq<Node>, j: nat, c: Node, x: nat, title: string)
    requires j + 1 < |cs| && FirstTitled(Preorder(cs[0]), title).None?
    requires FirstTitled(PreorderAll(cs[1..]), title) == Some(x)
    requires PreorderAll(cs[1..][j := c]) == Vectors.RemoveAt(PreorderAll(cs[1..]), x)
    ensures FirstTitled(PreorderAll(cs), title) == Some(|Preorder(cs[0])| + x)
    ensures PreorderAll(cs[j + 1 := c]) == Vectors.RemoveAt(PreorderAll(cs), |Preorder(cs[0])| + x)
  {
    FirstLater(cs, x, title);
    UpdatedLater(cs, j, c, x);
  }

  /** The first match among all children lies past the first child's
      books when it has none. */
  lemma FirstLater(cs: seq<Node>, x: nat, title: string)
    requires cs != [] && FirstTitled(Preorder(cs[0]), title).None?
    requires FirstTitled(PreorderAll(cs[1..]), title) == Some(x)
    ensures FirstTitled(PreorderAll(cs), title) == Some(|Preorder(cs[0])| + x)
  {
    assert PreorderAll(cs) == Preorder(cs[0]) + PreorderAll(cs[1..]);
    FirstTitledAppend(Preorder(cs[0]), PreorderAll(cs[1..]), title);
  }

  /** Updating a later child by one that drops the book at `x` of the later
      children's order drops it, shifted, from the whole order. */
  lemma UpdatedLater(cs: seq<Node>, j: nat, c: Node, x: nat)
    requires j + 1 < |cs| && x < |PreorderAll(cs[1..])|
    requires PreorderAll(cs[1..][j := c]) == Vectors.RemoveAt(PreorderAll(cs[1..]), x)
    ensures PreorderAll(cs[j + 1 := c]) == Vectors.RemoveAt(PreorderAll(cs), |Preorder(cs[0])| + x)
  {
    PreorderAllCons(cs);
    UpdateTail(cs, j, c);
    PreorderAllCons(cs[j + 1 := c]);
    RemoveAtRight(Preorder(cs[0]), PreorderAll(cs[1..]), x);
  }

  lemma PreorderAllCons(cs: seq<Node>)
    requires cs != []
    ensures PreorderAll(cs) == Preorder(cs[0]) + PreorderAll(cs[1..])
  {
  }

  lemma UpdateTail<T>(s: seq<T>, j: nat, x: T)
    requires j + 1 < |s|
    ensures s[j + 1 := x] != [] && s[j + 1 := x][0] == s[0] && s[j + 1 := x][1..] == s[1..][j := x]
  {
  }

  /** Refiling below child `j` is refiling inside that child. */
  lemma RefiledBelow(n: Node, j: nat, rest: Path, bs: seq<Book>)
    requires Sub(n, [j] + rest).Some?
    ensures Sub(n.children[j], rest) == Sub(n, [j] + rest)
    ensures Refiled(n, [j] + rest, bs) == n.(children := n.children[j := Refiled(n.children[j], rest, bs)])
  {
    assert ([j] + rest)[0] == j && ([j] + rest)[1..] == rest;
  }

  /** The tree with the book at `l` erased: what `removeBook` does before
      walking the count. */
  function Erased(n: Node, l: (Path, nat)): Node
    requires Sub(n, l.0).Some? && l.1 < |Sub(n, l.0).value.books|
  {
    Refiled(n, l.0, Vectors.RemoveAt(Sub(n, l.0).value.books, l.1))
  }

  /** Erasing the book where the search stops erases the first book with the
      title from the search order, and nothing else. */
  predicate ErasesFirst(n: Node, title: string)
    requires Locate(n, title).Some?
    reads set b | b in Preorder(n)
  {
    FirstTitled(Preorder(n), title).Some? &&
    Preorder(Erased(n, Locate(n, title).value)) == Vectors.RemoveAt(Preorder(n), FirstTitled(Preorder(n), title).value)
  }

  /** The same for the search over the children `cs`, the first of which
      is child `k`. */
  predicate ErasesFirstAmong(cs: seq<Node>, k: nat, title: string)
    requires LocateAmong(cs, k, title).Some?
    reads set b | b in PreorderAll(cs)
  {
    var l := LocateAmong(cs, k, title).value;
    FirstTitled(PreorderAll(cs), title).Some? &&
    PreorderAll(cs[l.0[0] - k := Erased(cs[l.0[0] - k], (l.0[1..], l.1))])
      == Vectors.RemoveAt(PreorderAll(cs), FirstTitled(PreorderAll(cs), title).value)
  }

  lemma {:induction false} LocateRemoves(n: Node, title: string)
    requires Locate(n, title).Some?
    ensures ErasesFirst(n, title)
    decreases n, 2
  {
    match FirstTitled(n.books, title)
    case Some(i) =>
      ErasedOwn(n, i, title);
    case None =>
      var l := LocateAmong(n.children, 0, title).value;
      assert Locate(n, title) == Some(l);
      LocateAmongRemoves(n.children, 0, title);
      var j := l.0[0];
      assert l.0 == [j] + l.0[1..];
      RefiledBelow(n, j, l.0[1..], Vectors.RemoveAt(Sub(n, l.0).value.books, l.1));
      ErasedBelow(n, j, Erased(n.children[j], (l.0[1..], l.1)), FirstTitled(PreorderAll(n.children), title).value, title);
  }

  lemma {:induction false} LocateAmongRemoves(cs: seq<Node>, k: nat, title: string)
    requires LocateAmong(cs, k, title).Some?
    ensures ErasesFirstAmong(cs, k, title)
    decreases cs, 1
  {
    if Locate(cs[0], title).Some? {
      HeadRemoves(cs, k, title);
    } else {
      TailRemoves(cs, k, title);
    }
  }

  lemma {:induction false} HeadRemoves(cs: seq<Node>, k: nat, title: string)
    requires cs != [] && Locate(cs[0], title).Some?
    ensures LocateAmong(cs, k, title).Some? && ErasesFirstAmong(cs, k, title)
    decreases cs, 0
  {
    var m := Locate(cs[0], title).value;
    LocateRemoves(cs[0], title);
    ErasedFirst(cs, Erased(cs[0], m), FirstTitled(Preorder(cs[0]), title).value, title);
  }

  lemma {:induction false} TailRemoves(cs: seq<Node>, k: nat, title: string)
    requires cs != [] && Locate(cs[0], title).None? && LocateAmong(cs, k, title).Some?
    ensures ErasesFirstAmong(cs, k, title)
    decreases cs, 0
  {
    LocateAmongRemoves(cs[1..], k + 1, title);
    var l := LocateAmong(cs[1..], k + 1, title).value;
    var j := l.0[0] - (k + 1);
    ShiftRemoves(cs, k, title, j, Erased(cs[1..][j], (l.0[1..], l.1)), FirstTitled(PreorderAll(cs[1..]), title).value);
  }

  /** The step of `TailRemoves` from what erasing does among the later
      children to what it does among all. */
  lemma ShiftRemoves(cs: seq<Node>, k: nat, title: string, j: nat, c: Node, x: nat)
    requires cs != [] && Locate(cs[0], title).None? && LocateAmong(cs[1..], k + 1, title).Some?
    requires j == LocateAmong(cs[1..], k + 1, title).value.0[0] - (k + 1) && j < |cs[1..]|
    requires c == Erased(cs[1..][j], (LocateAmong(cs[1..], k + 1, title).value.0[1..], LocateAmong(cs[1..], k + 1, title).value.1))
    requires FirstTitled(PreorderAll(cs[1..]), title) == Some(x)
    requires PreorderAll(cs[1..][j := c]) == Vectors.RemoveAt(PreorderAll(cs[1..]), x)
    ensures LocateAmong(cs, k, title).Some? && ErasesFirstAmong(cs, k, title)
  {
    ShiftErases(cs, k, title, j, c, x);
    AmongIntro(cs, k, title, j + 1, c, |Preorder(cs[0])| + x);
  }

  /** When the search passes over the first child and erasing the book where
      it stops among the others (the `j`-th of them, which becomes `c`)
      erases the first with the title there, erasing it erases the first
      with the title among all. */
  lemma ShiftErases(cs: seq<Node>, k: nat, title: string, j: nat, c: Node, x: nat)
    requires cs != [] && Locate(cs[0], title).None? && LocateAmong(cs[1..], k + 1, title).Some?
    requires j == LocateAmong(cs[1..], k + 1, title).value.0[0] - (k + 1) && j < |cs[1..]|
    requires c == Erased(cs[1..][j], (LocateAmong(cs[1..], k + 1, title).value.0[1..], LocateAmong(cs[1..], k + 1, title).value.1))
    requires FirstTitled(PreorderAll(cs[1..]), title) == Some(x)
    requires PreorderAll(cs[1..][j := c]) == Vectors.RemoveAt(PreorderAll(cs[1..]), x)
    ensures LocateAmong(cs, k, title).Some? && j + 1 == LocateAmong(cs, k, title).value.0[0] - k && j + 1 < |cs|
    ensures c == Erased(cs[j + 1], (LocateAmong(cs, k, title).value.0[1..], LocateAmong(cs, k, title).value.1))
    ensures FirstTitled(PreorderAll(cs), title) == Some(|Preorder(cs[0])| + x)
    ensures PreorderAll(cs[j + 1 := c]) == Vectors.RemoveAt(PreorderAll(cs), |Preorder(cs[0])| + x)
  {
    LocateIsPreorderFirst(cs[0], title);
    LocateAmongSkip(cs, k, title);
    ErasedLater(cs, j, c, x, title);
    assert cs[j + 1] == cs[1..][j];
  }

  /** `ErasesFirstAmong` from its parts: where the search stops, the node
      there with the book erased, and the first match in the search order. */
  lemma AmongIntro(cs: seq<Node>, k: nat, title: string, i: nat, c: Node, x: nat)
    requires LocateAmong(cs, k, title).Some? && i == LocateAmong(cs, k, title).value.0[0] - k && i < |cs|
    requires c == Erased(cs[i], (LocateAmong(cs, k, title).value.0[1..], LocateAmong(cs, k, title).value.1))
    requires FirstTitled(PreorderAll(cs), title) == Some(x)
    requires PreorderAll(cs[i := c]) == Vectors.RemoveAt(PreorderAll(cs), x)
    ensures ErasesFirstAmong(cs, k, title)
  {
  }

  /** With no book with the title under the first child, the search goes on
      among the others. */
  lemma LocateAmongSkip(cs: seq<Node>, k: nat, title: string)
    requires cs != [] && Locate(cs[0], title).None?
    ensures LocateAmong(cs, k, title) == LocateAmong(cs[1..], k + 1, title)
  {
  }

  /** `removeBook(root, title)` erases exactly the first book with the title
      in search order, the one `findBook(root, title)` returns; with none,
      the catalog stays. */
  lemma RemovedFromCatalog(t: Node, title: string)
    ensures Preorder(BookRemoved(t, [], title)) ==
      match FirstTitled(Preorder(t), title)
      case None => Preorder(t)
      case Some(i) => Vectors.RemoveAt(Preorder(t), i)
  {
    LocateIsPreorderFirst(t, title);
    match Locate(t, title)
    case None =>
    case Some(l) =>
      assert [] + l.0 == l.0;
      PreorderCredited(Erased(t, l), l.0, -1);
      LocateRemoves(t, title);
      assert ErasesFirst(t, title);
  }

  /** Where the loop of `updateBookCount` stands: `root` is `t` with
      `offset` added to the nodes on the way to `p` from depth `low` down. */
  ghost predicate Walked(root: Node, t: Node, p: Path, low: nat, offset: int)
  {
    forall q {:trigger Label(root, q)} :: Label(root, q) == Shift(Label(t, q), if q <= p && |q| >= low then offset else 0)
  }

  lemma WalkedStart(t: Node, p: Path, offset: int)
    ensures Walked(t, t, p, |p| + 1, offset)
  {
    forall q
      ensures Label(t, q) == Shift(Label(t, q), if q <= p && |q| >= |p| + 1 then offset else 0)
    {
      if q <= p {
        assert |q| <= |p|;
      }
    }
  }

  lemma WalkedSub(root: Node, t: Node, p: Path, low: nat, offset: int, cur: Path)
    requires Walked(root, t, p, low, offset) && Sub(t, cur).Some?
    ensures Sub(root, cur).Some? && Sub(root, cur).value.hasParent == Sub(t, cur).value.hasParent
  {
    assert Label(root, cur) == Shift(Label(t, cur), if cur <= p && |cur| >= low then offset else 0);
  }

  lemma WalkedStep(root: Node, t: Node, p: Path, cur: Path, offset: int)
    requires Walked(root, t, p, |cur| + 1, offset) && cur <= p && Sub(root, cur).Some?
    ensures Walked(Replace(root, cur, Sub(root, cur).value.(bookCount := Sub(root, cur).value.bookCount + offset)), t, p, |cur|, offset)
  {
    var r := Replace(root, cur, Sub(root, cur).value.(bookCount := Sub(root, cur).value.bookCount + offset));
    RecountLabels(root, cur, offset);
    forall q
      ensures Label(r, q) == Shift(Label(t, q), if q <= p && |q| >= |cur| then offset else 0)
    {
      assert Label(r, q) == Shift(Label(root, q), if q == cur then offset else 0);
      if q <= p && |q| == |cur| {
        assert q == p[..|q|] == cur;
      }
    }
  }

  /** The walk up from `p` has reached the node at `cur`. */
  ghost predicate ClimbingAt(t: Node, p: Path, cur: Path)
  {
    cur <= p && Sub(t, cur).Some? && Climbs(Sub(t, cur).value, p[|cur|..])
  }

  /** The walk up from `p` stopped at the node at `p[..low]`, which has no
      parent. */
  ghost predicate StoppedAt(t: Node, p: Path, low: nat)
  {
    low <= |p| && Sub(t, p[..low]).Some? && Climbs(Sub(t, p[..low]).value, p[low..])
    && !Sub(t, p[..low]).value.hasParent
  }

  /** One round of the `updateBookCount` loop at the node at `cur`: the node
      gains `offset`. */
  lemma CountStep(root: Node, t: Node, p: Path, cur: Path, offset: int)
    requires ClimbingAt(t, p, cur) && Walked(root, t, p, |cur| + 1, offset)
    ensures Sub(root, cur).Some? && Sub(root, cur).value.hasParent == Sub(t, cur).value.hasParent
    ensures var n := Sub(root, cur).value;
      var counted := Replace(root, cur, n.(bookCount := n.bookCount + offset));
      counted.hasParent == t.hasParent && Walked(counted, t, p, |cur|, offset)
  {
    WalkedSub(root, t, p, |cur| + 1, offset, cur);
    WalkedStep(root, t, p, cur, offset);
    var n := Sub(root, cur).value;
    var counted := Replace(root, cur, n.(bookCount := n.bookCount + offset));
    assert Label(counted, []) == Shift(Label(t, []), if [] <= p && 0 >= |cur| then offset else 0);
  }

  /** After counting the node at `cur`, the walk moves to its parent or
      stops there. */
  lemma ClimbOrStop(t: Node, p: Path, cur: Path)
    requires !t.hasParent && Sub(t, p).Some? && ClimbingAt(t, p, cur)
    ensures Sub(t, cur).value.hasParent ==> cur != [] && ClimbingAt(t, p, cur[..|cur| - 1])
    ensures !Sub(t, cur).value.hasParent ==> StoppedAt(t, p, |cur|)
  {
    assert cur == p[..|cur|];
    if Sub(t, cur).value.hasParent {
      ClimbStep(t, p, cur);
    }
  }

  lemma WalkedEnd(root: Node, t: Node, p: Path, low: nat, offset: int)
    requires Walked(root, t, p, low, offset) && Sub(t, p).Some? && low <= |p|
    requires Sub(t, p[..low]).Some? && Climbs(Sub(t, p[..low]).value, p[low..])
    requires !Sub(t, p[..low]).value.hasParent
    ensures root == Credited(t, p, offset)
  {
    WalkStops(t, p, low);
    CreditedLabels(t, p, offset);
    LabelsDetermine(root, Credited(t, p, offset));
  }

  // ---------------------------------------------------------------------
  // The tree object

  /** A `Tree` (tree.h): the root node and everything below it. */
  class Tree {
    var root: Node

    /** The root never has a parent. */
    ghost predicate Valid()
      reads this
    {
      !root.hasParent
    }

    /** `Tree(rootName)` (lines 39-41): a single node. */
    constructor (rootName: string)
      ensures Valid() && root == NewNode(rootName)
    {
      root := NewNode(rootName);
    }

    /** `insert(node, name)` (lines 54-58) on the node at `p`. */
    method Insert(p: Path, name: string)
      requires Valid() && Sub(root, p).Some?
      modifies this
      ensures Valid() && root == Inserted(old(root), p, name)
    {
      var n := Sub(root, p).value;
      root := Replace(root, p, n.(children := n.children + [Made(name, true)]));
    }

    /** `remove(node, name)` (lines 61-69) on the node at `p`: the loop over
        its children erases the first one named `name`. */
    method Remove(p: Path, name: string)
      requires Valid() && Sub(root, p).Some?
      modifies this
      ensures Valid() && root == Removed(old(root), p, name)
    {
      var n := Sub(root, p).value;
      var i := 0;
      while i < |n.children|
        invariant i <= |n.children|
        invariant forall j :: 0 <= j < i ==> n.children[j].name != name
      {
        if n.children[i].name == name {
          assert FirstNamed(n.children, name) == Some(i);
          root := Replace(root, p, n.(children := Vectors.RemoveAt(n.children, i)));
          return;
        }
        i := i + 1;
      }
    }

    /** One pass of `createNode`'s loop (lines 94-100), or its last step
        (lines 103-107): the child of the node at `cur` named `category`,
        inserted first when there is none. */
    method Descend(cur: Path, category: string) returns (next: Path)
      requires Valid() && Sub(root, cur).Some?
      modifies this
      ensures Valid() && Sub(root, next).Some?
      ensures forall rest :: EnsureAt(root, next, rest, true) == old(EnsureAt(root, cur, [category] + rest, true))
    {
      var child := GetChild(root, cur, category);
      if child.None? {
        ghost var t := root;
        Insert(cur, category);
        InsertThenGetChild(t, cur, category);
        child := GetChild(root, cur, category);
        assert root == Attached(t, cur, category, true);
        forall rest
          ensures EnsureAt(root, child.value, rest, true) == EnsureAt(t, cur, [category] + rest, true)
        {
          EnsureAtMade(t, cur, category, rest, true);
        }
      } else {
        var i := FirstNamed(Sub(root, cur).value.children, category).value;
        forall rest
          ensures EnsureAt(root, cur + [i], rest, true) == EnsureAt(root, cur, [category] + rest, true)
        {
          EnsureAtFound(root, cur, category, rest, i, true);
        }
      }
      next := child.value;
    }

    /** `createNode(path)` (lines 90-109): the loop cuts `path` at each `/`
        and descends, inserting missing nodes; it returns the last node. */
    method CreateNode(path: string) returns (r: Path)
      requires Valid()
      modifies this
      ensures Valid() && (root, r) == Ensure(old(root), Segments(path), true)
    {
      ghost var goal := Ensure(root, Segments(path), true);
      EnsureAtStart(root, Segments(path), true);
      var rest := path;
      var cur: Path := [];
      ghost var segs := Segments(path);
      var pos := Find(rest, '/');
      while pos.Some?
        invariant Valid() && Sub(root, cur).Some? && segs == Segments(rest) && pos == Find(rest, '/')
        invariant EnsureAt(root, cur, segs, true) == goal
        decreases |rest|
      {
        var category := rest[..pos.value];
        ghost var later := Segments(rest[pos.value + 1..]);
        assert segs == [category] + later;
        cur := Descend(cur, category);
        assert EnsureAt(root, cur, later, true) == goal;
        rest := rest[pos.value + 1..];
        segs := later;
        pos := Find(rest, '/');
      }
      assert segs == [rest] + [];
      cur := Descend(cur, rest);
      assert EnsureAt(root, cur, [], true) == goal;
      EnsureAtDone(root, cur, true);
      r := cur;
    }

    /** `updateBookCount(ptr, offset)` (lines 120-125) from the node at `p`:
        the loop adds `offset` to a node and moves to its parent, until a
        node without a parent pointer. */
    method UpdateBookCount(p: Path, offset: int)
      requires Valid() && Sub(root, p).Some?
      modifies this
      ensures Valid() && root == Credited(old(root), p, offset)
    {
      ghost var t := root;
      var cur := p;
      var walking := true;
      ghost var low: nat := |p| + 1;
      WalkedStart(t, p, offset);
      assert p[|p|..] == [];
      while walking
        invariant Valid() && Walked(root, t, p, low, offset)
        invariant walking ==> ClimbingAt(t, p, cur) && low == |cur| + 1
        invariant !walking ==> StoppedAt(t, p, low)
        decreases if walking then |cur| + 1 else 0
      {
        CountStep(root, t, p, cur, offset);
        ClimbOrStop(t, p, cur);
        var n := Sub(root, cur).value;
        root := Replace(root, cur, n.(bookCount := n.bookCount + offset));
        low := |cur|;
        if n.hasParent {
          cur := cur[..|cur| - 1];
        } else {
          walking := false;
        }
      }
      WalkedEnd(root, t, p, low, offset);
    }

    /** `removeBook(node, title)` (lines 148-167) from the node at `p`: the
        search it shares with `findBook` (`Locate`) finds the book; it is
        erased from its node and the count walked down from there. Says
        whether a book was removed. */
    method RemoveBook(p: Path, title: string) returns (removed: bool)
      requires Valid() && Sub(root, p).Some?
      modifies this
      ensures Valid() && root == old(BookRemoved(root, p, title))
      ensures removed == old(Locate(Sub(root, p).value, title)).Some?
    {
      var l := Locate(Sub(root, p).value, title);
      if l.None? {
        return false;
      }
      SubAppend(root, p, l.value.0);
      var q := p + l.value.0;
      var m := Sub(root, q).value;
      root := Replace(root, q, m.(books := Vectors.RemoveAt(m.books, l.value.1)));
      UpdateBookCount(q, -1);
      removed := true;
    }
  }
}
