/** Data_Structures/Assignment2/nm4358/lcms.cpp: the Library Circulation
    Management System on top of the category tree. It files books under
    categories, lends and takes back copies, edits books, adds and removes
    categories, and reads and writes the catalogue as CSV.

    The console prompts become parameters: each operation takes the values
    the user would type. The `LCMS` object is the class `Lcms`; its tree is a
    `Trees.Tree` object and its borrowers a sequence of `Books.Borrower`
    objects, updated in place as in the source. */
module LibrarySystem {
  import opened Outcomes
  import opened Books
  import opened Text
  import opened Trees
  import opened Csv
  import Vectors

  // ---------------------------------------------------------------------
  // The stack walk of findCategory, removeCategory, editCategory, exportData

  /** The addresses the stack loops (lines 133-195, 557-573, 592-607,
      642-657) pop, for the subtree `n` at address `p`: the node itself, then
      the subtrees of its children from the last to the first, since the
      last child pushed is the first popped. */
  function Visit(n: Node, p: Path): (r: seq<Path>)
    ensures |r| >= 1 && r[0] == p
    decreases n, 1
  {
    [p] + VisitKids(n, p, |n.children|)
  }

  /** The subtrees of the first `k` children of `n`, child `k - 1` first. */
  function VisitKids(n: Node, p: Path, k: nat): seq<Path>
    requires k <= |n.children|
    decreases n, 0, k
  {
    if k == 0 then [] else Visit(n.children[k - 1], p + [k - 1]) + VisitKids(n, p, k - 1)
  }

  /** What is left to pop from `stack` (top last), in the order it is popped:
      each address on the stack stands for its whole subtree. */
  function Pending(t: Node, stack: seq<Path>): seq<Path>
  {
    if stack == [] then []
    else
      var q := stack[|stack| - 1];
      (match Sub(t, q) case None => [] case Some(n) => Visit(n, q)) + Pending(t, stack[..|stack| - 1])
  }

  /** Every address on the stack leads to a node. */
  predicate OnTree(t: Node, stack: seq<Path>)
  {
    forall k :: 0 <= k < |stack| ==> Sub(t, stack[k]).Some?
  }

  /** Whether the node at `q` is named `name`. */
  predicate Called(t: Node, q: Path, name: string)
  {
    match Sub(t, q) case None => false case Some(n) => n.name == name
  }

  /** The first address in `qs` whose node is named `name`. */
  function FirstCalled(t: Node, qs: seq<Path>, name: string): (r: Option<Path>)
    ensures r.Some? ==> Called(t, r.value, name)
  {
    if qs == [] then None
    else if Called(t, qs[0], name) then Some(qs[0])
    else FirstCalled(t, qs[1..], name)
  }

  /** The search over `qs` finds nothing exactly when no node there has the
      name, and what it finds is the first with the name. */
  lemma {:induction false} FirstCalledIsFirst(t: Node, qs: seq<Path>, name: string)
    ensures FirstCalled(t, qs, name).None? <==> forall k :: 0 <= k < |qs| ==> !Called(t, qs[k], name)
    ensures FirstCalled(t, qs, name).Some? ==>
      exists k :: 0 <= k < |qs| && qs[k] == FirstCalled(t, qs, name).value && forall j :: 0 <= j < k ==> !Called(t, qs[j], name)
  {
    if qs != [] && !Called(t, qs[0], name) {
      FirstCalledIsFirst(t, qs[1..], name);
      assert forall k :: 1 <= k < |qs| ==> qs[k] == qs[1..][k - 1];
      if FirstCalled(t, qs, name).Some? {
        var k :| 0 <= k < |qs| - 1 && qs[1..][k] == FirstCalled(t, qs, name).value && forall j :: 0 <= j < k ==> !Called(t, qs[1..][j], name);
        assert qs[k + 1] == FirstCalled(t, qs, name).value;
      }
    } else if qs != [] {
      assert qs[0] == FirstCalled(t, qs, name).value;
    }
  }

  /** Where the stack loops of `findCategory`, `removeCategory` and
      `editCategory` stop: the first node named `name` they pop. */
  function Search(t: Node, name: string): (r: Option<Path>)
    ensures r.Some? ==> Sub(t, r.value).Some? && Sub(t, r.value).value.name == name
  {
    FirstCalled(t, Visit(t, []), name)
  }

  /** The walk from the node at `p` pops exactly the addresses below `p`. */
  lemma {:induction false} VisitCovers(n: Node, p: Path)
    ensures forall q :: q in Visit(n, p) <==> p <= q && Sub(n, q[|p|..]).Some?
    decreases n, 1
  {
    VisitKidsCover(n, p, |n.children|);
    forall q | p <= q && Sub(n, q[|p|..]).Some?
      ensures q in Visit(n, p)
    {
      if |q| == |p| {
        assert q == p;
      }
    }
  }

  lemma {:induction false} VisitKidsCover(n: Node, p: Path, k: nat)
    requires k <= |n.children|
    ensures forall q :: q in VisitKids(n, p, k) <==>
      |p| < |q| && p <= q && q[|p|] < k && Sub(n, q[|p|..]).Some?
    decreases n, 0, k
  {
    if k > 0 {
      var c := n.children[k - 1];
      VisitCovers(c, p + [k - 1]);
      VisitKidsCover(n, p, k - 1);
      forall q
        ensures q in Visit(c, p + [k - 1]) <==> |p| < |q| && p <= q && q[|p|] == k - 1 && Sub(n, q[|p|..]).Some?
      {
        KidAddress(n, p, k, q);
      }
    }
  }

  /** An address below child `k - 1` of the node at `p`, seen from the child
      and from the node. */
  lemma KidAddress(n: Node, p: Path, k: nat, q: Path)
    requires 0 < k <= |n.children|
    ensures (p + [k - 1] <= q && Sub(n.children[k - 1], q[|p| + 1..]).Some?) <==>
      (|p| < |q| && p <= q && q[|p|] == k - 1 && Sub(n, q[|p|..]).Some?)
  {
    if |p| < |q| && p <= q {
      assert q[|p|..] == [q[|p|]] + q[|p| + 1..];
      assert q[|p|..][1..] == q[|p| + 1..];
      PrefixSnoc(p, k - 1, q);
    }
  }

  /** `p + [i]` starts `q` when `p` does and `q` has `i` next. */
  lemma PrefixSnoc(p: Path, i: nat, q: Path)
    requires |p| < |q| && p <= q
    ensures p + [i] <= q <==> q[|p|] == i
    ensures p + [i] <= q ==> q[|p| + 1..] == q[|p|..][1..]
  {
    if q[|p|] == i {
      assert q[..|p| + 1] == q[..|p|] + [q[|p|]];
    }
  }

  /** The search finds a node exactly when some node has the name: it
      visits every node. */
  lemma SearchFindsAny(t: Node, name: string)
    ensures Search(t, name).None? <==> forall q :: !Called(t, q, name)
  {
    VisitCovers(t, []);
    var v := Visit(t, []);
    FirstCalledIsFirst(t, v, name);
    if Search(t, name).None? {
      forall q | Sub(t, q).Some?
        ensures !Called(t, q, name)
      {
        assert q[0..] == q;
        assert q in v;
        var k :| 0 <= k < |v| && v[k] == q;
        assert !Called(t, v[k], name);
      }
    } else {
      var q := Search(t, name).value;
      assert Called(t, q, name);
    }
  }

  /** Exactly one node of `t` is named `name`: the one at `q`. */
  ghost predicate OnlyCalled(t: Node, q: Path, name: string)
  {
    Called(t, q, name) && forall q' :: Called(t, q', name) ==> q' == q
  }

  /** When only one node has the name, the search stops there. */
  lemma SearchUnique(t: Node, q: Path, name: string)
    requires OnlyCalled(t, q, name)
    ensures Search(t, name) == Some(q)
  {
    SearchFindsAny(t, name);
    assert Called(t, Search(t, name).value, name);
  }

  /** The root is popped first: a root with the name is what the search
      finds. */
  lemma SearchRootFirst(t: Node, name: string)
    requires t.name == name
    ensures Search(t, name) == Some([])
  {
    assert Called(t, Visit(t, [])[0], name);
  }

  lemma PendingPush(t: Node, stack: seq<Path>, q: Path, n: Node)
    requires Sub(t, q) == Some(n)
    ensures Pending(t, stack + [q]) == Visit(n, q) + Pending(t, stack)
  {
    assert (stack + [q])[..|stack|] == stack;
  }

  lemma PendingPop(t: Node, stack: seq<Path>, n: Node)
    requires stack != [] && Sub(t, stack[|stack| - 1]) == Some(n)
    ensures Pending(t, stack) == [stack[|stack| - 1]] + (VisitKids(n, stack[|stack| - 1], |n.children|) + Pending(t, stack[..|stack| - 1]))
  {
    Assoc([stack[|stack| - 1]], VisitKids(n, stack[|stack| - 1], |n.children|), Pending(t, stack[..|stack| - 1]));
  }

  lemma FirstCalledCons(t: Node, q: Path, rest: seq<Path>, name: string)
    requires !Called(t, q, name)
    ensures FirstCalled(t, [q] + rest, name) == FirstCalled(t, rest, name)
  {
    assert ([q] + rest)[1..] == rest;
  }

  lemma Assoc<T>(a: seq<T>, b: seq<T>, c: seq<T>)
    ensures a + (b + c) == a + b + c
  {
  }

  // ---------------------------------------------------------------------
  // addCategory, removeCategory, editCategory as definitions

  /** The pieces `getline(ss, part, '/')` reads from a name (lines 514-518):
      the text between slashes, an empty piece between two slashes, and none
      after a slash at the very end. */
  function Parts(s: string): (r: seq<string>)
    ensures r == [] <==> s == []
    decreases |s|
  {
    if s == [] then []
    else match Find(s, '/')
      case None => [s]
      case Some(i) => [s[..i]] + Parts(s[i + 1..])
  }

  /** The pieces are the cut of `getNode` and `createNode`, except for a
      slash at the end, which those read as a last, empty name. */
  lemma {:induction false} PartsAreSegments(s: string)
    requires s != [] && s[|s| - 1] != '/'
    ensures Parts(s) == Segments(s)
    decreases |s|
  {
    match Find(s, '/')
    case None =>
    case Some(i) =>
      assert s[i + 1..][|s[i + 1..]| - 1] == s[|s| - 1];
      PartsAreSegments(s[i + 1..]);
  }

  /** A slash at the end adds nothing to the pieces `addCategory` reads. */
  lemma {:induction false} PartsTrailingSlash(s: string)
    requires s != [] && s[|s| - 1] != '/'
    ensures Parts(s + "/") == Parts(s)
    decreases |s|
  {
    match Find(s, '/')
    case None =>
      CutAtSlash(s, "");
      assert s + "/" == s + "/" + "";
    case Some(i) =>
      var h, rest := s[..i], s[i + 1..];
      SlashSplit(s, i);
      CutAtSlash(h, rest + "/");
      assert rest[|rest| - 1] == s[|s| - 1];
      PartsTrailingSlash(rest);
  }

  /** A slash at the end adds an empty name to the cut of `getNode` and
      `createNode`. */
  lemma {:induction false} SegmentsTrailingSlash(s: string)
    ensures Segments(s + "/") == Segments(s) + [""]
    decreases |s|
  {
    match Find(s, '/')
    case None =>
      CutAtSlash(s, "");
      assert s + "/" == s + "/" + "";
      assert Find("", '/').None?;
    case Some(i) =>
      var h, rest := s[..i], s[i + 1..];
      SlashSplit(s, i);
      CutAtSlash(h, rest + "/");
      SegmentsTrailingSlash(rest);
  }

  /** `s` cut at its first slash, at `i`. */
  lemma SlashSplit(s: string, i: nat)
    requires Find(s, '/') == Some(i)
    ensures '/' !in s[..i]
    ensures s + "/" == s[..i] + "/" + (s[i + 1..] + "/")
  {
    assert s == s[..i] + "/" + s[i + 1..];
  }

  /** `addCategory(category)` (lines 504-545) as a definition: an empty name
      changes nothing; otherwise each piece, from the root down, takes the
      first child with that name, or a new last child when there is none.
      As written, the new children keep a null parent pointer (`linked`
      false). */
  function AddedCategory(t: Node, category: string, linked: bool): Node
  {
    if category == [] then t else Ensure(t, Parts(category), linked).0
  }

  datatype RemoveStatus = NoCategory | RootRefused | CategoryRemoved

  /** `removeCategory(category)` (lines 582-626) as a definition: the search
      stops at the first node named `category`; a node with a parent pointer
      is erased from its parent's children (the first child there with the
      name), a node without one is refused as the root. */
  function CategoryRemoval(t: Node, category: string): (r: (Node, RemoveStatus))
    requires !t.hasParent
  {
    match Search(t, category)
    case None => (t, NoCategory)
    case Some(q) =>
      if !Sub(t, q).value.hasParent then (t, RootRefused)
      else
        SubPrefix(t, q, q[..|q| - 1]);
        (Removed(t, q[..|q| - 1], category), CategoryRemoved)
  }

  datatype EditStatus = NoSuchCategory | InvalidName | Renamed

  /** `editCategory(category)` (lines 631-675), with the name the user types
      as `newName`: the search stops at the first node named `category`,
      which takes the new name unless it is empty or the same. */
  function CategoryRenamed(t: Node, category: string, newName: string): (r: (Node, EditStatus))
  {
    match Search(t, category)
    case None => (t, NoSuchCategory)
    case Some(q) =>
      if newName == [] || newName == category then (t, InvalidName)
      else (Replace(t, q, Sub(t, q).value.(name := newName)), Renamed)
  }

  /** The root is never removed: its own fields stay, and a root with the
      name stops the search and is refused. */
  lemma RemovalKeepsRoot(t: Node, category: string)
    requires !t.hasParent
    ensures Own(CategoryRemoval(t, category).0) == Own(t)
    ensures t.name == category ==> CategoryRemoval(t, category) == (t, RootRefused)
  {
    if t.name == category {
      SearchRootFirst(t, category);
    }
  }

  /** A node with a name no node of `t` has, attached as the new last child
      of the root: the only node with that name. */
  lemma AttachedOnly(t: Node, name: string, linked: bool)
    requires forall q :: !Called(t, q, name)
    ensures OnlyCalled(t.(children := t.children + [Made(name, linked)]), [|t.children|], name)
  {
    var k := |t.children|;
    var t' := t.(children := t.children + [Made(name, linked)]);
    assert !Called(t, [], name);
    assert Sub(t', [k]) == Some(Made(name, linked));
    forall q | q != [k]
      ensures !Called(t', q, name)
    {
      if q == [] {
        assert !Called(t, q, name);
      } else if q[0] != k {
        assert Sub(t', q) == Sub(t, q);
        assert !Called(t, q, name);
      } else {
        assert q == [k] + q[1..];
        assert Sub(t', q) == Sub(Made(name, linked), q[1..]);
      }
    }
  }

  lemma NoChildCalled(t: Node, name: string)
    requires forall q :: !Called(t, q, name)
    ensures FirstNamed(t.children, name).None?
  {
    forall j | 0 <= j < |t.children|
      ensures t.children[j].name != name
    {
      assert [j][1..] == [];
      assert Sub(t, [j]) == Some(t.children[j]);
      assert !Called(t, [j], name);
    }
  }

  /** With `'/'` not in `name` and no node named `name` yet, `addCategory`
      attaches one new last child to the root. */
  lemma AddedOne(t: Node, name: string, linked: bool)
    requires name != [] && '/' !in name && forall q :: !Called(t, q, name)
    ensures AddedCategory(t, name, linked) == t.(children := t.children + [Made(name, linked)])
  {
    assert Parts(name) == [name] + [];
    NoChildCalled(t, name);
    EnsureMade(t, name, [], linked);
  }

  /** As written: a category `addCategory` has just made under the root can
      not be removed, since its parent pointer is null and `removeCategory`
      takes it for the root. */
  lemma AddedCategoryStuck(t: Node, name: string)
    requires !t.hasParent && name != [] && '/' !in name && forall q :: !Called(t, q, name)
    ensures CategoryRemoval(AddedCategory(t, name, false), name) == (AddedCategory(t, name, false), RootRefused)
  {
    var t' := AddedCategory(t, name, false);
    AddedOne(t, name, false);
    AttachedOnly(t, name, false);
    SearchUnique(t', [|t.children|], name);
    assert Sub(t', [|t.children|]) == Some(Made(name, false));
  }

  /** With the parent pointers set, as `insert` and `createNode` do,
      removing a category just added gives the catalogue back. */
  lemma AddThenRemove(t: Node, name: string)
    requires !t.hasParent && name != [] && '/' !in name && forall q :: !Called(t, q, name)
    ensures CategoryRemoval(AddedCategory(t, name, true), name) == (t, CategoryRemoved)
  {
    var k := |t.children|;
    var t' := AddedCategory(t, name, true);
    AddedOne(t, name, true);
    AttachedOnly(t, name, true);
    SearchUnique(t', [k], name);
    assert Sub(t', [k]) == Some(Made(name, true));
    assert [k][..0] == [];
    NoChildCalled(t, name);
    FirstNamedAppend(t.children, name, Made(name, true));
    assert Vectors.RemoveAt(t'.children, k) == t.children;
  }

  /** Renaming a category to a name no node has, and back, gives the
      catalogue back. */
  lemma RenameRoundTrip(t: Node, a: string, b: string)
    requires Search(t, a).Some? && a != [] && b != [] && a != b
    requires forall q :: !Called(t, q, b)
    ensures CategoryRenamed(t, a, b).1 == Renamed
    ensures CategoryRenamed(CategoryRenamed(t, a, b).0, b, a) == (t, Renamed)
  {
    var q := Search(t, a).value;
    var n := Sub(t, q).value;
    var m := n.(name := b);
    var t' := Replace(t, q, m);
    ReplaceLabels(t, q, m);
    forall q' | Called(t', q', b)
      ensures q' == q
    {
      assert Label(t', q').Some? && Label(t', q').value.name == b;
      if q <= q' && q' != q {
        var rest := q'[|q|..];
        assert q' == q + rest;
        SubAppend(t, q, rest);
        assert Sub(m, rest) == Sub(n, rest);
        assert Called(t, q', b);
      } else if !(q <= q') {
        assert Label(t, q') == Label(t', q');
        assert Called(t, q', b);
      }
    }
    SearchUnique(t', q, b);
    ReplaceTwice(t, q, m, n);
    ReplaceSame(t, q);
  }

  // ---------------------------------------------------------------------
  // The library

  /** One round of the `addCategory` walk from the node at `cur`: it moves to
      the child named `seg` when there is one, else attaches one and moves
      to it; what is left to file is then `rest`. */
  lemma FileStep(t: Node, cur: Path, seg: string, rest: seq<string>, j: Option<nat>, linked: bool)
    requires Sub(t, cur).Some? && j == FirstNamed(Sub(t, cur).value.children, seg)
    ensures var t' := if j.Some? then t else Attached(t, cur, seg, linked);
      var cur' := cur + [if j.Some? then j.value else |Sub(t, cur).value.children|];
      t'.hasParent == t.hasParent && Sub(t', cur').Some? &&
      EnsureAt(t', cur', rest, linked) == EnsureAt(t, cur, [seg] + rest, linked)
  {
    if j.Some? {
      EnsureAtFound(t, cur, seg, rest, j.value, linked);
    } else {
      EnsureAtMade(t, cur, seg, rest, linked);
    }
  }

  /** A suffix is its first element followed by the rest. */
  lemma SliceHead<T>(s: seq<T>, i: nat)
    requires i < |s|
    ensures s[i..] == [s[i]] + s[i + 1..]
  {
  }

  /** `FirstNamed` by the loop of `addCategory` over a node's children
      (lines 528-534). */
  method FirstChildNamed(cs: seq<Node>, name: string) returns (r: Option<nat>)
    ensures r == FirstNamed(cs, name)
  {
    var j := 0;
    while j < |cs|
      invariant j <= |cs|
      invariant forall k :: 0 <= k < j ==> cs[k].name != name
    {
      if cs[j].name == name {
        return Some(j);
      }
      j := j + 1;
    }
    return None;
  }

  /** The loop that pushes the children of the node at `q` in order (lines
      192-194, 570-572, 604-606, 654-656). */
  method PushChildren(t: Node, stack: seq<Path>, q: Path) returns (stack': seq<Path>)
    requires OnTree(t, stack) && Sub(t, q).Some?
    ensures OnTree(t, stack')
    ensures Pending(t, stack') == VisitKids(Sub(t, q).value, q, |Sub(t, q).value.children|) + Pending(t, stack)
  {
    var n := Sub(t, q).value;
    stack' := stack;
    var i := 0;
    while i < |n.children|
      invariant i <= |n.children|
      invariant OnTree(t, stack')
      invariant Pending(t, stack') == VisitKids(n, q, i) + Pending(t, stack)
    {
      SubChild(t, q, i);
      PendingPush(t, stack', q + [i], n.children[i]);
      Assoc(Visit(n.children[i], q + [i]), VisitKids(n, q, i), Pending(t, stack));
      stack' := stack' + [q + [i]];
      i := i + 1;
    }
  }

  // ---------------------------------------------------------------------
  // Borrowers and loans

  /** The position of the first borrower with the id: the loop of
      `findBorrowerByID` (lines 679-684). */
  function FirstWithId(ws: seq<Borrower>, id: string): (r: Option<nat>)
    reads set w | w in ws
    ensures r.Some? ==> r.value < |ws| && ws[r.value].id == id
    ensures r.Some? ==> forall j :: 0 <= j < r.value ==> ws[j].id != id
    ensures r.None? ==> forall j :: 0 <= j < |ws| ==> ws[j].id != id
  {
    if ws == [] then None
    else if ws[0].id == id then Some(0)
    else match FirstWithId(ws[1..], id)
      case None => None
      case Some(i) => Some(i + 1)
  }

  /** `findBorrowerByID(id)`: the first borrower with the id, or null. */
  function BorrowerWithId(ws: seq<Borrower>, id: string): Option<Borrower>
    reads set w | w in ws
  {
    match FirstWithId(ws, id) case None => None case Some(i) => Some(ws[i])
  }

  /** The position of the first occurrence of `x` in `s`: the loop of
      `returnBook` over `currentBorrowers` (lines 423-429), which compares
      pointers. */
  function Position<T(==)>(s: seq<T>, x: T): (r: Option<nat>)
    ensures r.Some? ==> r.value < |s| && s[r.value] == x
    ensures r.Some? ==> forall j :: 0 <= j < r.value ==> s[j] != x
    ensures r.None? <==> x !in s
  {
    if s == [] then None
    else if s[0] == x then Some(0)
    else match Position(s[1..], x)
      case None => None
      case Some(i) => Some(i + 1)
  }

  /** The objects a pointer that may be null points at: none or one. */
  function Only<T>(o: Option<T>): set<T>
  {
    match o case None => {} case Some(x) => {x}
  }

  /** The fields of a book the loans leave alone. */
  datatype Card = Card(title: string, author: string, isbn: string, year: int, total: int)

  function CardOf(b: Book): Card
    reads b
  {
    Card(b.title, b.author, b.isbn, b.publicationYear, b.totalCopies)
  }

  /** Every copy is on the shelf or with a current borrower. */
  predicate Balanced(b: Book)
    reads b
  {
    b.availableCopies + |b.currentBorrowers| == b.totalCopies
  }

  /** The loans of `b` and `w` agree: `w` holds `b` as often as `b` lists
      `w` among its current borrowers. */
  predicate LoansAgree(b: Book, w: Borrower)
    reads b, w
  {
    multiset(b.currentBorrowers)[w] == multiset(w.booksBorrowed)[b]
  }

  /** What the loop at line 438 is meant to do: erase the first book with the
      title from the borrower's books. */
  function Unlent(bs: seq<Book>, title: string): (r: seq<Book>)
    reads bs`title
  {
    match FirstTitled(bs, title) case None => bs case Some(i) => Vectors.RemoveAt(bs, i)
  }

  /** Erasing one occurrence lowers the count of that element by one. */
  lemma RemoveAtCount<T>(s: seq<T>, i: nat)
    requires i < |s|
    ensures multiset(Vectors.RemoveAt(s, i))[s[i]] == multiset(s)[s[i]] - 1
    ensures forall x :: x != s[i] ==> multiset(Vectors.RemoveAt(s, i))[x] == multiset(s)[x]
  {
    assert s == s[..i] + [s[i]] + s[i + 1..];
  }

  /** When the first book with the title is the one returned, the borrower
      holds it once less. */
  lemma UnlentReturns(bs: seq<Book>, title: string, b: Book)
    requires FirstTitled(bs, title).Some? && bs[FirstTitled(bs, title).value] == b
    ensures multiset(Unlent(bs, title))[b] == multiset(bs)[b] - 1
  {
    RemoveAtCount(bs, FirstTitled(bs, title).value);
  }

  // ---------------------------------------------------------------------
  // addBook, editBook

  /** The book `addBook` (lines 262-277) adds copies to instead of filing a
      new one: the one `findBook` finds under the category `getNode` finds,
      or `createNode` makes, when its author, isbn and year are the ones
      entered. */
  function SameEdition(t: Node, category: string, title: string, author: string, isbn: string, year: int): (r: Option<Book>)
    reads set b | b in Preorder(t)
    ensures r.Some? ==> r.value in Preorder(t)
    ensures r.Some? ==> r.value.title == title && r.value.author == author &&
                        r.value.isbn == isbn && r.value.publicationYear == year
  {
    var e := Ensure(t, Segments(category), true);
    EnsurePreorder(t, Segments(category), true);
    PreorderBelow(e.0, e.1);
    match FindBook(Sub(e.0, e.1).value, title)
    case None => None
    case Some(b) =>
      if b.author == author && b.isbn == isbn && b.publicationYear == year then Some(b) else None
  }

  /** Copies are added only to a book of a category that was there: when
      `getNode` finds none, the node `createNode` makes holds no book. */
  lemma SameEditionNeedsCategory(t: Node, category: string, title: string, author: string, isbn: string, year: int)
    requires Lookup(t, Segments(category)).None?
    ensures SameEdition(t, category, title, author, isbn, year).None?
  {
    EnsureEndsEmpty(t, Segments(category), true);
  }

  /** So when copies are added, no category is created. */
  lemma SameEditionInPlace(t: Node, category: string, title: string, author: string, isbn: string, year: int)
    requires SameEdition(t, category, title, author, isbn, year).Some?
    ensures Ensure(t, Segments(category), true).0 == t
  {
    if Lookup(t, Segments(category)).None? {
      SameEditionNeedsCategory(t, category, title, author, isbn, year);
    } else {
      LookupThenEnsure(t, Segments(category), true);
    }
  }

  /** The tree once `addBook` has filed the new book `b` at the node at `p`:
      the count walked up from `p` (line 283), then `b` after the books
      already there (line 285). */
  function Filed(t: Node, p: Path, b: Book): (r: Node)
    requires Sub(t, p).Some?
    ensures Sub(r, p).Some? && Sub(r, p).value.books == Sub(t, p).value.books + [b]
  {
    CreditedKeepsBooks(t, p, 1);
    var c := Credited(t, p, 1);
    Refiled(c, p, Sub(t, p).value.books + [b])
  }

  /** Filing a book keeps the counts right. */
  lemma FiledKeepsCounts(t: Node, p: Path, b: Book)
    requires Sub(t, p).Some? && CountsOk(t)
    ensures CountsOk(Filed(t, p, b))
  {
    var bs := Sub(t, p).value.books + [b];
    RefiledCredited(t, p, bs, 1);
    RefileKeepsCounts(t, p, bs);
  }

  /** `addBook` keeps the counts right whether or not it creates the
      category: `createNode` adds empty nodes, then the book is filed. */
  lemma AddBookKeepsCounts(t: Node, category: string, b: Book)
    requires CountsOk(t)
    ensures CountsOk(Filed(Ensure(t, Segments(category), true).0, Ensure(t, Segments(category), true).1, b))
  {
    EnsureKeepsCounts(t, Segments(category), true);
    FiledKeepsCounts(Ensure(t, Segments(category), true).0, Ensure(t, Segments(category), true).1, b);
  }

  /** What restocking `b` with `n` copies does (lines 272-273): `n` more
      copies in all and on the shelf, nothing else changes. */
  twostate predicate Restocked(b: Book, n: int)
    reads b
  {
    b.title == old(b.title) && b.author == old(b.author) && b.isbn == old(b.isbn) &&
    b.publicationYear == old(b.publicationYear) &&
    b.totalCopies == old(b.totalCopies) + n && b.availableCopies == old(b.availableCopies) + n &&
    b.currentBorrowers == old(b.currentBorrowers) && b.allBorrowers == old(b.allBorrowers)
  }

  /** The six fields of a book `editBook` can change; also what the user
      enters for them (lines 309-310). */
  datatype Details = Details(title: string, author: string, isbn: string, year: int, total: int, available: int)

  function DetailsOf(b: Book): Details
    reads b
  {
    Details(b.title, b.author, b.isbn, b.publicationYear, b.totalCopies, b.availableCopies)
  }

  /** What `editBook` starts from before the menu loop (lines 309-310): each
      field at the value that means "keep the old one". */
  const Untouched := Details("", "", "", 2050, -1, -1)

  /** Lines 350-355: each field takes the entered value unless that is
      still the sentinel of `Untouched`. */
  function Edited(d: Details, e: Details): (r: Details)
  {
    Details(
      if e.title == "" then d.title else e.title,
      if e.author == "" then d.author else e.author,
      if e.isbn == "" then d.isbn else e.isbn,
      if e.year != 2050 then e.year else d.year,
      if e.total != -1 then e.total else d.total,
      if e.available != -1 then e.available else d.available)
  }

  /** Leaving the menu at once changes nothing. */
  lemma EditNothing(d: Details)
    ensures Edited(d, Untouched) == d
  {
  }

  /** Entering every field, none of them at its sentinel, sets the book to
      exactly what was entered. */
  lemma EditEverything(d: Details, e: Details)
    requires e.title != "" && e.author != "" && e.isbn != ""
    requires e.year != 2050 && e.total != -1 && e.available != -1
    ensures Edited(d, e) == e
  {
  }

  /** Editing twice with the same entries is editing once. */
  lemma EditIdempotent(d: Details, e: Details)
    ensures Edited(Edited(d, e), e) == Edited(d, e)
  {
  }

  /** Two edits in a row are one edit whose entries are the second's laid
      over the first's. */
  lemma EditTwice(d: Details, e1: Details, e2: Details)
    ensures Edited(Edited(d, e1), e2) == Edited(d, Edited(e1, e2))
  {
  }

  /** No edit sets a field to its sentinel: a title, author or isbn cannot
      be emptied, nor the year set to 2050 or a count to -1, unless the book
      had that value already. */
  lemma SentinelsStay(d: Details, e: Details)
    ensures Edited(d, e).title == "" ==> d.title == ""
    ensures Edited(d, e).author == "" ==> d.author == ""
    ensures Edited(d, e).isbn == "" ==> d.isbn == ""
    ensures Edited(d, e).year == 2050 ==> d.year == 2050
    ensures Edited(d, e).total == -1 ==> d.total == -1
    ensures Edited(d, e).available == -1 ==> d.available == -1
  {
  }

  datatype BorrowStatus = BookNotFound | NotAvailable | Issued(borrower: Borrower, registered: bool)

  datatype ReturnStatus = NoBook | NotRegistered | NotBorrowed | Returned(borrower: Borrower)

  class Lcms {
    var libTree: Tree
    var borrowers: seq<Borrower>

    ghost predicate Valid()
      reads this, libTree
    {
      libTree.Valid()
    }

    /** `LCMS(name)` (lines 22-25): a tree of one category, no borrowers. */
    constructor (name: string)
      ensures Valid() && fresh(libTree) && libTree.root == NewNode(name) && borrowers == []
    {
      libTree := new Tree(name);
      borrowers := [];
    }

    /** The stack loop shared by `findCategory`, `removeCategory` and
        `editCategory`: pop a node, stop when it has the name, else push its
        children in order. */
    method SearchCategory(category: string) returns (r: Option<Path>)
      requires Valid()
      ensures r == Search(libTree.root, category)
    {
      var t := libTree.root;
      var stack: seq<Path> := [[]];
      assert stack[..0] == [];
      assert Pending(t, stack) == Visit(t, []);
      while stack != []
        invariant OnTree(t, stack)
        invariant FirstCalled(t, Pending(t, stack), category) == Search(t, category)
        decreases |Pending(t, stack)|
      {
        var q := stack[|stack| - 1];
        var below := stack[..|stack| - 1];
        var n := Sub(t, q).value;
        PendingPop(t, stack, n);
        if n.name == category {
          return Some(q);
        }
        FirstCalledCons(t, q, VisitKids(n, q, |n.children|) + Pending(t, below), category);
        stack := PushChildren(t, below, q);
      }
      return None;
    }

    /** `findCategory(category)` (lines 549-578): whether some category has
        the name. */
    method FindCategory(category: string) returns (found: bool)
      requires Valid()
      ensures found <==> !forall q :: !Called(libTree.root, q, category)
    {
      var r := SearchCategory(category);
      SearchFindsAny(libTree.root, category);
      found := r.Some?;
    }

    /** `addCategory(category)` (lines 504-545) as written: new categories
        keep a null parent pointer. */
    method AddCategoryAsWritten(category: string) returns (added: bool)
      requires Valid()
      modifies libTree
      ensures Valid() && libTree.root == AddedCategory(old(libTree.root), category, false)
      ensures added == (category != [])
    {
      added := FileCategory(category, false);
    }

    /** `addCategory(category)` with the parent pointer of each new category
        set to the node it is attached under, as `Tree::insert` does. */
    method AddCategory(category: string) returns (added: bool)
      requires Valid()
      modifies libTree
      ensures Valid() && libTree.root == AddedCategory(old(libTree.root), category, true)
      ensures added == (category != [])
    {
      added := FileCategory(category, true);
    }

    /** The body of `addCategory`: refuse an empty name, split it, and walk
        down from the root one piece at a time, attaching a new child when
        no child has the piece's name. */
    method FileCategory(category: string, linked: bool) returns (added: bool)
      requires Valid()
      modifies libTree
      ensures Valid() && libTree.root == AddedCategory(old(libTree.root), category, linked)
      ensures added == (category != [])
    {
      if category == [] {
        return false;
      }
      var parts := Parts(category);
      ghost var goal := Ensure(libTree.root, parts, linked);
      EnsureAtStart(libTree.root, parts, linked);
      var cur: Path := [];
      var i := 0;
      while i < |parts|
        invariant i <= |parts|
        invariant Valid() && Sub(libTree.root, cur).Some?
        invariant EnsureAt(libTree.root, cur, parts[i..], linked) == goal
      {
        var n := Sub(libTree.root, cur).value;
        var j := FirstChildNamed(n.children, parts[i]);
        SliceHead(parts, i);
        FileStep(libTree.root, cur, parts[i], parts[i + 1..], j, linked);
        if j.Some? {
          cur := cur + [j.value];
        } else {
          libTree.root := Attached(libTree.root, cur, parts[i], linked);
          cur := cur + [|n.children|];
        }
        i := i + 1;
      }
      EnsureAtDone(libTree.root, cur, linked);
      added := true;
    }

    /** `removeCategory(category)` (lines 582-626). */
    method RemoveCategory(category: string) returns (status: RemoveStatus)
      requires Valid()
      modifies libTree
      ensures Valid() && (libTree.root, status) == CategoryRemoval(old(libTree.root), category)
    {
      var found := SearchCategory(category);
      if found.None? {
        return NoCategory;
      }
      var q := found.value;
      if !Sub(libTree.root, q).value.hasParent {
        return RootRefused;
      }
      SubPrefix(libTree.root, q, q[..|q| - 1]);
      libTree.Remove(q[..|q| - 1], category);
      return CategoryRemoved;
    }

    /** `editCategory(category)` (lines 631-675), with the name the user
        types as `newName`. */
    method EditCategory(category: string, newName: string) returns (status: EditStatus)
      requires Valid()
      modifies libTree
      ensures Valid() && (libTree.root, status) == CategoryRenamed(old(libTree.root), category, newName)
    {
      var found := SearchCategory(category);
      if found.None? {
        return NoSuchCategory;
      }
      if newName == [] || newName == category {
        return InvalidName;
      }
      var q := found.value;
      libTree.root := Replace(libTree.root, q, Sub(libTree.root, q).value.(name := newName));
      return Renamed;
    }
  
    /** `findBorrowerByID(id)` (lines 679-684). */
    method FindBorrowerById(id: string) returns (r: Option<Borrower>)
      ensures r == BorrowerWithId(borrowers, id)
    {
      var i := 0;
      while i < |borrowers|
        invariant i <= |borrowers|
        invariant forall j :: 0 <= j < i ==> borrowers[j].id != id
      {
        if borrowers[i].id == id {
          assert FirstWithId(borrowers, id) == Some(i);
          return Some(borrowers[i]);
        }
        i := i + 1;
      }
      return None;
    }

    /** `borrowBook(bookTitle)` (lines 359-396), with the name and id the
        user types: the book is the one `findBook` finds from the root; with
        a copy on the shelf it goes to the borrower with the id, registered
        first when there is none. */
    method BorrowBook(title: string, name: string, id: string) returns (status: BorrowStatus)
      requires Valid()
      modifies this, Only(FindBook(libTree.root, title)), Only(BorrowerWithId(borrowers, id))
      ensures Valid() && libTree == old(libTree)
      ensures old(FindBook(libTree.root, title)).None? ==> status == BookNotFound && borrowers == old(borrowers)
      ensures match old(FindBook(libTree.root, title))
        case None => true
        case Some(b) =>
          if old(b.availableCopies) == 0 then
            status == NotAvailable && borrowers == old(borrowers) && unchanged(b)
          else
            status.Issued? && Lent(b, status.borrower) &&
            match old(BorrowerWithId(borrowers, id))
            case Some(w) =>
              status == Issued(w, false) && borrowers == old(borrowers) &&
              w.name == old(w.name) && w.id == old(w.id) && w.booksBorrowed == old(w.booksBorrowed) + [b]
            case None =>
              status.registered && fresh(status.borrower) && borrowers == old(borrowers) + [status.borrower] &&
              status.borrower.name == name && status.borrower.id == id && status.borrower.booksBorrowed == [b]
    {
      var found := FindBook(libTree.root, title);
      if found.None? {
        return BookNotFound;
      }
      var b := found.value;
      assert allocated(b);
      if b.availableCopies == 0 {
        return NotAvailable;
      }
      var w, registered := BorrowerFor(name, id);
      Lend(b, w);
      status := Issued(w, registered);
    }

    /** The borrower of `borrowBook` (lines 377-386): the one with the id, or
        a new one with the name and id, registered at the end. */
    method BorrowerFor(name: string, id: string) returns (w: Borrower, registered: bool)
      requires Valid()
      modifies this
      ensures Valid() && libTree == old(libTree)
      ensures match old(BorrowerWithId(borrowers, id))
        case Some(known) =>
          w == known && !registered && borrowers == old(borrowers)
        case None =>
          registered && fresh(w) && borrowers == old(borrowers) + [w] &&
          w.name == name && w.id == id && w.booksBorrowed == []
    {
      var known := FindBorrowerById(id);
      if known.None? {
        w := new Borrower(name, id);
        borrowers := borrowers + [w];
        registered := true;
      } else {
        w := known.value;
        registered := false;
      }
    }

    /** `returnBook(bookTitle)` (lines 400-445) as written, with the id the
        user types: the borrower leaves the book's current borrowers and a
        copy goes back on the shelf, but the loop at line 438 never runs
        (`0 > size()` is false), so the borrower still holds the book. */
    method ReturnBookAsWritten(title: string, id: string) returns (status: ReturnStatus)
      requires Valid()
      modifies Only(FindBook(libTree.root, title))
      ensures old(FindBook(libTree.root, title)).None? ==> status == NoBook
      ensures match old(FindBook(libTree.root, title))
        case None => true
        case Some(b) =>
          match old(BorrowerWithId(borrowers, id))
          case None => status == NotRegistered && unchanged(b)
          case Some(w) =>
            (!old(w in b.currentBorrowers) ==> status == NotBorrowed && unchanged(b)) &&
            (old(w in b.currentBorrowers) ==>
               status == Returned(w) && HandedBack(b, w) &&
               w.booksBorrowed == old(w.booksBorrowed) &&
               multiset(w.booksBorrowed)[b] == old(multiset(w.booksBorrowed)[b]))
    {
      var found := FindBook(libTree.root, title);
      if found.None? {
        return NoBook;
      }
      var b := found.value;
      assert allocated(b);
      var known := FindBorrowerById(id);
      if known.None? {
        return NotRegistered;
      }
      var w := known.value;
      var released := Release(b, w);
      if !released {
        return NotBorrowed;
      }
      status := Returned(w);
    }

    /** `returnBook` with the loop at line 438 running over the borrower's
        books (`i < size()`): the first book with the title leaves them. */
    method ReturnBook(title: string, id: string) returns (status: ReturnStatus)
      requires Valid()
      modifies Only(FindBook(libTree.root, title)), Only(BorrowerWithId(borrowers, id))
      ensures old(FindBook(libTree.root, title)).None? ==> status == NoBook
      ensures match old(FindBook(libTree.root, title))
        case None => true
        case Some(b) =>
          match old(BorrowerWithId(borrowers, id))
          case None => status == NotRegistered && unchanged(b)
          case Some(w) =>
            (!old(w in b.currentBorrowers) ==> status == NotBorrowed && unchanged(b, w)) &&
            (old(w in b.currentBorrowers) ==>
               status == Returned(w) && HandedBack(b, w) &&
               w.name == old(w.name) && w.id == old(w.id) &&
               w.booksBorrowed == old(Unlent(w.booksBorrowed, title)) &&
               (old(LoansAgree(b, w) && FirstTitled(w.booksBorrowed, title).Some? &&
                    w.booksBorrowed[FirstTitled(w.booksBorrowed, title).value] == b) ==>
                  LoansAgree(b, w)))
    {
      var found := FindBook(libTree.root, title);
      if found.None? {
        return NoBook;
      }
      var b := found.value;
      assert allocated(b);
      var known := FindBorrowerById(id);
      if known.None? {
        return NotRegistered;
      }
      var w := known.value;
      assert allocated(w);
      var released := TakeBack(b, w, title);
      if !released {
        return NotBorrowed;
      }
      status := Returned(w);
    }

    /** `addBook()` (lines 229-288), with the values the user types. The
        prompts insist on a title and on a year in 1..2024; the category is
        `getNode`'s, made by `createNode` when missing. A book there with
        the title and the same author, isbn and year gets the copies;
        otherwise a new book with every copy on the shelf is counted in and
        filed at the category. */
    method AddBook(title: string, author: string, isbn: string, year: int, total: int, category: string)
      returns (book: Book, restocked: bool)
      requires Valid() && title != [] && 0 < year <= 2024
      modifies libTree, Only(SameEdition(libTree.root, category, title, author, isbn, year))
      ensures Valid()
      ensures restocked == old(SameEdition(libTree.root, category, title, author, isbn, year)).Some?
      ensures restocked ==>
        Some(book) == old(SameEdition(libTree.root, category, title, author, isbn, year)) &&
        Restocked(book, total) && libTree.root == old(libTree.root)
      ensures !restocked ==>
        fresh(book) && DetailsOf(book) == Details(title, author, isbn, year, total, total) &&
        book.currentBorrowers == [] && book.allBorrowers == [] &&
        libTree.root == Filed(Ensure(old(libTree.root), Segments(category), true).0,
                              Ensure(old(libTree.root), Segments(category), true).1, book)
    {
      // the search and test of lines 268-270, on the node of lines 262-265
      var same := SameEdition(libTree.root, category, title, author, isbn, year);
      if same.Some? {
        assert allocated(same.value);
        SameEditionInPlace(libTree.root, category, title, author, isbn, year);
      }
      var p := Shelve(category);
      if same.Some? {
        var b := same.value;
        Restock(b, total);
        return b, true;
      }
      book := new Book(title, author, isbn, year, total, total);
      File(p, book);
      restocked := false;
    }

    /** Lines 262-265 of `addBook`: `getNode(category)`, else
        `createNode(category)`. */
    method Shelve(category: string) returns (p: Path)
      requires Valid()
      modifies libTree
      ensures Valid() && (libTree.root, p) == Ensure(old(libTree.root), Segments(category), true)
    {
      ghost var t := libTree.root;
      var found := Lookup(libTree.root, Segments(category));
      if found.None? {
        p := libTree.CreateNode(category);
      } else {
        p := found.value;
        LookupThenEnsure(t, Segments(category), true);
      }
    }

    /** Lines 283-285 of `addBook`: the count walked up from the node at
        `p`, then `book` filed after its books. */
    method File(p: Path, book: Book)
      requires Valid() && Sub(libTree.root, p).Some?
      modifies libTree
      ensures Valid() && libTree.root == Filed(old(libTree.root), p, book)
    {
      CreditedKeepsBooks(libTree.root, p, 1);
      libTree.UpdateBookCount(p, 1);
      var n := Sub(libTree.root, p).value;
      libTree.root := Replace(libTree.root, p, n.(books := n.books + [book]));
    }

    /** `editBook(bookTitle)` (lines 292-356), with what the user entered by
        the time they chose "Exit": the book `findBook` finds from the root
        takes each entered field, the sentinels keeping the old value. */
    method EditBook(title: string, entered: Details) returns (found: bool)
      requires Valid()
      modifies Only(FindBook(libTree.root, title))
      ensures found == old(FindBook(libTree.root, title)).Some?
      ensures found ==>
        var b := old(FindBook(libTree.root, title)).value;
        DetailsOf(b) == Edited(old(DetailsOf(b)), entered) &&
        b.currentBorrowers == old(b.currentBorrowers) && b.allBorrowers == old(b.allBorrowers)
    {
      var book := FindBook(libTree.root, title);
      if book.None? {
        return false;
      }
      var b := book.value;
      assert allocated(b);
      Revise(b, entered);
      found := true;
    }

    /** `removeBook(bookTitle)` (lines 489-501), with the confirmation the
        user types: only "yes" removes the book `findBook` would find. */
    method RemoveBook(title: string, confirmation: string) returns (removed: bool)
      requires Valid()
      modifies libTree
      ensures Valid()
      ensures removed == (confirmation == "yes" && old(FindBook(libTree.root, title)).Some?)
      ensures libTree.root == if confirmation == "yes" then old(BookRemoved(libTree.root, [], title)) else old(libTree.root)
    {
      if confirmation == "yes" {
        LocateIsPreorderFirst(libTree.root, title);
        removed := libTree.RemoveBook([], title);
      } else {
        removed := false;
      }
    }
  }

  /** Lines 272-273 of `addBook`. */
  method Restock(b: Book, n: int)
    modifies b
    ensures Restocked(b, n)
    ensures old(Balanced(b)) ==> Balanced(b)
  {
    b.totalCopies := b.totalCopies + n;
    b.availableCopies := b.availableCopies + n;
  }

  /** Lines 350-355 of `editBook`. */
  method Revise(b: Book, entered: Details)
    modifies b
    ensures DetailsOf(b) == Edited(old(DetailsOf(b)), entered)
    ensures b.currentBorrowers == old(b.currentBorrowers) && b.allBorrowers == old(b.allBorrowers)
  {
    b.title := if entered.title == "" then b.title else entered.title;
    b.author := if entered.author == "" then b.author else entered.author;
    b.isbn := if entered.isbn == "" then b.isbn else entered.isbn;
    b.publicationYear := if entered.year != 2050 then entered.year else b.publicationYear;
    b.totalCopies := if entered.total != -1 then entered.total else b.totalCopies;
    b.availableCopies := if entered.available != -1 then entered.available else b.availableCopies;
  }

  /** What lending `b` to `w` does to the book (lines 389-392): one copy
      fewer on the shelf, `w` appended to its current and past borrowers,
      nothing else changes. */
  twostate predicate Lent(b: Book, new w: Borrower)
    reads b
  {
    CardOf(b) == old(CardOf(b)) &&
    b.availableCopies == old(b.availableCopies) - 1 &&
    b.currentBorrowers == old(b.currentBorrowers) + [w] &&
    b.allBorrowers == old(b.allBorrowers) + [w]
  }

  /** What taking back a copy of `b` from `w` does to the book (lines
      422-437): the first entry that is `w` leaves the current borrowers, one
      copy goes back on the shelf, nothing else changes. */
  twostate predicate HandedBack(b: Book, w: Borrower)
    reads b
  {
    old(w in b.currentBorrowers) &&
    b.currentBorrowers == old(Vectors.RemoveAt(b.currentBorrowers, Position(b.currentBorrowers, w).value)) &&
    CardOf(b) == old(CardOf(b)) &&
    b.allBorrowers == old(b.allBorrowers) &&
    b.availableCopies == old(b.availableCopies) + 1
  }

  /** The lines 389-392 of `borrowBook`. */
  method Lend(b: Book, w: Borrower)
    modifies b, w
    ensures Lent(b, w)
    ensures w.name == old(w.name) && w.id == old(w.id) && w.booksBorrowed == old(w.booksBorrowed) + [b]
    ensures old(Balanced(b)) ==> Balanced(b)
    ensures multiset(b.currentBorrowers)[w] == old(multiset(b.currentBorrowers)[w]) + 1
    ensures multiset(w.booksBorrowed)[b] == old(multiset(w.booksBorrowed)[b]) + 1
  {
    b.availableCopies := b.availableCopies - 1;
    w.booksBorrowed := w.booksBorrowed + [b];
    b.currentBorrowers := b.currentBorrowers + [w];
    b.allBorrowers := b.allBorrowers + [w];
  }

  /** The loop of `returnBook` over the book's current borrowers (lines
      422-429), which erases the first entry that is `w`, and the copy put
      back when there was one (line 437). */
  method Release(b: Book, w: Borrower) returns (found: bool)
    modifies b
    ensures found == old(w in b.currentBorrowers)
    ensures found ==> HandedBack(b, w)
    ensures found ==> old(Balanced(b)) ==> Balanced(b)
    ensures found ==> multiset(b.currentBorrowers)[w] == old(multiset(b.currentBorrowers)[w]) - 1
    ensures !found ==> unchanged(b)
  {
    var i := 0;
    while i < |b.currentBorrowers|
      invariant i <= |b.currentBorrowers|
      invariant forall j :: 0 <= j < i ==> b.currentBorrowers[j] != w
    {
      if b.currentBorrowers[i] == w {
        assert Position(b.currentBorrowers, w) == Some(i);
        RemoveAtCount(b.currentBorrowers, i);
        b.currentBorrowers := Vectors.RemoveAt(b.currentBorrowers, i);
        b.availableCopies := b.availableCopies + 1;
        return true;
      }
      i := i + 1;
    }
    return false;
  }

  /** The body of `returnBook` once the book and the borrower are known, with
      the loop at line 438 as evidently meant: when `w` holds a copy of `b`,
      the copy goes back on the shelf and the first book with the title
      leaves the borrower; when that book is `b`, loans that agreed still
      agree. */
  method TakeBack(b: Book, w: Borrower, title: string) returns (found: bool)
    modifies b, w
    ensures found == old(w in b.currentBorrowers)
    ensures !found ==> unchanged(b, w)
    ensures found ==> HandedBack(b, w) && w.name == old(w.name) && w.id == old(w.id) &&
                      w.booksBorrowed == old(Unlent(w.booksBorrowed, title))
    ensures found && old(LoansAgree(b, w) && FirstTitled(w.booksBorrowed, title).Some? &&
                         w.booksBorrowed[FirstTitled(w.booksBorrowed, title).value] == b) ==>
              LoansAgree(b, w)
  {
    found := Release(b, w);
    if found {
      Unlend(w, title, b);
    }
  }

  /** The loop at line 438 as evidently meant (`i < size()`): the first book
      with the title leaves the borrower's books. */
  method Unlend(w: Borrower, title: string, ghost b: Book)
    modifies w
    ensures w.booksBorrowed == old(Unlent(w.booksBorrowed, title))
    ensures w.name == old(w.name) && w.id == old(w.id)
    ensures old(FirstTitled(w.booksBorrowed, title).Some? &&
                w.booksBorrowed[FirstTitled(w.booksBorrowed, title).value] == b) ==>
              multiset(w.booksBorrowed)[b] == old(multiset(w.booksBorrowed)[b]) - 1
  {
    var books := w.booksBorrowed;
    ghost var first := FirstTitled(books, title);
    ghost var gone := Unlent(books, title);
    if first.Some? && books[first.value] == b {
      UnlentReturns(books, title, b);
    }
    var i := 0;
    while i < |books|
      invariant i <= |books| && unchanged(w)
      invariant first.Some? ==> i <= first.value
      invariant first.None? ==> gone == books
    {
      if books[i].title == title {
        assert first == Some(i);
        w.booksBorrowed := Vectors.RemoveAt(books, i);
        return;
      }
      i := i + 1;
    }
  }
}
