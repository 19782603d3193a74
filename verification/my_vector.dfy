/** Data_Structures/Assignment2/nm4358/myvector.h: `MyVector<T>`, a growable
    array. `data` is the heap buffer, `vSize` the number of elements in use
    and `vCapacity` the length of the buffer. A full buffer is replaced by one
    of twice the capacity (or of capacity 1 when it was 0) and the elements
    are copied over. Out-of-range positions raise `out_of_range`, modelled as
    `Err(OutOfRange)` / `Failed(OutOfRange)`. */
module Vectors {
  import opened Outcomes

  /** The sequence with `e` placed at position `i` and the rest shifted up. */
  function InsertAt<T>(s: seq<T>, i: nat, e: T): (r: seq<T>)
    requires i <= |s|
  {
    s[..i] + [e] + s[i..]
  }

  /** The sequence with position `i` removed and the rest shifted down. */
  function RemoveAt<T>(s: seq<T>, i: nat): (r: seq<T>)
    requires i < |s|
  {
    s[..i] + s[i + 1..]
  }

  /** Element by element: what `InsertAt` keeps, adds and moves. */
  lemma InsertAtElements<T>(s: seq<T>, i: nat, e: T)
    requires i <= |s|
    ensures |InsertAt(s, i, e)| == |s| + 1 && InsertAt(s, i, e)[i] == e
    ensures forall k :: 0 <= k < i ==> InsertAt(s, i, e)[k] == s[k]
    ensures forall k :: i < k <= |s| ==> InsertAt(s, i, e)[k] == s[k - 1]
  {
  }

  /** Element by element: what `RemoveAt` keeps and moves. */
  lemma RemoveAtElements<T>(s: seq<T>, i: nat)
    requires i < |s|
    ensures |RemoveAt(s, i)| == |s| - 1
    ensures forall k :: 0 <= k < i ==> RemoveAt(s, i)[k] == s[k]
    ensures forall k :: i <= k < |s| - 1 ==> RemoveAt(s, i)[k] == s[k + 1]
  {
  }

  /** `erase(i)` undoes `insert(i, e)`. */
  lemma RemoveInsertRoundTrip<T>(s: seq<T>, i: nat, e: T)
    requires i <= |s|
    ensures RemoveAt(InsertAt(s, i, e), i) == s
  {
    var t := InsertAt(s, i, e);
    assert t[..i] == s[..i] && t[i + 1..] == s[i..];
  }

  /** `insert(i, s[i])` undoes `erase(i)`. */
  lemma InsertRemoveRoundTrip<T>(s: seq<T>, i: nat)
    requires i < |s|
    ensures InsertAt(RemoveAt(s, i), i, s[i]) == s
  {
    var t := RemoveAt(s, i);
    assert t[..i] == s[..i] && t[i..] == s[i + 1..];
  }

  /** The capacity after a full buffer grows: 1 when it was 0, else doubled. */
  function Grown(capacity: nat): (r: nat)
    ensures r > capacity && r <= 2 * capacity + 1
  {
    if capacity == 0 then 1 else capacity * 2
  }

  class MyVector<T(0)> {
    var data: array<T>
    var vSize: nat
    var vCapacity: nat

    /** `0 <= v_size <= v_capacity` and the buffer has `v_capacity` slots. */
    ghost predicate Valid()
      reads this
    {
      vSize <= vCapacity && data.Length == vCapacity
    }

    /** The elements in use, in order. */
    ghost function Elements(): (s: seq<T>)
      reads this, data
      requires Valid()
      ensures |s| == vSize
    {
      data[..vSize]
    }

    /** `MyVector()`: empty, capacity 0 (the buffer is `nullptr`). */
    constructor ()
      ensures Valid() && fresh(data)
      ensures Elements() == [] && vCapacity == 0
    {
      data := new T[0];
      vSize := 0;
      vCapacity := 0;
    }

    /** `MyVector(int cap)`: `new T[cap]` throws `bad_array_new_length` for
        a negative `cap`, and no vector is made; otherwise the vector is
        empty, with a buffer of `cap` slots. */
    static method WithCapacity(cap: int) returns (r: Result<MyVector<T>>)
      ensures cap < 0 ==> r == Err(BadArrayNewLength)
      ensures cap >= 0 ==> r.Ok? && fresh(r.value) && fresh(r.value.data) && r.value.Valid()
      ensures cap >= 0 ==> r.value.Elements() == [] && r.value.vCapacity == cap
    {
      if cap < 0 {
        return Err(BadArrayNewLength);
      }
      var v := new MyVector<T>.OfCapacity(cap);
      return Ok(v);
    }

    /** The non-throwing case of `MyVector(int cap)`. */
    constructor OfCapacity(cap: nat)
      ensures Valid() && fresh(data)
      ensures Elements() == [] && vCapacity == cap
    {
      vSize := 0;
      vCapacity := cap;
      data := new T[cap];
    }

    /** The copy constructor: same size, capacity and elements, own buffer. */
    constructor Copy(other: MyVector<T>)
      requires other.Valid()
      ensures Valid() && fresh(data)
      ensures Elements() == other.Elements() && vCapacity == other.vCapacity
    {
      var newData := new T[other.vCapacity];
      var i := 0;
      while i < other.vSize
        invariant 0 <= i <= other.vSize
        invariant forall k :: 0 <= k < i ==> newData[k] == other.data[k]
      {
        newData[i] := other.data[i];
        i := i + 1;
      }
      vSize := other.vSize;
      vCapacity := other.vCapacity;
      data := newData;
    }

    /** `size()` */
    function Size(): (n: nat)
      reads this, data
      requires Valid()
      ensures n == |Elements()|
    {
      vSize
    }

    /** `capacity()` */
    function Capacity(): (n: nat)
      reads this, data
      requires Valid()
      ensures |Elements()| <= n
    {
      vCapacity
    }

    /** `empty()` */
    function Empty(): (b: bool)
      reads this, data
      requires Valid()
      ensures b <==> Elements() == []
    {
      vSize == 0
    }

    /** Replaces the buffer by a fresh one of `newCapacity` slots holding
        the same elements (the copy loop of `push_back`, `insert` and
        `shrink_to_fit`). */
    method Reallocate(newCapacity: nat)
      requires Valid() && vSize <= newCapacity
      modifies this
      ensures Valid() && fresh(data)
      ensures vCapacity == newCapacity && Elements() == old(Elements())
    {
      var oldData, size := data, vSize;
      var newData := new T[newCapacity];
      var i := 0;
      while i < size
        invariant 0 <= i <= size
        invariant data == oldData && vSize == size
        invariant forall k :: 0 <= k < i ==> newData[k] == oldData[k]
      {
        newData[i] := oldData[i];
        i := i + 1;
      }
      data := newData;
      vCapacity := newCapacity;
    }

    /** `push_back(element)`: grows a full buffer, then appends. */
    method PushBack(element: T)
      requires Valid()
      modifies this, data
      ensures data == old(data) || fresh(data)
      ensures Valid()
      ensures Elements() == old(Elements()) + [element]
      ensures vCapacity == if old(vSize) == old(vCapacity) then Grown(old(vCapacity)) else old(vCapacity)
    {
      if vSize == vCapacity {
        Reallocate(Grown(vCapacity));
      }
      data[vSize] := element;
      vSize := vSize + 1;
    }

    /** `insert(index, element)`: `out_of_range` unless `0 <= index <= size`;
        otherwise grows a full buffer, shifts the tail up by one and stores
        `element` at `index`. */
    method Insert(index: int, element: T) returns (o: Outcome)
      requires Valid()
      modifies this, data
      ensures data == old(data) || fresh(data)
      ensures Valid()
      ensures o == if 0 <= index <= old(vSize) then Done else Failed(OutOfRange)
      ensures o.Done? ==> 0 <= index <= |old(Elements())| && Elements() == InsertAt(old(Elements()), index, element)
      ensures o.Done? ==> vCapacity == if old(vSize) == old(vCapacity) then Grown(old(vCapacity)) else old(vCapacity)
      ensures o.Failed? ==> Elements() == old(Elements()) && vCapacity == old(vCapacity)
    {
      if index < 0 || index > vSize {
        return Failed(OutOfRange);
      }
      if vSize == vCapacity {
        Reallocate(Grown(vCapacity));
      }
      ghost var s := Elements();
      ShiftUp(index);
      data[index] := element;
      vSize := vSize + 1;
      InsertAtElements(s, index, element);
      o := Done;
    }

    /** The loop of `insert`: moves `data[index..size)` one slot up. */
    method ShiftUp(index: nat)
      requires Valid() && index <= vSize < vCapacity
      modifies data
      ensures forall k :: 0 <= k < index ==> data[k] == old(data[k])
      ensures forall k :: index < k <= vSize ==> data[k] == old(data[k - 1])
    {
      var i := vSize;
      while i > index
        invariant index <= i <= vSize
        invariant forall k :: 0 <= k < i ==> data[k] == old(data[k])
        invariant forall k :: i < k <= vSize ==> data[k] == old(data[k - 1])
      {
        data[i] := data[i - 1];
        i := i - 1;
      }
    }

    /** `erase(index)`: `out_of_range` unless `0 <= index < size`; otherwise
        shifts the tail down by one over position `index`. */
    method Erase(index: int) returns (o: Outcome)
      requires Valid()
      modifies this, data
      ensures data == old(data) || fresh(data)
      ensures Valid() && vCapacity == old(vCapacity)
      ensures o == if 0 <= index < old(vSize) then Done else Failed(OutOfRange)
      ensures o.Done? ==> 0 <= index < |old(Elements())| && Elements() == RemoveAt(old(Elements()), index)
      ensures o.Failed? ==> Elements() == old(Elements())
    {
      if index < 0 || index >= vSize {
        return Failed(OutOfRange);
      }
      ghost var s := Elements();
      ShiftDown(index);
      vSize := vSize - 1;
      RemoveAtElements(s, index);
      o := Done;
    }

    /** The loop of `erase`: moves `data(index..size)` one slot down. */
    method ShiftDown(index: nat)
      requires Valid() && index < vSize
      modifies data
      ensures forall k :: 0 <= k < index ==> data[k] == old(data[k])
      ensures forall k :: index <= k < vSize - 1 ==> data[k] == old(data[k + 1])
    {
      var i := index;
      while i < vSize - 1
        invariant index <= i <= vSize - 1
        invariant forall k :: 0 <= k < index ==> data[k] == old(data[k])
        invariant forall k :: index <= k < i ==> data[k] == old(data[k + 1])
        invariant forall k :: i <= k < vSize ==> data[k] == old(data[k])
      {
        data[i] := data[i + 1];
        i := i + 1;
      }
    }

    /** `operator[](index)`: `out_of_range` outside `[0, size)`. */
    function Get(index: int): (r: Result<T>)
      reads this, data
      requires Valid()
      ensures r.Ok? <==> 0 <= index < |Elements()|
      ensures r.Ok? ==> r.value == Elements()[index]
      ensures r.Err? ==> r.error == OutOfRange
    {
      if index < 0 || index >= vSize then Err(OutOfRange) else Ok(data[index])
    }

    /** `at(index)`: the same check and element as `operator[]`. */
    function At(index: int): (r: Result<T>)
      reads this, data
      requires Valid()
      ensures r.Ok? <==> 0 <= index < |Elements()|
      ensures r.Ok? ==> r.value == Elements()[index]
      ensures r.Err? ==> r.error == OutOfRange
    {
      if index < 0 || index >= vSize then Err(OutOfRange) else Ok(data[index])
    }

    /** `front()`: `out_of_range` on an empty vector, else the first element. */
    function Front(): (r: Result<T>)
      reads this, data
      requires Valid()
      ensures r.Ok? <==> Elements() != []
      ensures r.Ok? ==> r.value == Elements()[0]
      ensures r.Err? ==> r.error == OutOfRange
    {
      if Empty() then Err(OutOfRange) else Ok(data[0])
    }

    /** `back()`: `out_of_range` on an empty vector, else the last element. */
    function Back(): (r: Result<T>)
      reads this, data
      requires Valid()
      ensures r.Ok? <==> Elements() != []
      ensures r.Ok? ==> r.value == Elements()[|Elements()| - 1]
      ensures r.Err? ==> r.error == OutOfRange
    {
      if Empty() then Err(OutOfRange) else Ok(data[vSize - 1])
    }

    /** `shrink_to_fit()`: a buffer with spare slots is replaced by one of
        exactly `size` slots; the elements stay. */
    method ShrinkToFit()
      requires Valid()
      modifies this
      ensures data == old(data) || fresh(data)
      ensures Valid() && Elements() == old(Elements())
      ensures vCapacity == if old(vCapacity) > old(vSize) then old(vSize) else old(vCapacity)
    {
      if vCapacity > vSize {
        Reallocate(vSize);
      }
    }
  }

  /** Pushing 1, 2, 3 onto a new vector: capacities 1, 2, 4; `insert(1, 9)`
      then `erase(0)` leave `[9, 2, 3]`; `at(3)` is out of range. */
  method Example() returns (elements: seq<int>, capacity: nat, outside: Result<int>)
    ensures elements == [9, 2, 3] && capacity == 4 && outside == Err(OutOfRange)
  {
    var v := new MyVector<int>();
    v.PushBack(1);
    assert v.Elements() == [1] && v.vCapacity == 1;
    v.PushBack(2);
    assert v.Elements() == [1, 2] && v.vCapacity == 2;
    v.PushBack(3);
    assert v.Elements() == [1, 2, 3] && v.vCapacity == 4;
    var o := v.Insert(1, 9);
    assert v.Elements() == [1, 9, 2, 3];
    o := v.Erase(0);
    elements := v.data[..v.vSize];
    capacity := v.Capacity();
    outside := v.At(3);
  }
}
