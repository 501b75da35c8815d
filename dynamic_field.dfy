/** `DynamicField<T, SizeInc, SizeMult, SizeDiv>`: a field with spare
    storage. The allocation holds `capacity` elements, of which the first
    `size` are addressed; growing past the capacity reallocates to the
    larger of the requested size and SizeInc + capacity*SizeMult/SizeDiv.

    The storage is an array whose length is the allocated length; the
    addressed size is a separate field, as the underlying list's size
    can be set without reallocating. The template parameters are the
    `Growth` the field is created with. Every fatal error is a
    precondition. */
module DynamicFields {

  /** SizeInc, SizeMult and SizeDiv. */
  datatype GrowthParams = GrowthParams(inc: nat, mult: nat, div: nat)
  type Growth = g: GrowthParams | g.div > 0 witness GrowthParams(0, 2, 1)

  function Max(a: nat, b: nat): nat { if a < b then b else a }

  function Min(a: nat, b: nat): nat { if a < b then a else b }

  /** Capacity after growing a field of capacity `capacity` to hold `n`
      elements, `n` being more than it has room for. */
  function GrownCapacity(g: Growth, capacity: nat, n: nat): (c: nat)
    ensures c >= n
    ensures c >= g.inc + capacity * g.mult / g.div
    ensures c == n || c == g.inc + capacity * g.mult / g.div
  {
    Max(n, g.inc + capacity * g.mult / g.div)
  }

  class DynamicField<T(0)> {
    const growth: Growth
    var store: array<T>
    var size: nat
    var capacity: nat

    /** The allocation holds exactly `capacity` elements, and the addressed
        ones fit in it. */
    predicate Valid()
      reads this
    {
      store.Length == capacity && size <= capacity
    }

    /** The addressed elements. */
    function Contents(): (s: seq<T>)
      requires size <= store.Length
      reads this, store
      ensures |s| == size
    {
      store[..size]
    }

    constructor Empty(g: Growth)
      ensures growth == g && Valid() && Contents() == [] && capacity == 0
    {
      growth := g;
      store := new T[0];
      size := 0;
      capacity := 0;
    }

    /** Room for nElem elements, none addressed. */
    constructor WithCapacity(g: Growth, nElem: nat)
      ensures growth == g && Valid() && Contents() == [] && capacity == nElem
      ensures fresh(store)
    {
      growth := g;
      store := new T[nElem];
      size := 0;
      capacity := nElem;
    }

    /** nElem copies of t (the zero-valued constructor is this with the
        zero of T). */
    constructor Filled(g: Growth, nElem: nat, t: T)
      ensures growth == g && Valid() && capacity == nElem
      ensures Contents() == seq(nElem, _ => t)
      ensures fresh(store)
    {
      growth := g;
      store := new T[nElem](_ => t);
      size := nElem;
      capacity := nElem;
    }

    /** A copy of a list (also the list-moving constructor, whose source is
        emptied). */
    constructor FromList(g: Growth, lst: seq<T>)
      ensures growth == g && Valid() && Contents() == lst && capacity == |lst|
      ensures fresh(store)
    {
      growth := g;
      store := new T[|lst|](i requires 0 <= i < |lst| => lst[i]);
      size := |lst|;
      capacity := |lst|;
    }

    /** The copy constructor as written: the copied field allocates only
        the addressed elements but takes over the source's capacity. */
    constructor CopyAsWritten(lst: DynamicField<T>)
      requires lst.Valid()
      ensures growth == lst.growth && size == lst.size && capacity == lst.capacity
      ensures store.Length == lst.size && Contents() == lst.Contents()
      ensures fresh(store)
    {
      growth := lst.growth;
      var elems := lst.Contents();
      store := new T[|elems|](i requires 0 <= i < |elems| => elems[i]);
      size := lst.size;
      capacity := lst.capacity;
    }

    /** The copy constructor with the capacity of what it allocates, as
        every other copying constructor sets it. */
    constructor Copy(lst: DynamicField<T>)
      requires lst.Valid()
      ensures growth == lst.growth && Valid() && Contents() == lst.Contents() && capacity == lst.size
      ensures fresh(store)
    {
      growth := lst.growth;
      var elems := lst.Contents();
      store := new T[|elems|](i requires 0 <= i < |elems| => elems[i]);
      size := lst.size;
      capacity := lst.size;
    }

    /** Moving (or reusing) another field: its storage and capacity pass to
        the new field, and the source is left empty with no capacity. */
    constructor Move(lst: DynamicField<T>)
      requires lst.Valid()
      modifies lst
      ensures growth == lst.growth && Valid()
      ensures store == old(lst.store) && size == old(lst.size) && capacity == old(lst.capacity)
      ensures Contents() == old(lst.Contents())
      ensures lst.Valid() && lst.size == 0 && lst.capacity == 0 && fresh(lst.store)
    {
      growth := lst.growth;
      store := lst.store;
      size := lst.size;
      capacity := lst.capacity;
      new;
      lst.store := new T[0];
      lst.size := 0;
      lst.capacity := 0;
    }

    /** The reusing constructor as written: with reuse the storage passes
        as in Move; without it the addressed elements are copied into an
        allocation of their own size, yet the new field takes the source's
        capacity and the source's capacity is zeroed while it keeps its
        elements. */
    constructor ReuseAsWritten(lst: DynamicField<T>, reuse: bool)
      requires lst.Valid()
      modifies lst
      ensures growth == lst.growth && size == old(lst.size) && capacity == old(lst.capacity)
      ensures size <= store.Length && Contents() == old(lst.Contents())
      ensures reuse ==> store == old(lst.store) && Valid()
      ensures reuse ==> lst.Valid() && lst.size == 0 && lst.capacity == 0 && fresh(lst.store)
      ensures !reuse ==> fresh(store) && store.Length == old(lst.size)
      ensures !reuse ==> lst.store == old(lst.store) && lst.size == old(lst.size) && lst.capacity == 0
    {
      growth := lst.growth;
      size := lst.size;
      capacity := lst.capacity;
      if reuse {
        store := lst.store;
      } else {
        var elems := lst.Contents();
        store := new T[|elems|](i requires 0 <= i < |elems| => elems[i]);
      }
      new;
      if reuse {
        lst.store := new T[0];
        lst.size := 0;
      }
      lst.capacity := 0;
    }

    /** The reusing constructor with a copy that keeps its own allocation
        as its capacity and leaves the source alone when it does not reuse
        it; both fields stay valid either way. */
    constructor Reuse(lst: DynamicField<T>, reuse: bool)
      requires lst.Valid()
      modifies lst
      ensures growth == lst.growth && Valid() && Contents() == old(lst.Contents())
      ensures lst.Valid()
      ensures reuse ==> store == old(lst.store) && capacity == old(lst.capacity)
      ensures reuse ==> lst.size == 0 && lst.capacity == 0 && fresh(lst.store)
      ensures !reuse ==> fresh(store) && capacity == old(lst.size)
      ensures !reuse ==> unchanged(lst)
    {
      growth := lst.growth;
      size := lst.size;
      if reuse {
        store := lst.store;
        capacity := lst.capacity;
      } else {
        var elems := lst.Contents();
        store := new T[|elems|](i requires 0 <= i < |elems| => elems[i]);
        capacity := lst.size;
      }
      new;
      if reuse {
        lst.store := new T[0];
        lst.size := 0;
        lst.capacity := 0;
      }
    }

    /** The underlying list's reallocation to n elements: the addressed
        elements that fit are copied to a new allocation. */
    method Reallocate(n: nat)
      requires size <= store.Length
      modifies this
      ensures fresh(store) && store.Length == n
      ensures size == old(size) && capacity == old(capacity)
      ensures store[..Min(size, n)] == old(store[..Min(size, n)])
    {
      var a := new T[n];
      var k := Min(size, n);
      var i := 0;
      while i < k
        invariant i <= k && unchanged(this)
        invariant a[..i] == store[..i]
      {
        a[i] := store[i];
        i := i + 1;
      }
      store := a;
    }

    /** Reallocating to exactly nElem elements, truncating the addressed
        elements to the new capacity. */
    method SetCapacity(nElem: nat)
      requires Valid()
      modifies this
      ensures Valid() && capacity == nElem && size == Min(old(size), nElem)
      ensures Contents() == old(Contents())[..size]
      ensures fresh(store)
    {
      var nextFree := size;
      capacity := nElem;
      if nextFree > capacity {
        nextFree := capacity;
      }
      Reallocate(capacity);
      size := nextFree;
    }

    /** Making room for nElem elements: the capacity grows only when nElem
        exceeds it, and the addressed elements are untouched. */
    method Reserve(nElem: nat)
      requires Valid()
      modifies this
      ensures Valid() && size == old(size) && Contents() == old(Contents())
      ensures capacity == if nElem > old(capacity) then GrownCapacity(growth, old(capacity), nElem) else old(capacity)
      ensures nElem <= old(capacity) ==> store == old(store)
    {
      if nElem > capacity {
        capacity := GrownCapacity(growth, capacity, nElem);
        var nextFree := size;
        Reallocate(capacity);
        size := nextFree;
      }
    }

    /** Addressing nElem elements, growing the capacity when it is too
        small; the elements kept keep their values. */
    method SetSize(nElem: nat)
      requires Valid()
      modifies this
      ensures Valid() && size == nElem
      ensures capacity == if nElem > old(capacity) then GrownCapacity(growth, old(capacity), nElem) else old(capacity)
      ensures Contents()[..Min(old(size), nElem)] == old(Contents())[..Min(old(size), nElem)]
      ensures nElem <= old(capacity) ==> store == old(store)
      ensures nElem > old(capacity) ==> fresh(store)
    {
      if nElem > capacity {
        capacity := GrownCapacity(growth, capacity, nElem);
        Reallocate(capacity);
      }
      size := nElem;
    }

    /** Addressing nElem elements, the ones added being set to t. */
    method SetSizeFill(nElem: nat, t: T)
      requires Valid()
      modifies this, store
      ensures Valid() && size == nElem
      ensures capacity == if nElem > old(capacity) then GrownCapacity(growth, old(capacity), nElem) else old(capacity)
      ensures Contents() == if nElem <= old(size) then old(Contents())[..nElem]
                            else old(Contents()) + seq(nElem - old(size), _ => t)
    {
      ghost var before := Contents();
      var nextFree := size;
      SetSize(nElem);
      while nextFree < nElem
        invariant Valid() && size == nElem
        invariant capacity == if nElem > old(capacity) then GrownCapacity(growth, old(capacity), nElem) else old(capacity)
        invariant store == old(store) || fresh(store)
        invariant old(size) <= nextFree <= nElem || nElem <= old(size) == nextFree
        invariant store[..Min(old(size), nElem)] == before[..Min(old(size), nElem)]
        invariant forall k :: old(size) <= k < nextFree ==> store[k] == t
      {
        store[nextFree] := t;
        nextFree := nextFree + 1;
      }
      if nElem > old(size) {
        assert Contents() == before + seq(nElem - old(size), _ => t);
      } else {
        assert Contents() == before[..nElem];
      }
    }

    /** No element addressed; the capacity is kept. */
    method Clear()
      requires Valid()
      modifies this
      ensures Valid() && size == 0 && capacity == old(capacity) && store == old(store)
    {
      size := 0;
    }

    /** No element addressed and no storage. */
    method ClearStorage()
      modifies this
      ensures Valid() && size == 0 && capacity == 0
    {
      store := new T[0];
      size := 0;
      capacity := 0;
    }

    /** Releasing the spare storage: the capacity becomes the size. */
    method Shrink()
      requires Valid()
      modifies this
      ensures Valid() && capacity == (if old(capacity) > old(size) then old(size) else old(capacity))
      ensures size == old(size) && Contents() == old(Contents())
    {
      var nextFree := size;
      if capacity > nextFree {
        capacity := nextFree;
        Reallocate(capacity);
        size := nextFree;
      }
    }

    /** Appending one element after the addressed ones. */
    method Append(t: T)
      requires Valid()
      modifies this, store
      ensures Valid() && Contents() == old(Contents()) + [t]
      ensures capacity == if old(size) + 1 > old(capacity) then GrownCapacity(growth, old(capacity), old(size) + 1)
                          else old(capacity)
    {
      var elemI := size;
      SetSize(elemI + 1);
      store[elemI] := t;
    }

    /** Writing elems at the addressed positions from start on. */
    method WriteAt(start: nat, elems: seq<T>)
      requires Valid() && start + |elems| <= size
      modifies store
      ensures Valid()
      ensures store[..start] == old(store[..start])
      ensures store[start..start + |elems|] == elems
    {
      var i := 0;
      while i < |elems|
        invariant i <= |elems|
        invariant store[..start] == old(store[..start])
        invariant store[start..start + i] == elems[..i]
      {
        store[start + i] := elems[i];
        i := i + 1;
      }
    }

    /** Appending the elements of a list, in order. */
    method AppendSeq(lst: seq<T>)
      requires Valid()
      modifies this, store
      ensures Valid() && Contents() == old(Contents()) + lst
    {
      ghost var before := Contents();
      var nextFree := size;
      SetSize(nextFree + |lst|);
      assert store[..nextFree] == before;
      WriteAt(nextFree, lst);
      assert Contents() == store[..nextFree] + store[nextFree..size];
    }

    /** Appending the addressed elements of another field, in order;
        appending a field to itself is fatal. */
    method AppendList(lst: DynamicField<T>)
      requires Valid() && lst.Valid() && lst != this && lst.store != store
      modifies this, store
      ensures Valid() && Contents() == old(Contents()) + old(lst.Contents())
      ensures size == old(size) + old(lst.size)
    {
      AppendSeq(lst.Contents());
    }

    /** Removing and returning the last addressed element; fatal on an
        empty field. */
    method Remove() returns (val: T)
      requires Valid() && size > 0
      modifies this
      ensures Valid() && old(Contents()) == Contents() + [val]
      ensures capacity == old(capacity) && store == old(store)
    {
      var elemI := size - 1;
      val := store[elemI];
      size := elemI;
    }

    /** Access to element elemI (`operator()`), addressing it first when it
        is beyond the addressed elements. */
    method Access(elemI: nat)
      requires Valid()
      modifies this
      ensures Valid() && elemI < size && size == Max(old(size), elemI + 1)
      ensures Contents()[..old(size)] == old(Contents())
    {
      if elemI >= size {
        SetSize(elemI + 1);
      }
    }

    /** Setting every addressed element to t. */
    method AssignValue(t: T)
      requires Valid()
      modifies store
      ensures Valid() && Contents() == seq(size, _ => t)
    {
      var i := 0;
      while i < size
        invariant i <= size
        invariant forall k :: 0 <= k < i ==> store[k] == t
      {
        store[i] := t;
        i := i + 1;
      }
    }

    /** Copying a list: within capacity the elements are copied in place,
        otherwise the storage is reallocated to the list's size. */
    method AssignList(lst: seq<T>)
      requires Valid()
      modifies this, store
      ensures Valid() && Contents() == lst
      ensures capacity == if old(capacity) >= |lst| then old(capacity) else |lst|
    {
      if capacity >= |lst| {
        size := |lst|;
      } else {
        store := new T[|lst|];
        size := |lst|;
        capacity := |lst|;
      }
      WriteAt(0, lst);
    }

    /** Copying another field; assigning a field to itself is fatal. */
    method Assign(lst: DynamicField<T>)
      requires Valid() && lst.Valid() && lst != this
      modifies this, store
      ensures Valid() && Contents() == old(lst.Contents())
      ensures capacity == if old(capacity) >= old(lst.size) then old(capacity) else old(lst.size)
    {
      AssignList(lst.Contents());
    }

    /** Taking over another field's storage and capacity; the source is
        left empty with no capacity. Assigning to self is fatal. */
    method MoveAssign(lst: DynamicField<T>)
      requires Valid() && lst.Valid() && lst != this
      modifies this, lst
      ensures Valid() && store == old(lst.store) && size == old(lst.size) && capacity == old(lst.capacity)
      ensures Contents() == old(lst.Contents())
      ensures lst.Valid() && lst.size == 0 && lst.capacity == 0
    {
      store := lst.store;
      size := lst.size;
      capacity := lst.capacity;
      lst.store := new T[0];
      lst.size := 0;
      lst.capacity := 0;
    }

    /** Taking over a list's elements; the capacity is its size. */
    method MoveAssignList(lst: seq<T>)
      modifies this
      ensures Valid() && Contents() == lst && capacity == |lst|
    {
      store := new T[|lst|](i requires 0 <= i < |lst| => lst[i]);
      size := |lst|;
      capacity := |lst|;
    }
  }

  /** A field copied by the constructor as written, from a field with
      spare capacity, takes the no-growth branch of append and writes one
      past its allocation. */
  method CopyThenAppendOverruns() returns (c: DynamicField<int>)
    ensures c.size + 1 <= c.capacity && c.size == c.store.Length
  {
    var f := new DynamicField<int>.WithCapacity(GrowthParams(0, 2, 1), 2);
    f.Append(7);
    c := new DynamicField<int>.CopyAsWritten(f);
  }

  /** The corrected copy keeps the allocation equal to the capacity, so an
      append always writes inside it. */
  method CopyThenAppend<T(0)>(f: DynamicField<T>, t: T) returns (c: DynamicField<T>)
    requires f.Valid()
    ensures c.Valid() && c.Contents() == f.Contents() + [t]
  {
    c := new DynamicField<T>.Copy(f);
    c.Append(t);
  }

  /** Constructing without reuse, as written, from a field holding one
      element in room for two leaves that source addressing more elements
      than its capacity, and the new field claiming more capacity than it
      allocated. */
  method ReuseWithoutReuseBreaksSource() returns (f: DynamicField<int>, c: DynamicField<int>)
    ensures f.size == 1 && f.capacity == 0 && !f.Valid()
    ensures c.capacity == 2 && c.store.Length == 1 && !c.Valid()
  {
    f := new DynamicField<int>.WithCapacity(GrowthParams(0, 2, 1), 2);
    f.Append(7);
    c := new DynamicField<int>.ReuseAsWritten(f, false);
  }
}
