/** `tmp<T>`: a handle to either a temporary object it may share with at
    most one other handle (through the object's reference count), or a
    constant reference to an object it does not own.

    The object is a heap cell with its reference count (the number of
    handles besides the first) and a flag recording whether it has been
    deleted. Every fatal error is a precondition. */
module Tmps {

  /** A reference-counted object; `count` is the number of extra handles. */
  class Object {
    var count: nat
    var alive: bool

    constructor()
      ensures count == 0 && alive
    {
      count := 0;
      alive := true;
    }

    predicate Unique()
      reads this
    {
      count == 0
    }
  }

  datatype Kind = ReusableTmp | NonReusableTmp | ConstRef

  class Tmp {
    var kind: Kind
    var ptr: Object?

    /** A constant reference always refers to an object. */
    predicate Inv()
      reads this
    {
      kind == ConstRef ==> ptr != null
    }

    predicate IsAnyTmp()
      reads this
    {
      kind == ReusableTmp || kind == NonReusableTmp
    }

    predicate IsTmp()
      reads this
    {
      kind == ReusableTmp
    }

    /** A temporary without an object. */
    predicate Empty()
      reads this
    {
      IsAnyTmp() && ptr == null
    }

    /** A reference, or a temporary with an object. */
    predicate Valid()
      reads this
    {
      !IsAnyTmp() || (IsAnyTmp() && ptr != null)
    }

    /** Taking ownership of a newly allocated object, which no other handle
        may share. */
    constructor FromPointer(tPtr: Object?, nonReusable: bool)
      requires tPtr != null ==> tPtr.Unique()
      ensures kind == (if nonReusable then NonReusableTmp else ReusableTmp) && ptr == tPtr
      ensures Inv()
    {
      kind := if nonReusable then NonReusableTmp else ReusableTmp;
      ptr := tPtr;
    }

    /** Referring to an object without owning it. */
    constructor FromRef(tRef: Object)
      ensures kind == ConstRef && ptr == tRef
      ensures Inv() && Valid()
    {
      kind := ConstRef;
      ptr := tRef;
    }

    /** Copy: a temporary is shared by incrementing its count, which may
        reach at most 1 (two handles); copying a deallocated temporary is
        fatal. */
    constructor Copy(t: Tmp)
      requires t.Inv()
      requires t.IsAnyTmp() ==> t.ptr != null && t.ptr.count == 0
      modifies t.ptr
      ensures kind == t.kind && ptr == t.ptr
      ensures ptr != null && ptr.alive == old(t.ptr.alive)
      ensures ptr.count == if t.IsAnyTmp() then 1 else old(t.ptr.count)
      ensures Inv() && Valid()
    {
      kind := t.kind;
      ptr := t.ptr;
      new;
      if IsAnyTmp() {
        ptr.count := ptr.count + 1;
      }
    }

    /** Move: a temporary's object passes to the new handle and the source
        loses it; a constant reference is simply copied. */
    constructor Move(t: Tmp)
      requires t.Inv()
      modifies t
      ensures kind == old(t.kind) && ptr == old(t.ptr)
      ensures t.kind == old(t.kind)
      ensures t.ptr == if IsAnyTmp() then null else old(t.ptr)
      ensures Inv()
    {
      kind := t.kind;
      ptr := t.ptr;
      new;
      if IsAnyTmp() {
        t.ptr := null;
      }
    }

    /** Copy or transfer: a reusable temporary is transferred when allowed,
        any other temporary is shared as by Copy. */
    constructor Transfer(t: Tmp, allowTransfer: bool)
      requires t.Inv()
      requires t.IsAnyTmp() ==> t.ptr != null
      requires t.IsAnyTmp() && !(allowTransfer && t.IsTmp()) ==> t.ptr.count == 0
      modifies t, t.ptr
      ensures kind == old(t.kind) && ptr == old(t.ptr)
      ensures t.kind == old(t.kind)
      ensures ptr != null && ptr.alive == old(t.ptr.alive)
      ensures IsAnyTmp() && allowTransfer && IsTmp() ==> t.ptr == null && ptr.count == old(t.ptr.count)
      ensures IsAnyTmp() && !(allowTransfer && IsTmp()) ==> t.ptr == ptr && ptr.count == 1
      ensures !IsAnyTmp() ==> t.ptr == ptr && ptr.count == old(t.ptr.count)
      ensures Inv() && Valid()
    {
      kind := t.kind;
      ptr := t.ptr;
      new;
      if IsAnyTmp() {
        if allowTransfer && kind == ReusableTmp {
          t.ptr := null;
        } else {
          ptr.count := ptr.count + 1;
        }
      }
    }

    /** The object, for modification: only a temporary that holds one. */
    method Ref() returns (r: Object)
      requires IsAnyTmp() && ptr != null
      ensures r == ptr
    {
      r := ptr;
    }

    /** The object, for reading (`operator()`, `operator->` on a constant
        handle): a temporary must hold one. */
    method Get() returns (r: Object?)
      requires Inv() && (IsAnyTmp() ==> ptr != null)
      ensures r == ptr && r != null
    {
      r := ptr;
    }

    /** Releasing the object: a reusable temporary hands over its unshared
        object and becomes empty; otherwise a new copy of the object is
        returned and this handle is unchanged. */
    method Ptr() returns (r: Object)
      requires Inv()
      requires IsTmp() ==> ptr != null && ptr.Unique()
      requires !IsTmp() ==> ptr != null
      modifies this
      ensures kind == old(kind)
      ensures old(IsTmp()) ==> r == old(ptr) && ptr == null && Empty()
      ensures !old(IsTmp()) ==> fresh(r) && r.Unique() && r.alive && ptr == old(ptr)
    {
      if kind == ReusableTmp {
        r := ptr;
        ptr := null;
      } else {
        r := new Object();
      }
    }

    /** Dropping the object: an unshared object is deleted, a shared one
        loses a count; a temporary ends up empty and a reference is left
        alone. */
    method Clear()
      modifies this, ptr
      ensures kind == old(kind)
      ensures old(IsAnyTmp()) ==> ptr == null
      ensures !old(IsAnyTmp()) ==> ptr == old(ptr)
      ensures old(IsAnyTmp() && ptr != null) ==>
        if old(ptr.count) == 0 then !old(ptr).alive && old(ptr).count == 0
        else old(ptr).alive == old(ptr.alive) && old(ptr).count == old(ptr.count) - 1
      ensures !old(IsAnyTmp() && ptr != null) ==> old(ptr) == null || unchanged(old(ptr))
    {
      if IsAnyTmp() && ptr != null {
        if ptr.count == 0 {
          ptr.alive := false;
          ptr := null;
        } else {
          ptr.count := ptr.count - 1;
          ptr := null;
        }
      }
    }

    /** Count tPtr has once this handle has been cleared. */
    function CountAfterClear(tPtr: Object): int
      reads this, tPtr
    {
      if IsAnyTmp() && ptr == tPtr then tPtr.count - 1 else tPtr.count
    }

    /** Assigning a newly allocated, unshared object: this handle is
        cleared and becomes a reusable temporary holding it. */
    method AssignPointer(tPtr: Object?)
      requires tPtr != null
      requires !(IsAnyTmp() && ptr == tPtr && tPtr.count == 0)
      requires CountAfterClear(tPtr) == 0
      modifies this, ptr
      ensures kind == ReusableTmp && ptr == tPtr && Valid() && Inv()
      ensures tPtr.count == 0 && tPtr.alive == old(tPtr.alive)
      ensures old(IsAnyTmp() && ptr != null && ptr != tPtr) ==>
        if old(ptr.count) == 0 then !old(ptr).alive && old(ptr).count == 0
        else old(ptr).alive == old(ptr.alive) && old(ptr).count == old(ptr.count) - 1
      ensures !old(IsAnyTmp() && ptr != null) && old(ptr) != tPtr ==> old(ptr) == null || unchanged(old(ptr))
    {
      Clear();
      kind := ReusableTmp;
      ptr := tPtr;
    }

    /** Assigning another temporary: this handle is cleared and takes over
        the other's object and kind, and the other loses the object.
        Assigning from a reference or a deallocated temporary is fatal, as
        is assigning a handle to itself (it is deallocated by the clear). */
    method Assign(t: Tmp)
      requires t != this && t.IsAnyTmp() && t.ptr != null
      modifies this, ptr, t
      ensures kind == old(t.kind) && ptr == old(t.ptr)
      ensures t.kind == old(t.kind) && t.ptr == null && t.Empty()
      ensures Inv() && Valid()
      ensures old(IsAnyTmp() && ptr != null) ==>
        if old(ptr.count) == 0 then !old(ptr).alive && old(ptr).count == 0
        else old(ptr).alive == old(ptr.alive) && old(ptr).count == old(ptr.count) - 1
      ensures !old(IsAnyTmp() && ptr != null) ==> old(ptr) == null || unchanged(old(ptr))
    {
      Clear();
      kind := t.kind;
      ptr := t.ptr;
      t.ptr := null;
    }

    /** Move assignment: this handle is cleared and takes the other's kind
        and object; a temporary source loses the object. Moving a handle
        onto itself leaves it cleared. */
    method MoveAssign(t: Tmp)
      requires t.Inv()
      modifies this, ptr, t
      ensures t != this ==> kind == old(t.kind) && ptr == old(t.ptr)
      ensures t != this ==> t.kind == old(t.kind) && t.ptr == (if IsAnyTmp() then null else old(t.ptr))
      ensures t == this ==> kind == old(kind) && ptr == (if IsAnyTmp() then null else old(ptr))
      ensures Inv()
      ensures old(IsAnyTmp() && ptr != null) ==>
        if old(ptr.count) == 0 then !old(ptr).alive && old(ptr).count == 0
        else old(ptr).alive == old(ptr.alive) && old(ptr).count == old(ptr.count) - 1
      ensures !old(IsAnyTmp() && ptr != null) ==> old(ptr) == null || unchanged(old(ptr))
    {
      Clear();
      kind := t.kind;
      ptr := t.ptr;
      if IsAnyTmp() {
        t.ptr := null;
      }
    }
  }

  /** A handle is valid exactly when it is not empty, and a reusable
      temporary is a temporary. */
  lemma ValidIffNotEmpty(t: Tmp)
    ensures t.Valid() <==> !t.Empty()
    ensures t.IsTmp() ==> t.IsAnyTmp()
    ensures t.IsAnyTmp() <==> t.kind != ConstRef
  {
  }

  /** Sharing a temporary and dropping one handle: the object survives with
      its count back to zero, so the remaining handle owns it alone and can
      release it. */
  method ShareThenClear(o: Object) returns (r: Object)
    requires o.Unique() && o.alive
    modifies o
    ensures r == o && o.alive && o.Unique()
  {
    var a := new Tmp.FromPointer(o, false);
    var b := new Tmp.Copy(a);
    assert o.count == 1;
    b.Clear();
    assert a.ptr == o && o.Unique();
    r := a.Ptr();
  }
}
