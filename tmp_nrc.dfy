/** `tmpNrc<T>`: a handle that either owns a temporary object outright or
    refers to an object it does not own. There is no reference count:
    copying a temporary hands ownership to the copy and demotes the source
    to a reference, so one owner remains.

    The kind and the pointer are mutable even through constant handles,
    so copying, `ptr` and `clear` change the source handle. The object is
    a heap cell with a flag recording whether it has been deleted. Every
    fatal error is a precondition. */
module TmpNrcs {

  class Object {
    var alive: bool

    constructor()
      ensures alive
    {
      alive := true;
    }
  }

  datatype Kind = Tmp | ConstRef

  class TmpNrc {
    var kind: Kind
    var ptr: Object?

    /** A reference always refers to an object. */
    predicate Inv()
      reads this
    {
      kind == ConstRef ==> ptr != null
    }

    predicate IsTmp()
      reads this
    {
      kind == Tmp
    }

    /** A temporary without allocation. */
    predicate Empty()
      reads this
    {
      IsTmp() && ptr == null
    }

    /** A reference, or a temporary that has been allocated. */
    predicate Valid()
      reads this
    {
      !IsTmp() || (IsTmp() && ptr != null)
    }

    /** The handle owns its object. */
    predicate Owns(o: Object)
      reads this
    {
      kind == Tmp && ptr == o
    }

    /** Storing an object pointer (possibly null) as a temporary. */
    constructor FromPointer(tPtr: Object?)
      ensures kind == Tmp && ptr == tPtr && Inv()
    {
      kind := Tmp;
      ptr := tPtr;
    }

    /** Storing a reference to an object. */
    constructor FromRef(tRef: Object)
      ensures kind == ConstRef && ptr == tRef && Inv() && Valid()
    {
      kind := ConstRef;
      ptr := tRef;
    }

    /** Copy: the copy takes over a temporary and the source becomes a
        reference to it; copying a deallocated temporary is fatal. */
    constructor Copy(t: TmpNrc)
      requires t.Inv() && (t.IsTmp() ==> t.ptr != null)
      modifies t
      ensures kind == old(t.kind) && ptr == old(t.ptr) && t.ptr == ptr
      ensures t.kind == ConstRef
      ensures Inv() && t.Inv() && Valid() && t.Valid()
    {
      kind := t.kind;
      ptr := t.ptr;
      new;
      if IsTmp() {
        t.kind := ConstRef;
      }
    }

    /** Move: a temporary's object passes to the new handle and the source
        loses it; a reference is simply copied. */
    constructor Move(t: TmpNrc)
      requires t.Inv()
      modifies t
      ensures kind == old(t.kind) && ptr == old(t.ptr)
      ensures t.kind == old(t.kind) && t.ptr == (if IsTmp() then null else old(t.ptr))
      ensures Inv() && t.Inv()
    {
      kind := t.kind;
      ptr := t.ptr;
      new;
      if IsTmp() {
        t.ptr := null;
      }
    }

    /** Copy, transferring a temporary when allowed (the source becomes
        empty) and otherwise demoting the source to a reference. */
    constructor Transfer(t: TmpNrc, allowTransfer: bool)
      requires t.Inv() && (t.IsTmp() ==> t.ptr != null)
      modifies t
      ensures kind == old(t.kind) && ptr == old(t.ptr)
      ensures IsTmp() && allowTransfer ==> t.kind == Tmp && t.ptr == null && t.Empty()
      ensures IsTmp() && !allowTransfer ==> t.kind == ConstRef && t.ptr == ptr
      ensures !IsTmp() ==> t.kind == ConstRef && t.ptr == ptr
      ensures Inv() && t.Inv() && Valid()
    {
      kind := t.kind;
      ptr := t.ptr;
      new;
      if IsTmp() {
        if allowTransfer {
          t.ptr := null;
        } else {
          t.kind := ConstRef;
        }
      }
    }

    /** The object, for modification: only an allocated temporary. */
    method Ref() returns (r: Object)
      requires IsTmp() && ptr != null
      ensures r == ptr
    {
      r := ptr;
    }

    /** The object, for reading (`operator()`, `operator->` on a constant
        handle): a temporary must be allocated. */
    method Get() returns (r: Object)
      requires Inv() && (IsTmp() ==> ptr != null)
      ensures r == ptr
    {
      r := ptr;
    }

    /** Releasing the object for reuse: a temporary hands it over and
        becomes empty; a reference returns a new copy of its object. */
    method Ptr() returns (r: Object)
      requires Inv() && (IsTmp() ==> ptr != null)
      modifies this
      ensures kind == old(kind)
      ensures old(IsTmp()) ==> r == old(ptr) && Empty()
      ensures !old(IsTmp()) ==> fresh(r) && r.alive && ptr == old(ptr)
    {
      if kind == Tmp {
        r := ptr;
        ptr := null;
      } else {
        r := new Object();
      }
    }

    /** Deleting an owned object and leaving the temporary empty; a
        reference is left alone. */
    method Clear()
      modifies this, ptr
      ensures kind == old(kind)
      ensures old(IsTmp()) ==> ptr == null
      ensures old(IsTmp() && ptr != null) ==> !old(ptr).alive
      ensures !old(IsTmp()) ==> ptr == old(ptr) && (ptr == null || unchanged(ptr))
    {
      if kind == Tmp && ptr != null {
        ptr.alive := false;
        ptr := null;
      }
    }

    /** Assigning an object pointer: the handle is cleared and becomes a
        temporary owning it. A null pointer is fatal. Assigning the handle's
        own object deletes it first, so the handle then holds a deleted
        object. */
    method AssignPointer(tPtr: Object?)
      requires tPtr != null
      modifies this, ptr
      ensures Owns(tPtr) && Inv() && Valid()
      ensures tPtr.alive == (old(tPtr.alive) && !(old(IsTmp()) && old(ptr) == tPtr))
      ensures old(IsTmp() && ptr != null) ==> !old(ptr).alive
      ensures !old(IsTmp()) && old(ptr) != null && old(ptr) != tPtr ==> unchanged(old(ptr))
    {
      Clear();
      kind := Tmp;
      ptr := tPtr;
    }

    /** Assigning another temporary: the handle is cleared and takes over
        the other's object, which the other loses. Assigning from a
        reference or from a deallocated temporary is fatal, and so is
        assigning a handle to itself (the clear deallocates it). */
    method Assign(t: TmpNrc)
      requires t != this && t.IsTmp() && t.ptr != null
      modifies this, ptr, t
      ensures Owns(old(t.ptr)) && t.Empty()
      ensures old(IsTmp() && ptr != null) ==> !old(ptr).alive
      ensures !old(IsTmp()) && old(ptr) != null ==> unchanged(old(ptr))
      ensures Inv() && Valid()
    {
      Clear();
      kind := Tmp;
      ptr := t.ptr;
      t.ptr := null;
    }

    /** Move assignment: the handle is cleared and takes the other's kind
        and object; a temporary source loses its object. */
    method MoveAssign(t: TmpNrc)
      requires t.Inv()
      modifies this, ptr, t
      ensures t != this ==> kind == old(t.kind) && ptr == old(t.ptr)
      ensures t != this ==> t.kind == old(t.kind) && t.ptr == (if IsTmp() then null else old(t.ptr))
      ensures t == this ==> kind == old(kind) && ptr == (if IsTmp() then null else old(ptr))
      ensures old(IsTmp() && ptr != null) ==> !old(ptr).alive
      ensures !old(IsTmp()) && old(ptr) != null ==> unchanged(old(ptr))
      ensures Inv()
    {
      Clear();
      kind := t.kind;
      ptr := t.ptr;
      if IsTmp() {
        t.ptr := null;
      }
    }
  }

  /** A handle is valid exactly when it is not empty. */
  lemma ValidIffNotEmpty(t: TmpNrc)
    ensures t.Valid() <==> !t.Empty()
  {
  }

  /** After copying, transferring or moving an allocated temporary, exactly
      one of the two handles owns the object. */
  method SingleOwner(o: Object, mode: nat, allowTransfer: bool) returns (a: TmpNrc, b: TmpNrc)
    ensures a.Owns(o) != b.Owns(o)
  {
    a := new TmpNrc.FromPointer(o);
    if mode == 0 {
      b := new TmpNrc.Copy(a);
    } else if mode == 1 {
      b := new TmpNrc.Transfer(a, allowTransfer);
    } else {
      b := new TmpNrc.Move(a);
    }
  }
}
