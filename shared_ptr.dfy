/**
 * A reference-counted smart pointer (`hw1::shared_ptr`).
 *
 * An instance stores the managed pointer `ptr` and a pointer `refcount` to a
 * heap-allocated counter shared by every instance that owns the same object.
 * The counter is a `Counter` object whose `value` the instances update in
 * place; a `Heap` object records, in a ghost set, every element and counter
 * that has been deleted.
 */
module SharedPointer {

  /** The managed element (`element_type`). */
  class Element {
    constructor ()
    {
    }
  }

  /** The heap-allocated reference counter (`counter_type *refcount`). */
  class Counter {
    var value: nat

    constructor (v: nat)
      ensures value == v
    {
      value := v;
    }
  }

  /** Deallocation log: every object passed to `delete` ends up in `freed`. */
  class Heap {
    ghost var freed: set<object>

    constructor ()
      ensures freed == {}
    {
      freed := {};
    }
  }

  /** The result of a three-way comparison (`std::strong_ordering`). */
  datatype Ordering = Less | Equal | Greater

  /** The objects that `delete refcount; delete ptr;` frees (deleting null is a no-op). */
  ghost function Owned(p: Element?, c: Counter?): (objs: set<object>)
    ensures p != null ==> p in objs
    ensures c != null ==> c in objs
    ensures forall o :: o in objs ==> o == p || o == c
  {
    (if p == null then {} else {p as Element}) + (if c == null then {} else {c as Counter})
  }

  class SharedPtr {
    var ptr: Element?
    var refcount: Counter?
    const heap: Heap

    /**
     * An instance is either empty (both fields null) or owns an object
     * together with a live counter of at least one.
     */
    ghost predicate Valid()
      reads this, refcount
    {
      (ptr == null <==> refcount == null) &&
      (refcount != null ==> refcount.value >= 1)
    }

    /**
     * What the two-instance part of the global accounting guarantees: two
     * instances sharing a counter store the same pointer, and two distinct
     * instances sharing a counter are both counted in it.
     */
    ghost predicate Agree(other: SharedPtr)
      reads this, other, refcount
    {
      refcount != null && refcount == other.refcount ==>
        ptr == other.ptr && (this != other ==> refcount.value >= 2)
    }

    /** The objects the next `release` deletes: both, when this is the last owner. */
    ghost function ReleaseFrees(): set<object>
      reads this, refcount
    {
      if refcount == null || refcount.value == 1 then Owned(ptr, refcount) else {}
    }

    /** `shared_ptr(nullptr)`: the empty pointer. */
    constructor Empty(h: Heap)
      ensures ptr == null && refcount == null && heap == h
      ensures Valid()
    {
      ptr := null;
      refcount := null;
      heap := h;
    }

    /** `shared_ptr(C *p)`: a non-null `p` gets a fresh counter holding one. */
    constructor FromRaw(h: Heap, p: Element?)
      ensures ptr == p && heap == h
      ensures p == null ==> refcount == null
      ensures p != null ==> fresh(refcount) && refcount.value == 1
      ensures Valid()
    {
      ptr := p;
      refcount := null;
      heap := h;
      new;
      Acquire();
    }

    /** Copy construction: share `obj`'s pointer and counter, and count one more owner. */
    constructor Copy(obj: SharedPtr)
      requires obj.Valid()
      modifies obj.refcount
      ensures ptr == obj.ptr && refcount == obj.refcount && heap == obj.heap
      ensures refcount != null ==> refcount.value == old(obj.refcount.value) + 1
      ensures Valid() && obj.Valid()
    {
      ptr := obj.ptr;
      refcount := obj.refcount;
      heap := obj.heap;
      new;
      Acquire();
    }

    /** Move construction: take over `obj`'s pointer and counter and leave `obj` empty. */
    constructor Move(obj: SharedPtr)
      requires obj.Valid()
      modifies obj
      ensures ptr == old(obj.ptr) && refcount == old(obj.refcount) && heap == obj.heap
      ensures refcount != null ==> refcount.value == old(obj.refcount.value)
      ensures obj.ptr == null && obj.refcount == null
      ensures Valid() && obj.Valid()
    {
      ptr := obj.ptr;
      refcount := obj.refcount;
      heap := obj.heap;
      new;
      obj.ptr := null;
      obj.refcount := null;
    }

    /** `acquire`: with a stored pointer, create the counter if missing and increment it. */
    method Acquire()
      modifies this, refcount
      ensures ptr == old(ptr)
      ensures old(ptr) == null ==> refcount == old(refcount) && (refcount != null ==> refcount.value == old(refcount.value))
      ensures old(ptr) != null && old(refcount) == null ==> fresh(refcount) && refcount.value == 1
      ensures old(ptr) != null && old(refcount) != null ==>
        refcount == old(refcount) && refcount.value == old(refcount.value) + 1
    {
      if ptr != null {
        if refcount == null {
          refcount := new Counter(0);
        }
        refcount.value := refcount.value + 1;
      }
    }

    /**
     * `release`: decrement the shared counter; when it reaches zero (or there
     * is no counter) delete the counter and the element. The instance is
     * empty afterwards.
     */
    method Release()
      requires Valid()
      modifies this, refcount, heap
      ensures ptr == null && refcount == null && Valid()
      ensures old(refcount) != null ==> old(refcount).value == old(refcount.value) - 1
      ensures heap.freed == old(heap.freed) + old(ReleaseFrees())
    {
      var last := true;
      if refcount != null {
        refcount.value := refcount.value - 1;
        last := refcount.value == 0;
      }
      if last {
        heap.freed := heap.freed + Owned(ptr, refcount);
      }
      ptr := null;
      refcount := null;
    }

    /** The destructor: exactly `release`. */
    method Destroy()
      requires Valid()
      modifies this, refcount, heap
      ensures ptr == null && refcount == null
      ensures old(refcount) != null ==> old(refcount).value == old(refcount.value) - 1
      ensures heap.freed == old(heap.freed) + old(ReleaseFrees())
    {
      Release();
    }

    /**
     * Copy assignment: nothing happens when both store the same pointer;
     * otherwise release the old object and share `obj`'s, counting one more
     * owner.
     */
    method Assign(obj: SharedPtr)
      requires Valid() && obj.Valid() && Agree(obj) && obj.heap == heap
      modifies this, refcount, obj.refcount, heap
      ensures Valid() && obj.Valid()
      ensures old(ptr) == old(obj.ptr) ==>
        ptr == old(ptr) && refcount == old(refcount) && heap.freed == old(heap.freed) &&
        (refcount != null ==> refcount.value == old(refcount.value))
      ensures old(ptr) != old(obj.ptr) ==>
        ptr == old(obj.ptr) && refcount == old(obj.refcount) &&
        (refcount != null ==> refcount.value == old(obj.refcount.value) + 1) &&
        (old(refcount) != null ==> old(refcount).value == old(refcount.value) - 1) &&
        heap.freed == old(heap.freed) + old(ReleaseFrees())
      ensures obj.ptr == old(obj.ptr) && obj.refcount == old(obj.refcount)
    {
      if ptr != obj.ptr {
        Release();
        ptr := obj.ptr;
        refcount := obj.refcount;
        Acquire();
      }
    }

    /**
     * Move assignment: release the old object, take over `obj`'s pointer and
     * counter and leave `obj` empty. Moving an instance into itself leaves it
     * empty.
     */
    method MoveAssign(obj: SharedPtr)
      requires Valid() && obj.Valid() && Agree(obj) && obj.heap == heap
      modifies this, refcount, obj, heap
      ensures Valid() && obj.Valid()
      ensures obj != this ==> ptr == old(obj.ptr) && refcount == old(obj.refcount)
      ensures obj.ptr == null && obj.refcount == null
      ensures old(refcount) != null ==> old(refcount).value == old(refcount.value) - 1
      ensures old(refcount) != old(obj.refcount) && old(obj.refcount) != null ==>
        refcount.value == old(obj.refcount.value)
      ensures heap.freed == old(heap.freed) + old(ReleaseFrees())
    {
      Release();
      ptr := obj.ptr;
      refcount := obj.refcount;
      obj.ptr := null;
      obj.refcount := null;
    }

    /** `reset()`: exactly `release`. */
    method Reset()
      requires Valid()
      modifies this, refcount, heap
      ensures ptr == null && refcount == null && Valid()
      ensures old(refcount) != null ==> old(refcount).value == old(refcount.value) - 1
      ensures heap.freed == old(heap.freed) + old(ReleaseFrees())
    {
      Release();
    }

    /** `reset(p)`: release the old object, then own `p` with a fresh counter. */
    method ResetTo(p: Element?)
      requires Valid()
      modifies this, refcount, heap
      ensures ptr == p && Valid()
      ensures p == null ==> refcount == null
      ensures p != null ==> fresh(refcount) && refcount.value == 1
      ensures old(refcount) != null ==> old(refcount).value == old(refcount.value) - 1
      ensures heap.freed == old(heap.freed) + old(ReleaseFrees())
    {
      Release();
      ptr := p;
      Acquire();
    }

    /** `swap`: exchange both fields; no counter changes. */
    method Swap(obj: SharedPtr)
      requires Valid() && obj.Valid()
      modifies this, obj
      ensures ptr == old(obj.ptr) && refcount == old(obj.refcount)
      ensures obj.ptr == old(ptr) && obj.refcount == old(refcount)
      ensures Valid() && obj.Valid()
    {
      var ptrTmp := ptr;
      ptr := obj.ptr;
      obj.ptr := ptrTmp;

      var refcountTmp := refcount;
      refcount := obj.refcount;
      obj.refcount := refcountTmp;
    }

    /** `use_count`: the number of owners, zero exactly for an empty pointer. */
    function UseCount(): (n: nat)
      reads this, refcount
      requires Valid()
      ensures n == 0 <==> ptr == null
      ensures refcount != null ==> n == refcount.value
    {
      if refcount != null then refcount.value else 0
    }

    /** `get`: the stored pointer, null exactly when nothing is owned. */
    function Get(): (p: Element?)
      reads this, refcount
      requires Valid()
      ensures p == null <==> UseCount() == 0
    {
      ptr
    }

    /** `operator bool`: true exactly when a pointer is stored. */
    function IsSet(): (b: bool)
      reads this, refcount
      ensures b <==> ptr != null
      ensures Valid() ==> (b <==> UseCount() > 0)
    {
      ptr != null
    }

    /** `operator==(shared_ptr)`: compares the stored pointers. */
    function Equals(obj: SharedPtr): (r: bool)
      reads this, obj
      ensures r <==> ptr == obj.ptr
      ensures obj == this ==> r
    {
      ptr == obj.ptr
    }

    /** `operator==(nullptr)`: true exactly for an instance that stores no pointer. */
    function EqualsNull(): (r: bool)
      reads this, refcount
      ensures r <==> !IsSet()
    {
      ptr == null
    }

    /** `operator<=>(nullptr)`: `greater` for a stored pointer, otherwise `equal`; never `less`. */
    function CompareNull(): (o: Ordering)
      reads this, refcount
      ensures o != Less
      ensures o == Greater <==> IsSet()
      ensures o == Equal <==> EqualsNull()
    {
      if ptr != null then Greater else Equal
    }
  }
}
