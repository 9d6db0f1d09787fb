/** `wrap<T>`: a holder that owns a nullable pointer and applies a stored
    destructor to it. A pointer is modelled by the object it designates, and
    the null pointer by `None`. */
module Wrap {
  import opened Basics

  /** Every object appears at most once in a record of destructions. */
  ghost predicate AtMostOnce<T>(destroyed: multiset<T>) {
    forall x | x in destroyed :: destroyed[x] == 1
  }

  /** The stored destructor (`boost::function<void (ptr_t)>`, for example
      `memcached_free`). Its ghost record says which objects it has been
      applied to, and how often. */
  class Deleter<T(==)> {
    ghost var destroyed: multiset<T>

    constructor()
      ensures destroyed == multiset{}
    {
      destroyed := multiset{};
    }

    /** Invoking the destructor on `target`. */
    method Apply(target: T)
      modifies this
      ensures destroyed == old(destroyed) + multiset{target}
    {
      destroyed := destroyed + multiset{target};
    }
  }

  class Wrap<T(==)> {
    /** `m_object` */
    var ptr: Option<T>
    /** `m_destructor` */
    const deleter: Deleter<T>
    /** False once the holder's own destructor has run. */
    ghost var alive: bool

    /** The ownership invariant: the held object has not been destroyed yet,
        and nothing has been destroyed twice. */
    ghost predicate Valid()
      reads this, deleter
    {
      && alive
      && (ptr.Some? ==> ptr.value !in deleter.destroyed)
      && AtMostOnce(deleter.destroyed)
    }

    /** What `destroy()` adds to the record: the held object, if any. */
    ghost function Held(): multiset<T>
      reads this
    {
      if ptr.Some? then multiset{ptr.value} else multiset{}
    }

    /** `wrap(object, destructor)` */
    constructor(p: Option<T>, deleter: Deleter<T>)
      requires p.Some? ==> p.value !in deleter.destroyed
      requires AtMostOnce(deleter.destroyed)
      ensures Valid()
      ensures ptr == p && this.deleter == deleter
      ensures deleter.destroyed == old(deleter.destroyed)
    {
      ptr := p;
      this.deleter := deleter;
      alive := true;
    }

    /** `destroy()`: the destructor is invoked exactly once on the held
        pointer if it is not null. The pointer itself is left in place. */
    method Destroy()
      requires Valid()
      modifies deleter
      ensures deleter.destroyed == old(deleter.destroyed) + Held()
      ensures AtMostOnce(deleter.destroyed)
    {
      if ptr.Some? {
        deleter.Apply(ptr.value);
      }
    }

    /** `~wrap()`: the end of the holder's life destroys what it holds. */
    method Dispose()
      requires Valid()
      modifies this, deleter
      ensures !alive && ptr == old(ptr)
      ensures deleter.destroyed == old(deleter.destroyed) + old(Held())
      ensures AtMostOnce(deleter.destroyed)
    {
      Destroy();
      alive := false;
    }

    /** `operator=(ptr_t)`: destroys the current object, then holds the
        new pointer. The new pointer must not be the one already held, nor one
        that has been destroyed. */
    method AssignPointer(p: Option<T>)
      requires Valid()
      requires p.Some? ==> p.value !in deleter.destroyed && p != ptr
      modifies this, deleter
      ensures Valid() && ptr == p && alive
      ensures deleter.destroyed == old(deleter.destroyed) + old(Held())
    {
      Destroy();
      ptr := p;
    }

    /** `operator=(wrap<T>&)`: destroys the current object, then takes
        over the other holder's pointer, leaving the other holder null.
        Self-assignment is excluded. */
    method AssignFrom(other: Wrap<T>)
      requires other != this
      requires Valid() && other.Valid()
      requires other.ptr.Some? ==> other.ptr.value !in deleter.destroyed && other.ptr != ptr
      modifies this, other, deleter
      ensures Valid() && alive
      ensures ptr == old(other.ptr) && other.ptr == None && other.alive
      ensures deleter.destroyed == old(deleter.destroyed) + old(Held())
    {
      Destroy();
      var p := other.Release();
      ptr := p;
    }

    /** `operator*()`: the held pointer, which is never a destroyed object;
        nothing changes. */
    method Deref() returns (p: Option<T>)
      requires Valid()
      ensures p == ptr
      ensures p.Some? ==> p.value !in deleter.destroyed
    {
      p := ptr;
    }

    /** `valid()`: the held pointer is not null; in a valid holder, a true
        answer means the object it designates is still alive. */
    function IsValid(): (r: bool)
      reads this, deleter
      ensures r <==> ptr != None
      ensures Valid() && r ==> ptr.value !in deleter.destroyed
    {
      ptr.Some?
    }

    /** `release()`: gives up ownership without invoking the destructor. */
    method Release() returns (p: Option<T>)
      requires Valid()
      modifies this
      ensures Valid() && p == old(ptr) && ptr == None
    {
      p := ptr;
      ptr := None;
    }
  }

  /** The fetch idiom of the multi-get loop: the holder of the result record
      releases it to the library, the library hands back the same record, a
      fresh one, or null, and that is assigned back to the holder. Nothing is
      destroyed on the way, so a record the library reuses is never freed. */
  method RefillFromLibrary<T(==)>(w: Wrap<T>, returned: Option<T>)
    requires w.Valid()
    requires returned.Some? ==> returned.value !in w.deleter.destroyed
    modifies w, w.deleter
    ensures w.Valid() && w.ptr == returned
    ensures w.deleter.destroyed == old(w.deleter.destroyed)
  {
    var handedOver := w.Release();
    w.AssignPointer(returned);
  }
}
