/**
 * linked_ptr on the heap: every pointer carries one `next` link, the pointers
 * to one object form a circle, and both joining and leaving a circle walk it
 * to find the predecessor. The by-value member link_ of the C++ class is
 * folded into the pointer that contains it.
 */
module LinkedPtr {
  import opened Wrappers
  import opened Circles
  import opened Ownership
  import opened SharedCircles

  /** An object owned through linked_ptrs. */
  class Target {
    constructor () {}
  }

  function Pointee(t: Target?): Option<Target> {
    if t == null then None else Some(t)
  }

  /** The objects `delete` has been called on, in order, and the history that led there. */
  class Memory {
    ghost var history: History<LinkedPtr, Target>
    ghost var world: World<LinkedPtr, Target>  // what the history amounts to
    var deleted: seq<Target>

    constructor ()
      ensures Valid() && history == Start
    {
      history, world, deleted := Start, Now(Start), [];
    }

    ghost function Live(): set<LinkedPtr>
      reads this
    {
      world.next.Keys
    }

    ghost method Record(e: Event<LinkedPtr, Target>)
      requires Lawful(history) && world == Now(history) && Possible(world, e)
      modifies this`history, this`world
      ensures Lawful(history) && world == Now(history)
      ensures history == Then(old(history), e) && world == After(old(world), e)
    {
      history, world := Then(history, e), After(world, e);
    }

    /** The heap is what the history says it should be. */
    ghost predicate Valid()
      reads this, Live()
    {
      && Lawful(history) && world == Now(history)
      && Live() == world.book.holds.Keys
      && (forall p {:trigger p.next} :: p in Live() ==> p.next == world.next[p])
      && (forall p {:trigger p.value} :: p in Live() ==> Pointee(p.value) == world.book.holds[p])
      && deleted == world.book.deleted
    }
  }

  /** Some live pointer other than `p` has this object. */
  ghost predicate HeldBesides(p: LinkedPtr, t: Target, live: set<LinkedPtr>)
    reads live
  {
    exists q :: q in live && q != p && q.value == t
  }

  /** The objects that go when `p` departs: its own, if it has one and no other live pointer has it. */
  ghost function Orphaned(p: LinkedPtr, live: set<LinkedPtr>): seq<Target>
    reads p, live
  {
    if p.value == null || HeldBesides(p, p.value, live) then [] else [p.value]
  }

  lemma BackAmong(live: set<LinkedPtr>, p: LinkedPtr)
    requires p in live
    ensures live - {p} + {p} == live
  {
  }

  lemma ReleasedIsOrphaned(p: LinkedPtr, mem: Memory)
    requires mem.Valid() && p in mem.Live()
    ensures Release(mem.world.book, p).deleted == mem.deleted + Orphaned(p, mem.Live())
  {
    var holds := mem.world.book.holds;
    var rest := holds - {p};
    assert holds[p] == Pointee(p.value);
    if p.value != null {
      if HeldBesides(p, p.value, mem.Live()) {
        var q :| q in mem.Live() && q != p && q.value == p.value;
        assert rest[q] == holds[p];
      }
    }
  }

  /** Walks the circle from `start` to the predecessor of `stop`; the loop of both join and depart. */
  method FindPredecessor(start: LinkedPtr, stop: LinkedPtr, mem: Memory) returns (p: LinkedPtr)
    requires mem.Valid() && stop in mem.Live() && (start == stop || start == mem.world.next[stop])
    ensures p == Predecessor(mem.world.next, stop)
  {
    ghost var next := mem.world.next;
    Neighbours(mem.history, stop);
    ghost var ring := RingOf(mem.history, stop);
    ghost var k, j := IndexOf(ring, stop), IndexOf(ring, start);
    p := start;
    while p.next != stop
      invariant 0 <= j < |ring| && p == ring[j]
      decreases Distance(Succ(j, |ring|), k, |ring|)
    {
      assert next[ring[j]] == ring[Succ(j, |ring|)];
      p := p.next;
      j := Succ(j, |ring|);
    }
  }

  class LinkedPtr {
    var value: Target?
    var next: LinkedPtr

    /** linked_ptr_internal::join_new */
    method JoinNew()
      modifies this`next
      ensures next == this
    {
      next := this;
    }

    /** linked_ptr_internal::join: become the predecessor of `ptr` on its circle. */
    method Join(ptr: LinkedPtr, mem: Memory)
      requires mem.Valid() && ptr in mem.Live() && this !in mem.Live()
      modifies this`next, mem.Live()`next
      ensures next == ptr
      ensures forall q {:trigger q.next} :: q in mem.Live() ==>
                q.next == if q == Predecessor(mem.world.next, ptr) then this else mem.world.next[q]
    {
      Neighbours(mem.history, ptr);
      var p := FindPredecessor(ptr, ptr, mem);
      p.next := this;
      next := ptr;
    }

    /** linked_ptr_internal::depart: leave the circle, saying whether it was the last member. */
    method DepartLink(mem: Memory) returns (last: bool)
      requires mem.Valid() && this in mem.Live()
      modifies mem.Live()`next
      ensures last <==> old(next) == this
      ensures forall q {:trigger q.next} :: q in mem.Live() ==>
                q.next == if q == Predecessor(mem.world.next, this) then mem.world.next[this] else mem.world.next[q]
    {
      Neighbours(mem.history, this);
      if next == this {
        return true;
      }
      var p := FindPredecessor(next, this, mem);
      p.next := next;
      return false;
    }

    /** linked_ptr::capture */
    method CaptureRaw(raw: Target?, mem: Memory)
      requires mem.Valid() && Possible(mem.world, Captures(this, Pointee(raw)))
      modifies this`value, this`next, mem`history, mem`world
      ensures mem.Valid() && mem.history == Then(old(mem.history), Captures(this, Pointee(raw)))
      ensures value == raw && mem.Live() == old(mem.Live()) + {this}
    {
      value := raw;
      JoinNew();
      mem.Record(Captures(this, Pointee(raw)));
    }

    /** linked_ptr::copy */
    method CopyFrom(ptr: LinkedPtr, mem: Memory)
      requires mem.Valid() && Possible(mem.world, Copies(this, ptr))
      modifies this`value, this`next, mem`history, mem`world, mem.Live()`next
      ensures mem.Valid() && mem.history == Then(old(mem.history), Copies(this, ptr))
      ensures value == ptr.value && mem.Live() == old(mem.Live()) + {this}
    {
      Neighbours(mem.history, ptr);
      value := ptr.value;
      if value != null {
        Join(ptr, mem);
      } else {
        JoinNew();
      }
      mem.Record(Copies(this, ptr));
    }

    /** linked_ptr::depart */
    method Depart(mem: Memory)
      requires mem.Valid() && this in mem.Live()
      modifies mem`history, mem`world, mem`deleted, mem.Live()`next
      ensures mem.Valid() && mem.history == Then(old(mem.history), Departs(this))
      ensures mem.Live() == old(mem.Live()) - {this}
      ensures mem.deleted == old(mem.deleted) + old(Orphaned(this, mem.Live()))
    {
      Neighbours(mem.history, this);
      DepartureDeletes(mem.history, this);
      ReleasedIsOrphaned(this, mem);
      var last := DepartLink(mem);
      if last && value != null {
        mem.deleted := mem.deleted + [value];
      }
      mem.Record(Departs(this));
    }

    /** linked_ptr(T*) */
    constructor FromRaw(raw: Target?, mem: Memory)
      requires mem.Valid() && (raw != null ==> raw !in mem.world.book.captured)
      modifies mem`history, mem`world
      ensures mem.Valid() && mem.history == Then(old(mem.history), Captures(this, Pointee(raw)))
      ensures value == raw && mem.Live() == old(mem.Live()) + {this}
    {
      value, next := null, this;
      new;
      CaptureRaw(raw, mem);
    }

    /** linked_ptr(linked_ptr const&) */
    constructor Copy(ptr: LinkedPtr, mem: Memory)
      requires mem.Valid() && ptr in mem.Live()
      modifies mem`history, mem`world, mem.Live()`next
      ensures mem.Valid() && mem.history == Then(old(mem.history), Copies(this, ptr))
      ensures value == ptr.value && mem.Live() == old(mem.Live()) + {this}
    {
      value, next := null, this;
      new;
      CopyFrom(ptr, mem);
    }

    /** operator= */
    method AssignFrom(ptr: LinkedPtr, mem: Memory)
      requires mem.Valid() && this in mem.Live() && ptr in mem.Live()
      modifies this`value, mem`history, mem`world, mem`deleted, mem.Live()`next
      ensures mem.Valid() && mem.history ==
                if ptr == this then old(mem.history)
                else Then(Then(old(mem.history), Departs(this)), Copies(this, ptr))
      ensures value == old(ptr.value) && mem.Live() == old(mem.Live())
      ensures ptr == this ==> mem.deleted == old(mem.deleted)
      ensures ptr != this ==> mem.deleted == old(mem.deleted + Orphaned(this, mem.Live()))
    {
      BackAmong(mem.Live(), this);
      if ptr != this {
        Depart(mem);
        CopyFrom(ptr, mem);
      }
    }

    /** linked_ptr::reset */
    method ResetTo(raw: Target?, mem: Memory)
      requires mem.Valid() && this in mem.Live() && (raw != null ==> raw !in mem.world.book.captured)
      modifies this`value, mem`history, mem`world, mem`deleted, mem.Live()`next
      ensures mem.Valid()
      ensures mem.history == Then(Then(old(mem.history), Departs(this)), Captures(this, Pointee(raw)))
      ensures value == raw && mem.Live() == old(mem.Live())
      ensures mem.deleted == old(mem.deleted) + old(Orphaned(this, mem.Live()))
    {
      BackAmong(mem.Live(), this);
      Depart(mem);
      CaptureRaw(raw, mem);
    }

    /** ~linked_ptr */
    method Destroy(mem: Memory)
      requires mem.Valid() && this in mem.Live()
      modifies mem`history, mem`world, mem`deleted, mem.Live()`next
      ensures mem.Valid() && mem.history == Then(old(mem.history), Departs(this))
      ensures mem.Live() == old(mem.Live()) - {this}
      ensures mem.deleted == old(mem.deleted) + old(Orphaned(this, mem.Live()))
    {
      Depart(mem);
    }
  }
}
