/**
 * `SkiplistComponentStorage` (as8/src/ECS.hpp:124-169): a packed buffer holding only the
 * elements actually allocated, and a table `indecies` from entity id to the byte offset of the
 * entity's element, with SIZE_MAX marking "no element".
 */
module SkiplistStorage {
  import opened Common
  import opened EcsTypes

  class SkiplistComponentStorage<V> {
    var elementSize: nat
    var indecies: seq<nat>
    var slots: seq<V>

    /**
     * Every recorded offset designates an element of the buffer, and no two entities share one.
     */
    ghost predicate Valid()
      reads this
    {
      elementSize >= 1 &&
      (forall e :: 0 <= e < |indecies| && indecies[e] != SizeMax ==> IsRef(indecies[e])) &&
      (forall e1, e2 :: 0 <= e1 < |indecies| && 0 <= e2 < |indecies| && e1 != e2 && indecies[e1] != SizeMax
         ==> indecies[e1] != indecies[e2])
    }

    predicate Bound()
      reads this
    {
      elementSize != SizeMax
    }

    /** `e` has an element: its table entry exists and is not the marker. */
    predicate HasSlot(e: nat)
      reads this
    {
      e < |indecies| && indecies[e] != SizeMax
    }

    /** `SkiplistComponentStorage()`: unbound, with one "absent" table entry and no element. */
    constructor Unbound()
      ensures Valid() && !Bound() && indecies == [SizeMax] && slots == []
    {
      elementSize := SizeMax;
      indecies := [SizeMax];
      slots := [];
    }

    /** `SkiplistComponentStorage(Tcomponent{})`: bound to `t`'s size, empty table, empty buffer. */
    constructor OfType(t: ComponentType<V>)
      requires Sized(t)
      ensures Valid() && Bound() && elementSize == t.size && indecies == [] && slots == []
    {
      elementSize := t.size;
      indecies := [];
      slots := [];
    }

    predicate IsRef(r: nat)
      reads this
    {
      elementSize >= 1 && r % elementSize == 0 && r / elementSize < |slots|
    }

    function Deref(r: nat): V
      reads this
      requires IsRef(r)
    {
      slots[r / elementSize]
    }

    /**
     * `Get<T>(e)`: its three asserts are the precondition; the result is `e`'s recorded offset,
     * a reference no other entity holds.
     */
    function Get(t: ComponentType<V>, e: Entity): (r: nat)
      reads this
      requires Valid()
      requires t.size == elementSize
      requires HasSlot(e)
      ensures IsRef(r) && r == indecies[e]
      ensures forall e' :: 0 <= e' < |indecies| && e' != e ==> indecies[e'] != r
    {
      indecies[e]
    }

    /**
     * `Allocate<T>()`: appends one default-constructed element and returns a reference to it
     * with its index, computed from the byte count as `(data.size() - 1) / elementSize`.
     */
    method AllocateOne(t: ComponentType<V>) returns (r: nat, i: nat)
      requires Valid() && t.size == elementSize
      modifies this
      ensures Valid() && elementSize == old(elementSize) && indecies == old(indecies)
      ensures slots == old(slots) + [t.init]
      ensures i == |old(slots)| && r == i * elementSize
      ensures IsRef(r) && Deref(r) == t.init
    {
      slots := slots + [t.init];
      var bytes := |slots| * elementSize;
      LastByteOf(|slots| - 1, elementSize);
      i := (bytes - 1) / elementSize;
      OffsetOf(i, elementSize);
      r := i * elementSize;
    }

    /**
     * `Allocate<T>(e)`: allocates one element and records its offset for `e`. The new offset is
     * below SIZE_MAX (the buffer never reaches SIZE_MAX bytes), so it is never the marker.
     */
    method AllocateFor(t: ComponentType<V>, e: Entity) returns (r: nat)
      requires Valid() && t.size == elementSize
      requires e < |indecies|
      requires |slots| * elementSize < SizeMax
      modifies this
      ensures Valid() && elementSize == old(elementSize)
      ensures slots == old(slots) + [t.init]
      ensures r == |old(slots)| * elementSize && indecies == old(indecies)[e := r]
      ensures HasSlot(e) && IsRef(r) && Deref(r) == t.init
    {
      ghost var n := |slots|;
      var i;
      r, i := AllocateOne(t);
      indecies := indecies[e := i * elementSize];
      forall e' | 0 <= e' < |indecies| && e' != e && indecies[e'] != SizeMax
        ensures indecies[e'] != r
      {
        assert old(IsRef(indecies[e']));
        OffsetOf(n, elementSize);
      }
    }

    /**
     * `GetOrAllocate<T>(e)`: extends the table with markers to cover `e`; the first call for
     * `e` appends exactly one element and records its offset, later calls return that offset
     * without growing anything.
     */
    method GetOrAllocate(t: ComponentType<V>, e: Entity) returns (r: nat)
      requires Valid() && t.size == elementSize
      requires !HasSlot(e) ==> |slots| * elementSize < SizeMax
      modifies this
      ensures Valid() && elementSize == old(elementSize)
      ensures HasSlot(e) && r == indecies[e] && IsRef(r)
      ensures old(HasSlot(e)) ==> indecies == old(indecies) && slots == old(slots)
      ensures !old(HasSlot(e)) ==>
                indecies == Cover(old(indecies), SizeMax, e)[e := r] &&
                slots == old(slots) + [t.init] && r == |old(slots)| * elementSize
    {
      if |indecies| <= e {
        indecies := indecies + Repeat(SizeMax, e - |indecies| + 1);
      }
      if indecies[e] == SizeMax {
        r := AllocateFor(t, e);
        return;
      }
      r := Get(t, e);
    }
  }
}
