/**
 * `ComponentStorage` (as8/src/ECS.hpp:28-67): one component type's values in a buffer indexed
 * directly by entity id. The byte buffer `data` holds `|slots|` elements of `elementSize` bytes;
 * a reference into it is a byte offset.
 */
module DenseStorage {
  import opened Common
  import opened EcsTypes

  class ComponentStorage<V> {
    /** Bytes per element; `SizeMax` until the storage is bound to a type. */
    var elementSize: nat
    /** The constructed elements, `data.size() / elementSize` of them. */
    var slots: seq<V>

    ghost predicate Valid()
      reads this
    {
      elementSize >= 1
    }

    /** Bound to a component type, i.e. built by the sized constructor. */
    predicate Bound()
      reads this
    {
      elementSize != SizeMax
    }

    /**
     * `ComponentStorage()`: element size `-1` (SIZE_MAX). Its one zero byte amounts to no
     * element, because `1 / SIZE_MAX == 0`.
     */
    constructor Unbound()
      ensures Valid() && !Bound() && slots == []
    {
      elementSize := SizeMax;
      slots := [];
    }

    /** `ComponentStorage(Tcomponent{})`: bound to `t`'s size and empty (only capacity is reserved). */
    constructor OfType(t: ComponentType<V>)
      requires Sized(t)
      ensures Valid() && Bound() && elementSize == t.size && slots == []
    {
      elementSize := t.size;
      slots := [];
    }

    /** A reference: the byte offset of the start of an element inside the buffer. */
    predicate IsRef(r: nat)
      reads this
    {
      elementSize >= 1 && r % elementSize == 0 && r / elementSize < |slots|
    }

    /** The element a reference designates. */
    function Deref(r: nat): V
      reads this
      requires IsRef(r)
    {
      slots[r / elementSize]
    }

    /**
     * `Get<T>(e)`: the two asserts (matching size, `e` below the element count) are the
     * precondition; the result designates element `e`.
     */
    function Get(t: ComponentType<V>, e: Entity): (r: nat)
      reads this
      requires Valid()
      requires t.size == elementSize
      requires e < |slots|
      ensures IsRef(r) && r / elementSize == e && Deref(r) == slots[e]
    {
      OffsetOf(e, elementSize);
      e * elementSize
    }

    /**
     * `Allocate<T>(count)`: appends `count` default-constructed elements (all but the last in
     * the loop, then the last) and returns a reference to the last one together with the new
     * element count (not the new element's index).
     */
    method Allocate(t: ComponentType<V>, count: nat) returns (last: nat, total: nat)
      requires Valid() && t.size == elementSize
      requires 1 <= count < 100
      modifies this
      ensures Valid() && elementSize == old(elementSize)
      ensures slots == old(slots) + Repeat(t.init, count)
      ensures total == |slots|
      ensures IsRef(last) && last / elementSize == |slots| - 1
    {
      var i := 0;
      while i < count - 1
        invariant 0 <= i <= count - 1
        invariant elementSize == old(elementSize)
        invariant slots == old(slots) + Repeat(t.init, i)
      {
        slots := slots + [t.init];
        i := i + 1;
      }
      slots := slots + [t.init];
      assert slots == old(slots) + Repeat(t.init, count);
      OffsetOf(|slots| - 1, elementSize);
      last := (|slots| - 1) * elementSize;
      total := |slots|;
    }

    /**
     * `GetOrAllocate<T>(e)`: when `e` is past the end, allocates exactly the missing
     * `e + 1 - count` elements (Allocate's `count < 100` assert bounds how far past the end `e`
     * may be), then returns the reference to element `e`.
     */
    method GetOrAllocate(t: ComponentType<V>, e: Entity) returns (r: nat)
      requires Valid() && t.size == elementSize
      requires e < |slots| + 99
      modifies this
      ensures Valid() && elementSize == old(elementSize)
      ensures slots == Cover(old(slots), t.init, e)
      ensures IsRef(r) && r / elementSize == e
    {
      var size := |slots|;
      if size <= e {
        var _, _ := Allocate(t, e - size + 1);
      }
      r := Get(t, e);
    }
  }
}
