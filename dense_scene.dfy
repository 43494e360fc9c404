/**
 * `Scene<ComponentStorage>` (as8/src/ECS.hpp:70-121): per-entity component masks and one dense
 * storage per component id. Every operation asks the registry for the type's id, as the source
 * does through `GetComponentID<T>()`, so the registry is passed in and may gain the type.
 */
module DenseScene {
  import opened Common
  import opened EcsTypes
  import opened Masks
  import opened StorageTable
  import opened ComponentRegistry
  import opened DenseStorage

  /**
   * The scene's central invariant on values: a set bit `id` in the mask of entity `e` means the
   * storage for `id` holds an element at index `e`, so `GetComponent` after `AddComponent` finds
   * one. `slots[id]` is the element list of storage `id`, empty while it is unbound.
   */
  ghost predicate Covered<V>(masks: seq<seq<bool>>, slots: seq<seq<V>>)
  {
    forall e, id: nat {:trigger MaskHas(masks[e], id)} :: 0 <= e < |masks| && MaskHas(masks[e], id) ==> id < |slots| && e < |slots[id]|
  }

  /** Growing the storage vector with empty storages keeps the invariant. */
  lemma CoveredPadded<V>(masks: seq<seq<bool>>, slots: seq<seq<V>>, id: nat)
    requires Covered(masks, slots)
    ensures Covered(masks, Cover(slots, [], id))
  {
    var grown := Cover(slots, [], id);
    forall e, i: nat | 0 <= e < |masks| && MaskHas(masks[e], i)
      ensures i < |grown| && e < |grown[i]|
    {
      assert grown[..|slots|] == slots;
      assert grown[i] == slots[i];
    }
  }

  /** Setting bit `id` of `e` while storage `id` is covered up to `e` keeps the invariant. */
  lemma {:induction false} CoveredAdd<V>(masks: seq<seq<bool>>, slots: seq<seq<V>>, e: nat, id: nat, init: V)
    requires Covered(masks, slots)
    requires e < |masks| && id < |slots|
    ensures Covered(masks[e := SetBit(masks[e], id)], slots[id := Cover(slots[id], init, e)])
  {
    var masks' := masks[e := SetBit(masks[e], id)];
    var slots' := slots[id := Cover(slots[id], init, e)];
    forall e', i: nat | 0 <= e' < |masks'| && MaskHas(masks'[e'], i)
      ensures i < |slots'| && e' < |slots'[i]|
    {
      if e' != e || i != id {
        assert MaskHas(masks[e'], i);
        if i == id {
          assert Cover(slots[id], init, e)[..|slots[id]|] == slots[id];
        }
      }
    }
  }

  /** Clearing a bit keeps the invariant. */
  lemma CoveredRemove<V>(masks: seq<seq<bool>>, slots: seq<seq<V>>, e: nat, id: nat)
    requires Covered(masks, slots)
    requires e < |masks|
    ensures Covered(masks[e := ClearBit(masks[e], id)], slots)
  {
    var masks' := masks[e := ClearBit(masks[e], id)];
    forall e', i: nat | 0 <= e' < |masks'| && MaskHas(masks'[e'], i)
      ensures i < |slots| && e' < |slots[i]|
    {
      assert MaskHas(masks[e'], i);
    }
  }

  /** A new entity with the empty mask `[false]` keeps the invariant. */
  lemma CoveredCreate<V>(masks: seq<seq<bool>>, slots: seq<seq<V>>)
    requires Covered(masks, slots)
    ensures Covered(masks + [[false]], slots)
  {
    var masks' := masks + [[false]];
    forall e, i: nat | 0 <= e < |masks'| && MaskHas(masks'[e], i)
      ensures i < |slots| && e < |slots[i]|
    {
      assert e < |masks| && masks'[e] == masks[e];
    }
  }

  /** Every set bit is below the registry's counter when every non-empty storage id is. */
  lemma CoveredBitsBelow<V>(masks: seq<seq<bool>>, slots: seq<seq<V>>, counter: nat)
    requires Covered(masks, slots)
    requires forall i :: 0 <= i < |slots| && slots[i] != [] ==> i < counter
    ensures forall e :: 0 <= e < |masks| ==> BitsBelow(masks[e], counter)
  {
    forall e, id | 0 <= e < |masks| && 0 <= id < |masks[e]| && masks[e][id]
      ensures id < counter
    {
      assert MaskHas(masks[e], id);
      assert slots[id] != [];
    }
  }

  class Scene<V(==)> {
    var entityMasks: seq<seq<bool>>
    var storages: seq<ComponentStorage<V>>

    /**
     * Against the registry's id table `ids` and next id `counter`: the storages are distinct
     * objects; a bound storage sits at an id already issued and has the size of the type holding
     * that id.
     */
    ghost predicate StoragesValid(ids: map<ComponentType<V>, nat>, counter: nat)
      reads this`storages, storages
    {
      (forall i, j :: 0 <= i < j < |storages| ==> storages[i] != storages[j]) &&
      (forall i :: 0 <= i < |storages| ==> storages[i].Valid()) &&
      (forall i :: 0 <= i < |storages| && storages[i].Bound() ==> i < counter) &&
      (forall t :: t in ids && ids[t] < |storages| && storages[ids[t]].Bound()
         ==> storages[ids[t]].elementSize == t.size)
    }

    /** The element list of every storage, empty for an unbound one. */
    ghost function Slots(): (r: seq<seq<V>>)
      reads this`storages, storages
      ensures |r| == |storages|
    {
      var ss := storages;
      seq(|ss|, i requires 0 <= i < |ss| reads ss => if ss[i].Bound() then ss[i].slots else [])
    }

    ghost predicate Valid(reg: Registry<ComponentType<V>>)
      reads this, storages, reg
    {
      reg.Valid() && StoragesValid(reg.ids, reg.counter) && Covered(entityMasks, Slots())
    }

    /** `HasComponent<T>(e)` as a query on the current state. */
    predicate Has(reg: Registry<ComponentType<V>>, t: ComponentType<V>, e: nat)
      reads this, reg
      requires e < |entityMasks|
    {
      EntityHas(entityMasks, reg.ids, t, e)
    }

    /** The element count of `t`'s storage, zero while `t` has no bound storage. */
    ghost function SlotCount(reg: Registry<ComponentType<V>>, t: ComponentType<V>): nat
      reads this`storages, storages, reg
    {
      if t in reg.ids && reg.ids[t] < |storages| then |Slots()[reg.ids[t]]| else 0
    }

    /** Every set mask bit is an id the registry has issued. */
    lemma BitsIssued(reg: Registry<ComponentType<V>>)
      requires Valid(reg)
      ensures forall e :: 0 <= e < |entityMasks| ==> BitsBelow(entityMasks[e], reg.counter)
    {
      CoveredBitsBelow(entityMasks, Slots(), reg.counter);
    }

    /** A new scene: no entity, and the one unbound storage of `storages = {Storage()}`. */
    constructor (ghost reg: Registry<ComponentType<V>>)
      requires reg.Valid()
      ensures Valid(reg)
      ensures entityMasks == [] && Slots() == [[]] && fresh(storages[0])
    {
      var s := new ComponentStorage<V>.Unbound();
      entityMasks := [];
      storages := [s];
    }

    /**
     * `GetComponentID<T>()` on the registry, which keeps the storages valid against the grown
     * table: a newly issued id has no storage bound to it yet.
     */
    method Register(reg: Registry<ComponentType<V>>, t: ComponentType<V>) returns (id: nat)
      requires reg.Valid() && StoragesValid(reg.ids, reg.counter)
      modifies reg
      ensures reg.Valid() && StoragesValid(reg.ids, reg.counter)
      ensures reg.IssuedFor(t, id)
    {
      id := reg.GetComponentID(t);
    }

    /** One more unbound storage at the end of the vector (`storages.emplace_back()`). */
    method AppendUnbound(ghost ids: map<ComponentType<V>, nat>, ghost counter: nat)
      requires StoragesValid(ids, counter)
      modifies this`storages
      ensures StoragesValid(ids, counter)
      ensures |storages| == old(|storages|) + 1 && storages[..|storages| - 1] == old(storages)
      ensures fresh(storages[|storages| - 1]) && !storages[|storages| - 1].Bound()
      ensures Slots() == old(Slots()) + [[]]
    {
      var d := new ComponentStorage<V>.Unbound();
      storages := storages + [d];
      assert storages[..|storages| - 1] == old(storages);
    }

    /** `storages.insert(storages.end(), n, Storage())`: `n` fresh unbound storages at the end. */
    method Grow(ghost ids: map<ComponentType<V>, nat>, ghost counter: nat, n: nat)
      requires StoragesValid(ids, counter)
      modifies this`storages
      ensures StoragesValid(ids, counter)
      ensures |storages| == old(|storages|) + n && storages[..old(|storages|)] == old(storages)
      ensures forall i :: old(|storages|) <= i < |storages| ==> fresh(storages[i]) && !storages[i].Bound()
      ensures Slots() == old(Slots()) + Repeat([], n)
    {
      var k := 0;
      while k < n
        invariant 0 <= k <= n && |storages| == old(|storages|) + k
        invariant storages[..old(|storages|)] == old(storages)
        invariant forall i :: old(|storages|) <= i < |storages| ==> fresh(storages[i]) && !storages[i].Bound()
        invariant StoragesValid(ids, counter)
        invariant Slots() == old(Slots()) + Repeat([], k)
      {
        ghost var before := storages;
        AppendUnbound(ids, counter);
        assert storages[..old(|storages|)] == before[..old(|storages|)];
        assert Repeat<seq<V>>([], k) + [[]] == Repeat<seq<V>>([], k + 1);
        k := k + 1;
      }
    }

    /** Replaces the unbound storage at `T`'s id with an empty one bound to `T`. */
    method Bind(ghost ids: map<ComponentType<V>, nat>, ghost counter: nat, t: ComponentType<V>, id: nat)
      returns (s: ComponentStorage<V>)
      requires StoragesValid(ids, counter) && Sized(t)
      requires t in ids && ids[t] == id && id < counter
      requires forall u, w :: u in ids && w in ids && ids[u] == ids[w] ==> u == w
      requires id < |storages| && !storages[id].Bound()
      modifies this`storages
      ensures StoragesValid(ids, counter)
      ensures storages == old(storages)[id := s] && fresh(s)
      ensures s.Bound() && s.elementSize == t.size
      ensures Slots() == old(Slots())
    {
      s := new ComponentStorage<V>.OfType(t);
      storages := storages[id := s];
    }

    /**
     * `GetStorage<T>()`: grows the storage vector to cover `T`'s id and binds an unbound storage
     * at that id to `T`. The growth is `Growth`, which covers the id; the source's
     * `max(id - size, 1)` does not (see `StorageTable.GrowthAsWritten`). No element of any
     * storage changes: the element lists are the old ones padded with empty lists up to the id.
     */
    method GetStorage(reg: Registry<ComponentType<V>>, t: ComponentType<V>) returns (id: nat, s: ComponentStorage<V>)
      requires reg.Valid() && StoragesValid(reg.ids, reg.counter) && Sized(t)
      modifies this`storages, reg
      ensures reg.Valid() && StoragesValid(reg.ids, reg.counter) && reg.IssuedFor(t, id)
      ensures id < |storages| && s == storages[id] && s.Bound() && s.elementSize == t.size
      ensures s in old(storages) || fresh(s)
      ensures Slots() == Cover(old(Slots()), [], id)
      ensures old(id < |storages| && storages[id].Bound()) ==> storages == old(storages)
    {
      ghost var slots0 := Slots();
      id := Register(reg, t);
      if |storages| <= id {
        Grow(reg.ids, reg.counter, Growth(|storages|, id));
      }
      assert Slots() == Cover(slots0, [], id);
      if storages[id].elementSize == SizeMax {
        s := Bind(reg.ids, reg.counter, t, id);
      } else {
        s := storages[id];
        if id < old(|storages|) {
          assert storages[id] == old(storages)[id];
        }
      }
    }

    /**
     * `CreateEntity()`: the id is the old mask count truncated to `uint8_t`, and the new mask is
     * `[false]`. Ids are therefore `0, 1, 2, ...` only for the first 256 entities.
     */
    method CreateEntity(ghost reg: Registry<ComponentType<V>>) returns (e: Entity)
      requires Valid(reg)
      modifies this
      ensures Valid(reg)
      ensures e == old(|entityMasks|) % 256
      ensures entityMasks == old(entityMasks) + [[false]]
      ensures storages == old(storages)
    {
      CoveredCreate(entityMasks, Slots());
      e := |entityMasks| % 256;
      entityMasks := entityMasks + [[false]];
    }

    /**
     * `AddComponent<T>(e)`: sets bit `T` of `e`'s mask (growing the mask if short) and returns a
     * reference to `e`'s element, allocating default-constructed elements up to `e` if needed.
     * An element that already exists keeps its value; no other storage changes.
     */
    method AddComponent(reg: Registry<ComponentType<V>>, t: ComponentType<V>, e: Entity) returns (r: nat)
      requires Valid(reg) && Sized(t)
      requires e < |entityMasks|
      requires e < SlotCount(reg, t) + 99
      modifies this, storages, reg
      ensures Valid(reg)
      ensures t in reg.ids && reg.IssuedFor(t, reg.ids[t])
      ensures entityMasks == old(entityMasks)[e := SetBit(old(entityMasks)[e], reg.ids[t])]
      ensures Has(reg, t, e)
      ensures var id := reg.ids[t]; var grown := Cover(old(Slots()), [], id);
        Slots() == grown[id := Cover(grown[id], t.init, e)]
      ensures reg.ids[t] < |storages| && storages[reg.ids[t]].IsRef(r)
      ensures r / storages[reg.ids[t]].elementSize == e
    {
      ghost var masks0, slots0 := entityMasks, Slots();
      var id := Register(reg, t);
      var id', r' := Store(reg, t, e);
      r := r';
      Mark(reg, e, id, masks0, slots0, t.init);
    }

    /** The mask half of `AddComponent`, once the storage has an element for `e`. */
    method Mark(ghost reg: Registry<ComponentType<V>>, e: Entity, id: nat,
                ghost masks0: seq<seq<bool>>, ghost slots0: seq<seq<V>>, ghost init: V)
      requires reg.Valid() && StoragesValid(reg.ids, reg.counter)
      requires entityMasks == masks0 && e < |masks0| && Covered(masks0, slots0)
      requires var grown := Cover(slots0, [], id); Slots() == grown[id := Cover(grown[id], init, e)]
      modifies this`entityMasks
      ensures Valid(reg)
      ensures entityMasks == masks0[e := SetBit(masks0[e], id)]
    {
      CoveredPadded(masks0, slots0, id);
      CoveredAdd(masks0, Cover(slots0, [], id), e, id, init);
      entityMasks := entityMasks[e := SetBit(entityMasks[e], id)];
    }

    /** The storage half of `AddComponent`: `GetStorage<T>()` and then its `GetOrAllocate<T>(e)`. */
    method Store(reg: Registry<ComponentType<V>>, t: ComponentType<V>, e: Entity) returns (id: nat, r: nat)
      requires reg.Valid() && StoragesValid(reg.ids, reg.counter) && Sized(t)
      requires e < SlotCount(reg, t) + 99
      modifies this`storages, storages, reg
      ensures reg.Valid() && StoragesValid(reg.ids, reg.counter) && reg.IssuedFor(t, id)
      ensures var grown := Cover(old(Slots()), [], id); Slots() == grown[id := Cover(grown[id], t.init, e)]
      ensures id < |storages| && storages[id].IsRef(r) && r / storages[id].elementSize == e
    {
      ghost var slots0 := Slots();
      ghost var count0 := SlotCount(reg, t);
      var s;
      id, s := GetStorage(reg, t);
      ghost var grown := Slots();
      assert count0 == 0 || (id < |slots0| && count0 == |slots0[id]|);
      assert id < |slots0| ==> grown[id] == slots0[id] by {
        if id < |slots0| {
          assert grown[..|slots0|] == slots0;
        }
      }
      r := Fill(reg.ids, reg.counter, t, id, e);
    }

    /** The storage step of `AddComponent`: `GetOrAllocate` on the storage bound to `T`. */
    method Fill(ghost ids: map<ComponentType<V>, nat>, ghost counter: nat, t: ComponentType<V>, id: nat, e: Entity)
      returns (r: nat)
      requires StoragesValid(ids, counter)
      requires id < |storages| && storages[id].Bound() && storages[id].elementSize == t.size
      requires e < |Slots()[id]| + 99
      modifies storages[id]
      ensures StoragesValid(ids, counter)
      ensures Slots() == old(Slots())[id := Cover(old(Slots())[id], t.init, e)]
      ensures storages[id].IsRef(r) && r / storages[id].elementSize == e
    {
      var s := storages[id];
      r := s.GetOrAllocate(t, e);
      forall i | 0 <= i < |storages| && i != id
        ensures Slots()[i] == old(Slots())[i]
      {
        assert storages[i] != s;
      }
    }

    /** `RemoveComponent<T>(e)`: clears bit `T` of `e`'s mask when present; storages are untouched. */
    method RemoveComponent(reg: Registry<ComponentType<V>>, t: ComponentType<V>, e: Entity)
      requires Valid(reg)
      requires e < |entityMasks|
      modifies this, reg
      ensures Valid(reg)
      ensures t in reg.ids && reg.IssuedFor(t, reg.ids[t])
      ensures entityMasks == old(entityMasks)[e := ClearBit(old(entityMasks)[e], reg.ids[t])]
      ensures !Has(reg, t, e)
      ensures storages == old(storages)
    {
      var id := Register(reg, t);
      CoveredRemove(entityMasks, Slots(), e, id);
      entityMasks := entityMasks[e := ClearBit(entityMasks[e], id)];
    }

    /**
     * `GetComponent<T>(e)`: its assert (bit `T` of `e` is set) is the precondition; returns the
     * reference to `e`'s element, the same one `AddComponent` returned, and changes nothing.
     */
    method GetComponent(reg: Registry<ComponentType<V>>, t: ComponentType<V>, e: Entity) returns (r: nat)
      requires Valid(reg) && Sized(t)
      requires e < |entityMasks| && Has(reg, t, e)
      modifies this, reg
      ensures Valid(reg)
      ensures entityMasks == old(entityMasks) && storages == old(storages)
      ensures reg.ids == old(reg.ids) && reg.counter == old(reg.counter)
      ensures reg.ids[t] < |storages| && storages[reg.ids[t]].IsRef(r)
      ensures r / storages[reg.ids[t]].elementSize == e
    {
      var id := Register(reg, t);
      assert MaskHas(entityMasks[e], id);
      assert e < |Slots()[id]|;
      var id', s := GetStorage(reg, t);
      r := s.Get(t, e);
    }

    /** `HasComponent<T>(e)`: reads bit `T` of `e`'s mask, false when the mask is too short. */
    method HasComponent(reg: Registry<ComponentType<V>>, t: ComponentType<V>, e: Entity) returns (b: bool)
      requires Valid(reg)
      requires e < |entityMasks|
      modifies reg
      ensures Valid(reg)
      ensures t in reg.ids && reg.IssuedFor(t, reg.ids[t])
      ensures b == Has(reg, t, e) && b == old(Has(reg, t, e))
    {
      BitsIssued(reg);
      var id := Register(reg, t);
      b := |entityMasks[e]| > id && entityMasks[e][id];
    }
  }
}
