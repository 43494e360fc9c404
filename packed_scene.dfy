/**
 * `Scene<SkiplistComponentStorage>` (as8/src/ECS.hpp:70-121 instantiated with the storage of
 * as8/src/ECS.hpp:124-169), the scene `SceneView` iterates. The scene template is the same as
 * for the dense storage; what differs is what "entity `e` has an element" means: a recorded
 * offset in the storage's table instead of an index below the element count.
 */
module PackedScene {
  import opened Common
  import opened EcsTypes
  import opened Masks
  import opened StorageTable
  import opened ComponentRegistry
  import opened SkiplistStorage

  /** The value of one storage: its offset table and its elements. An unbound storage has neither. */
  datatype Column<V> = Column(table: seq<nat>, elems: seq<V>)

  /** Entity `e` has an element in the column: its table entry exists and is not SIZE_MAX. */
  predicate Holds<V>(c: Column<V>, e: nat) {
    e < |c.table| && c.table[e] != SizeMax
  }

  /**
   * `GetOrAllocate<T>(e)` on values: nothing changes when `e` already has an element; otherwise
   * the table is extended with SIZE_MAX markers to cover `e`, one default element is appended
   * and `e` records the new element's byte offset.
   */
  function Place<V>(c: Column<V>, e: nat, t: ComponentType<V>): (r: Column<V>)
  {
    if Holds(c, e) then c
    else Column(Cover(c.table, SizeMax, e)[e := |c.elems| * t.size], c.elems + [t.init])
  }

  /**
   * After `Place`, `e` has an element; every other entity keeps its entry, hence its element;
   * old elements are never moved or overwritten, so references taken earlier stay valid.
   */
  lemma PlaceKeepsOthers<V>(c: Column<V>, e: nat, t: ComponentType<V>)
    requires !Holds(c, e) ==> |c.elems| * t.size < SizeMax
    ensures Holds(Place(c, e, t), e)
    ensures forall e': nat :: e' != e ==> Holds(Place(c, e, t), e') == Holds(c, e')
    ensures forall e': nat :: e' != e && Holds(c, e') ==> Place(c, e, t).table[e'] == c.table[e']
    ensures Place(c, e, t).elems[..|c.elems|] == c.elems
    ensures Holds(c, e) <==> Place(c, e, t) == c
  {
    if !Holds(c, e) {
      var grown := Cover(c.table, SizeMax, e);
      forall e': nat | e' != e
        ensures Holds(Place(c, e, t), e') == Holds(c, e')
      {
        if e' < |c.table| {
          assert grown[..|c.table|][e'] == c.table[e'];
        }
      }
    }
  }

  /** The scene invariant on values: a set bit `id` of entity `e` means column `id` holds `e`. */
  ghost predicate Covered<V>(masks: seq<seq<bool>>, cols: seq<Column<V>>)
  {
    forall e, id: nat {:trigger MaskHas(masks[e], id)} ::
      0 <= e < |masks| && MaskHas(masks[e], id) ==> id < |cols| && Holds(cols[id], e)
  }

  /** Appending empty columns keeps the invariant. */
  lemma CoveredPadded<V>(masks: seq<seq<bool>>, cols: seq<Column<V>>, id: nat)
    requires Covered(masks, cols)
    ensures Covered(masks, Cover(cols, Column([], []), id))
  {
    var grown := Cover(cols, Column([], []), id);
    forall e, i: nat | 0 <= e < |masks| && MaskHas(masks[e], i)
      ensures i < |grown| && Holds(grown[i], e)
    {
      assert grown[..|cols|] == cols;
      assert grown[i] == cols[i];
    }
  }

  /** Setting bit `id` of `e` together with placing `e` in column `id` keeps the invariant. */
  lemma {:induction false} CoveredAdd<V>(masks: seq<seq<bool>>, cols: seq<Column<V>>, e: nat, id: nat, t: ComponentType<V>)
    requires Covered(masks, cols)
    requires e < |masks| && id < |cols|
    requires !Holds(cols[id], e) ==> |cols[id].elems| * t.size < SizeMax
    ensures Covered(masks[e := SetBit(masks[e], id)], cols[id := Place(cols[id], e, t)])
  {
    var masks' := masks[e := SetBit(masks[e], id)];
    var cols' := cols[id := Place(cols[id], e, t)];
    PlaceKeepsOthers(cols[id], e, t);
    forall e', i: nat | 0 <= e' < |masks'| && MaskHas(masks'[e'], i)
      ensures i < |cols'| && Holds(cols'[i], e')
    {
      if e' != e || i != id {
        assert MaskHas(masks[e'], i);
      }
    }
  }

  /** Clearing a bit keeps the invariant. */
  lemma CoveredRemove<V>(masks: seq<seq<bool>>, cols: seq<Column<V>>, e: nat, id: nat)
    requires Covered(masks, cols)
    requires e < |masks|
    ensures Covered(masks[e := ClearBit(masks[e], id)], cols)
  {
    var masks' := masks[e := ClearBit(masks[e], id)];
    forall e', i: nat | 0 <= e' < |masks'| && MaskHas(masks'[e'], i)
      ensures i < |cols| && Holds(cols[i], e')
    {
      assert MaskHas(masks[e'], i);
    }
  }

  /** A new entity with the empty mask `[false]` keeps the invariant. */
  lemma CoveredCreate<V>(masks: seq<seq<bool>>, cols: seq<Column<V>>)
    requires Covered(masks, cols)
    ensures Covered(masks + [[false]], cols)
  {
    var masks' := masks + [[false]];
    forall e, i: nat | 0 <= e < |masks'| && MaskHas(masks'[e], i)
      ensures i < |cols| && Holds(cols[i], e)
    {
      assert e < |masks| && masks'[e] == masks[e];
      assert MaskHas(masks[e], i);
    }
  }

  /** Every set bit is below the registry's counter when every non-empty column id is. */
  lemma CoveredBitsBelow<V>(masks: seq<seq<bool>>, cols: seq<Column<V>>, counter: nat)
    requires Covered(masks, cols)
    requires forall i :: 0 <= i < |cols| && cols[i] != Column([], []) ==> i < counter
    ensures forall e :: 0 <= e < |masks| ==> BitsBelow(masks[e], counter)
  {
    forall e, id | 0 <= e < |masks| && 0 <= id < |masks[e]| && masks[e][id]
      ensures id < counter
    {
      assert MaskHas(masks[e], id);
      assert cols[id] != Column([], []);
    }
  }

  class Scene<V(==)> {
    var entityMasks: seq<seq<bool>>
    var storages: seq<SkiplistComponentStorage<V>>

    /**
     * Against the registry's id table `ids` and next id `counter`: the storages are distinct
     * objects; a bound storage sits at an id already issued and has the size of the type holding
     * that id.
     */
    ghost predicate StoragesValid(ids: map<ComponentType<V>, nat>, counter: nat)
      reads this`storages, storages
    {
      (forall i, j :: 0 <= i < j < |storages| ==> storages[i] != storages[j]) &&
      (forall i :: 0 <= i < |storages| ==> storages[i].Valid()) &&
      (forall i :: 0 <= i < |storages| && storages[i].Bound() ==> i < counter) &&
      (forall t :: t in ids && ids[t] < |storages| && storages[ids[t]].Bound()
         ==> storages[ids[t]].elementSize == t.size)
    }

    /** The value of every storage; an unbound one counts as the empty column. */
    ghost function Columns(): (r: seq<Column<V>>)
      reads this`storages, storages
      ensures |r| == |storages|
    {
      var ss := storages;
      seq(|ss|, i requires 0 <= i < |ss| reads ss =>
        if ss[i].Bound() then Column(ss[i].indecies, ss[i].slots) else Column([], []))
    }

    ghost predicate Valid(reg: Registry<ComponentType<V>>)
      reads this, storages, reg
    {
      reg.Valid() && StoragesValid(reg.ids, reg.counter) && Covered(entityMasks, Columns())
    }

    /** `HasComponent<T>(e)` as a query on the current state. */
    predicate Has(reg: Registry<ComponentType<V>>, t: ComponentType<V>, e: nat)
      reads this, reg
      requires e < |entityMasks|
    {
      EntityHas(entityMasks, reg.ids, t, e)
    }

    /** The column of `t`, empty while `t` has no bound storage. */
    ghost function ColumnOf(reg: Registry<ComponentType<V>>, t: ComponentType<V>): Column<V>
      reads this`storages, storages, reg
    {
      if t in reg.ids && reg.ids[t] < |storages| then Columns()[reg.ids[t]] else Column([], [])
    }

    /** Every set mask bit is an id the registry has issued. */
    lemma BitsIssued(reg: Registry<ComponentType<V>>)
      requires Valid(reg)
      ensures forall e :: 0 <= e < |entityMasks| ==> BitsBelow(entityMasks[e], reg.counter)
    {
      CoveredBitsBelow(entityMasks, Columns(), reg.counter);
    }

    /** A new scene: no entity, and the one unbound storage of `storages = {Storage()}`. */
    constructor (ghost reg: Registry<ComponentType<V>>)
      requires reg.Valid()
      ensures Valid(reg)
      ensures entityMasks == [] && Columns() == [Column([], [])] && fresh(storages[0])
    {
      var s := new SkiplistComponentStorage<V>.Unbound();
      entityMasks := [];
      storages := [s];
    }

    /** `GetComponentID<T>()`, keeping the storages valid against the grown table. */
    method Register(reg: Registry<ComponentType<V>>, t: ComponentType<V>) returns (id: nat)
      requires reg.Valid() && StoragesValid(reg.ids, reg.counter)
      modifies reg
      ensures reg.Valid() && StoragesValid(reg.ids, reg.counter)
      ensures reg.IssuedFor(t, id)
    {
      id := reg.GetComponentID(t);
    }

    /** One more unbound storage at the end of the vector. */
    method AppendUnbound(ghost ids: map<ComponentType<V>, nat>, ghost counter: nat)
      requires StoragesValid(ids, counter)
      modifies this`storages
      ensures StoragesValid(ids, counter)
      ensures |storages| == old(|storages|) + 1 && storages[..|storages| - 1] == old(storages)
      ensures fresh(storages[|storages| - 1]) && !storages[|storages| - 1].Bound()
      ensures Columns() == old(Columns()) + [Column([], [])]
    {
      var d := new SkiplistComponentStorage<V>.Unbound();
      storages := storages + [d];
      assert storages[..|storages| - 1] == old(storages);
    }

    /** `storages.insert(storages.end(), n, Storage())`: `n` fresh unbound storages at the end. */
    method Grow(ghost ids: map<ComponentType<V>, nat>, ghost counter: nat, n: nat)
      requires StoragesValid(ids, counter)
      modifies this`storages
      ensures StoragesValid(ids, counter)
      ensures |storages| == old(|storages|) + n && storages[..old(|storages|)] == old(storages)
      ensures forall i :: old(|storages|) <= i < |storages| ==> fresh(storages[i]) && !storages[i].Bound()
      ensures Columns() == old(Columns()) + Repeat(Column([], []), n)
    {
      var k := 0;
      while k < n
        invariant 0 <= k <= n && |storages| == old(|storages|) + k
        invariant storages[..old(|storages|)] == old(storages)
        invariant forall i :: old(|storages|) <= i < |storages| ==> fresh(storages[i]) && !storages[i].Bound()
        invariant StoragesValid(ids, counter)
        invariant Columns() == old(Columns()) + Repeat(Column([], []), k)
      {
        ghost var before := storages;
        AppendUnbound(ids, counter);
        assert storages[..old(|storages|)] == before[..old(|storages|)];
        assert Repeat<Column<V>>(Column([], []), k) + [Column([], [])] == Repeat<Column<V>>(Column([], []), k + 1);
        k := k + 1;
      }
    }

    /** Replaces the unbound storage at `T`'s id with an empty one bound to `T`. */
    method Bind(ghost ids: map<ComponentType<V>, nat>, ghost counter: nat, t: ComponentType<V>, id: nat)
      returns (s: SkiplistComponentStorage<V>)
      requires StoragesValid(ids, counter) && Sized(t)
      requires t in ids && ids[t] == id && id < counter
      requires forall u, w :: u in ids && w in ids && ids[u] == ids[w] ==> u == w
      requires id < |storages| && !storages[id].Bound()
      modifies this`storages
      ensures StoragesValid(ids, counter)
      ensures storages == old(storages)[id := s] && fresh(s)
      ensures s.Bound() && s.elementSize == t.size
      ensures Columns() == old(Columns())
    {
      s := new SkiplistComponentStorage<V>.OfType(t);
      storages := storages[id := s];
    }

    /**
     * `GetStorage<T>()`, with the growth `Growth` that covers the id (the source's
     * `max(id - size, 1)` does not, see `StorageTable.GrowthAsWritten`). The columns are the old
     * ones padded with empty columns up to the id.
     */
    method GetStorage(reg: Registry<ComponentType<V>>, t: ComponentType<V>) returns (id: nat, s: SkiplistComponentStorage<V>)
      requires reg.Valid() && StoragesValid(reg.ids, reg.counter) && Sized(t)
      modifies this`storages, reg
      ensures reg.Valid() && StoragesValid(reg.ids, reg.counter) && reg.IssuedFor(t, id)
      ensures id < |storages| && s == storages[id] && s.Bound() && s.elementSize == t.size
      ensures s in old(storages) || fresh(s)
      ensures Columns() == Cover(old(Columns()), Column([], []), id)
      ensures old(id < |storages| && storages[id].Bound()) ==> storages == old(storages)
    {
      ghost var cols0 := Columns();
      id := Register(reg, t);
      if |storages| <= id {
        Grow(reg.ids, reg.counter, Growth(|storages|, id));
      }
      assert Columns() == Cover(cols0, Column([], []), id);
      if storages[id].elementSize == SizeMax {
        s := Bind(reg.ids, reg.counter, t, id);
      } else {
        s := storages[id];
        if id < old(|storages|) {
          assert storages[id] == old(storages)[id];
        }
      }
    }

    /** `CreateEntity()`: the old mask count truncated to `uint8_t`; the new mask is `[false]`. */
    method CreateEntity(ghost reg: Registry<ComponentType<V>>) returns (e: Entity)
      requires Valid(reg)
      modifies this
      ensures Valid(reg)
      ensures e == old(|entityMasks|) % 256
      ensures entityMasks == old(entityMasks) + [[false]]
      ensures storages == old(storages)
    {
      CoveredCreate(entityMasks, Columns());
      e := |entityMasks| % 256;
      entityMasks := entityMasks + [[false]];
    }

    /**
     * `AddComponent<T>(e)`: sets bit `T` of `e`'s mask and places `e` in `T`'s column. Appending
     * an element needs the buffer to stay below SIZE_MAX bytes.
     */
    method AddComponent(reg: Registry<ComponentType<V>>, t: ComponentType<V>, e: Entity) returns (r: nat)
      requires Valid(reg) && Sized(t)
      requires e < |entityMasks|
      requires !Holds(ColumnOf(reg, t), e) ==> |ColumnOf(reg, t).elems| * t.size < SizeMax
      modifies this, storages, reg
      ensures Valid(reg)
      ensures t in reg.ids && reg.IssuedFor(t, reg.ids[t])
      ensures entityMasks == old(entityMasks)[e := SetBit(old(entityMasks)[e], reg.ids[t])]
      ensures Has(reg, t, e)
      ensures var id := reg.ids[t]; var grown := Cover(old(Columns()), Column([], []), id);
        Columns() == grown[id := Place(grown[id], e, t)]
      ensures reg.ids[t] < |storages| && storages[reg.ids[t]].HasSlot(e)
      ensures r == storages[reg.ids[t]].indecies[e] && storages[reg.ids[t]].IsRef(r)
    {
      ghost var masks0, cols0 := entityMasks, Columns();
      var id := Register(reg, t);
      var id', r' := Store(reg, t, e);
      r := r';
      Mark(reg, e, id, masks0, cols0, t);
    }

    /** The storage half of `AddComponent`: `GetStorage<T>()` and then its `GetOrAllocate<T>(e)`. */
    method Store(reg: Registry<ComponentType<V>>, t: ComponentType<V>, e: Entity) returns (id: nat, r: nat)
      requires reg.Valid() && StoragesValid(reg.ids, reg.counter) && Sized(t)
      requires !Holds(ColumnOf(reg, t), e) ==> |ColumnOf(reg, t).elems| * t.size < SizeMax
      modifies this`storages, storages, reg
      ensures reg.Valid() && StoragesValid(reg.ids, reg.counter) && reg.IssuedFor(t, id)
      ensures var grown := Cover(old(Columns()), Column([], []), id); Columns() == grown[id := Place(grown[id], e, t)]
      ensures id < |storages| && storages[id].HasSlot(e)
      ensures r == storages[id].indecies[e] && storages[id].IsRef(r)
    {
      ghost var cols0 := Columns();
      ghost var col0 := ColumnOf(reg, t);
      var s;
      id, s := GetStorage(reg, t);
      ghost var grown := Columns();
      assert col0 == Column([], []) || (id < |cols0| && col0 == cols0[id]);
      assert id < |cols0| ==> grown[id] == cols0[id] by {
        if id < |cols0| {
          assert grown[..|cols0|] == cols0;
        }
      }
      r := Fill(reg.ids, reg.counter, t, id, e);
    }

    /** `GetOrAllocate<T>(e)` on the storage bound to `T`: its column becomes `Place(column, e, T)`. */
    method Fill(ghost ids: map<ComponentType<V>, nat>, ghost counter: nat, t: ComponentType<V>, id: nat, e: Entity)
      returns (r: nat)
      requires StoragesValid(ids, counter)
      requires id < |storages| && storages[id].Bound() && storages[id].elementSize == t.size
      requires !Holds(Columns()[id], e) ==> |Columns()[id].elems| * t.size < SizeMax
      modifies storages[id]
      ensures StoragesValid(ids, counter)
      ensures Columns() == old(Columns())[id := Place(old(Columns())[id], e, t)]
      ensures storages[id].HasSlot(e) && r == storages[id].indecies[e] && storages[id].IsRef(r)
    {
      var s := storages[id];
      ghost var c0 := Column(s.indecies, s.slots);
      assert c0 == Columns()[id];
      r := s.GetOrAllocate(t, e);
      assert Column(s.indecies, s.slots) == Place(c0, e, t);
      forall i | 0 <= i < |storages| && i != id
        ensures Columns()[i] == old(Columns())[i]
      {
        assert storages[i] != s;
      }
    }

    /** The mask half of `AddComponent`, once `e` has an element in column `id`. */
    method Mark(ghost reg: Registry<ComponentType<V>>, e: Entity, id: nat,
                ghost masks0: seq<seq<bool>>, ghost cols0: seq<Column<V>>, ghost t: ComponentType<V>)
      requires reg.Valid() && StoragesValid(reg.ids, reg.counter)
      requires entityMasks == masks0 && e < |masks0| && Covered(masks0, cols0)
      requires var grown := Cover(cols0, Column([], []), id);
        (!Holds(grown[id], e) ==> |grown[id].elems| * t.size < SizeMax) &&
        Columns() == grown[id := Place(grown[id], e, t)]
      modifies this`entityMasks
      ensures Valid(reg)
      ensures entityMasks == masks0[e := SetBit(masks0[e], id)]
    {
      var grown := Cover(cols0, Column([], []), id);
      CoveredPadded(masks0, cols0, id);
      CoveredAdd(masks0, grown, e, id, t);
      entityMasks := entityMasks[e := SetBit(entityMasks[e], id)];
    }

    /** `RemoveComponent<T>(e)`: clears bit `T` of `e`'s mask when present; storages are untouched. */
    method RemoveComponent(reg: Registry<ComponentType<V>>, t: ComponentType<V>, e: Entity)
      requires Valid(reg)
      requires e < |entityMasks|
      modifies this, reg
      ensures Valid(reg)
      ensures t in reg.ids && reg.IssuedFor(t, reg.ids[t])
      ensures entityMasks == old(entityMasks)[e := ClearBit(old(entityMasks)[e], reg.ids[t])]
      ensures !Has(reg, t, e)
      ensures storages == old(storages)
    {
      var id := Register(reg, t);
      CoveredRemove(entityMasks, Columns(), e, id);
      entityMasks := entityMasks[e := ClearBit(entityMasks[e], id)];
    }

    /**
     * `GetComponent<T>(e)`: its assert (bit `T` of `e` is set) is the precondition; returns `e`'s
     * recorded offset and changes nothing.
     */
    method GetComponent(reg: Registry<ComponentType<V>>, t: ComponentType<V>, e: Entity) returns (r: nat)
      requires Valid(reg) && Sized(t)
      requires e < |entityMasks| && Has(reg, t, e)
      modifies this, reg
      ensures Valid(reg)
      ensures entityMasks == old(entityMasks) && storages == old(storages)
      ensures reg.ids == old(reg.ids) && reg.counter == old(reg.counter)
      ensures reg.ids[t] < |storages| && storages[reg.ids[t]].HasSlot(e)
      ensures r == storages[reg.ids[t]].indecies[e] && storages[reg.ids[t]].IsRef(r)
    {
      var id := Register(reg, t);
      assert MaskHas(entityMasks[e], id);
      assert Holds(Columns()[id], e);
      var id', s := GetStorage(reg, t);
      r := s.Get(t, e);
    }

    /** `HasComponent<T>(e)`: reads bit `T` of `e`'s mask, false when the mask is too short. */
    method HasComponent(reg: Registry<ComponentType<V>>, t: ComponentType<V>, e: Entity) returns (b: bool)
      requires Valid(reg)
      requires e < |entityMasks|
      modifies reg
      ensures Valid(reg)
      ensures t in reg.ids && reg.IssuedFor(t, reg.ids[t])
      ensures b == Has(reg, t, e) && b == old(Has(reg, t, e))
    {
      BitsIssued(reg);
      var id := Register(reg, t);
      b := |entityMasks[e]| > id && entityMasks[e][id];
    }
  }
}
