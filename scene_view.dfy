/**
 * `SceneView<Ts...>` (as8/src/ECS.hpp:174-210): a forward iterator over the entity ids of a
 * `Scene<SkiplistComponentStorage>` that stops only at entities holding every requested type.
 * The requested pack `Ts...` is the sequence `types`.
 */
module Views {
  import opened EcsTypes
  import opened Masks
  import opened ComponentRegistry
  import opened PackedScene

  /** For every entity, whether it holds every type of `types` (what `valid()` answers). */
  function Selection<V(==)>(masks: seq<seq<bool>>, ids: map<ComponentType<V>, nat>, types: seq<ComponentType<V>>): (sel: seq<bool>)
    ensures |sel| == |masks|
  {
    seq(|masks|, k requires 0 <= k < |masks| => AllOf(masks[k], ids, types))
  }

  /** The first selected entity at or after `k`, or `|sel|` (the end) when there is none. */
  function NextMatch(sel: seq<bool>, k: nat): (n: nat)
    requires k <= |sel|
    ensures k <= n <= |sel|
    ensures n < |sel| ==> sel[n]
    ensures forall j :: k <= j < n ==> !sel[j]
    decreases |sel| - k
  {
    if k == |sel| then |sel| else if sel[k] then k else NextMatch(sel, k + 1)
  }

  /** `NextMatch` is the only position with its three properties. */
  lemma {:induction false} NextMatchUnique(sel: seq<bool>, k: nat, n: nat)
    requires k <= n <= |sel|
    requires n < |sel| ==> sel[n]
    requires forall j :: k <= j < n ==> !sel[j]
    ensures NextMatch(sel, k) == n
    decreases n - k
  {
    if k < n {
      assert !sel[k];
      NextMatchUnique(sel, k + 1, n);
    }
  }

  /** An entity that does not hold the types is passed over. */
  lemma NextMatchSkip(sel: seq<bool>, k: nat)
    requires k < |sel| && !sel[k]
    ensures NextMatch(sel, k) == NextMatch(sel, k + 1)
  {
  }

  /** The entities a traversal starting at `k` stops at, in visiting order. */
  function Walk(sel: seq<bool>, k: nat): seq<nat>
    requires k <= |sel|
    decreases |sel| - k
  {
    var n := NextMatch(sel, k);
    if n == |sel| then [] else [n] + Walk(sel, n + 1)
  }

  /** A traversal may start at any position between `k` and its first stop. */
  lemma WalkSkip(sel: seq<bool>, k: nat)
    requires k <= |sel|
    ensures Walk(sel, k) == Walk(sel, NextMatch(sel, k))
  {
    NextMatchUnique(sel, NextMatch(sel, k), NextMatch(sel, k));
  }

  /** A traversal standing on a selected entity visits it, then goes on from its next match. */
  lemma WalkStep(sel: seq<bool>, k: nat)
    requires k < |sel| && sel[k]
    ensures Walk(sel, k) == [k] + Walk(sel, NextMatch(sel, k + 1))
  {
    NextMatchUnique(sel, k, k);
    WalkSkip(sel, k + 1);
  }

  /**
   * A traversal from `k` stops at exactly the selected entities at or after `k`, each once, in
   * strictly ascending order.
   */
  lemma {:induction false} WalkExact(sel: seq<bool>, k: nat)
    requires k <= |sel|
    ensures forall x :: x in Walk(sel, k) <==> k <= x < |sel| && sel[x]
    ensures forall i, j :: 0 <= i < j < |Walk(sel, k)| ==> Walk(sel, k)[i] < Walk(sel, k)[j]
    decreases |sel| - k
  {
    var n := NextMatch(sel, k);
    if n < |sel| {
      WalkExact(sel, n + 1);
      var w := Walk(sel, k);
      assert w == [n] + Walk(sel, n + 1);
      forall i, j | 0 <= i < j < |w|
        ensures w[i] < w[j]
      {
        assert w[j] in Walk(sel, n + 1);
        if 0 < i {
          assert w[i] == Walk(sel, n + 1)[i - 1] && w[j] == Walk(sel, n + 1)[j - 1];
        }
      }
    }
  }

  /**
   * Where an `operator++` ends: at an entity (`at == |sel|` when that is the end), or by reading
   * `entityMasks[index]` past its end.
   */
  datatype Step = Stopped(at: nat) | ReadPastEnd(index: nat)

  /** For the empty component pack `SceneView<>` every entity is selected. */
  lemma SelectionOfEmptyPack<V>(masks: seq<seq<bool>>, ids: map<ComponentType<V>, nat>)
    ensures forall k :: 0 <= k < |masks| ==> Selection(masks, ids, [])[k]
  {
  }

  /**
   * The do-while of `operator++(int)` as written, from the candidate `j`: `valid()` is evaluated
   * before `e < size`. With a non-empty pack, `valid()` of the candidate equal to the size reads
   * that entity's mask; with the empty pack `packEmpty` the fold is `true` without any read, and
   * the loop stops there.
   */
  function ScanAsWritten(sel: seq<bool>, j: nat, packEmpty: bool): Step
    requires j <= |sel|
    decreases |sel| - j
  {
    if j == |sel| then (if packEmpty then Stopped(j) else ReadPastEnd(j))
    else if sel[j] then Stopped(j)
    else ScanAsWritten(sel, j + 1, packEmpty)
  }

  /** `operator++(int)` as written, from entity `e` (the `uint8_t` increment cannot wrap here). */
  function AdvanceAsWritten(sel: seq<bool>, e: nat, packEmpty: bool): Step
    requires e < |sel| < 256
  {
    ScanAsWritten(sel, (e + 1) % 256, packEmpty)
  }

  /** `begin()` as written: `valid()` of entity 0 is evaluated even when there is no entity. */
  function BeginAsWritten(sel: seq<bool>, packEmpty: bool): Step
    requires |sel| < 256
  {
    if |sel| == 0 then (if packEmpty then Stopped(0) else ReadPastEnd(0))
    else if sel[0] then Stopped(0)
    else AdvanceAsWritten(sel, 0, packEmpty)
  }

  /**
   * The scan as written stops where `NextMatch` does when a match is left; otherwise a non-empty
   * pack reads the mask at index `size`, and the empty pack stops at the end.
   */
  lemma {:induction false} ScanAsWrittenIs(sel: seq<bool>, j: nat, packEmpty: bool)
    requires j <= |sel|
    ensures ScanAsWritten(sel, j, packEmpty) ==
      if NextMatch(sel, j) < |sel| || packEmpty then Stopped(NextMatch(sel, j)) else ReadPastEnd(|sel|)
    decreases |sel| - j
  {
    if j < |sel| && !sel[j] {
      ScanAsWrittenIs(sel, j + 1, packEmpty);
    }
  }

  /**
   * The advance as written stops where the corrected one does when there is a further match;
   * otherwise, for a non-empty pack, it reads `entityMasks[size]` instead of stopping at the end.
   */
  lemma AdvanceAsWrittenReadsPastEnd(sel: seq<bool>, e: nat, packEmpty: bool)
    requires e < |sel| < 256
    ensures AdvanceAsWritten(sel, e, packEmpty) ==
      if NextMatch(sel, e + 1) < |sel| || packEmpty then Stopped(NextMatch(sel, e + 1)) else ReadPastEnd(|sel|)
  {
    ScanAsWrittenIs(sel, e + 1, packEmpty);
  }

  /**
   * Concretely: one entity holding the non-empty pack's types; advancing from it reads mask 1 of
   * a 1-mask scene. With the empty pack the same step stops at the end.
   */
  lemma AdvanceAsWrittenLastEntity()
    ensures AdvanceAsWritten([true], 0, false) == ReadPastEnd(1)
    ensures AdvanceAsWritten([true], 0, true) == Stopped(1)
  {
    ScanAsWrittenIs([true], 1, false);
    ScanAsWrittenIs([true], 1, true);
  }

  /**
   * `begin()` as written on a scene without entities reads `entityMasks[0]` for a non-empty pack;
   * for the empty pack it is at the end at once.
   */
  lemma BeginAsWrittenEmpty()
    ensures BeginAsWritten([], false) == ReadPastEnd(0)
    ensures BeginAsWritten([], true) == Stopped(0)
  {
  }

  /**
   * Where `begin()` as written ends on a non-empty scene: at the first match when there is one;
   * otherwise past the end for a non-empty pack, at the end for the empty pack.
   */
  lemma BeginAsWrittenIs(sel: seq<bool>, packEmpty: bool)
    requires 0 < |sel| < 256
    ensures BeginAsWritten(sel, packEmpty) ==
      if NextMatch(sel, 0) < |sel| || packEmpty then Stopped(NextMatch(sel, 0)) else ReadPastEnd(|sel|)
  {
    if !sel[0] {
      ScanAsWrittenIs(sel, 1, packEmpty);
    }
  }

  /**
   * One round of the do-while with the `uint8_t` entity, as written, from entity `e`: the
   * incremented entity wraps at 256, and the loop goes on while `!valid() && e < size`.
   */
  predicate GoesOnAsWritten(sel: seq<bool>, e: nat)
    requires e < 256 <= |sel|
  {
    var next := (e + 1) % 256;
    !sel[next] && next < |sel|
  }

  /**
   * With 256 or more entities, the wrapped entity is always below the size: the sentinel test
   * `e >= size` never holds, and when none of entities 0..255 matches, every round of the
   * do-while goes on, so `++` never returns.
   */
  lemma WrapNeverEnds(sel: seq<bool>)
    requires 256 <= |sel|
    requires forall k :: 0 <= k < 256 ==> !sel[k]
    ensures forall e: nat :: e < 256 ==> !(e >= |sel|) && GoesOnAsWritten(sel, e)
  {
  }

  /** Concretely: 256 entities, none holding the pack's types; advancing from entity 255 goes on. */
  lemma WrapNeverEndsAt256()
    ensures GoesOnAsWritten(seq(256, _ => false), 255)
  {
    WrapNeverEnds(seq(256, _ => false));
  }

  /** Registering a new type changes no entity's selection (its bit is set on no mask). */
  lemma SelectionKept<V>(masks: seq<seq<bool>>, ids: map<ComponentType<V>, nat>, counter: nat,
                         t: ComponentType<V>, types: seq<ComponentType<V>>)
    requires forall k :: 0 <= k < |masks| ==> BitsBelow(masks[k], counter)
    requires t !in ids
    requires forall k :: k in ids ==> ids[k] < counter
    ensures Selection(masks, ids[t := counter], types) == Selection(masks, ids, types)
  {
    forall k | 0 <= k < |masks|
      ensures AllOf(masks[k], ids[t := counter], types) == AllOf(masks[k], ids, types)
    {
      RegisterKeepsAllOf(masks[k], ids, counter, t, types);
    }
  }

  /**
   * One more `HasComponent` of the pack, under a registry that only gained entries: the
   * conjunction over the longer prefix is that query's answer.
   */
  lemma AllOfExtend<V>(mask: seq<bool>, ids: map<ComponentType<V>, nat>, ids': map<ComponentType<V>, nat>,
                       types: seq<ComponentType<V>>, i: nat)
    requires i < |types|
    requires forall k :: k in ids ==> k in ids' && ids'[k] == ids[k]
    requires AllOf(mask, ids, types[..i])
    ensures AllOf(mask, ids', types[..i + 1]) == (types[i] in ids' && MaskHas(mask, ids'[types[i]]))
    ensures AllOf(mask, ids', types) ==> AllOf(mask, ids', types[..i + 1])
  {
    forall j | 0 <= j < i
      ensures types[j] in ids' && MaskHas(mask, ids'[types[j]])
    {
      assert types[..i][j] == types[j];
    }
  }

  /** `SceneView::Iterator`: a scene pointer (null for a default iterator) and the current entity. */
  class Iterator<V(==)> {
    var scene: Scene?<V>
    var e: Entity
    const types: seq<ComponentType<V>>

    constructor (scene: Scene?<V>, e: Entity, types: seq<ComponentType<V>>)
      ensures this.scene == scene && this.e == e && this.types == types
    {
      this.scene := scene;
      this.e := e;
      this.types := types;
    }

    /** The selection of the iterated scene under the current registry. */
    ghost function Sel(reg: Registry<ComponentType<V>>): seq<bool>
      reads this, scene, reg
      requires scene != null
    {
      Selection(scene.entityMasks, reg.ids, types)
    }

    /** `operator==(Sentinel)`: no scene, or the entity is at or past the last mask. */
    predicate AtEnd()
      reads this, scene
    {
      scene == null || e >= |scene.entityMasks|
    }

    /**
     * `valid()`: `HasComponent` of each type in turn, stopping at the first miss. Each query may
     * register its type, which changes no entity's selection.
     */
    method IsValid(reg: Registry<ComponentType<V>>) returns (b: bool)
      requires scene != null && scene.Valid(reg) && e < |scene.entityMasks|
      modifies reg
      ensures scene.Valid(reg)
      ensures Sel(reg) == old(Sel(reg))
      ensures b == Sel(reg)[e]
    {
      var masks := scene.entityMasks;
      ghost var sel := Sel(reg);
      b := true;
      var i := 0;
      while i < |types| && b
        invariant 0 <= i <= |types|
        invariant scene.Valid(reg) && scene.entityMasks == masks
        invariant Selection(masks, reg.ids, types) == sel
        invariant b ==> AllOf(masks[e], reg.ids, types[..i])
        invariant !b ==> !AllOf(masks[e], reg.ids, types)
      {
        ghost var ids0 := reg.ids;
        var h := Query(reg, types[i]);
        AllOfExtend(masks[e], ids0, reg.ids, types, i);
        b := h;
        i := i + 1;
      }
      assert b ==> types[..i] == types;
    }

    /** One `HasComponent<t>(e)` of `valid()`: it may register `t`, which keeps every other id. */
    method Query(reg: Registry<ComponentType<V>>, t: ComponentType<V>) returns (h: bool)
      requires scene != null && scene.Valid(reg) && e < |scene.entityMasks|
      modifies reg
      ensures scene.Valid(reg)
      ensures Sel(reg) == old(Sel(reg))
      ensures forall k :: k in old(reg.ids) ==> k in reg.ids && reg.ids[k] == old(reg.ids)[k]
      ensures h == (t in reg.ids && MaskHas(scene.entityMasks[e], reg.ids[t]))
    {
      ghost var ids0, counter0 := reg.ids, reg.counter;
      scene.BitsIssued(reg);
      h := scene.HasComponent(reg, t, e);
      if t !in ids0 {
        SelectionKept(scene.entityMasks, ids0, counter0, t, types);
      }
    }

    /**
     * One pass of the do-while body of `operator++(int)`, with the bound test before `valid()`:
     * step to the next entity and report whether the loop stops there.
     */
    method Probe(reg: Registry<ComponentType<V>>, ghost sel: seq<bool>) returns (done: bool)
      requires scene != null && scene.Valid(reg) && Sel(reg) == sel
      requires |sel| < 256 && e < |sel|
      modifies this`e, reg
      ensures scene.Valid(reg) && Sel(reg) == sel
      ensures e == old(e) + 1
      ensures done == (e == |sel| || sel[e])
    {
      e := (e + 1) % 256;
      done := e >= |scene.entityMasks|;
      if !done {
        done := IsValid(reg);
      }
    }

    /**
     * `operator++(int)` with the bound test first: moves to the next entity holding every type,
     * or to the end. Needs fewer than 256 entities, since `e` is a `uint8_t`.
     */
    method Advance(reg: Registry<ComponentType<V>>)
      requires scene != null && scene.Valid(reg)
      requires |scene.entityMasks| < 256 && e < |scene.entityMasks|
      modifies this`e, reg
      ensures scene.Valid(reg)
      ensures Sel(reg) == old(Sel(reg))
      ensures e == NextMatch(Sel(reg), old(e) + 1)
    {
      ghost var sel := Sel(reg);
      ghost var start := e + 1;
      var done := false;
      while !done
        invariant start - 1 <= e <= |sel|
        invariant scene.Valid(reg) && Sel(reg) == sel
        invariant !done ==> e < |sel| && NextMatch(sel, start) == NextMatch(sel, e + 1)
        invariant done ==> NextMatch(sel, start) == e
        decreases |sel| - e, !done
      {
        done := Probe(reg, sel);
        if done {
          NextMatchUnique(sel, e, e);
        } else {
          NextMatchSkip(sel, e);
        }
      }
    }

    /**
     * The body of a range-for from the current position: record the entity, `++`, until the
     * iterator equals the sentinel. The entities recorded are the traversal from `e`.
     */
    method Drain(reg: Registry<ComponentType<V>>) returns (visited: seq<nat>)
      requires scene != null && scene.Valid(reg)
      requires |scene.entityMasks| < 256 && e <= |scene.entityMasks|
      requires e < |scene.entityMasks| ==> Sel(reg)[e]
      modifies this`e, reg
      ensures scene.Valid(reg) && Sel(reg) == old(Sel(reg))
      ensures visited == Walk(Sel(reg), old(e))
    {
      ghost var sel := Sel(reg);
      ghost var all := Walk(sel, e);
      visited := [];
      while !AtEnd()
        invariant scene.Valid(reg) && Sel(reg) == sel
        invariant e <= |sel| && (e < |sel| ==> sel[e])
        invariant visited + Walk(sel, e) == all
        decreases |sel| - e
      {
        var k := e;
        ghost var rest := Walk(sel, NextMatch(sel, k + 1));
        WalkStep(sel, k);
        assert visited + [k] + rest == all by {
          assert visited + [k] + rest == visited + ([k] + rest);
        }
        visited := visited + [k];
        Advance(reg);
      }
    }

    /**
     * Prefix `operator++()` as written: advances, but returns a default-constructed iterator
     * (null scene), which always compares equal to the sentinel. Its entity is unspecified; the
     * model picks 0.
     */
    method PreIncrementAsWritten(reg: Registry<ComponentType<V>>) returns (prev: Iterator<V>)
      requires scene != null && scene.Valid(reg)
      requires |scene.entityMasks| < 256 && e < |scene.entityMasks|
      modifies this`e, reg
      ensures scene.Valid(reg) && Sel(reg) == old(Sel(reg))
      ensures e == NextMatch(Sel(reg), old(e) + 1)
      ensures fresh(prev) && prev.scene == null && prev.AtEnd()
    {
      prev := new Iterator<V>(null, 0, types);
      Advance(reg);
    }

    /** Prefix `operator++()` returning a copy of the iterator from before the advance. */
    method PreIncrement(reg: Registry<ComponentType<V>>) returns (prev: Iterator<V>)
      requires scene != null && scene.Valid(reg)
      requires |scene.entityMasks| < 256 && e < |scene.entityMasks|
      modifies this`e, reg
      ensures scene.Valid(reg) && Sel(reg) == old(Sel(reg))
      ensures e == NextMatch(Sel(reg), old(e) + 1)
      ensures fresh(prev) && prev.scene == scene && prev.e == old(e) && prev.types == types
      ensures !prev.AtEnd()
    {
      prev := new Iterator<V>(scene, e, types);
      Advance(reg);
    }

    /**
     * `operator*`: `GetComponent` of each type for the current entity, which must hold all of
     * them; the result lists, in pack order, the offset each type's storage records for the
     * entity (a valid storage makes every recorded offset a reference to one of its elements).
     */
    method Deref(reg: Registry<ComponentType<V>>) returns (refs: seq<nat>)
      requires scene != null && scene.Valid(reg)
      requires e < |scene.entityMasks| && Sel(reg)[e]
      requires forall i :: 0 <= i < |types| ==> Sized(types[i])
      modifies scene, reg
      ensures scene.Valid(reg) && Sel(reg) == old(Sel(reg))
      ensures scene.entityMasks == old(scene.entityMasks) && scene.storages == old(scene.storages)
      ensures |refs| == |types|
      ensures forall i :: 0 <= i < |types| ==>
        var id := reg.ids[types[i]];
        id < |scene.storages| && scene.storages[id].HasSlot(e) && refs[i] == scene.storages[id].indecies[e]
    {
      ghost var storages := scene.storages;
      ghost var tables := seq(|storages|, k requires 0 <= k < |storages| reads storages => storages[k].indecies);
      refs := [];
      var i := 0;
      while i < |types|
        invariant 0 <= i <= |types| && |refs| == i
        invariant scene.Valid(reg)
        invariant scene.entityMasks == old(scene.entityMasks) && scene.storages == storages
        invariant reg.ids == old(reg.ids) && reg.counter == old(reg.counter)
        invariant forall k :: 0 <= k < |storages| ==> storages[k].indecies == tables[k]
        invariant forall j :: 0 <= j < i ==>
          var id := reg.ids[types[j]];
          id < |tables| && e < |tables[id]| && tables[id][e] != SizeMax && refs[j] == tables[id][e]
      {
        var r := scene.GetComponent(reg, types[i], e);
        refs := refs + [r];
        i := i + 1;
      }
    }
  }

  /** `SceneView<Ts...>`: the scene to iterate and the requested types. */
  class SceneView<V(==)> {
    const scene: Scene<V>
    const types: seq<ComponentType<V>>

    constructor (scene: Scene<V>, types: seq<ComponentType<V>>)
      ensures this.scene == scene && this.types == types
    {
      this.scene := scene;
      this.types := types;
    }

    ghost function Sel(reg: Registry<ComponentType<V>>): seq<bool>
      reads this, scene, reg
    {
      Selection(scene.entityMasks, reg.ids, types)
    }

    /**
     * `begin()` with the emptiness test first: an iterator at the first entity holding every
     * type, or at the end.
     */
    method Begin(reg: Registry<ComponentType<V>>) returns (it: Iterator<V>)
      requires scene.Valid(reg) && |scene.entityMasks| < 256
      modifies reg
      ensures scene.Valid(reg) && Sel(reg) == old(Sel(reg))
      ensures fresh(it) && it.scene == scene && it.types == types
      ensures it.e == NextMatch(Sel(reg), 0)
    {
      it := new Iterator<V>(scene, 0, types);
      if 0 < |scene.entityMasks| {
        var v := it.IsValid(reg);
        if !v {
          it.Advance(reg);
        } else {
          NextMatchUnique(Sel(reg), 0, 0);
        }
      }
    }

    /**
     * A range-for over the view: `begin()`, then `*`/`++` until the iterator equals `end()`.
     * The entities visited are the traversal `Walk` from 0: exactly the entities holding every
     * type, ascending (see `WalkExact`).
     */
    method Collect(reg: Registry<ComponentType<V>>) returns (visited: seq<nat>)
      requires scene.Valid(reg) && |scene.entityMasks| < 256
      modifies reg
      ensures scene.Valid(reg) && Sel(reg) == old(Sel(reg))
      ensures visited == Walk(Sel(reg), 0)
    {
      var it := Begin(reg);
      WalkSkip(Sel(reg), 0);
      visited := it.Drain(reg);
    }
  }
}
