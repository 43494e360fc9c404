/**
 * The per-entity component masks of `Scene` (as8/src/ECS.hpp:72): one `vector<bool>` per
 * entity, indexed by component id. The scene methods rewrite `entityMasks` with these functions.
 */
module Masks {
  import opened Common
  import opened EcsTypes

  /**
   * `AddComponent`'s mask step: grow a short mask with `false` up to `id + 1` bits, then set bit `id`.
   * Only bit `id` changes meaning; every other bit reads as before.
   */
  function SetBit(mask: seq<bool>, id: nat): (r: seq<bool>)
    ensures MaskHas(r, id)
    ensures |r| == if id < |mask| then |mask| else id + 1
    ensures forall j :: j != id ==> MaskHas(r, j) == MaskHas(mask, j)
  {
    Cover(mask, false, id)[id := true]
  }

  /**
   * `RemoveComponent`'s mask step: clear bit `id` when the mask is long enough, otherwise leave
   * the mask alone. The length never changes.
   */
  function ClearBit(mask: seq<bool>, id: nat): (r: seq<bool>)
    ensures !MaskHas(r, id)
    ensures |r| == |mask|
    ensures forall j :: j != id ==> MaskHas(r, j) == MaskHas(mask, j)
    ensures |mask| <= id ==> r == mask
  {
    if |mask| > id then mask[id := false] else mask
  }

  /** `HasComponent<T>(e)` over the masks and the registry's id table: an unregistered type is absent. */
  predicate EntityHas<V(==)>(masks: seq<seq<bool>>, ids: map<ComponentType<V>, nat>, t: ComponentType<V>, e: nat)
    requires e < |masks|
  {
    t in ids && MaskHas(masks[e], ids[t])
  }

  /** The conjunction `(HasComponent<Ts>(e) && ...)` that `SceneView::Iterator::valid` evaluates. */
  predicate AllOf<V(==)>(mask: seq<bool>, ids: map<ComponentType<V>, nat>, types: seq<ComponentType<V>>) {
    forall i :: 0 <= i < |types| ==> types[i] in ids && MaskHas(mask, ids[types[i]])
  }

  /** No bit at or above `counter` is set: every set bit belongs to an id already issued. */
  predicate BitsBelow(mask: seq<bool>, counter: nat) {
    forall id :: 0 <= id < |mask| && mask[id] ==> id < counter
  }

  /**
   * Registering a new type `t` (it takes id `counter`) does not change which entities have which
   * types: the new type is absent before (unregistered) and after (its bit was never set).
   */
  lemma RegisterKeepsAllOf<V>(mask: seq<bool>, ids: map<ComponentType<V>, nat>, counter: nat,
                                  t: ComponentType<V>, types: seq<ComponentType<V>>)
    requires BitsBelow(mask, counter)
    requires t !in ids
    requires forall k :: k in ids ==> ids[k] < counter
    ensures AllOf(mask, ids[t := counter], types) == AllOf(mask, ids, types)
  {
    var ids' := ids[t := counter];
    if AllOf(mask, ids', types) {
      forall i | 0 <= i < |types|
        ensures types[i] in ids && MaskHas(mask, ids[types[i]])
      {
        assert types[i] in ids' && MaskHas(mask, ids'[types[i]]);
        if types[i] == t {
          assert !MaskHas(mask, counter);
        }
      }
    }
  }
}
