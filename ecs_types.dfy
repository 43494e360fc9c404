/** Types shared by the ECS storage and query engine (as8/src/ECS.hpp). */
module EcsTypes {
  import opened Common

  /** SIZE_MAX of a 64-bit size_t: the "unbound" element size and the skiplist's "absent" offset. */
  const SizeMax: nat := 0xFFFF_FFFF_FFFF_FFFF

  /** `using Entity = uint8_t`: entity ids are eight bits wide. */
  type Entity = x: nat | x < 256

  /**
   * A component type `T` as the engine sees it: its identity (`name`), `sizeof(T)` (`size`)
   * and the value `T()` constructs (`init`), which fills every freshly allocated slot.
   */
  datatype ComponentType<V> = ComponentType(name: string, size: nat, init: V)

  /** A C++ object size is positive and below SIZE_MAX. */
  predicate Sized<V>(t: ComponentType<V>) {
    1 <= t.size < SizeMax
  }

  /**
   * Byte offset arithmetic: slot `k` of a buffer of `size`-byte elements starts at `k * size`,
   * an offset that is a multiple of `size` and divides back to `k`.
   */
  lemma OffsetOf(k: nat, size: nat)
    requires size >= 1
    ensures (k * size) % size == 0 && (k * size) / size == k
  {
    DivModUnique(k * size, size, k, 0);
  }

  /** The offset of the last byte of slot `k` still divides back to `k`. */
  lemma LastByteOf(k: nat, size: nat)
    requires size >= 1
    ensures (k + 1) * size - 1 >= 0 && ((k + 1) * size - 1) / size == k
  {
    assert (k + 1) * size - 1 == k * size + (size - 1);
    DivModUnique((k + 1) * size - 1, size, k, size - 1);
  }

  /** `entityMasks[e].size() > id && entityMasks[e][id]`: the bit is inside the mask and set. */
  predicate MaskHas(mask: seq<bool>, id: nat) {
    id < |mask| && mask[id]
  }
}
