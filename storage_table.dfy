/**
 * How `Scene::GetStorage` grows its vector of storages (as8/src/ECS.hpp:78-79) when a component
 * id is not yet covered: `insert(cend(), max(id - size, 1), Storage())`.
 */
module StorageTable {

  /** The number of storages the source appends when `size <= id`, as written. */
  function GrowthAsWritten(size: nat, id: nat): (n: nat)
    requires size <= id
    ensures n >= 1
  {
    if id - size > 1 then id - size else 1
  }

  /**
   * As written, growing covers `id` only when `id == size`: for every `id > size` the new size
   * is exactly `id`, so `storages[id]` is one past the end.
   */
  lemma GrowthAsWrittenMissesId(size: nat, id: nat)
    requires size <= id
    ensures id < size + GrowthAsWritten(size, id) <==> id == size
    ensures size < id ==> size + GrowthAsWritten(size, id) == id
  {
  }

  /**
   * A concrete case: a fresh scene holds one storage; if the first type it stores received id 2
   * (two other types asked for their ids first), the vector grows to 2 and index 2 is out of range.
   */
  lemma GrowthAsWrittenFreshScene()
    ensures 1 + GrowthAsWritten(1, 2) == 2
  {
  }

  /** The growth that makes `storages[id]` valid: exactly enough new storages to reach `id + 1`. */
  function Growth(size: nat, id: nat): (n: nat)
    requires size <= id
    ensures n >= 1
    ensures id < size + n
    ensures size + n - 1 <= id
  {
    id + 1 - size
  }
}
