/**
 * The component-type registry: `GetComponentID<T>()` keeps one function-local static per type,
 * initialised from the process-wide `globalComponentCounter` the first time `T` is asked for.
 */
module ComponentRegistry {

  /** The per-type statics (`ids`) and the global counter (`counter`). */
  class Registry<K(==)> {
    var ids: map<K, nat>
    var counter: nat

    /** Every issued id lies below the counter and no two types share one. */
    ghost predicate Valid()
      reads this
    {
      (forall k :: k in ids ==> ids[k] < counter) &&
      (forall k1, k2 :: k1 in ids && k2 in ids && k1 != k2 ==> ids[k1] != ids[k2])
    }

    /** No type has been asked for yet; the counter holds its initial value. */
    constructor (start: nat)
      ensures Valid() && ids == map[] && counter == start
    {
      ids := map[];
      counter := start;
    }

    /**
     * The effect of one `GetComponentID<t>()` call that returned `id`: a known type keeps its id
     * and nothing changes; a new type takes the counter's value and the counter moves on by one.
     */
    twostate predicate IssuedFor(t: K, id: nat)
      reads this
    {
      t in ids && id == ids[t] &&
      (old(t in ids) ==> ids == old(ids) && counter == old(counter)) &&
      (old(t !in ids) ==> id == old(counter) && ids == old(ids)[t := id] && counter == old(counter) + 1)
    }

    /**
     * `static size_t id = globalComponentCounter++; return id;` -- the first request for `t`
     * takes the counter's value and bumps it, every later request returns that same value.
     */
    method GetComponentID(t: K) returns (id: nat)
      requires Valid()
      modifies this
      ensures Valid()
      ensures IssuedFor(t, id)
    {
      if t in ids {
        id := ids[t];
      } else {
        id := counter;
        ids := ids[t := id];
        counter := counter + 1;
      }
    }
  }
}
