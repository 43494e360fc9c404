/**
 * The TAB selection shared by the two fixed-pool games (as8/src/as8.cpp:156-162 and
 * as9/src/as9.cpp:165-171): `selectedIndex` walks `entityOrder` cyclically, and one flag of
 * `selectionPool` marks the entity it points at.
 */
module RoundRobin {
  import opened Common

  /** `(selectedIndex + 1) % entityOrder.size()`: the next position, wrapping to 0 after the last. */
  function NextIndex(i: nat, n: nat): (r: nat)
    requires i < n
    ensures r < n
    ensures r == 0 <==> i == n - 1
    ensures 0 < r ==> r == i + 1
  {
    (i + 1) % n
  }

  /** The position after `k` presses of TAB from `i`. */
  function Presses(i: nat, n: nat, k: nat): (r: nat)
    requires i < n
    ensures r < n
  {
    if k == 0 then i else NextIndex(Presses(i, n, k - 1), n)
  }

  /** `k` presses move the selection `k` places around the order. */
  lemma {:induction false} PressesIs(i: nat, n: nat, k: nat)
    requires i < n
    ensures Presses(i, n, k) == (i + k) % n
  {
    if k > 0 {
      PressesIs(i, n, k - 1);
      ModSucc(i + k - 1, n);
    }
  }

  /** Stepping the remainder is stepping the number: `(a % n + 1) % n == (a + 1) % n`. */
  lemma ModSucc(a: nat, n: nat)
    requires n >= 1
    ensures (a % n + 1) % n == (a + 1) % n
  {
    var p, q := a % n, a / n;
    assert a == q * n + p;
    if p + 1 < n {
      DivModUnique(p + 1, n, 0, p + 1);
      DivModUnique(a + 1, n, q, p + 1);
    } else {
      DivModUnique(p + 1, n, 1, 0);
      assert (q + 1) * n == q * n + n;
      DivModUnique(a + 1, n, q + 1, 0);
    }
  }

  /** Every entity of the order is selected within `n` presses, and `n` presses come back to the start. */
  lemma PressesVisitAll(i: nat, n: nat, j: nat)
    requires i < j < n || j < i < n || i == j < n
    ensures Presses(i, n, if i <= j then j - i else n - i + j) == j
    ensures Presses(i, n, n) == i
  {
    var k := if i <= j then j - i else n - i + j;
    PressesIs(i, n, k);
    PressesIs(i, n, n);
    DivModUnique(i + n, n, 1, i);
    if i <= j {
      DivModUnique(i + k, n, 0, j);
    } else {
      DivModUnique(i + k, n, 1, j);
    }
  }

  /**
   * Exactly one flag of `pool` is set: the one of the entity at position `index` of `order`
   * (which names a pool slot).
   */
  ghost predicate SelectedExactly(pool: seq<bool>, order: seq<nat>, index: int) {
    0 <= index < |order| && order[index] < |pool| &&
    forall e :: 0 <= e < |pool| ==> (pool[e] <==> e == order[index])
  }

  /**
   * The two flag writes of TAB: clearing the old entity's flag and then setting the new one's
   * leaves exactly the new one set, even when both positions name the same entity.
   */
  lemma MoveSelection(pool: seq<bool>, order: seq<nat>, i: nat, j: nat)
    requires SelectedExactly(pool, order, i)
    requires j < |order| && order[j] < |pool|
    ensures SelectedExactly(pool[order[i] := false][order[j] := true], order, j)
  {
  }
}
