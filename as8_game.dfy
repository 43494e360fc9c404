/**
 * The fixed-pool entity system of as8/src/as8.cpp: parallel per-entity pools of `MAX_ENTITIES`
 * slots, one `has*` flag vector per component kind, the creation order used for TAB selection,
 * and a static id counter. The component payloads are floats and models; only the flags, the
 * selection and the speed that SPACE resets are kept.
 */
module As8Game {
  import opened RoundRobin

  /** `MAX_ENTITIES`: the length of every pool and flag vector. */
  const MaxEntities: nat := 100

  /** The first `n` ids in order, as `entityOrder` lists them after `n` creations from a fresh start. */
  function FirstIds(n: nat): (r: seq<nat>)
    ensures |r| == n && forall i :: 0 <= i < n ==> r[i] == i
  {
    seq(n, i => i)
  }

  /** The globals of as8.cpp that the systems read and write. */
  class World {
    var hasTransform: seq<bool>
    var hasRender: seq<bool>
    var hasVelocity: seq<bool>
    var hasPhysics2D: seq<bool>
    var hasPhysics3D: seq<bool>
    var selectionPool: seq<bool>
    /** `velocityPool[e].speed`, the one payload field the model keeps. */
    var speed: seq<real>
    var entityOrder: seq<nat>
    var selectedIndex: int
    /** The static counter of `CreateEntity`: the next id it hands out. */
    var next: nat

    /**
     * Every vector has `MAX_ENTITIES` slots; no entity has both physics kinds; ids not yet handed
     * out have no flag; `entityOrder` lists handed-out ids in creation order, each with a transform,
     * a render and a velocity.
     */
    ghost predicate Valid()
      reads this
    {
      |hasTransform| == MaxEntities && |hasRender| == MaxEntities && |hasVelocity| == MaxEntities &&
      |hasPhysics2D| == MaxEntities && |hasPhysics3D| == MaxEntities &&
      |selectionPool| == MaxEntities && |speed| == MaxEntities &&
      (forall e :: 0 <= e < MaxEntities ==> !(hasPhysics2D[e] && hasPhysics3D[e])) &&
      (forall e :: next <= e < MaxEntities ==>
         !hasTransform[e] && !hasRender[e] && !hasVelocity[e] && !hasPhysics2D[e] && !hasPhysics3D[e]) &&
      (forall i :: 0 <= i < |entityOrder| ==> entityOrder[i] < next && entityOrder[i] < MaxEntities) &&
      (forall i, j :: 0 <= i < j < |entityOrder| ==> entityOrder[i] < entityOrder[j]) &&
      (forall i :: 0 <= i < |entityOrder| ==>
         hasTransform[entityOrder[i]] && hasRender[entityOrder[i]] && hasVelocity[entityOrder[i]])
    }

    /** The program's start: every flag false, no entity, index 0. */
    constructor ()
      ensures Valid()
      ensures next == 0 && entityOrder == [] && selectedIndex == 0
      ensures forall e :: 0 <= e < MaxEntities ==> !selectionPool[e]
    {
      var none := seq(MaxEntities, _ => false);
      hasTransform, hasRender, hasVelocity := none, none, none;
      hasPhysics2D, hasPhysics3D, selectionPool := none, none, none;
      speed := seq(MaxEntities, _ => 0.0);
      entityOrder := [];
      selectedIndex := 0;
      next := 0;
    }

    /** `CreateEntity`: hands out consecutive ids from 0. */
    method CreateEntity() returns (e: nat)
      modifies this`next
      ensures e == old(next) && next == old(next) + 1
    {
      e := next;
      next := next + 1;
    }

    /**
     * `CreateCar`: a new id with Transform, Render, Velocity (speed 0) and Physics2D, appended to
     * `entityOrder`. The pools have `MAX_ENTITIES` slots, so the id must be below that.
     */
    method CreateCar() returns (e: nat)
      requires Valid() && next < MaxEntities
      modifies this`next, this`hasTransform, this`hasRender, this`hasVelocity, this`hasPhysics2D, this`speed, this`entityOrder
      ensures Valid()
      ensures e == old(next) && next == e + 1 && entityOrder == old(entityOrder) + [e]
      ensures hasTransform == old(hasTransform)[e := true] && hasRender == old(hasRender)[e := true]
      ensures hasVelocity == old(hasVelocity)[e := true] && hasPhysics2D == old(hasPhysics2D)[e := true]
      ensures hasPhysics3D == old(hasPhysics3D) && !hasPhysics3D[e]
      ensures speed == old(speed)[e := 0.0]
    {
      e := CreateEntity();
      speed := speed[e := 0.0];
      hasTransform, hasRender := hasTransform[e := true], hasRender[e := true];
      hasVelocity, hasPhysics2D := hasVelocity[e := true], hasPhysics2D[e := true];
      entityOrder := entityOrder + [e];
    }

    /**
     * `CreateRocket`: a new id with Transform, Render, Velocity (speed 0) and Physics3D (never
     * Physics2D), appended to `entityOrder`.
     */
    method CreateRocket() returns (e: nat)
      requires Valid() && next < MaxEntities
      modifies this`next, this`hasTransform, this`hasRender, this`hasVelocity, this`hasPhysics3D, this`speed, this`entityOrder
      ensures Valid()
      ensures e == old(next) && next == e + 1 && entityOrder == old(entityOrder) + [e]
      ensures hasTransform == old(hasTransform)[e := true] && hasRender == old(hasRender)[e := true]
      ensures hasVelocity == old(hasVelocity)[e := true] && hasPhysics3D == old(hasPhysics3D)[e := true]
      ensures hasPhysics2D == old(hasPhysics2D) && !hasPhysics2D[e]
      ensures speed == old(speed)[e := 0.0]
    {
      e := CreateEntity();
      speed := speed[e := 0.0];
      hasTransform, hasRender := hasTransform[e := true], hasRender[e := true];
      hasVelocity, hasPhysics3D := hasVelocity[e := true], hasPhysics3D[e := true];
      entityOrder := entityOrder + [e];
    }

    /**
     * `SelectionSystem`: on TAB, clear the selected entity's flag, step `selectedIndex` cyclically
     * and set the flag of the entity it now names. A single selection stays single.
     */
    method SelectionSystem(tab: bool)
      requires Valid()
      requires tab ==> 0 <= selectedIndex < |entityOrder|
      modifies this`selectionPool, this`selectedIndex
      ensures Valid()
      ensures !tab ==> selectionPool == old(selectionPool) && selectedIndex == old(selectedIndex)
      ensures tab ==> selectedIndex == NextIndex(old(selectedIndex), |entityOrder|)
      ensures tab ==> (selectionPool ==
        old(selectionPool)[old(entityOrder[selectedIndex]) := false][entityOrder[selectedIndex] := true])
      ensures old(SelectedExactly(selectionPool, entityOrder, selectedIndex)) ==>
        SelectedExactly(selectionPool, entityOrder, selectedIndex)
    {
      if tab {
        ghost var pool0, index0 := selectionPool, selectedIndex;
        selectionPool := selectionPool[entityOrder[selectedIndex] := false];
        selectedIndex := (selectedIndex + 1) % |entityOrder|;
        selectionPool := selectionPool[entityOrder[selectedIndex] := true];
        if SelectedExactly(pool0, entityOrder, index0) {
          MoveSelection(pool0, entityOrder, index0, selectedIndex);
        }
      }
    }

    /**
     * `InputSystem`, without its float steering. The source returns early when the selected entity
     * has no velocity; `Valid` gives every entity of the order a velocity, so that return never
     * fires and SPACE sets the selected entity's speed to 0.
     */
    method InputSystem(space: bool)
      requires Valid() && 0 <= selectedIndex < |entityOrder|
      modifies this`speed
      ensures Valid()
      ensures hasVelocity[entityOrder[selectedIndex]]
      ensures speed == if space then old(speed)[entityOrder[selectedIndex] := 0.0] else old(speed)
    {
      var selected := entityOrder[selectedIndex];
      if space {
        speed := speed[selected := 0.0];
      }
    }

    /**
     * The setup of `main`: five cars, then five rockets, then the flag of `entityOrder[0]`. After it
     * the order is ids 0..9, cars 0..4 and rockets 5..9, and only entity 0 is selected.
     */
    method Setup()
      requires Valid() && next == 0 && entityOrder == [] && selectedIndex == 0
      requires forall e :: 0 <= e < MaxEntities ==> !selectionPool[e]
      modifies this
      ensures Valid()
      ensures entityOrder == FirstIds(10) && next == 10
      ensures SelectedExactly(selectionPool, entityOrder, selectedIndex) && entityOrder[selectedIndex] == 0
      ensures forall e :: 0 <= e < 5 ==> hasPhysics2D[e] && !hasPhysics3D[e]
      ensures forall e :: 5 <= e < 10 ==> hasPhysics3D[e] && !hasPhysics2D[e]
    {
      for i := 0 to 5
        invariant Valid() && next == i && entityOrder == FirstIds(i) && selectedIndex == 0
        invariant forall e :: 0 <= e < MaxEntities ==> !selectionPool[e]
        invariant forall e :: 0 <= e < i ==> hasPhysics2D[e] && !hasPhysics3D[e]
      {
        var _ := CreateCar();
      }
      for i := 0 to 5
        invariant Valid() && next == 5 + i && entityOrder == FirstIds(5 + i) && selectedIndex == 0
        invariant forall e :: 0 <= e < MaxEntities ==> !selectionPool[e]
        invariant forall e :: 0 <= e < 5 ==> hasPhysics2D[e] && !hasPhysics3D[e]
        invariant forall e :: 5 <= e < 5 + i ==> hasPhysics3D[e] && !hasPhysics2D[e]
      {
        var _ := CreateRocket();
      }
      selectionPool := selectionPool[entityOrder[0] := true];
    }
  }
}
