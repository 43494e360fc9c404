/**
 * The component-object model of as6/src/CO.hpp: an `Entity` owns a list of heap-allocated
 * components, each constructed for (and pointing at) that entity. The constructor adds a
 * transform, and `AddComponent` is guarded so that a second transform cannot be added.
 * Component behaviour (`Update` overrides, float physics, rendering) is not part of this model.
 */
module As6Objects {
  import opened Common
  import opened RuntimeTypes

  /** The dynamic classes of a component list, in list order. */
  function Tags(cs: seq<Component>): (r: seq<ClassTag>)
    ensures |r| == |cs| && forall i :: 0 <= i < |cs| ==> r[i] == cs[i].tag
  {
    seq(|cs|, i requires 0 <= i < |cs| => cs[i].tag)
  }

  /** Some component of the list is a `TransformComponent`. */
  predicate HasTransform(cs: seq<Component>) {
    FirstMatch(Tags(cs), TransformName).Some?
  }

  /** `Component`: its owner (fixed at construction) and its dynamic class. */
  class Component {
    const owner: Entity
    const tag: ClassTag

    /** `explicit Component(Entity& e)`. */
    constructor (e: Entity, tag: ClassTag)
      ensures owner == e && this.tag == tag
    {
      owner := e;
      this.tag := tag;
    }
  }

  /** `Entity`: the owned component list. */
  class Entity {
    var components: seq<Component>

    /**
     * Slot 0 is a transform and no other slot is; every component was constructed for this
     * entity; no component is listed twice.
     */
    ghost predicate Valid()
      reads this
    {
      |components| >= 1 && IsA(components[0].tag, TransformName) &&
      (forall i :: 1 <= i < |components| ==> !IsA(components[i].tag, TransformName)) &&
      (forall i, j :: 0 <= i < j < |components| ==> components[i] != components[j]) &&
      (forall i :: 0 <= i < |components| ==> components[i].owner == this)
    }

    /** `Entity()`: a new entity holds exactly one component, a transform. */
    constructor ()
      ensures Valid()
      ensures |components| == 1 && components[0].tag == TransformTag
    {
      components := [];
      new;
      AddComponentAsWritten(TransformTag);
    }

    /**
     * `AddComponent<T>(args...)` as written: the guard asks whether any existing component is a
     * `TransformComponent`, whatever `T` is, so a component is appended only to a list without a
     * transform. On a constructed entity every call therefore leaves the list unchanged.
     */
    method AddComponentAsWritten(tag: ClassTag)
      modifies this
      ensures HasTransform(old(components)) ==> components == old(components)
      ensures !HasTransform(old(components)) ==>
        |components| == |old(components)| + 1 &&
        components == old(components) + [components[|old(components)|]] &&
        fresh(components[|old(components)|]) &&
        components[|old(components)|].tag == tag && components[|old(components)|].owner == this
      ensures old(Valid()) ==> components == old(components)
    {
      if !HasTransform(components) {
        var c := new Component(this, tag);
        components := components + [c];
      }
      if old(Valid()) {
        FirstMatchUnique(Tags(old(components)), TransformName, 0);
      }
    }

    /**
     * `AddComponent<T>(args...)` with the guard on `T`: a second transform is refused, any other
     * component is appended. The entity stays valid, so it keeps exactly one transform.
     */
    method AddComponent(tag: ClassTag)
      requires Valid()
      modifies this
      ensures Valid()
      ensures IsA(tag, TransformName) ==> components == old(components)
      ensures !IsA(tag, TransformName) ==>
        |components| == |old(components)| + 1 &&
        components == old(components) + [components[|old(components)|]] &&
        fresh(components[|old(components)|]) &&
        components[|old(components)|].tag == tag && components[|old(components)|].owner == this
    {
      if !(IsA(tag, TransformName) && HasTransform(components)) {
        var c := new Component(this, tag);
        components := components + [c];
      } else {
        FirstMatchUnique(Tags(components), TransformName, 0);
      }
    }

    /**
     * `GetComponent<T>()`: the first component in list order whose class is `T` or derives from
     * it, or none (after listing the classes on the error stream, which is not modelled).
     */
    method GetComponent(target: string) returns (r: Option<Component>)
      ensures r == match FirstMatch(Tags(components), target)
        case None => None
        case Some(i) => Some(components[i])
    {
      for i := 0 to |components|
        invariant forall j :: 0 <= j < i ==> !IsA(components[j].tag, target)
      {
        if IsA(components[i].tag, target) {
          FirstMatchUnique(Tags(components), target, i);
          return Some(components[i]);
        }
      }
      return None;
    }

    /** `Update(dt)`: every component is updated once, in list order; the result is that order. */
    method Update() returns (updated: seq<Component>)
      ensures updated == components
    {
      updated := [];
      for i := 0 to |components|
        invariant updated == components[..i]
      {
        updated := updated + [components[i]];
      }
    }
  }

  /** The class of an object built by `make_unique<PhysicsComponent>` (as6/src/CO.hpp:83). */
  const PhysicsTag: ClassTag := ClassTag(["PhysicsComponent", ComponentName])

  /**
   * `Entity e; e.AddComponent<PhysicsComponent>(10, 2); e.GetComponent<PhysicsComponent>()` under
   * the guard as written: the constructor's transform makes the add a no-op, so the lookup finds
   * nothing.
   */
  method PhysicsDroppedAsWritten() returns (r: Option<Component>)
    ensures r == None
  {
    var car := new Entity();
    car.AddComponentAsWritten(PhysicsTag);
    r := car.GetComponent("PhysicsComponent");
  }

  /**
   * The same calls with the guard on `T`: the physics component is appended and the lookup finds
   * it.
   */
  method PhysicsKept() returns (r: Option<Component>)
    ensures r.Some? && r.value.tag == PhysicsTag
  {
    var car := new Entity();
    car.AddComponent(PhysicsTag);
    r := car.GetComponent("PhysicsComponent");
  }
}
