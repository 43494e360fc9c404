/**
 * The component-object model of as7/src/CO.hpp: an `Entity` owns a list of heap-allocated
 * components, each of which points back at its entity (`object`) and can be switched off
 * (`enabled`). Slot 0 is always the entity's transform. Component behaviour (`Tick` overrides,
 * positions, headings) lives in subclasses and is not part of this model.
 */
module As7Objects {
  import opened Common
  import opened RuntimeTypes

  /**
   * The dynamic classes of a component list, in list order. As6Objects has the same function over
   * its own `Component` class, a different type, hence the second copy.
   */
  function Tags(cs: seq<Component>): (r: seq<ClassTag>)
    ensures |r| == |cs| && forall i :: 0 <= i < |cs| ==> r[i] == cs[i].tag
  {
    seq(|cs|, i requires 0 <= i < |cs| => cs[i].tag)
  }

  /** The components of `cs` that are enabled, in list order. */
  function EnabledOnes(cs: seq<Component>): (r: seq<Component>)
    reads set c | c in cs
    ensures |r| <= |cs|
    ensures forall i :: 0 <= i < |r| ==> r[i] in cs && r[i].enabled
    ensures forall i :: 0 <= i < |cs| && cs[i].enabled ==> cs[i] in r
  {
    if cs == [] then []
    else EnabledOnes(cs[..|cs| - 1]) + (if cs[|cs| - 1].enabled then [cs[|cs| - 1]] else [])
  }

  /**
   * Ticking `a` and then `b` ticks the enabled ones of each, in that order. With `EnabledOnesOne`
   * this fixes `EnabledOnes` as the enabled components in list order.
   */
  lemma {:induction false} EnabledOnesAppend(a: seq<Component>, b: seq<Component>)
    ensures EnabledOnes(a + b) == EnabledOnes(a) + EnabledOnes(b)
  {
    if b != [] {
      var b' := b[..|b| - 1];
      assert (a + b)[..|a + b| - 1] == a + b';
      assert (a + b)[|a + b| - 1] == b[|b| - 1];
      EnabledOnesAppend(a, b');
    } else {
      assert a + b == a;
    }
  }

  /** A single component is ticked exactly when it is enabled. */
  lemma EnabledOnesOne(c: Component)
    ensures EnabledOnes([c]) == if c.enabled then [c] else []
  {
    assert [c][..0] == [];
  }

  /** `Component`: the back pointer to its entity, the `enabled` switch and its dynamic class. */
  class Component {
    var owner: Entity
    var enabled: bool
    const tag: ClassTag

    /** `Component(Entity& e)`: enabled by default. */
    constructor (e: Entity, tag: ClassTag)
      ensures owner == e && enabled && this.tag == tag
    {
      owner := e;
      enabled := true;
      this.tag := tag;
    }

    /** `Component(Entity& e, bool enabled)`. */
    constructor WithEnabled(e: Entity, tag: ClassTag, enabled: bool)
      ensures owner == e && this.enabled == enabled && this.tag == tag
    {
      owner := e;
      this.enabled := enabled;
      this.tag := tag;
    }

    /** `Component::Transform()`: the transform of the owning entity, which is its slot 0. */
    method Transform() returns (t: Component)
      requires owner.Valid()
      ensures t == owner.components[0] && IsA(t.tag, TransformName)
    {
      t := owner.Transform();
    }
  }

  /** `Entity`: the owned component list. */
  class Entity {
    var components: seq<Component>

    /**
     * Slot 0 is a transform, no component is listed twice, and every component points back at
     * this entity.
     */
    ghost predicate Valid()
      reads this, components
    {
      |components| >= 1 && IsA(components[0].tag, TransformName) &&
      (forall i, j :: 0 <= i < j < |components| ==> components[i] != components[j]) &&
      (forall i :: 0 <= i < |components| ==> components[i].owner == this)
    }

    /** `Entity()`: a new entity holds exactly one component, an enabled transform. */
    constructor ()
      ensures Valid()
      ensures |components| == 1 && components[0].tag == TransformTag && components[0].enabled
      ensures fresh(components[0])
    {
      components := [];
      new;
      var _ := AddComponent(TransformTag, true);
    }

    /**
     * `AddComponent<T>(args...)`: construct a `T` owned by this entity (`enabled` is the switch its
     * constructor leaves) and append it; the result is its index. Earlier slots do not move.
     */
    method AddComponent(tag: ClassTag, enabled: bool) returns (index: nat)
      modifies this
      ensures index == |old(components)| && |components| == index + 1
      ensures components == old(components) + [components[index]]
      ensures fresh(components[index])
      ensures components[index].owner == this && components[index].tag == tag
      ensures components[index].enabled == enabled
      ensures old(Valid()) ==> Valid()
    {
      var c := new Component.WithEnabled(this, tag, enabled);
      components := components + [c];
      index := |components| - 1;
    }

    /** The move loop: point every component of the list at this entity. */
    method Adopt()
      modifies components
      ensures forall i :: 0 <= i < |components| ==> components[i].owner == this
      ensures forall i :: 0 <= i < |components| ==> components[i].enabled == old(components[i].enabled)
    {
      for i := 0 to |components|
        invariant forall j :: 0 <= j < i ==> components[j].owner == this
        invariant forall j :: 0 <= j < |components| ==> components[j].enabled == old(components[j].enabled)
      {
        components[i].owner := this;
      }
    }

    /**
     * `Entity(Entity&& other)`: take over `other`'s list, which is left empty, and re-point every
     * component at the new entity. A valid source gives a valid entity with the same list.
     */
    constructor MoveFrom(other: Entity)
      modifies other, other.components
      ensures components == old(other.components) && other.components == []
      ensures forall i :: 0 <= i < |components| ==> components[i].owner == this
      ensures old(other.Valid()) ==> Valid()
    {
      components := other.components;
      new;
      other.components := [];
      Adopt();
    }

    /**
     * `operator=(Entity&& other)`: drop this entity's list, take over `other`'s, leave `other`
     * empty and re-point every moved component at this entity.
     */
    method MoveAssign(other: Entity)
      requires other != this
      modifies this, other, other.components
      ensures components == old(other.components) && other.components == []
      ensures forall i :: 0 <= i < |components| ==> components[i].owner == this
      ensures old(other.Valid()) ==> Valid()
    {
      components := other.components;
      other.components := [];
      Adopt();
    }

    /**
     * `Tick(dt)`: visit every component in list order and tick the enabled ones. The result is
     * the components ticked, in order.
     */
    method Tick() returns (ticked: seq<Component>)
      ensures ticked == EnabledOnes(components)
    {
      ticked := [];
      for i := 0 to |components|
        invariant ticked == EnabledOnes(components[..i])
      {
        assert components[..i + 1][..i] == components[..i];
        if components[i].enabled {
          ticked := ticked + [components[i]];
        }
      }
      assert components[..|components|] == components;
    }

    /**
     * `GetComponent<T>()`: the first component in list order whose class is `T` or derives from
     * it, or none. For `TransformComponent` slot 0 is tried first, which finds the same one.
     */
    method GetComponent(target: string) returns (r: Option<Component>)
      requires target == TransformName ==> |components| >= 1
      ensures r == match FirstMatch(Tags(components), target)
        case None => None
        case Some(i) => Some(components[i])
    {
      if target == TransformName && IsA(components[0].tag, target) {
        FirstMatchUnique(Tags(components), target, 0);
        return Some(components[0]);
      }
      for i := 0 to |components|
        invariant forall j :: 0 <= j < i ==> !IsA(components[j].tag, target)
      {
        if IsA(components[i].tag, target) {
          FirstMatchUnique(Tags(components), target, i);
          return Some(components[i]);
        }
      }
      return None;
    }

    /** `Transform()`: the transform of a valid entity, which is slot 0. */
    method Transform() returns (t: Component)
      requires Valid()
      ensures t == components[0] && IsA(t.tag, TransformName)
    {
      var r := GetComponent(TransformName);
      FirstMatchUnique(Tags(components), TransformName, 0);
      t := r.value;
    }
  }
}

