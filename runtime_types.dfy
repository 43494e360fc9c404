/**
 * The dynamic types of the component objects of as6/src/CO.hpp and as7/src/CO.hpp, as far as
 * `dynamic_cast<T*>` can observe them, and the first-match search that both `GetComponent<T>`
 * loops perform.
 */
module RuntimeTypes {
  import opened Common

  /**
   * The dynamic class of a component object, as its lineage: the most derived class first, then
   * each base class in turn up to `Component` (single inheritance).
   */
  datatype ClassTag = ClassTag(lineage: seq<string>)

  const ComponentName: string := "Component"
  const TransformName: string := "TransformComponent"

  /** The class of an object built by `make_unique<TransformComponent>`. */
  const TransformTag: ClassTag := ClassTag([TransformName, ComponentName])

  /** `dynamic_cast<T*>(c)` is non-null: the object's class is `T` or derives from it. */
  predicate IsA(tag: ClassTag, target: string) {
    target in tag.lineage
  }

  /** The position of the first tag at or after `k` that is a `target`, if any. */
  function FirstFrom(tags: seq<ClassTag>, target: string, k: nat): (r: Option<nat>)
    requires k <= |tags|
    ensures r.Some? ==> k <= r.value < |tags| && IsA(tags[r.value], target)
    ensures r.Some? ==> forall j :: k <= j < r.value ==> !IsA(tags[j], target)
    ensures r.None? ==> forall j :: k <= j < |tags| ==> !IsA(tags[j], target)
    decreases |tags| - k
  {
    if k == |tags| then None
    else if IsA(tags[k], target) then Some(k)
    else FirstFrom(tags, target, k + 1)
  }

  /** What a scan of the component list in order, returning at the first successful cast, finds. */
  function FirstMatch(tags: seq<ClassTag>, target: string): (r: Option<nat>)
    ensures r.Some? ==> r.value < |tags| && IsA(tags[r.value], target)
    ensures r.Some? ==> forall j :: 0 <= j < r.value ==> !IsA(tags[j], target)
    ensures r.None? ==> forall j :: 0 <= j < |tags| ==> !IsA(tags[j], target)
  {
    FirstFrom(tags, target, 0)
  }

  /** The three properties above pin the result down: a position that has them is the first match. */
  lemma FirstMatchUnique(tags: seq<ClassTag>, target: string, i: nat)
    requires i < |tags| && IsA(tags[i], target)
    requires forall j :: 0 <= j < i ==> !IsA(tags[j], target)
    ensures FirstMatch(tags, target) == Some(i)
  {
  }

  /** Appending a component does not change an existing first match. */
  lemma FirstMatchAppend(tags: seq<ClassTag>, target: string, t: ClassTag)
    ensures FirstMatch(tags, target).Some? ==> FirstMatch(tags + [t], target) == FirstMatch(tags, target)
    ensures FirstMatch(tags, target).None? ==>
      FirstMatch(tags + [t], target) == if IsA(t, target) then Some(|tags|) else None
  {
    var tags' := tags + [t];
    var r := FirstMatch(tags', target);
    if FirstMatch(tags, target).Some? {
      var i := FirstMatch(tags, target).value;
      assert tags'[i] == tags[i];
      FirstMatchUnique(tags', target, i);
    } else if IsA(t, target) {
      FirstMatchUnique(tags', target, |tags|);
    } else {
      assert forall j :: 0 <= j < |tags'| ==> tags'[j] == if j < |tags| then tags[j] else t;
    }
  }
}
