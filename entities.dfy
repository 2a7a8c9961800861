/**
 * The objects the mapper builds. Reflection (`newInstance`, `Field.set`) is
 * replaced by a class whose state is the map from field name to assigned
 * value; a field absent from the map was never assigned.
 */
module Entities {
  import opened Wrappers
  import opened Rows
  import opened Annotations

  /** What a field can be assigned: a column value, an object, or a collection of objects. */
  datatype FieldValue =
    | Scalar(value: Option<Value>)
    | Ref(obj: Instance)
    | SetOf(elements: set<Instance>)
    | ListOf(items: seq<Instance>)

  /** An instance of a mapped class; object identity is what cycle reuse preserves. */
  class Instance {
    const entityType: TypeName
    var fields: map<FieldName, FieldValue>

    /** `type.newInstance()`: a zero-value object with no field assigned. */
    constructor (entityType: TypeName)
      ensures this.entityType == entityType && fields == map[]
    {
      this.entityType := entityType;
      fields := map[];
    }

    /** `injectValue`: assign one field. */
    method InjectValue(name: FieldName, v: FieldValue)
      modifies this
      ensures fields == old(fields)[name := v]
    {
      fields := fields[name := v];
    }
  }

  /** Pairwise distinct references. */
  predicate Distinct(s: seq<Instance>)
  {
    forall i, j | 0 <= i < j < |s| :: s[i] != s[j]
  }

  /** A sequence without repetitions has as many distinct elements as positions. */
  lemma {:induction false} DistinctCard(s: seq<Instance>)
    requires Distinct(s)
    ensures |set x | x in s| == |s|
  {
    if s != [] {
      var init := s[..|s| - 1];
      assert s == init + [s[|s| - 1]];
      assert (set x | x in s) == (set x | x in init) + {s[|s| - 1]};
      DistinctCard(init);
    }
  }
}
