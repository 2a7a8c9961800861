/**
 * The graph builder: a mapper groups its rows by a pivot column once, at
 * construction, and builds one instance per group, walking the declared
 * fields of the target class in order and filling each according to its role.
 * Relationship fields descend through a nested mapper over the current group,
 * regrouped by a join column, with the ancestor path extended by the instance
 * being built.
 */
module JooqMapper {
  import opened Wrappers
  import opened Rows
  import opened RecordUtils
  import opened Annotations
  import opened Entities
  import opened MappingErrors
  import opened AncestorTracker
  import opened MapperLogic

  class Mapper {
    const schema: Schema
    const result: seq<Row>
    const pivot: Column
    const predecessors: seq<Node>
    /** How many more nested mappers may be created below this one. */
    const depth: nat
    const indexedResult: map<Value, set<Row>>

    /**
     * The invariant every mapper keeps: well-formed classes, groups that are
     * sets of input rows sharing one non-null pivot value, and an ancestor
     * path consistent with every row of the input.
     */
    ghost predicate Valid()
    {
      && ValidSchema(schema)
      && (forall k | k in indexedResult :: indexedResult[k] <= Elements(result) && SharePivotValue(indexedResult[k], pivot))
      && PathConsistent(Elements(result), predecessors)
    }

    /** The public constructor: group the rows by the pivot, with an empty ancestor path. */
    constructor (schema: Schema, result: seq<Row>, pivot: Column, depth: nat)
      requires ValidSchema(schema)
      ensures Valid()
      ensures this.schema == schema && this.result == result && this.pivot == pivot && this.depth == depth
      ensures predecessors == [] && indexedResult == AggregateBy(result, pivot)
    {
      this.schema := schema;
      this.result := result;
      this.pivot := pivot;
      this.depth := depth;
      this.indexedResult := AggregateBy(result, pivot);
      this.predecessors := [];
      new;
      forall k | k in indexedResult
        ensures indexedResult[k] <= Elements(result) && SharePivotValue(indexedResult[k], pivot)
      {
        GroupMembers(result, pivot, k);
      }
    }

    /** The private constructor a relationship field uses, with the extended ancestor path. */
    constructor Nested(schema: Schema, result: seq<Row>, pivot: Column, predecessors: seq<Node>, depth: nat)
      requires ValidSchema(schema) && PathConsistent(Elements(result), predecessors)
      ensures Valid()
      ensures this.schema == schema && this.result == result && this.pivot == pivot && this.depth == depth
      ensures this.predecessors == predecessors && indexedResult == AggregateBy(result, pivot)
    {
      this.schema := schema;
      this.result := result;
      this.pivot := pivot;
      this.depth := depth;
      this.indexedResult := AggregateBy(result, pivot);
      this.predecessors := predecessors;
      new;
      forall k | k in indexedResult
        ensures indexedResult[k] <= Elements(result) && SharePivotValue(indexedResult[k], pivot)
      {
        GroupMembers(result, pivot, k);
      }
    }

    /**
     * For any row of the input, the reused instance is that of the first
     * ancestor with the field's class and table: the pivot values recorded on
     * the path never reject a row of the current mapping.
     */
    lemma ReuseByTypeAndTable(f: Field, rep: Row)
      requires Valid() && rep in Elements(result)
      ensures GetJooqTable(schema, f.fieldType).Failure? ==> ReusedOn(schema, predecessors, f, rep).None?
      ensures GetJooqTable(schema, f.fieldType).Success? ==>
        ReusedOn(schema, predecessors, f, rep) == FirstOfTypeAndTable(predecessors, f.fieldType, GetJooqTable(schema, f.fieldType).value)
    {
      if GetJooqTable(schema, f.fieldType).Success? {
        LookupOnConsistentPath(Elements(result), predecessors, f.fieldType, rep, GetJooqTable(schema, f.fieldType).value);
      }
    }

    /**
     * `buildStream`: one new instance per group, the groups taken in an
     * unspecified order; `keys[i]` is the pivot value of the group the `i`-th
     * instance was built from, and `reps[i]` that group's representative row.
     */
    method BuildStream(entityType: TypeName)
      returns (r: Result<seq<Instance>, Error>, ghost keys: seq<Value>, ghost reps: seq<Row>)
      requires Valid()
      decreases depth, 6
      ensures StreamOfGroups(schema, predecessors, pivot, depth, entityType, indexedResult, r, keys, reps)
      ensures r.Success? ==> |r.value| == |indexedResult| && Distinct(r.value)
      ensures r.Success? ==>
        forall i {:trigger r.value[i]} | 0 <= i < |r.value| :: fresh(r.value[i]) && r.value[i].entityType == entityType
      ensures indexedResult == map[] ==> r == Success([])
    {
      var order := StreamOf(indexedResult.Keys);
      var out: seq<Instance> := [];
      reps := [];
      for i := 0 to |order|
        invariant |out| == i && |reps| == i
        invariant Distinct(out)
        invariant forall j {:trigger out[j]} | 0 <= j < i ::
          && fresh(out[j]) && out[j].entityType == entityType
          && BuildResult(schema, predecessors, pivot, depth, entityType, Some(indexedResult[order[j]]), reps[j], Success(out[j]))
      {
        var built, rep := BuildOne(entityType, Some(indexedResult[order[i]]));
        if built.Failure? {
          assert BuildFails(schema, KeysOf(predecessors), pivot, depth, entityType, Some(indexedResult[order[i]]), rep, built.error);
          return Failure(built.error), order, reps;
        }
        out, reps := out + [built.value], reps + [rep];
      }
      r, keys := Success(out), order;
    }

    /** `build`: the instance of an arbitrary group, or of a null group when there is none. */
    method Build(entityType: TypeName) returns (r: Result<Instance, Error>)
      requires Valid()
      decreases depth, 6
      ensures r.Success? ==> fresh(r.value) && r.value.entityType == entityType
      ensures BuildOfGroups(schema, predecessors, pivot, depth, entityType, indexedResult, r)
      ensures indexedResult == map[] ==>
        (r.Failure? <==> GetJooqTable(schema, entityType).Failure? || exists i | 0 <= i < |Decl(schema, entityType).fields| :: ReadsRow(Decl(schema, entityType).fields[i]))
      ensures indexedResult == map[] && r.Success? ==> r.value.fields == map[]
    {
      ghost var rep: Row;
      if indexedResult == map[] {
        r, rep := BuildOne(entityType, None);
      } else {
        var k :| k in indexedResult;
        r, rep := BuildOne(entityType, Some(indexedResult[k]));
      }
    }

    /**
     * `buildOne`: instantiate the class and fill its declared fields in order;
     * `rep` is the group's representative row.
     */
    method BuildOne(entityType: TypeName, records: Option<set<Row>>) returns (r: Result<Instance, Error>, ghost rep: Row)
      requires Valid()
      requires records.Some? ==> records.value <= Elements(result) && SharePivotValue(records.value, pivot)
      decreases depth, 5
      ensures GetJooqTable(schema, entityType).Failure? ==> r == Failure(MissingTableBinding(entityType))
      ensures r.Success? ==> fresh(r.value)
      ensures records.None? ==> rep == map[]
      ensures BuildResult(schema, predecessors, pivot, depth, entityType, records, rep, r)
      ensures records.None? ==>
        (r.Failure? <==> GetJooqTable(schema, entityType).Failure? || exists i | 0 <= i < |Decl(schema, entityType).fields| :: ReadsRow(Decl(schema, entityType).fields[i]))
    {
      var repRow: Option<Row> := None;
      if records.Some? && records.value != {} {
        var x :| x in records.value;
        repRow := Some(x);
      }
      rep := RepOf(repRow);
      var tableResult := GetJooqTable(schema, entityType);
      if tableResult.Failure? {
        return Failure(tableResult.error), rep;
      }
      var target := new Instance(entityType);
      var outcome := FillFields(records, tableResult.value, Decl(schema, entityType).fields, target, repRow);
      if outcome.Fail? {
        return Failure(outcome.error), rep;
      }
      r := Success(target);
    }

    /**
     * The loop of `buildOne`: the declared fields, in order, each filled by its
     * role; the first field that fails stops it.
     */
    method FillFields(records: Option<set<Row>>, table: TableId, fs: seq<Field>, target: Instance, repRow: Option<Row>)
      returns (o: Outcome<Error>)
      requires Valid()
      requires records.Some? ==> records.value <= Elements(result) && SharePivotValue(records.value, pivot)
      requires repRow.Some? <==> records.Some? && records.value != {}
      requires repRow.Some? ==> repRow.value in records.value
      requires UniqueNames(fs) && target.fields == map[]
      modifies target
      decreases depth, 4
      ensures o.Pass? ==> target.fields.Keys <= Names(fs)
      ensures o.Pass? ==>
        forall i | 0 <= i < |fs| :: Filled(schema, predecessors, table, fs[i], records, RepOf(repRow), FieldOf(target.fields, fs[i].name))
      ensures o.Pass? ==>
        forall i | 0 <= i < |fs| :: FieldPasses(schema, KeysOf(predecessors), pivot, depth, target.entityType, table, fs[i], records, RepOf(repRow))
      ensures o.Fail? ==> exists i :: StopsAt(schema, KeysOf(predecessors), pivot, depth, target.entityType, table, fs, records, RepOf(repRow), i, o.error)
      ensures records.None? ==> (o.Fail? <==> exists i | 0 <= i < |fs| :: ReadsRow(fs[i]))
    {
      ghost var rep := RepOf(repRow);
      for i := 0 to |fs|
        invariant target.fields.Keys <= Names(fs[..i])
        invariant forall j | 0 <= j < i :: Filled(schema, predecessors, table, fs[j], records, rep, FieldOf(target.fields, fs[j].name))
        invariant forall j | 0 <= j < i :: FieldPasses(schema, KeysOf(predecessors), pivot, depth, target.entityType, table, fs[j], records, rep)
        invariant records.None? ==> forall j | 0 <= j < i :: !ReadsRow(fs[j])
      {
        var f := fs[i];
        ghost var before := target.fields;
        NotYetFilled(fs, target.fields, i);
        var outcome, _, _, _ := InjectField(records, table, f, target, repRow);
        if outcome.Fail? {
          StopsAtFailingField(schema, KeysOf(predecessors), pivot, depth, target.entityType, table, fs, records, rep, i, outcome.error);
          return outcome;
        }
        EarlierFieldsKept(fs, before, target.fields, i);
      }
      assert fs[..|fs|] == fs;
      o := Pass;
    }

    /**
     * One step of `buildOne`'s loop: fill field `f` according to its role.
     * `elems`, `keys` and `reps` describe the nested stream of a one-to-many
     * field.
     */
    method InjectField(records: Option<set<Row>>, table: TableId, f: Field, target: Instance, repRow: Option<Row>)
      returns (o: Outcome<Error>, ghost elems: seq<Instance>, ghost keys: seq<Value>, ghost reps: seq<Row>)
      requires Valid()
      requires records.Some? ==> records.value <= Elements(result) && SharePivotValue(records.value, pivot)
      requires repRow.Some? <==> records.Some? && records.value != {}
      requires repRow.Some? ==> repRow.value in records.value
      requires f.name !in target.fields
      modifies target
      decreases depth, 3
      ensures o.Pass? ==> FieldPasses(schema, KeysOf(predecessors), pivot, depth, target.entityType, table, f, records, RepOf(repRow))
      ensures o.Fail? ==> FieldFails(schema, KeysOf(predecessors), pivot, depth, target.entityType, table, f, records, RepOf(repRow), o.error)
      ensures records.None? ==> (o.Fail? <==> ReadsRow(f))
      ensures o.Pass? ==> target.fields - {f.name} == old(target.fields)
      ensures o.Pass? ==> Filled(schema, predecessors, table, f, records, RepOf(repRow), FieldOf(target.fields, f.name))
      ensures repRow.Some? && RoleOf(f).OneToOneRole? && LocalOutcome(schema, KeysOf(predecessors), depth, table, f, records, RepOf(repRow)).None? && o.Pass? ==>
        var column := OneToOneColumn(schema, table, f.fieldType, f.oneToOne.value).value;
        BuildOfGroups(schema, BuildPredecessors(predecessors, table, repRow.value, pivot, target), column, depth - 1, f.fieldType,
          GroupsOf(records.value, column), Success(target.fields[f.name].obj))
      ensures repRow.Some? && RoleOf(f).OneToManyRole? && LocalOutcome(schema, KeysOf(predecessors), depth, table, f, records, RepOf(repRow)).None? && o.Pass? ==>
        var spec := f.oneToMany.value;
        var join := RetrieveTableField(schema, GetJooqTable(schema, spec.targetEntity).value, spec.otherPrimaryKeyColumn).value;
        && target.fields[f.name] == Collect(CollectionKindOf(Decl(schema, f.fieldType), f.name).value, elems)
        && StreamOfGroups(schema, BuildPredecessors(predecessors, table, repRow.value, pivot, target), join, depth - 1, spec.targetEntity,
             GroupsOf(records.value, join), Success(elems), keys, reps)
      ensures repRow.Some? && RoleOf(f).EmbeddedRole? && o.Pass? ==>
        target.fields[f.name].obj.fields == EmbeddedFields(schema, table, Decl(schema, f.fieldType).fields, repRow.value).value
    {
      elems, keys, reps := [], [], [];
      match RoleOf(f)
      case LeafRole(_) =>
        if records.None? {
          return Fail(NullDereference), elems, keys, reps;
        }
        o := InjectProperty(repRow, table, f, target);
      case OneToOneRole(_) =>
        o := InjectOneToOne(records, table, f, target, repRow);
      case OneToManyRole(_) =>
        o, elems, keys, reps := InjectOneToMany(records, table, f, target, repRow);
      case EmbeddedRole =>
        if records.None? {
          return Fail(NullDereference), elems, keys, reps;
        }
        o := InjectEmbedded(repRow, table, f, target);
      case NoRole =>
        o := Pass;
    }

    /** `injectProperty`: assign the column value of the representative row, when there is one. */
    method InjectProperty(repRow: Option<Row>, table: TableId, f: Field, target: Instance) returns (o: Outcome<Error>)
      requires f.leaf.Some?
      modifies target
      ensures repRow.None? ==> o.Pass? && target.fields == old(target.fields)
      ensures repRow.Some? ==> (o.Pass? <==> LeafValue(schema, table, f.leaf.value, repRow.value).Success?)
      ensures repRow.Some? && o.Fail? ==> o.error == LeafValue(schema, table, f.leaf.value, repRow.value).error && target.fields == old(target.fields)
      ensures repRow.Some? && o.Pass? ==> target.fields == old(target.fields)[f.name := Scalar(LeafValue(schema, table, f.leaf.value, repRow.value).value)]
    {
      if repRow.None? {
        return Pass;
      }
      var column := RetrieveTableField(schema, table, f.leaf.value.column);
      if column.Failure? {
        return Fail(column.error);
      }
      var value := Get(repRow.value, column.value);
      if f.leaf.value.converter.Some? {
        value := f.leaf.value.converter.value(value);
      }
      target.InjectValue(f.name, Scalar(value));
      o := Pass;
    }

    /** `injectEmbedded`: a fresh object of the field's class whose leaf fields are read from the same row and table. */
    method InjectEmbedded(repRow: Option<Row>, table: TableId, f: Field, target: Instance) returns (o: Outcome<Error>)
      modifies target
      ensures repRow.None? ==> o.Pass? && target.fields == old(target.fields)
      ensures repRow.Some? ==> (o.Pass? <==> EmbeddedFields(schema, table, Decl(schema, f.fieldType).fields, repRow.value).Success?)
      ensures repRow.Some? && o.Fail? ==> o.error == EmbeddedFields(schema, table, Decl(schema, f.fieldType).fields, repRow.value).error
      ensures repRow.Some? && o.Pass? ==>
        && f.name in target.fields && target.fields == old(target.fields)[f.name := target.fields[f.name]]
        && target.fields[f.name].Ref? && fresh(target.fields[f.name].obj)
        && target.fields[f.name].obj.entityType == f.fieldType
        && target.fields[f.name].obj.fields == EmbeddedFields(schema, table, Decl(schema, f.fieldType).fields, repRow.value).value
    {
      if repRow.None? {
        return Pass;
      }
      var embedded := new Instance(f.fieldType);
      var inner := Decl(schema, f.fieldType).fields;
      for i := 0 to |inner|
        invariant EmbeddedFields(schema, table, inner[..i], repRow.value).Success?
        invariant embedded.fields == EmbeddedFields(schema, table, inner[..i], repRow.value).value
        invariant target.fields == old(target.fields)
      {
        assert inner[..i + 1][..i] == inner[..i];
        if inner[i].leaf.Some? {
          var property := InjectProperty(repRow, table, inner[i], embedded);
          if property.Fail? {
            EmbeddedFieldsPrefixFailure(schema, table, inner, i + 1, repRow.value);
            return Fail(property.error);
          }
        }
      }
      assert inner[..|inner|] == inner;
      target.InjectValue(f.name, Ref(embedded));
      o := Pass;
    }

    /**
     * `injectOneToOne`: reuse the instance of a matching ancestor, otherwise
     * build the field's class with a nested mapper over the group regrouped by
     * the join column, on the path extended by `target`.
     */
    method InjectOneToOne(records: Option<set<Row>>, table: TableId, f: Field, target: Instance, repRow: Option<Row>)
      returns (o: Outcome<Error>)
      requires Valid() && RoleOf(f).OneToOneRole?
      requires records.Some? ==> records.value <= Elements(result) && SharePivotValue(records.value, pivot)
      requires repRow.Some? <==> records.Some? && records.value != {}
      requires repRow.Some? ==> repRow.value in records.value
      modifies target
      decreases depth, 2
      ensures repRow.None? ==> o.Pass? && target.fields == old(target.fields)
      ensures o.Pass? ==> FieldPasses(schema, KeysOf(predecessors), pivot, depth, target.entityType, table, f, records, RepOf(repRow))
      ensures o.Fail? ==> FieldFails(schema, KeysOf(predecessors), pivot, depth, target.entityType, table, f, records, RepOf(repRow), o.error)
      ensures repRow.Some? && o.Pass? ==>
        && f.name in target.fields && target.fields == old(target.fields)[f.name := target.fields[f.name]]
        && FilledOneToOne(schema, predecessors, table, f, f.oneToOne.value, repRow.value, FieldOf(target.fields, f.name))
        && (ReusedOn(schema, predecessors, f, repRow.value).None? ==> fresh(target.fields[f.name].obj))
      ensures repRow.Some? && LocalOutcome(schema, KeysOf(predecessors), depth, table, f, records, RepOf(repRow)).None? && o.Pass? ==>
        var column := OneToOneColumn(schema, table, f.fieldType, f.oneToOne.value).value;
        BuildOfGroups(schema, BuildPredecessors(predecessors, table, repRow.value, pivot, target), column, depth - 1, f.fieldType,
          GroupsOf(records.value, column), Success(target.fields[f.name].obj))
    {
      if records.None? || records.value == {} {
        return Pass;
      }
      ghost var keys, rep := KeysOf(predecessors), repRow.value;
      ghost var lo := LocalOutcome(schema, keys, depth, table, f, records, rep);
      var spec := f.oneToOne.value;
      var column := OneToOneColumn(schema, table, f.fieldType, spec);
      if column.Failure? {
        assert lo == Some(Fail(column.error));
        return Fail(column.error);
      }
      var targetTable := GetJooqTable(schema, f.fieldType);
      if targetTable.Failure? {
        assert lo == Some(Fail(targetTable.error));
        return Fail(targetTable.error);
      }
      // On the mapper's own, consistent path the lookup does not throw.
      LookupOnConsistentPath(Elements(result), predecessors, f.fieldType, repRow.value, targetTable.value);
      var found := FindAmongPredecessors(predecessors, f.fieldType, repRow.value, targetTable.value);
      if found.value.Some? {
        assert lo == Some(Pass);
        target.InjectValue(f.name, Ref(found.value.value));
        return Pass;
      }
      if depth == 0 {
        assert lo == Some(Fail(DepthExceeded));
        return Fail(DepthExceeded);
      }
      assert lo.None?;
      var built := BuildRelated(records.value, table, f, target, repRow.value, column.value);
      if built.Failure? {
        return Fail(built.error);
      }
      target.InjectValue(f.name, Ref(built.value));
      o := Pass;
    }

    /**
     * The object of a one-to-one field that no ancestor provides: `build` of
     * the field's class on a nested mapper over the group, pivoting on the
     * join column and with the path extended by `target`.
     */
    method BuildRelated(records: set<Row>, table: TableId, f: Field, target: Instance, rep: Row, column: Column)
      returns (r: Result<Instance, Error>)
      requires Valid() && depth > 0 && RoleOf(f).OneToOneRole?
      requires OneToOneColumn(schema, table, f.fieldType, f.oneToOne.value) == Success(column)
      requires records <= Elements(result) && SharePivotValue(records, pivot) && rep in records
      decreases depth, 1
      ensures r.Success? ==> fresh(r.value) && r.value.entityType == f.fieldType
      ensures r.Success? ==> NestedPasses(schema, KeysOf(predecessors), pivot, depth, target.entityType, table, f, Some(records), rep)
      ensures r.Failure? ==> NestedFails(schema, KeysOf(predecessors), pivot, depth, target.entityType, table, f, Some(records), rep, r.error)
      ensures BuildOfGroups(schema, BuildPredecessors(predecessors, table, rep, pivot, target), column, depth - 1, f.fieldType,
        GroupsOf(records, column), r)
    {
      var nested := NestedOver(records, table, rep, column, target);
      r := nested.Build(f.fieldType);
      OneToOneNestedOfBuild(schema, predecessors, pivot, depth, target, table, f, records, rep, column, r);
    }

    /**
     * `injectOneToMany`: one element per distinct non-null join key among the
     * group's rows, collected as the field's collection type demands. The
     * element stream is lazy, so the field type is tested before any element
     * is built. `elems`, `keys` and `reps` describe the nested stream.
     */
    method InjectOneToMany(records: Option<set<Row>>, table: TableId, f: Field, target: Instance, repRow: Option<Row>)
      returns (o: Outcome<Error>, ghost elems: seq<Instance>, ghost keys: seq<Value>, ghost reps: seq<Row>)
      requires Valid() && RoleOf(f).OneToManyRole?
      requires records.Some? ==> records.value <= Elements(result) && SharePivotValue(records.value, pivot)
      requires repRow.Some? <==> records.Some? && records.value != {}
      requires repRow.Some? ==> repRow.value in records.value
      modifies target
      decreases depth, 2
      ensures repRow.None? ==> o.Pass? && target.fields == old(target.fields)
      ensures o.Pass? ==> FieldPasses(schema, KeysOf(predecessors), pivot, depth, target.entityType, table, f, records, RepOf(repRow))
      ensures o.Fail? ==> FieldFails(schema, KeysOf(predecessors), pivot, depth, target.entityType, table, f, records, RepOf(repRow), o.error)
      ensures repRow.Some? && o.Pass? ==>
        && f.name in target.fields && target.fields == old(target.fields)[f.name := target.fields[f.name]]
        && FilledOneToMany(schema, f, f.oneToMany.value, records.value, FieldOf(target.fields, f.name))
        && (target.fields[f.name].SetOf? ==> forall x | x in target.fields[f.name].elements :: fresh(x))
        && (target.fields[f.name].ListOf? ==> forall i | 0 <= i < |target.fields[f.name].items| :: fresh(target.fields[f.name].items[i]))
      ensures repRow.Some? && LocalOutcome(schema, KeysOf(predecessors), depth, table, f, records, RepOf(repRow)).None? && o.Pass? ==>
        var spec := f.oneToMany.value;
        var join := RetrieveTableField(schema, GetJooqTable(schema, spec.targetEntity).value, spec.otherPrimaryKeyColumn).value;
        && target.fields[f.name] == Collect(CollectionKindOf(Decl(schema, f.fieldType), f.name).value, elems)
        && StreamOfGroups(schema, BuildPredecessors(predecessors, table, repRow.value, pivot, target), join, depth - 1, spec.targetEntity,
             GroupsOf(records.value, join), Success(elems), keys, reps)
    {
      elems, keys, reps := [], [], [];
      if records.None? || records.value == {} {
        return Pass, elems, keys, reps;
      }
      var spec := f.oneToMany.value;
      var targetTable := GetJooqTable(schema, spec.targetEntity);
      if targetTable.Failure? {
        return Fail(targetTable.error), elems, keys, reps;
      }
      var column := RetrieveTableField(schema, targetTable.value, spec.otherPrimaryKeyColumn);
      if column.Failure? {
        return Fail(column.error), elems, keys, reps;
      }
      var kind := CollectionKindOf(Decl(schema, f.fieldType), f.name);
      if kind.Failure? {
        return Fail(kind.error), elems, keys, reps;
      }
      if depth == 0 {
        return Fail(DepthExceeded), elems, keys, reps;
      }
      var collection;
      collection, elems, keys, reps := BuildElements(records.value, table, f, target, repRow.value, column.value, kind.value, spec.targetEntity);
      if collection.Failure? {
        return Fail(collection.error), elems, keys, reps;
      }
      target.InjectValue(f.name, collection.value);
      o := Pass;
    }

    /**
     * The collection of a one-to-many field: a nested mapper over the group,
     * pivoting on the join column and with the path extended by `target`,
     * builds one element per distinct non-null join value, and the elements
     * are collected as `kind` says.
     */
    method BuildElements(records: set<Row>, table: TableId, f: Field, target: Instance, rep: Row, column: Column, kind: CollectionKind,
                         targetEntity: TypeName)
      returns (r: Result<FieldValue, Error>, ghost elems: seq<Instance>, ghost keys: seq<Value>, ghost reps: seq<Row>)
      requires Valid() && depth > 0 && RoleOf(f).OneToManyRole? && f.oneToMany.value.targetEntity == targetEntity
      requires GetJooqTable(schema, targetEntity).Success?
      requires RetrieveTableField(schema, GetJooqTable(schema, targetEntity).value, f.oneToMany.value.otherPrimaryKeyColumn) == Success(column)
      requires records <= Elements(result) && SharePivotValue(records, pivot) && rep in records
      decreases depth, 1
      ensures r.Success? ==> NestedPasses(schema, KeysOf(predecessors), pivot, depth, target.entityType, table, f, Some(records), rep)
      ensures r.Failure? ==> NestedFails(schema, KeysOf(predecessors), pivot, depth, target.entityType, table, f, Some(records), rep, r.error)
      ensures r.Success? && kind == SetKind ==>
        && r.value.SetOf? && |r.value.elements| == |KeyValues(records, column)|
        && forall x | x in r.value.elements :: fresh(x) && x.entityType == targetEntity
      ensures r.Success? && kind == ListKind ==>
        && r.value.ListOf? && |r.value.items| == |KeyValues(records, column)| && Distinct(r.value.items)
        && forall i | 0 <= i < |r.value.items| :: fresh(r.value.items[i]) && r.value.items[i].entityType == targetEntity
      ensures r.Success? ==> r.value == Collect(kind, elems)
      ensures r.Success? ==>
        StreamOfGroups(schema, BuildPredecessors(predecessors, table, rep, pivot, target), column, depth - 1, targetEntity,
          GroupsOf(records, column), Success(elems), keys, reps)
    {
      var built;
      built, keys, reps := StreamRelated(records, table, f, target, rep, column, targetEntity);
      if built.Failure? {
        return Failure(built.error), [], keys, reps;
      }
      elems := built.value;
      if kind == SetKind {
        DistinctCard(built.value);
      }
      r := Success(Collect(kind, built.value));
    }

    /**
     * The nested `buildStream` of a one-to-many field: one element of the
     * target class per value of the join column among the group's rows.
     */
    method StreamRelated(records: set<Row>, table: TableId, f: Field, target: Instance, rep: Row, column: Column, targetEntity: TypeName)
      returns (built: Result<seq<Instance>, Error>, ghost keys: seq<Value>, ghost reps: seq<Row>)
      requires Valid() && depth > 0 && RoleOf(f).OneToManyRole? && f.oneToMany.value.targetEntity == targetEntity
      requires GetJooqTable(schema, targetEntity).Success?
      requires RetrieveTableField(schema, GetJooqTable(schema, targetEntity).value, f.oneToMany.value.otherPrimaryKeyColumn) == Success(column)
      requires records <= Elements(result) && SharePivotValue(records, pivot) && rep in records
      decreases depth, 0
      ensures built.Success? ==> NestedPasses(schema, KeysOf(predecessors), pivot, depth, target.entityType, table, f, Some(records), rep)
      ensures built.Failure? ==> NestedFails(schema, KeysOf(predecessors), pivot, depth, target.entityType, table, f, Some(records), rep, built.error)
      ensures built.Success? ==> |built.value| == |KeyValues(records, column)| && Distinct(built.value)
      ensures built.Success? ==>
        forall i {:trigger built.value[i]} | 0 <= i < |built.value| :: fresh(built.value[i]) && built.value[i].entityType == targetEntity
      ensures built.Success? ==>
        StreamOfGroups(schema, BuildPredecessors(predecessors, table, rep, pivot, target), column, depth - 1, targetEntity,
          GroupsOf(records, column), built, keys, reps)
    {
      var nested := NestedOver(records, table, rep, column, target);
      assert nested.indexedResult.Keys == KeyValues(records, column);
      built, keys, reps := nested.BuildStream(targetEntity);
      OneToManyNestedOfStream(schema, predecessors, pivot, depth, target, table, f, records, rep, column, built, keys, reps);
    }

    /**
     * The nested mapper a relationship field descends through: over the rows
     * of the group, regrouped by `column`, with the ancestor path extended by
     * the instance being built and one level fewer to go.
     */
    method NestedOver(records: set<Row>, table: TableId, rep: Row, column: Column, target: Instance) returns (nested: Mapper)
      requires Valid() && depth > 0
      requires records <= Elements(result) && SharePivotValue(records, pivot) && rep in records
      ensures fresh(nested) && nested.Valid()
      ensures nested.schema == schema && nested.pivot == column && nested.depth == depth - 1
      ensures nested.predecessors == BuildPredecessors(predecessors, table, rep, pivot, target)
      ensures nested.indexedResult == GroupsOf(records, column)
    {
      var stream := StreamOf(records);
      assert Elements(stream) == records;
      var path := BuildPredecessors(predecessors, table, rep, pivot, target);
      ExtendKeepsConsistent(Elements(result), records, predecessors, table, rep, pivot, target);
      nested := new Mapper.Nested(schema, stream, column, path, depth - 1);
      AggregateByIsGroupsOf(stream, column);
    }
  }

  /**
   * Filling field `fs[i]` leaves the earlier fields as they were, and the
   * assigned names stay among the names filled so far.
   */
  lemma EarlierFieldsKept(fs: seq<Field>, before: map<FieldName, FieldValue>, after: map<FieldName, FieldValue>, i: nat)
    requires UniqueNames(fs) && i < |fs|
    requires before.Keys <= Names(fs[..i]) && after - {fs[i].name} == before
    ensures after.Keys <= Names(fs[..i + 1])
    ensures forall j | 0 <= j < i :: FieldOf(after, fs[j].name) == FieldOf(before, fs[j].name)
  {
    forall j | 0 <= j < i
      ensures FieldOf(after, fs[j].name) == FieldOf(before, fs[j].name)
    {
      FieldOfOutside(before, after, fs[i].name, fs[j].name);
    }
    assert Names(fs[..i + 1]) == Names(fs[..i]) + {fs[i].name} by {
      assert fs[..i + 1] == fs[..i] + [fs[i]];
    }
  }

  /** By the names being distinct, field `fs[i]` is not among those filled before it. */
  lemma NotYetFilled(fs: seq<Field>, fields: map<FieldName, FieldValue>, i: nat)
    requires UniqueNames(fs) && i < |fs|
    requires fields.Keys <= Names(fs[..i])
    ensures fs[i].name !in fields
  {
    assert forall k | 0 <= k < i :: fs[..i][k].name != fs[i].name;
  }

  /** Assigning one field leaves the value of every other field as it was. */
  lemma FieldOfOutside(before: map<FieldName, FieldValue>, after: map<FieldName, FieldValue>, name: FieldName, other: FieldName)
    requires after - {name} == before && other != name
    ensures FieldOf(after, other) == FieldOf(before, other)
  {
    assert other in after <==> other in after - {name};
    if other in after {
      assert after[other] == (after - {name})[other];
    }
  }
}
