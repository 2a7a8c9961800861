/**
 * The pure part of the graph builder: the table and column lookups, the
 * checks each field passes when it is reached, and what a built instance
 * holds.
 */
module MapperLogic {
  import opened Wrappers
  import opened Rows
  import opened RecordUtils
  import opened Annotations
  import opened Entities
  import opened MappingErrors
  import opened AncestorTracker

  /** `getJooqTable`: the table a class is bound to, or an error when it carries no binding. */
  function GetJooqTable(s: Schema, t: TypeName): (r: Result<TableId, Error>)
    ensures r.Success? <==> Decl(s, t).table.Some?
    ensures r.Success? ==> r.value == Decl(s, t).table.value
    ensures r.Failure? ==> r.error == MissingTableBinding(t)
  {
    match Decl(s, t).table
    case Some(table) => Success(table)
    case None => Failure(MissingTableBinding(t))
  }

  /** `retrieveTableField`: the column of that name on the bound table, or an error when the table declares none. */
  function RetrieveTableField(s: Schema, table: TableId, columnName: string): (r: Result<Column, Error>)
    ensures r.Success? <==> columnName in TableColumns(s, table)
    ensures r.Success? ==> r.value == Column(table, columnName)
    ensures r.Failure? ==> r.error == UnknownColumn(table, columnName)
  {
    if columnName in TableColumns(s, table) then Success(Column(table, columnName))
    else Failure(UnknownColumn(table, columnName))
  }

  /** The value `injectProperty` assigns: the bound table's column read from the row, through the converter if any. */
  function LeafValue(s: Schema, table: TableId, spec: LeafSpec, row: Row): (r: Result<Option<Value>, Error>)
    ensures r.Success? <==> spec.column in TableColumns(s, table)
    ensures r.Failure? ==> r.error == UnknownColumn(table, spec.column)
    ensures r.Success? && spec.converter.None? ==> r.value == Get(row, Column(table, spec.column))
    ensures r.Success? && spec.converter.Some? ==> r.value == spec.converter.value(Get(row, Column(table, spec.column)))
  {
    var column :- RetrieveTableField(s, table, spec.column);
    var raw := Get(row, column);
    if spec.converter.Some? then Success(spec.converter.value(raw)) else Success(raw)
  }

  /** The names of the fields that carry a leaf annotation. */
  function LeafNames(fs: seq<Field>): set<FieldName>
  {
    set i | 0 <= i < |fs| && fs[i].leaf.Some? :: fs[i].name
  }

  /**
   * The fields of an embedded object: its leaf fields, in declaration order,
   * read from one row against the enclosing class's table; its other fields
   * are left alone. The first unknown column is the error.
   */
  function EmbeddedFields(s: Schema, table: TableId, inner: seq<Field>, row: Row): (r: Result<map<FieldName, FieldValue>, Error>)
    ensures r.Failure? ==> r.error.UnknownColumn? && r.error.table == table
    decreases |inner|
  {
    if inner == [] then Success(map[])
    else
      var m :- EmbeddedFields(s, table, inner[..|inner| - 1], row);
      var f := inner[|inner| - 1];
      if f.leaf.Some? then
        var v :- LeafValue(s, table, f.leaf.value, row);
        Success(m[f.name := Scalar(v)])
      else Success(m)
  }

  /** An embedded object is filled exactly when every leaf column of its class exists on the table. */
  lemma {:induction false} EmbeddedFieldsSucceeds(s: Schema, table: TableId, inner: seq<Field>, row: Row)
    ensures EmbeddedFields(s, table, inner, row).Success? <==>
      forall i | 0 <= i < |inner| && inner[i].leaf.Some? :: inner[i].leaf.value.column in TableColumns(s, table)
    decreases |inner|
  {
    if inner != [] {
      var init := inner[..|inner| - 1];
      assert forall i | 0 <= i < |init| :: init[i] == inner[i];
      EmbeddedFieldsSucceeds(s, table, init, row);
    }
  }

  /**
   * A filled embedded object assigns exactly its leaf fields, each the value
   * its column reads from the row.
   */
  lemma {:induction false} EmbeddedFieldsAssigns(s: Schema, table: TableId, inner: seq<Field>, row: Row)
    requires EmbeddedFields(s, table, inner, row).Success?
    ensures EmbeddedFields(s, table, inner, row).value.Keys == LeafNames(inner)
    ensures UniqueNames(inner) ==>
      forall i | 0 <= i < |inner| && inner[i].leaf.Some? ::
        && LeafValue(s, table, inner[i].leaf.value, row).Success?
        && EmbeddedFields(s, table, inner, row).value[inner[i].name] == Scalar(LeafValue(s, table, inner[i].leaf.value, row).value)
    decreases |inner|
  {
    if inner != [] {
      var init := inner[..|inner| - 1];
      var f := inner[|inner| - 1];
      assert forall i | 0 <= i < |init| :: init[i] == inner[i];
      assert LeafNames(inner) == LeafNames(init) + (if f.leaf.Some? then {f.name} else {});
      EmbeddedFieldsAssigns(s, table, init, row);
    }
  }

  /** A failure on a prefix of the inner fields is the failure of the whole embedded object. */
  lemma {:induction false} EmbeddedFieldsPrefixFailure(s: Schema, table: TableId, inner: seq<Field>, k: nat, row: Row)
    requires k <= |inner| && EmbeddedFields(s, table, inner[..k], row).Failure?
    ensures EmbeddedFields(s, table, inner, row) == EmbeddedFields(s, table, inner[..k], row)
    decreases |inner|
  {
    if k < |inner| {
      var init := inner[..|inner| - 1];
      assert init[..k] == inner[..k];
      EmbeddedFieldsPrefixFailure(s, table, init, k, row);
    } else {
      assert inner[..k] == inner;
    }
  }

  /**
   * The join column of a one-to-one field: on the current table, or on the
   * table of the field's own class.
   */
  function OneToOneColumn(s: Schema, table: TableId, targetType: TypeName, spec: OneToOneSpec): (r: Result<Column, Error>)
    ensures spec.targetTable == This ==> r == RetrieveTableField(s, table, spec.column)
    ensures spec.targetTable == Other && Decl(s, targetType).table.None? ==> r == Failure(MissingTableBinding(targetType))
    ensures spec.targetTable == Other && Decl(s, targetType).table.Some? ==> r == RetrieveTableField(s, Decl(s, targetType).table.value, spec.column)
  {
    if spec.targetTable == This then RetrieveTableField(s, table, spec.column)
    else
      var other :- GetJooqTable(s, targetType);
      RetrieveTableField(s, other, spec.column)
  }

  datatype CollectionKind = SetKind | ListKind

  /** The type test of `convertStream`: a `Set` type first, then a `List` type, anything else an error. */
  function CollectionKindOf(fieldType: TypeDecl, fieldName: FieldName): (r: Result<CollectionKind, Error>)
    ensures r == Success(SetKind) <==> fieldType.isSet
    ensures r == Success(ListKind) <==> !fieldType.isSet && fieldType.isList
    ensures r.Failure? <==> !fieldType.isSet && !fieldType.isList
    ensures r.Failure? ==> r.error == UnsupportedCollection(fieldName)
  {
    if fieldType.isSet then Success(SetKind)
    else if fieldType.isList then Success(ListKind)
    else Failure(UnsupportedCollection(fieldName))
  }

  /** The collecting step of `convertStream`: build a set or keep the stream's order in a list. */
  function Collect(kind: CollectionKind, elems: seq<Instance>): (r: FieldValue)
    ensures kind == SetKind ==> r.SetOf? && (forall x | x in r.elements :: x in elems) && (forall i | 0 <= i < |elems| :: elems[i] in r.elements)
    ensures kind == ListKind ==> r == ListOf(elems)
  {
    match kind
    case SetKind => SetOf(set x | x in elems)
    case ListKind => ListOf(elems)
  }

  /** `stream()` over a hash-based collection: each element once, in an unspecified order. */
  method StreamOf<T>(s: set<T>) returns (out: seq<T>)
    ensures |out| == |s|
    ensures forall x :: x in out <==> x in s
    ensures forall i, j | 0 <= i < j < |out| :: out[i] != out[j]
  {
    out := [];
    var rest := s;
    while rest != {}
      invariant rest <= s
      invariant |out| + |rest| == |s|
      invariant forall x :: x in out <==> x in s && x !in rest
      invariant forall i, j | 0 <= i < j < |out| :: out[i] != out[j]
      decreases rest
    {
      var x :| x in rest;
      out := out + [x];
      rest := rest - {x};
    }
  }

  /** The value a field holds, if it was assigned. */
  function FieldOf(fields: map<FieldName, FieldValue>, name: FieldName): Option<FieldValue>
  {
    if name in fields then Some(fields[name]) else None
  }

  /** Every row of the group carries the same non-null value in the pivot column. */
  ghost predicate SharePivotValue(group: set<Row>, pivot: Column)
  {
    exists v :: forall x | x in group :: Get(x, pivot) == Some(v)
  }

  /** The field has a role that reads a row: leaf or embedded. */
  predicate ReadsRow(f: Field)
  {
    RoleOf(f).LeafRole? || RoleOf(f).EmbeddedRole?
  }

  /** The representative row of a group: its first row, or an empty row when there is none. */
  function RepOf(repRow: Option<Row>): Row
  {
    if repRow.Some? then repRow.value else map[]
  }

  /**
   * The instance a one-to-one field reuses from the ancestor path `path`, if
   * any. A lookup that throws gives none here; `LocalOutcome` reports that
   * error before reuse is consulted, and on a consistent path it never arises
   * (`LookupOnConsistentPath`).
   */
  function ReusedOn(s: Schema, path: seq<Node>, f: Field, rep: Row): Option<Instance>
  {
    match GetJooqTable(s, f.fieldType)
    case Failure(_) => None
    case Success(t) =>
      match FindAmongPredecessors(path, f.fieldType, rep, t)
      case Success(found) => found
      case Failure(_) => None
  }

  /** A leaf field holds the converted column value of the representative row. */
  ghost predicate FilledLeaf(s: Schema, table: TableId, spec: LeafSpec, rep: Row, v: Option<FieldValue>)
  {
    LeafValue(s, table, spec, rep).Success? && v == Some(Scalar(LeafValue(s, table, spec, rep).value))
  }

  /** An embedded field holds an object of the field's class. */
  ghost predicate FilledEmbedded(s: Schema, table: TableId, f: Field, rep: Row, v: Option<FieldValue>)
  {
    && EmbeddedFields(s, table, Decl(s, f.fieldType).fields, rep).Success?
    && v.Some? && v.value.Ref? && v.value.obj.entityType == f.fieldType
  }

  /** A one-to-one field holds the ancestor reused from `path`, or else an instance of the field's class. */
  ghost predicate FilledOneToOne(s: Schema, path: seq<Node>, table: TableId, f: Field, spec: OneToOneSpec, rep: Row, v: Option<FieldValue>)
  {
    && OneToOneColumn(s, table, f.fieldType, spec).Success?
    && GetJooqTable(s, f.fieldType).Success?
    && v.Some? && v.value.Ref?
    && (ReusedOn(s, path, f, rep).Some? ==> v.value.obj == ReusedOn(s, path, f, rep).value)
    && (ReusedOn(s, path, f, rep).None? ==> v.value.obj.entityType == f.fieldType)
  }

  /**
   * A one-to-many field holds one element of the target class per distinct
   * non-null join value in the group, in a set or a list as its type demands.
   */
  ghost predicate FilledOneToMany(s: Schema, f: Field, spec: OneToManySpec, records: set<Row>, v: Option<FieldValue>)
  {
    && GetJooqTable(s, spec.targetEntity).Success?
    && var join := RetrieveTableField(s, GetJooqTable(s, spec.targetEntity).value, spec.otherPrimaryKeyColumn);
    && join.Success?
    && CollectionKindOf(Decl(s, f.fieldType), f.name).Success?
    && v.Some?
    && match CollectionKindOf(Decl(s, f.fieldType), f.name).value
       case SetKind =>
         && v.value.SetOf?
         && |v.value.elements| == |KeyValues(records, join.value)|
         && (forall x | x in v.value.elements :: x.entityType == spec.targetEntity)
       case ListKind =>
         && v.value.ListOf?
         && |v.value.items| == |KeyValues(records, join.value)| && Distinct(v.value.items)
         && (forall i | 0 <= i < |v.value.items| :: v.value.items[i].entityType == spec.targetEntity)
  }

  /**
   * What field `f` holds once `buildOne` has processed it for `records` on
   * the ancestor path `path`, `rep` being the group's representative row:
   * nothing for an absent or empty group and for a field without a role;
   * otherwise what its role computes.
   */
  ghost predicate Filled(s: Schema, path: seq<Node>, table: TableId, f: Field, records: Option<set<Row>>, rep: Row, v: Option<FieldValue>)
  {
    if records.None? || records.value == {} then v.None?
    else
      match RoleOf(f)
      case NoRole => v.None?
      case LeafRole(spec) => FilledLeaf(s, table, spec, rep, v)
      case EmbeddedRole => FilledEmbedded(s, table, f, rep, v)
      case OneToOneRole(spec) => FilledOneToOne(s, path, table, f, spec, rep, v)
      case OneToManyRole(spec) => FilledOneToMany(s, f, spec, records.value, v)
  }

  /**
   * `fields` is what `buildOne` assigns for `records`: every declared field
   * of the class filled by its role from the representative row `rep`, and
   * no other field assigned.
   */
  ghost predicate FieldsBuilt(s: Schema, path: seq<Node>, entityType: TypeName, fields: map<FieldName, FieldValue>, records: Option<set<Row>>, rep: Row)
  {
    && GetJooqTable(s, entityType).Success?
    && (records.Some? && records.value != {} ==> rep in records.value)
    && fields.Keys <= Names(Decl(s, entityType).fields)
    && forall i | 0 <= i < |Decl(s, entityType).fields| ::
         Filled(s, path, GetJooqTable(s, entityType).value, Decl(s, entityType).fields[i], records, rep,
           FieldOf(fields, Decl(s, entityType).fields[i].name))
  }

  /** `x` is an instance of the class that `buildOne` built from `records` on the ancestor path `path`. */
  ghost predicate Built(s: Schema, path: seq<Node>, entityType: TypeName, x: Instance, records: Option<set<Row>>, rep: Row)
    reads x
  {
    x.entityType == entityType && FieldsBuilt(s, path, entityType, x.fields, records, rep)
  }

  function OutcomeOf<T>(r: Result<T, Error>): Outcome<Error>
  {
    if r.Success? then Pass else Fail(r.error)
  }

  /**
   * What the checks of field `f` decide when `buildOne` reaches it on a path
   * with node keys `keys`, `depth` being how many nested mappers may still be
   * created: the outcome, or none when the field starts a nested build and
   * that build decides.
   */
  function LocalOutcome(s: Schema, keys: seq<NodeKey>, depth: nat, table: TableId, f: Field, records: Option<set<Row>>, rep: Row): (r: Option<Outcome<Error>>)
    ensures r.None? ==>
      && depth > 0 && records.Some? && records.value != {}
      && (|| (RoleOf(f).OneToOneRole? && GetJooqTable(s, f.fieldType).Success? &&
              LookupKeys(keys, f.fieldType, rep, GetJooqTable(s, f.fieldType).value).NotFound?)
          || RoleOf(f).OneToManyRole?)
    ensures r == Some(Fail(DepthExceeded)) ==>
      && depth == 0 && records.Some? && records.value != {}
      && (|| (RoleOf(f).OneToOneRole? && GetJooqTable(s, f.fieldType).Success? &&
              LookupKeys(keys, f.fieldType, rep, GetJooqTable(s, f.fieldType).value).NotFound?)
          || RoleOf(f).OneToManyRole?)
  {
    if records.None? then Some(if ReadsRow(f) then Fail(NullDereference) else Pass)
    else if records.value == {} then Some(Pass)
    else
      match RoleOf(f)
      case NoRole => Some(Pass)
      case LeafRole(spec) => Some(OutcomeOf(LeafValue(s, table, spec, rep)))
      case EmbeddedRole => Some(OutcomeOf(EmbeddedFields(s, table, Decl(s, f.fieldType).fields, rep)))
      case OneToOneRole(spec) =>
        if OneToOneColumn(s, table, f.fieldType, spec).Failure? then Some(Fail(OneToOneColumn(s, table, f.fieldType, spec).error))
        else if GetJooqTable(s, f.fieldType).Failure? then Some(Fail(GetJooqTable(s, f.fieldType).error))
        else
          (match LookupKeys(keys, f.fieldType, rep, GetJooqTable(s, f.fieldType).value)
           case Throws => Some(Fail(NullDereference))
           case Reuses(_) => Some(Pass)
           case NotFound => if depth == 0 then Some(Fail(DepthExceeded)) else None)
      case OneToManyRole(spec) =>
        if GetJooqTable(s, spec.targetEntity).Failure? then Some(Fail(GetJooqTable(s, spec.targetEntity).error))
        else
          var join := RetrieveTableField(s, GetJooqTable(s, spec.targetEntity).value, spec.otherPrimaryKeyColumn);
          if join.Failure? then Some(Fail(join.error))
          else if CollectionKindOf(Decl(s, f.fieldType), f.name).Failure? then Some(Fail(CollectionKindOf(Decl(s, f.fieldType), f.name).error))
          else if depth == 0 then Some(Fail(DepthExceeded))
          else None
  }

  /*
   * What a build decides depends on the ancestor path only through its node
   * keys, never through which instances the nodes hold. The predicates below
   * therefore take the keys `keys` of the path, and a descent appends the key
   * `NewKey(table, rep, pivot, entityType)` of the instance being built, of
   * class `entityType`, as `buildPredecessors` does.
   */

  /**
   * The nested build that relationship field `f` starts passes: with one
   * level fewer, over the group regrouped by the join column, the build of
   * the field's class passes (one-to-one), or the build of every element
   * does (one-to-many).
   */
  ghost predicate NestedPasses(s: Schema, keys: seq<NodeKey>, pivot: Column, depth: nat, entityType: TypeName, table: TableId,
                               f: Field, records: Option<set<Row>>, rep: Row)
    decreases depth, 0
  {
    && depth > 0 && records.Some?
    && var below := keys + [NewKey(table, rep, pivot, entityType)];
    && match RoleOf(f)
       case OneToOneRole(spec) =>
         && OneToOneColumn(s, table, f.fieldType, spec).Success?
         && var column := OneToOneColumn(s, table, f.fieldType, spec).value;
            GroupsPass(s, below, column, depth - 1, f.fieldType, GroupsOf(records.value, column))
       case OneToManyRole(spec) =>
         && GetJooqTable(s, spec.targetEntity).Success?
         && RetrieveTableField(s, GetJooqTable(s, spec.targetEntity).value, spec.otherPrimaryKeyColumn).Success?
         && var join := RetrieveTableField(s, GetJooqTable(s, spec.targetEntity).value, spec.otherPrimaryKeyColumn).value;
            AllGroupsPass(s, below, join, depth - 1, spec.targetEntity, GroupsOf(records.value, join))
       case _ => false
  }

  /** Field `f` of an instance of `entityType` passes: by its own checks, or by the nested build they leave it to. */
  ghost predicate FieldPasses(s: Schema, keys: seq<NodeKey>, pivot: Column, depth: nat, entityType: TypeName, table: TableId,
                              f: Field, records: Option<set<Row>>, rep: Row)
    decreases depth, 1
  {
    || LocalOutcome(s, keys, depth, table, f, records, rep) == Some(Pass)
    || (LocalOutcome(s, keys, depth, table, f, records, rep).None? && NestedPasses(s, keys, pivot, depth, entityType, table, f, records, rep))
  }

  /**
   * `buildOne` on a mapper pivoting on `pivot` passes: the class is bound to
   * a table and every declared field passes.
   */
  ghost predicate Passes(s: Schema, keys: seq<NodeKey>, pivot: Column, depth: nat, entityType: TypeName, records: Option<set<Row>>, rep: Row)
    decreases depth, 2
  {
    && (records.Some? && records.value != {} ==> rep in records.value)
    && GetJooqTable(s, entityType).Success?
    && forall i | 0 <= i < |Decl(s, entityType).fields| ::
         FieldPasses(s, keys, pivot, depth, entityType, GetJooqTable(s, entityType).value, Decl(s, entityType).fields[i], records, rep)
  }

  /** Every group of `groups` builds, for some representative row. */
  ghost predicate AllGroupsPass(s: Schema, keys: seq<NodeKey>, pivot: Column, depth: nat, entityType: TypeName, groups: map<Value, set<Row>>)
    decreases depth, 4
  {
    forall k | k in groups :: exists rep :: Passes(s, keys, pivot, depth, entityType, Some(groups[k]), rep)
  }

  /** `build` passes on a mapper whose grouping is `groups`: some group builds, or the null group when there is none. */
  ghost predicate GroupsPass(s: Schema, keys: seq<NodeKey>, pivot: Column, depth: nat, entityType: TypeName, groups: map<Value, set<Row>>)
    decreases depth, 5
  {
    if groups == map[] then Passes(s, keys, pivot, depth, entityType, None, map[])
    else exists k, rep :: k in groups && Passes(s, keys, pivot, depth, entityType, Some(groups[k]), rep)
  }

  /**
   * The nested build that relationship field `f` starts fails with `e`: with
   * one level fewer, over the group regrouped by the join column, the build
   * of the field's class fails (one-to-one), or the build of one of the
   * elements fails (one-to-many).
   */
  ghost predicate NestedFails(s: Schema, keys: seq<NodeKey>, pivot: Column, depth: nat, entityType: TypeName, table: TableId,
                              f: Field, records: Option<set<Row>>, rep: Row, e: Error)
    decreases depth, 0
  {
    && depth > 0 && records.Some?
    && var below := keys + [NewKey(table, rep, pivot, entityType)];
    && match RoleOf(f)
       case OneToOneRole(spec) =>
         && OneToOneColumn(s, table, f.fieldType, spec).Success?
         && var column := OneToOneColumn(s, table, f.fieldType, spec).value;
            GroupsFail(s, below, column, depth - 1, f.fieldType, GroupsOf(records.value, column), e)
       case OneToManyRole(spec) =>
         && GetJooqTable(s, spec.targetEntity).Success?
         && RetrieveTableField(s, GetJooqTable(s, spec.targetEntity).value, spec.otherPrimaryKeyColumn).Success?
         && var join := RetrieveTableField(s, GetJooqTable(s, spec.targetEntity).value, spec.otherPrimaryKeyColumn).value;
            SomeGroupFails(s, below, join, depth - 1, spec.targetEntity, GroupsOf(records.value, join), e)
       case _ => false
  }

  /** Field `f` fails with `e`: by its own checks, or, when they leave it to a nested build, because that build fails with `e`. */
  ghost predicate FieldFails(s: Schema, keys: seq<NodeKey>, pivot: Column, depth: nat, entityType: TypeName, table: TableId,
                             f: Field, records: Option<set<Row>>, rep: Row, e: Error)
    decreases depth, 1
  {
    && (LocalOutcome(s, keys, depth, table, f, records, rep).Some? ==> LocalOutcome(s, keys, depth, table, f, records, rep) == Some(Fail(e)))
    && (LocalOutcome(s, keys, depth, table, f, records, rep).None? ==> NestedFails(s, keys, pivot, depth, entityType, table, f, records, rep, e))
  }

  /** Filling `fs` stops at `fs[i]` with error `e`: every earlier field passes, and `fs[i]` fails with `e`. */
  ghost predicate StopsAt(s: Schema, keys: seq<NodeKey>, pivot: Column, depth: nat, entityType: TypeName, table: TableId, fs: seq<Field>,
                          records: Option<set<Row>>, rep: Row, i: int, e: Error)
    decreases depth, 2
  {
    && 0 <= i < |fs|
    && (forall j | 0 <= j < i :: FieldPasses(s, keys, pivot, depth, entityType, table, fs[j], records, rep))
    && FieldFails(s, keys, pivot, depth, entityType, table, fs[i], records, rep, e)
  }

  /** A failing field after passing ones is where filling stops. */
  lemma StopsAtFailingField(s: Schema, keys: seq<NodeKey>, pivot: Column, depth: nat, entityType: TypeName, table: TableId, fs: seq<Field>,
                            records: Option<set<Row>>, rep: Row, i: int, e: Error)
    requires 0 <= i < |fs| && forall j | 0 <= j < i :: FieldPasses(s, keys, pivot, depth, entityType, table, fs[j], records, rep)
    requires FieldFails(s, keys, pivot, depth, entityType, table, fs[i], records, rep, e)
    ensures exists k :: StopsAt(s, keys, pivot, depth, entityType, table, fs, records, rep, k, e)
  {
    assert StopsAt(s, keys, pivot, depth, entityType, table, fs, records, rep, i, e);
  }

  /**
   * `buildOne` on a mapper pivoting on `pivot` fails with `e`: the class has
   * no table binding, or filling its fields stops at one of them with `e`.
   */
  ghost predicate BuildFails(s: Schema, keys: seq<NodeKey>, pivot: Column, depth: nat, entityType: TypeName,
                             records: Option<set<Row>>, rep: Row, e: Error)
    decreases depth, 3
  {
    && (records.Some? && records.value != {} ==> rep in records.value)
    && match GetJooqTable(s, entityType)
       case Failure(err) => e == err
       case Success(table) => exists i :: StopsAt(s, keys, pivot, depth, entityType, table, Decl(s, entityType).fields, records, rep, i, e)
  }

  /** The build of some group of `groups` fails with `e`. */
  ghost predicate SomeGroupFails(s: Schema, keys: seq<NodeKey>, pivot: Column, depth: nat, entityType: TypeName,
                                 groups: map<Value, set<Row>>, e: Error)
    decreases depth, 4
  {
    exists k, rep :: k in groups && BuildFails(s, keys, pivot, depth, entityType, Some(groups[k]), rep, e)
  }

  /** `build` fails with `e` on a mapper whose grouping is `groups`: some group fails, or the null group when there is none. */
  ghost predicate GroupsFail(s: Schema, keys: seq<NodeKey>, pivot: Column, depth: nat, entityType: TypeName,
                             groups: map<Value, set<Row>>, e: Error)
    decreases depth, 5
  {
    if groups == map[] then BuildFails(s, keys, pivot, depth, entityType, None, map[], e)
    else SomeGroupFails(s, keys, pivot, depth, entityType, groups, e)
  }

  /** `r` is what `buildOne` returns for `records` on the ancestor path `path` with `depth` nested mappers left. */
  ghost predicate BuildResult(s: Schema, path: seq<Node>, pivot: Column, depth: nat, entityType: TypeName,
                              records: Option<set<Row>>, rep: Row, r: Result<Instance, Error>)
    reads if r.Success? then {r.value} else {}
  {
    match r
    case Success(x) => Built(s, path, entityType, x, records, rep) && Passes(s, KeysOf(path), pivot, depth, entityType, records, rep)
    case Failure(e) => BuildFails(s, KeysOf(path), pivot, depth, entityType, records, rep, e)
  }

  /** `r` is what `build` returns on a mapper whose grouping is `groups`: the build of some group, or of a null group when there is none. */
  ghost predicate BuildOfGroups(s: Schema, path: seq<Node>, pivot: Column, depth: nat, entityType: TypeName,
                                groups: map<Value, set<Row>>, r: Result<Instance, Error>)
    reads if r.Success? then {r.value} else {}
  {
    match r
    case Failure(e) => GroupsFail(s, KeysOf(path), pivot, depth, entityType, groups, e)
    case Success(_) =>
      if groups == map[] then BuildResult(s, path, pivot, depth, entityType, None, map[], r)
      else exists k, rep :: k in groups && BuildResult(s, path, pivot, depth, entityType, Some(groups[k]), rep, r)
  }

  /**
   * `r` is what `buildStream` yields on a mapper whose grouping is `groups`:
   * one distinct instance per group, `keys[i]` being the pivot value of the
   * group `r.value[i]` was built from and `reps[i]` its representative row;
   * or the error of the build of some group.
   */
  ghost predicate StreamOfGroups(s: Schema, path: seq<Node>, pivot: Column, depth: nat, entityType: TypeName, groups: map<Value, set<Row>>,
                                 r: Result<seq<Instance>, Error>, keys: seq<Value>, reps: seq<Row>)
    reads if r.Success? then r.value else []
  {
    match r
    case Failure(e) => SomeGroupFails(s, KeysOf(path), pivot, depth, entityType, groups, e)
    case Success(xs) =>
      && |xs| == |groups| && Distinct(xs) && |keys| == |xs| && |reps| == |xs|
      && (forall k | k in groups :: k in keys)
      && (forall i, j | 0 <= i < j < |keys| :: keys[i] != keys[j])
      && forall i {:trigger reps[i]} | 0 <= i < |xs| ::
           keys[i] in groups && BuildResult(s, path, pivot, depth, entityType, Some(groups[keys[i]]), reps[i], Success(xs[i]))
  }

  /** A one-to-one field's nested build passes when `build` passes on the group regrouped by its join column. */
  lemma OneToOneNestedPasses(s: Schema, keys: seq<NodeKey>, pivot: Column, depth: nat, entityType: TypeName, table: TableId,
                             f: Field, group: set<Row>, rep: Row, column: Column)
    requires depth > 0 && RoleOf(f).OneToOneRole? && OneToOneColumn(s, table, f.fieldType, f.oneToOne.value) == Success(column)
    requires GroupsPass(s, keys + [NewKey(table, rep, pivot, entityType)], column, depth - 1, f.fieldType, GroupsOf(group, column))
    ensures NestedPasses(s, keys, pivot, depth, entityType, table, f, Some(group), rep)
  {
  }

  /** A one-to-one field's nested build fails with `e` when `build` fails with `e` on the group regrouped by its join column. */
  lemma OneToOneNestedFails(s: Schema, keys: seq<NodeKey>, pivot: Column, depth: nat, entityType: TypeName, table: TableId,
                            f: Field, group: set<Row>, rep: Row, column: Column, e: Error)
    requires depth > 0 && RoleOf(f).OneToOneRole? && OneToOneColumn(s, table, f.fieldType, f.oneToOne.value) == Success(column)
    requires GroupsFail(s, keys + [NewKey(table, rep, pivot, entityType)], column, depth - 1, f.fieldType, GroupsOf(group, column), e)
    ensures NestedFails(s, keys, pivot, depth, entityType, table, f, Some(group), rep, e)
  {
  }

  /** A one-to-many field's nested build passes when every group of the join column's grouping builds. */
  lemma OneToManyNestedPasses(s: Schema, keys: seq<NodeKey>, pivot: Column, depth: nat, entityType: TypeName, table: TableId,
                              f: Field, group: set<Row>, rep: Row, join: Column)
    requires depth > 0 && RoleOf(f).OneToManyRole? && GetJooqTable(s, f.oneToMany.value.targetEntity).Success?
    requires RetrieveTableField(s, GetJooqTable(s, f.oneToMany.value.targetEntity).value, f.oneToMany.value.otherPrimaryKeyColumn) == Success(join)
    requires AllGroupsPass(s, keys + [NewKey(table, rep, pivot, entityType)], join, depth - 1, f.oneToMany.value.targetEntity, GroupsOf(group, join))
    ensures NestedPasses(s, keys, pivot, depth, entityType, table, f, Some(group), rep)
  {
  }

  /** A one-to-many field's nested build fails with `e` when the build of some group of the join column's grouping does. */
  lemma OneToManyNestedFails(s: Schema, keys: seq<NodeKey>, pivot: Column, depth: nat, entityType: TypeName, table: TableId,
                             f: Field, group: set<Row>, rep: Row, join: Column, e: Error)
    requires depth > 0 && RoleOf(f).OneToManyRole? && GetJooqTable(s, f.oneToMany.value.targetEntity).Success?
    requires RetrieveTableField(s, GetJooqTable(s, f.oneToMany.value.targetEntity).value, f.oneToMany.value.otherPrimaryKeyColumn) == Success(join)
    requires SomeGroupFails(s, keys + [NewKey(table, rep, pivot, entityType)], join, depth - 1, f.oneToMany.value.targetEntity, GroupsOf(group, join), e)
    ensures NestedFails(s, keys, pivot, depth, entityType, table, f, Some(group), rep, e)
  {
  }

  /** A successful `build` is one under which some group, or the null group, passes. */
  lemma GroupsPassOfBuild(s: Schema, path: seq<Node>, pivot: Column, depth: nat, entityType: TypeName, groups: map<Value, set<Row>>, x: Instance)
    requires BuildOfGroups(s, path, pivot, depth, entityType, groups, Success(x))
    ensures GroupsPass(s, KeysOf(path), pivot, depth, entityType, groups)
  {
    if groups != map[] {
      var k, rep :| k in groups && BuildResult(s, path, pivot, depth, entityType, Some(groups[k]), rep, Success(x));
      assert Passes(s, KeysOf(path), pivot, depth, entityType, Some(groups[k]), rep);
    }
  }

  /**
   * What the nested `build` of a one-to-one field returns, read as that
   * field's nested outcome.
   */
  lemma OneToOneNestedOfBuild(s: Schema, path: seq<Node>, pivot: Column, depth: nat, target: Instance, table: TableId,
                              f: Field, group: set<Row>, rep: Row, column: Column, r: Result<Instance, Error>)
    requires depth > 0 && RoleOf(f).OneToOneRole? && OneToOneColumn(s, table, f.fieldType, f.oneToOne.value) == Success(column)
    requires BuildOfGroups(s, BuildPredecessors(path, table, rep, pivot, target), column, depth - 1, f.fieldType, GroupsOf(group, column), r)
    ensures r.Success? ==> NestedPasses(s, KeysOf(path), pivot, depth, target.entityType, table, f, Some(group), rep)
    ensures r.Failure? ==> NestedFails(s, KeysOf(path), pivot, depth, target.entityType, table, f, Some(group), rep, r.error)
  {
    var below := BuildPredecessors(path, table, rep, pivot, target);
    if r.Failure? {
      OneToOneNestedFails(s, KeysOf(path), pivot, depth, target.entityType, table, f, group, rep, column, r.error);
    } else {
      GroupsPassOfBuild(s, below, column, depth - 1, f.fieldType, GroupsOf(group, column), r.value);
      OneToOneNestedPasses(s, KeysOf(path), pivot, depth, target.entityType, table, f, group, rep, column);
    }
  }

  /**
   * What the nested `buildStream` of a one-to-many field returns, read as
   * that field's nested outcome.
   */
  lemma OneToManyNestedOfStream(s: Schema, path: seq<Node>, pivot: Column, depth: nat, target: Instance, table: TableId,
                                f: Field, group: set<Row>, rep: Row, join: Column,
                                r: Result<seq<Instance>, Error>, keys: seq<Value>, reps: seq<Row>)
    requires depth > 0 && RoleOf(f).OneToManyRole? && GetJooqTable(s, f.oneToMany.value.targetEntity).Success?
    requires RetrieveTableField(s, GetJooqTable(s, f.oneToMany.value.targetEntity).value, f.oneToMany.value.otherPrimaryKeyColumn) == Success(join)
    requires StreamOfGroups(s, BuildPredecessors(path, table, rep, pivot, target), join, depth - 1, f.oneToMany.value.targetEntity,
      GroupsOf(group, join), r, keys, reps)
    ensures r.Success? ==> NestedPasses(s, KeysOf(path), pivot, depth, target.entityType, table, f, Some(group), rep)
    ensures r.Failure? ==> NestedFails(s, KeysOf(path), pivot, depth, target.entityType, table, f, Some(group), rep, r.error)
  {
    var below := BuildPredecessors(path, table, rep, pivot, target);
    if r.Failure? {
      OneToManyNestedFails(s, KeysOf(path), pivot, depth, target.entityType, table, f, group, rep, join, r.error);
    } else {
      AllGroupsPassOfStream(s, below, join, depth - 1, f.oneToMany.value.targetEntity, GroupsOf(group, join), r.value, keys, reps);
      OneToManyNestedPasses(s, KeysOf(path), pivot, depth, target.entityType, table, f, group, rep, join);
    }
  }

  /** A successful `buildStream` is one under which every group passes. */
  lemma AllGroupsPassOfStream(s: Schema, path: seq<Node>, pivot: Column, depth: nat, entityType: TypeName, groups: map<Value, set<Row>>,
                              xs: seq<Instance>, keys: seq<Value>, reps: seq<Row>)
    requires StreamOfGroups(s, path, pivot, depth, entityType, groups, Success(xs), keys, reps)
    ensures AllGroupsPass(s, KeysOf(path), pivot, depth, entityType, groups)
  {
    forall k | k in groups
      ensures exists rep :: Passes(s, KeysOf(path), pivot, depth, entityType, Some(groups[k]), rep)
    {
      var i :| 0 <= i < |keys| && keys[i] == k;
      assert BuildResult(s, path, pivot, depth, entityType, Some(groups[keys[i]]), reps[i], Success(xs[i]));
    }
  }

  /** The class declares no one-to-one and no one-to-many field. */
  predicate NoRelationships(fs: seq<Field>)
  {
    forall i | 0 <= i < |fs| :: !RoleOf(fs[i]).OneToOneRole? && !RoleOf(fs[i]).OneToManyRole?
  }

  /**
   * Every column the field reads from a row exists on `table`: a leaf
   * field's own column, and each leaf column of an embedded field's class.
   */
  ghost predicate ColumnsExist(s: Schema, table: TableId, f: Field)
  {
    && (RoleOf(f).LeafRole? ==> f.leaf.value.column in TableColumns(s, table))
    && (RoleOf(f).EmbeddedRole? ==>
          forall j | 0 <= j < |Decl(s, f.fieldType).fields| && Decl(s, f.fieldType).fields[j].leaf.Some? ::
            Decl(s, f.fieldType).fields[j].leaf.value.column in TableColumns(s, table))
  }

  /** Outside relationships, a field of a non-empty group passes its checks exactly when the columns it reads exist. */
  lemma LocalPassWithoutRelationship(s: Schema, keys: seq<NodeKey>, depth: nat, table: TableId, f: Field, group: set<Row>, rep: Row)
    requires group != {} && !RoleOf(f).OneToOneRole? && !RoleOf(f).OneToManyRole?
    ensures LocalOutcome(s, keys, depth, table, f, Some(group), rep).Some?
    ensures LocalOutcome(s, keys, depth, table, f, Some(group), rep) == Some(Pass) <==> ColumnsExist(s, table, f)
  {
    if RoleOf(f).EmbeddedRole? {
      EmbeddedFieldsSucceeds(s, table, Decl(s, f.fieldType).fields, rep);
    }
  }

  /**
   * A class without relationship fields builds from a non-empty group exactly
   * when it is bound to a table on which every column its leaf and embedded
   * fields read exists.
   */
  lemma BuildWithoutRelationships(s: Schema, path: seq<Node>, pivot: Column, depth: nat, entityType: TypeName, group: set<Row>, rep: Row,
                                  r: Result<Instance, Error>)
    requires group != {} && NoRelationships(Decl(s, entityType).fields)
    requires BuildResult(s, path, pivot, depth, entityType, Some(group), rep, r)
    ensures r.Success? <==>
      && GetJooqTable(s, entityType).Success?
      && forall i | 0 <= i < |Decl(s, entityType).fields| ::
           ColumnsExist(s, GetJooqTable(s, entityType).value, Decl(s, entityType).fields[i])
  {
    var fs := Decl(s, entityType).fields;
    var keys := KeysOf(path);
    if GetJooqTable(s, entityType).Success? {
      var table := GetJooqTable(s, entityType).value;
      forall i | 0 <= i < |fs|
        ensures LocalOutcome(s, keys, depth, table, fs[i], Some(group), rep).Some?
        ensures LocalOutcome(s, keys, depth, table, fs[i], Some(group), rep) == Some(Pass) <==> ColumnsExist(s, table, fs[i])
      {
        LocalPassWithoutRelationship(s, keys, depth, table, fs[i], group, rep);
      }
      if r.Failure? {
        assert BuildFails(s, keys, pivot, depth, entityType, Some(group), rep, r.error);
        var i :| StopsAt(s, keys, pivot, depth, entityType, table, fs, Some(group), rep, i, r.error);
        assert FieldFails(s, keys, pivot, depth, entityType, table, fs[i], Some(group), rep, r.error);
        assert !ColumnsExist(s, table, fs[i]);
      } else {
        assert Passes(s, keys, pivot, depth, entityType, Some(group), rep);
      }
    }
  }

  /**
   * On a consistent path, a one-to-one field of a built instance, whose class
   * and table occur on the path, holds the instance of the first such node.
   * `fields` is what `Built` says of the instance's fields.
   */
  lemma ReusesFirstAncestor(s: Schema, rows: set<Row>, path: seq<Node>, entityType: TypeName, fields: map<FieldName, FieldValue>,
                            group: set<Row>, rep: Row, i: int, f: Field)
    requires PathConsistent(rows, path) && group <= rows && group != {}
    requires FieldsBuilt(s, path, entityType, fields, Some(group), rep)
    requires 0 <= i < |Decl(s, entityType).fields| && f == Decl(s, entityType).fields[i] && RoleOf(f).OneToOneRole?
    requires GetJooqTable(s, f.fieldType).Success?
    requires FirstOfTypeAndTable(path, f.fieldType, GetJooqTable(s, f.fieldType).value).Some?
    ensures f.name in fields
    ensures fields[f.name] == Ref(FirstOfTypeAndTable(path, f.fieldType, GetJooqTable(s, f.fieldType).value).value)
  {
    var t := GetJooqTable(s, f.fieldType).value;
    LookupOnConsistentPath(rows, path, f.fieldType, rep, t);
    assert Filled(s, path, GetJooqTable(s, entityType).value, f, Some(group), rep, FieldOf(fields, f.name));
  }

  /**
   * A back-reference one level down: an instance built on the path extended
   * by `target`, from rows of the consistent mapping below it, holds `target`
   * itself in a one-to-one field of `target`'s class and table, provided no
   * outer node has that class and table.
   */
  lemma BackReference(s: Schema, rows: set<Row>, path: seq<Node>, table: TableId, rep: Row, pivot: Column, target: Instance,
                      entityType: TypeName, fields: map<FieldName, FieldValue>, group: set<Row>, rep2: Row, i: int, f: Field)
    requires PathConsistent(rows, BuildPredecessors(path, table, rep, pivot, target)) && group <= rows && group != {}
    requires FieldsBuilt(s, BuildPredecessors(path, table, rep, pivot, target), entityType, fields, Some(group), rep2)
    requires 0 <= i < |Decl(s, entityType).fields| && f == Decl(s, entityType).fields[i] && RoleOf(f).OneToOneRole?
    requires f.fieldType == target.entityType && GetJooqTable(s, target.entityType) == Success(table)
    requires forall j | 0 <= j < |path| :: !SameTypeAndTable(path[j].key, target.entityType, table)
    ensures f.name in fields && fields[f.name] == Ref(target)
  {
    FirstOnExtendedPath(path, table, rep, pivot, target);
    ReusesFirstAncestor(s, rows, BuildPredecessors(path, table, rep, pivot, target), entityType, fields, group, rep2, i, f);
  }
}
