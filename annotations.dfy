/**
 * The mapping configuration that the Java code reads from annotations by
 * reflection, as an explicit schema: for every class its table binding
 * (`@JooqTable`), its declared fields in declaration order with the
 * annotations each carries, and whether the class is a `Set` or a `List`
 * type; for every generated table class the column fields it declares.
 */
module Annotations {
  import opened Wrappers
  import opened Rows

  type TypeName = string
  type FieldName = string

  /** A user `PropertyConverter`: an opaque total function on column values. */
  type Converter = Option<Value> -> Option<Value>

  /** `@JooqTableProperty(column)` with an optional `@Converter`. */
  datatype LeafSpec = LeafSpec(column: string, converter: Option<Converter>)

  /** Where the join column of a one-to-one field lives. */
  datatype TargetTable = This | Other

  /** `@OneToOne(column = ..., targetTable = ...)`. */
  datatype OneToOneSpec = OneToOneSpec(column: string, targetTable: TargetTable)

  /** `@OneToMany(targetEntity = ..., otherPrimaryKeyColumn = ...)`. */
  datatype OneToManySpec = OneToManySpec(targetEntity: TypeName, otherPrimaryKeyColumn: string)

  /** A declared field: its name, its declared type and the mapping annotations present on it. */
  datatype Field = Field(
    name: FieldName,
    fieldType: TypeName,
    leaf: Option<LeafSpec>,
    oneToOne: Option<OneToOneSpec>,
    oneToMany: Option<OneToManySpec>,
    embedded: bool)

  /** A class: its `@JooqTable` binding, its declared fields, and its collection supertypes. */
  datatype TypeDecl = TypeDecl(table: Option<TableId>, fields: seq<Field>, isSet: bool, isList: bool)

  datatype Schema = Schema(types: map<TypeName, TypeDecl>, tables: map<TableId, set<string>>)

  /** A class the schema does not describe is a class without annotations or fields. */
  function Decl(s: Schema, t: TypeName): TypeDecl
  {
    if t in s.types then s.types[t] else TypeDecl(None, [], false, false)
  }

  /** The column fields a generated table class declares (none for an unknown table). */
  function TableColumns(s: Schema, table: TableId): set<string>
  {
    if table in s.tables then s.tables[table] else {}
  }

  function Names(fs: seq<Field>): set<FieldName>
  {
    set i | 0 <= i < |fs| :: fs[i].name
  }

  /** The fields of one Java class have pairwise distinct names. */
  predicate UniqueNames(fs: seq<Field>)
  {
    forall i, j | 0 <= i < j < |fs| :: fs[i].name != fs[j].name
  }

  /** Every class of the schema is a well-formed Java class. */
  predicate ValidSchema(s: Schema)
  {
    forall t | t in s.types :: UniqueNames(s.types[t].fields)
  }

  /** The role under which a field is filled. */
  datatype Role =
    | LeafRole(leafSpec: LeafSpec)
    | OneToOneRole(oneSpec: OneToOneSpec)
    | OneToManyRole(manySpec: OneToManySpec)
    | EmbeddedRole
    | NoRole

  /**
   * The first annotation present wins, tested in the order leaf, one-to-one,
   * one-to-many, embedded; a field with none of them has no role.
   */
  function RoleOf(f: Field): (r: Role)
    ensures r.LeafRole? <==> f.leaf.Some?
    ensures r.OneToOneRole? <==> f.leaf.None? && f.oneToOne.Some?
    ensures r.OneToManyRole? <==> f.leaf.None? && f.oneToOne.None? && f.oneToMany.Some?
    ensures r.EmbeddedRole? <==> f.leaf.None? && f.oneToOne.None? && f.oneToMany.None? && f.embedded
    ensures r.NoRole? <==> f.leaf.None? && f.oneToOne.None? && f.oneToMany.None? && !f.embedded
    ensures r.LeafRole? ==> r.leafSpec == f.leaf.value
    ensures r.OneToOneRole? ==> r.oneSpec == f.oneToOne.value
    ensures r.OneToManyRole? ==> r.manySpec == f.oneToMany.value
  {
    if f.leaf.Some? then LeafRole(f.leaf.value)
    else if f.oneToOne.Some? then OneToOneRole(f.oneToOne.value)
    else if f.oneToMany.Some? then OneToManyRole(f.oneToMany.value)
    else if f.embedded then EmbeddedRole
    else NoRole
  }
}
