# jooq-mapper, modelled in Dafny

jooq-mapper turns the flat rows of an executed join into a graph of annotated
Java objects. A `JooqMapper` groups the input rows by a pivot column
(`RecordUtils.aggregateBy`) when it is constructed. `buildStream` then builds
one instance per group, and `build` builds the instance of an arbitrary group.
`buildOne` fills the declared fields of a class in declaration order, by
annotation:

- a `@JooqTableProperty` leaf reads one column of the group's representative
  row, through an optional converter;
- an `@Embedded` field gets a new object whose leaf fields are read from the
  same row and table;
- a `@OneToOne` field reuses an instance already built on the ancestor path
  (`findAmongPredecessors`), or else builds its class with a nested mapper that
  regroups the current group by the join column;
- a `@OneToMany` field builds one element per distinct join value with a nested
  mapper, and collects them into a `Set` or a `List` (`convertStream`).

Every nested mapper receives the ancestor path extended by the instance being
built (`buildPredecessors`).

This project models:

- rows as maps from columns to nullable values;
- the annotations that the Java code reads by reflection, as an explicit `Schema`
  value;
- the built objects as a Dafny class `Instance`, whose state is the map from
  field name to assigned value;
- the mapper as a class `Mapper`, whose methods allocate and fill instances.

Errors that jooq-mapper throws as `RuntimeException` or `NullPointerException`
become a `Result` or `Outcome` carrying an `Error`. The contracts state which
error a build reports: a missing table binding first, then the error of the
first declared field that does not pass. A field passes when its own checks pass
(`LocalOutcome`), or when they leave the outcome to the nested build it starts
and that build passes (`FieldPasses`, `NestedPasses`). It fails when its own
checks fail, or when they leave the outcome to that nested build and the build
fails (`FieldFails`, `NestedFails`). A build stops at a field only when every
earlier field passes, nested builds included (`StopsAt`). A nested build passes
or fails by the same rule, one level down. Its path is the current one extended
by the key of the instance being built. No nested build is started with no
depth left, so every failure comes, at some level, from a field whose own checks
fail.

These predicates see the ancestor path only through its node keys (`KeysOf`):
the class, table, pivot column and pivot value of each node. They never see
which instance a node holds, just as `findAmongPredecessors` decides by those
four values alone. `build` takes the first group of a hash map, so the
predicates leave the group open. Under different groups, one field can both
pass and fail.

What a built instance holds is stated by module-level predicates of
`MapperLogic` that take the schema and the ancestor path: `Filled` per field,
`Built` per instance, `BuildResult` per group, and `BuildOfGroups` and
`StreamOfGroups` per mapper. A nested mapper is the one that `NestedOver`
creates: the current group regrouped by the join column, under the ancestor
path extended by the instance being built, with one level fewer to go.

About cycles, three facts are proved. Every path the mapper builds is
consistent: each ancestor's pivot value is non-null and is carried by every row
still being mapped. On such a path the value test in `findAmongPredecessors`
never throws and never rejects, so reuse is decided by class and table alone,
and the instance reused is that of the first (outermost) ancestor of that class
and table (`ReuseByTypeAndTable`, `ReusesFirstAncestor`). One level down,
`BackReference` shows that an instance built for a relationship of `A`, whose
own one-to-one field has `A`'s class and table, holds `A` itself, provided no
outer ancestor has that class and table. `CyclicReuse` works one cycle
through: class `A` has a one-to-one field of class `B`, and `B` a one-to-one
field of class `A`. With one nested level, the nested `B` reuses `A`, so the
build of `A` passes and cannot fail (`OuterPasses`, `OuterCannotFail`).

Modules: `Wrappers`, `Rows`, `RecordUtils`, `Annotations`, `Entities`,
`MappingErrors`, `AncestorTracker`, `MapperLogic`, `JooqMapper`, and
`CyclicReuse`, which works one example through.

## Model

| member | source | states |
|---|---|---|
| RecordUtils.GroupingBy | src/main/java/com/github/qzagarese/jooqmapper/util/RecordUtils.java:23 | every row's (possibly null) key is a key of the grouping; each key maps to exactly the non-empty set of input rows carrying it |
| RecordUtils.AggregateBy | src/main/java/com/github/qzagarese/jooqmapper/util/RecordUtils.java:22-29 | the keys are exactly the distinct non-null key values of the input, so there are as many groups as distinct non-null keys; each group is exactly the non-empty set of rows with that key |
| RecordUtils.GroupMembers | src/main/java/com/github/qzagarese/jooqmapper/util/RecordUtils.java:22-29 | every member of a group comes from the input and carries the group's key |
| RecordUtils.GroupComplete | src/main/java/com/github/qzagarese/jooqmapper/util/RecordUtils.java:22-29 | an input row with a non-null key lies in its key's group; a row with a null key lies in no group |
| RecordUtils.AggregateByDependsOnlyOnElements | src/main/java/com/github/qzagarese/jooqmapper/util/RecordUtils.java:22-29 | two streams with the same set of rows give the same grouping: order and repetition do not matter |
| RecordUtils.AggregateByIsGroupsOf | src/main/java/com/github/qzagarese/jooqmapper/util/RecordUtils.java:22-29 | the grouping of a stream is the grouping of its set of rows: each non-null key value to exactly the rows carrying it |
| RecordUtils.IndexBy | src/main/java/com/github/qzagarese/jooqmapper/util/RecordUtils.java:16-20 | succeeds exactly when no two rows share a key; then its keys are the rows' keys and each key maps to its row; otherwise the error names a key held by two rows |
| Annotations.RoleOf | src/main/java/com/github/qzagarese/jooqmapper/JooqMapper.java:55-63 | the role is that of the first annotation present, in the order leaf, one-to-one, one-to-many, embedded; no annotation gives no role (both directions for each role); each role carries its own annotation's parameters |
| Entities.Instance.constructor | src/main/java/com/github/qzagarese/jooqmapper/JooqMapper.java:191-199 | a new object of the class with no field assigned |
| Entities.Instance.InjectValue | src/main/java/com/github/qzagarese/jooqmapper/JooqMapper.java:201-214 | assigns one field and leaves the others as they were |
| Entities.DistinctCard | src/main/java/com/github/qzagarese/jooqmapper/JooqMapper.java:161-162 | collecting a stream without repeated references into a set loses no element |
| AncestorTracker.FindAmongPredecessors | src/main/java/com/github/qzagarese/jooqmapper/JooqMapper.java:119-134 | the result is the instance of the first node matching type, table and the row's pivot value; it is null exactly when no node is decisive; a null pivot value in the row on a node of the same type and table throws before any later node is looked at |
| AncestorTracker.LookupKeys | src/main/java/com/github/qzagarese/jooqmapper/JooqMapper.java:125-133 | the scan over node keys: not found exactly when no key is decisive; a reuse names a matching key with no decisive key before it; a throw names a key of the same class and table on which the row's pivot value is null, with no decisive key before it |
| AncestorTracker.BuildPredecessors | src/main/java/com/github/qzagarese/jooqmapper/JooqMapper.java:136-145 | the old path with one node appended that records the target, its class, the table, the pivot column and the representative row's pivot value |
| AncestorTracker.FindOnExtendedPath | src/main/java/com/github/qzagarese/jooqmapper/JooqMapper.java:125-133 | on an extended path the old nodes are scanned first; the appended node is consulted only when none of them decides |
| AncestorTracker.LookupOnExtendedKeys | src/main/java/com/github/qzagarese/jooqmapper/JooqMapper.java:125-133 | on keys extended by one key, the old keys decide when any of them is decisive; otherwise the new key is scanned alone, a reuse of it naming the last position |
| AncestorTracker.FirstOfTypeAndTable | src/main/java/com/github/qzagarese/jooqmapper/JooqMapper.java:126-132 | none exactly when no node has the given class and table; otherwise the instance of the first node that has them |
| AncestorTracker.FirstOfTypeAndTableIndex | src/main/java/com/github/qzagarese/jooqmapper/JooqMapper.java:126-128 | none exactly when no key has the given class and table; otherwise the position of the first key that has them |
| AncestorTracker.LookupOnConsistentPath | src/main/java/com/github/qzagarese/jooqmapper/JooqMapper.java:119-134 | on a path consistent with the current rows the lookup never throws and returns the first node of the same class and table |
| AncestorTracker.LookupOnConsistentKeys | src/main/java/com/github/qzagarese/jooqmapper/JooqMapper.java:125-133 | on keys whose pivot values are non-null and equal the row's, the scan reuses the first key of the same class and table, and finds nothing when there is none |
| AncestorTracker.ExtendKeepsConsistent | src/main/java/com/github/qzagarese/jooqmapper/JooqMapper.java:136-145 | extending the path for a group of rows that share a pivot value keeps it consistent with that group |
| AncestorTracker.FirstOnExtendedPath | src/main/java/com/github/qzagarese/jooqmapper/JooqMapper.java:136-145 | on a path extended by the target, the first node of the target's class and table is the new node when the old path has none |
| MapperLogic.GetJooqTable | src/main/java/com/github/qzagarese/jooqmapper/JooqMapper.java:173-179 | succeeds exactly when the class carries a table binding, with that table; otherwise it reports a missing binding for the class |
| MapperLogic.RetrieveTableField | src/main/java/com/github/qzagarese/jooqmapper/JooqMapper.java:181-189 | succeeds exactly when the table declares the column, with that table's column; otherwise it reports the table and the column name |
| MapperLogic.LeafValue | src/main/java/com/github/qzagarese/jooqmapper/JooqMapper.java:68-79 | fails exactly when the column is unknown; otherwise it is the row's value of the column, passed through the converter when one is declared |
| MapperLogic.EmbeddedFields | src/main/java/com/github/qzagarese/jooqmapper/JooqMapper.java:86-90 | a failure of the embedded leaf fields is an unknown column of the enclosing table |
| MapperLogic.EmbeddedFieldsSucceeds | src/main/java/com/github/qzagarese/jooqmapper/JooqMapper.java:81-92 | an embedded object is filled exactly when every leaf column of its class exists on the enclosing table |
| MapperLogic.EmbeddedFieldsAssigns | src/main/java/com/github/qzagarese/jooqmapper/JooqMapper.java:85-90 | a filled embedded object assigns exactly its leaf fields, each the value its column reads from the row |
| MapperLogic.EmbeddedFieldsPrefixFailure | src/main/java/com/github/qzagarese/jooqmapper/JooqMapper.java:86-90 | the first failing inner field is the failure of the whole embedded object |
| MapperLogic.OneToOneColumn | src/main/java/com/github/qzagarese/jooqmapper/JooqMapper.java:98-104 | the join column is looked up on the current table, or on the field class's table, which may itself be missing |
| MapperLogic.CollectionKindOf | src/main/java/com/github/qzagarese/jooqmapper/JooqMapper.java:160-171 | a `Set` type is tested before a `List` type; a type that is neither reports the field name (both directions for each case) |
| MapperLogic.Collect | src/main/java/com/github/qzagarese/jooqmapper/JooqMapper.java:160-164 | a set holds exactly the stream's elements; a list is the stream in order |
| MapperLogic.StreamOf | src/main/java/com/github/qzagarese/jooqmapper/JooqMapper.java:42-45 | the stream of a hash collection visits every element exactly once |
| MapperLogic.LocalOutcome | src/main/java/com/github/qzagarese/jooqmapper/JooqMapper.java:94-158 | the checks of one field, in the order `injectOneToOne` and `injectOneToMany` make them (a lookup on the path that throws is a `NullDereference`), leave the outcome to a nested build only for a relationship field of a non-empty group that is not reused and has depth left; `DepthExceeded` arises only for such a field at depth 0 |
| MapperLogic.LocalPassWithoutRelationship | src/main/java/com/github/qzagarese/jooqmapper/JooqMapper.java:55-92 | outside relationships, a field of a non-empty group always has its outcome decided by its own checks, and it passes exactly when every column it reads exists |
| MapperLogic.BuildWithoutRelationships | src/main/java/com/github/qzagarese/jooqmapper/JooqMapper.java:51-92 | a class without relationship fields builds from a non-empty group exactly when it is bound to a table on which every leaf and embedded column exists |
| MapperLogic.ReusesFirstAncestor | src/main/java/com/github/qzagarese/jooqmapper/JooqMapper.java:109-116 | on a consistent path, a one-to-one field of a built instance, whose class and table occur on the path, holds the instance of the first such ancestor |
| MapperLogic.BackReference | src/main/java/com/github/qzagarese/jooqmapper/JooqMapper.java:109-116 | two levels of a cycle: an instance built under the path extended by `A`, with a one-to-one field of `A`'s class and table, holds `A` itself when no outer ancestor has that class and table |
| MapperLogic.GroupsPassOfBuild | src/main/java/com/github/qzagarese/jooqmapper/JooqMapper.java:47-49 | a successful `build` passes on some group of its grouping, or on the null group when there is none |
| MapperLogic.AllGroupsPassOfStream | src/main/java/com/github/qzagarese/jooqmapper/JooqMapper.java:42-45 | a successful `buildStream` passes on every group of its grouping |
| MapperLogic.OneToOneNestedOfBuild | src/main/java/com/github/qzagarese/jooqmapper/JooqMapper.java:111-113 | what the nested `build` of a one-to-one field yields decides the field: its success gives `NestedPasses` and its failure `NestedFails` with the same error |
| MapperLogic.OneToManyNestedOfStream | src/main/java/com/github/qzagarese/jooqmapper/JooqMapper.java:154-156 | what the nested `buildStream` of a one-to-many field yields decides the field: its success gives `NestedPasses` and its failure `NestedFails` with the same error |
| MapperLogic.StopsAtFailingField | src/main/java/com/github/qzagarese/jooqmapper/JooqMapper.java:54-64 | a field that fails after fields that all pass is a field at which filling stops |
| CyclicReuse.InnerFieldReused | src/main/java/com/github/qzagarese/jooqmapper/JooqMapper.java:109-114 | in the two-class cycle, the nested `B`'s one-to-one field of class `A` finds the outer `A` on the path by its pivot value and passes by reuse |
| CyclicReuse.InnerCannotFail | src/main/java/com/github/qzagarese/jooqmapper/JooqMapper.java:109-116 | in the two-class cycle, the nested build of `B` fails on no group and no representative row |
| CyclicReuse.OuterPasses | src/main/java/com/github/qzagarese/jooqmapper/JooqMapper.java:51-66 | in the two-class cycle with one nested level, the build of `A` passes, its one-to-one field passing through the nested `B` |
| CyclicReuse.OuterCannotFail | src/main/java/com/github/qzagarese/jooqmapper/JooqMapper.java:51-66 | in the two-class cycle with one nested level, the build of `A` fails for no representative row and no error; no `buildOne` result on the empty path is an error |
| JooqMapper.Mapper.constructor | src/main/java/com/github/qzagarese/jooqmapper/JooqMapper.java:31-33 | an empty ancestor path and the rows grouped by the pivot; the mapper invariant holds |
| JooqMapper.Mapper.Nested | src/main/java/com/github/qzagarese/jooqmapper/JooqMapper.java:35-40 | the given ancestor path and the rows grouped by the pivot; the mapper invariant holds whenever the path is consistent with the rows |
| JooqMapper.Mapper.ReuseByTypeAndTable | src/main/java/com/github/qzagarese/jooqmapper/JooqMapper.java:109 | for any input row the instance reused is that of the first ancestor with the field's class and table |
| JooqMapper.Mapper.BuildStream | src/main/java/com/github/qzagarese/jooqmapper/JooqMapper.java:42-45 | on success, one new, pairwise distinct instance per group, every group visited once; each instance is built from its group on the mapper's path, and every declared field passes, nested builds included (`StreamOfGroups`, `Passes`); a failure is the failing build of some group, by the same rule as `buildOne`; an empty grouping gives the empty stream |
| JooqMapper.Mapper.Build | src/main/java/com/github/qzagarese/jooqmapper/JooqMapper.java:47-49 | the result, success or failure, of building some group (`BuildOfGroups`), by the same rule as `buildOne`; with no group, the build of a null group, which fails exactly when the class has no table or declares a leaf or embedded field, and otherwise sets no field |
| JooqMapper.Mapper.BuildOne | src/main/java/com/github/qzagarese/jooqmapper/JooqMapper.java:51-66 | a missing table binding is the error; otherwise a failure is the error of the first declared field that does not pass, every earlier field passing, nested builds included: its own checks fail, or the nested build it starts fails with that error (`BuildFails`, `StopsAt`, `NestedFails`); on success every declared field passes, nested builds included, and holds what its role computes from the representative row (a new nested object by its class only), and no other field is set (`BuildResult`); a null group fails exactly when a leaf or embedded field exists |
| JooqMapper.Mapper.FillFields | src/main/java/com/github/qzagarese/jooqmapper/JooqMapper.java:54-64 | the declared fields in order: a failure is the error of the first field that does not pass, every earlier field passing with its nested build (`StopsAt`); on success every field passes, nested builds included (`FieldPasses`), is filled by its role, and nothing else is assigned; for a null group the loop fails exactly when some field reads a row |
| JooqMapper.Mapper.InjectField | src/main/java/com/github/qzagarese/jooqmapper/JooqMapper.java:55-63 | the field passes exactly as `FieldPasses` says and fails exactly as `FieldFails` says: by its own checks where they decide (a field without a role passes; a leaf or embedded field has the outcome of its column lookups, error included), otherwise by the nested build it starts; a success fills the field by its role and touches no other field, and holds the nested `build` of a one-to-one field (`BuildOfGroups`) or the collected nested stream of a one-to-many field (`StreamOfGroups`) under the path extended by the target, or an embedded object with exactly the embedded leaf values; with a null group it fails exactly when the field reads a row |
| JooqMapper.Mapper.InjectProperty | src/main/java/com/github/qzagarese/jooqmapper/JooqMapper.java:68-79 | no row leaves the object unchanged; otherwise it fails exactly when the column is unknown, and it assigns the (converted) column value |
| JooqMapper.Mapper.InjectEmbedded | src/main/java/com/github/qzagarese/jooqmapper/JooqMapper.java:81-92 | no row leaves the object unchanged; otherwise it fails exactly when the embedded fields fail; it assigns a new object of the field's class whose fields are exactly the embedded leaf values |
| JooqMapper.Mapper.InjectOneToOne | src/main/java/com/github/qzagarese/jooqmapper/JooqMapper.java:94-117 | an empty group leaves the field unset; the join column (for `Other`, the target binding first) and then the target binding are checked; a lookup on the path that throws is a `NullDereference`; a reused ancestor is assigned as is; otherwise, with depth left, the field holds the instance that `build` of the nested mapper yields, built under the path extended by the target from a group of the current rows regrouped by the join column (`BuildOfGroups`); the outcome is `FieldPasses` or `FieldFails`, nested builds included |
| JooqMapper.Mapper.BuildRelated | src/main/java/com/github/qzagarese/jooqmapper/JooqMapper.java:111-113 | the nested `build` of a one-to-one field that is not reused: a new instance of the field's class, built under the path extended by the target from a group of the current rows regrouped by the join column (`BuildOfGroups`); its success is the field's `NestedPasses` and its failure the field's `NestedFails` |
| JooqMapper.Mapper.InjectOneToMany | src/main/java/com/github/qzagarese/jooqmapper/JooqMapper.java:147-158 | an empty group leaves the field unset; the target binding, the join column and the collection type are checked in that order; otherwise, with depth left, the field collects exactly the elements of the nested stream, one per join-value group of the current rows, each built under the path extended by the target (`StreamOfGroups`); the outcome is `FieldPasses` or `FieldFails`, nested builds included |
| JooqMapper.Mapper.BuildElements | src/main/java/com/github/qzagarese/jooqmapper/JooqMapper.java:154-157 | the nested stream over the group regrouped by the join column, under the path extended by the target, collected as the kind says: as many new, distinct instances as distinct non-null join values, each built from its join-value group (`StreamOfGroups`); success and failure are the field's `NestedPasses` and `NestedFails` |
| JooqMapper.Mapper.StreamRelated | src/main/java/com/github/qzagarese/jooqmapper/JooqMapper.java:154-155 | the nested `buildStream` of a one-to-many field: as many new, distinct instances of the target class as distinct non-null join values, each built from its join-value group under the path extended by the target (`StreamOfGroups`); its success is the field's `NestedPasses` and its failure the field's `NestedFails` |
| JooqMapper.Mapper.NestedOver | src/main/java/com/github/qzagarese/jooqmapper/JooqMapper.java:112 | the nested mapper keeps the schema, has one level fewer, the ancestor path extended by the target with the representative row's pivot value, and the group's rows grouped by the join column |

## Left out

- Reflection is replaced by the `Schema` value. Class declarations, field order and annotations are data.
- `instantiate` failing (no zero-argument constructor) is not modelled. Every class can be instantiated.
- `injectValue` rejecting a value of the wrong Java type is not modelled. The model has no Java type system.
- jOOQ throws when a record is asked for a column it does not carry. The model reads such a column as null.
- A `PropertyConverter` is an arbitrary total function on column values. Converter exceptions and converter instantiation failures are not modelled.
- The streams are lazy in the Java code. The model builds eagerly, in the order the Java code evaluates them. The collection type is still tested before any element of a one-to-many field is built.
- Iteration order of `HashMap` and `HashSet` is left unspecified. `StreamOf` and the representative row chosen with `:|` stand for it.
- A `Set` field built by `Collectors.toSet()` deduplicates by the entity's `equals` and `hashCode`. The model compares instances by reference, which matches the default `equals`.
- Recursion is bounded by a `depth` on the mapper, and running out gives `DepthExceeded`. In the Java code, a cycle made of one-to-many fields only is never cut by `findAmongPredecessors` and recurses without end.
- `findAmongPredecessors` returns `Optional.empty()` for an absent first record (lines 120-121). Its one caller (line 109) runs after the check for an empty group at line 95, so that branch is unreachable and not modelled.
- JooqMapper.Mapper.FillFields: an object built by a nested mapper for a one-to-one field that is not reused, and an embedded object, are described by their class only. That every field passes is stated (`FieldPasses`). InjectField states the nested build and the embedded fields, but the loop does not carry them to its postcondition.
- JooqMapper.Mapper.BuildOne: the same holds, through `Built`. Its contract also does not state that the embedded and relationship objects are new.
- JooqMapper.Mapper.Build: the same holds for the instance of a group, through `BuildOfGroups`.
- JooqMapper.Mapper.BuildStream: the same holds for each instance, through `StreamOfGroups`.
- MapperLogic.BackReference is therefore proved about what a nested build yields, one level down. It is not connected to the objects that `Build` or `BuildStream` return, because `Built` does not describe nested objects.
- `Filled` describes a one-to-many field by the count and class of its elements, and does not describe the elements' own fields; InjectField, InjectOneToMany, BuildElements and StreamRelated state that each element is built from its join-value group.
- The public API taking a Java `Stream<Record>` that is consumed once is modelled as a sequence of rows. Re-consumption errors are not modelled.

## Behaviour of the code

- A one-to-one field is not left unset when no row carries its join value. `JooqMapper.java:109-116` calls `build` on a nested mapper over the current group. When the join column is null in every row, that mapper has no group, and `build` runs `buildOne` on a null group. This throws a `NullPointerException` if the class has a leaf or embedded field, and otherwise yields an instance with no field set. See Mapper.Build.
- `indexBy` does not keep an arbitrary row when two rows share a key. `RecordUtils.java:18-19` uses `Collectors.toMap` without a merge function, which throws in that case. `IndexBy` returns `DuplicateKey`.
