/** The errors a build can end with; every one aborts the whole build. */
module MappingErrors {
  import opened Annotations
  import opened Rows

  datatype Error =
    /** `getJooqTable`: the class carries no `@JooqTable`. */
    | MissingTableBinding(entityType: TypeName)
    /** `retrieveTableField`: the bound table class declares no such column field. */
    | UnknownColumn(table: TableId, column: string)
    /** `convertStream`: a one-to-many field whose type is neither a `Set` nor a `List`. */
    | UnsupportedCollection(field: FieldName)
    /** A `NullPointerException`: `records.stream()` on a null group, or `null.equals(...)`. */
    | NullDereference
    /** The depth bound ran out: stands for the unbounded recursion of the Java code. */
    | DepthExceeded
}
