/**
 * A two-class cycle, worked through: class `A` on table `ta` has a one-to-one
 * field `b` of class `B` joined on `ta.bid`, and class `B` on table `tb` has
 * a one-to-one field `a` of class `A` joined on `tb.id`. With one nested
 * level, the nested `B` finds its `A` among its predecessors by the pivot
 * value and reuses it, so the build of `A` passes and cannot fail, whatever
 * representative row is taken.
 */
module CyclicReuse {
  import opened Wrappers
  import opened Rows
  import opened RecordUtils
  import opened Annotations
  import opened MappingErrors
  import opened AncestorTracker
  import opened MapperLogic

  const FieldB := Field("b", "B", None, Some(OneToOneSpec("bid", This)), None, false)
  const FieldA := Field("a", "A", None, Some(OneToOneSpec("id", This)), None, false)

  const Cycle := Schema(
    map["A" := TypeDecl(Some("ta"), [FieldB], false, false), "B" := TypeDecl(Some("tb"), [FieldA], false, false)],
    map["ta" := {"id", "bid"}, "tb" := {"id"}])

  /** The one row of the result: `ta.id = 1`, `ta.bid = 2`, `tb.id = 2`. */
  const CycleRow: Row := map[Column("ta", "id") := Some(IntValue(1)), Column("ta", "bid") := Some(IntValue(2)),
                             Column("tb", "id") := Some(IntValue(2))]

  /** The key the outer build of `A`, pivoting on `ta.id`, leaves on the path. */
  const OuterKey := NewKey("ta", CycleRow, Column("ta", "id"), "A")

  /** Below `A`'s node, field `a` of `B` finds that node by its pivot value and is reused. */
  lemma InnerFieldReused(records: set<Row>, rep: Row)
    requires records <= {CycleRow} && (records == {} || rep in records)
    ensures LocalOutcome(Cycle, [OuterKey], 0, "tb", FieldA, Some(records), rep) == Some(Pass)
  {
    if records != {} {
      assert rep == CycleRow;
      assert OneToOneColumn(Cycle, "tb", "A", FieldA.oneToOne.value) == Success(Column("tb", "id"));
      assert GetJooqTable(Cycle, "A") == Success("ta");
      assert Matches([OuterKey][0], "A", "ta", CycleRow);
      assert !LookupKeys([OuterKey], "A", CycleRow, "ta").NotFound?;
      assert !LookupKeys([OuterKey], "A", CycleRow, "ta").Throws?;
    }
  }

  /** The nested build of `B` fails on no part of `{CycleRow}`. */
  lemma InnerBuildCannotFail(records: set<Row>, rep: Row, e: Error)
    requires records <= {CycleRow}
    ensures !BuildFails(Cycle, [OuterKey], Column("ta", "bid"), 0, "B", Some(records), rep, e)
  {
    if BuildFails(Cycle, [OuterKey], Column("ta", "bid"), 0, "B", Some(records), rep, e) {
      InnerFieldReused(records, rep);
      assert false;
    }
  }

  /** Every group a join column gives is within the rows it came from. */
  lemma GroupsWithin(records: set<Row>, column: Column, k: Value)
    requires k in GroupsOf(records, column)
    ensures GroupsOf(records, column)[k] <= records
  {
  }

  /** The nested build of `B` fails on no group of `{CycleRow}` by `ta.bid`. */
  lemma InnerCannotFail(e: Error)
    ensures !SomeGroupFails(Cycle, [OuterKey], Column("ta", "bid"), 0, "B", GroupsOf({CycleRow}, Column("ta", "bid")), e)
  {
    var groups := GroupsOf({CycleRow}, Column("ta", "bid"));
    if SomeGroupFails(Cycle, [OuterKey], Column("ta", "bid"), 0, "B", groups, e) {
      var k, rep :| k in groups && BuildFails(Cycle, [OuterKey], Column("ta", "bid"), 0, "B", Some(groups[k]), rep, e);
      GroupsWithin({CycleRow}, Column("ta", "bid"), k);
      InnerBuildCannotFail(groups[k], rep, e);
      assert false;
    }
  }

  /** Field `b` of `A` leaves the decision to the nested build of `B` on the path `[OuterKey]`. */
  lemma OuterFieldDescends()
    ensures LocalOutcome(Cycle, [], 1, "ta", FieldB, Some({CycleRow}), CycleRow).None?
    ensures OneToOneColumn(Cycle, "ta", "B", FieldB.oneToOne.value) == Success(Column("ta", "bid"))
  {
    assert OneToOneColumn(Cycle, "ta", "B", FieldB.oneToOne.value) == Success(Column("ta", "bid"));
    assert GetJooqTable(Cycle, "B") == Success("tb");
    assert LookupKeys([], "B", CycleRow, "tb") == NotFound;
  }

  /** The build of `A` on `{CycleRow}` with one nested level passes. */
  lemma OuterPasses()
    ensures Passes(Cycle, [], Column("ta", "id"), 1, "A", Some({CycleRow}), CycleRow)
  {
    var groups := GroupsOf({CycleRow}, Column("ta", "bid"));
    assert IntValue(2) in KeyValues({CycleRow}, Column("ta", "bid"));
    assert groups[IntValue(2)] == {CycleRow};
    InnerFieldReused(groups[IntValue(2)], CycleRow);
    assert Passes(Cycle, [OuterKey], Column("ta", "bid"), 0, "B", Some(groups[IntValue(2)]), CycleRow);
    assert GroupsPass(Cycle, [OuterKey], Column("ta", "bid"), 0, "B", groups);
    OuterFieldDescends();
    assert [] + [OuterKey] == [OuterKey];
    assert NestedPasses(Cycle, [], Column("ta", "id"), 1, "A", "ta", FieldB, Some({CycleRow}), CycleRow);
  }

  /**
   * The build of `A` on `{CycleRow}` with one nested level fails for no
   * representative row and no error, so no `buildOne` on the empty path
   * returns an error there.
   */
  lemma OuterCannotFail(rep: Row, e: Error)
    ensures !BuildFails(Cycle, [], Column("ta", "id"), 1, "A", Some({CycleRow}), rep, e)
    ensures !BuildResult(Cycle, [], Column("ta", "id"), 1, "A", Some({CycleRow}), rep, Failure(e))
  {
    assert KeysOf([]) == [];
    if BuildFails(Cycle, [], Column("ta", "id"), 1, "A", Some({CycleRow}), rep, e) {
      assert rep == CycleRow;
      OuterFieldDescends();
      assert [] + [OuterKey] == [OuterKey];
      InnerCannotFail(e);
      assert false;
    }
  }
}
