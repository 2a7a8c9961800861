/**
 * The ancestor path of one build: the append-only list of
 * `RelationshipGraphNode`s from the outermost build to the current one, the
 * lookup that reuses an already built instance, and the extension made
 * before every descent into a relationship.
 */
module AncestorTracker {
  import opened Wrappers
  import opened Rows
  import opened Annotations
  import opened Entities
  import opened MappingErrors

  /** What the lookup's filter reads of a `RelationshipGraphNode`: every part of it but the instance. */
  datatype NodeKey = NodeKey(primaryField: Column, table: TableId, entityType: TypeName, primaryFieldValue: Option<Value>)

  /** `RelationshipGraphNode`: an instance built on the way down, with the pivot column and value it was built for. */
  datatype Node = Node(key: NodeKey, target: Instance)

  predicate SameTypeAndTable(k: NodeKey, entityType: TypeName, table: TableId)
  {
    k.entityType == entityType && k.table == table
  }

  /** The lookup's filter accepts the node: type, table and the row's value of the node's pivot column all match. */
  predicate Matches(k: NodeKey, entityType: TypeName, table: TableId, r: Row)
  {
    SameTypeAndTable(k, entityType, table) && Get(r, k.primaryField).Some? && Get(r, k.primaryField) == k.primaryFieldValue
  }

  /**
   * The node stops the scan: the filter either accepts it or throws on it,
   * because the row holds null in the node's pivot column.
   */
  predicate Decisive(k: NodeKey, entityType: TypeName, table: TableId, r: Row)
  {
    SameTypeAndTable(k, entityType, table) && (Get(r, k.primaryField).None? || Get(r, k.primaryField) == k.primaryFieldValue)
  }

  /** The keys of a path, node by node. */
  function KeysOf(path: seq<Node>): (r: seq<NodeKey>)
    ensures |r| == |path| && forall i | 0 <= i < |path| :: r[i] == path[i].key
  {
    seq(|path|, i requires 0 <= i < |path| => path[i].key)
  }

  /** Where the lookup's scan ends: nothing found, the node at `index` accepted, or the filter thrown. */
  datatype Lookup = NotFound | Reuses(index: nat) | Throws

  /**
   * The scan of `findAmongPredecessors` over the nodes' keys alone: the first
   * node the filter decides on, and whether it accepts it or throws.
   */
  function LookupKeys(keys: seq<NodeKey>, entityType: TypeName, r: Row, table: TableId): (res: Lookup)
    ensures res.NotFound? <==> forall i | 0 <= i < |keys| :: !Decisive(keys[i], entityType, table, r)
    ensures res.Reuses? ==>
      && res.index < |keys| && Matches(keys[res.index], entityType, table, r)
      && forall j | 0 <= j < res.index :: !Decisive(keys[j], entityType, table, r)
    ensures res.Throws? ==>
      exists i :: 0 <= i < |keys| && SameTypeAndTable(keys[i], entityType, table) && Get(r, keys[i].primaryField).None? &&
        forall j | 0 <= j < i :: !Decisive(keys[j], entityType, table, r)
    decreases |keys|
  {
    if keys == [] then NotFound
    else
      var k := keys[0];
      if SameTypeAndTable(k, entityType, table) && Get(r, k.primaryField).None? then Throws
      else if SameTypeAndTable(k, entityType, table) && Get(r, k.primaryField) == k.primaryFieldValue then Reuses(0)
      else
        var rest := LookupKeys(keys[1..], entityType, r, table);
        assert !Decisive(k, entityType, table, r);
        assert forall i | 0 <= i < |keys| - 1 :: keys[1..][i] == keys[i + 1];
        if rest.Reuses? then Reuses(rest.index + 1) else rest
  }

  /**
   * `findAmongPredecessors`: scan the path in order and return the instance of
   * the first node that matches the entity type, the table and the current
   * row's value of that node's pivot column, or none.
   */
  function FindAmongPredecessors(path: seq<Node>, entityType: TypeName, r: Row, table: TableId): (res: Result<Option<Instance>, Error>)
    ensures res == Success(None) <==> forall i | 0 <= i < |path| :: !Decisive(path[i].key, entityType, table, r)
    ensures res.Success? && res.value.Some? ==>
      exists i :: 0 <= i < |path| && Matches(path[i].key, entityType, table, r) && path[i].target == res.value.value &&
        forall j | 0 <= j < i :: !Decisive(path[j].key, entityType, table, r)
    ensures res.Failure? ==>
      res.error == NullDereference &&
      exists i :: 0 <= i < |path| && SameTypeAndTable(path[i].key, entityType, table) && Get(r, path[i].key.primaryField).None? &&
        forall j | 0 <= j < i :: !Decisive(path[j].key, entityType, table, r)
  {
    match LookupKeys(KeysOf(path), entityType, r, table)
    case NotFound => Success(None)
    case Reuses(i) => Success(Some(path[i].target))
    case Throws => Failure(NullDereference)
  }

  /** The key of the node `buildPredecessors` appends for an instance of `entityType`. */
  function NewKey(table: TableId, rep: Row, pivot: Column, entityType: TypeName): NodeKey
  {
    NodeKey(pivot, table, entityType, Get(rep, pivot))
  }

  /**
   * `buildPredecessors`: a new path, the old one with one node appended for the
   * instance being built, its table and pivot column, and the representative
   * row's pivot value. The old path is a value and is left as it was.
   */
  function BuildPredecessors(path: seq<Node>, table: TableId, rep: Row, pivot: Column, target: Instance): (r: seq<Node>)
    ensures |r| == |path| + 1 && r[..|path|] == path && r[|path|].target == target
    ensures r[|path|].key == NodeKey(pivot, table, target.entityType, Get(rep, pivot))
    ensures KeysOf(r) == KeysOf(path) + [NewKey(table, rep, pivot, target.entityType)]
  {
    path + [Node(NewKey(table, rep, pivot, target.entityType), target)]
  }

  /** Lookup on extended keys: the old keys are scanned first, and the new one is only reached past them. */
  lemma {:induction false} LookupOnExtendedKeys(keys: seq<NodeKey>, k: NodeKey, entityType: TypeName, r: Row, table: TableId)
    ensures LookupKeys(keys + [k], entityType, r, table) ==
      if LookupKeys(keys, entityType, r, table) != NotFound then LookupKeys(keys, entityType, r, table)
      else if LookupKeys([k], entityType, r, table) == Reuses(0) then Reuses(|keys|)
      else LookupKeys([k], entityType, r, table)
  {
    if keys != [] {
      assert (keys + [k])[1..] == keys[1..] + [k];
      LookupOnExtendedKeys(keys[1..], k, entityType, r, table);
    }
  }

  /** Lookup on an extended path: the old nodes are scanned first, and the new node is only reached past them. */
  lemma FindOnExtendedPath(path: seq<Node>, n: Node, entityType: TypeName, r: Row, table: TableId)
    ensures FindAmongPredecessors(path + [n], entityType, r, table) ==
      if FindAmongPredecessors(path, entityType, r, table) == Success(None)
      then FindAmongPredecessors([n], entityType, r, table)
      else FindAmongPredecessors(path, entityType, r, table)
  {
    assert KeysOf(path + [n]) == KeysOf(path) + [n.key];
    assert KeysOf([n]) == [n.key];
    LookupOnExtendedKeys(KeysOf(path), n.key, entityType, r, table);
    var ext := path + [n];
    if LookupKeys(KeysOf(path), entityType, r, table).Reuses? {
      assert ext[LookupKeys(KeysOf(path), entityType, r, table).index] == path[LookupKeys(KeysOf(path), entityType, r, table).index];
    }
  }

  /** The index of the first key with the given entity type and table, if any. */
  function FirstOfTypeAndTableIndex(keys: seq<NodeKey>, entityType: TypeName, table: TableId): (r: Option<nat>)
    ensures r.None? <==> forall i | 0 <= i < |keys| :: !SameTypeAndTable(keys[i], entityType, table)
    ensures r.Some? ==>
      && r.value < |keys| && SameTypeAndTable(keys[r.value], entityType, table)
      && forall j | 0 <= j < r.value :: !SameTypeAndTable(keys[j], entityType, table)
    decreases |keys|
  {
    if keys == [] then None
    else if SameTypeAndTable(keys[0], entityType, table) then Some(0)
    else
      var rest := FirstOfTypeAndTableIndex(keys[1..], entityType, table);
      assert forall i | 0 <= i < |keys| - 1 :: keys[1..][i] == keys[i + 1];
      if rest.Some? then Some(rest.value + 1) else None
  }

  /** The instance of the first node with the given entity type and table, if any. */
  function FirstOfTypeAndTable(path: seq<Node>, entityType: TypeName, table: TableId): (r: Option<Instance>)
    ensures r.None? <==> forall i | 0 <= i < |path| :: !SameTypeAndTable(path[i].key, entityType, table)
    ensures r.Some? ==>
      exists i :: 0 <= i < |path| && SameTypeAndTable(path[i].key, entityType, table) && path[i].target == r.value &&
        forall j | 0 <= j < i :: !SameTypeAndTable(path[j].key, entityType, table)
  {
    match FirstOfTypeAndTableIndex(KeysOf(path), entityType, table)
    case None => None
    case Some(i) => Some(path[i].target)
  }

  /**
   * The invariant of every path the mapper builds: each node's pivot value is
   * non-null and is carried by every row still being mapped.
   */
  ghost predicate PathConsistent(rows: set<Row>, path: seq<Node>)
  {
    forall i, r | 0 <= i < |path| && r in rows :: path[i].key.primaryFieldValue.Some? && Get(r, path[i].key.primaryField) == path[i].key.primaryFieldValue
  }

  /**
   * When every key's pivot value is the row's non-null value in that column,
   * the lookup never throws, and it reuses the first key of the entity type
   * and table.
   */
  lemma {:induction false} LookupOnConsistentKeys(keys: seq<NodeKey>, entityType: TypeName, r: Row, table: TableId)
    requires forall i | 0 <= i < |keys| :: keys[i].primaryFieldValue.Some? && Get(r, keys[i].primaryField) == keys[i].primaryFieldValue
    ensures LookupKeys(keys, entityType, r, table) ==
      match FirstOfTypeAndTableIndex(keys, entityType, table)
      case None => NotFound
      case Some(i) => Reuses(i)
    decreases |keys|
  {
    if keys != [] {
      assert forall i | 0 <= i < |keys| - 1 :: keys[1..][i] == keys[i + 1];
      LookupOnConsistentKeys(keys[1..], entityType, r, table);
    }
  }

  /**
   * On a consistent path the lookup never throws, and its value test always
   * passes: the instance reused is that of the first node of the same entity
   * type and table.
   */
  lemma LookupOnConsistentPath(rows: set<Row>, path: seq<Node>, entityType: TypeName, r: Row, table: TableId)
    requires r in rows && PathConsistent(rows, path)
    ensures FindAmongPredecessors(path, entityType, r, table) == Success(FirstOfTypeAndTable(path, entityType, table))
  {
    LookupOnConsistentKeys(KeysOf(path), entityType, r, table);
  }

  /**
   * Descending into a group keeps the path consistent: the group's rows are
   * rows of the enclosing mapping, and they all share the pivot value that the
   * appended node records.
   */
  lemma ExtendKeepsConsistent(rows: set<Row>, group: set<Row>, path: seq<Node>, table: TableId, rep: Row, pivot: Column, target: Instance)
    requires PathConsistent(rows, path) && group <= rows
    requires rep in group && forall x | x in group :: Get(x, pivot).Some? && Get(x, pivot) == Get(rep, pivot)
    ensures PathConsistent(group, BuildPredecessors(path, table, rep, pivot, target))
  {
  }

  /**
   * On a path extended by `target`, the first node of `target`'s class and
   * table is the new one when the old path has none.
   */
  lemma FirstOnExtendedPath(path: seq<Node>, table: TableId, rep: Row, pivot: Column, target: Instance)
    requires forall j | 0 <= j < |path| :: !SameTypeAndTable(path[j].key, target.entityType, table)
    ensures FirstOfTypeAndTable(BuildPredecessors(path, table, rep, pivot, target), target.entityType, table) == Some(target)
  {
    var ext := BuildPredecessors(path, table, rep, pivot, target);
    assert SameTypeAndTable(ext[|path|].key, target.entityType, table);
    assert forall j | 0 <= j < |path| :: ext[j] == path[j];
  }
}
