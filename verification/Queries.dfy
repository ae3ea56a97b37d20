/** Queries from end to end: the tables of branches are scanned on the heap, and the operator tree above
    the scans runs on the rows they yield. */
module Queries {
  import opened FlatMaps
  import Wrappers
  import opened QueryPlan
  import opened LogicalOperators
  import opened HashJoins
  import opened Pipeline
  import opened Buckets
  import opened VersionChain
  import opened VersionedTable
  import VersionLog
  import PrivateCopies
  import D = Database

  /** Every table of a query is read in a branch of its own; `ius` names its columns. */
  datatype Query =
    | From(table: string, branch: nat, ius: seq<IU>)
    | Where(condition: Exp, input: Query)
    | On(pairs: seq<(Exp, Exp)>, left: Query, right: Query)

  // ----- tuples as rows

  function ColumnsOf(ius: seq<IU>): set<IU>
  {
    set iu | iu in ius
  }

  function RowOf(ius: seq<IU>, tuple: VersionLog.Tuple): (row: Row)
    requires |tuple| == |ius| && Distinct(ius)
    ensures row.Keys == ColumnsOf(ius) && forall k | 0 <= k < |ius| :: row[ius[k]] == tuple[k]
  {
    if ius == [] then map[] else
      var last := |ius| - 1;
      assert ius == ius[..last] + [ius[last]];
      RowOf(ius[..last], tuple[..last])[ius[last] := tuple[last]]
  }

  predicate HasWidth(tuples: seq<(nat, VersionLog.Tuple)>, width: nat)
  {
    forall k | 0 <= k < |tuples| :: |tuples[k].1| == width
  }

  function RowsOf(ius: seq<IU>, tuples: seq<(nat, VersionLog.Tuple)>): seq<Row>
    requires Distinct(ius) && HasWidth(tuples, |ius|)
  {
    seq(|tuples|, k requires 0 <= k < |tuples| => RowOf(ius, tuples[k].1))
  }

  // ----- what a query means

  /** The private copy of the branch, in the order of the tuple ids. */
  function CopyOf(m: PrivateCopies.Naive, table: string, branch: nat): seq<(nat, VersionLog.Tuple)>
    requires table in m.tables && branch < |m.tables[table].copies|
  {
    PrivateCopies.Listing(m.tables[table].copies[branch], m.tables[table].count)
  }

  /** The query names tables and branches that exist, and a column for each value of a tuple. */
  ghost predicate Reads(q: Query, m: PrivateCopies.Naive)
  {
    match q
    case From(table, branch, ius) =>
      && table in m.tables && branch < |m.tables[table].copies|
      && Distinct(ius) && HasWidth(CopyOf(m, table, branch), |ius|)
    case Where(_, input) => Reads(input, m)
    case On(_, left, right) => Reads(left, m) && Reads(right, m)
  }

  /** The operator tree over the private copies that the query reads. */
  ghost function Bound(q: Query, m: PrivateCopies.Naive): Plan
    requires Reads(q, m)
  {
    match q
    case From(table, branch, ius) => Scan(ColumnsOf(ius), RowsOf(ius, CopyOf(m, table, branch)))
    case Where(condition, input) => Select(condition, Bound(input, m))
    case On(pairs, left, right) => Join(pairs, Bound(left, m), Bound(right, m))
  }

  /** What a query reads of a table: one row for each tuple of the branch's private copy, with the value of
      each column under its name. */
  lemma FromMeaning(table: string, branch: nat, ius: seq<IU>, m: PrivateCopies.Naive, row: Row)
    requires PrivateCopies.NaiveInv(m) && Reads(From(table, branch, ius), m)
    ensures var plan := Bound(From(table, branch, ius), m);
            && plan.Scan? && plan.columns == ColumnsOf(ius)
            && |plan.table| == |CopyOf(m, table, branch)|
            && (row in plan.table
                <==> exists tid: nat, tuple ::
                       && PrivateCopies.ValueIn(m, table, branch, tid) == Wrappers.Some(tuple)
                       && |tuple| == |ius| && row.Keys == ColumnsOf(ius)
                       && forall k | 0 <= k < |ius| :: row[ius[k]] == tuple[k])
  {
    var copy := CopyOf(m, table, branch);
    PrivateCopies.ListingMeaning(m.tables[table].copies[branch], m.tables[table].count);
    var rows := RowsOf(ius, copy);
    if row in rows {
      var i :| 0 <= i < |rows| && rows[i] == row;
      assert (copy[i].0, copy[i].1) in copy && |copy[i].1| == |ius|;
      assert PrivateCopies.ValueIn(m, table, branch, copy[i].0) == Wrappers.Some(copy[i].1);
    }
    if tid: nat, tuple :| (
         && PrivateCopies.ValueIn(m, table, branch, tid) == Wrappers.Some(tuple)
         && |tuple| == |ius| && row.Keys == ColumnsOf(ius)
         && forall k | 0 <= k < |ius| :: row[ius[k]] == tuple[k])
    {
      assert (tid, tuple) in copy;
      var i :| 0 <= i < |copy| && copy[i] == (tid, tuple);
      SameColumns(ius, row, rows[i], tuple);
    }
  }

  lemma SameColumns(ius: seq<IU>, r: Row, s: Row, tuple: VersionLog.Tuple)
    requires |tuple| == |ius| && r.Keys == ColumnsOf(ius) && s.Keys == ColumnsOf(ius)
    requires forall k | 0 <= k < |ius| :: r[ius[k]] == tuple[k] && s[ius[k]] == tuple[k]
    ensures r == s
  {
    forall iu | iu in r.Keys ensures r[iu] == s[iu] {
      var k :| 0 <= k < |ius| && ius[k] == iu;
    }
  }

  /** And the operators above: a select below its condition, a join below its pairs. */
  lemma AboveMeaning(q: Query, m: PrivateCopies.Naive)
    requires Reads(q, m)
    ensures q.Where? ==> Bound(q, m) == Select(q.condition, Bound(q.input, m))
    ensures q.On? ==> Bound(q, m) == Join(q.pairs, Bound(q.left, m), Bound(q.right, m))
  {
  }

  function ColumnsOfQuery(q: Query): set<IU>
  {
    match q
    case From(_, _, ius) => ColumnsOf(ius)
    case Where(_, input) => ColumnsOfQuery(input)
    case On(_, left, right) => ColumnsOfQuery(left) + ColumnsOfQuery(right)
  }

  /** Every expression finds its columns, and no column has two sources. */
  ghost predicate Scoped(q: Query)
  {
    match q
    case From(_, _, _) => true
    case Where(condition, input) => Scoped(input) && CollectRequired(condition) <= ColumnsOfQuery(input)
    case On(pairs, left, right) =>
      && Scoped(left) && Scoped(right) && ColumnsOfQuery(left) !! ColumnsOfQuery(right)
      && PairsScoped(pairs, ColumnsOfQuery(left), ColumnsOfQuery(right))
  }

  lemma {:induction false} BoundIsWellScoped(q: Query, m: PrivateCopies.Naive)
    requires Scoped(q) && Reads(q, m)
    ensures WellScoped(Bound(q, m)) && Produced(Bound(q, m)) == ColumnsOfQuery(q)
  {
    match q
    case From(_, _, _) =>
    case Where(_, input) => BoundIsWellScoped(input, m);
    case On(_, left, right) =>
      BoundIsWellScoped(left, m);
      BoundIsWellScoped(right, m);
  }

  // ----- isolation of queries

  ghost predicate ReadsBranch(q: Query, branch: nat)
  {
    match q
    case From(_, b, _) => b == branch
    case Where(_, input) => ReadsBranch(input, branch)
    case On(_, left, right) => ReadsBranch(left, branch) || ReadsBranch(right, branch)
  }

  predicate WritesTo(op: PrivateCopies.Op, branch: nat)
  {
    match op
    case Insert(_, b, _) => b == branch
    case Update(_, b, _, _) => b == branch
    case Delete(_, b, _) => b == branch
    case _ => false
  }

  lemma {:induction false} NothingBehind(copy: map<nat, VersionLog.Tuple>, n: nat, more: nat)
    requires n <= more && forall tid | tid in copy :: tid < n
    ensures PrivateCopies.Listing(copy, more) == PrivateCopies.Listing(copy, n)
  {
    if n < more {
      NothingBehind(copy, n, more - 1);
    }
  }

  lemma CopyIsUnchanged(m: PrivateCopies.Naive, op: PrivateCopies.Op, table: string, branch: nat)
    requires PrivateCopies.NaiveInv(m) && PrivateCopies.NaiveLegal(m, op)
    requires !WritesTo(op, branch)
    requires table in m.tables && branch < |m.tables[table].copies|
    ensures var after := PrivateCopies.NaiveStep(m, op);
            && table in after.tables && branch < |after.tables[table].copies|
            && CopyOf(after, table, branch) == CopyOf(m, table, branch)
  {
    var t := m.tables[table];
    if op.Insert? && op.table == table {
      NothingBehind(t.copies[branch], t.count, t.count + 1);
    }
  }

  /** No operation changes the answer to a query that reads other branches than the operation writes. */
  lemma {:induction false} OtherBranchesDoNotShow(q: Query, m: PrivateCopies.Naive, op: PrivateCopies.Op)
    requires PrivateCopies.NaiveInv(m) && PrivateCopies.NaiveLegal(m, op)
    requires Reads(q, m)
    requires forall branch | ReadsBranch(q, branch) :: !WritesTo(op, branch)
    ensures var after := PrivateCopies.NaiveStep(m, op);
            Reads(q, after) && Bound(q, after) == Bound(q, m)
  {
    match q
    case From(table, branch, ius) =>
      assert ReadsBranch(q, branch);
      CopyIsUnchanged(m, op, table, branch);
    case Where(_, input) =>
      assert forall branch | ReadsBranch(input, branch) :: ReadsBranch(q, branch);
      OtherBranchesDoNotShow(input, m, op);
    case On(_, left, right) =>
      assert forall branch | ReadsBranch(left, branch) :: ReadsBranch(q, branch);
      assert forall branch | ReadsBranch(right, branch) :: ReadsBranch(q, branch);
      OtherBranchesDoNotShow(left, m, op);
      OtherBranchesDoNotShow(right, m, op);
  }

  // ----- execution

  /** The operators of a query, over the tuples that scans of the tables yield. */
  method BuildTree(q: Query, db: D.Database, ctx: ExecutionContext) returns (op: Operator)
    requires db.Valid() && ctx !in db.repr && db.ValidContext(ctx) && Reads(q, db.model)
    modifies ctx
    ensures db.ValidContext(ctx)
    ensures fresh(op.repr) && op.Shape() && op.Unsplit() && op.plan == Bound(q, db.model)
    decreases q
  {
    hide D.Database.Valid, D.Database.ValidContext, RowOf, Distinct, PrivateCopies.Listing;
    if q.From? {
      var scanned := db.ScanTable(q.table, q.branch, ctx);
      op := new Operator.TableScanOf(ColumnsOf(q.ius), RowsOf(q.ius, scanned.value));
    } else if q.Where? {
      var child := BuildTree(q.input, db, ctx);
      op := new Operator.SelectionOf(q.condition, child);
    } else {
      var left := BuildTree(q.left, db, ctx);
      var right := BuildTree(q.right, db, ctx);
      op := new Operator.EquiJoinOf(q.pairs, left, right);
    }
  }

  /** A query outputs, as a bag, what the naive tree yields on the private copies of its branches. */
  method RunQuery(q: Query, selection: set<IU>, hashing: Hashing, db: D.Database, ctx: ExecutionContext)
    returns (out: seq<Row>)
    requires db.Valid() && ctx !in db.repr && db.ValidContext(ctx) && Reads(q, db.model)
    requires Scoped(q) && selection <= ColumnsOfQuery(q)
    requires RespectsEquality(hashing) && BuildsFromRows(Bound(q, db.model), hashing.equals)
    modifies ctx
    ensures multiset(out) == multiset(FlatMap(Naive(Bound(q, db.model), hashing.equals), Columns(selection)))
  {
    hide D.Database.Valid, D.Database.ValidContext, Bound, Reads, Naive;
    BoundIsWellScoped(q, db.model);
    var op := BuildTree(q, db, ctx);
    var root := new Result(op, selection);
    out := ProduceResult(root, hashing);
  }

  /** And so after every accepted run of operations on a new database. */
  method RunAndQuery(ops: seq<PrivateCopies.Op>, q: Query, selection: set<IU>, hashing: Hashing)
    returns (out: seq<Row>)
    requires PrivateCopies.NaiveRun(ops).Some?
    requires PrivateCopies.NaiveRun(ops).value.branches <= BITMAP_COLUMNS
    requires Reads(q, PrivateCopies.NaiveRun(ops).value) && Scoped(q) && selection <= ColumnsOfQuery(q)
    requires RespectsEquality(hashing)
    requires BuildsFromRows(Bound(q, PrivateCopies.NaiveRun(ops).value), hashing.equals)
    ensures var m := PrivateCopies.NaiveRun(ops).value;
            multiset(out) == multiset(FlatMap(Naive(Bound(q, m), hashing.equals), Columns(selection)))
  {
    var db, ctx := D.RunAll(ops);
    out := RunQuery(q, selection, hashing, db, ctx);
  }
}
