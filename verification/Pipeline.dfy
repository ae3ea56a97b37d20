/** The push pipeline: what a tree of physical operators hands to its parent, against the naive tree. */
module Pipeline {
  import opened FlatMaps
  import opened QueryPlan
  import opened LogicalOperators
  import opened HashJoins

  /** The same bag of rows, as far as the columns `cols` can tell. */
  ghost predicate SameBag(rows: seq<Row>, others: seq<Row>, cols: set<IU>)
  {
    multiset(FlatMap(rows, Columns(cols))) == multiset(FlatMap(others, Columns(cols)))
  }

  /** An operator that looks at the columns `cols` only may be fed with pruned rows. */
  lemma PruningBeforeIsHarmless<B>(rows: seq<Row>, cols: set<IU>, f: Row -> seq<B>)
    requires forall row | row in rows :: f(Project(row, cols)) == f(row)
    ensures FlatMap(FlatMap(rows, Columns(cols)), f) == FlatMap(rows, f)
  {
    FlatMapTwice(rows, Columns(cols), f);
    forall row | row in rows ensures Then(Columns(cols), f)(row) == f(row) {
      FlatMapOne(Project(row, cols), f);
    }
    FlatMapSame(rows, Then(Columns(cols), f), f);
  }

  lemma SameBagSameResult<B>(rows: seq<Row>, others: seq<Row>, cols: set<IU>, f: Row -> seq<B>)
    requires SameBag(rows, others, cols)
    requires forall row | row in rows :: f(Project(row, cols)) == f(row)
    requires forall row | row in others :: f(Project(row, cols)) == f(row)
    ensures multiset(FlatMap(rows, f)) == multiset(FlatMap(others, f))
  {
    PruningBeforeIsHarmless(rows, cols, f);
    PruningBeforeIsHarmless(others, cols, f);
    FlatMapOfBag(FlatMap(rows, Columns(cols)), FlatMap(others, Columns(cols)), f);
  }

  // ----- select

  lemma KeepPruned(row: Row, condition: Exp, cols: set<IU>, expected: set<IU>)
    requires cols <= row.Keys && expected + CollectRequired(condition) <= cols
    ensures Then(Keep(condition), Columns(expected))(Project(row, cols))
         == Then(Keep(condition), Columns(expected))(row)
  {
    hide Evaluate, CollectRequired, FlatMap;
    EvaluateDependsOnRequired(condition, Project(row, cols), row);
    FlatMapNone(Columns(expected));
    FlatMapOne(row, Columns(expected));
    FlatMapOne(Project(row, cols), Columns(expected));
    assert Project(Project(row, cols), expected) == Project(row, expected);
  }

  lemma SelectKeepsBag(rows: seq<Row>, others: seq<Row>, condition: Exp, cols: set<IU>, expected: set<IU>)
    requires SameBag(rows, others, cols) && HasColumns(rows, cols) && HasColumns(others, cols)
    requires expected + CollectRequired(condition) <= cols
    ensures SameBag(FlatMap(rows, Keep(condition)), FlatMap(others, Keep(condition)), expected)
  {
    var f := Then(Keep(condition), Columns(expected));
    forall row | row in rows + others ensures f(Project(row, cols)) == f(row) {
      KeepPruned(row, condition, cols, expected);
    }
    assert forall row | row in rows :: row in rows + others;
    assert forall row | row in others :: row in rows + others;
    SameBagSameResult(rows, others, cols, f);
    FlatMapTwice(rows, Keep(condition), Columns(expected));
    FlatMapTwice(others, Keep(condition), Columns(expected));
  }

  // ----- join

  /** One pair of rows joins to the same expected columns before and after pruning. */
  lemma JoinPruned(l: Row, r: Row, pairs: seq<(Exp, Exp)>, equals: (int, int) -> bool,
                   left: set<IU>, right: set<IU>, expected: set<IU>)
    requires PairsScoped(pairs, left, right) && left <= l.Keys && right <= r.Keys
    requires l.Keys !! right && r.Keys !! left && expected <= left + right
    ensures Then(JoinWith(pairs, equals, Project(r, right)), Columns(expected))(Project(l, left))
         == Then(JoinWith(pairs, equals, r), Columns(expected))(l)
  {
    PrunedSidesMatchAlike(pairs, l, r, left, right, equals);
    FlatMapOne(l + r, Columns(expected));
    var pruned := Project(l, left) + Project(r, right);
    FlatMapOne(pruned, Columns(expected));
    assert Project(pruned, expected) == Project(l + r, expected);
  }

  ghost function NestedLoop(lefts: seq<Row>, rights: seq<Row>, pairs: seq<(Exp, Exp)>, equals: (int, int) -> bool)
    : seq<Row>
  {
    FlatMap(rights, JoinAll(pairs, equals, lefts))
  }

  lemma NestedLoopOfBags(l1: seq<Row>, l2: seq<Row>, r1: seq<Row>, r2: seq<Row>,
                         pairs: seq<(Exp, Exp)>, equals: (int, int) -> bool)
    requires multiset(l1) == multiset(l2) && multiset(r1) == multiset(r2)
    ensures multiset(NestedLoop(l1, r1, pairs, equals)) == multiset(NestedLoop(l2, r2, pairs, equals))
  {
    forall r | r in r1
      ensures multiset(JoinAll(pairs, equals, l1)(r)) == multiset(JoinAll(pairs, equals, l2)(r))
    {
      FlatMapOfBag(l1, l2, JoinWith(pairs, equals, r));
    }
    FlatMapSameBags(r1, JoinAll(pairs, equals, l1), JoinAll(pairs, equals, l2));
    FlatMapOfBag(r1, r2, JoinAll(pairs, equals, l2));
  }

  ghost predicate Apart(rows: seq<Row>, cols: set<IU>)
  {
    forall row | row in rows :: row.Keys !! cols
  }

  /** One row of the right side, against all rows of the left side. */
  lemma ProbePruned(lefts: seq<Row>, r: Row, pairs: seq<(Exp, Exp)>, equals: (int, int) -> bool,
                    left: set<IU>, right: set<IU>, expected: set<IU>)
    requires PairsScoped(pairs, left, right) && HasColumns(lefts, left) && Apart(lefts, right)
    requires right <= r.Keys && r.Keys !! left && expected <= left + right
    ensures Then(JoinAll(pairs, equals, FlatMap(lefts, Columns(left))), Columns(expected))(Project(r, right))
         == Then(JoinAll(pairs, equals, lefts), Columns(expected))(r)
  {
    var pruned := FlatMap(lefts, Columns(left));
    var f := Then(JoinWith(pairs, equals, Project(r, right)), Columns(expected));
    var g := Then(JoinWith(pairs, equals, r), Columns(expected));
    FlatMapTwice(pruned, JoinWith(pairs, equals, Project(r, right)), Columns(expected));
    FlatMapTwice(lefts, JoinWith(pairs, equals, r), Columns(expected));
    FlatMapTwice(lefts, Columns(left), f);
    forall l | l in lefts ensures Then(Columns(left), f)(l) == g(l) {
      FlatMapOne(Project(l, left), f);
      JoinPruned(l, r, pairs, equals, left, right, expected);
    }
    FlatMapSame(lefts, Then(Columns(left), f), g);
  }

  /** Pruning both inputs of a nested loop to what the join requires leaves the expected columns alone. */
  lemma NestedLoopPruned(lefts: seq<Row>, rights: seq<Row>, pairs: seq<(Exp, Exp)>, equals: (int, int) -> bool,
                         left: set<IU>, right: set<IU>, expected: set<IU>)
    requires PairsScoped(pairs, left, right) && expected <= left + right
    requires HasColumns(lefts, left) && Apart(lefts, right) && HasColumns(rights, right) && Apart(rights, left)
    ensures FlatMap(NestedLoop(FlatMap(lefts, Columns(left)), FlatMap(rights, Columns(right)), pairs, equals),
                    Columns(expected))
         == FlatMap(NestedLoop(lefts, rights, pairs, equals), Columns(expected))
  {
    var prunedLefts, prunedRights := FlatMap(lefts, Columns(left)), FlatMap(rights, Columns(right));
    var f := Then(JoinAll(pairs, equals, prunedLefts), Columns(expected));
    var g := Then(JoinAll(pairs, equals, lefts), Columns(expected));
    FlatMapTwice(prunedRights, JoinAll(pairs, equals, prunedLefts), Columns(expected));
    FlatMapTwice(rights, JoinAll(pairs, equals, lefts), Columns(expected));
    FlatMapTwice(rights, Columns(right), f);
    forall r | r in rights ensures Then(Columns(right), f)(r) == g(r) {
      FlatMapOne(Project(r, right), f);
      ProbePruned(lefts, r, pairs, equals, left, right, expected);
    }
    FlatMapSame(rights, Then(Columns(right), f), g);
  }

  lemma JoinKeepsBag(out: seq<Row>, lefts: seq<Row>, rights: seq<Row>, naiveLefts: seq<Row>, naiveRights: seq<Row>,
                     pairs: seq<(Exp, Exp)>, equals: (int, int) -> bool,
                     left: set<IU>, right: set<IU>, expected: set<IU>)
    requires SameBag(lefts, naiveLefts, left) && SameBag(rights, naiveRights, right)
    requires PairsScoped(pairs, left, right) && expected <= left + right
    requires HasColumns(naiveLefts, left) && Apart(naiveLefts, right)
    requires HasColumns(naiveRights, right) && Apart(naiveRights, left)
    requires multiset(out)
          == multiset(NestedLoop(FlatMap(lefts, Columns(left)), FlatMap(rights, Columns(right)), pairs, equals))
    ensures SameBag(out, NestedLoop(naiveLefts, naiveRights, pairs, equals), expected)
  {
    var prunedLefts, prunedRights := FlatMap(naiveLefts, Columns(left)), FlatMap(naiveRights, Columns(right));
    NestedLoopOfBags(FlatMap(lefts, Columns(left)), prunedLefts, FlatMap(rights, Columns(right)), prunedRights,
                     pairs, equals);
    FlatMapOfBag(out, NestedLoop(prunedLefts, prunedRights, pairs, equals), Columns(expected));
    NestedLoopPruned(naiveLefts, naiveRights, pairs, equals, left, right, expected);
  }

  // ----- the operators

  /** No hash table is built from an empty input: its size is computed from the logarithm of 0. */
  ghost predicate BuildsFromRows(plan: Plan, equals: (int, int) -> bool)
  {
    match plan
    case Scan(_, _) => true
    case Select(_, child) => BuildsFromRows(child, equals)
    case Join(_, left, right) =>
      BuildsFromRows(left, equals) && BuildsFromRows(right, equals) && Naive(left, equals) != []
  }

  ghost predicate Emits(out: seq<Row>, plan: Plan, expected: set<IU>, equals: (int, int) -> bool)
  {
    && HasColumns(out, expected) && (forall row | row in out :: row.Keys <= Produced(plan))
    && SameBag(out, Naive(plan, equals), expected)
  }

  /** A scan passes on the required columns of every row. */
  method ProduceScan(table: seq<Row>, required: set<IU>) returns (out: seq<Row>)
    ensures out == FlatMap(table, Columns(required))
  {
    out := [];
    for i := 0 to |table|
      invariant out == FlatMap(table[..i], Columns(required))
    {
      assert table[..i + 1][..i] == table[..i];
      out := out + [Project(table[i], required)];
    }
    assert table[..|table|] == table;
  }

  /** A select passes on the rows that satisfy its condition, as they are. */
  method ConsumeSelect(rows: seq<Row>, condition: Exp) returns (out: seq<Row>)
    requires HasColumns(rows, CollectRequired(condition))
    ensures out == FlatMap(rows, Keep(condition))
  {
    out := [];
    for i := 0 to |rows|
      invariant out == FlatMap(rows[..i], Keep(condition))
    {
      assert rows[..i + 1][..i] == rows[..i];
      if Evaluate(condition, rows[i]) != 0 {
        out := out + [rows[i]];
      }
    }
    assert rows[..|rows|] == rows;
  }

  method ProduceLeft(join: HashJoin, lefts: seq<Row>)
    requires join.Building() && join.stored == [] && HasColumns(lefts, join.buildSet)
    modifies join`stored, join.list, join.list.nodes
    ensures join.Building() && join.stored == FlatMap(lefts, Columns(join.buildSet)) && |join.stored| == |lefts|
    ensures forall k | 0 <= k < |join.list.nodes| :: fresh(join.list.nodes[k])
  {
    for i := 0 to |lefts|
      invariant join.Building() && |join.list.nodes| == i
      invariant forall k | 0 <= k < i :: fresh(join.list.nodes[k])
      invariant join.stored == FlatMap(lefts[..i], Columns(join.buildSet))
    {
      assert lefts[..i + 1][..i] == lefts[..i];
      ghost var before := join.list.nodes;
      join.ConsumeLeft(lefts[i]);
      assert forall k | 0 <= k < i :: join.list.nodes[k] == before[k];
    }
    assert lefts[..|lefts|] == lefts;
  }

  lemma PrunedStep<B>(rows: seq<Row>, i: nat, cols: set<IU>, f: Row -> seq<B>)
    requires i < |rows|
    ensures FlatMap(FlatMap(rows[..i + 1], Columns(cols)), f)
         == FlatMap(FlatMap(rows[..i], Columns(cols)), f) + f(Project(rows[i], cols))
  {
    assert rows[..i + 1][..i] == rows[..i];
    FlatMapConcat(FlatMap(rows[..i], Columns(cols)), [Project(rows[i], cols)], f);
    FlatMapOne(Project(rows[i], cols), f);
  }

  method ProduceRight(join: HashJoin, rights: seq<Row>) returns (out: seq<Row>)
    requires join.Probing() && HasColumns(rights, join.probeSet)
    ensures multiset(out) == multiset(
              NestedLoop(join.stored, FlatMap(rights, Columns(join.probeSet)), join.pairs, join.hashing.equals))
  {
    ghost var f := JoinAll(join.pairs, join.hashing.equals, join.stored);
    out := [];
    for i := 0 to |rights|
      invariant multiset(out) == multiset(FlatMap(FlatMap(rights[..i], Columns(join.probeSet)), f))
    {
      var emitted := join.ConsumeRight(rights[i]);
      PrunedStep(rights, i, join.probeSet, f);
      out := out + emitted;
    }
    assert rights[..|rights|] == rights;
  }

  /** The left input fills the list, the list becomes the table, the right input probes it. */
  method ProduceJoin(lefts: seq<Row>, rights: seq<Row>, pairs: seq<(Exp, Exp)>, hashing: Hashing,
                     left: set<IU>, right: set<IU>) returns (out: seq<Row>)
    requires PairsScoped(pairs, left, right) && RespectsEquality(hashing)
    requires HasColumns(lefts, left) && HasColumns(rights, right) && lefts != []
    ensures multiset(out)
         == multiset(NestedLoop(FlatMap(lefts, Columns(left)), FlatMap(rights, Columns(right)), pairs, hashing.equals))
  {
    var join := new HashJoin(pairs, hashing, left, right);
    ProduceLeft(join, lefts);
    join.BuildTable();
    out := ProduceRight(join, rights);
  }

  lemma ScanEmits(plan: Plan, expected: set<IU>, equals: (int, int) -> bool)
    requires plan.Scan? && WellScoped(plan) && expected <= Produced(plan)
    ensures Emits(FlatMap(plan.table, Columns(expected)), plan, expected, equals)
  {
    ProjectedColumns(plan.table, expected);
    forall row | row in plan.table
      ensures Columns(expected)(Project(row, expected)) == Columns(expected)(row)
    {
      assert Project(Project(row, expected), expected) == Project(row, expected);
    }
    PruningBeforeIsHarmless(plan.table, expected, Columns(expected));
  }

  lemma SelectEmits(rows: seq<Row>, plan: Plan, expected: set<IU>, equals: (int, int) -> bool)
    requires plan.Select? && WellScoped(plan) && expected <= Produced(plan)
    requires Emits(rows, plan.child, Required(plan, expected), equals)
    ensures Emits(FlatMap(rows, Keep(plan.condition)), plan, expected, equals)
  {
    RequiredIsProduced(plan, expected);
    NaiveColumns(plan.child, equals);
    var naive := Naive(plan.child, equals);
    SelectKeepsBag(rows, naive, plan.condition, Required(plan, expected), expected);
    KeptRowsAreRows(rows, plan.condition);
  }

  lemma {:induction false} ProjectedLength(rows: seq<Row>, cols: set<IU>)
    ensures |FlatMap(rows, Columns(cols))| == |rows|
  {
    if rows != [] {
      ProjectedLength(rows[..|rows| - 1], cols);
    }
  }

  lemma SameBagSameLength(rows: seq<Row>, others: seq<Row>, cols: set<IU>)
    requires SameBag(rows, others, cols)
    ensures |rows| == |others|
  {
    ProjectedLength(rows, cols);
    ProjectedLength(others, cols);
    assert |multiset(FlatMap(rows, Columns(cols)))| == |multiset(FlatMap(others, Columns(cols)))|;
  }

  /** The rows of a join carry exactly the columns of both sides. */
  lemma NestedLoopColumns(lefts: seq<Row>, rights: seq<Row>, pairs: seq<(Exp, Exp)>, equals: (int, int) -> bool,
                          left: set<IU>, right: set<IU>)
    requires HasColumns(lefts, left) && HasColumns(rights, right)
    ensures forall row |
              row in NestedLoop(FlatMap(lefts, Columns(left)), FlatMap(rights, Columns(right)), pairs, equals) ::
              row.Keys == left + right
  {
    ProjectedColumns(lefts, left);
    ProjectedColumns(rights, right);
    NestedColumns(FlatMap(lefts, Columns(left)), FlatMap(rights, Columns(right)), pairs, equals, left, right);
  }

  lemma JoinEmits(out: seq<Row>, lefts: seq<Row>, rights: seq<Row>, plan: Plan, expected: set<IU>,
                  equals: (int, int) -> bool)
    requires plan.Join? && WellScoped(plan) && expected <= Produced(plan)
    requires Emits(lefts, plan.left, Expected(Required(plan, expected), plan.left), equals)
    requires Emits(rights, plan.right, Expected(Required(plan, expected), plan.right), equals)
    requires multiset(out) == multiset(NestedLoop(
               FlatMap(lefts, Columns(Expected(Required(plan, expected), plan.left))),
               FlatMap(rights, Columns(Expected(Required(plan, expected), plan.right))), plan.pairs, equals))
    ensures Emits(out, plan, expected, equals)
  {
    hide FlatMap, Columns, CollectRequired, PairColumns;
    var required := Required(plan, expected);
    var left, right := Expected(required, plan.left), Expected(required, plan.right);
    RequiredIsProduced(plan, expected);
    SidesPartitionRequired(plan, expected);
    NaiveColumns(plan.left, equals);
    NaiveColumns(plan.right, equals);
    NestedLoopColumns(lefts, rights, plan.pairs, equals, left, right);
    forall row | row in out ensures row.Keys == required {
      assert row in multiset(out);
    }
    JoinKeepsBag(out, lefts, rights, Naive(plan.left, equals), Naive(plan.right, equals),
                 plan.pairs, equals, left, right, expected);
  }

  /** Executes an operator tree below a parent that expects the columns `expected`.  The operators use
      the sets that the tree computed for them. */
  method Produce(op: Operator, ghost expected: set<IU>, hashing: Hashing) returns (out: seq<Row>)
    requires op.Shape() && op.RequiredUpToDate(expected)
    requires WellScoped(op.plan) && expected <= Produced(op.plan)
    requires RespectsEquality(hashing) && BuildsFromRows(op.plan, hashing.equals)
    ensures Emits(out, op.plan, expected, hashing.equals)
    decreases op.plan
  {
    hide Emits;
    RequiredIsProduced(op.plan, expected);
    match op.kind
    case TableScan(_, table) =>
      out := ProduceScan(table, op.required);
      ScanEmits(op.plan, expected, hashing.equals);
    case Selection(condition) =>
      var rows := Produce(op.left, op.required, hashing);
      EmittedColumns(rows, op.left.plan, op.required, hashing.equals);
      out := ConsumeSelect(rows, condition);
      SelectEmits(rows, op.plan, expected, hashing.equals);
    case EquiJoin(pairs) =>
      SidesPartitionRequired(op.plan, expected);
      var lefts := Produce(op.left, Expected(op.required, op.left.plan), hashing);
      var rights := Produce(op.right, Expected(op.required, op.right.plan), hashing);
      EmittedColumns(lefts, op.left.plan, Expected(op.required, op.left.plan), hashing.equals);
      EmittedColumns(rights, op.right.plan, Expected(op.required, op.right.plan), hashing.equals);
      out := ProduceJoin(lefts, rights, pairs, hashing, op.leftRequired, op.rightRequired);
      JoinEmits(out, lefts, rights, op.plan, expected, hashing.equals);
  }

  lemma EmittedColumns(out: seq<Row>, plan: Plan, expected: set<IU>, equals: (int, int) -> bool)
    requires Emits(out, plan, expected, equals)
    ensures HasColumns(out, expected) && |out| == |Naive(plan, equals)|
  {
    SameBagSameLength(out, Naive(plan, equals), expected);
  }

  /** A whole query: the sets are computed, the tree is executed, and the result operator outputs the
      selected columns of every row. */
  method ProduceResult(root: Result, hashing: Hashing) returns (out: seq<Row>)
    requires root.child.Shape() && root.child.Unsplit()
    requires WellScoped(root.child.plan) && root.selection <= Produced(root.child.plan)
    requires RespectsEquality(hashing) && BuildsFromRows(root.child.plan, hashing.equals)
    modifies root.child.repr
    ensures multiset(out) == multiset(FlatMap(Naive(root.child.plan, hashing.equals), Columns(root.selection)))
  {
    root.UpdateSets();
    var rows := Produce(root.child, root.selection, hashing);
    out := ProduceScan(rows, root.selection);
  }
}
