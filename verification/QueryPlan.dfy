/** Trees of scans, selects and joins: which columns each node needs, and what the tree means. */
module QueryPlan {
  import opened FlatMaps

  /** An information unit: one column of one operator. */
  type IU = nat

  /** The values an operator passes to its parent. */
  type Row = map<IU, int>

  datatype Exp =
    | Identifier(iu: IU)
    | Constant(value: int)
    | Cast(convert: int -> int, child: Exp)
    | Binary(apply: (int, int) -> int, left: Exp, right: Exp)

  datatype Plan =
    | Scan(columns: set<IU>, table: seq<Row>)
    | Select(condition: Exp, child: Plan)
    | Join(pairs: seq<(Exp, Exp)>, left: Plan, right: Plan)

  // ----- expressions

  function CollectRequired(exp: Exp): set<IU>
  {
    match exp
    case Identifier(iu) => {iu}
    case Constant(_) => {}
    case Cast(_, child) => CollectRequired(child)
    case Binary(_, left, right) => CollectRequired(left) + CollectRequired(right)
  }

  /** Reading a column that the row does not carry throws; here it is ruled out. */
  function Evaluate(exp: Exp, row: Row): int
    requires CollectRequired(exp) <= row.Keys
  {
    match exp
    case Identifier(iu) => row[iu]
    case Constant(value) => value
    case Cast(convert, child) => convert(Evaluate(child, row))
    case Binary(apply, left, right) => apply(Evaluate(left, row), Evaluate(right, row))
  }

  predicate Agree(cols: set<IU>, r: Row, s: Row)
  {
    forall iu | iu in cols :: iu in r && iu in s && r[iu] == s[iu]
  }

  lemma {:induction false} EvaluateDependsOnRequired(exp: Exp, r: Row, s: Row)
    requires Agree(CollectRequired(exp), r, s)
    ensures CollectRequired(exp) <= r.Keys && CollectRequired(exp) <= s.Keys
    ensures Evaluate(exp, r) == Evaluate(exp, s)
  {
    match exp
    case Identifier(_) =>
    case Constant(_) =>
    case Cast(_, child) => EvaluateDependsOnRequired(child, r, s);
    case Binary(_, left, right) =>
      EvaluateDependsOnRequired(left, r, s);
      EvaluateDependsOnRequired(right, r, s);
  }

  // ----- column demand

  function PairColumns(pairs: seq<(Exp, Exp)>): set<IU>
  {
    if pairs == [] then {} else
      var last := pairs[|pairs| - 1];
      PairColumns(pairs[..|pairs| - 1]) + CollectRequired(last.0) + CollectRequired(last.1)
  }

  function Produced(plan: Plan): set<IU>
  {
    match plan
    case Scan(columns, _) => columns
    case Select(_, child) => Produced(child)
    case Join(_, left, right) => Produced(left) + Produced(right)
  }

  /** What an operator requires when its parent expects the columns `expected` of it. */
  function Required(plan: Plan, expected: set<IU>): set<IU>
  {
    match plan
    case Scan(_, _) => expected
    case Select(condition, _) => expected + CollectRequired(condition)
    case Join(pairs, _, _) => expected + PairColumns(pairs)
  }

  /** What a join expects of one of its children. */
  function Expected(required: set<IU>, child: Plan): set<IU>
  {
    required * Produced(child)
  }

  /** The part of a join's required set that is attributed to one child. */
  function Side(required: set<IU>, child: Plan): set<IU>
  {
    required * Required(child, Expected(required, child))
  }

  ghost predicate WellScoped(plan: Plan)
  {
    match plan
    case Scan(columns, table) => forall row | row in table :: row.Keys == columns
    case Select(condition, child) => WellScoped(child) && CollectRequired(condition) <= Produced(child)
    case Join(pairs, left, right) =>
      && WellScoped(left) && WellScoped(right) && Produced(left) !! Produced(right)
      && PairsScoped(pairs, Produced(left), Produced(right))
  }

  ghost predicate PairsScoped(pairs: seq<(Exp, Exp)>, left: set<IU>, right: set<IU>)
  {
    forall p | p in pairs :: CollectRequired(p.0) <= left && CollectRequired(p.1) <= right
  }

  lemma {:induction false} PairColumnsMeaning(pairs: seq<(Exp, Exp)>)
    ensures forall iu :: iu in PairColumns(pairs)
                   <==> exists p :: p in pairs && (iu in CollectRequired(p.0) || iu in CollectRequired(p.1))
  {
    if pairs != [] {
      var front, last := pairs[..|pairs| - 1], pairs[|pairs| - 1];
      PairColumnsMeaning(front);
      assert pairs == front + [last];
      forall iu ensures iu in PairColumns(pairs)
                   <==> exists p :: p in pairs && (iu in CollectRequired(p.0) || iu in CollectRequired(p.1))
      {
        if p :| p in pairs && (iu in CollectRequired(p.0) || iu in CollectRequired(p.1)) {
          assert p in front || p == last;
        }
        if iu in CollectRequired(last.0) || iu in CollectRequired(last.1) {
          assert last in pairs;
        }
      }
    }
  }

  /** No operator requires a column that its subtree does not produce. */
  lemma RequiredIsProduced(plan: Plan, expected: set<IU>)
    requires WellScoped(plan) && expected <= Produced(plan)
    ensures expected <= Required(plan, expected) <= Produced(plan)
  {
    if plan.Join? {
      PairColumnsMeaning(plan.pairs);
    }
  }

  /** A join's left and right required sets are what each side must pass on, and split the whole. */
  lemma SidesPartitionRequired(plan: Plan, expected: set<IU>)
    requires WellScoped(plan) && plan.Join? && expected <= Produced(plan)
    ensures var required := Required(plan, expected);
            var left, right := Side(required, plan.left), Side(required, plan.right);
            && left + right == required && left !! right
            && left == Expected(required, plan.left) && right == Expected(required, plan.right)
            && PairsScoped(plan.pairs, left, right)
  {
    RequiredIsProduced(plan, expected);
    var required := Required(plan, expected);
    RequiredIsProduced(plan.left, Expected(required, plan.left));
    RequiredIsProduced(plan.right, Expected(required, plan.right));
    PairColumnsMeaning(plan.pairs);
  }

  /** Every node of the tree below `expected` finds the columns it requires in its children. */
  ghost predicate Supplied(plan: Plan, expected: set<IU>)
    decreases plan
  {
    && expected <= Produced(plan)
    && match plan
       case Scan(_, _) => true
       case Select(_, child) => Supplied(child, Required(plan, expected))
       case Join(_, left, right) =>
         var required := Required(plan, expected);
         && Side(required, left) <= Produced(left) && Side(required, right) <= Produced(right)
         && Side(required, left) + Side(required, right) == required
         && Side(required, left) !! Side(required, right)
         && Supplied(left, Expected(required, left)) && Supplied(right, Expected(required, right))
  }

  lemma {:induction false} ColumnDemand(plan: Plan, expected: set<IU>)
    requires WellScoped(plan) && expected <= Produced(plan)
    ensures Supplied(plan, expected)
    decreases plan
  {
    RequiredIsProduced(plan, expected);
    match plan
    case Scan(_, _) =>
    case Select(_, child) => ColumnDemand(child, Required(plan, expected));
    case Join(_, left, right) =>
      var required := Required(plan, expected);
      SidesPartitionRequired(plan, expected);
      ColumnDemand(left, Expected(required, left));
      ColumnDemand(right, Expected(required, right));
  }

  // ----- the meaning of a tree, all columns everywhere

  function Project(row: Row, cols: set<IU>): Row
  {
    map iu | iu in cols && iu in row :: row[iu]
  }

  function Columns(cols: set<IU>): Row -> seq<Row>
  {
    (row: Row) => [Project(row, cols)]
  }

  function Keep(condition: Exp): Row -> seq<Row>
  {
    (row: Row) => if CollectRequired(condition) <= row.Keys && Evaluate(condition, row) != 0 then [row] else []
  }

  /** Whether all join pairs are equal. */
  predicate Matches(pairs: seq<(Exp, Exp)>, equals: (int, int) -> bool, l: Row, r: Row)
  {
    forall k | 0 <= k < |pairs| ::
      && CollectRequired(pairs[k].0) <= l.Keys && CollectRequired(pairs[k].1) <= r.Keys
      && equals(Evaluate(pairs[k].0, l), Evaluate(pairs[k].1, r))
  }

  function JoinWith(pairs: seq<(Exp, Exp)>, equals: (int, int) -> bool, r: Row): Row -> seq<Row>
  {
    (l: Row) => if Matches(pairs, equals, l, r) then [l + r] else []
  }

  function JoinAll(pairs: seq<(Exp, Exp)>, equals: (int, int) -> bool, lefts: seq<Row>): Row -> seq<Row>
  {
    (r: Row) => FlatMap(lefts, JoinWith(pairs, equals, r))
  }

  /** The tree without pruning, hash tables or pipelines: filters and nested loops. */
  function Naive(plan: Plan, equals: (int, int) -> bool): seq<Row>
  {
    match plan
    case Scan(_, table) => table
    case Select(condition, child) => FlatMap(Naive(child, equals), Keep(condition))
    case Join(pairs, left, right) =>
      FlatMap(Naive(right, equals), JoinAll(pairs, equals, Naive(left, equals)))
  }

  ghost predicate HasColumns(rows: seq<Row>, cols: set<IU>)
  {
    forall row | row in rows :: cols <= row.Keys
  }

  lemma {:induction false} ProjectedColumns(rows: seq<Row>, cols: set<IU>)
    requires HasColumns(rows, cols)
    ensures forall row | row in FlatMap(rows, Columns(cols)) :: row.Keys == cols
  {
    if rows != [] {
      ProjectedColumns(rows[..|rows| - 1], cols);
    }
  }

  lemma {:induction false} JoinedColumns(lefts: seq<Row>, r: Row, pairs: seq<(Exp, Exp)>, equals: (int, int) -> bool,
                                         left: set<IU>)
    requires forall row | row in lefts :: row.Keys == left
    ensures forall row | row in FlatMap(lefts, JoinWith(pairs, equals, r)) :: row.Keys == left + r.Keys
  {
    hide Matches;
    if lefts != [] {
      JoinedColumns(lefts[..|lefts| - 1], r, pairs, equals, left);
    }
  }

  lemma {:induction false} NestedColumns(lefts: seq<Row>, rights: seq<Row>, pairs: seq<(Exp, Exp)>,
                                         equals: (int, int) -> bool, left: set<IU>, right: set<IU>)
    requires forall row | row in lefts :: row.Keys == left
    requires forall row | row in rights :: row.Keys == right
    ensures forall row | row in FlatMap(rights, JoinAll(pairs, equals, lefts)) :: row.Keys == left + right
  {
    hide Matches, JoinWith;
    if rights != [] {
      var last := rights[|rights| - 1];
      assert last in rights;
      NestedColumns(lefts, rights[..|rights| - 1], pairs, equals, left, right);
      JoinedColumns(lefts, last, pairs, equals, left);
    }
  }

  lemma {:induction false} KeptRowsAreRows(rows: seq<Row>, condition: Exp)
    ensures forall row | row in FlatMap(rows, Keep(condition)) :: row in rows
  {
    if rows != [] {
      KeptRowsAreRows(rows[..|rows| - 1], condition);
    }
  }

  lemma {:induction false} NaiveColumns(plan: Plan, equals: (int, int) -> bool)
    requires WellScoped(plan)
    ensures forall row | row in Naive(plan, equals) :: row.Keys == Produced(plan)
  {
    match plan
    case Scan(_, _) =>
    case Select(condition, child) =>
      NaiveColumns(child, equals);
      KeptRowsAreRows(Naive(child, equals), condition);
    case Join(pairs, left, right) =>
      NaiveColumns(left, equals);
      NaiveColumns(right, equals);
      NestedColumns(Naive(left, equals), Naive(right, equals), pairs, equals, Produced(left), Produced(right));
  }
}
