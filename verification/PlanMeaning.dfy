/** What the operators of a tree yield, row by row: how often a row occurs in the output of a select, a join
    or a projection, in terms of the rows of its inputs alone. */
module PlanMeaning {
  import opened FlatMaps
  import opened QueryPlan

  // ----- counting rows

  /** How many of the rows satisfy `p`. */
  function CountIf(rows: seq<Row>, p: Row -> bool): nat
  {
    if rows == [] then 0 else CountIf(rows[..|rows| - 1], p) + if p(rows[|rows| - 1]) then 1 else 0
  }

  lemma {:induction false} CountConcat(a: seq<Row>, b: seq<Row>, p: Row -> bool)
    ensures CountIf(a + b, p) == CountIf(a, p) + CountIf(b, p)
  {
    if b == [] {
      assert a + b == a;
    } else {
      assert (a + b)[..|a + b| - 1] == a + b[..|b| - 1];
      CountConcat(a, b[..|b| - 1], p);
    }
  }

  // ----- select and projection

  /** A select passes on a row as often as it came if its condition is not zero, and never otherwise. */
  lemma {:induction false} SelectCounts(rows: seq<Row>, condition: Exp, row: Row)
    requires HasColumns(rows, CollectRequired(condition))
    ensures multiset(FlatMap(rows, Keep(condition)))[row]
         == if row in rows && Evaluate(condition, row) != 0 then multiset(rows)[row] else 0
  {
    hide Evaluate, CollectRequired;
    if rows != [] {
      var front, last := rows[..|rows| - 1], rows[|rows| - 1];
      assert rows == front + [last];
      SelectCounts(front, condition, row);
      assert FlatMap(rows, Keep(condition)) == FlatMap(front, Keep(condition)) + Keep(condition)(last);
    }
  }

  /** A projection yields one row for each, with the wanted columns and their values. */
  lemma {:induction false} ProjectionIs(rows: seq<Row>, cols: set<IU>)
    requires HasColumns(rows, cols)
    ensures var out := FlatMap(rows, Columns(cols));
            && |out| == |rows|
            && forall i | 0 <= i < |rows| :: out[i].Keys == cols && forall iu | iu in cols :: out[i][iu] == rows[i][iu]
  {
    if rows != [] {
      ProjectionIs(rows[..|rows| - 1], cols);
    }
  }

  // ----- counting indices

  ghost function Chosen(n: nat, q: nat -> bool): set<nat>
  {
    set i | 0 <= i < n && q(i)
  }

  lemma ChosenGrows(n: nat, q: nat -> bool)
    ensures |Chosen(n + 1, q)| == |Chosen(n, q)| + if q(n) then 1 else 0
  {
    assert Chosen(n + 1, q) == Chosen(n, q) + if q(n) then {n} else {};
  }

  ghost function ChosenPairs(n: nat, m: nat, q: (nat, nat) -> bool): set<(nat, nat)>
  {
    set i, j | 0 <= i < n && 0 <= j < m && q(i, j) :: (i, j)
  }

  ghost function Tagged(s: set<nat>, j: nat): set<(nat, nat)>
  {
    set i | i in s :: (i, j)
  }

  lemma {:induction false} TaggedSize(s: set<nat>, j: nat)
    ensures |Tagged(s, j)| == |s|
  {
    if s == {} {
      assert Tagged(s, j) == {};
    } else {
      var x :| x in s;
      TaggedSize(s - {x}, j);
      assert Tagged(s, j) == Tagged(s - {x}, j) + {(x, j)};
    }
  }

  ghost function At(q: (nat, nat) -> bool, j: nat): nat -> bool
  {
    (i: nat) => q(i, j)
  }

  lemma ChosenPairsSplit(n: nat, m: nat, q: (nat, nat) -> bool)
    ensures ChosenPairs(n, m + 1, q) == ChosenPairs(n, m, q) + Tagged(Chosen(n, At(q, m)), m)
    ensures ChosenPairs(n, m, q) !! Tagged(Chosen(n, At(q, m)), m)
  {
  }

  lemma ChosenPairsGrow(n: nat, m: nat, q: (nat, nat) -> bool)
    ensures |ChosenPairs(n, m + 1, q)| == |ChosenPairs(n, m, q)| + |Chosen(n, At(q, m))|
  {
    hide ChosenPairs, Tagged, Chosen, At;
    ChosenPairsSplit(n, m, q);
    TaggedSize(Chosen(n, At(q, m)), m);
  }

  // ----- join

  lemma {:induction false} CountLefts(lefts: seq<Row>, k: nat, f: Row -> seq<Row>, p: Row -> bool, q: nat -> bool)
    requires k <= |lefts|
    requires forall i | 0 <= i < |lefts| :: CountIf(f(lefts[i]), p) == if q(i) then 1 else 0
    ensures CountIf(FlatMap(lefts[..k], f), p) == |Chosen(k, q)|
  {
    if k > 0 {
      CountLefts(lefts, k - 1, f, p, q);
      ChosenGrows(k - 1, q);
      assert lefts[..k][..k - 1] == lefts[..k - 1];
      CountConcat(FlatMap(lefts[..k - 1], f), f(lefts[k - 1]), p);
    }
  }

  lemma CountForOne(lefts: seq<Row>, r: Row, pairs: seq<(Exp, Exp)>, equals: (int, int) -> bool, p: Row -> bool,
                    q: nat -> bool)
    requires forall i | 0 <= i < |lefts| :: q(i) <==> Matches(pairs, equals, lefts[i], r) && p(lefts[i] + r)
    ensures CountIf(JoinAll(pairs, equals, lefts)(r), p) == |Chosen(|lefts|, q)|
  {
    hide Matches, Chosen, CountIf, FlatMap;
    var f := JoinWith(pairs, equals, r);
    forall i | 0 <= i < |lefts| ensures CountIf(f(lefts[i]), p) == if q(i) then 1 else 0 {
      CountOne(lefts[i] + r, p);
    }
    CountLefts(lefts, |lefts|, f, p, q);
    assert lefts[..|lefts|] == lefts;
  }

  lemma {:induction false} CountRights(lefts: seq<Row>, rights: seq<Row>, k: nat, pairs: seq<(Exp, Exp)>,
                                       equals: (int, int) -> bool, p: Row -> bool, q: (nat, nat) -> bool)
    requires k <= |rights|
    requires forall i, j | 0 <= i < |lefts| && 0 <= j < |rights| ::
               q(i, j) <==> Matches(pairs, equals, lefts[i], rights[j]) && p(lefts[i] + rights[j])
    ensures CountIf(FlatMap(rights[..k], JoinAll(pairs, equals, lefts)), p) == |ChosenPairs(|lefts|, k, q)|
  {
    hide Matches, ChosenPairs, Chosen, Evaluate, JoinAll, CountIf;
    if k > 0 {
      var j := k - 1;
      CountRights(lefts, rights, j, pairs, equals, p, q);
      ChosenPairsGrow(|lefts|, j, q);
      assert rights[..k][..j] == rights[..j];
      CountConcat(FlatMap(rights[..j], JoinAll(pairs, equals, lefts)), JoinAll(pairs, equals, lefts)(rights[j]), p);
      CountForOne(lefts, rights[j], pairs, equals, p, At(q, j));
    } else {
      NoPairs(|lefts|, q);
      CountOne(map[], p);
    }
  }

  lemma NoPairs(n: nat, q: (nat, nat) -> bool)
    ensures ChosenPairs(n, 0, q) == {}
  {
  }

  lemma CountOne(row: Row, p: Row -> bool)
    ensures CountIf([row], p) == if p(row) then 1 else 0
    ensures CountIf([], p) == 0
  {
    assert [row][..0] == [];
  }

  /** The join expressions can be evaluated on the rows of both sides. */
  ghost predicate Comparable(pairs: seq<(Exp, Exp)>, lefts: seq<Row>, rights: seq<Row>)
  {
    forall k | 0 <= k < |pairs| ::
      HasColumns(lefts, CollectRequired(pairs[k].0)) && HasColumns(rights, CollectRequired(pairs[k].1))
  }

  /** As many output rows satisfy `p` as there are a left and a right row that are equal on all join pairs
      and whose union satisfies `p`. */
  lemma JoinCounts(lefts: seq<Row>, rights: seq<Row>, pairs: seq<(Exp, Exp)>, equals: (int, int) -> bool,
                   p: Row -> bool)
    requires Comparable(pairs, lefts, rights)
    ensures CountIf(FlatMap(rights, JoinAll(pairs, equals, lefts)), p)
         == |set i, j | && 0 <= i < |lefts| && 0 <= j < |rights| && p(lefts[i] + rights[j])
                        && (forall k | 0 <= k < |pairs| ::
                              equals(Evaluate(pairs[k].0, lefts[i]), Evaluate(pairs[k].1, rights[j]))) :: (i, j)|
  {
    hide Evaluate, CollectRequired, Matches, FlatMap, JoinAll, CountIf, ChosenPairs;
    var q := Joining(lefts, rights, pairs, equals, p);
    CountRights(lefts, rights, |rights|, pairs, equals, p, q);
    assert rights[..|rights|] == rights;
    JoiningIs(lefts, rights, pairs, equals, p);
  }

  ghost function Joining(lefts: seq<Row>, rights: seq<Row>, pairs: seq<(Exp, Exp)>, equals: (int, int) -> bool,
                         p: Row -> bool): (nat, nat) -> bool
  {
    (i: nat, j: nat) =>
      i < |lefts| && j < |rights| && Matches(pairs, equals, lefts[i], rights[j]) && p(lefts[i] + rights[j])
  }

  lemma JoiningIs(lefts: seq<Row>, rights: seq<Row>, pairs: seq<(Exp, Exp)>, equals: (int, int) -> bool,
                  p: Row -> bool)
    requires Comparable(pairs, lefts, rights)
    ensures ChosenPairs(|lefts|, |rights|, Joining(lefts, rights, pairs, equals, p))
         == set i, j | && 0 <= i < |lefts| && 0 <= j < |rights| && p(lefts[i] + rights[j])
                       && (forall k | 0 <= k < |pairs| ::
                             equals(Evaluate(pairs[k].0, lefts[i]), Evaluate(pairs[k].1, rights[j]))) :: (i, j)
  {
    hide Evaluate, CollectRequired, Matches;
    forall i, j | 0 <= i < |lefts| && 0 <= j < |rights|
      ensures Matches(pairs, equals, lefts[i], rights[j])
         <==> forall k | 0 <= k < |pairs| :: equals(Evaluate(pairs[k].0, lefts[i]), Evaluate(pairs[k].1, rights[j]))
    {
      MatchesIs(pairs, equals, lefts[i], rights[j]);
    }
  }

  lemma MatchesIs(pairs: seq<(Exp, Exp)>, equals: (int, int) -> bool, l: Row, r: Row)
    requires forall k | 0 <= k < |pairs| ::
               CollectRequired(pairs[k].0) <= l.Keys && CollectRequired(pairs[k].1) <= r.Keys
    ensures Matches(pairs, equals, l, r)
       <==> forall k | 0 <= k < |pairs| :: equals(Evaluate(pairs[k].0, l), Evaluate(pairs[k].1, r))
  {
  }

  ghost function Same(row: Row): Row -> bool
  {
    (r: Row) => r == row
  }

  lemma RowIsChosen(lefts: seq<Row>, rights: seq<Row>, pairs: seq<(Exp, Exp)>, equals: (int, int) -> bool, row: Row)
    ensures row in FlatMap(rights, JoinAll(pairs, equals, lefts))
       <==> ChosenPairs(|lefts|, |rights|, Joining(lefts, rights, pairs, equals, Same(row))) != {}
  {
    hide Matches, JoinAll, FlatMap, CountIf, ChosenPairs;
    var out, q := FlatMap(rights, JoinAll(pairs, equals, lefts)), Joining(lefts, rights, pairs, equals, Same(row));
    CountRights(lefts, rights, |rights|, pairs, equals, Same(row), q);
    assert rights[..|rights|] == rights;
    CountSame(out, row);
  }

  lemma {:induction false} CountSame(rows: seq<Row>, row: Row)
    ensures row in rows <==> CountIf(rows, Same(row)) > 0
  {
    if rows != [] {
      CountSame(rows[..|rows| - 1], row);
      assert rows == rows[..|rows| - 1] + [rows[|rows| - 1]];
    }
  }

  /** A row is in the output exactly if it is the union of two rows that are equal on all join pairs. */
  lemma JoinRows(lefts: seq<Row>, rights: seq<Row>, pairs: seq<(Exp, Exp)>, equals: (int, int) -> bool, row: Row)
    requires Comparable(pairs, lefts, rights)
    ensures row in FlatMap(rights, JoinAll(pairs, equals, lefts))
       <==> exists i, j :: && 0 <= i < |lefts| && 0 <= j < |rights| && row == lefts[i] + rights[j]
                           && forall k | 0 <= k < |pairs| ::
                                equals(Evaluate(pairs[k].0, lefts[i]), Evaluate(pairs[k].1, rights[j]))
  {
    hide Evaluate, CollectRequired, Matches, JoinAll, FlatMap;
    RowIsChosen(lefts, rights, pairs, equals, row);
    JoiningIs(lefts, rights, pairs, equals, Same(row));
    var found := ChosenPairs(|lefts|, |rights|, Joining(lefts, rights, pairs, equals, Same(row)));
    if i, j :| && 0 <= i < |lefts| && 0 <= j < |rights| && row == lefts[i] + rights[j]
               && forall k | 0 <= k < |pairs| ::
                    equals(Evaluate(pairs[k].0, lefts[i]), Evaluate(pairs[k].1, rights[j]))
    {
      assert (i, j) in found;
    }
  }

  // ----- trees

  lemma ScanMeaning(columns: set<IU>, table: seq<Row>, equals: (int, int) -> bool)
    ensures Naive(Scan(columns, table), equals) == table
  {
  }

  /** No smaller set of columns would do: whatever holds what the parent expects and what the operator's own
      expressions read holds the required set. */
  lemma {:induction false} RequiredIsLeast(plan: Plan, expected: set<IU>, cols: set<IU>)
    requires expected <= cols
    requires plan.Select? ==> CollectRequired(plan.condition) <= cols
    requires plan.Join? ==> forall p | p in plan.pairs :: CollectRequired(p.0) + CollectRequired(p.1) <= cols
    ensures Required(plan, expected) <= cols
  {
    if plan.Join? {
      PairColumnsMeaning(plan.pairs);
    }
  }

  /** An expression reads a column exactly if one of its parts is that column. */
  predicate Reads(exp: Exp, iu: IU)
  {
    match exp
    case Identifier(column) => column == iu
    case Constant(_) => false
    case Cast(_, child) => Reads(child, iu)
    case Binary(_, left, right) => Reads(left, iu) || Reads(right, iu)
  }

  lemma {:induction false} CollectsWhatIsRead(exp: Exp, iu: IU)
    ensures iu in CollectRequired(exp) <==> Reads(exp, iu)
  {
    match exp
    case Identifier(_) =>
    case Constant(_) =>
    case Cast(_, child) => CollectsWhatIsRead(child, iu);
    case Binary(_, left, right) =>
      CollectsWhatIsRead(left, iu);
      CollectsWhatIsRead(right, iu);
  }

  /** A select in a well-scoped tree. */
  lemma SelectMeaning(plan: Plan, equals: (int, int) -> bool, row: Row)
    requires plan.Select? && WellScoped(plan)
    ensures var rows := Naive(plan.child, equals);
            && HasColumns(rows, CollectRequired(plan.condition))
            && multiset(Naive(plan, equals))[row]
               == if row in rows && Evaluate(plan.condition, row) != 0 then multiset(rows)[row] else 0
  {
    hide Evaluate, CollectRequired, FlatMap;
    NaiveColumns(plan.child, equals);
    SelectCounts(Naive(plan.child, equals), plan.condition, row);
  }

  /** A join in a well-scoped tree: which rows. */
  lemma JoinMeaning(plan: Plan, equals: (int, int) -> bool, row: Row)
    requires plan.Join? && WellScoped(plan)
    ensures var lefts, rights := Naive(plan.left, equals), Naive(plan.right, equals);
            && Comparable(plan.pairs, lefts, rights)
            && (row in Naive(plan, equals)
                <==> exists i, j :: && 0 <= i < |lefts| && 0 <= j < |rights| && row == lefts[i] + rights[j]
                                    && forall k | 0 <= k < |plan.pairs| ::
                                         equals(Evaluate(plan.pairs[k].0, lefts[i]),
                                                Evaluate(plan.pairs[k].1, rights[j])))
  {
    hide Evaluate, CollectRequired, Naive, WellScoped, FlatMap, JoinAll;
    ScopedIsComparable(plan, equals);
    NaiveJoin(plan, equals);
    JoinRows(Naive(plan.left, equals), Naive(plan.right, equals), plan.pairs, equals, row);
  }

  /** And how many: as many as there are pairs of rows that are equal on all join pairs. */
  lemma JoinSize(plan: Plan, equals: (int, int) -> bool) returns (joined: set<(nat, nat)>)
    requires plan.Join? && WellScoped(plan)
    ensures |Naive(plan, equals)| == |joined|
    ensures var lefts, rights := Naive(plan.left, equals), Naive(plan.right, equals);
            && Comparable(plan.pairs, lefts, rights)
            && forall i: nat, j: nat :: (i, j) in joined
                 <==> && i < |lefts| && j < |rights|
                      && forall k | 0 <= k < |plan.pairs| ::
                           equals(Evaluate(plan.pairs[k].0, lefts[i]), Evaluate(plan.pairs[k].1, rights[j]))
  {
    hide Evaluate, CollectRequired, Naive, WellScoped, FlatMap, JoinAll;
    ScopedIsComparable(plan, equals);
    NaiveJoin(plan, equals);
    joined := JoinLength(Naive(plan.left, equals), Naive(plan.right, equals), plan.pairs, equals);
  }

  lemma NaiveJoin(plan: Plan, equals: (int, int) -> bool)
    requires plan.Join?
    ensures Naive(plan, equals)
         == FlatMap(Naive(plan.right, equals), JoinAll(plan.pairs, equals, Naive(plan.left, equals)))
  {
  }

  lemma ScopedIsComparable(plan: Plan, equals: (int, int) -> bool)
    requires plan.Join? && WellScoped(plan)
    ensures Comparable(plan.pairs, Naive(plan.left, equals), Naive(plan.right, equals))
  {
    hide CollectRequired, Naive;
    NaiveColumns(plan.left, equals);
    NaiveColumns(plan.right, equals);
    forall k | 0 <= k < |plan.pairs|
      ensures CollectRequired(plan.pairs[k].0) <= Produced(plan.left)
      ensures CollectRequired(plan.pairs[k].1) <= Produced(plan.right)
    {
      assert plan.pairs[k] in plan.pairs;
    }
  }

  lemma JoinLength(lefts: seq<Row>, rights: seq<Row>, pairs: seq<(Exp, Exp)>, equals: (int, int) -> bool)
    returns (joined: set<(nat, nat)>)
    requires Comparable(pairs, lefts, rights)
    ensures |FlatMap(rights, JoinAll(pairs, equals, lefts))| == |joined|
    ensures forall i: nat, j: nat :: (i, j) in joined
              <==> && i < |lefts| && j < |rights|
                   && forall k | 0 <= k < |pairs| ::
                        equals(Evaluate(pairs[k].0, lefts[i]), Evaluate(pairs[k].1, rights[j]))
  {
    hide Evaluate, CollectRequired, FlatMap, JoinAll, CountIf, Matches, ChosenPairs;
    var all: Row -> bool := r => true;
    var q := Joining(lefts, rights, pairs, equals, all);
    CountRights(lefts, rights, |rights|, pairs, equals, all, q);
    assert rights[..|rights|] == rights;
    CountEvery(FlatMap(rights, JoinAll(pairs, equals, lefts)), all);
    JoiningIs(lefts, rights, pairs, equals, all);
    joined := ChosenPairs(|lefts|, |rights|, q);
  }

  lemma {:induction false} CountEvery(rows: seq<Row>, p: Row -> bool)
    requires forall row :: p(row)
    ensures CountIf(rows, p) == |rows|
  {
    if rows != [] {
      CountEvery(rows[..|rows| - 1], p);
    }
  }
}
