/** Grouped aggregation: one hash table node per combined key hash, aggregates updated in place. */
module GroupBy {
  import opened Wrappers
  import opened ScaledIntegers
  import opened QueryPlan
  import opened HashJoins
  import opened Buckets
  import T = Hashtable

  /** Sums are 32-bit integers or 64-bit numerics; averages are numerics with some precision. */
  datatype Aggregator =
    | Keep(iu: IU)
    | Sum(exp: Exp, wide: bool)
    | Avg(exp: Exp, precision: nat)
    | CountAll
    | Min(exp: Exp)

  /** What an aggregator stores in a group: one value, or an accumulator and a counter. */
  datatype Entry = Single(value: int) | Average(acc: int, count: int)

  function RequiredBy(agg: Aggregator): set<IU>
  {
    match agg
    case Keep(iu) => {iu}
    case CountAll => {}
    case _ => CollectRequired(agg.exp)
  }

  ghost predicate Usable(aggs: seq<Aggregator>, row: Row)
  {
    forall i | 0 <= i < |aggs| :: RequiredBy(aggs[i]) <= row.Keys
  }

  ghost predicate AllUsable(aggs: seq<Aggregator>, rows: seq<Row>)
  {
    forall k | 0 <= k < |rows| :: Usable(aggs, rows[k])
  }

  // ----- the aggregators

  predicate FitsType(x: int, wide: bool)
  {
    if wide then Int64(x) else Int32(x)
  }

  /** What the machine addition leaves in its result; it flags a result that does not fit. */
  function Wrapped(x: int, wide: bool): (r: int)
    ensures FitsType(r, wide)
  {
    if wide then I64(x) else I32(x)
  }

  lemma WrappedAdds(a: int, b: int, wide: bool)
    ensures Wrapped(Wrapped(a, wide) + b, wide) == Wrapped(a + b, wide)
    ensures FitsType(a, wide) ==> Wrapped(a, wide) == a
  {
    if wide {
      I64Linear(a, 1, b);
    } else {
      I32Adds(a, b);
    }
  }

  function ConsumeFirst(agg: Aggregator, row: Row): Entry
    requires RequiredBy(agg) <= row.Keys
  {
    match agg
    case Keep(iu) => Single(row[iu])
    case Sum(exp, _) => Single(Evaluate(exp, row))
    case Avg(exp, precision) => Average(Evaluate(exp, row), Pow10(precision))
    case CountAll => Single(1)
    case Min(exp) => Single(Evaluate(exp, row))
  }

  function ConsumeNext(agg: Aggregator, entry: Entry, row: Row): Entry
    requires RequiredBy(agg) <= row.Keys && (agg.Avg? <==> entry.Average?)
  {
    match agg
    case Keep(_) => entry
    case Sum(exp, wide) => Single(Wrapped(entry.value + Evaluate(exp, row), wide))
    case Avg(exp, precision) =>
      Average(Wrapped(entry.acc + Evaluate(exp, row), true), Wrapped(Pow10(precision) + entry.count, true))
    case CountAll => Single(Wrapped(1 + entry.value, false))
    case Min(exp) =>
      var current := Evaluate(exp, row);
      Single(if entry.value < current then entry.value else current)
  }

  /** Whether consuming the row sets the overflow flag. */
  predicate Overflows(agg: Aggregator, entry: Entry, row: Row)
    requires RequiredBy(agg) <= row.Keys && (agg.Avg? <==> entry.Average?)
  {
    match agg
    case Sum(exp, wide) => !FitsType(entry.value + Evaluate(exp, row), wide)
    case Avg(exp, precision) => !Int64(entry.acc + Evaluate(exp, row)) || !Int64(Pow10(precision) + entry.count)
    case CountAll => !Int32(1 + entry.value)
    case _ => false
  }

  /** Signed division that rounds toward zero. */
  function TruncatedQuotient(a: int, b: int): int
    requires b != 0
  {
    var q := Abs(a) / Abs(b);
    if (a < 0) == (b < 0) then q else -q
  }

  /** The average divides the accumulator, shifted by the precision, by the shifted counter; a counter
      that has wrapped around to zero ends the query. */
  function GetResult(agg: Aggregator, entry: Entry): Option<int>
    requires agg.Avg? <==> entry.Average?
  {
    if !agg.Avg? then Some(entry.value)
    else if entry.count == 0 then None
    else Some(TruncatedQuotient(Wrapped(entry.acc * Pow10(agg.precision), true), entry.count))
  }

  predicate ShiftOverflows(agg: Aggregator, entry: Entry)
    requires agg.Avg? <==> entry.Average?
  {
    agg.Avg? && entry.count != 0 && !Int64(entry.acc * Pow10(agg.precision))
  }

  // ----- what a group of rows aggregates to

  function SumOf(exp: Exp, rows: seq<Row>): int
    requires HasColumns(rows, CollectRequired(exp))
  {
    if rows == [] then 0 else SumOf(exp, rows[..|rows| - 1]) + Evaluate(exp, rows[|rows| - 1])
  }

  ghost predicate IsMin(exp: Exp, rows: seq<Row>, m: int)
    requires HasColumns(rows, CollectRequired(exp))
  {
    && (exists k :: 0 <= k < |rows| && Evaluate(exp, rows[k]) == m)
    && (forall k | 0 <= k < |rows| :: m <= Evaluate(exp, rows[k]))
  }

  /** The sum that is stored: the first value as it came, later ones added modulo the width. */
  function Total(exp: Exp, rows: seq<Row>, wide: bool): int
    requires rows != [] && HasColumns(rows, CollectRequired(exp))
  {
    if |rows| == 1 then SumOf(exp, rows) else Wrapped(SumOf(exp, rows), wide)
  }

  function Counter(n: nat, precision: nat): int
  {
    if n == 1 then Pow10(precision) else Wrapped(n * Pow10(precision), true)
  }

  /** The entry that stands for the rows of a group. */
  ghost predicate Aggregates(agg: Aggregator, rows: seq<Row>, entry: Entry)
    requires rows != [] && HasColumns(rows, RequiredBy(agg))
  {
    match agg
    case Keep(iu) => entry == Single(rows[0][iu])
    case Sum(exp, wide) => entry == Single(Total(exp, rows, wide))
    case Avg(exp, precision) => entry == Average(Total(exp, rows, true), Counter(|rows|, precision))
    case CountAll => entry == Single(Wrapped(|rows|, false))
    case Min(exp) => entry.Single? && IsMin(exp, rows, entry.value)
  }

  /** The value that is output for the rows of a group, whether or not anything overflowed. */
  ghost predicate Outputs(agg: Aggregator, rows: seq<Row>, value: int)
    requires rows != [] && HasColumns(rows, RequiredBy(agg))
  {
    match agg
    case Keep(iu) => value == rows[0][iu]
    case Sum(exp, wide) => value == Total(exp, rows, wide)
    case Avg(exp, precision) =>
      && Counter(|rows|, precision) != 0
      && value == TruncatedQuotient(Wrapped(SumOf(exp, rows) * Pow10(precision), true), Counter(|rows|, precision))
    case CountAll => value == Wrapped(|rows|, false)
    case Min(exp) => IsMin(exp, rows, value)
  }

  /** The value that stands for the rows of a group: what is output unless something overflowed. */
  ghost predicate Summarises(agg: Aggregator, rows: seq<Row>, value: int)
    requires rows != [] && HasColumns(rows, RequiredBy(agg))
  {
    match agg
    case Keep(iu) => value == rows[0][iu]
    case Sum(exp, _) => value == SumOf(exp, rows)
    case Avg(exp, _) => |rows| > 0 && value == TruncatedQuotient(SumOf(exp, rows), |rows|)
    case CountAll => value == |rows|
    case Min(exp) => IsMin(exp, rows, value)
  }

  /** The fold of the rows fits the machine types; what a single row starts with is not checked. */
  predicate Fits(agg: Aggregator, rows: seq<Row>)
    requires HasColumns(rows, RequiredBy(agg))
  {
    match agg
    case Sum(exp, wide) => |rows| == 1 || FitsType(SumOf(exp, rows), wide)
    case Avg(exp, precision) => |rows| == 1 || (Int64(SumOf(exp, rows)) && Int64(|rows| * Pow10(precision)))
    case CountAll => Int32(|rows|)
    case _ => true
  }

  ghost predicate FitsAll(aggs: seq<Aggregator>, rows: seq<Row>)
  {
    forall i | 0 <= i < |aggs| :: HasColumns(rows, RequiredBy(aggs[i])) && Fits(aggs[i], rows)
  }

  /** The shifted sum of an average fits. */
  predicate AverageFits(agg: Aggregator, rows: seq<Row>)
    requires HasColumns(rows, RequiredBy(agg))
  {
    agg.Avg? ==> Int64(SumOf(agg.exp, rows) * Pow10(agg.precision))
  }

  ghost predicate AveragesFit(aggs: seq<Aggregator>, rows: seq<Row>)
  {
    forall i | 0 <= i < |aggs| :: HasColumns(rows, RequiredBy(aggs[i])) && AverageFits(aggs[i], rows)
  }

  /** The counter of an average has not wrapped around to zero. */
  predicate Divides(agg: Aggregator, n: nat)
  {
    agg.Avg? ==> Counter(n, agg.precision) != 0
  }

  ghost predicate DividesAll(aggs: seq<Aggregator>, n: nat)
  {
    forall i | 0 <= i < |aggs| :: Divides(aggs[i], n)
  }

  lemma FirstAggregates(agg: Aggregator, row: Row)
    requires RequiredBy(agg) <= row.Keys
    ensures Aggregates(agg, [row], ConsumeFirst(agg, row))
  {
    if agg.Sum? || agg.Avg? {
      SumOfOne(agg.exp, row);
    }
    assert [row][0] == row;
  }

  lemma SumOfOne(exp: Exp, row: Row)
    requires CollectRequired(exp) <= row.Keys
    ensures SumOf(exp, [row]) == Evaluate(exp, row)
  {
    assert [row][..0] == [];
  }

  lemma NextAggregates(agg: Aggregator, rows: seq<Row>, entry: Entry, row: Row)
    requires rows != [] && HasColumns(rows, RequiredBy(agg))
    requires Aggregates(agg, rows, entry) && RequiredBy(agg) <= row.Keys
    ensures HasColumns(rows + [row], RequiredBy(agg)) && (agg.Avg? <==> entry.Average?)
    ensures Aggregates(agg, rows + [row], ConsumeNext(agg, entry, row))
    ensures Fits(agg, rows) ==> (Overflows(agg, entry, row) <==> !Fits(agg, rows + [row]))
  {
    hide Wrapped, SumOf, Pow10, Evaluate, CollectRequired, IsMin, Counter, Total;
    var all := rows + [row];
    match agg
    case Sum(exp, wide) => NextTotal(exp, rows, row, wide);
    case Avg(exp, precision) =>
      NextTotal(exp, rows, row, true);
      NextCounter(|rows|, precision);
    case CountAll => WrappedAdds(|rows|, 1, false);
    case Min(exp) => NextMin(exp, rows, row, entry.value);
    case _ =>
  }

  lemma NextTotal(exp: Exp, rows: seq<Row>, row: Row, wide: bool)
    requires rows != [] && HasColumns(rows, CollectRequired(exp)) && CollectRequired(exp) <= row.Keys
    ensures var all, sum := rows + [row], Total(exp, rows, wide) + Evaluate(exp, row);
            && HasColumns(all, CollectRequired(exp)) && Total(exp, all, wide) == Wrapped(sum, wide)
            && (|rows| == 1 || FitsType(SumOf(exp, rows), wide) ==> sum == SumOf(exp, all))
  {
    hide Wrapped, SumOf, Evaluate, CollectRequired, HasColumns;
    SumOfNext(exp, rows, row);
    WrappedAdds(SumOf(exp, rows), Evaluate(exp, row), wide);
  }

  lemma SumOfNext(exp: Exp, rows: seq<Row>, row: Row)
    requires HasColumns(rows, CollectRequired(exp)) && CollectRequired(exp) <= row.Keys
    ensures HasColumns(rows + [row], CollectRequired(exp))
    ensures SumOf(exp, rows + [row]) == SumOf(exp, rows) + Evaluate(exp, row)
  {
    hide Evaluate, CollectRequired;
    assert (rows + [row])[..|rows|] == rows;
  }

  lemma NextCounter(n: nat, precision: nat)
    requires n > 0
    ensures var count := Pow10(precision) + Counter(n, precision);
            && Counter(n + 1, precision) == Wrapped(count, true)
            && (n == 1 || Int64(n * Pow10(precision)) ==> count == (n + 1) * Pow10(precision))
  {
    hide Wrapped;
    WrappedAdds(n * Pow10(precision), Pow10(precision), true);
    OneMoreTime(n, Pow10(precision));
  }

  lemma NextMin(exp: Exp, rows: seq<Row>, row: Row, m: int)
    requires HasColumns(rows, CollectRequired(exp)) && CollectRequired(exp) <= row.Keys && IsMin(exp, rows, m)
    ensures HasColumns(rows + [row], CollectRequired(exp))
    ensures IsMin(exp, rows + [row], if m < Evaluate(exp, row) then m else Evaluate(exp, row))
  {
    hide Evaluate;
    var all := rows + [row];
    var k :| 0 <= k < |rows| && Evaluate(exp, rows[k]) == m;
    assert all[k] == rows[k] && all[|rows|] == row;
  }

  lemma OneMoreTime(n: nat, p: nat)
    ensures (n + 1) * p == n * p + p && 1 * p == p
  {
  }

  /** Rounded toward zero: the remainder is smaller than the divisor and has the sign of the dividend. */
  lemma QuotientTruncates(a: int, b: int)
    requires b != 0
    ensures var rest := a - b * TruncatedQuotient(a, b);
            Abs(rest) < Abs(b) && (rest == 0 || (rest < 0 <==> a < 0))
  {
    hide TruncatedQuotient;
    NaturalDivision(Abs(a), Abs(b));
    SignedQuotient(a, b);
    RemainderIs(a, Abs(b), Abs(b) * (Abs(a) / Abs(b)));
  }

  lemma RemainderIs(a: int, d: nat, m: int)
    requires m <= Abs(a) < m + d
    ensures var rest := a - if a < 0 then -m else m;
            Abs(rest) < d && (rest == 0 || (rest < 0 <==> a < 0))
  {
  }

  lemma SignedQuotient(a: int, b: int)
    requires b != 0
    ensures var m: int := Abs(b) * (Abs(a) / Abs(b));
            b * TruncatedQuotient(a, b) == if a < 0 then -m else m
  {
    hide Abs;
    AbsoluteValues(a, b);
    SignedProduct(b, Abs(a) / Abs(b));
  }

  lemma AbsoluteValues(a: int, b: int)
    ensures Abs(a) == (if a < 0 then -a else a) && Abs(b) == if b < 0 then -b else b
  {
  }

  lemma SignedProduct(b: int, q: int)
    ensures b * -q == -(b * q) && -b * q == -(b * q)
  {
  }

  lemma NaturalDivision(x: nat, d: nat)
    requires d > 0
    ensures d * (x / d) <= x < d * (x / d) + d
  {
  }

  lemma ScaledQuotient(a: int, n: nat, p: nat)
    requires n > 0 && p > 0
    ensures n * p > 0 && TruncatedQuotient(a * p, n * p) == TruncatedQuotient(a, n)
  {
    NaturalQuotient(Abs(a), n, p);
    assert Abs(a * p) == Abs(a) * p;
  }

  lemma NaturalQuotient(a: nat, n: nat, p: nat)
    requires n > 0 && p > 0
    ensures n * p > 0 && (a * p) / (n * p) == a / n
  {
    var q, r := a / n, a % n;
    ScaledRemainder(a, n, p, q, r);
    QuotientIsUnique(a * p, n * p, q, r * p);
  }

  lemma ScaledRemainder(a: nat, n: nat, p: nat, q: nat, r: nat)
    requires a == n * q + r && r < n && p > 0
    ensures a * p == (n * p) * q + r * p && 0 <= r * p < n * p
  {
  }

  lemma QuotientIsUnique(x: nat, d: nat, q: nat, r: nat)
    requires x == d * q + r && r < d
    ensures x / d == q
  {
    var q', r' := x / d, x % d;
    assert d * q' + r' == d * q + r;
    MultiplesGap(d, q, q');
    MultiplesGap(d, q', q);
  }

  lemma MultiplesGap(d: nat, a: int, b: int)
    ensures a < b ==> d * a + d <= d * b
  {
    if a < b {
      assert d * (a + 1) <= d * b;
    }
  }

  /** What is output for a group: the wrapped fold, and the flag if its shifted sum does not fit. */
  lemma ResultIsOutput(agg: Aggregator, rows: seq<Row>, entry: Entry)
    requires rows != [] && HasColumns(rows, RequiredBy(agg))
    requires Aggregates(agg, rows, entry)
    ensures agg.Avg? <==> entry.Average?
    ensures GetResult(agg, entry).None? <==> !Divides(agg, |rows|)
    ensures GetResult(agg, entry).Some? ==> Outputs(agg, rows, GetResult(agg, entry).value)
    ensures Fits(agg, rows) ==> Divides(agg, |rows|) && (ShiftOverflows(agg, entry) <==> !AverageFits(agg, rows))
  {
    hide I64, I32;
    if agg.Avg? {
      I64Linear(SumOf(agg.exp, rows), Pow10(agg.precision), 0);
      SmallIsNotWrapped(SumOf(agg.exp, rows));
      SmallIsNotWrapped(|rows| * Pow10(agg.precision));
    }
  }

  lemma SmallIsNotWrapped(x: int)
    ensures Int64(x) ==> I64(x) == x
    ensures Int32(x) ==> I32(x) == x
  {
  }

  /** When the aggregates of several rows fit. */
  lemma FitsMeaning(agg: Aggregator, rows: seq<Row>)
    requires |rows| > 1 && HasColumns(rows, RequiredBy(agg))
    ensures agg.Sum? ==>
              (Fits(agg, rows) <==> if agg.wide then Int64(SumOf(agg.exp, rows)) else Int32(SumOf(agg.exp, rows)))
    ensures agg.Avg? ==>
              (Fits(agg, rows) <==> Int64(SumOf(agg.exp, rows)) && Int64(|rows| * Pow10(agg.precision)))
    ensures agg.CountAll? ==> (Fits(agg, rows) <==> |rows| <= 2_147_483_647)
    ensures agg.Keep? || agg.Min? ==> Fits(agg, rows)
  {
  }

  /** What a summarising value is, aggregator by aggregator. */
  lemma SummaryMeaning(agg: Aggregator, rows: seq<Row>, value: int)
    requires rows != [] && HasColumns(rows, RequiredBy(agg)) && Summarises(agg, rows, value)
    ensures agg.Keep? ==> value == rows[0][agg.iu]
    ensures agg.CountAll? ==> value == |rows|
    ensures agg.Min? ==> forall k | 0 <= k < |rows| :: value <= Evaluate(agg.exp, rows[k])
    ensures agg.Min? ==> exists k :: 0 <= k < |rows| && value == Evaluate(agg.exp, rows[k])
    ensures agg.Sum? ==> value == SumOf(agg.exp, rows)
    ensures agg.Avg? ==>
              var rest := SumOf(agg.exp, rows) - |rows| * value;
              Abs(rest) < |rows| && (rest == 0 || (rest < 0 <==> SumOf(agg.exp, rows) < 0))
  {
    hide Evaluate, SumOf, TruncatedQuotient;
    if agg.Avg? {
      QuotientTruncates(SumOf(agg.exp, rows), |rows|);
    }
  }

  /** Where nothing overflowed the output is the fold of the rows; an average rounds toward zero. */
  lemma OutputSummarises(agg: Aggregator, rows: seq<Row>, value: int)
    requires rows != [] && HasColumns(rows, RequiredBy(agg)) && Outputs(agg, rows, value)
    requires Fits(agg, rows) && AverageFits(agg, rows)
    ensures Summarises(agg, rows, value)
  {
    hide I64, I32;
    match agg
    case Sum(exp, _) => SmallIsNotWrapped(SumOf(exp, rows));
    case Avg(exp, precision) =>
      SmallIsNotWrapped(SumOf(exp, rows) * Pow10(precision));
      SmallIsNotWrapped(|rows| * Pow10(precision));
      OneMoreTime(0, Pow10(precision));
      ScaledQuotient(SumOf(exp, rows), |rows|, Pow10(precision));
    case CountAll => SmallIsNotWrapped(|rows|);
    case _ =>
  }

  // ----- groups

  /** The rows with the combined key hash `h`, in the order in which they came. */
  ghost function RowsOf(rows: seq<Row>, keys: seq<Exp>, hashing: Hashing, h: nat): seq<Row>
    requires forall k | 0 <= k < |rows| :: Readable(keys, rows[k])
  {
    if rows == [] then [] else
      var rest, row := RowsOf(rows[..|rows| - 1], keys, hashing, h), rows[|rows| - 1];
      if JoinHash(keys, row, hashing) == h then rest + [row] else rest
  }

  lemma {:induction false} RowsComeFromSomewhere(rows: seq<Row>, keys: seq<Exp>, hashing: Hashing, h: nat)
    requires forall k | 0 <= k < |rows| :: Readable(keys, rows[k])
    requires RowsOf(rows, keys, hashing, h) != []
    ensures exists k :: 0 <= k < |rows| && JoinHash(keys, rows[k], hashing) == h
  {
    var last := |rows| - 1;
    if JoinHash(keys, rows[last], hashing) != h {
      RowsComeFromSomewhere(rows[..last], keys, hashing, h);
      var k :| 0 <= k < last && JoinHash(keys, rows[..last][k], hashing) == h;
      assert rows[k] == rows[..last][k];
    }
  }

  lemma RowsOfOneMore(rows: seq<Row>, keys: seq<Exp>, hashing: Hashing, h: nat, row: Row)
    requires (forall k | 0 <= k < |rows| :: Readable(keys, rows[k])) && Readable(keys, row)
    ensures forall k | 0 <= k < |rows + [row]| :: Readable(keys, (rows + [row])[k])
    ensures RowsOf(rows + [row], keys, hashing, h)
         == RowsOf(rows, keys, hashing, h) + if JoinHash(keys, row, hashing) == h then [row] else []
  {
    assert (rows + [row])[..|rows|] == rows;
  }

  /** A hash without a node has no rows. */
  lemma {:induction false} NoRowsOf(rows: seq<Row>, keys: seq<Exp>, hashing: Hashing, h: nat, nodes: set<T.Node>)
    requires forall k | 0 <= k < |rows| :: Readable(keys, rows[k])
    requires Covered(rows, keys, hashing, nodes) && h !in T.HashesOf(nodes)
    ensures RowsOf(rows, keys, hashing, h) == []
  {
    if rows != [] {
      NoRowsOf(rows[..|rows| - 1], keys, hashing, h, nodes);
    }
  }

  function KeyExps(keep: seq<IU>): seq<Exp>
  {
    seq(|keep|, i requires 0 <= i < |keep| => Identifier(keep[i]))
  }

  function KeptColumns(aggs: seq<Aggregator>): set<IU>
  {
    if aggs == [] then {} else
      var rest, last := KeptColumns(aggs[..|aggs| - 1]), aggs[|aggs| - 1];
      if last.Keep? then rest + {last.iu} else rest
  }

  /** The order in which the set of kept columns is traversed: any, but always the same. */
  ghost predicate IsKeyOrder(aggs: seq<Aggregator>, order: seq<IU>)
  {
    Distinct(order) && forall iu :: iu in order <==> iu in KeptColumns(aggs)
  }

  /** Allocates a group and writes its entries. */
  method InitializeGroup(aggs: seq<Aggregator>, row: Row) returns (group: array<Entry>)
    requires Usable(aggs, row)
    ensures fresh(group) && group.Length == |aggs|
    ensures forall i | 0 <= i < |aggs| :: HasColumns([row], RequiredBy(aggs[i]))
    ensures forall i | 0 <= i < |aggs| :: Aggregates(aggs[i], [row], group[i])
  {
    group := new Entry[|aggs|](_ => Single(0));
    for i := 0 to |aggs|
      invariant forall j | 0 <= j < i :: Aggregates(aggs[j], [row], group[j])
    {
      group[i] := ConsumeFirst(aggs[i], row);
      FirstAggregates(aggs[i], row);
    }
  }

  /** Loads, adds and stores every entry of a group; an overflow is flagged and the sum wraps. */
  method AggregateInto(aggs: seq<Aggregator>, group: array<Entry>, row: Row, ghost rows: seq<Row>)
    returns (overflow: bool)
    requires group.Length == |aggs| && Usable(aggs, row) && rows != []
    requires forall i | 0 <= i < |aggs| :: HasColumns(rows, RequiredBy(aggs[i])) && Aggregates(aggs[i], rows, group[i])
    modifies group
    ensures FitsAll(aggs, rows) ==> (overflow <==> !FitsAll(aggs, rows + [row]))
    ensures forall i | 0 <= i < |aggs| :: HasColumns(rows + [row], RequiredBy(aggs[i]))
    ensures forall i | 0 <= i < |aggs| :: Aggregates(aggs[i], rows + [row], group[i])
  {
    hide ConsumeNext, Overflows, Aggregates, Fits;
    overflow := false;
    for i := 0 to |aggs|
      invariant forall j | 0 <= j < i ::
                  HasColumns(rows + [row], RequiredBy(aggs[j])) && Aggregates(aggs[j], rows + [row], group[j])
      invariant FitsAll(aggs, rows) ==> (overflow <==> exists j :: 0 <= j < i && !Fits(aggs[j], rows + [row]))
      invariant forall j | i <= j < |aggs| :: group[j] == old(group[j])
    {
      NextAggregates(aggs[i], rows, group[i], row);
      if Overflows(aggs[i], group[i], row) {
        overflow := true;
      }
      group[i] := ConsumeNext(aggs[i], group[i], row);
    }
  }

  /** Nodes differ in their hash codes and do not share a group. */
  ghost predicate Separate(groups: map<T.Node, array<Entry>>)
  {
    forall n, m | n in groups && m in groups && n != m :: n.hashCode != m.hashCode && groups[n] != groups[m]
  }

  lemma SeparateGrows(groups: map<T.Node, array<Entry>>, node: T.Node, group: array<Entry>)
    requires Separate(groups) && node !in groups
    requires forall n | n in groups :: n.hashCode != node.hashCode && groups[n] != group
    ensures Separate(groups[node := group])
  {
  }

  /** Every row has a node. */
  ghost predicate Covered(rows: seq<Row>, keys: seq<Exp>, hashing: Hashing, nodes: set<T.Node>)
    requires forall k | 0 <= k < |rows| :: Readable(keys, rows[k])
  {
    forall k | 0 <= k < |rows| :: JoinHash(keys, rows[k], hashing) in T.HashesOf(nodes)
  }

  lemma CoveredGrows(rows: seq<Row>, keys: seq<Exp>, hashing: Hashing, nodes: set<T.Node>, row: Row, node: T.Node)
    requires (forall k | 0 <= k < |rows| :: Readable(keys, rows[k])) && Readable(keys, row)
    requires Covered(rows, keys, hashing, nodes) && node.hashCode == JoinHash(keys, row, hashing)
    ensures forall k | 0 <= k < |rows + [row]| :: Readable(keys, (rows + [row])[k])
    ensures Covered(rows + [row], keys, hashing, nodes + {node})
  {
    hide JoinHash, Readable;
    HashesGrow(nodes, node);
  }

  lemma HashesGrow(nodes: set<T.Node>, node: T.Node)
    ensures T.HashesOf(nodes) <= T.HashesOf(nodes + {node}) && node.hashCode in T.HashesOf(nodes + {node})
  {
    assert node in nodes + {node};
  }

  lemma OtherHashes(groups: map<T.Node, array<Entry>>, h: nat)
    requires h !in T.HashesOf(groups.Keys)
    ensures forall n | n in groups :: n.hashCode != h
  {
    forall n | n in groups ensures n.hashCode != h {
      assert n.hashCode in T.HashesOf(groups.Keys);
    }
  }

  /** The hashes of the groups: each once, and all that occur among the rows. */
  ghost predicate IsGrouping(rows: seq<Row>, keys: seq<Exp>, hashing: Hashing, hashes: seq<nat>)
  {
    && (forall k | 0 <= k < |rows| :: Readable(keys, rows[k]) && JoinHash(keys, rows[k], hashing) in hashes)
    && (forall i, j | 0 <= i < j < |hashes| :: hashes[i] != hashes[j])
  }

  /** One tuple per hash: what is output for the rows with that hash. */
  ghost predicate OutputsAll(aggs: seq<Aggregator>, rows: seq<Row>, keys: seq<Exp>, hashing: Hashing,
                             hashes: seq<nat>, out: seq<seq<int>>)
    requires forall k | 0 <= k < |rows| :: Readable(keys, rows[k])
  {
    && |out| == |hashes|
    && forall g | 0 <= g < |hashes| :: OutputsGroup(aggs, RowsOf(rows, keys, hashing, hashes[g]), out[g])
  }

  ghost predicate OutputsGroup(aggs: seq<Aggregator>, rows: seq<Row>, results: seq<int>)
  {
    && rows != [] && |results| == |aggs|
    && forall i | 0 <= i < |aggs| :: HasColumns(rows, RequiredBy(aggs[i])) && Outputs(aggs[i], rows, results[i])
  }

  lemma OutputsSummarise(aggs: seq<Aggregator>, rows: seq<Row>, results: seq<int>)
    requires OutputsGroup(aggs, rows, results) && FitsAll(aggs, rows) && AveragesFit(aggs, rows)
    ensures SummarisesGroup(aggs, rows, results)
  {
    forall i | 0 <= i < |aggs| ensures Summarises(aggs[i], rows, results[i]) {
      OutputSummarises(aggs[i], rows, results[i]);
    }
  }

  /** One tuple per hash: every aggregate of the rows with that hash. */
  ghost predicate SummarisesAll(aggs: seq<Aggregator>, rows: seq<Row>, keys: seq<Exp>, hashing: Hashing,
                                hashes: seq<nat>, out: seq<seq<int>>)
    requires forall k | 0 <= k < |rows| :: Readable(keys, rows[k])
  {
    && |out| == |hashes|
    && forall g | 0 <= g < |hashes| :: SummarisesGroup(aggs, RowsOf(rows, keys, hashing, hashes[g]), out[g])
  }

  ghost predicate SummarisesGroup(aggs: seq<Aggregator>, rows: seq<Row>, results: seq<int>)
  {
    && rows != [] && |results| == |aggs|
    && forall i | 0 <= i < |aggs| :: HasColumns(rows, RequiredBy(aggs[i])) && Summarises(aggs[i], rows, results[i])
  }

  /** Finalises every aggregator of a group, unless the query ends at a counter that is zero. */
  method GetResults(aggs: seq<Aggregator>, group: array<Entry>, ghost rows: seq<Row>)
    returns (r: Option<seq<int>>, overflow: bool)
    requires group.Length == |aggs| && rows != []
    requires forall i | 0 <= i < |aggs| :: HasColumns(rows, RequiredBy(aggs[i])) && Aggregates(aggs[i], rows, group[i])
    ensures r.Some? <==> DividesAll(aggs, |rows|)
    ensures r.Some? ==> OutputsGroup(aggs, rows, r.value)
    ensures FitsAll(aggs, rows) ==> r.Some? && (overflow <==> !AveragesFit(aggs, rows))
  {
    hide GetResult, ShiftOverflows, Outputs, Fits, AverageFits, Aggregates, Divides;
    var results: seq<int> := [];
    overflow := false;
    for i := 0 to |aggs|
      invariant |results| == i
      invariant forall j | 0 <= j < i :: Divides(aggs[j], |rows|) && Outputs(aggs[j], rows, results[j])
      invariant FitsAll(aggs, rows) ==> (overflow <==> exists j :: 0 <= j < i && !AverageFits(aggs[j], rows))
    {
      ResultIsOutput(aggs[i], rows, group[i]);
      if ShiftOverflows(aggs[i], group[i]) {
        overflow := true;
      }
      var value := GetResult(aggs[i], group[i]);
      if value.None? { return None, overflow; }
      results := results + [value.value];
    }
    r := Some(results);
  }

  // ----- groups and keys

  function KeyOf(keys: seq<Exp>, row: Row): seq<int>
    requires Readable(keys, row)
  {
    seq(|keys|, i requires 0 <= i < |keys| => Evaluate(keys[i], row))
  }

  /** The group that a comparison of the keys would form. */
  ghost function RowsWithKey(rows: seq<Row>, keys: seq<Exp>, key: seq<int>): seq<Row>
    requires forall k | 0 <= k < |rows| :: Readable(keys, rows[k])
  {
    if rows == [] then [] else
      var rest, row := RowsWithKey(rows[..|rows| - 1], keys, key), rows[|rows| - 1];
      if KeyOf(keys, row) == key then rest + [row] else rest
  }

  ghost predicate SameHash(keys: seq<Exp>, r: Row, s: Row, hashing: Hashing)
    requires Readable(keys, r) && Readable(keys, s)
  {
    JoinHash(keys, r, hashing) == JoinHash(keys, s, hashing)
  }

  /** Rows whose combined hashes are equal have equal keys. */
  ghost predicate HashSeparates(rows: seq<Row>, keys: seq<Exp>, hashing: Hashing)
    requires forall k | 0 <= k < |rows| :: Readable(keys, rows[k])
  {
    forall j, k | 0 <= j < |rows| && 0 <= k < |rows| && SameHash(keys, rows[j], rows[k], hashing) ::
      KeyOf(keys, rows[j]) == KeyOf(keys, rows[k])
  }

  ghost predicate GroupsAreKeyGroups(rows: seq<Row>, keys: seq<Exp>, hashing: Hashing)
    requires forall k | 0 <= k < |rows| :: Readable(keys, rows[k])
  {
    forall k | 0 <= k < |rows| ::
      RowsOf(rows, keys, hashing, JoinHash(keys, rows[k], hashing)) == RowsWithKey(rows, keys, KeyOf(keys, rows[k]))
  }

  lemma {:induction false} HashDependsOnKey(keys: seq<Exp>, r: Row, s: Row, hashing: Hashing)
    requires Readable(keys, r) && Readable(keys, s) && KeyOf(keys, r) == KeyOf(keys, s)
    ensures JoinHash(keys, r, hashing) == JoinHash(keys, s, hashing)
  {
    if keys != [] {
      var last := |keys| - 1;
      assert KeyOf(keys, r)[last] == KeyOf(keys, s)[last];
      assert KeyOf(keys[..last], r) == KeyOf(keys, r)[..last] && KeyOf(keys[..last], s) == KeyOf(keys, s)[..last];
      HashDependsOnKey(keys[..last], r, s, hashing);
    }
  }

  lemma {:induction false} SameSelection(rows: seq<Row>, keys: seq<Exp>, hashing: Hashing, h: nat, key: seq<int>)
    requires forall k | 0 <= k < |rows| :: Readable(keys, rows[k])
    requires forall k | 0 <= k < |rows| :: JoinHash(keys, rows[k], hashing) == h <==> KeyOf(keys, rows[k]) == key
    ensures RowsOf(rows, keys, hashing, h) == RowsWithKey(rows, keys, key)
  {
    if rows != [] {
      SameSelection(rows[..|rows| - 1], keys, hashing, h, key);
    }
  }

  lemma {:induction false} GroupHasRow(rows: seq<Row>, keys: seq<Exp>, hashing: Hashing, j: nat)
    requires (forall k | 0 <= k < |rows| :: Readable(keys, rows[k])) && j < |rows|
    ensures rows[j] in RowsOf(rows, keys, hashing, JoinHash(keys, rows[j], hashing))
  {
    if j < |rows| - 1 {
      GroupHasRow(rows[..|rows| - 1], keys, hashing, j);
    }
  }

  lemma {:induction false} KeyGroupHasKey(rows: seq<Row>, keys: seq<Exp>, key: seq<int>)
    requires forall k | 0 <= k < |rows| :: Readable(keys, rows[k])
    ensures forall row | row in RowsWithKey(rows, keys, key) :: Readable(keys, row) && KeyOf(keys, row) == key
  {
    if rows != [] {
      KeyGroupHasKey(rows[..|rows| - 1], keys, key);
    }
  }

  /** Comparing only hashes groups by key if and only if the hash separates the keys that occur. */
  lemma GroupsAreKeyGroupsIff(rows: seq<Row>, keys: seq<Exp>, hashing: Hashing)
    requires forall k | 0 <= k < |rows| :: Readable(keys, rows[k])
    ensures GroupsAreKeyGroups(rows, keys, hashing) <==> HashSeparates(rows, keys, hashing)
  {
    hide RowsOf, RowsWithKey, KeyOf, JoinHash, Readable;
    if HashSeparates(rows, keys, hashing) {
      forall k | 0 <= k < |rows|
        ensures RowsOf(rows, keys, hashing, JoinHash(keys, rows[k], hashing))
             == RowsWithKey(rows, keys, KeyOf(keys, rows[k]))
      {
        forall j | 0 <= j < |rows| && KeyOf(keys, rows[j]) == KeyOf(keys, rows[k])
          ensures SameHash(keys, rows[j], rows[k], hashing)
        {
          HashDependsOnKey(keys, rows[j], rows[k], hashing);
        }
        SameSelection(rows, keys, hashing, JoinHash(keys, rows[k], hashing), KeyOf(keys, rows[k]));
      }
    }
    if GroupsAreKeyGroups(rows, keys, hashing) {
      forall j, k | 0 <= j < |rows| && 0 <= k < |rows| && SameHash(keys, rows[j], rows[k], hashing)
        ensures KeyOf(keys, rows[j]) == KeyOf(keys, rows[k])
      {
        GroupHasRow(rows, keys, hashing, j);
        KeyGroupHasKey(rows, keys, KeyOf(keys, rows[k]));
      }
    }
  }

  /** The key of a row holds its values in the columns of the order, and no others. */
  lemma KeyHoldsColumns(order: seq<IU>, row: Row)
    requires forall i | 0 <= i < |order| :: order[i] in row
    ensures Readable(KeyExps(order), row) && |KeyOf(KeyExps(order), row)| == |order|
    ensures forall i | 0 <= i < |order| :: KeyOf(KeyExps(order), row)[i] == row[order[i]]
  {
  }

  lemma {:induction false} KeptColumnsAre(aggs: seq<Aggregator>, iu: IU)
    ensures iu in KeptColumns(aggs) <==> exists i :: 0 <= i < |aggs| && aggs[i] == Keep(iu)
  {
    if aggs != [] {
      var last := |aggs| - 1;
      KeptColumnsAre(aggs[..last], iu);
      assert aggs[last] == Keep(iu) || aggs[last] != Keep(iu);
    }
  }

  lemma {:induction false} GroupHasHash(rows: seq<Row>, keys: seq<Exp>, hashing: Hashing, h: nat)
    requires forall k | 0 <= k < |rows| :: Readable(keys, rows[k])
    ensures forall row | row in RowsOf(rows, keys, hashing, h) ::
              Readable(keys, row) && JoinHash(keys, row, hashing) == h
  {
    if rows != [] {
      GroupHasHash(rows[..|rows| - 1], keys, hashing, h);
    }
  }

  lemma SameKeyIff(order: seq<IU>, r: Row, s: Row)
    requires forall i | 0 <= i < |order| :: order[i] in r && order[i] in s
    ensures Readable(KeyExps(order), r) && Readable(KeyExps(order), s)
    ensures KeyOf(KeyExps(order), r) == KeyOf(KeyExps(order), s) <==> forall iu | iu in order :: r[iu] == s[iu]
  {
    hide KeyExps, KeyOf, Readable;
    KeyHoldsColumns(order, r);
    KeyHoldsColumns(order, s);
    if KeyOf(KeyExps(order), r) == KeyOf(KeyExps(order), s) {
      forall i | 0 <= i < |order| ensures r[order[i]] == s[order[i]] {
        assert KeyOf(KeyExps(order), r)[i] == KeyOf(KeyExps(order), s)[i];
      }
    }
  }

  /** What is grouped: as far as equal combined hashes mean equal keys, two rows are in one group if and
      only if they agree on every column that is kept. */
  lemma GroupsAgreeOnKept(aggs: seq<Aggregator>, order: seq<IU>, hashing: Hashing, rows: seq<Row>, j: nat, k: nat)
    requires IsKeyOrder(aggs, order) && AllUsable(aggs, rows) && j < |rows| && k < |rows|
    requires AllReadable(order, rows) && HashSeparates(rows, KeyExps(order), hashing)
    ensures forall iu | iu in KeptColumns(aggs) :: iu in rows[j] && iu in rows[k]
    ensures rows[k] in RowsOf(rows, KeyExps(order), hashing, JoinHash(KeyExps(order), rows[j], hashing))
       <==> forall iu | iu in KeptColumns(aggs) :: rows[j][iu] == rows[k][iu]
  {
    hide RowsOf, KeyOf, KeyExps, JoinHash, Readable, Usable;
    var keys := KeyExps(order);
    KeptAreThere(aggs, rows[j]);
    KeptAreThere(aggs, rows[k]);
    assert forall i | 0 <= i < |order| :: order[i] in order;
    SameKeyIff(order, rows[j], rows[k]);
    if KeyOf(keys, rows[j]) == KeyOf(keys, rows[k]) {
      HashDependsOnKey(keys, rows[j], rows[k], hashing);
      GroupHasRow(rows, keys, hashing, k);
    } else {
      assert !SameHash(keys, rows[j], rows[k], hashing);
      GroupHasHash(rows, keys, hashing, JoinHash(keys, rows[j], hashing));
    }
  }

  ghost predicate AllReadable(order: seq<IU>, rows: seq<Row>)
  {
    forall k | 0 <= k < |rows| :: Readable(KeyExps(order), rows[k])
  }

  /** Every column counts for the combined hash: if the hash of a value and the combination lose nothing,
      neither does the combined hash of as many keys. */
  lemma {:induction false} LosslessHashSeparates(keys: seq<Exp>, r: Row, s: Row, hashing: Hashing)
    requires Readable(keys, r) && Readable(keys, s) && JoinHash(keys, r, hashing) == JoinHash(keys, s, hashing)
    requires forall a, b :: hashing.hash(a) == hashing.hash(b) ==> a == b
    requires forall a, b, c, d :: hashing.combine(a, b) == hashing.combine(c, d) ==> a == c && b == d
    ensures KeyOf(keys, r) == KeyOf(keys, s)
  {
    hide Evaluate, CollectRequired;
    if |keys| == 1 {
      assert hashing.hash(Evaluate(keys[0], r)) == hashing.hash(Evaluate(keys[0], s));
    } else if |keys| > 1 {
      var last := |keys| - 1;
      LosslessHashSeparates(keys[..last], r, s, hashing);
      assert KeyOf(keys, r) == KeyOf(keys[..last], r) + [Evaluate(keys[last], r)];
      assert KeyOf(keys, s) == KeyOf(keys[..last], s) + [Evaluate(keys[last], s)];
    }
  }

  /** What the output of a grouping says: one tuple for each hash that occurs, with one value per aggregator
      that summarises the rows with that hash. */
  lemma OutputMeaning(aggs: seq<Aggregator>, rows: seq<Row>, keys: seq<Exp>, hashing: Hashing, hashes: seq<nat>,
                      out: seq<seq<int>>, g: nat, i: nat)
    requires IsGrouping(rows, keys, hashing, hashes) && SummarisesAll(aggs, rows, keys, hashing, hashes, out)
    ensures |out| == |hashes| && (forall a, b | 0 <= a < b < |hashes| :: hashes[a] != hashes[b])
    ensures forall h :: h in hashes <==> exists k :: 0 <= k < |rows| && JoinHash(keys, rows[k], hashing) == h
    ensures g < |out| && i < |aggs| ==>
              var group := RowsOf(rows, keys, hashing, hashes[g]);
              && |out[g]| == |aggs| && group != [] && HasColumns(group, RequiredBy(aggs[i]))
              && Summarises(aggs[i], group, out[g][i])
  {
    hide RowsOf, JoinHash, Readable, Summarises, HasColumns;
    forall h | h in hashes ensures exists k :: 0 <= k < |rows| && JoinHash(keys, rows[k], hashing) == h {
      var a :| 0 <= a < |hashes| && hashes[a] == h;
      assert SummarisesGroup(aggs, RowsOf(rows, keys, hashing, hashes[a]), out[a]);
      RowsComeFromSomewhere(rows, keys, hashing, h);
    }
    if g < |out| {
      assert SummarisesGroup(aggs, RowsOf(rows, keys, hashing, hashes[g]), out[g]);
    }
  }

  lemma {:induction false} ImageSize(f: nat -> nat, n: nat)
    requires forall i, j | 0 <= i < j < n :: f(i) != f(j)
    ensures |set i | 0 <= i < n :: f(i)| == n
  {
    if n > 0 {
      ImageSize(f, n - 1);
      assert (set i | 0 <= i < n :: f(i)) == (set i | 0 <= i < n - 1 :: f(i)) + {f(n - 1)};
    }
  }

  lemma Pigeonhole(f: nat -> nat, n: nat)
    requires forall i | 0 <= i <= n :: f(i) < n
    ensures exists i, j :: 0 <= i < j <= n && f(i) == f(j)
  {
    if forall i, j | 0 <= i < j < n + 1 :: f(i) != f(j) {
      var same: nat -> nat := i => i;
      ImageSize(f, n + 1);
      ImageSize(same, n);
      assert forall i | 0 <= i < n + 1 :: same(f(i)) == f(i);
      T.SubsetIsSmaller(set i | 0 <= i < n + 1 :: f(i), set i | 0 <= i < n :: same(i));
    }
  }

  const TWO_KEYS := [Identifier(0), Identifier(1)]

  /** The i-th pair of 64-bit integers. */
  function PairRow(i: nat): Row
  {
    map[0 := i / TURN, 1 := i % TURN + INT64_MIN]
  }

  predicate IsPair(row: Row)
  {
    row.Keys == {0, 1} && Int64(row[0]) && Int64(row[1])
  }

  lemma PairsDiffer(i: nat, j: nat)
    requires i < j <= TURN
    ensures IsPair(PairRow(i)) && IsPair(PairRow(j)) && PairRow(i) != PairRow(j)
  {
    assert PairRow(i)[0] == i / TURN && PairRow(i)[1] == i % TURN + INT64_MIN;
    assert PairRow(j)[0] == j / TURN && PairRow(j)[1] == j % TURN + INT64_MIN;
  }

  lemma PairIsReadable(row: Row)
    requires row.Keys == {0, 1}
    ensures Readable(TWO_KEYS, row) && KeyOf(TWO_KEYS, row) == [row[0], row[1]]
  {
  }

  lemma PairHash(row: Row, hashing: Hashing)
    requires row.Keys == {0, 1} && forall x, y :: hashing.combine(x, y) < TURN
    ensures Readable(TWO_KEYS, row) && JoinHash(TWO_KEYS, row, hashing) < TURN
  {
    PairIsReadable(row);
  }

  /** Two rows with different keys of two 64-bit columns, in one group. */
  ghost predicate Merged(r: Row, s: Row, hashing: Hashing)
  {
    && IsPair(r) && IsPair(s) && Readable(TWO_KEYS, r) && Readable(TWO_KEYS, s)
    && KeyOf(TWO_KEYS, r) != KeyOf(TWO_KEYS, s)
    && RowsOf([r, s], TWO_KEYS, hashing, JoinHash(TWO_KEYS, r, hashing)) == [r, s]
  }

  lemma CollisionMerges(r: Row, s: Row, hashing: Hashing)
    requires IsPair(r) && IsPair(s) && r != s && Readable(TWO_KEYS, r) && Readable(TWO_KEYS, s)
    requires JoinHash(TWO_KEYS, r, hashing) == JoinHash(TWO_KEYS, s, hashing)
    ensures Merged(r, s, hashing)
  {
    hide JoinHash, KeyOf, Readable, RowsOf;
    PairIsReadable(r);
    PairIsReadable(s);
    assert r[0] != s[0] || r[1] != s[1];
    var h := JoinHash(TWO_KEYS, r, hashing);
    NothingOf(TWO_KEYS, hashing, h);
    RowsOfOneMore([], TWO_KEYS, hashing, h, r);
    RowsOfOneMore([r], TWO_KEYS, hashing, h, s);
    assert [] + [r] == [r] && [r] + [s] == [r, s];
  }

  lemma NothingOf(keys: seq<Exp>, hashing: Hashing, h: nat)
    ensures RowsOf([], keys, hashing, h) == []
  {
  }

  /** There are such rows for every combined hash of 64 bits. */
  lemma EveryHashMergesGroups(hashing: Hashing)
    requires forall x, y :: hashing.combine(x, y) < TURN
    ensures exists r, s :: Merged(r, s, hashing)
  {
    hide JoinHash, Readable, Merged, PairRow, IsPair;
    forall i: nat ensures PairRow(i).Keys == {0, 1} && Readable(TWO_KEYS, PairRow(i)) {
      PairHasKeys(i);
      PairIsReadable(PairRow(i));
    }
    var f: nat -> nat := i => JoinHash(TWO_KEYS, PairRow(i), hashing);
    forall i | 0 <= i <= TURN ensures f(i) < TURN {
      PairHash(PairRow(i), hashing);
    }
    Pigeonhole(f, TURN);
    var i, j :| 0 <= i < j <= TURN && f(i) == f(j);
    PairsDiffer(i, j);
    CollisionMerges(PairRow(i), PairRow(j), hashing);
  }

  lemma PairHasKeys(i: nat)
    ensures PairRow(i).Keys == {0, 1}
  {
  }

  // ----- the groups partition the rows

  ghost function GroupSizes(rows: seq<Row>, keys: seq<Exp>, hashing: Hashing, hashes: seq<nat>): nat
    requires forall k | 0 <= k < |rows| :: Readable(keys, rows[k])
  {
    if hashes == [] then 0
    else GroupSizes(rows, keys, hashing, hashes[..|hashes| - 1]) + |RowsOf(rows, keys, hashing, hashes[|hashes| - 1])|
  }

  lemma {:induction false} OneMoreRow(rows: seq<Row>, keys: seq<Exp>, hashing: Hashing, hashes: seq<nat>, row: Row)
    requires (forall k | 0 <= k < |rows| :: Readable(keys, rows[k])) && Readable(keys, row)
    requires forall i, j | 0 <= i < j < |hashes| :: hashes[i] != hashes[j]
    ensures forall k | 0 <= k < |rows + [row]| :: Readable(keys, (rows + [row])[k])
    ensures GroupSizes(rows + [row], keys, hashing, hashes)
         == GroupSizes(rows, keys, hashing, hashes) + if JoinHash(keys, row, hashing) in hashes then 1 else 0
  {
    if hashes != [] {
      var front, last := hashes[..|hashes| - 1], hashes[|hashes| - 1];
      OneMoreRow(rows, keys, hashing, front, row);
      RowsOfOneMore(rows, keys, hashing, last, row);
      assert hashes == front + [last];
    }
  }

  /** No row is lost and none is counted twice. */
  lemma {:induction false} GroupSizesAddUp(rows: seq<Row>, keys: seq<Exp>, hashing: Hashing, hashes: seq<nat>)
    requires IsGrouping(rows, keys, hashing, hashes)
    ensures GroupSizes(rows, keys, hashing, hashes) == |rows|
  {
    if rows == [] {
      NothingToGroup(keys, hashing, hashes);
    } else {
      var front := rows[..|rows| - 1];
      GroupSizesAddUp(front, keys, hashing, hashes);
      OneMoreRow(front, keys, hashing, hashes, rows[|rows| - 1]);
      assert rows == front + [rows[|rows| - 1]];
    }
  }

  lemma {:induction false} NothingToGroup(keys: seq<Exp>, hashing: Hashing, hashes: seq<nat>)
    ensures GroupSizes([], keys, hashing, hashes) == 0
  {
    if hashes != [] {
      NothingToGroup(keys, hashing, hashes[..|hashes| - 1]);
    }
  }

  function SumColumn(out: seq<seq<int>>, i: nat): int
    requires forall g | 0 <= g < |out| :: i < |out[g]|
  {
    if out == [] then 0 else SumColumn(out[..|out| - 1], i) + out[|out| - 1][i]
  }

  /** The counts of all groups add up to the number of rows consumed. */
  lemma CountsAddUp(aggs: seq<Aggregator>, rows: seq<Row>, keys: seq<Exp>, hashing: Hashing, hashes: seq<nat>,
                    out: seq<seq<int>>, i: nat)
    requires IsGrouping(rows, keys, hashing, hashes) && SummarisesAll(aggs, rows, keys, hashing, hashes, out)
    requires i < |aggs| && aggs[i].CountAll?
    ensures forall g | 0 <= g < |out| :: i < |out[g]|
    ensures SumColumn(out, i) == |rows|
  {
    CountsAreSizes(aggs, rows, keys, hashing, hashes, out, i);
    GroupSizesAddUp(rows, keys, hashing, hashes);
  }

  lemma {:induction false} CountsAreSizes(aggs: seq<Aggregator>, rows: seq<Row>, keys: seq<Exp>, hashing: Hashing,
                                          hashes: seq<nat>, out: seq<seq<int>>, i: nat)
    requires forall k | 0 <= k < |rows| :: Readable(keys, rows[k])
    requires SummarisesAll(aggs, rows, keys, hashing, hashes, out)
    requires i < |aggs| && aggs[i].CountAll?
    ensures forall g | 0 <= g < |out| :: i < |out[g]|
    ensures SumColumn(out, i) == GroupSizes(rows, keys, hashing, hashes)
    decreases |out|
  {
    assert forall g | 0 <= g < |out| :: SummarisesGroup(aggs, RowsOf(rows, keys, hashing, hashes[g]), out[g]);
    if out != [] {
      CountsAreSizes(aggs, rows, keys, hashing, hashes[..|hashes| - 1], out[..|out| - 1], i);
    }
  }

  /** Every row, when it came, found its group with room for it. */
  ghost predicate AllRowsFit(aggs: seq<Aggregator>, rows: seq<Row>, keys: seq<Exp>, hashing: Hashing)
    requires forall k | 0 <= k < |rows| :: Readable(keys, rows[k])
  {
    rows == [] ||
    var front, row := rows[..|rows| - 1], rows[|rows| - 1];
    AllRowsFit(aggs, front, keys, hashing) && FitsAll(aggs, RowsOf(rows, keys, hashing, JoinHash(keys, row, hashing)))
  }

  lemma OneMoreFits(aggs: seq<Aggregator>, rows: seq<Row>, row: Row, keys: seq<Exp>, hashing: Hashing)
    requires (forall k | 0 <= k < |rows| :: Readable(keys, rows[k])) && Readable(keys, row)
    ensures forall k | 0 <= k < |rows + [row]| :: Readable(keys, (rows + [row])[k])
    ensures AllRowsFit(aggs, rows + [row], keys, hashing)
       <==> && AllRowsFit(aggs, rows, keys, hashing)
            && FitsAll(aggs, RowsOf(rows, keys, hashing, JoinHash(keys, row, hashing)) + [row])
  {
    hide RowsOf, FitsAll, JoinHash, Readable;
    RowsOfOneMore(rows, keys, hashing, JoinHash(keys, row, hashing), row);
    assert (rows + [row])[..|rows|] == rows;
  }

  /** Then every group fits. */
  lemma {:induction false} GroupFits(aggs: seq<Aggregator>, rows: seq<Row>, keys: seq<Exp>, hashing: Hashing, h: nat)
    requires (forall k | 0 <= k < |rows| :: Readable(keys, rows[k])) && AllRowsFit(aggs, rows, keys, hashing)
    requires RowsOf(rows, keys, hashing, h) != []
    ensures FitsAll(aggs, RowsOf(rows, keys, hashing, h))
  {
    hide FitsAll, JoinHash, Readable;
    if JoinHash(keys, rows[|rows| - 1], hashing) != h {
      GroupFits(aggs, rows[..|rows| - 1], keys, hashing, h);
    }
  }

  lemma OneRowFits(aggs: seq<Aggregator>, row: Row)
    requires Usable(aggs, row)
    ensures FitsAll(aggs, [row])
  {
  }

  ghost predicate AllDivide(aggs: seq<Aggregator>, rows: seq<Row>, keys: seq<Exp>, hashing: Hashing)
    requires forall j | 0 <= j < |rows| :: Readable(keys, rows[j])
  {
    forall k | 0 <= k < |rows| :: DividesAll(aggs, |RowsOf(rows, keys, hashing, JoinHash(keys, rows[k], hashing))|)
  }

  /** No average of a group of the rows overflows. */
  ghost predicate ResultsFit(aggs: seq<Aggregator>, rows: seq<Row>, keys: seq<Exp>, hashing: Hashing)
    requires forall j | 0 <= j < |rows| :: Readable(keys, rows[j])
  {
    forall k | 0 <= k < |rows| :: AveragesFit(aggs, RowsOf(rows, keys, hashing, JoinHash(keys, rows[k], hashing)))
  }

  ghost predicate AllAveragesFit(aggs: seq<Aggregator>, rows: seq<Row>, keys: seq<Exp>, hashing: Hashing,
                                 hashes: seq<nat>)
    requires forall j | 0 <= j < |rows| :: Readable(keys, rows[j])
  {
    forall g | 0 <= g < |hashes| :: AveragesFit(aggs, RowsOf(rows, keys, hashing, hashes[g]))
  }

  lemma DoesNotDivide(aggs: seq<Aggregator>, rows: seq<Row>, keys: seq<Exp>, hashing: Hashing, h: nat)
    requires forall k | 0 <= k < |rows| :: Readable(keys, rows[k])
    requires RowsOf(rows, keys, hashing, h) != [] && !DividesAll(aggs, |RowsOf(rows, keys, hashing, h)|)
    ensures !AllDivide(aggs, rows, keys, hashing)
  {
    hide RowsOf, DividesAll, JoinHash, Readable;
    RowsComeFromSomewhere(rows, keys, hashing, h);
  }

  /** What holds for each group that is visited holds for the group of each row. */
  lemma OverGroups(aggs: seq<Aggregator>, rows: seq<Row>, keys: seq<Exp>, hashing: Hashing, hashes: seq<nat>,
                   out: seq<seq<int>>)
    requires IsGrouping(rows, keys, hashing, hashes) && OutputsAll(aggs, rows, keys, hashing, hashes, out)
    requires forall g | 0 <= g < |hashes| :: DividesAll(aggs, |RowsOf(rows, keys, hashing, hashes[g])|)
    ensures AllDivide(aggs, rows, keys, hashing)
    ensures ResultsFit(aggs, rows, keys, hashing) <==> AllAveragesFit(aggs, rows, keys, hashing, hashes)
    ensures AllRowsFit(aggs, rows, keys, hashing) && ResultsFit(aggs, rows, keys, hashing) ==>
              SummarisesAll(aggs, rows, keys, hashing, hashes, out)
  {
    hide RowsOf, DividesAll, JoinHash, Readable, AveragesFit, AllRowsFit, FitsAll, SummarisesGroup;
    forall k | 0 <= k < |rows| ensures exists g :: 0 <= g < |hashes| && hashes[g] == JoinHash(keys, rows[k], hashing) {
      assert JoinHash(keys, rows[k], hashing) in hashes;
    }
    forall g | 0 <= g < |hashes|
      ensures exists k :: 0 <= k < |rows| && JoinHash(keys, rows[k], hashing) == hashes[g]
    {
      assert OutputsGroup(aggs, RowsOf(rows, keys, hashing, hashes[g]), out[g]);
      RowsComeFromSomewhere(rows, keys, hashing, hashes[g]);
    }
    if AllRowsFit(aggs, rows, keys, hashing) && AllAveragesFit(aggs, rows, keys, hashing, hashes) {
      forall g | 0 <= g < |hashes|
        ensures SummarisesGroup(aggs, RowsOf(rows, keys, hashing, hashes[g]), out[g])
      {
        GroupFits(aggs, rows, keys, hashing, hashes[g]);
        OutputsSummarise(aggs, RowsOf(rows, keys, hashing, hashes[g]), out[g]);
      }
    }
  }

  class GroupBy {
    const aggs: seq<Aggregator>
    const keys: seq<Exp>
    const hashing: Hashing
    const table: T.Hashtable
    var groups: map<T.Node, array<Entry>>
    var overflow: bool
    ghost var consumed: seq<Row>
    ghost var owned: set<object>

    ghost predicate RowsFit()
      reads this
    {
      AllUsable(aggs, consumed) && forall k | 0 <= k < |consumed| :: Readable(keys, consumed[k])
    }

    /** The group of a node aggregates exactly the rows with the node's hash. */
    ghost predicate Holds(n: T.Node, group: array<Entry>)
      reads this, group
      requires RowsFit()
    {
      var rows := RowsOf(consumed, keys, hashing, n.hashCode);
      && group.Length == |aggs| && rows != []
      && forall i | 0 <= i < |aggs| :: HasColumns(rows, RequiredBy(aggs[i])) && Aggregates(aggs[i], rows, group[i])
    }

    ghost predicate Owns()
      reads this, table
    {
      && table in owned && table.table in owned && this !in owned
      && (forall n | n in table.nodes :: n in owned)
      && (forall n | n in groups :: groups[n] in owned)
    }

    ghost predicate Valid()
      reads this, owned, table
    {
      && Owns() && table.Valid() && RowsFit()
      && groups.Keys == table.nodes
      && (forall n | n in groups :: Holds(n, groups[n]))
      && Separate(groups)
      && Covered(consumed, keys, hashing, table.nodes)
      && (overflow <==> !AllRowsFit(aggs, consumed, keys, hashing))
    }

    /** The hash table is used only if some column is kept. */
    constructor (aggs: seq<Aggregator>, order: seq<IU>, hashing: Hashing)
      requires IsKeyOrder(aggs, order) && order != []
      ensures Valid() && consumed == [] && fresh(owned)
      ensures this.aggs == aggs && this.hashing == hashing && keys == KeyExps(order)
    {
      this.aggs, this.hashing, keys := aggs, hashing, KeyExps(order);
      table := new T.Hashtable(16);
      groups, overflow, consumed := map[], false, [];
      new;
      owned := {table, table.table};
    }

    /** Looks the group up by the combined key hash; creates it or aggregates into it. */
    method Consume(row: Row)
      requires Valid() && Usable(aggs, row) && Readable(keys, row)
      modifies this, owned
      ensures Valid() && consumed == old(consumed) + [row] && fresh(owned - old(owned))
    {
      hide RowsOf, Aggregates, HasColumns, Usable, Readable, JoinHash, AllRowsFit, Separate, Covered;
      var h := GenJoinHash(keys, row, hashing);
      var node, k := table.Lookup(h);
      if node == null {
        NewGroup(row, h);
      } else {
        assert table.ValidBucket(table.Hash(h));
        UpdateGroup(row, node);
      }
    }

    method NewGroup(row: Row, h: nat)
      requires Valid() && Usable(aggs, row) && Readable(keys, row)
      requires h == JoinHash(keys, row, hashing) && h !in T.HashesOf(table.nodes)
      modifies this`groups, this`consumed, this`owned, table, table.table, table.nodes
      ensures Valid() && consumed == old(consumed) + [row] && fresh(owned - old(owned))
    {
      hide T.Hashtable.Valid, RowsOf, Aggregates, HasColumns, Usable, Readable, JoinHash, Separate, Covered,
           Holds, RowsFit, AllRowsFit;
      NewHash(h);
      FirstRowFits(row);
      var group := InitializeGroup(aggs, row);
      var node := table.InsertNew(h);
      RecordGroup(node, group, row, old(table.nodes));
      OthersHold(node, row);
    }

    lemma FirstRowFits(row: Row)
      requires RowsFit() && Usable(aggs, row) && Readable(keys, row)
      requires RowsOf(consumed, keys, hashing, JoinHash(keys, row, hashing)) == []
      ensures forall k | 0 <= k < |consumed + [row]| :: Readable(keys, (consumed + [row])[k])
      ensures AllRowsFit(aggs, consumed + [row], keys, hashing) <==> AllRowsFit(aggs, consumed, keys, hashing)
    {
      hide RowsOf, FitsAll, JoinHash, Readable, AllRowsFit, Usable;
      OneMoreFits(aggs, consumed, row, keys, hashing);
      OneRowFits(aggs, row);
      assert [] + [row] == [row];
    }

    lemma NewHash(h: nat)
      requires Valid() && h !in T.HashesOf(table.nodes)
      ensures RowsOf(consumed, keys, hashing, h) == [] && forall n | n in groups :: n.hashCode != h
    {
      OtherHashes(groups, h);
      NoRowsOf(consumed, keys, hashing, h, table.nodes);
    }

    /** From here on the node has a group. */
    method RecordGroup(node: T.Node, group: array<Entry>, row: Row, ghost nodes: set<T.Node>)
      requires RowsFit() && Covered(consumed, keys, hashing, nodes) && Separate(groups) && node !in groups
      requires forall n | n in groups :: n.hashCode != node.hashCode && groups[n] != group
      requires Usable(aggs, row) && Readable(keys, row) && node.hashCode == JoinHash(keys, row, hashing)
      requires RowsOf(consumed, keys, hashing, node.hashCode) == [] && group.Length == |aggs|
      requires forall i | 0 <= i < |aggs| ::
                 HasColumns([row], RequiredBy(aggs[i])) && Aggregates(aggs[i], [row], group[i])
      modifies this`groups, this`consumed, this`owned
      ensures RowsFit() && consumed == old(consumed) + [row] && groups == old(groups)[node := group]
      ensures owned == old(owned) + {node, group, table.table}
      ensures Separate(groups) && Holds(node, group) && Covered(consumed, keys, hashing, nodes + {node})
    {
      hide RowsOf, Aggregates, HasColumns, Usable, Readable, JoinHash, Separate, Covered;
      CoveredGrows(consumed, keys, hashing, nodes, row, node);
      SeparateGrows(groups, node, group);
      RowsOfOneMore(consumed, keys, hashing, node.hashCode, row);
      groups := groups[node := group];
      owned := owned + {node, group, table.table};
      consumed := consumed + [row];
      assert [] + [row] == [row];
    }

    method UpdateGroup(row: Row, node: T.Node)
      requires Valid() && Usable(aggs, row) && Readable(keys, row)
      requires node in groups && node.hashCode == JoinHash(keys, row, hashing)
      modifies this`consumed, this`overflow, groups[node]
      ensures Valid() && consumed == old(consumed) + [row] && owned == old(owned)
    {
      hide T.Hashtable.Valid, RowsOf, Aggregates, HasColumns, Usable, Readable, JoinHash, AllRowsFit, FitsAll, Covered,
           Separate;
      GroupsDiffer(node);
      ghost var rows := RowsOf(consumed, keys, hashing, node.hashCode);
      assert Holds(node, groups[node]);
      OneMoreFits(aggs, consumed, row, keys, hashing);
      if !overflow {
        GroupFits(aggs, consumed, keys, hashing, node.hashCode);
      }
      var flagged := AggregateInto(aggs, groups[node], row, rows);
      overflow := overflow || flagged;
      RecordRow(row, node);
      OthersHold(node, row);
    }

    lemma GroupsDiffer(node: T.Node)
      requires Valid() && node in groups
      ensures forall n | n in groups && n != node :: n.hashCode != node.hashCode && groups[n] != groups[node]
    {
    }

    /** The group of the node has consumed the row. */
    ghost method RecordRow(row: Row, node: T.Node)
      requires RowsFit() && Usable(aggs, row) && Readable(keys, row) && node in groups
      requires node.hashCode == JoinHash(keys, row, hashing) && Covered(consumed, keys, hashing, groups.Keys)
      requires var rows, group := RowsOf(consumed, keys, hashing, node.hashCode), groups[node];
               && group.Length == |aggs|
               && forall i | 0 <= i < |aggs| ::
                    HasColumns(rows + [row], RequiredBy(aggs[i])) && Aggregates(aggs[i], rows + [row], group[i])
      modifies this`consumed
      ensures RowsFit() && consumed == old(consumed) + [row] && Holds(node, groups[node])
      ensures Covered(consumed, keys, hashing, groups.Keys)
    {
      hide RowsOf, Aggregates, HasColumns, Usable, Readable, JoinHash, Covered;
      CoveredGrows(consumed, keys, hashing, groups.Keys, row, node);
      assert groups.Keys + {node} == groups.Keys;
      RowsOfOneMore(consumed, keys, hashing, node.hashCode, row);
      consumed := consumed + [row];
    }

    /** The groups with other hashes are not concerned. */
    twostate lemma OthersHold(new node: T.Node, row: Row)
      requires old(RowsFit()) && RowsFit() && Readable(keys, row) && consumed == old(consumed) + [row]
      requires node.hashCode == JoinHash(keys, row, hashing)
      requires forall n | n in old(groups) && n != node :: n in groups && groups[n] == old(groups[n])
      requires forall n | n in old(groups) && n != node :: n.hashCode != node.hashCode && old(Holds(n, groups[n]))
      requires forall n | n in old(groups) && n != node :: groups[n][..] == old(groups[n][..])
      ensures forall n | n in old(groups) && n != node :: Holds(n, groups[n])
    {
      forall n | n in old(groups) && n != node ensures Holds(n, groups[n]) {
        RowsOfOneMore(old(consumed), keys, hashing, n.hashCode, row);
        assert forall i | 0 <= i < groups[n].Length :: groups[n][i] == groups[n][..][i] == old(groups[n][..])[i];
      }
    }

    /** Passes on one tuple of results per node, until a counter is zero. */
    method Produce() returns (out: seq<seq<int>>, complete: bool, ghost hashes: seq<nat>)
      requires Valid()
      modifies this`overflow
      ensures RowsFit() && (complete <==> AllDivide(aggs, consumed, keys, hashing))
      ensures complete ==> IsGrouping(consumed, keys, hashing, hashes)
      ensures complete ==> OutputsAll(aggs, consumed, keys, hashing, hashes, out)
      ensures overflow <==> !(AllRowsFit(aggs, consumed, keys, hashing) && ResultsFit(aggs, consumed, keys, hashing))
      ensures !overflow ==> complete && SummarisesAll(aggs, consumed, keys, hashing, hashes, out)
    {
      hide RowsOf, Aggregates, HasColumns, Usable, Readable, JoinHash, AllRowsFit, FitsAll, Covered, Separate,
           AveragesFit, DividesAll, OutputsGroup, IsGrouping, AllDivide, ResultsFit, SummarisesAll, PowerOfTwo,
           T.Hashtable.ValidBucket, T.HashesOf;
      var visited := table.VisitBuckets();
      out, hashes := [], [];
      for g := 0 to |visited|
        invariant |hashes| == |out| == g && forall j | 0 <= j < g :: hashes[j] == visited[j].hashCode
        invariant OutputsAll(aggs, consumed, keys, hashing, hashes, out)
        invariant if AllRowsFit(aggs, consumed, keys, hashing)
                  then overflow <==> !AllAveragesFit(aggs, consumed, keys, hashing, hashes) else overflow
        invariant forall j | 0 <= j < g :: DividesAll(aggs, |RowsOf(consumed, keys, hashing, hashes[j])|)
      {
        var node := visited[g];
        assert node in visited && Holds(node, groups[node]);
        var results, flagged := ProduceGroup(node);
        overflow := overflow || flagged;
        if results.None? {
          DoesNotDivide(aggs, consumed, keys, hashing, node.hashCode);
          return out, false, [];
        }
        out := out + [results.value];
        hashes := hashes + [node.hashCode];
      }
      VisitedNodesAreGroups(visited, hashes);
      OverGroups(aggs, consumed, keys, hashing, hashes, out);
      complete := true;
    }

    method ProduceGroup(node: T.Node) returns (results: Option<seq<int>>, flagged: bool)
      requires RowsFit() && node in groups && Holds(node, groups[node])
      ensures var rows := RowsOf(consumed, keys, hashing, node.hashCode);
              && (results.Some? <==> DividesAll(aggs, |rows|))
              && (results.Some? ==> OutputsGroup(aggs, rows, results.value))
              && (AllRowsFit(aggs, consumed, keys, hashing) ==>
                    results.Some? && (flagged <==> !AveragesFit(aggs, rows)))
    {
      hide RowsOf, Aggregates, HasColumns, Usable, Readable, JoinHash, AllRowsFit, FitsAll, AveragesFit, DividesAll,
           OutputsGroup;
      results, flagged := GetResults(aggs, groups[node], RowsOf(consumed, keys, hashing, node.hashCode));
      if AllRowsFit(aggs, consumed, keys, hashing) {
        GroupFits(aggs, consumed, keys, hashing, node.hashCode);
      }
    }

    lemma VisitedNodesAreGroups(visited: seq<T.Node>, hashes: seq<nat>)
      requires RowsFit() && Distinct(visited) && forall n :: n in visited <==> n in groups
      requires Separate(groups) && Covered(consumed, keys, hashing, groups.Keys)
      requires |hashes| == |visited| && forall j | 0 <= j < |hashes| :: hashes[j] == visited[j].hashCode
      ensures IsGrouping(consumed, keys, hashing, hashes)
    {
      hide JoinHash, Readable;
      forall i, j | 0 <= i < j < |hashes| ensures hashes[i] != hashes[j] {
        assert visited[i] in visited && visited[j] in visited;
      }
      forall k | 0 <= k < |consumed| ensures JoinHash(keys, consumed[k], hashing) in hashes {
        assert JoinHash(keys, consumed[k], hashing) in T.HashesOf(groups.Keys);
        var n :| n in groups && n.hashCode == JoinHash(keys, consumed[k], hashing);
        assert n in visited;
      }
    }
  }

  /** Every row, when it came, found the single group with room for it. */
  ghost predicate PrefixesFit(aggs: seq<Aggregator>, rows: seq<Row>)
  {
    rows == [] || (PrefixesFit(aggs, rows[..|rows| - 1]) && FitsAll(aggs, rows))
  }

  lemma OnePrefixMore(aggs: seq<Aggregator>, rows: seq<Row>, row: Row)
    ensures PrefixesFit(aggs, rows + [row]) <==> PrefixesFit(aggs, rows) && FitsAll(aggs, rows + [row])
    ensures PrefixesFit(aggs, rows) && rows != [] ==> FitsAll(aggs, rows)
    ensures PrefixesFit(aggs, [])
  {
    assert (rows + [row])[..|rows|] == rows;
  }

  /** Without a kept column there is exactly one group, and none at all for an empty input. */
  class SingleGroup {
    const aggs: seq<Aggregator>
    var isEmpty: bool
    var group: array<Entry>
    var overflow: bool
    ghost var consumed: seq<Row>

    ghost predicate Valid()
      reads this, group
    {
      && AllUsable(aggs, consumed) && (isEmpty <==> consumed == [])
      && (!isEmpty ==> group.Length == |aggs|)
      && (!isEmpty ==> forall i | 0 <= i < |aggs| ::
            HasColumns(consumed, RequiredBy(aggs[i])) && Aggregates(aggs[i], consumed, group[i]))
      && (overflow <==> !PrefixesFit(aggs, consumed))
    }

    constructor (aggs: seq<Aggregator>)
      ensures Valid() && consumed == [] && fresh(group) && this.aggs == aggs
    {
      this.aggs, isEmpty, overflow, consumed := aggs, true, false, [];
      group := new Entry[0](_ => Single(0));
    }

    method Consume(row: Row)
      requires Valid() && Usable(aggs, row)
      modifies this, group
      ensures Valid() && consumed == old(consumed) + [row]
      ensures group == old(group) || fresh(group)
    {
      hide Aggregates, HasColumns, Usable, FitsAll, PrefixesFit;
      OnePrefixMore(aggs, consumed, row);
      if isEmpty {
        isEmpty := false;
        group := InitializeGroup(aggs, row);
        assert consumed + [row] == [row];
        OneRowFits(aggs, row);
      } else {
        var flagged := AggregateInto(aggs, group, row, consumed);
        overflow := overflow || flagged;
      }
      consumed := consumed + [row];
    }

    method Produce() returns (out: seq<seq<int>>, complete: bool)
      requires Valid()
      modifies this`overflow
      ensures complete <==> consumed == [] || DividesAll(aggs, |consumed|)
      ensures complete ==> if consumed == [] then out == [] else |out| == 1 && OutputsGroup(aggs, consumed, out[0])
      ensures overflow <==> !(PrefixesFit(aggs, consumed) && (consumed == [] || AveragesFit(aggs, consumed)))
      ensures !overflow ==>
                && complete
                && if consumed == [] then out == [] else |out| == 1 && SummarisesGroup(aggs, consumed, out[0])
    {
      hide Aggregates, HasColumns, Usable, FitsAll, AveragesFit, DividesAll, OutputsGroup, SummarisesGroup;
      if isEmpty { return [], true; }
      var results, flagged := GetResults(aggs, group, consumed);
      overflow := overflow || flagged;
      if results.None? { return [], false; }
      if !overflow {
        OutputsSummarise(aggs, consumed, results.value);
      }
      return [results.value], true;
    }
  }

  /** All rows consumed, then all groups produced: one tuple per distinct combined key hash. */
  method Aggregate(aggs: seq<Aggregator>, order: seq<IU>, hashing: Hashing, rows: seq<Row>)
    returns (overflow: bool, out: seq<seq<int>>, complete: bool, ghost hashes: seq<nat>)
    requires IsKeyOrder(aggs, order) && order != [] && AllUsable(aggs, rows)
    ensures forall k | 0 <= k < |rows| :: Readable(KeyExps(order), rows[k])
    ensures complete <==> AllDivide(aggs, rows, KeyExps(order), hashing)
    ensures complete ==> IsGrouping(rows, KeyExps(order), hashing, hashes)
    ensures complete ==> OutputsAll(aggs, rows, KeyExps(order), hashing, hashes, out)
    ensures overflow <==> !(AllRowsFit(aggs, rows, KeyExps(order), hashing)
                            && ResultsFit(aggs, rows, KeyExps(order), hashing))
    ensures !overflow ==> complete && SummarisesAll(aggs, rows, KeyExps(order), hashing, hashes, out)
  {
    hide GroupBy.Valid, AllRowsFit, ResultsFit, AllDivide, OutputsAll, SummarisesAll, IsGrouping, Readable;
    var operator := new GroupBy(aggs, order, hashing);
    AllKeysAreReadable(aggs, order, rows);
    for i := 0 to |rows|
      invariant operator.Valid() && operator.consumed == rows[..i] && fresh(operator.owned)
    {
      operator.Consume(rows[i]);
    }
    assert rows[..|rows|] == rows;
    out, complete, hashes := operator.Produce();
    overflow := operator.overflow;
  }

  lemma AllKeysAreReadable(aggs: seq<Aggregator>, order: seq<IU>, rows: seq<Row>)
    requires AllUsable(aggs, rows) && IsKeyOrder(aggs, order)
    ensures forall k | 0 <= k < |rows| :: Readable(KeyExps(order), rows[k])
  {
    forall k | 0 <= k < |rows| ensures Readable(KeyExps(order), rows[k]) {
      KeptAreThere(aggs, rows[k]);
      assert forall j | 0 <= j < |order| :: order[j] in order;
    }
  }

  lemma {:induction false} KeptAreThere(aggs: seq<Aggregator>, row: Row)
    requires Usable(aggs, row)
    ensures KeptColumns(aggs) <= row.Keys
  {
    if aggs != [] {
      KeptAreThere(aggs[..|aggs| - 1], row);
    }
  }
}
