/** Typed fixed-point expressions as the expressions of the query pipeline: the rows of the pipeline carry
    raw values, and the types are known before execution. */
module CompiledExpressions {
  import opened ScaledIntegers
  import F = FixedPoint
  import Q = QueryPlan

  /** What an operation leaves in its result, whether or not it flags an overflow. */
  function RawOp(op: F.Op, l: F.SqlType, r: F.SqlType, a: int, b: int): int
  {
    if l.IntegerTy? && r.IntegerTy? then I32(F.Exactly(op, a, b))
    else if op == F.Mul then I64(a * b)
    else I64(F.Exactly(op, I64(F.Rescaled(a, F.Precision(l), F.Precision(r))),
                           I64(F.Rescaled(b, F.Precision(r), F.Precision(l)))))
  }

  function RawCast(from: F.SqlType, to: F.SqlType, raw: int): int
  {
    if from.IntegerTy? && to.NumericTy? then I64(raw * Pow10(to.precision)) else raw
  }

  function Compiled(e: F.Logical): Q.Exp
  {
    match e
    case Identifier(iu, _) => Q.Identifier(iu)
    case Constant(value) => Q.Constant(value.raw)
    case Cast(child, destTy) => Q.Cast(raw => RawCast(F.TypeOf(child), destTy, raw), Compiled(child))
    case Binary(op, _, left, right) =>
      Q.Binary((a, b) => RawOp(op, F.TypeOf(left), F.TypeOf(right), a, b), Compiled(left), Compiled(right))
  }

  function RawRow(row: F.TypedRow): Q.Row
  {
    map iu | iu in row :: row[iu].raw
  }

  lemma RawSqlOp(op: F.Op, a: F.Value, b: F.Value)
    requires F.SqlOp(op, a, b).Ok?
    ensures F.SqlOp(op, a, b).value.raw == RawOp(op, a.ty, b.ty, a.raw, b.raw)
    ensures F.SqlOp(op, a, b).value.ty == F.InferTy(op, a.ty, b.ty).value
  {
    hide Pow10, F.InferMulTy;
    if a.ty.IntegerTy? {
      F.IntegerTypes(op);
    }
  }

  /** The pipeline expression computes the raw value of the typed expression, unless that overflows. */
  lemma {:induction false} CompiledIsRaw(e: F.Logical, row: F.TypedRow)
    requires F.WellTyped(e) && F.SuppliesLogical(row, e)
    ensures Q.CollectRequired(Compiled(e)) <= RawRow(row).Keys
    ensures var o := F.Evaluate(F.Translate(e), row);
            o.Ok? ==> o.value.ty == F.TypeOf(e) && o.value.raw == Q.Evaluate(Compiled(e), RawRow(row))
  {
    hide F.SqlOp, F.InferTy, RawOp, I64, F.Stored;
    match e
    case Identifier(_, _) =>
    case Constant(_) =>
    case Cast(child, _) => CompiledIsRaw(child, row);
    case Binary(op, _, left, right) =>
      CompiledIsRaw(left, row);
      CompiledIsRaw(right, row);
      var l, r := F.Evaluate(F.Translate(left), row), F.Evaluate(F.Translate(right), row);
      if l.Ok? && r.Ok? && F.SqlOp(op, l.value, r.value).Ok? {
        RawSqlOp(op, l.value, r.value);
      }
  }

  /** From a query's typed expression to the value its pipeline computes: the exact value, scaled, unless an
      operation of the tree does not fit. */
  lemma CompiledIsExact(source: F.Source, row: F.TypedRow)
    requires F.Supplies(row, source) && F.Build(source).Some?
    requires F.DigitsSuffice(F.Build(source).value, row) && !F.TooLarge(F.Build(source).value, row)
    ensures var e := F.Build(source).value;
            && Q.CollectRequired(Compiled(e)) <= RawRow(row).Keys
            && Q.Evaluate(Compiled(e), RawRow(row)) as real
               == F.Exact(source, row) * Pow10(F.Precision(F.TypeOf(e))) as real
  {
    hide F.Build, F.Evaluate, F.Translate, F.TooLarge, F.DigitsSuffice, F.WellTyped, F.SuppliesLogical, F.Exact,
         Pow10, Q.Evaluate, Q.CollectRequired, Compiled;
    F.BuildKeepsMeaning(source, row);
    F.CompilationPreservesMeaning(source, row);
    CompiledIsRaw(F.Build(source).value, row);
  }
}
