/** Typed fixed-point arithmetic: type inference, implicit casts, stack translation and evaluation. */
module FixedPoint {
  import opened Wrappers
  import opened ScaledIntegers

  /** A numeric has `precision` digits after the point. Other types only matter by not being numbers. */
  datatype SqlType = IntegerTy | NumericTy(length: nat, precision: nat) | OtherTy

  const MAX_DIGITS := 18

  function Min(a: nat, b: nat): nat
  {
    if a < b then a else b
  }

  /** The low 8 bits: lengths and precisions are bytes. */
  function U8(x: int): nat
  {
    if 0 <= x < 256 then x else x % 256
  }

  function GetNumericTy(length: nat, precision: nat): SqlType
  {
    var len := Min(U8(length), MAX_DIGITS);
    NumericTy(len, Min(U8(precision), len))
  }

  predicate ValidTy(ty: SqlType)
  {
    ty.NumericTy? ==> ty.precision <= ty.length <= MAX_DIGITS
  }

  function Precision(ty: SqlType): nat
  {
    if ty.NumericTy? then ty.precision else 0
  }

  predicate SameTypeID(a: SqlType, b: SqlType)
  {
    a.IntegerTy? == b.IntegerTy? && a.NumericTy? == b.NumericTy?
  }

  function InferAddTy(lhs: SqlType, rhs: SqlType): Option<SqlType>
  {
    if lhs.IntegerTy? && rhs.IntegerTy? then Some(lhs)
    else if lhs.IntegerTy? && rhs.NumericTy? then Some(rhs)
    else if lhs.NumericTy? && rhs.IntegerTy? then Some(lhs)
    else if lhs.NumericTy? && rhs.NumericTy? then Some(if lhs.precision > rhs.precision then lhs else rhs)
    else None
  }

  function InferMulTy(lhs: SqlType, rhs: SqlType): Option<SqlType>
  {
    if lhs.IntegerTy? && rhs.IntegerTy? then Some(lhs)
    else if lhs.IntegerTy? && rhs.NumericTy? then Some(rhs)
    else if lhs.NumericTy? && rhs.IntegerTy? then Some(lhs)
    else if lhs.NumericTy? && rhs.NumericTy? then
      var precision := U8(lhs.precision + rhs.precision);
      var length :=
        if lhs.length > rhs.length then U8(lhs.length + (precision - lhs.precision))
        else if lhs.length < rhs.length then U8(rhs.length + (precision - rhs.precision))
        else U8(lhs.length + rhs.length);
      Some(GetNumericTy(length, precision))
    else None
  }

  datatype Op = Add | Sub | Mul

  function InferTy(op: Op, lhs: SqlType, rhs: SqlType): Option<SqlType>
  {
    if op == Mul then InferMulTy(lhs, rhs) else InferAddTy(lhs, rhs)
  }

  // ----- trees

  type IU = nat

  datatype Value = Value(raw: int, ty: SqlType)

  /** What a query writes. */
  datatype Source =
    | Column(iu: IU, ty: SqlType)
    | Literal(value: Value)
    | Apply(op: Op, left: Source, right: Source)

  datatype Logical =
    | Identifier(iu: IU, ty: SqlType)
    | Constant(value: Value)
    | Cast(child: Logical, destTy: SqlType)
    | Binary(op: Op, ty: SqlType, left: Logical, right: Logical)

  datatype Physical =
    | PIdentifier(iu: IU)
    | PConstant(value: Value)
    | PCast(child: Physical, destTy: SqlType)
    | PBinary(op: Op, ty: SqlType, left: Physical, right: Physical)

  function TypeOf(e: Logical): SqlType
  {
    match e
    case Identifier(_, ty) => ty
    case Constant(value) => value.ty
    case Cast(_, destTy) => destTy
    case Binary(_, ty, _, _) => ty
  }

  /** The constructors of addition, subtraction and multiplication: one operand may get a cast to
      the type of the other, and the type is inferred again. Without a type they throw. */
  function MakeBinary(op: Op, left: Logical, right: Logical): Option<Logical>
  {
    var ty := InferTy(op, TypeOf(left), TypeOf(right));
    if ty.None? then None
    else if !SameTypeID(ty.value, TypeOf(left)) then
      Inferred(op, Cast(left, TypeOf(right)), right)
    else if !SameTypeID(ty.value, TypeOf(right)) then
      Inferred(op, left, Cast(right, TypeOf(left)))
    else Some(Binary(op, ty.value, left, right))
  }

  function Inferred(op: Op, left: Logical, right: Logical): Option<Logical>
  {
    var ty := InferTy(op, TypeOf(left), TypeOf(right));
    if ty.None? then None else Some(Binary(op, ty.value, left, right))
  }

  function Build(source: Source): Option<Logical>
  {
    match source
    case Column(iu, ty) => Some(Identifier(iu, ty))
    case Literal(value) => Some(Constant(value))
    case Apply(op, left, right) =>
      var l, r := Build(left), Build(right);
      if l.None? || r.None? then None else MakeBinary(op, l.value, r.value)
  }

  // ----- translation with an explicit stack

  function Translate(e: Logical): Physical
  {
    match e
    case Identifier(iu, _) => PIdentifier(iu)
    case Constant(value) => PConstant(value)
    case Cast(child, destTy) => PCast(Translate(child), destTy)
    case Binary(op, ty, left, right) => PBinary(op, ty, Translate(left), Translate(right))
  }

  class ExpressionTranslator {
    var translated: seq<Physical>

    constructor (root: Logical)
      ensures translated == [Translate(root)]
    {
      translated := [];
      new;
      Visit(root);
    }

    /** Visits in post order; the translation of the tree ends up on top of the stack. */
    method Visit(e: Logical)
      modifies this
      ensures translated == old(translated) + [Translate(e)]
      decreases e
    {
      match e
      case Identifier(iu, _) =>
        translated := translated + [PIdentifier(iu)];
      case Constant(value) =>
        translated := translated + [PConstant(value)];
      case Cast(child, destTy) =>
        Visit(child);
        var top := translated[|translated| - 1];
        translated := translated[..|translated| - 1];
        translated := translated + [PCast(top, destTy)];
      case Binary(op, ty, left, right) =>
        Visit(left);
        Visit(right);
        var rightChild := translated[|translated| - 1];
        translated := translated[..|translated| - 1];
        var leftChild := translated[|translated| - 1];
        translated := translated[..|translated| - 1];
        translated := translated + [PBinary(op, ty, leftChild, rightChild)];
    }

    method GetResult() returns (e: Physical)
      requires |translated| == 1
      ensures e == translated[0]
    {
      e := translated[0];
    }
  }

  // ----- evaluation

  /** A value; or the overflow handler was called; or the operand types do not fit. */
  datatype Outcome = Ok(value: Value) | Overflow | Incompatible

  type TypedRow = map<IU, Value>

  function Exactly(op: Op, a: int, b: int): int
  {
    match op
    case Add => a + b
    case Sub => a - b
    case Mul => a * b
  }

  function IntegerOp(op: Op, a: int, b: int): Outcome
  {
    var raw := Exactly(op, a, b);
    if Int32(raw) then Ok(Value(raw, IntegerTy)) else Overflow
  }

  /** The operand with fewer digits after the point is shifted to the other's, with an overflow check. */
  function Rescaled(raw: int, from: nat, to: nat): int
  {
    if from < to then raw * Pow10(to - from) else raw
  }

  function NumericOp(op: Op, a: Value, b: Value, ty: SqlType): Outcome
  {
    var aRaw := if op == Mul then a.raw else Rescaled(a.raw, Precision(a.ty), Precision(b.ty));
    var bRaw := if op == Mul then b.raw else Rescaled(b.raw, Precision(b.ty), Precision(a.ty));
    var raw := Exactly(op, aRaw, bRaw);
    if Int64(aRaw) && Int64(bRaw) && Int64(raw) then Ok(Value(raw, ty)) else Overflow
  }

  function SqlOp(op: Op, a: Value, b: Value): Outcome
  {
    var ty := InferTy(op, a.ty, b.ty);
    if ty.None? then Incompatible
    else if a.ty.IntegerTy? && b.ty.IntegerTy? then IntegerOp(op, a.raw, b.raw)
    else if a.ty.NumericTy? && b.ty.NumericTy? then NumericOp(op, a, b, ty.value)
    else Incompatible
  }

  /** Casting an integer to a numeric multiplies without an overflow check. */
  function SqlCast(v: Value, ty: SqlType): Outcome
  {
    if v.ty.IntegerTy? && ty.IntegerTy? then Ok(v)
    else if v.ty.IntegerTy? && ty.NumericTy? then Ok(Value(I64(v.raw * Pow10(ty.precision)), ty))
    else Incompatible
  }

  function Evaluate(e: Physical, row: TypedRow): Outcome
  {
    match e
    case PIdentifier(iu) => if iu in row then Ok(row[iu]) else Incompatible
    case PConstant(value) => Ok(value)
    case PCast(child, destTy) =>
      var v := Evaluate(child, row);
      if v.Ok? then SqlCast(v.value, destTy) else v
    case PBinary(op, _, left, right) =>
      var l, r := Evaluate(left, row), Evaluate(right, row);
      if !l.Ok? then l else if !r.Ok? then r else SqlOp(op, l.value, r.value)
  }

  // ----- exact rational values

  function RealOp(op: Op, x: real, y: real): real
  {
    match op
    case Add => x + y
    case Sub => x - y
    case Mul => x * y
  }

  function Scale(ty: SqlType): real
  {
    Pow10(Precision(ty)) as real
  }

  /** The raw value is the exact value times ten to the precision of the type. */
  predicate Represents(v: Value, x: real)
  {
    v.raw as real == x * Scale(v.ty)
  }

  predicate NumberTy(ty: SqlType)
  {
    !ty.OtherTy? && ValidTy(ty)
  }

  predicate Stored(v: Value)
  {
    NumberTy(v.ty) && if v.ty.IntegerTy? then Int32(v.raw) else Int64(v.raw)
  }

  /** Whether an exact value, written with the digits of the type, is outside the machine type. */
  predicate OutOfRange(ty: SqlType, x: real)
  {
    if ty.IntegerTy? then !(-0x8000_0000 as real <= x * Scale(ty) <= 0x7FFF_FFFF as real)
    else !(INT64_MIN as real <= x * Scale(ty) <= INT64_MAX as real)
  }

  /** Whether an operation on exact operands cannot be carried out in the machine type. */
  predicate TooLargeFor(op: Op, ty: SqlType, x: real, y: real)
  {
    || OutOfRange(ty, RealOp(op, x, y))
    || (ty.NumericTy? && op != Mul && (OutOfRange(ty, x) || OutOfRange(ty, y)))
  }

  lemma ScaledSum(x: real, y: real, p: real)
    ensures (x + y) * p == x * p + y * p && (x - y) * p == x * p - y * p
  {
  }

  lemma ScaledProduct(x: real, p: real, y: real, q: real)
    ensures (x * p) * (y * q) == (x * y) * (p * q) && (x * p) * q == x * (p * q)
  {
  }

  lemma IntegerProduct(a: int, b: int)
    ensures (a * b) as real == (a as real) * (b as real)
  {
  }

  lemma RescaledIsExact(v: Value, x: real, to: nat)
    requires Represents(v, x) && Precision(v.ty) <= to
    ensures Rescaled(v.raw, Precision(v.ty), to) as real == x * (Pow10(to) as real)
  {
    hide Pow10;
    var from := Precision(v.ty);
    Pow10Grows(from, to);
    IntegerProduct(v.raw, Pow10(to - from));
    IntegerProduct(Pow10(from), Pow10(to - from));
    ScaledProduct(x, Pow10(from) as real, 1.0, Pow10(to - from) as real);
  }

  lemma SumIsExact(op: Op, a: Value, b: Value, x: real, y: real, ty: SqlType)
    requires op != Mul && a.ty.NumericTy? && b.ty.NumericTy? && Stored(a) && Stored(b)
    requires Represents(a, x) && Represents(b, y) && InferAddTy(a.ty, b.ty) == Some(ty)
    ensures var o := NumericOp(op, a, b, ty);
            if TooLargeFor(op, ty, x, y) then o == Overflow
            else o.Ok? && o.value.ty == ty && Stored(o.value) && Represents(o.value, RealOp(op, x, y))
  {
    hide Pow10, Rescaled, Represents;
    var p, q, digits := Precision(a.ty), Precision(b.ty), Precision(ty);
    RescaledIsExact(a, x, digits);
    RescaledIsExact(b, y, digits);
    assert Rescaled(a.raw, p, q) == Rescaled(a.raw, p, digits) by { NotRescaled(a.raw, p, q, digits); }
    assert Rescaled(b.raw, q, p) == Rescaled(b.raw, q, digits) by { NotRescaled(b.raw, q, p, digits); }
    ScaledSumIsExact(op, Rescaled(a.raw, p, digits), Rescaled(b.raw, q, digits), x, y, ty);
  }

  lemma NotRescaled(raw: int, from: nat, other: nat, digits: nat)
    requires digits == if from > other then from else other
    ensures Rescaled(raw, from, other) == Rescaled(raw, from, digits)
  {
  }

  lemma ScaledSumIsExact(op: Op, aRaw: int, bRaw: int, x: real, y: real, ty: SqlType)
    requires op != Mul && ty.NumericTy? && aRaw as real == x * Scale(ty) && bRaw as real == y * Scale(ty)
    ensures Represents(Value(Exactly(op, aRaw, bRaw), ty), RealOp(op, x, y))
    ensures Int64(aRaw) == !OutOfRange(ty, x) && Int64(bRaw) == !OutOfRange(ty, y)
    ensures Int64(Exactly(op, aRaw, bRaw)) == !OutOfRange(ty, RealOp(op, x, y))
  {
    hide Pow10;
    ScaledSum(x, y, Scale(ty));
  }

  lemma RawProduct(a: Value, b: Value, x: real, y: real)
    requires Represents(a, x) && Represents(b, y)
    ensures (a.raw * b.raw) as real == (x * y) * Pow10(Precision(a.ty) + Precision(b.ty)) as real
  {
    hide Pow10;
    var p, q := Precision(a.ty), Precision(b.ty);
    IntegerProduct(a.raw, b.raw);
    IntegerProduct(Pow10(p), Pow10(q));
    Pow10Grows(p, p + q);
    ScaledProduct(x, Pow10(p) as real, y, Pow10(q) as real);
  }

  lemma ProductPrecision(a: SqlType, b: SqlType)
    requires a.NumericTy? && b.NumericTy? && ValidTy(a) && ValidTy(b)
    ensures var ty := InferMulTy(a, b);
            && ty.Some? && ty.value.NumericTy? && ValidTy(ty.value)
            && ty.value.precision == Min(a.precision + b.precision, MAX_DIGITS)
  {
  }

  lemma ProductIsExact(a: Value, b: Value, x: real, y: real, ty: SqlType)
    requires a.ty.NumericTy? && b.ty.NumericTy? && Stored(a) && Stored(b)
    requires a.ty.precision + b.ty.precision <= MAX_DIGITS
    requires Represents(a, x) && Represents(b, y) && InferMulTy(a.ty, b.ty) == Some(ty)
    ensures var o := NumericOp(Mul, a, b, ty);
            if TooLargeFor(Mul, ty, x, y) then o == Overflow
            else o.Ok? && o.value.ty == ty && Stored(o.value) && Represents(o.value, x * y)
  {
    hide Pow10, InferMulTy;
    ProductPrecision(a.ty, b.ty);
    RawProduct(a, b, x, y);
  }

  lemma IntegerOpIsExact(op: Op, a: Value, b: Value, x: real, y: real)
    requires a.ty.IntegerTy? && b.ty.IntegerTy? && Represents(a, x) && Represents(b, y)
    ensures var o := IntegerOp(op, a.raw, b.raw);
            if TooLargeFor(op, IntegerTy, x, y) then o == Overflow
            else o.Ok? && o.value.ty == IntegerTy && Stored(o.value) && Represents(o.value, RealOp(op, x, y))
  {
    assert Scale(IntegerTy) == 1.0;
    IntegerProduct(a.raw, b.raw);
  }

  /** An operation on two values of the same kind of type. */
  lemma SqlOpIsExact(op: Op, a: Value, b: Value, x: real, y: real)
    requires Stored(a) && Stored(b) && SameTypeID(a.ty, b.ty) && Represents(a, x) && Represents(b, y)
    requires op == Mul && a.ty.NumericTy? ==> a.ty.precision + b.ty.precision <= MAX_DIGITS
    ensures InferTy(op, a.ty, b.ty).Some?
    ensures var o, ty := SqlOp(op, a, b), InferTy(op, a.ty, b.ty).value;
            if TooLargeFor(op, ty, x, y) then o == Overflow
            else o.Ok? && o.value.ty == ty && Stored(o.value) && Represents(o.value, RealOp(op, x, y))
  {
    hide NumericOp, IntegerOp, Represents, TooLargeFor, InferMulTy;
    if a.ty.IntegerTy? {
      IntegerTypes(op);
      IntegerOpIsExact(op, a, b, x, y);
    } else if op == Mul {
      ProductPrecision(a.ty, b.ty);
      ProductIsExact(a, b, x, y, InferMulTy(a.ty, b.ty).value);
    } else {
      SumIsExact(op, a, b, x, y, InferAddTy(a.ty, b.ty).value);
    }
  }

  /** When an operation is flagged: exactly when an operand, shifted to the digits of the other, or the
      result does not fit into 64 bits; for integers, when the result does not fit into 32. */
  lemma FlaggedIff(op: Op, a: Value, b: Value)
    requires Stored(a) && Stored(b) && SameTypeID(a.ty, b.ty)
    ensures a.ty.IntegerTy? ==>
              (SqlOp(op, a, b) == Overflow
               <==> !Int32(if op == Add then a.raw + b.raw else if op == Sub then a.raw - b.raw else a.raw * b.raw))
    ensures a.ty.NumericTy? && op == Mul ==> (SqlOp(op, a, b) == Overflow <==> !Int64(a.raw * b.raw))
    ensures a.ty.NumericTy? && op != Mul ==>
              var p, q := a.ty.precision, b.ty.precision;
              var x := a.raw * if p < q then Pow10(q - p) else 1;
              var y := b.raw * if q < p then Pow10(p - q) else 1;
              SqlOp(op, a, b) == Overflow
              <==> !(Int64(x) && Int64(y) && Int64(if op == Add then x + y else x - y))
  {
    hide Pow10, InferMulTy;
    if a.ty.IntegerTy? {
      IntegerTypes(op);
    } else {
      ProductPrecision(a.ty, b.ty);
    }
  }

  lemma IntegerTypes(op: Op)
    ensures InferTy(op, IntegerTy, IntegerTy) == Some(IntegerTy)
  {
  }

  // ----- casts

  predicate CastFits(raw: int, precision: nat)
  {
    Int64(raw * Pow10(precision))
  }

  /** The cast is exact if and only if the shifted integer fits; nothing is flagged otherwise. */
  lemma CastIsExactIff(v: Value, ty: SqlType, x: real)
    requires v.ty.IntegerTy? && ty.NumericTy? && Represents(v, x)
    ensures var o := SqlCast(v, ty);
            && o.Ok? && o.value.ty == ty
            && (Represents(o.value, x) <==> CastFits(v.raw, ty.precision))
  {
    hide Pow10;
    assert Scale(IntegerTy) == 1.0 by { Pow10OfZero(); }
    IntegerProduct(v.raw, Pow10(ty.precision));
  }

  lemma Pow10OfZero()
    ensures Pow10(0) == 1
  {
  }

  /** Every 32-bit integer can be cast exactly if and only if the precision is at most 9. */
  lemma EveryIntegerCastsIff(precision: nat)
    requires precision <= MAX_DIGITS
    ensures (forall raw | Int32(raw) :: CastFits(raw, precision)) <==> precision <= 9
  {
    hide Pow10;
    Pow10Of9();
    if precision <= 9 {
      Pow10Grows(precision, 9);
      forall raw | Int32(raw) ensures CastFits(raw, precision) {
        ProductBetween(raw, Pow10(precision));
      }
    } else {
      Pow10Grows(10, precision);
      ProductBetween(0x7FFF_FFFF, Pow10(precision));
      assert Int32(0x7FFF_FFFF) && !CastFits(0x7FFF_FFFF, precision);
    }
  }

  lemma ProductBetween(raw: int, shift: nat)
    requires Int32(raw)
    ensures -0x8000_0000 * shift <= raw * shift <= 0x7FFF_FFFF * shift
  {
  }

  lemma Pow10Of9()
    ensures Pow10(9) == 1_000_000_000 && Pow10(10) == 10_000_000_000
  {
    assert Pow10(5) == 100_000;
    Pow10Grows(4, 9);
    Pow10Grows(5, 10);
  }

  // ----- whole trees

  ghost function Exact(source: Source, row: TypedRow): real
  {
    match source
    case Column(iu, ty) => if iu in row then Unscaled(row[iu]) else 0.0
    case Literal(value) => Unscaled(value)
    case Apply(op, left, right) => RealOp(op, Exact(left, row), Exact(right, row))
  }

  ghost function Unscaled(v: Value): real
  {
    v.raw as real / Scale(v.ty)
  }

  /** What a query expression stands for: raw values are scaled by the digits of their type, and the
      operators are those of exact arithmetic. */
  lemma ExactMeaning(source: Source, row: TypedRow)
    requires Supplies(row, source)
    ensures source.Column? ==> Represents(row[source.iu], Exact(source, row))
    ensures source.Literal? ==> Represents(source.value, Exact(source, row))
    ensures source.Apply? ==>
              var x, y := Exact(source.left, row), Exact(source.right, row);
              && (source.op == Add ==> Exact(source, row) == x + y)
              && (source.op == Sub ==> Exact(source, row) == x - y)
              && (source.op == Mul ==> Exact(source, row) == x * y)
  {
    hide Represents, Unscaled;
    match source
    case Column(iu, _) => UnscaledRepresents(row[iu]);
    case Literal(value) => UnscaledRepresents(value);
    case Apply(_, _, _) =>
  }

  /** Digits behind the point: integers have none. */
  lemma RepresentsIs(v: Value, x: real)
    ensures v.ty.IntegerTy? ==> (Represents(v, x) <==> v.raw as real == x)
    ensures v.ty.NumericTy? ==> (Represents(v, x) <==> v.raw as real == x * Pow10(v.ty.precision) as real)
  {
  }

  /** A sum keeps the digits of both operands. */
  lemma SumPrecision(l: SqlType, r: SqlType)
    requires NumberTy(l) && NumberTy(r)
    ensures var ty := InferAddTy(l, r);
            ty.Some? && Precision(ty.value) == if Precision(l) > Precision(r) then Precision(l) else Precision(r)
  {
  }

  /** Casts do not change what a tree means. */
  ghost function Meaning(e: Logical, row: TypedRow): real
  {
    match e
    case Identifier(iu, _) => if iu in row then Unscaled(row[iu]) else 0.0
    case Constant(value) => Unscaled(value)
    case Cast(child, _) => Meaning(child, row)
    case Binary(op, _, left, right) => RealOp(op, Meaning(left, row), Meaning(right, row))
  }

  /** The row has the columns of the tree, with their types. */
  predicate Supplies(row: TypedRow, source: Source)
  {
    match source
    case Column(iu, ty) => iu in row && row[iu].ty == ty && Stored(row[iu])
    case Literal(value) => Stored(value)
    case Apply(_, left, right) => Supplies(row, left) && Supplies(row, right)
  }

  predicate SuppliesLogical(row: TypedRow, e: Logical)
  {
    match e
    case Identifier(iu, ty) => iu in row && row[iu].ty == ty && Stored(row[iu])
    case Constant(value) => Stored(value)
    case Cast(child, _) => SuppliesLogical(row, child)
    case Binary(_, _, left, right) => SuppliesLogical(row, left) && SuppliesLogical(row, right)
  }

  /** What the constructors establish. */
  predicate WellTyped(e: Logical)
  {
    && NumberTy(TypeOf(e))
    && match e
       case Identifier(_, _) => true
       case Constant(_) => true
       case Cast(child, destTy) => WellTyped(child) && TypeOf(child).IntegerTy? && destTy.NumericTy?
       case Binary(op, ty, left, right) =>
         && WellTyped(left) && WellTyped(right) && SameTypeID(TypeOf(left), TypeOf(right))
         && InferTy(op, TypeOf(left), TypeOf(right)) == Some(ty)
  }

  /** Some operation of the tree does not fit its machine type, when computed exactly. */
  ghost predicate TooLarge(e: Logical, row: TypedRow)
  {
    match e
    case Identifier(_, _) => false
    case Constant(_) => false
    case Cast(child, _) => TooLarge(child, row)
    case Binary(op, ty, left, right) =>
      TooLarge(left, row) || TooLarge(right, row) || TooLargeFor(op, ty, Meaning(left, row), Meaning(right, row))
  }

  lemma InferredTypes(op: Op, l: SqlType, r: SqlType)
    requires NumberTy(l) && NumberTy(r)
    ensures var ty := InferTy(op, l, r);
            && ty.Some? && NumberTy(ty.value)
            && (ty.value.IntegerTy? <==> l.IntegerTy? && r.IntegerTy?)
  {
    hide InferMulTy;
    if op == Mul {
      if l.NumericTy? && r.NumericTy? { ProductPrecision(l, r); } else { MixedProduct(l, r); }
    }
  }

  lemma MixedProduct(l: SqlType, r: SqlType)
    requires NumberTy(l) && NumberTy(r) && (l.IntegerTy? || r.IntegerTy?)
    ensures InferMulTy(l, r) == Some(if l.IntegerTy? then r else l)
  {
  }

  /** The constructors never throw on numbers, and the casts they insert keep the meaning. */
  lemma {:induction false} BuildKeepsMeaning(source: Source, row: TypedRow)
    requires Supplies(row, source)
    ensures var e := Build(source);
            && e.Some? && WellTyped(e.value) && SuppliesLogical(row, e.value)
            && Meaning(e.value, row) == Exact(source, row)
  {
    match source
    case Column(_, _) =>
    case Literal(_) =>
    case Apply(op, left, right) =>
      BuildKeepsMeaning(left, row);
      BuildKeepsMeaning(right, row);
      MakeBinaryKeepsMeaning(op, Build(left).value, Build(right).value, row);
  }

  predicate IsInteger(source: Source)
  {
    match source
    case Column(_, ty) => ty.IntegerTy?
    case Literal(value) => value.ty.IntegerTy?
    case Apply(_, left, right) => IsInteger(left) && IsInteger(right)
  }

  /** The digits behind the point of a query expression.  In a product an integer counts like the numeric
      that it is multiplied with, so that its digits are counted twice. */
  function Digits(source: Source): nat
  {
    match source
    case Column(_, ty) => Precision(ty)
    case Literal(value) => Precision(value.ty)
    case Apply(op, left, right) =>
      var l := if IsInteger(left) then Digits(right) else Digits(left);
      var r := if IsInteger(right) then Digits(left) else Digits(right);
      if op == Mul then Min(l + r, MAX_DIGITS) else if l > r then l else r
  }

  lemma IntegersHaveNone(source: Source)
    ensures IsInteger(source) ==> Digits(source) == 0
  {
  }

  /** The inferred type of a whole expression. */
  lemma {:induction false} BuiltType(source: Source, row: TypedRow)
    requires Supplies(row, source)
    ensures Build(source).Some? && NumberTy(TypeOf(Build(source).value))
    ensures TypeOf(Build(source).value).IntegerTy? <==> IsInteger(source)
    ensures Precision(TypeOf(Build(source).value)) == Digits(source)
  {
    hide InferMulTy;
    match source
    case Column(_, _) =>
    case Literal(_) =>
    case Apply(op, left, right) =>
      BuiltType(left, row);
      BuiltType(right, row);
      BinaryType(op, Build(left).value, Build(right).value);
      IntegersHaveNone(left);
      IntegersHaveNone(right);
  }

  lemma BinaryType(op: Op, left: Logical, right: Logical)
    requires NumberTy(TypeOf(left)) && NumberTy(TypeOf(right))
    ensures var l, r := TypeOf(left), TypeOf(right);
            var e := MakeBinary(op, left, right);
            var p := if l.IntegerTy? then Precision(r) else Precision(l);
            var q := if r.IntegerTy? then Precision(l) else Precision(r);
            && e.Some? && NumberTy(TypeOf(e.value)) && (TypeOf(e.value).IntegerTy? <==> l.IntegerTy? && r.IntegerTy?)
            && Precision(TypeOf(e.value)) == if op == Mul then Min(p + q, MAX_DIGITS) else if p > q then p else q
  {
    hide InferMulTy;
    var l, r := TypeOf(left), TypeOf(right);
    InferredTypes(op, l, r);
    InferredTypes(op, if l.IntegerTy? then r else l, if r.IntegerTy? then l else r);
    IntegerTypes(op);
    if !l.IntegerTy? || !r.IntegerTy? {
      ProductPrecision(if l.IntegerTy? then r else l, if r.IntegerTy? then l else r);
    }
  }

  predicate Built(e: Logical, row: TypedRow)
  {
    WellTyped(e) && SuppliesLogical(row, e)
  }

  lemma MakeBinaryKeepsMeaning(op: Op, left: Logical, right: Logical, row: TypedRow)
    requires Built(left, row) && Built(right, row)
    ensures var e := MakeBinary(op, left, right);
            && e.Some? && Built(e.value, row)
            && Meaning(e.value, row) == RealOp(op, Meaning(left, row), Meaning(right, row))
  {
    hide InferTy, Inferred, Meaning, RealOp, Built;
    var l, r := TypeOf(left), TypeOf(right);
    OperandTypes(left, right, row);
    InferredTypes(op, l, r);
    if l.IntegerTy? && r.NumericTy? {
      CastIsBuilt(left, r, row);
      InferredKeepsMeaning(op, Cast(left, r), right, row);
    } else if l.NumericTy? && r.IntegerTy? {
      CastIsBuilt(right, l, row);
      InferredKeepsMeaning(op, left, Cast(right, l), row);
    } else {
      InferredKeepsMeaning(op, left, right, row);
      assert MakeBinary(op, left, right) == Inferred(op, left, right) by { NoCast(op, left, right); }
    }
  }

  lemma OperandTypes(left: Logical, right: Logical, row: TypedRow)
    requires Built(left, row) && Built(right, row)
    ensures NumberTy(TypeOf(left)) && NumberTy(TypeOf(right))
  {
  }

  lemma NoCast(op: Op, left: Logical, right: Logical)
    requires NumberTy(TypeOf(left)) && NumberTy(TypeOf(right)) && SameTypeID(TypeOf(left), TypeOf(right))
    ensures MakeBinary(op, left, right) == Inferred(op, left, right)
  {
    hide InferTy;
    InferredTypes(op, TypeOf(left), TypeOf(right));
  }

  lemma CastIsBuilt(e: Logical, ty: SqlType, row: TypedRow)
    requires Built(e, row) && TypeOf(e).IntegerTy? && ty.NumericTy? && NumberTy(ty)
    ensures Built(Cast(e, ty), row) && Meaning(Cast(e, ty), row) == Meaning(e, row)
  {
  }

  lemma InferredKeepsMeaning(op: Op, left: Logical, right: Logical, row: TypedRow)
    requires Built(left, row) && Built(right, row) && SameTypeID(TypeOf(left), TypeOf(right))
    ensures var e := Inferred(op, left, right);
            && e.Some? && Built(e.value, row)
            && Meaning(e.value, row) == RealOp(op, Meaning(left, row), Meaning(right, row))
  {
    hide InferTy;
    InferredTypes(op, TypeOf(left), TypeOf(right));
  }

  /** The digits suffice for the values at hand: every integer that is cast fits with the digits of its
      new type, and a product that needs more than 18 digits is zero or too large anyway. */
  ghost predicate DigitsSuffice(e: Logical, row: TypedRow)
  {
    match e
    case Identifier(_, _) => true
    case Constant(_) => true
    case Cast(child, destTy) =>
      DigitsSuffice(child, row) && (TooLarge(child, row) || !OutOfRange(destTy, Meaning(child, row)))
    case Binary(op, ty, left, right) =>
      && DigitsSuffice(left, row) && DigitsSuffice(right, row)
      && (TooLarge(e, row) || op != Mul || Precision(TypeOf(left)) + Precision(TypeOf(right)) <= MAX_DIGITS
          || Meaning(e, row) == 0.0)
  }

  /** The translated tree overflows exactly when the exact computation does not fit, and otherwise
      yields the exact value with as many digits as its type says. */
  ghost predicate IsExact(e: Logical, row: TypedRow)
  {
    var o := Evaluate(Translate(e), row);
    if TooLarge(e, row) then o == Overflow
    else o.Ok? && o.value.ty == TypeOf(e) && Stored(o.value) && Represents(o.value, Meaning(e, row))
  }

  /** And so does every subtree. */
  ghost predicate AllExact(e: Logical, row: TypedRow)
  {
    && IsExact(e, row)
    && match e
       case Identifier(_, _) => true
       case Constant(_) => true
       case Cast(child, _) => AllExact(child, row)
       case Binary(_, _, left, right) => AllExact(left, row) && AllExact(right, row)
  }

  /** Evaluation is exact throughout a tree if and only if the digits suffice. */
  lemma {:induction false} EvaluateIsExact(e: Logical, row: TypedRow)
    requires WellTyped(e) && SuppliesLogical(row, e)
    ensures AllExact(e, row) <==> DigitsSuffice(e, row)
  {
    hide IsExact, TooLarge, OutOfRange, Meaning;
    match e
    case Identifier(_, _) => LeafIsExact(e, row);
    case Constant(_) => LeafIsExact(e, row);
    case Cast(child, _) =>
      EvaluateIsExact(child, row);
      if IsExact(child, row) {
        CastNodeIsExact(e, row);
      }
    case Binary(_, _, left, right) =>
      EvaluateIsExact(left, row);
      EvaluateIsExact(right, row);
      if IsExact(left, row) && IsExact(right, row) {
        BinaryNodeIsExact(e, row);
      }
  }

  lemma LeafIsExact(e: Logical, row: TypedRow)
    requires (e.Identifier? || e.Constant?) && SuppliesLogical(row, e)
    ensures IsExact(e, row)
  {
    hide Represents, Unscaled;
    UnscaledRepresents(if e.Constant? then e.value else row[e.iu]);
  }

  lemma CastNodeIsExact(e: Logical, row: TypedRow)
    requires e.Cast? && WellTyped(e) && IsExact(e.child, row)
    ensures IsExact(e, row) <==> TooLarge(e.child, row) || !OutOfRange(e.destTy, Meaning(e.child, row))
  {
    hide Represents, Pow10, I64, OutOfRange;
    if !TooLarge(e.child, row) {
      var v, x := Evaluate(Translate(e.child), row).value, Meaning(e.child, row);
      CastIsExactIff(v, e.destTy, x);
      CastFitsIff(v, e.destTy, x);
    }
  }

  lemma CastFitsIff(v: Value, ty: SqlType, x: real)
    requires v.ty.IntegerTy? && ty.NumericTy? && Represents(v, x)
    ensures CastFits(v.raw, ty.precision) <==> !OutOfRange(ty, x)
  {
    hide Pow10;
    assert Scale(IntegerTy) == 1.0 by { Pow10OfZero(); }
    IntegerProduct(v.raw, Pow10(ty.precision));
  }

  lemma BinaryNodeIsExact(e: Logical, row: TypedRow)
    requires e.Binary? && WellTyped(e) && IsExact(e.left, row) && IsExact(e.right, row)
    ensures IsExact(e, row)
       <==> TooLarge(e, row) || e.op != Mul || Precision(TypeOf(e.left)) + Precision(TypeOf(e.right)) <= MAX_DIGITS
            || Meaning(e, row) == 0.0
  {
    hide Represents, Stored, SqlOp, TooLargeFor, InferTy, Pow10;
    if !TooLarge(e.left, row) && !TooLarge(e.right, row) {
      var a, b := Evaluate(Translate(e.left), row).value, Evaluate(Translate(e.right), row).value;
      var x, y := Meaning(e.left, row), Meaning(e.right, row);
      if e.op == Mul && Precision(a.ty) + Precision(b.ty) > MAX_DIGITS {
        LongProductIsExact(a, b, x, y);
      } else {
        SqlOpIsExact(e.op, a, b, x, y);
      }
    }
  }

  /** A product that needs more than 18 digits. */
  lemma LongProductIsExact(a: Value, b: Value, x: real, y: real)
    requires Stored(a) && Stored(b) && SameTypeID(a.ty, b.ty) && Represents(a, x) && Represents(b, y)
    requires Precision(a.ty) + Precision(b.ty) > MAX_DIGITS
    ensures InferTy(Mul, a.ty, b.ty).Some?
    ensures var o, ty := SqlOp(Mul, a, b), InferTy(Mul, a.ty, b.ty).value;
            if TooLargeFor(Mul, ty, x, y) then o == Overflow
            else (o.Ok? && o.value.ty == ty && Stored(o.value) && Represents(o.value, RealOp(Mul, x, y)))
                 <==> RealOp(Mul, x, y) == 0.0
  {
    hide Pow10, InferMulTy;
    ProductPrecision(a.ty, b.ty);
    RawProduct(a, b, x, y);
    var digits := a.ty.precision + b.ty.precision;
    MoreDigits(x * y, digits);
    CutOff(x * y, digits);
  }

  /** More digits make a number larger. */
  lemma MoreDigits(z: real, digits: nat)
    requires digits > MAX_DIGITS
    ensures z >= 0.0 ==> z * Pow10(digits) as real >= z * Pow10(MAX_DIGITS) as real
    ensures z <= 0.0 ==> z * Pow10(digits) as real <= z * Pow10(MAX_DIGITS) as real
    ensures z * Pow10(digits) as real == 0.0 <==> z == 0.0
  {
    hide Pow10;
    Pow10Grows(MAX_DIGITS, digits);
  }

  /** Types alone suffice where integers are cast to at most 9 digits, and no product needs more than 18. */
  predicate EnoughDigits(e: Logical)
  {
    match e
    case Identifier(_, _) => true
    case Constant(_) => true
    case Cast(child, destTy) => EnoughDigits(child) && Precision(destTy) <= 9
    case Binary(op, _, left, right) =>
      && EnoughDigits(left) && EnoughDigits(right)
      && (op == Mul ==> Precision(TypeOf(left)) + Precision(TypeOf(right)) <= MAX_DIGITS)
  }

  lemma {:induction false} EnoughDigitsSuffice(e: Logical, row: TypedRow)
    requires WellTyped(e) && EnoughDigits(e) && SuppliesLogical(row, e)
    ensures DigitsSuffice(e, row)
  {
    hide Stored, Represents, OutOfRange, Meaning;
    match e
    case Identifier(_, _) =>
    case Constant(_) =>
    case Cast(child, destTy) =>
      EnoughDigitsSuffice(child, row);
      EvaluateIsExact(child, row);
      if !TooLarge(child, row) {
        var v := Evaluate(Translate(child), row).value;
        SmallCastFits(v, destTy);
        CastFitsIff(v, destTy, Meaning(child, row));
      }
    case Binary(_, _, left, right) =>
      EnoughDigitsSuffice(left, row);
      EnoughDigitsSuffice(right, row);
  }

  lemma SmallCastFits(v: Value, ty: SqlType)
    requires v.ty.IntegerTy? && Stored(v) && ty.NumericTy? && ty.precision <= 9
    ensures CastFits(v.raw, ty.precision)
  {
    hide CastFits;
    EveryIntegerCastsIff(ty.precision);
  }

  lemma UnscaledRepresents(v: Value)
    ensures Represents(v, Unscaled(v))
  {
    assert Scale(v.ty) >= 1.0;
  }

  /** From the query to the raw result: constructors, implicit casts, translation and evaluation together. */
  lemma CompilationPreservesMeaning(source: Source, row: TypedRow)
    requires Supplies(row, source) && Build(source).Some? && DigitsSuffice(Build(source).value, row)
    ensures var e := Build(source).value;
            var o := Evaluate(Translate(e), row);
            && (TooLarge(e, row) ==> o == Overflow)
            && (!TooLarge(e, row) ==> o.Ok? && o.value.ty == TypeOf(e))
            && (o.Ok? ==> o.value.raw as real == Exact(source, row) * Pow10(Precision(TypeOf(e))) as real)
  {
    hide Build, Evaluate, Translate, TooLarge, WellTyped, DigitsSuffice, Meaning, Exact, Pow10, SuppliesLogical;
    BuildKeepsMeaning(source, row);
    EvaluateIsExact(Build(source).value, row);
  }

  // ----- where the digits run out

  /** A product that is not flagged means the product if and only if its precision is not cut off. */
  lemma ProductMeansProductIff(a: Value, b: Value, x: real, y: real)
    requires Stored(a) && Stored(b) && a.ty.NumericTy? && b.ty.NumericTy?
    requires Represents(a, x) && Represents(b, y) && SqlOp(Mul, a, b).Ok?
    ensures Represents(SqlOp(Mul, a, b).value, x * y)
       <==> a.ty.precision + b.ty.precision <= MAX_DIGITS || a.raw * b.raw == 0
  {
    hide Pow10, InferMulTy, Represents;
    var digits := a.ty.precision + b.ty.precision;
    ProductPrecision(a.ty, b.ty);
    RawProduct(a, b, x, y);
    MeansDigits(a.raw * b.raw, x * y, digits, InferMulTy(a.ty, b.ty).value);
  }

  lemma MeansDigits(raw: int, z: real, digits: nat, ty: SqlType)
    requires raw as real == z * Pow10(digits) as real && ty.NumericTy? && ty.precision == Min(digits, MAX_DIGITS)
    ensures Represents(Value(raw, ty), z) <==> digits <= MAX_DIGITS || raw == 0
  {
    hide Pow10;
    if digits > MAX_DIGITS {
      CutOff(z, digits);
    }
  }

  lemma CutOff(z: real, digits: nat)
    requires digits > MAX_DIGITS
    ensures z * Pow10(digits) as real == z * Pow10(MAX_DIGITS) as real <==> z * Pow10(digits) as real == 0.0
  {
    hide Pow10;
    Pow10Grows(MAX_DIGITS + 1, digits);
    assert Pow10(digits) > Pow10(MAX_DIGITS) by { Pow10Larger(); }
  }

  lemma Pow10Larger()
    ensures Pow10(MAX_DIGITS + 1) > Pow10(MAX_DIGITS)
  {
  }

  const TENTH_DIGIT := Value(1, NumericTy(18, 10))

  /** Two values numeric(18,10) of raw 1: the product is labelled with 18 digits, not with 20. */
  lemma MislabelledProduct(x: real)
    requires Represents(TENTH_DIGIT, x)
    ensures SqlOp(Mul, TENTH_DIGIT, TENTH_DIGIT) == Ok(Value(1, NumericTy(18, 18)))
    ensures !Represents(Value(1, NumericTy(18, 18)), x * x)
  {
    hide Pow10, Represents;
    ProductMeansProductIff(TENTH_DIGIT, TENTH_DIGIT, x, x);
  }
}
