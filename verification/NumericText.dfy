/** Fixed-point numerics as text: two printers and a parser over 64-bit integers. */
module NumericText {
  import opened Wrappers
  import opened DecimalText
  import opened ScaledIntegers

  // ----- what is printed

  /** No intermediate result of the printers overflows; always true up to precision 17. */
  predicate Printable(precision: nat, raw: int64)
  {
    && precision <= 18 && raw != INT64_MIN
    && (precision > 0 ==> 10 * (Abs(raw) % Pow10(precision)) <= INT64_MAX)
  }

  lemma PrintableUpTo17(precision: nat, raw: int64)
    requires precision <= 17 && raw != INT64_MIN
    ensures Printable(precision, raw)
  {
    Pow10Grows(precision, 17);
    Pow10Grows(17, 18);
    Pow10Of18();
  }

  /** Sign, integer part, and exactly `precision` digits of fraction. */
  function NumericString(precision: nat, raw: int): string
  {
    var v := Abs(raw);
    (if raw < 0 then "-" else "")
      + if precision == 0 then Decimal(v)
        else Decimal(Quotient(v, Pow10(precision))) + "." + Padded(v % Pow10(precision), precision)
  }

  lemma {:induction false} DecimalLength(v: nat, k: nat)
    requires k >= 1 && v < Pow10(k) && (k > 1 ==> v >= Pow10(k - 1))
    ensures |Decimal(v)| == k
  {
    if k > 1 {
      DecimalLength(v / 10, k - 1);
    }
  }

  method PrintNumeric(precision: nat, raw: int64) returns (out: string)
    requires Printable(precision, raw)
    ensures out == NumericString(precision, raw)
  {
    hide Decimal, Padded;
    var v: int64 := raw;
    out := "";
    if v < 0 {
      out := out + "-";
      v := -v;
    }
    if precision == 0 {
      out := out + Decimal(v);
    } else {
      var sep: int64 := 10;
      Pow10Of18();
      for index := 1 to precision
        invariant sep == Pow10(index)
      {
        Pow10Grows(index + 1, 18);
        sep := sep * 10;
      }
      out := out + Decimal(Quotient(v, sep)) + ".";
      var fraction := PrintFraction(v % sep, precision, sep);
      out := out + fraction;
    }
  }

  method PrintFraction(v: int64, precision: nat, separator: int64) returns (out: string)
    requires precision >= 1 && separator == Pow10(precision) && 0 <= v < separator && 10 * v <= INT64_MAX
    ensures out == Padded(v, precision)
  {
    out := "";
    if v == 0 {
      for index := 0 to precision
        invariant out == Zeros(index)
      {
        out := out + "0";
      }
      ZeroFraction(precision);
    } else {
      var sep: int64, tenfold: int64 := separator, 10 * v;
      ghost var k := precision;
      while sep > tenfold
        invariant 1 <= k <= precision && sep == Pow10(k) && v < sep
        invariant out == Zeros(precision - k)
        decreases k
      {
        out := out + "0";
        sep := sep / 10;
        k := k - 1;
      }
      DecimalLength(v, k);
      out := out + Decimal(v);
    }
  }

  lemma ZeroFraction(precision: nat)
    requires precision >= 1
    ensures Padded(0, precision) == Zeros(precision)
  {
  }

  /** The native printer: one loop for zero and non-zero fractions, with a counted bound. */
  method NativeToString(precision: nat, raw: int64) returns (ret: string)
    requires Printable(precision, raw)
    ensures ret == NumericString(precision, raw)
  {
    ret := "";
    var v: int64 := raw;
    if v < 0 {
      ret := ret + "-";
      v := -v;
    }
    var sep: int64 := 1;
    Pow10Of18();
    for index := 0 to precision
      invariant sep == Pow10(index)
    {
      Pow10Grows(index + 1, 18);
      sep := sep * 10;
    }
    assert Pow10(0) == 1;
    ret := ret + Decimal(Quotient(v, sep));
    if precision != 0 {
      ret := ret + ".";
      var fraction := NativeFraction(v % sep, precision, sep);
      ret := ret + fraction;
    }
  }

  method NativeFraction(v: int64, precision: nat, separator: int64) returns (ret: string)
    requires precision >= 1 && separator == Pow10(precision) && 0 <= v < separator && 10 * v <= INT64_MAX
    ensures ret == Padded(v, precision)
  {
    ret := "";
    var index, sep: int64, tenfold: int64 := 1, separator, 10 * v;
    while index < precision && sep > tenfold
      invariant 1 <= index <= precision && sep == Pow10(precision + 1 - index) && v < sep
      invariant ret == Zeros(index - 1)
    {
      index := index + 1;
      ret := ret + "0";
      sep := sep / 10;
    }
    DecimalLength(v, precision + 1 - index);
    ret := ret + Decimal(v);
  }

  // ----- what is parsed

  /** The loop over the digits: the accumulator, the digits seen so far, and where the text ends now. */
  datatype DigitScan = DigitScan(result: int64, fraction: bool, digits: nat, fractionDigits: nat, limit: nat)

  /** Trailing zeros between the point and the end. */
  function DropZeros(text: string, i: nat, limit: nat): (r: nat)
    requires i <= limit <= |text|
    ensures i <= r <= limit
    ensures i < limit && text[i] != '0' ==> i < r
  {
    if i < limit && text[limit - 1] == '0' then DropZeros(text, i, limit - 1) else limit
  }

  function ScanDigits(text: string, i: nat, s: DigitScan): Option<DigitScan>
    requires i <= s.limit <= |text|
    decreases s.limit - i
  {
    if i == s.limit then Some(s)
    else if IsDigit(text[i]) then
      var result := I64(I64(s.result * 10) + DigitValue(text[i]));
      ScanDigits(text, i + 1,
        if s.fraction then s.(result := result, fractionDigits := s.fractionDigits + 1)
        else s.(result := result, digits := s.digits + 1))
    else if text[i] == '.' && !s.fraction then
      ScanDigits(text, i + 1, s.(fraction := true, limit := DropZeros(text, i, s.limit)))
    else None
  }

  /** The position after an optional sign. */
  function AfterSign(text: string, i: nat, limit: nat): nat
    requires i <= limit <= |text|
  {
    if i < limit && (text[i] == '-' || text[i] == '+') then i + 1 else i
  }

  function ParseNumeric(text: string, precision: nat): Option<int64>
    requires precision <= 18
  {
    var start := SkipSpaces(text, 0);
    var limit := DropSpaces(text, start, |text|);
    var i := AfterSign(text, start, limit);
    if i == limit then None else
    var s := ScanDigits(text, i, DigitScan(0, false, 0, 0, limit));
    if s.None? || s.value.digits > 18 || s.value.fractionDigits > precision then None else
    var result: int := I64(s.value.result * Pow10(precision - s.value.fractionDigits));
    Some(if text[start] == '-' then I64(-result) else result)
  }

  method CastStringToNumericValue(text: string, precision: nat) returns (r: Option<int64>)
    requires precision <= 18
    ensures r == ParseNumeric(text, precision)
  {
    var start, end := Trim(text);
    var iter, limit := start, end;
    var neg := false;
    if iter != limit {
      if text[iter] == '-' {
        neg := true;
        iter := iter + 1;
      } else if text[iter] == '+' {
        iter := iter + 1;
      }
    }
    if iter == limit { return None; }
    var scan := ReadDigits(text, iter, limit);
    if scan.None? { return None; }
    if scan.value.digits > 18 || scan.value.fractionDigits > precision { return None; }
    var result: int := I64(scan.value.result * Pow10(precision - scan.value.fractionDigits));
    return Some(if neg then I64(-result) else result);
  }

  method ReadDigits(text: string, first: nat, end: nat) returns (r: Option<DigitScan>)
    requires first <= end <= |text|
    ensures r == ScanDigits(text, first, DigitScan(0, false, 0, 0, end))
  {
    hide I64;
    var iter, limit := first, end;
    var result: int64, fraction, digitsSeen, digitsSeenFraction := 0, false, 0, 0;
    while iter != limit
      invariant first <= iter <= limit <= |text|
      invariant ScanDigits(text, first, DigitScan(0, false, 0, 0, end))
             == ScanDigits(text, iter, DigitScan(result, fraction, digitsSeen, digitsSeenFraction, limit))
      decreases limit - iter
    {
      var c := text[iter];
      if IsDigit(c) {
        result := I64(I64(result * 10) + DigitValue(c));
        if fraction {
          digitsSeenFraction := digitsSeenFraction + 1;
        } else {
          digitsSeen := digitsSeen + 1;
        }
      } else if c == '.' {
        if fraction { return None; }
        limit := SkipTrailingZeros(text, iter, limit);
        fraction := true;
      } else {
        return None;
      }
      iter := iter + 1;
    }
    return Some(DigitScan(result, fraction, digitsSeen, digitsSeenFraction, limit));
  }

  method SkipTrailingZeros(text: string, iter: nat, end: nat) returns (limit: nat)
    requires iter <= end <= |text|
    ensures limit == DropZeros(text, iter, end)
  {
    limit := end;
    while iter != limit && text[limit - 1] == '0'
      invariant iter <= limit <= end && DropZeros(text, iter, end) == DropZeros(text, iter, limit)
    {
      limit := limit - 1;
    }
  }

  // ----- the numbers that are accepted

  /** Without the zeros at the end. */
  function Stripped(digits: string): (r: string)
    requires AllDigits(digits)
    ensures |r| <= |digits| && r == digits[..|r|] && AllDigits(r)
  {
    if digits != [] && digits[|digits| - 1] == '0' then Stripped(digits[..|digits| - 1]) else digits
  }

  lemma {:induction false} ValueOfStripped(digits: string)
    requires AllDigits(digits)
    ensures Value(digits) == Value(Stripped(digits)) * Pow10(|digits| - |Stripped(digits)|)
  {
    if digits != [] && digits[|digits| - 1] == '0' {
      var front := digits[..|digits| - 1];
      ValueOneMore(front, '0');
      assert digits == front + ['0'];
      ValueOfStripped(front);
      TimesTen(Value(Stripped(front)), Pow10(|front| - |Stripped(front)|));
    }
  }

  /** The parser strips the fraction in place. */
  lemma {:induction false} DropZerosStrips(text: string, dot: nat, limit: nat)
    requires dot < limit <= |text| && text[dot] == '.' && AllDigits(text[dot + 1..limit])
    ensures var end := DropZeros(text, dot, limit);
            dot < end && text[dot + 1..end] == Stripped(text[dot + 1..limit])
  {
    if text[limit - 1] == '0' {
      assert text[dot + 1..limit][..limit - 1 - (dot + 1)] == text[dot + 1..limit - 1];
      DropZerosStrips(text, dot, limit - 1);
    } else {
      assert dot + 1 < limit ==> text[limit - 1] == text[dot + 1..limit][limit - 1 - (dot + 1)];
    }
  }

  function Advanced(s: DigitScan, k: nat, value: nat): DigitScan
  {
    var result := I64(s.result * Pow10(k) + value);
    if s.fraction then s.(result := result, fractionDigits := s.fractionDigits + k)
    else s.(result := result, digits := s.digits + k)
  }

  lemma ScanStep(text: string, i: nat, s: DigitScan)
    requires i < s.limit <= |text| && IsDigit(text[i])
    ensures ScanDigits(text, i, s) == ScanDigits(text, i + 1, Advanced(s, 1, DigitValue(text[i])))
  {
    hide I64;
    Pow10OfOne();
    I64Linear(s.result * 10, 1, DigitValue(text[i]));
  }

  /** A run of digits is appended to the accumulator, modulo 2^64. */
  lemma {:induction false} ScansRun(text: string, i: nat, k: nat, s: DigitScan)
    requires i + k <= s.limit <= |text| && AllDigits(text[i..i + k])
    ensures ScanDigits(text, i, s) == ScanDigits(text, i + k, Advanced(s, k, Value(text[i..i + k])))
  {
    hide ScanDigits, Value, I64, Pow10;
    if k > 0 {
      var last := i + (k - 1);
      assert i + k == last + 1;
      ValueOfNextDigit(text, i, last);
      ScansRun(text, i, k - 1, s);
      var before, d := Value(text[i..last]), DigitValue(text[last]);
      ScanStep(text, last, Advanced(s, k - 1, before));
      AdvancedTwice(s, k, before, d);
    } else {
      EmptyRun(text, i, s);
    }
  }

  lemma AdvancedTwice(s: DigitScan, k: nat, before: nat, d: nat)
    requires k > 0
    ensures Advanced(Advanced(s, k - 1, before), 1, d) == Advanced(s, k, 10 * before + d)
  {
    hide I64;
    Pow10OfOne();
    I64Linear(s.result * Pow10(k - 1) + before, 10, d);
    TimesTen(s.result, Pow10(k - 1));
  }

  lemma EmptyRun(text: string, i: nat, s: DigitScan)
    requires i <= s.limit <= |text|
    ensures text[i..i] == [] && Advanced(s, 0, Value(text[i..i])) == s
  {
  }

  /** The signs a number may start with, the digits around its point, and the spaces around it all. */
  datatype NumericParts =
    NumericParts(before: string, sign: string, whole: string, dotted: bool, fraction: string, after: string)

  predicate Legal(p: NumericParts)
  {
    && AllSpaces(p.before) && AllSpaces(p.after)
    && (p.sign == "" || p.sign == "-" || p.sign == "+")
    && AllDigits(p.whole) && AllDigits(p.fraction)
    && (!p.dotted ==> p.whole != "" && p.fraction == "")
  }

  function Body(whole: string, dotted: bool, fraction: string): string
  {
    whole + if dotted then "." + fraction else ""
  }

  function NumericText(p: NumericParts): string
  {
    p.before + (p.sign + Body(p.whole, p.dotted, p.fraction)) + p.after
  }

  /** At most 18 digits before the point, and no more behind it than the type has, trailing zeros aside. */
  predicate DigitsFit(p: NumericParts, precision: nat)
    requires Legal(p)
  {
    |p.whole| <= 18 && |Stripped(p.fraction)| <= precision
  }

  /** The number the text denotes, times 10^precision. */
  function Denoted(p: NumericParts, precision: nat): int
    requires Legal(p) && DigitsFit(p, precision)
  {
    var digits := Stripped(p.fraction);
    var v := Value(p.whole + digits) * Pow10(precision - |digits|);
    if p.sign == "-" then -v else v
  }

  lemma ScanEnd(text: string, s: DigitScan)
    requires s.limit <= |text|
    ensures ScanDigits(text, s.limit, s) == Some(s)
  {
  }

  lemma ScanPoint(text: string, dot: nat, s: DigitScan)
    requires dot < s.limit <= |text| && text[dot] == '.' && !s.fraction
    ensures ScanDigits(text, dot, s)
         == ScanDigits(text, dot + 1, s.(fraction := true, limit := DropZeros(text, dot, s.limit)))
  {
  }

  /** The digits before the point, read from the start. */
  lemma ScansWhole(text: string, i: nat, k: nat, limit: nat)
    requires i + k <= limit <= |text| && AllDigits(text[i..i + k])
    ensures ScanDigits(text, i, DigitScan(0, false, 0, 0, limit))
         == ScanDigits(text, i + k, DigitScan(I64(Value(text[i..i + k])), false, k, 0, limit))
  {
    hide ScanDigits, Value, I64, Pow10;
    var none := DigitScan(0, false, 0, 0, limit);
    assert none.result * Pow10(k) == 0;
    ScansRun(text, i, k, none);
  }

  /** The digits behind the point go on accumulating, without the trailing zeros. */
  lemma ScansFraction(text: string, dot: nat, limit: nat, whole: string)
    requires dot < limit <= |text| && text[dot] == '.' && AllDigits(text[dot + 1..limit]) && AllDigits(whole)
    ensures var digits := Stripped(text[dot + 1..limit]);
            var r := ScanDigits(text, dot, DigitScan(I64(Value(whole)), false, |whole|, 0, limit));
            && r.Some? && r.value.digits == |whole| && r.value.fractionDigits == |digits|
            && AllDigits(whole + digits) && r.value.result == I64(Value(whole + digits))
  {
    hide ScanDigits, Value, I64, Pow10, DropZeros, Stripped;
    DropZerosStrips(text, dot, limit);
    var end := DropZeros(text, dot, limit);
    var digits := text[dot + 1..end];
    var s := DigitScan(I64(Value(whole)), false, |whole|, 0, limit);
    ScanPoint(text, dot, s);
    assert text[dot + 1..dot + 1 + |digits|] == digits;
    ScansRun(text, dot + 1, |digits|, s.(fraction := true, limit := end));
    I64Linear(Value(whole), Pow10(|digits|), Value(digits));
    ValueConcat(whole, digits);
    ScanEnd(text, Advanced(s.(fraction := true, limit := end), |digits|, Value(digits)));
  }

  lemma BodyParts(text: string, i: nat, limit: nat, whole: string, dotted: bool, fraction: string)
    requires i <= limit <= |text| && text[i..limit] == Body(whole, dotted, fraction)
    ensures var dot := i + |whole|;
            && dot <= limit && text[i..dot] == whole
            && (if dotted then dot < limit && text[dot] == '.' && text[dot + 1..limit] == fraction else dot == limit)
  {
    var body, dot := text[i..limit], i + |whole|;
    assert text[i..dot] == body[..|whole|];
    if dotted {
      assert text[dot] == body[|whole|];
      assert text[dot + 1..limit] == body[|whole| + 1..];
    }
  }

  lemma ScansBody(text: string, i: nat, limit: nat, whole: string, dotted: bool, fraction: string)
    requires i <= limit <= |text| && text[i..limit] == Body(whole, dotted, fraction)
    requires AllDigits(whole) && AllDigits(fraction) && (!dotted ==> fraction == "")
    ensures var r := ScanDigits(text, i, DigitScan(0, false, 0, 0, limit));
            && r.Some? && r.value.digits == |whole| && r.value.fractionDigits == |Stripped(fraction)|
            && AllDigits(whole + Stripped(fraction)) && r.value.result == I64(Value(whole + Stripped(fraction)))
  {
    hide ScanDigits, Value, I64, Pow10, Stripped, Body;
    var dot := i + |whole|;
    BodyParts(text, i, limit, whole, dotted, fraction);
    ScansWhole(text, i, |whole|, limit);
    if dotted {
      ScansFraction(text, dot, limit, whole);
    } else {
      NothingStripped(whole);
      ScanEnd(text, DigitScan(I64(Value(whole)), false, |whole|, 0, limit));
    }
  }

  lemma NothingStripped(whole: string)
    ensures Stripped("") == "" && whole + Stripped("") == whole
  {
  }

  /** Scaling and negating the wrapped accumulator wraps the exact result. */
  lemma Finish(v: int, shift: int, negative: bool)
    ensures var r: int := I64(I64(v) * shift);
            (if negative then I64(-r) else r) == I64(if negative then -(v * shift) else v * shift)
  {
    hide I64;
    I64Linear(v, shift, 0);
    I64Linear(v * shift, -1, 0);
  }

  /** What trimming leaves of a number's text. */
  lemma FindsNumber(p: NumericParts)
    requires Legal(p)
    ensures var text, end := NumericText(p), |p.before| + |p.sign + Body(p.whole, p.dotted, p.fraction)|;
            SkipSpaces(text, 0) == |p.before| && DropSpaces(text, |p.before|, |text|) == end
  {
    hide SkipSpaces, DropSpaces, Body, Legal, AllSpaces, Tight;
    SignAndBody(p);
    TrimFinds(p.before, p.sign + Body(p.whole, p.dotted, p.fraction), p.after);
  }

  /** And the sign. */
  lemma FindsBody(p: NumericParts)
    requires Legal(p)
    ensures var body := Body(p.whole, p.dotted, p.fraction);
            var text, start, limit := NumericText(p), |p.before|, |p.before| + |p.sign + body|;
            var i := start + |p.sign|;
            && AfterSign(text, start, limit) == i < limit <= |text| && text[i..limit] == body
            && (text[start] == '-' <==> p.sign == "-")
  {
    hide Body, Legal, AllSpaces, Tight, AfterSign;
    SignAndBody(p);
    FindsSigned(p.before, p.sign, Body(p.whole, p.dotted, p.fraction), p.after);
  }

  lemma FindsSigned(before: string, sign: string, body: string, after: string)
    requires sign == "" || sign == "-" || sign == "+"
    requires body != "" && body[0] != '-' && body[0] != '+'
    ensures var text, start, limit := before + (sign + body) + after, |before|, |before| + |sign + body|;
            var i := start + |sign|;
            && AfterSign(text, start, limit) == i < limit <= |text| && text[i..limit] == body
            && (text[start] == '-' <==> sign == "-")
  {
    hide AfterSign;
    var text, limit := before + (sign + body) + after, |before| + |sign + body|;
    SignedBody(before, sign, body, after);
    SignSkipped(text, |before|, limit, sign, body);
  }

  lemma SignSkipped(text: string, start: nat, limit: nat, sign: string, body: string)
    requires sign == "" || sign == "-" || sign == "+"
    requires body != "" && body[0] != '-' && body[0] != '+'
    requires start < limit <= |text| && text[start] == (sign + body)[0]
    ensures AfterSign(text, start, limit) == start + |sign| && (text[start] == '-' <==> sign == "-")
  {
  }

  /** The number between the spaces begins with its sign or its body, and the body with no sign. */
  lemma SignAndBody(p: NumericParts)
    requires Legal(p)
    ensures AllSpaces(p.before) && AllSpaces(p.after) && (p.sign == "" || p.sign == "-" || p.sign == "+")
    ensures var body := Body(p.whole, p.dotted, p.fraction);
            body != "" && Tight(p.sign + body) && body[0] != '-' && body[0] != '+'
  {
  }

  lemma SignedBody(before: string, sign: string, body: string, after: string)
    requires body != ""
    ensures var text, i := before + (sign + body) + after, |before| + |sign|;
            && text[i..|before| + |sign + body|] == body && text[i] == body[0]
            && text[|before|] == (sign + body)[0]
  {
    assert before + (sign + body) + after == (before + sign) + body + after;
    SliceInside(before + sign, body, after);
  }

  /** Every text of a number is read as what it denotes, modulo 2^64, or rejected for its digits. */
  lemma ParsesNumericText(p: NumericParts, precision: nat)
    requires Legal(p) && precision <= 18
    ensures ParseNumeric(NumericText(p), precision)
         == if DigitsFit(p, precision) then Some(I64(Denoted(p, precision))) else None
  {
    hide ScanDigits, Value, I64, Pow10, Stripped, Body, SkipSpaces, DropSpaces, AfterSign, NumericText;
    var text := NumericText(p);
    var start := SkipSpaces(text, 0);
    var limit := DropSpaces(text, start, |text|);
    FindsNumber(p);
    FindsBody(p);
    ScansBody(text, AfterSign(text, start, limit), limit, p.whole, p.dotted, p.fraction);
    var digits := Stripped(p.fraction);
    if DigitsFit(p, precision) {
      Finish(Value(p.whole + digits), Pow10(precision - |digits|), p.sign == "-");
    }
  }

  /** An accepted number keeps its value exactly if it fits into 64 bits. */
  lemma ExactIff(p: NumericParts, precision: nat)
    requires Legal(p) && precision <= 18 && DigitsFit(p, precision)
    ensures ParseNumeric(NumericText(p), precision) == Some(Denoted(p, precision)) <==> Int64(Denoted(p, precision))
  {
    hide ParseNumeric, Denoted, NumericText;
    ParsesNumericText(p, precision);
  }

  lemma {:induction false} ValueBelow(digits: string)
    requires AllDigits(digits)
    ensures Value(digits) < Pow10(|digits|)
  {
    if digits != [] {
      ValueBelow(digits[..|digits| - 1]);
    }
  }

  /** A number whose digits before the point leave room for the type's precision keeps its value. */
  lemma ShortNumbersAreExact(p: NumericParts, precision: nat)
    requires Legal(p) && DigitsFit(p, precision) && |p.whole| + precision <= 18
    ensures ParseNumeric(NumericText(p), precision) == Some(Denoted(p, precision))
  {
    hide ParseNumeric, NumericText, Value, Pow10, Stripped;
    var digits := p.whole + Stripped(p.fraction);
    var shift := precision - |Stripped(p.fraction)|;
    ValueBelow(digits);
    Pow10Grows(shift, |digits| + shift);
    Pow10Grows(|digits| + shift, 18);
    Pow10Of18();
    Product(Value(digits), Pow10(|digits|), Pow10(shift));
    ExactIff(p, precision);
  }

  lemma Product(v: nat, bound: nat, factor: nat)
    requires v < bound
    ensures 0 <= v * factor <= factor * bound
  {
  }

  lemma {:induction false} ValueOfNines(digits: string)
    requires forall k | 0 <= k < |digits| :: digits[k] == '9'
    ensures AllDigits(digits) && Value(digits) == Pow10(|digits|) - 1
  {
    if digits != [] {
      ValueOfNines(digits[..|digits| - 1]);
    }
  }

  /** 17 digits before the point and three behind it are accepted, and read as another number. */
  lemma TooLargeIsAccepted()
    ensures ParseNumeric("99999999999999999.999", 3) == Some(99999999999999999999 - 5 * TURN)
  {
    hide ParseNumeric, Value, I64;
    var p := NumericParts("", "", "99999999999999999", true, "999", "");
    ParsesNumericText(p, 3);
    assert Stripped("999") == "999";
    ValueOfNines("99999999999999999" + "999");
    Pow10Of18();
    Pow10Grows(18, 20);
    I64Is(99999999999999999999, 5, 99999999999999999999 - 5 * TURN);
    assert NumericText(p) == "99999999999999999.999";
  }

  /** A plus sign, spaces around the number and trailing zeros are fine. */
  lemma PlusIsAccepted()
    ensures ParseNumeric(" +12.50 ", 1) == Some(125)
  {
    hide ParseNumeric, Value, I64;
    var p := NumericParts(" ", "+", "12", true, "50", " ");
    ParsesNumericText(p, 1);
    assert Stripped("50") == "5" by { StripOne("5"); }
    assert "12" + "5" == "125" && "12" + ['5'] == "125" && "1" + ['2'] == "12" && "" + ['1'] == "1";
    NoShift(0);
    ValueOneMore("", '1');
    ValueOneMore("1", '2');
    ValueOneMore("12", '5');
    SmallIsItself();
    assert NumericText(p) == " +12.50 ";
  }

  lemma StripOne(digits: string)
    requires AllDigits(digits) && digits != "" && digits[|digits| - 1] != '0'
    ensures Stripped(digits + "0") == digits
  {
    assert (digits + "0")[..|digits|] == digits;
  }

  /** A number may be nothing but a point. */
  lemma PointIsAccepted()
    ensures ParseNumeric(".", 0) == Some(0)
  {
    hide ParseNumeric, Value, I64;
    var p := NumericParts("", "", "", true, "", "");
    ParsesNumericText(p, 0);
    NothingStripped("");
    NoShift(0);
    SmallIsItself();
    assert NumericText(p) == ".";
  }

  lemma SmallIsItself()
    ensures I64(0) == 0 && I64(125) == 125
  {
  }

  // ----- and no others

  /** Where a run of digits ends. */
  function DigitsEnd(text: string, i: nat, limit: nat): (r: nat)
    requires i <= limit <= |text|
    ensures i <= r <= limit && AllDigits(text[i..r]) && (r < limit ==> !IsDigit(text[r]))
    decreases limit - i
  {
    if i < limit && IsDigit(text[i]) then
      var r := DigitsEnd(text, i + 1, limit);
      assert text[i..r] == [text[i]] + text[i + 1..r];
      r
    else i
  }

  lemma ScanStops(text: string, i: nat, s: DigitScan)
    requires i < s.limit <= |text| && !IsDigit(text[i])
    ensures ScanDigits(text, i, s).Some? ==> text[i] == '.' && !s.fraction
  {
  }

  lemma {:induction false} DroppedAreDigits(text: string, i: nat, limit: nat)
    requires i < limit <= |text| && i < DropZeros(text, i, limit)
    requires AllDigits(text[i + 1..DropZeros(text, i, limit)])
    ensures AllDigits(text[i + 1..limit])
  {
    if text[limit - 1] == '0' {
      DroppedAreDigits(text, i, limit - 1);
      assert i + 1 < limit ==> text[i + 1..limit] == text[i + 1..limit - 1] + [text[limit - 1]];
    }
  }

  /** What is read to the end has the form of a number. */
  lemma ScannedIsBody(text: string, i: nat, limit: nat) returns (dot: nat)
    requires i <= limit <= |text| && ScanDigits(text, i, DigitScan(0, false, 0, 0, limit)).Some?
    ensures i <= dot <= limit && AllDigits(text[i..dot])
    ensures dot < limit ==> text[dot] == '.' && AllDigits(text[dot + 1..limit])
  {
    hide ScanDigits, Value, I64, Pow10, DropZeros;
    dot := DigitsEnd(text, i, limit);
    ScansWhole(text, i, dot - i, limit);
    if dot < limit {
      var s := DigitScan(I64(Value(text[i..dot])), false, dot - i, 0, limit);
      ScanStops(text, dot, s);
      ScanPoint(text, dot, s);
      var end := DropZeros(text, dot, limit);
      var s' := s.(fraction := true, limit := end);
      var stop := DigitsEnd(text, dot + 1, end);
      ScansRun(text, dot + 1, stop - (dot + 1), s');
      if stop < end {
        ScanStops(text, stop, Advanced(s', stop - (dot + 1), Value(text[dot + 1..stop])));
      }
      DroppedAreDigits(text, dot, limit);
    }
  }

  predicate IsAcceptedNumeric(text: string, p: NumericParts, precision: nat)
  {
    Legal(p) && text == NumericText(p) && DigitsFit(p, precision)
  }

  /** The parser accepts exactly these texts; ParsesNumericText says what it returns. */
  lemma AcceptedNumerics(text: string, precision: nat)
    requires precision <= 18
    ensures ParseNumeric(text, precision).Some? <==> exists p :: IsAcceptedNumeric(text, p, precision)
  {
    hide ParseNumeric, Legal, DigitsFit, NumericText;
    if ParseNumeric(text, precision).Some? {
      var p := NumericShape(text, precision);
      ParsesNumericText(p, precision);
      assert IsAcceptedNumeric(text, p, precision);
    }
    if p :| IsAcceptedNumeric(text, p, precision) {
      ParsesNumericText(p, precision);
    }
  }

  lemma NumericShape(text: string, precision: nat) returns (p: NumericParts)
    requires precision <= 18 && ParseNumeric(text, precision).Some?
    ensures Legal(p) && text == NumericText(p)
  {
    hide ScanDigits, I64, Pow10, SkipSpaces, DropSpaces, AllSpaces;
    TrimCuts(text);
    var start := SkipSpaces(text, 0);
    var limit := DropSpaces(text, start, |text|);
    var i := AfterSign(text, start, limit);
    var dot := ScannedIsBody(text, i, limit);
    var fraction := if dot < limit then text[dot + 1..limit] else "";
    p := NumericParts(text[..start], text[start..i], text[i..dot], dot < limit, fraction, text[limit..]);
    CutNumber(text, start, i, dot, limit);
  }

  lemma CutNumber(text: string, start: nat, i: nat, dot: nat, limit: nat)
    requires start <= i <= dot <= limit <= |text| && (dot < limit ==> text[dot] == '.')
    ensures var fraction := if dot < limit then text[dot + 1..limit] else "";
            text == text[..start] + (text[start..i] + Body(text[i..dot], dot < limit, fraction)) + text[limit..]
  {
  }

  // ----- parsing what was printed

  /** The parts of a printed number. */
  function PrintedNumber(precision: nat, raw: int): NumericParts
  {
    var v, sep := Abs(raw), Pow10(precision);
    NumericParts("", if raw < 0 then "-" else "", Decimal(Quotient(v, sep)), precision > 0,
                 if precision > 0 then Padded(v % sep, precision) else "", "")
  }

  lemma PrintedIsNumber(precision: nat, raw: int)
    ensures Legal(PrintedNumber(precision, raw))
    ensures NumericText(PrintedNumber(precision, raw)) == NumericString(precision, raw)
  {
    hide Decimal, Padded, Pow10, Quotient;
    var p, v := PrintedNumber(precision, raw), Abs(raw);
    if precision == 0 {
      NoShift(v);
    }
    NothingAround(p.sign + Body(p.whole, p.dotted, p.fraction));
    Pointed(p.whole, p.fraction);
  }

  lemma Pointed(whole: string, fraction: string)
    ensures whole + "." + fraction == whole + ("." + fraction) && whole + "" == whole
  {
  }

  lemma NothingAround(text: string)
    ensures "" + text + "" == text
  {
  }

  lemma NoShift(v: nat)
    ensures Pow10(0) == 1 && Quotient(v, Pow10(0)) == v && Value("") == 0
  {
  }

  /** Whole and fraction as one number: stripped zeros are made up for by the shift. */
  lemma WholeAndFraction(whole: string, fraction: string, precision: nat)
    requires AllDigits(whole) && AllDigits(fraction) && |fraction| <= precision
    ensures var digits := Stripped(fraction);
            && AllDigits(whole + digits)
            && Value(whole + digits) * Pow10(precision - |digits|)
               == Value(whole) * Pow10(precision) + Value(fraction) * Pow10(precision - |fraction|)
  {
    hide Value, Stripped, Pow10;
    var digits := Stripped(fraction);
    var k := |digits|;
    ValueConcat(whole, digits);
    ValueOfStripped(fraction);
    Pow10Grows(k, precision);
    Pow10Grows(|fraction| - k, precision - k);
    assert precision - k - (|fraction| - k) == precision - |fraction|;
    Distribute(Value(whole), Pow10(k), Value(digits), Pow10(precision - k));
    Regroup(Value(digits), Pow10(|fraction| - k), Pow10(precision - |fraction|));
  }

  lemma Distribute(q: nat, p: nat, g: nat, shift: nat)
    ensures (q * p + g) * shift == q * (p * shift) + g * shift
  {
  }

  lemma Regroup(x: int, y: int, z: int)
    ensures x * (y * z) == x * y * z
  {
  }

  lemma PrintedDenotes(precision: nat, raw: int64)
    ensures var p := PrintedNumber(precision, raw);
            && Legal(p) && (DigitsFit(p, precision) <==> precision > 0 || Abs(raw) < Pow10(18))
            && (DigitsFit(p, precision) ==> Denoted(p, precision) == raw)
  {
    hide Decimal, Padded, Value, Pow10, Stripped, Quotient, NumericText, NumericString;
    var p, v, sep := PrintedNumber(precision, raw), Abs(raw), Pow10(precision);
    PrintedIsNumber(precision, raw);
    PrintedValues(precision, v);
    WholeAndFraction(p.whole, p.fraction, precision);
  }

  /** Both fields of a printed number have their values and lengths. */
  lemma PrintedValues(precision: nat, v: nat)
    requires v <= INT64_MAX + 1
    ensures var sep := Pow10(precision);
            var whole := Decimal(Quotient(v, sep));
            var fraction := if precision > 0 then Padded(v % sep, precision) else "";
            && (|whole| <= 18 <==> precision > 0 || v < Pow10(18)) && |fraction| == precision
            && Value(whole) * Pow10(precision) + Value(fraction) * Pow10(precision - |fraction|) == v
  {
    hide Decimal, Padded, Value, Pow10, Quotient;
    var sep := Pow10(precision);
    ValueDecimal(Quotient(v, sep));
    DecimalAtMost(Quotient(v, sep), 18);
    NoShift(v);
    Split(v, sep);
    if precision > 0 {
      PaddedExactly(v % sep, precision);
      ValuePadded(v % sep, precision);
      FewWholeDigits(v, precision);
    }
  }

  lemma Split(v: nat, sep: nat)
    requires sep > 0
    ensures Quotient(v, sep) * sep + v % sep == v
  {
  }

  lemma PaddedExactly(n: nat, width: nat)
    requires width >= 1 && n < Pow10(width)
    ensures |Padded(n, width)| == width
  {
    DecimalAtMost(n, width);
  }

  lemma FewWholeDigits(v: nat, precision: nat)
    requires v <= INT64_MAX + 1 && precision > 0
    ensures Quotient(v, Pow10(precision)) < Pow10(18)
  {
    Pow10Of18();
    Pow10Grows(1, precision);
    Pow10OfOne();
    AtLeast(Quotient(v, Pow10(precision)), 10, Pow10(precision));
  }

  lemma AtLeast(x: nat, a: nat, b: nat)
    requires a <= b
    ensures x * a <= x * b
  {
  }

  /** Whether the printed text parses, and to what: everything comes back, except that whole numbers
      of more than 18 digits are rejected. */
  lemma NumericRoundTrip(precision: nat, raw: int64)
    requires precision <= 18
    ensures ParseNumeric(NumericString(precision, raw), precision)
         == if precision > 0 || Abs(raw) < Pow10(18) then Some(raw) else None
  {
    hide ParseNumeric, NumericString, PrintedNumber, Denoted, DigitsFit;
    PrintedIsNumber(precision, raw);
    PrintedDenotes(precision, raw);
    ParsesNumericText(PrintedNumber(precision, raw), precision);
  }

  /** What is printed: a minus exactly for negative numbers, no needless leading zero, and exactly as many
      digits behind the point as the precision; together the digits are the number. */
  lemma PrintedMeaning(precision: nat, raw: int64) returns (whole: string, fraction: string)
    ensures AllDigits(whole) && AllDigits(fraction) && |fraction| == precision
    ensures whole != "" && (|whole| > 1 ==> whole[0] != '0')
    ensures Value(whole) * Pow10(precision) + Value(fraction) == Abs(raw)
    ensures NumericString(precision, raw)
         == (if raw < 0 then "-" else "") + (whole + if precision > 0 then "." + fraction else "")
  {
    hide Decimal, Padded, Value, Pow10, Quotient;
    var v, sep := Abs(raw), Pow10(precision);
    PrintedValues(precision, v);
    NoShift(v);
    NoLeadingZero(Quotient(v, sep));
    whole, fraction := Decimal(Quotient(v, sep)), if precision > 0 then Padded(v % sep, precision) else "";
    Pointed(whole, fraction);
  }

  lemma {:induction false} NoLeadingZero(n: nat)
    ensures |Decimal(n)| > 1 ==> Decimal(n)[0] != '0'
    ensures n > 0 ==> Decimal(n)[0] != '0'
  {
    if n >= 10 {
      NoLeadingZero(n / 10);
    }
  }

  // ----- numbers as they are read by people

  /** The number that a text stands for: digits before the point, and digits behind it as a fraction. */
  ghost function RealValue(p: NumericParts): real
    requires Legal(p)
  {
    var v := Value(p.whole) as real + Value(p.fraction) as real / Pow10(|p.fraction|) as real;
    if p.sign == "-" then -v else v
  }

  /** What is read is that number times ten to the precision. */
  lemma DenotedIsReal(p: NumericParts, precision: nat)
    requires Legal(p) && DigitsFit(p, precision)
    ensures Denoted(p, precision) as real == RealValue(p) * Pow10(precision) as real
  {
    hide Value, Stripped, Pow10;
    UnsignedIsReal(p.whole, p.fraction, precision);
    var v := Value(p.whole) as real + Value(p.fraction) as real / Pow10(|p.fraction|) as real;
    NegatedProduct(v, Pow10(precision) as real);
  }

  lemma NegatedProduct(x: real, y: real)
    ensures -x * y == -(x * y)
  {
  }

  lemma UnsignedIsReal(whole: string, fraction: string, precision: nat)
    requires AllDigits(whole) && AllDigits(fraction) && |Stripped(fraction)| <= precision
    ensures var digits := Stripped(fraction);
            && AllDigits(whole + digits)
            && (Value(whole + digits) * Pow10(precision - |digits|)) as real
               == (Value(whole) as real + Value(fraction) as real / Pow10(|fraction|) as real)
                  * Pow10(precision) as real
  {
    hide Value, Stripped, Pow10;
    var digits := Stripped(fraction);
    var k, n := |digits|, |fraction|;
    ValueConcat(whole, digits);
    ValueOfStripped(fraction);
    Pow10Grows(k, precision);
    Pow10Grows(k, n);
    ScaledFraction(Value(whole), Value(digits), Pow10(k), Pow10(precision - k), Pow10(n - k),
                   Value(whole + digits), Value(fraction), Pow10(n), Pow10(precision));
  }

  lemma ScaledFraction(w: nat, g: nat, pk: nat, shift: nat, rest: nat, v: nat, f: nat, pn: nat, pp: nat)
    requires v == w * pk + g && f == g * rest && pn == pk * rest && pp == pk * shift && pn > 0 && pk > 0
    ensures (v * shift) as real == (w as real + f as real / pn as real) * pp as real
  {
    var q := f as real / pn as real;
    CancelRest(g, pk, rest);
    assert q * pk as real == g as real;
    assert v as real == (w as real + q) * pk as real;
    Associate(w as real + q, pk as real, shift as real);
    assert (v * shift) as real == v as real * shift as real && pp as real == pk as real * shift as real;
  }

  lemma Associate(x: real, y: real, z: real)
    ensures x * y * z == x * (y * z)
  {
  }

  lemma CancelRest(g: nat, pk: nat, rest: nat)
    requires pk * rest > 0
    ensures (g * rest) as real / (pk * rest) as real * pk as real == g as real
  {
    assert rest > 0 && pk > 0;
  }
}
