/** Decimal numbers as text, and the spaces around a text. */
module DecimalText {
  import opened ScaledIntegers

  // ----- decimal numbers as printf writes them

  function Digit(d: nat): char
    requires d < 10
  {
    '0' + d as char
  }

  predicate IsDigit(c: char)
  {
    '0' <= c <= '9'
  }

  predicate AllDigits(s: string)
  {
    forall k | 0 <= k < |s| :: IsDigit(s[k])
  }

  predicate AllZeros(s: string)
  {
    forall k | 0 <= k < |s| :: s[k] == '0'
  }

  function DigitValue(c: char): nat
    requires IsDigit(c)
  {
    (c - '0') as nat
  }

  function Decimal(n: nat): (s: string)
    ensures |s| >= 1 && AllDigits(s)
  {
    if n < 10 then [Digit(n)] else Decimal(n / 10) + [Digit(n % 10)]
  }

  function Zeros(n: nat): (s: string)
    ensures |s| == n && AllZeros(s)
  {
    seq(n, _ => '0')
  }

  /** A number with leading zeros, at least `width` characters wide. */
  function Padded(n: nat, width: nat): (s: string)
    ensures |s| >= 1 && |s| >= width && AllDigits(s)
  {
    var digits := Decimal(n);
    Zeros(if |digits| < width then width - |digits| else 0) + digits
  }

  // ----- what digits denote

  function Value(digits: string): nat
    requires AllDigits(digits)
  {
    if digits == [] then 0
    else 10 * Value(digits[..|digits| - 1]) + DigitValue(digits[|digits| - 1])
  }

  lemma ValueOneMore(digits: string, c: char)
    requires AllDigits(digits) && IsDigit(c)
    ensures Value(digits + [c]) == 10 * Value(digits) + DigitValue(c)
  {
    assert (digits + [c])[..|digits|] == digits;
  }

  /** The digits up to `end`, and one more. */
  lemma ValueOfNextDigit(text: string, i: nat, end: nat)
    requires i <= end < |text| && AllDigits(text[i..end + 1])
    ensures AllDigits(text[i..end]) && IsDigit(text[end])
    ensures Value(text[i..end + 1]) == 10 * Value(text[i..end]) + DigitValue(text[end])
  {
    assert text[i..end + 1] == text[i..end] + [text[end]];
    assert text[i..end] == text[i..end + 1][..end - i];
    assert text[end] == text[i..end + 1][end - i];
    ValueOneMore(text[i..end], text[end]);
  }

  lemma {:induction false} ValueConcat(a: string, b: string)
    requires AllDigits(a) && AllDigits(b)
    ensures AllDigits(a + b) && Value(a + b) == Value(a) * Pow10(|b|) + Value(b)
  {
    hide Value;
    if b == [] {
      assert a + b == a;
      ValueZeros([]);
    } else {
      var front, c := b[..|b| - 1], b[|b| - 1];
      ValueConcat(a, front);
      ValueOneMore(a + front, c);
      ValueOneMore(front, c);
      LastDigit(a, b);
      TimesTen(Value(a), Pow10(|front|));
    }
  }

  lemma LastDigit(a: string, b: string)
    requires b != []
    ensures a + b == (a + b[..|b| - 1]) + [b[|b| - 1]] && b == b[..|b| - 1] + [b[|b| - 1]]
  {
  }

  lemma TimesTen(x: int, y: int)
    ensures x * (10 * y) == 10 * (x * y)
  {
  }

  lemma {:induction false} ValueZeros(zeros: string)
    requires AllZeros(zeros)
    ensures Value(zeros) == 0
  {
    if zeros != [] {
      ValueZeros(zeros[..|zeros| - 1]);
    }
  }

  lemma {:induction false} ValueDecimal(n: nat)
    ensures Value(Decimal(n)) == n
  {
    if n >= 10 {
      ValueDecimal(n / 10);
      ValueOneMore(Decimal(n / 10), Digit(n % 10));
    } else {
      ValueOneMore([], Digit(n));
      assert [] + [Digit(n)] == [Digit(n)];
    }
  }

  lemma ValuePadded(n: nat, width: nat)
    ensures Value(Padded(n, width)) == n
  {
    var digits := Decimal(n);
    var zeros := Zeros(if |digits| < width then width - |digits| else 0);
    ValueDecimal(n);
    ValueZeros(zeros);
    ValueConcat(zeros, digits);
  }

  lemma {:induction false} DecimalAtMost(n: nat, k: nat)
    requires k >= 1
    ensures |Decimal(n)| <= k <==> n < Pow10(k)
  {
    if k > 1 && n >= 10 {
      DecimalAtMost(n / 10, k - 1);
    }
  }

  // ----- short numbers, digit by digit

  lemma NoPadding(n: nat)
    requires n < 100
    ensures Padded(n, 0) == if n < 10 then [Digit(n)] else [Digit(n / 10), Digit(n % 10)]
  {
    assert Zeros(0) == [];
    if n >= 10 {
      assert Decimal(n) == [Digit(n / 10)] + [Digit(n % 10)];
    }
  }

  /** Padding from the right. */
  lemma PaddedStep(n: nat, width: nat)
    requires width >= 2
    ensures Padded(n, width) == Padded(n / 10, width - 1) + [Digit(n % 10)]
  {
    if n < 10 {
      assert Zeros(width - 1) == Zeros(width - 2) + [Digit(0)];
    }
  }

  lemma OneDigit(n: nat)
    requires n < 10
    ensures Padded(n, 1) == [Digit(n)]
  {
    assert Zeros(0) == [];
  }

  lemma TwoDigits(n: nat)
    requires n < 100
    ensures Padded(n, 2) == [Digit(n / 10), Digit(n % 10)]
  {
    hide Padded;
    PaddedStep(n, 2);
    OneDigit(n / 10);
  }

  lemma ThreeDigits(n: nat)
    requires n < 1000
    ensures Padded(n, 3) == [Digit(n / 100), Digit(n / 10 % 10), Digit(n % 10)]
  {
    hide Padded;
    PaddedStep(n, 3);
    TwoDigits(n / 10);
  }

  lemma FourDigits(n: nat)
    requires n < 10000
    ensures Padded(n, 4) == [Digit(n / 1000), Digit(n / 100 % 10), Digit(n / 10 % 10), Digit(n % 10)]
  {
    hide Padded, Digit;
    PaddedStep(n, 4);
    ThreeDigits(n / 10);
    DigitPlaces(n);
  }

  lemma DigitPlaces(n: nat)
    ensures n / 10 / 100 == n / 1000 && n / 10 / 10 == n / 100
  {
  }

  /** The ten digits. */
  lemma DigitsAre()
    ensures forall d: nat | d < 10 :: Digit(d) == "0123456789"[d] && Value([Digit(d)]) == d
  {
  }

  // ----- trimming

  predicate AllSpaces(s: string)
  {
    forall k | 0 <= k < |s| :: s[k] == ' '
  }

  /** No space at either end. */
  predicate Tight(s: string)
  {
    s == [] || (s[0] != ' ' && s[|s| - 1] != ' ')
  }

  function SkipSpaces(text: string, i: nat): (r: nat)
    requires i <= |text|
    ensures i <= r <= |text|
    ensures (forall k | i <= k < r :: text[k] == ' ') && (r < |text| ==> text[r] != ' ')
    decreases |text| - i
  {
    if i < |text| && text[i] == ' ' then SkipSpaces(text, i + 1) else i
  }

  function DropSpaces(text: string, i: nat, limit: nat): (r: nat)
    requires i <= limit <= |text|
    ensures i <= r <= limit
    ensures (forall k | r <= k < limit :: text[k] == ' ') && (i < r ==> text[r - 1] != ' ')
  {
    if i < limit && text[limit - 1] == ' ' then DropSpaces(text, i, limit - 1) else limit
  }

  /** The text is spaces, then a part without spaces at its ends, then spaces. */
  method Trim(text: string) returns (iter: nat, limit: nat)
    ensures iter <= limit <= |text|
    ensures AllSpaces(text[..iter]) && Tight(text[iter..limit]) && AllSpaces(text[limit..])
    ensures iter == SkipSpaces(text, 0) && limit == DropSpaces(text, iter, |text|)
  {
    iter, limit := 0, |text|;
    while iter != limit && text[iter] == ' '
      invariant iter <= limit && SkipSpaces(text, 0) == SkipSpaces(text, iter)
      decreases |text| - iter
    {
      iter := iter + 1;
    }
    while iter != limit && text[limit - 1] == ' '
      invariant iter <= limit <= |text| && DropSpaces(text, iter, |text|) == DropSpaces(text, iter, limit)
    {
      limit := limit - 1;
    }
  }

  /** There is only one such part, if it is not empty. */
  lemma TrimFinds(before: string, middle: string, after: string)
    requires AllSpaces(before) && AllSpaces(after) && middle != [] && Tight(middle)
    ensures SkipSpaces(before + middle + after, 0) == |before|
    ensures DropSpaces(before + middle + after, |before|, |before + middle + after|) == |before| + |middle|
  {
    var text, end := before + middle + after, |before| + |middle|;
    assert text[|before|] == middle[0] && text[end - 1] == middle[|middle| - 1];
    assert forall k | 0 <= k < |before| :: text[k] == before[k];
    assert forall k | end <= k < |text| :: text[k] == after[k - end];
  }

  /** What trimming cuts off. */
  lemma TrimCuts(text: string)
    ensures var iter := SkipSpaces(text, 0);
            AllSpaces(text[..iter]) && AllSpaces(text[DropSpaces(text, iter, |text|)..])
  {
    hide SkipSpaces, DropSpaces;
    var iter := SkipSpaces(text, 0);
    var limit := DropSpaces(text, iter, |text|);
    assert forall k | 0 <= k < iter :: text[..iter][k] == text[k];
    assert forall k | 0 <= k < |text| - limit :: text[limit..][k] == text[limit + k];
  }

  lemma Cut(text: string, a: nat, b: nat)
    requires a <= b <= |text|
    ensures text == text[..a] + text[a..b] + text[b..]
  {
  }

  lemma SliceInside(before: string, middle: string, after: string)
    ensures (before + middle + after)[|before|..|before| + |middle|] == middle
  {
  }
}
