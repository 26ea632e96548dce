/** `format_value`: the text written at the right end of each bar. Counts are written as
    integers with a comma every three digits; amounts are abbreviated to pounds with a
    `k`/`m`/`b` scale and two, one or no decimals so that about three digits show. */
module Format {
  import Tags

  /** The scale a currency amount is written in. */
  datatype Scale = Units | Thousands | Millions | Billions

  /** The amount one unit of the scale stands for. */
  function Unit(s: Scale): nat {
    match s
    case Units => 1
    case Thousands => 1_000
    case Millions => 1_000_000
    case Billions => 1_000_000_000
  }

  /** The letter written after the number. */
  function Suffix(s: Scale): string {
    match s
    case Units => ""
    case Thousands => "k"
    case Millions => "m"
    case Billions => "b"
  }

  const Pound: char := '£'

  /** What `format_value` writes: a finished text, or, for a non-zero amount, `£`, the amount
      divided by the scale's unit with `decimals` digits after the point, and the scale's
      suffix (the digits themselves come from float formatting and are not modelled). */
  datatype Shown = Text(text: string) | Money(scale: Scale, decimals: nat)

  /** The precision rule, stated on the scaled value as a real number: 0 decimals from 100
      up, 1 from 10 up, 2 below. */
  function Decimals(scaled: real): nat {
    if scaled >= 100.0 then 0 else if scaled >= 10.0 then 1 else 2
  }

  // ---------------------------------------------------------------- plain counts

  function DigitChar(d: nat): char
    requires d < 10
  {
    ('0' as int + d) as char
  }

  predicate IsDigit(c: char) {
    '0' <= c <= '9'
  }

  /** The decimal numeral of `n`, without separators. */
  function Decimal(n: nat): (s: string)
    ensures |s| >= 1
    decreases n
  {
    if n < 10 then [DigitChar(n)] else Decimal(n / 10) + [DigitChar(n % 10)]
  }

  /** The number a string of digits stands for. */
  function DigitsValue(s: string): nat
    requires forall i :: 0 <= i < |s| ==> IsDigit(s[i])
    decreases |s|
  {
    if s == [] then 0
    else
      assert IsDigit(s[|s| - 1]);
      DigitsValue(s[..|s| - 1]) * 10 + (s[|s| - 1] as int - '0' as int)
  }

  /** Reading the numeral back gives the number, and it has no leading zero. */
  lemma {:induction false} DecimalRoundTrip(n: nat)
    ensures forall i :: 0 <= i < |Decimal(n)| ==> IsDigit(Decimal(n)[i])
    ensures DigitsValue(Decimal(n)) == n
    ensures n > 0 ==> Decimal(n)[0] != '0'
    decreases n
  {
    if n >= 10 {
      DecimalRoundTrip(n / 10);
      var s := Decimal(n);
      assert s[..|s| - 1] == Decimal(n / 10);
    }
  }

  /** Three digits with leading zeros, for a group after the first. */
  function Pad3(k: nat): string
    requires k < 1000
  {
    [DigitChar(k / 100), DigitChar(k / 10 % 10), DigitChar(k % 10)]
  }

  /** `f'{n:,}'` for a natural number: the digits with a comma before every three from the right. */
  function Grouped(n: nat): string
    decreases n
  {
    if n < 1000 then Decimal(n) else Grouped(n / 1000) + [','] + Pad3(n % 1000)
  }

  /** `f'{int(v):,}'`: a minus sign, then the grouped digits of the magnitude. */
  function WithSeparators(v: int): (r: string)
    ensures RemoveCommas(r) == (if v < 0 then ['-'] + Decimal(-v) else Decimal(v))
  {
    if v < 0 then
      GroupedDigits(-v);
      RemoveCommasAppend(['-'], Grouped(-v));
      ['-'] + Grouped(-v)
    else
      GroupedDigits(v);
      Grouped(v)
  }

  /** The string with its commas taken out. */
  function RemoveCommas(s: string): string
    decreases |s|
  {
    if s == [] then []
    else (if s[0] == ',' then [] else [s[0]]) + RemoveCommas(s[1..])
  }

  lemma {:induction false} RemoveCommasAppend(a: string, b: string)
    ensures RemoveCommas(a + b) == RemoveCommas(a) + RemoveCommas(b)
    decreases |a|
  {
    if a != [] {
      assert (a + b)[1..] == a[1..] + b;
      RemoveCommasAppend(a[1..], b);
    } else {
      assert a + b == b;
    }
  }

  lemma {:induction false} NoCommas(s: string)
    requires forall i :: 0 <= i < |s| ==> IsDigit(s[i])
    ensures RemoveCommas(s) == s
    decreases |s|
  {
    if s != [] {
      NoCommas(s[1..]);
      assert s == [s[0]] + s[1..];
    }
  }

  /** The numeral of `1000 * a + b` is the numeral of `a` followed by `b` in three digits. */
  lemma DecimalThousands(a: nat, b: nat)
    requires a >= 1 && b < 1000
    ensures Decimal(1000 * a + b) == Decimal(a) + Pad3(b)
  {
    var n := 1000 * a + b;
    var n1, n2 := 100 * a + b / 10, 10 * a + b / 100;
    assert n / 10 == n1 && n % 10 == b % 10;
    assert n1 / 10 == n2 && n1 % 10 == b / 10 % 10;
    assert n2 / 10 == a && n2 % 10 == b / 100;
    assert Decimal(n) == Decimal(n1) + [DigitChar(b % 10)];
    assert Decimal(n1) == Decimal(n2) + [DigitChar(b / 10 % 10)];
    assert Decimal(n2) == Decimal(a) + [DigitChar(b / 100)];
  }

  /** Taking the commas out of the grouped form leaves the plain numeral. */
  lemma {:induction false} GroupedDigits(n: nat)
    ensures RemoveCommas(Grouped(n)) == Decimal(n)
    decreases n
  {
    DecimalRoundTrip(n);
    if n < 1000 {
      NoCommas(Decimal(n));
    } else {
      var a, b := n / 1000, n % 1000;
      GroupedDigits(a);
      RemoveCommasAppend(Grouped(a) + [','], Pad3(b));
      RemoveCommasAppend(Grouped(a), [',']);
      assert RemoveCommas([',']) == [];
      NoCommas(Pad3(b));
      DecimalThousands(a, b);
      assert n == 1000 * a + b;
    }
  }

  /** The groups between the commas: the first has one to three digits, every other exactly three. */
  lemma {:induction false} GroupedShape(n: nat)
    ensures var g := Tags.Split(Grouped(n), ',');
      && 1 <= |g[0]| <= 3
      && (forall i :: 1 <= i < |g| ==> |g[i]| == 3)
    decreases n
  {
    if n < 1000 {
      DecimalRoundTrip(n);
      DecimalWidth(n);
      Tags.SplitFree(Decimal(n), ',');
    } else {
      GroupedShape(n / 1000);
      SplitSnoc(Grouped(n / 1000), Pad3(n % 1000), ',');
      Tags.SplitFree(Pad3(n % 1000), ',');
    }
  }

  lemma DecimalWidth(n: nat)
    requires n < 1000
    ensures |Decimal(n)| <= 3
  {
    if n >= 10 {
      var h := n / 10;
      assert |Decimal(n)| == |Decimal(h)| + 1;
      if h >= 10 {
        assert h / 10 < 10;
        assert |Decimal(h)| == |Decimal(h / 10)| + 1 == 2;
      }
    }
  }

  /** Splitting at a separator between two strings splits each of them. */
  lemma {:induction false} SplitSnoc(a: string, b: string, sep: char)
    ensures Tags.Split(a + [sep] + b, sep) == Tags.Split(a, sep) + Tags.Split(b, sep)
    decreases |a|
  {
    if a == [] {
      assert a + [sep] + b == [sep] + b;
      assert ([sep] + b)[1..] == b;
    } else {
      assert (a + [sep] + b)[1..] == a[1..] + [sep] + b;
      SplitSnoc(a[1..], b, sep);
    }
  }

  // ---------------------------------------------------------------- format_value

  /** `format_value(value, is_amount)` for a whole-number value. */
  function FormatValue(value: int, isAmount: bool): (r: Shown)
    ensures !isAmount ==> r == Text(WithSeparators(value))
    ensures isAmount && value == 0 ==> r == Text([Pound, '0'])
    ensures isAmount && value != 0 ==> r.Money?
    // the scale is the largest one whose unit the value reaches (units below 1000)
    ensures r.Money? ==> (r.scale == Units || Unit(r.scale) <= value)
    ensures r.Money? ==> (r.scale == Billions || value < 1000 * Unit(r.scale))
    // the precision follows the scaled value, compared as a real number
    ensures r.Money? ==> r.decimals == Decimals(value as real / Unit(r.scale) as real)
  {
    if !isAmount then Text(WithSeparators(value))
    else if value == 0 then Text([Pound, '0'])
    else
      var scale :=
        if value >= 1_000_000_000 then Billions
        else if value >= 1_000_000 then Millions
        else if value >= 1_000 then Thousands
        else Units;
      var unit := Unit(scale);
      ScaledTiers(value, scale);
      Money(scale, if value >= 100 * unit then 0 else if value >= 10 * unit then 1 else 2)
  }

  /** For whole numbers, comparing `value / unit` with 100 and 10 is comparing `value` with
      100 and 10 units. */
  lemma ScaledTiers(value: int, scale: Scale)
    ensures value as real / Unit(scale) as real >= 100.0 <==> value >= 100 * Unit(scale)
    ensures value as real / Unit(scale) as real >= 10.0 <==> value >= 10 * Unit(scale)
  {
    match scale
    case Units =>
    case Thousands =>
    case Millions =>
    case Billions =>
  }

  /** The number of digits of a number below 1000. */
  lemma DecimalLength(k: nat)
    requires k < 1000
    ensures |Decimal(k)| == if k < 10 then 1 else if k < 100 then 2 else 3
  {
    if k >= 10 {
      assert |Decimal(k)| == |Decimal(k / 10)| + 1;
      if k >= 100 {
        assert |Decimal(k / 10)| == |Decimal(k / 10 / 10)| + 1;
      }
    }
  }

  /** "3 significant figures": for an amount from £1 up to £1000b, the digits before the
      point of the scaled amount and the decimals after it add up to three. */
  lemma ThreeSignificantFigures(value: int)
    requires 1 <= value < 1000 * Unit(Billions)
    ensures FormatValue(value, true).Money?
    ensures var r := FormatValue(value, true);
      1 <= value / Unit(r.scale) < 1000 && |Decimal(value / Unit(r.scale))| + r.decimals == 3
  {
    var r := FormatValue(value, true);
    var k := value / Unit(r.scale);
    assert 1 <= k < 1000;
    DecimalLength(k);
    assert k >= 100 <==> value >= 100 * Unit(r.scale);
    assert k >= 10 <==> value >= 10 * Unit(r.scale);
  }

  /** The worked examples: `£0`, `£999`, `£1.50k`, `£12.0k`, `£250m`, `1,234`. */
  lemma Examples()
    ensures FormatValue(0, true) == Text("£0")
    ensures FormatValue(999, true) == Money(Units, 0)
    ensures FormatValue(1500, true) == Money(Thousands, 2)
    ensures FormatValue(12000, true) == Money(Thousands, 1)
    ensures FormatValue(250_000_000, true) == Money(Millions, 0)
    ensures FormatValue(1234, false) == Text("1,234")
  {
    assert Grouped(1234) == Grouped(1) + [','] + Pad3(234);
  }
}
