/** `formatarPreco`: a price value rendered as Brazilian currency, `R$ 19.000,00`.
    The source formats the number with `,` thousands grouping and two decimals
    and then swaps `,` and `.` through three `replace` calls. */
module Money {
  import opened Digits
  import opened Text
  import opened JsonValues

  /** The number (-1)^negative * mantissa / 10^scale. `negative` is the sign bit
      Python's float keeps, so "-0.001" is a negative number that prints as "-0.00". */
  datatype Decimal = Decimal(negative: bool, mantissa: nat, scale: nat)

  /** What the source returns for a falsy or unparseable value. */
  const ZeroPrice: string := "R$ 0,00"

  /** Python's `float(s)` on a string, for plain decimal notation: an optional
      sign, digits, and optionally a point followed by digits, with at least one
      digit in all ("19000.0000", "-3", "7.", ".5"). Anything else is rejected. */
  function ParseDecimal(s: string): Option<Decimal> {
    var signed := |s| > 0 && (s[0] == '-' || s[0] == '+');
    var body := if signed then s[1..] else s;
    match ParseUnsigned(body)
    case None => None
    case Some((mantissa, scale)) => Some(Decimal(signed && s[0] == '-', mantissa, scale))
  }

  /** Digits with at most one point: the digits read as one number, and how
      many of them follow the point. */
  function ParseUnsigned(body: string): Option<(nat, nat)> {
    var parts := Split(body, '.');
    if |parts| == 1 && parts[0] != "" && AllDigits(parts[0]) then
      Some((DecimalValue(parts[0]), 0))
    else if |parts| == 2 && AllDigits(parts[0]) && AllDigits(parts[1]) && parts[0] + parts[1] != "" then
      DecimalValueAppend(parts[0], parts[1]);
      Some((DecimalValue(parts[0] + parts[1]), |parts[1]|))
    else
      None
  }

  /** The text of a decimal number: sign, whole digits and, when there are
      fraction digits, a point before them. */
  function DecimalText(negative: bool, whole: string, frac: string): string {
    (if negative then "-" else "") + UnsignedText(whole, frac)
  }

  function UnsignedText(whole: string, frac: string): string {
    whole + (if frac == "" then "" else "." + frac)
  }

  lemma ParseUnsignedText(whole: string, frac: string)
    requires AllDigits(whole) && AllDigits(frac) && whole + frac != ""
    ensures AllDigits(whole + frac)
    ensures ParseUnsigned(UnsignedText(whole, frac)) == Some((DecimalValue(whole + frac), |frac|))
  {
    DecimalValueAppend(whole, frac);
    PointFree(whole);
    PointFree(frac);
    if frac == "" {
      SplitNoSeparator(whole, '.');
      assert UnsignedText(whole, frac) == whole;
      assert whole + frac == whole;
    } else {
      PointLayout(whole, frac);
      SplitTwo(whole, '.', frac);
    }
  }

  lemma PointFree(digits: string)
    requires AllDigits(digits)
    ensures '.' !in digits
  {
    assert forall k :: 0 <= k < |digits| ==> IsDigit(digits[k]);
  }

  lemma PointLayout(whole: string, frac: string)
    requires frac != ""
    ensures UnsignedText(whole, frac) == whole + ['.'] + frac
  {
  }

  /** Parsing recovers the number a decimal text was written from. */
  lemma ParseDecimalText(negative: bool, whole: string, frac: string)
    requires AllDigits(whole) && AllDigits(frac) && whole + frac != ""
    ensures AllDigits(whole + frac)
    ensures ParseDecimal(DecimalText(negative, whole, frac))
         == Some(Decimal(negative, DecimalValue(whole + frac), |frac|))
  {
    ParseUnsignedText(whole, frac);
    UnsignedTextStart(whole, frac);
    ParseSigned(negative, UnsignedText(whole, frac));
  }

  /** A decimal text without sign starts with a digit or the point. */
  lemma UnsignedTextStart(whole: string, frac: string)
    requires AllDigits(whole) && whole + frac != ""
    ensures var body := UnsignedText(whole, frac); body != [] && body[0] != '-' && body[0] != '+'
  {
    var body := UnsignedText(whole, frac);
    if whole != "" {
      assert body[0] == whole[0] && IsDigit(whole[0]);
    } else {
      assert body[0] == '.';
    }
  }

  /** A leading '-' only sets the sign; the rest is parsed as it stands. */
  lemma ParseSigned(negative: bool, body: string)
    requires body != [] && body[0] != '-' && body[0] != '+'
    ensures var s := (if negative then "-" else "") + body;
      ParseDecimal(s) == match ParseUnsigned(body)
        case None => None
        case Some((mantissa, scale)) => Some(Decimal(negative, mantissa, scale))
  {
    var s := (if negative then "-" else "") + body;
    if negative {
      assert s[0] == '-' && s[1..] == body;
    } else {
      assert s == body;
    }
  }

  function Dist(a: int, b: int): nat {
    if a >= b then a - b else b - a
  }

  /** `m / unit` rounded to the nearest integer, ties to even. */
  function RoundHalfEven(m: nat, unit: nat): nat
    requires unit > 0
  {
    var q := m / unit;
    var rest := m % unit;
    if 2 * rest > unit || (2 * rest == unit && q % 2 == 1) then q + 1 else q
  }

  /** The number of cents Python's `:.2f` prints: the value rounded to the
      nearest hundredth, ties to an even last digit. */
  function Cents(d: Decimal): nat {
    if d.scale <= 2 then d.mantissa * Pow10(2 - d.scale)
    else RoundHalfEven(d.mantissa, Pow10(d.scale - 2))
  }

  lemma RoundHalfEvenNearest(m: nat, unit: nat)
    requires unit > 0
    ensures 2 * Dist(RoundHalfEven(m, unit) * unit, m) <= unit
    ensures 2 * Dist(RoundHalfEven(m, unit) * unit, m) == unit ==> RoundHalfEven(m, unit) % 2 == 0
  {
    var q := m / unit;
    var rest := m % unit;
    assert m == q * unit + rest && 0 <= rest < unit;
    var c := RoundHalfEven(m, unit);
    if c == q {
      assert Dist(c * unit, m) == rest;
    } else {
      assert c * unit == q * unit + unit;
      assert Dist(c * unit, m) == unit - rest;
    }
  }

  lemma DistScale(a: int, b: int, k: nat)
    ensures Dist(a * k, b * k) == Dist(a, b) * k
  {
    if a >= b {
      assert a * k - b * k == (a - b) * k;
    } else {
      assert b * k - a * k == (b - a) * k;
    }
  }

  /** `Cents(d)` hundredths lie within half a cent of `d`'s magnitude, and on
      an exact tie the last cent digit is even. */
  lemma CentsNearestEven(d: Decimal)
    ensures 2 * Dist(Cents(d) * Pow10(d.scale), d.mantissa * 100) <= Pow10(d.scale)
    ensures 2 * Dist(Cents(d) * Pow10(d.scale), d.mantissa * 100) == Pow10(d.scale) ==> Cents(d) % 2 == 0
  {
    if d.scale <= 2 {
      CentsExact(d);
    } else {
      CentsRounded(d);
    }
  }

  /** With at most two decimals no rounding happens. */
  lemma CentsExact(d: Decimal)
    requires d.scale <= 2
    ensures Cents(d) * Pow10(d.scale) == d.mantissa * 100
  {
    var c, m, p := Cents(d), d.mantissa, Pow10(d.scale);
    var k := Pow10(2 - d.scale);
    Pow10Add(d.scale, 2 - d.scale);
    assert Pow10(2) == 100;
    assert k * p == 100;
    assert c == m * k;
    calc {
      c * p;
      (m * k) * p;
      m * (k * p);
      m * 100;
    }
  }

  lemma CentsRounded(d: Decimal)
    requires d.scale > 2
    ensures 2 * Dist(Cents(d) * Pow10(d.scale), d.mantissa * 100) <= Pow10(d.scale)
    ensures 2 * Dist(Cents(d) * Pow10(d.scale), d.mantissa * 100) == Pow10(d.scale) ==> Cents(d) % 2 == 0
  {
    var unit := Pow10(d.scale - 2);
    Pow10Add(d.scale - 2, 2);
    assert Pow10(2) == 100;
    RoundHalfEvenNearest(d.mantissa, unit);
    ScaledDist(Cents(d), d.mantissa, unit, Pow10(d.scale));
  }

  /** Measuring in hundredths multiplies every distance by a hundred. */
  lemma ScaledDist(c: nat, m: nat, unit: nat, p: nat)
    requires p == unit * 100
    ensures Dist(c * p, m * 100) == 100 * Dist(c * unit, m)
  {
    assert c * p == (c * unit) * 100;
    DistScale(c * unit, m, 100);
  }

  /** `n` written with a separator before every group of three digits, counting
      from the right, as Python's `,` format option does ("19,000", "1,234,567").
      It starts with a digit, so the leading group has one to three digits, and
      that digit is '0' only for zero ("0" but never ",123" or "0,123"). */
  function Grouped(n: nat, sep: char): (r: string)
    requires !IsDigit(sep)
    ensures GroupedShape(r, sep)
    ensures IsDigit(r[0]) && (r[0] == '0' ==> n == 0)
  {
    if n < 1000 then
      GroupBase(n, sep);
      NatToDecimal(n)
    else
      var g := Grouped(n / 1000, sep);
      var z := ZeroPad(n % 1000, 3);
      GroupStepShape(g, sep, z);
      assert (g + [sep] + z)[0] == g[0];
      g + [sep] + z
  }

  /** With its separators removed, a grouped number reads back as the number. */
  lemma {:induction false} GroupedReadsBack(n: nat, sep: char)
    requires !IsDigit(sep)
    ensures var digits := Remove(Grouped(n, sep), sep);
      digits != "" && AllDigits(digits) && DecimalValue(digits) == n
    decreases n
  {
    if n < 1000 {
      GroupBase(n, sep);
    } else {
      var g := Grouped(n / 1000, sep);
      var z := ZeroPad(n % 1000, 3);
      GroupedReadsBack(n / 1000, sep);
      GroupStepValue(g, sep, z);
      assert Grouped(n, sep) == g + [sep] + z;
      assert n == (n / 1000) * 1000 + n % 1000;
    }
  }

  /** Digits with `sep` at exactly the positions 4, 8, 12, ... counted from
      the right end: the separator stands before each group of three digits. */
  predicate GroupedShape(r: string, sep: char) {
    && |r| >= 1
    && (forall i :: 0 <= i < |r| ==> (r[i] == sep <==> (|r| - i) % 4 == 0))
    && (forall i :: 0 <= i < |r| ==> r[i] == sep || IsDigit(r[i]))
  }

  /** Below a thousand there is one group and no separator. */
  lemma GroupBase(n: nat, sep: char)
    requires n < 1000 && !IsDigit(sep)
    ensures GroupedShape(NatToDecimal(n), sep)
    ensures Remove(NatToDecimal(n), sep) == NatToDecimal(n)
  {
    var r := NatToDecimal(n);
    assert Pow10(3) == 1000;
    NatToDecimalLength(n, 3);
    ShortGroup(r, sep);
    RemoveAbsent(r, sep);
  }

  /** One to three digits form a single group. */
  lemma ShortGroup(r: string, sep: char)
    requires 1 <= |r| <= 3 && AllDigits(r) && !IsDigit(sep)
    ensures GroupedShape(r, sep) && sep !in r
  {
    forall i | 0 <= i < |r|
      ensures r[i] != sep && (|r| - i) % 4 != 0
    {
      assert IsDigit(r[i]);
      var k := |r| - i;
      assert k % 4 == k;
    }
  }

  /** One step of `Grouped`: a separator and three more digits keep the
      separators at every fourth position from the right. */
  lemma GroupStepShape(g: string, sep: char, z: string)
    requires !IsDigit(sep)
    requires GroupedShape(g, sep)
    requires |z| == 3 && AllDigits(z)
    ensures GroupedShape(g + [sep] + z, sep)
  {
    var r := g + [sep] + z;
    forall i | 0 <= i < |r|
      ensures (r[i] == sep <==> (|r| - i) % 4 == 0)
      ensures r[i] == sep || IsDigit(r[i])
    {
      if i < |g| {
        assert r[i] == g[i];
        assert |r| - i == (|g| - i) + 4;
      } else if i > |g| {
        assert r[i] == z[i - |g| - 1];
        assert 1 <= |r| - i <= 3;
      } else {
        assert |r| - i == 4;
      }
    }
  }

  /** One step of `Grouped`: with the separators removed, the three new digits
      are the low-order digits of the number. */
  lemma GroupStepValue(g: string, sep: char, z: string)
    requires !IsDigit(sep)
    requires AllDigits(Remove(g, sep))
    requires |z| == 3 && AllDigits(z)
    ensures Remove(g + [sep] + z, sep) == Remove(g, sep) + z
    ensures AllDigits(Remove(g + [sep] + z, sep))
    ensures DecimalValue(Remove(g + [sep] + z, sep)) == DecimalValue(Remove(g, sep)) * 1000 + DecimalValue(z)
  {
    RemoveAppend(g + [sep], z, sep);
    RemoveAppend(g, [sep], sep);
    assert Remove([sep], sep) == [] by { assert [sep][..0] == []; }
    assert sep !in z by { assert forall k :: 0 <= k < |z| ==> IsDigit(z[k]); }
    RemoveAbsent(z, sep);
    DecimalValueAppend(Remove(g, sep), z);
    assert Pow10(3) == 1000;
  }

  /** `s.replace(',', '_').replace('.', ',').replace('_', '.')`. */
  function SwapChain(s: string): string {
    ReplaceChar(ReplaceChar(ReplaceChar(s, ',', '_'), '.', ','), '_', '.')
  }

  /** The sign Python prints before a negative float. */
  function SignText(negative: bool): string {
    if negative then "-" else ""
  }

  /** Python's `f"{x:,.2f}"`: sign, comma-grouped whole part, point, two decimals. */
  function Fixed2(d: Decimal): string {
    var c := Cents(d);
    SignText(d.negative) + Grouped(c / 100, ',') + "." + ZeroPad(c % 100, 2)
  }

  /** The intended display: "R$ ", sign, whole part grouped with '.', a ','
      and exactly two decimals. */
  function BrazilianAmount(negative: bool, cents: nat): string {
    "R$ " + SignText(negative) + Grouped(cents / 100, '.') + "," + ZeroPad(cents % 100, 2)
  }

  /** Changing the separator of a grouped number changes nothing else. */
  lemma {:induction false} GroupedReplace(n: nat, a: char, b: char)
    requires !IsDigit(a) && !IsDigit(b)
    ensures ReplaceChar(Grouped(n, a), a, b) == Grouped(n, b)
    decreases n
  {
    if n < 1000 {
      assert a !in NatToDecimal(n) by {
        var s := NatToDecimal(n);
        assert forall k :: 0 <= k < |s| ==> IsDigit(s[k]);
      }
      ReplaceCharAbsent(NatToDecimal(n), a, b);
    } else {
      var z := ZeroPad(n % 1000, 3);
      GroupedReplace(n / 1000, a, b);
      ReplaceCharAppend(Grouped(n / 1000, a) + [a], z, a, b);
      ReplaceCharAppend(Grouped(n / 1000, a), [a], a, b);
      assert a !in z by { assert forall k :: 0 <= k < |z| ==> IsDigit(z[k]); }
      ReplaceCharAbsent(z, a, b);
    }
  }

  /** A character that is neither a digit nor the separator does not occur in a grouped number. */
  lemma GroupedLacks(n: nat, sep: char, c: char)
    requires !IsDigit(sep) && !IsDigit(c) && c != sep
    ensures c !in Grouped(n, sep)
  {
    var g := Grouped(n, sep);
    assert forall i :: 0 <= i < |g| ==> g[i] == sep || IsDigit(g[i]);
  }

  /** `replace` works piece by piece on "prefix, grouped number, mark, decimals". */
  lemma ReplaceLayout(pre: string, g: string, mark: char, z: string, a: char, b: char)
    ensures ReplaceChar(pre + g + [mark] + z, a, b)
         == ReplaceChar(pre, a, b) + ReplaceChar(g, a, b) + ReplaceChar([mark], a, b) + ReplaceChar(z, a, b)
  {
    ReplaceCharAppend(pre + g + [mark], z, a, b);
    ReplaceCharAppend(pre + g, [mark], a, b);
    ReplaceCharAppend(pre, g, a, b);
  }

  /** Characters `replace` leaves alone in a piece that holds none of ',', '.', '_'. */
  predicate Plain(t: string) {
    ',' !in t && '.' !in t && '_' !in t
  }

  /** `replace` on "prefix, number, mark, decimals" when it changes only the number. */
  lemma ReplaceInNumber(pre: string, g: string, mark: char, z: string, a: char, b: char, h: string)
    requires a !in pre && a !in z && ReplaceChar(g, a, b) == h
    requires ReplaceChar([mark], a, b) == [mark]
    ensures ReplaceChar(pre + g + [mark] + z, a, b) == pre + h + [mark] + z
  {
    ReplaceLayout(pre, g, mark, z, a, b);
    ReplaceCharAbsent(pre, a, b);
    ReplaceCharAbsent(z, a, b);
  }

  lemma SwapStep1(pre: string, n: nat, z: string)
    requires Plain(pre) && Plain(z)
    ensures ReplaceChar(pre + Grouped(n, ',') + ['.'] + z, ',', '_') == pre + Grouped(n, '_') + ['.'] + z
  {
    GroupedReplace(n, ',', '_');
    ReplaceCharAbsent(['.'], ',', '_');
    ReplaceInNumber(pre, Grouped(n, ','), '.', z, ',', '_', Grouped(n, '_'));
  }

  lemma SwapStep2(pre: string, n: nat, z: string)
    requires Plain(pre) && Plain(z)
    ensures ReplaceChar(pre + Grouped(n, '_') + ['.'] + z, '.', ',') == pre + Grouped(n, '_') + [','] + z
  {
    ReplaceLayout(pre, Grouped(n, '_'), '.', z, '.', ',');
    ReplaceCharAbsent(pre, '.', ',');
    ReplaceCharAbsent(z, '.', ',');
    GroupedLacks(n, '_', '.');
    ReplaceCharAbsent(Grouped(n, '_'), '.', ',');
  }

  lemma SwapStep3(pre: string, n: nat, z: string)
    requires Plain(pre) && Plain(z)
    ensures ReplaceChar(pre + Grouped(n, '_') + [','] + z, '_', '.') == pre + Grouped(n, '.') + [','] + z
  {
    GroupedReplace(n, '_', '.');
    ReplaceCharAbsent([','], '_', '.');
    ReplaceInNumber(pre, Grouped(n, '_'), ',', z, '_', '.', Grouped(n, '.'));
  }

  /** The three `replace` calls swap ',' and '.' in the formatted number (it
      holds no '_'), which turns Python's format into the Brazilian display. */
  lemma SwapChainIsBrazilian(d: Decimal)
    ensures SwapChain("R$ " + Fixed2(d)) == BrazilianAmount(d.negative, Cents(d))
  {
    var c := Cents(d);
    var pre := "R$ " + SignText(d.negative);
    var z := ZeroPad(c % 100, 2);
    var n := c / 100;
    Fixed2Layout(d);
    BrazilianLayout(d.negative, c);
    assert Plain(z) by { assert forall k :: 0 <= k < |z| ==> IsDigit(z[k]); }
    assert Plain(pre);
    SwapStep1(pre, n, z);
    SwapStep2(pre, n, z);
    SwapStep3(pre, n, z);
  }

  lemma Fixed2Layout(d: Decimal)
    ensures "R$ " + Fixed2(d)
         == ("R$ " + SignText(d.negative)) + Grouped(Cents(d) / 100, ',') + ['.'] + ZeroPad(Cents(d) % 100, 2)
  {
    var c := Cents(d);
    ConcatRegroup("R$ ", SignText(d.negative), Grouped(c / 100, ','), ".", ZeroPad(c % 100, 2));
  }

  lemma ConcatRegroup(p: string, a: string, g: string, m: string, z: string)
    ensures p + (a + g + m + z) == (p + a) + g + m + z
  {
  }

  lemma BrazilianLayout(negative: bool, c: nat)
    ensures BrazilianAmount(negative, c)
         == ("R$ " + SignText(negative)) + Grouped(c / 100, '.') + [','] + ZeroPad(c % 100, 2)
  {
  }

  /** Python's `float(v)` on a JSON value: booleans and integers convert, strings
      are parsed, anything else raises TypeError (`None` here). */
  function ToFloat(v: Json): Option<Decimal> {
    match v
    case JBool(b) => Some(Decimal(false, if b then 1 else 0, 0))
    case JInt(i) => Some(Decimal(i < 0, if i < 0 then -i else i, 0))
    case JStr(s) => ParseDecimal(s)
    case _ => None
  }

  /** `formatarPreco(valor)`: "R$ 0,00" for a falsy value or one `float`
      rejects; otherwise the value rounded to cents in Brazilian display. */
  function FormatarPreco(valor: Json): (r: string)
    ensures !Truthy(valor) || ToFloat(valor).None? ==> r == ZeroPrice
    ensures Truthy(valor) && ToFloat(valor).Some? ==>
      r == BrazilianAmount(ToFloat(valor).value.negative, Cents(ToFloat(valor).value))
  {
    if !Truthy(valor) then
      ZeroPrice
    else
      match ToFloat(valor)
      case None => ZeroPrice
      case Some(d) =>
        SwapChainIsBrazilian(d);
        SwapChain("R$ " + Fixed2(d))
  }

  /** The inverse of `BrazilianAmount`: reads the sign and the number of cents
      back from "R$ [-]d.ddd,dd", or fails on any other text. */
  function ReadBrazilianAmount(s: string): Option<(bool, nat)> {
    if |s| < 3 || s[..3] != "R$ " then
      None
    else
      var rest := s[3..];
      var negative := |rest| > 0 && rest[0] == '-';
      match ReadUnsignedAmount(if negative then rest[1..] else rest)
      case None => None
      case Some(cents) => Some((negative, cents))
  }

  /** "d.ddd,dd" read as a number of cents. */
  function ReadUnsignedAmount(body: string): Option<nat> {
    var parts := Split(body, ',');
    if |parts| != 2 then
      None
    else
      var whole := Remove(parts[0], '.');
      if whole != "" && AllDigits(whole) && |parts[1]| == 2 && AllDigits(parts[1]) then
        Some(DecimalValue(whole) * 100 + DecimalValue(parts[1]))
      else
        None
  }

  /** A grouped number, ',' and two digits read back as their cents. */
  lemma ReadUnsignedLayout(g: string, z: string)
    requires GroupedShape(g, '.') && Remove(g, '.') != "" && AllDigits(Remove(g, '.'))
    requires |z| == 2 && AllDigits(z)
    ensures ReadUnsignedAmount(g + [','] + z) == Some(DecimalValue(Remove(g, '.')) * 100 + DecimalValue(z))
  {
    CommaFree(g, z);
    SplitTwo(g, ',', z);
    var parts := Split(g + [','] + z, ',');
    assert |parts| == 2 && parts[0] == g && parts[1] == z;
  }

  lemma CommaFree(g: string, z: string)
    requires GroupedShape(g, '.') && AllDigits(z)
    ensures ',' !in g && ',' !in z
  {
    assert ',' !in g by { assert forall i :: 0 <= i < |g| ==> g[i] == '.' || IsDigit(g[i]); }
    assert ',' !in z by { assert forall k :: 0 <= k < |z| ==> IsDigit(z[k]); }
  }


  /** Reading "R$ " and a sign leaves the unsigned amount after them. */
  lemma ReadSigned(negative: bool, body: string)
    requires body != [] && body[0] != '-'
    ensures ReadBrazilianAmount("R$ " + SignText(negative) + body)
         == match ReadUnsignedAmount(body)
            case None => None
            case Some(cents) => Some((negative, cents))
  {
    var s := "R$ " + SignText(negative) + body;
    assert s[..3] == "R$ " && s[3..] == SignText(negative) + body;
    if negative {
      assert s[3..][1..] == body;
    } else {
      assert s[3..] == body;
    }
  }

  /** Reading "R$ ", a sign, a grouped number, ',' and two digits. */
  lemma ReadAmountLayout(negative: bool, g: string, z: string)
    requires GroupedShape(g, '.') && Remove(g, '.') != "" && AllDigits(Remove(g, '.'))
    requires |z| == 2 && AllDigits(z)
    ensures ReadBrazilianAmount("R$ " + SignText(negative) + g + [','] + z)
         == Some((negative, DecimalValue(Remove(g, '.')) * 100 + DecimalValue(z)))
  {
    ReadUnsignedLayout(g, z);
    AmountStart(g, z);
    ReadSigned(negative, g + [','] + z);
    AmountRegroup("R$ " + SignText(negative), g, z);
  }

  /** A grouped number starts with a digit or the separator, never with '-'. */
  lemma AmountStart(g: string, z: string)
    requires GroupedShape(g, '.')
    ensures var body := g + [','] + z; body != [] && body[0] != '-'
  {
    assert g[0] == '.' || IsDigit(g[0]);
    assert (g + [','] + z)[0] == g[0];
  }

  lemma AmountRegroup(pre: string, g: string, z: string)
    ensures pre + g + [','] + z == pre + (g + [','] + z)
  {
  }

  /** Round trip: the display reads back as the sign and cents it was made from. */
  lemma ReadBrazilianAmountInverts(negative: bool, cents: nat)
    ensures ReadBrazilianAmount(BrazilianAmount(negative, cents)) == Some((negative, cents))
  {
    var g := Grouped(cents / 100, '.');
    var z := ZeroPad(cents % 100, 2);
    assert Pow10(2) == 100;
    GroupedReadsBack(cents / 100, '.');
    ReadAmountLayout(negative, g, z);
    BrazilianLayout(negative, cents);
    CentsSplit(cents);
  }

  lemma CentsSplit(cents: nat)
    ensures cents / 100 * 100 + cents % 100 == cents
  {
  }

  /** "R$ 0,00" is the display of zero cents. */
  lemma ZeroPriceIsZeroAmount()
    ensures BrazilianAmount(false, 0) == ZeroPrice
  {
    ZeroGrouped();
    PadSample(0, "00");
    assert BrazilianAmount(false, 0) == "R$ " + "" + "0" + "," + "00";
  }

  lemma ZeroGrouped()
    ensures Grouped(0, '.') == "0"
  {
    assert NatToDecimal(0) == "0";
  }

  /** Text of the form "R$ ", then the amount, then ',' and exactly two
      decimal digits, with no other ','. */
  predicate DisplayShape(r: string) {
    && |r| >= 7 && r[..3] == "R$ "
    && r[|r| - 3] == ',' && IsDigit(r[|r| - 2]) && IsDigit(r[|r| - 1])
    && forall i :: 0 <= i < |r| && r[i] == ',' ==> i == |r| - 3
  }

  lemma BrazilianAmountShape(negative: bool, cents: nat)
    ensures DisplayShape(BrazilianAmount(negative, cents))
  {
    var g := Grouped(cents / 100, '.');
    var z := ZeroPad(cents % 100, 2);
    var pre := "R$ " + SignText(negative);
    var r := BrazilianAmount(negative, cents);
    assert r == pre + g + [','] + z;
    assert g != [];
    assert forall k :: 0 <= k < |z| ==> IsDigit(z[k]);
    assert forall k :: 0 <= k < |g| ==> g[k] == '.' || IsDigit(g[k]);
  }

  /** Every result, for any input, has the display shape: "R$ ", the amount,
      ',' and exactly two decimals. */
  lemma FormatarPrecoShape(valor: Json)
    ensures DisplayShape(FormatarPreco(valor))
  {
    if Truthy(valor) && ToFloat(valor).Some? {
      BrazilianAmountShape(ToFloat(valor).value.negative, Cents(ToFloat(valor).value));
    } else {
      ZeroPriceIsZeroAmount();
      BrazilianAmountShape(false, 0);
    }
  }

  lemma ParseSample()
    ensures ParseDecimal("19000.0000") == Some(Decimal(false, 190000000, 4))
  {
    assert DecimalText(false, "19000", "0000") == "19000.0000";
    SampleDigits();
    ParseDecimalText(false, "19000", "0000");
    DecimalValueAppend("19000", "0000");
    assert Pow10(4) == 10000;
  }

  lemma SampleDigits()
    ensures AllDigits("19000") && DecimalValue("19000") == 19000
    ensures AllDigits("0000") && DecimalValue("0000") == 0
  {
    WholeSampleDigits("19000");
    FracSampleDigits("0000");
  }

  lemma WholeSampleDigits(s: string)
    requires s == "19000"
    ensures AllDigits(s) && DecimalValue(s) == 19000
  {
    assert NatToDecimal(19000) == s;
  }

  lemma FracSampleDigits(s: string)
    requires s == "0000"
    ensures AllDigits(s) && DecimalValue(s) == 0
  {
    assert Pow10(4) == 10000;
    assert ZeroPad(0, 4) == s;
  }

  /** The fixture's amount, 19000 reais, displays as "R$ 19.000,00". */
  lemma DisplaySample(cents: nat)
    requires cents == 1900000
    ensures BrazilianAmount(false, cents) == "R$ 19.000,00"
  {
    var n := cents / 100;
    var m := cents % 100;
    assert n == 19000 && m == 0;
    GroupedSample(n, "19.000");
    PadSample(m, "00");
  }

  lemma GroupedSample(n: nat, g: string)
    requires n == 19000 && g == "19.000"
    ensures Grouped(n, '.') == g
  {
    GroupedSampleHead();
    GroupedSampleStep(n);
    ThreeZeros();
  }

  lemma GroupedSampleHead()
    ensures Grouped(19, '.') == "19"
  {
  }

  lemma GroupedSampleStep(n: nat)
    requires n == 19000
    ensures Grouped(n, '.') == Grouped(19, '.') + ['.'] + ZeroPad(0, 3)
  {
    assert n / 1000 == 19 && n % 1000 == 0;
  }

  lemma ThreeZeros()
    ensures ZeroPad(0, 3) == "000"
  {
    assert Pow10(3) == 1000;
  }

  lemma PadSample(m: nat, z: string)
    requires m == 0 && z == "00"
    ensures ZeroPad(m, 2) == z
  {
  }

  /** The sample price of the fixture renders as in the source's expected output. */
  lemma FormatarPrecoSample(v: Json)
    requires v == JStr("19000.0000")
    ensures FormatarPreco(v) == "R$ 19.000,00"
  {
    ParseSample();
    var d := Decimal(false, 190000000, 4);
    assert ToFloat(v) == Some(d);
    assert Pow10(2) == 100;
    CentsSample(d);
    DisplaySample(Cents(d));
  }

  lemma CentsSample(d: Decimal)
    requires d == Decimal(false, 190000000, 4)
    ensures Cents(d) == 1900000
  {
    assert Pow10(2) == 100;
  }

  /** A string `float` rejects formats as zero. */
  lemma FormatarPrecoUnparseable()
    ensures FormatarPreco(JStr("abc")) == ZeroPrice
  {
    assert Split("abc", '.') == ["abc"] by { SplitNoSeparator("abc", '.'); }
    assert !IsDigit('a');
  }
}
