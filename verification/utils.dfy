/** The pure helpers of `Utils`: parameter validation and cleaning, month
    text parsing, month boundaries, HALF_UP rounding and the Brazilian
    decimal notation. */
module Utils {
  import opened Results
  import opened Text
  import opened Dates
  import opened Decimals
  import opened Seqs

  // ---------------------------------------------------------------------
  // validar / limpar
  // ---------------------------------------------------------------------

  /** `validar`: a missing parameter and a blank one are both rejected. */
  function Validar(valor: Option<string>): (r: Result<string>)
    ensures r.Ok? <==> valor.Some? && !IsBlank(valor.value)
    ensures r.Ok? ==> r.value == valor.value
    ensures valor.None? ==> r == Err(NullArgument)
    ensures valor.Some? && IsBlank(valor.value) ==> r == Err(BlankArgument)
  {
    if valor.None? then Err(NullArgument)
    else if IsBlank(valor.value) then Err(BlankArgument)
    else Ok(valor.value)
  }

  /** The characters the pattern `[^0-9/]` does not remove. */
  predicate IsDigitOrSlash(c: char) {
    IsDigit(c) || c == '/'
  }

  /** `limpar`: validates, keeps only ASCII digits and `/` (in order), and
      validates what is left. The length and slash-position checks of the
      source only write to the log, so they never reject anything here. */
  function Limpar(valor: Option<string>): (r: Result<string>)
    ensures r.Ok? ==> valor.Some? && r.value != []
    ensures r.Ok? ==> forall i :: 0 <= i < |r.value| ==> IsDigitOrSlash(r.value[i])
    ensures r.Ok? ==> forall c :: IsDigitOrSlash(c) ==> multiset(r.value)[c] == multiset(valor.value)[c]
    ensures r.Err? <==> valor.None? || IsBlank(valor.value) || forall c :: c in valor.value ==> !IsDigitOrSlash(c)
  {
    var v :- Validar(valor);
    var limpo := Filter(IsDigitOrSlash, v);
    forall c | IsDigitOrSlash(c) ensures multiset(limpo)[c] == multiset(v)[c] {
      FilterMultiset(IsDigitOrSlash, v, c);
    }
    FilterEmpty(IsDigitOrSlash, v);
    assert limpo == [] <==> forall c :: c in v ==> !IsDigitOrSlash(c);
    assert IsBlank(limpo) <==> limpo == [] by {
      if limpo != [] {
        assert !IsJavaWhitespace(limpo[0]);
      }
    }
    var _ :- Validar(Some(limpo));
    Ok(limpo)
  }

  /** Every non-empty string of digits and slashes passes `limpar` unchanged,
      whatever its length and wherever its slashes are. */
  lemma LimparAcceptsAnyShape(t: string)
    requires t != [] && forall i :: 0 <= i < |t| ==> IsDigitOrSlash(t[i])
    ensures Limpar(Some(t)) == Ok(t)
  {
    assert !IsJavaWhitespace(t[0]);
    FilterAll(IsDigitOrSlash, t);
  }

  /** Cleaning twice is cleaning once. */
  lemma LimparIdempotent(valor: Option<string>)
    requires Limpar(valor).Ok?
    ensures Limpar(Some(Limpar(valor).value)) == Limpar(valor)
  {
    LimparAcceptsAnyShape(Limpar(valor).value);
  }

  /** For a non-blank input, `limpar` is the filtered text unless nothing
      is left. */
  lemma LimparNonBlank(s: string)
    requires !IsBlank(s)
    ensures Limpar(Some(s)) ==
      var f := Filter(IsDigitOrSlash, s);
      if f == [] then Err(BlankArgument) else Ok(f)
  {
    var f := Filter(IsDigitOrSlash, s);
    if f != [] {
      assert !IsJavaWhitespace(f[0]);
    }
  }

  /** The cleaned text is the input with every other character deleted, so
      it follows the input's order: cleaning a concatenation concatenates
      the cleaned parts. */
  lemma LimparFollowsInputOrder(a: string, b: string)
    requires Limpar(Some(a)).Ok? && Limpar(Some(b)).Ok?
    ensures Limpar(Some(a + b)) == Ok(Limpar(Some(a)).value + Limpar(Some(b)).value)
  {
    assert !IsBlank(a) && !IsBlank(b);
    var k :| 0 <= k < |a| && !IsJavaWhitespace(a[k]);
    assert (a + b)[k] == a[k];
    LimparNonBlank(a);
    LimparNonBlank(b);
    LimparNonBlank(a + b);
    FilterAppend(IsDigitOrSlash, a, b);
  }

  lemma FilterDropsSeparator(a: string, sep: char, b: string)
    requires AllDigits(a) && AllDigits(b) && !IsDigitOrSlash(sep)
    ensures Filter(IsDigitOrSlash, a + [sep] + b) == a + b
  {
    FilterAll(IsDigitOrSlash, a);
    FilterAll(IsDigitOrSlash, b);
    FilterEmpty(IsDigitOrSlash, [sep]);
    FilterAppend(IsDigitOrSlash, a, [sep]);
    assert Filter(IsDigitOrSlash, a + [sep]) == a;
    FilterAppend(IsDigitOrSlash, a + [sep], b);
  }

  /** A separator that is neither digit nor slash disappears between two
      digit runs. */
  lemma LimparDropsSeparator(a: string, sep: char, b: string)
    requires AllDigits(a) && AllDigits(b) && a != [] && !IsDigitOrSlash(sep)
    ensures Limpar(Some(a + [sep] + b)) == Ok(a + b)
  {
    var s := a + [sep] + b;
    assert s[0] == a[0] && IsDigit(a[0]);
    assert !IsJavaWhitespace(s[0]);
    FilterDropsSeparator(a, sep, b);
    LimparNonBlank(s);
  }

  // ---------------------------------------------------------------------
  // Month labels
  // ---------------------------------------------------------------------

  /** `YearMonth.of(year, month).atDay(1)` for a parsed four-digit year of
      era: month-of-year must be 1..12 and year-of-era at least 1. */
  function AtDayOne(year: nat, month: nat): (r: Result<Date>)
    ensures r.Ok? <==> 1 <= month <= 12 && year >= 1
    ensures r.Ok? ==> r.value == Date(year, month, 1)
  {
    if 1 <= month <= 12 && year >= 1 then Ok(Date(year, month, 1)) else Err(DateParse)
  }

  /** `YearMonth.parse(limpo, ofPattern("MM/yyyy"))` on cleaned text: exactly
      two month digits, a slash, exactly four year digits. */
  function ParseMesAnoText(limpo: string): Result<Date> {
    if |limpo| == 7 && limpo[2] == '/' && AllDigits(limpo[..2]) && AllDigits(limpo[3..]) then
      AtDayOne(DigitsValue(limpo[3..]), DigitsValue(limpo[..2]))
    else Err(DateParse)
  }

  /** `YearMonth.parse(limpo, ofPattern("yyyy/MM"))` on cleaned text. */
  function ParseAnoMesText(limpo: string): Result<Date> {
    if |limpo| == 7 && limpo[4] == '/' && AllDigits(limpo[..4]) && AllDigits(limpo[5..]) then
      AtDayOne(DigitsValue(limpo[..4]), DigitsValue(limpo[5..]))
    else Err(DateParse)
  }

  /** `parseMesAno`: day 1 of the month an `MM/yyyy` text names. */
  function ParseMesAno(mesAno: Option<string>): (r: Result<Date>)
    ensures r.Ok? ==> ValidDate(r.value) && r.value.day == 1 && 1 <= r.value.year <= 9999
  {
    var limpo :- Limpar(mesAno);
    var r := ParseMesAnoText(limpo);
    if r.Ok? then
      DigitsBound(limpo[3..]);
      assert Pow10(4) == 10000;
      r
    else r
  }

  /** `parseAnoMes`: day 1 of the month a `yyyy/MM` text names. */
  function ParseAnoMes(anoMes: Option<string>): (r: Result<Date>)
    ensures r.Ok? ==> ValidDate(r.value) && r.value.day == 1 && 1 <= r.value.year <= 9999
  {
    var limpo :- Limpar(anoMes);
    var r := ParseAnoMesText(limpo);
    if r.Ok? then
      DigitsBound(limpo[..4]);
      assert Pow10(4) == 10000;
      r
    else r
  }

  /** `LocalDate.parse(limpo, ofPattern("yyyy-MM-dd"))` on cleaned text. */
  function ParseIsoDateText(limpo: string): (r: Result<Date>)
    ensures r.Ok? ==> |limpo| == 10 && limpo[4] == '-'
  {
    if |limpo| == 10 && limpo[4] == '-' && limpo[7] == '-'
      && AllDigits(limpo[..4]) && AllDigits(limpo[5..7]) && AllDigits(limpo[8..])
    then
      var d := Date(DigitsValue(limpo[..4]), DigitsValue(limpo[5..7]), DigitsValue(limpo[8..]));
      if 1 <= d.month <= 12 && 1 <= d.day <= LengthOfMonth(d.year, d.month) && d.year >= 1
      then Ok(d) else Err(DateParse)
    else Err(DateParse)
  }

  /** `parseIsoDate`: the ISO pattern needs two hyphens, and `limpar` has
      already removed every hyphen, so this parse can never succeed. */
  function ParseIsoDate(isoDate: Option<string>): (r: Result<Date>)
    ensures r.Err?
  {
    var limpo :- Limpar(isoDate);
    ParseIsoDateText(limpo)
  }

  /** The canonical `MM/yyyy` text of a month. */
  function MesAnoLabel(year: nat, month: nat): string {
    PadNat(month, 2) + "/" + PadNat(year, 4)
  }

  /** The canonical `yyyy/MM` text of a month. */
  function AnoMesLabel(year: nat, month: nat): string {
    PadNat(year, 4) + "/" + PadNat(month, 2)
  }

  /** The canonical `yyyy-MM` text of a month (ISO 8601). */
  function IsoMonthLabel(year: nat, month: nat): string {
    PadNat(year, 4) + "-" + PadNat(month, 2)
  }

  /** Two digit strings of the same length with the same value are equal. */
  lemma {:induction false} DigitsValueInjective(a: string, b: string)
    requires AllDigits(a) && AllDigits(b) && |a| == |b|
    requires DigitsValue(a) == DigitsValue(b)
    ensures a == b
    decreases |a|
  {
    if a != [] {
      var a', b' := a[..|a| - 1], b[..|b| - 1];
      var x, y := DigitValue(a[|a| - 1]), DigitValue(b[|b| - 1]);
      assert DigitsValue(a) == DigitsValue(a') * 10 + x;
      assert DigitsValue(b) == DigitsValue(b') * 10 + y;
      assert x == y && DigitsValue(a') == DigitsValue(b');
      DigitsValueInjective(a', b');
      assert a[|a| - 1] == b[|b| - 1];
      assert a == a' + [a[|a| - 1]] && b == b' + [b[|b| - 1]];
    }
  }

  /** A digit string of width `w` is the padded rendering of its value. */
  lemma PadNatCanonical(t: string, w: nat)
    requires AllDigits(t) && |t| == w && w >= 1
    ensures PadNat(DigitsValue(t), w) == t
  {
    var n := DigitsValue(t);
    DigitsBound(t);
    NatToStringLength(n, w);
    PadNatValue(n, w);
    DigitsValueInjective(PadNat(n, w), t);
  }

  lemma PadNatWidth(n: nat, w: nat)
    requires w >= 1 && n < Pow10(w)
    ensures |PadNat(n, w)| == w
  {
    NatToStringLength(n, w);
  }

  lemma LabelDigits(a: string, sep: char, b: string)
    requires AllDigits(a) && AllDigits(b)
    ensures (a + [sep] + b)[..|a|] == a && (a + [sep] + b)[|a| + 1..] == b
    ensures (a + [sep] + b)[|a|] == sep
    ensures forall i :: 0 <= i < |a + [sep] + b| && i != |a| ==> IsDigit((a + [sep] + b)[i])
  {
    var s := a + [sep] + b;
    forall i | 0 <= i < |s| && i != |a| ensures IsDigit(s[i]) {
      if i < |a| {
        assert s[i] == a[i];
      } else {
        assert s[i] == b[i - |a| - 1];
      }
    }
  }

  /** The widths and values of the two padded fields of a month label. */
  lemma LabelFields(year: nat, month: nat)
    requires 1 <= year <= 9999 && 1 <= month <= 12
    ensures |PadNat(month, 2)| == 2 && |PadNat(year, 4)| == 4
    ensures DigitsValue(PadNat(month, 2)) == month && DigitsValue(PadNat(year, 4)) == year
  {
    assert Pow10(2) == 100 && Pow10(4) == 10000;
    PadNatWidth(month, 2);
    PadNatWidth(year, 4);
    PadNatValue(month, 2);
    PadNatValue(year, 4);
  }

  lemma ParseMesAnoTextFields(mm: string, yyyy: string)
    requires AllDigits(mm) && AllDigits(yyyy) && |mm| == 2 && |yyyy| == 4
    ensures ParseMesAnoText(mm + "/" + yyyy) == AtDayOne(DigitsValue(yyyy), DigitsValue(mm))
  {
    LabelDigits(mm, '/', yyyy);
  }

  lemma ParseAnoMesTextFields(yyyy: string, mm: string)
    requires AllDigits(mm) && AllDigits(yyyy) && |mm| == 2 && |yyyy| == 4
    ensures ParseAnoMesText(yyyy + "/" + mm) == AtDayOne(DigitsValue(yyyy), DigitsValue(mm))
  {
    LabelDigits(yyyy, '/', mm);
  }

  lemma LabelPassesLimpar(a: string, b: string)
    requires AllDigits(a) && AllDigits(b) && a != []
    ensures Limpar(Some(a + "/" + b)) == Ok(a + "/" + b)
  {
    LabelDigits(a, '/', b);
    LimparAcceptsAnyShape(a + "/" + b);
  }

  /** Parsing the `MM/yyyy` text of a month gives day 1 of that month. */
  lemma ParseMesAnoRoundTrip(year: nat, month: nat)
    requires 1 <= year <= 9999 && 1 <= month <= 12
    ensures ParseMesAno(Some(MesAnoLabel(year, month))) == Ok(Date(year, month, 1))
  {
    LabelFields(year, month);
    LabelPassesLimpar(PadNat(month, 2), PadNat(year, 4));
    ParseMesAnoTextFields(PadNat(month, 2), PadNat(year, 4));
  }

  /** Parsing the `yyyy/MM` text of a month gives day 1 of that month. */
  lemma ParseAnoMesRoundTrip(year: nat, month: nat)
    requires 1 <= year <= 9999 && 1 <= month <= 12
    ensures ParseAnoMes(Some(AnoMesLabel(year, month))) == Ok(Date(year, month, 1))
  {
    LabelFields(year, month);
    LabelPassesLimpar(PadNat(year, 4), PadNat(month, 2));
    ParseAnoMesTextFields(PadNat(year, 4), PadNat(month, 2));
  }

  /** Conversely, the only texts `parseMesAno` accepts are those that clean
      to the canonical `MM/yyyy` text of the month they denote. */
  lemma ParseMesAnoOnlyCanonical(mesAno: Option<string>)
    requires ParseMesAno(mesAno).Ok?
    ensures var d := ParseMesAno(mesAno).value;
      Limpar(mesAno) == Ok(MesAnoLabel(d.year, d.month))
  {
    var limpo := Limpar(mesAno).value;
    PadNatCanonical(limpo[..2], 2);
    PadNatCanonical(limpo[3..], 4);
    assert limpo == limpo[..2] + "/" + limpo[3..];
  }

  /** Conversely for `parseAnoMes` and the `yyyy/MM` text. */
  lemma ParseAnoMesOnlyCanonical(anoMes: Option<string>)
    requires ParseAnoMes(anoMes).Ok?
    ensures var d := ParseAnoMes(anoMes).value;
      Limpar(anoMes) == Ok(AnoMesLabel(d.year, d.month))
  {
    var limpo := Limpar(anoMes).value;
    PadNatCanonical(limpo[..4], 4);
    PadNatCanonical(limpo[5..], 2);
    assert limpo == limpo[..4] + "/" + limpo[5..];
  }

  /** `parseMesAno` rejects a `yyyy/MM` text: its slash is at index 4. */
  lemma ParseMesAnoRejectsAnoMes(year: nat, month: nat)
    requires 1 <= year <= 9999 && 1 <= month <= 12
    ensures ParseMesAno(Some(AnoMesLabel(year, month))) == Err(DateParse)
  {
    LabelFields(year, month);
    var yyyy, mm := PadNat(year, 4), PadNat(month, 2);
    LabelPassesLimpar(yyyy, mm);
    LabelDigits(yyyy, '/', mm);
    assert AnoMesLabel(year, month)[2] == yyyy[2];
  }

  /** `parseAnoMes` rejects a `yyyy-MM` text: `limpar` strips the hyphen
      and leaves six digits with no slash. */
  lemma ParseAnoMesRejectsIsoMonth(year: nat, month: nat)
    requires 1 <= year <= 9999 && 1 <= month <= 12
    ensures ParseAnoMes(Some(IsoMonthLabel(year, month))) == Err(DateParse)
  {
    LabelFields(year, month);
    LimparDropsSeparator(PadNat(year, 4), '-', PadNat(month, 2));
  }

  // ---------------------------------------------------------------------
  // Month boundaries
  // ---------------------------------------------------------------------

  /** `isSameMonth`: same year and same month, i.e. neither month comes
      after the other. */
  predicate IsSameMonth(a: Date, b: Date): (r: bool)
    ensures r <==> MonthLe(a, b) && MonthLe(b, a)
  {
    a.year == b.year && a.month == b.month
  }

  /** `firstDayOfMonth`: the earliest date of the month. */
  function FirstDayOfMonth(d: Date): (r: Date)
    requires ValidDate(d)
    ensures ValidDate(r) && IsSameMonth(r, d) && r.day == 1
    ensures forall e :: ValidDate(e) && IsSameMonth(e, d) ==> DateLe(r, e)
  {
    d.(day := 1)
  }

  /** `lastDayOfMonth`: the latest date of the month, which is the 29th of
      February in a Gregorian leap year. */
  function LastDayOfMonth(d: Date): (r: Date)
    requires ValidDate(d)
    ensures ValidDate(r) && IsSameMonth(r, d)
    ensures forall e :: ValidDate(e) && IsSameMonth(e, d) ==> DateLe(e, r)
    ensures r.month == 2 ==> (r.day == 29 <==> IsLeapYear(r.year))
  {
    d.(day := LengthOfMonth(d.year, d.month))
  }

  /** Two calendar dates share a month exactly when they share a first day. */
  lemma SameMonthByFirstDay(a: Date, b: Date)
    requires ValidDate(a) && ValidDate(b)
    ensures IsSameMonth(a, b) <==> FirstDayOfMonth(a) == FirstDayOfMonth(b)
  {
  }

  /** Dates between the first day of one month and the last day of another
      are exactly the dates whose month lies between the two months. */
  lemma MonthWindow(a: Date, b: Date, e: Date)
    requires ValidDate(a) && ValidDate(b) && ValidDate(e)
    ensures DateLe(FirstDayOfMonth(a), e) && DateLe(e, LastDayOfMonth(b))
      <==> MonthLe(a, e) && MonthLe(e, b)
  {
  }

  // ---------------------------------------------------------------------
  // Numbers
  // ---------------------------------------------------------------------

  /** `round`: null stays null; otherwise `setScale(scale, HALF_UP)`. */
  function Round(value: Option<Decimal>, scale: int): (r: Option<Decimal>)
    ensures r.None? <==> value.None?
    ensures r.Some? ==> r.value.scale == scale
    ensures r.Some? && scale >= value.value.scale ==> SameValue(value.value, r.value)
    ensures r.Some? && scale < value.value.scale ==>
      IsHalfUpQuotient(value.value.unscaled, Pow10(value.value.scale - scale), r.value.unscaled)
  {
    if value.None? then None else Some(SetScaleHalfUp(value.value, scale))
  }

  /** 12.345 rounds to 12.35, 12.344 to 12.34, and -12.345 to -12.35. */
  lemma RoundExamples()
    ensures Round(Some(Decimal(12345, 3)), 2) == Some(Decimal(1235, 2))
    ensures Round(Some(Decimal(12344, 3)), 2) == Some(Decimal(1234, 2))
    ensures Round(Some(Decimal(-12345, 3)), 2) == Some(Decimal(-1235, 2))
    ensures Round(Some(Decimal(5, 0)), 2) == Some(Decimal(500, 2))
  {
    assert Pow10(1) == 10 && Pow10(2) == 100;
  }

  /** The normalisation `toBigDecimal` applies before conversion: trim, drop
      every `.`, then turn every `,` into `.`. */
  function NormalizeBrazilian(s: string): string {
    ReplaceAll(RemoveAll(Trim(s), '.'), ',', '.')
  }

  /** `toBigDecimal`: null or blank text gives null; otherwise the
      normalised text is converted by `new BigDecimal(String)`. */
  function ToBigDecimal(s: Option<string>): (r: Result<Option<Decimal>>)
    ensures r == Ok(None) <==> s.None? || IsBlank(s.value)
    ensures r.Ok? && r.value.Some? ==> ParseBigDecimal(NormalizeBrazilian(s.value)) == Ok(r.value.value)
    ensures s.Some? && !IsBlank(s.value) ==> (r.Ok? <==> ParseBigDecimal(NormalizeBrazilian(s.value)).Ok?)
    ensures r.Err? ==> r.error == NumberFormat
  {
    if s.None? || IsBlank(s.value) then Ok(None)
    else
      var parsed := ParseBigDecimal(NormalizeBrazilian(s.value));
      if parsed.Ok? then Ok(Some(parsed.value)) else Err(parsed.error)
  }

  /** Groups integer digits in threes from the right with `.`. */
  function GroupThousands(digits: string): (r: string)
    decreases |digits|
  {
    if |digits| <= 3 then digits
    else GroupThousands(digits[..|digits| - 3]) + "." + digits[|digits| - 3..]
  }

  /** Grouped integer digits, then `,` and the fraction when there is one. */
  function BrazilianNotation(intPart: string, fracPart: string): string {
    GroupThousands(intPart) + (if fracPart != [] then "," + fracPart else "")
  }

  /** The Brazilian notation of a decimal with a non-negative scale: `.`
      between thousands, `,` before the fraction ("1.234,56"). */
  function BrazilianString(d: Decimal): string
    requires d.scale >= 0
  {
    var digits := PadNat(Abs(d.unscaled), d.scale + 1);
    var intLen := |digits| - d.scale;
    (if d.unscaled < 0 then "-" else "") + BrazilianNotation(digits[..intLen], digits[intLen..])
  }

  lemma {:induction false} RemoveAllAppend(a: string, b: string, c: char)
    ensures RemoveAll(a + b, c) == RemoveAll(a, c) + RemoveAll(b, c)
    decreases |a|
  {
    if a != [] {
      var head := if a[0] == c then [] else [a[0]];
      assert (a + b)[0] == a[0];
      assert (a + b)[1..] == a[1..] + b;
      assert RemoveAll(a + b, c) == head + RemoveAll(a[1..] + b, c);
      RemoveAllAppend(a[1..], b, c);
      assert head + (RemoveAll(a[1..], c) + RemoveAll(b, c)) == (head + RemoveAll(a[1..], c)) + RemoveAll(b, c);
    } else {
      assert a + b == b;
    }
  }

  /** Grouping keeps a digit at both ends and adds no comma. */
  lemma {:induction false} GroupThousandsEnds(digits: string)
    requires AllDigits(digits) && digits != []
    ensures GroupThousands(digits) != []
    ensures IsDigit(GroupThousands(digits)[0])
    ensures IsDigit(GroupThousands(digits)[|GroupThousands(digits)| - 1])
    ensures ',' !in GroupThousands(digits)
    decreases |digits|
  {
    if |digits| > 3 {
      var front, back := digits[..|digits| - 3], digits[|digits| - 3..];
      assert AllDigits(front);
      GroupThousandsEnds(front);
      var g := GroupThousands(front);
      var r := g + "." + back;
      assert GroupThousands(digits) == r;
      assert r[0] == g[0];
      assert r[|r| - 1] == back[2] == digits[|digits| - 1];
      DigitsHaveNoSeparators(back);
      assert ',' !in r by {
        forall i | 0 <= i < |r| ensures r[i] != ',' {
          if i < |g| {
            assert r[i] == g[i];
          } else if i > |g| {
            assert r[i] == back[i - |g| - 1];
          }
        }
      }
    } else {
      DigitsHaveNoSeparators(digits);
    }
  }

  /** Dropping every `.` undoes the grouping. */
  lemma {:induction false} GroupThousandsRemovesDots(digits: string)
    requires AllDigits(digits)
    ensures RemoveAll(GroupThousands(digits), '.') == digits
    decreases |digits|
  {
    if |digits| > 3 {
      var front, back := digits[..|digits| - 3], digits[|digits| - 3..];
      assert digits == front + back;
      assert AllDigits(front);
      GroupThousandsRemovesDots(front);
      var g := GroupThousands(front);
      assert GroupThousands(digits) == (g + ".") + back;
      DigitsHaveNoSeparators(back);
      RemoveAllAppend(g + ".", back, '.');
      RemoveAllAppend(g, ".", '.');
      RemoveAllAbsent(back, '.');
      assert RemoveAll(".", '.') == [];
      assert RemoveAll(g + ".", '.') == front;
    } else {
      DigitsHaveNoSeparators(digits);
      RemoveAllAbsent(digits, '.');
    }
  }

  lemma GroupThousandsShape(digits: string)
    requires AllDigits(digits) && digits != []
    ensures GroupThousands(digits) != []
    ensures IsDigit(GroupThousands(digits)[0])
    ensures IsDigit(GroupThousands(digits)[|GroupThousands(digits)| - 1])
    ensures ',' !in GroupThousands(digits)
    ensures RemoveAll(GroupThousands(digits), '.') == digits
  {
    GroupThousandsEnds(digits);
    GroupThousandsRemovesDots(digits);
  }

  lemma ReplaceAllAppend(a: string, b: string, x: char, y: char)
    ensures ReplaceAll(a + b, x, y) == ReplaceAll(a, x, y) + ReplaceAll(b, x, y)
  {
    var l, r := ReplaceAll(a + b, x, y), ReplaceAll(a, x, y) + ReplaceAll(b, x, y);
    forall i | 0 <= i < |l| ensures l[i] == r[i] {
      if i >= |a| {
        assert (a + b)[i] == b[i - |a|];
      }
    }
  }

  lemma DigitsHaveNoSeparators(s: string)
    requires AllDigits(s)
    ensures '.' !in s && ',' !in s && '-' !in s
  {
    assert forall i :: 0 <= i < |s| ==> IsDigit(s[i]);
  }

  /** Dropping `.` undoes the grouping and leaves the comma. */
  lemma BrazilianWithoutDots(intPart: string, fracPart: string)
    requires AllDigits(intPart) && AllDigits(fracPart) && intPart != []
    ensures RemoveAll(BrazilianNotation(intPart, fracPart), '.')
      == intPart + (if fracPart != [] then "," + fracPart else "")
  {
    var tail := if fracPart != [] then "," + fracPart else "";
    GroupThousandsShape(intPart);
    DigitsHaveNoSeparators(fracPart);
    assert '.' !in tail;
    RemoveAllAppend(GroupThousands(intPart), tail, '.');
    RemoveAllAbsent(tail, '.');
  }

  /** Turning the comma into a point gives the plain notation. */
  lemma CommaToPoint(intPart: string, fracPart: string)
    requires AllDigits(intPart) && AllDigits(fracPart)
    ensures ReplaceAll(intPart + (if fracPart != [] then "," + fracPart else ""), ',', '.')
      == PointNotation(intPart, fracPart)
  {
    DigitsHaveNoSeparators(intPart);
    DigitsHaveNoSeparators(fracPart);
    var tail := if fracPart != [] then "," + fracPart else "";
    ReplaceAllAppend(intPart, tail, ',', '.');
    assert ReplaceAll(intPart, ',', '.') == intPart;
    if fracPart != [] {
      ReplaceAllAppend(",", fracPart, ',', '.');
      assert ReplaceAll(fracPart, ',', '.') == fracPart;
      assert ReplaceAll(",", ',', '.') == ".";
    }
  }

  /** The notation starts and ends with a digit, so `trim` keeps it and it
      is not blank. */
  lemma BrazilianEnds(sign: string, intPart: string, fracPart: string)
    requires sign == "" || sign == "-"
    requires AllDigits(intPart) && AllDigits(fracPart) && intPart != []
    ensures Trim(sign + BrazilianNotation(intPart, fracPart)) == sign + BrazilianNotation(intPart, fracPart)
    ensures !IsBlank(sign + BrazilianNotation(intPart, fracPart))
  {
    var n := BrazilianNotation(intPart, fracPart);
    NotationEnds(intPart, fracPart);
    var s := sign + n;
    assert s[0] == if sign == "-" then '-' else n[0];
    assert s[|s| - 1] == n[|n| - 1];
    assert !IsJavaWhitespace(s[0]);
    TrimNoOp(s);
  }

  lemma NotationEnds(intPart: string, fracPart: string)
    requires AllDigits(intPart) && AllDigits(fracPart) && intPart != []
    ensures var n := BrazilianNotation(intPart, fracPart);
      n != [] && IsDigit(n[0]) && IsDigit(n[|n| - 1])
  {
    GroupThousandsShape(intPart);
    var g := GroupThousands(intPart);
    if fracPart != [] {
      var n := g + ("," + fracPart);
      assert n[0] == g[0];
      assert n[|n| - 1] == fracPart[|fracPart| - 1];
    } else {
      assert BrazilianNotation(intPart, fracPart) == g;
    }
  }

  lemma SignedWithoutDots(sign: string, intPart: string, fracPart: string)
    requires sign == "" || sign == "-"
    requires AllDigits(intPart) && AllDigits(fracPart) && intPart != []
    ensures RemoveAll(sign + BrazilianNotation(intPart, fracPart), '.')
      == sign + (intPart + (if fracPart != [] then "," + fracPart else ""))
  {
    RemoveAllAppend(sign, BrazilianNotation(intPart, fracPart), '.');
    RemoveAllAbsent(sign, '.');
    BrazilianWithoutDots(intPart, fracPart);
  }

  lemma SignedCommaToPoint(sign: string, intPart: string, fracPart: string)
    requires sign == "" || sign == "-"
    requires AllDigits(intPart) && AllDigits(fracPart)
    ensures ReplaceAll(sign + (intPart + (if fracPart != [] then "," + fracPart else "")), ',', '.')
      == sign + PointNotation(intPart, fracPart)
  {
    ReplaceAllAppend(sign, intPart + (if fracPart != [] then "," + fracPart else ""), ',', '.');
    assert ReplaceAll(sign, ',', '.') == sign;
    CommaToPoint(intPart, fracPart);
  }

  lemma NormalizeSigned(sign: string, intPart: string, fracPart: string)
    requires sign == "" || sign == "-"
    requires AllDigits(intPart) && AllDigits(fracPart) && intPart != []
    ensures NormalizeBrazilian(sign + BrazilianNotation(intPart, fracPart))
      == sign + PointNotation(intPart, fracPart)
  {
    BrazilianEnds(sign, intPart, fracPart);
    SignedWithoutDots(sign, intPart, fracPart);
    SignedCommaToPoint(sign, intPart, fracPart);
  }

  /** Both renderings of a decimal are its sign followed by the same
      integer and fraction digits. */
  lemma DecimalParts(d: Decimal) returns (sign: string, intPart: string, fracPart: string)
    requires d.scale >= 0
    ensures sign == "" || sign == "-"
    ensures AllDigits(intPart) && AllDigits(fracPart) && intPart != []
    ensures BrazilianString(d) == sign + BrazilianNotation(intPart, fracPart)
    ensures PlainString(d) == sign + PointNotation(intPart, fracPart)
  {
    var digits := PadNat(Abs(d.unscaled), d.scale + 1);
    var intLen := |digits| - d.scale;
    sign := if d.unscaled < 0 then "-" else "";
    intPart, fracPart := digits[..intLen], digits[intLen..];
    assert |digits| >= d.scale + 1;
  }

  lemma BrazilianNormalizesToPlain(d: Decimal)
    requires d.scale >= 0
    ensures NormalizeBrazilian(BrazilianString(d)) == PlainString(d)
  {
    var sign, intPart, fracPart := DecimalParts(d);
    assert BrazilianString(d) == sign + BrazilianNotation(intPart, fracPart);
    assert PlainString(d) == sign + PointNotation(intPart, fracPart);
    NormalizeSigned(sign, intPart, fracPart);
  }

  /** The Brazilian rendering of a decimal is never blank. */
  lemma BrazilianNotBlank(d: Decimal)
    requires d.scale >= 0
    ensures !IsBlank(BrazilianString(d))
  {
    var sign, intPart, fracPart := DecimalParts(d);
    assert BrazilianString(d) == sign + BrazilianNotation(intPart, fracPart);
    BrazilianEnds(sign, intPart, fracPart);
  }

  /** A decimal written in Brazilian notation is read back by `toBigDecimal`
      as the very same decimal. */
  lemma BrazilianRoundTrip(d: Decimal)
    requires 0 <= d.scale <= IntMax
    ensures ToBigDecimal(Some(BrazilianString(d))) == Ok(Some(d))
  {
    BrazilianNormalizesToPlain(d);
    BrazilianNotBlank(d);
    PlainStringRoundTrip(d);
  }

  lemma Rendering123456()
    ensures NatToString(123456) == "123456"
  {
    assert NatToString(1) == "1";
    assert NatToString(12) == "12";
    assert NatToString(123) == "123";
    assert NatToString(1234) == "1234";
    assert NatToString(12345) == "12345";
  }

  /** "1.234,56" is 1234.56. */
  lemma ToBigDecimalGrouped()
    ensures ToBigDecimal(Some("1.234,56")) == Ok(Some(Decimal(123456, 2)))
  {
    var d := Decimal(123456, 2);
    Rendering123456();
    var digits := PadNat(123456, 3);
    assert digits == "123456";
    assert digits[..4] == "1234" && digits[4..] == "56";
    assert GroupThousands("1234") == "1" + "." + "234";
    assert BrazilianString(d) == "1.234,56";
    BrazilianRoundTrip(d);
  }

  lemma Normalize12Point5()
    ensures NormalizeBrazilian("12.5") == "125"
  {
    Trim12Point5();
    Dots12Point5();
    assert ReplaceAll("125", ',', '.') == "125";
  }

  lemma Dots12Point5()
    ensures RemoveAll("12.5", '.') == "125"
  {
    var s := "12.5";
    assert RemoveAll(s[3..], '.') == "5";
    assert RemoveAll(s[2..], '.') == "5";
    assert RemoveAll(s[1..], '.') == "25";
  }

  lemma Trim12Point5()
    ensures Trim("12.5") == "12.5"
  {
    TrimNoOp("12.5");
  }

  lemma Parse125()
    ensures ParseBigDecimal("125") == Ok(Decimal(125, 0))
  {
    var d := Decimal(125, 0);
    assert NatToString(12) == "12";
    assert NatToString(125) == "125";
    assert PadNat(125, 1) == "125";
    assert PlainString(d) == "125";
    PlainStringRoundTrip(d);
  }

  /** "12.5" is read as 125: every `.` is taken for a thousands separator. */
  lemma ToBigDecimalPointIsGrouping()
    ensures ToBigDecimal(Some("12.5")) == Ok(Some(Decimal(125, 0)))
  {
    NotBlank12Point5();
    Normalize12Point5();
    Parse125();
    ToBigDecimalOfParsed("12.5", Decimal(125, 0));
  }

  lemma NotBlank12Point5()
    ensures !IsBlank("12.5")
  {
    assert !IsJavaWhitespace("12.5"[0]);
  }

  /** Non-blank text whose normalised form parses is read as that value. */
  lemma ToBigDecimalOfParsed(s: string, d: Decimal)
    requires !IsBlank(s) && ParseBigDecimal(NormalizeBrazilian(s)) == Ok(d)
    ensures ToBigDecimal(Some(s)) == Ok(Some(d))
  {
  }

}
