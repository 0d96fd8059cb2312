/**
 * The normaliser (`backend/scripts/processor.py`): reads the raw quarterly
 * accounting files chunk by chunk, keeps the claims-expense line items,
 * cleans their amounts and consolidates them per operator and period.
 *
 * A raw file is modelled by its path and the chunks its CSV reader
 * delivers; cells are the text the reader produced.
 */
module Processor {
  import opened Text
  import opened Collections

  /**
   * One row of the consolidated expense file. The column named CNPJ holds
   * the operator's ANS registry number (the REG_ANS cell), not a tax id.
   */
  datatype Expense = Expense(cnpj: string, razaoSocial: string, trimestre: string, ano: string, valorDespesas: real)

  datatype Period = Period(ano: string, trimestre: string)

  // ---------------------------------------------------------------------------
  // Year and quarter from the file name (extrair_data_do_caminho)
  // ---------------------------------------------------------------------------

  /** `os.path.basename`: the longest suffix of `path` without a '/'. */
  function Basename(path: string): (name: string)
    ensures '/' !in name
    ensures |name| <= |path|
    ensures |name| < |path| ==> path[|path| - |name| - 1] == '/'
  {
    if |path| == 0 || path[|path| - 1] == '/' then ""
    else Basename(path[..|path| - 1]) + [path[|path| - 1]]
  }

  /** The regular expression `20\d{2}` matches at index `i`. */
  predicate YearAt(s: string, i: int) {
    0 <= i && i + 4 <= |s| && s[i] == '2' && s[i + 1] == '0' && IsDigit(s[i + 2]) && IsDigit(s[i + 3])
  }

  /** `re.search(r"20\d{2}", s)` started at `from`: the leftmost match, if any. */
  function FindYear(s: string, from: nat): (r: Option<nat>)
    decreases |s| - from
    ensures r.Some? ==> from <= r.value && YearAt(s, r.value)
    ensures r.Some? ==> forall j :: from <= j < r.value ==> !YearAt(s, j)
    ensures r.None? ==> forall j :: from <= j ==> !YearAt(s, j)
  {
    if from + 4 > |s| then None
    else if YearAt(s, from) then Some(from)
    else FindYear(s, from + 1)
  }

  /** The regular expression `(\d)T` matches at index `i`. */
  predicate QuarterAt(s: string, i: int) {
    0 <= i && i + 2 <= |s| && IsDigit(s[i]) && s[i + 1] == 'T'
  }

  /** `re.search(r"(\d)T", s)` started at `from`: the leftmost match, if any. */
  function FindQuarter(s: string, from: nat): (r: Option<nat>)
    decreases |s| - from
    ensures r.Some? ==> from <= r.value && QuarterAt(s, r.value)
    ensures r.Some? ==> forall j :: from <= j < r.value ==> !QuarterAt(s, j)
    ensures r.None? ==> forall j :: from <= j ==> !QuarterAt(s, j)
  {
    if from + 2 > |s| then None
    else if QuarterAt(s, from) then Some(from)
    else FindQuarter(s, from + 1)
  }

  /** The year of a base name: its leftmost "20dd", else "2025". */
  function YearOf(name: string): (ano: string)
    ensures |ano| == 4 && ano[0] == '2' && ano[1] == '0' && AllDigits(ano)
    ensures FindYear(name, 0).Some? ==>
      ano == name[FindYear(name, 0).value..FindYear(name, 0).value + 4]
    ensures FindYear(name, 0).None? ==> ano == "2025"
  {
    match FindYear(name, 0)
    case Some(i) =>
      var ano := name[i..i + 4];
      assert ano[0] == name[i] && ano[1] == name[i + 1] && ano[2] == name[i + 2] && ano[3] == name[i + 3];
      ano
    case None => "2025"
  }

  /** The quarter of a base name: the digit before its leftmost digit-then-'T', upper-cased, else "1". */
  function QuarterOf(name: string): (trimestre: string)
    ensures |trimestre| == 1 && IsDigit(trimestre[0])
    ensures FindQuarter(Upper(name), 0).Some? ==>
      trimestre == [name[FindQuarter(Upper(name), 0).value]]
    ensures FindQuarter(Upper(name), 0).None? ==> trimestre == "1"
  {
    var upper := Upper(name);
    match FindQuarter(upper, 0)
    case Some(i) =>
      assert IsDigit(upper[i]) && upper[i] == UpperChar(name[i]);
      [upper[i]]
    case None => "1"
  }

  /**
   * extrair_data_do_caminho: the year and the quarter of the file's base
   * name; each falls back to its default on its own.
   */
  function ExtractPeriod(path: string): (p: Period)
    ensures |p.ano| == 4 && p.ano[0] == '2' && p.ano[1] == '0' && AllDigits(p.ano)
    ensures |p.trimestre| == 1 && IsDigit(p.trimestre[0])
    ensures p.ano == YearOf(Basename(path)) && p.trimestre == QuarterOf(Basename(path))
  {
    var name := Basename(path);
    Period(YearOf(name), QuarterOf(name))
  }

  /** The base name is the suffix of the path after its last '/'. */
  lemma {:induction false} BasenameIsSuffix(path: string)
    ensures Basename(path) == path[|path| - |Basename(path)|..]
  {
    if |path| > 0 && path[|path| - 1] != '/' {
      var init := path[..|path| - 1];
      BasenameIsSuffix(init);
      assert path[|path| - |Basename(path)|..] == init[|init| - |Basename(init)|..] + [path[|path| - 1]];
    }
  }

  /** A path without '/' is its own base name. */
  lemma {:induction false} BasenameOfName(name: string)
    requires '/' !in name
    ensures Basename(name) == name
  {
    if |name| > 0 {
      BasenameOfName(name[..|name| - 1]);
    }
  }

  /** The directories in front of the base name are ignored. */
  lemma {:induction false} BasenameOfJoin(dir: string, name: string)
    requires '/' !in name
    ensures Basename(dir + "/" + name) == name
  {
    var path := dir + "/" + name;
    if |name| > 0 {
      assert path[..|path| - 1] == dir + "/" + name[..|name| - 1];
      BasenameOfJoin(dir, name[..|name| - 1]);
    }
  }

  /** Only the base name matters for the period. */
  lemma PeriodIgnoresDirectories(dir: string, name: string)
    requires '/' !in name
    ensures ExtractPeriod(dir + "/" + name) == ExtractPeriod(name)
  {
    BasenameOfJoin(dir, name);
    BasenameOfName(name);
  }

  /**
   * The period of a file is the leftmost "20dd" of its base name and the
   * digit of the leftmost digit-then-'T' of the upper-cased base name,
   * wherever the file lies.
   */
  lemma PeriodOfName(dir: string, name: string, i: nat, k: nat)
    requires '/' !in name
    requires YearAt(name, i) && forall j :: 0 <= j < i ==> !YearAt(name, j)
    requires QuarterAt(Upper(name), k) && forall j :: 0 <= j < k ==> !QuarterAt(Upper(name), j)
    ensures ExtractPeriod(dir + "/" + name) == Period(name[i..i + 4], [name[k]])
  {
    PeriodIgnoresDirectories(dir, name);
    BasenameOfName(name);
    assert FindYear(name, 0) == Some(i);
    assert FindQuarter(Upper(name), 0) == Some(k);
  }

  /** Two strings with the same upper-case form hold the same digits at the same places. */
  lemma SameUpperSameDigits(a: string, b: string)
    requires Upper(a) == Upper(b)
    ensures |a| == |b|
    ensures forall j :: 0 <= j < |a| && (IsDigit(a[j]) || IsDigit(b[j])) ==> a[j] == b[j]
  {
    forall j | 0 <= j < |a| && (IsDigit(a[j]) || IsDigit(b[j])) ensures a[j] == b[j] {
      assert Upper(a)[j] == Upper(b)[j];
    }
  }

  lemma {:induction false} FindYearSame(a: string, b: string, from: nat)
    requires |a| == |b| && forall j :: YearAt(a, j) <==> YearAt(b, j)
    ensures FindYear(a, from) == FindYear(b, from)
    decreases |a| - from
  {
    if from + 4 <= |a| && !YearAt(a, from) {
      FindYearSame(a, b, from + 1);
    }
  }

  lemma YearOfSameUpper(a: string, b: string)
    requires Upper(a) == Upper(b)
    ensures YearOf(a) == YearOf(b)
  {
    SameUpperSameDigits(a, b);
    forall j ensures YearAt(a, j) <==> YearAt(b, j) {
      if 0 <= j && j + 4 <= |a| {
        assert IsDigit('2') && IsDigit('0');
      }
    }
    FindYearSame(a, b, 0);
    var r := FindYear(a, 0);
    if r.Some? {
      var i := r.value;
      assert a[i..i + 4] == b[i..i + 4];
    }
  }

  /** The year and the quarter do not depend on the case of the file name. */
  lemma PeriodIsCaseInsensitive(a: string, b: string)
    requires '/' !in a && '/' !in b
    requires Upper(a) == Upper(b)
    ensures ExtractPeriod(a) == ExtractPeriod(b)
  {
    BasenameOfName(a);
    BasenameOfName(b);
    YearOfSameUpper(a, b);
    assert QuarterOf(a) == QuarterOf(b);
    assert ExtractPeriod(a) == Period(YearOf(a), QuarterOf(a));
    assert ExtractPeriod(b) == Period(YearOf(b), QuarterOf(b));
  }

  // ---------------------------------------------------------------------------
  // Amount cleaning (limpar_valor)
  // ---------------------------------------------------------------------------

  /** The value of a string of decimal digits (0 for the empty string). */
  function NatValue(ds: string): nat
    requires AllDigits(ds)
  {
    if |ds| == 0 then 0 else NatValue(ds[..|ds| - 1]) * 10 + DigitValue(ds[|ds| - 1])
  }

  function Pow10(k: nat): (p: nat)
    ensures p >= 1
  {
    if k == 0 then 1 else 10 * Pow10(k - 1)
  }

  /** `x` with the decimal point moved `k` places to the left, one place at a time. */
  function Shifted(x: real, k: nat): (r: real)
    ensures x >= 0.0 ==> r >= 0.0
  {
    if k == 0 then x else Shifted(x, k - 1) / 10.0
  }

  /** Moving the point `k` places divides by 10^k. */
  lemma {:induction false} ShiftedIsDivision(x: real, k: nat)
    ensures Shifted(x, k) == x / Pow10(k) as real
  {
    if k > 0 {
      ShiftedIsDivision(x, k - 1);
      var p := Pow10(k - 1) as real;
      assert Pow10(k) as real == 10.0 * p;
      assert x / p / 10.0 == x / (10.0 * p);
    }
  }

  /** `s.find(c)`: the first index of `c`, if any. */
  function IndexOf(s: string, c: char): (r: Option<nat>)
    ensures r.Some? ==> r.value < |s| && s[r.value] == c && c !in s[..r.value]
    ensures r.None? ==> c !in s
  {
    if |s| == 0 then None
    else if s[0] == c then Some(0)
    else match IndexOf(s[1..], c)
      case Some(i) =>
        assert s[..i + 1] == [s[0]] + s[1..][..i];
        Some(i + 1)
      case None => None
  }

  /**
   * `float(s)` on an unsigned decimal literal: digits with at most one '.',
   * at least one digit in all; anything else does not parse.
   */
  function ParseUnsigned(s: string): (r: Option<real>)
    ensures r.Some? ==> r.value >= 0.0
    ensures |s| > 0 && AllDigits(s) ==> r == Some(NatValue(s) as real)
  {
    match IndexOf(s, '.')
    case None =>
      if |s| > 0 && AllDigits(s) then Some(NatValue(s) as real) else None
    case Some(i) =>
      var intPart, fracPart := s[..i], s[i + 1..];
      if AllDigits(intPart) && AllDigits(fracPart) && |intPart| + |fracPart| > 0
      then Some(NatValue(intPart) as real + Shifted(NatValue(fracPart) as real, |fracPart|))
      else None
  }

  /** Only a non-empty text of digits with at most one '.' reads as an unsigned number. */
  lemma ParsedTextShape(s: string)
    requires ParseUnsigned(s).Some?
    ensures |s| > 0 && forall x :: x in s ==> IsDigit(x) || x == '.'
    ensures forall i, j :: 0 <= i < j < |s| && s[i] == '.' ==> s[j] != '.'
  {
    match IndexOf(s, '.')
    case None =>
    case Some(k) =>
      var intPart, fracPart := s[..k], s[k + 1..];
      assert forall j :: 0 <= j < k ==> s[j] == intPart[j];
      assert forall j :: k < j < |s| ==> s[j] == fracPart[j - k - 1];
      assert forall x :: x in s ==> x in intPart || x == '.' || x in fracPart;
  }

  /** `float(s)` on a decimal literal with an optional sign. */
  function ParseDecimal(s: string): (r: Option<real>)
    ensures r.Some? && |s| > 0 && s[0] == '-' ==> r.value <= 0.0
    ensures (|s| == 0 || (s[0] != '-' && s[0] != '+')) ==> r == ParseUnsigned(s)
  {
    if |s| > 0 && s[0] == '-' then
      match ParseUnsigned(s[1..])
      case Some(x) => Some(-x)
      case None => None
    else if |s| > 0 && s[0] == '+' then ParseUnsigned(s[1..])
    else ParseUnsigned(s)
  }

  /** A leading '-' negates the unsigned reading and a leading '+' leaves it unchanged; neither makes a text parse. */
  lemma SignedParse(t: string)
    ensures ParseDecimal("+" + t) == ParseUnsigned(t)
    ensures ParseDecimal("-" + t).Some? <==> ParseUnsigned(t).Some?
    ensures ParseUnsigned(t).Some? ==> ParseDecimal("-" + t) == Some(-ParseUnsigned(t).value)
  {
    assert ("+" + t)[1..] == t && ("-" + t)[1..] == t;
  }

  /**
   * The separator rule: when both '.' and ',' occur, every '.' is a
   * thousands separator and is dropped; then every ',' becomes '.'.
   */
  function NormalizeSeparators(v: string): (r: string)
    ensures ',' !in r
    ensures ',' !in v ==> r == v
    ensures !('.' in v && ',' in v) ==>
      |r| == |v| && forall i :: 0 <= i < |v| ==> r[i] == (if v[i] == ',' then '.' else v[i])
    ensures '.' in v && ',' in v ==> |r| < |v|
  {
    if '.' in v && ',' in v then
      var w := RemoveChar(v, '.');
      assert |w| < |v| by {
        var k :| 0 <= k < |v| && v[k] == '.';
        RemoveCharShrinks(v, '.', k);
      }
      ReplaceChar(w, ',', '.')
    else ReplaceChar(v, ',', '.')
  }

  /**
   * With a comma present every point is a thousands separator: the text
   * normalises as it would with all its points removed, and that text
   * falls under the comma-to-point rule alone.
   */
  lemma PointsBeforeCommaDropped(v: string)
    requires ',' in v
    ensures '.' !in RemoveChar(v, '.')
    ensures NormalizeSeparators(v) == NormalizeSeparators(RemoveChar(v, '.'))
  {
  }

  lemma {:induction false} RemoveCharShrinks(s: string, c: char, k: nat)
    requires k < |s| && s[k] == c
    ensures |RemoveChar(s, c)| < |s|
  {
    if k > 0 {
      RemoveCharShrinks(s[1..], c, k - 1);
    }
  }

  /**
   * limpar_valor: never fails. After removing '"' and trimming, an empty
   * value or "nan" is 0.0; otherwise the separator rule is applied and a
   * value that does not parse is 0.0 as well.
   */
  function CleanAmount(cell: string): (valor: real)
    ensures var v := Strip(RemoveChar(cell, '"'));
      (v == "" || v == "nan" || ParseDecimal(NormalizeSeparators(v)).None?) ==> valor == 0.0
    ensures var v := Strip(RemoveChar(cell, '"'));
      v != "" && v != "nan" && ParseDecimal(NormalizeSeparators(v)).Some? ==>
        valor == ParseDecimal(NormalizeSeparators(v)).value
    ensures valor != 0.0 ==> ParseDecimal(NormalizeSeparators(Strip(RemoveChar(cell, '"')))) == Some(valor)
  {
    var v := Strip(RemoveChar(cell, '"'));
    if v == "" || v == "nan" then 0.0
    else match ParseDecimal(NormalizeSeparators(v))
      case Some(x) => x
      case None => 0.0
  }

  /** `str(n)` for a natural number: its decimal digits without leading zeros. */
  function NatText(n: nat): (s: string)
    ensures |s| > 0 && AllDigits(s)
    ensures |s| > 1 ==> s[0] != '0'
  {
    if n < 10 then [DigitChar(n)] else NatText(n / 10) + [DigitChar(n % 10)]
  }

  lemma {:induction false} NatValueOfText(n: nat)
    ensures NatValue(NatText(n)) == n
  {
    if n >= 10 {
      NatValueOfText(n / 10);
      var s := NatText(n);
      assert s[..|s| - 1] == NatText(n / 10);
    }
  }

  /** Trimming leaves alone a string that starts and ends with a non-space. */
  lemma StripKeeps(s: string)
    requires |s| > 0 && !IsSpace(s[0]) && !IsSpace(s[|s| - 1])
    ensures Strip(s) == s
  {
    assert TrimStart(s) == s;
  }

  /** Stripping and quote removal leave a plain number unchanged. */
  lemma PlainNumberIsClean(s: string)
    requires |s| > 0 && AllDigits(s)
    ensures Strip(RemoveChar(s, '"')) == s
  {
    NoNonDigitIn(s, '"');
    StripKeeps(s);
  }

  /** Parsing inverts rendering: an integer amount written out cleans to itself. */
  lemma CleanAmountOfInteger(n: nat)
    ensures CleanAmount(NatText(n)) == n as real
  {
    NatValueOfText(n);
    CleanAmountOfDigits(NatText(n));
  }

  /** A negative integer written out cleans to its (non-positive) value. */
  lemma {:induction false} CleanAmountOfNegative(n: nat)
    ensures CleanAmount("-" + NatText(n)) == -(n as real)
  {
    NatValueOfText(n);
    NegativeDigitsClean(NatText(n));
  }

  /** A '-' before a digit string cleans to the negated value of the digits. */
  lemma {:induction false} NegativeDigitsClean(d: string)
    requires |d| > 0 && AllDigits(d)
    ensures CleanAmount("-" + d) == -(NatValue(d) as real)
  {
    NegativeDigitsParse(d);
    CleanAmountOfTrimmed("-" + d, -(NatValue(d) as real));
  }

  /** A '-' before a digit string: no quote or comma, a non-space at each end, and it parses to the negated value. */
  lemma {:induction false} NegativeDigitsParse(d: string)
    requires |d| > 0 && AllDigits(d)
    ensures var s := "-" + d;
      '"' !in s && !IsSpace(s[0]) && !IsSpace(s[|s| - 1]) && s[0] != 'n'
      && ParseDecimal(NormalizeSeparators(s)) == Some(-(NatValue(d) as real))
  {
    var s := "-" + d;
    SignedDigits(d);
    assert NormalizeSeparators(s) == s;
    NegatedDigits(d);
  }

  /** A '-' before a digit string holds no quote and no comma, and ends in a digit. */
  lemma {:induction false} SignedDigits(d: string)
    requires |d| > 0 && AllDigits(d)
    ensures var s := "-" + d; '"' !in s && ',' !in s && IsDigit(s[|s| - 1])
  {
    var s := "-" + d;
    forall k | 0 <= k < |s| ensures s[k] != '"' && s[k] != ',' {
      if k > 0 {
        assert s[k] == d[k - 1] && IsDigit(d[k - 1]);
      }
    }
    assert s[|s| - 1] == d[|d| - 1];
  }

  /** The digit string with a '-' in front parses to the negated value of the digits. */
  lemma {:induction false} NegatedDigits(d: string)
    requires |d| > 0 && AllDigits(d)
    ensures ParseDecimal("-" + d) == Some(-(NatValue(d) as real))
  {
    NegatedParse(d, NatValue(d) as real);
  }

  /** A '-' in front of a text that reads as `x` reads as `-x`. */
  lemma {:induction false} NegatedParse(t: string, x: real)
    requires ParseUnsigned(t) == Some(x)
    ensures ParseDecimal("-" + t) == Some(-x)
  {
    assert ("-" + t)[1..] == t;
  }

  /** The positive-amount filter drops every row whose amount is a cleaned negative integer. */
  lemma NegativeAmountIsDropped(es: seq<Expense>, e: Expense, n: nat)
    requires e.valorDespesas == CleanAmount("-" + NatText(n))
    ensures e !in PositiveRows(es)
  {
    CleanAmountOfNegative(n);
  }

  /** Quote characters around an amount are removed before it is read. */
  lemma QuotesAreIgnored(x: string)
    requires '"' !in x
    ensures CleanAmount("\"" + x + "\"") == CleanAmount(x)
  {
    RemoveEnclosing(x, '"');
  }

  /** A cell made only of digits cleans to the number they spell. */
  lemma CleanAmountOfDigits(s: string)
    requires |s| > 0 && AllDigits(s)
    ensures CleanAmount(s) == NatValue(s) as real
  {
    PlainNumberParses(s);
    NoNonDigitIn(s, '"');
    assert IsDigit(s[0]) && IsDigit(s[|s| - 1]);
    CleanAmountOfTrimmed(s, NatValue(s) as real);
  }

  /** A plain digit string is left alone by the separator rule and parses to its value. */
  lemma PlainNumberParses(s: string)
    requires |s| > 0 && AllDigits(s)
    ensures ParseDecimal(NormalizeSeparators(s)) == Some(NatValue(s) as real)
  {
    NoNonDigitIn(s, ',');
    NoNonDigitIn(s, '.');
    assert IsDigit(s[0]);
  }

  /** In a digit string followed by '.', the first '.' is right after the digits. */
  lemma {:induction false} IndexOfPointAfterDigits(t: string, rest: string)
    requires AllDigits(t)
    ensures IndexOf(t + "." + rest, '.') == Some(|t|)
  {
    if |t| > 0 {
      assert (t + "." + rest)[1..] == t[1..] + "." + rest;
      IndexOfPointAfterDigits(t[1..], rest);
    }
  }

  /** "<digits>.<digits>" parses to the integer part plus the scaled fraction. */
  lemma {:induction false} ParseFixedPoint(t: string, frac: string)
    requires |t| > 0 && AllDigits(t) && AllDigits(frac)
    ensures ParseDecimal(t + "." + frac)
         == Some(NatValue(t) as real + NatValue(frac) as real / Pow10(|frac|) as real)
  {
    PointedParse(t, frac);
    ShiftedIsDivision(NatValue(frac) as real, |frac|);
  }

  /** "<digits>.<digits>" is unsigned and reads as the integer part plus the fraction shifted right. */
  lemma {:induction false} PointedParse(t: string, frac: string)
    requires |t| > 0 && AllDigits(t) && AllDigits(frac)
    ensures var s := t + "." + frac;
      && s[0] != '-' && s[0] != '+'
      && ParseUnsigned(s) == Some(NatValue(t) as real + Shifted(NatValue(frac) as real, |frac|))
  {
    var s := t + "." + frac;
    IndexOfPointAfterDigits(t, frac);
    assert s[..|t|] == t;
    assert s[|t| + 1..] == frac;
    assert s[0] == t[0] && IsDigit(t[0]);
    ParseAtPoint(s, |t|);
  }

  /** A text whose first '.' at `i > 0` splits it into two digit strings reads as their fixed-point value. */
  lemma {:induction false} ParseAtPoint(s: string, i: nat)
    requires IndexOf(s, '.') == Some(i) && i > 0
    requires AllDigits(s[..i]) && AllDigits(s[i + 1..])
    ensures ParseUnsigned(s) == Some(NatValue(s[..i]) as real + Shifted(NatValue(s[i + 1..]) as real, |s| - i - 1))
  {
  }

  /** The separator rule on "<digits>,<digits>": the comma becomes the decimal point. */
  lemma {:induction false} CommaBecomesPoint(t: string, frac: string)
    requires AllDigits(t) && AllDigits(frac)
    ensures NormalizeSeparators(t + "," + frac) == t + "." + frac
  {
    var s := t + "," + frac;
    assert '.' !in s by {
      NoNonDigitIn(t, '.');
      NoNonDigitIn(frac, '.');
    }
    var r := NormalizeSeparators(s);
    assert |r| == |t + "." + frac|;
    forall i | 0 <= i < |r| ensures r[i] == (t + "." + frac)[i] {
      if i < |t| {
        assert s[i] == t[i] && IsDigit(t[i]);
      } else if i > |t| {
        assert s[i] == frac[i - |t| - 1] && IsDigit(frac[i - |t| - 1]);
      }
    }
  }

  /** A text that is already trimmed and unquoted cleans to the value it parses to. */
  lemma {:induction false} CleanAmountOfTrimmed(s: string, x: real)
    requires |s| > 0 && '"' !in s && !IsSpace(s[0]) && !IsSpace(s[|s| - 1]) && s[0] != 'n'
    requires ParseDecimal(NormalizeSeparators(s)) == Some(x)
    ensures CleanAmount(s) == x
  {
    assert RemoveChar(s, '"') == s;
    StripKeeps(s);
    assert s != "nan";
  }

  /** Dropping the points of a "<digits>.<digits>,<digits>" text does not change its normal form. */
  lemma DropThousandsPoint(a: string, b: string, c: string)
    requires AllDigits(a) && AllDigits(b) && AllDigits(c)
    ensures NormalizeSeparators(a + "." + b + "," + c) == NormalizeSeparators(a + b + "," + c)
  {
    var tail := b + ("," + c);
    var s := a + "." + b + "," + c;
    var t := a + b + "," + c;
    assert s == a + ("." + tail) && t == a + tail;
    assert s[|a|] == '.' && s[|a| + 1 + |b|] == ',';
    NoNonDigitIn(a, '.');
    NoNonDigitIn(b, '.');
    NoNonDigitIn(c, '.');
    assert '.' !in "," + c;
    assert '.' !in tail;
    RemoveCharAppend(a, "." + tail, '.');
    RemoveCharAppend(".", tail, '.');
    assert RemoveChar(".", '.') == [];
    assert RemoveChar("." + tail, '.') == tail;
    assert RemoveChar(s, '.') == t;
  }

  /** Two unquoted texts with digits at both ends and the same normal form clean to the same amount. */
  lemma SameNormalFormSameAmount(s: string, t: string)
    requires |s| > 0 && IsDigit(s[0]) && IsDigit(s[|s| - 1]) && '"' !in s
    requires |t| > 0 && IsDigit(t[0]) && IsDigit(t[|t| - 1]) && '"' !in t
    requires NormalizeSeparators(s) == NormalizeSeparators(t)
    ensures CleanAmount(s) == CleanAmount(t)
  {
    StripKeeps(s);
    StripKeeps(t);
    assert s[0] != 'n' && t[0] != 'n';
  }

  /**
   * With a decimal comma present, points are thousands separators: writing
   * them or leaving them out gives the same amount.
   */
  lemma ThousandsSeparatorIgnored(a: string, b: string, c: string)
    requires |a| > 0 && |c| > 0 && AllDigits(a) && AllDigits(b) && AllDigits(c)
    ensures CleanAmount(a + "." + b + "," + c) == CleanAmount(a + b + "," + c)
  {
    DropThousandsPoint(a, b, c);
    NoNonDigitIn(b, '"');
    AmountShape(a, "." + b + ",", c);
    AmountShape(a, b + ",", c);
    SameNormalFormSameAmount(a + "." + b + "," + c, a + b + "," + c);
  }

  /** Digits, then separators and digits, then digits: no quote, and a digit at each end. */
  lemma AmountShape(a: string, m: string, c: string)
    requires |a| > 0 && |c| > 0 && AllDigits(a) && AllDigits(c) && '"' !in m
    ensures var s := a + m + c; |s| > 0 && IsDigit(s[0]) && IsDigit(s[|s| - 1]) && '"' !in s
  {
    var s := a + m + c;
    NoNonDigitIn(a, '"');
    NoNonDigitIn(c, '"');
    assert s[0] == a[0] && s[|s| - 1] == c[|c| - 1];
  }

  /** The value of a two-digit string. */
  lemma TwoDigitValue(c1: int, c2: int)
    requires 0 <= c1 <= 9 && 0 <= c2 <= 9
    ensures NatValue([DigitChar(c1), DigitChar(c2)]) == 10 * c1 + c2
  {
    var cents := [DigitChar(c1), DigitChar(c2)];
    assert cents[..1] == [DigitChar(c1)];
    assert [DigitChar(c1)][..0] == [];
    assert NatValue([DigitChar(c1)]) == c1;
    assert NatValue(cents) == NatValue(cents[..1]) * 10 + DigitValue(cents[1]);
  }

  /**
   * The PT-BR form "<integer>,<two digits>" cleans to the integer plus the
   * cents: the comma is read as the decimal point.
   */
  lemma {:induction false} CleanAmountWithCents(n: nat, c1: int, c2: int)
    requires 0 <= c1 <= 9 && 0 <= c2 <= 9
    ensures CleanAmount(NatText(n) + "," + [DigitChar(c1), DigitChar(c2)])
         == n as real + (10 * c1 + c2) as real / 100.0
  {
    var s := NatText(n) + "," + [DigitChar(c1), DigitChar(c2)];
    var x := n as real + (10 * c1 + c2) as real / 100.0;
    CentsShape(NatText(n), [DigitChar(c1), DigitChar(c2)]);
    CentsParse(n, c1, c2);
    CleanAmountOfTrimmed(s, x);
  }

  /** "<digits>,<digits>" holds no quote and starts and ends with a digit. */
  lemma {:induction false} CentsShape(t: string, frac: string)
    requires |t| > 0 && |frac| > 0 && AllDigits(t) && AllDigits(frac)
    ensures var s := t + "," + frac; '"' !in s && IsDigit(s[0]) && IsDigit(s[|s| - 1])
  {
    var s := t + "," + frac;
    NoNonDigitIn(t, '"');
    NoNonDigitIn(frac, '"');
    assert s[0] == t[0];
    assert s[|s| - 1] == frac[|frac| - 1];
  }

  /** "<n>,<c1><c2>" parses, after the separator rule, to n plus the cents. */
  lemma {:induction false} CentsParse(n: nat, c1: int, c2: int)
    requires 0 <= c1 <= 9 && 0 <= c2 <= 9
    ensures ParseDecimal(NormalizeSeparators(NatText(n) + "," + [DigitChar(c1), DigitChar(c2)]))
         == Some(n as real + (10 * c1 + c2) as real / 100.0)
  {
    var t := NatText(n);
    var cents := [DigitChar(c1), DigitChar(c2)];
    CommaBecomesPoint(t, cents);
    PointedParse(t, cents);
    NatValueOfText(n);
    TwoDigitValue(c1, c2);
    var v := (10 * c1 + c2) as real;
    assert NatValue(cents) as real == v;
    assert Shifted(v, 1) == v / 10.0;
    assert Shifted(v, 2) == v / 100.0;
    assert ParseDecimal(t + "." + cents) == ParseUnsigned(t + "." + cents);
  }

  // ---------------------------------------------------------------------------
  // Chunks: header normalisation, claims filter, row extraction
  // ---------------------------------------------------------------------------

  /** `c.upper().strip().replace('"', '')`. */
  function NormalizeHeader(c: string): (h: string)
    ensures '"' !in h
    ensures forall x :: x in h ==> !('a' <= x <= 'z')
  {
    RemoveChar(Strip(Upper(c)), '"')
  }

  function NormalizedHeaders(header: seq<string>): (h: seq<string>)
    ensures |h| == |header|
    ensures forall i :: 0 <= i < |h| ==> h[i] == NormalizeHeader(header[i])
  {
    seq(|header|, i requires 0 <= i < |header| => NormalizeHeader(header[i]))
  }

  /** Removing quotes from a quoted name that holds none gives the name. */
  lemma UnquoteName(name: string)
    requires '"' !in name
    ensures RemoveChar("\"" + name + "\"", '"') == name
  {
    RemoveEnclosing(name, '"');
  }

  /** Whitespace is stripped before the quotes are removed, so a space inside quotes survives. */
  lemma QuotedHeaderKeepsInnerSpace()
    ensures NormalizeHeader("\" descricao\"") == " DESCRICAO"
  {
    var name := " DESCRICAO";
    assert '"' !in name;
    var u := "\"" + name + "\"";
    assert Upper("\" descricao\"") == u;
    StripKeeps(u);
    UnquoteName(name);
  }

  /** Stripping a name padded with one space on each side gives the name. */
  lemma StripPadded(name: string)
    requires |name| > 0 && !IsSpace(name[0]) && !IsSpace(name[|name| - 1])
    ensures Strip(" " + name + " ") == name
  {
    var s := " " + name + " ";
    assert s[1..] == name + " ";
    assert TrimStart(s) == name + " ";
    assert (name + " ")[..|name|] == name;
    assert TrimEnd(name + " ") == TrimEnd(name);
  }

  /** A header name padded with spaces and written in lower case is recognised. */
  lemma PaddedHeaderIsTrimmed()
    ensures NormalizeHeader(" descricao ") == "DESCRICAO"
  {
    var name := "DESCRICAO";
    assert '"' !in name;
    assert Upper(" descricao ") == " " + name + " ";
    StripPadded(name);
  }

  /** A name already in canonical form (no lower-case letter, no quote, no surrounding space) is kept as it is. */
  lemma CanonicalHeaderIsKept(name: string)
    requires |name| > 0 && !IsSpace(name[0]) && !IsSpace(name[|name| - 1])
    requires forall x :: x in name ==> !('a' <= x <= 'z') && x != '"'
    ensures NormalizeHeader(name) == name
  {
    UpperKeeps(name);
    StripKeeps(name);
  }

  /** `name in columns`, located: the first index holding `name`. */
  function ColumnIndex(h: seq<string>, name: string): (r: Option<nat>)
    ensures r.Some? ==> r.value < |h| && h[r.value] == name
    ensures r.Some? ==> forall k :: 0 <= k < r.value ==> h[k] != name
    ensures r.None? ==> name !in h
  {
    if |h| == 0 then None
    else if h[0] == name then Some(0)
    else match ColumnIndex(h[1..], name)
      case Some(i) => Some(i + 1)
      case None => None
  }

  /**
   * The claims-expense filter: the stripped description contains both
   * "EVENTOS" and "SINISTROS", ignoring case.
   */
  predicate DescriptionMatches(cell: string) {
    var d := Upper(Strip(cell));
    Contains(d, "EVENTOS") && Contains(d, "SINISTROS")
  }

  datatype Chunk = Chunk(header: seq<string>, rows: seq<seq<string>>)

  /** The CSV reader's guarantee: every row is as wide as the header. */
  predicate WellFormedChunk(c: Chunk) {
    forall row :: row in c.rows ==> |row| == |c.header|
  }

  /** The consolidated row built from one raw row, given the column positions. */
  function RowToExpense(row: seq<string>, reg: nat, name: Option<nat>, valor: nat, p: Period): Expense
    requires reg < |row| && valor < |row| && (name.Some? ==> name.value < |row|)
  {
    Expense(
      row[reg],
      if name.Some? then row[name.value] else "OPERADORA " + row[reg],
      p.trimestre,
      p.ano,
      CleanAmount(row[valor]))
  }

  function RowsToExpenses(rows: seq<seq<string>>, width: nat, reg: nat, name: Option<nat>, valor: nat, p: Period): (es: seq<Expense>)
    requires reg < width && valor < width && (name.Some? ==> name.value < width)
    requires forall row :: row in rows ==> |row| == width
    ensures |es| == |rows|
    ensures forall i :: 0 <= i < |rows| ==> es[i] == RowToExpense(rows[i], reg, name, valor, p)
    ensures forall e :: e in es ==> e.ano == p.ano && e.trimestre == p.trimestre
  {
    seq(|rows|, i requires 0 <= i < |rows| => RowToExpense(rows[i], reg, name, valor, p))
  }

  /** What one chunk does to the list of frames. */
  datatype ChunkOutcome =
    | NoFrame                      // no DESCRICAO column, or no row passes the claims filter
    | Frame(rows: seq<Expense>)    // a frame is appended (possibly empty after the amount filter)
    | KeyError                     // REG_ANS or VL_SALDO_FINAL missing: the file is abandoned

  /** The claims-expense mask applied to the rows, the description being in column `di`. */
  function ClaimRows(rows: seq<seq<string>>, di: nat): (r: seq<seq<string>>)
    ensures forall row :: row in r <==> row in rows && di < |row| && DescriptionMatches(row[di])
    ensures IsSubsequence(r, rows)
    ensures forall row ::
      multiset(r)[row] == (if di < |row| && DescriptionMatches(row[di]) then multiset(rows)[row] else 0)
  {
    Filter(rows, (row: seq<string>) => di < |row| && DescriptionMatches(row[di]))
  }

  /** `res[res['ValorDespesas'] > 0]`. */
  function PositiveRows(es: seq<Expense>): (r: seq<Expense>)
    ensures forall e :: e in r <==> e in es && e.valorDespesas > 0.0
    ensures IsSubsequence(r, es)
    ensures forall e :: multiset(r)[e] == (if e.valorDespesas > 0.0 then multiset(es)[e] else 0)
  {
    Filter(es, (e: Expense) => e.valorDespesas > 0.0)
  }

  /** The three columns a chunk needs to append a frame. */
  predicate HasClaimColumns(h: seq<string>) {
    ColumnIndex(h, "DESCRICAO").Some? && ColumnIndex(h, "REG_ANS").Some? && ColumnIndex(h, "VL_SALDO_FINAL").Some?
  }

  /** The description column of a chunk that has the three columns. */
  function DescriptionColumn(c: Chunk): nat
    requires HasClaimColumns(NormalizedHeaders(c.header))
  {
    ColumnIndex(NormalizedHeaders(c.header), "DESCRICAO").value
  }

  /** The row of the frame built from a raw row of a chunk with all three columns. */
  function FrameRow(c: Chunk, p: Period, row: seq<string>): Expense
    requires HasClaimColumns(NormalizedHeaders(c.header)) && |row| == |c.header|
  {
    var h := NormalizedHeaders(c.header);
    RowToExpense(row, ColumnIndex(h, "REG_ANS").value, ColumnIndex(h, "RAZAO_SOCIAL"), ColumnIndex(h, "VL_SALDO_FINAL").value, p)
  }

  /** The rows built from the claim rows of a chunk, before the amount filter. */
  function ClaimExpenses(c: Chunk, p: Period): (es: seq<Expense>)
    requires WellFormedChunk(c) && HasClaimColumns(NormalizedHeaders(c.header))
    ensures var claims := ClaimRows(c.rows, DescriptionColumn(c));
      |es| == |claims| && forall i :: 0 <= i < |es| ==> es[i] == FrameRow(c, p, claims[i])
  {
    var h := NormalizedHeaders(c.header);
    RowsToExpenses(ClaimRows(c.rows, DescriptionColumn(c)), |h|, ColumnIndex(h, "REG_ANS").value,
                   ColumnIndex(h, "RAZAO_SOCIAL"), ColumnIndex(h, "VL_SALDO_FINAL").value, p)
  }

  /**
   * One chunk of a raw file, given the file's period: without a DESCRICAO
   * column or without a claim row it appends nothing; otherwise a missing
   * REG_ANS or VL_SALDO_FINAL column raises, and else the claim rows with
   * a positive amount are appended.
   */
  function ProcessChunk(c: Chunk, p: Period): (o: ChunkOutcome)
    requires WellFormedChunk(c)
    ensures o.Frame? ==> forall e :: e in o.rows ==> e.valorDespesas > 0.0 && e.ano == p.ano && e.trimestre == p.trimestre
  {
    var h := NormalizedHeaders(c.header);
    match ColumnIndex(h, "DESCRICAO")
    case None => NoFrame
    case Some(di) =>
      if |ClaimRows(c.rows, di)| == 0 then NoFrame
      else if HasClaimColumns(h) then Frame(PositiveRows(ClaimExpenses(c, p)))
      else KeyError
  }

  /**
   * When a chunk appends a frame, the three columns are present; without
   * a description column nothing is appended; and a chunk with some claim
   * row raises exactly when REG_ANS or VL_SALDO_FINAL is missing.
   */
  lemma ChunkOutcomeCases(c: Chunk, p: Period)
    requires WellFormedChunk(c)
    ensures var h := NormalizedHeaders(c.header);
      && (ProcessChunk(c, p).Frame? ==> HasClaimColumns(h))
      && (ColumnIndex(h, "DESCRICAO").None? ==> ProcessChunk(c, p).NoFrame?)
      && ((ColumnIndex(h, "DESCRICAO").Some? && |ClaimRows(c.rows, ColumnIndex(h, "DESCRICAO").value)| > 0) ==>
            (ProcessChunk(c, p).KeyError? <==> !HasClaimColumns(h)))
  {
  }

  /** Every row of a frame comes from a raw row that passes the claims filter and has a positive amount. */
  lemma FrameRowsSound(c: Chunk, p: Period, e: Expense)
    requires WellFormedChunk(c) && ProcessChunk(c, p).Frame? && e in ProcessChunk(c, p).rows
    ensures HasClaimColumns(NormalizedHeaders(c.header))
    ensures exists row :: row in c.rows && DescriptionMatches(row[DescriptionColumn(c)])
                        && e == FrameRow(c, p, row) && e.valorDespesas > 0.0
  {
    var claims := ClaimRows(c.rows, DescriptionColumn(c));
    var res := ClaimExpenses(c, p);
    assert e in res;
    var k :| 0 <= k < |res| && res[k] == e;
    var row := claims[k];
    assert row in claims;
  }

  /** Every raw row that passes the claims filter and has a positive amount is in the frame. */
  lemma FrameRowsComplete(c: Chunk, p: Period, row: seq<string>)
    requires WellFormedChunk(c) && ProcessChunk(c, p).Frame? && row in c.rows
    requires HasClaimColumns(NormalizedHeaders(c.header))
    requires DescriptionMatches(row[DescriptionColumn(c)])
    requires FrameRow(c, p, row).valorDespesas > 0.0
    ensures FrameRow(c, p, row) in ProcessChunk(c, p).rows
  {
    var claims := ClaimRows(c.rows, DescriptionColumn(c));
    assert row in claims;
    var k :| 0 <= k < |claims| && claims[k] == row;
    assert ClaimExpenses(c, p)[k] == FrameRow(c, p, row);
  }

  // ---------------------------------------------------------------------------
  // Files and the consolidation (process_files)
  // ---------------------------------------------------------------------------

  /**
   * A raw file: its path and the chunks its reader delivered before it
   * stopped (at the end of the file, or at a read error, which ends the
   * file the same way).
   */
  datatype RawFile = RawFile(path: string, chunks: seq<Chunk>)

  predicate WellFormedFiles(files: seq<RawFile>) {
    forall f, c :: f in files && c in f.chunks ==> WellFormedChunk(c)
  }

  /** The frames a file has appended so far, and whether it was abandoned. */
  datatype Scan = Scan(frames: seq<seq<Expense>>, abandoned: bool)

  /** What a chunk's outcome does to the scan of its file. */
  function Step(s: Scan, o: ChunkOutcome): Scan {
    if s.abandoned then s
    else match o
      case NoFrame => s
      case Frame(rows) => Scan(s.frames + [rows], false)
      case KeyError => Scan(s.frames, true)
  }

  /** The scan of a file after its chunks, in order. */
  function ScanChunks(chunks: seq<Chunk>, p: Period): Scan
    requires forall c :: c in chunks ==> WellFormedChunk(c)
  {
    if |chunks| == 0 then Scan([], false)
    else Step(ScanChunks(chunks[..|chunks| - 1], p), ProcessChunk(chunks[|chunks| - 1], p))
  }

  /**
   * An exception in chunk `k` abandons the rest of the file, but the frames
   * appended by the chunks before it are kept.
   */
  lemma {:induction false} ErrorKeepsEarlierFrames(chunks: seq<Chunk>, p: Period, k: nat)
    requires forall c :: c in chunks ==> WellFormedChunk(c)
    requires k < |chunks| && ProcessChunk(chunks[k], p).KeyError?
    ensures ScanChunks(chunks, p).abandoned
    ensures ScanChunks(chunks, p).frames == ScanChunks(chunks[..k], p).frames
  {
    ScanOneMore(chunks, p, k);
    AbandonedScanIsFinal(chunks, p, k + 1);
  }

  /** Once abandoned, a file contributes nothing more. */
  lemma {:induction false} AbandonedScanIsFinal(chunks: seq<Chunk>, p: Period, j: nat)
    requires forall c :: c in chunks ==> WellFormedChunk(c)
    requires j <= |chunks| && ScanChunks(chunks[..j], p).abandoned
    ensures ScanChunks(chunks, p) == ScanChunks(chunks[..j], p)
  {
    if j < |chunks| {
      assert chunks[..|chunks| - 1][..j] == chunks[..j];
      AbandonedScanIsFinal(chunks[..|chunks| - 1], p, j);
    } else {
      assert chunks[..j] == chunks;
    }
  }

  /** The frames of all files, in file order. */
  function AllFrames(files: seq<RawFile>): seq<seq<Expense>>
    requires WellFormedFiles(files)
  {
    if |files| == 0 then []
    else
      var f := files[|files| - 1];
      AllFrames(files[..|files| - 1]) + ScanChunks(f.chunks, ExtractPeriod(f.path)).frames
  }

  /** `pd.concat(all_data)`. */
  function Concat(frames: seq<seq<Expense>>): seq<Expense> {
    if |frames| == 0 then [] else Concat(frames[..|frames| - 1]) + frames[|frames| - 1]
  }

  /** The grouping key (CNPJ, RazaoSocial, Trimestre, Ano). */
  datatype ExpenseKey = ExpenseKey(cnpj: string, razaoSocial: string, trimestre: string, ano: string)

  function KeyOf(e: Expense): ExpenseKey {
    ExpenseKey(e.cnpj, e.razaoSocial, e.trimestre, e.ano)
  }

  function ExpensePairs(rows: seq<Expense>): (ps: seq<(ExpenseKey, real)>)
    ensures |ps| == |rows|
    ensures forall i :: 0 <= i < |rows| ==> ps[i] == (KeyOf(rows[i]), rows[i].valorDespesas)
  {
    if |rows| == 0 then []
    else ExpensePairs(rows[..|rows| - 1]) + [(KeyOf(rows[|rows| - 1]), rows[|rows| - 1].valorDespesas)]
  }

  /** The sum of ValorDespesas over `rows`. */
  function TotalValor(rows: seq<Expense>): real {
    Total(ExpensePairs(rows))
  }

  /** One consolidated row per listed key, carrying the sum of that key's amounts. */
  function GroupRows(ps: seq<(ExpenseKey, real)>, ks: seq<ExpenseKey>): (out: seq<Expense>)
    ensures |out| == |ks|
    ensures forall i :: 0 <= i < |ks| ==> KeyOf(out[i]) == ks[i] && out[i].valorDespesas == Sum(ValuesFor(ps, ks[i]))
    ensures TotalValor(out) == SumOverKeys(ps, ks)
  {
    if |ks| == 0 then []
    else
      var k := ks[|ks| - 1];
      var init := GroupRows(ps, ks[..|ks| - 1]);
      var out := init + [Expense(k.cnpj, k.razaoSocial, k.trimestre, k.ano, Sum(ValuesFor(ps, k)))];
      assert out[..|out| - 1] == init;
      assert ExpensePairs(out)[..|out| - 1] == ExpensePairs(init);
      out
  }

  /**
   * `groupby(['CNPJ', 'RazaoSocial', 'Trimestre', 'Ano']).agg(sum)`: one
   * row per group, in the order of the groups, whose amount is the sum of
   * that group's amounts; the grand total is preserved.
   */
  function Consolidate(rows: seq<Expense>): (out: seq<Expense>)
    ensures var ks := DistinctKeys(ExpensePairs(rows));
      && |out| == |ks|
      && forall i :: 0 <= i < |out| ==> KeyOf(out[i]) == ks[i] && out[i].valorDespesas == Sum(ValuesFor(ExpensePairs(rows), ks[i]))
    ensures TotalValor(out) == TotalValor(rows)
  {
    var ps := ExpensePairs(rows);
    GroupTotalsPartition(ps);
    GroupRows(ps, DistinctKeys(ps))
  }

  /** No two consolidated rows share a key. */
  lemma ConsolidatedKeysDistinct(rows: seq<Expense>, i: nat, j: nat)
    requires i < j < |Consolidate(rows)|
    ensures KeyOf(Consolidate(rows)[i]) != KeyOf(Consolidate(rows)[j])
  {
    var ks := DistinctKeys(ExpensePairs(rows));
    assert ks[i] != ks[j];
  }

  /** Every input row's key has its consolidated row. */
  lemma ConsolidateCoversRow(rows: seq<Expense>, e: Expense)
    requires e in rows
    ensures exists o :: o in Consolidate(rows) && KeyOf(o) == KeyOf(e)
  {
    var ps := ExpensePairs(rows);
    var ks := DistinctKeys(ps);
    var i :| 0 <= i < |rows| && rows[i] == e;
    assert ps[i].0 == KeyOf(e);
    assert HasKey(ps, KeyOf(e));
    var j :| 0 <= j < |ks| && ks[j] == KeyOf(e);
    assert Consolidate(rows)[j] in Consolidate(rows);
  }

  /** Every consolidated row is a group of the input, carrying the sum of its amounts. */
  lemma ConsolidatedRowIsGroup(rows: seq<Expense>, o: Expense)
    requires o in Consolidate(rows)
    ensures HasKey(ExpensePairs(rows), KeyOf(o))
    ensures o.valorDespesas == Sum(ValuesFor(ExpensePairs(rows), KeyOf(o)))
  {
    var out := Consolidate(rows);
    var ks := DistinctKeys(ExpensePairs(rows));
    var i :| 0 <= i < |out| && out[i] == o;
    assert KeyOf(o) == ks[i] && ks[i] in ks;
  }

  /** Two line items of one operator and period, 100 and 50, consolidate to one row of 150. */
  lemma ConsolidateExample()
    ensures Consolidate([Expense("123", "OP", "1", "2024", 100.0), Expense("123", "OP", "1", "2024", 50.0)])
         == [Expense("123", "OP", "1", "2024", 150.0)]
  {
    var a := Expense("123", "OP", "1", "2024", 100.0);
    var b := Expense("123", "OP", "1", "2024", 50.0);
    var rows := [a, b];
    var ps := ExpensePairs(rows);
    assert ps == [(KeyOf(a), 100.0), (KeyOf(b), 50.0)];
    assert ps[..1] == [(KeyOf(a), 100.0)];
    assert DistinctKeys(ps[..1]) == [KeyOf(a)] by {
      assert ps[..1][..0] == [];
    }
    assert DistinctKeys(ps) == [KeyOf(a)];
    assert ValuesFor(ps[..1], KeyOf(a)) == [100.0] by {
      assert ps[..1][..0] == [];
    }
    assert ValuesFor(ps, KeyOf(a)) == [100.0, 50.0];
    assert Sum([100.0, 50.0]) == 150.0 by {
      assert [100.0, 50.0][..1] == [100.0];
      assert [100.0][..0] == [];
    }
    assert [KeyOf(a)][..0] == [];
  }

  /** A single row consolidates to itself. */
  lemma ConsolidateOne(e: Expense)
    ensures Consolidate([e]) == [e]
  {
    var ps := ExpensePairs([e]);
    assert ps == [(KeyOf(e), e.valorDespesas)];
    assert ps[..0] == [];
    assert DistinctKeys(ps) == [KeyOf(e)];
    assert ValuesFor(ps, KeyOf(e)) == [e.valorDespesas];
    assert Sum([e.valorDespesas]) == e.valorDespesas by {
      assert [e.valorDespesas][..0] == [];
    }
  }

  /** Every amount in a consolidated row is a sum of positive frame amounts, hence positive. */
  lemma {:induction false} SumOfPositives(vs: seq<real>)
    requires |vs| > 0 && forall i :: 0 <= i < |vs| ==> vs[i] > 0.0
    ensures Sum(vs) > 0.0
  {
    if |vs| > 1 {
      SumOfPositives(vs[..|vs| - 1]);
    }
  }

  /** What process_files leaves behind. */
  datatype ProcessResult =
    | NoInputFiles                    // no raw file found: nothing is written
    | NothingMatched                  // no frame was appended: nothing is written, the call returns False
    | Written(rows: seq<Expense>)     // the consolidated file is written (and the call returns None)

  function ProcessFilesSpec(files: seq<RawFile>): ProcessResult
    requires WellFormedFiles(files)
  {
    if |files| == 0 then NoInputFiles
    else
      var frames := AllFrames(files);
      if |frames| == 0 then NothingMatched else Written(Consolidate(Concat(frames)))
  }

  /** One more chunk extends the scan by one step. */
  lemma ScanOneMore(chunks: seq<Chunk>, p: Period, j: nat)
    requires forall c :: c in chunks ==> WellFormedChunk(c)
    requires j < |chunks|
    ensures ScanChunks(chunks[..j + 1], p) == Step(ScanChunks(chunks[..j], p), ProcessChunk(chunks[j], p))
  {
    assert chunks[..j + 1][..j] == chunks[..j];
  }

  /** A file of one chunk is scanned by that chunk's outcome alone. */
  lemma ScanOfSingleChunk(c: Chunk, p: Period)
    requires WellFormedChunk(c)
    ensures ScanChunks([c], p) == Step(Scan([], false), ProcessChunk(c, p))
  {
    assert [c][..0] == [];
  }

  /** One more file appends that file's frames. */
  lemma AllFramesOneMore(files: seq<RawFile>, i: nat)
    requires WellFormedFiles(files) && i < |files|
    ensures AllFrames(files[..i + 1])
         == AllFrames(files[..i]) + ScanChunks(files[i].chunks, ExtractPeriod(files[i].path)).frames
  {
    assert files[..i + 1][..i] == files[..i];
  }

  /**
   * The chunk loop of process_files for one file: every chunk's frame is
   * appended in turn, and an exception ends the file's loop.
   */
  method ScanFile(chunks: seq<Chunk>, p: Period) returns (frames: seq<seq<Expense>>)
    requires forall c :: c in chunks ==> WellFormedChunk(c)
    ensures frames == ScanChunks(chunks, p).frames
  {
    frames := [];
    var j := 0;
    var failed := false;
    while j < |chunks| && !failed
      invariant 0 <= j <= |chunks|
      invariant ScanChunks(chunks[..j], p) == Scan(frames, failed)
    {
      ScanOneMore(chunks, p, j);
      var outcome := ProcessChunk(chunks[j], p);
      match outcome {
        case NoFrame =>
        case Frame(rows) =>
          frames := frames + [rows];
        case KeyError =>
          failed := true;
      }
      j := j + 1;
    }
    if failed {
      AbandonedScanIsFinal(chunks, p, j);
    } else {
      assert chunks[..j] == chunks;
    }
  }

  /**
   * process_files: for every file, for every chunk, append the chunk's
   * frame to `allData`; an exception abandons the current file only. The
   * frames are then concatenated and consolidated.
   */
  method ProcessFiles(files: seq<RawFile>) returns (result: ProcessResult)
    requires WellFormedFiles(files)
    ensures result == ProcessFilesSpec(files)
  {
    var allData: seq<seq<Expense>> := [];
    if |files| == 0 {
      return NoInputFiles;
    }
    var i := 0;
    while i < |files|
      invariant 0 <= i <= |files|
      invariant allData == AllFrames(files[..i])
    {
      var f := files[i];
      assert forall c :: c in f.chunks ==> WellFormedChunk(c);
      var frames := ScanFile(f.chunks, ExtractPeriod(f.path));
      allData := allData + frames;
      AllFramesOneMore(files, i);
      i := i + 1;
    }
    assert files[..i] == files;
    if |allData| == 0 {
      return NothingMatched;
    }
    return Written(Consolidate(Concat(allData)));
  }
  // ---------------------------------------------------------------------------
  // Only positive amounts reach the consolidated file
  // ---------------------------------------------------------------------------

  predicate AllPositive(rows: seq<Expense>) {
    forall e :: e in rows ==> e.valorDespesas > 0.0
  }

  /** Every frame a file appends holds only positive amounts. */
  lemma {:induction false} ScanFramesPositive(chunks: seq<Chunk>, p: Period)
    requires forall c :: c in chunks ==> WellFormedChunk(c)
    ensures forall fr :: fr in ScanChunks(chunks, p).frames ==> AllPositive(fr)
  {
    if |chunks| > 0 {
      var init, last := chunks[..|chunks| - 1], chunks[|chunks| - 1];
      assert forall c :: c in init ==> c in chunks;
      assert last in chunks;
      ScanFramesPositive(init, p);
      var o := ProcessChunk(last, p);
      assert o.Frame? ==> AllPositive(o.rows);
      StepPositive(ScanChunks(init, p), o);
    }
  }

  /** A step keeps every frame positive when the chunk's own frame is. */
  lemma StepPositive(s: Scan, o: ChunkOutcome)
    requires forall fr :: fr in s.frames ==> AllPositive(fr)
    requires o.Frame? ==> AllPositive(o.rows)
    ensures forall fr :: fr in Step(s, o).frames ==> AllPositive(fr)
  {
  }

  /** Every frame appended over all files holds only positive amounts. */
  lemma {:induction false} AllFramesPositive(files: seq<RawFile>)
    requires WellFormedFiles(files)
    ensures forall fr :: fr in AllFrames(files) ==> AllPositive(fr)
  {
    if |files| > 0 {
      var init, f := files[..|files| - 1], files[|files| - 1];
      assert forall g :: g in init ==> g in files;
      AllFramesPositive(init);
      assert forall c :: c in f.chunks ==> WellFormedChunk(c);
      ScanFramesPositive(f.chunks, ExtractPeriod(f.path));
    }
  }

  lemma {:induction false} ConcatPositive(frames: seq<seq<Expense>>)
    requires forall fr :: fr in frames ==> AllPositive(fr)
    ensures AllPositive(Concat(frames))
  {
    if |frames| > 0 {
      var init := frames[..|frames| - 1];
      assert forall fr :: fr in init ==> fr in frames;
      ConcatPositive(init);
      assert frames[|frames| - 1] in frames;
    }
  }

  lemma {:induction false} ValuesPositive(ps: seq<(ExpenseKey, real)>, k: ExpenseKey)
    requires forall i :: 0 <= i < |ps| ==> ps[i].1 > 0.0
    ensures forall i :: 0 <= i < |ValuesFor(ps, k)| ==> ValuesFor(ps, k)[i] > 0.0
  {
    if |ps| > 0 {
      ValuesPositive(ps[..|ps| - 1], k);
    }
  }

  /**
   * Rows without financial impact are dropped before a frame is appended,
   * so every consolidated row written has a positive amount.
   */
  lemma WrittenRowsArePositive(files: seq<RawFile>, o: Expense)
    requires WellFormedFiles(files) && ProcessFilesSpec(files).Written?
    requires o in ProcessFilesSpec(files).rows
    ensures o.valorDespesas > 0.0
  {
    var rows := Concat(AllFrames(files));
    AllFramesPositive(files);
    ConcatPositive(AllFrames(files));
    ConsolidatedRowIsGroup(rows, o);
    var ps := ExpensePairs(rows);
    forall i | 0 <= i < |ps| ensures ps[i].1 > 0.0 {
      assert rows[i] in rows;
    }
    ValuesPositive(ps, KeyOf(o));
    SumOfPositives(ValuesFor(ps, KeyOf(o)));
  }
}
