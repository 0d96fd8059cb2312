/**
 * The validator (`backend/scripts/validator.py`): the CNPJ check-digit
 * rule, the identifier test that accepts either a short ANS registry
 * number or a valid CNPJ, and the row filter applied to the consolidated
 * expense file.
 */
module Validator {
  import opened Text
  import opened Collections
  import Processor

  // ---------------------------------------------------------------------------
  // CNPJ check digits (validar_cnpj, calcular_digito)
  // ---------------------------------------------------------------------------

  const Pesos1: seq<int> := [5, 4, 3, 2, 9, 8, 7, 6, 5, 4, 3, 2]
  const Pesos2: seq<int> := [6, 5, 4, 3, 2, 9, 8, 7, 6, 5, 4, 3, 2]

  /** `sum(int(a) * b for a, b in zip(ds, ws))` over the first `n` pairs. */
  function WeightedSum(ds: string, ws: seq<int>, n: nat): int
    requires n <= |ds| && n <= |ws| && AllDigits(ds)
  {
    if n == 0 then 0 else WeightedSum(ds, ws, n - 1) + DigitValue(ds[n - 1]) * ws[n - 1]
  }

  /** The weighted sum reads only the first `n` digits. */
  lemma {:induction false} WeightedSumOfPrefix(a: string, b: string, ws: seq<int>, n: nat)
    requires n <= |a| && n <= |b| && n <= |ws| && AllDigits(a) && AllDigits(b)
    requires forall i :: 0 <= i < n ==> a[i] == b[i]
    ensures WeightedSum(a, ws, n) == WeightedSum(b, ws, n)
  {
    if n > 0 {
      WeightedSumOfPrefix(a, b, ws, n - 1);
    }
  }

  /**
   * calcular_digito: the modulo-11 check digit. Adding it to the weighted
   * sum makes the sum a multiple of 11, except when the remainder is 1,
   * where the digit that would be needed (10) is replaced by 0.
   */
  function CheckDigit(ds: string, ws: seq<int>): (d: int)
    requires |ds| == |ws| && AllDigits(ds)
    ensures 0 <= d <= 9
    ensures (WeightedSum(ds, ws, |ws|) + d) % 11 == 0 || (d == 0 && WeightedSum(ds, ws, |ws|) % 11 == 1)
    ensures WeightedSum(ds, ws, |ws|) % 11 < 2 <==> d == 0
  {
    var resto := WeightedSum(ds, ws, |ws|) % 11;
    if resto < 2 then 0 else 11 - resto
  }

  /** `len(set(s)) == 1`: a non-empty string of one repeated character. */
  predicate AllSame(s: string) {
    |s| > 0 && forall i :: 0 <= i < |s| ==> s[i] == s[0]
  }

  /** Both check digits of a 14-digit string agree with its first 12 and 13 digits. */
  predicate ChecksMatch(cnpj: string)
    requires |cnpj| == 14 && AllDigits(cnpj)
  {
    && DigitValue(cnpj[12]) == CheckDigit(cnpj[..12], Pesos1)
    && DigitValue(cnpj[13]) == CheckDigit(cnpj[..13], Pesos2)
  }

  /**
   * validar_cnpj. The digits are read with `int`, which raises on a
   * non-digit; its only caller passes digit strings, so a string that
   * reaches the arithmetic is required to be made of digits.
   */
  function ValidCnpj(cnpj: string): (ok: bool)
    requires |cnpj| == 14 && !AllSame(cnpj) ==> AllDigits(cnpj)
    ensures |cnpj| != 14 ==> !ok
    ensures AllSame(cnpj) ==> !ok
    ensures ok ==> AllDigits(cnpj) && ChecksMatch(cnpj)
  {
    if |cnpj| != 14 || AllSame(cnpj) then false
    else
      DigitValue(cnpj[12]) == CheckDigit(cnpj[..12], Pesos1) &&
      DigitValue(cnpj[13]) == CheckDigit(cnpj[..13], Pesos2)
  }

  /** The CNPJ whose first twelve digits are `base`: the base followed by its two check digits. */
  function CompleteCnpj(base: string): (cnpj: string)
    requires |base| == 12 && AllDigits(base)
    ensures |cnpj| == 14 && AllDigits(cnpj) && cnpj[..12] == base
  {
    var b13 := base + [DigitChar(CheckDigit(base, Pesos1))];
    b13 + [DigitChar(CheckDigit(b13, Pesos2))]
  }

  /**
   * A 14-digit string that is not one repeated digit is a valid CNPJ
   * exactly when it is the completion of its first twelve digits.
   */
  lemma ValidCnpjIsCompletion(cnpj: string)
    requires |cnpj| == 14 && AllDigits(cnpj) && !AllSame(cnpj)
    ensures ValidCnpj(cnpj) <==> cnpj == CompleteCnpj(cnpj[..12])
  {
    var base := cnpj[..12];
    var d1 := CheckDigit(base, Pesos1);
    var b13 := base + [DigitChar(d1)];
    var d2 := CheckDigit(b13, Pesos2);
    if ValidCnpj(cnpj) {
      assert cnpj[12] == DigitChar(d1);
      assert cnpj[..13] == b13;
      assert cnpj[13] == DigitChar(d2);
      assert cnpj == b13 + [DigitChar(d2)];
    }
    if cnpj == CompleteCnpj(base) {
      assert cnpj[12] == DigitChar(d1);
      assert cnpj[..13] == b13;
      assert cnpj[13] == DigitChar(d2);
    }
  }

  /**
   * Replacing one of the two check digits of a valid CNPJ by another digit,
   * leaving the other thirteen alone, makes it invalid.
   */
  lemma ChangedCheckDigitIsInvalid(cnpj: string, changed: string, k: nat)
    requires |cnpj| == 14 && AllDigits(cnpj) && ValidCnpj(cnpj) && (k == 12 || k == 13)
    requires |changed| == 14 && AllDigits(changed) && changed[k] != cnpj[k]
    requires forall i :: 0 <= i < 14 && i != k ==> changed[i] == cnpj[i]
    ensures !ValidCnpj(changed)
  {
    assert changed[..k] == cnpj[..k];
    assert DigitValue(changed[k]) != DigitValue(cnpj[k]);
    if k == 13 {
      assert changed[..12] == cnpj[..12];
    }
  }

  /** `c` repeated `n` times. */
  function Repeat(c: char, n: nat): (s: string)
    ensures |s| == n && forall i :: 0 <= i < n ==> s[i] == c
  {
    if n == 0 then [] else Repeat(c, n - 1) + [c]
  }

  /** The sum of the first `n` weights. */
  function SumWeights(ws: seq<int>, n: nat): int
    requires n <= |ws|
  {
    if n == 0 then 0 else SumWeights(ws, n - 1) + ws[n - 1]
  }

  /** Over a repeated digit the weighted sum is the digit times the sum of the weights. */
  lemma {:induction false} WeightedSumOfRepeated(d: int, s: string, ws: seq<int>, n: nat)
    requires 0 <= d <= 9 && n <= |s| && n <= |ws|
    requires forall i :: 0 <= i < |s| ==> s[i] == DigitChar(d)
    ensures AllDigits(s)
    ensures WeightedSum(s, ws, n) == d * SumWeights(ws, n)
  {
    if n > 0 {
      WeightedSumOfRepeated(d, s, ws, n - 1);
    }
  }

  lemma WeightTotals()
    ensures SumWeights(Pesos1, 12) == 58
    ensures SumWeights(Pesos2, 13) == 64
  {
    assert SumWeights(Pesos1, 2) == 9;
    assert SumWeights(Pesos1, 4) == 14;
    assert SumWeights(Pesos1, 6) == 31;
    assert SumWeights(Pesos1, 8) == 44;
    assert SumWeights(Pesos1, 10) == 53;
    assert SumWeights(Pesos2, 1) == 6;
    assert SumWeights(Pesos2, 3) == 15;
    assert SumWeights(Pesos2, 5) == 20;
    assert SumWeights(Pesos2, 7) == 37;
    assert SumWeights(Pesos2, 9) == 50;
    assert SumWeights(Pesos2, 11) == 59;
  }

  /**
   * Among the fourteen-fold repetitions of one digit only "00000000000000"
   * satisfies the check-digit arithmetic, and every repetition is rejected
   * before the arithmetic is reached.
   */
  lemma RepeatedDigitCnpj(d: int)
    requires 0 <= d <= 9
    ensures AllDigits(Repeat(DigitChar(d), 14))
    ensures ChecksMatch(Repeat(DigitChar(d), 14)) <==> d == 0
    ensures !ValidCnpj(Repeat(DigitChar(d), 14))
  {
    var s := Repeat(DigitChar(d), 14);
    WeightedSumOfRepeated(d, s[..12], Pesos1, 12);
    WeightedSumOfRepeated(d, s[..13], Pesos2, 13);
    WeightTotals();
    assert AllSame(s);
  }

  /** The weighted sum behind the first check digit of 11.222.333/0001-81. */
  lemma KnownFirstSum(s: string)
    requires s == "112223330001"
    ensures AllDigits(s) && WeightedSum(s, Pesos1, 12) == 102
  {
    assert WeightedSum(s, Pesos1, 1) == 5;
    assert WeightedSum(s, Pesos1, 2) == 9;
    assert WeightedSum(s, Pesos1, 3) == 15;
    assert WeightedSum(s, Pesos1, 4) == 19;
    assert WeightedSum(s, Pesos1, 5) == 37;
    assert WeightedSum(s, Pesos1, 6) == 61;
    assert WeightedSum(s, Pesos1, 7) == 82;
    assert WeightedSum(s, Pesos1, 8) == 100;
    assert WeightedSum(s, Pesos1, 9) == 100;
    assert WeightedSum(s, Pesos1, 10) == 100;
    assert WeightedSum(s, Pesos1, 11) == 100;
  }

  /** The weighted sum behind the second check digit of 11.222.333/0001-81. */
  lemma KnownSecondSum(s: string)
    requires s == "1122233300018"
    ensures AllDigits(s) && WeightedSum(s, Pesos2, 13) == 120
  {
    assert WeightedSum(s, Pesos2, 1) == 6;
    assert WeightedSum(s, Pesos2, 2) == 11;
    assert WeightedSum(s, Pesos2, 3) == 19;
    assert WeightedSum(s, Pesos2, 4) == 25;
    assert WeightedSum(s, Pesos2, 5) == 29;
    assert WeightedSum(s, Pesos2, 6) == 56;
    assert WeightedSum(s, Pesos2, 7) == 80;
    assert WeightedSum(s, Pesos2, 8) == 101;
    assert WeightedSum(s, Pesos2, 9) == 101;
    assert WeightedSum(s, Pesos2, 10) == 101;
    assert WeightedSum(s, Pesos2, 11) == 101;
    assert WeightedSum(s, Pesos2, 12) == 104;
  }

  /** A well-known valid CNPJ, and the same number with its last digit changed. */
  lemma KnownCnpjs(s: string, t: string)
    requires s == "11222333000181" && t == "11222333000182"
    ensures AllDigits(s) && ValidCnpj(s)
    ensures AllDigits(t) && !ValidCnpj(t)
  {
    assert AllDigits(s) && AllDigits(t);
    assert s[2] != s[0];
    assert s[12] == '8' && s[13] == '1';
    KnownFirstSum(s[..12]);
    KnownSecondSum(s[..13]);
    assert CheckDigit(s[..12], Pesos1) == 8;
    assert CheckDigit(s[..13], Pesos2) == 1;
    assert ValidCnpj(s);
    assert t[13] != s[13];
    assert forall i :: 0 <= i < 14 && i != 13 ==> t[i] == s[i];
    ChangedCheckDigitIsInvalid(s, t, 13);
  }

  // ---------------------------------------------------------------------------
  // Identifiers (validar_identificador)
  // ---------------------------------------------------------------------------

  /**
   * validar_identificador: after removing every non-digit, an empty result
   * is invalid, up to six digits is a valid ANS registry number, fourteen
   * digits must be a valid CNPJ, and any other length is invalid.
   */
  function ValidIdentifier(valor: string): (ok: bool)
    ensures ok ==> 0 < |DigitsOf(valor)| <= 6 || |DigitsOf(valor)| == 14
  {
    var id := DigitsOf(valor);
    if |id| == 0 then false
    else if |id| <= 6 then AllDigits(id)
    else if |id| == 14 then ValidCnpj(id)
    else false
  }

  /** The result by the number of digits in the identifier. */
  lemma IdentifierByLength(valor: string)
    ensures var n := |DigitsOf(valor)|;
      && (n == 0 ==> !ValidIdentifier(valor))
      && (1 <= n <= 6 ==> ValidIdentifier(valor))
      && ((7 <= n <= 13 || n > 14) ==> !ValidIdentifier(valor))
      && (n == 14 ==> ValidIdentifier(valor) == ValidCnpj(DigitsOf(valor)))
  {
  }

  /** Inserting a separator (or any non-digit) into an identifier never changes the verdict. */
  lemma IdentifierIgnoresSeparators(a: string, b: string, sep: char)
    requires !IsDigit(sep)
    ensures ValidIdentifier(a + [sep] + b) == ValidIdentifier(a + b)
  {
    DigitsOfAppend(a + [sep], b);
    DigitsOfAppend(a, [sep]);
    DigitsOfAppend(a, b);
    assert DigitsOf([sep]) == [];
    assert DigitsOf(a) + [] == DigitsOf(a);
  }

  // ---------------------------------------------------------------------------
  // Row filter (executar_validacao)
  // ---------------------------------------------------------------------------

  /** A non-blank name and a positive amount: the first two filters. */
  predicate HasNameAndAmount(e: Processor.Expense) {
    Strip(e.razaoSocial) != "" && e.valorDespesas > 0.0
  }

  predicate HasValidId(e: Processor.Expense) {
    ValidIdentifier(e.cnpj)
  }

  predicate HasInvalidId(e: Processor.Expense) {
    !ValidIdentifier(e.cnpj)
  }

  /** The rows written to the validated file, and the rows discarded for their identifier. */
  datatype Validation = Validation(validos: seq<Processor.Expense>, invalidos: seq<Processor.Expense>)

  /**
   * executar_validacao's filters: rows with a blank name or a non-positive
   * amount are dropped; the rest are split by the identifier test, each
   * part keeping the input order.
   */
  function Validate(rows: seq<Processor.Expense>): (v: Validation)
    ensures forall e :: e in v.validos <==> e in rows && HasNameAndAmount(e) && ValidIdentifier(e.cnpj)
    ensures forall e :: e in v.invalidos <==> e in rows && HasNameAndAmount(e) && !ValidIdentifier(e.cnpj)
    ensures IsSubsequence(v.validos, rows) && IsSubsequence(v.invalidos, rows)
  {
    var checked := Filter(rows, HasNameAndAmount);
    var v := Validation(Filter(checked, HasValidId), Filter(checked, HasInvalidId));
    SubsequenceTransitive(v.validos, checked, rows);
    SubsequenceTransitive(v.invalidos, checked, rows);
    v
  }

  /**
   * The two parts together are exactly the rows that pass the name and
   * amount filters: none is lost and none is counted twice.
   */
  lemma ValidationPartitions(rows: seq<Processor.Expense>)
    ensures multiset(Validate(rows).validos) + multiset(Validate(rows).invalidos)
         == multiset(Filter(rows, HasNameAndAmount))
    ensures |Validate(rows).validos| + |Validate(rows).invalidos| == |Filter(rows, HasNameAndAmount)|
  {
    FilterPartition(Filter(rows, HasNameAndAmount), HasValidId, HasInvalidId);
  }
}
