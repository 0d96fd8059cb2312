/**
 * One claims line item carried through the four stages: its period comes
 * from the file name, its amount is read in the Brazilian format, its
 * registry number passes the identifier check, it meets no registry
 * entry, and it forms a group of its own in the aggregate.
 *
 * The concrete texts are lemma parameters fixed by `requires`, so that
 * each stage is reasoned about through its contracts.
 */
module Pipeline {
  import opened Text
  import Processor
  import Validator
  import Enricher
  import Aggregator

  // ---------------------------------------------------------------------------
  // Stage by stage, for any input of the right shape
  // ---------------------------------------------------------------------------

  /**
   * A chunk holding the three needed columns and one line whose description
   * names claims and whose amount is positive appends a frame of one row,
   * named after the registry number since there is no RAZAO_SOCIAL column.
   */
  lemma ChunkOfOneClaim(h: seq<string>, line: seq<string>, p: Processor.Period)
    requires |h| == 3 && |line| == 3
    requires Processor.ColumnIndex(Processor.NormalizedHeaders(h), "REG_ANS") == Some(0)
    requires Processor.ColumnIndex(Processor.NormalizedHeaders(h), "DESCRICAO") == Some(1)
    requires Processor.ColumnIndex(Processor.NormalizedHeaders(h), "VL_SALDO_FINAL") == Some(2)
    requires Processor.ColumnIndex(Processor.NormalizedHeaders(h), "RAZAO_SOCIAL") == None
    requires Processor.DescriptionMatches(line[1]) && Processor.CleanAmount(line[2]) > 0.0
    ensures Processor.WellFormedChunk(Processor.Chunk(h, [line]))
    ensures Processor.ProcessChunk(Processor.Chunk(h, [line]), p)
         == Processor.Frame([Processor.Expense(line[0], "OPERADORA " + line[0], p.trimestre, p.ano, Processor.CleanAmount(line[2]))])
  {
    var c := Processor.Chunk(h, [line]);
    var e := Processor.Expense(line[0], "OPERADORA " + line[0], p.trimestre, p.ano, Processor.CleanAmount(line[2]));
    assert Processor.ClaimRows([line], 1) == [line];
    assert Processor.FrameRow(c, p, line) == e;
    assert Processor.ClaimExpenses(c, p) == [e];
    assert Processor.PositiveRows([e]) == [e];
  }

  /** A single file whose single chunk appends one row is consolidated to that row. */
  lemma FileOfOneRow(path: string, c: Processor.Chunk, e: Processor.Expense)
    requires Processor.WellFormedChunk(c)
    requires Processor.ProcessChunk(c, Processor.ExtractPeriod(path)) == Processor.Frame([e])
    ensures Processor.WellFormedFiles([Processor.RawFile(path, [c])])
    ensures Processor.ProcessFilesSpec([Processor.RawFile(path, [c])]) == Processor.Written([e])
  {
    OneFileIsWellFormed(path, c);
    FramesOfOneFile(path, c);
    assert [[e]][..0] == [];
    assert Processor.Concat([[e]]) == [e];
    Processor.ConsolidateOne(e);
  }

  lemma OneFileIsWellFormed(path: string, c: Processor.Chunk)
    requires Processor.WellFormedChunk(c)
    ensures Processor.WellFormedFiles([Processor.RawFile(path, [c])])
  {
  }

  /** The file's only chunk appends the file's only frame. */
  lemma FramesOfOneFile(path: string, c: Processor.Chunk)
    requires Processor.WellFormedChunk(c) && Processor.ProcessChunk(c, Processor.ExtractPeriod(path)).Frame?
    ensures Processor.WellFormedFiles([Processor.RawFile(path, [c])])
    ensures Processor.AllFrames([Processor.RawFile(path, [c])]) == [Processor.ProcessChunk(c, Processor.ExtractPeriod(path)).rows]
  {
    var files := [Processor.RawFile(path, [c])];
    OneFileIsWellFormed(path, c);
    ScanOfOneChunk(c, Processor.ExtractPeriod(path));
    assert files[..0] == [];
  }

  /** A chunk that appends a frame, alone in its file, gives the file that one frame. */
  lemma ScanOfOneChunk(c: Processor.Chunk, p: Processor.Period)
    requires Processor.WellFormedChunk(c) && Processor.ProcessChunk(c, p).Frame?
    ensures Processor.ScanChunks([c], p).frames == [Processor.ProcessChunk(c, p).rows]
  {
    Processor.ScanOfSingleChunk(c, p);
  }

  /** A row with a name, a positive amount and a valid identifier is kept by the validation. */
  lemma ValidRowIsKept(e: Processor.Expense)
    requires Validator.HasNameAndAmount(e) && Validator.ValidIdentifier(e.cnpj)
    ensures Validator.Validate([e]) == Validator.Validation([e], [])
  {
    var v := Validator.Validate([e]);
    Validator.ValidationPartitions([e]);
    assert e in v.validos;
    assert |v.validos| == 1 && |v.invalidos| == 0;
    assert v.validos[0] in v.validos;
  }

  /**
   * An expense row that meets no registry entry is enriched with its own
   * stripped identifier as CNPJ and RegistroANS, and the sentinels.
   */
  lemma EnrichWithoutMatch(e: Processor.Expense, reg: Enricher.Registry)
    requires Enricher.WellFormedRegistry(reg) && Enricher.AllResolved(reg.header)
    requires forall c :: c in Enricher.Project(reg) ==> Enricher.JoinKey(c.registroAns) != Enricher.FinKey(e)
    ensures Enricher.Enrich([e], reg) == Enricher.Enriched([Enricher.EnrichedRow(
      Enricher.FinKey(e), e.razaoSocial, e.trimestre, e.ano, e.valorDespesas,
      Enricher.FinKey(e), Enricher.NaoEncontrado, Enricher.SemUf)])
  {
    var cad := Enricher.KeepFirst(Enricher.Project(reg));
    assert forall c :: c in cad ==> Enricher.JoinKey(c.registroAns) != Enricher.FinKey(e);
    MergeWithoutMatch(e, cad);
    var j := Enricher.Joined(e, None);
    EnrichOfOneJoin(e, reg, j);
    assert Enricher.Fill(j) == Enricher.EnrichedRow(
      Enricher.FinKey(e), e.razaoSocial, e.trimestre, e.ano, e.valorDespesas,
      Enricher.FinKey(e), Enricher.NaoEncontrado, Enricher.SemUf);
  }

  /** A row that the join turns into one joined row is enriched into that row's fill. */
  lemma EnrichOfOneJoin(e: Processor.Expense, reg: Enricher.Registry, j: Enricher.Joined)
    requires Enricher.WellFormedRegistry(reg) && Enricher.AllResolved(reg.header)
    requires Enricher.Merge([e], Enricher.KeepFirst(Enricher.Project(reg))) == [j]
    ensures Enricher.Enrich([e], reg) == Enricher.Enriched([Enricher.Fill(j)])
  {
    Enricher.EnrichedRowPerJoin([e], reg);
    SingleRowResult(Enricher.Enrich([e], reg), Enricher.Fill(j));
  }

  lemma SingleRowResult(r: Enricher.EnrichResult, x: Enricher.EnrichedRow)
    requires r.Enriched? && |r.rows| == 1 && r.rows[0] == x
    ensures r == Enricher.Enriched([x])
  {
    assert r.rows == [x];
  }

  /** A row that meets no entry is joined once, with nothing. */
  lemma MergeWithoutMatch(e: Processor.Expense, cad: seq<Enricher.RegistryEntry>)
    requires forall c :: c in cad ==> Enricher.JoinKey(c.registroAns) != Enricher.FinKey(e)
    ensures Enricher.Merge([e], cad) == [Enricher.Joined(e, None)]
  {
    Enricher.NoMatches(e, cad);
    assert [e][..0] == [];
  }

  // ---------------------------------------------------------------------------
  // The concrete texts
  // ---------------------------------------------------------------------------

  /** The leftmost "20dd" of the base name is "2024". */
  lemma YearOfName(name: string)
    requires name == "ITR_2024_2T.csv"
    ensures Processor.YearOf(name) == "2024"
  {
    assert Processor.FindYear(name, 4) == Some(4);
    assert Processor.FindYear(name, 2) == Some(4);
    assert Processor.FindYear(name, 0) == Some(4);
    assert name[4..8] == "2024";
  }

  /** The first digit followed by 'T' in the upper-cased base name is the '2' at index 9. */
  lemma QuarterOfName(name: string)
    requires name == "ITR_2024_2T.csv"
    ensures Processor.QuarterOf(name) == "2"
  {
    var upper := Upper(name);
    assert upper[..11] == "ITR_2024_2T";
    assert Processor.FindQuarter(upper, 9) == Some(9);
    assert Processor.FindQuarter(upper, 6) == Some(9);
    assert Processor.FindQuarter(upper, 3) == Some(9);
    assert Processor.FindQuarter(upper, 0) == Some(9);
  }

  /** The file's period: year "2024" and quarter "2"; the directory plays no part. */
  lemma PeriodOfPath(path: string)
    requires path == "raw/ITR_2024_2T.csv"
    ensures Processor.ExtractPeriod(path) == Processor.Period("2024", "2")
  {
    var name := path[4..];
    assert path == "raw" + "/" + name;
    assert name == "ITR_2024_2T.csv";
    assert '/' !in name;
    Processor.PeriodIgnoresDirectories("raw", name);
    Processor.BasenameOfName(name);
    YearOfName(name);
    QuarterOfName(name);
  }

  lemma TextOf1500()
    ensures Processor.NatText(1500) == "1500"
  {
    assert Processor.NatText(1) == "1";
    assert Processor.NatText(15) == "15";
    assert Processor.NatText(150) == "150";
  }

  /** "1500,00" is 1500. */
  lemma PlainAmountValue(s: string)
    requires s == "1500,00"
    ensures Processor.CleanAmount(s) == 1500.0
  {
    TextOf1500();
    assert [DigitChar(0), DigitChar(0)] == "00";
    assert s == Processor.NatText(1500) + "," + [DigitChar(0), DigitChar(0)];
    Processor.CleanAmountWithCents(1500, 0, 0);
  }

  /** "1.500,00": the point is a thousands separator and the comma the decimal point. */
  lemma AmountValue(s: string)
    requires s == "1.500,00"
    ensures Processor.CleanAmount(s) == 1500.0
  {
    var a, b, c := s[..1], s[2..5], s[6..];
    assert a + "." + b + "," + c == s;
    assert AllDigits(a) && AllDigits(b) && AllDigits(c);
    var plain := a + b + "," + c;
    assert plain == "1500,00";
    Processor.ThousandsSeparatorIgnored(a, b, c);
    PlainAmountValue(plain);
  }

  /** The quoted cell "\"1.500,00\"" is 1500: the quotes go before the separators are read. */
  lemma QuotedAmountValue(s: string)
    requires s == "\"1.500,00\""
    ensures Processor.CleanAmount(s) == 1500.0
  {
    var inner := "1.500,00";
    assert s == "\"" + inner + "\"";
    assert '"' !in inner;
    Processor.QuotesAreIgnored(inner);
    AmountValue(inner);
  }

  /** The description is already upper case and has no surrounding spaces. */
  lemma DescriptionIsCanonical(d: string)
    requires d == "EVENTOS/SINISTROS CONHECIDOS"
    ensures Upper(Strip(d)) == d
  {
    assert forall x :: x in d ==> !('a' <= x <= 'z');
    assert !IsSpace(d[0]) && !IsSpace(d[|d| - 1]);
    Processor.StripKeeps(d);
    UpperKeeps(d);
  }

  /** Both words occur in the description: "EVENTOS" at index 0 and "SINISTROS" at index 8. */
  lemma DescriptionWords(d: string)
    requires d == "EVENTOS/SINISTROS CONHECIDOS"
    ensures Contains(d, "EVENTOS") && Contains(d, "SINISTROS")
  {
    var w1, w2 := d[..7], d[8..17];
    assert w1 == "EVENTOS";
    assert w2 == "SINISTROS";
    ContainsAt(d, w1, 0);
    ContainsAt(d, w2, 8);
  }

  /** The description names claims events ("EVENTOS") and claims ("SINISTROS"). */
  lemma ClaimsDescription(d: string)
    requires d == "EVENTOS/SINISTROS CONHECIDOS"
    ensures Processor.DescriptionMatches(d)
  {
    DescriptionWords(d);
    DescriptionIsCanonical(d);
  }

  lemma CanonicalName(n: string)
    requires n == "REG_ANS" || n == "DESCRICAO" || n == "VL_SALDO_FINAL"
    ensures Processor.NormalizeHeader(n) == n
  {
    assert forall x :: x in n ==> !('a' <= x <= 'z') && x != '"';
    assert !IsSpace(n[0]) && !IsSpace(n[|n| - 1]);
    Processor.CanonicalHeaderIsKept(n);
  }

  /** Each name of `h` is left alone by the header normalisation. */
  lemma KeptHeaders(h: seq<string>)
    requires forall i :: 0 <= i < |h| ==> Processor.NormalizeHeader(h[i]) == h[i]
    ensures Processor.NormalizedHeaders(h) == h
  {
  }

  /** The columns of the canonical header: registry number, description and amount, and no name. */
  lemma ColumnsOf(n: seq<string>)
    requires n == ["REG_ANS", "DESCRICAO", "VL_SALDO_FINAL"]
    ensures Processor.ColumnIndex(n, "REG_ANS") == Some(0)
    ensures Processor.ColumnIndex(n, "DESCRICAO") == Some(1)
    ensures Processor.ColumnIndex(n, "VL_SALDO_FINAL") == Some(2)
    ensures Processor.ColumnIndex(n, "RAZAO_SOCIAL") == None
  {
    assert n[1..] == ["DESCRICAO", "VL_SALDO_FINAL"];
    assert n[1..][1..] == ["VL_SALDO_FINAL"];
  }

  /** The raw header is canonical, so its columns are found where they stand. */
  lemma ClaimsHeader(h: seq<string>)
    requires h == ["REG_ANS", "DESCRICAO", "VL_SALDO_FINAL"]
    ensures Processor.ColumnIndex(Processor.NormalizedHeaders(h), "REG_ANS") == Some(0)
    ensures Processor.ColumnIndex(Processor.NormalizedHeaders(h), "DESCRICAO") == Some(1)
    ensures Processor.ColumnIndex(Processor.NormalizedHeaders(h), "VL_SALDO_FINAL") == Some(2)
    ensures Processor.ColumnIndex(Processor.NormalizedHeaders(h), "RAZAO_SOCIAL") == None
  {
    forall i | 0 <= i < |h| ensures Processor.NormalizeHeader(h[i]) == h[i] {
      CanonicalName(h[i]);
    }
    KeptHeaders(h);
    ColumnsOf(Processor.NormalizedHeaders(h));
  }

  /** A registry number of five digits is a valid identifier. */
  lemma ShortIdentifier(id: string)
    requires id == "12345"
    ensures Validator.ValidIdentifier(id)
  {
    assert AllDigits(id);
  }

  /** A text without surrounding spaces is left alone by stripping. */
  lemma KeyIsItself(k: string)
    requires k == "12345" || k == "99999" || k == "OPERADORA 12345"
    ensures Strip(k) == k
  {
    assert !IsSpace(k[0]) && !IsSpace(k[|k| - 1]);
    Processor.StripKeeps(k);
  }

  /** Every target of the registry resolves through its first alias. */
  lemma RegistryHeaderResolves(h: seq<string>)
    requires h == ["CNPJ", "REGISTRO_OPERADORA", "Modalidade", "UF"]
    ensures Enricher.AllResolved(h)
  {
    var ts := Enricher.ColunasProcuradas;
    assert ts[0].aliases[0] == h[0] && ts[1].aliases[0] == h[1] && ts[2].aliases[0] == h[2] && ts[3].aliases[0] == h[3];
    assert forall t :: 0 <= t < 4 ==> ts[t].aliases[0] in h;
  }

  /** The registry number is read from REGISTRO_OPERADORA, the second column. */
  lemma RegistryNumberColumn(h: seq<string>)
    requires h == ["CNPJ", "REGISTRO_OPERADORA", "Modalidade", "UF"]
    ensures Enricher.FirstPresent(Enricher.ColunasProcuradas[1].aliases, h) == Some("REGISTRO_OPERADORA")
    ensures Processor.ColumnIndex(h, "REGISTRO_OPERADORA") == Some(1)
  {
    assert Enricher.ColunasProcuradas[1].aliases[0] == h[1];
    assert h[1..][0] == "REGISTRO_OPERADORA";
  }

  /** The registry is well formed, resolves every field, and its one entry has registry number 99999. */
  lemma RegistryWithOtherOperator(reg: Enricher.Registry)
    requires reg == Enricher.Registry(
      ["CNPJ", "REGISTRO_OPERADORA", "Modalidade", "UF"],
      [[Some("11222333000181"), Some("99999"), Some("Cooperativa"), Some("SP")]])
    ensures Enricher.WellFormedRegistry(reg) && Enricher.AllResolved(reg.header)
    ensures forall c :: c in Enricher.Project(reg) ==> c.registroAns == Some("99999")
  {
    assert |reg.rows| == 1 && |reg.rows[0]| == |reg.header|;
    assert reg.rows[0][1] == Some("99999");
    RegistryHeaderResolves(reg.header);
    RegistryNumberColumn(reg.header);
    assert Enricher.ColumnOf(reg.header, 1) == 1;
  }

  // ---------------------------------------------------------------------------
  // End to end
  // ---------------------------------------------------------------------------

  lemma NameOfOperator(line: seq<string>)
    requires line == ["12345", "EVENTOS/SINISTROS CONHECIDOS", "\"1.500,00\""]
    ensures "OPERADORA " + line[0] == "OPERADORA 12345"
  {
  }

  /**
   * The line item of "raw/ITR_2024_2T.csv" with amount "\"1.500,00\"" becomes
   * one consolidated row of 1500 for 2024, quarter 2; the validation keeps
   * it; the registry, which only knows operator 99999, leaves it with the
   * sentinels 'NÃO ENCONTRADO' and 'NI'; and it forms a group of its own
   * with total and mean 1500 and no deviation.
   */
  lemma EndToEnd(path: string, header: seq<string>, line: seq<string>, cadastro: Enricher.Registry,
                 item: Processor.Expense, enriched: Enricher.EnrichedRow)
    requires path == "raw/ITR_2024_2T.csv"
    requires header == ["REG_ANS", "DESCRICAO", "VL_SALDO_FINAL"]
    requires line == ["12345", "EVENTOS/SINISTROS CONHECIDOS", "\"1.500,00\""]
    requires cadastro == Enricher.Registry(
      ["CNPJ", "REGISTRO_OPERADORA", "Modalidade", "UF"],
      [[Some("11222333000181"), Some("99999"), Some("Cooperativa"), Some("SP")]])
    requires item == Processor.Expense("12345", "OPERADORA 12345", "2", "2024", 1500.0)
    requires enriched == Enricher.EnrichedRow("12345", "OPERADORA 12345", "2", "2024", 1500.0, "12345", "NÃO ENCONTRADO", "NI")
    ensures Processor.WellFormedFiles([Processor.RawFile(path, [Processor.Chunk(header, [line])])])
    ensures Processor.ProcessFilesSpec([Processor.RawFile(path, [Processor.Chunk(header, [line])])]) == Processor.Written([item])
    ensures Validator.Validate([item]) == Validator.Validation([item], [])
    ensures Enricher.WellFormedRegistry(cadastro)
    ensures Enricher.Enrich([item], cadastro) == Enricher.Enriched([enriched])
    ensures Aggregator.Aggregate([enriched]) == [Aggregator.Summary("OPERADORA 12345", "NI", 1500.0, 1500.0, 0.0)]
  {
    ProcessedLineItem(path, header, line, item);
    ValidatedLineItem(item);
    EnrichedLineItem(item, cadastro, enriched);
    Aggregator.AggregateOne(enriched);
  }

  /** The processor writes the line item as one row of 1500 for 2024, quarter 2. */
  lemma ProcessedLineItem(path: string, header: seq<string>, line: seq<string>, item: Processor.Expense)
    requires path == "raw/ITR_2024_2T.csv"
    requires header == ["REG_ANS", "DESCRICAO", "VL_SALDO_FINAL"]
    requires line == ["12345", "EVENTOS/SINISTROS CONHECIDOS", "\"1.500,00\""]
    requires item == Processor.Expense("12345", "OPERADORA 12345", "2", "2024", 1500.0)
    ensures Processor.WellFormedFiles([Processor.RawFile(path, [Processor.Chunk(header, [line])])])
    ensures Processor.ProcessFilesSpec([Processor.RawFile(path, [Processor.Chunk(header, [line])])]) == Processor.Written([item])
  {
    var p := Processor.ExtractPeriod(path);
    NameOfOperator(line);
    PeriodOfPath(path);
    ClaimsHeader(header);
    ClaimsDescription(line[1]);
    QuotedAmountValue(line[2]);
    ChunkOfOneClaim(header, line, p);
    FileOfOneRow(path, Processor.Chunk(header, [line]), item);
  }

  /** The validation keeps the processed row and discards nothing. */
  lemma ValidatedLineItem(item: Processor.Expense)
    requires item == Processor.Expense("12345", "OPERADORA 12345", "2", "2024", 1500.0)
    ensures Validator.Validate([item]) == Validator.Validation([item], [])
  {
    ShortIdentifier(item.cnpj);
    KeyIsItself(item.razaoSocial);
    ValidRowIsKept(item);
  }

  /** A registry that only knows operator 99999 leaves the row with the sentinels. */
  lemma EnrichedLineItem(item: Processor.Expense, cadastro: Enricher.Registry, enriched: Enricher.EnrichedRow)
    requires cadastro == Enricher.Registry(
      ["CNPJ", "REGISTRO_OPERADORA", "Modalidade", "UF"],
      [[Some("11222333000181"), Some("99999"), Some("Cooperativa"), Some("SP")]])
    requires item == Processor.Expense("12345", "OPERADORA 12345", "2", "2024", 1500.0)
    requires enriched == Enricher.EnrichedRow("12345", "OPERADORA 12345", "2", "2024", 1500.0, "12345", "NÃO ENCONTRADO", "NI")
    ensures Enricher.WellFormedRegistry(cadastro)
    ensures Enricher.Enrich([item], cadastro) == Enricher.Enriched([enriched])
  {
    KeyIsItself(item.cnpj);
    KeyIsItself("99999");
    RegistryWithOtherOperator(cadastro);
    EnrichWithoutMatch(item, cadastro);
  }
}
