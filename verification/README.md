# ANS expense pipeline: verified model of the four transformation stages

This project models the data-transformation core of the batch pipeline in
`backend/scripts`. The pipeline turns the quarterly accounting dumps of
Brazilian health-plan operators (ANS filings) into an aggregated table of
claims expenses per operator and state. It does so in four stages:

- **processor.py** (`process_files`):
  - reads every raw file chunk by chunk;
  - normalises the headers;
  - keeps the line items whose description names both "EVENTOS" and "SINISTROS";
  - cleans the PT-BR/EN-US amounts (`limpar_valor`);
  - stamps each row with the year and quarter taken from the file name (`extrair_data_do_caminho`);
  - drops non-positive amounts;
  - consolidates by (CNPJ, RazaoSocial, Trimestre, Ano) with a group-by-sum.
- **validator.py** (`executar_validacao`): keeps the rows with a non-blank name, a positive amount and a valid identifier. A valid identifier is a registry number of at most six digits, or a CNPJ passing the two modulo-11 check digits (`validar_identificador`, `validar_cnpj`).
- **enricher.py** (`enrich_data`):
  - resolves the drifting registry header through an alias table, aborting unless all four canonical columns resolve;
  - deduplicates the registry keep-first by RegistroANS;
  - left-joins the expenses on the stripped identifier;
  - fills CNPJ, RegistroANS, Modalidade and UF with their fallbacks and sentinels.
- **aggregator.py** (`executar_agregacao`): groups by (RazaoSocial, UF) with sum, mean and sample deviation (a single-row group gets 0), then sorts by total, descending.

One Dafny module per stage:

| module | file | models |
|---|---|---|
| `Validator` | validator.dfy | check digits, identifier rule, row filter |
| `Processor` | processor.dfy | file-name period, amount cleaning, header normalisation, chunk filter, file/chunk loop, consolidation |
| `Enricher` | enricher.dfy | alias resolution loop, completeness check, keep-first dedup, left join, fills |
| `Aggregator` | aggregator.dfy | group statistics, descending sort |

Shared pieces live in two more modules:

- `Text` (text.dfy): the Python string operations the stages use, in ASCII.
- `Collections` (collections.dfy): the pandas boolean-mask filter, and the group-by over (key, amount) pairs with its sum-partition lemma.

`Pipeline` (pipeline.dfy) runs one line item through all four stages: a file named `..._2024_2T...`, a description "EVENTOS/SINISTROS CONHECIDOS", an amount `"1.500,00"` and an identifier `12345`.

Representation choices:

- Amounts are exact `real`s. Cells are strings.
- Registry cells are `Option<string>`, because the fills depend on missing values.
- The imperative parts of the source are Dafny methods with loop invariants, each proved equal to a specification function:
  - the nested file/chunk loop appending to `all_data` (`Processor.ScanFile`, `Processor.ProcessFiles`);
  - the alias loop with `break` filling `mapeamento` (`Enricher.ResolveAliases`).
- The pandas column pipelines are functions.

The wiring follows the code:

- The enricher reads the processor's consolidated file (enricher.py:51), not the validator's output. So `Enricher.Enrich` takes `Processor.Expense` rows.
- `Pipeline.EndToEnd` shows the same row passing the validation separately.

Behaviours of the code that the model keeps:

- The Modalidade sentinel is 'NÃO ENCONTRADO' (enricher.py:114).
- The final sort is `sort_values` with its default algorithm (aggregator.py:35). The model promises a non-increasing order and a permutation of the groups, and no particular order among ties.
- Every string of fourteen copies of one digit is rejected by the repeated-character test (validator.py:20). Of these strings, only `"00000000000000"` would also satisfy the check-digit arithmetic (`Validator.RepeatedDigitCnpj`).
- The quarter is any single digit before a 'T' (processor.py:36), not restricted to 1–4. The year and the quarter fall back ("2025", "1") independently of each other.
- An exception part-way through a file keeps the frames that file already appended (processor.py:104, 106-107).
- Registry deduplication happens before the keys are stripped (enricher.py:85, 90). Two registry numbers that differ only by surrounding spaces both survive, and the expense row that matches both appears twice (`Enricher.StrippedKeysCanDuplicateRows`).

## Model

| member | source | states |
|---|---|---|
| Text.DigitsOf | backend/scripts/validator.py:42 | `re.sub(r'\D', '', …)`: the result holds exactly the digits occurring in the input and nothing else, is no longer than the input, and a digit string is its own result |
| Text.DigitsOfAppend | backend/scripts/validator.py:42 | removing non-digits distributes over concatenation |
| Text.Strip | backend/scripts/processor.py:88 | `str.strip()`: the result is an infix of the input with only whitespace before and after it, and it neither starts nor ends with whitespace |
| Text.Upper | backend/scripts/processor.py:66 | `str.upper()`: same length, character-wise upper case, no lower-case letter left |
| Text.RemoveChar | backend/scripts/processor.py:88 | `replace('"', '')`: the character is gone, every other character is kept, an input without it is unchanged |
| Text.RemoveCharAppend | backend/scripts/processor.py:88 | removing a character distributes over concatenation |
| Text.RemoveEnclosing | backend/scripts/processor.py:66 | removing the quote from a quoted name that holds none gives the name back |
| Text.ReplaceChar | backend/scripts/processor.py:94 | `replace(',', '.')`: same length, exactly the matching positions changed |
| Text.ContainsAt | backend/scripts/processor.py:72-73 | an occurrence at any index makes `str.contains` true |
| Collections.Filter | backend/scripts/validator.py:69 | `df[mask]`: exactly the rows satisfying the mask, as an order-preserving subsequence; a row satisfying the mask occurs as often as in the input |
| Collections.FilterPartition | backend/scripts/validator.py:80-81 | a mask and its negation split the rows: the two multisets add up to the input |
| Collections.SubsequenceTransitive | backend/scripts/validator.py:69-81 | filters applied one after another still give a subsequence of the input |
| Collections.DistinctKeys | backend/scripts/processor.py:117 | the groups: duplicate-free, and a key is a group iff some row has it |
| Collections.ValuesFor | backend/scripts/processor.py:117-119 | a group's amounts: empty exactly for a key no row has |
| Collections.GroupTotalsPartition | backend/scripts/processor.py:117-119 | summing every group's total gives the input total: a group-by-sum neither loses nor duplicates money |
| Validator.CheckDigit | backend/scripts/validator.py:23-26 | `calcular_digito` is a digit 0–9; it is 0 iff the weighted sum mod 11 is below 2; otherwise it completes the sum to a multiple of 11 |
| Validator.WeightedSumOfPrefix | backend/scripts/validator.py:24 | the weighted sum over the first n digits depends only on those digits |
| Validator.ValidCnpj | backend/scripts/validator.py:18-35 | false for any length other than 14 and for any constant string; true only when both check digits match |
| Validator.CompleteCnpj | backend/scripts/validator.py:28-33 | appending the two computed check digits to a 12-digit base gives a 14-digit string starting with the base |
| Validator.ValidCnpjIsCompletion | backend/scripts/validator.py:28-35 | a non-constant 14-digit string is valid iff it equals the completion of its first twelve digits |
| Validator.ChangedCheckDigitIsInvalid | backend/scripts/validator.py:31-34 | changing only check digit 13 or 14 of a valid CNPJ makes it invalid |
| Validator.RepeatedDigitCnpj | backend/scripts/validator.py:20 | fourteen copies of a digit are rejected; only the all-zero string even satisfies the check-digit arithmetic |
| Validator.KnownCnpjs | backend/scripts/validator.py:18-35 | 11222333000181 is valid and 11222333000182 is not |
| Validator.ValidIdentifier | backend/scripts/validator.py:37-57 | a valid identifier has 1–6 digits or exactly 14 |
| Validator.IdentifierByLength | backend/scripts/validator.py:44-57 | by the number of digits: 0 invalid, 1–6 valid, 7–13 and over 14 invalid, 14 decided by the CNPJ rule |
| Validator.IdentifierIgnoresSeparators | backend/scripts/validator.py:42 | inserting any non-digit character ('.', '/', '-', …) never changes the verdict |
| Validator.Validate | backend/scripts/validator.py:69-81 | `validos` is exactly the input rows with a non-blank name, a positive amount and a valid identifier; `invalidos` the ones with an invalid identifier; both are order-preserving subsequences |
| Validator.ValidationPartitions | backend/scripts/validator.py:77-81 | the valid and invalid rows together are exactly the rows passing the name and amount filters |
| Processor.Basename | backend/scripts/processor.py:23 | the base name holds no '/', and a '/' precedes it in the path whenever it is shorter than the path |
| Processor.BasenameIsSuffix | backend/scripts/processor.py:23 | the base name is the tail of the path |
| Processor.BasenameOfJoin | backend/scripts/processor.py:23 | the base name of `dir/name` is `name` |
| Processor.FindYear | backend/scripts/processor.py:30 | `re.search(r"20\d{2}")`: the leftmost "20dd" at or after the start, or none |
| Processor.FindQuarter | backend/scripts/processor.py:36 | `re.search(r"(\d)T")`: the leftmost digit followed by 'T', or none |
| Processor.YearOf | backend/scripts/processor.py:26-32 | the year is the four characters of the leftmost "20dd" match in the name, or "2025" when there is none; either way four digits starting "20" |
| Processor.QuarterOf | backend/scripts/processor.py:27-38 | the quarter is the name's digit at the leftmost digit-then-'T' match of the upper-cased name, or "1" when there is none; any digit, not restricted to 1–4 |
| Processor.ExtractPeriod | backend/scripts/processor.py:22-40 | the period of a path is the year and the quarter of its base name, each with its own fallback |
| Processor.PeriodOfName | backend/scripts/processor.py:22-40 | for `dir/name`, the period is the leftmost "20dd" of the name and the digit of the leftmost digit-then-'T' of the upper-cased name |
| Processor.PeriodIgnoresDirectories | backend/scripts/processor.py:23 | only the base name decides the period |
| Processor.PeriodIsCaseInsensitive | backend/scripts/processor.py:35-36 | two names equal up to case have the same period |
| Processor.NormalizeSeparators | backend/scripts/processor.py:92-94 | no ',' survives; a text without ',' is unchanged; a text lacking '.' or ',' keeps its length and has every ',' replaced by '.'; a text with both gets shorter |
| Processor.PointsBeforeCommaDropped | backend/scripts/processor.py:92-94 | with a ',' present, a text normalises as the same text with all its '.' removed, which then falls under the comma-to-point rule |
| Processor.CommaBecomesPoint | backend/scripts/processor.py:94 | "1234,56" becomes "1234.56" |
| Processor.DropThousandsPoint | backend/scripts/processor.py:92-94 | "a.b,c" and "ab,c" normalise alike: the point is a thousands separator |
| Processor.ParseUnsigned | backend/scripts/processor.py:96 | `float()` on unsigned text: a parsed value is never negative, and a digit string reads as the number it spells |
| Processor.ParsedTextShape | backend/scripts/processor.py:96 | only a non-empty text of digits with at most one '.' reads as an unsigned number |
| Processor.ShiftedIsDivision | backend/scripts/processor.py:96 | the fraction digits after the point are worth their value divided by 10^(their count) |
| Processor.ParseDecimal | backend/scripts/processor.py:96 | `float()` with an optional sign: a text starting with '-' never reads as a positive number, and a text with no leading sign reads as its unsigned parse |
| Processor.SignedParse | backend/scripts/processor.py:96 | a leading '+' changes nothing, and a leading '-' parses exactly when the rest does, to the negated value |
| Processor.ParseFixedPoint | backend/scripts/processor.py:96 | "t.f" reads as t + f / 10^\|f\| |
| Processor.CleanAmount | backend/scripts/processor.py:87-98 | `limpar_valor` never fails: after quote removal and stripping, an empty, "nan" or unparsable value is 0.0, and any other value is the parse of its normalised text |
| Processor.CleanAmountOfTrimmed | backend/scripts/processor.py:88-96 | a trimmed, quote-free value other than "nan" cleans to its parse |
| Processor.QuotesAreIgnored | backend/scripts/processor.py:88 | quotes around an amount do not change its value |
| Processor.CleanAmountOfInteger | backend/scripts/processor.py:87-98 | an integer written out cleans back to itself |
| Processor.CleanAmountOfDigits | backend/scripts/processor.py:87-98 | a digit string cleans to the number it spells |
| Processor.CleanAmountWithCents | backend/scripts/processor.py:91-96 | "n,cd" cleans to n + cd/100 |
| Processor.CleanAmountOfNegative | backend/scripts/processor.py:87-98 | "-n" cleans to −n |
| Processor.NegativeDigitsClean | backend/scripts/processor.py:87-98 | a '-' before any digit string cleans to minus the number the digits spell |
| Processor.NegativeAmountIsDropped | backend/scripts/processor.py:96-103 | a row whose amount cleans from "-n" is not kept by the `ValorDespesas > 0` filter |
| Processor.ThousandsSeparatorIgnored | backend/scripts/processor.py:91-94 | "a.b,c" and "ab,c" have the same amount |
| Processor.SameNormalFormSameAmount | backend/scripts/processor.py:88-98 | two quote-free values with a digit at each end that normalise alike have the same amount |
| Processor.NormalizeHeader | backend/scripts/processor.py:66 | a normalised header is upper case and holds no '"' |
| Processor.NormalizedHeaders | backend/scripts/processor.py:66 | every column is normalised, position by position |
| Processor.QuotedHeaderKeepsInnerSpace | backend/scripts/processor.py:66 | the strip comes before the quote removal: `" descricao"` becomes `" DESCRICAO"` |
| Processor.PaddedHeaderIsTrimmed | backend/scripts/processor.py:66 | `" descricao "` becomes `"DESCRICAO"` |
| Processor.CanonicalHeaderIsKept | backend/scripts/processor.py:66 | an already canonical header is unchanged |
| Processor.ColumnIndex | backend/scripts/processor.py:69 | a column is found exactly when its name is in the header, at the first position holding that name |
| Processor.ClaimRows | backend/scripts/processor.py:70-75 | exactly the rows whose stripped description contains "EVENTOS" and "SINISTROS" in any case, in input order, each as often as in the input |
| Processor.RowsToExpenses | backend/scripts/processor.py:78-83 | one expense per row, stamped with the file's year and quarter |
| Processor.PositiveRows | backend/scripts/processor.py:103 | exactly the rows with an amount above 0, in input order, each as often as in the input |
| Processor.ClaimExpenses | backend/scripts/processor.py:75-100 | one expense per claims row, in order |
| Processor.ProcessChunk | backend/scripts/processor.py:66-104 | an appended frame holds only positive amounts stamped with the file's period |
| Processor.ChunkOutcomeCases | backend/scripts/processor.py:69-80 | no frame without DESCRICAO; a frame needs REG_ANS and VL_SALDO_FINAL; claims rows without them raise |
| Processor.FrameRowsSound | backend/scripts/processor.py:69-104 | every appended row comes from a claims row of the chunk with a positive amount |
| Processor.FrameRowsComplete | backend/scripts/processor.py:69-104 | every claims row with a positive amount is appended |
| Processor.ErrorKeepsEarlierFrames | backend/scripts/processor.py:104-107 | an exception in chunk k abandons the file but keeps the frames of chunks before k |
| Processor.AbandonedScanIsFinal | backend/scripts/processor.py:106-107 | after the exception nothing more of that file is appended |
| Processor.ScanFile | backend/scripts/processor.py:62-107 | the chunk loop appends exactly the frames of the scan specification |
| Processor.ProcessFiles | backend/scripts/processor.py:42-125 | the file loop, concatenation and consolidation compute the specification: no file, no frame, or the consolidated rows |
| Processor.ExpensePairs | backend/scripts/processor.py:117 | each row becomes its (CNPJ, RazaoSocial, Trimestre, Ano) key and amount, in order |
| Processor.GroupRows | backend/scripts/processor.py:117-119 | one row per listed key, with that group's summed amount |
| Processor.Consolidate | backend/scripts/processor.py:113-119 | one row per distinct key carrying its group's sum; the grand total is preserved |
| Processor.ConsolidatedKeysDistinct | backend/scripts/processor.py:117 | no two consolidated rows share a key |
| Processor.ConsolidateCoversRow | backend/scripts/processor.py:117 | every input row's key has a consolidated row |
| Processor.ConsolidatedRowIsGroup | backend/scripts/processor.py:117-119 | every consolidated row is a group of the input, carrying its group's sum |
| Processor.ConsolidateExample | backend/scripts/processor.py:117-119 | 100 and 50 under one key consolidate to one row of 150 |
| Processor.ConsolidateOne | backend/scripts/processor.py:117-119 | a single row consolidates to itself |
| Processor.WrittenRowsArePositive | backend/scripts/processor.py:103-119 | every consolidated row written has a positive amount |
| Enricher.FirstPresent | backend/scripts/enricher.py:75-78 | the first alias, in list order, present in the header; none iff no alias is present |
| Enricher.FirstPresentIsFirst | backend/scripts/enricher.py:75-78 | a present alias preceded only by absent ones is the one chosen |
| Enricher.ResolveAliases | backend/scripts/enricher.py:74-78 | the nested loop with `break` builds the alias-to-target mapping of its specification |
| Enricher.ResolveColumns | backend/scripts/enricher.py:64-78 | the mapping for the four canonical targets and their aliases |
| Enricher.OnlyAliasesAreMapped | backend/scripts/enricher.py:74-78 | only listed aliases become keys of the mapping |
| Enricher.MappingSize | backend/scripts/enricher.py:74-80 | with disjoint alias lists, the mapping has one key per resolved target, so it is full iff every target resolves |
| Enricher.MappingCompleteIffResolved | backend/scripts/enricher.py:80 | `len(mapeamento) < 4` holds exactly when some target has no alias present |
| Enricher.MappingPicksFirstAlias | backend/scripts/enricher.py:74-78 | a resolved target is reached through its first present alias |
| Enricher.ColumnMappingPicksFirstAlias | backend/scripts/enricher.py:67-78 | the same for the four canonical targets |
| Enricher.ColumnOf | backend/scripts/enricher.py:75-84 | the column chosen for a canonical field is the first column named by that field's first present alias |
| Enricher.Project | backend/scripts/enricher.py:84 | one registry entry per registry row, each field taken from that row's cell under the column chosen for the field |
| Enricher.KeepFirst | backend/scripts/enricher.py:85 | registry numbers are unique after deduplication, the survivors keep their input order, and every number still occurs |
| Enricher.KeepFirstKeepsFirsts | backend/scripts/enricher.py:85 | an entry survives iff it is the first with its registry number |
| Enricher.MatchesFor | backend/scripts/enricher.py:92-98 | the entries whose stripped registry number equals the row's stripped identifier |
| Enricher.JoinRow | backend/scripts/enricher.py:92-98 | a left join gives every expense row at least one joined row, all carrying that row; which entries it pairs with is stated by `JoinRowPairsMatches` |
| Enricher.JoinRowPairsMatches | backend/scripts/enricher.py:92-98 | an expense row is paired with an entry iff the entry's stripped registry number equals its stripped identifier, and with nothing iff no entry's does |
| Enricher.MergeMatchesKeys | backend/scripts/enricher.py:92-98 | every joined row comes from an input row and a matching registry entry, if any; the converse directions are `MergeFindsMatch` and `MergeNoneOnlyUnmatched` |
| Enricher.MergeKeepsEveryRow | backend/scripts/enricher.py:92-98 | no expense row is lost by the left join |
| Enricher.MergeFindsMatch | backend/scripts/enricher.py:92-98 | every registry entry whose key agrees with an expense row's is joined to that row (converse of `MergeMatchesKeys`) |
| Enricher.MergeNoneOnlyUnmatched | backend/scripts/enricher.py:92-98 | an expense row is joined to nothing only when no registry entry's key agrees with it |
| Enricher.AtMostOneMatch | backend/scripts/enricher.py:92-98 | with unique stripped keys, a row matches at most one entry |
| Enricher.MergeOneToOne | backend/scripts/enricher.py:85-98 | with unique stripped keys, the join keeps every row exactly once and in order |
| Enricher.Fill | backend/scripts/enricher.py:102-117 | name, quarter, year and amount pass through unchanged |
| Enricher.FillProperties | backend/scripts/enricher.py:102-117 | RegistroANS is the stripped expense identifier; CNPJ is the registry CNPJ when present, else that identifier; Modalidade and UF are never missing, defaulting to 'NÃO ENCONTRADO' and 'NI' |
| Enricher.EnrichData | backend/scripts/enricher.py:64-117 | the alias loop, the completeness check, the dedup, the join and the fills compute the specification |
| Enricher.EnrichAbortsIffUnresolved | backend/scripts/enricher.py:80-82 | nothing is produced exactly when some canonical column has none of its aliases |
| Enricher.EnrichedRowPerJoin | backend/scripts/enricher.py:105-117 | otherwise each joined row becomes exactly one eight-column output row, in join order |
| Enricher.StrippedKeysCanDuplicateRows | backend/scripts/enricher.py:85-98 | dedup before strip: registry numbers "123" and " 123" both survive and duplicate the matching expense row |
| Aggregator.RowPairs | backend/scripts/aggregator.py:24 | each row becomes its (RazaoSocial, UF) key and amount, in order |
| Aggregator.Variance | backend/scripts/aggregator.py:27-32 | the sample variance (n−1) is non-negative, and 0 for a single-row group |
| Aggregator.SummaryOf | backend/scripts/aggregator.py:24-32 | a group's total is the sum of its amounts and its mean times its size is that total; its variance times n−1 is the sum of squared deviations from the mean for two or more rows, is non-negative, and is 0 for one row |
| Aggregator.ConstantGroup | backend/scripts/aggregator.py:26-27 | a group of equal amounts has that amount as mean and no deviation |
| Aggregator.SummariesFor | backend/scripts/aggregator.py:24-28 | one summary per listed group, whose totals add up to the groups' sums |
| Aggregator.Summarize | backend/scripts/aggregator.py:24-32 | one summary per distinct (RazaoSocial, UF); the totals add up to the input total |
| Aggregator.SummarizeDistinctGroups | backend/scripts/aggregator.py:24 | no group appears twice |
| Aggregator.Insert | backend/scripts/aggregator.py:35 | insertion adds exactly the new summary |
| Aggregator.InsertDescending | backend/scripts/aggregator.py:35 | insertion keeps a descending list descending |
| Aggregator.SortByTotal | backend/scripts/aggregator.py:35 | `sort_values(ascending=False)`: non-increasing totals and a permutation of the input |
| Aggregator.SortKeepsTotal | backend/scripts/aggregator.py:35 | sorting keeps the grand total |
| Aggregator.SortKeepsDistinctGroups | backend/scripts/aggregator.py:35 | sorting keeps the groups distinct |
| Aggregator.Aggregate | backend/scripts/aggregator.py:24-35 | the output is non-increasing by total, a permutation of the group summaries, and its totals add up to the input total |
| Aggregator.AggregateDistinctGroups | backend/scripts/aggregator.py:24-35 | exactly one output row per distinct (RazaoSocial, UF) |
| Aggregator.AggregateCoversRow | backend/scripts/aggregator.py:24 | every input row's group is in the output, summarised over exactly its amounts |
| Aggregator.AggregateRowIsGroup | backend/scripts/aggregator.py:24-28 | every output row is the summary of a group present in the input |
| Aggregator.AggregateOne | backend/scripts/aggregator.py:24-35 | a single row gives one group with total and mean equal to its amount and deviation 0 |
| Pipeline.ChunkOfOneClaim | backend/scripts/processor.py:66-104 | a chunk with REG_ANS, DESCRICAO, VL_SALDO_FINAL and one claims line appends one row named "OPERADORA " + REG_ANS |
| Pipeline.FileOfOneRow | backend/scripts/processor.py:109-119 | a single file whose single chunk appends one row is written as that row |
| Pipeline.ValidRowIsKept | backend/scripts/validator.py:69-81 | a row with a name, a positive amount and a valid identifier is kept and nothing is discarded |
| Pipeline.EnrichWithoutMatch | backend/scripts/enricher.py:92-117 | an unmatched row keeps its identifier as CNPJ and RegistroANS and gets 'NÃO ENCONTRADO' and 'NI' |
| Pipeline.PeriodOfPath | backend/scripts/processor.py:22-40 | "raw/ITR_2024_2T.csv" is year 2024, quarter 2 |
| Pipeline.QuotedAmountValue | backend/scripts/processor.py:87-98 | `"1.500,00"` with its quotes is 1500 |
| Pipeline.ClaimsDescription | backend/scripts/processor.py:70-73 | "EVENTOS/SINISTROS CONHECIDOS" passes the claims filter |
| Pipeline.ShortIdentifier | backend/scripts/validator.py:44-50 | "12345" is a valid short identifier |
| Pipeline.ProcessedLineItem | backend/scripts/processor.py:42-119 | the line item of "raw/ITR_2024_2T.csv" with amount `"1.500,00"` is written as one row of 1500 for 2024, quarter 2 |
| Pipeline.ValidatedLineItem | backend/scripts/validator.py:69-81 | the validation keeps that row and discards nothing |
| Pipeline.EnrichedLineItem | backend/scripts/enricher.py:64-117 | a registry that only knows operator 99999 leaves that row with 'NÃO ENCONTRADO' and 'NI' |
| Pipeline.EndToEnd | backend/scripts/enricher.py:51 | one line item becomes one consolidated row of 1500 for 2024 Q2; it is validated, enriched with 'NÃO ENCONTRADO' and 'NI', and aggregated to total 1500, mean 1500, deviation 0 |

## Left out

- File and network I/O: globbing `data/raw`, `read_csv` (separators, latin-1, the `,` fallback for the registry), every CSV and zip write, and logging. A raw file is given as the chunks its reader delivers; a read failure ends a file the same way as an exception in a chunk.
- The registry download (`buscar_e_baixar_csv`) and registry read failures (enricher.py:47-60): the model starts from a registry that was read.
- `criar_zip` after `process_files`: `process_files` returns None on success, so that path never runs; it is not modelled.
- The loader, the crawler, `run_pipeline.py`, the API and the front end are not part of this model.
- Floating point: amounts are exact reals. `float()` is modelled as a plain decimal reader: an optional sign, then digits with at most one point. "inf", "1e3", "1_000" and "NaN" are read as unparsable, so they clean to 0.0. Rounding of sums is not modelled.
- Aggregator.SummaryOf: states the sample variance instead of the standard deviation, since the square root is not modelled.
- pandas dtype inference and NA recognition: cells are text. `validar_identificador` gets the cell's text, and an amount of 0 or below is dropped exactly as `ValorDespesas > 0` does.
- Processor.Consolidate: groups come out in order of first appearance, while pandas `groupby` sorts the keys; groups whose key holds a missing value, which pandas drops, are not represented.
- Chunk size (100000 rows) and `on_bad_lines='skip'`: every chunk row is assumed to have one cell per column (`WellFormedChunk`). A duplicated column name is resolved to its first occurrence. In the code, two headers that both normalise to DESCRICAO make `chunk['DESCRICAO']` a DataFrame. Its `.str` then raises (processor.py:72), and the rest of the file is abandoned (processor.py:106-107).
- Text handling is ASCII: `upper`, `strip` and `\d` are modelled for ASCII characters only.
- Validator.ValidCnpj: requires a 14-character, non-constant input to be made of digits. `int()` raises on most such inputs with a non-digit; the only caller passes the digits extracted by `validar_identificador`.
- Aggregator.SortByTotal: ties between equal totals come out in one particular order (insertion order). The contract promises only the non-increasing order and the permutation, because `sort_values` does not fix the order of ties.
- Processor.Basename: the contract states that the base name has no '/' and that a '/' precedes it whenever it is shorter than the path. That it is the tail of the path is proved separately (`Processor.BasenameIsSuffix`), and so is the fact that it equals `name` for `dir + "/" + name` (`Processor.BasenameOfJoin`).
