/**
 * The enricher (`backend/scripts/enricher.py`): joins the consolidated
 * expense rows with the operators' registry. The registry's columns are
 * located through an alias table; the registry is deduplicated on its
 * registry number, left-joined on the stripped identifiers, and the gaps
 * are filled with defaults.
 *
 * A registry cell is `None` where the CSV reader produced a missing value.
 */
module Enricher {
  import opened Text
  import opened Collections
  import Processor

  // ---------------------------------------------------------------------------
  // Column resolution (mapeamento, colunas_procuradas)
  // ---------------------------------------------------------------------------

  /** A canonical registry field and the header names it may appear under, in order of preference. */
  datatype Target = Target(alvo: string, aliases: seq<string>)

  const ColunasProcuradas: seq<Target> := [
    Target("CNPJ_CADASTRO", ["CNPJ", "cnpj"]),
    Target("RegistroANS", ["REGISTRO_OPERADORA", "Registro_ANS", "Registro ANS", "Reg_ANS"]),
    Target("Modalidade", ["Modalidade", "MODALIDADE"]),
    Target("UF", ["UF", "Uf", "Estado"])
  ]

  /** The first alias, in list order, that is a column of the header. */
  function FirstPresent(aliases: seq<string>, header: seq<string>): (r: Option<string>)
    ensures r.Some? ==> r.value in aliases && r.value in header
    ensures r.Some? ==> exists a :: 0 <= a < |aliases| && aliases[a] == r.value
                           && forall j :: 0 <= j < a ==> aliases[j] !in header
    ensures r.None? <==> forall a :: a in aliases ==> a !in header
  {
    if |aliases| == 0 then None
    else if aliases[0] in header then Some(aliases[0])
    else
      var rest := FirstPresent(aliases[1..], header);
      assert forall a :: a in aliases ==> a == aliases[0] || a in aliases[1..];
      if rest.Some? then
        assert exists a :: 0 <= a < |aliases| && aliases[a] == rest.value
                           && forall j :: 0 <= j < a ==> aliases[j] !in header by {
          var a :| 0 <= a < |aliases[1..]| && aliases[1..][a] == rest.value
                   && forall j :: 0 <= j < a ==> aliases[1..][j] !in header;
          assert forall j :: 0 <= j < a + 1 ==> aliases[j] !in header by {
            forall j | 0 <= j < a + 1 ensures aliases[j] !in header {
              if j > 0 { assert aliases[j] == aliases[1..][j - 1]; }
            }
          }
          assert aliases[a + 1] == rest.value;
        }
        rest
      else rest
  }

  /** The alias-to-target map built by the loop over the first `ts` targets. */
  function MappingOf(ts: seq<Target>, header: seq<string>): map<string, string> {
    if |ts| == 0 then map[]
    else
      var m := MappingOf(ts[..|ts| - 1], header);
      var t := ts[|ts| - 1];
      match FirstPresent(t.aliases, header)
      case Some(alias) => m[alias := t.alvo]
      case None => m
  }

  /** `mapeamento` after the loop: every resolved target's first present alias, mapped to the target. */
  function ColumnMapping(header: seq<string>): map<string, string> {
    MappingOf(ColunasProcuradas, header)
  }

  /**
   * The alias resolution loop: for each target in order, the first alias
   * present in the header is mapped to the target and the search for that
   * target stops.
   */
  method ResolveColumns(header: seq<string>) returns (mapeamento: map<string, string>)
    ensures mapeamento == ColumnMapping(header)
  {
    mapeamento := ResolveAliases(ColunasProcuradas, header);
  }

  /** The alias resolution loop over any list of targets. */
  method ResolveAliases(targets: seq<Target>, header: seq<string>) returns (mapeamento: map<string, string>)
    ensures mapeamento == MappingOf(targets, header)
  {
    mapeamento := map[];
    var t := 0;
    while t < |targets|
      invariant 0 <= t <= |targets|
      invariant mapeamento == MappingOf(targets[..t], header)
    {
      var alvo, aliases := targets[t].alvo, targets[t].aliases;
      ghost var before := mapeamento;
      var a := 0;
      while a < |aliases|
        invariant 0 <= a <= |aliases|
        invariant mapeamento == before
        invariant forall j :: 0 <= j < a ==> aliases[j] !in header
      {
        if aliases[a] in header {
          FirstPresentIsFirst(aliases, header, a);
          mapeamento := mapeamento[aliases[a] := alvo];
          break;
        }
        a := a + 1;
      }
      if a == |aliases| {
        assert forall x :: x in aliases ==> x !in header;
      }
      assert targets[..t + 1][..t] == targets[..t];
      t := t + 1;
    }
    assert targets[..t] == targets;
  }

  /** An alias present in the header, after aliases that are all absent, is the one chosen. */
  lemma {:induction false} FirstPresentIsFirst(aliases: seq<string>, header: seq<string>, a: nat)
    requires a < |aliases| && aliases[a] in header
    requires forall j :: 0 <= j < a ==> aliases[j] !in header
    ensures FirstPresent(aliases, header) == Some(aliases[a])
  {
    if a > 0 {
      assert aliases[1..][a - 1] == aliases[a];
      FirstPresentIsFirst(aliases[1..], header, a - 1);
    }
  }

  /** Every target resolves: some alias of each target is a column. */
  predicate AllResolved(header: seq<string>) {
    forall t :: 0 <= t < |ColunasProcuradas| ==> FirstPresent(ColunasProcuradas[t].aliases, header).Some?
  }

  /** A name that is no target's alias never becomes a key of the mapping. */
  lemma {:induction false} OnlyAliasesAreMapped(ts: seq<Target>, header: seq<string>, x: string)
    requires forall t :: 0 <= t < |ts| ==> x !in ts[t].aliases
    ensures x !in MappingOf(ts, header)
  {
    if |ts| > 0 {
      var init := ts[..|ts| - 1];
      assert forall t :: 0 <= t < |init| ==> init[t] == ts[t];
      OnlyAliasesAreMapped(init, header, x);
    }
  }

  /** The alias lists of different targets share no name, so each resolved target adds its own entry. */
  lemma {:induction false} MappingSize(ts: seq<Target>, header: seq<string>)
    requires forall i, j, x :: 0 <= i < j < |ts| && x in ts[i].aliases ==> x !in ts[j].aliases
    ensures |MappingOf(ts, header)| <= |ts|
    ensures |MappingOf(ts, header)| == |ts| <==> forall t :: 0 <= t < |ts| ==> FirstPresent(ts[t].aliases, header).Some?
  {
    if |ts| > 0 {
      var init := ts[..|ts| - 1];
      assert forall t :: 0 <= t < |init| ==> init[t] == ts[t];
      MappingSize(init, header);
      MappingGrows(ts, header);
    }
  }

  /** The last target adds one entry when it resolves and none otherwise. */
  lemma {:induction false} MappingGrows(ts: seq<Target>, header: seq<string>)
    requires |ts| > 0
    requires forall i, j, x :: 0 <= i < j < |ts| && x in ts[i].aliases ==> x !in ts[j].aliases
    ensures |MappingOf(ts, header)| == |MappingOf(ts[..|ts| - 1], header)|
      + (if FirstPresent(ts[|ts| - 1].aliases, header).Some? then 1 else 0)
  {
    var init := ts[..|ts| - 1];
    var last := ts[|ts| - 1];
    var r := FirstPresent(last.aliases, header);
    if r.Some? {
      assert forall t :: 0 <= t < |init| ==> init[t] == ts[t];
      OnlyAliasesAreMapped(init, header, r.value);
    }
  }

  /** The mapping has four entries exactly when all four targets resolve (the check `len(mapeamento) < 4`). */
  lemma MappingCompleteIffResolved(header: seq<string>)
    ensures |ColumnMapping(header)| <= 4
    ensures |ColumnMapping(header)| == 4 <==> AllResolved(header)
  {
    var ts := ColunasProcuradas;
    forall i, j, x | 0 <= i < j < |ts| && x in ts[i].aliases ensures x !in ts[j].aliases {
    }
    MappingSize(ts, header);
  }

  /** A resolved target is reached through its first present alias. */
  lemma {:induction false} MappingPicksFirstAlias(ts: seq<Target>, header: seq<string>, t: nat)
    requires forall i, j, x :: 0 <= i < j < |ts| && x in ts[i].aliases ==> x !in ts[j].aliases
    requires t < |ts| && FirstPresent(ts[t].aliases, header).Some?
    ensures FirstPresent(ts[t].aliases, header).value in MappingOf(ts, header)
    ensures MappingOf(ts, header)[FirstPresent(ts[t].aliases, header).value] == ts[t].alvo
  {
    var init := ts[..|ts| - 1];
    var alias := FirstPresent(ts[t].aliases, header).value;
    if t < |ts| - 1 {
      assert init[t] == ts[t];
      MappingPicksFirstAlias(init, header, t);
      var r := FirstPresent(ts[|ts| - 1].aliases, header);
      if r.Some? {
        assert r.value != alias by {
          assert alias in ts[t].aliases;
        }
      }
    }
  }

  /** For each canonical field, the chosen column is the first of its aliases present in the header. */
  lemma ColumnMappingPicksFirstAlias(header: seq<string>, t: nat)
    requires t < 4 && FirstPresent(ColunasProcuradas[t].aliases, header).Some?
    ensures var alias := FirstPresent(ColunasProcuradas[t].aliases, header).value;
      alias in ColumnMapping(header) && ColumnMapping(header)[alias] == ColunasProcuradas[t].alvo
  {
    var ts := ColunasProcuradas;
    forall i, j, x | 0 <= i < j < |ts| && x in ts[i].aliases ensures x !in ts[j].aliases {
    }
    MappingPicksFirstAlias(ts, header, t);
  }

  // ---------------------------------------------------------------------------
  // Registry rows: projection and keep-first deduplication
  // ---------------------------------------------------------------------------

  /** The registry file as the CSV reader delivers it. */
  datatype Registry = Registry(header: seq<string>, rows: seq<seq<Option<string>>>)

  predicate WellFormedRegistry(reg: Registry) {
    forall i :: 0 <= i < |reg.rows| ==> |reg.rows[i]| == |reg.header|
  }

  /** A registry row after selecting and renaming the four mapped columns. */
  datatype RegistryEntry = RegistryEntry(
    cnpjCadastro: Option<string>, registroAns: Option<string>, modalidade: Option<string>, uf: Option<string>)

  /** The position of the column chosen for target `t`: the first column named by its first present alias. */
  function ColumnOf(header: seq<string>, t: nat): (c: nat)
    requires t < 4 && AllResolved(header)
    ensures c < |header| && header[c] == FirstPresent(ColunasProcuradas[t].aliases, header).value
    ensures forall k :: 0 <= k < c ==> header[k] != header[c]
  {
    Processor.ColumnIndex(header, FirstPresent(ColunasProcuradas[t].aliases, header).value).value
  }

  /** `df_cad[list(mapeamento.keys())].rename(columns=mapeamento)`. */
  function Project(reg: Registry): (es: seq<RegistryEntry>)
    requires WellFormedRegistry(reg) && AllResolved(reg.header)
    ensures |es| == |reg.rows|
    ensures forall i :: 0 <= i < |es| ==> es[i].cnpjCadastro == reg.rows[i][ColumnOf(reg.header, 0)]
    ensures forall i :: 0 <= i < |es| ==> es[i].registroAns == reg.rows[i][ColumnOf(reg.header, 1)]
    ensures forall i :: 0 <= i < |es| ==> es[i].modalidade == reg.rows[i][ColumnOf(reg.header, 2)]
    ensures forall i :: 0 <= i < |es| ==> es[i].uf == reg.rows[i][ColumnOf(reg.header, 3)]
  {
    seq(|reg.rows|, i requires 0 <= i < |reg.rows| => EntryOf(reg, i))
  }

  /** The `i`-th registry row, reduced to the four chosen columns. */
  function EntryOf(reg: Registry, i: nat): (e: RegistryEntry)
    requires WellFormedRegistry(reg) && AllResolved(reg.header) && i < |reg.rows|
    ensures e.cnpjCadastro == reg.rows[i][ColumnOf(reg.header, 0)]
    ensures e.registroAns == reg.rows[i][ColumnOf(reg.header, 1)]
    ensures e.modalidade == reg.rows[i][ColumnOf(reg.header, 2)]
    ensures e.uf == reg.rows[i][ColumnOf(reg.header, 3)]
  {
    var h, row := reg.header, reg.rows[i];
    RegistryEntry(row[ColumnOf(h, 0)], row[ColumnOf(h, 1)], row[ColumnOf(h, 2)], row[ColumnOf(h, 3)])
  }

  /** The registry numbers occurring in `s`. */
  function KeysOf(s: seq<RegistryEntry>): set<Option<string>> {
    set e | e in s :: e.registroAns
  }

  lemma KeysOfSnoc(s: seq<RegistryEntry>, e: RegistryEntry)
    ensures KeysOf(s + [e]) == KeysOf(s) + {e.registroAns}
  {
    forall x | x in KeysOf(s) ensures x in KeysOf(s + [e]) {
      var y :| y in s && y.registroAns == x;
      assert y in s + [e];
    }
    assert e in s + [e];
  }

  /** Entry `j` is the first of `s` with its registry number (missing values count as equal). */
  predicate IsFirstOfKey(s: seq<RegistryEntry>, j: int)
    requires 0 <= j < |s|
  {
    s[j].registroAns !in KeysOf(s[..j])
  }

  /** `drop_duplicates(subset=['RegistroANS'], keep='first')`. */
  function KeepFirst(s: seq<RegistryEntry>): (r: seq<RegistryEntry>)
    ensures forall i, j :: 0 <= i < j < |r| ==> r[i].registroAns != r[j].registroAns
    ensures forall e :: e in r ==> e in s
    ensures KeysOf(r) == KeysOf(s)
    ensures IsSubsequence(r, s)
  {
    if |s| == 0 then []
    else
      var init := s[..|s| - 1];
      var last := s[|s| - 1];
      var r := KeepFirst(init);
      assert s == init + [last];
      KeysOfSnoc(init, last);
      SubsequenceSnoc(r, init, last);
      if last.registroAns in KeysOf(r) then r
      else
        KeysOfSnoc(r, last);
        assert forall i :: 0 <= i < |r| ==> r[i] in r;
        r + [last]
  }

  /** An entry that comes first among those sharing its registry number survives deduplication. */
  lemma {:induction false} KeepFirstKeepsFirst(s: seq<RegistryEntry>, j: nat)
    requires j < |s| && IsFirstOfKey(s, j)
    ensures s[j] in KeepFirst(s)
  {
    var init := s[..|s| - 1];
    if j == |s| - 1 {
      assert s[..j] == init;
    } else {
      assert s[..j] == init[..j] && init[j] == s[j];
      KeepFirstKeepsFirst(init, j);
    }
  }

  /** Only such first entries survive deduplication. */
  lemma {:induction false} KeepFirstOnlyFirsts(s: seq<RegistryEntry>, e: RegistryEntry)
    requires e in KeepFirst(s)
    ensures exists j :: 0 <= j < |s| && s[j] == e && IsFirstOfKey(s, j)
  {
    var init := s[..|s| - 1];
    var last := s[|s| - 1];
    if e in KeepFirst(init) {
      KeepFirstOnlyFirsts(init, e);
      var j :| 0 <= j < |init| && init[j] == e && IsFirstOfKey(init, j);
      assert s[..j] == init[..j] && s[j] == init[j];
    } else {
      assert e == last && last.registroAns !in KeysOf(init);
      assert s[..|s| - 1] == init;
    }
  }

  /** Deduplication keeps exactly the entries that come first among those sharing their registry number. */
  lemma KeepFirstKeepsFirsts(s: seq<RegistryEntry>, e: RegistryEntry)
    ensures e in KeepFirst(s) <==> exists j :: 0 <= j < |s| && s[j] == e && IsFirstOfKey(s, j)
  {
    if e in KeepFirst(s) {
      KeepFirstOnlyFirsts(s, e);
    } else if exists j :: 0 <= j < |s| && s[j] == e && IsFirstOfKey(s, j) {
      var j :| 0 <= j < |s| && s[j] == e && IsFirstOfKey(s, j);
      KeepFirstKeepsFirst(s, j);
    }
  }

  // ---------------------------------------------------------------------------
  // Join and fill
  // ---------------------------------------------------------------------------

  /** `astype(str).str.strip()` on a registry number: a missing value becomes the text "nan". */
  function JoinKey(o: Option<string>): string {
    match o
    case None => "nan"
    case Some(v) => Strip(v)
  }

  /** `astype(str).str.strip()` on the expense file's identifier. */
  function FinKey(e: Processor.Expense): string {
    Strip(e.cnpj)
  }

  /** A row of the left join: the expense row and the registry entry it met, if any. */
  datatype Joined = Joined(fin: Processor.Expense, cad: Option<RegistryEntry>)

  /** The registry entries whose stripped registry number equals the row's stripped identifier, in registry order. */
  function MatchesFor(f: Processor.Expense, cad: seq<RegistryEntry>): (ms: seq<RegistryEntry>)
    ensures forall c :: c in ms <==> c in cad && JoinKey(c.registroAns) == FinKey(f)
  {
    if |cad| == 0 then []
    else
      assert forall c :: c in cad <==> c == cad[0] || c in cad[1..];
      (if JoinKey(cad[0].registroAns) == FinKey(f) then [cad[0]] else []) + MatchesFor(f, cad[1..])
  }

  /** No entry matches: the join finds nothing. */
  lemma {:induction false} NoMatches(f: Processor.Expense, cad: seq<RegistryEntry>)
    requires forall c :: c in cad ==> JoinKey(c.registroAns) != FinKey(f)
    ensures MatchesFor(f, cad) == []
  {
    if |cad| > 0 {
      assert cad[0] in cad;
      assert forall c :: c in cad[1..] ==> c in cad;
      NoMatches(f, cad[1..]);
    }
  }

  /** The rows one expense row contributes to the left join. */
  function JoinRow(f: Processor.Expense, cad: seq<RegistryEntry>): (js: seq<Joined>)
    ensures |js| >= 1
    ensures forall j :: j in js ==> j.fin == f
  {
    var ms := MatchesFor(f, cad);
    if |ms| == 0 then [Joined(f, None)]
    else seq(|ms|, i requires 0 <= i < |ms| => Joined(f, Some(ms[i])))
  }

  /**
   * The rows of one expense row pair it with exactly the registry entries
   * whose key agrees, and with nothing exactly when no entry agrees.
   */
  lemma JoinRowPairsMatches(f: Processor.Expense, cad: seq<RegistryEntry>)
    ensures forall c :: Joined(f, Some(c)) in JoinRow(f, cad) <==> c in cad && JoinKey(c.registroAns) == FinKey(f)
    ensures Joined(f, None) in JoinRow(f, cad) <==> forall c :: c in cad ==> JoinKey(c.registroAns) != FinKey(f)
  {
    var ms := MatchesFor(f, cad);
    var js := JoinRow(f, cad);
    if |ms| == 0 {
      forall c | c in cad ensures JoinKey(c.registroAns) != FinKey(f) {
        assert c !in ms;
      }
    } else {
      forall c ensures Joined(f, Some(c)) in js <==> c in ms {
        if c in ms {
          var i :| 0 <= i < |ms| && ms[i] == c;
          assert js[i] == Joined(f, Some(c));
        }
      }
      assert ms[0] in ms;
    }
  }

  /** `pd.merge(df_fin, df_cad, left_on='CNPJ', right_on='RegistroANS', how='left')`. */
  function Merge(fin: seq<Processor.Expense>, cad: seq<RegistryEntry>): seq<Joined> {
    if |fin| == 0 then []
    else Merge(fin[..|fin| - 1], cad) + JoinRow(fin[|fin| - 1], cad)
  }

  /** A joined row holds a registry entry only when the keys agree. */
  lemma {:induction false} MergeMatchesKeys(fin: seq<Processor.Expense>, cad: seq<RegistryEntry>, j: Joined)
    requires j in Merge(fin, cad)
    ensures j.fin in fin
    ensures j.cad.Some? ==> j.cad.value in cad && JoinKey(j.cad.value.registroAns) == FinKey(j.fin)
  {
    var init := fin[..|fin| - 1];
    if j in Merge(init, cad) {
      MergeMatchesKeys(init, cad, j);
    } else {
      var js := JoinRow(fin[|fin| - 1], cad);
      assert j in js;
      var ms := MatchesFor(fin[|fin| - 1], cad);
      if |ms| > 0 {
        var i :| 0 <= i < |js| && js[i] == j;
        assert j.cad.value == ms[i];
      }
    }
  }

  /** The left join keeps every expense row. */
  lemma {:induction false} MergeKeepsEveryRow(fin: seq<Processor.Expense>, cad: seq<RegistryEntry>, f: Processor.Expense)
    requires f in fin
    ensures exists j :: j in Merge(fin, cad) && j.fin == f
  {
    var init := fin[..|fin| - 1];
    if f in init {
      MergeKeepsEveryRow(init, cad, f);
      var j :| j in Merge(init, cad) && j.fin == f;
      assert j in Merge(fin, cad);
    } else {
      var js := JoinRow(f, cad);
      assert js[0] in Merge(fin, cad);
    }
  }

  /** Every registry entry whose key agrees with an expense row's is joined to that row. */
  lemma {:induction false} MergeFindsMatch(fin: seq<Processor.Expense>, cad: seq<RegistryEntry>, f: Processor.Expense, c: RegistryEntry)
    requires f in fin && c in cad && JoinKey(c.registroAns) == FinKey(f)
    ensures Joined(f, Some(c)) in Merge(fin, cad)
  {
    var init := fin[..|fin| - 1];
    if f in init {
      MergeFindsMatch(init, cad, f, c);
    } else {
      assert f == fin[|fin| - 1];
      JoinRowPairsMatches(f, cad);
    }
    assert Merge(fin, cad) == Merge(init, cad) + JoinRow(fin[|fin| - 1], cad);
  }

  /** An expense row is joined to nothing only when no registry entry's key agrees with it. */
  lemma {:induction false} MergeNoneOnlyUnmatched(fin: seq<Processor.Expense>, cad: seq<RegistryEntry>, f: Processor.Expense)
    requires Joined(f, None) in Merge(fin, cad)
    ensures forall c :: c in cad ==> JoinKey(c.registroAns) != FinKey(f)
  {
    var init, last := fin[..|fin| - 1], fin[|fin| - 1];
    if Joined(f, None) in Merge(init, cad) {
      MergeNoneOnlyUnmatched(init, cad, f);
    } else {
      assert Joined(f, None) in JoinRow(last, cad);
      JoinRowPairsMatches(f, cad);
    }
  }

  /** The stripped registry numbers of the entries are pairwise distinct. */
  predicate UniqueJoinKeys(cad: seq<RegistryEntry>) {
    forall i, j :: 0 <= i < j < |cad| ==> JoinKey(cad[i].registroAns) != JoinKey(cad[j].registroAns)
  }

  /** With unique stripped keys, an expense row meets at most one entry. */
  lemma {:induction false} AtMostOneMatch(f: Processor.Expense, cad: seq<RegistryEntry>)
    requires UniqueJoinKeys(cad)
    ensures |MatchesFor(f, cad)| <= 1
  {
    if |cad| > 0 {
      var rest := cad[1..];
      assert UniqueJoinKeys(rest) by {
        forall i, j | 0 <= i < j < |rest| ensures JoinKey(rest[i].registroAns) != JoinKey(rest[j].registroAns) {
          assert rest[i] == cad[i + 1] && rest[j] == cad[j + 1];
        }
      }
      AtMostOneMatch(f, rest);
      if JoinKey(cad[0].registroAns) == FinKey(f) {
        assert forall c :: c in rest ==> JoinKey(c.registroAns) != FinKey(f) by {
          forall c | c in rest ensures JoinKey(c.registroAns) != FinKey(f) {
            var k :| 0 <= k < |rest| && rest[k] == c;
            assert c == cad[k + 1];
          }
        }
        NoMatches(f, rest);
      }
    }
  }

  /**
   * When the stripped registry numbers are unique, the left join has
   * exactly one row per expense row, in the original order.
   */
  lemma {:induction false} MergeOneToOne(fin: seq<Processor.Expense>, cad: seq<RegistryEntry>)
    requires UniqueJoinKeys(cad)
    ensures |Merge(fin, cad)| == |fin|
    ensures forall i :: 0 <= i < |fin| ==> Merge(fin, cad)[i].fin == fin[i]
  {
    if |fin| > 0 {
      var init, last := fin[..|fin| - 1], fin[|fin| - 1];
      var m := Merge(init, cad);
      var js := JoinRow(last, cad);
      assert Merge(fin, cad) == m + js;
      assert fin == init + [last];
      MergeOneToOne(init, cad);
      SingleJoinRow(last, cad);
      RowsLineUp(m, init, js, last);
    }
  }

  /** Joined rows lined up with the expense rows stay lined up when one more row is joined once. */
  lemma RowsLineUp(m: seq<Joined>, init: seq<Processor.Expense>, js: seq<Joined>, last: Processor.Expense)
    requires |m| == |init| && forall i :: 0 <= i < |init| ==> m[i].fin == init[i]
    requires |js| == 1 && js[0].fin == last
    ensures |m + js| == |init + [last]|
    ensures forall i :: 0 <= i < |init + [last]| ==> (m + js)[i].fin == (init + [last])[i]
  {
  }

  /** With unique stripped keys, an expense row gives exactly one joined row. */
  lemma SingleJoinRow(f: Processor.Expense, cad: seq<RegistryEntry>)
    requires UniqueJoinKeys(cad)
    ensures |JoinRow(f, cad)| == 1 && JoinRow(f, cad)[0].fin == f
  {
    AtMostOneMatch(f, cad);
    var js := JoinRow(f, cad);
    assert js[0] in js;
  }

  const NaoEncontrado := "NÃO ENCONTRADO"
  const SemUf := "NI"

  /** A row of the enriched file: the eight output columns, in order. */
  datatype EnrichedRow = EnrichedRow(
    cnpj: string, razaoSocial: string, trimestre: string, ano: string, valorDespesas: real,
    registroAns: string, modalidade: string, uf: string)

  /** `fillna(default)` on one cell. */
  function GetOr(o: Option<string>, default: string): string {
    match o
    case Some(v) => v
    case None => default
  }

  /**
   * The post-processing of one joined row: CNPJ_Final is the registry's
   * CNPJ when present, else the stripped expense identifier; Modalidade and
   * UF default to their sentinels; a missing RegistroANS is filled from
   * the output CNPJ column, which is CNPJ_Final.
   */
  function Fill(j: Joined): (o: EnrichedRow)
    ensures o.razaoSocial == j.fin.razaoSocial && o.trimestre == j.fin.trimestre && o.ano == j.fin.ano
    ensures o.valorDespesas == j.fin.valorDespesas
  {
    var cadastro := if j.cad.Some? then j.cad.value.cnpjCadastro else None;
    var cnpjFinal := GetOr(cadastro, FinKey(j.fin));
    var registro := if j.cad.Some? then Some(JoinKey(j.cad.value.registroAns)) else None;
    EnrichedRow(
      cnpjFinal, j.fin.razaoSocial, j.fin.trimestre, j.fin.ano, j.fin.valorDespesas,
      GetOr(registro, cnpjFinal),
      GetOr(if j.cad.Some? then j.cad.value.modalidade else None, NaoEncontrado),
      GetOr(if j.cad.Some? then j.cad.value.uf else None, SemUf))
  }

  /** What enrich_data produces. */
  datatype EnrichResult =
    | MissingColumns(found: set<string>)     // fewer than four targets resolved: nothing is written
    | Enriched(rows: seq<EnrichedRow>)

  /** The whole of enrich_data after both files were read. */
  function Enrich(fin: seq<Processor.Expense>, reg: Registry): EnrichResult
    requires WellFormedRegistry(reg)
  {
    var m := ColumnMapping(reg.header);
    if |m| < 4 then MissingColumns(m.Keys)
    else
      MappingCompleteIffResolved(reg.header);
      Enriched(FillAll(Merge(fin, KeepFirst(Project(reg)))))
  }

  /** The fills applied to every joined row, in order. */
  function FillAll(joined: seq<Joined>): (rows: seq<EnrichedRow>)
    ensures |rows| == |joined| && forall i :: 0 <= i < |joined| ==> rows[i] == Fill(joined[i])
  {
    seq(|joined|, i requires 0 <= i < |joined| => Fill(joined[i]))
  }

  /** enrich_data: the alias loop, then the deduplication, the join and the fills. */
  method EnrichData(fin: seq<Processor.Expense>, reg: Registry) returns (result: EnrichResult)
    requires WellFormedRegistry(reg)
    ensures result == Enrich(fin, reg)
  {
    var mapeamento := ResolveColumns(reg.header);
    if |mapeamento| < 4 {
      return MissingColumns(mapeamento.Keys);
    }
    MappingCompleteIffResolved(reg.header);
    var joined := Merge(fin, KeepFirst(Project(reg)));
    return Enriched(FillAll(joined));
  }

  /** With every column resolved, each joined row becomes exactly one enriched row, in join order. */
  lemma EnrichedRowPerJoin(fin: seq<Processor.Expense>, reg: Registry)
    requires WellFormedRegistry(reg) && AllResolved(reg.header)
    ensures var joined := Merge(fin, KeepFirst(Project(reg)));
      var r := Enrich(fin, reg);
      r.Enriched? && |r.rows| == |joined| && forall i :: 0 <= i < |joined| ==> r.rows[i] == Fill(joined[i])
  {
    MappingCompleteIffResolved(reg.header);
  }

  /** Enrichment aborts exactly when some canonical field has none of its aliases in the registry header. */
  lemma EnrichAbortsIffUnresolved(fin: seq<Processor.Expense>, reg: Registry)
    requires WellFormedRegistry(reg)
    ensures Enrich(fin, reg).MissingColumns? <==> !AllResolved(reg.header)
  {
    MappingCompleteIffResolved(reg.header);
  }

  /**
   * Every enriched row: its RegistroANS is its stripped expense identifier;
   * its CNPJ is the registry's CNPJ when it met an entry with one, else the
   * stripped identifier; no Modalidade or UF is missing, the defaults being
   * 'NÃO ENCONTRADO' and 'NI' for a row that met no entry.
   */
  lemma FillProperties(fin: seq<Processor.Expense>, cad: seq<RegistryEntry>, j: Joined)
    requires j in Merge(fin, cad)
    ensures Fill(j).registroAns == FinKey(j.fin)
    ensures Fill(j).cnpj == (if j.cad.Some? && j.cad.value.cnpjCadastro.Some? then j.cad.value.cnpjCadastro.value else FinKey(j.fin))
    ensures j.cad.None? ==> Fill(j).modalidade == NaoEncontrado && Fill(j).uf == SemUf
    ensures j.cad.Some? ==>
      Fill(j).modalidade == GetOr(j.cad.value.modalidade, NaoEncontrado) && Fill(j).uf == GetOr(j.cad.value.uf, SemUf)
  {
    MergeMatchesKeys(fin, cad, j);
  }

  /** Two entries with different registry numbers both survive deduplication. */
  lemma KeepFirstOfDistinctPair(a: RegistryEntry, b: RegistryEntry)
    requires a.registroAns != b.registroAns
    ensures KeepFirst([a, b]) == [a, b]
  {
    assert [a, b][..1] == [a];
    assert [a][..0] == [];
    KeysOfSnoc([], a);
    assert [] + [a] == [a];
    assert KeepFirst([a]) == [a];
    assert KeysOf([a]) == {a.registroAns};
    assert [a, b] == [a] + [b];
  }

  /** Both entries of a pair match a row whose identifier equals both stripped keys. */
  lemma BothMatch(f: Processor.Expense, a: RegistryEntry, b: RegistryEntry)
    requires JoinKey(a.registroAns) == FinKey(f) && JoinKey(b.registroAns) == FinKey(f)
    ensures MatchesFor(f, [a, b]) == [a, b]
  {
    assert [a, b][1..] == [b];
    assert [b][1..] == [];
    assert MatchesFor(f, [b]) == [b];
  }

  /** A number with one leading space strips to the number, and the number to itself. */
  lemma StripLeadingSpace(k: string)
    requires |k| > 0 && IsDigit(k[0]) && IsDigit(k[|k| - 1])
    ensures Strip([' '] + k) == k && Strip(k) == k
  {
    var padded := [' '] + k;
    assert padded[1..] == k;
    assert TrimStart(padded) == TrimStart(k);
    Processor.StripKeeps(k);
  }

  /**
   * Deduplication happens before the keys are stripped: two entries whose
   * registry numbers differ only by surrounding spaces both survive, and
   * the expense row that matches them appears twice in the join.
   */
  lemma StrippedKeysCanDuplicateRows()
    ensures var f := Processor.Expense("123", "OP", "1", "2024", 10.0);
      var a := RegistryEntry(Some("1"), Some("123"), None, None);
      var b := RegistryEntry(Some("2"), Some(" 123"), None, None);
      KeepFirst([a, b]) == [a, b] && |Merge([f], KeepFirst([a, b]))| == 2
  {
    var f := Processor.Expense("123", "OP", "1", "2024", 10.0);
    var a := RegistryEntry(Some("1"), Some("123"), None, None);
    var b := RegistryEntry(Some("2"), Some(" 123"), None, None);
    assert Some("123") != Some(" 123") by { assert "123"[0] != " 123"[0]; }
    KeepFirstOfDistinctPair(a, b);
    assert " 123" == [' '] + "123";
    StripLeadingSpace("123");
    BothMatch(f, a, b);
    assert Merge([f], [a, b]) == Merge([], [a, b]) + JoinRow(f, [a, b]) by {
      assert [f][..0] == [];
    }
  }
}
