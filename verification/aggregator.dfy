/**
 * The aggregator (`backend/scripts/aggregator.py`): groups the enriched
 * rows by operator name and state, computes each group's total, mean and
 * sample deviation (a single-row group's undefined deviation becomes 0),
 * and orders the groups by total, largest first.
 *
 * The deviation is the square root of the sample variance; the model
 * carries the variance itself.
 */
module Aggregator {
  import opened Collections
  import Enricher

  /** The group-by key: `['RazaoSocial', 'UF']`. */
  datatype GroupKey = GroupKey(razaoSocial: string, uf: string)

  /** One row of the aggregated file. */
  datatype Summary = Summary(
    razaoSocial: string, uf: string, totalDespesas: real, mediaTrimestral: real, variancia: real)

  function KeyOfRow(r: Enricher.EnrichedRow): GroupKey {
    GroupKey(r.razaoSocial, r.uf)
  }

  function KeyOfSummary(s: Summary): GroupKey {
    GroupKey(s.razaoSocial, s.uf)
  }

  /** Each row's group key paired with its amount, in input order. */
  function RowPairs(rows: seq<Enricher.EnrichedRow>): (ps: seq<(GroupKey, real)>)
    ensures |ps| == |rows|
    ensures forall i :: 0 <= i < |rows| ==> ps[i] == (KeyOfRow(rows[i]), rows[i].valorDespesas)
  {
    if |rows| == 0 then []
    else RowPairs(rows[..|rows| - 1]) + [(KeyOfRow(rows[|rows| - 1]), rows[|rows| - 1].valorDespesas)]
  }

  // ---------------------------------------------------------------------------
  // Per-group statistics
  // ---------------------------------------------------------------------------

  /** `mean`: the sum over the count. */
  function Mean(vs: seq<real>): real
    requires |vs| > 0
  {
    Sum(vs) / (|vs| as real)
  }

  /** The sum of squared deviations from `m`. */
  function SquaredDeviations(vs: seq<real>, m: real): (d: real)
    ensures d >= 0.0
  {
    if |vs| == 0 then 0.0
    else
      var x := vs[|vs| - 1] - m;
      SquaredDeviations(vs[..|vs| - 1], m) + x * x
  }

  /**
   * The square of `std` with `fillna(0)`: the sample variance (divisor
   * n - 1) of two or more values, and 0 for a single value, whose sample
   * deviation is undefined.
   */
  function Variance(vs: seq<real>): (v: real)
    requires |vs| > 0
    ensures v >= 0.0
    ensures |vs| == 1 ==> v == 0.0
  {
    if |vs| == 1 then 0.0
    else SquaredDeviations(vs, Mean(vs)) / ((|vs| - 1) as real)
  }

  /** The aggregated row of group `k` with amounts `vs`. */
  function SummaryOf(k: GroupKey, vs: seq<real>): (s: Summary)
    requires |vs| > 0
    ensures KeyOfSummary(s) == k
    ensures s.totalDespesas == Sum(vs)
    ensures s.mediaTrimestral * (|vs| as real) == s.totalDespesas
    ensures |vs| >= 2 ==> s.variancia * ((|vs| - 1) as real) == SquaredDeviations(vs, s.mediaTrimestral)
    ensures s.variancia >= 0.0 && (|vs| == 1 ==> s.variancia == 0.0)
  {
    Summary(k.razaoSocial, k.uf, Sum(vs), Mean(vs), Variance(vs))
  }

  /** The sum of `n` copies of `c`. */
  lemma {:induction false} SumOfConstant(vs: seq<real>, c: real)
    requires forall i :: 0 <= i < |vs| ==> vs[i] == c
    ensures Sum(vs) == (|vs| as real) * c
  {
    if |vs| > 0 {
      SumOfConstant(vs[..|vs| - 1], c);
    }
  }

  lemma {:induction false} NoDeviationFromConstant(vs: seq<real>, c: real)
    requires forall i :: 0 <= i < |vs| ==> vs[i] == c
    ensures SquaredDeviations(vs, c) == 0.0
  {
    if |vs| > 0 {
      NoDeviationFromConstant(vs[..|vs| - 1], c);
    }
  }

  /** A group whose amounts are all equal has that amount as its mean and no deviation. */
  lemma ConstantGroup(k: GroupKey, vs: seq<real>, c: real)
    requires |vs| > 0 && forall i :: 0 <= i < |vs| ==> vs[i] == c
    ensures SummaryOf(k, vs).mediaTrimestral == c
    ensures SummaryOf(k, vs).variancia == 0.0
  {
    SumOfConstant(vs, c);
    NoDeviationFromConstant(vs, c);
  }

  // ---------------------------------------------------------------------------
  // Group-by
  // ---------------------------------------------------------------------------

  /** The totals column of a list of summaries. */
  function Totals(ss: seq<Summary>): (ts: seq<real>)
    ensures |ts| == |ss|
    ensures forall i :: 0 <= i < |ss| ==> ts[i] == ss[i].totalDespesas
  {
    seq(|ss|, i requires 0 <= i < |ss| => ss[i].totalDespesas)
  }

  /** One summary per listed key, over that key's amounts. */
  function SummariesFor(ps: seq<(GroupKey, real)>, ks: seq<GroupKey>): (ss: seq<Summary>)
    requires forall k :: k in ks ==> HasKey(ps, k)
    ensures |ss| == |ks|
    ensures forall i :: 0 <= i < |ks| ==> ss[i] == SummaryOf(ks[i], ValuesFor(ps, ks[i]))
    ensures Sum(Totals(ss)) == SumOverKeys(ps, ks)
  {
    if |ks| == 0 then []
    else
      var k := ks[|ks| - 1];
      var init := SummariesFor(ps, ks[..|ks| - 1]);
      var ss := init + [SummaryOf(k, ValuesFor(ps, k))];
      assert Totals(ss)[..|ss| - 1] == Totals(init);
      ss
  }

  /** `groupby(['RazaoSocial', 'UF']).agg(sum, mean, std)` with `fillna(0)` on the deviation. */
  function Summarize(rows: seq<Enricher.EnrichedRow>): (ss: seq<Summary>)
    ensures var ps := RowPairs(rows); var ks := DistinctKeys(ps);
      && |ss| == |ks|
      && forall i :: 0 <= i < |ss| ==> ss[i] == SummaryOf(ks[i], ValuesFor(ps, ks[i]))
    ensures Sum(Totals(ss)) == Total(RowPairs(rows))
  {
    var ps := RowPairs(rows);
    GroupTotalsPartition(ps);
    SummariesFor(ps, DistinctKeys(ps))
  }

  // ---------------------------------------------------------------------------
  // Ordering
  // ---------------------------------------------------------------------------

  /** Totals never increase along the list. */
  predicate Descending(ss: seq<Summary>) {
    forall i, j :: 0 <= i < j < |ss| ==> ss[i].totalDespesas >= ss[j].totalDespesas
  }

  /** No two summaries share a group key. */
  predicate DistinctGroups(ss: seq<Summary>) {
    forall i, j :: 0 <= i < j < |ss| ==> KeyOfSummary(ss[i]) != KeyOfSummary(ss[j])
  }

  /** Places `x` before the first summary whose total does not exceed its own. */
  function Insert(x: Summary, ss: seq<Summary>): (r: seq<Summary>)
    ensures multiset(r) == multiset(ss) + multiset{x}
    ensures forall y :: y in r <==> y == x || y in ss
  {
    if |ss| == 0 || ss[0].totalDespesas <= x.totalDespesas then [x] + ss
    else
      assert ss == [ss[0]] + ss[1..];
      [ss[0]] + Insert(x, ss[1..])
  }

  /** Insertion keeps a descending list descending. */
  lemma {:induction false} InsertDescending(x: Summary, ss: seq<Summary>)
    requires Descending(ss)
    ensures Descending(Insert(x, ss))
  {
    var r := Insert(x, ss);
    if |ss| == 0 || ss[0].totalDespesas <= x.totalDespesas {
      forall i, j | 0 <= i < j < |r| ensures r[i].totalDespesas >= r[j].totalDespesas {
        if i == 0 {
          assert r[j] == ss[j - 1];
        } else {
          assert r[i] == ss[i - 1] && r[j] == ss[j - 1];
        }
      }
    } else {
      var rest := Insert(x, ss[1..]);
      InsertDescending(x, ss[1..]);
      forall i, j | 0 <= i < j < |r| ensures r[i].totalDespesas >= r[j].totalDespesas {
        if i == 0 {
          assert r[j] == rest[j - 1] && rest[j - 1] in rest;
          if r[j] != x {
            var k :| 0 <= k < |ss[1..]| && ss[1..][k] == r[j];
            assert ss[k + 1] == r[j];
          }
        } else {
          assert r[i] == rest[i - 1] && r[j] == rest[j - 1];
        }
      }
    }
  }

  /** Prepending adds the element's total. */
  lemma PrependTotal(x: Summary, ss: seq<Summary>)
    ensures Sum(Totals([x] + ss)) == x.totalDespesas + Sum(Totals(ss))
  {
    assert Totals([x] + ss) == [x.totalDespesas] + Totals(ss);
    SumAppend([x.totalDespesas], Totals(ss));
    assert [x.totalDespesas][..0] == [];
  }

  /** Insertion adds the inserted summary's total to the list's. */
  lemma {:induction false} InsertTotal(x: Summary, ss: seq<Summary>)
    ensures Sum(Totals(Insert(x, ss))) == Sum(Totals(ss)) + x.totalDespesas
  {
    PrependTotal(x, ss);
    if |ss| > 0 && ss[0].totalDespesas > x.totalDespesas {
      assert ss == [ss[0]] + ss[1..];
      InsertTotal(x, ss[1..]);
      PrependTotal(ss[0], Insert(x, ss[1..]));
      PrependTotal(ss[0], ss[1..]);
    }
  }

  /** Inserting a summary of a new group keeps the groups distinct. */
  lemma {:induction false} InsertDistinct(x: Summary, ss: seq<Summary>)
    requires DistinctGroups(ss)
    requires forall y :: y in ss ==> KeyOfSummary(y) != KeyOfSummary(x)
    ensures DistinctGroups(Insert(x, ss))
  {
    if |ss| == 0 || ss[0].totalDespesas <= x.totalDespesas {
      assert Insert(x, ss) == [x] + ss;
      PrependDistinct(x, ss);
    } else {
      var head, tail := ss[0], ss[1..];
      var rest := Insert(x, tail);
      assert Insert(x, ss) == [head] + rest;
      assert forall i, j :: 0 <= i < j < |tail| ==> tail[i] == ss[i + 1] && tail[j] == ss[j + 1];
      InsertDistinct(x, tail);
      forall y | y in rest ensures KeyOfSummary(y) != KeyOfSummary(head) {
        if y == x {
          assert head in ss;
        } else {
          var k :| 0 <= k < |tail| && tail[k] == y;
          assert ss[k + 1] == y;
        }
      }
      PrependDistinct(head, rest);
    }
  }

  /** A summary whose group is new may be put in front. */
  lemma PrependDistinct(x: Summary, ss: seq<Summary>)
    requires DistinctGroups(ss)
    requires forall y :: y in ss ==> KeyOfSummary(y) != KeyOfSummary(x)
    ensures DistinctGroups([x] + ss)
  {
    var r := [x] + ss;
    forall i, j | 0 <= i < j < |r| ensures KeyOfSummary(r[i]) != KeyOfSummary(r[j]) {
      assert r[j] == ss[j - 1] && ss[j - 1] in ss;
      if i > 0 {
        assert r[i] == ss[i - 1];
      }
    }
  }

  /** `sort_values(by='TotalDespesas', ascending=False)`, with one admissible order among ties. */
  function SortByTotal(ss: seq<Summary>): (r: seq<Summary>)
    ensures Descending(r)
    ensures multiset(r) == multiset(ss)
    ensures forall y :: y in r <==> y in ss
  {
    if |ss| == 0 then []
    else
      assert ss == [ss[0]] + ss[1..];
      InsertDescending(ss[0], SortByTotal(ss[1..]));
      Insert(ss[0], SortByTotal(ss[1..]))
  }

  /** Sorting keeps the grand total. */
  lemma {:induction false} SortKeepsTotal(ss: seq<Summary>)
    ensures Sum(Totals(SortByTotal(ss))) == Sum(Totals(ss))
  {
    if |ss| > 0 {
      SortKeepsTotal(ss[1..]);
      InsertTotal(ss[0], SortByTotal(ss[1..]));
      HeadTailTotal(ss);
    }
  }

  /** A list's total is its head's amount plus its tail's total. */
  lemma HeadTailTotal(ss: seq<Summary>)
    requires |ss| > 0
    ensures Sum(Totals(ss)) == ss[0].totalDespesas + Sum(Totals(ss[1..]))
  {
    assert ss == [ss[0]] + ss[1..];
    PrependTotal(ss[0], ss[1..]);
  }

  /** Sorting summaries of distinct groups keeps them distinct. */
  lemma {:induction false} SortKeepsDistinctGroups(ss: seq<Summary>)
    requires DistinctGroups(ss)
    ensures DistinctGroups(SortByTotal(ss))
  {
    if |ss| > 0 {
      var rest := ss[1..];
      assert forall i, j :: 0 <= i < j < |rest| ==> rest[i] == ss[i + 1] && rest[j] == ss[j + 1];
      SortKeepsDistinctGroups(rest);
      forall y | y in SortByTotal(rest) ensures KeyOfSummary(y) != KeyOfSummary(ss[0]) {
        var k :| 0 <= k < |rest| && rest[k] == y;
        assert ss[k + 1] == y;
      }
      InsertDistinct(ss[0], SortByTotal(rest));
    }
  }

  // ---------------------------------------------------------------------------
  // The aggregation
  // ---------------------------------------------------------------------------

  /** executar_agregacao after the read: group, summarise, order. */
  function Aggregate(rows: seq<Enricher.EnrichedRow>): (out: seq<Summary>)
    ensures Descending(out)
    ensures multiset(out) == multiset(Summarize(rows))
    ensures forall s :: s in out <==> s in Summarize(rows)
    ensures Sum(Totals(out)) == Total(RowPairs(rows))
  {
    SortKeepsTotal(Summarize(rows));
    SortByTotal(Summarize(rows))
  }

  /** The groups of the summary are the distinct (RazaoSocial, UF) pairs of the input. */
  lemma SummarizeDistinctGroups(rows: seq<Enricher.EnrichedRow>)
    ensures DistinctGroups(Summarize(rows))
  {
    var ks := DistinctKeys(RowPairs(rows));
    var ss := Summarize(rows);
    forall i, j | 0 <= i < j < |ss| ensures KeyOfSummary(ss[i]) != KeyOfSummary(ss[j]) {
      assert KeyOfSummary(ss[i]) == ks[i] && KeyOfSummary(ss[j]) == ks[j];
    }
  }

  /** No two output rows share a (RazaoSocial, UF) pair. */
  lemma AggregateDistinctGroups(rows: seq<Enricher.EnrichedRow>)
    ensures DistinctGroups(Aggregate(rows))
  {
    SummarizeDistinctGroups(rows);
    SortKeepsDistinctGroups(Summarize(rows));
  }

  /**
   * Every input row's group has an output row whose total is the sum of
   * that group's amounts and whose mean times the group's size is that total.
   */
  lemma AggregateCoversRow(rows: seq<Enricher.EnrichedRow>, r: Enricher.EnrichedRow)
    requires r in rows
    ensures exists s :: s in Aggregate(rows) && KeyOfSummary(s) == KeyOfRow(r)
                        && s == SummaryOf(KeyOfRow(r), ValuesFor(RowPairs(rows), KeyOfRow(r)))
  {
    var ps := RowPairs(rows);
    var ks := DistinctKeys(ps);
    var i :| 0 <= i < |rows| && rows[i] == r;
    assert ps[i].0 == KeyOfRow(r);
    assert HasKey(ps, KeyOfRow(r));
    var j :| 0 <= j < |ks| && ks[j] == KeyOfRow(r);
    var s := Summarize(rows)[j];
    assert s in Summarize(rows);
  }

  /** Every output row is the summary of a group present in the input. */
  lemma AggregateRowIsGroup(rows: seq<Enricher.EnrichedRow>, s: Summary)
    requires s in Aggregate(rows)
    ensures HasKey(RowPairs(rows), KeyOfSummary(s))
    ensures s == SummaryOf(KeyOfSummary(s), ValuesFor(RowPairs(rows), KeyOfSummary(s)))
  {
    var ss := Summarize(rows);
    var ks := DistinctKeys(RowPairs(rows));
    var i :| 0 <= i < |ss| && ss[i] == s;
    assert ks[i] in ks;
  }

  /** A single row aggregates to its own group, with its amount as total and mean and no deviation. */
  lemma AggregateOne(r: Enricher.EnrichedRow)
    ensures Aggregate([r]) == [Summary(r.razaoSocial, r.uf, r.valorDespesas, r.valorDespesas, 0.0)]
  {
    var ps := RowPairs([r]);
    var v := r.valorDespesas;
    assert ps == [(KeyOfRow(r), v)];
    assert ps[..0] == [];
    assert DistinctKeys(ps) == [KeyOfRow(r)];
    assert ValuesFor(ps, KeyOfRow(r)) == [v];
    assert Sum([v]) == v by {
      assert [v][..0] == [];
    }
    var s := Summary(r.razaoSocial, r.uf, v, v, 0.0);
    assert SummaryOf(KeyOfRow(r), [v]) == s;
    assert Summarize([r]) == [s];
    assert [s][1..] == [];
  }
}
