/**
 * Sequence operations shared by the pipeline's stages: the row filter
 * (a pandas boolean mask) and the group-by over a key with per-group
 * amounts (`groupby(...).agg(sum)`), whose groups partition the total.
 */
module Collections {

  /** `sub` is obtained from `s` by deleting elements: order is preserved. */
  predicate IsSubsequence<T(==)>(sub: seq<T>, s: seq<T>)
    decreases |s|
  {
    if |sub| == 0 then true
    else if |s| == 0 then false
    else if sub[0] == s[0] then IsSubsequence(sub[1..], s[1..])
    else IsSubsequence(sub, s[1..])
  }

  /** `df[mask]`: the rows that satisfy `p`, in their original order. */
  function Filter<T(==,!new)>(s: seq<T>, p: T -> bool): (r: seq<T>)
    ensures |r| <= |s|
    ensures forall x :: x in r <==> x in s && p(x)
    ensures IsSubsequence(r, s)
    ensures multiset(r) <= multiset(s)
    ensures forall x :: multiset(r)[x] == (if p(x) then multiset(s)[x] else 0)
  {
    if |s| == 0 then []
    else
      assert s == [s[0]] + s[1..];
      assert multiset(s) == multiset([s[0]]) + multiset(s[1..]);
      if p(s[0]) then [s[0]] + Filter(s[1..], p) else Filter(s[1..], p)
  }

  /** A mask and its negation split the rows: nothing is lost, nothing is invented. */
  lemma {:induction false} FilterPartition<T(!new)>(s: seq<T>, p: T -> bool, q: T -> bool)
    requires forall x :: q(x) <==> !p(x)
    ensures multiset(Filter(s, p)) + multiset(Filter(s, q)) == multiset(s)
    ensures |Filter(s, p)| + |Filter(s, q)| == |s|
  {
    if |s| > 0 {
      var h, t := s[0], s[1..];
      FilterPartition(t, p, q);
      assert s == [h] + t;
      assert multiset(s) == multiset([h]) + multiset(t);
      if p(h) {
        assert Filter(s, p) == [h] + Filter(t, p);
        assert multiset(Filter(s, p)) == multiset([h]) + multiset(Filter(t, p));
        assert Filter(s, q) == Filter(t, q);
        assert multiset(Filter(s, p)) + multiset(Filter(s, q))
            == multiset([h]) + (multiset(Filter(t, p)) + multiset(Filter(t, q)));
      } else {
        assert Filter(s, p) == Filter(t, p);
        assert Filter(s, q) == [h] + Filter(t, q);
        assert multiset(Filter(s, q)) == multiset([h]) + multiset(Filter(t, q));
        assert multiset(Filter(s, p)) + multiset(Filter(s, q))
            == multiset([h]) + (multiset(Filter(t, p)) + multiset(Filter(t, q)));
      }
    }
  }

  /** Dropping the first element of a subsequence leaves a subsequence. */
  lemma {:induction false} SubsequenceDropFirst<T>(a: seq<T>, t: seq<T>)
    requires |a| > 0 && IsSubsequence(a, t)
    ensures IsSubsequence(a[1..], t)
    decreases |t|
  {
    if |a| > 1 {
      if a[0] != t[0] {
        SubsequenceDropFirst(a, t[1..]);
      }
      if a[1] == t[0] {
        SubsequenceDropFirst(a[1..], t[1..]);
      }
    }
  }

  /** A subsequence of a subsequence is a subsequence. */
  /** A subsequence stays one when an element is appended to the longer sequence, or to both. */
  lemma {:induction false} SubsequenceSnoc<T>(a: seq<T>, b: seq<T>, x: T)
    requires IsSubsequence(a, b)
    ensures IsSubsequence(a, b + [x])
    ensures IsSubsequence(a + [x], b + [x])
    decreases |b|
  {
    if |b| > 0 {
      assert (b + [x])[0] == b[0] && (b + [x])[1..] == b[1..] + [x];
      if |a| == 0 {
        SubsequenceSnoc(a, b[1..], x);
        assert a + [x] == [x];
      } else {
        assert (a + [x])[0] == a[0] && (a + [x])[1..] == a[1..] + [x];
        if a[0] == b[0] {
          SubsequenceSnoc(a[1..], b[1..], x);
        } else {
          SubsequenceSnoc(a, b[1..], x);
        }
      }
    } else {
      assert a == [] && a + [x] == b + [x];
    }
  }

  lemma {:induction false} SubsequenceTransitive<T>(a: seq<T>, b: seq<T>, c: seq<T>)
    requires IsSubsequence(a, b) && IsSubsequence(b, c)
    ensures IsSubsequence(a, c)
    decreases |c|
  {
    if |a| > 0 && |c| > 0 {
      if b[0] == c[0] {
        if a[0] == b[0] {
          SubsequenceTransitive(a[1..], b[1..], c[1..]);
        } else {
          SubsequenceTransitive(a, b[1..], c[1..]);
        }
      } else {
        SubsequenceTransitive(a, b, c[1..]);
        if a[0] == c[0] {
          SubsequenceDropFirst(a, c[1..]);
        }
      }
    }
  }

  predicate NoDuplicates<K(==)>(ks: seq<K>) {
    forall i, j :: 0 <= i < j < |ks| ==> ks[i] != ks[j]
  }

  /** Some pair of `ps` has key `k`. */
  predicate HasKey<K(==)>(ps: seq<(K, real)>, k: K) {
    exists i :: 0 <= i < |ps| && ps[i].0 == k
  }

  /** The sum of all amounts of `ps`. */
  function Total<K>(ps: seq<(K, real)>): real {
    if |ps| == 0 then 0.0 else Total(ps[..|ps| - 1]) + ps[|ps| - 1].1
  }

  function Sum(vs: seq<real>): real {
    if |vs| == 0 then 0.0 else Sum(vs[..|vs| - 1]) + vs[|vs| - 1]
  }

  lemma {:induction false} SumAppend(a: seq<real>, b: seq<real>)
    ensures Sum(a + b) == Sum(a) + Sum(b)
  {
    if |b| == 0 {
      assert a + b == a;
    } else {
      assert (a + b)[..|a + b| - 1] == a + b[..|b| - 1];
      SumAppend(a, b[..|b| - 1]);
    }
  }

  /** The distinct keys of `ps` in order of first appearance: the groups. */
  function DistinctKeys<K(==,!new)>(ps: seq<(K, real)>): (ks: seq<K>)
    ensures NoDuplicates(ks)
    ensures forall k :: k in ks <==> HasKey(ps, k)
  {
    if |ps| == 0 then []
    else
      var prefix := ps[..|ps| - 1];
      var ks := DistinctKeys(prefix);
      assert forall k :: HasKey(ps, k) <==> HasKey(prefix, k) || ps[|ps| - 1].0 == k by {
        forall k | HasKey(ps, k) ensures HasKey(prefix, k) || ps[|ps| - 1].0 == k {
          var i :| 0 <= i < |ps| && ps[i].0 == k;
          if i < |ps| - 1 { assert prefix[i] == ps[i]; }
        }
        forall k | HasKey(prefix, k) ensures HasKey(ps, k) {
          var i :| 0 <= i < |prefix| && prefix[i].0 == k;
          assert ps[i] == prefix[i];
        }
      }
      if ps[|ps| - 1].0 in ks then ks else ks + [ps[|ps| - 1].0]
  }

  /** The amounts of group `k`, in input order. */
  function ValuesFor<K(==)>(ps: seq<(K, real)>, k: K): (vs: seq<real>)
    ensures |vs| <= |ps|
    ensures !HasKey(ps, k) ==> vs == []
    ensures HasKey(ps, k) ==> |vs| > 0
  {
    if |ps| == 0 then []
    else
      var prefix := ps[..|ps| - 1];
      var vs := ValuesFor(prefix, k) + (if ps[|ps| - 1].0 == k then [ps[|ps| - 1].1] else []);
      assert HasKey(ps, k) && ps[|ps| - 1].0 != k ==> HasKey(prefix, k) by {
        if HasKey(ps, k) && ps[|ps| - 1].0 != k {
          var i :| 0 <= i < |ps| && ps[i].0 == k;
          assert prefix[i] == ps[i];
        }
      }
      assert HasKey(prefix, k) ==> HasKey(ps, k) by {
        if HasKey(prefix, k) {
          var i :| 0 <= i < |prefix| && prefix[i].0 == k;
          assert ps[i] == prefix[i];
        }
      }
      vs
  }

  /** The sum, over the listed keys, of each group's total. */
  function SumOverKeys<K(==)>(ps: seq<(K, real)>, ks: seq<K>): real {
    if |ks| == 0 then 0.0 else SumOverKeys(ps, ks[..|ks| - 1]) + Sum(ValuesFor(ps, ks[|ks| - 1]))
  }

  /** The last pair of `ps` adds its amount to exactly the group of its key. */
  lemma {:induction false} SumOverKeysSnoc<K>(ps: seq<(K, real)>, ks: seq<K>)
    requires |ps| > 0 && NoDuplicates(ks)
    ensures SumOverKeys(ps, ks)
         == SumOverKeys(ps[..|ps| - 1], ks) + (if ps[|ps| - 1].0 in ks then ps[|ps| - 1].1 else 0.0)
  {
    var prefix, k0, v := ps[..|ps| - 1], ps[|ps| - 1].0, ps[|ps| - 1].1;
    if |ks| > 0 {
      var last := ks[|ks| - 1];
      var init := ks[..|ks| - 1];
      SumOverKeysSnoc(ps, init);
      SumAppend(ValuesFor(prefix, last), if k0 == last then [v] else []);
      assert k0 in ks <==> k0 in init || k0 == last by {
        assert ks == init + [last];
      }
      assert k0 == last ==> k0 !in init;
    }
  }

  /**
   * Grouping partitions the amounts: summing every group's total gives the
   * total of the input, so a group-by-sum neither loses nor duplicates money.
   */
  lemma {:induction false} GroupTotalsPartition<K(!new)>(ps: seq<(K, real)>)
    ensures SumOverKeys(ps, DistinctKeys(ps)) == Total(ps)
  {
    if |ps| > 0 {
      var prefix, k0, v := ps[..|ps| - 1], ps[|ps| - 1].0, ps[|ps| - 1].1;
      var ks := DistinctKeys(prefix);
      GroupTotalsPartition(prefix);
      SumOverKeysSnoc(ps, ks);
      if k0 !in ks {
        assert ValuesFor(prefix, k0) == [];
        assert Sum(ValuesFor(ps, k0)) == v by {
          assert ValuesFor(ps, k0) == [v];
          assert [v][..0] == [];
        }
        SumOverKeysSnoc(ps, ks + [k0]);
        assert (ks + [k0])[..|ks + [k0]| - 1] == ks;
      }
    }
  }
}
