/**
Putting the metrics of all nodes together (mergeMetrics in pkg/remotemetrics/metrics.go).
*/
module MetricsMerge {
  import opened Permutations
  import opened MetricsText

  // ----- merging

  function Merge1(dst: Metrics, m: Metric): Metrics {
    if dst == [] then [m]
    else if dst[0].help == m.help then [dst[0].(values := dst[0].values + m.values)] + dst[1..]
    else [dst[0]] + Merge1(dst[1..], m)
  }

  function Merge(dst: Metrics, src: Metrics): Metrics
    decreases |src|
  {
    if src == [] then dst else Merge(Merge1(dst, src[0]), src[1..])
  }

  predicate HelpsDistinct(ms: Metrics) {
    forall i, j :: 0 <= i < |ms| && 0 <= j < |ms| && i != j ==> ms[i].help != ms[j].help
  }

  /** All the values under a HELP line. */
  function ValuesOf(ms: Metrics, help: string): multiset<string> {
    if ms == [] then multiset{}
    else (if ms[0].help == help then multiset(ms[0].values) else multiset{}) + ValuesOf(ms[1..], help)
  }

  predicate Has(ms: Metrics, help: string) { exists i :: 0 <= i < |ms| && ms[i].help == help }

  lemma {:induction false} Merge1Values(dst: Metrics, m: Metric, help: string)
    ensures ValuesOf(Merge1(dst, m), help) == ValuesOf(dst, help) + if m.help == help then multiset(m.values)
              else multiset{}
  {
    var r := Merge1(dst, m);
    if dst == [] {
      assert r == [m] && [m][1..] == [];
    } else if dst[0].help == m.help {
      assert r[0].help == dst[0].help && r[1..] == dst[1..];
    } else {
      assert r[0] == dst[0] && r[1..] == Merge1(dst[1..], m);
      Merge1Values(dst[1..], m, help);
    }
  }

  lemma {:induction false} HasCons(m: Metric, rest: Metrics, help: string)
    ensures Has([m] + rest, help) <==> m.help == help || Has(rest, help)
  {
    var all := [m] + rest;
    if m.help == help { assert all[0].help == help; }
    if Has(rest, help) { var i :| 0 <= i < |rest| && rest[i].help == help; assert all[i + 1].help == help; }
  }

  lemma {:induction false} Merge1Has(dst: Metrics, m: Metric, help: string)
    ensures Has(Merge1(dst, m), help) <==> Has(dst, help) || m.help == help
  {
    if dst == [] {
      if m.help == help { assert [m][0].help == help; }
    } else {
      var rest := dst[1..];
      assert dst == [dst[0]] + rest;
      HasCons(dst[0], rest, help);
      if dst[0].help == m.help {
        HasCons(dst[0].(values := dst[0].values + m.values), rest, help);
      } else {
        Merge1Has(rest, m, help);
        HasCons(dst[0], Merge1(rest, m), help);
      }
    }
  }

  lemma {:induction false} Merge1Distinct(dst: Metrics, m: Metric)
    requires HelpsDistinct(dst)
    ensures HelpsDistinct(Merge1(dst, m))
  {
    if dst != [] && dst[0].help != m.help {
      Merge1Distinct(dst[1..], m);
      Merge1Has(dst[1..], m, dst[0].help);
      assert !Has(dst[1..], dst[0].help) && !Has(Merge1(dst[1..], m), dst[0].help);
    }
  }

  /** Merging adds up the values under each HELP line. */
  lemma {:induction false} MergeValues(dst: Metrics, src: Metrics, help: string)
    ensures ValuesOf(Merge(dst, src), help) == ValuesOf(dst, help) + ValuesOf(src, help)
    decreases |src|
  {
    if src != [] {
      Merge1Values(dst, src[0], help);
      MergeValues(Merge1(dst, src[0]), src[1..], help);
    }
  }

  /** Merging lists the HELP lines of both. */
  lemma {:induction false} MergeHas(dst: Metrics, src: Metrics, help: string)
    ensures Has(Merge(dst, src), help) <==> Has(dst, help) || Has(src, help)
    decreases |src|
  {
    if src != [] {
      Merge1Has(dst, src[0], help);
      MergeHas(Merge1(dst, src[0]), src[1..], help);
      assert src == [src[0]] + src[1..];
      HasCons(src[0], src[1..], help);
    }
  }

  /** Merging lists no HELP line twice, whatever is merged. */
  lemma {:induction false} MergeDistinct(dst: Metrics, src: Metrics)
    requires HelpsDistinct(dst)
    ensures HelpsDistinct(Merge(dst, src))
    decreases |src|
  {
    if src != [] {
      Merge1Distinct(dst, src[0]);
      MergeDistinct(Merge1(dst, src[0]), src[1..]);
    }
  }

  class Collector {
    var all: Metrics

    constructor () ensures all == [] { all := []; }

    /** The inner loop of `mergeMetrics`. */
    method AddFamily(m: Metric)
      modifies this
      ensures all == Merge1(old(all), m)
    {
      var i := 0;
      while i < |all|
        invariant i <= |all| && all == old(all) && Merge1(all, m) == all[..i] + Merge1(all[i..], m)
      {
        assert all[i..][1..] == all[i + 1..];
        if all[i].help == m.help {
          assert all[..i] + ([all[i].(values := all[i].values + m.values)] + all[i + 1..]) ==
                   all[i := all[i].(values := all[i].values + m.values)];
          all := all[i := all[i].(values := all[i].values + m.values)];
          return;
        }
        assert all[..i] + ([all[i]] + Merge1(all[i + 1..], m)) == all[..i + 1] + Merge1(all[i + 1..], m);
        i := i + 1;
      }
      assert all[i..] == [] && all[..i] == all;
      all := all + [m];
    }

    /** `mergeMetrics`. */
    method MergeMetrics(src: Metrics)
      modifies this
      ensures all == Merge(old(all), src)
    {
      var i := 0;
      while i < |src|
        invariant i <= |src| && Merge(all, src[i..]) == Merge(old(all), src)
      {
        assert src[i..][0] == src[i] && src[i..][1..] == src[i + 1..];
        AddFamily(src[i]);
        i := i + 1;
      }
    }
  }

  // ----- order of arrival

  /** The first `n` results merged in order. */
  function MergeFirst(results: seq<Metrics>, n: nat): Metrics
    requires n <= |results|
  {
    if n == 0 then [] else Merge(MergeFirst(results, n - 1), results[n - 1])
  }

  function MergeAll(results: seq<Metrics>): Metrics { MergeFirst(results, |results|) }

  lemma {:induction false} MergeFirstAgrees(a: seq<Metrics>, b: seq<Metrics>, n: nat)
    requires n <= |a| && n <= |b| && forall i :: 0 <= i < n ==> a[i] == b[i]
    ensures MergeFirst(a, n) == MergeFirst(b, n)
  {
    if n > 0 { MergeFirstAgrees(a, b, n - 1); }
  }

  function TotalOf(results: seq<Metrics>, help: string): multiset<string> {
    if results == [] then multiset{} else ValuesOf(results[0], help) + TotalOf(results[1..], help)
  }

  lemma {:induction false} TotalSplit(a: seq<Metrics>, b: seq<Metrics>, help: string)
    ensures TotalOf(a + b, help) == TotalOf(a, help) + TotalOf(b, help)
  {
    if a == [] {
      assert a + b == b;
    } else {
      assert (a + b)[0] == a[0] && (a + b)[1..] == a[1..] + b;
      TotalSplit(a[1..], b, help);
    }
  }

  lemma {:induction false} TotalMore(results: seq<Metrics>, n: nat, help: string)
    requires n < |results|
    ensures TotalOf(results[..n + 1], help) == TotalOf(results[..n], help) + ValuesOf(results[n], help)
  {
    assert results[..n + 1] == results[..n] + [results[n]];
    TotalSplit(results[..n], [results[n]], help);
    assert [results[n]][1..] == [];
  }

  /** After the first `n` results each HELP line has the values of all of them. */
  lemma {:induction false} MergeFirstValues(results: seq<Metrics>, n: nat, help: string)
    requires n <= |results|
    ensures ValuesOf(MergeFirst(results, n), help) == TotalOf(results[..n], help)
  {
    if n > 0 {
      MergeFirstValues(results, n - 1, help);
      MergeValues(MergeFirst(results, n - 1), results[n - 1], help);
      TotalMore(results, n - 1, help);
    }
  }

  lemma {:induction false} MergeFirstDistinct(results: seq<Metrics>, n: nat)
    requires n <= |results|
    ensures HelpsDistinct(MergeFirst(results, n))
  {
    if n > 0 {
      MergeFirstDistinct(results, n - 1);
      MergeDistinct(MergeFirst(results, n - 1), results[n - 1]);
    }
  }

  lemma {:induction false} MergeFirstHas(results: seq<Metrics>, n: nat, help: string)
    requires n <= |results|
    ensures Has(MergeFirst(results, n), help) <==> exists i :: 0 <= i < n && Has(results[i], help)
  {
    if n > 0 {
      MergeFirstHas(results, n - 1, help);
      MergeHas(MergeFirst(results, n - 1), results[n - 1], help);
    }
  }

  /** All the results merged have, under each HELP line, the values of all of them, and list it once. */
  lemma {:induction false} MergeAllExact(results: seq<Metrics>, help: string)
    ensures ValuesOf(MergeAll(results), help) == TotalOf(results, help) && HelpsDistinct(MergeAll(results))
  {
    MergeFirstValues(results, |results|, help);
    MergeFirstDistinct(results, |results|);
    assert results[..|results|] == results;
  }

  lemma {:induction false} TotalWithout(b: seq<Metrics>, i: nat, help: string)
    requires i < |b|
    ensures TotalOf(b, help) == ValuesOf(b[i], help) + TotalOf(b[..i] + b[i + 1..], help)
  {
    var last := b[i..];
    assert b == b[..i] + last && last[0] == b[i] && last[1..] == b[i + 1..];
    TotalSplit(b[..i], last, help);
    TotalSplit(b[..i], b[i + 1..], help);
  }

  lemma {:induction false} TotalPermutes(a: seq<Metrics>, b: seq<Metrics>, help: string)
    requires multiset(a) == multiset(b)
    ensures TotalOf(a, help) == TotalOf(b, help)
  {
    if a != [] {
      var i := TakeOut(a, b);
      TotalPermutes(a[1..], b[..i] + b[i + 1..], help);
      TotalWithout(b, i, help);
    }
  }

  /** Whatever order the nodes answer in: the same HELP lines, each once, with the same values. */
  lemma {:induction false} ArrivalOrderIrrelevant(a: seq<Metrics>, b: seq<Metrics>, help: string)
    requires multiset(a) == multiset(b)
    ensures ValuesOf(MergeAll(a), help) == ValuesOf(MergeAll(b), help)
    ensures Has(MergeAll(a), help) <==> Has(MergeAll(b), help)
    ensures HelpsDistinct(MergeAll(a)) && HelpsDistinct(MergeAll(b))
  {
    MergeAllExact(a, help);
    MergeAllExact(b, help);
    TotalPermutes(a, b, help);
    MergeFirstHas(a, |a|, help);
    MergeFirstHas(b, |b|, help);
    if i :| 0 <= i < |a| && Has(a[i], help) { assert a[i] in multiset(b); var j :| 0 <= j < |b| && b[j] == a[i]; }
    if i :| 0 <= i < |b| && Has(b[i], help) { assert b[i] in multiset(a); var j :| 0 <= j < |a| && a[j] == b[i]; }
  }
}
