/**
Comparison of multipath next hops (pkg/route/route.go). Gateways are compared by their printed form,
so a gateway is that string here.
*/
module NextHops {
  datatype NextHop = NextHop(gw: string, link: int, hops: int)

  /** `strings.Compare`. */
  function CompareStrings(a: string, b: string): int {
    if a == [] && b == [] then 0
    else if a == [] then -1
    else if b == [] then 1
    else if a[0] < b[0] then -1
    else if a[0] > b[0] then 1
    else CompareStrings(a[1..], b[1..])
  }

  /** The comparator handed to the sort. */
  function Compare(a: NextHop, b: NextHop): int {
    var c := CompareStrings(a.gw, b.gw);
    if c != 0 then c
    else if a.link != b.link then a.link - b.link
    else a.hops - b.hops
  }

  predicate Le(a: NextHop, b: NextHop) { Compare(a, b) <= 0 }

  lemma {:induction false} StringsOrder(a: string, b: string, c: string)
    ensures CompareStrings(a, b) == 0 <==> a == b
    ensures CompareStrings(a, b) < 0 <==> CompareStrings(b, a) > 0
    ensures CompareStrings(a, b) <= 0 && CompareStrings(b, c) <= 0 ==> CompareStrings(a, c) <= 0
    decreases |a| + |b| + |c|
  {
    if a != [] && b != [] {
      assert a == b <==> a[0] == b[0] && a[1..] == b[1..] by {
        assert a == [a[0]] + a[1..] && b == [b[0]] + b[1..];
      }
      StringsOrder(a[1..], b[1..], if c == [] then [] else c[1..]);
    }
  }

  /** The comparator is a total order on (gateway, link, weight). */
  lemma {:induction false} CompareIsTotalOrder(a: NextHop, b: NextHop, c: NextHop)
    ensures Compare(a, b) == 0 <==> a == b
    ensures Compare(a, b) < 0 <==> Compare(b, a) > 0
    ensures Le(a, b) && Le(b, c) ==> Le(a, c)
  {
    StringsOrder(a.gw, b.gw, c.gw);
    StringsOrder(b.gw, a.gw, c.gw);
    StringsOrder(b.gw, c.gw, a.gw);
    StringsOrder(a.gw, c.gw, b.gw);
  }

  ghost predicate Sorted(s: seq<NextHop>) { |s| < 2 || (Le(s[0], s[1]) && Sorted(s[1..])) }

  lemma {:induction false} HeadIsLeast(s: seq<NextHop>, i: nat)
    requires Sorted(s) && i < |s|
    ensures Le(s[0], s[i])
  {
    CompareIsTotalOrder(s[0], s[0], s[0]);
    if i > 0 {
      HeadIsLeast(s[1..], i - 1);
      CompareIsTotalOrder(s[0], s[1], s[i]);
    }
  }

  function Insert(x: NextHop, s: seq<NextHop>): seq<NextHop> {
    if s == [] || Le(x, s[0]) then [x] + s else [s[0]] + Insert(x, s[1..])
  }

  lemma {:induction false} InsertKeepsSorted(x: NextHop, s: seq<NextHop>)
    requires Sorted(s)
    ensures var r := Insert(x, s); Sorted(r) && multiset(r) == multiset(s) + multiset{x}
  {
    var r := Insert(x, s);
    if s == [] || Le(x, s[0]) {
      assert r[1..] == s;
    } else {
      InsertKeepsSorted(x, s[1..]);
      CompareIsTotalOrder(x, s[0], x);
      assert r[1..] == Insert(x, s[1..]);
      assert s == [s[0]] + s[1..];
    }
  }

  /** `sortNextHops`: a sorted copy with the same elements. */
  method SortNextHops(nextHops: seq<NextHop>) returns (sorted: seq<NextHop>)
    ensures Sorted(sorted) && multiset(sorted) == multiset(nextHops)
  {
    sorted := [];
    var n := 0;
    while n < |nextHops|
      invariant 0 <= n <= |nextHops| && Sorted(sorted)
      invariant multiset(sorted) == multiset(nextHops[..n])
    {
      assert nextHops[..n + 1] == nextHops[..n] + [nextHops[n]];
      InsertKeepsSorted(nextHops[n], sorted);
      sorted := Insert(nextHops[n], sorted);
      n := n + 1;
    }
    assert nextHops[..n] == nextHops;
  }

  lemma {:induction false} TailMultiset(s: seq<NextHop>)
    requires s != []
    ensures multiset(s[1..]) == multiset(s) - multiset{s[0]}
  {
    assert s == [s[0]] + s[1..];
  }

  /** The heads of two sorted arrangements of a multiset agree. */
  lemma {:induction false} SameHead(s: seq<NextHop>, t: seq<NextHop>)
    requires Sorted(s) && Sorted(t) && s != [] && t != [] && multiset(s) == multiset(t)
    ensures s[0] == t[0]
  {
    assert s[0] in multiset(t) && t[0] in multiset(s);
    var i :| 0 <= i < |s| && s[i] == t[0];
    var j :| 0 <= j < |t| && t[j] == s[0];
    HeadIsLeast(s, i);
    HeadIsLeast(t, j);
    CompareIsTotalOrder(s[0], t[0], s[0]);
    CompareIsTotalOrder(t[0], s[0], t[0]);
  }

  /** There is only one sorted arrangement of a multiset, whatever sort produced it. */
  lemma {:induction false} SortedIsUnique(s: seq<NextHop>, t: seq<NextHop>)
    requires Sorted(s) && Sorted(t) && multiset(s) == multiset(t)
    ensures s == t
  {
    assert |s| == |multiset(s)| == |t|;
    if s != [] {
      SameHead(s, t);
      TailMultiset(s);
      TailMultiset(t);
      SortedIsUnique(s[1..], t[1..]);
      assert s == [s[0]] + s[1..] && t == [t[0]] + t[1..];
    }
  }

  /** Two multipath lists compare equal exactly when one is a permutation of the other, duplicates counted. */
  method SameMultiPath(a: seq<NextHop>, b: seq<NextHop>) returns (same: bool)
    ensures same <==> multiset(a) == multiset(b)
  {
    if |a| == 0 && |b| == 0 { return true; }
    if |a| != |b| {
      assert |multiset(a)| != |multiset(b)|;
      return false;
    }
    var s := SortNextHops(a);
    var t := SortNextHops(b);
    assert |s| == |multiset(s)| == |multiset(t)| == |t|;
    if multiset(a) == multiset(b) { SortedIsUnique(s, t); }
    var i := 0;
    while i < |s|
      invariant 0 <= i <= |s|
      invariant s[..i] == t[..i]
    {
      if s[i] != t[i] { return false; }
      i := i + 1;
    }
    assert s[..|s|] == s && t[..|t|] == t;
    return true;
  }
}
