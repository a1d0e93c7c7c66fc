/**
Comparing a firewall rule with the one in the kernel (pkg/firewall/utils/common.go): expressions the
kernel does not give back unchanged are skipped, the others are compared by their marshalled bytes.
*/
module FirewallRules {
  datatype ExprKind = Counter | Rt | Byteorder | Plain

  datatype Expr = Expr(kind: ExprKind, bytes: string)

  /** `filterUnstableExprs`, keeping the marshalled bytes only. */
  function Stable(es: seq<Expr>): seq<string> {
    if es == [] then []
    else (if es[0].kind == Plain then [es[0].bytes] else []) + Stable(es[1..])
  }

  /** The positions of the plain expressions, in order. */
  ghost predicate PlainPositions(es: seq<Expr>, at: seq<nat>) {
    && (forall k :: 0 <= k < |at| ==> at[k] < |es| && es[at[k]].kind == Plain)
    && (forall k, l :: 0 <= k < l < |at| ==> at[k] < at[l])
    && (forall i :: 0 <= i < |es| && es[i].kind == Plain ==> i in at)
  }

  lemma {:induction false} StableAppend(a: seq<Expr>, b: seq<Expr>)
    ensures Stable(a + b) == Stable(a) + Stable(b)
  {
    if a == [] {
      assert a + b == b;
    } else {
      assert (a + b)[1..] == a[1..] + b;
      StableAppend(a[1..], b);
    }
  }

  /** What is kept is the bytes of the plain expressions, each as often and in the order they have. */
  lemma {:induction false} StableExact(es: seq<Expr>) returns (at: seq<nat>)
    ensures PlainPositions(es, at) && |at| == |Stable(es)|
    ensures forall k :: 0 <= k < |at| ==> Stable(es)[k] == es[at[k]].bytes
  {
    at := [];
    if es != [] {
      var n := |es| - 1;
      at := StableExact(es[..n]);
      assert es == es[..n] + [es[n]];
      StableAppend(es[..n], [es[n]]);
      assert [es[n]][1..] == [];
      if es[n].kind == Plain { at := at + [n]; }
    }
  }

  ghost predicate Compared(current: seq<string>, wanted: seq<string>) {
    |current| == |wanted| && forall i :: 0 <= i < |current| ==> current[i] in wanted
  }

  ghost predicate Distinct(s: seq<string>) { forall i, j :: 0 <= i < |s| && 0 <= j < |s| && i != j ==> s[i] != s[j] }

  method FilterUnstable(es: seq<Expr>) returns (r: seq<string>)
    ensures r == Stable(es)
  {
    r := [];
    var i := 0;
    while i < |es|
      invariant i <= |es| && r + Stable(es[i..]) == Stable(es)
    {
      assert es[i..][0] == es[i] && es[i..][1..] == es[i + 1..];
      ghost var was := r;
      if es[i].kind == Plain { r := r + [es[i].bytes]; }
      assert was + Stable(es[i..]) == r + Stable(es[i + 1..]);
      i := i + 1;
    }
    assert es[i..] == [] && r + [] == r;
  }

  method Occurs(x: string, ws: seq<string>) returns (found: bool)
    ensures found == (x in ws)
  {
    var j := 0;
    while j < |ws|
      invariant j <= |ws| && forall i :: 0 <= i < j ==> ws[i] != x
    {
      if x == ws[j] { return true; }
      j := j + 1;
    }
    found := false;
  }

  /** `compareRuleExpressions`. */
  method CompareRuleExpressions(current: seq<Expr>, wanted: seq<Expr>) returns (same: bool)
    ensures same == Compared(Stable(current), Stable(wanted))
  {
    var cs := FilterUnstable(current);
    var ws := FilterUnstable(wanted);
    if |cs| != |ws| { return false; }
    var i := 0;
    while i < |cs|
      invariant i <= |cs| && forall j :: 0 <= j < i ==> cs[j] in ws
    {
      var found := Occurs(cs[i], ws);
      if !found { return false; }
      i := i + 1;
    }
    same := true;
  }

  lemma {:induction false} SameMultiset(a: seq<string>, b: seq<string>)
    requires Compared(a, b) && Distinct(a)
    ensures multiset(a) == multiset(b)
  {
    if a != [] {
      var x := a[0];
      var i :| 0 <= i < |b| && b[i] == x;
      var rest := b[..i] + b[i + 1..];
      assert b == b[..i] + [x] + b[i + 1..];
      assert multiset(b) == multiset(rest) + multiset{x};
      assert forall j :: 0 <= j < |a[1..]| ==> a[1..][j] == a[j + 1];
      forall j | 0 <= j < |a[1..]| ensures a[1..][j] in rest {
        var y := a[j + 1];
        assert y in multiset(b);
        assert y != x;
        assert y in multiset(rest);
      }
      SameMultiset(a[1..], rest);
      assert a == [x] + a[1..];
    }
  }

  /**
  The comparison looks for each expression of the current rule among the wanted ones and counts them.
  For current expressions without repetitions this is equality up to order.
  */
  lemma {:induction false} ComparedIsPermutation(a: seq<string>, b: seq<string>)
    requires Distinct(a)
    ensures Compared(a, b) <==> multiset(a) == multiset(b)
  {
    if Compared(a, b) {
      SameMultiset(a, b);
    } else if multiset(a) == multiset(b) {
      assert |a| == |multiset(a)| == |multiset(b)| == |b|;
      forall i | 0 <= i < |a| ensures a[i] in b { assert a[i] in multiset(a); }
    }
  }

  /** For current expressions with a repetition some other wanted ones pass: one of the two is replaced by a new one. */
  lemma {:induction false} RepetitionPasses(a: seq<string>, i: nat, j: nat) returns (b: seq<string>)
    requires i < |a| && j < |a| && i != j && a[i] == a[j]
    ensures Compared(a, b) && multiset(a) != multiset(b)
  {
    var x := Longer(a);
    LongerIsNew(a);
    b := a[i := x];
    assert b[i] == x;
    forall k | 0 <= k < |a| ensures a[k] in b {
      if k == i { assert b[j] == a[k]; } else { assert b[k] == a[k]; }
    }
    assert x in multiset(b) && x !in multiset(a);
  }

  /** A string longer than any of the given ones. */
  function Longer(a: seq<string>): string { if a == [] then "" else a[0] + Longer(a[1..]) + "x" }

  lemma {:induction false} LongerThanAll(a: seq<string>, i: nat)
    requires i < |a|
    ensures |a[i]| < |Longer(a)|
  {
    if i > 0 { LongerThanAll(a[1..], i - 1); }
  }

  lemma {:induction false} LongerIsNew(a: seq<string>)
    ensures Longer(a) !in a
  {
    forall i | 0 <= i < |a| ensures a[i] != Longer(a) { LongerThanAll(a, i); }
  }

  /**
  The comparison accepts only the same expressions up to order exactly when the current ones are without
  repetitions.
  */
  lemma {:induction false} ComparedIsExactIff(a: seq<string>)
    ensures (forall b :: Compared(a, b) ==> multiset(a) == multiset(b)) <==> Distinct(a)
  {
    if Distinct(a) {
      forall b | Compared(a, b) ensures multiset(a) == multiset(b) { SameMultiset(a, b); }
    } else {
      var i, j :| 0 <= i < |a| && 0 <= j < |a| && i != j && a[i] == a[j];
      var b := RepetitionPasses(a, i, j);
    }
  }

  // ----- in terms of the expressions

  function Number(es: seq<Expr>): nat {
    if es == [] then 0 else Number(es[1..]) + if es[0].kind == Plain then 1 else 0
  }

  /** How often the bytes occur in plain expressions. */
  function Occurrences(es: seq<Expr>, bytes: string): nat {
    if es == [] then 0 else Occurrences(es[1..], bytes) + if es[0] == Expr(Plain, bytes) then 1 else 0
  }

  /** The two have equally many plain expressions, and each of the first is among those of the second. */
  ghost predicate Similar(a: seq<Expr>, b: seq<Expr>) {
    Number(a) == Number(b) && forall i :: 0 <= i < |a| && a[i].kind == Plain ==> a[i] in b
  }

  /** No two plain expressions are the same. */
  ghost predicate PlainDistinct(es: seq<Expr>) {
    forall i, j :: 0 <= i < j < |es| && es[i].kind == Plain && es[j].kind == Plain ==> es[i].bytes != es[j].bytes
  }

  lemma {:induction false} StableCounts(es: seq<Expr>, bytes: string)
    ensures |Stable(es)| == Number(es) && multiset(Stable(es))[bytes] == Occurrences(es, bytes)
    ensures bytes in Stable(es) <==> Expr(Plain, bytes) in es
  {
    if es != [] {
      StableCounts(es[1..], bytes);
      assert es == [es[0]] + es[1..];
    }
  }

  lemma {:induction false} StableDistinct(es: seq<Expr>)
    requires PlainDistinct(es)
    ensures Distinct(Stable(es))
  {
    var at := StableExact(es);
    forall k, l | 0 <= k < l < |at| ensures Stable(es)[k] != Stable(es)[l] { assert at[k] < at[l]; }
  }

  /** Both have the same plain expressions, each as often. */
  ghost predicate SamePlain(a: seq<Expr>, b: seq<Expr>) {
    forall bytes :: Occurrences(a, bytes) == Occurrences(b, bytes)
  }

  lemma {:induction false} SamePlainIff(a: seq<Expr>, b: seq<Expr>)
    ensures SamePlain(a, b) <==> multiset(Stable(a)) == multiset(Stable(b))
  {
    forall bytes
      ensures multiset(Stable(a))[bytes] == Occurrences(a, bytes) && multiset(Stable(b))[bytes] == Occurrences(b, bytes)
    {
      StableCounts(a, bytes);
      StableCounts(b, bytes);
    }
    if multiset(Stable(a)) == multiset(Stable(b)) {
      forall bytes ensures Occurrences(a, bytes) == Occurrences(b, bytes) {
        assert multiset(Stable(a))[bytes] == multiset(Stable(b))[bytes];
      }
    } else {
      var bytes :| multiset(Stable(a))[bytes] != multiset(Stable(b))[bytes];
    }
  }

  /**
  Rules compare equal exactly when they are similar; if the plain expressions of the current one are
  distinct, exactly when both have the same, each as often.
  */
  lemma {:induction false} ComparedMeans(a: seq<Expr>, b: seq<Expr>)
    ensures Compared(Stable(a), Stable(b)) <==> Similar(a, b)
    ensures PlainDistinct(a) ==> (Similar(a, b) <==> SamePlain(a, b))
  {
    ComparedIsSimilar(a, b);
    if PlainDistinct(a) {
      StableDistinct(a);
      ComparedIsPermutation(Stable(a), Stable(b));
      SamePlainIff(a, b);
    }
  }

  lemma {:induction false} ComparedIsSimilar(a: seq<Expr>, b: seq<Expr>)
    ensures Compared(Stable(a), Stable(b)) <==> Similar(a, b)
  {
    StableCounts(a, "");
    StableCounts(b, "");
    if Compared(Stable(a), Stable(b)) {
      forall i | 0 <= i < |a| && a[i].kind == Plain ensures a[i] in b {
        StableCounts(a, a[i].bytes);
        StableCounts(b, a[i].bytes);
        assert a[i] == Expr(Plain, a[i].bytes);
      }
    }
    if Similar(a, b) {
      forall i | 0 <= i < |Stable(a)| ensures Stable(a)[i] in Stable(b) {
        StableCounts(a, Stable(a)[i]);
        StableCounts(b, Stable(a)[i]);
      }
    }
  }

  /** With repetitions it is not: two equal expressions pass for two different ones. */
  lemma {:induction false} ComparedIsNotEquality(x: string, y: string)
    requires x != y
    ensures Compared([x, x], [x, y]) && multiset([x, x]) != multiset([x, y]) && !Compared([x, y], [x, x])
  {}
}
