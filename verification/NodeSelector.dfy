/**
Merging two node selectors into one (MergeNodeSelector in pkg/utils/nodeUtils.go). A selector is a
disjunction of terms and a term a conjunction of requirements on labels and on fields, as the scheduler
evaluates them; a term without any requirement matches nothing.
*/
module NodeSelector {
  /** Requirements on labels and on fields, each written out. */
  datatype Term = Term(expressions: seq<string>, fields: seq<string>)

  type Selector = seq<Term>

  /** What each requirement, on a label or on a field, says of the node at hand. */
  datatype Node = Node(labelled: string -> bool, fielded: string -> bool)

  predicate AllHold(holds: string -> bool, rs: seq<string>) { forall i :: 0 <= i < |rs| ==> holds(rs[i]) }

  predicate Empty(t: Term) { t.expressions == [] && t.fields == [] }

  predicate TermMatches(n: Node, t: Term) {
    !Empty(t) && AllHold(n.labelled, t.expressions) && AllHold(n.fielded, t.fields)
  }

  predicate Matches(n: Node, s: Selector) { exists i :: 0 <= i < |s| && TermMatches(n, s[i]) }

  function MergeTerms(s: Term, t: Term): Term { Term(s.expressions + t.expressions, []) }

  /** `r` has the merged terms of the first `n` terms of `a` with all those of `b`, row by row. */
  ghost predicate Rows(a: Selector, b: Selector, r: Selector, n: nat)
    requires n <= |a|
  {
    && |r| == n * |b|
    && forall i, j :: 0 <= i < n && 0 <= j < |b| ==>
         (var k := i * |b| + j; 0 <= k < |r| && r[k] == MergeTerms(a[i], b[j]))
  }

  /** `MergeNodeSelector`. */
  method MergeNodeSelector(a: Selector, b: Selector) returns (r: Selector)
    ensures Rows(a, b, r, |a|)
  {
    r := [];
    var i := 0;
    while i < |a|
      invariant i <= |a| && Rows(a, b, r, i)
    {
      var j := 0;
      ghost var was := r;
      while j < |b|
        invariant j <= |b| && Rows(a, b, was, i) && was <= r && |r| == i * |b| + j
        invariant forall k :: 0 <= k < j ==> r[i * |b| + k] == MergeTerms(a[i], b[k])
      {
        r := r + [MergeTerms(a[i], b[j])];
        j := j + 1;
      }
      RowDone(a, b, was, r, i);
      i := i + 1;
    }
  }

  lemma {:induction false} RowDone(a: Selector, b: Selector, was: Selector, r: Selector, n: nat)
    requires n < |a| && Rows(a, b, was, n) && was <= r && |r| == n * |b| + |b|
    requires forall k :: 0 <= k < |b| ==> r[n * |b| + k] == MergeTerms(a[n], b[k])
    ensures Rows(a, b, r, n + 1)
  {}

  // ----- meaning

  /** Requirements on labels only, and some. */
  predicate Plain(t: Term) { t.expressions != [] && t.fields == [] }

  /** Nothing that the two terms ask is lost in the merged one, and nothing matches that did not. */
  predicate Faithful(s: Term, t: Term) {
    if s.expressions + t.expressions == [] then Empty(s) || Empty(t) else Plain(s) && Plain(t)
  }

  lemma {:induction false} HoldConcat(holds: string -> bool, a: seq<string>, b: seq<string>)
    ensures AllHold(holds, a + b) <==> AllHold(holds, a) && AllHold(holds, b)
  {
    if AllHold(holds, a + b) {
      forall i | 0 <= i < |a| ensures holds(a[i]) { assert (a + b)[i] == a[i]; }
      forall i | 0 <= i < |b| ensures holds(b[i]) { assert (a + b)[|a| + i] == b[i]; }
    }
  }

  /** The merged term asks of the labels what the two ask, and of the fields nothing. */
  lemma {:induction false} MergedAsks(n: Node, s: Term, t: Term)
    ensures TermMatches(n, MergeTerms(s, t)) <==>
            s.expressions + t.expressions != [] && AllHold(n.labelled, s.expressions) &&
                AllHold(n.labelled, t.expressions)
  {
    HoldConcat(n.labelled, s.expressions, t.expressions);
  }

  ghost predicate PairKept(s: Term, t: Term) {
    forall n: Node :: TermMatches(n, MergeTerms(s, t)) <==> TermMatches(n, s) && TermMatches(n, t)
  }

  /** Two terms keep their meaning on every node exactly when they are faithful to each other. */
  lemma {:induction false} PairKeepsMeaningIff(s: Term, t: Term)
    ensures PairKept(s, t) <==> Faithful(s, t)
  {
    forall n: Node ensures TermMatches(n, MergeTerms(s, t)) <==>
                           s.expressions + t.expressions != [] && AllHold(n.labelled, s.expressions) &&
                               AllHold(n.labelled, t.expressions) {
      MergedAsks(n, s, t);
    }
    if !Faithful(s, t) {
      var n := Node(x => true, x => s.expressions + t.expressions == []);
      if s.fields != [] { assert n.fielded(s.fields[0]) <==> s.expressions + t.expressions == []; }
      if t.fields != [] { assert n.fielded(t.fields[0]) <==> s.expressions + t.expressions == []; }
      assert TermMatches(n, MergeTerms(s, t)) != (TermMatches(n, s) && TermMatches(n, t));
    }
  }

  // ----- whole selectors

  predicate Within(xs: seq<string>, ys: seq<string>) { forall i :: 0 <= i < |xs| ==> xs[i] in ys }

  /** Some pair of terms on labels alone asks nothing but what is in `asked`. */
  ghost predicate Covered(a: Selector, b: Selector, asked: seq<string>) {
    && (exists i :: 0 <= i < |a| && Plain(a[i]) && Within(a[i].expressions, asked))
    && (exists j :: 0 <= j < |b| && Plain(b[j]) && Within(b[j].expressions, asked))
  }

  /** Every merged term that asks anything asks all that some pair of terms on labels alone asks. */
  ghost predicate NothingRevived(a: Selector, b: Selector) {
    forall i, j :: 0 <= i < |a| && 0 <= j < |b| && a[i].expressions + b[j].expressions != [] ==>
      Covered(a, b, a[i].expressions + b[j].expressions)
  }

  /** No two terms ask something of the fields and nothing of the labels. */
  ghost predicate NothingLost(a: Selector, b: Selector) {
    forall i, j :: 0 <= i < |a| && 0 <= j < |b| && !Empty(a[i]) && !Empty(b[j]) ==>
        a[i].expressions + b[j].expressions != []
  }

  lemma {:induction false} MergedMatches(n: Node, a: Selector, b: Selector, r: Selector, i: nat, j: nat)
    requires Rows(a, b, r, |a|) && i < |a| && j < |b| && a[i].expressions + b[j].expressions != []
    requires AllHold(n.labelled, a[i].expressions) && AllHold(n.labelled, b[j].expressions)
    ensures Matches(n, r)
  {
    MergedAsks(n, a[i], b[j]);
    assert TermMatches(n, r[i * |b| + j]);
  }

  /** A match of the merged selector is a match of some pair. */
  lemma {:induction false} MergedPair(n: Node, a: Selector, b: Selector, r: Selector) returns (i: nat, j: nat)
    requires Rows(a, b, r, |a|) && Matches(n, r)
    ensures i < |a| && j < |b| && a[i].expressions + b[j].expressions != []
    ensures AllHold(n.labelled, a[i].expressions) && AllHold(n.labelled, b[j].expressions)
  {
    var k :| 0 <= k < |r| && TermMatches(n, r[k]);
    RowOf(k, |a|, |b|);
    i, j := k / |b|, k % |b|;
    assert r[i * |b| + j] == MergeTerms(a[i], b[j]);
    MergedAsks(n, a[i], b[j]);
  }

  lemma {:induction false} RowOf(k: nat, m: nat, n: nat)
    requires k < m * n
    ensures n > 0 && k / n < m && k == k / n * n + k % n
  {}

  /** On a node whose labels do what is asked, whatever its fields, both selectors match what is covered. */
  lemma {:induction false} CoveredMatches(n: Node, a: Selector, b: Selector, asked: seq<string>)
    requires Covered(a, b, asked) && AllHold(n.labelled, asked)
    ensures Matches(n, a) && Matches(n, b)
  {
    var i :| 0 <= i < |a| && Plain(a[i]) && Within(a[i].expressions, asked);
    var j :| 0 <= j < |b| && Plain(b[j]) && Within(b[j].expressions, asked);
    assert TermMatches(n, a[i]) && TermMatches(n, b[j]);
  }

  lemma {:induction false} NoneHold(holds: string -> bool, rs: seq<string>)
    requires forall x :: !holds(x)
    ensures AllHold(holds, rs) <==> rs == []
  {
    if rs != [] { assert !holds(rs[0]); }
  }

  /** The node that has the labels asked and no field at all. */
  function Bare(asked: seq<string>): Node { Node(x => x in asked, x => false) }

  lemma {:induction false} BareMatches(a: Selector, asked: seq<string>)
    requires Matches(Bare(asked), a)
    ensures exists i :: 0 <= i < |a| && Plain(a[i]) && Within(a[i].expressions, asked)
  {
    var i :| 0 <= i < |a| && TermMatches(Bare(asked), a[i]);
    NoneHold(Bare(asked).fielded, a[i].fields);
    assert Plain(a[i]) && Within(a[i].expressions, asked);
  }

  /** A node satisfies the merged selector exactly when it satisfies both. */
  ghost predicate KeepsMeaning(a: Selector, b: Selector, r: Selector) {
    forall n: Node :: Matches(n, r) <==> Matches(n, a) && Matches(n, b)
  }

  lemma {:induction false} KeptByMerging(a: Selector, b: Selector, r: Selector, n: Node)
    requires Rows(a, b, r, |a|) && NothingRevived(a, b) && NothingLost(a, b)
    ensures Matches(n, r) <==> Matches(n, a) && Matches(n, b)
  {
    if Matches(n, r) {
      var i, j := MergedPair(n, a, b, r);
      HoldConcat(n.labelled, a[i].expressions, b[j].expressions);
      CoveredMatches(n, a, b, a[i].expressions + b[j].expressions);
    }
    if Matches(n, a) && Matches(n, b) {
      var i :| 0 <= i < |a| && TermMatches(n, a[i]);
      var j :| 0 <= j < |b| && TermMatches(n, b[j]);
      MergedMatches(n, a, b, r, i, j);
    }
  }

  lemma {:induction false} RevivedIsSeen(a: Selector, b: Selector, r: Selector, i: nat, j: nat)
    requires Rows(a, b, r, |a|) && KeepsMeaning(a, b, r) && i < |a| && j < |b|
    requires a[i].expressions + b[j].expressions != []
    ensures Covered(a, b, a[i].expressions + b[j].expressions)
  {
    var asked := a[i].expressions + b[j].expressions;
    HoldConcat(Bare(asked).labelled, a[i].expressions, b[j].expressions);
    MergedMatches(Bare(asked), a, b, r, i, j);
    BareMatches(a, asked);
    BareMatches(b, asked);
  }

  /** The node that has every field and no label. */
  function Unlabelled(): Node { Node(x => false, x => true) }

  lemma {:induction false} UnlabelledUnmerged(a: Selector, b: Selector, r: Selector)
    requires Rows(a, b, r, |a|)
    ensures !Matches(Unlabelled(), r)
  {
    if Matches(Unlabelled(), r) {
      var i, j := MergedPair(Unlabelled(), a, b, r);
      NoneHold(Unlabelled().labelled, a[i].expressions);
      NoneHold(Unlabelled().labelled, b[j].expressions);
    }
  }

  lemma {:induction false} LostIsSeen(a: Selector, b: Selector, r: Selector, i: nat, j: nat)
    requires Rows(a, b, r, |a|) && KeepsMeaning(a, b, r) && i < |a| && j < |b| && !Empty(a[i]) && !Empty(b[j])
    ensures a[i].expressions + b[j].expressions != []
  {
    UnlabelledUnmerged(a, b, r);
    assert !(TermMatches(Unlabelled(), a[i]) && TermMatches(Unlabelled(), b[j]));
  }

  /**
  For independent requirements, that is over every assignment of truth to them, the merged selector means
  the conjunction of the two exactly when no two terms ask of the fields alone and every merged term that
  asks anything asks all that some pair on labels alone asks.
  */
  lemma {:induction false} MergeKeepsMeaningIff(a: Selector, b: Selector, r: Selector)
    requires Rows(a, b, r, |a|)
    ensures KeepsMeaning(a, b, r) <==> NothingRevived(a, b) && NothingLost(a, b)
  {
    if NothingRevived(a, b) && NothingLost(a, b) {
      forall n: Node ensures Matches(n, r) <==> Matches(n, a) && Matches(n, b) { KeptByMerging(a, b, r, n); }
    }
    if KeepsMeaning(a, b, r) {
      forall i, j | 0 <= i < |a| && 0 <= j < |b| && a[i].expressions + b[j].expressions != []
        ensures Covered(a, b, a[i].expressions + b[j].expressions) { RevivedIsSeen(a, b, r, i, j); }
      forall i, j | 0 <= i < |a| && 0 <= j < |b| && !Empty(a[i]) && !Empty(b[j])
        ensures a[i].expressions + b[j].expressions != [] { LostIsSeen(a, b, r, i, j); }
    }
  }

  lemma {:induction false} PlainIsCovered(a: Selector, b: Selector, i: nat, j: nat)
    requires i < |a| && j < |b| && Plain(a[i]) && Plain(b[j])
    ensures Covered(a, b, a[i].expressions + b[j].expressions) && a[i].expressions + b[j].expressions != []
  {
    var s, t := a[i].expressions, b[j].expressions;
    assert Within(s, s + t) by { forall k | 0 <= k < |s| ensures s[k] in s + t { assert (s + t)[k] == s[k]; } }
    assert Within(t, s + t) by { forall k | 0 <= k < |t| ensures t[k] in s + t { assert (s + t)[|s| + k] == t[k]; } }
    assert (s + t)[0] == s[0];
  }

  /** So it does for selectors of terms on labels alone. */
  lemma {:induction false} PlainSelectorsMerge(a: Selector, b: Selector, r: Selector)
    requires Rows(a, b, r, |a|)
    requires (forall i :: 0 <= i < |a| ==> Plain(a[i])) && forall j :: 0 <= j < |b| ==> Plain(b[j])
    ensures KeepsMeaning(a, b, r) && |r| == |a| * |b|
  {
    forall i, j | 0 <= i < |a| && 0 <= j < |b|
      ensures Covered(a, b, a[i].expressions + b[j].expressions) && a[i].expressions + b[j].expressions != []
    {
      PlainIsCovered(a, b, i, j);
    }
    MergeKeepsMeaningIff(a, b, r);
  }
}
