/**
Scraping all nodes (Scrape in pkg/remotemetrics/apiscraper.go) and adding up the metrics of nodes
(pkg/remotemetrics/aggregator.go). Nodes answer in any order through a channel that one goroutine
drains; that goroutine gives up when its context is cancelled, which waiting for the nodes does.
*/
module MetricsScrape {
  import opened Wrappers
  import opened Permutations
  import opened Strings
  import opened MetricsText
  import opened MetricsMerge

  // ----- aggregation

  /** `ParseFloat`, `ParseInt` and the formatted line. */
  datatype Format = Format(number: string -> Option<real>, stamp: string -> Option<int>,
                           render: (string, real, int) -> string)

  datatype Sample = Sample(name: string, value: real, at: int)

  /** `parseValue`: no name means that the line was not understood. */
  function ParseValue(f: Format, line: string): Sample {
    var parts := Split(line, ' ');
    if |parts| != 3 || f.number(parts[1]).None? || f.stamp(parts[2]).None? then Sample("", 0.0, 0)
    else Sample(parts[0], f.number(parts[1]).value, f.stamp(parts[2]).value)
  }

  /** A line of three words is read word by word. */
  lemma {:induction false} ParseValueExact(f: Format, name: string, number: string, stamp: string)
    requires ' ' !in name && ' ' !in number && ' ' !in stamp
    ensures ParseValue(f, name + " " + (number + " " + stamp))
            == if f.number(number).Some? && f.stamp(stamp).Some? then
                Sample(name, f.number(number).value, f.stamp(stamp).value) else Sample("", 0.0, 0)
  {
    SplitAtSeparator(name, number + " " + stamp, ' ');
    SplitAtSeparator(number, stamp, ' ');
    SplitAtSeparator(stamp, "", ' ');
    assert Split(name + " " + (number + " " + stamp), ' ') == [name, number, stamp];
  }

  predicate Understood(f: Format, line: string) { ParseValue(f, line).name != "" }

  function ValueOf(f: Format, line: string): real { if Understood(f, line) then ParseValue(f, line).value else 0.0 }

  function SumOf(f: Format, vs: seq<string>): real {
    if vs == [] then 0.0 else SumOf(f, vs[..|vs| - 1]) + ValueOf(f, vs[|vs| - 1])
  }

  function MaxOf(f: Format, vs: seq<string>): int {
    if vs == [] then 0
    else
      var before, s := MaxOf(f, vs[..|vs| - 1]), ParseValue(f, vs[|vs| - 1]);
      if s.name != "" && s.at > before then s.at else before
  }

  function NameOf(f: Format, vs: seq<string>): string { if vs == [] then "" else ParseValue(f, vs[|vs| - 1]).name }

  const NODE_METRICS := ["node_cpu_usage_seconds_total", "node_memory_working_set_bytes"]

  predicate IsNodeHelp(help: string) { exists i :: 0 <= i < |NODE_METRICS| && Contains(help, NODE_METRICS[i]) }

  predicate IsNodeMetric(m: Metric) { IsNodeHelp(m.help) }

  /** The families that sum up nodes are those of CPU usage and memory. */
  lemma {:induction false} NodeMetricsExact(m: Metric)
    ensures IsNodeMetric(m) <==>
            Contains(m.help, "node_cpu_usage_seconds_total") || Contains(m.help, "node_memory_working_set_bytes")
  {
    assert NODE_METRICS[0] == "node_cpu_usage_seconds_total" && NODE_METRICS[1] == "node_memory_working_set_bytes";
  }

  function Aggregated(f: Format, m: Metric): Metric {
    if IsNodeMetric(m) then m.(values := [f.render(NameOf(f, m.values), SumOf(f, m.values), MaxOf(f, m.values))]) else m
  }

  /** The running totals of `Aggregate` for one family. */
  method AddUp(f: Format, vs: seq<string>) returns (name: string, total: real, latest: int)
    ensures name == NameOf(f, vs) && total == SumOf(f, vs) && latest == MaxOf(f, vs)
  {
    name, total, latest := "", 0.0, 0;
    var i := 0;
    while i < |vs|
      invariant i <= |vs| && name == NameOf(f, vs[..i]) && total == SumOf(f, vs[..i]) && latest == MaxOf(f, vs[..i])
    {
      assert vs[..i + 1][..i] == vs[..i] && vs[..i + 1][i] == vs[i];
      var s := ParseValue(f, vs[i]);
      name := s.name;
      if name != "" {
        if s.at > latest { latest := s.at; }
        total := total + s.value;
      }
      i := i + 1;
    }
    assert vs[..i] == vs;
  }

  /** `Aggregate`. */
  method Aggregate(f: Format, ms: Metrics) returns (r: Metrics)
    ensures |r| == |ms| && forall i :: 0 <= i < |ms| ==> r[i] == Aggregated(f, ms[i])
  {
    r := [];
    var i := 0;
    while i < |ms|
      invariant i == |r| <= |ms| && forall j :: 0 <= j < i ==> r[j] == Aggregated(f, ms[j])
    {
      var m := ms[i];
      if IsNodeMetric(m) {
        var name, total, latest := AddUp(f, m.values);
        m := m.(values := [f.render(name, total, latest)]);
      }
      r := r + [m];
      i := i + 1;
    }
  }

  lemma {:induction false} SumSplit(f: Format, a: seq<string>, b: seq<string>)
    ensures SumOf(f, a + b) == SumOf(f, a) + SumOf(f, b)
    decreases |b|
  {
    if b == [] {
      assert a + b == a;
    } else {
      var n := |b| - 1;
      assert (a + b)[..|a + b| - 1] == a + b[..n] && (a + b)[|a + b| - 1] == b[n];
      SumSplit(f, a, b[..n]);
    }
  }

  lemma {:induction false} SumWithout(f: Format, b: seq<string>, i: nat)
    requires i < |b|
    ensures SumOf(f, b) == ValueOf(f, b[i]) + SumOf(f, b[..i] + b[i + 1..])
  {
    assert b == b[..i] + ([b[i]] + b[i + 1..]);
    SumSplit(f, b[..i], [b[i]] + b[i + 1..]);
    SumSplit(f, [b[i]], b[i + 1..]);
    SumSplit(f, b[..i], b[i + 1..]);
    assert SumOf(f, [b[i]]) == ValueOf(f, b[i]) by { assert [b[i]][..0] == []; assert SumOf(f, []) == 0.0; }
  }

  lemma {:induction false} SumPermutes(f: Format, a: seq<string>, b: seq<string>)
    requires multiset(a) == multiset(b)
    ensures SumOf(f, a) == SumOf(f, b)
  {
    if a == [] {
      assert |b| == |multiset(b)| == 0;
    } else {
      var i := TakeOut(a, b);
      SumPermutes(f, a[1..], b[..i] + b[i + 1..]);
      SumWithout(f, b, i);
      SumWithout(f, a, 0);
      assert a[..0] + a[1..] == a[1..];
    }
  }

  /** The latest of the times understood, or zero if none is later. */
  lemma {:induction false} MaxExact(f: Format, vs: seq<string>)
    ensures forall v <- vs :: Understood(f, v) ==> ParseValue(f, v).at <= MaxOf(f, vs)
    ensures 0 <= MaxOf(f, vs)
    ensures (MaxOf(f, vs) == 0 || exists v <- vs :: Understood(f, v) && ParseValue(f, v).at == MaxOf(f, vs))
  {
    if vs != [] {
      MaxExact(f, vs[..|vs| - 1]);
      assert vs == vs[..|vs| - 1] + [vs[|vs| - 1]];
    }
  }

  lemma {:induction false} MaxPermutes(f: Format, a: seq<string>, b: seq<string>)
    requires multiset(a) == multiset(b)
    ensures MaxOf(f, a) == MaxOf(f, b)
  {
    MaxExact(f, a);
    MaxExact(f, b);
    assert forall v :: v in a <==> v in multiset(a);
    assert forall v :: v in b <==> v in multiset(b);
  }

  /** The values of a family add up to the same line in any order, if they are understood and of one name. */
  lemma {:induction false} AggregateOrderIrrelevant(f: Format, m: Metric, vs: seq<string>, name: string)
    requires multiset(m.values) == multiset(vs) && name != "" && forall v <- vs :: ParseValue(f, v).name == name
    ensures Aggregated(f, m.(values := vs)).values == Aggregated(f, m).values || !IsNodeMetric(m)
    ensures SumOf(f, m.values) == SumOf(f, vs) && MaxOf(f, m.values) == MaxOf(f, vs)
  {
    SumPermutes(f, m.values, vs);
    MaxPermutes(f, m.values, vs);
    if vs == [] {
      assert |m.values| == |multiset(m.values)| == 0;
    } else {
      assert |m.values| == |multiset(m.values)| == |vs|;
      var v := m.values[|m.values| - 1];
      assert v in multiset(vs);
    }
  }

  /** A line as the exposition format has it: a name, a number and a time. */
  ghost predicate Says(f: Format, line: string, name: string, value: real, at: int) {
    exists number: string, stamp: string ::
      && line == name + " " + (number + " " + stamp) && f.number(number) == Some(value) && f.stamp(stamp) == Some(at)
      && name != "" && ' ' !in name && ' ' !in number && ' ' !in stamp
  }

  function Total(xs: seq<real>): real { if xs == [] then 0.0 else xs[0] + Total(xs[1..]) }

  lemma {:induction false} SaysIsRead(f: Format, line: string, name: string, value: real, at: int)
    requires Says(f, line, name, value, at)
    ensures ParseValue(f, line) == Sample(name, value, at)
  {
    var number, stamp :| && line == name + " " + (number + " " + stamp) && f.number(number) == Some(value)
                         && f.stamp(stamp) == Some(at) && ' ' !in name && ' ' !in number && ' ' !in stamp;
    ParseValueExact(f, name, number, stamp);
  }

  lemma {:induction false} SumsWhatIsRead(f: Format, vs: seq<string>, xs: seq<real>)
    requires |vs| == |xs|
    requires forall i :: 0 <= i < |vs| ==> ParseValue(f, vs[i]).name != "" && ParseValue(f, vs[i]).value == xs[i]
    ensures SumOf(f, vs) == Total(xs)
  {
    if vs != [] {
      var n := |vs| - 1;
      SumsWhatIsRead(f, vs[..n], xs[..n]);
      assert xs == xs[..n] + [xs[n]];
      TotalAppend(xs[..n], xs[n]);
    }
  }

  /** Lines that say the numbers are summed up to their total, under the name they all have and at the latest time. */
  lemma {:induction false} SumsWhatIsSaid(f: Format, vs: seq<string>, name: string, xs: seq<real>, ats: seq<int>)
    requires |vs| == |xs| == |ats|
    requires forall i :: 0 <= i < |vs| ==> Says(f, vs[i], name, xs[i], ats[i])
    ensures SumOf(f, vs) == Total(xs)
    ensures vs != [] ==> NameOf(f, vs) == name
    ensures forall i :: 0 <= i < |vs| ==> ats[i] <= MaxOf(f, vs)
    ensures MaxOf(f, vs) == 0 || exists i :: 0 <= i < |vs| && ats[i] == MaxOf(f, vs)
  {
    forall i | 0 <= i < |vs| ensures ParseValue(f, vs[i]) == Sample(name, xs[i], ats[i]) && name != "" {
      SaysIsRead(f, vs[i], name, xs[i], ats[i]);
    }
    SumsWhatIsRead(f, vs, xs);
    MaxExact(f, vs);
    assert forall i :: 0 <= i < |vs| ==> vs[i] in vs;
    if MaxOf(f, vs) != 0 {
      var v :| v in vs && Understood(f, v) && ParseValue(f, v).at == MaxOf(f, vs);
      var i :| 0 <= i < |vs| && vs[i] == v;
      assert ats[i] == MaxOf(f, vs);
    }
  }

  lemma {:induction false} TotalAppend(xs: seq<real>, x: real)
    ensures Total(xs + [x]) == Total(xs) + x
  {
    if xs != [] {
      assert (xs + [x])[1..] == xs[1..] + [x];
      TotalAppend(xs[1..], x);
    }
  }

  /** All lines are read to the same name. */
  ghost predicate OneName(f: Format, vs: seq<string>) {
    forall i, j :: 0 <= i < |vs| && 0 <= j < |vs| ==> ParseValue(f, vs[i]).name == ParseValue(f, vs[j]).name
  }

  /** The name of the line does not depend on the order of the values exactly when all are read to one name. */
  lemma {:induction false} NameOrderIrrelevantIff(f: Format, vs: seq<string>)
    ensures (forall ws :: multiset(ws) == multiset(vs) ==> NameOf(f, ws) == NameOf(f, vs)) <==> OneName(f, vs)
  {
    if OneName(f, vs) {
      forall ws | multiset(ws) == multiset(vs) ensures NameOf(f, ws) == NameOf(f, vs) { SameLastName(f, vs, ws); }
    } else {
      var i, j :| 0 <= i < |vs| && 0 <= j < |vs| && ParseValue(f, vs[i]).name != ParseValue(f, vs[j]).name;
      MovedToEnd(f, vs, i);
      MovedToEnd(f, vs, j);
    }
  }

  lemma {:induction false} SameLastName(f: Format, vs: seq<string>, ws: seq<string>)
    requires OneName(f, vs) && multiset(ws) == multiset(vs)
    ensures NameOf(f, ws) == NameOf(f, vs)
  {
    assert |vs| == |multiset(vs)| == |multiset(ws)| == |ws|;
    if ws != [] {
      assert ws[|ws| - 1] in multiset(vs);
      var i :| 0 <= i < |vs| && vs[i] == ws[|ws| - 1];
    }
  }

  lemma {:induction false} MovedToEnd(f: Format, vs: seq<string>, i: nat)
    requires i < |vs|
    ensures var ws := vs[..i] + vs[i + 1..] + [vs[i]];
            multiset(ws) == multiset(vs) && NameOf(f, ws) == ParseValue(f, vs[i]).name
  {
    assert vs == vs[..i] + [vs[i]] + vs[i + 1..];
  }

  /** A line that is not understood adds nothing, but if it comes last the name is lost. */
  lemma {:induction false} MalformedLastLosesName(f: Format, vs: seq<string>, bad: string)
    requires !Understood(f, bad)
    ensures SumOf(f, vs + [bad]) == SumOf(f, vs) && MaxOf(f, vs + [bad]) == MaxOf(f, vs) && NameOf(f, vs + [bad]) == ""
  {}

  // ----- the fan-out

  /**
  `answers` are the results of the nodes, `None` for one that fails, and `order` the nodes that have
  answered. `taken` answers have been merged, and `over` says that the merging goroutine has returned.
  */
  datatype State = State(order: seq<nat>, merged: Metrics, taken: nat, cancelled: bool, over: bool)

  datatype Event = Answer(node: nat) | Joined | ParentDone | Take | GiveUp | Finish

  function Result(answers: seq<Option<Metrics>>, node: nat): Metrics
    requires node < |answers|
  {
    if answers[node].Some? then answers[node].value else []
  }

  predicate Within(order: seq<nat>, n: nat) { forall i :: 0 <= i < |order| ==> order[i] < n }

  predicate Nodes(order: seq<nat>, n: nat) {
    && Within(order, n)
    && (forall i, j :: 0 <= i < |order| && 0 <= j < |order| && i != j ==> order[i] != order[j])
  }

  function Arrived(answers: seq<Option<Metrics>>, order: seq<nat>): (r: seq<Metrics>)
    requires Within(order, |answers|)
    ensures |r| == |order| && forall i :: 0 <= i < |r| ==> r[i] == Result(answers, order[i])
  {
    if order == [] then [] else [Result(answers, order[0])] + Arrived(answers, order[1..])
  }

  predicate Valid(answers: seq<Option<Metrics>>, s: State) {
    Nodes(s.order, |answers|) && s.taken <= |s.order| <= |answers|
  }

  predicate Possible(answers: seq<Option<Metrics>>, s: State, e: Event)
    requires Valid(answers, s)
  {
    match e
    case Answer(node) => node < |answers| && node !in s.order && |s.order| < |answers|
    case Joined => |s.order| == |answers|
    case ParentDone => true
    case Take => !s.over && s.taken < |s.order|
    case GiveUp => !s.over && s.cancelled && s.taken < |answers|
    case Finish => !s.over && s.taken == |answers|
  }

  function Step(answers: seq<Option<Metrics>>, s: State, e: Event): State
    requires Valid(answers, s) && Possible(answers, s, e)
  {
    match e
    case Answer(node) => s.(order := s.order + [node])
    case Joined => s.(cancelled := true)
    case ParentDone => s.(cancelled := true)
    case Take => s.(merged := Merge(s.merged, Result(answers, s.order[s.taken])), taken := s.taken + 1)
    case GiveUp => s.(over := true)
    case Finish => s.(over := true)
  }

  const START := State([], [], 0, false, false)

  ghost predicate IsRun(answers: seq<Option<Metrics>>, ss: seq<State>, es: seq<Event>) {
    && |ss| == |es| + 1
    && forall i :: 0 <= i < |es| ==>
         Valid(answers, ss[i]) && Possible(answers, ss[i], es[i]) && ss[i + 1] == Step(answers, ss[i], es[i])
  }

  /** What has been merged is what arrived first. */
  ghost predicate Inv(answers: seq<Option<Metrics>>, s: State) {
    Valid(answers, s) && s.merged == MergeFirst(Arrived(answers, s.order), s.taken)
  }

  lemma {:induction false} AnswerKeeps(answers: seq<Option<Metrics>>, s: State, node: nat)
    requires Inv(answers, s) && Possible(answers, s, Answer(node))
    ensures Inv(answers, s.(order := s.order + [node]))
  {
    var order := s.order + [node];
    assert forall i :: 0 <= i < |s.order| ==> order[i] == s.order[i] && s.order[i] in s.order;
    assert Nodes(order, |answers|);
    MergeFirstAgrees(Arrived(answers, s.order), Arrived(answers, order), s.taken);
  }

  lemma {:induction false} StepKeepsInv(answers: seq<Option<Metrics>>, s: State, e: Event)
    requires Inv(answers, s) && Possible(answers, s, e)
    ensures Inv(answers, Step(answers, s, e))
  {
    match e
    case Answer(node) => AnswerKeeps(answers, s, node);
    case _ =>
  }

  lemma {:induction false} RunInv(answers: seq<Option<Metrics>>, ss: seq<State>, es: seq<Event>, n: nat)
    requires IsRun(answers, ss, es) && ss[0] == START && n < |ss|
    ensures Inv(answers, ss[n])
    decreases n
  {
    if n > 0 {
      RunInv(answers, ss, es, n - 1);
      StepKeepsInv(answers, ss[n - 1], es[n - 1]);
    }
  }

  // ----- all the nodes, in whatever order

  function Upto(n: nat): seq<nat> { seq(n, i => i) }

  lemma {:induction false} FullOrder(order: seq<nat>, n: nat)
    requires Nodes(order, n) && |order| == n
    ensures multiset(order) == multiset(Upto(n))
    decreases n
  {
    if n > 0 {
      var p := PositionOfLast(order, n);
      var rest := order[..p] + order[p + 1..];
      assert order == order[..p] + [order[p]] + order[p + 1..];
      FullOrder(rest, n - 1);
      assert Upto(n) == Upto(n - 1) + [n - 1];
    }
  }

  lemma {:induction false} PositionOfLast(order: seq<nat>, n: nat) returns (p: nat)
    requires n > 0 && Nodes(order, n) && |order| == n
    ensures p < |order| && order[p] == n - 1
  {
    if forall i :: 0 <= i < |order| ==> order[i] != n - 1 {
      TooMany(order, n - 1);
    }
    p :| 0 <= p < |order| && order[p] == n - 1;
  }

  function First(order: seq<nat>): nat { if order == [] then 0 else order[0] }

  /** Distinct numbers below `n` are at most `n` many. */
  lemma {:induction false} TooMany(order: seq<nat>, n: nat)
    requires Nodes(order, n)
    ensures |order| <= n
    decreases n
  {
    if n > 0 && exists p :: 0 <= p < |order| && order[p] == n - 1 {
      var p :| 0 <= p < |order| && order[p] == n - 1;
      TooMany(order[..p] + order[p + 1..], n - 1);
    } else if n > 0 {
      TooMany(order, n - 1);
    } else {
      assert order == [] || First(order) < n;
    }
  }

  /** The same nodes in another order give the same answers in another order. */
  lemma {:induction false} ArrivedPermutes(answers: seq<Option<Metrics>>, a: seq<nat>, b: seq<nat>)
    requires Within(a, |answers|) && Within(b, |answers|) && multiset(a) == multiset(b)
    ensures multiset(Arrived(answers, a)) == multiset(Arrived(answers, b))
  {
    if a == [] {
      assert |b| == |multiset(b)| == 0;
    } else {
      var i := TakeOut(a, b);
      ArrivedWithout(answers, b, i);
      ArrivedPermutes(answers, a[1..], b[..i] + b[i + 1..]);
    }
  }

  lemma {:induction false} ArrivedWithout(answers: seq<Option<Metrics>>, b: seq<nat>, i: nat)
    requires Within(b, |answers|) && i < |b|
    ensures Within(b[..i] + b[i + 1..], |answers|)
    ensures multiset(Arrived(answers, b)) == multiset{Result(answers, b[i])} +
              multiset(Arrived(answers, b[..i] + b[i + 1..]))
  {
    var all := Arrived(answers, b);
    assert Arrived(answers, b[..i] + b[i + 1..]) == all[..i] + all[i + 1..];
    PickOut(all, i);
  }

  lemma {:induction false} MergedAndLeft(answers: seq<Option<Metrics>>, s: State, help: string)
    requires Inv(answers, s)
    ensures HelpsDistinct(s.merged)
    ensures TotalOf(Arrived(answers, s.order), help) == ValuesOf(s.merged, help) +
              TotalOf(Arrived(answers, s.order)[s.taken..], help)
  {
    var a := Arrived(answers, s.order);
    assert a == a[..s.taken] + a[s.taken..];
    TotalSplit(a[..s.taken], a[s.taken..], help);
    MergeFirstValues(a, s.taken, help);
    MergeFirstDistinct(a, s.taken);
  }

  /** The answers of all nodes, in the order of the nodes. */
  function InNodeOrder(answers: seq<Option<Metrics>>): seq<Metrics> { Arrived(answers, Upto(|answers|)) }

  lemma {:induction false} AllArrived(answers: seq<Option<Metrics>>, order: seq<nat>)
    requires Nodes(order, |answers|) && |order| == |answers|
    ensures multiset(Arrived(answers, order)) == multiset(InNodeOrder(answers))
  {
    FullOrder(order, |answers|);
    ArrivedPermutes(answers, order, Upto(|answers|));
  }

  lemma {:induction false} TotalInNodeOrder(answers: seq<Option<Metrics>>, order: seq<nat>, help: string)
    requires Nodes(order, |answers|) && |order| == |answers|
    ensures TotalOf(Arrived(answers, order), help) == TotalOf(InNodeOrder(answers), help)
  {
    AllArrived(answers, order);
    TotalPermutes(Arrived(answers, order), InNodeOrder(answers), help);
  }

  /**
  In every run, once all nodes have answered, the values of all nodes are those merged and those still in
  the channel, whatever the order of the answers. So the merged metrics are complete for a HELP line
  exactly when the answers left in the channel have nothing under it.
  */
  lemma {:induction false} ScrapeConserves(answers: seq<Option<Metrics>>, ss: seq<State>, es: seq<Event>, n: nat,
                                           help: string)
    requires IsRun(answers, ss, es) && ss[0] == START && n < |ss| && |ss[n].order| == |answers|
    ensures Inv(answers, ss[n]) && HelpsDistinct(ss[n].merged)
    ensures TotalOf(InNodeOrder(answers), help) == ValuesOf(ss[n].merged, help) +
              TotalOf(Arrived(answers, ss[n].order)[ss[n].taken..], help)
  {
    RunInv(answers, ss, es, n);
    TotalInNodeOrder(answers, ss[n].order, help);
    MergedAndLeft(answers, ss[n], help);
  }

  /** If every answer was taken, the merged metrics have the HELP lines and values they would have in node order. */
  lemma {:induction false} ScrapeComplete(answers: seq<Option<Metrics>>, ss: seq<State>, es: seq<Event>, n: nat,
                                          help: string)
    requires IsRun(answers, ss, es) && ss[0] == START && n < |ss| && Valid(answers, ss[n]) && ss[n].taken == |answers|
    ensures HelpsDistinct(ss[n].merged)
    ensures ValuesOf(ss[n].merged, help) == ValuesOf(MergeAll(InNodeOrder(answers)), help)
    ensures Has(ss[n].merged, help) <==> Has(MergeAll(InNodeOrder(answers)), help)
  {
    RunInv(answers, ss, es, n);
    AllArrived(answers, ss[n].order);
    ArrivalOrderIrrelevant(Arrived(answers, ss[n].order), InNodeOrder(answers), help);
  }

  /** The values under a HELP line of all nodes that did answer. */
  function Answered(answers: seq<Option<Metrics>>, help: string): multiset<string> {
    if answers == [] then multiset{}
    else (if answers[0].Some? then ValuesOf(answers[0].value, help) else multiset{}) + Answered(answers[1..], help)
  }

  lemma {:induction false} AnsweredFrom(answers: seq<Option<Metrics>>, i: nat, help: string)
    requires i <= |answers|
    ensures TotalOf(InNodeOrder(answers)[i..], help) == Answered(answers[i..], help)
    decreases |answers| - i
  {
    if i < |answers| {
      AnsweredFrom(answers, i + 1, help);
      var all := InNodeOrder(answers);
      assert all[i..][0] == Result(answers, i) && all[i..][1..] == all[i + 1..];
      assert answers[i..][0] == answers[i] && answers[i..][1..] == answers[i + 1..];
    }
  }

  /** If every answer was taken, the values under each HELP line are those of all nodes that did answer. */
  lemma {:induction false} ScrapeMeans(answers: seq<Option<Metrics>>, ss: seq<State>, es: seq<Event>, n: nat,
                                       help: string)
    requires IsRun(answers, ss, es) && ss[0] == START && n < |ss| && Valid(answers, ss[n]) && ss[n].taken == |answers|
    ensures ValuesOf(ss[n].merged, help) == Answered(answers, help)
  {
    ScrapeComplete(answers, ss, es, n, help);
    MergeAllExact(InNodeOrder(answers), help);
    AnsweredFrom(answers, 0, help);
    assert InNodeOrder(answers)[0..] == InNodeOrder(answers) && answers[0..] == answers;
  }

  /**
  The context is cancelled once the nodes were waited for or the request is, and the merging over once it
  gave up or had all.
  */
  lemma {:induction false} FlagsExact(answers: seq<Option<Metrics>>, s: State, e: Event)
    requires Valid(answers, s) && Possible(answers, s, e)
    ensures Step(answers, s, e).cancelled <==> s.cancelled || e.Joined? || e.ParentDone?
    ensures Step(answers, s, e).over <==> s.over || e.GiveUp? || e.Finish?
  {}

  /** In every run the merging is over only with all answers or after a cancellation, and then nothing more is taken. */
  lemma {:induction false} OverMeans(answers: seq<Option<Metrics>>, ss: seq<State>, es: seq<Event>, n: nat)
    requires IsRun(answers, ss, es) && ss[0] == START && n < |ss|
    ensures ss[n].over ==> ss[n].cancelled || ss[n].taken == |answers|
    ensures n > 0 && ss[n - 1].over ==> ss[n].over && ss[n].merged == ss[n - 1].merged && ss[n].taken == ss[n - 1].taken
    decreases n
  {
    if n > 0 {
      OverMeans(answers, ss, es, n - 1);
      FlagsExact(answers, ss[n - 1], es[n - 1]);
    }
  }

  // ----- the response

  /** What `Scrape` returns once the merging is over: an error only when there are nodes and all have failed. */
  function Respond(f: Format, answers: seq<Option<Metrics>>, merged: Metrics): Result<Metrics, ()> {
    if answers != [] && forall i :: 0 <= i < |answers| ==> answers[i].None? then Err(())
    else Ok(seq(|merged|, i requires 0 <= i < |merged| => Aggregated(f, merged[i])))
  }

  method Conclude(f: Format, answers: seq<Option<Metrics>>, merged: Metrics) returns (r: Result<Metrics, ()>)
    ensures r == Respond(f, answers, merged)
    ensures r.Err? <==> |answers| > 0 && forall i :: 0 <= i < |answers| ==> answers[i].None?
    ensures r.Ok? ==> |r.value| == |merged| && forall i :: 0 <= i < |merged| ==> r.value[i].help == merged[i].help
  {
    var failed, i := 0, 0;
    while i < |answers|
      invariant failed <= i <= |answers| && (failed == i <==> forall j :: 0 <= j < i ==> answers[j].None?)
    {
      if answers[i].None? { failed := failed + 1; }
      i := i + 1;
    }
    if |answers| > 0 && failed == |answers| { return Err(()); }
    var ms := Aggregate(f, merged);
    r := Ok(ms);
    assert Respond(f, answers, merged).Ok? && ms == Respond(f, answers, merged).value;
  }

  /** With each HELP line listed once, its values are those of its family. */
  lemma {:induction false} FamilyValues(ms: Metrics, i: nat)
    requires HelpsDistinct(ms) && i < |ms|
    ensures ValuesOf(ms, ms[i].help) == multiset(ms[i].values)
  {
    var rest := ms[1..];
    assert forall j :: 0 <= j < |rest| ==> rest[j] == ms[j + 1];
    if i == 0 { NoFamily(rest, ms[0].help); } else { FamilyValues(rest, i - 1); }
  }

  lemma {:induction false} NoFamily(ms: Metrics, help: string)
    requires !Has(ms, help)
    ensures ValuesOf(ms, help) == multiset{}
  {
    if ms != [] {
      HasCons(ms[0], ms[1..], help);
      assert ms == [ms[0]] + ms[1..];
      NoFamily(ms[1..], help);
    }
  }

  /** The family of the response under a HELP line is the aggregated one. */
  lemma {:induction false} RespondedFamily(f: Format, answers: seq<Option<Metrics>>, ms: Metrics, i: nat)
    requires HelpsDistinct(ms) && i < |ms| && Respond(f, answers, ms).Ok?
    ensures ValuesOf(Respond(f, answers, ms).value, ms[i].help) == multiset(Aggregated(f, ms[i]).values)
  {
    var r := Respond(f, answers, ms).value;
    assert forall j :: 0 <= j < |r| ==> r[j].help == ms[j].help;
    FamilyValues(r, i);
  }

  /** The values under one HELP line, if it sums up nodes, are understood and of one name. */
  ghost predicate Uniform(f: Format, ms: Metrics, help: string, name: string) {
    IsNodeHelp(help) ==> name != "" && forall v :: v in ValuesOf(ms, help) ==> ParseValue(f, v).name == name
  }

  lemma {:induction false} SameResponse(f: Format, answers: seq<Option<Metrics>>, a: Metrics, b: Metrics, help: string,
                                        name: string)
    requires HelpsDistinct(a) && HelpsDistinct(b) && (Has(a, help) <==> Has(b, help))
    requires ValuesOf(a, help) == ValuesOf(b, help)
    requires Uniform(f, a, help, name) && Respond(f, answers, a).Ok?
    ensures ValuesOf(Respond(f, answers, a).value, help) == ValuesOf(Respond(f, answers, b).value, help)
  {
    var r, q := Respond(f, answers, a).value, Respond(f, answers, b).value;
    if Has(a, help) {
      var i :| 0 <= i < |a| && a[i].help == help;
      var j :| 0 <= j < |b| && b[j].help == help;
      FamilyValues(a, i);
      FamilyValues(b, j);
      RespondedFamily(f, answers, a, i);
      RespondedFamily(f, answers, b, j);
      if IsNodeHelp(help) {
        forall v <- a[i].values ensures ParseValue(f, v).name == name { assert v in multiset(a[i].values); }
        AggregateOrderIrrelevant(f, b[j], a[i].values, name);
      }
    } else {
      assert !Has(r, help) && !Has(q, help);
      NoFamily(r, help);
      NoFamily(q, help);
    }
  }

  /** Two runs in which every answer was taken give the same response, whatever the order of the answers. */
  lemma {:induction false} ResponsesAgree(f: Format, answers: seq<Option<Metrics>>, ss: seq<State>, es: seq<Event>,
                                          n: nat,
                                          tt: seq<State>, gs: seq<Event>, m: nat, help: string, name: string)
    requires IsRun(answers, ss, es) && ss[0] == START && n < |ss| && Valid(answers, ss[n]) && ss[n].taken == |answers|
    requires IsRun(answers, tt, gs) && tt[0] == START && m < |tt| && Valid(answers, tt[m]) && tt[m].taken == |answers|
    requires Uniform(f, ss[n].merged, help, name)
    ensures var r, q := Respond(f, answers, ss[n].merged), Respond(f, answers, tt[m].merged);
            (r.Err? <==> q.Err?) && (r.Ok? ==> ValuesOf(r.value, help) == ValuesOf(q.value, help))
  {
    ScrapeComplete(answers, ss, es, n, help);
    ScrapeComplete(answers, tt, gs, m, help);
    if Respond(f, answers, ss[n].merged).Ok? { SameResponse(f, answers, ss[n].merged, tt[m].merged, help, name); }
  }

  /**
  The goroutine may give up as soon as the nodes have been waited for, and then all that is still in the
  channel is missing from a response that reports no error.
  */
  lemma {:induction false} AnswersCanBeLost(answers: seq<Option<Metrics>>, s: State)
    requires Inv(answers, s) && |s.order| == |answers| && !s.over && s.taken < |answers|
    ensures Possible(answers, s, Joined)
    ensures var u := Step(answers, s, Joined);
            && Possible(answers, u, GiveUp)
            && Step(answers, u, GiveUp) == State(s.order, MergeFirst(Arrived(answers, s.order), s.taken), s.taken, true,
                                                 true)
  {}
}
