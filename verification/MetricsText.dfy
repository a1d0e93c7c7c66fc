/**
Reading and writing metrics in the exposition format (getMetrics in pkg/remotemetrics/apiscraper.go and
Write in pkg/remotemetrics/metrics.go): a HELP line opens a family, a TYPE line belongs to it, and
value lines are kept if they match and are mapped.
*/
module MetricsText {
  import opened Wrappers
  import opened NextHops
  import opened Strings

  datatype Metric = Metric(help: string, typ: string, values: seq<string>)

  type Metrics = seq<Metric>

  predicate IsHelp(line: string) { "# HELP" <= line }

  predicate IsType(line: string) { "# TYPE" <= line }

  function Emit(last: Option<Metric>): Metrics { if last.Some? && last.value.values != [] then [last.value] else [] }

  /** What one line does to the family being read. */
  function Read(line: string, last: Option<Metric>, matches: string -> bool, mapped: string -> string): Option<Metric> {
    if IsHelp(line) then Some(Metric(line, "", []))
    else if last.None? then None
    else if IsType(line) then Some(last.value.(typ := line))
    else if matches(line) then Some(last.value.(values := last.value.values + [mapped(line)]))
    else last
  }

  function ParseFrom(lines: seq<string>, i: nat, last: Option<Metric>, matches: string -> bool,
                     mapped: string -> string): Metrics
    requires i <= |lines|
    decreases |lines| - i
  {
    if i == |lines| then Emit(last)
    else
      var rest := ParseFrom(lines, i + 1, Read(lines[i], last, matches, mapped), matches, mapped);
      (if IsHelp(lines[i]) then Emit(last) else []) + rest
  }

  lemma {:induction false} ParseUnfold(lines: seq<string>, i: nat, last: Option<Metric>, matches: string -> bool,
                                       mapped: string -> string, m: Metrics)
    requires i < |lines|
    ensures m + ParseFrom(lines, i, last, matches, mapped)
            == (if IsHelp(lines[i]) then m + Emit(last) else m) +
                ParseFrom(lines, i + 1, Read(lines[i], last, matches, mapped), matches, mapped)
  {}

  /** One line of `getMetrics`. */
  method ReadLine(line: string, last: Option<Metric>, m: Metrics, matches: string -> bool, mapped: string -> string)
    returns (next: Option<Metric>, r: Metrics)
    ensures next == Read(line, last, matches, mapped) && r == if IsHelp(line) then m + Emit(last) else m
  {
    next, r := last, m;
    if IsHelp(line) {
      if last.Some? && |last.value.values| > 0 { r := m + [last.value]; }
      next := Some(Metric(line, "", []));
    } else if last.None? {
    } else if IsType(line) {
      next := Some(last.value.(typ := line));
    } else if matches(line) {
      next := Some(last.value.(values := last.value.values + [mapped(line)]));
    }
  }

  /** `getMetrics` on the lines it reads. */
  method GetMetrics(lines: seq<string>, matches: string -> bool, mapped: string -> string) returns (m: Metrics)
    ensures m == ParseFrom(lines, 0, None, matches, mapped)
  {
    m := [];
    var last: Option<Metric> := None;
    var i := 0;
    while i < |lines|
      invariant i <= |lines|
      invariant m + ParseFrom(lines, i, last, matches, mapped) == ParseFrom(lines, 0, None, matches, mapped)
    {
      ParseUnfold(lines, i, last, matches, mapped, m);
      last, m := ReadLine(lines[i], last, m, matches, mapped);
      i := i + 1;
    }
    if last.Some? && |last.value.values| > 0 { m := m + [last.value]; }
  }

  // ----- what is kept

  function LatestHelp(lines: seq<string>, i: nat): Option<string>
    requires i <= |lines|
  {
    if i == 0 then None else if IsHelp(lines[i - 1]) then Some(lines[i - 1]) else LatestHelp(lines, i - 1)
  }

  predicate Keeps(lines: seq<string>, i: nat, matches: string -> bool)
    requires i < |lines|
  {
    LatestHelp(lines, i).Some? && !IsHelp(lines[i]) && !IsType(lines[i]) && matches(lines[i])
  }

  /** The matching lines in order, mapped, each with the HELP line before it. */
  function Expected(lines: seq<string>, i: nat, matches: string -> bool,
                    mapped: string -> string): seq<(string, string)>
    requires i <= |lines|
    decreases |lines| - i
  {
    if i == |lines| then []
    else
      var rest := Expected(lines, i + 1, matches, mapped);
      (if Keeps(lines, i, matches) then [(LatestHelp(lines, i).value, mapped(lines[i]))] else []) + rest
  }

  function PairsOf(help: string, values: seq<string>): (r: seq<(string, string)>)
    ensures |r| == |values| && forall i :: 0 <= i < |r| ==> r[i] == (help, values[i])
  {
    if values == [] then [] else [(help, values[0])] + PairsOf(help, values[1..])
  }

  function Pairs(ms: Metrics): seq<(string, string)> {
    if ms == [] then [] else PairsOf(ms[0].help, ms[0].values) + Pairs(ms[1..])
  }

  /** The lines kept so far for the family being read. */
  function Held(last: Option<Metric>): seq<(string, string)> {
    if last.Some? then PairsOf(last.value.help, last.value.values) else []
  }

  function KeptAt(lines: seq<string>, i: nat, matches: string -> bool, mapped: string -> string): seq<(string, string)>
    requires i < |lines|
  {
    if Keeps(lines, i, matches) then [(LatestHelp(lines, i).value, mapped(lines[i]))] else []
  }

  predicate Follows(lines: seq<string>, i: nat, last: Option<Metric>)
    requires i <= |lines|
  {
    LatestHelp(lines, i) == if last.Some? then Some(last.value.help) else None
  }

  lemma {:induction false} EmitPairs(last: Option<Metric>, rest: Metrics)
    ensures Pairs(Emit(last) + rest) == Held(last) + Pairs(rest)
  {
    if last.Some? && last.value.values != [] {
      assert (Emit(last) + rest)[0] == last.value && (Emit(last) + rest)[1..] == rest;
    } else {
      assert Emit(last) + rest == rest;
    }
  }

  lemma {:induction false} FollowsOn(lines: seq<string>, i: nat, last: Option<Metric>, matches: string -> bool,
                                     mapped: string -> string)
    requires i < |lines| && Follows(lines, i, last)
    ensures Follows(lines, i + 1, Read(lines[i], last, matches, mapped))
  {}

  lemma {:induction false} ReadHolds(lines: seq<string>, i: nat, last: Option<Metric>, matches: string -> bool,
                                     mapped: string -> string)
    requires i < |lines| && Follows(lines, i, last)
    ensures var next := Read(lines[i], last, matches, mapped);
            && (IsHelp(lines[i]) ==> Held(next) == [] && KeptAt(lines, i, matches, mapped) == [])
            && (!IsHelp(lines[i]) ==> Held(next) == Held(last) + KeptAt(lines, i, matches, mapped))
  {}

  lemma {:induction false} ParseHelp(lines: seq<string>, i: nat, last: Option<Metric>, matches: string -> bool,
                                     mapped: string -> string)
    requires i < |lines|
    ensures Pairs(ParseFrom(lines, i, last, matches, mapped))
            == (if IsHelp(lines[i]) then Held(last) else []) +
                Pairs(ParseFrom(lines, i + 1, Read(lines[i], last, matches, mapped), matches, mapped))
  {
    var rest := ParseFrom(lines, i + 1, Read(lines[i], last, matches, mapped), matches, mapped);
    if IsHelp(lines[i]) { EmitPairs(last, rest); } else { assert [] + rest == rest; }
  }

  lemma {:induction false} ParseStep(lines: seq<string>, i: nat, last: Option<Metric>, matches: string -> bool,
                                     mapped: string -> string, more: seq<(string, string)>)
    requires i < |lines| && Follows(lines, i, last)
    requires var next := Read(lines[i], last, matches, mapped);
             Pairs(ParseFrom(lines, i + 1, next, matches, mapped)) == Held(next) + more
    ensures Pairs(ParseFrom(lines, i, last, matches, mapped)) == Held(last) + (KeptAt(lines, i, matches, mapped) + more)
  {
    ReadHolds(lines, i, last, matches, mapped);
    ParseHelp(lines, i, last, matches, mapped);
  }

  lemma {:induction false} ExpectedStep(lines: seq<string>, i: nat, matches: string -> bool, mapped: string -> string)
    requires i < |lines|
    ensures Expected(lines, i, matches, mapped) == KeptAt(lines, i, matches, mapped) +
              Expected(lines, i + 1, matches, mapped)
  {}

  lemma {:induction false} ParseEnd(lines: seq<string>, last: Option<Metric>, matches: string -> bool,
                                    mapped: string -> string)
    ensures Pairs(ParseFrom(lines, |lines|, last, matches, mapped)) == Held(last) +
              Expected(lines, |lines|, matches, mapped)
  {}

  /** Reading keeps exactly the mapped matching lines, in order and under the HELP line before them. */
  lemma {:induction false} ParseExact(lines: seq<string>, i: nat, last: Option<Metric>, matches: string -> bool,
                                      mapped: string -> string)
    requires i <= |lines| && Follows(lines, i, last)
    ensures Pairs(ParseFrom(lines, i, last, matches, mapped)) == Held(last) + Expected(lines, i, matches, mapped)
    decreases |lines| - i
  {
    if i == |lines| {
      ParseEnd(lines, last, matches, mapped);
    } else {
      FollowsOn(lines, i, last, matches, mapped);
      ParseExact(lines, i + 1, Read(lines[i], last, matches, mapped), matches, mapped);
      ParseStep(lines, i, last, matches, mapped, Expected(lines, i + 1, matches, mapped));
      ExpectedStep(lines, i, matches, mapped);
    }
  }

  /** No family without values comes out of reading. */
  lemma {:induction false} ParsedNonEmpty(lines: seq<string>, i: nat, last: Option<Metric>, matches: string -> bool,
                                          mapped: string -> string)
    requires i <= |lines|
    ensures forall j :: 0 <= j < |ParseFrom(lines, i, last, matches, mapped)| ==>
              ParseFrom(lines, i, last, matches, mapped)[j].values != []
    decreases |lines| - i
  {
    if i < |lines| { ParsedNonEmpty(lines, i + 1, Read(lines[i], last, matches, mapped), matches, mapped); }
  }

  // ----- sorting values

  predicate Sorted(s: seq<string>) { forall i :: 0 <= i < |s| - 1 ==> CompareStrings(s[i], s[i + 1]) <= 0 }

  function Insert(x: string, s: seq<string>): seq<string> {
    if s == [] || CompareStrings(x, s[0]) <= 0 then [x] + s else [s[0]] + Insert(x, s[1..])
  }

  function Sort(s: seq<string>): seq<string> { if s == [] then [] else Insert(s[0], Sort(s[1..])) }

  lemma {:induction false} TailSorted(s: seq<string>)
    requires Sorted(s) && s != []
    ensures Sorted(s[1..])
  {}

  lemma {:induction false} InsertExact(x: string, s: seq<string>)
    requires Sorted(s)
    ensures Sorted(Insert(x, s)) && multiset(Insert(x, s)) == multiset(s) + multiset{x}
    ensures Insert(x, s) != [] && (Insert(x, s)[0] == x || (s != [] && Insert(x, s)[0] == s[0]))
  {
    if s != [] && CompareStrings(x, s[0]) > 0 {
      TailSorted(s);
      InsertExact(x, s[1..]);
      StringsOrder(s[0], x, x);
      StringsOrder(x, s[0], x);
      assert s == [s[0]] + s[1..];
    } else {
      assert [x] + s == Insert(x, s);
    }
  }

  /** Sorting gives the same values in order. */
  lemma {:induction false} SortExact(s: seq<string>)
    ensures Sorted(Sort(s)) && multiset(Sort(s)) == multiset(s)
  {
    if s != [] {
      SortExact(s[1..]);
      InsertExact(s[0], Sort(s[1..]));
      assert s == [s[0]] + s[1..];
    }
  }

  lemma {:induction false} SortLength(s: seq<string>)
    ensures |Sort(s)| == |s|
  {
    SortExact(s);
    assert |Sort(s)| == |multiset(Sort(s))| == |multiset(s)| == |s|;
  }

  // ----- printing

  function Print(ms: Metrics): seq<string> {
    if ms == [] then []
    else (if ms[0].values == [] then [] else [ms[0].help, ms[0].typ] + Sort(ms[0].values)) + Print(ms[1..])
  }

  lemma {:induction false} PrintAppend(a: Metrics, b: Metrics)
    ensures Print(a + b) == Print(a) + Print(b)
  {
    if a == [] {
      assert a + b == b;
    } else {
      assert (a + b)[0] == a[0] && (a + b)[1..] == a[1..] + b;
      PrintAppend(a[1..], b);
    }
  }

  /** `Write`, line by line. */
  method Write(ms: Metrics) returns (out: seq<string>)
    ensures out == Print(ms)
  {
    out := [];
    var i := 0;
    while i < |ms|
      invariant i <= |ms| && out == Print(ms[..i])
    {
      assert ms[..i + 1] == ms[..i] + [ms[i]];
      PrintAppend(ms[..i], [ms[i]]);
      if |ms[i].values| != 0 {
        out := out + [ms[i].help, ms[i].typ] + Sort(ms[i].values);
        assert Print([ms[i]]) == [ms[i].help, ms[i].typ] + Sort(ms[i].values) + Print([]);
      }
      i := i + 1;
    }
    assert ms[..i] == ms;
  }

  /** The family as it is printed. */
  function Printed(m: Metric): Metric { m.(values := Sort(m.values)) }

  /** The families that have values, with their values sorted. */
  function Canonical(ms: Metrics): Metrics {
    if ms == [] then []
    else (if ms[0].values == [] then [] else [Printed(ms[0])]) + Canonical(ms[1..])
  }

  predicate WellFormed(m: Metric) {
    IsHelp(m.help) && IsType(m.typ) && forall i :: 0 <= i < |m.values| ==> Plain(m.values[i])
  }

  predicate Everything(line: string) { true }

  function Unmapped(line: string): string { line }

  predicate Plain(line: string) { !IsHelp(line) && !IsType(line) }

  lemma {:induction false} ReadValues(lines: seq<string>, i: nat, n: nat, m: Metric)
    requires i <= n <= |lines| && forall j :: i <= j < n ==> Plain(lines[j])
    ensures ParseFrom(lines, i, Some(m), Everything, Unmapped) ==
              ParseFrom(lines, n, Some(m.(values := m.values + lines[i..n])), Everything, Unmapped)
    decreases n - i
  {
    if i == n {
      assert m.values + lines[i..n] == m.values;
    } else {
      var next := m.(values := m.values + [lines[i]]);
      assert Read(lines[i], Some(m), Everything, Unmapped) == Some(next);
      ReadValues(lines, i + 1, n, next);
      assert next.values + lines[i + 1..n] == m.values + lines[i..n];
    }
  }

  lemma {:induction false} ReadFamily(lines: seq<string>, i: nat, n: nat, last: Option<Metric>, m: Metric)
    requires i + 2 <= n <= |lines| && lines[i] == m.help && lines[i + 1] == m.typ && IsHelp(m.help) && IsType(m.typ)
    requires forall j :: i + 2 <= j < n ==> Plain(lines[j])
    ensures ParseFrom(lines, i, last, Everything, Unmapped) == Emit(last) +
              ParseFrom(lines, n, Some(m.(values := lines[i + 2..n])), Everything, Unmapped)
  {
    var begun, typed := Metric(m.help, "", []), Metric(m.help, m.typ, []);
    assert m.typ[2] == 'T' && !IsHelp(m.typ);
    assert Read(lines[i], last, Everything, Unmapped) == Some(begun);
    assert Read(lines[i + 1], Some(begun), Everything, Unmapped) == Some(typed);
    ReadValues(lines, i + 2, n, typed);
    assert typed.(values := typed.values + lines[i + 2..n]) == m.(values := lines[i + 2..n]);
    assert ParseFrom(lines, i + 1, Some(begun), Everything, Unmapped) ==
             ParseFrom(lines, i + 2, Some(typed), Everything, Unmapped);
  }

  lemma {:induction false} SortedPlain(vs: seq<string>)
    requires forall j :: 0 <= j < |vs| ==> Plain(vs[j])
    ensures forall j :: 0 <= j < |Sort(vs)| ==> Plain(Sort(vs)[j])
    ensures vs != [] ==> Sort(vs) != []
  {
    SortExact(vs);
    forall j | 0 <= j < |Sort(vs)| ensures Plain(Sort(vs)[j]) { assert Sort(vs)[j] in multiset(vs); }
    SortLength(vs);
  }

  lemma {:induction false} PrintedFamily(lines: seq<string>, i: nat, ms: Metrics)
    requires i <= |lines| && lines[i..] == Print(ms) && ms != [] && ms[0].values != []
    ensures var n := i + 2 + |Sort(ms[0].values)|;
            && n <= |lines| && lines[i] == ms[0].help && lines[i + 1] == ms[0].typ
            && lines[i + 2..n] == Sort(ms[0].values) && lines[n..] == Print(ms[1..])
  {}

  lemma {:induction false} ReadPlain(lines: seq<string>, i: nat, n: nat, last: Option<Metric>, m: Metric)
    requires i + 2 <= n <= |lines| && lines[i] == m.help && lines[i + 1] == m.typ && lines[i + 2..n] == m.values
    requires WellFormed(m)
    ensures ParseFrom(lines, i, last, Everything, Unmapped) == Emit(last) +
              ParseFrom(lines, n, Some(m), Everything, Unmapped)
  {
    forall j | i + 2 <= j < n ensures Plain(lines[j]) { assert lines[j] == m.values[j - i - 2]; }
    ReadFamily(lines, i, n, last, m);
  }

  lemma {:induction false} PrintedIsWellFormed(m: Metric)
    requires WellFormed(m)
    ensures WellFormed(Printed(m))
  {
    SortedPlain(m.values);
  }

  lemma {:induction false} CanonicalHead(ms: Metrics)
    requires ms != [] && ms[0].values != []
    ensures Emit(Some(Printed(ms[0]))) == [Printed(ms[0])]
    ensures Canonical(ms) == [Printed(ms[0])] + Canonical(ms[1..])
  {}

  predicate AllWellFormed(ms: Metrics) { forall j :: 0 <= j < |ms| ==> WellFormed(ms[j]) }

  lemma {:induction false} TailWellFormed(ms: Metrics)
    requires AllWellFormed(ms) && ms != []
    ensures WellFormed(ms[0]) && AllWellFormed(ms[1..])
  {}

  lemma {:induction false} SkipEmpty(ms: Metrics)
    requires ms != [] && ms[0].values == []
    ensures Print(ms) == Print(ms[1..]) && Canonical(ms) == Canonical(ms[1..])
  {
    var printed, canonical := Print(ms[1..]), Canonical(ms[1..]);
    assert [] + printed == printed && [] + canonical == canonical;
  }

  lemma {:induction false} ParseNone(lines: seq<string>, i: nat, last: Option<Metric>)
    requires i <= |lines| && lines[i..] == []
    ensures ParseFrom(lines, i, last, Everything, Unmapped) == Emit(last) + []
  {}

  lemma {:induction false} ParsePrint(lines: seq<string>, i: nat, last: Option<Metric>, ms: Metrics)
    requires i <= |lines| && lines[i..] == Print(ms) && AllWellFormed(ms)
    ensures ParseFrom(lines, i, last, Everything, Unmapped) == Emit(last) + Canonical(ms)
    decreases |ms|
  {
    if ms == [] {
      ParseNone(lines, i, last);
    } else {
      TailWellFormed(ms);
      var rest := ms[1..];
      if ms[0].values == [] {
        SkipEmpty(ms);
        ParsePrint(lines, i, last, rest);
      } else {
        var n := i + 2 + |Sort(ms[0].values)|;
        PrintedFamily(lines, i, ms);
        PrintedIsWellFormed(ms[0]);
        ReadPlain(lines, i, n, last, Printed(ms[0]));
        CanonicalHead(ms);
        ParsePrint(lines, n, Some(Printed(ms[0])), rest);
      }
    }
  }

  // ----- bytes

  function Text(lines: seq<string>): string { if lines == [] then [] else lines[0] + "\n" + Text(lines[1..]) }

  function StripReturn(line: string): string {
    if line != [] && line[|line| - 1] == '\r' then line[..|line| - 1] else line
  }

  /** `ReadLine` until the end; a last line without newline is taken as it is. */
  function ReadLines(text: string): seq<string>
    decreases |text|
  {
    if text == [] then []
    else
      var i := IndexOf(text, '\n');
      if i == |text| then [text] else [StripReturn(text[..i])] + ReadLines(text[i + 1..])
  }

  predicate OneLine(s: string) { (forall i :: 0 <= i < |s| ==> s[i] != '\n') && (s == [] || s[|s| - 1] != '\r') }

  lemma {:induction false} ReadFirst(line: string, rest: string)
    requires '\n' !in line
    ensures ReadLines(line + "\n" + rest) == [StripReturn(line)] + ReadLines(rest)
  {
    var text := line + "\n" + rest;
    assert text[|line|] == '\n' && forall j :: 0 <= j < |line| ==> text[j] == line[j];
    assert IndexOf(text, '\n') == |line| && text[..|line|] == line && text[|line| + 1..] == rest;
  }

  lemma {:induction false} ReadText(lines: seq<string>)
    requires forall i :: 0 <= i < |lines| ==> OneLine(lines[i])
    ensures ReadLines(Text(lines)) == lines
  {
    if lines != [] {
      assert OneLine(lines[0]);
      ReadFirst(lines[0], Text(lines[1..]));
      ReadText(lines[1..]);
    }
  }

  /** The same lines, each ended by a carriage return and a newline. */
  function ReturnText(lines: seq<string>): string {
    if lines == [] then [] else lines[0] + "\r\n" + ReturnText(lines[1..])
  }

  /** A line ended by a carriage return and a newline loses both, and nothing else. */
  lemma {:induction false} ReadReturnText(lines: seq<string>)
    requires forall i :: 0 <= i < |lines| ==> '\n' !in lines[i]
    ensures ReadLines(ReturnText(lines)) == lines
  {
    if lines != [] {
      ReadFirst(lines[0] + "\r", ReturnText(lines[1..]));
      assert ReturnText(lines) == (lines[0] + "\r") + "\n" + ReturnText(lines[1..]);
      ReadReturnText(lines[1..]);
      assert (lines[0] + "\r")[..|lines[0]|] == lines[0];
    }
  }

  lemma {:induction false} PrintOneLine(ms: Metrics)
    requires forall j :: 0 <= j < |ms| ==>
               OneLine(ms[j].help) && OneLine(ms[j].typ) && forall k :: 0 <= k < |ms[j].values| ==>
                   OneLine(ms[j].values[k])
    ensures forall i :: 0 <= i < |Print(ms)| ==> OneLine(Print(ms)[i])
  {
    if ms != [] {
      PrintOneLine(ms[1..]);
      var vs := ms[0].values;
      SortExact(vs);
      forall j | 0 <= j < |Sort(vs)| ensures OneLine(Sort(vs)[j]) { assert Sort(vs)[j] in multiset(vs); }
    }
  }

  /** Reading back what was written gives the same families, without the empty ones and with sorted values. */
  lemma {:induction false} RoundTrip(ms: Metrics)
    requires AllWellFormed(ms)
    requires forall j :: 0 <= j < |ms| ==>
               OneLine(ms[j].help) && OneLine(ms[j].typ) && forall k :: 0 <= k < |ms[j].values| ==>
                   OneLine(ms[j].values[k])
    ensures ParseFrom(ReadLines(Text(Print(ms))), 0, None, Everything, Unmapped) == Canonical(ms)
  {
    PrintOneLine(ms);
    ReadText(Print(ms));
    assert Print(ms)[0..] == Print(ms);
    ParsePrint(Print(ms), 0, None, ms);
    assert [] + Canonical(ms) == Canonical(ms);
  }

  /** Writing is stable: what was read back is written the same way. */
  lemma {:induction false} SortIdempotent(s: seq<string>)
    requires Sorted(s)
    ensures Sort(s) == s
  {
    if s != [] {
      TailSorted(s);
      SortIdempotent(s[1..]);
      assert s == [s[0]] + s[1..];
      if |s| > 1 { assert CompareStrings(s[0], s[0 + 1]) <= 0; }
    }
  }

  lemma {:induction false} PrintCanonical(ms: Metrics)
    ensures Print(Canonical(ms)) == Print(ms)
  {
    if ms != [] {
      PrintCanonical(ms[1..]);
      var m := ms[0];
      if m.values == [] {
        assert Canonical(ms) == Canonical(ms[1..]);
      } else {
        SortExact(m.values);
        SortIdempotent(Sort(m.values));
        SortLength(m.values);
        assert Canonical(ms)[1..] == Canonical(ms[1..]);
      }
    }
  }
}
