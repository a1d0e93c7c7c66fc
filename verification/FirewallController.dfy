/**
The firewall controller working through an nftables connection (pkg/firewall/table.go, chain.go, rule.go
and Reconcile in firewallconfiguration_controller.go). Listings read the committed table; additions and
deletions are staged and take effect together when the connection is flushed.
*/
module FirewallController {
  import opened Wrappers
  import opened FirewallRules
  import opened Firewall
  import opened FirewallStaging
  import opened FirewallLifecycle
  import opened Net
  import Conntrack

  method SameRule(c: Chain, r: Rule, k: NftRule) returns (same: bool)
    ensures same == RuleEqual(c, r, k)
  {
    if c.kind == Route { return true; }
    if r.forged.None? { return false; }
    same := CompareRuleExpressions(k.exprs, r.forged.value);
  }

  method IsRuleOutdated(c: Chain, k: NftRule) returns (r: bool)
    ensures r == Outdated(c, k)
  {
    if k.name.None? { return true; }
    var i := 0;
    while i < |c.rules|
      invariant i <= |c.rules| && Outdated(c, k) == Outdated(c, k, i)
    {
      if c.rules[i].name == k.name.value {
        var same := SameRule(c, c.rules[i], k);
        return !same;
      }
      i := i + 1;
    }
    r := true;
  }

  lemma {:induction false} NotracksAppend(a: seq<Rule>, b: seq<Rule>)
    ensures NotracksOf(a + b) == NotracksOf(a) + NotracksOf(b)
  {
    if a == [] {
      assert a + b == b;
    } else {
      assert (a + b)[1..] == a[1..] + b;
      NotracksAppend(a[1..], b);
    }
  }

  lemma {:induction false} NotrackRulesAppend(a: seq<Chain>, b: seq<Chain>)
    ensures NotrackRules(a + b) == NotrackRules(a) + NotrackRules(b)
  {
    if a == [] {
      assert a + b == b;
    } else {
      assert (a + b)[1..] == a[1..] + b;
      NotrackRulesAppend(a[1..], b);
    }
  }

  method CollectNotracksOf(rs: seq<Rule>) returns (r: seq<Conntrack.Rule>)
    ensures r == NotracksOf(rs)
  {
    r := [];
    var j := 0;
    while j < |rs|
      invariant j <= |rs| && r == NotracksOf(rs[..j])
    {
      assert rs[..j + 1] == rs[..j] + [rs[j]];
      NotracksAppend(rs[..j], [rs[j]]);
      if rs[j].notrack { r := r + [rs[j].matches]; }
      j := j + 1;
    }
    assert rs[..j] == rs;
  }

  /** `notrackRules`. */
  method CollectNotrackRules(cs: seq<Chain>) returns (r: seq<Conntrack.Rule>)
    ensures r == NotrackRules(cs)
    ensures forall m :: m in r <==> exists c :: c in cs && WantsNotrack(c, m)
  {
    r := [];
    var i := 0;
    while i < |cs|
      invariant i <= |cs| && r == NotrackRules(cs[..i])
    {
      assert cs[..i + 1] == cs[..i] + [cs[i]];
      NotrackRulesAppend(cs[..i], [cs[i]]);
      var more := CollectNotracksOf(FilterRules(cs[i]));
      r := r + more;
      i := i + 1;
    }
    assert cs[..i] == cs;
    forall m ensures m in r <==> exists c :: c in cs && WantsNotrack(c, m) { NotrackRulesHas(cs, m); }
  }

  lemma {:induction false} KeptAppend(c: Chain, a: seq<NftRule>, b: seq<NftRule>)
    ensures KeptRules(c, a + b) == KeptRules(c, a) + KeptRules(c, b)
  {
    if a == [] {
      assert a + b == b;
    } else {
      assert (a + b)[1..] == a[1..] + b;
      KeptAppend(c, a[1..], b);
    }
  }

  method CleanChain(c: Chain, ks: seq<NftRule>) returns (kept: seq<NftRule>)
    ensures kept == KeptRules(c, ks)
  {
    kept := [];
    var i := 0;
    while i < |ks|
      invariant i <= |ks| && kept == KeptRules(c, ks[..i])
    {
      assert ks[..i + 1] == ks[..i] + [ks[i]];
      KeptAppend(c, ks[..i], [ks[i]]);
      var outdated := IsRuleOutdated(c, ks[i]);
      if !outdated { kept := kept + [ks[i]]; }
      i := i + 1;
    }
    assert ks[..i] == ks;
  }

  method ExistRule(ks: seq<NftRule>, r: Rule) returns (found: bool)
    ensures found == Exists(ks, r)
  {
    var i := 0;
    while i < |ks|
      invariant i <= |ks| && forall j :: 0 <= j < i ==> ks[j].name != Some(r.name)
    {
      if ks[i].name == Some(r.name) { return true; }
      i := i + 1;
    }
    found := false;
  }

  /** With `done` appended so far, the rules from the i-th on complete what is to be added. */
  ghost predicate StillToAdd(keep: seq<Expr> -> seq<Expr>, c: Chain, ks: seq<NftRule>, done: seq<NftRule>, i: nat)
    requires i <= |c.rules|
  {
    var all, rest := Added(keep, c, ks), Added(keep, c, ks, i);
    all.Some? == rest.Some? && (all.Some? ==> all.value == done + rest.value)
  }

  lemma {:induction false} StillStep(keep: seq<Expr> -> seq<Expr>, c: Chain, ks: seq<NftRule>, done: seq<NftRule>,
                                     i: nat)
    requires i < |c.rules| && StillToAdd(keep, c, ks, done, i)
    ensures if Exists(ks, c.rules[i]) || c.kind == Route then StillToAdd(keep, c, ks, done, i + 1)
            else if c.rules[i].forged.None? then Added(keep, c, ks).None?
            else StillToAdd(keep, c, ks, done + [NftRule(Some(c.rules[i].name), keep(c.rules[i].forged.value))], i + 1)
  {}

  ghost predicate NotrackAdded(c: Chain, ks: seq<NftRule>, n: nat)
    requires n <= |c.rules|
  {
    c.kind == Filter && exists j :: 0 <= j < n && c.rules[j].notrack && !Exists(ks, c.rules[j])
  }

  /**
  `addRules`: the rules sent for a chain that lists `ks`, up to the first that cannot be compiled, and
  whether a notrack rule is among them.
  */
  method AddRules(keep: seq<Expr> -> seq<Expr>, c: Chain, ks: seq<NftRule>)
    returns (ok: bool, sent: seq<NftRule>, notrack: bool)
    requires RuleNamesDistinct(c) && Preserves(keep)
    ensures ok == Added(keep, c, ks).Some? && sent == SentRules(keep, c, ks) && AllCurrent(c, sent)
    ensures ok ==> sent == Added(keep, c, ks).value && notrack == NotrackAdded(c, ks, |c.rules|)
  {
    sent, notrack := [], false;
    var i := 0;
    while i < |c.rules|
      invariant i <= |c.rules| && StillToAdd(keep, c, ks, sent, i) && AllCurrent(c, sent)
      invariant notrack == NotrackAdded(c, ks, i) && sent + SentRules(keep, c, ks, i) == SentRules(keep, c, ks)
    {
      StillStep(keep, c, ks, sent, i);
      var exist := ExistRule(ks, c.rules[i]);
      if !exist {
        if c.kind != Route {
          if c.rules[i].forged.None? {
            assert sent + [] == sent;
            return false, sent, false;
          }
          var k := NftRule(Some(c.rules[i].name), keep(c.rules[i].forged.value));
          NewRuleCurrent(keep, c, i);
          assert sent + ([k] + SentRules(keep, c, ks, i + 1)) == (sent + [k]) + SentRules(keep, c, ks, i + 1);
          sent := sent + [k];
        }
        if c.kind == Filter && c.rules[i].notrack { notrack := true; }
      }
      i := i + 1;
    }
    ok := true;
    assert sent + [] == sent;
  }

  lemma {:induction false} NewRuleCurrent(keep: seq<Expr> -> seq<Expr>, c: Chain, i: nat)
    requires RuleNamesDistinct(c) && Preserves(keep) && i < |c.rules| && c.rules[i].forged.Some?
    ensures !Outdated(c, NftRule(Some(c.rules[i].name), keep(c.rules[i].forged.value)))
  {
    var k := NftRule(Some(c.rules[i].name), keep(c.rules[i].forged.value));
    OutdatedFrom(c, k, 0);
    assert RuleEqual(c, c.rules[i], k);
  }

  /** The first `i` wanted chains are as they are to be, all the others as they were. */
  ghost predicate AddedUpTo(keep: seq<Expr> -> seq<Expr>, t: Table, u: Table, cs: seq<Chain>, i: nat)
    requires i <= |cs|
  {
    && (forall j :: 0 <= j < i ==>
        AddedChain(keep, t, cs[j]).Some? && cs[j].name in u && u[cs[j].name] == AddedChain(keep, t, cs[j]).value)
    && (forall n :: NotAmong(cs, i, n) ==> (n in t <==> n in u) && (n in t ==> t[n] == u[n]))
  }

  ghost predicate NotAmong(cs: seq<Chain>, i: nat, n: string)
    requires i <= |cs|
  {
    forall j :: 0 <= j < i ==> cs[j].name != n
  }

  lemma {:induction false} AddedAll(keep: seq<Expr> -> seq<Expr>, t: Table, u: Table, cs: seq<Chain>)
    requires ChainNamesDistinct(cs) && AddedUpTo(keep, t, u, cs, |cs|)
    ensures CanAdd(keep, t, cs) && u == AddAll(keep, t, cs)
  {
    var all := AddAll(keep, t, cs);
    forall n ensures (n in u <==> n in all) && (n in u ==> u[n] == all[n]) {
      if Find(cs, n).Some? {
        var i :| 0 <= i < |cs| && cs[i] == Find(cs, n).value;
        assert cs[i].name == n;
      } else {
        assert NotAmong(cs, |cs|, n);
      }
    }
  }

  /** The chain that `addChain` finds or creates. */
  function Base(t: Table, c: Chain): NftChain { if c.name in t then t[c.name] else NewChain(c) }

  ghost predicate ChainNotrack(t: Table, c: Chain) {
    exists j :: 0 <= j < |c.rules| && NotrackMissing(t, c, c.rules[j])
  }

  ghost function CleanedOne(k: NftChain, s: NftChain, c: Chain): NftChain
    requires |k.rules| <= |s.rules|
  {
    s.(rules := KeptRules(c, k.rules) + s.rules[|k.rules|..])
  }

  /** Of the listed chains all but those in `todo` have been cleaned. */
  ghost predicate CleanedSoFar(t: Table, s: Table, u: Table, cs: seq<Chain>, todo: set<string>)
    requires Extends(t, s)
  {
    && (forall n :: n in todo || n !in t ==> (n in u <==> n in s) && (n in u ==> u[n] == s[n]))
    && (forall n <- t :: n !in todo ==>
        (n in u <==> ChainKept(cs, n, t[n])) && (n in u ==> u[n] == CleanedOne(t[n], s[n], Find(cs, n).value)))
  }

  lemma {:induction false} CleanedAll(t: Table, s: Table, u: Table, cs: seq<Chain>)
    requires Extends(t, s) && CleanedSoFar(t, s, u, cs, {})
    ensures u == CleanStaged(t, s, cs)
  {}

  function Sent(t: Table, c: Chain, sent: seq<NftRule>): NftChain { var k := Base(t, c); k.(rules := k.rules + sent) }

  ghost predicate SomeNotrack(t: Table, cs: seq<Chain>, n: nat)
    requires n <= |cs|
  {
    exists i :: 0 <= i < n && ChainNotrack(t, cs[i])
  }

  /** What is staged when some chain cannot be completed: all that was sent up to the first such one. */
  ghost predicate FailedAttempt(keep: seq<Expr> -> seq<Expr>, t: Table, cs: seq<Chain>, s: Table) {
    exists f :: 0 <= f < |cs| && AddedChain(keep, t, cs[f]).None? && s == Staged(keep, t, cs, f)
                && forall i :: 0 <= i < f ==> AddedChain(keep, t, cs[i]).Some?
  }

  lemma {:induction false} StagedEntry(keep: seq<Expr> -> seq<Expr>, t: Table, u: Table, cs: seq<Chain>, f: nat,
                                       n: string)
    requires ChainNamesDistinct(cs) && f < |cs| && AddedUpTo(keep, t, u, cs, f)
    ensures var s, all := u[cs[f].name := SentChain(keep, t, cs[f])], Staged(keep, t, cs, f);
            (n in s <==> n in all) && (n in s ==> s[n] == all[n])
  {
    var tried := cs[..f + 1];
    if Find(tried, n).Some? {
      var i :| 0 <= i < |tried| && tried[i] == Find(tried, n).value;
      assert tried[i] in tried && cs[i] == tried[i];
      if i < f { SentIsAdded(keep, cs[i], Base(t, cs[i]).rules, 0); }
    } else {
      assert tried[f].name != n;
      assert NotAmong(cs, f, n) by { forall j | 0 <= j < f ensures cs[j].name != n { assert tried[j].name != n; } }
    }
  }

  lemma {:induction false} StagedAt(keep: seq<Expr> -> seq<Expr>, t: Table, u: Table, cs: seq<Chain>, f: nat)
    requires ChainNamesDistinct(cs) && f < |cs| && AddedUpTo(keep, t, u, cs, f) && AddedChain(keep, t, cs[f]).None?
    ensures FailedAttempt(keep, t, cs, u[cs[f].name := SentChain(keep, t, cs[f])])
  {
    var s, all := u[cs[f].name := SentChain(keep, t, cs[f])], Staged(keep, t, cs, f);
    forall n ensures (n in s <==> n in all) && (n in s ==> s[n] == all[n]) { StagedEntry(keep, t, u, cs, f, n); }
    assert s == all;
  }

  lemma {:induction false} NothingLeft(t: Table, cs: seq<Chain>)
    ensures LeftByAttempt(t, t, cs)
  {}

  lemma {:induction false} AttemptStep(t: Table, s: Table, cs: seq<Chain>, i: nat, sent: seq<NftRule>)
    requires Admitted(cs) && i < |cs| && LeftByAttempt(t, s, cs) && AllCurrent(cs[i], sent)
    ensures LeftByAttempt(t, s[cs[i].name := Sent(t, cs[i], sent)], cs)
  {}

  lemma {:induction false} AddedStep(keep: seq<Expr> -> seq<Expr>, t: Table, u: Table, cs: seq<Chain>, i: nat)
    requires ChainNamesDistinct(cs) && i < |cs| && AddedUpTo(keep, t, u, cs, i) && AddedChain(keep, t, cs[i]).Some?
    ensures AddedUpTo(keep, t, u[cs[i].name := AddedChain(keep, t, cs[i]).value], cs, i + 1)
  {}

  lemma {:induction false} AppliedHasRules(t: Table, cs: seq<Chain>)
    requires NotrackApplied(t, cs)
    ensures NotrackRules(cs) != []
  {
    var i, j :| 0 <= i < |cs| && 0 <= j < |cs[i].rules| && NotrackMissing(t, cs[i], cs[i].rules[j]);
    AppliedIsEvicted(t, cs, i, j);
  }

  /** `flushConntrackForNotrackRules`, once a notrack rule has been added. */
  method Evict(ghost t: Table, cs: seq<Chain>, tracker: Conntrack.Tracker, parse: string -> Option<Prefix>,
               stops: nat -> bool, refused: Conntrack.Flow -> bool) returns (ok: bool)
    requires NotrackApplied(t, cs)
    modifies tracker
    ensures ok ==> tracker.flows == Conntrack.Remaining(parse, old(tracker.flows), NotrackRules(cs))
    ensures ok <==> forall i :: 0 <= i < |old(tracker.flows)| ==>
                      Conntrack.Passes(parse, old(tracker.flows), NotrackRules(cs), stops, refused, i)
  {
    var notracks := CollectNotrackRules(cs);
    AppliedHasRules(t, cs);
    var flushed, visited := tracker.FlushMatching(parse, notracks, stops, refused);
    ok := flushed;
  }

  class Conn {
    /** The table of the configuration as the kernel has it. */
    var table: Table
    /** The table as it will be once the operations sent so far are committed. */
    var staged: Table

    constructor () ensures table == map[] && staged == map[] { table, staged := map[], map[]; }

    /** The kernel takes all the staged operations or none. */
    method Flush(accepted: bool)
      modifies this
      ensures table == (if accepted then old(staged) else old(table)) && staged == table
    {
      if accepted { table := staged; }
      staged := table;
    }

    /** What `cleanTable` does with one listed chain: the deletions leave alone what was sent before. */
    method CleanOne(cs: seq<Chain>, n: string)
      requires n in table && n in staged && staged[n] == table[n].(rules := staged[n].rules)
      requires table[n].rules <= staged[n].rules
      modifies `staged
      ensures forall m :: m != n ==>
                (m in staged <==> m in old(staged)) && (m in staged ==> staged[m] == old(staged)[m])
      ensures n in staged <==> ChainKept(cs, n, table[n])
      ensures n in staged ==> staged[n] == CleanedOne(table[n], old(staged)[n], Find(cs, n).value)
    {
      var c := Find(cs, n);
      if c.None? || IsChainModified(table[n], c.value) {
        staged := staged - {n};
      } else {
        var kept := CleanChain(c.value, table[n].rules);
        staged := staged[n := staged[n].(rules := kept + staged[n].rules[|table[n].rules|..])];
      }
    }

    method Clean(cs: seq<Chain>)
      requires Extends(table, staged)
      modifies `staged
      ensures staged == CleanStaged(table, old(staged), cs)
    {
      ghost var s := staged;
      var todo := table.Keys;
      while todo != {}
        invariant todo <= table.Keys
        invariant CleanedSoFar(table, s, staged, cs, todo)
      {
        var n :| n in todo;
        assert Extends(table, s) && staged[n] == s[n];
        CleanOne(cs, n);
        todo := todo - {n};
      }
      CleanedAll(table, s, staged, cs);
    }

    /** `addChain` and `addRules` for one wanted chain. */
    method AddChain(keep: seq<Expr> -> seq<Expr>, c: Chain) returns (ok: bool, notrack: bool, ghost sent: seq<NftRule>)
      requires RuleNamesDistinct(c) && Preserves(keep)
      modifies `staged
      ensures staged == old(staged)[c.name := Sent(table, c, sent)] && AllCurrent(c, sent)
      ensures Sent(table, c, sent) == SentChain(keep, table, c)
      ensures ok == AddedChain(keep, table, c).Some?
      ensures ok ==> AddedChain(keep, table, c).value == Sent(table, c, sent) && notrack == ChainNotrack(table, c)
    {
      var k := Base(table, c);
      var rules;
      ok, rules, notrack := AddRules(keep, c, k.rules);
      staged := staged[c.name := k.(rules := k.rules + rules)];
      sent := rules;
      assert c.name !in table ==> forall r :: !Exists(k.rules, r);
    }

    /** `addChains`. */
    method AddChains(keep: seq<Expr> -> seq<Expr>, cs: seq<Chain>) returns (ok: bool, notrack: bool)
      requires staged == table && Admitted(cs) && Preserves(keep)
      modifies `staged
      ensures ok == CanAdd(keep, table, cs)
      ensures ok ==> staged == AddAll(keep, table, cs) && notrack == NotrackApplied(table, cs)
      ensures !ok ==> FailedAttempt(keep, table, cs, staged)
      ensures LeftByAttempt(table, staged, cs)
    {
      notrack := false;
      var i := 0;
      NothingLeft(table, cs);
      while i < |cs|
        invariant i <= |cs| && AddedUpTo(keep, table, staged, cs, i) && LeftByAttempt(table, staged, cs)
        invariant notrack == SomeNotrack(table, cs, i)
      {
        ghost var was := staged;
        var done, applied, sent := AddChain(keep, cs[i]);
        AttemptStep(table, was, cs, i, sent);
        if !done {
          StagedAt(keep, table, was, cs, i);
          return false, false;
        }
        AddedStep(keep, table, was, cs, i);
        notrack := notrack || applied;
        i := i + 1;
      }
      AddedAll(keep, table, staged, cs);
      ok := true;
    }

    /**
    The part of `Reconcile` that applies a configuration; `first` and `second` tell whether the kernel
    takes the two transactions. `notrack` says whether connections have to be evicted. An attempt that
    fails may leave operations in the connection, which the next one commits with its deletions.
    */
    method Apply(keep: seq<Expr> -> seq<Expr>, cs: seq<Chain>, first: bool, second: bool)
      returns (ok: bool, notrack: bool)
      requires Extends(table, staged) && Admitted(cs) && Preserves(keep)
      modifies this
      ensures ok == (first && second && CanAdd(keep, CleanStaged(old(table), old(staged), cs), cs))
      ensures table == if !first then old(table) else if ok then
                AddAll(keep, CleanStaged(old(table), old(staged), cs), cs) else CleanStaged(old(table), old(staged), cs)
      ensures notrack == (ok && NotrackApplied(CleanStaged(old(table), old(staged), cs), cs))
      ensures LeftByAttempt(table, staged, cs)
      ensures first && !CanAdd(keep, CleanStaged(old(table), old(staged), cs), cs) ==>
                FailedAttempt(keep, table, cs, staged)
      ensures !first || CanAdd(keep, CleanStaged(old(table), old(staged), cs), cs) ==> staged == table
    {
      Clean(cs);
      Flush(first);
      NothingLeft(table, cs);
      if !first { return false, false; }
      ok, notrack := AddChains(keep, cs);
      if !ok { return false, false; }
      Flush(second);
      NothingLeft(table, cs);
      if !second { return false, false; }
    }

    /** The same, followed by the eviction that a notrack rule added by the second transaction calls for. */
    method ApplyAndEvict(keep: seq<Expr> -> seq<Expr>, cs: seq<Chain>, first: bool, second: bool,
                         tracker: Conntrack.Tracker, parse: string -> Option<Prefix>, stops: nat -> bool,
                         refused: Conntrack.Flow -> bool)
      returns (ok: bool)
      requires Extends(table, staged) && Admitted(cs) && Preserves(keep)
      modifies this, tracker
      ensures LeftByAttempt(table, staged, cs)
      ensures var kept := CleanStaged(old(table), old(staged), cs);
              var commits := first && second && CanAdd(keep, kept, cs);
              && table == (if !first then old(table) else if commits then AddAll(keep, kept, cs) else kept)
              && (ok ==> commits) && (commits && !NotrackApplied(kept, cs) ==> ok)
              && (if commits && NotrackApplied(kept, cs)
                  then ok ==> tracker.flows == Conntrack.Remaining(parse, old(tracker.flows), NotrackRules(cs))
                  else tracker.flows == old(tracker.flows))
    {
      ghost var kept := CleanStaged(table, staged, cs);
      var notrack;
      ok, notrack := Apply(keep, cs, first, second);
      if notrack { ok := Evict(kept, cs, tracker, parse, stops, refused); }
    }

    /** `delTable`. */
    method DelTable()
      modifies `staged
      ensures staged == map[]
    {
      staged := map[];
    }

    /**
    `Reconcile`: `patched`, `first` and `second` tell whether the API server takes the update of the
    finalizers and the kernel the transactions. Connections that some notrack rule of the configuration
    matches are evicted exactly when the second transaction adds a notrack rule; one that the first
    commits, left by an attempt that failed, does not count.
    */
    method Reconcile(keep: seq<Expr> -> seq<Expr>, config: Option<Config>, enable: bool, patched: bool, first: bool,
                     second: bool, tracker: Conntrack.Tracker,
                     parse: string -> Option<Prefix>, stops: nat -> bool, refused: Conntrack.Flow -> bool)
      returns (after: Option<Config>, ok: bool)
      requires Extends(table, staged) && Preserves(keep) && (config.Some? ==> Admitted(config.value.chains))
      modifies this, tracker
      ensures Extends(table, staged)
      ensures Matches(keep, World(config, old(table), old(staged)), World(after, table, staged), enable, patched, first,
                      second)
      ensures var w := World(config, old(table), old(staged));
              && (config.Some? && Applies(config.value, enable) && ok ==> Commits(keep, w, enable, first, second))
              && (Commits(keep, w, enable, first, second) && !Evicts(keep, w, enable, first, second) ==> ok)
              && (Evicts(keep, w, enable, first, second) && ok ==>
                    tracker.flows == Conntrack.Remaining(parse, old(tracker.flows), NotrackRules(config.value.chains)))
              && (!Evicts(keep, w, enable, first, second) ==> tracker.flows == old(tracker.flows))
    {
      after, ok := config, true;
      if config.None? { return; }
      var c := config.value;
      if !c.deleting && enable && !c.finalizer {
        if !patched { return config, false; }
        after := Some(c.(finalizer := true));
      } else if c.deleting && enable {
        if c.finalizer {
          DelTable();
          Flush(first);
          if !first || !patched { return config, false; }
          after := Released(c);
        }
      } else {
        ok := ApplyAndEvict(keep, c.chains, first, second, tracker, parse, stops, refused);
      }
    }
  }
}
