/**
Operations left in the nftables connection: an attempt that fails after sending additions does not take
them back, and the next one, for whatever configuration, commits them together with its deletions
(Reconcile in pkg/firewall/firewallconfiguration_controller.go).
*/
module FirewallStaging {
  import opened Wrappers
  import opened FirewallRules
  import opened Firewall

  /** `s` is `t` with chains and rules still to be committed. */
  ghost predicate Extends(t: Table, s: Table) {
    forall n <- t :: n in s && s[n] == t[n].(rules := s[n].rules) && t[n].rules <= s[n].rules
  }

  /** Committing the deletions that `t` calls for together with what `s` has more than `t`. */
  ghost function CleanStaged(t: Table, s: Table, cs: seq<Chain>): Table
    requires Extends(t, s)
  {
    map n | n in s && (n in t ==> ChainKept(cs, n, t[n])) ::
      if n in t then s[n].(rules := KeptRules(Find(cs, n).value, t[n].rules) + s[n].rules[|t[n].rules|..]) else s[n]
  }

  lemma {:induction false} NothingStaged(t: Table, cs: seq<Chain>)
    ensures CleanStaged(t, t, cs) == CleanTable(t, cs)
  {
    forall n <- CleanStaged(t, t, cs) ensures CleanStaged(t, t, cs)[n] == CleanTable(t, cs)[n] {
      assert t[n].rules[|t[n].rules|..] == [];
    }
  }

  // ----- what an attempt leaves

  /** The rules sent to a chain before the first that cannot be compiled. */
  ghost function SentRules(keep: seq<Expr> -> seq<Expr>, c: Chain, ks: seq<NftRule>, i: nat := 0): seq<NftRule>
    requires i <= |c.rules|
    decreases |c.rules| - i
  {
    if i == |c.rules| then []
    else if Exists(ks, c.rules[i]) || c.kind == Route then SentRules(keep, c, ks, i + 1)
    else if c.rules[i].forged.None? then []
    else [NftRule(Some(c.rules[i].name), keep(c.rules[i].forged.value))] + SentRules(keep, c, ks, i + 1)
  }

  ghost function SentChain(keep: seq<Expr> -> seq<Expr>, t: Table, c: Chain): NftChain {
    var k := if c.name in t then t[c.name] else NewChain(c);
    k.(rules := k.rules + SentRules(keep, c, k.rules))
  }

  /** Everything before the first missing rule that cannot be compiled is sent, in the chains up to its own. */
  ghost function Staged(keep: seq<Expr> -> seq<Expr>, t: Table, cs: seq<Chain>, failing: nat): Table
    requires failing < |cs|
  {
    var tried := cs[..failing + 1];
    map n | n in t.Keys + (set c | c in tried :: c.name) ::
      if Find(tried, n).Some? then SentChain(keep, t, Find(tried, n).value) else t[n]
  }

  /** A chain that can be completed is sent completely. */
  lemma {:induction false} SentIsAdded(keep: seq<Expr> -> seq<Expr>, c: Chain, ks: seq<NftRule>, i: nat)
    requires i <= |c.rules| && Added(keep, c, ks, i).Some?
    ensures Added(keep, c, ks, i).value == SentRules(keep, c, ks, i)
    decreases |c.rules| - i
  {
    if i < |c.rules| { SentIsAdded(keep, c, ks, i + 1); }
  }

  lemma {:induction false} SentIsCurrent(keep: seq<Expr> -> seq<Expr>, c: Chain, ks: seq<NftRule>, i: nat)
    requires i <= |c.rules| && RuleNamesDistinct(c) && Preserves(keep)
    ensures AllCurrent(c, SentRules(keep, c, ks, i))
    decreases |c.rules| - i
  {
    if i < |c.rules| {
      SentIsCurrent(keep, c, ks, i + 1);
      var r := c.rules[i];
      if !Exists(ks, r) && c.kind != Route && r.forged.Some? {
        var k := NftRule(Some(r.name), keep(r.forged.value));
        assert !Outdated(c, k) by { OutdatedFrom(c, k, 0); assert RuleEqual(c, c.rules[i], k); }
        AllCurrentAppend(c, [k], SentRules(keep, c, ks, i + 1));
      }
    }
  }

  /** What `s` has more than `t` was sent for the configuration. */
  ghost predicate LeftByAttempt(t: Table, s: Table, cs: seq<Chain>) {
    && Extends(t, s)
    && forall n <- s :: (n !in t ==> Find(cs, n).Some? && ChainTidy(s[n], Find(cs, n).value))
                        && (n in t && Find(cs, n).Some? ==> AllCurrent(Find(cs, n).value, s[n].rules[|t[n].rules|..]))
  }

  lemma {:induction false} FindTried(cs: seq<Chain>, m: nat, n: string, i: nat)
    requires i <= m <= |cs|
    ensures Find(cs[..m], n, i).Some? ==> Find(cs, n, i) == Find(cs[..m], n, i)
    decreases m - i
  {
    if i < m { FindTried(cs, m, n, i + 1); }
  }

  lemma {:induction false} SentChainFits(keep: seq<Expr> -> seq<Expr>, t: Table, c: Chain)
    requires RuleNamesDistinct(c) && Preserves(keep)
    ensures var k := SentChain(keep, t, c);
            if c.name in t then k == t[c.name].(rules := k.rules) && t[c.name].rules <= k.rules
                                && AllCurrent(c, k.rules[|t[c.name].rules|..])
            else ChainTidy(k, c)
  {
    var k := SentChain(keep, t, c);
    if c.name in t {
      var ks := t[c.name].rules;
      SentIsCurrent(keep, c, ks, 0);
      assert k.rules[|ks|..] == SentRules(keep, c, ks);
    } else {
      SentIsCurrent(keep, c, [], 0);
      assert k.rules == SentRules(keep, c, []);
      NewChainModifiedIff(c, k.rules);
    }
  }

  /** A failed attempt leaves a committed table and, staged on it, chains and rules of its configuration. */
  lemma {:induction false} AttemptLeaves(keep: seq<Expr> -> seq<Expr>, t: Table, cs: seq<Chain>, failing: nat)
    requires Admitted(cs) && Preserves(keep) && failing < |cs|
    ensures LeftByAttempt(t, Staged(keep, t, cs, failing), cs)
  {
    var s := Staged(keep, t, cs, failing);
    var tried := cs[..failing + 1];
    forall n <- s
      ensures n in t ==> s[n] == t[n].(rules := s[n].rules) && t[n].rules <= s[n].rules
      ensures n !in t ==> Find(cs, n).Some? && ChainTidy(s[n], Find(cs, n).value)
      ensures n in t && Find(cs, n).Some? ==> AllCurrent(Find(cs, n).value, s[n].rules[|t[n].rules|..])
    {
      FindTried(cs, failing + 1, n, 0);
      if Find(tried, n).Some? {
        SentChainFits(keep, t, Find(tried, n).value);
      } else {
        assert n in t;
      }
    }
  }

  // ----- the next attempt

  ghost predicate NoIngress(cs: seq<Chain>) { forall i :: 0 <= i < |cs| ==> cs[i].hook != Ingress }

  /** What is staged is wanted: chains as described now, and only rules that are current now. */
  ghost predicate LeftoversFit(t: Table, s: Table, cs: seq<Chain>)
    requires Extends(t, s)
  {
    forall n <- s ::
      if n !in t then Find(cs, n).Some? && ChainTidy(s[n], Find(cs, n).value)
      else ChainKept(cs, n, t[n]) ==> AllCurrent(Find(cs, n).value, s[n].rules[|t[n].rules|..])
  }

  lemma {:induction false} StagedTidyIff(t: Table, s: Table, cs: seq<Chain>)
    requires Extends(t, s)
    ensures Tidy(CleanStaged(t, s, cs), cs) <==> LeftoversFit(t, s, cs)
  {
    var u := CleanStaged(t, s, cs);
    forall n <- u | n in t
      ensures ChainTidy(u[n], Find(cs, n).value) <==> AllCurrent(Find(cs, n).value, s[n].rules[|t[n].rules|..])
    {
      var c := Find(cs, n).value;
      var kept, more := KeptRules(c, t[n].rules), s[n].rules[|t[n].rules|..];
      KeptIsCurrent(c, t[n].rules);
      assert forall j :: 0 <= j < |more| ==> more[j] == (kept + more)[|kept| + j];
      if AllCurrent(c, more) { AllCurrentAppend(c, kept, more); }
    }
    if LeftoversFit(t, s, cs) {
      forall n <- u ensures Find(cs, n).Some? && ChainTidy(u[n], Find(cs, n).value) {}
    }
    if Tidy(u, cs) {
      forall n <- s | n !in t ensures Find(cs, n).Some? && ChainTidy(s[n], Find(cs, n).value) { assert n in u; }
      forall n <- s | n in t && ChainKept(cs, n, t[n])
        ensures AllCurrent(Find(cs, n).value, s[n].rules[|t[n].rules|..])
      {
        assert n in u;
      }
    }
  }

  lemma {:induction false} SettledWasTidy(keep: seq<Expr> -> seq<Expr>, kept: Table, cs: seq<Chain>, n: string)
    requires ChainNamesDistinct(cs) && CanAdd(keep, kept, cs) && n in kept && Settled(AddAll(keep, kept, cs), cs)
    ensures Find(cs, n).Some? && ChainTidy(kept[n], Find(cs, n).value)
  {
    var u := AddAll(keep, kept, cs);
    assert n in u;
    var c := Find(cs, n).value;
    assert u[n] == AddedChain(keep, kept, c).value;
    var i :| 0 <= i < |cs| && cs[i] == c;
    assert ChainSettled(u, cs[i]);
    assert forall j :: 0 <= j < |kept[n].rules| ==> u[n].rules[j] == kept[n].rules[j];
  }

  /** Adding what is missing leaves any table as wanted exactly when it was tidy and no wanted chain hooks ingress. */
  lemma {:induction false} AddSettlesExactly(keep: seq<Expr> -> seq<Expr>, kept: Table, cs: seq<Chain>)
    requires Admitted(cs) && Preserves(keep) && CanAdd(keep, kept, cs)
    ensures Settled(AddAll(keep, kept, cs), cs) <==> Tidy(kept, cs) && NoIngress(cs)
  {
    if Tidy(kept, cs) { AddSettlesIff(keep, kept, cs); }
    if Settled(AddAll(keep, kept, cs), cs) {
      forall n <- kept
        ensures Find(cs, n).Some? && ChainTidy(kept[n], Find(cs, n).value)
      {
        SettledWasTidy(keep, kept, cs, n);
      }
    }
  }

  /**
  An attempt on top of leftovers, whatever configuration they are from, settles exactly when they fit the
  new one.
  */
  lemma {:induction false} RetrySettlesIff(keep: seq<Expr> -> seq<Expr>, t: Table, s: Table, cs: seq<Chain>)
    requires Admitted(cs) && Preserves(keep) && Extends(t, s) && CanAdd(keep, CleanStaged(t, s, cs), cs)
    ensures Settled(AddAll(keep, CleanStaged(t, s, cs), cs), cs) <==> LeftoversFit(t, s, cs) && NoIngress(cs)
  {
    StagedTidyIff(t, s, cs);
    AddSettlesExactly(keep, CleanStaged(t, s, cs), cs);
  }

  /** Leftovers fit the configuration they were sent for, so trying it again settles as a first attempt does. */
  lemma {:induction false} SameConfigurationSettles(keep: seq<Expr> -> seq<Expr>, t: Table, cs: seq<Chain>,
                                                    failing: nat)
    requires Admitted(cs) && Preserves(keep) && failing < |cs|
    ensures var s := Staged(keep, t, cs, failing);
            && LeftoversFit(t, s, cs)
            && (CanAdd(keep, CleanStaged(t, s, cs), cs) ==>
                  (Settled(AddAll(keep, CleanStaged(t, s, cs), cs), cs) <==> NoIngress(cs)))
  {
    AttemptLeaves(keep, t, cs, failing);
    var s := Staged(keep, t, cs, failing);
    if CanAdd(keep, CleanStaged(t, s, cs), cs) { RetrySettlesIff(keep, t, s, cs); }
  }

  lemma {:induction false} EditedAttempt(keep: seq<Expr> -> seq<Expr>, c: Chain, a: Rule, b: Rule)
    requires c.rules == [a, b] && a.name != b.name && a.forged.Some? && b.forged.None? && c.kind == Filter
    ensures var k := NftRule(Some(a.name), keep(a.forged.value));
            && Staged(keep, map[], [c], 0) == map[c.name := NewChain(c).(rules := [k])]
            && !CanAdd(keep, CleanTable(map[], [c]), [c])
  {
    var k := NftRule(Some(a.name), keep(a.forged.value));
    assert !Exists([], a) && !Exists([], b);
    assert SentRules(keep, c, [], 1) == [];
    assert SentRules(keep, c, []) == [k];
    assert [c][..1] == [c] && Find([c], c.name) == Some(c);
    assert SentChain(keep, map[], c) == NewChain(c).(rules := [k]);
    var s := Staged(keep, map[], [c], 0);
    assert s.Keys == {c.name} by { assert c in [c][..1]; }
    assert Added(keep, c, [], 1).None? && Added(keep, c, []).None?;
    assert CleanTable(map[], [c]) == map[];
    assert AddedChain(keep, map[], [c][0]).None?;
  }

  lemma {:induction false} WithoutRulesSettles(keep: seq<Expr> -> seq<Expr>, t: Table, c: Chain)
    requires Preserves(keep) && c.rules == [] && c.hook != Ingress
    ensures Admitted([c]) && Settled(Pass(keep, t, [c]), [c])
  {
    assert AddedChain(keep, CleanTable(t, [c]), [c][0]).Some?;
    PassSettlesIff(keep, t, [c]);
  }

  lemma {:induction false} EditedRetry(keep: seq<Expr> -> seq<Expr>, c: Chain, k: NftRule)
    requires c.rules == [] && k.name.Some?
    ensures var kept: Table := map[c.name := NewChain(c).(rules := [k])];
            CanAdd(keep, kept, [c]) && AddAll(keep, kept, [c]) == kept && !Settled(kept, [c])
  {
    var kept: Table := map[c.name := NewChain(c).(rules := [k])];
    assert Added(keep, c, [k]) == Some([]) && [k] + [] == [k];
    assert Find([c], c.name) == Some(c);
    var u := AddAll(keep, kept, [c]);
    assert u.Keys == {c.name} && u[c.name] == kept[c.name];
    assert Outdated(c, kept[c.name].rules[0]);
    assert !ChainSettled(kept, [c][0]);
  }

  /**
  After an edit it need not: a chain with a rule and a second one that cannot be compiled fails and leaves
  the chain with the first rule staged. With the rules taken out of the configuration, the next pass
  succeeds and puts that rule in force; only the pass after it removes it.
  */
  lemma {:induction false} EditedConfigurationKeepsOldRule(keep: seq<Expr> -> seq<Expr>, c: Chain, a: Rule, b: Rule)
    requires Preserves(keep) && c.rules == [a, b] && a.name != b.name && a.forged.Some? && b.forged.None?
    requires c.kind == Filter && c.hook != Ingress
    ensures var s := Staged(keep, map[], [c], 0);
            var cs := [c.(rules := [])];
            && Admitted([c]) && Admitted(cs) && !CanAdd(keep, CleanTable(map[], [c]), [c])
            && CanAdd(keep, CleanStaged(map[], s, cs), cs)
            && var u := AddAll(keep, CleanStaged(map[], s, cs), cs);
            && u == map[c.name := NewChain(c).(rules := [NftRule(Some(a.name), keep(a.forged.value))])]
            && !Settled(u, cs) && Settled(Pass(keep, u, cs), cs)
  {
    var k := NftRule(Some(a.name), keep(a.forged.value));
    EditedAttempt(keep, c, a, b);
    var s := Staged(keep, map[], [c], 0);
    var cs := [c.(rules := [])];
    assert CleanStaged(map[], s, cs) == s;
    EditedRetry(keep, cs[0], k);
    WithoutRulesSettles(keep, s, cs[0]);
  }

  // ----- notrack rules among the leftovers

  /** The rule is among what the first transaction commits for a chain that stays or that is new. */
  ghost predicate Pending(t: Table, s: Table, c: Chain, r: Rule)
    requires Extends(t, s)
  {
    && c.name in s && (c.name in t ==> !IsChainModified(t[c.name], c))
    && Exists(if c.name in t then s[c.name].rules[|t[c.name].rules|..] else s[c.name].rules, r)
  }

  lemma {:induction false} StagedMissingIff(t: Table, s: Table, cs: seq<Chain>, i: nat, j: nat)
    requires Admitted(cs) && Extends(t, s) && i < |cs| && j < |cs[i].rules|
    ensures var c, r := cs[i], cs[i].rules[j];
            NotrackMissing(CleanStaged(t, s, cs), c, r) <==>
            c.kind == Filter && r.notrack && !InForce(t, c, r) && !Pending(t, s, c, r)
  {
    var c, r := cs[i], cs[i].rules[j];
    FindFrom(cs, i, 0);
    MissingIff(t, cs, i, j);
    if c.name in t && !IsChainModified(t[c.name], c) {
      ExistsAppend(KeptRules(c, t[c.name].rules), s[c.name].rules[|t[c.name].rules|..], r);
    }
  }

  /**
  On top of leftovers the pass reports a notrack rule as added exactly when some wanted one was neither in
  force before nor left in the connection by an attempt that failed.
  */
  lemma {:induction false} StagedNotrackAppliedIff(t: Table, s: Table, cs: seq<Chain>)
    requires Admitted(cs) && Extends(t, s)
    ensures NotrackApplied(CleanStaged(t, s, cs), cs) <==>
            exists i, j :: 0 <= i < |cs| && 0 <= j < |cs[i].rules| && cs[i].kind == Filter && cs[i].rules[j].notrack
                           && !InForce(t, cs[i], cs[i].rules[j]) && !Pending(t, s, cs[i], cs[i].rules[j])
  {
    forall i, j | 0 <= i < |cs| && 0 <= j < |cs[i].rules|
      ensures NotrackMissing(CleanStaged(t, s, cs), cs[i], cs[i].rules[j]) <==>
              cs[i].kind == Filter && cs[i].rules[j].notrack
              && !InForce(t, cs[i], cs[i].rules[j]) && !Pending(t, s, cs[i], cs[i].rules[j])
    {
      StagedMissingIff(t, s, cs, i, j);
    }
  }

  lemma {:induction false} LeftoverRetry(keep: seq<Expr> -> seq<Expr>, c: Chain, a: Rule)
    requires Preserves(keep) && c.rules == [a] && a.forged.Some? && c.hook != Ingress
    ensures var kept: Table := map[c.name := NewChain(c).(rules := [NftRule(Some(a.name), keep(a.forged.value))])];
            && Admitted([c]) && CanAdd(keep, kept, [c]) && AddAll(keep, kept, [c]) == kept
            && Settled(kept, [c]) && InForce(kept, c, a) && !NotrackApplied(kept, [c])
  {
    var k := NftRule(Some(a.name), keep(a.forged.value));
    var kept: Table := map[c.name := NewChain(c).(rules := [k])];
    assert [k][0].name == Some(a.name) && Exists([k], a);
    assert Added(keep, c, [k], 1) == Some([]) && Added(keep, c, [k]) == Some([]) && [k] + [] == [k];
    assert Find([c], c.name) == Some(c);
    assert AddAll(keep, kept, [c])[c.name] == kept[c.name];
    assert AddAll(keep, kept, [c]).Keys == {c.name};
    NewChainModifiedIff(c, [k]);
    OutdatedFrom(c, k, 0);
    assert k in [k] && RuleEqual(c, c.rules[0], k);
    assert ChainSettled(kept, c);
  }

  /**
  So a notrack rule can come into force without an eviction: the attempt that sends it fails at a rule that
  cannot be compiled, and the next one, without that rule, commits it first and then finds it there.
  */
  lemma {:induction false} LeftoverNotEvicted(keep: seq<Expr> -> seq<Expr>, c: Chain, a: Rule, b: Rule)
    requires Preserves(keep) && c.rules == [a, b] && a.name != b.name && a.forged.Some? && b.forged.None?
    requires c.kind == Filter && c.hook != Ingress && a.notrack
    ensures var s := Staged(keep, map[], [c], 0);
            var cs := [c.(rules := [a])];
            && Admitted([c]) && Admitted(cs) && !CanAdd(keep, CleanTable(map[], [c]), [c])
            && var kept := CleanStaged(map[], s, cs);
            && CanAdd(keep, kept, cs) && Settled(AddAll(keep, kept, cs), cs)
            && !InForce(map[], cs[0], a) && InForce(AddAll(keep, kept, cs), cs[0], a) && !NotrackApplied(kept, cs)
  {
    EditedAttempt(keep, c, a, b);
    var s := Staged(keep, map[], [c], 0);
    var cs := [c.(rules := [a])];
    assert CleanStaged(map[], s, cs) == s;
    LeftoverRetry(keep, cs[0], a);
  }
}
