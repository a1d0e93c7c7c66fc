/**
One reconciliation of a FirewallConfiguration as a function of its nftables table (pkg/firewall/chain.go,
rule.go and table.go, and Reconcile in firewallconfiguration_controller.go): chains and rules that are
outdated are deleted in one transaction, missing ones are added in a second one.
*/
module Firewall {
  import opened Wrappers
  import opened FirewallRules
  import Conntrack

  datatype Kind = Filter | Nat | Route

  datatype Hook = Prerouting | Input | Forward | Output | Postrouting | Ingress

  datatype Policy = Drop | Accept

  /** A wanted rule: the expressions it compiles to, unless it cannot be compiled, and what it matches. */
  datatype Rule = Rule(name: string, forged: Option<seq<Expr>>, notrack: bool, matches: Conntrack.Rule)

  /** A wanted chain with the rules of its kind; `stray` are the filter rules listed in a chain of another kind. */
  datatype Chain = Chain(name: string, kind: Kind, hook: Hook, priority: int, policy: Policy, rules: seq<Rule>,
                         stray: seq<Rule>)

  datatype NftRule = NftRule(name: Option<string>, exprs: seq<Expr>)

  datatype NftChain = NftChain(kind: Kind, hook: nat, priority: int, policy: Policy, rules: seq<NftRule>)

  type Table = map<string, NftChain>

  /** `setHooknum`: the hook of ingress chains has the number of the prerouting one. */
  function HookNumber(h: Hook): nat {
    match h
    case Prerouting => 0
    case Input => 1
    case Forward => 2
    case Output => 3
    case Postrouting => 4
    case Ingress => 0
  }

  /** `getHooknum`: the first hook with the number. */
  function HookOf(n: nat): Option<Hook> {
    match n
    case 0 => Some(Prerouting)
    case 1 => Some(Input)
    case 2 => Some(Forward)
    case 3 => Some(Output)
    case 4 => Some(Postrouting)
    case _ => None
  }

  predicate IsChainModified(k: NftChain, c: Chain) {
    c.kind != k.kind || HookOf(k.hook) != Some(c.hook) || c.priority != k.priority || c.policy != k.policy
  }

  function NewChain(c: Chain): NftChain { NftChain(c.kind, HookNumber(c.hook), c.priority, c.policy, []) }

  /** A chain just created from its description does not look modified, unless it is an ingress chain. */
  lemma {:induction false} NewChainModifiedIff(c: Chain, rules: seq<NftRule>)
    ensures IsChainModified(NewChain(c).(rules := rules), c) <==> c.hook == Ingress
  {}

  /** A chain that does not look modified is the one that would be created, up to its rules. */
  lemma {:induction false} UnmodifiedIff(k: NftChain, c: Chain)
    ensures !IsChainModified(k, c) <==> c.hook != Ingress && k == NewChain(c).(rules := k.rules)
  {}

  /** `Equal` of the rule wrappers; route rules are never compared. */
  ghost predicate RuleEqual(c: Chain, r: Rule, k: NftRule) {
    c.kind == Route || (r.forged.Some? && Compared(Stable(k.exprs), Stable(r.forged.value)))
  }

  ghost predicate Outdated(c: Chain, k: NftRule, i: nat := 0)
    requires i <= |c.rules|
    decreases |c.rules| - i
  {
    if k.name.None? || i == |c.rules| then true
    else if c.rules[i].name == k.name.value then !RuleEqual(c, c.rules[i], k)
    else Outdated(c, k, i + 1)
  }

  ghost predicate RuleNamesDistinct(c: Chain) {
    forall i, j :: 0 <= i < |c.rules| && 0 <= j < |c.rules| && i != j ==> c.rules[i].name != c.rules[j].name
  }

  ghost predicate ChainNamesDistinct(cs: seq<Chain>) {
    forall i, j :: 0 <= i < |cs| && 0 <= j < |cs| && i != j ==> cs[i].name != cs[j].name
  }

  lemma {:induction false} OutdatedFrom(c: Chain, k: NftRule, i: nat)
    requires i <= |c.rules| && RuleNamesDistinct(c)
    ensures !Outdated(c, k, i) <==>
              k.name.Some? && exists j ::
                  i <= j < |c.rules| && c.rules[j].name == k.name.value && RuleEqual(c, c.rules[j], k)
    decreases |c.rules| - i
  {
    if k.name.Some? && i < |c.rules| { OutdatedFrom(c, k, i + 1); }
  }

  ghost function KeptRules(c: Chain, ks: seq<NftRule>): seq<NftRule> {
    if ks == [] then [] else (if Outdated(c, ks[0]) then [] else [ks[0]]) + KeptRules(c, ks[1..])
  }

  lemma {:induction false} KeptExact(c: Chain, ks: seq<NftRule>)
    ensures forall k :: k in KeptRules(c, ks) <==> k in ks && !Outdated(c, k)
  {
    if ks != [] { KeptExact(c, ks[1..]); assert ks == [ks[0]] + ks[1..]; }
  }

  ghost predicate AllCurrent(c: Chain, ks: seq<NftRule>) { forall i :: 0 <= i < |ks| ==> !Outdated(c, ks[i]) }

  lemma {:induction false} KeptAllIff(c: Chain, ks: seq<NftRule>)
    ensures KeptRules(c, ks) == ks <==> AllCurrent(c, ks)
    ensures |KeptRules(c, ks)| <= |ks|
  {
    if ks != [] {
      KeptAllIff(c, ks[1..]);
      assert forall i :: 0 <= i < |ks| - 1 ==> ks[1..][i] == ks[i + 1];
      if !Outdated(c, ks[0]) {
        if AllCurrent(c, ks[1..]) {
          forall i | 0 <= i < |ks| ensures !Outdated(c, ks[i]) { if i > 0 { assert !Outdated(c, ks[1..][i - 1]); } }
        }
        assert KeptRules(c, ks) == [ks[0]] + KeptRules(c, ks[1..]);
        assert KeptRules(c, ks)[1..] == KeptRules(c, ks[1..]);
      }
    }
  }

  /** The wanted chain with that name, from the i-th on. */
  function Find(cs: seq<Chain>, name: string, i: nat := 0): (r: Option<Chain>)
    requires i <= |cs|
    ensures r.None? ==> forall j :: i <= j < |cs| ==> cs[j].name != name
    ensures r.Some? ==> r.value.name == name && r.value in cs
    decreases |cs| - i
  {
    if i == |cs| then None else if cs[i].name == name then Some(cs[i]) else Find(cs, name, i + 1)
  }

  predicate ChainKept(cs: seq<Chain>, name: string, k: NftChain) {
    var c := Find(cs, name);
    c.Some? && !IsChainModified(k, c.value)
  }

  /** The table after the first transaction. */
  ghost function CleanTable(t: Table, cs: seq<Chain>): Table {
    map n | n in t && ChainKept(cs, n, t[n]) :: t[n].(rules := KeptRules(Find(cs, n).value, t[n].rules))
  }

  // ----- adding

  /** `existRule`. */
  ghost predicate Exists(ks: seq<NftRule>, r: Rule) { exists i :: 0 <= i < |ks| && ks[i].name == Some(r.name) }

  /** The rules to append to a chain that lists `ks`; `keep` is what the kernel makes of the expressions. */
  ghost function Added(keep: seq<Expr> -> seq<Expr>, c: Chain, ks: seq<NftRule>, i: nat := 0): Option<seq<NftRule>>
    requires i <= |c.rules|
    decreases |c.rules| - i
  {
    if i == |c.rules| then Some([])
    else if Exists(ks, c.rules[i]) || c.kind == Route then Added(keep, c, ks, i + 1)
    else if c.rules[i].forged.None? then None
    else
      var rest := Added(keep, c, ks, i + 1);
      if rest.None? then None else Some([NftRule(Some(c.rules[i].name), keep(c.rules[i].forged.value))] + rest.value)
  }

  /** The chain after the second transaction, or nothing when a missing rule cannot be compiled. */
  ghost function AddedChain(keep: seq<Expr> -> seq<Expr>, t: Table, c: Chain): Option<NftChain> {
    var k := if c.name in t then t[c.name] else NewChain(c);
    var more := Added(keep, c, k.rules);
    if more.None? then None else Some(k.(rules := k.rules + more.value))
  }

  ghost predicate CanAdd(keep: seq<Expr> -> seq<Expr>, t: Table, cs: seq<Chain>) {
    forall i :: 0 <= i < |cs| ==> AddedChain(keep, t, cs[i]).Some?
  }

  ghost function AddAll(keep: seq<Expr> -> seq<Expr>, t: Table, cs: seq<Chain>): Table
    requires CanAdd(keep, t, cs) && ChainNamesDistinct(cs)
  {
    map n | n in t.Keys + (set c | c in cs :: c.name) ::
        if Find(cs, n).Some? then AddedChain(keep, t, Find(cs, n).value).value else t[n]
  }

  /** The table after a whole pass; a pass that fails leaves the table as the first transaction left it. */
  ghost function Pass(keep: seq<Expr> -> seq<Expr>, t: Table, cs: seq<Chain>): Table
    requires ChainNamesDistinct(cs)
  {
    var kept := CleanTable(t, cs);
    if CanAdd(keep, kept, cs) then AddAll(keep, kept, cs) else kept
  }

  /** The pass reports that a notrack rule was added. */
  ghost predicate NotrackApplied(t: Table, cs: seq<Chain>) {
    exists i, j :: 0 <= i < |cs| && 0 <= j < |cs[i].rules| && NotrackMissing(t, cs[i], cs[i].rules[j])
  }

  ghost predicate NotrackMissing(t: Table, c: Chain, r: Rule) {
    c.kind == Filter && r.notrack && (c.name !in t || !Exists(t[c.name].rules, r))
  }

  // ----- what a pass leaves behind

  ghost predicate ChainSettled(t: Table, c: Chain) {
    && c.name in t && !IsChainModified(t[c.name], c) && AllCurrent(c, t[c.name].rules)
    && (c.kind != Route ==> forall j :: 0 <= j < |c.rules| ==> Exists(t[c.name].rules, c.rules[j]))
  }

  /** The table is as wanted: the wanted chains and no others, with the wanted rules and no others. */
  ghost predicate Settled(t: Table, cs: seq<Chain>) {
    && (forall n <- t :: Find(cs, n).Some?)
    && forall i :: 0 <= i < |cs| ==> ChainSettled(t, cs[i])
  }

  /** A configuration as admitted: names tell chains and rules apart. */
  ghost predicate Admitted(cs: seq<Chain>) {
    ChainNamesDistinct(cs) && forall i :: 0 <= i < |cs| ==> RuleNamesDistinct(cs[i])
  }

  /** What the kernel gives back still compares equal to what it was given. */
  ghost predicate Preserves(keep: seq<Expr> -> seq<Expr>) { forall es :: Compared(Stable(keep(es)), Stable(es)) }

  lemma {:induction false} FindFrom(cs: seq<Chain>, i: nat, from: nat)
    requires ChainNamesDistinct(cs) && from <= i < |cs|
    ensures Find(cs, cs[i].name, from) == Some(cs[i])
    decreases i - from
  {}

  /** The rules a chain is missing, in order and current. */
  lemma {:induction false} AddedExact(keep: seq<Expr> -> seq<Expr>, c: Chain, ks: seq<NftRule>, i: nat)
    requires i <= |c.rules| && RuleNamesDistinct(c) && Preserves(keep) && Added(keep, c, ks, i).Some?
    ensures var more := Added(keep, c, ks, i).value;
            && AllCurrent(c, more)
            && (c.kind != Route ==> forall j :: i <= j < |c.rules| ==>
                Exists(ks, c.rules[j]) || Exists(more, c.rules[j]))
            && (more == [] <==> c.kind == Route || forall j :: i <= j < |c.rules| ==> Exists(ks, c.rules[j]))
    decreases |c.rules| - i
  {
    if i < |c.rules| {
      AddedExact(keep, c, ks, i + 1);
      var r, more := c.rules[i], Added(keep, c, ks, i).value;
      if !Exists(ks, r) && c.kind != Route {
        var rest := Added(keep, c, ks, i + 1).value;
        var k := NftRule(Some(r.name), keep(r.forged.value));
        assert more == [k] + rest && more[0] == k;
        assert !Outdated(c, k) by { OutdatedFrom(c, k, 0); assert RuleEqual(c, c.rules[i], k); }
        forall j | 0 <= j < |more| ensures !Outdated(c, more[j]) { if j > 0 { assert more[j] == rest[j - 1]; } }
        forall j | i <= j < |c.rules| ensures Exists(ks, c.rules[j]) || Exists(more, c.rules[j]) {
          if j > i && !Exists(ks, c.rules[j]) {
            var l :| 0 <= l < |rest| && rest[l].name == Some(c.rules[j].name);
            assert more[l + 1].name == Some(c.rules[j].name);
          }
        }
      }
    }
  }

  lemma {:induction false} AllCurrentAppend(c: Chain, a: seq<NftRule>, b: seq<NftRule>)
    requires AllCurrent(c, a) && AllCurrent(c, b)
    ensures AllCurrent(c, a + b)
  {}

  lemma {:induction false} KeptIsCurrent(c: Chain, ks: seq<NftRule>)
    ensures AllCurrent(c, KeptRules(c, ks))
  {
    KeptExact(c, ks);
  }

  lemma {:induction false} ExistsAppend(a: seq<NftRule>, b: seq<NftRule>, r: Rule)
    ensures Exists(a + b, r) <==> Exists(a, r) || Exists(b, r)
  {
    if Exists(a, r) { var i :| 0 <= i < |a| && a[i].name == Some(r.name); assert (a + b)[i].name == Some(r.name); }
    if Exists(b, r) {
      var i :| 0 <= i < |b| && b[i].name == Some(r.name);
      assert (a + b)[|a| + i].name == Some(r.name);
    }
    if Exists(a + b, r) {
      var i :| 0 <= i < |a + b| && (a + b)[i].name == Some(r.name);
      if i < |a| { assert a[i].name == Some(r.name); } else { assert b[i - |a|].name == Some(r.name); }
    }
  }

  /** Nothing in the table is outdated, except for ingress chains, which always look modified. */
  ghost predicate Tidy(t: Table, cs: seq<Chain>) {
    forall n <- t :: Find(cs, n).Some? && ChainTidy(t[n], Find(cs, n).value)
  }

  ghost predicate ChainTidy(k: NftChain, c: Chain) {
    (IsChainModified(k, c) ==> c.hook == Ingress) && AllCurrent(c, k.rules)
  }

  lemma {:induction false} HookIsNotIngress(k: NftChain, c: Chain)
    requires !IsChainModified(k, c)
    ensures c.hook != Ingress
  {}

  lemma {:induction false} CleanIsTidy(t: Table, cs: seq<Chain>)
    ensures Tidy(CleanTable(t, cs), cs)
  {
    forall n <- CleanTable(t, cs)
      ensures ChainTidy(CleanTable(t, cs)[n], Find(cs, n).value)
    {
      KeptIsCurrent(Find(cs, n).value, t[n].rules);
    }
  }

  lemma {:induction false} ChainSettles(keep: seq<Expr> -> seq<Expr>, kept: Table, cs: seq<Chain>, i: nat)
    requires Admitted(cs) && Preserves(keep) && i < |cs| && Tidy(kept, cs) && CanAdd(keep, kept, cs)
    ensures var u := AddAll(keep, kept, cs); ChainSettled(u, cs[i]) <==> cs[i].hook != Ingress
  {
    var c := cs[i];
    var u := AddAll(keep, kept, cs);
    FindFrom(cs, i, 0);
    assert c.name in u && u[c.name] == AddedChain(keep, kept, c).value;
    var k := if c.name in kept then kept[c.name] else NewChain(c);
    var more := Added(keep, c, k.rules).value;
    AddedExact(keep, c, k.rules, 0);
    assert ChainTidy(k, c) by { if c.name !in kept { NewChainModifiedIff(c, []); } }
    AllCurrentAppend(c, k.rules, more);
    forall j | 0 <= j < |c.rules| && c.kind != Route
      ensures Exists(k.rules + more, c.rules[j])
    {
      ExistsAppend(k.rules, more, c.rules[j]);
    }
    if !IsChainModified(k, c) { HookIsNotIngress(k, c); }
  }

  /** Adding what is missing to a tidy table leaves it as wanted exactly when no wanted chain hooks ingress. */
  lemma {:induction false} AddSettlesIff(keep: seq<Expr> -> seq<Expr>, kept: Table, cs: seq<Chain>)
    requires Admitted(cs) && Preserves(keep) && Tidy(kept, cs) && CanAdd(keep, kept, cs)
    ensures Settled(AddAll(keep, kept, cs), cs) <==> forall i :: 0 <= i < |cs| ==> cs[i].hook != Ingress
  {
    var u := AddAll(keep, kept, cs);
    forall i | 0 <= i < |cs|
      ensures ChainSettled(u, cs[i]) <==> cs[i].hook != Ingress
    {
      ChainSettles(keep, kept, cs, i);
    }
    forall n <- u ensures Find(cs, n).Some? {
      if n !in kept { var c :| c in cs && c.name == n; }
    }
  }

  /**
  From any table, a pass that succeeds leaves it as wanted exactly when no wanted chain hooks ingress:
  those are deleted and created again by every pass.
  */
  lemma {:induction false} PassSettlesIff(keep: seq<Expr> -> seq<Expr>, t: Table, cs: seq<Chain>)
    requires Admitted(cs) && Preserves(keep) && CanAdd(keep, CleanTable(t, cs), cs)
    ensures Settled(Pass(keep, t, cs), cs) <==> forall i :: 0 <= i < |cs| ==> cs[i].hook != Ingress
  {
    CleanIsTidy(t, cs);
    AddSettlesIff(keep, CleanTable(t, cs), cs);
  }

  // ----- what the table means

  /** The listed rule has the name of the wanted one and expressions that compare equal to what it compiles to. */
  ghost predicate Enforces(k: NftRule, r: Rule) {
    && k.name == Some(r.name) && r.forged.Some? && Similar(k.exprs, r.forged.value)
    && (PlainDistinct(k.exprs) ==> SamePlain(k.exprs, r.forged.value))
  }

  /** The chain is as described, and its rules are the wanted ones and no others. */
  ghost predicate ChainMeans(k: NftChain, c: Chain) {
    && k.kind == c.kind && k.priority == c.priority && k.policy == c.policy
    && (c.kind != Route ==>
          && (forall l :: 0 <= l < |k.rules| ==> IsWanted(k.rules[l], c))
          && (forall j :: 0 <= j < |c.rules| ==> IsEnforced(k.rules, c.rules[j])))
  }

  ghost predicate IsWanted(k: NftRule, c: Chain) { exists j :: 0 <= j < |c.rules| && Enforces(k, c.rules[j]) }

  ghost predicate IsEnforced(ks: seq<NftRule>, r: Rule) { exists l :: 0 <= l < |ks| && Enforces(ks[l], r) }

  lemma {:induction false} CurrentEnforces(c: Chain, k: NftRule) returns (j: nat)
    requires RuleNamesDistinct(c) && c.kind != Route && !Outdated(c, k)
    ensures j < |c.rules| && Enforces(k, c.rules[j])
  {
    OutdatedFrom(c, k, 0);
    j :| 0 <= j < |c.rules| && c.rules[j].name == k.name.value && RuleEqual(c, c.rules[j], k);
    ComparedMeans(k.exprs, c.rules[j].forged.value);
  }

  lemma {:induction false} CurrentChainMeans(k: NftChain, c: Chain)
    requires RuleNamesDistinct(c) && AllCurrent(c, k.rules)
    requires k.kind == c.kind && k.priority == c.priority && k.policy == c.policy
    requires c.kind != Route ==> forall j :: 0 <= j < |c.rules| ==> Exists(k.rules, c.rules[j])
    ensures ChainMeans(k, c)
  {
    if c.kind != Route {
      forall l | 0 <= l < |k.rules| ensures IsWanted(k.rules[l], c) {
        var j := CurrentEnforces(c, k.rules[l]);
      }
      forall j | 0 <= j < |c.rules| ensures IsEnforced(k.rules, c.rules[j]) {
        var l :| 0 <= l < |k.rules| && k.rules[l].name == Some(c.rules[j].name);
        var i := CurrentEnforces(c, k.rules[l]);
        assert i == j;
      }
    }
  }

  /** A table as wanted means what is wanted. */
  lemma {:induction false} SettledMeans(t: Table, cs: seq<Chain>, i: nat)
    requires Admitted(cs) && Settled(t, cs) && i < |cs|
    ensures cs[i].name in t && ChainMeans(t[cs[i].name], cs[i])
  {
    assert ChainSettled(t, cs[i]);
    CurrentChainMeans(t[cs[i].name], cs[i]);
  }

  /**
  From any table a pass that succeeds leaves the wanted chains and no others, each as described and with
  rules that carry the expressions of the wanted ones, whatever was there before.
  */
  lemma {:induction false} PassMeans(keep: seq<Expr> -> seq<Expr>, t: Table, cs: seq<Chain>)
    requires Admitted(cs) && Preserves(keep) && CanAdd(keep, CleanTable(t, cs), cs)
    ensures var u := Pass(keep, t, cs);
            && (forall n :: n in u <==> exists i :: 0 <= i < |cs| && cs[i].name == n)
            && (forall i :: 0 <= i < |cs| ==> cs[i].name in u && ChainMeans(u[cs[i].name], cs[i]))
  {
    var kept := CleanTable(t, cs);
    var u := AddAll(keep, kept, cs);
    forall n | n in u ensures exists i :: 0 <= i < |cs| && cs[i].name == n {
      if n in kept { var i :| 0 <= i < |cs| && cs[i] == Find(cs, n).value; }
    }
    forall i | 0 <= i < |cs| ensures cs[i].name in u && ChainMeans(u[cs[i].name], cs[i]) { AddedMeans(keep, t, cs, i); }
  }

  lemma {:induction false} AddedMeans(keep: seq<Expr> -> seq<Expr>, t: Table, cs: seq<Chain>, i: nat)
    requires Admitted(cs) && Preserves(keep) && CanAdd(keep, CleanTable(t, cs), cs) && i < |cs|
    ensures var u := AddAll(keep, CleanTable(t, cs), cs); cs[i].name in u && ChainMeans(u[cs[i].name], cs[i])
  {
    var c, kept := cs[i], CleanTable(t, cs);
    FindFrom(cs, i, 0);
    CleanIsTidy(t, cs);
    var k := if c.name in kept then kept[c.name] else NewChain(c);
    var more := Added(keep, c, k.rules).value;
    AddedExact(keep, c, k.rules, 0);
    AllCurrentAppend(c, k.rules, more);
    forall j | 0 <= j < |c.rules| && c.kind != Route ensures Exists(k.rules + more, c.rules[j]) {
      ExistsAppend(k.rules, more, c.rules[j]);
    }
    CurrentChainMeans(k.(rules := k.rules + more), c);
  }

  lemma {:induction false} ChainIdleIff(keep: seq<Expr> -> seq<Expr>, t: Table, c: Chain)
    requires RuleNamesDistinct(c) && Preserves(keep) && c.name in t
    ensures KeptRules(c, t[c.name].rules) == t[c.name].rules && AddedChain(keep, t, c) == Some(t[c.name])
            <==> AllCurrent(c, t[c.name].rules) && (c.kind != Route ==> forall j :: 0 <= j < |c.rules| ==>
                                                    Exists(t[c.name].rules, c.rules[j]))
  {
    var ks := t[c.name].rules;
    KeptAllIff(c, ks);
    if Added(keep, c, ks).Some? {
      var more := Added(keep, c, ks).value;
      AddedExact(keep, c, ks, 0);
      assert ks + more == ks <==> more == [] by { if ks + more == ks { assert |more| == 0; } }
    } else {
      NotAdded(keep, c, ks, 0);
    }
  }

  lemma {:induction false} NotAdded(keep: seq<Expr> -> seq<Expr>, c: Chain, ks: seq<NftRule>, i: nat)
    requires i <= |c.rules|
    ensures Added(keep, c, ks, i).None? <==>
              c.kind != Route && exists j :: i <= j < |c.rules| && !Exists(ks, c.rules[j]) && c.rules[j].forged.None?
    decreases |c.rules| - i
  {
    if i < |c.rules| { NotAdded(keep, c, ks, i + 1); }
  }

  /** Neither transaction changes anything exactly when the table is as wanted. */
  lemma {:induction false} IdleIffSettled(keep: seq<Expr> -> seq<Expr>, t: Table, cs: seq<Chain>)
    requires Admitted(cs) && Preserves(keep)
    ensures CleanTable(t, cs) == t && CanAdd(keep, t, cs) && AddAll(keep, t, cs) == t <==> Settled(t, cs)
  {
    if Settled(t, cs) {
      SettledIsIdle(keep, t, cs);
    } else if CleanTable(t, cs) == t && CanAdd(keep, t, cs) && AddAll(keep, t, cs) == t {
      IdleIsSettled(keep, t, cs);
    }
  }

  ghost predicate ChainIdle(keep: seq<Expr> -> seq<Expr>, t: Table, cs: seq<Chain>, c: Chain) {
    && c.name in t && Find(cs, c.name) == Some(c) && ChainKept(cs, c.name, t[c.name])
    && KeptRules(c, t[c.name].rules) == t[c.name].rules && AddedChain(keep, t, c) == Some(t[c.name])
  }

  lemma {:induction false} SettledChainIdle(keep: seq<Expr> -> seq<Expr>, t: Table, cs: seq<Chain>, i: nat)
    requires Admitted(cs) && Preserves(keep) && i < |cs| && ChainSettled(t, cs[i])
    ensures ChainIdle(keep, t, cs, cs[i])
  {
    FindFrom(cs, i, 0);
    ChainIdleIff(keep, t, cs[i]);
  }

  lemma {:induction false} SettledIsIdle(keep: seq<Expr> -> seq<Expr>, t: Table, cs: seq<Chain>)
    requires Admitted(cs) && Preserves(keep) && Settled(t, cs)
    ensures CleanTable(t, cs) == t && CanAdd(keep, t, cs) && AddAll(keep, t, cs) == t
  {
    forall c | c in cs ensures ChainIdle(keep, t, cs, c) {
      var i :| 0 <= i < |cs| && cs[i] == c;
      SettledChainIdle(keep, t, cs, i);
    }
    assert forall i :: 0 <= i < |cs| ==> ChainIdle(keep, t, cs, cs[i]);
    assert forall n <- t :: Find(cs, n).Some?;
    IdleCleans(keep, t, cs);
    IdleAdds(keep, t, cs);
  }

  lemma {:induction false} IdleCleans(keep: seq<Expr> -> seq<Expr>, t: Table, cs: seq<Chain>)
    requires (forall c :: c in cs ==> ChainIdle(keep, t, cs, c)) && forall n <- t :: Find(cs, n).Some?
    ensures CleanTable(t, cs) == t
  {}

  lemma {:induction false} IdleAdds(keep: seq<Expr> -> seq<Expr>, t: Table, cs: seq<Chain>)
    requires ChainNamesDistinct(cs) && CanAdd(keep, t, cs)
    requires (forall c :: c in cs ==> ChainIdle(keep, t, cs, c)) && forall n <- t :: Find(cs, n).Some?
    ensures AddAll(keep, t, cs) == t
  {}

  lemma {:induction false} IdleIsSettled(keep: seq<Expr> -> seq<Expr>, t: Table, cs: seq<Chain>)
    requires Admitted(cs) && Preserves(keep) && CleanTable(t, cs) == t && CanAdd(keep, t, cs)
    requires AddAll(keep, t, cs) == t
    ensures Settled(t, cs)
  {
    forall n <- t ensures Find(cs, n).Some? { assert n in CleanTable(t, cs); }
    forall i | 0 <= i < |cs| ensures ChainSettled(t, cs[i]) {
      FindFrom(cs, i, 0);
      var n := cs[i].name;
      assert n in AddAll(keep, t, cs) && AddAll(keep, t, cs)[n] == AddedChain(keep, t, cs[i]).value;
      assert n in CleanTable(t, cs) && CleanTable(t, cs)[n] == t[n];
      ChainIdleIff(keep, t, cs[i]);
    }
  }

  // ----- notrack

  /** Before the pass the kernel already had this rule, in a chain that is not replaced. */
  ghost predicate InForce(t: Table, c: Chain, r: Rule) {
    c.name in t && !IsChainModified(t[c.name], c) && exists k ::
        k in t[c.name].rules && k.name == Some(r.name) && RuleEqual(c, r, k)
  }

  lemma {:induction false} MissingIff(t: Table, cs: seq<Chain>, i: nat, j: nat)
    requires Admitted(cs) && i < |cs| && j < |cs[i].rules|
    ensures NotrackMissing(CleanTable(t, cs), cs[i], cs[i].rules[j]) <==>
              cs[i].kind == Filter && cs[i].rules[j].notrack && !InForce(t, cs[i], cs[i].rules[j])
  {
    var c, r, kept := cs[i], cs[i].rules[j], CleanTable(t, cs);
    FindFrom(cs, i, 0);
    if c.name in kept {
      var ks := t[c.name].rules;
      KeptExact(c, ks);
      if InForce(t, c, r) {
        var k :| k in ks && k.name == Some(r.name) && RuleEqual(c, r, k);
        OutdatedFrom(c, k, 0);
        assert k in KeptRules(c, ks);
      }
      if Exists(KeptRules(c, ks), r) {
        var l :| 0 <= l < |KeptRules(c, ks)| && KeptRules(c, ks)[l].name == Some(r.name);
        var k := KeptRules(c, ks)[l];
        OutdatedFrom(c, k, 0);
        var m :| 0 <= m < |c.rules| && c.rules[m].name == r.name && RuleEqual(c, c.rules[m], k);
        assert m == j;
      }
    }
  }

  /**
  With nothing left in the connection, the pass reports a notrack rule as added exactly when some wanted
  notrack rule was not in force before.
  */
  lemma {:induction false} NotrackAppliedIff(t: Table, cs: seq<Chain>)
    requires Admitted(cs)
    ensures NotrackApplied(CleanTable(t, cs), cs) <==>
            exists i, j :: 0 <= i < |cs| && 0 <= j < |cs[i].rules| && cs[i].kind == Filter && cs[i].rules[j].notrack &&
                !InForce(t, cs[i], cs[i].rules[j])
  {
    forall i, j | 0 <= i < |cs| && 0 <= j < |cs[i].rules|
      ensures NotrackMissing(CleanTable(t, cs), cs[i], cs[i].rules[j]) <==>
                cs[i].kind == Filter && cs[i].rules[j].notrack && !InForce(t, cs[i], cs[i].rules[j])
    {
      MissingIff(t, cs, i, j);
    }
  }

  function FilterRules(c: Chain): seq<Rule> { if c.kind == Filter then c.rules else c.stray }

  /** What the notrack rules among the filter rules match, in order. */
  function NotracksOf(rs: seq<Rule>): seq<Conntrack.Rule> {
    if rs == [] then [] else (if rs[0].notrack then [rs[0].matches] else []) + NotracksOf(rs[1..])
  }

  /** `notrackRules`: the filter rules of every chain, whatever its kind. */
  function NotrackRules(cs: seq<Chain>): seq<Conntrack.Rule> {
    if cs == [] then [] else NotracksOf(FilterRules(cs[0])) + NotrackRules(cs[1..])
  }

  lemma {:induction false} NotracksOfHas(rs: seq<Rule>, m: Conntrack.Rule)
    ensures m in NotracksOf(rs) <==> exists r :: r in rs && r.notrack && r.matches == m
  {
    if rs != [] {
      NotracksOfHas(rs[1..], m);
      assert rs == [rs[0]] + rs[1..];
      if rs[0].notrack && rs[0].matches == m { assert rs[0] in rs; }
    }
  }

  ghost predicate WantsNotrack(c: Chain, m: Conntrack.Rule) {
    exists r :: r in FilterRules(c) && r.notrack && r.matches == m
  }

  lemma {:induction false} NotrackRulesHas(cs: seq<Chain>, m: Conntrack.Rule)
    ensures m in NotrackRules(cs) <==> exists c :: c in cs && WantsNotrack(c, m)
  {
    if cs != [] {
      NotrackRulesHas(cs[1..], m);
      NotracksOfHas(FilterRules(cs[0]), m);
      assert cs == [cs[0]] + cs[1..];
      if WantsNotrack(cs[0], m) { assert cs[0] in cs; }
    }
  }

  /** A pass that adds a notrack rule evicts what that rule matches. */
  lemma {:induction false} AppliedIsEvicted(t: Table, cs: seq<Chain>, i: nat, j: nat)
    requires i < |cs| && j < |cs[i].rules| && NotrackMissing(t, cs[i], cs[i].rules[j])
    ensures cs[i].rules[j].matches in NotrackRules(cs)
  {
    NotrackRulesHas(cs, cs[i].rules[j].matches);
    assert cs[i] in cs && cs[i].rules[j] in FilterRules(cs[i]);
    assert WantsNotrack(cs[i], cs[i].rules[j].matches);
  }

  lemma {:induction false} ReportedDespiteStray(t: Table, cs: seq<Chain>, ds: seq<Chain>)
    requires |cs| == |ds| && forall k :: 0 <= k < |cs| ==> ds[k] == cs[k].(stray := ds[k].stray)
    requires NotrackApplied(t, cs)
    ensures NotrackApplied(t, ds)
  {
    var k, j :| 0 <= k < |cs| && 0 <= j < |cs[k].rules| && NotrackMissing(t, cs[k], cs[k].rules[j]);
    assert ds[k].rules == cs[k].rules && NotrackMissing(t, ds[k], ds[k].rules[j]);
  }

  /**
  It also evicts what the filter rules of a chain of another kind match, although those rules are never
  added and never reported, so that the connections are tracked again.
  */
  lemma {:induction false} StrayIsEvicted(keep: seq<Expr> -> seq<Expr>, t: Table, cs: seq<Chain>, i: nat, r: Rule)
    requires i < |cs| && cs[i].kind != Filter && r in cs[i].stray && r.notrack
    ensures r.matches in NotrackRules(cs)
    ensures NotrackApplied(t, cs) <==> NotrackApplied(t, cs[i := cs[i].(stray := [])])
    ensures AddedChain(keep, t, cs[i]) == AddedChain(keep, t, cs[i].(stray := []))
  {
    StrayIsCollected(cs, cs[i], r);
    var ds := cs[i := cs[i].(stray := [])];
    if NotrackApplied(t, cs) { ReportedDespiteStray(t, cs, ds); }
    if NotrackApplied(t, ds) { ReportedDespiteStray(t, ds, cs); }
    StrayNotAdded(keep, cs[i], (if cs[i].name in t then t[cs[i].name] else NewChain(cs[i])).rules, 0);
  }

  lemma {:induction false} StrayIsCollected(cs: seq<Chain>, c: Chain, r: Rule)
    requires c in cs && c.kind != Filter && r in c.stray && r.notrack
    ensures r.matches in NotrackRules(cs)
  {
    NotrackRulesHas(cs, r.matches);
    assert WantsNotrack(c, r.matches);
  }

  lemma {:induction false} StrayNotAdded(keep: seq<Expr> -> seq<Expr>, c: Chain, ks: seq<NftRule>, i: nat)
    requires i <= |c.rules|
    ensures Added(keep, c, ks, i) == Added(keep, c.(stray := []), ks, i)
    decreases |c.rules| - i
  {
    if i < |c.rules| { StrayNotAdded(keep, c, ks, i + 1); }
  }

  /** The wanted notrack rules of ingress chains, which no pass ever finds in force. */
  ghost predicate IngressNotrack(cs: seq<Chain>) {
    exists i, j :: 0 <= i < |cs| && 0 <= j < |cs[i].rules| && cs[i].hook == Ingress && cs[i].kind == Filter &&
        cs[i].rules[j].notrack
  }

  lemma {:induction false} SettledInForce(t: Table, c: Chain, j: nat)
    requires RuleNamesDistinct(c) && c.kind == Filter && ChainSettled(t, c) && j < |c.rules|
    ensures InForce(t, c, c.rules[j])
  {
    var ks := t[c.name].rules;
    var l :| 0 <= l < |ks| && ks[l].name == Some(c.rules[j].name);
    OutdatedFrom(c, ks[l], 0);
    var m :| 0 <= m < |c.rules| && c.rules[m].name == c.rules[j].name && RuleEqual(c, c.rules[m], ks[l]);
    assert m == j;
  }

  lemma {:induction false} InForceAfter(keep: seq<Expr> -> seq<Expr>, t: Table, cs: seq<Chain>, i: nat, j: nat)
    requires Admitted(cs) && Preserves(keep) && CanAdd(keep, CleanTable(t, cs), cs) && i < |cs| && j < |cs[i].rules|
    requires cs[i].kind == Filter
    ensures InForce(Pass(keep, t, cs), cs[i], cs[i].rules[j]) <==> cs[i].hook != Ingress
  {
    var c, u := cs[i], Pass(keep, t, cs);
    if c.hook != Ingress {
      CleanIsTidy(t, cs);
      ChainSettles(keep, CleanTable(t, cs), cs, i);
      SettledInForce(u, c, j);
    } else if c.name in u && !IsChainModified(u[c.name], c) {
      HookIsNotIngress(u[c.name], c);
    }
  }

  /**
  A pass right after a successful one reports no notrack rule as added, so it evicts no connections,
  exactly when no ingress chain has one. An eviction that failed is therefore not tried again.
  */
  lemma {:induction false} NextPassNotrackIff(keep: seq<Expr> -> seq<Expr>, t: Table, cs: seq<Chain>)
    requires Admitted(cs) && Preserves(keep) && CanAdd(keep, CleanTable(t, cs), cs)
    ensures NotrackApplied(CleanTable(Pass(keep, t, cs), cs), cs) <==> IngressNotrack(cs)
  {
    var u := Pass(keep, t, cs);
    NotrackAppliedIff(u, cs);
    forall i, j | 0 <= i < |cs| && 0 <= j < |cs[i].rules| && cs[i].kind == Filter
      ensures InForce(u, cs[i], cs[i].rules[j]) <==> cs[i].hook != Ingress
    {
      InForceAfter(keep, t, cs, i, j);
    }
  }

  // ----- order

  function Names(ks: seq<NftRule>): seq<Option<string>> { seq(|ks|, i requires 0 <= i < |ks| => ks[i].name) }

  function WantedNames(c: Chain): seq<Option<string>> {
    seq(|c.rules|, i requires 0 <= i < |c.rules| => Some(c.rules[i].name))
  }

  lemma {:induction false} AddedInOrder(keep: seq<Expr> -> seq<Expr>, c: Chain, ks: seq<NftRule>, n: nat, i: nat)
    requires n <= i <= |c.rules| && c.kind != Route && Added(keep, c, ks, i).Some?
    requires forall j :: n <= j < |c.rules| ==> !Exists(ks, c.rules[j])
    ensures Names(Added(keep, c, ks, i).value) == WantedNames(c)[i..]
    decreases |c.rules| - i
  {
    if i < |c.rules| {
      AddedInOrder(keep, c, ks, n, i + 1);
      assert WantedNames(c)[i..] == [Some(c.rules[i].name)] + WantedNames(c)[i + 1..];
      var rest := Added(keep, c, ks, i + 1).value;
      assert Names(Added(keep, c, ks, i).value) == [Some(c.rules[i].name)] + Names(rest);
    }
  }

  lemma {:induction false} AddedSkips(keep: seq<Expr> -> seq<Expr>, c: Chain, ks: seq<NftRule>, n: nat, i: nat)
    requires i <= n <= |c.rules| && forall j :: 0 <= j < n ==> Exists(ks, c.rules[j])
    ensures Added(keep, c, ks, i) == Added(keep, c, ks, n)
    decreases n - i
  {
    if i < n { AddedSkips(keep, c, ks, n, i + 1); }
  }

  /**
  Missing rules go to the end, so a chain lists its rules in the wanted order after a pass exactly when
  the rules it kept were the first of the wanted ones, in that order.
  */
  lemma {:induction false} InOrderIff(keep: seq<Expr> -> seq<Expr>, c: Chain, ks: seq<NftRule>)
    requires RuleNamesDistinct(c) && c.kind != Route && Added(keep, c, ks).Some?
    ensures Names(ks + Added(keep, c, ks).value) == WantedNames(c) <==> Names(ks) <= WantedNames(c)
  {
    var more := Added(keep, c, ks).value;
    assert Names(ks + more) == Names(ks) + Names(more);
    if Names(ks) <= WantedNames(c) {
      var n := |ks|;
      forall j | 0 <= j < n
        ensures Exists(ks, c.rules[j])
      {
        assert Names(ks)[j] == WantedNames(c)[j];
        assert ks[j].name == Some(c.rules[j].name);
      }
      forall j | n <= j < |c.rules| ensures !Exists(ks, c.rules[j]) {
        forall l | 0 <= l < n ensures ks[l].name != Some(c.rules[j].name) { assert Names(ks)[l] == WantedNames(c)[l]; }
      }
      AddedSkips(keep, c, ks, n, 0);
      AddedInOrder(keep, c, ks, n, n);
      assert WantedNames(c) == Names(ks) + WantedNames(c)[n..];
    }
  }
}
