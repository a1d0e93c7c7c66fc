/**
The rules of a table and the whole pass over rules and routes (pkg/route/rule.go and Reconcile in
pkg/route/routeconfiguration_controller.go): rules and routes are cleaned, then each rule and its
routes are put in place in turn, and the first error ends the pass.
*/
module RoutePass {
  import opened Wrappers
  import opened RouteSpec
  import opened RouteReconcile

  // ----- rules

  ghost function CleanRules(ks: set<NlRule>, rules: seq<ApiRule>): set<NlRule> {
    set k | k in ks && IsContainedRule(k, rules)
  }

  ghost predicate Exists(r: ApiRule, ks: set<NlRule>) { exists k :: k in ks && RuleIsEqual(r, k) }

  /** `EnsureRulePresence` for the i-th rule. */
  ghost function EnsureRule(env: Env, ks: set<NlRule>, r: ApiRule, id: nat, i: nat,
                            snapshot: set<NlRule>): Outcome<set<NlRule>> {
    if Exists(r, snapshot) then Outcome(ks, None, 0)
    else
      match ForgeRule(env, r, id, env.pick(i))
      case Err(e) => Outcome(ks, Some(e), 0)
      case Ok(k) => if k in ks then Outcome(ks, Some(FileExists), 0) else Outcome(ks + {k}, None, 1)
  }

  ghost function EnsureRules(env: Env, ks: set<NlRule>, rules: seq<ApiRule>, id: nat, snapshot: set<NlRule>,
                             i: nat := 0): Outcome<set<NlRule>>
    requires i <= |rules|
    decreases |rules| - i
  {
    if i == |rules| then Outcome(ks, None, 0)
    else
      var first := EnsureRule(env, ks, rules[i], id, i, snapshot);
      if first.error.Some? then first
      else
        var rest := EnsureRules(env, first.state, rules, id, snapshot, i + 1);
        rest.(writes := first.writes + rest.writes)
  }

  /**
  A rule that is not recognised is refused exactly when it cannot be built or the kernel has the very same
  one, and is then not added; otherwise the kernel gains this rule and no other.
  */
  lemma {:induction false} AddedRuleExact(env: Env, ks: set<NlRule>, r: ApiRule, id: nat, i: nat, snapshot: set<NlRule>)
    requires forall k <- snapshot :: !RuleIsEqual(r, k)
    ensures var f, o := ForgeRule(env, r, id, env.pick(i)), EnsureRule(env, ks, r, id, i, snapshot);
            && (o.error.None? <==> f.Ok? && f.value !in ks)
            && (o.error.Some? ==> o.state == ks && o.writes == 0)
            && (o.error.None? ==> o.state == ks + {f.value} && o.writes == 1)
            && (f.Ok? && f.value in ks ==> o.error == Some(FileExists))
  {}

  /** A wanted rule is in the listing taken before the deletions exactly when it is in one taken after. */
  lemma {:induction false} StaleExists(rules: seq<ApiRule>, before: set<NlRule>, i: nat)
    requires i < |rules|
    ensures Exists(rules[i], before) <==> Exists(rules[i], CleanRules(before, rules))
  {}

  ghost predicate RulesConverged(ks: set<NlRule>, rules: seq<ApiRule>) {
    && (forall k <- ks :: IsContainedRule(k, rules))
    && forall i :: 0 <= i < |rules| ==> Exists(rules[i], ks)
  }

  lemma {:induction false} RulesIdleFrom(env: Env, ks: set<NlRule>, rules: seq<ApiRule>, id: nat, snapshot: set<NlRule>,
                                         i: nat)
    requires i <= |rules|
    ensures var o := EnsureRules(env, ks, rules, id, snapshot, i);
            && (o.writes == 0 && o.error.None? <==> forall j :: i <= j < |rules| ==> Exists(rules[j], snapshot))
            && (o.writes == 0 ==> o.state == ks)
    decreases |rules| - i
  {
    if i < |rules| {
      RulesIdleFrom(env, EnsureRule(env, ks, rules[i], id, i, snapshot).state, rules, id, snapshot, i + 1);
    }
  }

  /** A pass over the rules has nothing to do exactly when every rule is wanted and every wanted rule is there. */
  lemma {:induction false} RulesIdleIffConverged(env: Env, ks: set<NlRule>, rules: seq<ApiRule>, id: nat)
    ensures CleanRules(ks, rules) == ks && EnsureRules(env, ks, rules, id, ks) == Outcome(ks, None, 0) <==>
              RulesConverged(ks, rules)
  {
    RulesIdleFrom(env, ks, rules, id, ks, 0);
    if CleanRules(ks, rules) == ks && EnsureRules(env, ks, rules, id, ks) == Outcome(ks, None, 0) {
      forall k <- ks ensures IsContainedRule(k, rules) { assert k in CleanRules(ks, rules); }
    }
  }

  ghost predicate Recognised(env: Env, r: ApiRule, i: nat, snapshot: set<NlRule>) {
    Exists(r, snapshot) || Stable(env, r, env.pick(i))
  }

  lemma {:induction false} EnsureRulesFrom(env: Env, ks: set<NlRule>, rules: seq<ApiRule>, id: nat,
                                           snapshot: set<NlRule>, i: nat)
    requires i <= |rules| && EnsureRules(env, ks, rules, id, snapshot, i).error.None?
    requires forall j :: i <= j < |rules| ==> Recognised(env, rules[j], j, snapshot)
    ensures var us := EnsureRules(env, ks, rules, id, snapshot, i).state;
            && ks <= us
            && (forall k :: k in us && k !in ks ==> IsContainedRule(k, rules))
            && forall j :: i <= j < |rules| ==> Exists(rules[j], snapshot) || Exists(rules[j], us)
    decreases |rules| - i
  {
    if i < |rules| {
      var first := EnsureRule(env, ks, rules[i], id, i, snapshot);
      EnsureRulesFrom(env, first.state, rules, id, snapshot, i + 1);
      var us := EnsureRules(env, first.state, rules, id, snapshot, i + 1).state;
      if !Exists(rules[i], snapshot) {
        InstalledRuleMatches(env, rules[i], id, env.pick(i));
        var k := ForgeRule(env, rules[i], id, env.pick(i)).value;
        assert k in us && RuleIsEqual(rules[i], k);
      }
    }
  }

  /** One pass without errors over rules that recognise themselves leaves exactly the wanted rules. */
  lemma {:induction false} RulesConverge(env: Env, ks: set<NlRule>, rules: seq<ApiRule>, id: nat)
    requires EnsureRules(env, CleanRules(ks, rules), rules, id, ks).error.None?
    requires forall j :: 0 <= j < |rules| ==> Recognised(env, rules[j], j, ks)
    ensures RulesConverged(EnsureRules(env, CleanRules(ks, rules), rules, id, ks).state, rules)
  {
    var kept := CleanRules(ks, rules);
    EnsureRulesFrom(env, kept, rules, id, ks, 0);
    var us := EnsureRules(env, kept, rules, id, ks).state;
    forall j | 0 <= j < |rules| ensures Exists(rules[j], us) {
      if k :| k in ks && RuleIsEqual(rules[j], k) { assert k in kept; }
    }
  }

  /**
  A single rule that was missing ends up recognised exactly when it is stable; otherwise every pass
  deletes and adds it.
  */
  lemma {:induction false} SingleRuleConvergesIff(env: Env, ks: set<NlRule>, r: ApiRule, id: nat)
    requires !Exists(r, ks) && ForgeRule(env, r, id, env.pick(0)).Ok?
    ensures CleanRules(ks, [r]) == {} && EnsureRules(env, {}, [r], id, ks).error.None?
    ensures RulesConverged(EnsureRules(env, {}, [r], id, ks).state, [r]) <==> Stable(env, r, env.pick(0))
  {}

  // ----- the whole pass

  datatype State = State(rules: set<NlRule>, routes: Table)

  function AllRoutes(rules: seq<ApiRule>, i: nat := 0): seq<ApiRoute>
    requires i <= |rules|
    decreases |rules| - i
  {
    if i == |rules| then [] else rules[i].routes + AllRoutes(rules, i + 1)
  }

  /** The rules from the i-th on, each with its routes, against the listings taken before. */
  ghost function Apply(env: Env, s: State, rules: seq<ApiRule>, id: nat, before: State, i: nat := 0): Outcome<State>
    requires i <= |rules|
    decreases |rules| - i
  {
    if i == |rules| then Outcome(s, None, 0)
    else
      var r := EnsureRule(env, s.rules, rules[i], id, i, before.rules);
      if r.error.Some? then Outcome(s, r.error, 0)
      else
        var t := EnsureRoutes(env, s.routes, rules[i].routes, id, before.routes);
        if t.error.Some? then Outcome(State(r.state, t.state), t.error, r.writes + t.writes)
        else
          var rest := Apply(env, State(r.state, t.state), rules, id, before, i + 1);
          rest.(writes := r.writes + t.writes + rest.writes)
  }

  ghost function Cleaned(env: Env, s: State, rules: seq<ApiRule>): State {
    State(CleanRules(s.rules, rules), CleanTable(env, s.routes, AllRoutes(rules)))
  }

  ghost function Pass(env: Env, s: State, rules: seq<ApiRule>, id: nat): Outcome<State> {
    Apply(env, Cleaned(env, s, rules), rules, id, s)
  }

  lemma {:induction false} EnsureAppend(env: Env, t: Table, a: seq<ApiRoute>, b: seq<ApiRoute>, id: nat,
                                        snapshot: Table)
    ensures var oa, o := EnsureRoutes(env, t, a, id, snapshot), EnsureRoutes(env, t, a + b, id, snapshot);
            if oa.error.Some? then o == oa
            else
              var ob := EnsureRoutes(env, oa.state, b, id, snapshot);
              o == ob.(writes := oa.writes + ob.writes)
    decreases |a|
  {
    if a == [] {
      assert a + b == b;
    } else {
      assert (a + b)[1..] == a[1..] + b;
      var first := EnsureRoute(env, t, a[0], id, snapshot);
      if first.error.None? { EnsureAppend(env, first.state, a[1..], b, id, snapshot); }
    }
  }

  /**
  Taking rules and routes in turn does what taking all the rules and then all the routes does, unless an
  error stops it.
  */
  lemma {:induction false} ApplyExact(env: Env, s: State, rules: seq<ApiRule>, id: nat, before: State, i: nat)
    requires i <= |rules|
    ensures var o := Apply(env, s, rules, id, before, i);
            var r, t := EnsureRules(env, s.rules, rules, id, before.rules, i),
                EnsureRoutes(env, s.routes, AllRoutes(rules, i), id, before.routes);
            && (o.error.None? <==> r.error.None? && t.error.None?)
            && (o.error.None? ==> o.state == State(r.state, t.state) && o.writes == r.writes + t.writes)
    decreases |rules| - i
  {
    if i < |rules| {
      var r := EnsureRule(env, s.rules, rules[i], id, i, before.rules);
      EnsureAppend(env, s.routes, rules[i].routes, AllRoutes(rules, i + 1), id, before.routes);
      var t := EnsureRoutes(env, s.routes, rules[i].routes, id, before.routes);
      if r.error.None? && t.error.None? {
        ApplyExact(env, State(r.state, t.state), rules, id, before, i + 1);
      }
    }
  }

  ghost predicate AsWanted(env: Env, s: State, rules: seq<ApiRule>, id: nat) {
    RulesConverged(s.rules, rules) && Converged(env, s.routes, AllRoutes(rules), id)
  }

  /** The configuration is one that can settle: no destination twice, and rules that recognise themselves. */
  ghost predicate CanSettle(env: Env, s: State, rules: seq<ApiRule>) {
    && Settles(env) && Distinct(env, AllRoutes(rules))
    && forall j :: 0 <= j < |rules| ==> Recognised(env, rules[j], j, s.rules)
  }

  /** From any kernel state, one pass that reports no error reaches the wanted state. */
  lemma {:induction false} PassConverges(env: Env, s: State, rules: seq<ApiRule>, id: nat)
    requires ValidTable(s.routes, id) && CanSettle(env, s, rules) && Pass(env, s, rules, id).error.None?
    ensures var u := Pass(env, s, rules, id).state;
            ValidTable(u.routes, id) && AsWanted(env, u, rules, id)
  {
    ApplyExact(env, Cleaned(env, s, rules), rules, id, s, 0);
    RulesConverge(env, s.rules, rules, id);
    RoutesConverge(env, s.routes, AllRoutes(rules), id);
  }

  /** A pass touches nothing exactly when the state is as wanted and every wanted route names its destination. */
  lemma {:induction false} PassIdleIff(env: Env, s: State, rules: seq<ApiRule>, id: nat)
    requires ValidTable(s.routes, id)
    ensures Cleaned(env, s, rules) == s && Pass(env, s, rules, id) == Outcome(s, None, 0) <==>
              AsWanted(env, s, rules, id) && Destined(AllRoutes(rules))
  {
    ApplyExact(env, s, rules, id, s, 0);
    RulesIdleIffConverged(env, s.rules, rules, id);
    IdleIffConverged(env, s.routes, AllRoutes(rules), id);
    RulesIdleFrom(env, s.rules, rules, id, s.rules, 0);
    NoWritesMeansListed(env, s.routes, AllRoutes(rules), id, s.routes);
  }

  /** After a pass without errors the next one changes nothing and writes nothing. */
  lemma {:induction false} SecondPassIsIdle(env: Env, s: State, rules: seq<ApiRule>, id: nat)
    requires ValidTable(s.routes, id) && CanSettle(env, s, rules) && Destined(AllRoutes(rules))
    requires Pass(env, s, rules, id).error.None?
    ensures var u := Pass(env, s, rules, id).state;
            Cleaned(env, u, rules) == u && Pass(env, u, rules, id) == Outcome(u, None, 0)
  {
    PassConverges(env, s, rules, id);
    PassIdleIff(env, Pass(env, s, rules, id).state, rules, id);
  }

  // ----- the listings taken before the deletions

  lemma {:induction false} DeletedDifferSplit(env: Env, before: Table, kept: Table, a: seq<ApiRoute>, b: seq<ApiRoute>,
                                              id: nat)
    requires DeletedDiffer(env, before, kept, a + b, id)
    ensures DeletedDiffer(env, before, kept, a, id)
    ensures AllForge(env, a, id) ==> DeletedDiffer(env, before, kept, b, id)
    decreases |a|
  {
    if a == [] {
      assert a + b == b;
    } else {
      assert (a + b)[1..] == a[1..] + b;
      if ForgeRoute(env, a[0], id).Ok? { DeletedDifferSplit(env, before, kept, a[1..], b, id); }
    }
  }

  lemma {:induction false} StaleBatch(env: Env, t: Table, a: seq<ApiRoute>, b: seq<ApiRoute>, id: nat, before: Table,
                                      kept: Table)
    requires forall d <- kept :: d in before && before[d] == kept[d]
    requires Distinct(env, a + b) && OnlyKept(env, t, kept, a + b) && DeletedDiffer(env, before, kept, a + b, id)
    ensures EnsureRoutes(env, t, a, id, before) == EnsureRoutes(env, t, a, id, kept)
    ensures var o := EnsureRoutes(env, t, a, id, before);
            Distinct(env, b) && (o.error.None? ==>
                                 OnlyKept(env, o.state, kept, b) && DeletedDiffer(env, before, kept, b, id))
  {
    var all := a + b;
    assert forall i :: 0 <= i < |a| ==> all[i] == a[i];
    assert forall i :: 0 <= i < |b| ==> all[|a| + i] == b[i];
    DeletedDifferSplit(env, before, kept, a, b, id);
    StaleFrom(env, t, a, id, before, kept);
    var o := EnsureRoutes(env, t, a, id, before);
    if o.error.None? {
      EnsureExact(env, t, a, id, before);
      forall i | 0 <= i < |a|
        ensures ForgeRoute(env, a[i], id).Ok?
      {
        assert InPlace(env, t, o.state, a[i], id, before);
      }
      forall i | 0 <= i < |b| && Destination(env, b[i]) in o.state ensures Destination(env, b[i]) in kept {
        assert !Wanted(env, a, Destination(env, b[i]));
        assert Destination(env, all[|a| + i]) == Destination(env, b[i]);
      }
    }
  }

  lemma {:induction false} StaleApply(env: Env, s: State, rules: seq<ApiRule>, id: nat, before: State, kept: State,
                                      i: nat)
    requires i <= |rules| && kept.rules == CleanRules(before.rules, rules)
    requires forall d <- kept.routes :: d in before.routes && before.routes[d] == kept.routes[d]
    requires Distinct(env, AllRoutes(rules, i)) && OnlyKept(env, s.routes, kept.routes, AllRoutes(rules, i))
    requires DeletedDiffer(env, before.routes, kept.routes, AllRoutes(rules, i), id)
    ensures Apply(env, s, rules, id, before, i) == Apply(env, s, rules, id, kept, i)
    decreases |rules| - i
  {
    if i < |rules| {
      StaleExists(rules, before.rules, i);
      StaleBatch(env, s.routes, rules[i].routes, AllRoutes(rules, i + 1), id, before.routes, kept.routes);
      var r := EnsureRule(env, s.rules, rules[i], id, i, before.rules);
      var t := EnsureRoutes(env, s.routes, rules[i].routes, id, before.routes);
      if t.error.None? { StaleApply(env, State(r.state, t.state), rules, id, before, kept, i + 1); }
    }
  }

  /**
  A pass that looks rules and routes up in listings taken before the deletions is, to the last write and
  the last error, the pass that lists them afresh, if no destination is wanted twice.
  */
  lemma {:induction false} StalePass(env: Env, s: State, rules: seq<ApiRule>, id: nat)
    requires ValidTable(s.routes, id) && Distinct(env, AllRoutes(rules))
    ensures var kept := Cleaned(env, s, rules); Pass(env, s, rules, id) == Apply(env, kept, rules, id, kept)
  {
    var kept := Cleaned(env, s, rules);
    CleanDeletesDifferent(env, s.routes, kept.routes, AllRoutes(rules), id);
    StaleApply(env, kept, rules, id, s, kept, 0);
  }
}
