/**
The route controller working on the kernel (pkg/route/route.go, pkg/route/rule.go and Reconcile in
pkg/route/routeconfiguration_controller.go). The loops of the source are proved to compute the pass
of RoutePass, table by table, and to leave the other tables alone.
*/
module RouteController {
  import opened Wrappers
  import opened NextHops
  import opened RouteSpec
  import opened RouteReconcile
  import opened RoutePass
  import opened RtTables
  import opened RouteLifecycle

  /** `xs` is a listing of `t`, in any order. */
  ghost predicate Lists(xs: seq<NlRoute>, t: Table) {
    && (forall i :: 0 <= i < |xs| ==> xs[i].dst in t && t[xs[i].dst] == xs[i])
    && (forall i, j :: 0 <= i < |xs| && 0 <= j < |xs| && i != j ==> xs[i].dst != xs[j].dst)
    && (forall d <- t :: t[d] in xs)
  }

  ghost predicate ListsRules(xs: seq<NlRule>, ks: set<NlRule>) {
    && (forall i :: 0 <= i < |xs| ==> xs[i] in ks)
    && (forall i, j :: 0 <= i < |xs| && 0 <= j < |xs| && i != j ==> xs[i] != xs[j])
    && (forall k <- ks :: k in xs)
  }

  // ----- comparisons and searches

  method SameRoute(a: NlRoute, b: NlRoute) returns (r: bool)
    ensures r == IsEqualRoute(a, b)
  {
    if a.dst.Some? && b.dst.Some? && a.dst.value != b.dst.value { return false; }
    if a.src.Some? && b.src.Some? && a.src.value != b.src.value { return false; }
    if a.gw.Some? && b.gw.Some? && a.gw.value != b.gw.value { return false; }
    if a.link != 0 && b.link != 0 && a.link != b.link { return false; }
    if a.flags != b.flags { return false; }
    if |a.multiPath| > 0 || |b.multiPath| > 0 {
      r := SameMultiPath(a.multiPath, b.multiPath);
    } else {
      r := true;
    }
  }

  method ContainsRoute(env: Env, e: NlRoute, routes: seq<ApiRoute>) returns (r: bool)
    ensures r == IsContainedRoute(env, e, routes)
  {
    var i := 0;
    while i < |routes|
      invariant i <= |routes| && IsContainedRoute(env, e, routes) == IsContainedRoute(env, e, routes[i..])
    {
      assert routes[i..][1..] == routes[i + 1..];
      var f := ForgeRoute(env, routes[i], e.table);
      if f.Err? { return false; }
      var same := SameRoute(e, f.value);
      if same { return true; }
      i := i + 1;
    }
    r := false;
  }

  /**
  What `FindRouteInList` answers: the one listed route to that destination, nothing, or an error when
  there are two.
  */
  ghost predicate Found(env: Env, api: ApiRoute, existing: seq<NlRoute>, r: Result<Option<NlRoute>, Error>) {
    var d := Destination(env, api);
    match r
    case Ok(None) => api.dst.None? || (d.Some? && forall j :: 0 <= j < |existing| ==> existing[j].dst != d)
    case Ok(Some(e)) =>
      d.Some? && exists j :: 0 <= j < |existing| && existing[j] == e && e.dst == d && forall k ::
          0 <= k < |existing| && k != j ==> existing[k].dst != d
    case Err(BadCidr) => api.dst.Some? && d.None?
    case Err(Ambiguous) =>
      d.Some? && exists j, k :: 0 <= j < k < |existing| && existing[j].dst == d && existing[k].dst == d
    case Err(_) => false
  }

  method FindRouteInList(env: Env, api: ApiRoute, existing: seq<NlRoute>) returns (r: Result<Option<NlRoute>, Error>)
    ensures Found(env, api, existing, r)
  {
    if api.dst.None? { return Ok(None); }
    var dst := env.parseCidr(api.dst.value);
    if dst.None? { return Err(BadCidr); }
    var found: Option<NlRoute> := None;
    ghost var at := 0;
    var i := 0;
    while i < |existing|
      invariant i <= |existing|
      invariant found.None? ==> forall j :: 0 <= j < i ==> existing[j].dst != dst
      invariant found.Some? ==> 0 <= at < i && existing[at] == found.value && existing[at].dst == dst
      invariant found.Some? ==> forall j :: 0 <= j < i && j != at ==> existing[j].dst != dst
    {
      if existing[i].dst == dst {
        if found.Some? { return Err(Ambiguous); }
        found := Some(existing[i]);
        at := i;
      }
      i := i + 1;
    }
    r := Ok(found);
  }

  /** In a listing of a table there is at most one, so the search is a lookup. */
  lemma {:induction false} FindIsLookup(env: Env, api: ApiRoute, existing: seq<NlRoute>, t: Table, id: nat,
                                        r: Result<Option<NlRoute>, Error>)
    requires ValidTable(t, id) && Lists(existing, t) && Found(env, api, existing, r) && ForgeRoute(env, api, id).Ok?
    ensures r == Ok(if api.dst.Some? && Destination(env, api) in t then Some(t[Destination(env, api)]) else None)
  {}

  ghost function ApplyOne(env: Env, s: State, api: ApiRule, id: nat, i: nat, listed: State): Outcome<State> {
    var r := EnsureRule(env, s.rules, api, id, i, listed.rules);
    if r.error.Some? then Outcome(s, r.error, 0)
    else
      var t := EnsureRoutes(env, s.routes, api.routes, id, listed.routes);
      Outcome(State(r.state, t.state), t.error, r.writes + t.writes)
  }

  lemma {:induction false} ApplyUnfold(env: Env, s: State, api: seq<ApiRule>, id: nat, listed: State, i: nat)
    requires i < |api|
    ensures var all, first := Apply(env, s, api, id, listed, i), ApplyOne(env, s, api[i], id, i, listed);
            if first.error.Some? then all == first
            else
              var rest := Apply(env, first.state, api, id, listed, i + 1);
              all == rest.(writes := first.writes + rest.writes)
  {}

  method CollectRoutes(api: seq<ApiRule>) returns (all: seq<ApiRoute>)
    ensures all == AllRoutes(api)
  {
    all := [];
    var i := 0;
    while i < |api|
      invariant i <= |api| && all + AllRoutes(api, i) == AllRoutes(api)
    {
      assert all + AllRoutes(api, i) == (all + api[i].routes) + AllRoutes(api, i + 1);
      all := all + api[i].routes;
      i := i + 1;
    }
    assert all + [] == all;
  }

  /** With `t` reached and `done` writes spent, the routes from the i-th on are what is left of `all`. */
  ghost predicate Left(env: Env, all: Outcome<Table>, t: Table, done: int, api: seq<ApiRoute>, id: nat, listed: Table,
                       i: nat)
    requires i <= |api|
  {
    var rest := EnsureRoutes(env, t, api[i..], id, listed);
    all.state == rest.state && all.error == rest.error && all.writes == done + rest.writes
  }

  lemma {:induction false} LeftStep(env: Env, all: Outcome<Table>, t: Table, done: int, api: seq<ApiRoute>, id: nat,
                                    listed: Table, i: nat)
    requires i < |api| && Left(env, all, t, done, api, id, listed, i)
    ensures var first := EnsureRoute(env, t, api[i], id, listed);
            if first.error.Some? then all == first.(writes := all.writes) && all.writes == done + first.writes
            else Left(env, all, first.state, done + first.writes, api, id, listed, i + 1)
  {}

  lemma {:induction false} LeftDone(env: Env, all: Outcome<Table>, t: Table, done: int, api: seq<ApiRoute>, id: nat,
                                    listed: Table)
    requires Left(env, all, t, done, api, id, listed, |api|)
    ensures all.state == t && all.error.None? && all.writes == done
  {}

  lemma {:induction false} PutValid(env: Env, t: Table, r: NlRoute, id: nat, replace: bool)
    requires Settles(env) && r.table == id && ValidTable(t, id)
    ensures ValidTable(Put(env, t, r, replace).state, id)
  {}

  lemma {:induction false} CleanedAll(env: Env, t: Table, u: Table, api: seq<ApiRoute>, id: nat, existing: seq<NlRoute>)
    requires ValidTable(t, id) && Lists(existing, t)
    requires forall d <- u :: d in t && u[d] == t[d]
    requires forall j :: 0 <= j < |existing| ==> (existing[j].dst in u <==> IsContainedRoute(env, existing[j], api))
    ensures u == CleanTable(env, t, api)
  {}

  class Kernel {
    var rules: map<nat, set<NlRule>>
    var routes: map<nat, Table>
    /** The number of changes asked of the kernel and granted. */
    var writes: nat

    function Rules(id: nat): set<NlRule> reads `rules { if id in rules then rules[id] else {} }

    function Routes(id: nat): Table reads `routes { if id in routes then routes[id] else map[] }

    function View(id: nat): State reads this { State(Rules(id), Routes(id)) }

    twostate predicate OtherRoutesSame(id: nat) reads `routes {
      forall other: nat :: other != id ==> Routes(other) == old(Routes(other))
    }

    twostate predicate OtherRulesSame(id: nat) reads `rules {
      forall other: nat :: other != id ==> Rules(other) == old(Rules(other))
    }

    ghost predicate Valid() reads `routes { forall id <- routes :: ValidTable(routes[id], id) }

    constructor ()
      ensures Valid() && rules == map[] && routes == map[] && writes == 0
    {
      rules, routes, writes := map[], map[], 0;
    }

    // ----- netlink

    method ListRoutes(id: nat) returns (xs: seq<NlRoute>)
      requires Valid()
      ensures Lists(xs, Routes(id))
    {
      var t, todo := Routes(id), Routes(id).Keys;
      assert ValidTable(t, id);
      xs := [];
      while todo != {}
        invariant todo <= t.Keys
        invariant forall i :: 0 <= i < |xs| ==> xs[i].dst in t && t[xs[i].dst] == xs[i] && xs[i].dst !in todo
        invariant forall i, j :: 0 <= i < |xs| && 0 <= j < |xs| && i != j ==> xs[i].dst != xs[j].dst
        invariant forall d <- t :: d in todo || t[d] in xs
      {
        var d :| d in todo;
        todo := todo - {d};
        ghost var was := xs;
        xs := xs + [t[d]];
        forall c <- t
          ensures c in todo || t[c] in xs
        {
          if c == d { assert xs[|was|] == t[c]; } else if c !in todo { assert t[c] in was; }
        }
      }
    }

    method ListRules(id: nat) returns (xs: seq<NlRule>)
      ensures ListsRules(xs, Rules(id))
    {
      var todo := Rules(id);
      xs := [];
      while todo != {}
        invariant todo <= Rules(id)
        invariant forall i :: 0 <= i < |xs| ==> xs[i] in Rules(id) && xs[i] !in todo
        invariant forall i, j :: 0 <= i < |xs| && 0 <= j < |xs| && i != j ==> xs[i] != xs[j]
        invariant forall k <- Rules(id) :: k in todo || k in xs
      {
        var k :| k in todo;
        todo := todo - {k};
        xs := xs + [k];
      }
    }

    method RouteDel(id: nat, d: Option<string>) returns (ok: bool)
      requires Valid()
      modifies `routes, `writes
      ensures Valid()
      ensures ok == (d in old(Routes(id))) && Routes(id) == old(Routes(id)) - {d}
      ensures writes == old(writes) + if ok then 1 else 0
      ensures OtherRoutesSame(id)
    {
      ok := d in Routes(id);
      var t := Routes(id) - {d};
      assert ValidTable(t, id) by { assert ValidTable(Routes(id), id); }
      routes := routes[id := t];
      if ok { writes := writes + 1; }
    }

    method PutRoute(env: Env, r: NlRoute, id: nat, replace: bool) returns (error: Option<Error>)
      requires Valid() && Settles(env) && r.table == id
      modifies `routes, `writes
      ensures Valid()
      ensures var o := Put(env, old(Routes(id)), r, replace);
              Routes(id) == o.state && error == o.error && writes == old(writes) + o.writes
      ensures OtherRoutesSame(id)
    {
      var o := Put(env, Routes(id), r, replace);
      PutValid(env, Routes(id), r, id, replace);
      routes, writes := routes[id := o.state], writes + o.writes;
      error := o.error;
    }

    // ----- routes

    method EnsureOneRoute(env: Env, api: ApiRoute, id: nat, existing: seq<NlRoute>, ghost listed: Table)
      returns (error: Option<Error>)
      requires Valid() && Settles(env) && ValidTable(listed, id) && Lists(existing, listed)
      modifies `routes, `writes
      ensures Valid()
      ensures var o := EnsureRoute(env, old(Routes(id)), api, id, listed);
              Routes(id) == o.state && error == o.error && writes == old(writes) + o.writes
      ensures OtherRoutesSame(id)
    {
      var f := ForgeRoute(env, api, id);
      if f.Err? { return Some(f.error); }
      ForgedDestination(env, api, id);
      var e := FindRouteInList(env, api, existing);
      FindIsLookup(env, api, existing, listed, id, e);
      if e.value.Some? {
        var same := SameRoute(f.value, e.value.value);
        if same { return None; }
        error := PutRoute(env, f.value, id, true);
      } else {
        error := PutRoute(env, f.value, id, false);
      }
    }

    method EnsureRoutesPresence(env: Env, api: seq<ApiRoute>, id: nat, existing: seq<NlRoute>, ghost listed: Table)
      returns (error: Option<Error>)
      requires Valid() && Settles(env) && ValidTable(listed, id) && Lists(existing, listed)
      modifies `routes, `writes
      ensures Valid()
      ensures var o := EnsureRoutes(env, old(Routes(id)), api, id, listed);
              Routes(id) == o.state && error == o.error && writes == old(writes) + o.writes
      ensures OtherRoutesSame(id)
    {
      ghost var all := EnsureRoutes(env, Routes(id), api, id, listed);
      var i := 0;
      assert api[0..] == api;
      while i < |api|
        invariant i <= |api| && Valid() && OtherRoutesSame(id)
        invariant Left(env, all, Routes(id), writes - old(writes), api, id, listed, i)
      {
        LeftStep(env, all, Routes(id), writes - old(writes), api, id, listed, i);
        error := EnsureOneRoute(env, api[i], id, existing, listed);
        if error.Some? { return; }
        i := i + 1;
      }
      LeftDone(env, all, Routes(id), writes - old(writes), api, id, listed);
      error := None;
    }

    method CleanRoutes(env: Env, api: seq<ApiRoute>, id: nat, existing: seq<NlRoute>)
      requires Valid() && Lists(existing, Routes(id))
      modifies `routes, `writes
      ensures Valid() && Routes(id) == CleanTable(env, old(Routes(id)), api)
      ensures writes >= old(writes) && (writes == old(writes) <==> Routes(id) == old(Routes(id)))
      ensures OtherRoutesSame(id)
    {
      ghost var t := Routes(id);
      var i := 0;
      while i < |existing|
        invariant i <= |existing| && Valid()
        invariant forall d <- Routes(id) :: d in t && Routes(id)[d] == t[d]
        invariant forall j :: 0 <= j < i ==>
                    (existing[j].dst in Routes(id) <==> IsContainedRoute(env, existing[j], api))
        invariant forall j :: i <= j < |existing| ==> existing[j].dst in Routes(id)
        invariant writes >= old(writes) && (writes == old(writes) <==> Routes(id) == t)
        invariant OtherRoutesSame(id)
      {
        var keep := ContainsRoute(env, existing[i], api);
        if !keep {
          var ok := RouteDel(id, existing[i].dst);
          assert existing[i].dst in t;
        }
        i := i + 1;
      }
      assert ValidTable(old(Routes(id)), id);
      CleanedAll(env, t, Routes(id), api, id, existing);
    }

    method FlushRoutesByTableID(id: nat)
      requires Valid()
      modifies `routes, `writes
      ensures Valid() && Routes(id) == map[]
      ensures OtherRoutesSame(id)
    {
      ghost var t := Routes(id);
      var existing := ListRoutes(id);
      var i := 0;
      while i < |existing|
        invariant i <= |existing| && Valid()
        invariant forall d <- Routes(id) :: d in t
        invariant forall j :: 0 <= j < i ==> existing[j].dst !in Routes(id)
        invariant OtherRoutesSame(id)
      {
        var ok := RouteDel(id, existing[i].dst);
        i := i + 1;
      }
      forall d <- t ensures d !in Routes(id) {
        var j :| 0 <= j < |existing| && existing[j] == t[d];
        assert ValidTable(old(Routes(id)), id);
      }
      assert Routes(id) == map[];
    }

    // ----- rules

    method EnsureRulePresence(env: Env, r: ApiRule, id: nat, i: nat, existing: seq<NlRule>, ghost listed: set<NlRule>)
      returns (error: Option<Error>)
      requires ListsRules(existing, listed)
      modifies `rules, `writes
      ensures var o := EnsureRule(env, old(Rules(id)), r, id, i, listed);
              Rules(id) == o.state && error == o.error && writes == old(writes) + o.writes
      ensures OtherRulesSame(id)
    {
      var j := 0;
      while j < |existing|
        invariant j <= |existing| && forall l :: 0 <= l < j ==> !RuleIsEqual(r, existing[l])
      {
        if RuleIsEqual(r, existing[j]) { return None; }
        j := j + 1;
      }
      var f := ForgeRule(env, r, id, env.pick(i));
      if f.Err? { return Some(f.error); }
      if f.value in Rules(id) { return Some(FileExists); }
      rules, writes := rules[id := Rules(id) + {f.value}], writes + 1;
      error := None;
    }

    method ContainsRule(k: NlRule, api: seq<ApiRule>) returns (r: bool)
      ensures r == IsContainedRule(k, api)
    {
      var i := 0;
      while i < |api|
        invariant i <= |api| && forall j :: 0 <= j < i ==> !RuleIsEqual(api[j], k)
      {
        if RuleIsEqual(api[i], k) { return true; }
        i := i + 1;
      }
      r := false;
    }

    method RuleDel(id: nat, k: NlRule)
      modifies `rules, `writes
      ensures Rules(id) == old(Rules(id)) - {k} && OtherRulesSame(id)
      ensures writes == old(writes) + if k in old(Rules(id)) then 1 else 0
    {
      if k in Rules(id) { writes := writes + 1; }
      rules := rules[id := Rules(id) - {k}];
    }

    method CleanRulesOf(api: seq<ApiRule>, id: nat, existing: seq<NlRule>)
      requires ListsRules(existing, Rules(id))
      modifies `rules, `writes
      ensures Rules(id) == CleanRules(old(Rules(id)), api) && OtherRulesSame(id)
      ensures writes >= old(writes) && (writes == old(writes) <==> Rules(id) == old(Rules(id)))
    {
      ghost var ks := Rules(id);
      var i := 0;
      while i < |existing|
        invariant i <= |existing| && OtherRulesSame(id) && Rules(id) <= ks
        invariant forall j :: 0 <= j < i ==> (existing[j] in Rules(id) <==> IsContainedRule(existing[j], api))
        invariant forall j :: i <= j < |existing| ==> existing[j] in Rules(id)
        invariant writes >= old(writes) && (writes == old(writes) <==> Rules(id) == ks)
      {
        var keep := ContainsRule(existing[i], api);
        if !keep { RuleDel(id, existing[i]); }
        i := i + 1;
      }
      assert Rules(id) == CleanRules(ks, api);
    }

    method FlushRulesByTableID(id: nat)
      modifies `rules, `writes
      ensures Rules(id) == {} && OtherRulesSame(id)
    {
      ghost var ks := Rules(id);
      var existing := ListRules(id);
      var i := 0;
      while i < |existing|
        invariant i <= |existing| && OtherRulesSame(id) && Rules(id) <= ks
        invariant forall j :: 0 <= j < i ==> existing[j] !in Rules(id)
      {
        RuleDel(id, existing[i]);
        i := i + 1;
      }
      assert Rules(id) == {};
    }

    // ----- the reconciler

    /** One rule with its routes. */
    method ApplyRule(env: Env, api: ApiRule, id: nat, i: nat, existingRules: seq<NlRule>, existing: seq<NlRoute>,
                     ghost listed: State)
      returns (error: Option<Error>)
      requires Valid() && Settles(env) && ValidTable(listed.routes, id) && Lists(existing, listed.routes)
      requires ListsRules(existingRules, listed.rules)
      modifies this
      ensures Valid() && OtherRulesSame(id) && OtherRoutesSame(id)
      ensures var o := ApplyOne(env, old(View(id)), api, id, i, listed);
              View(id) == o.state && error == o.error && writes == old(writes) + o.writes
    {
      error := EnsureRulePresence(env, api, id, i, existingRules, listed.rules);
      if error.Some? { return; }
      error := EnsureRoutesPresence(env, api.routes, id, existing, listed.routes);
    }

    method ApplyRules(env: Env, api: seq<ApiRule>, id: nat, existingRules: seq<NlRule>, existing: seq<NlRoute>,
                      ghost listed: State)
      returns (error: Option<Error>)
      requires Valid() && Settles(env) && ValidTable(listed.routes, id) && Lists(existing, listed.routes)
      requires ListsRules(existingRules, listed.rules)
      modifies this
      ensures Valid() && OtherRulesSame(id) && OtherRoutesSame(id)
      ensures var o := Apply(env, old(View(id)), api, id, listed);
              View(id) == o.state && error == o.error && writes == old(writes) + o.writes
    {
      ghost var all := Apply(env, View(id), api, id, listed);
      var i := 0;
      while i < |api|
        invariant i <= |api| && Valid() && OtherRulesSame(id) && OtherRoutesSame(id)
        invariant var rest := Apply(env, View(id), api, id, listed, i);
                  all.state == rest.state && all.error == rest.error && old(writes) + all.writes == writes + rest.writes
      {
        ApplyUnfold(env, View(id), api, id, listed, i);
        error := ApplyRule(env, api[i], id, i, existingRules, existing, listed);
        if error.Some? { return; }
        i := i + 1;
      }
      error := None;
    }

    method CleanAll(env: Env, api: seq<ApiRule>, id: nat) returns (existingRules: seq<NlRule>, existing: seq<NlRoute>)
      requires Valid()
      modifies this
      ensures Valid() && OtherRulesSame(id) && OtherRoutesSame(id)
      ensures View(id) == Cleaned(env, old(View(id)), api)
      ensures writes >= old(writes) && (writes == old(writes) <==> View(id) == old(View(id)))
      ensures ListsRules(existingRules, old(Rules(id))) && Lists(existing, old(Routes(id)))
    {
      existingRules := ListRules(id);
      CleanRulesOf(api, id, existingRules);
      existing := ListRoutes(id);
      var all := CollectRoutes(api);
      CleanRoutes(env, all, id, existing);
    }

    /** The part of `Reconcile` that applies a configuration. */
    method ReconcileTable(env: Env, api: seq<ApiRule>, id: nat, name: string, registry: Registry)
      returns (error: Option<Error>)
      requires Valid() && Settles(env)
      modifies this, registry
      ensures Valid() && OtherRulesSame(id) && OtherRoutesSame(id)
      ensures var o := Pass(env, old(View(id)), api, id); View(id) == o.state && error == o.error
      ensures registry.lines == Present(old(registry.lines), id, name)
      ensures writes == old(writes) <==>
                Cleaned(env, old(View(id)), api) == old(View(id)) && Pass(env, old(View(id)), api, id).writes == 0
    {
      ghost var before := View(id);
      assert ValidTable(before.routes, id);
      var existingRules, existing := CleanAll(env, api, id);
      registry.EnsureTablePresence(id, name);
      error := ApplyRules(env, api, id, existingRules, existing, before);
    }

    /** The cleanup on deletion. */
    method FlushTable(id: nat, registry: Registry)
      requires Valid()
      modifies this, registry
      ensures Valid() && OtherRulesSame(id) && OtherRoutesSame(id) && View(id) == State({}, map[])
      ensures registry.lines == Without(old(registry.lines), id)
    {
      FlushRulesByTableID(id);
      FlushRoutesByTableID(id);
      registry.EnsureTableAbsence(id);
    }

    /**
    `Reconcile`: without the object, the table told from its name is flushed; `patched` says whether an
    update of the finalizers goes through.
    */
    method Reconcile(env: Env, config: Option<Config>, o: Owner, enable: bool, patched: bool, registry: Registry)
      returns (after: Option<Config>, verdict: Verdict)
      requires Valid() && Settles(env)
      modifies this, registry
      ensures Valid()
      ensures World(after, View(o.Id())) == RouteLifecycle.Reconcile(env, World(config, old(View(o.Id()))), o, enable,
                                                                     patched)
      ensures forall k: nat :: Some(k) != TableID(o.ids, if config.Some? then o.table else GuessedTable(o.name)) ==>
                View(k) == old(View(k))
      ensures verdict == VerdictFor(env, config, o, old(View(o.Id())), enable, patched)
    {
      after, verdict := config, Done;
      if config.None? {
        var guess := TableID(o.ids, GuessedTable(o.name));
        if guess.Some? { FlushTable(guess.value, registry); }
        return;
      }
      if o.table == "" { return config, Failed; }
      var id, name := o.Id(), o.table;
      var c := config.value;
      if !c.deleting && !c.finalizer && enable {
        if !patched { return config, Failed; }
        after := Some(c.(finalizer := true));
      } else if c.deleting {
        FlushTable(id, registry);
        if c.finalizer && enable {
          if !patched { return config, Failed; }
          after := Released(c);
        }
      } else {
        var error := ReconcileTable(env, c.rules, id, name, registry);
        verdict := VerdictOf(error);
      }
    }
  }
}
