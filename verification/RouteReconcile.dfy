/**
One reconciliation of a RouteConfiguration as a function of the kernel tables (pkg/route/route.go,
pkg/route/rule.go and routeconfiguration_controller.go): delete what is not wanted, then add what is
missing, looking up what exists in listings taken before the deletions.
*/
module RouteReconcile {
  import opened Wrappers
  import opened RouteSpec

  /** The routes of one table, one for each destination; `None` is the default route. */
  type Table = map<Option<string>, NlRoute>

  /** What a pass leaves behind, with the error that stopped it and the number of writes to the kernel. */
  datatype Outcome<T> = Outcome(state: T, error: Option<Error>, writes: nat)

  ghost predicate ValidTable(t: Table, id: nat) { forall d <- t :: t[d].table == id && t[d].dst == d }

  // ----- routes

  ghost function CleanTable(env: Env, t: Table, routes: seq<ApiRoute>): Table {
    map d | d in t && IsContainedRoute(env, t[d], routes) :: t[d]
  }

  /** `RouteAdd` and, with `replace`, `RouteReplace`. */
  function Put(env: Env, t: Table, r: NlRoute, replace: bool): Outcome<Table> {
    if !env.reachable(r) then Outcome(t, Some(Unreachable), 0)
    else if !replace && r.dst in t then Outcome(t, Some(FileExists), 0)
    else Outcome(t[r.dst := env.settle(r)], None, 1)
  }

  ghost function EnsureRoute(env: Env, t: Table, api: ApiRoute, id: nat, snapshot: Table): Outcome<Table> {
    match ForgeRoute(env, api, id)
    case Err(e) => Outcome(t, Some(e), 0)
    case Ok(r) =>
      if api.dst.Some? && r.dst in snapshot then
        if IsEqualRoute(r, snapshot[r.dst]) then Outcome(t, None, 0) else Put(env, t, r, true)
      else Put(env, t, r, false)
  }

  ghost function EnsureRoutes(env: Env, t: Table, routes: seq<ApiRoute>, id: nat, snapshot: Table): Outcome<Table>
    decreases |routes|
  {
    if routes == [] then Outcome(t, None, 0)
    else
      var first := EnsureRoute(env, t, routes[0], id, snapshot);
      if first.error.Some? then first
      else
        var rest := EnsureRoutes(env, first.state, routes[1..], id, snapshot);
        rest.(writes := first.writes + rest.writes)
  }

  // ----- the listing taken before the deletions

  function Destination(env: Env, r: ApiRoute): Option<string> { Parsed(env.parseCidr, r.dst) }

  /** No two wanted routes go to the same destination. */
  ghost predicate Distinct(env: Env, routes: seq<ApiRoute>) {
    forall i, j :: 0 <= i < |routes| && 0 <= j < |routes| && i != j ==>
        Destination(env, routes[i]) != Destination(env, routes[j])
  }

  ghost predicate OnlyKept(env: Env, t: Table, kept: Table, routes: seq<ApiRoute>) {
    forall i :: 0 <= i < |routes| ==> Destination(env, routes[i]) in t ==> Destination(env, routes[i]) in kept
  }

  ghost predicate DiffersIfDeleted(env: Env, before: Table, kept: Table, r: ApiRoute, id: nat) {
    var d, f := Destination(env, r), ForgeRoute(env, r, id);
    d in before && d !in kept && f.Ok? ==> !IsEqualRoute(f.value, before[d])
  }

  /** Up to the first wanted route that cannot be forged, no deleted row is equal to a wanted route. */
  ghost predicate DeletedDiffer(env: Env, before: Table, kept: Table, routes: seq<ApiRoute>, id: nat)
    decreases |routes|
  {
    routes == [] || (ForgeRoute(env, routes[0], id).Ok? ==>
                     DiffersIfDeleted(env, before, kept, routes[0], id) &&
                         DeletedDiffer(env, before, kept, routes[1..], id))
  }

  lemma {:induction false} CleanDeletesDifferent(env: Env, before: Table, kept: Table, routes: seq<ApiRoute>, id: nat)
    requires ValidTable(before, id)
    requires forall d <- before :: d !in kept ==> !IsContainedRoute(env, before[d], routes)
    ensures DeletedDiffer(env, before, kept, routes, id)
    decreases |routes|
  {
    if routes != [] && ForgeRoute(env, routes[0], id).Ok? {
      CleanDeletesDifferent(env, before, kept, routes[1..], id);
    }
  }

  lemma {:induction false} StaleStep(env: Env, t: Table, r: ApiRoute, id: nat, before: Table, kept: Table)
    requires forall d <- kept :: d in before && before[d] == kept[d]
    requires DiffersIfDeleted(env, before, kept, r, id)
    requires Destination(env, r) in t ==> Destination(env, r) in kept
    ensures EnsureRoute(env, t, r, id, before) == EnsureRoute(env, t, r, id, kept)
    ensures var o := EnsureRoute(env, t, r, id, before);
            o.error.None? ==> forall d :: d in o.state ==> d in t || d == Destination(env, r)
  {}

  lemma {:induction false} StaleFrom(env: Env, t: Table, routes: seq<ApiRoute>, id: nat, before: Table, kept: Table)
    requires forall d <- kept :: d in before && before[d] == kept[d]
    requires Distinct(env, routes) && OnlyKept(env, t, kept, routes)
    requires DeletedDiffer(env, before, kept, routes, id)
    ensures EnsureRoutes(env, t, routes, id, before) == EnsureRoutes(env, t, routes, id, kept)
    decreases |routes|
  {
    if routes != [] && ForgeRoute(env, routes[0], id).Ok? {
      StaleStep(env, t, routes[0], id, before, kept);
      var o := EnsureRoute(env, t, routes[0], id, before);
      if o.error.None? {
        var rest := routes[1..];
        assert forall i :: 0 <= i < |rest| ==> rest[i] == routes[i + 1];
        StaleFrom(env, o.state, rest, id, before, kept);
      }
    }
  }

  /**
  Looking routes up in the listing taken before the deletions gives the same table, the same error and
  the same writes as looking them up afresh, also when some wanted route cannot be forged or the kernel
  refuses one, as long as no destination is wanted twice.
  */
  lemma {:induction false} StaleRoutesListing(env: Env, t: Table, routes: seq<ApiRoute>, id: nat)
    requires ValidTable(t, id) && Distinct(env, routes)
    ensures var kept := CleanTable(env, t, routes);
            EnsureRoutes(env, kept, routes, id, t) == EnsureRoutes(env, kept, routes, id, kept)
  {
    var kept := CleanTable(env, t, routes);
    CleanDeletesDifferent(env, t, kept, routes, id);
    StaleFrom(env, kept, routes, id, t, kept);
  }

  // ----- what a pass leaves in the table

  ghost predicate AllForge(env: Env, routes: seq<ApiRoute>, id: nat) {
    forall i :: 0 <= i < |routes| ==> ForgeRoute(env, routes[i], id).Ok?
  }

  predicate Same(t: Table, u: Table, d: Option<string>) { (d in t <==> d in u) && (d in t ==> t[d] == u[d]) }

  /** The wanted route is there already, as far as the listing tells. */
  ghost predicate Listed(env: Env, r: ApiRoute, id: nat, snapshot: Table) {
    var f := ForgeRoute(env, r, id);
    f.Ok? && r.dst.Some? && f.value.dst in snapshot && IsEqualRoute(f.value, snapshot[f.value.dst])
  }

  /** One wanted route is in place: untouched when the listing had it, as the kernel keeps it otherwise. */
  ghost predicate InPlace(env: Env, t: Table, u: Table, r: ApiRoute, id: nat, snapshot: Table) {
    var f := ForgeRoute(env, r, id);
    f.Ok? && if Listed(env, r, id, snapshot) then Same(t, u, f.value.dst)
        else f.value.dst in u && u[f.value.dst] == env.settle(f.value)
  }

  ghost predicate Wanted(env: Env, routes: seq<ApiRoute>, d: Option<string>) {
    exists i :: 0 <= i < |routes| && Destination(env, routes[i]) == d
  }

  ghost predicate OthersSame(env: Env, t: Table, u: Table, routes: seq<ApiRoute>) {
    forall d :: !Wanted(env, routes, d) ==> Same(t, u, d)
  }

  lemma {:induction false} ForgedDestination(env: Env, r: ApiRoute, id: nat)
    requires ForgeRoute(env, r, id).Ok?
    ensures ForgeRoute(env, r, id).value.dst == Destination(env, r) && ForgeRoute(env, r, id).value.table == id
  {}

  lemma {:induction false} EnsureStep(env: Env, t: Table, r: ApiRoute, id: nat, snapshot: Table)
    ensures var o := EnsureRoute(env, t, r, id, snapshot);
            && (o.error.None? ==> InPlace(env, t, o.state, r, id, snapshot))
            && (forall d :: d != Destination(env, r) ==> Same(t, o.state, d))
            && (o.writes == 0 && o.error.None? <==> Listed(env, r, id, snapshot))
            && (o.writes == 0 ==> o.state == t)
  {}

  /** What a pass without errors does, destination by destination. */
  lemma {:induction false} EnsureExact(env: Env, t: Table, routes: seq<ApiRoute>, id: nat, snapshot: Table)
    requires Distinct(env, routes) && EnsureRoutes(env, t, routes, id, snapshot).error.None?
    ensures var u := EnsureRoutes(env, t, routes, id, snapshot).state;
            && OthersSame(env, t, u, routes)
            && forall i :: 0 <= i < |routes| ==> InPlace(env, t, u, routes[i], id, snapshot)
    decreases |routes|
  {
    if routes != [] {
      EnsureStep(env, t, routes[0], id, snapshot);
      var o, rest := EnsureRoute(env, t, routes[0], id, snapshot), routes[1..];
      assert forall i :: 0 <= i < |rest| ==> rest[i] == routes[i + 1];
      EnsureExact(env, o.state, rest, id, snapshot);
      var u := EnsureRoutes(env, o.state, rest, id, snapshot).state;
      assert !Wanted(env, rest, Destination(env, routes[0]));
      forall d | !Wanted(env, routes, d) ensures Same(t, u, d) {
        assert d != Destination(env, routes[0]);
        assert !Wanted(env, rest, d);
      }
      forall i | 0 <= i < |routes| ensures InPlace(env, t, u, routes[i], id, snapshot) {
        if i > 0 { assert InPlace(env, o.state, u, rest[i - 1], id, snapshot); ForgedDestination(env, routes[i], id); }
        else { ForgedDestination(env, routes[0], id); }
      }
    }
  }

  ghost predicate Destined(routes: seq<ApiRoute>) { forall i :: 0 <= i < |routes| ==> routes[i].dst.Some? }

  /** The table is as wanted: every row is wanted and every wanted route has its row. */
  ghost predicate Converged(env: Env, t: Table, routes: seq<ApiRoute>, id: nat) {
    && AllForge(env, routes, id)
    && (forall d <- t :: IsContainedRoute(env, t[d], routes))
    && forall i :: 0 <= i < |routes| ==> HasRow(env, t, routes[i], id)
  }

  ghost predicate HasRow(env: Env, t: Table, r: ApiRoute, id: nat) {
    var f := ForgeRoute(env, r, id);
    f.Ok? && f.value.dst in t && IsEqualRoute(f.value, t[f.value.dst])
  }

  lemma {:induction false} RowIsContained(env: Env, e: NlRoute, routes: seq<ApiRoute>, i: nat)
    requires AllForge(env, routes, e.table) && i < |routes|
    requires IsEqualRoute(ForgeRoute(env, routes[i], e.table).value, e)
    ensures IsContainedRoute(env, e, routes)
  {
    ContainedExact(env, e, routes);
    assert ForgesEqual(env, e, routes[i]);
  }

  lemma {:induction false} RowInPlace(env: Env, t: Table, u: Table, routes: seq<ApiRoute>, id: nat, i: nat)
    requires ValidTable(t, id) && Settles(env) && AllForge(env, routes, id) && i < |routes|
    requires InPlace(env, CleanTable(env, t, routes), u, routes[i], id, t)
    ensures HasRow(env, u, routes[i], id) && u[Destination(env, routes[i])].table == id
    ensures u[Destination(env, routes[i])].dst == Destination(env, routes[i])
  {
    var r := routes[i];
    var f := ForgeRoute(env, r, id).value;
    ForgedDestination(env, r, id);
    if Listed(env, r, id, t) {
      RowIsContained(env, t[f.dst], routes, i);
    } else {
      assert IsEqualRoute(f, env.settle(f));
    }
  }

  /**
  Whatever the table held, one pass without errors leaves it as wanted, with no rows but the wanted
  ones, the default route it had before and, only if a route without destination is wanted, rows that
  this route matches because a missing destination matches any.
  */
  lemma {:induction false} RoutesConverge(env: Env, t: Table, routes: seq<ApiRoute>, id: nat)
    requires ValidTable(t, id) && Settles(env) && Distinct(env, routes)
    requires EnsureRoutes(env, CleanTable(env, t, routes), routes, id, t).error.None?
    ensures var u := EnsureRoutes(env, CleanTable(env, t, routes), routes, id, t).state;
            && ValidTable(u, id) && Converged(env, u, routes, id)
            && forall d :: d in u ==>
                 Wanted(env, routes, d) || ((d.None? || !Destined(routes)) && d in t && u[d] == t[d])
  {
    var kept := CleanTable(env, t, routes);
    EnsureExact(env, kept, routes, id, t);
    var u := EnsureRoutes(env, kept, routes, id, t).state;
    assert AllForge(env, routes, id) by {
      forall i | 0 <= i < |routes|
        ensures ForgeRoute(env, routes[i], id).Ok?
      {
        assert InPlace(env, kept, u, routes[i], id, t);
      }
    }
    forall i | 0 <= i < |routes|
      ensures HasRow(env, u, routes[i], id) && u[Destination(env, routes[i])].table == id
      ensures u[Destination(env, routes[i])].dst == Destination(env, routes[i])
    {
      RowInPlace(env, t, u, routes, id, i);
    }
    forall d | d in u ensures RowOk(env, t, u, routes, id, d) { RowsConverge(env, t, u, routes, id, d); }
  }

  // ----- what the rows mean

  /** A field that both have is the same. */
  predicate Meets(asked: Option<string>, found: Option<string>) {
    asked.Some? && found.Some? ==> asked.value == found.value
  }

  /**
  The row does what the wanted route asks, as far as its fields tell: the kernel may keep a route without
  a field that was sent or with one that was not.
  */
  ghost predicate RowServes(env: Env, r: ApiRoute, id: nat, row: NlRoute) {
    && row.table == id && row.dst == Destination(env, r)
    && (r.src.Some? ==> Meets(env.parseIp(r.src.value), row.src))
    && (r.gw.Some? && r.nextHops == [] ==> Meets(env.parseIp(r.gw.value), row.gw))
    && (r.dev.Some? && r.nextHops == [] ==>
          r.dev.value in env.links && (row.link == env.links[r.dev.value] || row.link == 0 ||
                                       env.links[r.dev.value] == 0))
    && row.flags == (if r.onlink then 4 else 0) && HopsCarry(env, r.nextHops, row.multiPath)
  }

  /**
  After a pass without errors there is a row for every wanted route that does what it asks; where the old
  listing had no such row, it is what the kernel makes of a route that carries exactly all that is asked.
  */
  lemma {:induction false} RowsMean(env: Env, t: Table, routes: seq<ApiRoute>, id: nat, i: nat) returns (sent: NlRoute)
    requires ValidTable(t, id) && Settles(env) && Distinct(env, routes) && i < |routes|
    requires EnsureRoutes(env, CleanTable(env, t, routes), routes, id, t).error.None?
    ensures var u, d := EnsureRoutes(env, CleanTable(env, t, routes), routes, id, t).state, Destination(env, routes[i]);
            && d in u && RowServes(env, routes[i], id, u[d]) && Asks(env, routes[i], id, sent)
            && (u[d] == env.settle(sent) || (routes[i].dst.Some? && d in t && u[d] == t[d]))
  {
    var kept, r := CleanTable(env, t, routes), routes[i];
    EnsureExact(env, kept, routes, id, t);
    RoutesConverge(env, t, routes, id);
    var u := EnsureRoutes(env, kept, routes, id, t).state;
    sent := ForgeRoute(env, r, id).value;
    ForgedIffAsked(env, r, id, sent);
    ForgedDestination(env, r, id);
    assert HasRow(env, u, r, id) && InPlace(env, kept, u, r, id, t);
    EqualServes(env, r, id, sent, u[sent.dst]);
  }

  lemma {:induction false} EqualServes(env: Env, r: ApiRoute, id: nat, sent: NlRoute, row: NlRoute)
    requires Asks(env, r, id, sent) && IsEqualRoute(sent, row) && row.table == id && row.dst == sent.dst
    ensures RowServes(env, r, id, row)
  {
    assert multiset(sent.multiPath) == multiset(row.multiPath);
  }

  /** The kernel keeps every field that was sent. */
  ghost predicate KeepsSent(env: Env) {
    forall r: NlRoute :: (var k := env.settle(r);
                          && (r.src.Some? ==> k.src == r.src) && (r.gw.Some? ==> k.gw == r.gw)
                          && (r.link != 0 ==> k.link == r.link) && k.flags == r.flags
                          && multiset(k.multiPath) == multiset(r.multiPath) && k.scope == r.scope)
  }

  /** With such a kernel a row that was written has all that is asked. */
  lemma {:induction false} WrittenRowMeans(env: Env, r: ApiRoute, id: nat, sent: NlRoute)
    requires Settles(env) && KeepsSent(env) && Asks(env, r, id, sent)
    ensures var row := env.settle(sent);
            && RowServes(env, r, id, row) && row.scope == r.scope
            && (r.src.Some? && env.parseIp(r.src.value).Some? ==> row.src == env.parseIp(r.src.value))
            && (r.gw.Some? && r.nextHops == [] && env.parseIp(r.gw.value).Some? ==> row.gw == env.parseIp(r.gw.value))
            && (r.dev.Some? && r.nextHops == [] && env.links[r.dev.value] != 0 ==> row.link == env.links[r.dev.value])
  {
    assert IsEqualRoute(sent, env.settle(sent));
    EqualServes(env, r, id, sent, env.settle(sent));
  }

  ghost predicate RowOk(env: Env, t: Table, u: Table, routes: seq<ApiRoute>, id: nat, d: Option<string>)
    requires d in u
  {
    && u[d].table == id && u[d].dst == d && IsContainedRoute(env, u[d], routes)
    && (Wanted(env, routes, d) || ((d.None? || !Destined(routes)) && d in t && u[d] == t[d]))
  }

  lemma {:induction false} RowsConverge(env: Env, t: Table, u: Table, routes: seq<ApiRoute>, id: nat, d: Option<string>)
    requires ValidTable(t, id) && AllForge(env, routes, id) && d in u
    requires OthersSame(env, CleanTable(env, t, routes), u, routes)
    requires forall i :: 0 <= i < |routes| ==>
               HasRow(env, u, routes[i], id) && u[Destination(env, routes[i])].table == id &&
                   u[Destination(env, routes[i])].dst == Destination(env, routes[i])
    ensures RowOk(env, t, u, routes, id, d)
  {
    if Wanted(env, routes, d) {
      var i :| 0 <= i < |routes| && Destination(env, routes[i]) == d;
      ForgedDestination(env, routes[i], id);
      RowIsContained(env, u[d], routes, i);
    } else {
      assert d in t && u[d] == t[d];
      ContainedExact(env, t[d], routes);
      var i :| 0 <= i < |routes| && ForgesEqual(env, t[d], routes[i]);
      ForgedDestination(env, routes[i], id);
      assert Destination(env, routes[i]) != d;
      ForgedDefault(env, routes[i], id);
    }
  }

  lemma {:induction false} ForgedDefault(env: Env, r: ApiRoute, id: nat)
    requires ForgeRoute(env, r, id).Ok?
    ensures Destination(env, r).None? <==> r.dst.None?
  {}

  // ----- a second pass

  lemma {:induction false} NoWritesMeansListed(env: Env, t: Table, routes: seq<ApiRoute>, id: nat, snapshot: Table)
    ensures var o := EnsureRoutes(env, t, routes, id, snapshot);
            && (o.writes == 0 && o.error.None? <==>
                forall i :: 0 <= i < |routes| ==> Listed(env, routes[i], id, snapshot))
            && (o.writes == 0 ==> o.state == t)
    decreases |routes|
  {
    if routes != [] {
      EnsureStep(env, t, routes[0], id, snapshot);
      var o, rest := EnsureRoute(env, t, routes[0], id, snapshot), routes[1..];
      NoWritesMeansListed(env, o.state, rest, id, snapshot);
      assert forall i :: 0 <= i < |rest| ==> rest[i] == routes[i + 1];
      if o.error.None? && forall i :: 0 <= i < |rest| ==> Listed(env, rest[i], id, snapshot) {
        forall i | 0 < i < |routes|
          ensures Listed(env, routes[i], id, snapshot)
        {
          assert Listed(env, rest[i - 1], id, snapshot);
        }
      }
    }
  }

  /**
  A pass has nothing to do, that is deletes nothing, writes nothing and reports no error, exactly when
  the table is as wanted and every wanted route names its destination. A wanted route without a
  destination is added again by every pass.
  */
  lemma {:induction false} IdleIffConverged(env: Env, t: Table, routes: seq<ApiRoute>, id: nat)
    requires ValidTable(t, id)
    ensures CleanTable(env, t, routes) == t && EnsureRoutes(env, t, routes, id, t) == Outcome(t, None, 0)
            <==> Converged(env, t, routes, id) && Destined(routes)
  {
    NoWritesMeansListed(env, t, routes, id, t);
    if Converged(env, t, routes, id) && Destined(routes) {
      assert CleanTable(env, t, routes) == t;
      forall i | 0 <= i < |routes| ensures Listed(env, routes[i], id, t) { assert HasRow(env, t, routes[i], id); }
    } else if CleanTable(env, t, routes) == t && EnsureRoutes(env, t, routes, id, t) == Outcome(t, None, 0) {
      forall d <- t ensures IsContainedRoute(env, t[d], routes) { assert d in CleanTable(env, t, routes); }
      forall i | 0 <= i < |routes|
        ensures HasRow(env, t, routes[i], id) && routes[i].dst.Some?
      {
        assert Listed(env, routes[i], id, t);
      }
    }
  }

  // ----- when a pass succeeds

  /** Nothing stands in the way of writing `r`. */
  ghost predicate Accepted(env: Env, t: Table, r: ApiRoute, id: nat, snapshot: Table) {
    var f := ForgeRoute(env, r, id);
    && f.Ok?
    && (Listed(env, r, id, snapshot)
        || (env.reachable(f.value) && ((r.dst.Some? && f.value.dst in snapshot) || f.value.dst !in t)))
  }

  lemma {:induction false} SucceedsIff(env: Env, t: Table, routes: seq<ApiRoute>, id: nat, snapshot: Table)
    requires Distinct(env, routes)
    ensures EnsureRoutes(env, t, routes, id, snapshot).error.None? <==>
              forall i :: 0 <= i < |routes| ==> Accepted(env, t, routes[i], id, snapshot)
    decreases |routes|
  {
    if routes != [] {
      EnsureStep(env, t, routes[0], id, snapshot);
      var o, rest := EnsureRoute(env, t, routes[0], id, snapshot), routes[1..];
      assert o.error.None? <==> Accepted(env, t, routes[0], id, snapshot);
      SucceedsIff(env, o.state, rest, id, snapshot);
      forall i | 0 <= i < |rest|
        ensures Accepted(env, o.state, rest[i], id, snapshot) == Accepted(env, t, routes[i + 1], id, snapshot)
      {
        assert rest[i] == routes[i + 1];
        assert Destination(env, routes[0]) != Destination(env, routes[i + 1]);
        if ForgeRoute(env, rest[i], id).Ok? {
          ForgedDestination(env, rest[i], id);
          assert Same(t, o.state, Destination(env, rest[i]));
        }
      }
      if o.error.None? {
        if forall i :: 0 <= i < |rest| ==> Accepted(env, o.state, rest[i], id, snapshot) {
          forall i | 0 < i < |routes|
            ensures Accepted(env, t, routes[i], id, snapshot)
          {
            assert Accepted(env, o.state, rest[i - 1], id, snapshot);
          }
        }
      }
    }
  }

  /**
  A pass over a real table succeeds exactly when every wanted route can be forged, the ones not in place
  already have a reachable gateway, and a wanted default route does not meet one that was kept.
  */
  lemma {:induction false} PassSucceedsIff(env: Env, t: Table, routes: seq<ApiRoute>, id: nat)
    requires ValidTable(t, id) && Distinct(env, routes)
    ensures var kept := CleanTable(env, t, routes);
            EnsureRoutes(env, kept, routes, id, t).error.None? <==>
            && AllForge(env, routes, id)
            && (forall i :: 0 <= i < |routes| ==>
                Listed(env, routes[i], id, t) || env.reachable(ForgeRoute(env, routes[i], id).value))
            && (forall i :: 0 <= i < |routes| && routes[i].dst.None? ==> None !in kept)
  {
    var kept := CleanTable(env, t, routes);
    SucceedsIff(env, kept, routes, id, t);
    forall i | 0 <= i < |routes| ensures Accepted(env, kept, routes[i], id, t) <==>
      ForgeRoute(env, routes[i], id).Ok? && (Listed(env, routes[i], id, t) ||
                                             env.reachable(ForgeRoute(env, routes[i], id).value)) &&
                                                 (routes[i].dst.None? ==> None !in kept)
    {
      if ForgeRoute(env, routes[i], id).Ok? {
        ForgedDestination(env, routes[i], id);
        ForgedDefault(env, routes[i], id);
      }
    }
    if forall i :: 0 <= i < |routes| ==> Accepted(env, kept, routes[i], id, t) {
      forall i | 0 <= i < |routes|
        ensures ForgeRoute(env, routes[i], id).Ok?
      {
        assert Accepted(env, kept, routes[i], id, t);
      }
    }
  }

  /** While one wanted route cannot be forged, the rows of all the later ones count as unwanted. */
  lemma {:induction false} BrokenRouteHidesLaterOnes(env: Env, e: NlRoute, routes: seq<ApiRoute>, j: nat)
    requires j < |routes| && ForgeRoute(env, routes[j], e.table).Err?
    ensures IsContainedRoute(env, e, routes) <==> IsContainedRoute(env, e, routes[..j])
    decreases j
  {
    if j > 0 {
      var rest := routes[1..];
      assert rest[j - 1] == routes[j] && routes[..j][0] == routes[0] && routes[..j][1..] == rest[..j - 1];
      BrokenRouteHidesLaterOnes(env, e, rest, j - 1);
    }
  }

  // ----- when the two listings differ

  /** Some earlier wanted route, or one in `done`, goes to the same destination. */
  ghost predicate WantedBefore(env: Env, routes: seq<ApiRoute>, done: set<Option<string>>, i: nat)
    requires i < |routes|
  {
    var d := Destination(env, routes[i]);
    d in done || exists j :: 0 <= j < i && Destination(env, routes[j]) == d
  }

  /** The route stops the pass with either listing: not forged, refused, or added where a row is already. */
  ghost predicate Fails(env: Env, routes: seq<ApiRoute>, id: nat, before: Table, kept: Table, done: set<Option<string>>,
                        i: nat)
    requires i < |routes|
  {
    var r := routes[i];
    match ForgeRoute(env, r, id)
    case Err(_) => true
    case Ok(f) =>
      || (!Listed(env, r, id, kept) && !env.reachable(f))
      || ((r.dst.None? || f.dst !in before) && (f.dst in kept || WantedBefore(env, routes, done, i)))
  }

  /**
  A destination whose row was deleted is wanted again: the old listing replaces the row, a fresh one adds
  a second.
  */
  ghost predicate Clashes(env: Env, routes: seq<ApiRoute>, id: nat, before: Table, kept: Table,
                          done: set<Option<string>>, i: nat)
    requires i < |routes|
  {
    var r := routes[i];
    match ForgeRoute(env, r, id)
    case Err(_) => false
    case Ok(f) =>
      r.dst.Some? && f.dst in before && f.dst !in kept && WantedBefore(env, routes, done, i) && env.reachable(f)
  }

  /** A clash is reached before the pass stops. */
  ghost predicate Differs(env: Env, routes: seq<ApiRoute>, id: nat, before: Table, kept: Table,
                          done: set<Option<string>>) {
    exists i :: 0 <= i < |routes| && Clashes(env, routes, id, before, kept, done, i)
                && forall k :: 0 <= k < i ==> !Fails(env, routes, id, before, kept, done, k)
  }

  lemma {:induction false} ShiftedTurn(env: Env, routes: seq<ApiRoute>, id: nat, before: Table, kept: Table,
                                       done: set<Option<string>>, i: nat)
    requires i < |routes| - 1
    ensures var rest, more := routes[1..], done + {Destination(env, routes[0])};
            && Clashes(env, rest, id, before, kept, more, i) == Clashes(env, routes, id, before, kept, done, i + 1)
            && Fails(env, rest, id, before, kept, more, i) == Fails(env, routes, id, before, kept, done, i + 1)
  {
    var rest, more := routes[1..], done + {Destination(env, routes[0])};
    assert forall j :: 0 <= j < |rest| ==> rest[j] == routes[j + 1];
    var d := Destination(env, rest[i]);
    assert WantedBefore(env, rest, more, i) == WantedBefore(env, routes, done, i + 1) by {
      if j :| 0 <= j < i + 1 && Destination(env, routes[j]) == d {
        if j > 0 { assert Destination(env, rest[j - 1]) == d; }
      }
      if j :| 0 <= j < i && Destination(env, rest[j]) == d { assert Destination(env, routes[j + 1]) == d; }
    }
  }

  lemma {:induction false} DiffersLater(env: Env, routes: seq<ApiRoute>, id: nat, before: Table, kept: Table,
                                        done: set<Option<string>>)
    requires routes != [] && !Clashes(env, routes, id, before, kept, done, 0)
    ensures Differs(env, routes, id, before, kept, done) <==>
            !Fails(env, routes, id, before, kept, done, 0) &&
                Differs(env, routes[1..], id, before, kept, done + {Destination(env, routes[0])})
  {
    var rest, more := routes[1..], done + {Destination(env, routes[0])};
    forall i | 0 <= i < |rest|
      ensures Clashes(env, rest, id, before, kept, more, i) == Clashes(env, routes, id, before, kept, done, i + 1)
      ensures Fails(env, rest, id, before, kept, more, i) == Fails(env, routes, id, before, kept, done, i + 1)
    {
      ShiftedTurn(env, routes, id, before, kept, done, i);
    }
    if Differs(env, routes, id, before, kept, done) {
      var i :| 0 <= i < |routes| && Clashes(env, routes, id, before, kept, done, i)
               && forall k :: 0 <= k < i ==> !Fails(env, routes, id, before, kept, done, k);
      assert Clashes(env, rest, id, before, kept, more, i - 1);
    }
    if !Fails(env, routes, id, before, kept, done, 0) && Differs(env, rest, id, before, kept, more) {
      var i :| 0 <= i < |rest| && Clashes(env, rest, id, before, kept, more, i)
               && forall k :: 0 <= k < i ==> !Fails(env, rest, id, before, kept, more, k);
      forall k | 0 <= k < i + 1 ensures !Fails(env, routes, id, before, kept, done, k) {
        if k > 0 { assert !Fails(env, rest, id, before, kept, more, k - 1); }
      }
      assert Clashes(env, routes, id, before, kept, done, i + 1);
    }
  }

  /** The table has the kept rows and those of the routes done. */
  ghost predicate Occupied(t: Table, kept: Table, done: set<Option<string>>) {
    forall d :: d in t <==> d in kept || d in done
  }

  /** One wanted route with either listing. */
  lemma {:induction false} TurnOfBoth(env: Env, t: Table, routes: seq<ApiRoute>, id: nat, before: Table, kept: Table,
                                      done: set<Option<string>>)
    requires routes != [] && Occupied(t, kept, done) && forall d <- kept :: d in before && before[d] == kept[d]
    requires DiffersIfDeleted(env, before, kept, routes[0], id)
    ensures var o, u := EnsureRoute(env, t, routes[0], id, before), EnsureRoute(env, t, routes[0], id, kept);
            if Clashes(env, routes, id, before, kept, done, 0) then
                o.error.None? && o.writes == 1 && u.error.Some? && u.writes == 0
            else o == u && (o.error.Some? <==> Fails(env, routes, id, before, kept, done, 0))
                 && (o.error.None? ==> Occupied(o.state, kept, done + {Destination(env, routes[0])}))
  {
    if ForgeRoute(env, routes[0], id).Ok? { ForgedDestination(env, routes[0], id); }
  }

  lemma {:induction false} DiffersFrom(env: Env, t: Table, routes: seq<ApiRoute>, id: nat, before: Table, kept: Table,
                                       done: set<Option<string>>)
    requires Occupied(t, kept, done) && forall d <- kept :: d in before && before[d] == kept[d]
    requires DeletedDiffer(env, before, kept, routes, id)
    ensures EnsureRoutes(env, t, routes, id, before) != EnsureRoutes(env, t, routes, id, kept) <==>
              Differs(env, routes, id, before, kept, done)
    decreases |routes|
  {
    if routes != [] {
      TurnOfBoth(env, t, routes, id, before, kept, done);
      if !Clashes(env, routes, id, before, kept, done, 0) {
        DiffersLater(env, routes, id, before, kept, done);
        var o := EnsureRoute(env, t, routes[0], id, before);
        if o.error.None? {
          DiffersFrom(env, o.state, routes[1..], id, before, kept, done + {Destination(env, routes[0])});
        }
      } else {
        assert EnsureRoutes(env, t, routes, id, before).writes >= 1 &&
                 EnsureRoutes(env, t, routes, id, kept).writes == 0;
      }
    }
  }

  /**
  Looking routes up in the listing taken before the deletions differs from looking them up afresh exactly
  when a destination whose row was deleted is wanted twice and the pass gets to the second of the two.
  */
  lemma {:induction false} StaleListingDiffersIff(env: Env, t: Table, routes: seq<ApiRoute>, id: nat)
    requires ValidTable(t, id)
    ensures var kept := CleanTable(env, t, routes);
            EnsureRoutes(env, kept, routes, id, t) != EnsureRoutes(env, kept, routes, id, kept) <==>
                Differs(env, routes, id, t, kept, {})
  {
    var kept := CleanTable(env, t, routes);
    CleanDeletesDifferent(env, t, kept, routes, id);
    DiffersFrom(env, kept, routes, id, t, kept, {});
  }

  /**
  For routes that can be forged, are reachable and have destinations: exactly when a destination that was
  deleted is wanted twice and no destination that had no row is wanted twice before that.
  */
  lemma {:induction false} ReachableRoutesDifferIff(env: Env, t: Table, routes: seq<ApiRoute>, id: nat)
    requires ValidTable(t, id) && AllForge(env, routes, id) && Destined(routes)
    requires forall i :: 0 <= i < |routes| ==> env.reachable(ForgeRoute(env, routes[i], id).value)
    ensures var kept := CleanTable(env, t, routes);
            EnsureRoutes(env, kept, routes, id, t) != EnsureRoutes(env, kept, routes, id, kept) <==>
            exists i :: 0 <= i < |routes| && WantedBefore(env, routes, {}, i)
                        && Destination(env, routes[i]) in t && Destination(env, routes[i]) !in kept
                        && forall k :: 0 <= k < i && Destination(env, routes[k]) !in t ==>
                             !WantedBefore(env, routes, {}, k)
  {
    var kept := CleanTable(env, t, routes);
    StaleListingDiffersIff(env, t, routes, id);
    forall i | 0 <= i < |routes|
      ensures Clashes(env, routes, id, t, kept, {}, i) <==>
              WantedBefore(env, routes, {}, i) && Destination(env, routes[i]) in t &&
                  Destination(env, routes[i]) !in kept
      ensures Fails(env, routes, id, t, kept, {}, i) <==>
                Destination(env, routes[i]) !in t && WantedBefore(env, routes, {}, i)
    {
      ForgedDestination(env, routes[i], id);
    }
  }

  /** Such a case: the pass succeeds with the old listing and fails with a fresh one. */
  lemma {:induction false} StaleListingCanDiffer() returns (env: Env, t: Table, routes: seq<ApiRoute>)
    ensures ValidTable(t, 300) && Settles(env) && !Distinct(env, routes)
    ensures var kept := CleanTable(env, t, routes);
            && EnsureRoutes(env, kept, routes, 300, t).error.None?
            && EnsureRoutes(env, kept, routes, 300, kept).error == Some(FileExists)
  {
    env := Env(map[], x => Some(x), x => Some(x), r => true, r => r, n => 0);
    var d := Some("10.0.0.0/24");
    var row := NlRoute(300, d, None, Some("10.0.0.3"), 0, 0, [], 0);
    t := map[d := row];
    var a, b := ApiRoute(d, None, Some("10.0.0.1"), None, false, 0, []),
        ApiRoute(d, None, Some("10.0.0.2"), None, false, 0, []);
    routes := [a, b];
    assert Destination(env, routes[0]) == Destination(env, routes[1]);
    var fa, fb := NlRoute(300, d, None, Some("10.0.0.1"), 0, 0, [], 0),
        NlRoute(300, d, None, Some("10.0.0.2"), 0, 0, [], 0);
    assert ForgeRoute(env, a, 300) == Ok(fa) && ForgeRoute(env, b, 300) == Ok(fb);
    var kept := CleanTable(env, t, routes);
    assert routes[1..] == [b] && routes[1..][1..] == [];
    assert !IsContainedRoute(env, row, [b]);
    assert !IsContainedRoute(env, row, routes);
    assert kept == map[];
    assert EnsureRoute(env, kept, a, 300, t) == Outcome(map[d := fa], None, 1);
    assert EnsureRoute(env, kept, a, 300, kept) == Outcome(map[d := fa], None, 1);
    assert EnsureRoute(env, map[d := fa], b, 300, t).error.None?;
    assert EnsureRoute(env, map[d := fa], b, 300, kept).error == Some(FileExists);
    assert EnsureRoutes(env, map[d := fa], routes[1..], 300, t).error.None?;
    assert EnsureRoutes(env, map[d := fa], routes[1..], 300, kept).error == Some(FileExists);
  }
}
