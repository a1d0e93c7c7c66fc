/**
The life of a RouteConfiguration and of the kernel table it owns: users create, change and delete the
object, the reconciler runs at any time and may be cut short, and the finalizer is there to keep the
object until the table has been flushed (Reconcile and flushStaleRules in
pkg/route/routeconfiguration_controller.go). Table names are unique and immutable, so one object and
one table are followed; what the reconciler does for other names is the last part.
*/
module RouteLifecycle {
  import opened Wrappers
  import opened RouteSpec
  import opened RouteReconcile
  import opened RoutePass

  /** `finalizer` is the controller's own, `held` stands for the finalizers of others. */
  datatype Config = Config(rules: seq<ApiRule>, deleting: bool, finalizer: bool, held: bool)

  datatype World = World(config: Option<Config>, kernel: State)

  const EMPTY := State({}, map[])

  /** The object without the controller's finalizer: gone, if it was only waiting for that. */
  function Released(c: Config): Option<Config> {
    if c.deleting && !c.held then None else Some(c.(finalizer := false))
  }

  // ----- guessing the table of an object that is gone

  const GW_NODE := "-gw-node"

  const GW_EXT := "-gw-ext"

  predicate EndsIn(s: string, suffix: string) { |suffix| <= |s| && s[|s| - |suffix|..] == suffix }

  function TrimSuffix(s: string, suffix: string): string { if EndsIn(s, suffix) then s[..|s| - |suffix|] else s }

  /** The table name `flushStaleRules` takes an object of that name to have had. */
  function GuessedTable(name: string): string { TrimSuffix(TrimSuffix(name, GW_NODE), GW_EXT) }

  lemma {:induction false} TrimIff(s: string, suffix: string, r: string)
    ensures TrimSuffix(s, suffix) == r <==> s == r + suffix || (s == r && !EndsIn(r, suffix))
  {
    if EndsIn(s, suffix) { assert s == s[..|s| - |suffix|] + suffix; }
    if s == r + suffix { assert s[|s| - |suffix|..] == suffix && s[..|s| - |suffix|] == r; }
  }

  /** The two suffixes end differently. */
  lemma {:induction false} SuffixesDiffer(r: string)
    ensures !EndsIn(r + GW_EXT, GW_NODE)
  {
    var s := r + GW_EXT;
    assert s[|s| - 1] == 't' && GW_NODE[7] == 'e';
  }

  /** The names from which a table is guessed. */
  predicate GuessedFrom(name: string, table: string) {
    || name == table + GW_EXT + GW_NODE
    || name == table + GW_EXT
    || (name == table + GW_NODE && !EndsIn(table, GW_EXT))
    || (name == table && !EndsIn(table, GW_EXT) && !EndsIn(table, GW_NODE))
  }

  /** A table is guessed from exactly these names. */
  lemma {:induction false} GuessedIff(name: string, table: string)
    ensures GuessedTable(name) == table <==> GuessedFrom(name, table)
  {
    var m := TrimSuffix(name, GW_NODE);
    TrimIff(m, GW_EXT, table);
    TrimIff(name, GW_NODE, table + GW_EXT);
    TrimIff(name, GW_NODE, table);
    SuffixesDiffer(table);
  }

  /**
  The tables of the objects that are made for gateways are guessed right, except for a node whose name
  ends like the object of a remote cluster; objects named like their table need a name with neither ending.
  */
  lemma {:induction false} OwnTableGuessedIff(table: string)
    ensures GuessedTable(table + GW_EXT) == table
    ensures GuessedTable(table + GW_NODE) == table <==> !EndsIn(table, GW_EXT)
    ensures GuessedTable(table) == table <==> !EndsIn(table, GW_EXT) && !EndsIn(table, GW_NODE)
  {
    GuessedIff(table + GW_EXT, table);
    GuessedIff(table + GW_NODE, table);
    GuessedIff(table, table);
    assert |table + GW_NODE| == |table| + 8 && |table + GW_EXT| == |table| + 7;
  }

  /** The name of the object, the name of its table, and the identifiers that names of tables hash to. */
  datatype Owner = Owner(name: string, table: string, ids: string -> nat) {
    function Id(): nat { ids(table) }
  }

  /** `GetTableID`. */
  function TableID(ids: string -> nat, table: string): Option<nat> { if table == "" then None else Some(ids(table)) }

  /** Two table names, the first not empty, that hash to the same identifier. */
  predicate Collide(ids: string -> nat, a: string, b: string) { a != "" && a != b && ids(a) == ids(b) }

  /** The table guessed from the name of the missing object is the one it had, as far as identifiers tell. */
  predicate Known(o: Owner) { TableID(o.ids, GuessedTable(o.name)) == Some(o.Id()) }

  /**
  One run of the reconciler. `patched` says whether the API server took the update of the finalizers. An
  object whose table has no name is an error.
  */
  ghost function Reconcile(env: Env, w: World, o: Owner, enable: bool, patched: bool): World {
    match w.config
    case None => if Known(o) then World(None, EMPTY) else w
    case Some(c) =>
      if o.table == "" then w
      else if !c.deleting && !c.finalizer && enable then
        if patched then World(Some(c.(finalizer := true)), w.kernel) else w
      else if c.deleting then
        World(if c.finalizer && enable && patched then Released(c) else w.config, EMPTY)
      else World(w.config, Pass(env, w.kernel, c.rules, o.Id()).state)
  }

  datatype Verdict = Done | Requeue | Failed

  /** A missing link or an unreachable gateway is tried again a second later, any other error is returned. */
  function VerdictOf(error: Option<Error>): Verdict {
    match error
    case None => Done
    case Some(LinkNotFound) | Some(Unreachable) => Requeue
    case Some(_) => Failed
  }

  predicate Applies(c: Config, enable: bool) { !c.deleting && (c.finalizer || !enable) }

  predicate Patches(c: Config, enable: bool) { enable && c.deleting == c.finalizer }

  ghost function VerdictFor(env: Env, config: Option<Config>, o: Owner, view: State, enable: bool,
                            patched: bool): Verdict {
    if config.None? then Done
    else if o.table == "" then Failed
    else if Applies(config.value, enable) then VerdictOf(Pass(env, view, config.value.rules, o.Id()).error)
    else if Patches(config.value, enable) && !patched then Failed
    else Done
  }

  datatype Event =
    | Create(rules: seq<ApiRule>, held: bool)
    | Update(newRules: seq<ApiRule>)
    | Delete
    | LetGo
    | Reconciled(env: Env, patched: bool)
    | CutShort(left: State)

  /** The reconciler gets to touch the kernel. */
  predicate Acts(c: Config, enable: bool) { c.deleting || c.finalizer || !enable }

  predicate Possible(w: World, e: Event, enable: bool) {
    match e
    case Create(_, _) => w.config.None?
    case Update(_) | Delete | LetGo => w.config.Some?
    case Reconciled(_, _) => true
    case CutShort(left) =>
      && w.config.Some? && Acts(w.config.value, enable)
      && (w.config.value.deleting ==> left.rules <= w.kernel.rules && left.routes.Keys <= w.kernel.routes.Keys)
  }

  ghost function Step(w: World, e: Event, o: Owner, enable: bool): World
    requires Possible(w, e, enable)
  {
    match e
    case Create(rules, held) => World(Some(Config(rules, false, false, held)), w.kernel)
    case Update(rules) => World(Some(w.config.value.(rules := rules)), w.kernel)
    case Delete =>
      var c := w.config.value;
      World(if c.finalizer || c.held then Some(c.(deleting := true)) else None, w.kernel)
    case LetGo =>
      var c := w.config.value;
      World(if c.deleting && !c.finalizer then None else Some(c.(held := false)), w.kernel)
    case Reconciled(env, patched) => Reconcile(env, w, o, enable, patched)
    case CutShort(left) => World(w.config, left)
  }

  ghost predicate IsRun(ws: seq<World>, es: seq<Event>, o: Owner, enable: bool) {
    && |ws| == |es| + 1
    && forall i :: 0 <= i < |es| ==> Possible(ws[i], es[i], enable) && ws[i + 1] == Step(ws[i], es[i], o, enable)
  }

  /** Kernel state exists only under an object that carries the finalizer. */
  ghost predicate Guarded(w: World) { w.kernel == EMPTY || (w.config.Some? && w.config.value.finalizer) }

  lemma {:induction false} StepKeepsGuarded(w: World, e: Event, o: Owner)
    requires Possible(w, e, true) && Guarded(w)
    ensures Guarded(Step(w, e, o, true))
  {}

  /**
  With finalizers enabled, in every run from an empty kernel, the kernel never holds rules or routes of
  an object that is gone or does not carry the finalizer yet.
  */
  lemma {:induction false} GoneMeansFlushed(ws: seq<World>, es: seq<Event>, o: Owner, n: nat)
    requires IsRun(ws, es, o, true) && ws[0].kernel == EMPTY && n < |ws|
    ensures Guarded(ws[n])
    ensures ws[n].config.None? ==> ws[n].kernel == EMPTY
    decreases n
  {
    if n > 0 {
      GoneMeansFlushed(ws, es, o, n - 1);
      StepKeepsGuarded(ws[n - 1], es[n - 1], o);
    }
  }

  /**
  Without finalizers a deleted object leaves its table behind. One more run flushes it exactly when its
  name is one from which its table is guessed, or the table guessed hashes to the same identifier.
  */
  lemma {:induction false} WithoutFinalizerIff(env: Env, w: World, o: Owner, patched: bool)
    requires w.config.Some? && !w.config.value.finalizer && !w.config.value.held && o.table != ""
    ensures var gone := Step(w, Delete, o, false);
            && gone == World(None, w.kernel)
            && (Step(gone, Reconciled(env, patched), o, false).kernel == EMPTY <==>
                  w.kernel == EMPTY || GuessedFrom(o.name, o.table) || Collide(o.ids, GuessedTable(o.name), o.table))
  {
    GuessedIff(o.name, o.table);
  }

  /** One undisturbed run after the deletion flushes the table and lets the object go. */
  lemma {:induction false} DeletionCompletes(env: Env, w: World, o: Owner)
    requires w.config.Some? && w.config.value.deleting && w.config.value.finalizer && o.table != ""
    ensures var after := Step(w, Reconciled(env, true), o, true);
            after.kernel == EMPTY && (after.config.None? <==> !w.config.value.held) &&
                (after.config.Some? ==> !after.config.value.finalizer)
  {}

  /**
  A run changes the object exactly when finalizers are enabled, the update goes through and it is one of a
  live object without or of a deleted one with the finalizer; where an update is due and does not go through,
  or the table has no name, the run fails.
  */
  lemma {:induction false} ObjectChangesIff(env: Env, w: World, o: Owner, enable: bool, patched: bool)
    requires w.config.Some?
    ensures var c, u := w.config.value, Reconcile(env, w, o, enable, patched);
            var due := enable && o.table != "" && (c.deleting <==> c.finalizer);
            && (u.config != w.config <==> due && patched)
            && (due && patched && !c.deleting ==> u.config == Some(c.(finalizer := true)))
            && (due && patched && c.deleting ==> u.config == if c.held then Some(c.(finalizer := false)) else None)
            && (o.table == "" ==> u == w)
            && ((due && !patched) || o.table == "" ==>
                VerdictFor(env, w.config, o, w.kernel, enable, patched) == Failed)
            && (due && patched ==> VerdictFor(env, w.config, o, w.kernel, enable, patched) == Done)
            && (c.deleting && o.table != "" ==> u.kernel == EMPTY)
            && (c.deleting && o.table != "" && !due ==> VerdictFor(env, w.config, o, w.kernel, enable, patched) == Done)
  {}

  /** From the deletion of an object in effect to its end: one run, and whoever else holds it. */
  lemma {:induction false} DeletedAndGone(env: Env, w: World, o: Owner)
    requires w.config.Some? && !w.config.value.deleting && w.config.value.finalizer && o.table != ""
    ensures var deleted := Step(w, Delete, o, true);
            var flushed := Step(deleted, Reconciled(env, true), o, true);
            && deleted == World(Some(w.config.value.(deleting := true)), w.kernel)
            && flushed.kernel == EMPTY && (flushed.config.None? <==> !w.config.value.held)
            && (flushed.config.Some? ==> Step(flushed, LetGo, o, true) == World(None, EMPTY))
    ensures Step(w, LetGo, o, true) == World(Some(w.config.value.(held := false)), w.kernel)
  {}

  /** The run of a live object that carries the finalizer, or needs none, succeeds exactly when its pass does. */
  lemma {:induction false} DoneIff(env: Env, w: World, o: Owner, enable: bool, patched: bool)
    requires w.config.Some? && !w.config.value.deleting && (enable ==> w.config.value.finalizer)
    ensures VerdictFor(env, w.config, o, w.kernel, enable, patched) == Done <==>
            o.table != "" && Pass(env, w.kernel, w.config.value.rules, o.Id()).error.None?
  {}

  /** The kernel does what the object asks, and the object carries the finalizer if that is enabled. */
  ghost predicate InEffect(env: Env, w: World, o: Owner, rules: seq<ApiRule>, enable: bool) {
    && w.config.Some? && w.config.value.rules == rules && !w.config.value.deleting
    && (enable ==> w.config.value.finalizer)
    && ValidTable(w.kernel.routes, o.Id()) && AsWanted(env, w.kernel, rules, o.Id())
  }

  /** One run puts the rules of an object that carries the finalizer, or needs none, into effect. */
  lemma {:induction false} RunPutsIntoEffect(env: Env, w: World, o: Owner, enable: bool, patched: bool)
    requires w.config.Some? && !w.config.value.deleting && (enable ==> w.config.value.finalizer)
    requires ValidTable(w.kernel.routes, o.Id()) && CanSettle(env, w.kernel, w.config.value.rules)
    requires VerdictFor(env, w.config, o, w.kernel, enable, patched) == Done
    ensures InEffect(env, Step(w, Reconciled(env, patched), o, enable), o, w.config.value.rules, enable)
  {
    DoneIff(env, w, o, enable, patched);
    PassConverges(env, w.kernel, w.config.value.rules, o.Id());
  }

  /**
  With finalizers a new object gets its finalizer from the first run whose update goes through, and its
  rules are in effect after the second, if that is done; without them the first run is enough.
  */
  lemma {:induction false} CreatedComesIntoEffect(first: Env, env: Env, w: World, o: Owner, rules: seq<ApiRule>,
                                                  held: bool, patched: bool)
    requires w.config.None? && o.table != ""
    requires ValidTable(w.kernel.routes, o.Id()) && CanSettle(env, w.kernel, rules)
    ensures var created := Step(w, Create(rules, held), o, true);
            var finalized := Step(created, Reconciled(first, true), o, true);
            && finalized == World(Some(Config(rules, false, true, held)), w.kernel)
            && VerdictFor(first, created.config, o, created.kernel, true, true) == Done
            && (VerdictFor(env, finalized.config, o, finalized.kernel, true, patched) == Done ==>
                  InEffect(env, Step(finalized, Reconciled(env, patched), o, true), o, rules, true))
    ensures var created := Step(w, Create(rules, held), o, false);
            VerdictFor(env, created.config, o, created.kernel, false, patched) == Done ==>
              InEffect(env, Step(created, Reconciled(env, patched), o, false), o, rules, false)
  {
    var finalized := World(Some(Config(rules, false, true, held)), w.kernel);
    if VerdictFor(env, finalized.config, o, finalized.kernel, true, patched) == Done {
      RunPutsIntoEffect(env, finalized, o, true, patched);
    }
    var created := World(Some(Config(rules, false, false, held)), w.kernel);
    if VerdictFor(env, created.config, o, created.kernel, false, patched) == Done {
      RunPutsIntoEffect(env, created, o, false, patched);
    }
  }

  /** An edit of an object in effect is in effect after the next run that is done. */
  lemma {:induction false} EditComesIntoEffect(env: Env, w: World, o: Owner, rules: seq<ApiRule>, enable: bool,
                                               patched: bool)
    requires w.config.Some? && !w.config.value.deleting && (enable ==> w.config.value.finalizer)
    requires ValidTable(w.kernel.routes, o.Id()) && CanSettle(env, w.kernel, rules)
    ensures var edited := Step(w, Update(rules), o, enable);
            VerdictFor(env, edited.config, o, edited.kernel, enable, patched) == Done ==>
              InEffect(env, Step(edited, Reconciled(env, patched), o, enable), o, rules, enable)
  {
    var edited := Step(w, Update(rules), o, enable);
    if VerdictFor(env, edited.config, o, edited.kernel, enable, patched) == Done {
      RunPutsIntoEffect(env, edited, o, enable, patched);
    }
  }

  // ----- which errors are tried again

  /** A wanted route names a device that does not exist, on a destination that can be read. */
  predicate DeviceMissing(env: Env, r: ApiRoute) {
    && (r.dst.Some? ==> env.parseCidr(r.dst.value).Some?)
    && ((r.dev.Some? && r.dev.value !in env.links)
        || exists i :: 0 <= i < |r.nextHops| && r.nextHops[i].dev !in env.links)
  }

  /** The route that carries what is asked is to be written, and its gateway cannot be reached. */
  ghost predicate GatewayMissing(env: Env, r: ApiRoute, id: nat, snapshot: Table) {
    exists f :: Asks(env, r, id, f) && !env.reachable(f)
                && !(r.dst.Some? && f.dst in snapshot && IsEqualRoute(f, snapshot[f.dst]))
  }

  /** One wanted route makes the run be tried again in a second exactly when a device or a gateway is missing. */
  lemma {:induction false} RetriedIff(env: Env, t: Table, r: ApiRoute, id: nat, snapshot: Table)
    ensures VerdictOf(EnsureRoute(env, t, r, id, snapshot).error) == Requeue <==>
            DeviceMissing(env, r) || GatewayMissing(env, r, id, snapshot)
  {
    ForgedHops(env, r.nextHops);
    match ForgeRoute(env, r, id)
    case Ok(f) =>
      ForgedIffAsked(env, r, id, f);
      forall g | Asks(env, r, id, g) ensures g == f { ForgedIffAsked(env, r, id, g); }
    case Err(_) =>
      forall g ensures !Asks(env, r, id, g) { ForgedIffAsked(env, r, id, g); }
  }

  /** A pass over the routes ends with the first error, that of the route it got to. */
  lemma {:induction false} FirstErrorEnds(env: Env, t: Table, routes: seq<ApiRoute>, id: nat, snapshot: Table)
    returns (i: nat)
    requires EnsureRoutes(env, t, routes, id, snapshot).error.Some?
    ensures i < |routes|
    ensures var before := EnsureRoutes(env, t, routes[..i], id, snapshot);
            && before.error.None?
            && EnsureRoutes(env, t, routes, id, snapshot).error ==
                 EnsureRoute(env, before.state, routes[i], id, snapshot).error
    decreases |routes|
  {
    var o := EnsureRoute(env, t, routes[0], id, snapshot);
    if o.error.Some? {
      i := 0;
    } else {
      var k := FirstErrorEnds(env, o.state, routes[1..], id, snapshot);
      i := k + 1;
      assert routes[..i][0] == routes[0] && routes[..i][1..] == routes[1..][..k];
    }
  }

  // ----- the tables of other objects

  /** The kernel, by table identifier, after a run for a name that no object has. */
  ghost function FlushGuessed(kernel: nat -> State, ids: string -> nat, name: string): nat -> State {
    var id := TableID(ids, GuessedTable(name));
    (k: nat) => if id == Some(k) then EMPTY else kernel(k)
  }

  /**
  A run for the name of an object that is gone, or never was, flushes the table of another object exactly
  when that table is guessed from the name, or the table guessed hashes to the same identifier.
  */
  lemma {:induction false} FlushesAnotherIff(kernel: nat -> State, ids: string -> nat, name: string, table: string)
    requires table != ""
    ensures FlushGuessed(kernel, ids, name)(ids(table)) == EMPTY <==>
            kernel(ids(table)) == EMPTY || GuessedFrom(name, table) || Collide(ids, GuessedTable(name), table)
  {
    GuessedIff(name, table);
  }

  /**
  So deleting the object of a node called like the object of a remote cluster, whose table is the name
  of the node, leaves its own table and flushes that of the remote cluster, which is in use.
  */
  lemma {:induction false} NodeFlushesRemote(kernel: nat -> State, ids: string -> nat, remote: string)
    requires remote != "" && ids(remote) != ids(remote + GW_EXT)
    ensures var node := remote + GW_EXT;
            var after := FlushGuessed(kernel, ids, node + GW_NODE);
            after(ids(remote)) == EMPTY && after(ids(node)) == kernel(ids(node)) &&
                GuessedTable(remote + GW_EXT) == remote
  {
    GuessedIff(remote + GW_EXT + GW_NODE, remote);
    GuessedIff(remote + GW_EXT, remote);
  }
}
