/**
The life of a FirewallConfiguration and of its nftables table: users create, change and delete the
object, the reconciler runs at any time and may be cut short after any call, and the finalizer keeps the
object until the table is gone (Reconcile in pkg/firewall/firewallconfiguration_controller.go).
*/
module FirewallLifecycle {
  import opened Wrappers
  import opened FirewallRules
  import opened Firewall
  import opened FirewallStaging

  /** `finalizer` is the controller's own, `held` stands for the finalizers of others. */
  datatype Config = Config(chains: seq<Chain>, deleting: bool, finalizer: bool, held: bool)

  /** The object, the table in the kernel and the table with what is still in the connection. */
  datatype World = World(config: Option<Config>, table: Table, staged: Table)

  function Released(c: Config): Option<Config> {
    if c.deleting && !c.held then None else Some(c.(finalizer := false))
  }

  /** The run gets to apply the configuration. */
  predicate Applies(c: Config, enable: bool) { if enable then !c.deleting && c.finalizer else true }

  /** What one run does: the object and the table exactly, the connection as far as it matters. */
  ghost predicate Matches(keep: seq<Expr> -> seq<Expr>, w: World, u: World, enable: bool, patched: bool, first: bool,
                          second: bool) {
    match w.config
    case None => u == w
    case Some(c) =>
      if Applies(c, enable) then
        && u.config == w.config && LeftByAttempt(u.table, u.staged, c.chains)
        && Extends(w.table, w.staged)
        && var kept := CleanStaged(w.table, w.staged, c.chains);
        && ChainNamesDistinct(c.chains)
        && u.table == if !first then w.table else if second && CanAdd(keep, kept, c.chains) then
             AddAll(keep, kept, c.chains) else kept
      else if !c.deleting then
        u == w.(config := if patched then Some(c.(finalizer := true)) else w.config)
      else if !c.finalizer then u == w
      else
        && u.staged == u.table && u.table == (if first then map[] else w.table)
        && u.config == if first && patched then Released(c) else w.config
  }

  /** The run commits the configuration. */
  ghost predicate Commits(keep: seq<Expr> -> seq<Expr>, w: World, enable: bool, first: bool, second: bool)
    requires Extends(w.table, w.staged)
  {
    w.config.Some? && Applies(w.config.value, enable) && first && second &&
        CanAdd(keep, CleanStaged(w.table, w.staged, w.config.value.chains), w.config.value.chains)
  }

  /** The run commits the configuration and a notrack rule that was not there. */
  ghost predicate Evicts(keep: seq<Expr> -> seq<Expr>, w: World, enable: bool, first: bool, second: bool)
    requires Extends(w.table, w.staged)
  {
    Commits(keep, w, enable, first, second) &&
        NotrackApplied(CleanStaged(w.table, w.staged, w.config.value.chains), w.config.value.chains)
  }

  datatype Event =
    | Create(chains: seq<Chain>, held: bool)
    | Update(newChains: seq<Chain>)
    | Delete
    | LetGo
    | Reconciled(patched: bool, first: bool, second: bool)
    | CutShort

  /** A step with finalizers enabled; a run cut short leaves anything behind, but only where it may act. */
  ghost predicate Step(keep: seq<Expr> -> seq<Expr>, w: World, e: Event, u: World) {
    match e
    case Create(chains, held) => w.config.None? && u == w.(config := Some(Config(chains, false, false, held)))
    case Update(chains) => w.config.Some? && u == w.(config := Some(w.config.value.(chains := chains)))
    case Delete =>
      w.config.Some? && var c := w.config.value;
      u == w.(config := if c.finalizer || c.held then Some(c.(deleting := true)) else None)
    case LetGo =>
      w.config.Some? && var c := w.config.value;
      u == w.(config := if c.deleting && !c.finalizer then None else Some(c.(held := false)))
    case Reconciled(patched, first, second) => Matches(keep, w, u, true, patched, first, second)
    case CutShort => w.config.Some? && w.config.value.finalizer && u.config == w.config
  }

  ghost predicate IsRun(keep: seq<Expr> -> seq<Expr>, ws: seq<World>, es: seq<Event>) {
    |ws| == |es| + 1 && forall i :: 0 <= i < |es| ==> Step(keep, ws[i], es[i], ws[i + 1])
  }

  /** Chains exist, in the kernel or on their way there, only under an object that carries the finalizer. */
  predicate Guarded(w: World) {
    (w.table == map[] && w.staged == map[]) || (w.config.Some? && w.config.value.finalizer)
  }

  lemma {:induction false} StepKeepsGuarded(keep: seq<Expr> -> seq<Expr>, w: World, e: Event, u: World)
    requires Step(keep, w, e, u) && Guarded(w)
    ensures Guarded(u)
  {}

  /**
  With finalizers enabled, in every run that starts without the table, whatever calls fail, the kernel
  has chains of the object only while the object exists and carries the finalizer.
  */
  lemma {:induction false} GoneMeansDeleted(keep: seq<Expr> -> seq<Expr>, ws: seq<World>, es: seq<Event>, n: nat)
    requires IsRun(keep, ws, es) && ws[0].table == map[] && ws[0].staged == map[] && n < |ws|
    ensures Guarded(ws[n])
    ensures ws[n].config.None? ==> ws[n].table == map[]
    decreases n
  {
    if n > 0 {
      GoneMeansDeleted(keep, ws, es, n - 1);
      StepKeepsGuarded(keep, ws[n - 1], es[n - 1], ws[n]);
    }
  }

  /** The table does what the object asks, with nothing left in the connection. */
  ghost predicate InEffect(w: World, chains: seq<Chain>, enable: bool) {
    && w.config.Some? && w.config.value.chains == chains && !w.config.value.deleting
    && (enable ==> w.config.value.finalizer) && Settled(w.table, chains)
  }

  /**
  One run whose transactions go through puts the chains of an object that carries the finalizer, or needs
  none, into effect exactly when what earlier attempts left fits and no chain hooks ingress.
  */
  lemma {:induction false} RunPutsIntoEffectIff(keep: seq<Expr> -> seq<Expr>, w: World, u: World, enable: bool,
                                                patched: bool)
    requires w.config.Some? && !w.config.value.deleting && (enable ==> w.config.value.finalizer)
    requires Admitted(w.config.value.chains) && Preserves(keep) && Matches(keep, w, u, enable, patched, true, true)
    requires Commits(keep, w, enable, true, true)
    ensures InEffect(u, w.config.value.chains, enable) <==>
            LeftoversFit(w.table, w.staged, w.config.value.chains) && NoIngress(w.config.value.chains)
  {
    RetrySettlesIff(keep, w.table, w.staged, w.config.value.chains);
  }

  /**
  With finalizers a new object gets its finalizer from the first run whose update goes through, and its
  chains are in effect after the second, if that commits and unless one hooks ingress; without them the first
  run is enough.
  */
  lemma {:induction false} CreatedComesIntoEffect(keep: seq<Expr> -> seq<Expr>, ws: seq<World>, chains: seq<Chain>,
                                                  held: bool, patched: bool, first: bool, second: bool)
    requires |ws| == 4 && Admitted(chains) && Preserves(keep)
    requires ws[0].table == ws[0].staged && Step(keep, ws[0], Create(chains, held), ws[1])
    requires Step(keep, ws[1], Reconciled(true, first, second), ws[2])
    requires Step(keep, ws[2], Reconciled(patched, true, true), ws[3])
    ensures ws[2] == ws[0].(config := Some(Config(chains, false, true, held)))
    ensures CanAdd(keep, CleanTable(ws[0].table, chains), chains) ==>
              (InEffect(ws[3], chains, true) <==> NoIngress(chains))
  {
    NothingStaged(ws[0].table, chains);
    if CanAdd(keep, CleanTable(ws[0].table, chains), chains) {
      RunPutsIntoEffectIff(keep, ws[2], ws[3], true, patched);
    }
  }

  lemma {:induction false} CreatedWithoutFinalizer(keep: seq<Expr> -> seq<Expr>, w: World, u: World,
                                                   chains: seq<Chain>, held: bool, patched: bool)
    requires w.config == Some(Config(chains, false, false, held)) && w.table == w.staged
    requires Admitted(chains) && Preserves(keep) && Matches(keep, w, u, false, patched, true, true)
    ensures CanAdd(keep, CleanTable(w.table, chains), chains) ==> (InEffect(u, chains, false) <==> NoIngress(chains))
  {
    NothingStaged(w.table, chains);
    if CanAdd(keep, CleanTable(w.table, chains), chains) { RunPutsIntoEffectIff(keep, w, u, false, patched); }
  }

  /** One run whose calls go through deletes the table and lets a deleted object go. */
  lemma {:induction false} DeletionCompletes(keep: seq<Expr> -> seq<Expr>, w: World, u: World, second: bool)
    requires w.config.Some? && w.config.value.deleting && w.config.value.finalizer
    requires Step(keep, w, Reconciled(true, true, second), u)
    ensures u.table == map[] && u.staged == map[] && (u.config.None? <==> !w.config.value.held)
    ensures u.config.Some? ==> !u.config.value.finalizer
  {}
}
