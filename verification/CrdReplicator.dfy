/**
The reflectors of the CRD replicator (internal/crdReplicator/crdReplicator-operator.go): one for each
remote cluster with a control plane secret, set up under the finalizer of the secret, replaced when the
secret changes and stopped before the finalizer goes.
*/
module CrdReplicator {
  /** `valid` sums up the checks on labels and annotations, `held` the finalizers of others. */
  datatype Secret = Secret(cluster: string, localNs: string, remoteNs: string, hash: string, valid: bool,
                           deleting: bool, finalizer: bool, held: bool)

  datatype Reflector = Reflector(localNs: string, remoteNs: string, hash: string, started: set<string>)

  datatype World = World(secrets: map<string, Secret>, reflectors: map<string, Reflector>)

  /**
  Which of the calls that may fail succeed: the two ways to stop a reflector, the update of the secret,
  reading the configuration, creating the client.
  */
  datatype Luck = Luck(stops: bool, forced: bool, patches: bool, configs: bool, connects: bool)

  /** Some secret of the cluster carries the finalizer. */
  predicate Guarded(secrets: map<string, Secret>, cluster: string) {
    exists n <- secrets :: secrets[n].cluster == cluster && secrets[n].finalizer
  }

  /** A reflector exists only under the finalizer of a secret of its cluster. */
  predicate Gated(w: World) { forall c <- w.reflectors :: Guarded(w.secrets, c) }

  /** The lookup by cluster finds one secret. */
  predicate Unique(secrets: map<string, Secret>, name: string)
    requires name in secrets
  {
    forall n <- secrets :: secrets[n].cluster == secrets[name].cluster ==> n == name
  }

  predicate UpToDate(r: Reflector, s: Secret) { r.hash == s.hash && r.remoteNs == s.remoteNs }

  /** The finalizer is removed, and with it the secret if nobody else holds it. */
  function Unfinalized(w: World, name: string): World
    requires name in w.secrets
  {
    if w.secrets[name].held then w.(secrets := w.secrets[name := w.secrets[name].(finalizer := false)])
        else w.(secrets := w.secrets - {name})
  }

  function Stopped(w: World, cluster: string): World { w.(reflectors := w.reflectors - {cluster}) }

  /** The reflector is replaced if it is out of date; the flag says whether the run goes on to the resources. */
  function Refreshed(w: World, name: string, luck: Luck): (World, bool)
    requires name in w.secrets
  {
    var s := w.secrets[name];
    if s.cluster in w.reflectors && UpToDate(w.reflectors[s.cluster], s) then (w, true)
    else if s.cluster in w.reflectors && !luck.forced then (w, false)
    else if !Unique(w.secrets, name) || !luck.configs then (Stopped(w, s.cluster), true)
    else if !luck.connects then (Stopped(w, s.cluster), false)
    else (w.(reflectors := w.reflectors[s.cluster := Reflector(s.localNs, s.remoteNs, s.hash, {})]), true)
  }

  /** `enforceReflectionStatus` for a secret that is not being deleted. */
  function Enforced(w: World, cluster: string, resources: set<string>): World {
    if cluster in w.reflectors then
        w.(reflectors := w.reflectors[cluster := w.reflectors[cluster].(started := w.reflectors[cluster].started +
            resources)]) else w
  }

  /** One run of the reconciler. The API server refuses new finalizers on an object that is being deleted. */
  function AfterRun(w: World, name: string, resources: set<string>, luck: Luck): World {
    if name !in w.secrets || !w.secrets[name].valid then w
    else
      var s := w.secrets[name];
      if s.deleting && s.finalizer then
        if s.cluster in w.reflectors && !luck.stops then w
        else if !luck.patches then Stopped(w, s.cluster)
        else Unfinalized(Stopped(w, s.cluster), name)
      else if !s.finalizer && (s.deleting || !luck.patches) then w
      else
        var (r, goesOn) := Refreshed(w.(secrets := w.secrets[name := s.(finalizer := true)]), name, luck);
        if goesOn then Enforced(r, s.cluster, resources) else r
  }

  // ----- every run

  datatype Event =
    | Create(name: string, secret: Secret)
    | Edit(edited: string, cluster: string, hash: string, remoteNs: string, valid: bool)
    | Delete(deleted: string)
    | LetGo(letGo: string)
    | Reconciled(reconciled: string, luck: Luck)
    | Restart

  predicate Possible(w: World, e: Event) {
    match e
    case Create(n, s) => n !in w.secrets && !s.deleting && !s.finalizer
    case Edit(n, _, _, _, _) => n in w.secrets
    case Delete(n) => n in w.secrets
    case LetGo(n) => n in w.secrets
    case Reconciled(_, _) => true
    case Restart => true
  }

  /** Labels, annotations and content changed by a user. */
  function Edited(s: Secret, cluster: string, hash: string, remoteNs: string, valid: bool): Secret {
    s.(cluster := cluster, hash := hash, remoteNs := remoteNs, valid := valid)
  }

  /**
  A secret is moved to another cluster only when its present one has no reflector or another secret that
  guards it.
  */
  predicate SafeEdit(w: World, e: Event) {
    e.Edit? && e.edited in w.secrets ==>
      var s := w.secrets[e.edited];
      || e.cluster == s.cluster || !s.finalizer || s.cluster !in w.reflectors
      || Guarded(w.secrets - {e.edited}, s.cluster)
  }

  function Step(w: World, e: Event, resources: set<string>): World
    requires Possible(w, e)
  {
    match e
    case Create(n, s) => w.(secrets := w.secrets[n := s])
    case Edit(n, cluster, hash, remoteNs, valid) =>
      w.(secrets := w.secrets[n := Edited(w.secrets[n], cluster, hash, remoteNs, valid)])
    case Delete(n) =>
      var s := w.secrets[n];
      if s.finalizer || s.held then w.(secrets := w.secrets[n := s.(deleting := true)])
          else w.(secrets := w.secrets - {n})
    case LetGo(n) =>
      var s := w.secrets[n];
      if s.deleting && !s.finalizer then w.(secrets := w.secrets - {n})
          else w.(secrets := w.secrets[n := s.(held := false)])
    case Reconciled(n, luck) => AfterRun(w, n, resources, luck)
    case Restart => w.(reflectors := map[])
  }

  lemma {:induction false} SecretChangeKeeps(w: World, n: string, s: Secret)
    requires Gated(w)
    requires (n in w.secrets ==> s.cluster == w.secrets[n].cluster && (w.secrets[n].finalizer ==> s.finalizer))
    ensures Gated(w.(secrets := w.secrets[n := s]))
  {
    var u := w.(secrets := w.secrets[n := s]);
    forall c <- w.reflectors ensures Guarded(u.secrets, c) {
      var m :| m in w.secrets && w.secrets[m].cluster == c && w.secrets[m].finalizer;
      assert u.secrets[m].cluster == c && u.secrets[m].finalizer;
    }
  }

  lemma {:induction false} SecretGoneKeeps(w: World, n: string)
    requires Gated(w) && n in w.secrets && (w.secrets[n].finalizer ==> w.secrets[n].cluster !in w.reflectors)
    ensures Gated(w.(secrets := w.secrets - {n}))
    ensures Gated(w.(secrets := w.secrets[n := w.secrets[n].(finalizer := false)]))
  {
    var u, v := w.secrets - {n}, w.secrets[n := w.secrets[n].(finalizer := false)];
    forall c <- w.reflectors ensures Guarded(u, c) && Guarded(v, c) {
      var m :| m in w.secrets && w.secrets[m].cluster == c && w.secrets[m].finalizer;
      assert m != n && u[m] == w.secrets[m] && v[m] == w.secrets[m];
    }
  }

  lemma {:induction false} ReflectorChangeKeeps(w: World, cluster: string, r: Reflector)
    requires Gated(w) && Guarded(w.secrets, cluster)
    ensures Gated(w.(reflectors := w.reflectors[cluster := r])) && Gated(Stopped(w, cluster))
  {}

  lemma {:induction false} ReconcileKeepsGated(w: World, name: string, resources: set<string>, luck: Luck)
    requires Gated(w)
    ensures Gated(AfterRun(w, name, resources, luck))
  {
    if name in w.secrets && w.secrets[name].valid {
      var s := w.secrets[name];
      if s.deleting && s.finalizer {
        SecretGoneKeeps(Stopped(w, s.cluster), name);
      } else if s.finalizer || (!s.deleting && luck.patches) {
        SecretChangeKeeps(w, name, s.(finalizer := true));
        var v := w.(secrets := w.secrets[name := s.(finalizer := true)]);
        assert v.secrets[name].cluster == s.cluster && Guarded(v.secrets, s.cluster);
        RefreshKeepsGated(v, name, luck);
        var (r, goesOn) := Refreshed(v, name, luck);
        if s.cluster in r.reflectors {
          ReflectorChangeKeeps(r, s.cluster, r.reflectors[s.cluster].(started := r.reflectors[s.cluster].started +
                                                                      resources));
        }
      }
    }
  }

  lemma {:induction false} RefreshKeepsGated(w: World, name: string, luck: Luck)
    requires Gated(w) && name in w.secrets && Guarded(w.secrets, w.secrets[name].cluster)
    ensures Gated(Refreshed(w, name, luck).0) && Refreshed(w, name, luck).0.secrets == w.secrets
  {}

  ghost predicate IsRun(ws: seq<World>, es: seq<Event>, resources: set<string>) {
    |ws| == |es| + 1 && forall i :: 0 <= i < |es| ==>
        Possible(ws[i], es[i]) && ws[i + 1] == Step(ws[i], es[i], resources)
  }

  /** Editing a secret keeps every reflector guarded exactly when the edit is safe. */
  lemma {:induction false} EditKeepsGatedIff(w: World, e: Event, resources: set<string>)
    requires e.Edit? && Possible(w, e) && Gated(w)
    ensures Gated(Step(w, e, resources)) <==> SafeEdit(w, e)
  {
    var n, s, u := e.edited, w.secrets[e.edited], Step(w, e, resources);
    if SafeEdit(w, e) {
      forall c <- w.reflectors ensures Guarded(u.secrets, c) { EditKeepsGuard(w, e, resources, c); }
    } else {
      forall m <- u.secrets ensures !(u.secrets[m].cluster == s.cluster && u.secrets[m].finalizer) {
        assert m == n || (m in w.secrets - {n} && (w.secrets - {n})[m] == u.secrets[m]);
      }
      assert !Guarded(u.secrets, s.cluster);
    }
  }

  lemma {:induction false} EditKeepsGuard(w: World, e: Event, resources: set<string>, c: string)
    requires e.Edit? && Possible(w, e) && SafeEdit(w, e) && c in w.reflectors && Guarded(w.secrets, c)
    ensures Guarded(Step(w, e, resources).secrets, c)
  {
    var n, u := e.edited, Step(w, e, resources).secrets;
    var m :| m in w.secrets && w.secrets[m].cluster == c && w.secrets[m].finalizer;
    if m != n {
      assert u[m] == w.secrets[m];
    } else if e.cluster == c {
      assert u[n].cluster == c && u[n].finalizer;
    } else {
      var k :| k in w.secrets - {n} && (w.secrets - {n})[k].cluster == c && (w.secrets - {n})[k].finalizer;
      assert u[k] == w.secrets[k];
    }
  }

  /**
  A run for a secret of another cluster leaves the reflector alone, so nothing stops one that lost its
  last secret.
  */
  lemma {:induction false} OtherReflectorsUntouched(w: World, name: string, resources: set<string>, luck: Luck,
                                                    c: string)
    requires name in w.secrets ==> w.secrets[name].cluster != c
    ensures var u := AfterRun(w, name, resources, luck);
            (c in u.reflectors <==> c in w.reflectors) && (c in w.reflectors ==> u.reflectors[c] == w.reflectors[c])
  {}

  lemma {:induction false} StepKeepsGated(w: World, e: Event, resources: set<string>)
    requires Possible(w, e) && Gated(w) && SafeEdit(w, e)
    ensures Gated(Step(w, e, resources))
  {
    match e
    case Create(n, s) => SecretChangeKeeps(w, n, s);
    case Edit(_, _, _, _, _) => EditKeepsGatedIff(w, e, resources);
    case Delete(n) =>
      if w.secrets[n].finalizer || w.secrets[n].held {
        SecretChangeKeeps(w, n, w.secrets[n].(deleting := true));
      } else {
        SecretGoneKeeps(w, n);
      }
    case LetGo(n) =>
      if w.secrets[n].deleting && !w.secrets[n].finalizer {
        SecretGoneKeeps(w, n);
      } else {
        SecretChangeKeeps(w, n, w.secrets[n].(held := false));
      }
    case Reconciled(n, luck) => ReconcileKeepsGated(w, n, resources, luck);
    case Restart =>
  }

  /**
  Over every run, whatever calls fail, a cluster has a reflector only while a secret of it carries the
  finalizer, as long as no secret is moved away from under the reflector that it guards.
  */
  lemma {:induction false} AlwaysGated(ws: seq<World>, es: seq<Event>, resources: set<string>, n: nat)
    requires IsRun(ws, es, resources) && ws[0].reflectors == map[] && n < |ws|
    requires forall i :: 0 <= i < |es| ==> SafeEdit(ws[i], es[i])
    ensures Gated(ws[n])
    decreases n
  {
    if n > 0 {
      AlwaysGated(ws, es, resources, n - 1);
      StepKeepsGated(ws[n - 1], es[n - 1], resources);
    }
  }

  const LUCKY := Luck(true, true, true, true, true)

  /**
  A run without failures leaves a live secret that is alone for its cluster with a reflector for its
  present content and all resources started, and the next run changes nothing.
  */
  lemma {:induction false} ReflectorFollowsSecret(w: World, name: string, resources: set<string>)
    requires name in w.secrets && w.secrets[name].valid && !w.secrets[name].deleting && Unique(w.secrets, name)
    ensures var u := AfterRun(w, name, resources, LUCKY);
            var c := w.secrets[name].cluster;
            && c in u.reflectors && resources <= u.reflectors[c].started
            && u.reflectors[c].hash == w.secrets[name].hash && u.reflectors[c].remoteNs == w.secrets[name].remoteNs
            && (c !in w.reflectors || w.reflectors[c].hash != w.secrets[name].hash
                || w.reflectors[c].remoteNs != w.secrets[name].remoteNs ==>
                  u.reflectors[c] == Reflector(w.secrets[name].localNs, w.secrets[name].remoteNs, w.secrets[name].hash,
                                               resources))
            && u.secrets == w.secrets[name := w.secrets[name].(finalizer := true)]
            && AfterRun(u, name, resources, LUCKY) == u
  {
    var u, s := AfterRun(w, name, resources, LUCKY), w.secrets[name].(finalizer := true);
    assert u.secrets == w.secrets[name := s];
    assert u.secrets[name := s] == u.secrets;
    var r := u.reflectors[s.cluster];
    assert r.started + resources == r.started;
    assert u.reflectors[s.cluster := r] == u.reflectors;
  }

  /** Another secret names the same cluster. */
  predicate Contested(secrets: map<string, Secret>, name: string)
    requires name in secrets
  {
    exists n <- secrets :: n != name && secrets[n].cluster == secrets[name].cluster
  }

  /** The reflector of the cluster is for the present content of the secret. */
  predicate Reflects(w: World, s: Secret) {
    s.cluster in w.reflectors && w.reflectors[s.cluster].hash == s.hash &&
        w.reflectors[s.cluster].remoteNs == s.remoteNs
  }

  /**
  After a run for a live secret that can carry the finalizer, its cluster has a reflector for it exactly when
  it had one or a new one could be set up, which takes a secret alone for its cluster; an old one that does
  not stop stays as it was, and otherwise there is none.
  */
  lemma {:induction false} LiveRunExact(w: World, name: string, resources: set<string>, luck: Luck)
    requires name in w.secrets && w.secrets[name].valid && !w.secrets[name].deleting
    requires w.secrets[name].finalizer || luck.patches
    ensures var s, u := w.secrets[name], AfterRun(w, name, resources, luck);
            var stuck := s.cluster in w.reflectors && !Reflects(w, s) && !luck.forced;
            && (Reflects(u, s) <==>
                  Reflects(w, s) || (!stuck && !Contested(w.secrets, name) && luck.configs && luck.connects))
            && (Reflects(u, s) ==> resources <= u.reflectors[s.cluster].started)
            && (Reflects(w, s) ==> w.reflectors[s.cluster].started <= u.reflectors[s.cluster].started)
            && (stuck ==> u.reflectors == w.reflectors)
            && (!stuck && !Reflects(u, s) ==> s.cluster !in u.reflectors)
            && u.secrets == w.secrets[name := s.(finalizer := true)]
  {
    var s := w.secrets[name];
    var v := w.(secrets := w.secrets[name := s.(finalizer := true)]);
    assert Contested(w.secrets, name) <==> !Unique(v.secrets, name) by {
      if n :| n in w.secrets && n != name && w.secrets[n].cluster == s.cluster {
        assert v.secrets[n].cluster == s.cluster;
      }
    }
  }

  /** Nothing happens for a secret that is missing, not valid, or cannot be given the finalizer. */
  lemma {:induction false} IdleRunExact(w: World, name: string, resources: set<string>, luck: Luck)
    requires name !in w.secrets || !w.secrets[name].valid
             || (!w.secrets[name].finalizer && (w.secrets[name].deleting || !luck.patches))
    ensures AfterRun(w, name, resources, luck) == w
  {}

  /**
  A run for a secret under deletion stops the reflector first: if that fails nothing changes, and the
  finalizer goes only with an update that goes through, and with it the secret if nobody else holds it.
  */
  lemma {:induction false} DeletionExact(w: World, name: string, resources: set<string>, luck: Luck)
    requires name in w.secrets && w.secrets[name].valid && w.secrets[name].deleting && w.secrets[name].finalizer
    ensures var s, u := w.secrets[name], AfterRun(w, name, resources, luck);
            var fails := s.cluster in w.reflectors && !luck.stops;
            && (fails ==> u == w)
            && (!fails ==> s.cluster !in u.reflectors && u.reflectors == w.reflectors - {s.cluster})
            && (name in u.secrets <==> fails || !luck.patches || s.held)
            && (name in u.secrets ==> u.secrets[name] == s.(finalizer := fails || !luck.patches))
            && (forall n <- w.secrets :: n != name ==> n in u.secrets && u.secrets[n] == w.secrets[n])
  {}

  /** Under deletion the resources are stopped exactly when each one that was started does stop. */
  lemma {:induction false} WithdrawnExact(w: World, cluster: string, resources: seq<string>, stops: string -> bool)
    ensures var (u, ok) := Withdrawn(w, cluster, resources, stops);
            && u.secrets == w.secrets && u.reflectors.Keys == w.reflectors.Keys
            && (cluster !in w.reflectors ==> ok)
            && (cluster in w.reflectors ==>
                  && (ok <==> forall r :: r in resources && r in w.reflectors[cluster].started ==> stops(r))
                  && (ok ==> u.reflectors[cluster].started == w.reflectors[cluster].started - SetOf(resources)))
            && (forall c <- w.reflectors :: c != cluster ==> u.reflectors[c] == w.reflectors[c])
  {
    if cluster in w.reflectors { UnstartedExact(w.reflectors[cluster].started, resources, stops); }
  }

  // ----- the controller

  function SetOf(rs: seq<string>): set<string> { set r | r in rs }

  /** What is still started after stopping the resources one by one until one does not stop. */
  function Unstarted(started: set<string>, rs: seq<string>, stops: string -> bool): (set<string>, bool) {
    if rs == [] then (started, true)
    else if rs[0] in started && !stops(rs[0]) then (started, false)
    else Unstarted(started - {rs[0]}, rs[1..], stops)
  }

  /** All of them are stopped exactly when every one that was started does stop. */
  lemma {:induction false} UnstartedExact(started: set<string>, rs: seq<string>, stops: string -> bool)
    ensures var (left, ok) := Unstarted(started, rs, stops);
            && (ok <==> forall r :: r in rs && r in started ==> stops(r))
            && (ok ==> left == started - SetOf(rs)) && left <= started && started - SetOf(rs) <= left
  {
    if rs != [] && !(rs[0] in started && !stops(rs[0])) {
      UnstartedExact(started - {rs[0]}, rs[1..], stops);
      assert rs == [rs[0]] + rs[1..];
      assert SetOf(rs) == {rs[0]} + SetOf(rs[1..]);
    }
  }

  /** `enforceReflectionStatus` for a secret that is being deleted. */
  function Withdrawn(w: World, cluster: string, resources: seq<string>, stops: string -> bool): (World, bool) {
    if cluster !in w.reflectors then (w, true)
    else
      var r := w.reflectors[cluster];
      var (left, ok) := Unstarted(r.started, resources, stops);
      (w.(reflectors := w.reflectors[cluster := r.(started := left)]), ok)
  }

  class Controller {
    var secrets: map<string, Secret>
    var reflectors: map<string, Reflector>

    constructor (s: map<string, Secret>)
      ensures secrets == s && reflectors == map[]
    {
      secrets, reflectors := s, map[];
    }

    function Snapshot(): World reads this { World(secrets, reflectors) }

    /** `stopReflector`; `stops` says whether the reflector agrees to stop. */
    method StopReflector(cluster: string, stops: bool) returns (ok: bool)
      modifies `reflectors
      ensures ok == (stops || cluster !in old(reflectors))
      ensures Snapshot() == if ok then Stopped(old(Snapshot()), cluster) else old(Snapshot())
    {
      if cluster in reflectors {
        if !stops { return false; }
        reflectors := reflectors - {cluster};
      }
      ok := true;
      assert cluster !in old(reflectors) ==> reflectors - {cluster} == reflectors;
    }

    /** `enforceReflectionStatus`: what is not started yet is started or, under deletion, what is started is stopped. */
    method EnforceReflectionStatus(cluster: string, resources: seq<string>, deleting: bool, stops: string -> bool)
      returns (ok: bool)
      modifies `reflectors
      ensures !deleting ==> ok && Snapshot() == Enforced(old(Snapshot()), cluster, SetOf(resources))
      ensures deleting ==> (Snapshot(), ok) == Withdrawn(old(Snapshot()), cluster, resources, stops)
    {
      if cluster !in reflectors { return true; }
      if deleting {
        ok := StopResources(cluster, resources, stops);
      } else {
        StartResources(cluster, resources);
        ok := true;
      }
    }

    method StopResources(cluster: string, resources: seq<string>, stops: string -> bool) returns (ok: bool)
      requires cluster in reflectors
      modifies `reflectors
      ensures (Snapshot(), ok) == Withdrawn(old(Snapshot()), cluster, resources, stops)
    {
      var r, i := reflectors[cluster], 0;
      var started := r.started;
      while i < |resources|
        invariant i <= |resources|
        invariant Unstarted(started, resources[i..], stops) == Unstarted(r.started, resources, stops)
      {
        assert resources[i..][0] == resources[i] && resources[i..][1..] == resources[i + 1..];
        if resources[i] in started {
          if !stops(resources[i]) {
            reflectors := reflectors[cluster := r.(started := started)];
            return false;
          }
          started := started - {resources[i]};
        } else {
          assert started - {resources[i]} == started;
        }
        i := i + 1;
      }
      reflectors := reflectors[cluster := r.(started := started)];
      ok := true;
    }

    method StartResources(cluster: string, resources: seq<string>)
      requires cluster in reflectors
      modifies `reflectors
      ensures Snapshot() == Enforced(old(Snapshot()), cluster, SetOf(resources))
    {
      ghost var r := reflectors[cluster];
      var i := 0;
      assert r.started + SetOf(resources[..0]) == r.started && reflectors[cluster := r] == reflectors;
      while i < |resources|
        invariant i <= |resources| && cluster in reflectors
        invariant reflectors == old(reflectors)[cluster := r.(started := r.started + SetOf(resources[..i]))]
      {
        assert SetOf(resources[..i + 1]) == SetOf(resources[..i]) + {resources[i]};
        var started := reflectors[cluster].started;
        if resources[i] !in started {
          reflectors := reflectors[cluster := reflectors[cluster].(started := started + {resources[i]})];
        }
        assert reflectors[cluster].started == r.started + SetOf(resources[..i + 1]);
        i := i + 1;
      }
      assert resources[..i] == resources;
    }

    method Refresh(name: string, luck: Luck) returns (goesOn: bool)
      requires name in secrets
      modifies `reflectors
      ensures (Snapshot(), goesOn) == Refreshed(old(Snapshot()), name, luck)
    {
      var s := secrets[name];
      if s.cluster in reflectors {
        if UpToDate(reflectors[s.cluster], s) { return true; }
        var ok := StopReflector(s.cluster, luck.forced);
        if !ok { return false; }
      } else {
        assert reflectors - {s.cluster} == reflectors;
      }
      if !Unique(secrets, name) || !luck.configs { return true; }
      if !luck.connects { return false; }
      reflectors := reflectors[s.cluster := Reflector(s.localNs, s.remoteNs, s.hash, {})];
      assert reflectors == old(reflectors)[s.cluster := Reflector(s.localNs, s.remoteNs, s.hash, {})];
      goesOn := true;
    }

    method Reconcile(name: string, resources: seq<string>, luck: Luck)
      modifies this
      ensures Snapshot() == AfterRun(old(Snapshot()), name, SetOf(resources), luck)
    {
      if name !in secrets || !secrets[name].valid { return; }
      var s := secrets[name];
      if s.deleting && s.finalizer {
        var ok := StopReflector(s.cluster, luck.stops);
        if !ok { return; }
        if luck.patches { secrets := if s.held then secrets[name := s.(finalizer := false)] else secrets - {name}; }
        return;
      }
      if !s.finalizer && (s.deleting || !luck.patches) { return; }
      secrets := secrets[name := s.(finalizer := true)];
      var goesOn := Refresh(name, luck);
      if goesOn { var ok := EnforceReflectionStatus(s.cluster, resources, false, _ => true); }
    }
  }
}
