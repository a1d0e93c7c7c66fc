/**
The connection checker as a state machine (pkg/conncheck/conncheck.go and receiver.go). Threads add,
run and stop senders, receive PONGs and sweep for silent peers; `sm` guards the senders and `m` the
peers. One step takes a lock, or does what is done under it and lets it go, or does something without
locks. A lock is held exactly while some thread is at a place where it holds it.
*/
module Conncheck {
  type Id = string

  /** A sender that was stored: `Nil` is what is left when the address does not parse. */
  datatype Sender = Live(gen: nat) | Nil

  datatype Peer = Peer(connected: bool, latency: int, lastPing: int, lastPong: int, born: nat)

  datatype Place =
    | Idle
    | AddStart(id: Id, valid: bool) | AddInside(id: Id, valid: bool) | AddPeer(id: Id) | AddPeerInside(id: Id) | AddEnd
    | RunStart(id: Id) | RunInside(id: Id) | Looping(id: Id, gen: nat)
    | DelStart(id: Id) | DelPeers(id: Id) | DelInside(id: Id) | DelEnd
    | PongStart(id: Id, sent: int, at: int) | PongInside(id: Id, sent: int, at: int) | PongTell(id: Id, born: nat)
    | SweepStart | SweepNext(ids: seq<Id>) | SweepInside(id: Id, ids: seq<Id>)
    | SweepTell(id: Id, born: nat, ids: seq<Id>)
    | Crashed

  datatype State = State(
    senders: map<Id, Sender>, running: map<Id, Sender>, peers: map<Id, Peer>,
    cancelled: set<(Id, nat)>, next: nat, now: int, threads: map<nat, Place>)

  predicate HoldsSm(p: Place) {
    p.AddInside? || p.AddPeer? || p.AddPeerInside? || p.AddEnd? || p.RunInside? || p.DelPeers? || p.DelInside? ||
        p.DelEnd?
  }

  predicate HoldsM(p: Place) { p.AddPeerInside? || p.DelInside? || p.PongInside? || p.SweepInside? }

  predicate WantsSm(p: Place) { p.AddStart? || p.RunStart? || p.DelStart? }

  predicate WantsM(p: Place) {
    p.AddPeer? || p.DelPeers? || p.PongStart? || p.SweepStart? || (p.SweepNext? && p.ids != [])
  }

  predicate SmFree(s: State) { forall t <- s.threads :: !HoldsSm(s.threads[t]) }

  predicate MFree(s: State) { forall t <- s.threads :: !HoldsM(s.threads[t]) }

  predicate Enabled(s: State, t: nat)
    requires t in s.threads
  {
    var p := s.threads[t];
    !p.Idle? && !p.Crashed? && (WantsSm(p) ==> SmFree(s)) && (WantsM(p) ==> MFree(s))
  }

  const NEVER: int := -0x7FFF_FFFF_FFFF_FFFF

  /** A PONG is dropped when the peer is unknown or when a later PING has been answered already. */
  predicate Accepts(s: State, id: Id, sent: int) { id in s.peers && s.peers[id].lastPing <= sent }

  /** `silence` is the time after which a peer counts as lost, threshold times interval. */
  predicate Lost(s: State, id: Id, silence: int) { id in s.peers && s.now - s.peers[id].lastPong > silence }

  /** What a step does to the senders and peers. */
  function Effect(s: State, p: Place, silence: int): State {
    match p
    case AddInside(id, valid) =>
      if id in s.senders then s
      else if valid then s.(senders := s.senders[id := Live(s.next)], next := s.next + 1)
      else s.(senders := s.senders[id := Nil])
    case AddPeerInside(id) => s.(peers := s.peers[id := Peer(false, 0, NEVER, s.now, s.next)], next := s.next + 1)
    case RunInside(id) =>
      if id in s.senders && id !in s.running then s.(running := s.running[id := s.senders[id]]) else s
    case DelInside(id) =>
      if id in s.senders && s.senders[id].Nil? then s
      else s.(cancelled := if id in s.senders then s.cancelled + {(id, s.senders[id].gen)} else s.cancelled,
              senders := s.senders - {id}, running := s.running - {id}, peers := s.peers - {id})
    case PongInside(id, sent, at) =>
      if Accepts(s, id, sent) then s.(peers := s.peers[id := s.peers[id].(lastPing := sent, lastPong := at,
          latency := at - sent, connected := true)]) else s
    case SweepInside(id, _) =>
      if Lost(s, id, silence) then s.(peers := s.peers[id := s.peers[id].(connected := false, latency := 0)]) else s
    case _ => s
  }

  /** Where a step leads; a sweep visits the peers in the given order. */
  function Target(s: State, p: Place, silence: int, order: seq<Id>): Place {
    match p
    case AddStart(id, valid) => AddInside(id, valid)
    case AddInside(id, valid) => if id in s.senders || !valid then AddEnd else AddPeer(id)
    case AddPeer(id) => AddPeerInside(id)
    case AddPeerInside(id) => AddEnd
    case RunStart(id) => RunInside(id)
    case RunInside(id) =>
      if id !in s.senders || id in s.running then Idle
      else if s.senders[id].Nil? then Crashed
      else Looping(id, s.senders[id].gen)
    case Looping(id, gen) => if (id, gen) in s.cancelled then Idle else p
    case DelStart(id) => DelPeers(id)
    case DelPeers(id) => DelInside(id)
    case DelInside(id) => if id in s.senders && s.senders[id].Nil? then Crashed else DelEnd
    case PongStart(id, sent, at) => PongInside(id, sent, at)
    case PongInside(id, sent, at) => if Accepts(s, id, sent) then PongTell(id, s.peers[id].born) else Idle
    case SweepStart => SweepNext(order)
    case SweepNext(ids) => if ids == [] then Idle else SweepInside(ids[0], ids[1..])
    case SweepInside(id, ids) => if Lost(s, id, silence) then SweepTell(id, s.peers[id].born, ids) else SweepNext(ids)
    case SweepTell(_, _, ids) => SweepNext(ids)
    case _ => Idle
  }

  function Advance(s: State, t: nat, silence: int, order: seq<Id>): State
    requires t in s.threads
  {
    var p := s.threads[t];
    Effect(s, p, silence).(threads := s.threads[t := Target(s, p, silence, order)])
  }

  /**
  The calls a thread can make; a PONG carries the time it was received, and an empty identifier is refused
  at once.
  */
  predicate Starts(p: Place, now: int) {
    (p.AddStart? && p.id != "") || p.RunStart? || p.DelStart? || p.SweepStart? || (p.PongStart? && p.at <= now)
  }

  datatype Event =
    | Begin(thread: nat, place: Place)
    | Move(mover: nat, order: seq<Id>)
    | ParentDone(id: Id, gen: nat)
    | Tick(elapsed: nat)

  ghost predicate Possible(s: State, e: Event) {
    match e
    case Begin(t, p) => (t in s.threads ==> s.threads[t].Idle?) && Starts(p, s.now)
    case Move(t, order) =>
      t in s.threads && Enabled(s, t) && (s.threads[t].SweepStart? ==> forall id :: id in order <==> id in s.peers)
    case ParentDone(_, gen) => gen < s.next
    case Tick(_) => true
  }

  ghost function Step(s: State, e: Event, silence: int): State
    requires Possible(s, e)
  {
    match e
    case Begin(t, p) => s.(threads := s.threads[t := p])
    case Move(t, order) => Advance(s, t, silence, order)
    case ParentDone(id, gen) => s.(cancelled := s.cancelled + {(id, gen)})
    case Tick(d) => s.(now := s.now + d)
  }

  predicate Start(s: State) {
    s.senders == map[] && s.running == map[] && s.peers == map[] && s.cancelled == {} && forall t <- s.threads ::
        s.threads[t].Idle?
  }

  ghost predicate IsRun(ss: seq<State>, es: seq<Event>, silence: int) {
    |ss| == |es| + 1 && forall i :: 0 <= i < |es| ==> Possible(ss[i], es[i]) && ss[i + 1] == Step(ss[i], es[i], silence)
  }

  // ----- locks

  /** No lock is held twice. */
  ghost predicate Exclusive(s: State) {
    forall t, u :: t in s.threads && u in s.threads && t != u ==>
      !(HoldsSm(s.threads[t]) && HoldsSm(s.threads[u])) && !(HoldsM(s.threads[t]) && HoldsM(s.threads[u]))
  }

  lemma {:induction false} TargetLocks(s: State, p: Place, silence: int, order: seq<Id>)
    ensures var q := Target(s, p, silence, order);
            && (HoldsSm(q) ==> HoldsSm(p) || WantsSm(p))
            && (HoldsM(q) ==> HoldsM(p) || WantsM(p))
  {}

  lemma {:induction false} StepKeepsExclusive(s: State, e: Event, silence: int)
    requires Possible(s, e) && Exclusive(s)
    ensures Exclusive(Step(s, e, silence))
  {
    match e
    case Move(t, order) => TargetLocks(s, s.threads[t], silence, order);
    case _ =>
  }

  /**
  Whenever a call is under way, it can go on itself or a call that holds a lock can: the two locks never
  block each other for good. Pinging in a loop does not count as a call.
  */
  lemma {:induction false} NoDeadlock(s: State, t: nat)
    requires t in s.threads && !s.threads[t].Idle? && !s.threads[t].Crashed? && !s.threads[t].Looping?
    ensures exists u <- s.threads ::
              Enabled(s, u) && !s.threads[u].Looping? && (u == t || HoldsSm(s.threads[u]) || HoldsM(s.threads[u]))
  {
    if WantsSm(s.threads[t]) && !SmFree(s) {
      var u :| u in s.threads && HoldsSm(s.threads[u]);
      if !Enabled(s, u) {
        var v := HolderMoves(s);
      }
    } else if !Enabled(s, t) {
      var v := HolderMoves(s);
    }
  }

  /** Whoever holds `m` needs nothing else. */
  lemma {:induction false} HolderMoves(s: State) returns (u: nat)
    requires !MFree(s)
    ensures u in s.threads && HoldsM(s.threads[u]) && Enabled(s, u) && !s.threads[u].Looping?
  {
    u :| u in s.threads && HoldsM(s.threads[u]);
  }

  // ----- senders, running senders and peers

  /** An address that does not parse is about to be stored under an identifier that has no sender yet. */
  predicate BadAdd(s: State, p: Place) { p.AddInside? && !p.valid && p.id !in s.senders }

  predicate Spoils(s: State, e: Event) { e.Move? && e.mover in s.threads && BadAdd(s, s.threads[e.mover]) }

  ghost predicate NoneCrashed(s: State) { forall t <- s.threads :: !s.threads[t].Crashed? }

  predicate AwaitsPeer(p: Place, id: Id) { (p.AddPeer? || p.AddPeerInside?) && p.id == id }

  /** A sender and a peer always exist together, except for the one sender whose peer is being added under `sm`. */
  ghost predicate KeysMatch(s: State) {
    && (forall id <- s.peers :: id in s.senders)
    && (forall id <- s.senders :: id in s.peers || exists t <- s.threads :: AwaitsPeer(s.threads[t], id))
    && (forall t <- s.threads, id :: AwaitsPeer(s.threads[t], id) ==> id in s.senders)
  }

  /** What runs is what was added, under the same identifier. */
  ghost predicate RunningMatch(s: State) {
    && (forall id <- s.running :: id in s.senders && s.senders[id] == s.running[id])
    && (forall id <- s.senders :: s.senders[id].Live? && s.senders[id].gen < s.next)
  }

  /** The loop of a sender that is still stored is the one that runs; the loops of others have been cancelled. */
  ghost predicate LoopFits(s: State, id: Id, gen: nat) {
    && gen < s.next
    && (if id in s.senders && s.senders[id] == Live(gen) then id in s.running && s.running[id] == Live(gen)
        else (id, gen) in s.cancelled)
  }

  ghost predicate LoopsFit(s: State) {
    && (forall t <- s.threads :: s.threads[t].Looping? ==> LoopFits(s, s.threads[t].id, s.threads[t].gen))
    && (forall t <- s.threads, u <- s.threads :: t != u && s.threads[t].Looping? ==> s.threads[u] != s.threads[t])
  }

  ghost predicate Inv(s: State) { Exclusive(s) && NoneCrashed(s) && KeysMatch(s) && RunningMatch(s) && LoopsFit(s) }

  /** A thread changes place without changing what it has to do with senders and peers. */
  ghost predicate QuietMove(p: Place, q: Place) {
    (forall id :: AwaitsPeer(p, id) <==> AwaitsPeer(q, id)) && (q.Looping? ==> q == p)
  }

  lemma {:induction false} QuietKeeps(s: State, t: nat, q: Place)
    requires KeysMatch(s) && RunningMatch(s) && LoopsFit(s)
    requires QuietMove(if t in s.threads then s.threads[t] else Idle, q)
    ensures var u := s.(threads := s.threads[t := q]); KeysMatch(u) && RunningMatch(u) && LoopsFit(u)
  {
    var u := s.(threads := s.threads[t := q]);
    forall id <- s.senders | id !in s.peers ensures exists o <- u.threads :: AwaitsPeer(u.threads[o], id) {
      var o :| o in s.threads && AwaitsPeer(s.threads[o], id);
      assert AwaitsPeer(u.threads[o], id);
    }
  }

  lemma {:induction false} AddKeys(s: State, t: nat, id: Id, silence: int)
    requires t in s.threads && s.threads[t] == AddInside(id, true) && id !in s.senders && KeysMatch(s)
    requires RunningMatch(s)
    ensures var u := Advance(s, t, silence, []); KeysMatch(u) && RunningMatch(u)
  {
    var u := Advance(s, t, silence, []);
    assert u.threads == s.threads[t := AddPeer(id)];
    forall i <- u.senders | i !in u.peers ensures exists o <- u.threads :: AwaitsPeer(u.threads[o], i) {
      if i == id { assert AwaitsPeer(u.threads[t], i); }
      else { var o :| o in s.threads && AwaitsPeer(s.threads[o], i); assert AwaitsPeer(u.threads[o], i); }
    }
  }

  lemma {:induction false} AddLoops(s: State, t: nat, id: Id, silence: int)
    requires t in s.threads && s.threads[t] == AddInside(id, true) && id !in s.senders && LoopsFit(s)
    ensures LoopsFit(Advance(s, t, silence, []))
  {}

  lemma {:induction false} AddPeerKeeps(s: State, t: nat, id: Id, silence: int)
    requires t in s.threads && s.threads[t] == AddPeerInside(id)
    requires KeysMatch(s) && RunningMatch(s) && LoopsFit(s)
    ensures var u := Advance(s, t, silence, []); KeysMatch(u) && RunningMatch(u) && LoopsFit(u)
  {
    var u := Advance(s, t, silence, []);
    assert AwaitsPeer(s.threads[t], id);
    assert u.threads == s.threads[t := AddEnd];
    forall i <- u.senders | i !in u.peers ensures exists o <- u.threads :: AwaitsPeer(u.threads[o], i) {
      var o :| o in s.threads && AwaitsPeer(s.threads[o], i);
      assert AwaitsPeer(u.threads[o], i);
    }
  }

  lemma {:induction false} RunKeys(s: State, t: nat, id: Id, silence: int)
    requires t in s.threads && s.threads[t] == RunInside(id) && id in s.senders && id !in s.running && KeysMatch(s)
    requires RunningMatch(s)
    ensures var u := Advance(s, t, silence, []); KeysMatch(u) && RunningMatch(u)
  {
    var u := Advance(s, t, silence, []);
    assert u.threads == s.threads[t := Looping(id, s.senders[id].gen)];
    forall i <- u.senders | i !in u.peers ensures exists o <- u.threads :: AwaitsPeer(u.threads[o], i) {
      var o :| o in s.threads && AwaitsPeer(s.threads[o], i);
      assert AwaitsPeer(u.threads[o], i);
    }
  }

  lemma {:induction false} RunLoops(s: State, t: nat, id: Id, silence: int)
    requires t in s.threads && s.threads[t] == RunInside(id) && id in s.senders && id !in s.running && RunningMatch(s)
    requires LoopsFit(s)
    ensures LoopsFit(Advance(s, t, silence, []))
  {}

  lemma {:induction false} DelKeys(s: State, t: nat, id: Id, silence: int)
    requires t in s.threads && s.threads[t] == DelInside(id) && Exclusive(s) && KeysMatch(s) && RunningMatch(s)
    ensures var u := Advance(s, t, silence, []); KeysMatch(u) && RunningMatch(u)
  {
    var u := Advance(s, t, silence, []);
    assert u.threads == s.threads[t := DelEnd];
    forall o <- s.threads, i ensures !AwaitsPeer(s.threads[o], i) {
      assert HoldsSm(s.threads[t]);
    }
    assert forall i <- s.senders :: i in s.peers;
  }

  lemma {:induction false} DelLoops(s: State, t: nat, id: Id, silence: int)
    requires t in s.threads && s.threads[t] == DelInside(id) && RunningMatch(s) && LoopsFit(s)
    ensures LoopsFit(Advance(s, t, silence, []))
  {}

  lemma {:induction false} PeerUpdateKeeps(s: State, id: Id, p: Peer)
    requires id in s.peers && KeysMatch(s) && RunningMatch(s) && LoopsFit(s)
    ensures var u := s.(peers := s.peers[id := p]); KeysMatch(u) && RunningMatch(u) && LoopsFit(u)
  {}

  /** Every step keeps the invariant, unless it stores an address that does not parse. */
  lemma {:induction false} StepKeepsInv(s: State, e: Event, silence: int)
    requires Possible(s, e) && Inv(s) && !Spoils(s, e)
    ensures Inv(Step(s, e, silence))
  {
    StepKeepsExclusive(s, e, silence);
    match e
    case Begin(t, p) => QuietKeeps(s, t, p);
    case Move(t, order) => MoveKeeps(s, t, silence, order);
    case _ => OtherKeeps(s, e, silence);
  }

  lemma {:induction false} OtherKeeps(s: State, e: Event, silence: int)
    requires (e.ParentDone? || e.Tick?) && Possible(s, e) && KeysMatch(s) && RunningMatch(s) && LoopsFit(s)
    ensures var u := Step(s, e, silence); KeysMatch(u) && RunningMatch(u) && LoopsFit(u)
  {}

  lemma {:induction false} MoveKeeps(s: State, t: nat, silence: int, order: seq<Id>)
    requires t in s.threads && Enabled(s, t) && Inv(s) && !BadAdd(s, s.threads[t])
    ensures var u := Advance(s, t, silence, order); NoneCrashed(u) && KeysMatch(u) && RunningMatch(u) && LoopsFit(u)
  {
    var p := s.threads[t];
    TargetIsSound(s, p, silence, order);
    if p.PongInside? || p.SweepInside? { PeerMoveKeeps(s, t, silence, order); }
    else if Touches(p) { TouchKeeps(s, t, silence, order); }
    else { QuietKeeps(s, t, Target(s, p, silence, order)); }
  }

  predicate Touches(p: Place) { p.AddInside? || p.AddPeerInside? || p.RunInside? || p.DelInside? }

  lemma {:induction false} TargetIsSound(s: State, p: Place, silence: int, order: seq<Id>)
    requires RunningMatch(s) && !p.Crashed?
    ensures var q := Target(s, p, silence, order);
            && !q.Crashed?
            && (!Touches(p) && !p.PongInside? && !p.SweepInside? ==> Effect(s, p, silence) == s && QuietMove(p, q))
  {}

  lemma {:induction false} TouchKeeps(s: State, t: nat, silence: int, order: seq<Id>)
    requires t in s.threads && Touches(s.threads[t]) && !BadAdd(s, s.threads[t]) && Exclusive(s) && KeysMatch(s)
    requires RunningMatch(s) && LoopsFit(s)
    ensures var u := Advance(s, t, silence, order); KeysMatch(u) && RunningMatch(u) && LoopsFit(u)
  {
    match s.threads[t]
    case AddInside(id, valid) =>
      if id in s.senders { QuietKeeps(s, t, AddEnd); } else { AddKeys(s, t, id, silence); AddLoops(s, t, id, silence); }
    case AddPeerInside(id) => AddPeerKeeps(s, t, id, silence);
    case RunInside(id) =>
      if id in s.senders && id !in s.running {
        RunKeys(s, t, id, silence);
        RunLoops(s, t, id, silence);
      } else {
        QuietKeeps(s, t, Idle);
      }
    case DelInside(id) => DelKeys(s, t, id, silence); DelLoops(s, t, id, silence);
    case _ =>
  }

  lemma {:induction false} PeerMoveKeeps(s: State, t: nat, silence: int, order: seq<Id>)
    requires t in s.threads && (s.threads[t].PongInside? || s.threads[t].SweepInside?) && KeysMatch(s)
    requires RunningMatch(s) && LoopsFit(s)
    ensures var u := Advance(s, t, silence, order); KeysMatch(u) && RunningMatch(u) && LoopsFit(u)
  {
    var p := s.threads[t];
    var v := Effect(s, p, silence);
    if v != s { PeerUpdateKeeps(s, p.id, v.peers[p.id]); }
    QuietKeeps(v, t, Target(s, p, silence, order));
  }

  /** No address that does not parse has been stored before the n-th state. */
  ghost predicate Unspoilt(ss: seq<State>, es: seq<Event>, n: nat)
    requires n < |ss| == |es| + 1
  {
    forall i :: 0 <= i < n ==> !Spoils(ss[i], es[i])
  }

  lemma {:induction false} RunKeepsInv(ss: seq<State>, es: seq<Event>, silence: int, n: nat)
    requires IsRun(ss, es, silence) && Start(ss[0]) && n < |ss| && Unspoilt(ss, es, n)
    ensures Inv(ss[n])
    decreases n
  {
    if n > 0 {
      RunKeepsInv(ss, es, silence, n - 1);
      StepKeepsInv(ss[n - 1], es[n - 1], silence);
    }
  }

  /**
  In every interleaving of calls, as long as no address that does not parse is stored: senders and peers
  have the same identifiers whenever `sm` is free, what runs was added, no identifier has two loops that
  were not cancelled, and nothing has crashed.
  */
  lemma {:induction false} EveryInterleaving(ss: seq<State>, es: seq<Event>, silence: int, n: nat)
    requires IsRun(ss, es, silence) && Start(ss[0]) && n < |ss| && Unspoilt(ss, es, n)
    ensures NoneCrashed(ss[n])
    ensures SmFree(ss[n]) ==> ss[n].peers.Keys == ss[n].senders.Keys
    ensures ss[n].running.Items <= ss[n].senders.Items
    ensures forall t <- ss[n].threads, u <- ss[n].threads :: t != u ==>
              !(LiveLoop(ss[n], t) && LiveLoop(ss[n], u) && ss[n].threads[t].id == ss[n].threads[u].id)
  {
    RunKeepsInv(ss, es, silence, n);
    var s := ss[n];
    if SmFree(s) { FreeKeys(s); }
    forall t <- s.threads, u <- s.threads | t != u
      ensures !(LiveLoop(s, t) && LiveLoop(s, u) && s.threads[t].id == s.threads[u].id)
    {
      if LiveLoop(s, t) && LiveLoop(s, u) {
        assert LoopFits(s, s.threads[t].id, s.threads[t].gen) && LoopFits(s, s.threads[u].id, s.threads[u].gen);
      }
    }
  }

  lemma {:induction false} FreeKeys(s: State)
    requires KeysMatch(s) && SmFree(s)
    ensures s.peers.Keys == s.senders.Keys
  {
    forall id <- s.senders ensures id in s.peers {
      assert forall t <- s.threads :: !AwaitsPeer(s.threads[t], id);
    }
  }

  /** The thread pings in a loop that has not been cancelled. */
  predicate LiveLoop(s: State, t: nat)
    requires t in s.threads
  {
    s.threads[t].Looping? && (s.threads[t].id, s.threads[t].gen) !in s.cancelled
  }

  // ----- what single calls achieve

  /** A crashed thread is never heard of again. */
  lemma {:induction false} CrashIsFinal(s: State, e: Event, silence: int, t: nat)
    requires Possible(s, e) && t in s.threads && s.threads[t].Crashed?
    ensures var u := Step(s, e, silence); t in u.threads && u.threads[t].Crashed?
  {}

  /** No sender is stored, or about to be stored, without an identifier. */
  ghost predicate Named(s: State) {
    && "" !in s.senders
    && forall t <- s.threads :: (s.threads[t].AddStart? || s.threads[t].AddInside?) ==> s.threads[t].id != ""
  }

  lemma {:induction false} NamedStep(s: State, e: Event, silence: int)
    requires Possible(s, e) && Named(s)
    ensures Named(Step(s, e, silence))
  {}

  /** In every run no sender is stored without an identifier. */
  lemma {:induction false} NoEmptyIdentifier(ss: seq<State>, es: seq<Event>, silence: int, n: nat)
    requires IsRun(ss, es, silence) && Start(ss[0]) && n < |ss|
    ensures Named(ss[n])
    decreases n
  {
    if n > 0 {
      NoEmptyIdentifier(ss, es, silence, n - 1);
      assert Possible(ss[n - 1], es[n - 1]) && ss[n - 1 + 1] == Step(ss[n - 1], es[n - 1], silence);
      NamedStep(ss[n - 1], es[n - 1], silence);
    }
  }

  /**
  A call to stop a sender, once under both locks, removes it from all three maps and leaves the others alone;
  the loop of the sender ends with its next step.
  */
  lemma {:induction false} StopExact(s: State, t: nat, id: Id, silence: int)
    requires t in s.threads && s.threads[t] == DelInside(id) && !(id in s.senders && s.senders[id].Nil?)
    ensures Possible(s, Move(t, []))
    ensures var u := Step(s, Move(t, []), silence);
            && u.senders == s.senders - {id} && u.running == s.running - {id} && u.peers == s.peers - {id}
            && u.threads[t] == DelEnd && (id in s.senders ==> (id, s.senders[id].gen) in u.cancelled)
            && (forall c :: c in u.cancelled ==> c in s.cancelled || (id in s.senders && c == (id, s.senders[id].gen)))
            && forall l <- s.threads :: l != t && s.threads[l].Looping? && id in s.senders
                                        && s.threads[l] == Looping(id, s.senders[id].gen) ==>
                 Possible(u, Move(l, [])) && Step(u, Move(l, []), silence).threads[l] == Idle
  {}

  /** A loop goes on exactly as long as its sender has not been cancelled. */
  lemma {:induction false} LoopEndsIff(s: State, t: nat, silence: int)
    requires t in s.threads && s.threads[t].Looping?
    ensures Possible(s, Move(t, []))
    ensures Step(s, Move(t, []), silence).threads[t] ==
              if (s.threads[t].id, s.threads[t].gen) in s.cancelled then Idle else s.threads[t]
  {}

  /**
  Adding a sender leaves one that is stored alone; a new one with an address that parses is stored live,
  under a generation of its own, and its peer comes next; with one that does not, nothing usable is stored.
  */
  lemma {:induction false} AddExact(s: State, t: nat, id: Id, valid: bool, silence: int)
    requires t in s.threads && s.threads[t] == AddInside(id, valid)
    ensures Possible(s, Move(t, []))
    ensures var u := Step(s, Move(t, []), silence);
            if id in s.senders then u == s.(threads := s.threads[t := AddEnd])
            else if !valid then u == s.(senders := s.senders[id := Nil], threads := s.threads[t := AddEnd])
            else u == s.(senders := s.senders[id := Live(s.next)], next := s.next + 1,
                         threads := s.threads[t := AddPeer(id)])
  {}

  /** The new peer is not connected, and its silence counts from now. */
  lemma {:induction false} AddPeerExact(s: State, t: nat, id: Id, silence: int)
    requires t in s.threads && s.threads[t] == AddPeer(id) && MFree(s)
    ensures Possible(s, Move(t, []))
    ensures var a := Step(s, Move(t, []), silence);
            Possible(a, Move(t, []))
            && var u := Step(a, Move(t, []), silence);
            && u.peers.Keys == s.peers.Keys + {id} && u.senders == s.senders && u.running == s.running
            && !u.peers[id].connected && u.peers[id].latency == 0 && u.peers[id].lastPong == s.now
            && u.peers[id].lastPing == NEVER && u.threads == s.threads[t := AddEnd]
            && (forall o <- s.peers :: o != id ==> u.peers[o] == s.peers[o])
            && (0 <= silence ==> !Lost(u, id, silence))
  {}

  /** A PONG that nothing holds up is handled with the times it carries. */
  lemma {:induction false} PongDelivered(s: State, t: nat, id: Id, sent: int, at: int, silence: int)
    requires t !in s.threads && MFree(s) && at <= s.now
    ensures Possible(s, Begin(t, PongStart(id, sent, at)))
    ensures var a := Step(s, Begin(t, PongStart(id, sent, at)), silence);
            Possible(a, Move(t, []))
            && var b := Step(a, Move(t, []), silence);
            b == s.(threads := s.threads[t := PongInside(id, sent, at)]) && Possible(b, Move(t, []))
  {}

  /** Running a sender that is stored and does not run starts its loop. */
  lemma {:induction false} RunExact(s: State, t: nat, id: Id, silence: int)
    requires t in s.threads && s.threads[t] == RunInside(id)
    ensures Possible(s, Move(t, []))
    ensures var u := Step(s, Move(t, []), silence);
            if id in s.senders && s.senders[id].Live? && id !in s.running then
              u == s.(running := s.running[id := s.senders[id]],
                      threads := s.threads[t := Looping(id, s.senders[id].gen)])
            else if id in s.senders && id !in s.running then u.threads[t] == Crashed
            else u == s.(threads := s.threads[t := Idle])
  {}

  // ----- addresses that do not parse

  /** A step crashes exactly when it gets to use the sender left by an address that did not parse. */
  lemma {:induction false} CrashIff(s: State, p: Place, silence: int, order: seq<Id>)
    ensures Target(s, p, silence, order).Crashed? <==>
            (p.DelInside? || (p.RunInside? && p.id !in s.running)) && p.id in s.senders && s.senders[p.id].Nil?
  {}

  /** The identifier has a sender that is no sender and no peer, and nobody is about to add its peer. */
  ghost predicate Stuck(s: State, id: Id) {
    id in s.senders && s.senders[id].Nil? && id !in s.peers && forall t <- s.threads :: !AwaitsPeer(s.threads[t], id)
  }

  /** This is how storing an address that does not parse leaves it. */
  lemma {:induction false} SpoiltIsStuck(s: State, e: Event, silence: int)
    requires Possible(s, e) && Spoils(s, e) && Exclusive(s) && KeysMatch(s)
    ensures Stuck(Step(s, e, silence), s.threads[e.mover].id)
  {
    var id := s.threads[e.mover].id;
    forall t <- s.threads | t != e.mover ensures !AwaitsPeer(s.threads[t], id) { assert HoldsSm(s.threads[e.mover]); }
  }

  /** No step of any call ends it: adding reports a duplicate, stopping crashes. */
  lemma {:induction false} StuckStays(s: State, e: Event, silence: int, id: Id)
    requires Possible(s, e) && Stuck(s, id)
    ensures Stuck(Step(s, e, silence), id)
  {
    match e
    case Move(t, order) => StuckTarget(s, s.threads[t], silence, order, id);
    case _ =>
  }

  lemma {:induction false} StuckTarget(s: State, p: Place, silence: int, order: seq<Id>, id: Id)
    requires Stuck(s, id) && !AwaitsPeer(p, id)
    ensures !AwaitsPeer(Target(s, p, silence, order), id)
    ensures var u := Effect(s, p, silence); id in u.senders && u.senders[id].Nil? && id !in u.peers
  {}

  /** Once an address that does not parse has been stored, some identifier is stuck. */
  lemma {:induction false} SpoiltRun(ss: seq<State>, es: seq<Event>, silence: int, n: nat)
    requires IsRun(ss, es, silence) && Start(ss[0]) && n < |ss| && !Unspoilt(ss, es, n)
    ensures exists id :: Stuck(ss[n], id)
    decreases n
  {
    if Unspoilt(ss, es, n - 1) {
      RunKeepsInv(ss, es, silence, n - 1);
      SpoiltIsStuck(ss[n - 1], es[n - 1], silence);
      assert Stuck(ss[n], ss[n - 1].threads[es[n - 1].mover].id);
    } else {
      SpoiltRun(ss, es, silence, n - 1);
      var id :| Stuck(ss[n - 1], id);
      StuckStays(ss[n - 1], es[n - 1], silence, id);
      assert Stuck(ss[n], id);
    }
  }

  /**
  In every run, whenever `sm` is free, senders and peers have the same identifiers exactly when no address
  that does not parse has been stored for an identifier that had no sender; and nothing crashes before.
  */
  lemma {:induction false} KeysAgreeIff(ss: seq<State>, es: seq<Event>, silence: int, n: nat)
    requires IsRun(ss, es, silence) && Start(ss[0]) && n < |ss|
    ensures SmFree(ss[n]) ==> (ss[n].peers.Keys == ss[n].senders.Keys <==> Unspoilt(ss, es, n))
    ensures !NoneCrashed(ss[n]) ==> !Unspoilt(ss, es, n)
  {
    if Unspoilt(ss, es, n) {
      EveryInterleaving(ss, es, silence, n);
    } else {
      SpoiltRun(ss, es, silence, n);
      var id :| Stuck(ss[n], id);
      assert id in ss[n].senders.Keys && id !in ss[n].peers.Keys;
    }
  }

  /**
  With the identifier stuck, a call to add it changes nothing, one to stop it crashes, and so does the
  first to run it.
  */
  lemma {:induction false} InvalidAddressLingers(s: State, id: Id, valid: bool, silence: int)
    requires Stuck(s, id)
    ensures Target(s, AddInside(id, valid), silence, []) == AddEnd && Effect(s, AddInside(id, valid), silence) == s
    ensures Target(s, DelInside(id), silence, []) == Crashed && Effect(s, DelInside(id), silence) == s
    ensures Target(s, RunInside(id), silence, []) == if id in s.running then Idle else Crashed
  {}
}
