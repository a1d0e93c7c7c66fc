/**
When the connection checker calls a peer lost (ReceivePong and RunDisconnectObserver in
pkg/conncheck/receiver.go), over the runs of Conncheck with their clock.
*/
module FailureDetection {
  import opened Conncheck

  /** The same peer, added once, before and after. */
  predicate SamePeer(s: State, u: State, id: Id) {
    id in s.peers && id in u.peers && s.peers[id].born == u.peers[id].born
  }

  /** The event is a PONG taken for `id`. */
  ghost predicate Takes(s: State, e: Event, id: Id) {
    e.Move? && e.mover in s.threads && s.threads[e.mover].PongInside? && s.threads[e.mover].id == id &&
        Accepts(s, id, s.threads[e.mover].sent)
  }

  /** The event is a sweep looking at `id`. */
  ghost predicate Checks(s: State, e: Event, id: Id) {
    e.Move? && e.mover in s.threads && s.threads[e.mover].SweepInside? && s.threads[e.mover].id == id
  }

  ghost predicate Known(s: State) { forall id <- s.peers :: s.peers[id].born < s.next && s.peers[id].lastPong <= s.now }

  ghost predicate PongsPast(s: State) {
    forall t <- s.threads :: (s.threads[t].PongStart? || s.threads[t].PongInside?) ==> s.threads[t].at <= s.now
  }

  lemma {:induction false} StepKeepsKnown(s: State, e: Event, silence: int)
    requires Possible(s, e) && Known(s) && PongsPast(s)
    ensures Known(Step(s, e, silence)) && PongsPast(Step(s, e, silence))
  {
    match e
    case Move(t, order) => MoveKeepsKnown(s, t, silence, order);
    case _ =>
  }

  lemma {:induction false} MoveKeepsKnown(s: State, t: nat, silence: int, order: seq<Id>)
    requires t in s.threads && Known(s) && PongsPast(s)
    ensures Known(Advance(s, t, silence, order)) && PongsPast(Advance(s, t, silence, order))
  {
    EffectOnPeers(s, s.threads[t], silence);
    TargetPongs(s, s.threads[t], silence, order);
  }

  lemma {:induction false} TargetPongs(s: State, p: Place, silence: int, order: seq<Id>)
    ensures var q := Target(s, p, silence, order);
            (q.PongStart? || q.PongInside?) ==> p.PongStart? && q.at == p.at
  {}

  /** What one step can do to a peer: take a PONG, mark it lost, forget it or add it anew. */
  ghost predicate PeerChange(s: State, p: Place, u: State, id: Id, silence: int) {
    if id !in u.peers then true
    else if id !in s.peers || u.peers[id].born != s.peers[id].born then
        u.peers[id] == Peer(false, 0, NEVER, s.now, s.next)
    else if p.PongInside? && p.id == id && Accepts(s, id, p.sent) then
        u.peers[id] == Peer(true, p.at - p.sent, p.sent, p.at, s.peers[id].born)
    else if p.SweepInside? && p.id == id && Lost(s, id, silence) then
        u.peers[id] == s.peers[id].(connected := false, latency := 0)
    else u.peers[id] == s.peers[id]
  }

  lemma {:induction false} EffectOnPeers(s: State, p: Place, silence: int)
    requires Known(s)
    ensures var u := Effect(s, p, silence);
            && u.now == s.now && s.next <= u.next
            && (forall id <- u.peers ::
                PeerChange(s, p, u, id, silence) && (u.peers[id].born == s.next ==> s.next < u.next))
  {}

  /** A peer is marked lost only when more than `silence` has passed since the PONG it took last. */
  lemma {:induction false} MarkedOnlyLate(s: State, e: Event, silence: int, id: Id)
    requires Possible(s, e) && Known(s)
    requires SamePeer(s, Step(s, e, silence), id) && s.peers[id].connected && !Step(s, e, silence).peers[id].connected
    ensures s.now - s.peers[id].lastPong > silence
  {}

  /** The PING answered last never goes back while the peer is the same. */
  lemma {:induction false} PingsMonotone(s: State, e: Event, silence: int, id: Id)
    requires Possible(s, e) && Known(s) && SamePeer(s, Step(s, e, silence), id)
    ensures s.peers[id].lastPing <= Step(s, e, silence).peers[id].lastPing
  {}

  /** From `a` to `n` the peer stays the same and takes no PONG. */
  ghost predicate Silent(ss: seq<State>, es: seq<Event>, id: Id, a: nat, n: nat)
    requires a <= n < |ss| == |es| + 1
  {
    id in ss[a].peers && forall i :: a <= i < n ==> SamePeer(ss[i], ss[i + 1], id) && !Takes(ss[i], es[i], id)
  }

  lemma {:induction false} SilentStep(s: State, e: Event, silence: int, id: Id)
    requires Possible(s, e) && Known(s) && SamePeer(s, Step(s, e, silence), id) && !Takes(s, e, id)
    ensures var u := Step(s, e, silence);
            && u.peers[id].lastPong == s.peers[id].lastPong && s.now <= u.now
            && (u.peers[id].connected <==> s.peers[id].connected && !(Checks(s, e, id) && Lost(s, id, silence)))
  {}

  lemma {:induction false} RunKnown(ss: seq<State>, es: seq<Event>, silence: int, n: nat)
    requires IsRun(ss, es, silence) && Start(ss[0]) && n < |ss|
    ensures Known(ss[n]) && PongsPast(ss[n])
    decreases n
  {
    if n > 0 {
      RunKnown(ss, es, silence, n - 1);
      StepKeepsKnown(ss[n - 1], es[n - 1], silence);
    }
  }

  /** A silent step keeps the time of the last PONG and only ever disconnects. */
  ghost predicate Fades(s: State, u: State, id: Id) {
    SamePeer(s, u, id) && u.peers[id].lastPong == s.peers[id].lastPong && s.now <= u.now &&
        (u.peers[id].connected ==> s.peers[id].connected)
  }

  lemma {:induction false} SilentAt(ss: seq<State>, es: seq<Event>, silence: int, id: Id, a: nat, n: nat, i: nat)
    requires IsRun(ss, es, silence) && Start(ss[0]) && a <= i < n < |ss| && Silent(ss, es, id, a, n)
    ensures Fades(ss[i], ss[i + 1], id)
    ensures ss[i].peers[id].connected && !(Checks(ss[i], es[i], id) && Lost(ss[i], id, silence)) ==>
              ss[i + 1].peers[id].connected
    ensures Checks(ss[i], es[i], id) && Lost(ss[i], id, silence) ==> !ss[i + 1].peers[id].connected
  {
    RunKnown(ss, es, silence, i);
    assert SamePeer(ss[i], ss[i + 1], id);
    SilentStep(ss[i], es[i], silence, id);
  }

  lemma {:induction false} SilentStretch(ss: seq<State>, es: seq<Event>, silence: int, id: Id, a: nat, n: nat)
    requires IsRun(ss, es, silence) && Start(ss[0]) && a <= n < |ss| && Silent(ss, es, id, a, n)
    ensures id in ss[n].peers && ss[n].peers[id].lastPong == ss[a].peers[id].lastPong && ss[a].now <= ss[n].now
    ensures ss[n].peers[id].connected ==> ss[a].peers[id].connected
    decreases n
  {
    if a < n {
      SilentStretch(ss, es, silence, id, a, n - 1);
      SilentAt(ss, es, silence, id, a, n, n - 1);
    }
  }

  lemma {:induction false} TakenAt(ss: seq<State>, es: seq<Event>, silence: int, id: Id, i: nat)
    requires IsRun(ss, es, silence) && Start(ss[0]) && i < |es| && Takes(ss[i], es[i], id)
    ensures id in ss[i + 1].peers && ss[i + 1].peers[id].connected
    ensures ss[i + 1].peers[id].lastPong == ss[i].threads[es[i].mover].at
  {}

  /**
  After the PONG taken at step `i`, and until the next one, the peer reads connected for `silence` counted
  from when the PONG was received.
  */
  lemma {:induction false} StaysConnected(ss: seq<State>, es: seq<Event>, silence: int, id: Id, i: nat, n: nat)
    requires IsRun(ss, es, silence) && Start(ss[0]) && i < n < |ss| && Takes(ss[i], es[i], id)
    requires Silent(ss, es, id, i + 1, n)
    requires ss[n].now - ss[i].threads[es[i].mover].at <= silence
    ensures id in ss[n].peers && ss[n].peers[id].connected && ss[n].peers[id].lastPong == ss[i].threads[es[i].mover].at
    decreases n
  {
    TakenAt(ss, es, silence, id, i);
    if i + 1 < n {
      SilentAt(ss, es, silence, id, i + 1, n, n - 1);
      StaysConnected(ss, es, silence, id, i, n - 1);
    }
  }

  // ----- PONGs that are taken

  /** The event is a PONG handled for `id`, taken or not. */
  ghost predicate Pongs(s: State, e: Event, id: Id) {
    e.Move? && e.mover in s.threads && s.threads[e.mover].PongInside? && s.threads[e.mover].id == id
  }

  /** A PONG is taken exactly when its PING was not sent before the last one answered; no other peer changes. */
  lemma {:induction false} PongExact(s: State, e: Event, silence: int, id: Id)
    requires Possible(s, e) && Pongs(s, e, id) && id in s.peers
    ensures var u, p, q := Step(s, e, silence), s.peers[id], s.threads[e.mover];
            && u.peers.Keys == s.peers.Keys
            && u.peers[id] == (if q.sent < p.lastPing then p else Peer(true, q.at - q.sent, q.sent, q.at, p.born))
            && forall other <- s.peers :: other != id ==> u.peers[other] == s.peers[other]
  {}

  /** The place of the thread that moves. */
  function PlaceOf(s: State, e: Event): Place { if e.Move? && e.mover in s.threads then s.threads[e.mover] else Idle }

  /** Step `k` handles the last PONG for the peer before state `n`, counted from step `a`. */
  ghost predicate LastPong(ss: seq<State>, es: seq<Event>, id: Id, a: nat, k: nat, n: nat)
    requires n < |ss| == |es| + 1
  {
    a <= k < n && Pongs(ss[k], es[k], id) && forall j :: k < j < n ==> !Pongs(ss[j], es[j], id)
  }

  lemma {:induction false} SomeLastPong(ss: seq<State>, es: seq<Event>, id: Id, a: nat, n: nat) returns (k: nat)
    requires a < n < |ss| == |es| + 1 && Pongs(ss[a], es[a], id)
    ensures LastPong(ss, es, id, a, k, n)
    decreases n
  {
    k := n - 1;
    if !Pongs(ss[k], es[k], id) { k := SomeLastPong(ss, es, id, a, n - 1); }
  }

  /** From step `a` on, PONGs arrive for the peer in the order in which their PINGs were sent. */
  ghost predicate InOrder(ss: seq<State>, es: seq<Event>, id: Id, a: nat, end: nat)
    requires a < end < |ss| == |es| + 1
  {
    && Pongs(ss[a], es[a], id) && id in ss[a].peers && ss[a].peers[id].lastPing <= PlaceOf(ss[a], es[a]).sent
    && (forall k :: a <= k < end ==> SamePeer(ss[k], ss[k + 1], id))
    && forall j, k :: a <= j < k < end && Pongs(ss[j], es[j], id) && Pongs(ss[k], es[k], id) ==>
         PlaceOf(ss[j], es[j]).sent <= PlaceOf(ss[k], es[k]).sent
  }

  /** Never more than `silence` has passed since the last of them was received. */
  ghost predicate KeepArriving(ss: seq<State>, es: seq<Event>, silence: int, id: Id, a: nat, end: nat)
    requires a < end < |ss| == |es| + 1
  {
    forall k: nat, n: nat :: a < n < end && LastPong(ss, es, id, a, k, n) ==>
        ss[n].now - PlaceOf(ss[k], es[k]).at <= silence
  }

  /** The peer reads connected, with the times of that PONG. */
  ghost predicate Reads(s: State, id: Id, pong: Place) {
    && pong.PongInside? && id in s.peers && s.peers[id].connected
    && s.peers[id].lastPing == pong.sent && s.peers[id].lastPong == pong.at
    && s.peers[id].latency == pong.at - pong.sent
  }

  lemma {:induction false} NextPongReads(s: State, e: Event, silence: int, id: Id)
    requires Possible(s, e) && Pongs(s, e, id) && id in s.peers && s.peers[id].lastPing <= PlaceOf(s, e).sent
    ensures Reads(Step(s, e, silence), id, PlaceOf(s, e))
  {
    PongExact(s, e, silence, id);
  }

  lemma {:induction false} StillReads(s: State, e: Event, silence: int, id: Id, pong: Place)
    requires Possible(s, e) && Known(s) && SamePeer(s, Step(s, e, silence), id) && !Pongs(s, e, id)
    requires Reads(s, id, pong) && s.now - pong.at <= silence
    ensures Reads(Step(s, e, silence), id, pong)
  {}

  /**
  A peer that keeps answering in order up to `end` reads connected all the time, with the times of the PONG
  handled last.
  */
  lemma {:induction false} HealthyStaysConnected(ss: seq<State>, es: seq<Event>, silence: int, id: Id, a: nat, k: nat,
                                                 n: nat, end: nat)
    requires IsRun(ss, es, silence) && Start(ss[0]) && a < n <= end < |ss| && LastPong(ss, es, id, a, k, n)
    requires InOrder(ss, es, id, a, end) && KeepArriving(ss, es, silence, id, a, end)
    ensures Reads(ss[n], id, PlaceOf(ss[k], es[k]))
    decreases n
  {
    var m := n - 1;
    assert ss[m + 1] == Step(ss[m], es[m], silence) && SamePeer(ss[m], ss[m + 1], id);
    if k < m {
      HealthyStaysConnected(ss, es, silence, id, a, k, m, end);
      RunKnown(ss, es, silence, m);
      StillReads(ss[m], es[m], silence, id, PlaceOf(ss[k], es[k]));
    } else {
      if a < k {
        var j := SomeLastPong(ss, es, id, a, k);
        HealthyStaysConnected(ss, es, silence, id, a, j, k, end);
      }
      NextPongReads(ss[k], es[k], silence, id);
    }
  }

  // ----- sweeps

  /** The sweeping thread has yet to look at the peer. */
  predicate Ahead(p: Place, id: Id) {
    || (p.SweepNext? && id in p.ids)
    || (p.SweepInside? && (p.id == id || id in p.ids))
    || (p.SweepTell? && id in p.ids)
  }

  /** The event is the snapshot of the identifiers with which the sweep of the thread begins. */
  ghost predicate Begins(s: State, e: Event, t: nat) {
    e.Move? && e.mover == t && t in s.threads && s.threads[t].SweepStart?
  }

  lemma {:induction false} StaysAhead(s: State, e: Event, silence: int, t: nat, id: Id)
    requires Possible(s, e) && t in s.threads && Ahead(s.threads[t], id) && !Checks(s, e, id)
    ensures var u := Step(s, e, silence); t in u.threads && Ahead(u.threads[t], id)
  {
    if e.Move? && e.mover == t && s.threads[t].SweepNext? {
      var ids := s.threads[t].ids;
      assert ids == [ids[0]] + ids[1..];
    }
  }

  /** Until it has looked at a peer that was there at the start, a sweep is not over. */
  lemma {:induction false} StillAhead(ss: seq<State>, es: seq<Event>, silence: int, t: nat, id: Id, i: nat, m: nat)
    requires IsRun(ss, es, silence) && i < m < |ss| && Begins(ss[i], es[i], t) && id in ss[i].peers
    requires forall k :: i < k < m ==> !Checks(ss[k], es[k], id)
    ensures t in ss[m].threads && Ahead(ss[m].threads[t], id)
    decreases m
  {
    if m == i + 1 {
      assert Possible(ss[i], es[i]) && ss[i + 1] == Step(ss[i], es[i], silence);
    } else {
      StillAhead(ss, es, silence, t, id, i, m - 1);
      assert Possible(ss[m - 1], es[m - 1]) && ss[m - 1 + 1] == Step(ss[m - 1], es[m - 1], silence);
      StaysAhead(ss[m - 1], es[m - 1], silence, t, id);
    }
  }

  /** So a sweep that is over has looked at every such peer, each under the lock and at its own time. */
  lemma {:induction false} SweepLooks(ss: seq<State>, es: seq<Event>, silence: int, t: nat, id: Id, i: nat, m: nat)
    returns (k: nat)
    requires IsRun(ss, es, silence) && i < m < |ss| && Begins(ss[i], es[i], t) && id in ss[i].peers
    requires t in ss[m].threads && ss[m].threads[t].Idle?
    ensures i < k < m && Checks(ss[k], es[k], id)
  {
    if forall k :: i < k < m ==> !Checks(ss[k], es[k], id) { StillAhead(ss, es, silence, t, id, i, m); }
    k :| i < k < m && Checks(ss[k], es[k], id);
  }

  /** A look at the peer disconnects it once it took no PONG for longer than `silence`. */
  lemma {:induction false} SeenInTime(ss: seq<State>, es: seq<Event>, silence: nat, period: nat, id: Id, a: nat, k: nat,
                                      n: nat)
    requires IsRun(ss, es, silence) && Start(ss[0]) && a <= k < n < |ss| && Silent(ss, es, id, a, n)
    requires Checks(ss[k], es[k], id) && ss[n].now - ss[k].now <= period
    requires ss[n].now - ss[a].now > silence + period
    ensures id in ss[n].peers && !ss[n].peers[id].connected
  {
    RunKnown(ss, es, silence, a);
    SilentStretch(ss, es, silence, id, a, k);
    SilentAt(ss, es, silence, id, a, n, k);
    SilentStretch(ss, es, silence, id, k + 1, n);
  }

  /**
  If a sweep that began within the last `period` is over, whatever happened between its looks, then a peer
  that took no PONG for longer than `silence + period` reads disconnected.
  */
  lemma {:induction false} DetectedInTime(ss: seq<State>, es: seq<Event>, silence: nat, period: nat, id: Id, a: nat,
                                          t: nat, i: nat, m: nat, n: nat)
    requires IsRun(ss, es, silence) && Start(ss[0]) && a <= i < m <= n < |ss| && Silent(ss, es, id, a, n)
    requires Begins(ss[i], es[i], t) && t in ss[m].threads && ss[m].threads[t].Idle?
    requires ss[n].now - ss[i].now <= period && ss[n].now - ss[a].now > silence + period
    ensures id in ss[n].peers && !ss[n].peers[id].connected
  {
    SilentStretch(ss, es, silence, id, a, i);
    var k := SweepLooks(ss, es, silence, t, id, i, m);
    SilentStretch(ss, es, silence, id, i, k);
    SeenInTime(ss, es, silence, period, id, a, k, n);
  }
}
