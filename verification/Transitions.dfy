/**
Telling changes of the connection state from repetitions (onTransition in
pkg/fabric/genevetunnel_controller.go). The receiver and the sweeper change the peer under a lock and
call the observer afterwards (pkg/conncheck/receiver.go), so the two halves of different threads mix.
*/
module Transitions {
  import C = Conncheck
  import opened FailureDetection

  /** How often the value changes along the calls, starting from `last`. */
  function Flips(last: bool, calls: seq<bool>): nat
    decreases |calls|
  {
    if calls == [] then 0 else (if calls[0] != last then 1 else 0) + Flips(calls[0], calls[1..])
  }

  function Latest(last: bool, calls: seq<bool>): bool { if calls == [] then last else calls[|calls| - 1] }

  lemma {:induction false} FlipsAppend(last: bool, calls: seq<bool>, v: bool)
    ensures Flips(last, calls + [v]) == Flips(last, calls) + if v != Latest(last, calls) then 1 else 0
    decreases |calls|
  {
    if calls == [] {
      assert calls + [v] == [v] && [v][1..] == [];
    } else {
      assert (calls + [v])[1..] == calls[1..] + [v] && (calls + [v])[0] == calls[0];
      FlipsAppend(calls[0], calls[1..], v);
      assert Latest(calls[0], calls[1..]) == Latest(last, calls);
    }
  }

  /** From a remembered false, the number of changes is odd exactly when the last call said true. */
  lemma {:induction false} FlipsParity(last: bool, calls: seq<bool>)
    ensures Flips(last, calls) % 2 == if Latest(last, calls) != last then 1 else 0
    decreases |calls|
  {
    if calls != [] {
      FlipsParity(calls[0], calls[1..]);
      assert Latest(calls[0], calls[1..]) == Latest(last, calls);
    }
  }

  class Observer {
    var last: bool
    /** How often `onChange` was called. */
    var fired: nat
    /** The calls so far. */
    ghost var calls: seq<bool>

    ghost predicate Valid() reads this { fired == Flips(false, calls) && last == Latest(false, calls) }

    constructor () ensures Valid() && calls == [] { last, fired, calls := false, 0, []; }

    method Observe(connected: bool)
      requires Valid()
      modifies this
      ensures Valid() && calls == old(calls) + [connected]
      ensures fired == old(fired) + if connected != old(last) then 1 else 0
    {
      FlipsAppend(false, calls, connected);
      var was := last;
      last := connected;
      if was != connected { fired := fired + 1; }
      calls := calls + [connected];
    }
  }

  // ----- updates and notifications of several threads

  /** The flag of the peer, the remembered value, and the values changed but not told yet, by thread. */
  datatype State = State(connected: bool, last: bool, untold: map<nat, bool>)

  datatype Event = Update(thread: nat, value: bool) | Notify(teller: nat)

  predicate Possible(s: State, e: Event) {
    match e
    case Update(t, _) => t !in s.untold
    case Notify(t) => t in s.untold
  }

  function Step(s: State, e: Event): State
    requires Possible(s, e)
  {
    match e
    case Update(t, v) => State(v, s.last, s.untold[t := v])
    case Notify(t) => State(s.connected, s.untold[t], s.untold - {t})
  }

  ghost predicate IsRun(ss: seq<State>, es: seq<Event>) {
    |ss| == |es| + 1 && forall i :: 0 <= i < |es| ==> Possible(ss[i], es[i]) && ss[i + 1] == Step(ss[i], es[i])
  }

  const START := State(false, false, map[])

  /** Every update finds nothing untold. */
  ghost predicate NoOverlap(ss: seq<State>, es: seq<Event>)
    requires |ss| == |es| + 1
  {
    forall i :: 0 <= i < |es| && es[i].Update? ==> ss[i].untold == map[]
  }

  /** The flag and the remembered value agree once everything is told. */
  predicate Agrees(s: State) {
    if s.untold == map[] then s.last == s.connected else |s.untold| == 1 && forall t <- s.untold ::
        s.untold[t] == s.connected
  }

  lemma {:induction false} StepKeepsAgrees(s: State, e: Event)
    requires Possible(s, e) && Agrees(s) && (e.Update? ==> s.untold == map[])
    ensures Agrees(Step(s, e))
  {}

  /**
  As long as no two updates are under way at once, the remembered value is the flag whenever nothing is
  left to tell.
  */
  lemma {:induction false} FollowsWithoutOverlap(ss: seq<State>, es: seq<Event>, n: nat)
    requires IsRun(ss, es) && ss[0] == START && NoOverlap(ss, es) && n < |ss|
    ensures Agrees(ss[n])
    decreases n
  {
    if n > 0 {
      FollowsWithoutOverlap(ss, es, n - 1);
      StepKeepsAgrees(ss[n - 1], es[n - 1]);
    }
  }

  /** Two updates told in the opposite order leave the wrong value behind. */
  lemma {:induction false} OverlapDisagrees(ss: seq<State>, es: seq<Event>)
    requires IsRun(ss, es) && ss[0] == START && es == [Update(0, true), Update(1, false), Notify(1), Notify(0)]
    ensures ss[4].untold == map[] && !ss[4].connected && ss[4].last
  {
    assert ss[1] == Step(ss[0], es[0]) && ss[2] == Step(ss[1], es[1]) && ss[3] == Step(ss[2], es[2]) &&
             ss[4] == Step(ss[3], es[3]);
    assert ss[4].untold == map[];
  }

  /** Whatever went before, an update told before the next one starts sets both right. */
  lemma {:induction false} NextPairRepairs(s: State, t: nat, v: bool)
    requires s.untold == map[]
    ensures var u := Step(s, Update(t, v)); Possible(u, Notify(t)) && Step(u, Notify(t)) == State(v, v, map[])
  {}

  // ----- one peer of the connection checker

  /** The thread has changed the peer and is about to tell its observer. */
  predicate Telling(p: C.Place, id: C.Id, born: nat) { (p.PongTell? || p.SweepTell?) && p.id == id && p.born == born }

  function Untold(s: C.State, id: C.Id, born: nat): map<nat, bool> {
    map t | t in s.threads && Telling(s.threads[t], id, born) :: s.threads[t].PongTell?
  }

  /** What matters of the checker for the observer of one peer, which remembers `last`. */
  function View(s: C.State, id: C.Id, last: bool): State
    requires id in s.peers
  {
    State(s.peers[id].connected, last, Untold(s, id, s.peers[id].born))
  }

  /** What a step of the checker is for the peer: a change of its flag, a call of its observer, or nothing. */
  function Seen(s: C.State, e: C.Event, silence: int, id: C.Id): (r: seq<Event>)
    requires id in s.peers
    ensures |r| <= 1
  {
    if !e.Move? || e.mover !in s.threads then []
    else
      var p := s.threads[e.mover];
      if p.PongInside? && p.id == id && C.Accepts(s, id, p.sent) then [Update(e.mover, true)]
      else if p.SweepInside? && p.id == id && C.Lost(s, id, silence) then [Update(e.mover, false)]
      else if Telling(p, id, s.peers[id].born) then [Notify(e.mover)]
      else []
  }

  /** What the observer remembers after the step. */
  function Remembered(s: C.State, e: C.Event, silence: int, id: C.Id, last: bool): bool
    requires id in s.peers
  {
    var seen := Seen(s, e, silence, id);
    if seen != [] && seen[0].Notify? && e.Move? && e.mover in s.threads then s.threads[e.mover].PongTell? else last
  }

  lemma {:induction false} UntoldAfter(s: C.State, t: nat, q: C.Place, id: C.Id, born: nat)
    ensures var u := s.(threads := s.threads[t := q]);
            Untold(u, id, born) == if Telling(q, id, born) then Untold(s, id, born)[t := q.PongTell?]
                else Untold(s, id, born) - {t}
  {}

  /** For one peer, every step of the checker is a step of this machine or changes nothing. */
  lemma {:induction false} CheckerSteps(s: C.State, e: C.Event, silence: int, id: C.Id, last: bool)
    requires C.Possible(s, e) && SamePeer(s, C.Step(s, e, silence), id) && s.peers[id].born < s.next
    ensures var seen, v := Seen(s, e, silence, id), View(s, id, last);
            var w := View(C.Step(s, e, silence), id, Remembered(s, e, silence, id, last));
            if seen == [] then w == v else Possible(v, seen[0]) && w == Step(v, seen[0])
  {
    var born := s.peers[id].born;
    match e
    case Begin(t, p) => UntoldAfter(s, t, p, id, born);
    case Move(t, order) =>
      UntoldAfter(s, t, C.Target(s, s.threads[t], silence, order), id, born);
      FlagAfter(s, t, silence, order, id);
    case _ =>
  }

  lemma {:induction false} FlagAfter(s: C.State, t: nat, silence: int, order: seq<C.Id>, id: C.Id)
    requires t in s.threads && SamePeer(s, C.Advance(s, t, silence, order), id) && s.peers[id].born < s.next
    ensures var seen := Seen(s, C.Move(t, order), silence, id);
            C.Advance(s, t, silence, order).peers[id].connected == if seen != [] && seen[0].Update? then seen[0].value
                else s.peers[id].connected
  {}

  /** A run of the checker in which the peer stays, with what its observer remembers along the way. */
  ghost predicate Observed(ss: seq<C.State>, es: seq<C.Event>, silence: int, id: C.Id, lasts: seq<bool>) {
    && C.IsRun(ss, es, silence) && |lasts| == |ss|
    && (forall i :: 0 <= i < |es| ==>
        SamePeer(ss[i], ss[i + 1], id) && lasts[i + 1] == Remembered(ss[i], es[i], silence, id, lasts[i]))
    && id in ss[0].peers && ss[0].peers[id].born < ss[0].next
  }

  /** A change of the flag finds no other one untold. */
  predicate InTurn(s: C.State, e: C.Event, silence: int, id: C.Id) {
    id in s.peers && Seen(s, e, silence, id) != [] && Seen(s, e, silence, id)[0].Update? ==>
        Untold(s, id, s.peers[id].born) == map[]
  }

  /**
  If every change of the flag is told before the next, then in every run of the checker the observer
  remembers the flag of its peer whenever no thread is about to tell it, as it did at the start.
  */
  lemma {:induction false} ObserverFollows(ss: seq<C.State>, es: seq<C.Event>, silence: int, id: C.Id, lasts: seq<bool>,
                                           n: nat)
    requires Observed(ss, es, silence, id, lasts) && n < |ss|
    requires forall i :: 0 <= i < |es| ==> InTurn(ss[i], es[i], silence, id)
    requires Agrees(View(ss[0], id, lasts[0]))
    ensures id in ss[n].peers && ss[n].peers[id].born < ss[n].next && Agrees(View(ss[n], id, lasts[n]))
    decreases n
  {
    if n > 0 {
      ObserverFollows(ss, es, silence, id, lasts, n - 1);
      var s, e := ss[n - 1], es[n - 1];
      assert SamePeer(ss[n - 1], ss[n - 1 + 1], id);
      CheckerSteps(s, e, silence, id, lasts[n - 1]);
      var seen := Seen(s, e, silence, id);
      if seen != [] { StepKeepsAgrees(View(s, id, lasts[n - 1]), seen[0]); }
    }
  }

  /** A sweep that overtakes the thread telling of a PONG leaves the observer with the wrong value. */
  lemma {:induction false} SweepOvertakesPong(s: C.State, id: C.Id, silence: int, last: bool)
    requires id in s.peers && s.threads == map[0 := C.PongTell(id, s.peers[id].born), 1 := C.SweepInside(id, [])]
    requires C.Lost(s, id, silence)
    ensures var a := C.Advance(s, 1, silence, []);
            var b := C.Advance(a, 1, silence, []);
            var c := C.Advance(b, 0, silence, []);
            && C.Enabled(s, 1) && C.Enabled(a, 1) && C.Enabled(b, 0) && SamePeer(s, a, id) && SamePeer(s, b, id)
            && SamePeer(s, c, id)
            && Seen(s, C.Move(1, []), silence, id) == [Update(1, false)]
            && Seen(a, C.Move(1, []), silence, id) == [Notify(1)]
            && Seen(b, C.Move(0, []), silence, id) == [Notify(0)]
            && View(c, id, Remembered(b, C.Move(0, []), silence, id, last)) == State(false, true, map[])
  {
    var born := s.peers[id].born;
    var a := C.Advance(s, 1, silence, []);
    assert a.threads == map[0 := C.PongTell(id, born), 1 := C.SweepTell(id, born, [])];
    var b := C.Advance(a, 1, silence, []);
    assert b.threads == map[0 := C.PongTell(id, born), 1 := C.SweepNext([])];
    var c := C.Advance(b, 0, silence, []);
    assert c.threads == map[0 := C.Idle, 1 := C.SweepNext([])];
  }
}
