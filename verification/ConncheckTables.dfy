/**
The maps of the connection checker, changed in place by what is done under the locks (AddSender,
setRunning and DelAndStopSender in pkg/conncheck/conncheck.go; InitPeer, ReceivePong and the sweep in
pkg/conncheck/receiver.go). Each is proved to have the effect of the corresponding step of Conncheck.
*/
module ConncheckTables {
  import opened Wrappers
  import opened Conncheck

  class Checker {
    var senders: map<Id, Sender>
    var running: map<Id, Sender>
    var peers: map<Id, Peer>
    var cancelled: set<(Id, nat)>
    var next: nat

    constructor ()
      ensures senders == map[] && running == map[] && peers == map[] && cancelled == {}
    {
      senders, running, peers, cancelled, next := map[], map[], map[], {}, 0;
    }

    function Snapshot(now: int): State reads this { State(senders, running, peers, cancelled, next, now, map[]) }

    /** `AddSender` up to the peer; `valid` says whether the address parses. */
    method StoreSender(id: Id, valid: bool, ghost now: int) returns (ok: bool)
      modifies this
      ensures Snapshot(now) == if id == "" then old(Snapshot(now))
                else Effect(old(Snapshot(now)), AddInside(id, valid), 0)
      ensures ok == (id != "" && id !in old(senders) && valid)
    {
      if id == "" { return false; }
      if id in senders { return false; }
      if !valid {
        senders := senders[id := Nil];
        return false;
      }
      senders, next := senders[id := Live(next)], next + 1;
      ok := true;
    }

    method InitPeer(id: Id, now: int)
      modifies this
      ensures Snapshot(now) == Effect(old(Snapshot(now)), AddPeerInside(id), 0)
    {
      peers, next := peers[id := Peer(false, 0, NEVER, now, next)], next + 1;
    }

    /** `setRunning`. */
    method SetRunning(id: Id, ghost now: int) returns (r: Option<Sender>)
      modifies this
      ensures Snapshot(now) == Effect(old(Snapshot(now)), RunInside(id), 0)
      ensures r == if id in old(senders) && id !in old(running) then Some(old(senders)[id]) else None
    {
      if id !in senders || id in running { return None; }
      running := running[id := senders[id]];
      r := Some(senders[id]);
    }

    /** `DelAndStopSender`; using the sender that an address which does not parse leaves is a crash. */
    method DelAndStopSender(id: Id, ghost now: int) returns (crashed: bool)
      modifies this
      ensures Snapshot(now) == Effect(old(Snapshot(now)), DelInside(id), 0)
      ensures crashed == Target(old(Snapshot(now)), DelInside(id), 0, []).Crashed?
    {
      if id in senders {
        if senders[id].Nil? { return true; }
        cancelled := cancelled + {(id, senders[id].gen)};
        senders := senders - {id};
      } else {
        assert senders - {id} == senders;
      }
      running := running - {id};
      peers := peers - {id};
      crashed := false;
    }

    /** `ReceivePong`; the answer says what the observer is told, if anything. */
    method ReceivePong(id: Id, sent: int, at: int, ghost now: int) returns (told: Option<int>)
      modifies this
      ensures Snapshot(now) == Effect(old(Snapshot(now)), PongInside(id, sent, at), 0)
      ensures told == if id in old(peers) && old(peers)[id].lastPing <= sent then Some(at - sent) else None
      ensures told.Some? ==> peers == old(peers)[id := Peer(true, at - sent, sent, at, old(peers)[id].born)]
      ensures told.None? ==> peers == old(peers)
    {
      if id !in peers { return None; }
      var peer := peers[id];
      if sent < peer.lastPing { return None; }
      peer := peer.(lastPing := sent, lastPong := at, latency := at - sent, connected := true);
      peers := peers[id := peer];
      told := Some(peer.latency);
    }

    method CheckPeer(id: Id, silence: int, now: int) returns (lost: bool)
      modifies this
      ensures Snapshot(now) == Effect(old(Snapshot(now)), SweepInside(id, []), silence)
      ensures lost == Lost(old(Snapshot(now)), id, silence)
    {
      if id !in peers { return false; }
      if now - peers[id].lastPong <= silence { return false; }
      peers := peers[id := peers[id].(connected := false, latency := 0)];
      lost := true;
    }

    /** One sweep that nothing interferes with disconnects exactly the lost peers and leaves the others alone. */
    method Sweep(ids: seq<Id>, silence: int, now: int)
      requires forall id :: id in ids <==> id in peers
      modifies this
      ensures peers.Keys == old(peers).Keys
      ensures forall id <- peers ::
                peers[id] == if Lost(old(Snapshot(now)), id, silence) then
                    old(peers)[id].(connected := false, latency := 0) else old(peers)[id]
      ensures senders == old(senders) && running == old(running) && cancelled == old(cancelled)
    {
      ghost var s := Snapshot(now);
      var i := 0;
      while i < |ids|
        invariant i <= |ids| && peers.Keys == s.peers.Keys
        invariant senders == s.senders && running == s.running && cancelled == s.cancelled
        invariant forall id <- peers :: peers[id].lastPong == s.peers[id].lastPong
        invariant forall id <- peers ::
                    peers[id] == if id in ids[..i] && Lost(s, id, silence) then
                        s.peers[id].(connected := false, latency := 0) else s.peers[id]
      {
        assert ids[..i + 1] == ids[..i] + [ids[i]];
        var lost := CheckPeer(ids[i], silence, now);
        i := i + 1;
      }
      assert ids[..i] == ids;
    }
  }
}
