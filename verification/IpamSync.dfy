/**
The IPAM server around the core: the preallocated addresses of a network, the answer to an acquire
request with its rollback, and the periodic sync of the cache with the cluster's Network and IP
objects (pkg/ipam/networks.go, pkg/ipam/ipam.go, pkg/ipam/sync.go).
*/
module IpamSync {
  import opened Wrappers
  import opened Net
  import opened PrefixTree
  import opened NodeAddresses
  import opened IpamForest
  import opened IpamRuns
  import IpamCore

  // ----- preallocated addresses

  /** The first `n` addresses from `base` on. */
  ghost predicate Among(base: Addr, n: nat, a: Addr) { Num(base) <= Num(a) < Num(base) + n }

  /** The address `i` steps after `base`, or none past the end of the address space. */
  function Nth(base: Addr, i: nat): Option<Addr> {
    if i == 0 then Some(base)
    else match Nth(base, i - 1)
      case None => None
      case Some(a) => After(a)
  }

  lemma {:induction false} NthIsOffset(base: Addr, i: nat)
    ensures Nth(base, i).Some? <==> Num(base) + i < Pow2(WIDTH)
    ensures Nth(base, i).Some? ==> Num(Nth(base, i).value) == Num(base) + i
  {
    NumBound(base);
    if i > 0 {
      NthIsOffset(base, i - 1);
      if Nth(base, i - 1).Some? { NextIsSuccessor(Nth(base, i - 1).value); }
    }
  }

  /** The addresses held after some of those of `p` from `lo` on have been taken. */
  ghost predicate HeldPlus(ts: seq<Tree>, us: seq<Tree>, p: Prefix, lo: nat, hi: nat) {
    forall q: Prefix, a: Addr :: Held(us, q, a) <==>
        Held(ts, q, a) || (q == p && Num(p.addr) + lo <= Num(a) < Num(p.addr) + hi)
  }

  /** The ledger is as before, and the held addresses are too but for a stretch of `p` that is now held. */
  ghost predicate Filled(ts: seq<Tree>, us: seq<Tree>, p: Prefix, lo: nat, hi: nat) {
    LedgerSame(ts, us) && HeldPlus(ts, us, p, lo, hi)
  }

  lemma {:induction false} FilledTwice(ts: seq<Tree>, us: seq<Tree>, vs: seq<Tree>, p: Prefix, lo: nat, mid: nat,
                                       hi: nat)
    requires Filled(ts, us, p, lo, mid) && Filled(us, vs, p, mid, hi) && lo <= mid <= hi
    ensures Filled(ts, vs, p, lo, hi)
  {}

  /** The `i`-th address is in the network exactly when `i` is below its size. */
  lemma {:induction false} NthInNetwork(p: Prefix, i: nat)
    requires Canonical(p)
    ensures i < Size(p) <==> Nth(p.addr, i).Some? && Contains(p, Nth(p.addr, i).value)
  {
    NthIsOffset(p.addr, i);
    EndOfSpace(p);
    if Nth(p.addr, i).Some? { PrefixIsRange(p, Nth(p.addr, i).value); }
  }

  /** Only the `i`-th address has offset `i`. */
  lemma {:induction false} NthAlone(p: Prefix, i: nat, b: Addr)
    requires Nth(p.addr, i).Some?
    ensures Num(p.addr) + i <= Num(b) < Num(p.addr) + i + 1 <==> b == Nth(p.addr, i).value
  {
    NthIsOffset(p.addr, i);
    NumInjective(Nth(p.addr, i).value, b);
  }

  lemma {:induction false} NthHeld(ts: seq<Tree>, p: Prefix, i: nat)
    requires WfForest(ts) && Nth(p.addr, i).Some? && Held(ts, p, Nth(p.addr, i).value)
    ensures Filled(ts, ts, p, i, i + 1)
  {
    forall b: Addr
      ensures Num(p.addr) + i <= Num(b) < Num(p.addr) + i + 1 <==> b == Nth(p.addr, i).value
    {
      NthAlone(p, i, b);
    }
  }

  /** Taking the `i`-th address when nobody holds it. */
  lemma {:induction false} NthTaken(ts: seq<Tree>, p: Prefix, i: nat, now: int)
    requires WfForest(ts) && Canonical(p) && Nth(p.addr, i).Some? && !Held(ts, p, Nth(p.addr, i).value)
    ensures var a := Nth(p.addr, i).value;
            var (us, answer) := OnAddresses(ts, p, Take(a), now);
            if Count(ts, p) != 0 && i < Size(p) then answer == Address(Some(a)) && Filled(ts, us, p, i, i + 1)
            else !(answer.Address? && answer.ip.Some?) && Filled(ts, us, p, i, i)
  {
    var a := Nth(p.addr, i).value;
    NthInNetwork(p, i);
    TakeExact(ts, p, a, now);
    AddressStep(ts, p, Take(a), now);
    forall b: Addr ensures Num(p.addr) + i <= Num(b) < Num(p.addr) + i + 1 <==> b == a { NthAlone(p, i, b); }
  }

  lemma {:induction false} NotHeldOutside(ts: seq<Tree>, p: Prefix, a: Addr)
    requires WfForest(ts)
    ensures Held(ts, p, a) ==> Contains(p, a)
  {
    SearchAllExact(ts, p);
    match SearchAll(ts, p)
    case Ok(Some(n)) =>
      RecordIsWf(ts[n.root], n.at);
      RecordPrefix(ts[n.root], p);
    case _ =>
  }

  /** No address has been taken away from its holder. */
  ghost predicate StillHeld(ts: seq<Tree>, us: seq<Tree>) {
    forall q: Prefix, a: Addr :: Held(ts, q, a) ==> Held(us, q, a)
  }

  // ----- what the cluster lists

  datatype Details = Details(preallocated: nat, exclusive: bool)

  lemma {:induction false} CountedIsCanonical(ts: seq<Tree>, p: Prefix)
    requires Count(ts, p) != 0
    ensures Canonical(p) && IsPrefixInRoots(ts, p)
  {
    if IsPrefixChildOf(ts[0].d.prefix, p) {
    } else {
      CountedIsCanonical(ts[1..], p);
      var i :| 0 <= i < |ts[1..]| && IsPrefixChildOf(ts[1..][i].d.prefix, p);
      assert ts[i + 1] == ts[1..][i];
    }
  }

  // ----- times

  /** The times of the networks in `done` have stayed or become `now`, all others have stayed. */
  ghost predicate TimedSteps(ts: seq<Tree>, us: seq<Tree>, done: set<Prefix>, now: int) {
    forall q: Prefix :: Count(us, q) != 0 ==>
      if q !in done then Count(ts, q) != 0 && LastUpdate(us, q) == LastUpdate(ts, q)
      else LastUpdate(us, q) == now || (Count(ts, q) != 0 && LastUpdate(us, q) == LastUpdate(ts, q))
  }

  lemma {:induction false} TimedTwice(ts: seq<Tree>, us: seq<Tree>, vs: seq<Tree>, done: set<Prefix>, more: set<Prefix>,
                                      now: int)
    requires TimedSteps(ts, us, done, now) && TimedSteps(us, vs, more, now) && more <= done
    ensures TimedSteps(ts, vs, done, now)
  {}

  lemma {:induction false} TimedMore(ts: seq<Tree>, us: seq<Tree>, done: set<Prefix>, more: set<Prefix>, now: int)
    requires TimedSteps(ts, us, done, now) && done <= more
    ensures TimedSteps(ts, us, more, now)
  {}

  lemma {:induction false} CallTimed(ts: seq<Tree>, p: Prefix, call: AddressCall, now: int)
    requires WfForest(ts)
    ensures TimedSteps(ts, OnAddresses(ts, p, call, now).0, {p}, now)
  {
    AddressStep(ts, p, call, now);
    var us := OnAddresses(ts, p, call, now).0;
    forall q: Prefix | Count(us, q) != 0
      ensures Count(ts, q) != 0 && (LastUpdate(us, q) == LastUpdate(ts, q) || (q == p && LastUpdate(us, q) == now))
    {
      assert Count(us, q) == Count(ts, q);
      CallTimes(ts, p, call, now, q);
    }
  }

  lemma {:induction false} AcquireTimed(ts: seq<Tree>, p: Prefix, exclusive: bool, now: int)
    requires WfForest(ts)
    ensures TimedSteps(ts, NetworkAcquireWithPrefix(ts, p, exclusive, now).0, {p}, now)
  {
    AcquireThisNetwork(ts, p, exclusive, now);
    var (us, answer) := NetworkAcquireWithPrefix(ts, p, exclusive, now);
    if answer.Some? { AcquireThisTouches(ts, p, exclusive, now); }
    forall q: Prefix | Count(us, q) != 0 && (q != p || answer.None?)
      ensures Count(ts, q) != 0 && LastUpdate(us, q) == LastUpdate(ts, q)
    {
      assert Count(us, q) == Count(ts, q);
      AcquireElsewhere(ts, p, exclusive, now, q);
    }
  }

  /** Nothing acquired was updated later than `time`. */
  ghost predicate TimesBy(ts: seq<Tree>, time: int) {
    forall q: Prefix :: Count(ts, q) != 0 ==> LastUpdate(ts, q) <= time
  }

  // ----- freeing stale networks

  /** The readings of the clock during one sync: all between `earliest` and `latest`. */
  ghost predicate ReadBetween(clocks: nat -> nat -> int, earliest: int, latest: int) {
    forall k: nat, b: nat :: earliest <= clocks(k)(b) <= latest
  }

  /** No release of the sync sees the clock jump by more than the grace period. */
  ghost predicate Steady(clocks: nat -> nat -> int, grace: int) { forall k: nat :: SteadyClock(clocks(k), grace) }

  /** Past its grace period at every moment of the sync. */
  ghost predicate Overdue(ts: seq<Tree>, p: Prefix, grace: int, earliest: int) {
    Count(ts, p) != 0 && LastUpdate(ts, p) + grace < earliest
  }

  /** A turn takes at most one reference of a network, and none of one that has none. */
  predicate Turned(before: int, after: int) { after == before || (before != 0 && after == CountAfterRelease(before)) }

  /**
  One network in the freeing pass, before or after its turn. While the clock is steady, nothing else
  touches its time, and if it was overdue it has lost exactly one reference after its turn.
  */
  ghost predicate FreeState(start: seq<Tree>, ts: seq<Tree>, p: Prefix, visited: bool, grace: int, earliest: int,
                            latest: int, steady: bool) {
    && (!visited ==>
          && Count(ts, p) == Count(start, p)
          && (steady && Count(start, p) != 0 ==> LastUpdate(ts, p) == LastUpdate(start, p)))
    && (visited ==>
          && Turned(Count(start, p), Count(ts, p))
          && (steady && Overdue(start, p, grace, earliest) ==> Count(ts, p) == CountAfterRelease(Count(start, p)))
          && (steady && Count(ts, p) != 0 ==> LastUpdate(ts, p) == LastUpdate(start, p) || LastUpdate(ts, p) <= latest))
  }

  lemma {:induction false} FreeOther(start: seq<Tree>, ts: seq<Tree>, q: Prefix, grace: int, clock: nat -> int,
                                     p: Prefix, visited: bool, earliest: int, latest: int, steady: bool)
    requires WfForest(ts) && Count(ts, q) != 0 && (steady ==> SteadyClock(clock, grace)) && p != q
    requires FreeState(start, ts, p, visited, grace, earliest, latest, steady)
    ensures FreeState(start, IpamForest.NetworkRelease(ts, q, grace, clock).0, p, visited, grace, earliest, latest,
                      steady)
  {
    ReleaseThisNetwork(ts, q, grace, clock);
    if steady && Count(ts, p) != 0 { ReleaseElsewhere(ts, q, grace, clock, p); }
  }

  lemma {:induction false} FreeThis(start: seq<Tree>, ts: seq<Tree>, q: Prefix, grace: int, clock: nat -> int,
                                    earliest: int, latest: int, steady: bool)
    requires WfForest(ts) && Count(start, q) != 0 && (steady ==> SteadyClock(clock, grace))
    requires earliest <= clock(q.bits) <= latest
    requires FreeState(start, ts, q, false, grace, earliest, latest, steady)
    ensures FreeState(start, IpamForest.NetworkRelease(ts, q, grace, clock).0, q, true, grace, earliest, latest, steady)
  {
    ReleaseThisNetwork(ts, q, grace, clock);
    if steady { ReleaseOwn(ts, q, grace, clock); }
  }

  ghost predicate FreeStates(start: seq<Tree>, ts: seq<Tree>, visited: set<Prefix>, grace: int, earliest: int,
                             latest: int, steady: bool) {
    forall p: Prefix :: FreeState(start, ts, p, p in visited, grace, earliest, latest, steady)
  }

  lemma {:induction false} FreeStepAll(start: seq<Tree>, ts: seq<Tree>, q: Prefix, grace: int, clock: nat -> int,
                                       visited: set<Prefix>, earliest: int, latest: int, steady: bool)
    requires WfForest(ts) && Count(start, q) != 0 && earliest <= clock(q.bits) <= latest
    requires (steady ==> SteadyClock(clock, grace)) && q !in visited
    requires FreeStates(start, ts, visited, grace, earliest, latest, steady)
    ensures FreeStates(start, IpamForest.NetworkRelease(ts, q, grace, clock).0, visited + {q}, grace, earliest, latest,
                       steady)
  {
    assert FreeState(start, ts, q, q in visited, grace, earliest, latest, steady);
    forall p: Prefix
      ensures FreeState(start, IpamForest.NetworkRelease(ts, q, grace, clock).0, p, p in visited + {q}, grace, earliest,
                        latest, steady)
    {
      if p == q { FreeThis(start, ts, q, grace, clock, earliest, latest, steady); }
      else { FreeOther(start, ts, q, grace, clock, p, p in visited, earliest, latest, steady); }
    }
  }

  /** How many references a count stands for. */
  function References(count: int): nat { if count < 0 then 1 else count }

  function StaleReferences(ts: seq<Tree>, stale: seq<Prefix>): nat {
    if stale == [] then 0 else References(Count(ts, stale[0])) + StaleReferences(ts, stale[1..])
  }

  lemma {:induction false} StaleNeverGrow(start: seq<Tree>, ts: seq<Tree>, stale: seq<Prefix>)
    requires forall p: Prefix :: p in stale ==> Turned(Count(start, p), Count(ts, p))
    ensures StaleReferences(ts, stale) <= StaleReferences(start, stale)
  {
    if stale != [] {
      assert stale[0] in stale;
      StaleNeverGrow(start, ts, stale[1..]);
    }
  }

  /** Drain: a sync that finds an overdue stale network strictly decreases the references of the stale networks. */
  lemma {:induction false} Drain(start: seq<Tree>, ts: seq<Tree>, stale: seq<Prefix>, p: Prefix)
    requires forall q: Prefix :: q in stale ==> Turned(Count(start, q), Count(ts, q))
    requires p in stale && Count(start, p) != 0 && Count(start, p) >= -1
    requires Count(ts, p) == CountAfterRelease(Count(start, p))
    ensures StaleReferences(ts, stale) < StaleReferences(start, stale)
  {
    assert stale[0] in stale;
    StaleNeverGrow(start, ts, stale[1..]);
    if stale[0] != p { Drain(start, ts, stale[1..], p); }
  }

  /** A network the cluster lists and the cache has to track. */
  ghost predicate Listed(ts: seq<Tree>, p: Prefix, d: Details) { IsPrefixInRoots(ts, p) || d.exclusive }

  function Synced(count: int, listed: bool, d: Details): int {
    if listed && count == 0 then (if d.exclusive then -1 else 1) else count
  }

  ghost predicate AllAmongHeld(ts: seq<Tree>, p: Prefix, n: nat) {
    forall a: Addr :: Among(p.addr, n, a) ==> Held(ts, p, a)
  }

  /** What a completed turn for one listed network leaves. */
  ghost predicate SyncedOne(ts: seq<Tree>, us: seq<Tree>, p: Prefix, d: Details, listed: bool) {
    && StillHeld(ts, us)
    && (forall q: Prefix :: Count(us, q) == if q == p then Synced(Count(ts, q), listed, d) else Count(ts, q))
    && (listed ==> AllAmongHeld(us, p, d.preallocated))
  }

  /** What turns for the networks in `done` leave. */
  ghost predicate SyncedAll(ts: seq<Tree>, us: seq<Tree>, done: set<Prefix>, cluster: map<Prefix, Details>) {
    && StillHeld(ts, us)
    && (forall q: Prefix ::
        Count(us, q) == if q in done && q in cluster then Synced(Count(ts, q), Listed(ts, q, cluster[q]), cluster[q])
            else Count(ts, q))
    && (forall p: Prefix :: p in done && p in cluster && Listed(ts, p, cluster[p]) ==>
        AllAmongHeld(us, p, cluster[p].preallocated))
  }

  /**
  The counts after a whole network sync: listed networks tracked, others at most one reference down,
  overdue ones exactly one.
  */
  ghost predicate NetworksSynced(ts: seq<Tree>, vs: seq<Tree>, cluster: map<Prefix, Details>, grace: int, earliest: int,
                                 steady: bool) {
    && (forall p: Prefix :: p in cluster ==>
        Count(vs, p) == Synced(Count(ts, p), Listed(ts, p, cluster[p]), cluster[p]))
    && (forall p: Prefix :: p !in cluster ==> Turned(Count(ts, p), Count(vs, p)))
    && (forall p: Prefix :: p !in cluster && steady && Overdue(ts, p, grace, earliest) ==>
        Count(vs, p) == CountAfterRelease(Count(ts, p)))
  }

  /** Every acquired network that the cluster does not list gets its turn. */
  ghost predicate AllTurned(ts: seq<Tree>, cluster: map<Prefix, Details>, visited: set<Prefix>) {
    visited !! cluster.Keys && forall p: Prefix :: p !in cluster && Count(ts, p) != 0 ==> p in visited
  }

  lemma {:induction false} SyncOutcome(ts: seq<Tree>, us: seq<Tree>, vs: seq<Tree>, cluster: map<Prefix, Details>,
                                       visited: set<Prefix>, grace: int, earliest: int, latest: int, steady: bool,
                                           now: int)
    requires SyncedAll(ts, us, cluster.Keys, cluster) && FreeStates(us, vs, visited, grace, earliest, latest, steady)
    requires AllTurned(ts, cluster, visited)
    requires TimedSteps(ts, us, cluster.Keys, now)
    ensures NetworksSynced(ts, vs, cluster, grace, earliest, steady)
  {
    forall p: Prefix | p in cluster
      ensures Count(vs, p) == Synced(Count(ts, p), Listed(ts, p, cluster[p]), cluster[p])
    {
      assert FreeState(us, vs, p, p in visited, grace, earliest, latest, steady);
    }
    forall p: Prefix | p !in cluster
      ensures Turned(Count(ts, p), Count(vs, p))
      ensures (steady && Overdue(ts, p, grace, earliest) ==> Count(vs, p) == CountAfterRelease(Count(ts, p)))
    {
      assert FreeState(us, vs, p, p in visited, grace, earliest, latest, steady) && Count(us, p) == Count(ts, p);
    }
  }

  /** No time is later than the sync, if none was before. */
  lemma {:induction false} SyncTimes(ts: seq<Tree>, us: seq<Tree>, vs: seq<Tree>, cluster: map<Prefix, Details>,
                                     visited: set<Prefix>, grace: int, earliest: int, latest: int, now: int)
    requires FreeStates(us, vs, visited, grace, earliest, latest, true) && TimedSteps(ts, us, cluster.Keys, now)
    requires now <= latest && TimesBy(ts, latest)
    ensures TimesBy(vs, latest)
  {
    forall q: Prefix | Count(vs, q) != 0 ensures LastUpdate(vs, q) <= latest {
      assert FreeState(us, vs, q, q in visited, grace, earliest, latest, true);
    }
  }

  // ----- one sync after the other

  /** What a completed sync that reads a steady clock between `earliest` and `latest` leaves. */
  ghost predicate SteadySync(ts: seq<Tree>, us: seq<Tree>, cluster: map<Prefix, Details>, grace: int, earliest: int,
                             latest: int) {
    NetworksSynced(ts, us, cluster, grace, earliest, true) && (TimesBy(ts, latest) ==> TimesBy(us, latest))
  }

  /** What an address sync leaves of the networks: all counts, and no time later than `latest` that was not before. */
  ghost predicate Quiet(ts: seq<Tree>, us: seq<Tree>, latest: int) {
    LedgerSame(ts, us) && (TimesBy(ts, latest) ==> TimesBy(us, latest))
  }

  lemma {:induction false} QuietTwice(ts: seq<Tree>, us: seq<Tree>, vs: seq<Tree>, latest: int)
    requires Quiet(ts, us, latest) && Quiet(us, vs, latest)
    ensures Quiet(ts, vs, latest)
  {
    LedgerSameTwice(ts, us, vs);
  }

  lemma {:induction false} CallIsQuiet(ts: seq<Tree>, p: Prefix, call: AddressCall, now: int, latest: int)
    requires WfForest(ts) && now <= latest
    ensures Quiet(ts, OnAddresses(ts, p, call, now).0, latest)
  {
    AddressStep(ts, p, call, now);
    CallTimed(ts, p, call, now);
  }

  /** One sync of a run: what the cluster lists, and the first and last reading of the clock. */
  datatype Round = Round(cluster: map<Prefix, Details>, earliest: int, latest: int)

  /** A whole sync: first the networks, then the addresses. */
  ghost predicate Synchronized(ts: seq<Tree>, us: seq<Tree>, vs: seq<Tree>, r: Round, grace: int) {
    SteadySync(ts, us, r.cluster, grace, r.earliest, r.latest) && Quiet(us, vs, r.latest)
  }

  /** From `ts` by syncs in a row to `us`, each begun more than the grace period after the one before ended. */
  ghost predicate Spaced(ts: seq<Tree>, rounds: seq<Round>, us: seq<Tree>, grace: int, before: int)
    decreases |rounds|
  {
    if rounds == [] then us == ts else
      var r := rounds[0];
      && before + grace < r.earliest <= r.latest
      && exists vs, ws :: Synchronized(ts, vs, ws, r, grace) && Spaced(ws, rounds[1..], us, grace, r.latest)
  }

  /**
  One sync more than the grace period after the last update takes one reference of a network it does not
  find listed.
  */
  lemma {:induction false} DrainedOnce(ts: seq<Tree>, us: seq<Tree>, vs: seq<Tree>, r: Round, grace: int, before: int,
                                       p: Prefix)
    requires Synchronized(ts, us, vs, r, grace) && TimesBy(ts, before)
    requires before + grace < r.earliest <= r.latest && grace >= 0 && p !in r.cluster && Count(ts, p) >= -1
    ensures Count(vs, p) >= -1 && TimesBy(vs, r.latest)
    ensures References(Count(vs, p)) == if References(Count(ts, p)) == 0 then 0 else References(Count(ts, p)) - 1
  {
    assert TimesBy(ts, r.latest);
    assert Count(vs, p) == Count(us, p);
    if Count(ts, p) != 0 { assert Overdue(ts, p, grace, r.earliest); }
  }

  /**
  Without new requests a network that no listing names loses exactly one reference at each of the
  spaced syncs until it has none, and none comes back.
  */
  lemma {:induction false} StaleDrained(ts: seq<Tree>, rounds: seq<Round>, us: seq<Tree>, grace: int, before: int,
                                        p: Prefix)
    requires Spaced(ts, rounds, us, grace, before) && TimesBy(ts, before) && grace >= 0 && Count(ts, p) >= -1
    requires forall k :: 0 <= k < |rounds| ==> p !in rounds[k].cluster
    ensures var n := References(Count(ts, p));
            References(Count(us, p)) == if |rounds| <= n then n - |rounds| else 0
    decreases |rounds|
  {
    if rounds != [] {
      var r := rounds[0];
      var vs, ws :| Synchronized(ts, vs, ws, r, grace) && Spaced(ws, rounds[1..], us, grace, r.latest);
      DrainedOnce(ts, vs, ws, r, grace, before, p);
      StaleDrained(ws, rounds[1..], us, grace, r.latest, p);
    }
  }

  /** The addresses to preallocate fit, by both of the limits the source looks at. */
  predicate Fits(p: Prefix, preallocated: nat) { preallocated <= p.bits && preallocated <= Size(p) }

  /** The network was granted and its first addresses are held. */
  ghost predicate GrantedFilled(ts: seq<Tree>, us: seq<Tree>, p: Prefix, q: Prefix, immutable: bool, exclusive: bool,
                                preallocated: nat) {
    Fits(q, preallocated) && AllAmongHeld(us, q, preallocated) && GrantedAs(ts, us, p, q, immutable, exclusive)
  }

  /** The addresses did not fit; the network is given back exactly when the clock has moved. */
  ghost predicate RolledBackTo(ts: seq<Tree>, us: seq<Tree>, p: Prefix, q: Prefix, preallocated: nat, moved: bool) {
    !Fits(q, preallocated) && q.bits == p.bits && (LedgerSame(ts, us) <==> moved)
  }

  /** The named network cannot be had and, for a mutable request, no pool has room for its size elsewhere. */
  ghost predicate NoneToGive(ts: seq<Tree>, p: Prefix, immutable: bool, exclusive: bool) {
    && !(IpamForest.IsPrefixInRoots(ts, p) && Canonical(p) && Grantable(ts, p, exclusive || !immutable))
    && (immutable || NoRoomBeside(ts, p))
  }

  /** The network was tracked already, or has just been acquired. */
  ghost predicate Tracked(ts: seq<Tree>, us: seq<Tree>, p: Prefix, d: Details, isCached: bool) {
    if isCached then us == ts && Count(ts, p) != 0
    else LedgerSet(ts, us, p, if d.exclusive then -1 else 1) && StillHeld(ts, us) && Count(ts, p) == 0
  }

  lemma {:induction false} SyncedByParts(ts: seq<Tree>, us: seq<Tree>, vs: seq<Tree>, p: Prefix, d: Details,
                                         isCached: bool)
    requires Tracked(ts, us, p, d, isCached) && Filled(us, vs, p, 0, d.preallocated)
    ensures SyncedOne(ts, vs, p, d, true)
  {}

  lemma {:induction false} SyncedMore(ts: seq<Tree>, us: seq<Tree>, vs: seq<Tree>, done: set<Prefix>,
                                      cluster: map<Prefix, Details>, p: Prefix)
    requires p in cluster && p !in done
    requires SyncedAll(ts, us, done, cluster) && SyncedOne(us, vs, p, cluster[p], Listed(ts, p, cluster[p]))
    ensures SyncedAll(ts, vs, done + {p}, cluster)
  {}

  // ----- addresses

  /** An address that no sync may free: the cluster lists it, or it is preallocated in a listed network. */
  ghost predicate Protected(p: Prefix, a: Addr, clusterIPs: map<Addr, Prefix>, networks: map<Prefix, Details>) {
    a in clusterIPs || (p in networks && Among(p.addr, networks[p].preallocated, a))
  }

  ghost predicate ProtectedKept(ts: seq<Tree>, us: seq<Tree>, clusterIPs: map<Addr, Prefix>,
                                networks: map<Prefix, Details>) {
    forall p: Prefix, a: Addr :: Protected(p, a, clusterIPs, networks) && Held(ts, p, a) ==> Held(us, p, a)
  }

  lemma {:induction false} TakeKeepsHeld(ts: seq<Tree>, us: seq<Tree>, p: Prefix, a: Addr, now: int)
    requires WfForest(us) && StillHeld(ts, us)
    ensures var (vs, answer) := OnAddresses(us, p, Take(a), now);
            StillHeld(ts, vs) && WfForest(vs) && (answer.Address? && answer.ip.Some? ==> Held(vs, p, a))
  {
    TakeExact(us, p, a, now);
    AddressStep(us, p, Take(a), now);
  }

  /** Every cached address is held by the network it is cached with, and that is acquired. */
  ghost predicate CachedHeld(ts: seq<Tree>, cached: map<Addr, Prefix>) {
    forall a: Addr :: a in cached ==> Held(ts, cached[a], a) && Count(ts, cached[a]) != 0
  }

  /** Every address that one of the networks holds is cached. */
  ghost predicate AllCached(ts: seq<Tree>, cached: map<Addr, Prefix>, networks: seq<Prefix>) {
    forall p: Prefix, a: Addr :: p in networks && Held(ts, p, a) ==> a in cached
  }

  lemma {:induction false} AllCachedMore(ts: seq<Tree>, known: map<Addr, Prefix>, cached: map<Addr, Prefix>,
                                         networks: seq<Prefix>, i: nat)
    requires i < |networks| && AllCached(ts, known, networks[..i]) && known.Keys <= cached.Keys
    requires forall a: Addr :: Held(ts, networks[i], a) ==> a in cached
    ensures AllCached(ts, cached, networks[..i + 1])
  {
    assert networks[..i + 1] == networks[..i] + [networks[i]];
  }

  lemma {:induction false} AllListedCached(ts: seq<Tree>, cached: map<Addr, Prefix>)
    requires WfForest(ts) && AllCached(ts, cached, IpamForest.ListNetworks(ts))
    ensures forall p: Prefix, a: Addr :: Count(ts, p) != 0 && Held(ts, p, a) ==> a in cached
  {
    forall p: Prefix | Count(ts, p) != 0 ensures p in IpamForest.ListNetworks(ts) { ListIsLedger(ts, p); }
  }

  lemma {:induction false} CachedMore(ts: seq<Tree>, cached: map<Addr, Prefix>, a: Addr, p: Prefix)
    requires CachedHeld(ts, cached) && Held(ts, p, a) && Count(ts, p) != 0
    ensures CachedHeld(ts, cached[a := p])
  {}

  /** The listed addresses of `done` that were not cached are held by the networks they are listed with. */
  ghost predicate ListedHeld(ts: seq<Tree>, done: set<Addr>, clusterIPs: map<Addr, Prefix>, cached: map<Addr, Prefix>) {
    forall a: Addr :: a in done && a in clusterIPs && a !in cached ==> Held(ts, clusterIPs[a], a)
  }

  /** The first `i` of an order. */
  function First<T(==)>(order: seq<T>, i: nat): set<T>
    requires i <= |order|
  {
    set a | a in order[..i]
  }

  lemma {:induction false} FirstMore<T>(order: seq<T>, i: nat)
    requires i < |order|
    ensures First(order, i + 1) == First(order, i) + {order[i]} && order[i] in order
  {}

  lemma {:induction false} FirstAll<T(!new)>(order: seq<T>, all: set<T>)
    requires forall a: T :: a in order <==> a in all
    ensures First(order, |order|) == all
  {}

  lemma {:induction false} ListedMore(ts: seq<Tree>, us: seq<Tree>, done: set<Addr>, clusterIPs: map<Addr, Prefix>,
                                      cached: map<Addr, Prefix>, a: Addr)
    requires ListedHeld(ts, done, clusterIPs, cached) && StillHeld(ts, us)
    requires a in clusterIPs && a !in cached ==> Held(us, clusterIPs[a], a)
    ensures ListedHeld(us, done + {a}, clusterIPs, cached)
  {}

  lemma {:induction false} StillHeldTwice(ts: seq<Tree>, us: seq<Tree>, vs: seq<Tree>)
    requires StillHeld(ts, us) && StillHeld(us, vs)
    ensures StillHeld(ts, vs)
  {}

  // ----- which addresses a sync frees

  /** Addresses other than those in `touched` have the grace periods they had. */
  ghost predicate SameAges(ts: seq<Tree>, us: seq<Tree>, touched: set<Addr>) {
    forall p: Prefix, a: Addr, grace: int, time: int :: a !in touched ==>
      (Returnable(us, p, a, grace, time) <==> Returnable(ts, p, a, grace, time))
  }

  lemma {:induction false} CallSameAges(ts: seq<Tree>, us: seq<Tree>, p: Prefix, call: AddressCall, now: int,
                                        touched: set<Addr>)
    requires WfForest(us) && SameAges(ts, us, touched) && !call.TakeAny?
    ensures SameAges(ts, OnAddresses(us, p, call, now).0, touched + {call.a})
  {
    var vs := OnAddresses(us, p, call, now).0;
    forall q: Prefix, b: Addr, grace: int, time: int | b !in touched + {call.a}
      ensures Returnable(vs, q, b, grace, time) <==> Returnable(ts, q, b, grace, time)
    {
      OthersReturnable(us, p, call, now, q, b, grace, time);
    }
  }

  /** An address that the free pass gives back if its grace period is over. */
  ghost predicate Stale(a: Addr, cached: map<Addr, Prefix>, clusterIPs: map<Addr, Prefix>,
                        networks: map<Prefix, Details>) {
    a in cached && !Protected(cached[a], a, clusterIPs, networks)
  }

  /**
  Of the addresses in `done` the stale ones are gone from the network they are cached with, if they were
  over age.
  */
  ghost predicate StaleFreed(ts: seq<Tree>, us: seq<Tree>, done: set<Addr>, cached: map<Addr, Prefix>,
                             clusterIPs: map<Addr, Prefix>, networks: map<Prefix, Details>, grace: int, earliest: int) {
    forall a: Addr :: a in done && Stale(a, cached, clusterIPs, networks)
                      && Count(ts, cached[a]) != 0 && Returnable(ts, cached[a], a, grace, earliest) ==>
                        !Held(us, cached[a], a)
  }

  /** And nothing else is gone: an address held elsewhere stays there. */
  ghost predicate OnlyStaleFreed(ts: seq<Tree>, us: seq<Tree>, done: set<Addr>, cached: map<Addr, Prefix>,
                                 clusterIPs: map<Addr, Prefix>, networks: map<Prefix, Details>, grace: int,
                                 latest: int) {
    forall p: Prefix, a: Addr :: Held(ts, p, a) && !Held(us, p, a) ==>
      && a in done && Stale(a, cached, clusterIPs, networks) && p == cached[a]
      && Count(ts, p) != 0 && Returnable(ts, p, a, grace, latest)
  }

  /** How far the free pass has come. */
  ghost predicate Freeing(ts: seq<Tree>, us: seq<Tree>, done: set<Addr>, cached: map<Addr, Prefix>,
                          clusterIPs: map<Addr, Prefix>, networks: map<Prefix, Details>, grace: int, earliest: int,
                          latest: int) {
    && LedgerSame(ts, us) && SameAges(ts, us, done) && NothingTaken(ts, us)
    && StaleFreed(ts, us, done, cached, clusterIPs, networks, grace, earliest)
    && OnlyStaleFreed(ts, us, done, cached, clusterIPs, networks, grace, latest)
  }

  ghost predicate NothingTaken(ts: seq<Tree>, us: seq<Tree>) {
    forall p: Prefix, a: Addr :: Held(us, p, a) ==> Held(ts, p, a)
  }

  lemma {:induction false} ReturnableLater(ts: seq<Tree>, p: Prefix, a: Addr, grace: int, time: int, later: int)
    requires Returnable(ts, p, a, grace, time) && time <= later
    ensures Returnable(ts, p, a, grace, later)
  {}

  /** Giving back a stale address that has not had its turn. */
  lemma {:induction false} FreeingGives(ts: seq<Tree>, us: seq<Tree>, done: set<Addr>, cached: map<Addr, Prefix>,
                                        clusterIPs: map<Addr, Prefix>, networks: map<Prefix, Details>, grace: int,
                                        earliest: int, latest: int, a: Addr, now: int)
    requires WfForest(us) && Freeing(ts, us, done, cached, clusterIPs, networks, grace, earliest, latest)
    requires a !in done && Stale(a, cached, clusterIPs, networks) && earliest <= now <= latest
    ensures var vs := OnAddresses(us, cached[a], Give(a, grace), now).0;
            Freeing(ts, vs, done + {a}, cached, clusterIPs, networks, grace, earliest, latest)
  {
    var p := cached[a];
    var vs := OnAddresses(us, p, Give(a, grace), now).0;
    GiveExact(us, p, a, grace, now);
    AddressStep(us, p, Give(a, grace), now);
    LedgerSameTwice(ts, us, vs);
    CallSameAges(ts, us, p, Give(a, grace), now, done);
    GivenIfOver(ts, us, p, a, grace, earliest, now, done);
    GivenOnlyIfOver(ts, us, p, a, grace, now, latest, done);
  }

  lemma {:induction false} GivenIfOver(ts: seq<Tree>, us: seq<Tree>, p: Prefix, a: Addr, grace: int, earliest: int,
                                       now: int, done: set<Addr>)
    requires WfForest(us) && LedgerSame(ts, us) && SameAges(ts, us, done) && a !in done && earliest <= now
    ensures Count(ts, p) != 0 && Returnable(ts, p, a, grace, earliest) ==>
              !Held(OnAddresses(us, p, Give(a, grace), now).0, p, a)
  {
    GiveExact(us, p, a, grace, now);
    if Count(ts, p) != 0 && Returnable(ts, p, a, grace, earliest) {
      assert Count(us, p) == Count(ts, p);
      ReturnableLater(us, p, a, grace, earliest, now);
    }
  }

  lemma {:induction false} GivenOnlyIfOver(ts: seq<Tree>, us: seq<Tree>, p: Prefix, a: Addr, grace: int, now: int,
                                           latest: int, done: set<Addr>)
    requires WfForest(us) && LedgerSame(ts, us) && SameAges(ts, us, done) && a !in done && now <= latest
    ensures OnAddresses(us, p, Give(a, grace), now).1 == Address(Some(a)) ==>
              Count(ts, p) != 0 && Returnable(ts, p, a, grace, latest)
  {
    GiveExact(us, p, a, grace, now);
    if OnAddresses(us, p, Give(a, grace), now).1 == Address(Some(a)) {
      assert Count(us, p) == Count(ts, p);
      ReturnableLater(us, p, a, grace, now, latest);
    }
  }

  lemma {:induction false} FreeingBegins(ts: seq<Tree>, cached: map<Addr, Prefix>, clusterIPs: map<Addr, Prefix>,
                                         networks: map<Prefix, Details>, grace: int, earliest: int, latest: int)
    requires WfForest(ts)
    ensures Freeing(ts, ts, {}, cached, clusterIPs, networks, grace, earliest, latest)
  {}

  lemma {:induction false} ProtectedStay(ts: seq<Tree>, us: seq<Tree>, done: set<Addr>, cached: map<Addr, Prefix>,
                                         clusterIPs: map<Addr, Prefix>, networks: map<Prefix, Details>, grace: int,
                                         latest: int)
    requires OnlyStaleFreed(ts, us, done, cached, clusterIPs, networks, grace, latest)
    ensures ProtectedKept(ts, us, clusterIPs, networks)
  {}

  /** How far the acquire pass has come; it touches only addresses that are not cached. */
  ghost predicate Acquiring(ts: seq<Tree>, us: seq<Tree>, done: set<Addr>, clusterIPs: map<Addr, Prefix>,
                            cached: map<Addr, Prefix>, latest: int) {
    && StillHeld(ts, us) && ListedHeld(us, done, clusterIPs, cached)
    && Quiet(ts, us, latest) && SameAges(ts, us, clusterIPs.Keys - cached.Keys)
  }

  /** What an address sync has freed, compared with before its acquire pass. */
  lemma {:induction false} FreedOverall(ts: seq<Tree>, us: seq<Tree>, vs: seq<Tree>, cached: map<Addr, Prefix>,
                                        clusterIPs: map<Addr, Prefix>, networks: map<Prefix, Details>, grace: int,
                                        earliest: int, latest: int)
    requires Acquiring(ts, us, clusterIPs.Keys, clusterIPs, cached, latest)
    requires Freeing(us, vs, cached.Keys, cached, clusterIPs, networks, grace, earliest, latest)
    ensures StaleFreed(ts, vs, cached.Keys, cached, clusterIPs, networks, grace, earliest)
    ensures OnlyStaleFreed(ts, vs, cached.Keys, cached, clusterIPs, networks, grace, latest)
  {
    forall a: Addr | Stale(a, cached, clusterIPs, networks) && Count(ts, cached[a]) != 0
                     && Returnable(ts, cached[a], a, grace, earliest)
      ensures !Held(vs, cached[a], a)
    {
      assert Count(us, cached[a]) == Count(ts, cached[a]) && Returnable(us, cached[a], a, grace, earliest);
    }
    forall p: Prefix, a: Addr | Held(ts, p, a) && !Held(vs, p, a)
      ensures Stale(a, cached, clusterIPs, networks) && p == cached[a]
      ensures Count(ts, p) != 0 && Returnable(ts, p, a, grace, latest)
    {
      assert Held(us, p, a) && Count(us, p) == Count(ts, p);
    }
  }

  /** An address that is not stale has its turn without anything happening. */
  lemma {:induction false} FreeingSkips(ts: seq<Tree>, us: seq<Tree>, done: set<Addr>, cached: map<Addr, Prefix>,
                                        clusterIPs: map<Addr, Prefix>, networks: map<Prefix, Details>, grace: int,
                                        earliest: int, latest: int, a: Addr)
    requires Freeing(ts, us, done, cached, clusterIPs, networks, grace, earliest, latest)
    requires !Stale(a, cached, clusterIPs, networks)
    ensures Freeing(ts, us, done + {a}, cached, clusterIPs, networks, grace, earliest, latest)
  {}

  /** After both passes every listed address is held. */
  ghost predicate AllListedHeld(ts: seq<Tree>, clusterIPs: map<Addr, Prefix>, cached: map<Addr, Prefix>) {
    forall a: Addr :: a in clusterIPs ==> Held(ts, if a in cached then cached[a] else clusterIPs[a], a)
  }

  lemma {:induction false} ListedStayHeld(ts: seq<Tree>, us: seq<Tree>, vs: seq<Tree>, done: set<Addr>,
                                          clusterIPs: map<Addr, Prefix>, cached: map<Addr, Prefix>,
                                              networks: map<Prefix, Details>)
    requires CachedHeld(ts, cached) && StillHeld(ts, us) && ListedHeld(us, done, clusterIPs, cached)
    requires clusterIPs.Keys <= done
    requires ProtectedKept(us, vs, clusterIPs, networks)
    ensures AllListedHeld(vs, clusterIPs, cached) && ProtectedKept(ts, vs, clusterIPs, networks)
  {}

  /** The two phases of an address sync, one after the other. */
  lemma {:induction false} PhasesTogether(ts: seq<Tree>, us: seq<Tree>, vs: seq<Tree>, cached: map<Addr, Prefix>,
                                          clusterIPs: map<Addr, Prefix>, networks: map<Prefix, Details>, grace: int,
                                          earliest: int, latest: int)
    requires CachedHeld(ts, cached) && Acquiring(ts, us, clusterIPs.Keys, clusterIPs, cached, latest)
    requires Freeing(us, vs, cached.Keys, cached, clusterIPs, networks, grace, earliest, latest)
    requires ProtectedKept(us, vs, clusterIPs, networks) && Quiet(us, vs, latest)
    ensures AllListedHeld(vs, clusterIPs, cached) && ProtectedKept(ts, vs, clusterIPs, networks)
    ensures StaleFreed(ts, vs, cached.Keys, cached, clusterIPs, networks, grace, earliest)
    ensures OnlyStaleFreed(ts, vs, cached.Keys, cached, clusterIPs, networks, grace, latest)
    ensures Quiet(ts, vs, latest)
  {
    ListedStayHeld(ts, us, vs, clusterIPs.Keys, clusterIPs, cached, networks);
    FreedOverall(ts, us, vs, cached, clusterIPs, networks, grace, earliest, latest);
    QuietTwice(ts, us, vs, latest);
  }

  // ----- the answer to an acquire request

  datatype Outcome = Granted(net: Prefix) | Outside(net: Prefix) | Rejected | Unavailable | RolledBack(net: Prefix)

  /** The ledger change of a granted request. */
  ghost predicate GrantedAs(ts: seq<Tree>, us: seq<Tree>, p: Prefix, q: Prefix, immutable: bool, exclusive: bool) {
    && q.bits == p.bits && (immutable ==> q == p)
    && Grantable(ts, q, exclusive || !immutable)
    && LedgerSet(ts, us, q, if immutable && !exclusive then Count(ts, q) + 1 else -1)
  }

  ghost predicate Acquired(ts: seq<Tree>, us: seq<Tree>, p: Prefix, q: Prefix, immutable: bool, exclusive: bool,
                           now: int) {
    GrantedAs(ts, us, p, q, immutable, exclusive) && Count(us, q) != 0 && Count(ts, q) >= 0 && LastUpdate(us, q) == now
  }

  lemma {:induction false} LedgerSameTwice(ts: seq<Tree>, us: seq<Tree>, vs: seq<Tree>)
    requires LedgerSame(ts, us) && LedgerSame(us, vs)
    ensures LedgerSame(ts, vs)
  {}

  lemma {:induction false} CountAtLeast(ts: seq<Tree>, p: Prefix)
    requires AllWf(ts)
    ensures Count(ts, p) >= -1
  {
    if ts != [] {
      if IsPrefixChildOf(ts[0].d.prefix, p) { RefAtLeast(ts[0], Rel(ts[0], p)); } else { CountAtLeast(ts[1..], p); }
    }
  }

  /** The named network, acquired. */
  lemma {:induction false} AcquiredAsNamed(ts: seq<Tree>, p: Prefix, immutable: bool, exclusive: bool, now: int)
    requires WfForest(ts)
    ensures var (us, answer) := NetworkAcquireWithPrefix(ts, p, exclusive || !immutable, now);
            && (answer.None? ==> LedgerSame(ts, us))
            && (answer.Some? ==> answer.value == p && Acquired(ts, us, p, p, immutable, exclusive, now))
  {
    var sole := exclusive || !immutable;
    AcquireThisNetwork(ts, p, sole, now);
    if NetworkAcquireWithPrefix(ts, p, sole, now).1.Some? {
      AcquireThisTouches(ts, p, sole, now);
      CountAtLeast(ts, p);
      assert Overlaps(p, p) && Tolerates(Count(ts, p), sole);
    }
  }

  /** Any network of the size, acquired after a refusal that changed no count. */
  lemma {:induction false} AcquiredBySize(ts: seq<Tree>, us: seq<Tree>, p: Prefix, exclusive: bool, now: int)
    requires LedgerSame(ts, us)
    ensures var (vs, answer) := IpamForest.NetworkAcquire(us, p.bits, true, now);
            && (answer.None? ==> LedgerSame(ts, vs))
            && (answer.Some? ==> Acquired(ts, vs, p, answer.value, false, exclusive, now))
  {
    var (vs, answer) := IpamForest.NetworkAcquire(us, p.bits, true, now);
    AcquireAnyNetwork(us, p.bits, true, now);
    if answer.Some? {
      AcquireAnyTouches(us, p.bits, true, now);
      AcquiredInstead(ts, us, vs, p, answer.value, exclusive, now);
    } else {
      LedgerSameTwice(ts, us, vs);
    }
  }

  /** The fallback by size, seen from before the refused attempt. */
  lemma {:induction false} AcquiredInstead(ts: seq<Tree>, us: seq<Tree>, vs: seq<Tree>, p: Prefix, q: Prefix,
                                           exclusive: bool, now: int)
    requires LedgerSame(ts, us) && q.bits == p.bits && Grantable(us, q, true) && LedgerSet(us, vs, q, -1)
    requires LastUpdate(vs, q) == now
    ensures Acquired(ts, vs, p, q, false, exclusive, now)
  {}

  lemma {:induction false} GrantedByParts(ts: seq<Tree>, us: seq<Tree>, vs: seq<Tree>, p: Prefix, q: Prefix, n: nat,
                                          immutable: bool, exclusive: bool, now: int)
    requires Acquired(ts, us, p, q, immutable, exclusive, now) && Filled(us, vs, q, 0, n)
    ensures GrantedAs(ts, vs, p, q, immutable, exclusive) && AllAmongHeld(vs, q, n)
  {}

  /** Releasing right after acquiring restores the ledger exactly when the clock has moved on. */
  lemma {:induction false} RollBack(ts: seq<Tree>, us: seq<Tree>, vs: seq<Tree>, p: Prefix, q: Prefix, k: nat,
                                    immutable: bool, exclusive: bool, now: int, clock: nat -> int)
    requires Acquired(ts, us, p, q, immutable, exclusive, now) && Filled(us, vs, q, 0, k)
    requires TimedSteps(us, vs, {q}, now)
    ensures LedgerSame(ts, IpamForest.NetworkRelease(vs, q, 0, clock).0) <==> now < clock(p.bits)
  {
    var ws := IpamForest.NetworkRelease(vs, q, 0, clock).0;
    ReleaseThisNetwork(vs, q, 0, clock);
    assert Count(vs, q) == Count(us, q) && Overlaps(q, q);
    assert Tolerates(Count(ts, q), exclusive || !immutable);
    forall x: Prefix | x != q ensures Count(ws, x) == Count(ts, x) { assert Count(us, x) == Count(vs, x); }
  }

  // ----- the server

  class Server {
    const core: IpamCore.Ipam

    constructor (core: IpamCore.Ipam)
      ensures this.core == core
    {
      this.core := core;
    }

    ghost predicate Valid()
      reads core, core.Repr
    {
      core.Valid() && WfForest(core.Models())
    }

    /** One turn of the loop below: the `i`-th address is made sure of. */
    method PreallocateOne(p: Prefix, ghost i: nat, addr: Option<Addr>, now: int) returns (ok: bool)
      requires Valid() && Canonical(p) && addr == Nth(p.addr, i)
      modifies core.Repr
      ensures Valid() && core.Repr == old(core.Repr) && core.roots == old(core.roots)
      ensures old(Count(core.Models(), p)) != 0 ==> (ok <==> i < Size(p))
      ensures Filled(old(core.Models()), core.Models(), p, i, if ok then i + 1 else i)
      ensures TimedSteps(old(core.Models()), core.Models(), {p}, now)
    {
      ghost var ts := core.Models();
      NthInNetwork(p, i);
      if addr.None? { return false; }
      NotHeldOutside(ts, p, addr.value);
      var inPools, taken := core.IPIsAllocated(p, addr.value);
      if taken {
        NthHeld(ts, p, i);
        return true;
      }
      ok := TakeOne(p, i, addr.value, now);
    }

    method TakeOne(p: Prefix, ghost i: nat, a: Addr, now: int) returns (ok: bool)
      requires Valid() && Canonical(p) && Nth(p.addr, i) == Some(a) && !Held(core.Models(), p, a)
      modifies core.Repr
      ensures Valid() && core.Repr == old(core.Repr) && core.roots == old(core.roots)
      ensures ok <==> old(Count(core.Models(), p)) != 0 && i < Size(p)
      ensures Filled(old(core.Models()), core.Models(), p, i, if ok then i + 1 else i)
      ensures TimedSteps(old(core.Models()), core.Models(), {p}, now)
    {
      NthTaken(core.Models(), p, i, now);
      CallTimed(core.Models(), p, Take(a), now);
      var answer := core.OnAddresses(p, Take(a), now);
      return answer.Address? && answer.ip.Some?;
    }

    /**
    The size check compares the count with the number of prefix bits, not with the number of addresses:
    an acquired network gets its first `n` addresses exactly when `n` is at most both.
    */
    method AcquirePreallocatedIPs(p: Prefix, n: nat, now: int) returns (ok: bool, ghost k: nat)
      requires Valid() && Canonical(p)
      modifies core.Repr
      ensures Valid() && core.Repr == old(core.Repr) && core.roots == old(core.roots)
      ensures old(Count(core.Models(), p)) != 0 ==> (ok <==> n <= p.bits && n <= Size(p))
      ensures k <= n && (ok ==> k == n) && Filled(old(core.Models()), core.Models(), p, 0, k)
      ensures TimedSteps(old(core.Models()), core.Models(), {p}, now)
    {
      ghost var ts := core.Models();
      if p.bits < n { return false, 0; }
      var addr: Option<Addr> := Some(p.addr);
      var i := 0;
      while i < n
        invariant 0 <= i <= n && addr == Nth(p.addr, i)
        invariant Valid() && core.Repr == old(core.Repr) && core.roots == old(core.roots)
        invariant Count(ts, p) != 0 ==> i <= Size(p)
        invariant Filled(ts, core.Models(), p, 0, i)
        invariant TimedSteps(ts, core.Models(), {p}, now)
      {
        ghost var us := core.Models();
        ok := PreallocateOne(p, i, addr, now);
        FilledTwice(ts, us, core.Models(), p, 0, i, if ok then i + 1 else i);
        TimedTwice(ts, us, core.Models(), {p}, {p}, now);
        if !ok { return false, i; }
        addr := if addr.Some? then After(addr.value) else None;
        i := i + 1;
      }
      return true, n;
    }

    method NetworkAcquireSpecific(p: Prefix, exclusive: bool, now: int) returns (ok: bool)
      requires Valid()
      modifies core.Repr
      ensures Valid() && fresh(core.Repr - old(core.Repr)) && core.roots == old(core.roots)
      ensures ok <==> old(core.InPools(p) && Canonical(p) && Grantable(core.Models(), p, exclusive))
      ensures ok ==> LedgerSet(old(core.Models()), core.Models(), p, if exclusive then -1
                               else old(Count(core.Models(), p)) + 1)
      ensures !ok ==> LedgerSame(old(core.Models()), core.Models())
      ensures StillHeld(old(core.Models()), core.Models()) && TimedSteps(old(core.Models()), core.Models(), {p}, now)
    {
      ghost var ts := core.Models();
      core.InPoolsIsInRoots(p);
      AcquireThisNetwork(ts, p, exclusive, now);
      AcquireTimed(ts, p, exclusive, now);
      var answer := core.NetworkAcquireWithPrefix(p, exclusive, now);
      forall q: Prefix, a: Addr | Held(ts, q, a)
        ensures Held(core.Models(), q, a)
      {
        AcquireKeepsHeld(ts, p, exclusive, now, q, a);
      }
      return answer.Some?;
    }

    method NetworkRelease(p: Prefix, grace: int, clock: nat -> int)
      requires Valid()
      modifies core.Repr
      ensures Valid() && core.Repr == old(core.Repr) && core.roots == old(core.roots)
      ensures core.Models() == IpamForest.NetworkRelease(old(core.Models()), p, grace, clock).0
    {
      ReleaseThisNetwork(core.Models(), p, grace, clock);
      var answer := core.NetworkRelease(p, grace, clock);
    }

    // ----- an acquire request

    /** The network acquired for a request: the named one, or for a mutable request any of the same size. */
    method AcquireRequested(p: Prefix, immutable: bool, exclusive: bool, now: int) returns (answer: Option<Prefix>)
      requires Valid()
      modifies core.Repr
      ensures Valid() && fresh(core.Repr - old(core.Repr)) && core.roots == old(core.roots)
      ensures answer.None? <==> NoneToGive(old(core.Models()), p, immutable, exclusive)
      ensures answer.None? ==> LedgerSame(old(core.Models()), core.Models())
      ensures answer.Some? ==> Acquired(old(core.Models()), core.Models(), p, answer.value, immutable, exclusive, now)
    {
      ghost var ts := core.Models();
      AcquiredAsNamed(ts, p, immutable, exclusive, now);
      AcquireThisNetwork(ts, p, exclusive || !immutable, now);
      answer := core.NetworkAcquireWithPrefix(p, exclusive || !immutable, now);
      if answer.None? && !immutable { answer := AcquireBySize(ts, p, exclusive, now); }
    }

    method AcquireBySize(ghost ts: seq<Tree>, p: Prefix, ghost exclusive: bool, now: int)
      returns (answer: Option<Prefix>)
      requires Valid() && WfForest(ts) && NetworkAcquireWithPrefix(ts, p, true, now) == (core.Models(), None)
      modifies core.Repr
      ensures Valid() && fresh(core.Repr - old(core.Repr)) && core.roots == old(core.roots)
      ensures answer.None? <==> NoRoomBeside(ts, p)
      ensures answer.None? ==> LedgerSame(ts, core.Models())
      ensures answer.Some? ==> Acquired(ts, core.Models(), p, answer.value, false, exclusive, now)
    {
      AcquireThisNetwork(ts, p, true, now);
      RefusedRoom(ts, p, now);
      AcquiredBySize(ts, core.Models(), p, exclusive, now);
      AcquireAnyNetwork(core.Models(), p.bits, true, now);
      AcquireAnyIff(core.Models(), p.bits, true, now);
      answer := core.NetworkAcquire(p.bits, true, now);
    }

    /** The preallocated addresses of a network just acquired, or its release again. */
    method PreallocateOrRollBack(ghost ts: seq<Tree>, p: Prefix, q: Prefix, ghost immutable: bool,
                                 ghost exclusive: bool,
                                 preallocated: nat, now: int, clock: nat -> int) returns (ok: bool)
      requires Valid() && Acquired(ts, core.Models(), p, q, immutable, exclusive, now)
      modifies core.Repr
      ensures Valid() && core.Repr == old(core.Repr) && core.roots == old(core.roots)
      ensures ok <==> preallocated <= q.bits && preallocated <= Size(q)
      ensures ok ==> GrantedAs(ts, core.Models(), p, q, immutable, exclusive)
      ensures ok ==> AllAmongHeld(core.Models(), q, preallocated)
      ensures !ok ==> (LedgerSame(ts, core.Models()) <==> now < clock(p.bits))
    {
      ghost var us := core.Models();
      CountedIsCanonical(us, q);
      ghost var k;
      ok, k := AcquirePreallocatedIPs(q, preallocated, now);
      if ok {
        GrantedByParts(ts, us, core.Models(), p, q, preallocated, immutable, exclusive, now);
      } else {
        GiveUp(ts, us, p, q, k, immutable, exclusive, now, clock);
      }
    }

    method GiveUp(ghost ts: seq<Tree>, ghost us: seq<Tree>, ghost p: Prefix, q: Prefix, ghost k: nat,
                  ghost immutable: bool, ghost exclusive: bool, ghost now: int, clock: nat -> int)
      requires Valid() && Acquired(ts, us, p, q, immutable, exclusive, now)
      requires Filled(us, core.Models(), q, 0, k) && TimedSteps(us, core.Models(), {q}, now)
      modifies core.Repr
      ensures Valid() && core.Repr == old(core.Repr) && core.roots == old(core.roots)
      ensures LedgerSame(ts, core.Models()) <==> now < clock(p.bits)
    {
      RollBack(ts, us, core.Models(), p, q, k, immutable, exclusive, now, clock);
      NetworkRelease(q, 0, clock);
    }

    /**
    `NetworkAcquire`. A refused request leaves the ledger as it was; a request whose addresses do not
    fit is rolled back, and the ledger is then as before exactly when the clock has moved on since
    the acquisition.
    */
    method NetworkAcquire(p: Prefix, immutable: bool, exclusive: bool, preallocated: nat, now: int, clock: nat -> int)
      returns (r: Outcome)
      requires Valid()
      modifies core.Repr
      ensures Valid() && fresh(core.Repr - old(core.Repr)) && core.roots == old(core.roots)
      ensures r.Outside? <==> immutable && !exclusive && !core.InPools(p)
      ensures r.Rejected? <==> immutable && exclusive && !core.InPools(p)
      ensures r.Outside? ==> r.net == p
      ensures r.Unavailable? <==>
                !r.Outside? && !r.Rejected? && NoneToGive(old(core.Models()), p, immutable, exclusive)
      ensures r.Outside? || r.Rejected? || r.Unavailable? ==> LedgerSame(old(core.Models()), core.Models())
      ensures r.Granted? ==>
                GrantedFilled(old(core.Models()), core.Models(), p, r.net, immutable, exclusive, preallocated)
      ensures r.RolledBack? ==>
                RolledBackTo(old(core.Models()), core.Models(), p, r.net, preallocated, now < clock(p.bits))
    {
      var inPool := core.IsPrefixInRoots(p);
      if !inPool && immutable && !exclusive { return Outside(p); }
      if !inPool && immutable { return Rejected; }
      r := AcquireAndFill(p, immutable, exclusive, preallocated, now, clock);
    }

    /** The part of `networkAcquire` after the pools have been looked at. */
    method AcquireAndFill(p: Prefix, immutable: bool, exclusive: bool, preallocated: nat, now: int, clock: nat -> int)
      returns (r: Outcome)
      requires Valid()
      modifies core.Repr
      ensures Valid() && fresh(core.Repr - old(core.Repr)) && core.roots == old(core.roots)
      ensures !r.Outside? && !r.Rejected?
      ensures r.Unavailable? <==> NoneToGive(old(core.Models()), p, immutable, exclusive)
      ensures r.Unavailable? ==> LedgerSame(old(core.Models()), core.Models())
      ensures r.Granted? ==>
                GrantedFilled(old(core.Models()), core.Models(), p, r.net, immutable, exclusive, preallocated)
      ensures r.RolledBack? ==>
                RolledBackTo(old(core.Models()), core.Models(), p, r.net, preallocated, now < clock(p.bits))
    {
      ghost var ts := core.Models();
      var answer := AcquireRequested(p, immutable, exclusive, now);
      if answer.None? { return Unavailable; }
      var ok := PreallocateOrRollBack(ts, p, answer.value, immutable, exclusive, preallocated, now, clock);
      return if ok then Granted(answer.value) else RolledBack(answer.value);
    }

    // ----- sync of the networks

    /** One turn of `syncNetworkAcquire`. */
    method SyncAcquireOne(p: Prefix, d: Details, isCached: bool, now: int, clock: nat -> int) returns (ok: bool)
      requires Valid() && (isCached <==> Count(core.Models(), p) != 0)
      modifies core.Repr
      ensures Valid() && fresh(core.Repr - old(core.Repr)) && core.roots == old(core.roots)
      ensures ok ==> SyncedOne(old(core.Models()), core.Models(), p, d, core.InPools(p) || d.exclusive)
      ensures ok ==> TimedSteps(old(core.Models()), core.Models(), {p}, now)
    {
      ghost var ts := core.Models();
      var inPool := core.IsPrefixInRoots(p);
      if !inPool && !d.exclusive { return true; }
      if !isCached {
        ok := NetworkAcquireSpecific(p, d.exclusive, now);
        if !ok { return; }
      }
      ok := FillTracked(ts, p, d, isCached, now, clock);
    }

    /** The preallocated addresses of a tracked network, or one reference less. */
    method FillTracked(ghost ts: seq<Tree>, p: Prefix, d: Details, ghost isCached: bool, now: int, clock: nat -> int)
      returns (ok: bool)
      requires Valid() && Tracked(ts, core.Models(), p, d, isCached) && TimedSteps(ts, core.Models(), {p}, now)
      modifies core.Repr
      ensures Valid() && core.Repr == old(core.Repr) && core.roots == old(core.roots)
      ensures ok ==> SyncedOne(ts, core.Models(), p, d, true) && TimedSteps(ts, core.Models(), {p}, now)
    {
      ghost var us := core.Models();
      CountedIsCanonical(us, p);
      ghost var k;
      ok, k := AcquirePreallocatedIPs(p, d.preallocated, now);
      if !ok {
        NetworkRelease(p, 0, clock);
        return;
      }
      SyncedByParts(ts, us, core.Models(), p, d, isCached);
      TimedTwice(ts, us, core.Models(), {p}, {p}, now);
    }

    /**
    `syncNetworkAcquire`, the map visited in any order: when it completes, every network the cluster
    lists in a pool or as exclusive is held, with its preallocated addresses, and nothing else has changed.
    */
    method SyncNetworkAcquire(order: seq<Prefix>, cluster: map<Prefix, Details>, cached: set<Prefix>, now: int,
                              clock: nat -> int)
      returns (ok: bool)
      requires Valid() && Distinct(order) && (forall p: Prefix :: p in order <==> p in cluster)
      requires forall p: Prefix :: p in cached <==> Count(core.Models(), p) != 0
      modifies core.Repr
      ensures Valid() && fresh(core.Repr - old(core.Repr)) && core.roots == old(core.roots)
      ensures ok ==> SyncedAll(old(core.Models()), core.Models(), cluster.Keys, cluster)
      ensures ok ==> TimedSteps(old(core.Models()), core.Models(), cluster.Keys, now)
    {
      ghost var ts := core.Models();
      forall p: Prefix ensures core.InPools(p) <==> IsPrefixInRoots(ts, p) { core.InPoolsIsInRoots(p); }
      var i := 0;
      while i < |order|
        invariant 0 <= i <= |order|
        invariant Valid() && fresh(core.Repr - old(core.Repr)) && core.roots == old(core.roots)
        invariant SyncedAll(ts, core.Models(), First(order, i), cluster)
        invariant TimedSteps(ts, core.Models(), First(order, i), now)
      {
        var p := order[i];
        FirstMore(order, i);
        assert p !in First(order, i);
        ghost var us := core.Models();
        assert Count(us, p) == Count(ts, p);
        ok := SyncAcquireOne(p, cluster[p], p in cached, now, clock);
        if !ok { return; }
        SyncedMore(ts, us, core.Models(), First(order, i), cluster, p);
        TimedMore(ts, us, First(order, i), First(order, i + 1), now);
        TimedTwice(ts, us, core.Models(), First(order, i + 1), {p}, now);
        i := i + 1;
      }
      FirstAll(order, cluster.Keys);
      return true;
    }

    /**
    `syncNetworkFree`, the map visited in any order and the clock read between `earliest` and `latest`:
    no network the cluster lists loses a reference, no other loses more than one, and while the clock is
    steady every overdue one loses exactly one.
    */
    method SyncNetworkFree(order: seq<Prefix>, cluster: map<Prefix, Details>, grace: int, clocks: nat -> nat -> int,
                           ghost earliest: int, ghost latest: int)
      requires Valid() && Distinct(order) && forall p: Prefix :: p in order ==> Count(core.Models(), p) != 0
      requires ReadBetween(clocks, earliest, latest)
      modifies core.Repr
      ensures Valid() && core.Repr == old(core.Repr) && core.roots == old(core.roots)
      ensures FreeStates(old(core.Models()), core.Models(), (set p | p in order && p !in cluster), grace, earliest,
                         latest,
                         Steady(clocks, grace))
    {
      ghost var ts := core.Models();
      ghost var visited: set<Prefix> := {};
      ghost var steady := Steady(clocks, grace);
      var i := 0;
      while i < |order|
        invariant 0 <= i <= |order|
        invariant Valid() && core.Repr == old(core.Repr) && core.roots == old(core.roots)
        invariant visited == set p: Prefix | p in order[..i] && p !in cluster
        invariant FreeStates(ts, core.Models(), visited, grace, earliest, latest, steady)
      {
        var q := order[i];
        assert q in order && q !in order[..i] && order[..i + 1] == order[..i] + [q];
        if q !in cluster {
          FreeStepAll(ts, core.Models(), q, grace, clocks(i), visited, earliest, latest, steady);
          NetworkRelease(q, grace, clocks(i));
          visited := visited + {q};
        }
        i := i + 1;
      }
      assert order[..|order|] == order;
    }

    /**
    `syncNetworks`: a sync that completes has taken no reference from a network the cluster lists and
    left every listed one tracked; no other network loses more than one reference and, while the clock
    is steady, every overdue one loses exactly one.
    */
    method SyncNetworks(cluster: map<Prefix, Details>, listing: seq<Prefix>, now: int, clock: nat -> int,
                        grace: int, clocks: nat -> nat -> int, ghost earliest: int, ghost latest: int)
      returns (ok: bool)
      requires Valid() && Distinct(listing) && (forall p: Prefix :: p in listing <==> p in cluster)
      requires ReadBetween(clocks, earliest, latest)
      modifies core.Repr
      ensures Valid() && fresh(core.Repr - old(core.Repr)) && core.roots == old(core.roots)
      ensures ok ==> NetworksSynced(old(core.Models()), core.Models(), cluster, grace, earliest, Steady(clocks, grace))
      ensures ok && Steady(clocks, grace) && now <= latest ==>
                SteadySync(old(core.Models()), core.Models(), cluster, grace, earliest, latest)
    {
      ghost var ts := core.Models();
      var cachedList := core.ListNetworks();
      ListHasNoDuplicates(ts);
      forall p: Prefix ensures p in cachedList <==> Count(ts, p) != 0 { ListIsLedger(ts, p); }
      var cached := set p | p in cachedList;
      ok := SyncNetworkAcquire(listing, cluster, cached, now, clock);
      if !ok { return; }
      ghost var us := core.Models();
      forall p: Prefix | p in cachedList ensures Count(us, p) != 0 { assert p in cached; }
      SyncNetworkFree(cachedList, cluster, grace, clocks, earliest, latest);
      ghost var visited := set p | p in cachedList && p !in cluster;
      assert AllTurned(ts, cluster, visited);
      SyncOutcome(ts, us, core.Models(), cluster, visited, grace, earliest, latest, Steady(clocks, grace), now);
      if Steady(clocks, grace) && now <= latest && TimesBy(ts, latest) {
        SyncTimes(ts, us, core.Models(), cluster, visited, grace, earliest, latest, now);
      }
      return true;
    }

    // ----- sync of the addresses

    /** `iscachedIPPreallocated`: exactly the first addresses of a listed network. */
    method IsCachedIPPreallocated(a: Addr, p: Prefix, networks: map<Prefix, Details>) returns (b: bool)
      ensures b <==> p in networks && Among(p.addr, networks[p].preallocated, a)
    {
      if p !in networks { return false; }
      var n := networks[p].preallocated;
      var next: Option<Addr> := Some(p.addr);
      var i := 0;
      while i < n
        invariant 0 <= i <= n && next == Nth(p.addr, i)
        invariant !Among(p.addr, i, a)
      {
        NthIsOffset(p.addr, i);
        NumBound(a);
        if next.Some? { NthAlone(p, i, a); }
        if next == Some(a) { return true; }
        next := if next.Some? then After(next.value) else None;
        i := i + 1;
      }
      return false;
    }

    method IpAcquireWithAddr(a: Addr, p: Prefix, now: int) returns (ok: bool)
      requires Valid()
      modifies core.Repr
      ensures Valid() && core.Repr == old(core.Repr) && core.roots == old(core.roots)
      ensures core.Models() == OnAddresses(old(core.Models()), p, Take(a), now).0
      ensures StillHeld(old(core.Models()), core.Models())
      ensures ok <==> old(Contains(p, a) && Count(core.Models(), p) != 0 && !Held(core.Models(), p, a))
      ensures ok ==> Held(core.Models(), p, a)
    {
      TakeExact(core.Models(), p, a, now);
      TakeKeepsHeld(core.Models(), core.Models(), p, a, now);
      var answer := core.OnAddresses(p, Take(a), now);
      return answer.Address? && answer.ip.Some?;
    }

    method SyncIPAcquireOne(a: Addr, clusterIPs: map<Addr, Prefix>, cachedIPs: map<Addr, Prefix>, now: int,
                            ghost ts: seq<Tree>, ghost done: set<Addr>, ghost latest: int) returns (ok: bool)
      requires Valid() && a in clusterIPs && now <= latest
      requires Acquiring(ts, core.Models(), done, clusterIPs, cachedIPs, latest)
      modifies core.Repr
      ensures Valid() && core.Repr == old(core.Repr) && core.roots == old(core.roots)
      ensures Acquiring(ts, core.Models(), if ok then done + {a} else {}, clusterIPs, cachedIPs, latest)
    {
      ghost var us := core.Models();
      ok := true;
      if a !in cachedIPs {
        CallIsQuiet(us, clusterIPs[a], Take(a), now, latest);
        CallSameAges(ts, us, clusterIPs[a], Take(a), now, clusterIPs.Keys - cachedIPs.Keys);
        assert clusterIPs.Keys - cachedIPs.Keys + {a} == clusterIPs.Keys - cachedIPs.Keys;
        ok := IpAcquireWithAddr(a, clusterIPs[a], now);
        StillHeldTwice(ts, us, core.Models());
        QuietTwice(ts, us, core.Models(), latest);
      }
      if ok { ListedMore(us, core.Models(), done, clusterIPs, cachedIPs, a); }
    }

    /**
    `syncIPsAcquire`, in any order: when it completes, every listed address that was not cached is held. No
    count of a network changes and no address that is cached.
    */
    method SyncIPsAcquire(order: seq<Addr>, clusterIPs: map<Addr, Prefix>, cachedIPs: map<Addr, Prefix>,
                          clock: nat -> int, ghost latest: int)
      returns (ok: bool)
      requires Valid() && (forall a: Addr :: a in order <==> a in clusterIPs) && forall k: nat :: clock(k) <= latest
      modifies core.Repr
      ensures Valid() && core.Repr == old(core.Repr) && core.roots == old(core.roots)
      ensures Acquiring(old(core.Models()), core.Models(), if ok then clusterIPs.Keys else {}, clusterIPs, cachedIPs,
                        latest)
    {
      ghost var ts := core.Models();
      var i := 0;
      while i < |order|
        invariant 0 <= i <= |order|
        invariant Valid() && core.Repr == old(core.Repr) && core.roots == old(core.roots)
        invariant Acquiring(ts, core.Models(), First(order, i), clusterIPs, cachedIPs, latest)
      {
        FirstMore(order, i);
        ok := SyncIPAcquireOne(order[i], clusterIPs, cachedIPs, clock(i), ts, First(order, i), latest);
        if !ok { return; }
        i := i + 1;
      }
      FirstAll(order, clusterIPs.Keys);
      return true;
    }

    /**
    `syncIPsFree`, in any order: a cached address that is neither listed nor preallocated is freed in the
    network it is cached with once its grace period is over, and no other address is freed anywhere.
    */
    method SyncIPsFree(order: seq<Addr>, clusterIPs: map<Addr, Prefix>, cachedIPs: map<Addr, Prefix>,
                       networks: map<Prefix, Details>, grace: int, clock: nat -> int, ghost earliest: int,
                       ghost latest: int)
      requires Valid() && Distinct(order) && forall a: Addr :: a in order <==> a in cachedIPs
      requires forall k: nat :: earliest <= clock(k) <= latest
      modifies core.Repr
      ensures Valid() && core.Repr == old(core.Repr) && core.roots == old(core.roots)
      ensures Freeing(old(core.Models()), core.Models(), cachedIPs.Keys, cachedIPs, clusterIPs, networks, grace,
                      earliest, latest)
      ensures ProtectedKept(old(core.Models()), core.Models(), clusterIPs, networks)
      ensures Quiet(old(core.Models()), core.Models(), latest)
    {
      ghost var ts := core.Models();
      FreeingBegins(ts, cachedIPs, clusterIPs, networks, grace, earliest, latest);
      var i := 0;
      while i < |order|
        invariant 0 <= i <= |order|
        invariant Valid() && core.Repr == old(core.Repr) && core.roots == old(core.roots)
        invariant Freeing(ts, core.Models(), First(order, i), cachedIPs, clusterIPs, networks, grace, earliest, latest)
        invariant Quiet(ts, core.Models(), latest)
      {
        FirstMore(order, i);
        assert order[i] !in order[..i];
        SyncIPFreeOne(order[i], cachedIPs, clusterIPs, networks, grace, clock(i), ts, First(order, i), earliest,
                      latest);
        i := i + 1;
      }
      FirstAll(order, cachedIPs.Keys);
      ProtectedStay(ts, core.Models(), cachedIPs.Keys, cachedIPs, clusterIPs, networks, grace, latest);
    }

    method SyncIPFreeOne(a: Addr, cachedIPs: map<Addr, Prefix>, clusterIPs: map<Addr, Prefix>,
                         networks: map<Prefix, Details>, grace: int, now: int, ghost ts: seq<Tree>,
                         ghost done: set<Addr>, ghost earliest: int, ghost latest: int)
      requires Valid() && a in cachedIPs && a !in done && earliest <= now <= latest
      requires Freeing(ts, core.Models(), done, cachedIPs, clusterIPs, networks, grace, earliest, latest)
      requires Quiet(ts, core.Models(), latest)
      modifies core.Repr
      ensures Valid() && core.Repr == old(core.Repr) && core.roots == old(core.roots)
      ensures Freeing(ts, core.Models(), done + {a}, cachedIPs, clusterIPs, networks, grace, earliest, latest)
      ensures Quiet(ts, core.Models(), latest)
    {
      ghost var us := core.Models();
      var p := cachedIPs[a];
      var preallocated := IsCachedIPPreallocated(a, p, networks);
      if a !in clusterIPs && !preallocated {
        FreeingGives(ts, us, done, cachedIPs, clusterIPs, networks, grace, earliest, latest, a, now);
        CallIsQuiet(us, p, Give(a, grace), now, latest);
        AddressStep(us, p, Give(a, grace), now);
        var answer := core.OnAddresses(p, Give(a, grace), now);
        QuietTwice(ts, us, core.Models(), latest);
      } else {
        FreeingSkips(ts, us, done, cachedIPs, clusterIPs, networks, grace, earliest, latest, a);
      }
    }

    /** The cached addresses, each with one network that holds it; a later network of the listing wins. */
    method CachedIPs() returns (cached: map<Addr, Prefix>)
      requires Valid()
      ensures CachedHeld(core.Models(), cached)
      ensures forall p: Prefix, a: Addr :: Count(core.Models(), p) != 0 && Held(core.Models(), p, a) ==> a in cached
    {
      ghost var ts := core.Models();
      cached := map[];
      var networks := core.ListNetworks();
      var i := 0;
      while i < |networks|
        invariant 0 <= i <= |networks| && Valid() && core.Models() == ts
        invariant CachedHeld(ts, cached) && AllCached(ts, cached, networks[..i])
      {
        ghost var known := cached;
        ListIsLedger(ts, networks[i]);
        cached := CacheNetwork(cached, networks[i], ts);
        AllCachedMore(ts, known, cached, networks, i);
        i := i + 1;
      }
      assert networks[..|networks|] == networks;
      AllListedCached(ts, cached);
    }

    method CacheNetwork(known: map<Addr, Prefix>, p: Prefix, ghost ts: seq<Tree>) returns (cached: map<Addr, Prefix>)
      requires Valid() && core.Models() == ts && CachedHeld(ts, known) && Count(ts, p) != 0
      ensures CachedHeld(ts, cached) && known.Keys <= cached.Keys
      ensures forall a: Addr :: Held(ts, p, a) ==> a in cached
    {
      var inPools, addrs := core.ListIPs(p);
      assert forall i :: 0 <= i < |addrs| ==> addrs[i] in addrs;
      cached := CacheAll(known, addrs, p, ts);
    }

    method CacheAll(known: map<Addr, Prefix>, addrs: seq<Addr>, p: Prefix, ghost ts: seq<Tree>)
      returns (cached: map<Addr, Prefix>)
      requires CachedHeld(ts, known) && Count(ts, p) != 0 && forall i :: 0 <= i < |addrs| ==> Held(ts, p, addrs[i])
      ensures CachedHeld(ts, cached) && known.Keys <= cached.Keys
      ensures forall a: Addr :: a in addrs ==> a in cached
    {
      cached := known;
      var j := 0;
      while j < |addrs|
        invariant 0 <= j <= |addrs| && CachedHeld(ts, cached) && known.Keys <= cached.Keys
        invariant forall i :: 0 <= i < j ==> addrs[i] in cached
      {
        CachedMore(ts, cached, addrs[j], p);
        cached := cached[addrs[j] := p];
        j := j + 1;
      }
    }

    /**
    `syncIPs`: a completed address sync leaves every address the cluster lists held and frees exactly the
    cached ones that are neither listed nor preallocated and past their grace period, each in the one network
    it is cached with. It changes no count of a network.
    */
    method SyncIPs(clusterIPs: map<Addr, Prefix>, listing: seq<Addr>, networks: map<Prefix, Details>, grace: int,
                   taking: nat -> int, giving: nat -> int, ghost earliest: int, ghost latest: int)
      returns (ok: bool, ghost cached: map<Addr, Prefix>)
      requires Valid() && forall a: Addr :: a in listing <==> a in clusterIPs
      requires forall k: nat :: taking(k) <= latest && earliest <= giving(k) <= latest
      modifies core.Repr
      ensures Valid() && core.Repr == old(core.Repr) && core.roots == old(core.roots)
      ensures CachedHeld(old(core.Models()), cached) && Quiet(old(core.Models()), core.Models(), latest)
      ensures ProtectedKept(old(core.Models()), core.Models(), clusterIPs, networks)
      ensures ok ==> AllListedHeld(core.Models(), clusterIPs, cached)
      ensures ok ==>
                && StaleFreed(old(core.Models()), core.Models(), cached.Keys, cached, clusterIPs, networks, grace,
                              earliest)
                && OnlyStaleFreed(old(core.Models()), core.Models(), cached.Keys, cached, clusterIPs, networks, grace,
                                  latest)
      ensures !ok ==> StillHeld(old(core.Models()), core.Models())
    {
      ghost var ts := core.Models();
      var cachedIPs := CachedIPs();
      cached := cachedIPs;
      ok := SyncIPsAcquire(listing, clusterIPs, cachedIPs, taking, latest);
      if !ok { return; }
      ghost var us := core.Models();
      var order := Enumerate(cachedIPs.Keys);
      SyncIPsFree(order, clusterIPs, cachedIPs, networks, grace, giving, earliest, latest);
      PhasesTogether(ts, us, core.Models(), cached, clusterIPs, networks, grace, earliest, latest);
    }

    /**
    `sync`: the networks, then the addresses. A round that completes with a steady clock is one of those
    that drain a stale network.
    */
    method Sync(cluster: map<Prefix, Details>, listing: seq<Prefix>, clusterIPs: map<Addr, Prefix>,
                listingIPs: seq<Addr>, networks: map<Prefix, Details>, grace: int, now: int, clock: nat -> int,
                clocks: nat -> nat -> int, taking: nat -> int, giving: nat -> int, ghost earliest: int,
                ghost latest: int)
      returns (ok: bool, ghost us: seq<Tree>)
      requires Valid() && Distinct(listing) && (forall p: Prefix :: p in listing <==> p in cluster)
      requires (forall a: Addr :: a in listingIPs <==> a in clusterIPs) && ReadBetween(clocks, earliest, latest)
      requires forall k: nat :: taking(k) <= latest && earliest <= giving(k) <= latest
      modifies core.Repr
      ensures Valid() && fresh(core.Repr - old(core.Repr)) && core.roots == old(core.roots)
      ensures ok ==> NetworksSynced(old(core.Models()), us, cluster, grace, earliest, Steady(clocks, grace))
      ensures ok ==> Quiet(us, core.Models(), latest)
      ensures ok && Steady(clocks, grace) && now <= latest ==>
                Synchronized(old(core.Models()), us, core.Models(), Round(cluster, earliest, latest), grace)
    {
      ok := SyncNetworks(cluster, listing, now, clock, grace, clocks, earliest, latest);
      us := core.Models();
      if !ok { return; }
      ghost var cached;
      ok, cached := SyncIPs(clusterIPs, listingIPs, networks, grace, taking, giving, earliest, latest);
    }

    /** Some order of a set. */
    method Enumerate(s: set<Addr>) returns (order: seq<Addr>)
      ensures Distinct(order) && forall a: Addr :: a in order <==> a in s
    {
      order := [];
      var rest := s;
      while rest != {}
        invariant forall a: Addr :: a in s <==> a in rest || a in order
        invariant Distinct(order) && forall a: Addr :: a in order ==> a !in rest
        decreases rest
      {
        var a :| a in rest;
        order := order + [a];
        rest := rest - {a};
      }
    }
  }
}
