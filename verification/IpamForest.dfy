/**
The networks of the address manager core (pkg/ipam/core/ipam.go) as a value: one tree per pool.
*/
module IpamForest {
  import opened Wrappers
  import opened Net
  import opened PrefixTree

  ghost predicate AllWf(ts: seq<Tree>) { forall i :: 0 <= i < |ts| ==> Wf(ts[i]) }

  /** Pools have no host bits and do not overlap. */
  ghost predicate WfForest(ts: seq<Tree>) {
    && AllWf(ts)
    && (forall i, j :: 0 <= i < j < |ts| ==> !Overlaps(ts[i].d.prefix, ts[j].d.prefix))
  }

  predicate CheckRoots(pools: seq<Prefix>) {
    && (forall i :: 0 <= i < |pools| ==> Canonical(pools[i]))
    && (forall i, j :: 0 <= i < j < |pools| ==> !Overlaps(pools[i], pools[j]))
  }

  function NewIpam(pools: seq<Prefix>, now: int): Option<seq<Tree>> {
    if CheckRoots(pools) then Some(seq(|pools|, i requires 0 <= i < |pools| => NewNode(pools[i], now))) else None
  }

  /** No address lies in two pools. */
  ghost predicate NoneShared(pools: seq<Prefix>) {
    forall i, j, a: Addr :: 0 <= i < j < |pools| && Contains(pools[i], a) ==> !Contains(pools[j], a)
  }

  /** Pools are accepted exactly when none has host bits and no two share an address; each then starts free. */
  lemma {:induction false} PoolsAcceptedIff(pools: seq<Prefix>, now: int)
    ensures NewIpam(pools, now).Some? <==>
              (forall i :: 0 <= i < |pools| ==> Canonical(pools[i])) && NoneShared(pools)
    ensures NewIpam(pools, now).Some? ==>
              var ts := NewIpam(pools, now).value;
              |ts| == |pools| && forall i :: 0 <= i < |ts| ==> ts[i] == Leaf(Data(pools[i], 0, now, [], None))
  {
    forall i, j | 0 <= i < j < |pools|
      ensures Overlaps(pools[i], pools[j]) <==> exists a: Addr :: Contains(pools[i], a) && Contains(pools[j], a)
    {
      OverlapsMeansSharedAddress(pools[i], pools[j]);
    }
  }

  /** First fit over the pools from the `i`-th on. */
  function NetworkAcquire(ts: seq<Tree>, size: nat, exclusive: bool, now: int, i: nat := 0): (seq<Tree>, Option<Prefix>)
    requires AllWf(ts) && size <= WIDTH && i <= |ts|
    decreases |ts| - i
  {
    if i == |ts| then (ts, None)
    else
      AllocateKeepsWf(size, ts[i], exclusive, now);
      var (t, answer) := AllocateNetwork(size, ts[i], exclusive, now);
      if answer.Some? then (ts[i := t], answer)
      else NetworkAcquire(ts[i := t], size, exclusive, now, i + 1)
  }

  function NetworkAcquireWithPrefix(ts: seq<Tree>, p: Prefix, exclusive: bool, now: int,
                                    i: nat := 0): (seq<Tree>, Option<Prefix>)
    requires AllWf(ts) && i <= |ts|
    decreases |ts| - i
  {
    if i == |ts| then (ts, None)
    else if !IsPrefixChildOf(ts[i].d.prefix, p) then NetworkAcquireWithPrefix(ts, p, exclusive, now, i + 1)
    else
      AcquireKeepsWf(p, ts[i], exclusive, now);
      var (t, answer) := AllocateNetworkWithPrefix(p, ts[i], exclusive, now);
      if answer.Some? then (ts[i := t], answer)
      else NetworkAcquireWithPrefix(ts[i := t], p, exclusive, now, i + 1)
  }

  function NetworkRelease(ts: seq<Tree>, p: Prefix, grace: int, clock: nat -> int,
                          i: nat := 0): (seq<Tree>, Option<Prefix>)
    requires AllWf(ts) && i <= |ts|
    decreases |ts| - i
  {
    if i == |ts| then (ts, None)
    else if !IsPrefixChildOf(ts[i].d.prefix, p) then NetworkRelease(ts, p, grace, clock, i + 1)
    else
      ReleaseKeepsWf(p, ts[i], grace, clock);
      var (t, answer) := PrefixTree.NetworkRelease(p, ts[i], grace, clock);
      if answer.Some? then (ts[i := t], answer)
      else NetworkRelease(ts[i := t], p, grace, clock, i + 1)
  }

  function ListNetworks(ts: seq<Tree>): seq<Prefix> {
    if ts == [] then [] else PrefixTree.ListNetworks(ts[0]) + ListNetworks(ts[1..])
  }

  lemma {:induction false} ListFrom(ts: seq<Tree>, i: nat)
    requires i < |ts|
    ensures ListNetworks(ts[i..]) == PrefixTree.ListNetworks(ts[i]) + ListNetworks(ts[i + 1..])
  {
    assert ts[i..][0] == ts[i] && ts[i..][1..] == ts[i + 1..];
  }

  predicate NetworkIsAvailable(ts: seq<Tree>, p: Prefix) {
    if ts == [] then false
    else if IsPrefixChildOf(ts[0].d.prefix, p) then PrefixTree.NetworkIsAvailable(p, ts[0])
    else NetworkIsAvailable(ts[1..], p)
  }

  predicate IsPrefixInRoots(ts: seq<Tree>, p: Prefix) {
    exists i :: 0 <= i < |ts| && IsPrefixChildOf(ts[i].d.prefix, p)
  }

  // ----- the ledger: one count per network

  function CountIn(t: Tree, p: Prefix): int
    requires IsPrefixChildOf(t.d.prefix, p)
  {
    if Canonical(p) then RefAt(t, Rel(t, p)) else 0
  }

  /** The references held on a network; -1 is one exclusive reference. */
  function Count(ts: seq<Tree>, p: Prefix): int {
    if ts == [] then 0
    else if IsPrefixChildOf(ts[0].d.prefix, p) then CountIn(ts[0], p)
    else Count(ts[1..], p)
  }

  /** The pool of a network is unique. */
  ghost predicate OnlyRoot(ts: seq<Tree>, i: nat, p: Prefix) {
    && i < |ts|
    && IsPrefixChildOf(ts[i].d.prefix, p)
    && forall j :: 0 <= j < |ts| && j != i ==> !IsPrefixChildOf(ts[j].d.prefix, p)
  }

  /** A network is available exactly when its pool says so, and never without a pool. */
  lemma {:induction false} AvailableIff(ts: seq<Tree>, p: Prefix)
    ensures (forall i :: 0 <= i < |ts| ==> !IsPrefixChildOf(ts[i].d.prefix, p)) ==> !NetworkIsAvailable(ts, p)
    ensures forall i: nat :: OnlyRoot(ts, i, p) ==>
              (NetworkIsAvailable(ts, p) <==> PrefixTree.NetworkIsAvailable(p, ts[i]))
  {
    if ts != [] {
      AvailableIff(ts[1..], p);
      forall i: nat | OnlyRoot(ts, i, p)
        ensures NetworkIsAvailable(ts, p) <==> PrefixTree.NetworkIsAvailable(p, ts[i])
      {
        if i > 0 { assert OnlyRoot(ts[1..], i - 1, p); }
      }
    }
  }

  lemma {:induction false} CountByRoot(ts: seq<Tree>, i: nat, p: Prefix)
    requires WfForest(ts) && i < |ts| && IsPrefixChildOf(ts[i].d.prefix, p)
    ensures Count(ts, p) == CountIn(ts[i], p)
    ensures OnlyRoot(ts, i, p)
  {
    forall j | 0 <= j < |ts| && j != i ensures !IsPrefixChildOf(ts[j].d.prefix, p) {
      if IsPrefixChildOf(ts[j].d.prefix, p) { SharedChildOverlaps(ts[i].d.prefix, ts[j].d.prefix, p); }
    }
    if i > 0 { CountByRoot(ts[1..], i - 1, p); }
  }

  lemma {:induction false} SharedChildOverlaps(p: Prefix, q: Prefix, child: Prefix)
    requires IsPrefixChildOf(p, child) && IsPrefixChildOf(q, child)
    ensures Overlaps(p, q) && Overlaps(q, p)
  {}

  lemma {:induction false} CountOutside(ts: seq<Tree>, p: Prefix)
    requires !IsPrefixInRoots(ts, p)
    ensures Count(ts, p) == 0
  {
    if ts != [] {
      assert !IsPrefixChildOf(ts[0].d.prefix, p);
      forall i | 0 <= i < |ts[1..]| ensures !IsPrefixChildOf(ts[1..][i].d.prefix, p) { assert ts[1..][i] == ts[i + 1]; }
      CountOutside(ts[1..], p);
    }
  }

  /** One tree of the forest replaced by another of the same pool. */
  lemma {:induction false} CountAfterUpdate(ts: seq<Tree>, i: nat, t: Tree, p: Prefix)
    requires WfForest(ts) && i < |ts| && Wf(t) && t.d.prefix == ts[i].d.prefix
    ensures WfForest(ts[i := t])
    ensures Count(ts[i := t], p) == if IsPrefixChildOf(t.d.prefix, p) then CountIn(t, p) else Count(ts, p)
  {
    var us := ts[i := t];
    if IsPrefixChildOf(t.d.prefix, p) {
      CountByRoot(us, i, p);
    } else if j :| 0 <= j < |ts| && IsPrefixChildOf(ts[j].d.prefix, p) {
      CountByRoot(ts, j, p);
      CountByRoot(us, j, p);
    } else {
      CountOutside(ts, p);
      CountOutside(us, p);
    }
  }

  // ----- each call, on the ledger

  /** Every network of any pool that overlaps `p` tolerates the acquisition. */
  ghost predicate Grantable(ts: seq<Tree>, p: Prefix, exclusive: bool) {
    forall q: Prefix :: Overlaps(p, q) ==> Tolerates(Count(ts, q), exclusive)
  }

  lemma {:induction false} GrantableInRoot(ts: seq<Tree>, i: nat, p: Prefix, exclusive: bool)
    requires WfForest(ts) && i < |ts| && IsPrefixChildOf(ts[i].d.prefix, p) && Canonical(p)
    ensures Grantable(ts, p, exclusive) <==> Admissible(ts[i], Rel(ts[i], p), exclusive)
  {
    var t := ts[i];
    var r := Rel(t, p);
    ChildIsPathPrefix(t.d.prefix, p);
    if Grantable(ts, p, exclusive) {
      forall q | Comparable(q, r) ensures Tolerates(RefAt(t, q), exclusive) {
        if t.d.prefix.bits + |q| <= WIDTH {
          var n := PrefixAt(t, q);
          PositionOf(t, q);
          PositionOverlaps(t, q, p);
          CountByRoot(ts, i, n);
          assert Tolerates(Count(ts, n), exclusive);
        } else {
          NothingBeyondWidth(t, q);
        }
      }
    }
    if Admissible(t, r, exclusive) {
      forall q: Prefix | Overlaps(p, q) ensures Tolerates(Count(ts, q), exclusive) {
        if j :| 0 <= j < |ts| && IsPrefixChildOf(ts[j].d.prefix, q) {
          OverlapStaysInRoot(ts, i, j, p, q);
          CountByRoot(ts, i, q);
          OverlapIsComparable(p, q);
          ChildIsPathPrefix(t.d.prefix, q);
          assert Comparable(Rel(t, q), r);
        } else {
          CountOutside(ts, q);
        }
      }
    }
  }

  lemma {:induction false} PositionOf(t: Tree, q: seq<bool>)
    requires t.d.prefix.bits + |q| <= WIDTH
    ensures var n := PrefixAt(t, q); Canonical(n) && IsPrefixChildOf(t.d.prefix, n) && Rel(t, n) == q
  {
    ChildIsPathPrefix(t.d.prefix, PrefixAt(t, q));
  }

  lemma {:induction false} PositionOverlaps(t: Tree, q: seq<bool>, p: Prefix)
    requires t.d.prefix.bits + |q| <= WIDTH && IsPrefixChildOf(t.d.prefix, p) && Comparable(q, Rel(t, p))
    ensures Overlaps(p, PrefixAt(t, q))
  {
    ChildIsPathPrefix(t.d.prefix, p);
    var r := Rel(t, p);
    assert Path(p) == Path(t.d.prefix) + r;
    OverlapIsComparable(p, PrefixAt(t, q));
  }

  lemma {:induction false} NothingBeyondWidth(t: Tree, q: seq<bool>)
    requires Wf(t) && t.d.prefix.bits + |q| > WIDTH
    ensures DataAt(t, q).None?
    decreases |q|
  {
    if q != [] && t.Fork? { NothingBeyondWidth(if q[0] then t.right else t.left, q[1..]); }
  }

  lemma {:induction false} OverlapStaysInRoot(ts: seq<Tree>, i: nat, j: nat, p: Prefix, q: Prefix)
    requires WfForest(ts) && i < |ts| && j < |ts|
    requires IsPrefixChildOf(ts[i].d.prefix, p) && IsPrefixChildOf(ts[j].d.prefix, q) && Overlaps(p, q)
    ensures i == j
  {
    var a, b := ts[i].d.prefix, ts[j].d.prefix;
    ChildIsPathPrefix(a, p);
    ChildIsPathPrefix(b, q);
    OverlapIsComparable(p, q);
    OverlapIsComparable(a, b);
    OverlapIsComparable(b, a);
    assert Path(a) <= Path(b) || Path(b) <= Path(a);
  }

  lemma {:induction false} AcquireSkips(ts: seq<Tree>, i: nat, p: Prefix, exclusive: bool, now: int, from: nat)
    requires AllWf(ts) && from <= i <= |ts| && forall j :: from <= j < i ==> !IsPrefixChildOf(ts[j].d.prefix, p)
    ensures NetworkAcquireWithPrefix(ts, p, exclusive, now, from) == NetworkAcquireWithPrefix(ts, p, exclusive, now, i)
    decreases i - from
  {
    if from < i { AcquireSkips(ts, i, p, exclusive, now, from + 1); }
  }

  /** The tree that a call on the forest goes to. */
  lemma {:induction false} AcquireInRoot(ts: seq<Tree>, i: nat, p: Prefix, exclusive: bool, now: int)
    requires AllWf(ts) && OnlyRoot(ts, i, p)
    ensures var (t, answer) := AllocateNetworkWithPrefix(p, ts[i], exclusive, now);
            NetworkAcquireWithPrefix(ts, p, exclusive, now) == (ts[i := t], answer)
  {
    AcquireSkips(ts, i, p, exclusive, now, 0);
    AcquireAtRoot(ts, i, p, exclusive, now);
  }

  lemma {:induction false} AcquireAtRoot(ts: seq<Tree>, i: nat, p: Prefix, exclusive: bool, now: int)
    requires AllWf(ts) && OnlyRoot(ts, i, p)
    ensures var (t, answer) := AllocateNetworkWithPrefix(p, ts[i], exclusive, now);
            NetworkAcquireWithPrefix(ts, p, exclusive, now, i) == (ts[i := t], answer)
  {
    AcquireKeepsWf(p, ts[i], exclusive, now);
    var (t, answer) := AllocateNetworkWithPrefix(p, ts[i], exclusive, now);
    var us := ts[i := t];
    if answer.None? {
      forall j | i < j < |us| ensures !IsPrefixChildOf(us[j].d.prefix, p) { assert us[j] == ts[j]; }
      AcquireSkips(us, |us|, p, exclusive, now, i + 1);
    }
  }

  lemma {:induction false} ReleaseSkips(ts: seq<Tree>, i: nat, p: Prefix, grace: int, clock: nat -> int, from: nat)
    requires AllWf(ts) && from <= i <= |ts| && forall j :: from <= j < i ==> !IsPrefixChildOf(ts[j].d.prefix, p)
    ensures NetworkRelease(ts, p, grace, clock, from) == NetworkRelease(ts, p, grace, clock, i)
    decreases i - from
  {
    if from < i { ReleaseSkips(ts, i, p, grace, clock, from + 1); }
  }

  lemma {:induction false} ReleaseInRoot(ts: seq<Tree>, i: nat, p: Prefix, grace: int, clock: nat -> int)
    requires AllWf(ts) && OnlyRoot(ts, i, p)
    ensures var (t, answer) := PrefixTree.NetworkRelease(p, ts[i], grace, clock);
            NetworkRelease(ts, p, grace, clock) == (ts[i := t], answer)
  {
    ReleaseSkips(ts, i, p, grace, clock, 0);
    ReleaseKeepsWf(p, ts[i], grace, clock);
    var (t, answer) := PrefixTree.NetworkRelease(p, ts[i], grace, clock);
    var us := ts[i := t];
    if answer.None? {
      forall j | i < j < |us| ensures !IsPrefixChildOf(us[j].d.prefix, p) { assert us[j] == ts[j]; }
      ReleaseSkips(us, |us|, p, grace, clock, i + 1);
    }
  }

  /** A ledger in which one entry has changed. */
  ghost predicate LedgerSet(ts: seq<Tree>, ts': seq<Tree>, p: Prefix, count: int) {
    && WfForest(ts')
    && Count(ts', p) == count
    && forall q: Prefix :: q != p ==> Count(ts', q) == Count(ts, q)
  }

  ghost predicate LedgerSame(ts: seq<Tree>, ts': seq<Tree>) {
    WfForest(ts') && forall q: Prefix :: Count(ts', q) == Count(ts, q)
  }

  lemma {:induction false} RelInjective(t: Tree, p: Prefix, q: Prefix)
    requires IsPrefixChildOf(t.d.prefix, p) && IsPrefixChildOf(t.d.prefix, q) && Canonical(p) && Canonical(q)
    ensures Rel(t, p) == Rel(t, q) <==> p == q
  {
    ChildIsPathPrefix(t.d.prefix, p);
    ChildIsPathPrefix(t.d.prefix, q);
    assert Path(p) == Path(t.d.prefix) + Rel(t, p) && Path(q) == Path(t.d.prefix) + Rel(t, q);
    CanonicalFromPath(p);
    CanonicalFromPath(q);
  }

  /**
  Acquiring a named network succeeds exactly when it lies in a pool, has no host bits and every
  overlapping network tolerates it; the ledger then changes in that entry alone, and otherwise not at all.
  */
  lemma {:induction false} AcquireThisNetwork(ts: seq<Tree>, p: Prefix, exclusive: bool, now: int)
    requires WfForest(ts)
    ensures var (ts', answer) := NetworkAcquireWithPrefix(ts, p, exclusive, now);
            && (answer.Some? <==> IsPrefixInRoots(ts, p) && Canonical(p) && Grantable(ts, p, exclusive))
            && (answer.Some? ==> answer.value == p && LedgerSet(ts, ts', p, if exclusive then -1 else Count(ts, p) + 1))
            && (answer.None? ==> LedgerSame(ts, ts'))
  {
    if i :| 0 <= i < |ts| && IsPrefixChildOf(ts[i].d.prefix, p) {
      var t := ts[i];
      CountByRoot(ts, i, p);
      AcquireInRoot(ts, i, p, exclusive, now);
      AcquireKeepsWf(p, t, exclusive, now);
      AcquireExact(p, t, exclusive, now);
      var (t', answer) := AllocateNetworkWithPrefix(p, t, exclusive, now);
      if Canonical(p) { GrantableInRoot(ts, i, p, exclusive); }
      var ts' := ts[i := t'];
      CountAfterUpdate(ts, i, t', p);
      forall q: Prefix
        ensures Count(ts', q) == if answer.Some? && q == p then (if exclusive then -1 else Count(ts, p) + 1)
                  else Count(ts, q)
      {
        CountAfterUpdate(ts, i, t', q);
        AcquireCount(ts, i, p, exclusive, now, q);
      }
    } else {
      AcquireSkips(ts, |ts|, p, exclusive, now, 0);
    }
  }

  lemma {:induction false} AcquireCount(ts: seq<Tree>, i: nat, p: Prefix, exclusive: bool, now: int, q: Prefix)
    requires WfForest(ts) && i < |ts| && IsPrefixChildOf(ts[i].d.prefix, p)
    ensures var (t', answer) := AllocateNetworkWithPrefix(p, ts[i], exclusive, now);
            t'.d.prefix == ts[i].d.prefix &&
            (IsPrefixChildOf(t'.d.prefix, q) ==>
               CountIn(t', q) == if answer.Some? && q == p then (if exclusive then -1 else Count(ts, p) + 1)
                   else Count(ts, q))
    ensures !IsPrefixChildOf(ts[i].d.prefix, q) ==> q != p
  {
    var t := ts[i];
    AcquireKeepsWf(p, t, exclusive, now);
    AcquireExact(p, t, exclusive, now);
    var (t', answer) := AllocateNetworkWithPrefix(p, t, exclusive, now);
    if IsPrefixChildOf(t.d.prefix, q) {
      CountByRoot(ts, i, q);
      CountByRoot(ts, i, p);
      if Canonical(q) {
        assert AcquireEffect(t, t', Rel(t, p), Rel(t, q), answer.Some?, exclusive, now);
        if answer.Some? { RelInjective(t, p, q); }
      }
    }
  }

  /** A release takes one reference of the named network exactly when it has one and its grace period is over. */
  lemma {:induction false} ReleaseThisNetwork(ts: seq<Tree>, p: Prefix, grace: int, clock: nat -> int)
    requires WfForest(ts)
    ensures var (ts', answer) := NetworkRelease(ts, p, grace, clock);
            && (answer.Some? <==> Count(ts, p) != 0 && LastUpdate(ts, p) + grace < clock(p.bits))
            && (answer.Some? ==> answer.value == p && LedgerSet(ts, ts', p, CountAfterRelease(Count(ts, p))))
            && (answer.None? ==> LedgerSame(ts, ts'))
  {
    if i :| 0 <= i < |ts| && IsPrefixChildOf(ts[i].d.prefix, p) {
      var t := ts[i];
      CountByRoot(ts, i, p);
      ReleaseInRoot(ts, i, p, grace, clock);
      ReleaseKeepsWf(p, t, grace, clock);
      ReleaseExact(p, t, grace, clock);
      var (t', answer) := PrefixTree.NetworkRelease(p, t, grace, clock);
      LastUpdateInRoot(ts, i, p);
      CountAfterUpdate(ts, i, t', p);
      forall q: Prefix
        ensures Count(ts[i := t'], q) == if answer.Some? && q == p then CountAfterRelease(Count(ts, p))
                  else Count(ts, q)
      {
        CountAfterUpdate(ts, i, t', q);
        ReleaseCount(ts, i, p, grace, clock, q);
      }
    } else {
      ReleaseSkips(ts, |ts|, p, grace, clock, 0);
      CountOutside(ts, p);
    }
  }

  lemma {:induction false} ReleaseCount(ts: seq<Tree>, i: nat, p: Prefix, grace: int, clock: nat -> int, q: Prefix)
    requires WfForest(ts) && i < |ts| && IsPrefixChildOf(ts[i].d.prefix, p)
    ensures var (t', answer) := PrefixTree.NetworkRelease(p, ts[i], grace, clock);
            t'.d.prefix == ts[i].d.prefix &&
            (IsPrefixChildOf(t'.d.prefix, q) ==>
               CountIn(t', q) == if answer.Some? && q == p then CountAfterRelease(Count(ts, p)) else Count(ts, q))
    ensures !IsPrefixChildOf(ts[i].d.prefix, q) ==> q != p
  {
    var t := ts[i];
    ReleaseKeepsWf(p, t, grace, clock);
    ReleaseExact(p, t, grace, clock);
    var (t', answer) := PrefixTree.NetworkRelease(p, t, grace, clock);
    if IsPrefixChildOf(t.d.prefix, q) {
      CountByRoot(ts, i, q);
      CountByRoot(ts, i, p);
      if Canonical(q) {
        assert ReleaseEffect(t, t', Rel(t, p), Rel(t, q), answer.Some?);
        if answer.Some? { RelInjective(t, p, q); }
      }
    }
  }

  /** When the record of an acquired network was last touched. */
  function LastUpdate(ts: seq<Tree>, p: Prefix): int {
    if ts == [] then 0
    else if IsPrefixChildOf(ts[0].d.prefix, p) then
      match DataAt(ts[0], Rel(ts[0], p))
      case None => 0
      case Some(d) => d.updated
    else LastUpdate(ts[1..], p)
  }

  lemma {:induction false} LastUpdateInRoot(ts: seq<Tree>, i: nat, p: Prefix)
    requires WfForest(ts) && i < |ts| && IsPrefixChildOf(ts[i].d.prefix, p)
    ensures LastUpdate(ts, p) == match DataAt(ts[i], Rel(ts[i], p)) case None => 0 case Some(d) => d.updated
  {
    CountByRoot(ts, i, p);
    if i > 0 { LastUpdateInRoot(ts[1..], i - 1, p); }
  }

  /** Two forests over the same pools that agree on one network in every pool agree on its count. */
  lemma {:induction false} CountPointwise(ts: seq<Tree>, us: seq<Tree>, p: Prefix)
    requires |ts| == |us|
    requires forall j :: 0 <= j < |ts| ==> ts[j].d.prefix == us[j].d.prefix
    requires forall j :: 0 <= j < |ts| && IsPrefixChildOf(ts[j].d.prefix, p) ==> CountIn(us[j], p) == CountIn(ts[j], p)
    ensures Count(us, p) == Count(ts, p)
  {
    if ts != [] && !IsPrefixChildOf(ts[0].d.prefix, p) { CountPointwise(ts[1..], us[1..], p); }
  }

  /** Where first fit over the pools ends: the first pool with a usable position, or past the last. */
  lemma {:induction false} AcquireAnyTrees(ts: seq<Tree>, size: nat, exclusive: bool, now: int)
    returns (i: nat, r: seq<bool>)
    requires WfForest(ts) && size <= WIDTH
    ensures var (ts', answer) := NetworkAcquire(ts, size, exclusive, now);
            && |ts'| == |ts| && i <= |ts| && (answer.Some? <==> i < |ts|)
            && (forall j :: 0 <= j < i ==>
                Exhausted(size, ts[j], exclusive, now) && ts'[j] == AllocateNetwork(size, ts[j], exclusive, now).0)
            && (i < |ts| ==>
                  && FitsAt(size, ts[i], exclusive, now, r)
                  && (ts'[i], answer) == AllocateNetwork(size, ts[i], exclusive, now))
            && (forall j :: i < j < |ts| ==> ts'[j] == ts[j])
  {
    i := AcquireAnyShape(ts, size, exclusive, now, 0);
    r := [];
    forall j | 0 <= j < i ensures Exhausted(size, ts[j], exclusive, now) {
      var r := FirstFit(size, ts[j], exclusive, now);
    }
    if i < |ts| { r := FirstFit(size, ts[i], exclusive, now); }
  }

  lemma {:induction false} AcquireAnyShape(ts: seq<Tree>, size: nat, exclusive: bool, now: int, from: nat)
    returns (i: nat)
    requires AllWf(ts) && size <= WIDTH && from <= |ts|
    ensures var (ts', answer) := NetworkAcquire(ts, size, exclusive, now, from);
            Tried(ts, ts', answer, size, exclusive, now, from, i)
    decreases |ts| - from
  {
    i := from;
    if from < |ts| {
      AllocateKeepsWf(size, ts[from], exclusive, now);
      var (t, answer) := AllocateNetwork(size, ts[from], exclusive, now);
      if answer.None? {
        i := AcquireAnyShape(ts[from := t], size, exclusive, now, from + 1);
        TriedOneMore(ts, t, size, exclusive, now, from, i);
      }
    }
  }

  /** The pools from `from` on have been tried: those before `i` in vain, and the `i`-th, if any, gave the answer. */
  ghost predicate Tried(ts: seq<Tree>, ts': seq<Tree>, answer: Option<Prefix>, size: nat, exclusive: bool, now: int,
                        from: nat, i: nat)
    requires AllWf(ts) && size <= WIDTH
  {
    && |ts'| == |ts| && from <= i <= |ts| && (answer.Some? <==> i < |ts|)
    && (forall j :: 0 <= j < from ==> ts'[j] == ts[j])
    && (forall j :: from <= j < i ==> (ts'[j], None) == AllocateNetwork(size, ts[j], exclusive, now))
    && (i < |ts| ==> (ts'[i], answer) == AllocateNetwork(size, ts[i], exclusive, now))
    && (forall j :: i < j < |ts| ==> ts'[j] == ts[j])
  }

  lemma {:induction false} TriedOneMore(ts: seq<Tree>, t: Tree, size: nat, exclusive: bool, now: int, from: nat, i: nat)
    requires AllWf(ts) && size <= WIDTH && from < |ts| && Wf(t)
    requires (t, None) == AllocateNetwork(size, ts[from], exclusive, now)
    requires var (ts', answer) := NetworkAcquire(ts[from := t], size, exclusive, now, from + 1);
             Tried(ts[from := t], ts', answer, size, exclusive, now, from + 1, i)
    ensures var (ts', answer) := NetworkAcquire(ts, size, exclusive, now, from);
            Tried(ts, ts', answer, size, exclusive, now, from, i)
  {
    var (ts', answer) := NetworkAcquire(ts, size, exclusive, now, from);
    assert (ts', answer) == NetworkAcquire(ts[from := t], size, exclusive, now, from + 1);
    assert forall j :: 0 <= j < |ts| && j != from ==> ts[from := t][j] == ts[j];
  }

  /**
  Acquiring any network of a size hands out one of that size that overlaps nothing acquired, and changes
  the ledger in that entry alone; a refusal changes nothing and means that no pool has a usable position.
  */
  lemma {:induction false} AcquireAnyNetwork(ts: seq<Tree>, size: nat, exclusive: bool, now: int)
    requires WfForest(ts) && size <= WIDTH
    ensures var (ts', answer) := NetworkAcquire(ts, size, exclusive, now);
            && (answer.Some? ==>
                  var p := answer.value;
                  && p.bits == size && IsPrefixInRoots(ts, p) && Canonical(p) && Grantable(ts, p, true)
                  && LedgerSet(ts, ts', p, if exclusive then -1 else 1))
            && (answer.None? ==> LedgerSame(ts, ts') && forall j :: 0 <= j < |ts| ==> NoSlot(size, ts[j]))
  {
    var (ts', answer) := NetworkAcquire(ts, size, exclusive, now);
    var i, r := AcquireAnyTrees(ts, size, exclusive, now);
    forall j | 0 <= j < |ts| ensures Wf(ts'[j]) && ts'[j].d.prefix == ts[j].d.prefix {
      AllocateKeepsWf(size, ts[j], exclusive, now);
    }
    if i < |ts| {
      var t, p := ts[i], answer.value;
      PositionOf(t, r);
      SlotIsFree(t, r);
      GrantableInRoot(ts, i, p, true);
      forall q: Prefix ensures Count(ts', q) == if q == p then (if exclusive then -1 else 1) else Count(ts, q) {
        AcquireAnyCount(ts, size, exclusive, now, i, r, q);
      }
    } else {
      forall q: Prefix ensures Count(ts', q) == Count(ts, q) {
        ExhaustedCounts(ts, size, exclusive, now, i, q);
        CountPointwise(ts, ts', q);
      }
    }
  }

  /** A network of a size is the least usable position of the first pool that has one. */
  lemma {:induction false} AcquireAnyFirst(ts: seq<Tree>, size: nat, exclusive: bool, now: int)
    returns (i: nat, r: seq<bool>)
    requires WfForest(ts) && size <= WIDTH && NetworkAcquire(ts, size, exclusive, now).1.Some?
    ensures i < |ts| && (forall j :: 0 <= j < i ==> NoSlot(size, ts[j])) && Least(size, ts[i], r)
    ensures NetworkAcquire(ts, size, exclusive, now).1 == Some(PrefixAt(ts[i], r))
  {
    i, r := AcquireAnyTrees(ts, size, exclusive, now);
    r := FirstFitLeast(size, ts[i], exclusive, now);
  }

  /** No pool has a usable position of the size. */
  ghost predicate NoRoom(ts: seq<Tree>, size: nat) { forall j :: 0 <= j < |ts| ==> NoSlot(size, ts[j]) }

  /** No pool has a usable position of the size of the prefix, other than where a prefix with host bits falls. */
  ghost predicate NoRoomBeside(ts: seq<Tree>, p: Prefix) {
    forall j, r :: 0 <= j < |ts| && ts[j].d.prefix.bits + |r| == p.bits && Slot(ts[j], r) ==>
      !Canonical(p) && IsPrefixChildOf(ts[j].d.prefix, p) && r == Rel(ts[j], p)
  }

  /** What a refused exclusive acquisition of a prefix leaves of the room for its size. */
  lemma {:induction false} RefusedRoom(ts: seq<Tree>, p: Prefix, now: int)
    requires WfForest(ts) && NetworkAcquireWithPrefix(ts, p, true, now).1.None?
    ensures NoRoom(NetworkAcquireWithPrefix(ts, p, true, now).0, p.bits) <==> NoRoomBeside(ts, p)
  {
    if i :| 0 <= i < |ts| && IsPrefixChildOf(ts[i].d.prefix, p) {
      CountByRoot(ts, i, p);
      AcquireInRoot(ts, i, p, true, now);
      RefusedRoomInRoot(ts, i, p, now);
    } else {
      AcquireSkips(ts, |ts|, p, true, now, 0);
      RoomOutside(ts, p);
    }
  }

  lemma {:induction false} RoomOutside(ts: seq<Tree>, p: Prefix)
    requires !IsPrefixInRoots(ts, p)
    ensures NoRoom(ts, p.bits) <==> NoRoomBeside(ts, p)
  {
    if NoRoomBeside(ts, p) { forall j | 0 <= j < |ts| ensures NoSlot(p.bits, ts[j]) {} }
  }

  /** A free pool asked for under a name with host bits is room before the refusal and none after it. */
  lemma {:induction false} HostBitsLoseRoom(p: Prefix, now: int)
    requires !Canonical(p)
    ensures var ts := [NewNode(Masked(p), now)]; !NoRoom(ts, p.bits) && NoRoomBeside(ts, p)
  {
    var ts := [NewNode(Masked(p), now)];
    SlotHere(ts[0]);
    var here: seq<bool> := [];
    assert ts[0].d.prefix.bits + |here| == p.bits && Slot(ts[0], here);
    assert !NoSlot(p.bits, ts[0]);
    forall j, r | 0 <= j < |ts| && ts[j].d.prefix.bits + |r| == p.bits && Slot(ts[j], r)
      ensures IsPrefixChildOf(ts[j].d.prefix, p) && r == Rel(ts[j], p)
    {
      assert IsPrefixChildOf(Masked(p), p);
    }
  }

  lemma {:induction false} RefusedRoomInRoot(ts: seq<Tree>, i: nat, p: Prefix, now: int)
    requires AllWf(ts) && OnlyRoot(ts, i, p) && AllocateNetworkWithPrefix(p, ts[i], true, now).1.None?
    ensures NoRoom(ts[i := AllocateNetworkWithPrefix(p, ts[i], true, now).0], p.bits) <==> NoRoomBeside(ts, p)
  {
    var t := AllocateNetworkWithPrefix(p, ts[i], true, now).0;
    var us := ts[i := t];
    AcquireKeepsWf(p, ts[i], true, now);
    forall r | ts[i].d.prefix.bits + |r| == p.bits
      ensures Slot(t, r) <==> Slot(ts[i], r) && (Canonical(p) || r != Rel(ts[i], p))
    {
      RefusedSlots(p, ts[i], now, r);
    }
    if NoRoom(us, p.bits) {
      forall j, r | 0 <= j < |ts| && ts[j].d.prefix.bits + |r| == p.bits && Slot(ts[j], r)
        ensures !Canonical(p) && IsPrefixChildOf(ts[j].d.prefix, p) && r == Rel(ts[j], p)
      {
        assert NoSlot(p.bits, us[j]);
      }
    }
    if NoRoomBeside(ts, p) {
      forall j | 0 <= j < |us| ensures NoSlot(p.bits, us[j]) {}
    }
  }

  /** A network of a size is refused exactly when no pool has a usable position. */
  lemma {:induction false} AcquireAnyIff(ts: seq<Tree>, size: nat, exclusive: bool, now: int)
    requires WfForest(ts) && size <= WIDTH
    ensures NetworkAcquire(ts, size, exclusive, now).1.None? <==> NoRoom(ts, size)
  {
    var i, r := AcquireAnyTrees(ts, size, exclusive, now);
    if i < |ts| { assert Slot(ts[i], r) && !NoSlot(size, ts[i]); }
  }

  lemma {:induction false} ExhaustedCounts(ts: seq<Tree>, size: nat, exclusive: bool, now: int, i: nat, q: Prefix)
    requires WfForest(ts) && size <= WIDTH && i <= |ts|
    requires var ts' := NetworkAcquire(ts, size, exclusive, now).0;
             && |ts'| == |ts|
             && (forall j :: 0 <= j < |ts| ==> ts'[j].d.prefix == ts[j].d.prefix)
             && (forall j :: 0 <= j < i ==>
                 Exhausted(size, ts[j], exclusive, now) && ts'[j] == AllocateNetwork(size, ts[j], exclusive, now).0)
    ensures var ts' := NetworkAcquire(ts, size, exclusive, now).0;
            forall j :: 0 <= j < i && IsPrefixChildOf(ts[j].d.prefix, q) ==> CountIn(ts'[j], q) == CountIn(ts[j], q)
  {
    var ts' := NetworkAcquire(ts, size, exclusive, now).0;
    forall j | 0 <= j < i && IsPrefixChildOf(ts[j].d.prefix, q) ensures CountIn(ts'[j], q) == CountIn(ts[j], q) {
      assert Unchanged(ts[j], ts'[j], Rel(ts[j], q));
    }
  }

  lemma {:induction false} AcquireAnyCount(ts: seq<Tree>, size: nat, exclusive: bool, now: int, i: nat, r: seq<bool>,
                                           q: Prefix)
    requires WfForest(ts) && size <= WIDTH && i < |ts|
    requires var (ts', answer) := NetworkAcquire(ts, size, exclusive, now);
             && |ts'| == |ts| && answer.Some? && WfForest(ts')
             && (forall j :: 0 <= j < |ts| ==> ts'[j].d.prefix == ts[j].d.prefix)
             && (forall j :: 0 <= j < i ==>
                 Exhausted(size, ts[j], exclusive, now) && ts'[j] == AllocateNetwork(size, ts[j], exclusive, now).0)
             && FitsAt(size, ts[i], exclusive, now, r)
             && (ts'[i], answer) == AllocateNetwork(size, ts[i], exclusive, now)
             && (forall j :: i < j < |ts| ==> ts'[j] == ts[j])
    ensures var (ts', answer) := NetworkAcquire(ts, size, exclusive, now);
            Count(ts', q) == if q == answer.value then (if exclusive then -1 else 1) else Count(ts, q)
  {
    var (ts', answer) := NetworkAcquire(ts, size, exclusive, now);
    var t, p := ts[i], answer.value;
    PositionOf(t, r);
    if IsPrefixChildOf(t.d.prefix, q) {
      CountByRoot(ts, i, q);
      CountByRoot(ts', i, q);
      if Canonical(q) {
        RelInjective(t, p, q);
        assert AcquireEffect(t, ts'[i], r, Rel(t, q), true, exclusive, now);
        assert r <= r && RefAt(t, r) == 0;
      }
    } else {
      ExhaustedCounts(ts, size, exclusive, now, i, q);
      CountPointwise(ts, ts', q);
    }
  }

  /** The listing of all pools holds exactly the networks with a count, each once. */
  lemma {:induction false} ListIsLedger(ts: seq<Tree>, p: Prefix)
    requires WfForest(ts)
    ensures p in ListNetworks(ts) <==> Count(ts, p) != 0
  {
    if ts != [] {
      ListExact(ts[0], p);
      ListIsLedger(ts[1..], p);
      if IsPrefixChildOf(ts[0].d.prefix, p) {
        CountByRoot(ts, 0, p);
        assert !IsPrefixInRoots(ts[1..], p) by {
          forall j | 0 <= j < |ts[1..]|
            ensures !IsPrefixChildOf(ts[1..][j].d.prefix, p)
          {
            assert ts[1..][j] == ts[j + 1];
          }
        }
        CountOutside(ts[1..], p);
      }
    }
  }

  lemma {:induction false} ListHasNoDuplicates(ts: seq<Tree>)
    requires WfForest(ts)
    ensures Distinct(ListNetworks(ts))
  {
    if ts != [] {
      ListDistinct(ts[0]);
      ListHasNoDuplicates(ts[1..]);
      var own, rest := PrefixTree.ListNetworks(ts[0]), ListNetworks(ts[1..]);
      forall p | p in own ensures p !in rest {
        ListExact(ts[0], p);
        ListIsLedger(ts[1..], p);
        CountByRoot(ts, 0, p);
        forall j | 0 <= j < |ts[1..]|
          ensures !IsPrefixChildOf(ts[1..][j].d.prefix, p)
        {
          assert ts[1..][j] == ts[j + 1];
        }
        CountOutside(ts[1..], p);
      }
      DistinctConcat(own, rest);
    }
  }

  /** An exclusive network overlaps no other acquired network of any pool. */
  lemma {:induction false} ExclusiveIsSole(ts: seq<Tree>, p: Prefix, q: Prefix)
    requires WfForest(ts) && Count(ts, p) == -1 && Overlaps(p, q) && p != q
    ensures Count(ts, q) == 0
  {
    if i, j :|
      && 0 <= i < |ts| && IsPrefixChildOf(ts[i].d.prefix, p)
      && 0 <= j < |ts| && IsPrefixChildOf(ts[j].d.prefix, q)
    {
      OverlapStaysInRoot(ts, i, j, p, q);
      CountByRoot(ts, i, p);
      CountByRoot(ts, i, q);
      var t := ts[i];
      if Canonical(q) {
        OverlapIsComparable(p, q);
        ChildIsPathPrefix(t.d.prefix, p);
        ChildIsPathPrefix(t.d.prefix, q);
        RelInjective(t, p, q);
        ExclusiveAlone(t, Rel(t, p), Rel(t, q));
      }
    } else {
      if !IsPrefixInRoots(ts, p) { CountOutside(ts, p); } else { CountOutside(ts, q); }
    }
  }

  // ----- the times of other networks

  /** A release of an acquired network leaves the time of every other one alone while the clock is steady. */
  lemma {:induction false} ReleaseElsewhere(ts: seq<Tree>, p: Prefix, grace: int, clock: nat -> int, q: Prefix)
    requires WfForest(ts) && Count(ts, p) != 0 && Count(ts, q) != 0 && q != p && SteadyClock(clock, grace)
    ensures LastUpdate(NetworkRelease(ts, p, grace, clock).0, q) == LastUpdate(ts, q)
  {
    var i := AcquiredRoot(ts, p);
    var j := AcquiredRoot(ts, q);
    ReleaseInRoot(ts, i, p, grace, clock);
    ReleaseKeepsWf(p, ts[i], grace, clock);
    var t := PrefixTree.NetworkRelease(p, ts[i], grace, clock).0;
    CountAfterUpdate(ts, i, t, q);
    LastUpdateInRoot(ts, j, q);
    LastUpdateInRoot(ts[i := t], j, q);
    if i == j {
      RelInjective(ts[i], p, q);
      ReleaseLeavesOthers(p, ts[i], grace, clock, Rel(ts[i], q));
    }
  }

  lemma {:induction false} ReleaseOwn(ts: seq<Tree>, p: Prefix, grace: int, clock: nat -> int)
    requires WfForest(ts) && Count(ts, p) != 0 && SteadyClock(clock, grace)
    ensures var us := NetworkRelease(ts, p, grace, clock).0;
            LastUpdate(us, p) == LastUpdate(ts, p) || LastUpdate(us, p) == clock(p.bits)
  {
    var i := AcquiredRoot(ts, p);
    ReleaseInRoot(ts, i, p, grace, clock);
    ReleaseKeepsWf(p, ts[i], grace, clock);
    var t := PrefixTree.NetworkRelease(p, ts[i], grace, clock).0;
    CountAfterUpdate(ts, i, t, p);
    LastUpdateInRoot(ts, i, p);
    LastUpdateInRoot(ts[i := t], i, p);
    ReleaseOwnTime(p, ts[i], grace, clock);
  }

  /** Acquiring a network leaves the time of every other one alone. */
  lemma {:induction false} AcquireElsewhere(ts: seq<Tree>, p: Prefix, exclusive: bool, now: int, q: Prefix)
    requires WfForest(ts) && Count(ts, q) != 0 && (q != p || NetworkAcquireWithPrefix(ts, p, exclusive, now).1.None?)
    ensures LastUpdate(NetworkAcquireWithPrefix(ts, p, exclusive, now).0, q) == LastUpdate(ts, q)
  {
    if i :| 0 <= i < |ts| && IsPrefixChildOf(ts[i].d.prefix, p) {
      var j := AcquiredRoot(ts, q);
      CountByRoot(ts, i, p);
      AcquireInRoot(ts, i, p, exclusive, now);
      AcquireKeepsWf(p, ts[i], exclusive, now);
      AcquireExact(p, ts[i], exclusive, now);
      var (t, answer) := AllocateNetworkWithPrefix(p, ts[i], exclusive, now);
      CountAfterUpdate(ts, i, t, q);
      LastUpdateInRoot(ts, j, q);
      LastUpdateInRoot(ts[i := t], j, q);
      if i == j {
        if answer.Some? { RelInjective(ts[i], p, q); }
        assert AcquireEffect(ts[i], t, Rel(ts[i], p), Rel(ts[i], q), answer.Some?, exclusive, now);
      }
    } else {
      AcquireSkips(ts, |ts|, p, exclusive, now, 0);
    }
  }

  /** The pool an acquired network lies in. */
  lemma {:induction false} AcquiredRoot(ts: seq<Tree>, p: Prefix) returns (i: nat)
    requires WfForest(ts) && Count(ts, p) != 0
    ensures i < |ts| && IsPrefixChildOf(ts[i].d.prefix, p) && Canonical(p)
    ensures RefAt(ts[i], Rel(ts[i], p)) == Count(ts, p) && OnlyRoot(ts, i, p)
  {
    if !IsPrefixInRoots(ts, p) { CountOutside(ts, p); }
    i :| 0 <= i < |ts| && IsPrefixChildOf(ts[i].d.prefix, p);
    CountByRoot(ts, i, p);
  }
}
