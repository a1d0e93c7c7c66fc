/**
Calls on addresses across the pools, and whole runs of the address manager: any sequence of calls,
each with whatever the clock reads while it runs.
*/
module IpamRuns {
  import opened Wrappers
  import opened Net
  import opened PrefixTree
  import opened NodeAddresses
  import opened IpamForest

  // ----- the node of a network, over all pools

  /** First pool that contains the prefix, from the `i`-th on. */
  function RootOf(ts: seq<Tree>, p: Prefix, i: nat := 0): (k: nat)
    requires i <= |ts|
    ensures i <= k <= |ts|
    ensures k < |ts| ==> IsPrefixChildOf(ts[k].d.prefix, p)
    ensures forall j :: i <= j < k ==> !IsPrefixChildOf(ts[j].d.prefix, p)
    decreases |ts| - i
  {
    if i == |ts| || IsPrefixChildOf(ts[i].d.prefix, p) then i else RootOf(ts, p, i + 1)
  }

  datatype Node = Node(root: nat, at: seq<bool>)

  /** `search`: an error outside the pools, otherwise the node of the prefix if there is one. */
  function SearchAll(ts: seq<Tree>, p: Prefix): Result<Option<Node>, ()> {
    var i := RootOf(ts, p);
    if i == |ts| then Err(())
    else match Search(p, ts[i])
      case None => Ok(None)
      case Some(r) => Ok(Some(Node(i, r)))
  }

  ghost predicate At(ts: seq<Tree>, n: Node, p: Prefix) {
    && n.root < |ts|
    && IsPrefixChildOf(ts[n.root].d.prefix, p)
    && n.at == Rel(ts[n.root], p)
    && DataAt(ts[n.root], n.at).Some?
  }

  function RecordOf(ts: seq<Tree>, n: Node): Data
    requires n.root < |ts| && DataAt(ts[n.root], n.at).Some?
  {
    DataAt(ts[n.root], n.at).value
  }

  function Store(ts: seq<Tree>, n: Node, d: Data): seq<Tree>
    requires n.root < |ts| && DataAt(ts[n.root], n.at).Some?
  {
    ts[n.root := UpdateAt(ts[n.root], n.at, d)]
  }

  lemma {:induction false} SearchAllExact(ts: seq<Tree>, p: Prefix)
    requires WfForest(ts)
    ensures match SearchAll(ts, p)
            case Err(_) => !IsPrefixInRoots(ts, p)
            case Ok(None) => IsPrefixInRoots(ts, p) && Count(ts, p) == 0
            case Ok(Some(n)) => At(ts, n, p) && Canonical(p) && RecordOf(ts, n).refCount == Count(ts, p)
  {
    var i := RootOf(ts, p);
    if i < |ts| {
      SearchExact(p, ts[i]);
      CountByRoot(ts, i, p);
    }
  }

  /** A record changed in its addresses alone leaves the ledger as it is. */
  lemma {:induction false} StoreKeepsLedger(ts: seq<Tree>, n: Node, p: Prefix, d: Data)
    requires WfForest(ts) && At(ts, n, p) && Canonical(p)
    requires d.prefix == RecordOf(ts, n).prefix && d.refCount == RecordOf(ts, n).refCount && WfIPs(d)
    ensures LedgerSame(ts, Store(ts, n, d))
  {
    var t := ts[n.root];
    var t' := UpdateAt(t, n.at, d);
    UpdateAtKeepsWf(t, n.at, d);
    CountAfterUpdate(ts, n.root, t', p);
    forall q: Prefix ensures Count(Store(ts, n, d), q) == Count(ts, q) {
      CountAfterUpdate(ts, n.root, t', q);
      if IsPrefixChildOf(t.d.prefix, q) {
        CountByRoot(ts, n.root, q);
        UpdateAtExact(t, n.at, d, Rel(t, q));
      }
    }
  }

  lemma {:induction false} RecordIsWf(t: Tree, q: seq<bool>)
    requires Wf(t) && DataAt(t, q).Some?
    ensures var d := DataAt(t, q).value; WfIPs(d) && Canonical(d.prefix) && d.prefix.bits == t.d.prefix.bits + |q|
    decreases |q|
  {
    if q != [] { RecordIsWf(if q[0] then t.right else t.left, q[1..]); }
  }

  // ----- the calls of a run

  datatype Call =
    | AcquireAny(size: nat, exclusive: bool)
    | AcquireThis(p: Prefix, exclusive: bool)
    | Release(p: Prefix, grace: int)
    | Addresses(p: Prefix, call: AddressCall)

  datatype Answer = Network(net: Option<Prefix>) | Address(ip: Option<Addr>) | Refused

  /** A call and what the clock reads during it. */
  datatype Event = Event(call: Call, clock: nat -> int)

  ghost predicate Legal(e: Event) { e.call.AcquireAny? ==> e.call.size <= WIDTH }

  /** An address call on the node of a network; a given address must lie in the given prefix. */
  function OnAddresses(ts: seq<Tree>, p: Prefix, call: AddressCall, now: int): (seq<Tree>, Answer)
    requires WfForest(ts)
  {
    SearchAllExact(ts, p);
    if call.Take? && !Contains(p, call.a) then (ts, Refused)
    else match SearchAll(ts, p)
      case Err(_) => (ts, Refused)
      case Ok(None) => (ts, Address(None))
      case Ok(Some(n)) =>
        var (d, answer) := OnRecord(call, RecordOf(ts, n), now);
        (Store(ts, n, d), Address(answer))
  }

  /** An address call is an error exactly outside the pools or for a given address outside the given network. */
  lemma {:induction false} RefusedIff(ts: seq<Tree>, p: Prefix, call: AddressCall, now: int)
    requires WfForest(ts)
    ensures OnAddresses(ts, p, call, now).1.Refused? <==>
              !IsPrefixInRoots(ts, p) || (call.Take? && !Contains(p, call.a))
    ensures OnAddresses(ts, p, call, now).1.Refused? ==> OnAddresses(ts, p, call, now).0 == ts
  {
    SearchAllExact(ts, p);
  }

  function Step(ts: seq<Tree>, e: Event): (seq<Tree>, Answer)
    requires WfForest(ts) && Legal(e)
  {
    var now := e.clock(0);
    match e.call
    case AcquireAny(size, exclusive) =>
      var (us, answer) := NetworkAcquire(ts, size, exclusive, now); (us, Network(answer))
    case AcquireThis(p, exclusive) =>
      var (us, answer) := NetworkAcquireWithPrefix(ts, p, exclusive, now); (us, Network(answer))
    case Release(p, grace) =>
      var (us, answer) := IpamForest.NetworkRelease(ts, p, grace, e.clock); (us, Network(answer))
    case Addresses(p, call) => OnAddresses(ts, p, call, now)
  }

  /** What a call and its answer do to the count of one network: the ledger without the trees. */
  function CountAfter(call: Call, answer: Answer, p: Prefix, count: int): int {
    if answer != Network(Some(p)) then count
    else match call
      case AcquireAny(_, exclusive) => if exclusive then -1 else 1
      case AcquireThis(_, exclusive) => if exclusive then -1 else count + 1
      case Release(_, _) => CountAfterRelease(count)
      case _ => count
  }

  lemma {:induction false} AddressStep(ts: seq<Tree>, p: Prefix, call: AddressCall, now: int)
    requires WfForest(ts)
    ensures var (us, answer) := OnAddresses(ts, p, call, now); LedgerSame(ts, us) && !answer.Network?
  {
    SearchAllExact(ts, p);
    match SearchAll(ts, p)
    case Err(_) =>
    case Ok(None) =>
    case Ok(Some(n)) =>
      var d := RecordOf(ts, n);
      RecordIsWf(ts[n.root], n.at);
      OnRecordKeeps(call, d, now);
      StoreKeepsLedger(ts, n, p, OnRecord(call, d, now).0);
  }

  /** An address of a network that is handed out. */
  ghost predicate Held(ts: seq<Tree>, p: Prefix, a: Addr) {
    SearchAll(ts, p).Ok? && match SearchAll(ts, p).value
                            case None => false
                            case Some(n) =>
                              n.root < |ts| && DataAt(ts[n.root], n.at).Some? && IsAllocatedIP(RecordOf(ts, n), a)
  }

  lemma {:induction false} SearchAfterStore(ts: seq<Tree>, n: Node, p: Prefix, d: Data, q: Prefix)
    requires WfForest(ts) && At(ts, n, p) && Canonical(p) && SearchAll(ts, p) == Ok(Some(n))
    requires d.prefix == RecordOf(ts, n).prefix && d.refCount == RecordOf(ts, n).refCount && WfIPs(d)
    ensures var us := Store(ts, n, d);
            && SearchAll(us, q) == SearchAll(ts, q)
            && (SearchAll(ts, q).Ok? && SearchAll(ts, q).value.Some? ==>
                  var m := SearchAll(ts, q).value.value;
                  && m.root < |ts| && DataAt(ts[m.root], m.at).Some? && DataAt(us[m.root], m.at).Some?
                  && RecordOf(us, m) == if q == p then d else RecordOf(ts, m))
  {
    var us := Store(ts, n, d);
    StoreKeepsLedger(ts, n, p, d);
    UpdateAtKeepsWf(ts[n.root], n.at, d);
    SearchAllExact(ts, q);
    var i := RootOf(ts, q);
    SameRoots(ts, us, q, 0);
    if i < |ts| {
      SearchExact(q, ts[i]);
      SearchExact(q, us[i]);
      if i == n.root {
        UpdateAtExact(ts[i], n.at, d, Rel(ts[i], q));
        if Canonical(q) { RelInjective(ts[i], p, q); }
      }
    }
  }

  lemma {:induction false} SameRoots(ts: seq<Tree>, us: seq<Tree>, q: Prefix, i: nat)
    requires |ts| == |us| && i <= |ts| && forall j :: 0 <= j < |ts| ==> us[j].d.prefix == ts[j].d.prefix
    ensures RootOf(us, q, i) == RootOf(ts, q, i)
    decreases |ts| - i
  {}

  /**
  Over all pools, the address handed out is one of the network that nobody held, there is one as long
  as the network is acquired and not full, and no other address of any network changes hands.
  */
  lemma {:induction false} TakeAnyExact(ts: seq<Tree>, p: Prefix, now: int)
    requires WfForest(ts)
    ensures var (us, answer) := OnAddresses(ts, p, TakeAny, now);
            && (answer.Refused? <==> !IsPrefixInRoots(ts, p))
            && (answer == Address(None) <==>
                IsPrefixInRoots(ts, p) && (Count(ts, p) == 0 || forall a: Addr :: Contains(p, a) ==> Held(ts, p, a)))
            && (answer.Address? && answer.ip.Some? ==> Contains(p, answer.ip.value) && !Held(ts, p, answer.ip.value))
            && forall q: Prefix, a: Addr :: Held(us, q, a) <==> Held(ts, q, a) || (q == p && answer == Address(Some(a)))
  {
    SearchAllExact(ts, p);
    match SearchAll(ts, p)
    case Err(_) =>
    case Ok(None) =>
    case Ok(Some(n)) =>
      var d := RecordOf(ts, n);
      RecordIsWf(ts[n.root], n.at);
      RecordPrefix(ts[n.root], p);
      IpAcquireExact(d, now);
      var (d', answer) := IpAcquire(d, now);
      assert forall a: Addr :: Held(ts, p, a) <==> IsAllocatedIP(d, a);
      forall q: Prefix, a: Addr
        ensures Held(Store(ts, n, d'), q, a) <==> Held(ts, q, a) || (q == p && answer == Some(a))
      {
        SearchAfterStore(ts, n, p, d', q);
      }
  }

  /** A given address is taken exactly when it lies in an acquired network and nobody holds it. */
  lemma {:induction false} TakeExact(ts: seq<Tree>, p: Prefix, a: Addr, now: int)
    requires WfForest(ts)
    ensures var (us, answer) := OnAddresses(ts, p, Take(a), now);
            && (answer == Address(Some(a)) <==> Contains(p, a) && Count(ts, p) != 0 && !Held(ts, p, a))
            && (answer.Address? && answer.ip.Some? ==> answer.ip.value == a)
            && forall q: Prefix, b: Addr :: Held(us, q, b) <==> Held(ts, q, b) || (q == p && answer == Address(Some(b)))
  {
    SearchAllExact(ts, p);
    match SearchAll(ts, p)
    case Err(_) => CountOutside(ts, p);
    case Ok(None) =>
    case Ok(Some(n)) =>
      var d := RecordOf(ts, n);
      RecordIsWf(ts[n.root], n.at);
      RecordPrefix(ts[n.root], p);
      AllocateIPExact(d, a, now);
      var (d', answer) := AllocateIPWithAddr(d, a, now);
      assert Held(ts, p, a) <==> IsAllocatedIP(d, a);
      forall q: Prefix, b: Addr
        ensures Held(Store(ts, n, d'), q, b) <==> Held(ts, q, b) || (q == p && answer == Some(b))
      {
        SearchAfterStore(ts, n, p, d', q);
      }
  }

  /** The network holds the address, in an entry whose grace period is over. */
  ghost predicate Returnable(ts: seq<Tree>, p: Prefix, a: Addr, grace: int, now: int) {
    && SearchAll(ts, p).Ok? && SearchAll(ts, p).value.Some?
    && var n := SearchAll(ts, p).value.value;
    && n.root < |ts| && DataAt(ts[n.root], n.at).Some?
    && exists ip :: ip in RecordOf(ts, n).ips && ip.addr == a && ip.created + grace < now
  }

  /**
  An address is given back exactly when an acquired network holds it and its grace period is over; no
  other address is freed.
  */
  lemma {:induction false} GiveExact(ts: seq<Tree>, p: Prefix, a: Addr, grace: int, now: int)
    requires WfForest(ts)
    ensures var (us, answer) := OnAddresses(ts, p, Give(a, grace), now);
            && (answer == Address(Some(a)) <==> Count(ts, p) != 0 && Returnable(ts, p, a, grace, now))
            && (answer.Address? && answer.ip.Some? ==> answer.ip.value == a)
            && forall q: Prefix, b: Addr :: Held(us, q, b) <==>
                 Held(ts, q, b) && !(q == p && answer == Address(Some(b)))
  {
    SearchAllExact(ts, p);
    match SearchAll(ts, p)
    case Err(_) =>
    case Ok(None) =>
    case Ok(Some(n)) =>
      var d := RecordOf(ts, n);
      RecordIsWf(ts[n.root], n.at);
      IpReleaseExact(d, a, grace, now);
      var (d', answer) := IpRelease(d, a, grace, now);
      forall q: Prefix, b: Addr
        ensures Held(Store(ts, n, d'), q, b) <==> Held(ts, q, b) && !(q == p && answer == Some(b))
      {
        SearchAfterStore(ts, n, p, d', q);
      }
  }

  lemma {:induction false} RecordPrefix(t: Tree, p: Prefix)
    requires Wf(t) && IsPrefixChildOf(t.d.prefix, p) && Canonical(p) && DataAt(t, Rel(t, p)).Some?
    ensures DataAt(t, Rel(t, p)).value.prefix == p
    decreases t
  {
    if t.d.prefix.bits == p.bits {
      if t.d.prefix != p { SameLengthNotCanonical(t.d.prefix, p); }
    } else {
      RelBelow(t, p);
      var r := Rel(t, p);
      RecordPrefix(if r[0] then t.right else t.left, p);
    }
  }

  /** Every call keeps the forest well formed and moves the ledger exactly as its answer says. */
  lemma {:induction false} StepLedger(ts: seq<Tree>, e: Event, p: Prefix)
    requires WfForest(ts) && Legal(e)
    ensures var (us, answer) := Step(ts, e); WfForest(us) && Count(us, p) == CountAfter(e.call, answer, p, Count(ts, p))
  {
    match e.call
    case AcquireAny(_, _) => AnyLedger(ts, e, p);
    case AcquireThis(_, _) => ThisLedger(ts, e, p);
    case Release(q, grace) => ReleaseThisNetwork(ts, q, grace, e.clock);
    case Addresses(q, call) => AddressStep(ts, q, call, e.clock(0));
  }

  lemma {:induction false} AnyLedger(ts: seq<Tree>, e: Event, p: Prefix)
    requires WfForest(ts) && Legal(e) && e.call.AcquireAny?
    ensures var (us, answer) := Step(ts, e); WfForest(us) && Count(us, p) == CountAfter(e.call, answer, p, Count(ts, p))
  {
    AcquireAnyNetwork(ts, e.call.size, e.call.exclusive, e.clock(0));
  }

  lemma {:induction false} ThisLedger(ts: seq<Tree>, e: Event, p: Prefix)
    requires WfForest(ts) && Legal(e) && e.call.AcquireThis?
    ensures var (us, answer) := Step(ts, e); WfForest(us) && Count(us, p) == CountAfter(e.call, answer, p, Count(ts, p))
  {
    AcquireThisNetwork(ts, e.call.p, e.call.exclusive, e.clock(0));
  }

  function Run(ts: seq<Tree>, es: seq<Event>): (seq<Tree>, seq<Answer>)
    requires WfForest(ts) && forall e :: e in es ==> Legal(e)
    decreases |es|
  {
    if es == [] then (ts, [])
    else
      var (us, answer) := Step(ts, es[0]);
      StepLedger(ts, es[0], Cidr(Zeros(WIDTH), 0));
      var (vs, answers) := Run(us, es[1..]);
      (vs, [answer] + answers)
  }

  function Replay(es: seq<Event>, answers: seq<Answer>, p: Prefix, count: int): int
    requires |es| == |answers|
  {
    if es == [] then count
    else Replay(es[1..], answers[1..], p, CountAfter(es[0].call, answers[0], p, count))
  }

  /** Conservation: after any run the count of every network is the one its answers add up to. */
  lemma {:induction false} RunLedger(ts: seq<Tree>, es: seq<Event>, p: Prefix)
    requires WfForest(ts) && forall e :: e in es ==> Legal(e)
    ensures var (us, answers) := Run(ts, es);
            WfForest(us) && |answers| == |es| && Count(us, p) == Replay(es, answers, p, Count(ts, p))
    decreases |es|
  {
    if es != [] {
      StepLedger(ts, es[0], p);
      RunLedger(Step(ts, es[0]).0, es[1..], p);
    }
  }

  lemma {:induction false} NewIpamIsEmpty(pools: seq<Prefix>, now: int, p: Prefix)
    requires CheckRoots(pools)
    ensures var ts := NewIpam(pools, now).value; WfForest(ts) && Count(ts, p) == 0
  {
    var ts := NewIpam(pools, now).value;
    if i :| 0 <= i < |ts| && IsPrefixChildOf(ts[i].d.prefix, p) {
      CountByRoot(ts, i, p);
      assert ts[i].Leaf? && ts[i].d.refCount == 0;
    } else {
      CountOutside(ts, p);
    }
  }

  /**
  Safety over whole runs: from fresh pools, after any calls at any times, two networks that overlap
  are never both held when one of them is held exclusively.
  */
  lemma {:induction false} NoConflictEver(pools: seq<Prefix>, start: int, es: seq<Event>, p: Prefix, q: Prefix)
    requires CheckRoots(pools) && forall e :: e in es ==> Legal(e)
    requires Overlaps(p, q) && p != q
    ensures var ts := NewIpam(pools, start).value;
            WfForest(ts) && var us := Run(ts, es).0; Count(us, p) == -1 ==> Count(us, q) == 0
  {
    NewIpamIsEmpty(pools, start, p);
    var ts := NewIpam(pools, start).value;
    RunLedger(ts, es, p);
    if Count(Run(ts, es).0, p) == -1 { ExclusiveIsSole(Run(ts, es).0, p, q); }
  }

  lemma {:induction false} HeldInRoot(ts: seq<Tree>, i: nat, q: Prefix, a: Addr)
    requires WfForest(ts) && i < |ts| && IsPrefixChildOf(ts[i].d.prefix, q)
    ensures Held(ts, q, a) <==>
              Canonical(q) && DataAt(ts[i], Rel(ts[i], q)).Some? && IsAllocatedIP(DataAt(ts[i], Rel(ts[i], q)).value, a)
  {
    CountByRoot(ts, i, q);
    SearchExact(q, ts[i]);
    assert RootOf(ts, q) == i;
  }

  /** Acquiring a network takes no address away from anyone. */
  lemma {:induction false} AcquireKeepsHeld(ts: seq<Tree>, p: Prefix, exclusive: bool, now: int, q: Prefix, a: Addr)
    requires WfForest(ts) && Held(ts, q, a)
    ensures Held(NetworkAcquireWithPrefix(ts, p, exclusive, now).0, q, a)
  {
    if i :| 0 <= i < |ts| && IsPrefixChildOf(ts[i].d.prefix, p) {
      CountByRoot(ts, i, p);
      AcquireInRoot(ts, i, p, exclusive, now);
      AcquireKeepsWf(p, ts[i], exclusive, now);
      var t := AllocateNetworkWithPrefix(p, ts[i], exclusive, now).0;
      CountAfterUpdate(ts, i, t, q);
      var j := RootOf(ts, q);
      HeldInRoot(ts, j, q, a);
      HeldInRoot(ts[i := t], j, q, a);
      if i == j {
        AcquireExact(p, ts[i], exclusive, now);
        assert AcquireEffect(ts[i], t, Rel(ts[i], p), Rel(ts[i], q),
                             AllocateNetworkWithPrefix(p, ts[i], exclusive, now).1.Some?, exclusive, now);
      }
    } else {
      AcquireSkips(ts, |ts|, p, exclusive, now, 0);
    }
  }

  // ----- when a record was last touched

  lemma {:induction false} AcquireThisTouches(ts: seq<Tree>, p: Prefix, exclusive: bool, now: int)
    requires WfForest(ts) && NetworkAcquireWithPrefix(ts, p, exclusive, now).1.Some?
    ensures LastUpdate(NetworkAcquireWithPrefix(ts, p, exclusive, now).0, p) == now
  {
    AcquireThisNetwork(ts, p, exclusive, now);
    var i :| 0 <= i < |ts| && IsPrefixChildOf(ts[i].d.prefix, p);
    CountByRoot(ts, i, p);
    AcquireInRoot(ts, i, p, exclusive, now);
    AcquireKeepsWf(p, ts[i], exclusive, now);
    AcquireExact(p, ts[i], exclusive, now);
    var t := AllocateNetworkWithPrefix(p, ts[i], exclusive, now).0;
    assert AcquireEffect(ts[i], t, Rel(ts[i], p), Rel(ts[i], p), true, exclusive, now);
    CountAfterUpdate(ts, i, t, p);
    LastUpdateInRoot(ts[i := t], i, p);
  }

  lemma {:induction false} AcquireAnyTouches(ts: seq<Tree>, size: nat, exclusive: bool, now: int)
    requires WfForest(ts) && size <= WIDTH && NetworkAcquire(ts, size, exclusive, now).1.Some?
    ensures var (us, answer) := NetworkAcquire(ts, size, exclusive, now); LastUpdate(us, answer.value) == now
  {
    var (us, answer) := NetworkAcquire(ts, size, exclusive, now);
    AcquireAnyNetwork(ts, size, exclusive, now);
    var i, r := AcquireAnyTrees(ts, size, exclusive, now);
    PositionOf(ts[i], r);
    AllocateKeepsWf(size, ts[i], exclusive, now);
    assert AcquireEffect(ts[i], us[i], r, r, true, exclusive, now);
    LastUpdateInRoot(us, i, answer.value);
  }

  /** An address call moves the time of its own network at most, and then to now. */
  lemma {:induction false} CallTimes(ts: seq<Tree>, p: Prefix, call: AddressCall, now: int, q: Prefix)
    requires WfForest(ts) && Count(ts, q) != 0
    ensures var us := OnAddresses(ts, p, call, now).0;
            LastUpdate(us, q) == LastUpdate(ts, q) || (q == p && LastUpdate(us, q) == now)
  {
    SearchAllExact(ts, p);
    match SearchAll(ts, p)
    case Ok(Some(n)) =>
      var d := RecordOf(ts, n);
      var d' := OnRecord(call, d, now).0;
      RecordIsWf(ts[n.root], n.at);
      OnRecordKeeps(call, d, now);
      RecordTime(call, d, now);
      StoreKeepsLedger(ts, n, p, d');
      UpdateAtKeepsWf(ts[n.root], n.at, d');
      var j := AcquiredRoot(ts, q);
      LastUpdateInRoot(ts, j, q);
      LastUpdateInRoot(Store(ts, n, d'), j, q);
      if j == n.root {
        RelInjective(ts[j], p, q);
        UpdateAtExact(ts[j], n.at, d', Rel(ts[j], q));
      }
    case _ =>
  }

  /** What a call about one address leaves of the grace periods of the others. */
  lemma {:induction false} OthersReturnable(ts: seq<Tree>, p: Prefix, call: AddressCall, now: int, q: Prefix, b: Addr,
                                            grace: int, time: int)
    requires WfForest(ts) && !call.TakeAny? && (call.a != b || q != p)
    ensures Returnable(OnAddresses(ts, p, call, now).0, q, b, grace, time) <==> Returnable(ts, q, b, grace, time)
  {
    SearchAllExact(ts, p);
    match SearchAll(ts, p)
    case Ok(Some(n)) =>
      var d := RecordOf(ts, n);
      var d' := OnRecord(call, d, now).0;
      RecordIsWf(ts[n.root], n.at);
      OnRecordKeeps(call, d, now);
      SearchAfterStore(ts, n, p, d', q);
      forall ip: NodeIP | ip.addr != call.a ensures ip in d'.ips <==> ip in d.ips { OtherEntries(call, d, now, ip); }
    case _ =>
  }
}
