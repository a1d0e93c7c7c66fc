/**
The addresses of one network (pkg/ipam/core/node.go): which one is handed out next, taking a
given one, and giving one back, as functions of the node's record.
*/
module NodeAddresses {
  import opened Wrappers
  import opened Net
  import opened PrefixTree

  predicate IsAllocatedIP(d: Data, a: Addr) { exists i :: 0 <= i < |d.ips| && d.ips[i].addr == a }

  // ----- handing out the next address

  /** An address outside the prefix, or none at all past the last one, wraps to the first of the prefix. */
  function Wrap(p: Prefix, a: Option<Addr>): (w: Addr)
    ensures Contains(p, w)
  {
    if a.Some? && Contains(p, a.value) then a.value else p.addr
  }

  function After(a: Addr): Option<Addr> { Next(a) }

  /** The address the search starts from: the base of the prefix, or the one after the last handed out. */
  function FirstTry(d: Data): Addr {
    if d.lastip.None? || d.lastip.value == d.prefix.addr then d.prefix.addr
    else Wrap(d.prefix, After(d.lastip.value))
  }

  /** The `k`-th address the search looks at. */
  function Try(d: Data, k: nat): (a: Addr)
    ensures Contains(d.prefix, a)
  {
    if k == 0 then FirstTry(d) else Wrap(d.prefix, After(Try(d, k - 1)))
  }

  /** The first address from the `k`-th try on that is not handed out. */
  function FirstFree(d: Data, k: nat): Option<Addr>
    decreases Size(d.prefix) - k
  {
    if k >= Size(d.prefix) then None
    else if !IsAllocatedIP(d, Try(d, k)) then Some(Try(d, k))
    else FirstFree(d, k + 1)
  }

  function IpAcquire(d: Data, now: int): (Data, Option<Addr>) {
    if !IsAcquired(d) then (d, None)
    else
      match FirstFree(d, 0)
      case None => (d.(lastip := if d.lastip.None? then Some(d.prefix.addr) else d.lastip), None)
      case Some(a) => (d.(ips := d.ips + [NodeIP(a, now)], lastip := Some(a), updated := now), Some(a))
  }

  /** Offset of the `k`-th try from the base of the prefix. */
  function Offset(d: Data, k: nat): int { Num(Try(d, k)) - Num(d.prefix.addr) }

  lemma {:induction false} TryAdvances(d: Data, k: nat)
    requires Canonical(d.prefix)
    ensures 0 <= Offset(d, k) < Size(d.prefix)
    ensures Offset(d, k + 1) == if Offset(d, k) + 1 < Size(d.prefix) then Offset(d, k) + 1 else 0
  {
    var a := Try(d, k);
    PrefixIsRange(d.prefix, a);
    NextIsSuccessor(a);
    match After(a)
    case Some(b) => PrefixIsRange(d.prefix, b);
    case None => EndOfSpace(d.prefix);
  }

  lemma {:induction false} MulBound(x: nat, limit: nat, block: nat)
    requires x < limit
    ensures x * block + block <= limit * block
  {
    assert (x + 1) * block <= limit * block;
  }

  /** The block of a prefix ends inside the address space. */
  lemma {:induction false} EndOfSpace(p: Prefix)
    requires Canonical(p)
    ensures Num(p.addr) + Size(p) <= Pow2(WIDTH)
  {
    var k, rest := p.bits, WIDTH - p.bits;
    NumConcat(p.addr[..k], Zeros(rest));
    NumZeros(rest);
    NumBound(p.addr[..k]);
    Pow2Adds(k, rest);
    MulBound(Num(p.addr[..k]), Pow2(k), Pow2(rest));
  }

  lemma {:induction false} Pow2Adds(a: nat, b: nat)
    ensures Pow2(a + b) == Pow2(a) * Pow2(b)
  {
    if b > 0 {
      Pow2Adds(a, b - 1);
      assert Pow2(a) * Pow2(b) == 2 * (Pow2(a) * Pow2(b - 1));
    }
  }

  lemma {:induction false} TryOffset(d: Data, k: nat)
    requires Canonical(d.prefix) && k < Size(d.prefix)
    ensures 0 <= Offset(d, 0) < Size(d.prefix)
    ensures Offset(d, k) == if Offset(d, 0) + k < Size(d.prefix) then Offset(d, 0) + k
              else Offset(d, 0) + k - Size(d.prefix)
  {
    TryAdvances(d, 0);
    if k > 0 {
      TryOffset(d, k - 1);
      TryAdvances(d, k - 1);
    }
  }

  /** `Size` tries look at every address of the prefix. */
  lemma {:induction false} TriesCover(d: Data, a: Addr) returns (k: nat)
    requires Canonical(d.prefix) && Contains(d.prefix, a)
    ensures k < Size(d.prefix) && Try(d, k) == a
  {
    PrefixIsRange(d.prefix, a);
    TryAdvances(d, 0);
    var off := Num(a) - Num(d.prefix.addr) - Offset(d, 0);
    k := if off >= 0 then off else off + Size(d.prefix);
    TryOffset(d, k);
    NumInjective(Try(d, k), a);
  }

  lemma {:induction false} FirstFreeSound(d: Data, k: nat)
    ensures match FirstFree(d, k)
            case None => forall j :: k <= j < Size(d.prefix) ==> IsAllocatedIP(d, Try(d, j))
            case Some(a) => Contains(d.prefix, a) && !IsAllocatedIP(d, a)
    decreases Size(d.prefix) - k
  {
    if k < Size(d.prefix) && IsAllocatedIP(d, Try(d, k)) { FirstFreeSound(d, k + 1); }
  }

  /**
  An acquired network hands out an address of its own that nobody holds, exactly as long as there is
  one; the record then holds that address and no other new one.
  */
  lemma {:induction false} IpAcquireExact(d: Data, now: int)
    requires Canonical(d.prefix) && WfIPs(d)
    ensures var (d', answer) := IpAcquire(d, now);
            && WfIPs(d') && d'.prefix == d.prefix && d'.refCount == d.refCount
            && (answer.None? <==> !IsAcquired(d) || forall a: Addr :: Contains(d.prefix, a) ==> IsAllocatedIP(d, a))
            && (answer.Some? ==>
                Contains(d.prefix, answer.value) && !IsAllocatedIP(d, answer.value) && d'.updated == now)
            && (answer.None? ==> d'.ips == d.ips && d'.updated == d.updated)
            && (answer.None? ==>
                d'.lastip == if IsAcquired(d) && d.lastip.None? then Some(d.prefix.addr) else d.lastip)
            && (forall a: Addr :: IsAllocatedIP(d', a) <==> IsAllocatedIP(d, a) || answer == Some(a))
  {
    var (d', answer) := IpAcquire(d, now);
    if IsAcquired(d) {
      FirstFreeSound(d, 0);
      if answer.None? {
        forall a: Addr | Contains(d.prefix, a) ensures IsAllocatedIP(d, a) {
          var k := TriesCover(d, a);
        }
      } else {
        forall a: Addr ensures IsAllocatedIP(d', a) <==> IsAllocatedIP(d, a) || answer == Some(a) {
          AppendAllocates(d, d', NodeIP(answer.value, now), a);
        }
      }
    }
  }

  /** How far an address of the prefix is from where the search starts, going up and around the end. */
  function Distance(p: Prefix, start: Addr, a: Addr): int {
    if Num(a) >= Num(start) then Num(a) - Num(start) else Num(a) - Num(start) + Size(p)
  }

  /**
  Where the search starts: after the address handed out last, or at the base of the prefix when there is
  none, when it is the base itself or when there is no address of the prefix after it.
  */
  ghost predicate StartsAt(d: Data, start: Addr) {
    if exists a: Addr :: Contains(d.prefix, a) && d.lastip.Some? && d.lastip.value != d.prefix.addr
                         && Num(a) == Num(d.lastip.value) + 1
    then Num(start) == Num(d.lastip.value) + 1
    else start == d.prefix.addr
  }

  lemma {:induction false} FirstTryStarts(d: Data)
    ensures StartsAt(d, FirstTry(d))
  {
    if d.lastip.Some? {
      NextIsSuccessor(d.lastip.value);
      forall a: Addr, b: Addr | Num(a) == Num(b) ensures a == b { NumInjective(a, b); }
      forall a: Addr ensures Num(a) < Pow2(WIDTH) { NumBound(a); }
    }
  }

  lemma {:induction false} TryDistance(d: Data, k: nat)
    requires Canonical(d.prefix) && k < Size(d.prefix)
    ensures Distance(d.prefix, FirstTry(d), Try(d, k)) == k
  {
    TryOffset(d, k);
  }

  lemma {:induction false} FirstFreeIsNearest(d: Data, k: nat, j: nat)
    requires FirstFree(d, k).Some? && k <= j < Size(d.prefix) && !IsAllocatedIP(d, Try(d, j))
    ensures exists i :: k <= i <= j && FirstFree(d, k) == Some(Try(d, i))
    decreases j - k
  {
    if IsAllocatedIP(d, Try(d, k)) {
      FirstFreeIsNearest(d, k + 1, j);
    } else {
      assert FirstFree(d, k) == Some(Try(d, k));
    }
  }

  /** The address handed out is the nearest to the start that nobody holds. */
  lemma {:induction false} IpAcquireNearest(d: Data, now: int, start: Addr, a: Addr)
    requires Canonical(d.prefix) && IpAcquire(d, now).1.Some? && StartsAt(d, start)
    requires Contains(d.prefix, a) && !IsAllocatedIP(d, a)
    ensures Distance(d.prefix, start, IpAcquire(d, now).1.value) <= Distance(d.prefix, start, a)
    ensures IpAcquire(d, now).0.lastip == IpAcquire(d, now).1
  {
    FirstTryStarts(d);
    if start != FirstTry(d) { NumInjective(start, FirstTry(d)); }
    var j := TriesCover(d, a);
    FirstFreeIsNearest(d, 0, j);
    var i :| 0 <= i <= j && FirstFree(d, 0) == Some(Try(d, i));
    TryDistance(d, i);
    TryDistance(d, j);
  }

  lemma {:induction false} AppendAllocates(d: Data, d': Data, ip: NodeIP, a: Addr)
    requires d'.ips == d.ips + [ip]
    ensures IsAllocatedIP(d', a) <==> IsAllocatedIP(d, a) || ip.addr == a
  {
    if IsAllocatedIP(d, a) {
      var i :| 0 <= i < |d.ips| && d.ips[i].addr == a;
      assert d'.ips[i].addr == a;
    }
    assert d'.ips[|d.ips|] == ip;
  }

  // ----- taking a given address

  function AllocateIPWithAddr(d: Data, a: Addr, now: int): (Data, Option<Addr>) {
    if !IsAcquired(d) || !Contains(d.prefix, a) || IsAllocatedIP(d, a) then (d, None)
    else (d.(ips := d.ips + [NodeIP(a, now)], updated := now), Some(a))
  }

  lemma {:induction false} AllocateIPExact(d: Data, a: Addr, now: int)
    requires WfIPs(d)
    ensures var (d', answer) := AllocateIPWithAddr(d, a, now);
            && WfIPs(d') && d'.prefix == d.prefix && d'.refCount == d.refCount
            && (answer.Some? <==> IsAcquired(d) && Contains(d.prefix, a) && !IsAllocatedIP(d, a))
            && (forall b: Addr :: IsAllocatedIP(d', b) <==> IsAllocatedIP(d, b) || answer == Some(b))
  {
    var (d', answer) := AllocateIPWithAddr(d, a, now);
    if answer.Some? {
      forall b: Addr ensures IsAllocatedIP(d', b) <==> IsAllocatedIP(d, b) || answer == Some(b) {
        AppendAllocates(d, d', NodeIP(a, now), b);
      }
    }
  }

  // ----- giving an address back

  /** Index of the first entry for `a` whose grace period is over. */
  function FindReleasable(ips: seq<NodeIP>, a: Addr, grace: int, now: int): (i: nat)
    ensures i <= |ips|
    ensures i < |ips| ==> ips[i].created + grace < now && ips[i].addr == a
    ensures forall j :: 0 <= j < i ==> !(ips[j].created + grace < now && ips[j].addr == a)
  {
    if ips == [] then 0
    else if ips[0].created + grace < now && ips[0].addr == a then 0
    else 1 + FindReleasable(ips[1..], a, grace, now)
  }

  function IpRelease(d: Data, a: Addr, grace: int, now: int): (Data, Option<Addr>) {
    if !IsAcquired(d) then (d, None)
    else
      var i := FindReleasable(d.ips, a, grace, now);
      if i == |d.ips| then (d, None)
      else (d.(ips := d.ips[..i] + d.ips[i + 1..], updated := now), Some(a))
  }

  /** An address is given back exactly when it is held and old enough; the other addresses stay. */
  lemma {:induction false} IpReleaseExact(d: Data, a: Addr, grace: int, now: int)
    requires WfIPs(d)
    ensures var (d', answer) := IpRelease(d, a, grace, now);
            && WfIPs(d') && d'.prefix == d.prefix && d'.refCount == d.refCount
            && (answer.Some? <==> IsAcquired(d) && exists ip :: ip in d.ips && ip.addr == a && ip.created + grace < now)
            && (answer.Some? ==> d'.updated == now && d'.lastip == d.lastip) && (answer.None? ==> d' == d)
            && (forall b: Addr :: IsAllocatedIP(d', b) <==> IsAllocatedIP(d, b) && answer != Some(b))
  {
    var (d', answer) := IpRelease(d, a, grace, now);
    if IsAcquired(d) {
      var i := FindReleasable(d.ips, a, grace, now);
      if i < |d.ips| {
        assert d.ips[i] in d.ips;
        forall b: Addr ensures IsAllocatedIP(d', b) <==> IsAllocatedIP(d, b) && answer != Some(b) {
          RemoveDeallocates(d, d', i, b);
        }
      }
    }
  }

  lemma {:induction false} RemoveDeallocates(d: Data, d': Data, i: nat, b: Addr)
    requires WfIPs(d) && i < |d.ips| && d'.ips == d.ips[..i] + d.ips[i + 1..]
    ensures IsAllocatedIP(d', b) <==> IsAllocatedIP(d, b) && d.ips[i].addr != b
  {
    if IsAllocatedIP(d, b) && d.ips[i].addr != b {
      var j :| 0 <= j < |d.ips| && d.ips[j].addr == b;
      assert d'.ips[if j < i then j else j - 1].addr == b;
    }
    if IsAllocatedIP(d', b) {
      var j :| 0 <= j < |d'.ips| && d'.ips[j].addr == b;
      assert d.ips[if j < i then j else j + 1].addr == b;
    }
  }

  // ----- the three calls as one

  datatype AddressCall = TakeAny | Take(a: Addr) | Give(a: Addr, grace: int)

  function OnRecord(call: AddressCall, d: Data, now: int): (Data, Option<Addr>) {
    match call
    case TakeAny => IpAcquire(d, now)
    case Take(a) => AllocateIPWithAddr(d, a, now)
    case Give(a, grace) => IpRelease(d, a, grace, now)
  }

  /** A call changes the time of the record to now or not at all. */
  lemma {:induction false} RecordTime(call: AddressCall, d: Data, now: int)
    ensures var d' := OnRecord(call, d, now).0; d'.updated == d.updated || d'.updated == now
  {}

  /** A call about one address leaves the entries of the others. */
  lemma {:induction false} OtherEntries(call: AddressCall, d: Data, now: int, ip: NodeIP)
    requires !call.TakeAny? && ip.addr != call.a
    ensures ip in OnRecord(call, d, now).0.ips <==> ip in d.ips
  {
    match call
    case Take(a) =>
    case Give(a, grace) =>
      var i := FindReleasable(d.ips, a, grace, now);
      if i < |d.ips| { assert d.ips == d.ips[..i] + [d.ips[i]] + d.ips[i + 1..]; }
    case TakeAny =>
  }

  /**
  No address call touches the prefix or the count, and every one keeps the addresses distinct and inside
  the prefix.
  */
  lemma {:induction false} OnRecordKeeps(call: AddressCall, d: Data, now: int)
    requires Canonical(d.prefix) && WfIPs(d)
    ensures var d' := OnRecord(call, d, now).0; WfIPs(d') && d'.prefix == d.prefix && d'.refCount == d.refCount
  {
    match call
    case TakeAny => IpAcquireExact(d, now);
    case Take(a) => AllocateIPExact(d, a, now);
    case Give(a, grace) => IpReleaseExact(d, a, grace, now);
  }
}
