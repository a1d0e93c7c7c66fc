/**
The address manager core as the source keeps it (pkg/ipam/core/ipam.go): one root node per pool,
visited in order by loops that stop at the first answer.
*/
module IpamCore {
  import opened Wrappers
  import opened Net
  import opened PrefixTree
  import opened NodeAddresses
  import opened IpamNode
  import IpamForest
  import IpamRuns

  class Ipam {
    var roots: seq<IpamNode.Node>
    ghost var Repr: set<object>

    ghost predicate Valid()
      reads this, Repr
    {
      && this in Repr
      && (forall i :: 0 <= i < |roots| ==> roots[i] in Repr && roots[i].Repr <= Repr && roots[i].Valid())
      && (forall i, j :: 0 <= i < |roots| && 0 <= j < |roots| && i != j ==> roots[i].Repr !! roots[j].Repr)
    }

    ghost function Models(): (ts: seq<Tree>)
      reads this, Repr
      requires Valid()
      ensures |ts| == |roots| && forall i :: 0 <= i < |roots| ==> ts[i] == roots[i].Model()
    {
      seq(|roots|, i requires 0 <= i < |roots| && Valid() reads this, Repr => roots[i].Model())
    }

    constructor (pools: seq<Prefix>, now: int)
      requires IpamForest.CheckRoots(pools)
      ensures Valid() && fresh(Repr) && IpamForest.NewIpam(pools, now) == Some(Models())
    {
      roots := [];
      Repr := {this};
      new;
      var i := 0;
      while i < |pools|
        invariant 0 <= i == |roots| <= |pools|
        invariant Valid() && fresh(Repr)
        invariant forall k :: 0 <= k < i ==> Models()[k] == NewNode(pools[k], now)
      {
        AddRoot(pools[i], now);
        i := i + 1;
      }
      assert Models() == IpamForest.NewIpam(pools, now).value;
    }

    method AddRoot(p: Prefix, now: int)
      requires Valid()
      modifies this
      ensures Valid() && fresh(Repr - old(Repr)) && |roots| == |old(roots)| + 1
      ensures Models() == old(Models()) + [NewNode(p, now)]
    {
      var n := new IpamNode.Node(p, now);
      roots := roots + [n];
      Repr := Repr + n.Repr;
    }

    method AllocateIn(i: nat, size: nat, exclusive: bool, now: int) returns (answer: Option<Prefix>)
      requires Valid() && i < |roots| && Wf(roots[i].Model()) && size <= WIDTH
      modifies Repr
      ensures Valid() && fresh(Repr - old(Repr)) && roots == old(roots)
      ensures var (t, a) := PrefixTree.AllocateNetwork(size, old(Models())[i], exclusive, now);
              answer == a && Models() == old(Models())[i := t]
    {
      var root := roots[i];
      answer := root.AllocateNetwork(size, exclusive, now);
      Repr := Repr + root.Repr;
      forall j | 0 <= j < |roots| && j != i ensures roots[j].Valid() && roots[j].Model() == old(roots[j].Model()) {
        assert roots[j].Repr !! old(root.Repr);
      }
    }

    method NetworkAcquire(size: nat, exclusive: bool, now: int) returns (answer: Option<Prefix>)
      requires Valid() && IpamForest.AllWf(Models()) && size <= WIDTH
      modifies Repr
      ensures Valid() && fresh(Repr - old(Repr)) && roots == old(roots)
      ensures (Models(), answer) == IpamForest.NetworkAcquire(old(Models()), size, exclusive, now)
    {
      var i := 0;
      while i < |roots|
        invariant 0 <= i <= |roots| && roots == old(roots)
        invariant Valid() && fresh(Repr - old(Repr)) && IpamForest.AllWf(Models())
        invariant IpamForest.NetworkAcquire(old(Models()), size, exclusive, now)
                  == IpamForest.NetworkAcquire(Models(), size, exclusive, now, i)
      {
        ghost var t := Models()[i];
        AllocateKeepsWf(size, t, exclusive, now);
        answer := AllocateIn(i, size, exclusive, now);
        if answer.Some? { return; }
        i := i + 1;
      }
      return None;
    }

    method AcquireIn(i: nat, p: Prefix, exclusive: bool, now: int) returns (answer: Option<Prefix>)
      requires Valid() && i < |roots| && Wf(roots[i].Model())
      modifies Repr
      ensures Valid() && fresh(Repr - old(Repr)) && roots == old(roots)
      ensures var (t, a) := PrefixTree.AllocateNetworkWithPrefix(p, old(Models())[i], exclusive, now);
              answer == a && Models() == old(Models())[i := t]
    {
      answer := roots[i].AllocateNetworkWithPrefix(p, exclusive, now);
      Repr := Repr + roots[i].Repr;
    }

    method NetworkAcquireWithPrefix(p: Prefix, exclusive: bool, now: int) returns (answer: Option<Prefix>)
      requires Valid() && IpamForest.AllWf(Models())
      modifies Repr
      ensures Valid() && fresh(Repr - old(Repr)) && roots == old(roots)
      ensures (Models(), answer) == IpamForest.NetworkAcquireWithPrefix(old(Models()), p, exclusive, now)
    {
      var i := 0;
      while i < |roots|
        invariant 0 <= i <= |roots| && roots == old(roots)
        invariant Valid() && fresh(Repr - old(Repr)) && IpamForest.AllWf(Models())
        invariant IpamForest.NetworkAcquireWithPrefix(old(Models()), p, exclusive, now)
                  == IpamForest.NetworkAcquireWithPrefix(Models(), p, exclusive, now, i)
      {
        if IsPrefixChildOf(roots[i].prefix, p) {
          ghost var t := Models()[i];
          AcquireKeepsWf(p, t, exclusive, now);
          answer := AcquireIn(i, p, exclusive, now);
          if answer.Some? { return; }
        }
        i := i + 1;
      }
      return None;
    }

    method ReleaseIn(i: nat, p: Prefix, grace: int, clock: nat -> int) returns (answer: Option<Prefix>)
      requires Valid() && i < |roots| && Wf(roots[i].Model())
      modifies Repr
      ensures Valid() && Repr == old(Repr) && roots == old(roots)
      ensures var (t, a) := PrefixTree.NetworkRelease(p, old(Models())[i], grace, clock);
              answer == a && Models() == old(Models())[i := t]
    {
      answer := roots[i].NetworkRelease(p, grace, clock);
    }

    method NetworkRelease(p: Prefix, grace: int, clock: nat -> int) returns (answer: Option<Prefix>)
      requires Valid() && IpamForest.AllWf(Models())
      modifies Repr
      ensures Valid() && Repr == old(Repr) && roots == old(roots)
      ensures (Models(), answer) == IpamForest.NetworkRelease(old(Models()), p, grace, clock)
    {
      var i := 0;
      while i < |roots|
        invariant 0 <= i <= |roots| && roots == old(roots)
        invariant Valid() && Repr == old(Repr) && IpamForest.AllWf(Models())
        invariant IpamForest.NetworkRelease(old(Models()), p, grace, clock)
                  == IpamForest.NetworkRelease(Models(), p, grace, clock, i)
      {
        if IsPrefixChildOf(roots[i].prefix, p) {
          ghost var t := Models()[i];
          ReleaseKeepsWf(p, t, grace, clock);
          answer := ReleaseIn(i, p, grace, clock);
          if answer.Some? { return; }
        }
        i := i + 1;
      }
      return None;
    }

    /** `IPAcquire`, `IPAcquireWithAddr` and `IPRelease`: a refusal is the error the source returns. */
    method OnAddresses(p: Prefix, call: AddressCall, now: int) returns (answer: IpamRuns.Answer)
      requires Valid() && IpamForest.WfForest(Models())
      modifies Repr
      ensures Valid() && Repr == old(Repr) && roots == old(roots)
      ensures (Models(), answer) == IpamRuns.OnAddresses(old(Models()), p, call, now)
    {
      if call.Take? && !Contains(p, call.a) { return IpamRuns.Refused; }
      ghost var ts := Models();
      var i := 0;
      while i < |roots|
        invariant 0 <= i <= |roots| && roots == old(roots)
        invariant Valid() && Repr == old(Repr) && Models() == ts
        invariant IpamRuns.RootOf(ts, p) == IpamRuns.RootOf(ts, p, i)
      {
        if IsPrefixChildOf(roots[i].prefix, p) {
          answer := OnAddressesIn(i, p, call, now);
          return;
        }
        i := i + 1;
      }
      return IpamRuns.Refused;
    }

    method OnAddressesIn(i: nat, p: Prefix, call: AddressCall, now: int) returns (answer: IpamRuns.Answer)
      requires Valid() && i < |roots|
      modifies Repr
      ensures Valid() && Repr == old(Repr) && roots == old(roots)
      ensures answer.Address?
      ensures var t := old(Models())[i];
              match PrefixTree.Search(p, t)
              case None => answer == IpamRuns.Address(None) && Models() == old(Models())
              case Some(at) =>
                && DataAt(t, at).Some?
                && var (d, a) := OnRecord(call, DataAt(t, at).value, now);
                answer == IpamRuns.Address(a) && Models() == old(Models())[i := UpdateAt(t, at, d)]
    {
      var found, a;
      ghost var at;
      found, a, at := roots[i].OnNodeOf(p, call, now);
      return IpamRuns.Address(a);
    }

    /** `search`: an error outside the pools, otherwise the node of the prefix or nothing. */
    method Search(p: Prefix) returns (inPools: bool, n: IpamNode.Node?)
      requires Valid()
      ensures inPools <==> InPools(p)
      ensures n == null ==> forall a: Addr :: !IpamRuns.Held(Models(), p, a)
      ensures n != null ==> inPools && forall a: Addr :: IpamRuns.Held(Models(), p, a) <==> IsAllocatedIP(n.Record(), a)
    {
      ghost var ts := Models();
      var i := 0;
      while i < |roots|
        invariant 0 <= i <= |roots|
        invariant IpamRuns.RootOf(ts, p) == IpamRuns.RootOf(ts, p, i)
      {
        if IsPrefixChildOf(roots[i].prefix, p) {
          ghost var at;
          n, at := roots[i].Search(p);
          return true, n;
        }
        i := i + 1;
      }
      return false, null;
    }

    /** `IPIsAllocated`: false with an error outside the pools. */
    method IPIsAllocated(p: Prefix, a: Addr) returns (inPools: bool, b: bool)
      requires Valid()
      ensures inPools <==> InPools(p)
      ensures b == IpamRuns.Held(Models(), p, a)
    {
      var n;
      inPools, n := Search(p);
      if n == null { return inPools, false; }
      b := n.IsAllocatedIP(a);
    }

    /** The prefix lies in a pool; pools never change. */
    predicate InPools(p: Prefix)
      reads this
    {
      exists i :: 0 <= i < |roots| && IsPrefixChildOf(roots[i].prefix, p)
    }

    lemma {:induction false} InPoolsIsInRoots(p: Prefix)
      requires Valid()
      ensures InPools(p) <==> IpamForest.IsPrefixInRoots(Models(), p)
    {}

    method IsPrefixInRoots(p: Prefix) returns (b: bool)
      ensures b == InPools(p)
    {
      var i := 0;
      while i < |roots|
        invariant 0 <= i <= |roots|
        invariant forall j :: 0 <= j < i ==> !IsPrefixChildOf(roots[j].prefix, p)
      {
        if IsPrefixChildOf(roots[i].prefix, p) { return true; }
        i := i + 1;
      }
      return false;
    }

    method ListNetworks() returns (networks: seq<Prefix>)
      requires Valid()
      ensures networks == IpamForest.ListNetworks(Models())
    {
      networks := [];
      ghost var ts := Models();
      var i := 0;
      while i < |roots|
        invariant 0 <= i <= |roots|
        invariant networks + IpamForest.ListNetworks(ts[i..]) == IpamForest.ListNetworks(ts)
      {
        IpamForest.ListFrom(ts, i);
        var more := roots[i].ListNetworks();
        networks := networks + more;
        i := i + 1;
      }
    }

    /** `ListIPs`: nothing, with an error, outside the pools. */
    method ListIPs(p: Prefix) returns (inPools: bool, addrs: seq<Addr>)
      requires Valid()
      ensures inPools <==> InPools(p)
      ensures forall a: Addr :: a in addrs <==> IpamRuns.Held(Models(), p, a)
    {
      var n;
      inPools, n := Search(p);
      if n == null { return inPools, []; }
      addrs := n.Addresses();
    }
  }

  /** `NewIpam`: an error for pools that do not pass, otherwise one root for each pool, in order. */
  method NewIpam(pools: seq<Prefix>, now: int) returns (ipam: Ipam?)
    ensures ipam == null <==> IpamForest.NewIpam(pools, now).None?
    ensures ipam != null ==> ipam.Valid() && fresh(ipam.Repr) && IpamForest.NewIpam(pools, now) == Some(ipam.Models())
  {
    if !IpamForest.CheckRoots(pools) { return null; }
    ipam := new Ipam(pools, now);
  }
}
