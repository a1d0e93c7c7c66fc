/**
The tree of networks as the source keeps it: nodes that point to their halves and are updated in
place (pkg/ipam/core/node.go). Every method is tied to the tree value it leaves behind.
*/
module IpamNode {
  import opened Wrappers
  import opened Net
  import opened PrefixTree
  import opened NodeAddresses

  class Node {
    var updated: int
    const prefix: Prefix
    var refCount: int
    var left: Node?
    var right: Node?
    var ips: seq<NodeIP>
    var lastip: Option<Addr>
    ghost var Repr: set<Node>

    ghost predicate Valid()
      reads this, Repr
      decreases Repr
    {
      && this in Repr
      && (left == null <==> right == null)
      && (left != null ==>
            && left in Repr && right in Repr
            && left.Repr <= Repr && right.Repr <= Repr
            && this !in left.Repr && this !in right.Repr && left.Repr !! right.Repr
            && left.Valid() && right.Valid())
    }

    ghost function Record(): Data
      reads this
    {
      Data(prefix, refCount, updated, ips, lastip)
    }

    /** The tree this node is the root of. */
    ghost function Model(): (t: Tree)
      reads this, Repr
      requires Valid()
      ensures t.d == Record() && (t.Fork? <==> left != null)
      decreases Repr
    {
      if left == null then Leaf(Record()) else Fork(Record(), left.Model(), right.Model())
    }

    constructor (p: Prefix, now: int)
      ensures Valid() && Repr == {this} && Model() == NewNode(p, now)
    {
      prefix := p;
      updated := now;
      refCount, ips, lastip := 0, [], None;
      left, right := null, null;
      Repr := {this};
    }

    method Split(now: int)
      requires Valid() && Wf(Model()) && prefix.bits < WIDTH
      modifies this
      ensures Valid() && fresh(Repr - old(Repr))
      ensures Model() == PrefixTree.Split(old(Model()), now)
    {
      if left != null && right != null { return; }
      var (l, r) := SplitNetworkPrefix(prefix);
      left := new Node(l, now);
      right := new Node(r, now);
      Repr := {this} + left.Repr + right.Repr;
    }

    method Merge(grace: int, now: int)
      requires Valid()
      modifies this
      ensures Valid() && Repr == old(Repr)
      ensures Model() == PrefixTree.Merge(old(Model()), grace, now)
    {
      if left == null || right == null { return; }
      if !(left.updated + grace < now) || !(right.updated + grace < now) { return; }
      if !(left.left == null && left.right == null) || !(right.left == null && right.right == null) { return; }
      if left.refCount != 0 || right.refCount != 0 { return; }
      left := null;
      right := null;
      updated := now;
    }

    method HasAcquiredDescendants() returns (b: bool)
      requires Valid()
      ensures b == PrefixTree.HasAcquiredDescendants(Model())
      decreases Repr
    {
      if left != null {
        if left.refCount != 0 { return true; }
        b := left.HasAcquiredDescendants();
        if b { return; }
      }
      if right != null {
        if right.refCount != 0 { return true; }
        b := right.HasAcquiredDescendants();
        if b { return; }
      }
      b := false;
    }

    method HasExclusiveDescendants() returns (b: bool)
      requires Valid()
      ensures b == PrefixTree.HasExclusiveDescendants(Model())
      decreases Repr
    {
      if left != null {
        if left.refCount == -1 { return true; }
        b := left.HasExclusiveDescendants();
        if b { return; }
      }
      if right != null {
        if right.refCount == -1 { return true; }
        b := right.HasExclusiveDescendants();
        if b { return; }
      }
      b := false;
    }

    method AllocateNetwork(size: nat, exclusive: bool, now: int) returns (answer: Option<Prefix>)
      requires Valid() && Wf(Model()) && size <= WIDTH
      modifies Repr
      ensures Valid() && fresh(Repr - old(Repr))
      ensures (Model(), answer) == PrefixTree.AllocateNetwork(size, old(Model()), exclusive, now)
      decreases WIDTH - prefix.bits
    {
      if refCount != 0 || prefix.bits > size { return None; }
      if prefix.bits == size {
        if left == null || right == null {
          refCount := if exclusive then -1 else 1;
          updated := now;
          return Some(prefix);
        }
        return None;
      }
      Split(now);
      var rightFirst := left.left == null && right.left != null;
      if rightFirst {
        answer := AllocateInRight(size, exclusive, now);
        if answer.Some? { return; }
        answer := AllocateInLeft(size, exclusive, now);
      } else {
        answer := AllocateInLeft(size, exclusive, now);
        if answer.Some? { return; }
        answer := AllocateInRight(size, exclusive, now);
      }
    }

    method AllocateInLeft(size: nat, exclusive: bool, now: int) returns (answer: Option<Prefix>)
      requires Valid() && Wf(Model()) && size <= WIDTH && left != null && refCount == 0
      modifies Repr
      ensures Valid() && fresh(Repr - old(Repr)) && Wf(Model())
      ensures var t := old(Model());
              var (l, a) := PrefixTree.AllocateNetwork(size, t.left, exclusive, now);
              answer == a && Model() == Fork(t.d, l, t.right)
      decreases WIDTH - prefix.bits, 0
    {
      ghost var t := Model();
      assert left.prefix == t.left.d.prefix;
      answer := left.AllocateNetwork(size, exclusive, now);
      Repr := Repr + left.Repr;
      AllocateLeftKeepsWf(size, t, exclusive, now);
    }

    method AllocateInRight(size: nat, exclusive: bool, now: int) returns (answer: Option<Prefix>)
      requires Valid() && Wf(Model()) && size <= WIDTH && left != null && refCount == 0
      modifies Repr
      ensures Valid() && fresh(Repr - old(Repr)) && Wf(Model())
      ensures var t := old(Model());
              var (r, a) := PrefixTree.AllocateNetwork(size, t.right, exclusive, now);
              answer == a && Model() == Fork(t.d, t.left, r)
      decreases WIDTH - prefix.bits, 0
    {
      ghost var t := Model();
      assert right.prefix == t.right.d.prefix;
      answer := right.AllocateNetwork(size, exclusive, now);
      Repr := Repr + right.Repr;
      AllocateRightKeepsWf(size, t, exclusive, now);
    }

    method AllocateNetworkWithPrefix(p: Prefix, exclusive: bool, now: int) returns (answer: Option<Prefix>)
      requires Valid() && Wf(Model())
      modifies Repr
      ensures Valid() && fresh(Repr - old(Repr))
      ensures (Model(), answer) == PrefixTree.AllocateNetworkWithPrefix(p, old(Model()), exclusive, now)
      decreases WIDTH - prefix.bits
    {
      if !IsPrefixChildOf(prefix, p) { return None; }
      if prefix == p {
        answer := AcquireThisNode(exclusive, now);
        return;
      }
      if refCount == -1 || (exclusive && refCount != 0) { return None; }
      FullLengthIsEqual(prefix, p);
      Split(now);
      if left != null && Overlaps(left.prefix, p) {
        answer := AcquireInLeft(p, exclusive, now);
        return;
      }
      if right != null && Overlaps(right.prefix, p) {
        answer := AcquireInRight(p, exclusive, now);
        return;
      }
      return None;
    }

    method AcquireInLeft(p: Prefix, exclusive: bool, now: int) returns (answer: Option<Prefix>)
      requires Valid() && Wf(Model()) && left != null
      modifies Repr
      ensures Valid() && fresh(Repr - old(Repr))
      ensures var t := old(Model());
              var (l, a) := PrefixTree.AllocateNetworkWithPrefix(p, t.left, exclusive, now);
              answer == a && Model() == Fork(t.d, l, t.right)
      decreases WIDTH - prefix.bits, 0
    {
      assert left.prefix == Model().left.d.prefix;
      answer := left.AllocateNetworkWithPrefix(p, exclusive, now);
      Repr := Repr + left.Repr;
    }

    method AcquireInRight(p: Prefix, exclusive: bool, now: int) returns (answer: Option<Prefix>)
      requires Valid() && Wf(Model()) && left != null
      modifies Repr
      ensures Valid() && fresh(Repr - old(Repr))
      ensures var t := old(Model());
              var (r, a) := PrefixTree.AllocateNetworkWithPrefix(p, t.right, exclusive, now);
              answer == a && Model() == Fork(t.d, t.left, r)
      decreases WIDTH - prefix.bits, 0
    {
      assert right.prefix == Model().right.d.prefix;
      answer := right.AllocateNetworkWithPrefix(p, exclusive, now);
      Repr := Repr + right.Repr;
    }

    /** The branch of `allocateNetworkWithPrefix` that has reached the node of the prefix. */
    method AcquireThisNode(exclusive: bool, now: int) returns (answer: Option<Prefix>)
      requires Valid()
      modifies this
      ensures Valid() && Repr == old(Repr)
      ensures (Model(), answer) == AcquireNode(old(Model()), exclusive, now)
    {
      if exclusive {
        var busy := HasAcquiredDescendants();
        if refCount != 0 || busy { return None; }
        refCount := -1;
      } else {
        var busy := HasExclusiveDescendants();
        if refCount == -1 || busy { return None; }
        refCount := refCount + 1;
      }
      updated := now;
      return Some(prefix);
    }

    method NetworkRelease(p: Prefix, grace: int, clock: nat -> int) returns (answer: Option<Prefix>)
      requires Valid() && Wf(Model())
      modifies Repr
      ensures Valid() && Repr == old(Repr)
      ensures (Model(), answer) == PrefixTree.NetworkRelease(p, old(Model()), grace, clock)
      decreases Repr
    {
      answer := None;
      var now := clock(prefix.bits);
      if prefix == p && updated + grace < now {
        if refCount != 0 {
          if refCount == -1 { refCount := 0; } else if refCount > 0 { refCount := refCount - 1; }
          updated := now;
          return Some(prefix);
        }
        return None;
      }
      if left != null && IsPrefixChildOf(left.prefix, p) {
        answer := ReleaseInLeft(p, grace, clock);
      }
      if right != null && IsPrefixChildOf(right.prefix, p) {
        answer := ReleaseInRight(p, grace, clock);
      }
      Merge(grace, now);
    }

    method ReleaseInLeft(p: Prefix, grace: int, clock: nat -> int) returns (answer: Option<Prefix>)
      requires Valid() && Wf(Model()) && left != null
      modifies Repr
      ensures Valid() && Repr == old(Repr) && left == old(left) && right == old(right)
      ensures var t := old(Model());
              var (l, a) := PrefixTree.NetworkRelease(p, t.left, grace, clock);
              answer == a && Model() == Fork(t.d, l, t.right)
      decreases Repr, 0
    {
      answer := left.NetworkRelease(p, grace, clock);
    }

    method ReleaseInRight(p: Prefix, grace: int, clock: nat -> int) returns (answer: Option<Prefix>)
      requires Valid() && left != null && Wf(right.Model())
      modifies Repr
      ensures Valid() && Repr == old(Repr) && left == old(left) && right == old(right)
      ensures var t := old(Model());
              var (r, a) := PrefixTree.NetworkRelease(p, t.right, grace, clock);
              answer == a && Model() == Fork(t.d, t.left, r)
      decreases Repr, 0
    {
      answer := right.NetworkRelease(p, grace, clock);
    }

    // ----- addresses

    method IsAllocatedIP(a: Addr) returns (b: bool)
      ensures b == NodeAddresses.IsAllocatedIP(Record(), a)
    {
      var i := 0;
      while i < |ips|
        invariant 0 <= i <= |ips|
        invariant forall j :: 0 <= j < i ==> ips[j].addr != a
      {
        if ips[i].addr == a { return true; }
        i := i + 1;
      }
      return false;
    }

    method Addresses() returns (addrs: seq<Addr>)
      ensures |addrs| == |ips| && forall i :: 0 <= i < |ips| ==> addrs[i] == ips[i].addr
      ensures forall a: Addr :: a in addrs <==> NodeAddresses.IsAllocatedIP(Record(), a)
    {
      addrs := [];
      var i := 0;
      while i < |ips|
        invariant 0 <= i == |addrs| <= |ips|
        invariant forall j :: 0 <= j < i ==> addrs[j] == ips[j].addr
      {
        addrs := addrs + [ips[i].addr];
        i := i + 1;
      }
      forall a: Addr ensures a in addrs <==> NodeAddresses.IsAllocatedIP(Record(), a) {
        if NodeAddresses.IsAllocatedIP(Record(), a) {
          var j :| 0 <= j < |ips| && ips[j].addr == a;
          assert addrs[j] == a;
        }
      }
    }

    method IpAcquire(now: int) returns (answer: Option<Addr>)
      modifies this`ips, this`lastip, this`updated
      ensures (Record(), answer) == NodeAddresses.IpAcquire(old(Record()), now)
    {
      if refCount == 0 { return None; }
      ghost var d := Record();
      var size := Size(prefix);
      if lastip.None? { lastip := Some(prefix.addr); }
      var addr: Option<Addr> := lastip;
      if lastip.value != prefix.addr { addr := NodeAddresses.After(lastip.value); }
      var i := 0;
      while i < size
        invariant 0 <= i <= size
        invariant NodeAddresses.Wrap(prefix, addr) == NodeAddresses.Try(d, i)
        invariant NodeAddresses.FirstFree(d, 0) == NodeAddresses.FirstFree(d, i)
        invariant Record() == d.(lastip := if d.lastip.None? then Some(prefix.addr) else d.lastip)
      {
        if addr.None? || !Contains(prefix, addr.value) { addr := Some(prefix.addr); }
        var taken := IsAllocatedIP(addr.value);
        if !taken {
          ips := ips + [NodeIP(addr.value, now)];
          lastip := addr;
          updated := now;
          return addr;
        }
        addr := NodeAddresses.After(addr.value);
        i := i + 1;
      }
      return None;
    }

    method AllocateIPWithAddr(a: Addr, now: int) returns (answer: Option<Addr>)
      modifies this`ips, this`updated
      ensures (Record(), answer) == NodeAddresses.AllocateIPWithAddr(old(Record()), a, now)
    {
      if refCount == 0 { return None; }
      if !Contains(prefix, a) { return None; }
      var i := 0;
      while i < |ips|
        invariant 0 <= i <= |ips|
        invariant forall j :: 0 <= j < i ==> ips[j].addr != a
      {
        if ips[i].addr == a { return None; }
        i := i + 1;
      }
      ips := ips + [NodeIP(a, now)];
      updated := now;
      return Some(a);
    }

    method IpRelease(a: Addr, grace: int, now: int) returns (answer: Option<Addr>)
      modifies this`ips, this`updated
      ensures (Record(), answer) == NodeAddresses.IpRelease(old(Record()), a, grace, now)
    {
      if refCount == 0 { return None; }
      ghost var k := NodeAddresses.FindReleasable(ips, a, grace, now);
      var i := 0;
      while i < |ips|
        invariant 0 <= i <= k && Record() == old(Record())
      {
        if ips[i].created + grace < now {
          if ips[i].addr == a {
            ips := ips[..i] + ips[i + 1..];
            updated := now;
            return Some(a);
          }
        }
        i := i + 1;
      }
      return None;
    }

    // ----- finding the node of a prefix

    method Search(p: Prefix) returns (n: Node?, ghost at: seq<bool>)
      requires Valid()
      ensures n == null <==> PrefixTree.Search(p, Model()).None?
      ensures PrefixTree.Search(p, Model()) == if n == null then None else Some(at)
      ensures n != null ==> DataAt(Model(), at) == Some(n.Record())
      decreases Repr
    {
      at := [];
      if prefix == p { return this, []; }
      if left != null && IsPrefixChildOf(left.prefix, p) {
        n, at := left.Search(p);
        at := [false] + at;
        return;
      }
      if right != null && IsPrefixChildOf(right.prefix, p) {
        n, at := right.Search(p);
        at := [true] + at;
        return;
      }
      return null, [];
    }

    method OnThisNode(call: AddressCall, now: int) returns (answer: Option<Addr>)
      modifies this`ips, this`lastip, this`updated
      ensures (Record(), answer) == OnRecord(call, old(Record()), now)
    {
      match call
      case TakeAny => answer := IpAcquire(now);
      case Take(a) => answer := AllocateIPWithAddr(a, now);
      case Give(a, grace) => answer := IpRelease(a, grace, now);
    }

    /** `search` followed by the call on the node found, which changes that node inside the tree. */
    method OnNodeOf(p: Prefix, call: AddressCall, now: int)
      returns (found: bool, answer: Option<Addr>, ghost at: seq<bool>)
      requires Valid()
      modifies Repr
      ensures Valid() && Repr == old(Repr)
      ensures PrefixTree.Search(p, old(Model())) == if found then Some(at) else None
      ensures !found ==> answer == None && Model() == old(Model())
      ensures found ==> DataAt(old(Model()), at).Some? &&
                        var (d, a) := OnRecord(call, DataAt(old(Model()), at).value, now);
                        answer == a && Model() == UpdateAt(old(Model()), at, d)
      decreases Repr
    {
      at := [];
      if prefix == p {
        answer := OnThisNode(call, now);
        return true, answer, [];
      }
      if left != null && IsPrefixChildOf(left.prefix, p) {
        found, answer, at := left.OnNodeOf(p, call, now);
        at := [false] + at;
        return;
      }
      if right != null && IsPrefixChildOf(right.prefix, p) {
        found, answer, at := right.OnNodeOf(p, call, now);
        at := [true] + at;
        return;
      }
      return false, None, [];
    }

    // ----- listing

    method ListNetworks() returns (networks: seq<Prefix>)
      requires Valid()
      ensures networks == PrefixTree.ListNetworks(Model())
      decreases Repr
    {
      networks := [];
      if refCount != 0 {
        networks := networks + [prefix];
        if refCount == -1 { return; }
      }
      if left != null {
        var more := left.ListNetworks();
        networks := networks + more;
      }
      if right != null {
        var more := right.ListNetworks();
        networks := networks + more;
      }
    }
  }
}
