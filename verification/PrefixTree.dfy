/**
The binary tree of networks behind the address manager (pkg/ipam/core/node.go), as a value.
A node is an inner `Fork` once it has been split; every node has its own reference count
(-1 exclusive, 0 free, n shared n times), last update time and addresses.
*/
module PrefixTree {
  import opened Wrappers
  import opened Net

  datatype NodeIP = NodeIP(addr: Addr, created: int)

  datatype Data = Data(prefix: Prefix, refCount: int, updated: int, ips: seq<NodeIP>, lastip: Option<Addr>)

  datatype Tree = Leaf(d: Data) | Fork(d: Data, left: Tree, right: Tree)

  predicate IsAcquired(d: Data) { d.refCount != 0 }

  predicate IsExclusive(d: Data) { d.refCount == -1 }

  function NewNode(p: Prefix, now: int): Tree { Leaf(Data(p, 0, now, [], None)) }

  predicate HasAcquiredDescendants(t: Tree) {
    t.Fork? && (|| IsAcquired(t.left.d) || HasAcquiredDescendants(t.left)
                || IsAcquired(t.right.d) || HasAcquiredDescendants(t.right))
  }

  predicate HasExclusiveDescendants(t: Tree) {
    t.Fork? && (|| IsExclusive(t.left.d) || HasExclusiveDescendants(t.left)
                || IsExclusive(t.right.d) || HasExclusiveDescendants(t.right))
  }

  // ----- the invariant

  /** Addresses handed out by a node are distinct and lie in its prefix. */
  ghost predicate WfIPs(d: Data) {
    && (forall i :: 0 <= i < |d.ips| ==> Contains(d.prefix, d.ips[i].addr))
    && (forall i, j :: 0 <= i < j < |d.ips| ==> d.ips[i].addr != d.ips[j].addr)
    && (d.lastip.Some? ==> Contains(d.prefix, d.lastip.value))
  }

  /**
  Children are the two halves of their parent, nothing is acquired below an exclusive node and
  nothing is exclusive below an acquired one.
  */
  ghost predicate Wf(t: Tree) {
    && Canonical(t.d.prefix)
    && t.d.refCount >= -1
    && WfIPs(t.d)
    && (t.Fork? ==>
          && t.d.prefix.bits < WIDTH
          && (t.left.d.prefix, t.right.d.prefix) == SplitNetworkPrefix(t.d.prefix)
          && Wf(t.left) && Wf(t.right)
          && (IsExclusive(t.d) ==> !HasAcquiredDescendants(t))
          && (IsAcquired(t.d) ==> !HasExclusiveDescendants(t)))
  }

  // ----- the abstract value: what is recorded for each position below the root

  /** The record of the node reached by following the bits `q` (false is left). */
  function DataAt(t: Tree, q: seq<bool>): Option<Data>
    decreases |q|
  {
    if q == [] then Some(t.d)
    else if t.Leaf? then None
    else DataAt(if q[0] then t.right else t.left, q[1..])
  }

  /** The reference count of a position; a position without a node counts as free. */
  function RefAt(t: Tree, q: seq<bool>): int {
    match DataAt(t, q)
    case None => 0
    case Some(d) => d.refCount
  }

  /** Where a prefix below `t` sits in `t`. */
  function Rel(t: Tree, p: Prefix): seq<bool>
    requires IsPrefixChildOf(t.d.prefix, p)
  {
    Path(p)[t.d.prefix.bits..]
  }

  ghost predicate Comparable(q: seq<bool>, r: seq<bool>) { q <= r || r <= q }

  /** A count that a new acquisition tolerates on an overlapping network. */
  predicate Tolerates(count: int, exclusive: bool) {
    if exclusive then count == 0 else count != -1
  }

  /** Every network that overlaps `r` tolerates the acquisition. */
  ghost predicate Admissible(t: Tree, r: seq<bool>, exclusive: bool) {
    forall q :: Comparable(q, r) ==> Tolerates(RefAt(t, q), exclusive)
  }

  // ----- splitting

  function Split(t: Tree, now: int): (s: Tree)
    requires Wf(t) && t.d.prefix.bits < WIDTH
    ensures Wf(s) && s.Fork? && s.d == t.d && (t.Fork? ==> s == t)
    ensures s.left.d.prefix == FromPath(Path(t.d.prefix) + [false])
    ensures s.right.d.prefix == FromPath(Path(t.d.prefix) + [true])
  {
    SplitPaths(t.d.prefix);
    if t.Fork? then t
    else
      var (l, r) := SplitNetworkPrefix(t.d.prefix);
      Fork(t.d, NewNode(l, now), NewNode(r, now))
  }

  lemma {:induction false} SplitKeeps(t: Tree, now: int, q: seq<bool>)
    requires Wf(t) && t.d.prefix.bits < WIDTH
    ensures Unchanged(t, Split(t, now), q)
  {}

  // ----- acquiring a given prefix

  /** Acquiring the network of the node itself. */
  function AcquireNode(t: Tree, exclusive: bool, now: int): (Tree, Option<Prefix>) {
    if exclusive then
      if IsAcquired(t.d) || HasAcquiredDescendants(t) then (t, None)
      else (t.(d := t.d.(refCount := -1, updated := now)), Some(t.d.prefix))
    else if IsExclusive(t.d) || HasExclusiveDescendants(t) then (t, None)
    else (t.(d := t.d.(refCount := t.d.refCount + 1, updated := now)), Some(t.d.prefix))
  }

  /** `allocateNetworkWithPrefix`: the tree afterwards (a refusal may still have split nodes) and the answer. */
  function AllocateNetworkWithPrefix(p: Prefix, t: Tree, exclusive: bool, now: int): (Tree, Option<Prefix>)
    requires Wf(t)
    decreases WIDTH - t.d.prefix.bits
  {
    if !IsPrefixChildOf(t.d.prefix, p) then (t, None)
    else if t.d.prefix == p then AcquireNode(t, exclusive, now)
    else if IsExclusive(t.d) || (exclusive && IsAcquired(t.d)) then (t, None)
    else
      assert t.d.prefix.bits < WIDTH by { FullLengthIsEqual(t.d.prefix, p); }
      var s := Split(t, now);
      if Overlaps(s.left.d.prefix, p) then
        var (l, answer) := AllocateNetworkWithPrefix(p, s.left, exclusive, now);
        (Fork(s.d, l, s.right), answer)
      else if Overlaps(s.right.d.prefix, p) then
        var (r, answer) := AllocateNetworkWithPrefix(p, s.right, exclusive, now);
        (Fork(s.d, s.left, r), answer)
      else (s, None)
  }

  lemma {:induction false} FullLengthIsEqual(p: Prefix, q: Prefix)
    requires IsPrefixChildOf(p, q)
    ensures p.bits == WIDTH ==> p == q
  {}

  lemma {:induction false} RefBelow(t: Tree, q: seq<bool>)
    requires t.Fork? && q != []
    ensures RefAt(t, q) == RefAt(if q[0] then t.right else t.left, q[1..])
  {}

  lemma {:induction false} RefAbove(t: Tree, b: bool, q: seq<bool>)
    requires t.Fork?
    ensures RefAt(t, [b] + q) == RefAt(if b then t.right else t.left, q)
  {}

  lemma {:induction false} AcquiredWitness(t: Tree) returns (q: seq<bool>)
    requires HasAcquiredDescendants(t)
    ensures q != [] && RefAt(t, q) != 0
  {
    var b := !(IsAcquired(t.left.d) || HasAcquiredDescendants(t.left));
    var c := if b then t.right else t.left;
    var rest := [];
    if !IsAcquired(c.d) { rest := AcquiredWitness(c); }
    q := [b] + rest;
    RefAbove(t, b, rest);
  }

  lemma {:induction false} AcquiredByWitness(t: Tree, q: seq<bool>)
    requires q != [] && RefAt(t, q) != 0
    ensures HasAcquiredDescendants(t)
    decreases |q|
  {
    var c := if q[0] then t.right else t.left;
    RefBelow(t, q);
    if q[1..] != [] { AcquiredByWitness(c, q[1..]); } else { assert RefAt(c, []) == c.d.refCount; }
  }

  lemma {:induction false} ExclusiveWitness(t: Tree) returns (q: seq<bool>)
    requires HasExclusiveDescendants(t)
    ensures q != [] && RefAt(t, q) == -1
  {
    var b := !(IsExclusive(t.left.d) || HasExclusiveDescendants(t.left));
    var c := if b then t.right else t.left;
    var rest := [];
    if !IsExclusive(c.d) { rest := ExclusiveWitness(c); }
    q := [b] + rest;
    RefAbove(t, b, rest);
  }

  lemma {:induction false} ExclusiveByWitness(t: Tree, q: seq<bool>)
    requires q != [] && RefAt(t, q) == -1
    ensures HasExclusiveDescendants(t)
    decreases |q|
  {
    var c := if q[0] then t.right else t.left;
    RefBelow(t, q);
    if q[1..] != [] { ExclusiveByWitness(c, q[1..]); } else { assert RefAt(c, []) == c.d.refCount; }
  }

  lemma {:induction false} AdmissibleHere(t: Tree, exclusive: bool)
    ensures Admissible(t, [], exclusive) <==>
            if exclusive then !IsAcquired(t.d) && !HasAcquiredDescendants(t)
            else !IsExclusive(t.d) && !HasExclusiveDescendants(t)
  {
    assert RefAt(t, []) == t.d.refCount && Comparable([], []);
    if exclusive {
      if HasAcquiredDescendants(t) { var q := AcquiredWitness(t); assert Comparable(q, []); }
      forall q | RefAt(t, q) != 0 ensures IsAcquired(t.d) || HasAcquiredDescendants(t) {
        if q != [] { AcquiredByWitness(t, q); }
      }
    } else {
      if HasExclusiveDescendants(t) { var q := ExclusiveWitness(t); assert Comparable(q, []); }
      forall q | RefAt(t, q) == -1 ensures IsExclusive(t.d) || HasExclusiveDescendants(t) {
        if q != [] { ExclusiveByWitness(t, q); }
      }
    }
  }

  lemma {:induction false} AdmissibleBelow(t: Tree, r: seq<bool>, exclusive: bool)
    requires t.Fork? && r != []
    ensures Admissible(t, r, exclusive) <==>
            && Tolerates(t.d.refCount, exclusive)
            && Admissible(if r[0] then t.right else t.left, r[1..], exclusive)
  {
    var c := if r[0] then t.right else t.left;
    assert RefAt(t, []) == t.d.refCount && Comparable([], r);
    if Admissible(t, r, exclusive) {
      forall q | Comparable(q, r[1..]) ensures Tolerates(RefAt(c, q), exclusive) {
        var q' := [r[0]] + q;
        assert q'[1..] == q && r == [r[0]] + r[1..];
        assert Comparable(q', r);
        assert RefAt(t, q') == RefAt(c, q);
      }
    }
    if Tolerates(t.d.refCount, exclusive) && Admissible(c, r[1..], exclusive) {
      forall q | Comparable(q, r) ensures Tolerates(RefAt(t, q), exclusive) {
        if q != [] {
          assert q[0] == r[0];
          assert Comparable(q[1..], r[1..]);
          assert RefAt(t, q) == RefAt(c, q[1..]);
        }
      }
    }
  }

  lemma {:induction false} RelBelow(s: Tree, p: Prefix)
    requires Wf(s) && s.Fork? && IsPrefixChildOf(s.d.prefix, p) && s.d.prefix.bits < p.bits
    ensures var r := Rel(s, p); r != [] && var c := if r[0] then s.right else s.left;
            && IsPrefixChildOf(c.d.prefix, p) && Rel(c, p) == r[1..]
            && (Overlaps(s.left.d.prefix, p) <==> !r[0])
            && (Overlaps(s.right.d.prefix, p) <==> r[0])
  {
    var r := Rel(s, p);
    var path := Path(s.d.prefix);
    var b := s.d.prefix.bits;
    SplitPaths(s.d.prefix);
    ChildIsPathPrefix(s.d.prefix, p);
    assert r[0] == Path(p)[b];
    assert Path(p)[..b + 1] == path + (if r[0] then [true] else [false]);
    OverlapIsComparable(s.left.d.prefix, p);
    OverlapIsComparable(s.right.d.prefix, p);
    assert Path(s.left.d.prefix)[b] == false && Path(s.right.d.prefix)[b] == true;
    var c := if r[0] then s.right else s.left;
    assert Path(c.d.prefix) == path + (if r[0] then [true] else [false]);
    assert Path(c.d.prefix) <= Path(p);
    ChildIsPathPrefix(c.d.prefix, p);
    assert Path(p)[b + 1..] == r[1..];
  }

  /** What an acquisition of position `r` did to the record of position `q`. */
  ghost predicate AcquiredAt(t: Tree, t': Tree, r: seq<bool>, q: seq<bool>, exclusive: bool, now: int) {
    if q == r then
      && DataAt(t', r).Some?
      && var d' := DataAt(t', r).value;
      && d'.refCount == (if exclusive then -1 else RefAt(t, r) + 1)
      && d'.updated == now
      && (DataAt(t, r).Some? ==> d'.ips == DataAt(t, r).value.ips)
      && (DataAt(t, r).None? ==> d'.ips == [])
    else Unchanged(t, t', q)
  }

  /** A record either stays as it is or, where there was none, is that of a free node. */
  ghost predicate Unchanged(t: Tree, t': Tree, q: seq<bool>) {
    && RefAt(t', q) == RefAt(t, q)
    && (DataAt(t, q).Some? ==> DataAt(t', q) == DataAt(t, q))
    && (DataAt(t, q).None? && DataAt(t', q).Some? ==> DataAt(t', q).value.ips == [])
  }

  /** The effect of an acquisition, whatever the answer. */
  ghost predicate AcquireEffect(t: Tree, t': Tree, r: seq<bool>, q: seq<bool>, ok: bool, exclusive: bool, now: int) {
    if ok then AcquiredAt(t, t', r, q, exclusive, now) else Unchanged(t, t', q)
  }

  /** Effects on the two children of the split node make up the effect on the whole. */
  lemma {:induction false} EffectFromChildren(t: Tree, now: int, t': Tree, r: seq<bool>, q: seq<bool>, ok: bool,
                                              exclusive: bool)
    requires Wf(t) && t.d.prefix.bits < WIDTH && t'.Fork? && t'.d == t.d && r != []
    requires var s := Split(t, now); q != [] ==>
               var c, c' := if q[0] then s.right else s.left, if q[0] then t'.right else t'.left;
               if q[0] == r[0] then AcquireEffect(c, c', r[1..], q[1..], ok, exclusive, now)
                   else Unchanged(c, c', q[1..])
    ensures AcquireEffect(t, t', r, q, ok, exclusive, now)
  {
    var s := Split(t, now);
    SplitKeeps(t, now, q);
    if q != [] {
      assert DataAt(t', q) == DataAt(if q[0] then t'.right else t'.left, q[1..]);
      assert DataAt(s, q) == DataAt(if q[0] then s.right else s.left, q[1..]);
      assert q == [q[0]] + q[1..] && r == [r[0]] + r[1..];
    }
  }

  /** One step down: what the call on `t` is in terms of the call on the child that holds `p`. */
  lemma {:induction false} AcquireStep(p: Prefix, t: Tree, exclusive: bool, now: int)
    requires Wf(t) && IsPrefixChildOf(t.d.prefix, p) && t.d.prefix.bits < p.bits
    ensures var r := Rel(t, p); var s := Split(t, now);
            && r != []
            && var c := if r[0] then s.right else s.left;
            && Wf(c) && IsPrefixChildOf(c.d.prefix, p) && c.d.prefix.bits == t.d.prefix.bits + 1 && Rel(c, p) == r[1..]
            && AllocateNetworkWithPrefix(p, t, exclusive, now)
               == if !Tolerates(t.d.refCount, exclusive) then (t, None)
                  else var (c', answer) := AllocateNetworkWithPrefix(p, c, exclusive, now);
                    (if r[0] then Fork(s.d, s.left, c') else Fork(s.d, c', s.right), answer)
  {
    RelBelow(Split(t, now), p);
  }

  /**
  Acquiring a given prefix is decided by the overlapping networks alone: it succeeds exactly when the
  prefix has no host bits and every overlapping network tolerates it, and it then changes the count
  of that one network and no other. A refusal changes no count.
  */
  lemma {:induction false} AcquireExact(p: Prefix, t: Tree, exclusive: bool, now: int)
    requires Wf(t) && IsPrefixChildOf(t.d.prefix, p)
    ensures var (t', answer) := AllocateNetworkWithPrefix(p, t, exclusive, now);
            && (answer.Some? <==> Canonical(p) && Admissible(t, Rel(t, p), exclusive))
            && (answer.Some? ==> answer.value == p)
            && (forall q :: AcquireEffect(t, t', Rel(t, p), q, answer.Some?, exclusive, now))
    decreases WIDTH - t.d.prefix.bits
  {
    if t.d.prefix == p {
      AcquireHere(p, t, exclusive, now);
    } else if t.d.prefix.bits == p.bits {
      SameLengthNotCanonical(t.d.prefix, p);
      AcquireTooDeep(p, t, exclusive, now);
    } else {
      AcquireStep(p, t, exclusive, now);
      var r, s := Rel(t, p), Split(t, now);
      var c := if r[0] then s.right else s.left;
      AcquireExact(p, c, exclusive, now);
      AdmissibleFromChild(t, r, exclusive, now);
      var (t', answer) := AllocateNetworkWithPrefix(p, t, exclusive, now);
      forall q ensures AcquireEffect(t, t', r, q, answer.Some?, exclusive, now) {
        if Tolerates(t.d.refCount, exclusive) {
          EffectFromChildren(t, now, t', r, q, answer.Some?, exclusive);
        }
      }
    }
  }

  lemma {:induction false} AdmissibleFromChild(t: Tree, r: seq<bool>, exclusive: bool, now: int)
    requires Wf(t) && t.d.prefix.bits < WIDTH && r != []
    ensures var s := Split(t, now);
            Admissible(t, r, exclusive) <==>
            && Tolerates(t.d.refCount, exclusive)
            && Admissible(if r[0] then s.right else s.left, r[1..], exclusive)
  {
    var s := Split(t, now);
    forall q ensures RefAt(s, q) == RefAt(t, q) { SplitKeeps(t, now, q); }
    AdmissibleBelow(s, r, exclusive);
  }

  lemma {:induction false} AcquireHere(p: Prefix, t: Tree, exclusive: bool, now: int)
    requires Wf(t) && t.d.prefix == p
    ensures var (t', answer) := AllocateNetworkWithPrefix(p, t, exclusive, now);
            && Rel(t, p) == []
            && (answer.Some? <==> Admissible(t, [], exclusive))
            && (answer.Some? ==> answer.value == p)
            && (forall q :: AcquireEffect(t, t', [], q, answer.Some?, exclusive, now))
  {
    assert IsPrefixChildOf(p, p) && Rel(t, p) == [];
    AdmissibleHere(t, exclusive);
  }

  lemma {:induction false} SameLengthNotCanonical(own: Prefix, p: Prefix)
    requires Canonical(own) && IsPrefixChildOf(own, p) && own.bits == p.bits && own != p
    ensures !Canonical(p)
  {
    CanonicalFromPath(own);
    CanonicalFromPath(p);
  }

  /** A prefix with host bits set runs past the node of its own length and is refused there. */
  lemma {:induction false} AcquireTooDeep(p: Prefix, t: Tree, exclusive: bool, now: int)
    requires Wf(t) && IsPrefixChildOf(t.d.prefix, p) && t.d.prefix.bits == p.bits && t.d.prefix != p
    ensures var (t', answer) := AllocateNetworkWithPrefix(p, t, exclusive, now);
            answer.None? && forall q :: Unchanged(t, t', q)
  {
    FullLengthIsEqual(t.d.prefix, p);
    forall q ensures Unchanged(t, Split(t, now), q) { SplitKeeps(t, now, q); }
  }

  lemma {:induction false} AcquireHereKeepsWf(t: Tree, exclusive: bool, now: int)
    requires Wf(t)
    ensures var t' := AllocateNetworkWithPrefix(t.d.prefix, t, exclusive, now).0; Wf(t') && t'.d.prefix == t.d.prefix
  {
    if exclusive && HasExclusiveDescendants(t) {
      var q := ExclusiveWitness(t);
      AcquiredByWitness(t, q);
    }
  }

  lemma {:induction false} AcquireKeepsWf(p: Prefix, t: Tree, exclusive: bool, now: int)
    requires Wf(t)
    ensures var t' := AllocateNetworkWithPrefix(p, t, exclusive, now).0; Wf(t') && t'.d.prefix == t.d.prefix
    decreases WIDTH - t.d.prefix.bits
  {
    if t.d.prefix == p {
      AcquireHereKeepsWf(t, exclusive, now);
    } else if IsPrefixChildOf(t.d.prefix, p) {
      if t.d.prefix.bits < p.bits {
        AcquireStep(p, t, exclusive, now);
        var r, s := Rel(t, p), Split(t, now);
        var c := if r[0] then s.right else s.left;
        AcquireKeepsWf(p, c, exclusive, now);
        if Tolerates(t.d.refCount, exclusive) {
          var c' := AllocateNetworkWithPrefix(p, c, exclusive, now).0;
          if IsAcquired(s.d) { SharedKeepsNothingExclusive(p, c, now); }
          ForkKeepsWf(s, if r[0] then s.left else c', if r[0] then c' else s.right);
        }
      } else {
        FullLengthIsEqual(t.d.prefix, p);
        var s := Split(t, now);
        assert AllocateNetworkWithPrefix(p, s.left, exclusive, now).0 == s.left;
        assert AllocateNetworkWithPrefix(p, s.right, exclusive, now).0 == s.right;
      }
    }
  }

  // ----- acquiring any network of a given size

  /** `bestDirection`: descend first into a child that is split already. */
  predicate RightFirst(t: Tree)
    requires t.Fork?
  {
    !t.left.Fork? && t.right.Fork?
  }

  /** `allocateNetwork`: first fit, depth first. */
  function AllocateNetwork(size: nat, t: Tree, exclusive: bool, now: int): (Tree, Option<Prefix>)
    requires Wf(t) && size <= WIDTH
    decreases WIDTH - t.d.prefix.bits
  {
    if IsAcquired(t.d) || t.d.prefix.bits > size then (t, None)
    else if t.d.prefix.bits == size then
      if t.Fork? then (t, None)
      else (Leaf(t.d.(refCount := if exclusive then -1 else 1, updated := now)), Some(t.d.prefix))
    else
      var s := Split(t, now);
      if RightFirst(s) then
        var (r, answer) := AllocateNetwork(size, s.right, exclusive, now);
        if answer.Some? then (Fork(s.d, s.left, r), answer)
        else
          var (l, answer) := AllocateNetwork(size, s.left, exclusive, now);
          (Fork(s.d, l, r), answer)
      else
        var (l, answer) := AllocateNetwork(size, s.left, exclusive, now);
        if answer.Some? then (Fork(s.d, l, s.right), answer)
        else
          var (r, answer) := AllocateNetwork(size, s.right, exclusive, now);
          (Fork(s.d, l, r), answer)
  }

  ghost predicate SplitAt(t: Tree, r: seq<bool>)
    decreases |r|
  {
    t.Fork? && (r == [] || SplitAt(if r[0] then t.right else t.left, r[1..]))
  }

  /** A position that first fit can use: free up to the root, and not split. */
  ghost predicate Slot(t: Tree, r: seq<bool>) {
    (forall q :: q <= r ==> RefAt(t, q) == 0) && !SplitAt(t, r)
  }

  lemma {:induction false} SlotHere(t: Tree)
    ensures Slot(t, []) <==> !IsAcquired(t.d) && t.Leaf?
  {
    assert RefAt(t, []) == t.d.refCount;
    forall q | q <= [] ensures RefAt(t, q) == t.d.refCount { assert q == []; }
  }

  lemma {:induction false} SlotBelow(t: Tree, r: seq<bool>)
    requires t.Fork? && r != []
    ensures Slot(t, r) <==> !IsAcquired(t.d) && Slot(if r[0] then t.right else t.left, r[1..])
  {
    var c := if r[0] then t.right else t.left;
    assert RefAt(t, []) == t.d.refCount && [] <= r;
    if Slot(t, r) {
      forall q | q <= r[1..] ensures RefAt(c, q) == 0 {
        RefAbove(t, r[0], q);
        assert r == [r[0]] + r[1..];
        assert [r[0]] + q <= r;
      }
    }
    if !IsAcquired(t.d) && Slot(c, r[1..]) {
      forall q | q <= r ensures RefAt(t, q) == 0 {
        if q != [] {
          RefBelow(t, q);
          assert q[1..] <= r[1..];
        }
      }
    }
  }

  lemma {:induction false} SlotAfterSplit(t: Tree, now: int, r: seq<bool>)
    requires Wf(t) && t.d.prefix.bits < WIDTH && r != []
    ensures Slot(t, r) <==> Slot(Split(t, now), r)
  {
    var s := Split(t, now);
    forall q ensures RefAt(s, q) == RefAt(t, q) { SplitKeeps(t, now, q); }
    if t.Leaf? {
      var c := if r[0] then s.right else s.left;
      assert c.Leaf? && !SplitAt(s, r);
    }
  }

  /** The network at position `r` below `t`. */
  function PrefixAt(t: Tree, r: seq<bool>): Prefix
    requires t.d.prefix.bits + |r| <= WIDTH
  {
    FromPath(Path(t.d.prefix) + r)
  }

  /**
  A refused exclusive acquisition leaves every position of the size as usable as it was, except for one: the
  node that a prefix with host bits falls in is split on the way.
  */
  lemma {:induction false} RefusedSlots(p: Prefix, t: Tree, now: int, r: seq<bool>)
    requires Wf(t) && IsPrefixChildOf(t.d.prefix, p) && t.d.prefix.bits + |r| == p.bits
    requires AllocateNetworkWithPrefix(p, t, true, now).1.None?
    ensures Slot(AllocateNetworkWithPrefix(p, t, true, now).0, r) <==> Slot(t, r) && (Canonical(p) || r != Rel(t, p))
    decreases |r|
  {
    if t.d.prefix.bits == p.bits {
      RefusedSlotHere(p, t, now);
    } else if IsAcquired(t.d) {
      AcquireStep(p, t, true, now);
      assert RefAt(t, []) != 0 && [] <= r;
    } else {
      AcquireStep(p, t, true, now);
      var s, way := Split(t, now), Rel(t, p);
      SlotAfterSplit(t, now, r);
      SlotBelow(s, r);
      SlotBelow(AllocateNetworkWithPrefix(p, t, true, now).0, r);
      assert way == [way[0]] + way[1..] && r == [r[0]] + r[1..];
      if r[0] == way[0] { RefusedSlots(p, if way[0] then s.right else s.left, now, r[1..]); }
    }
  }

  lemma {:induction false} RefusedSlotHere(p: Prefix, t: Tree, now: int)
    requires Wf(t) && IsPrefixChildOf(t.d.prefix, p) && t.d.prefix.bits == p.bits
    requires AllocateNetworkWithPrefix(p, t, true, now).1.None?
    ensures Rel(t, p) == []
    ensures Slot(AllocateNetworkWithPrefix(p, t, true, now).0, []) <==> Slot(t, []) && Canonical(p)
  {
    SlotHere(t);
    if t.d.prefix != p {
      SameLengthNotCanonical(t.d.prefix, p);
      SlotHere(AllocateNetworkWithPrefix(p, t, true, now).0);
    }
  }

  /** First fit gives out the network at `r`: a usable position of the right size, and only its count changes. */
  ghost predicate FitsAt(size: nat, t: Tree, exclusive: bool, now: int, r: seq<bool>)
    requires Wf(t) && size <= WIDTH
  {
    && t.d.prefix.bits + |r| == size
    && Slot(t, r)
    && var (t', answer) := AllocateNetwork(size, t, exclusive, now);
    && answer == Some(PrefixAt(t, r))
    && forall q :: AcquireEffect(t, t', r, q, true, exclusive, now)
  }

  ghost predicate NoSlot(size: nat, t: Tree) {
    forall r :: t.d.prefix.bits + |r| == size ==> !Slot(t, r)
  }

  /** First fit refuses: there is no usable position of that size, and no count changes. */
  ghost predicate Exhausted(size: nat, t: Tree, exclusive: bool, now: int)
    requires Wf(t) && size <= WIDTH
  {
    && AllocateNetwork(size, t, exclusive, now).1.None?
    && NoSlot(size, t)
    && (forall q :: Unchanged(t, AllocateNetwork(size, t, exclusive, now).0, q))
  }

  /**
  First fit finds a network of the requested size exactly when the tree has a usable position of that
  size; it hands out one such position, and nothing else changes.
  */
  lemma {:induction false} FirstFit(size: nat, t: Tree, exclusive: bool, now: int) returns (r: seq<bool>)
    requires Wf(t) && size <= WIDTH
    ensures if AllocateNetwork(size, t, exclusive, now).1.Some? then FitsAt(size, t, exclusive, now, r)
            else Exhausted(size, t, exclusive, now)
    decreases WIDTH - t.d.prefix.bits
  {
    if IsAcquired(t.d) || t.d.prefix.bits >= size {
      r := [];
      FirstFitHere(size, t, exclusive, now);
    } else {
      var s := Split(t, now);
      var b := RightFirst(s);
      var r1 := FirstFit(size, if b then s.right else s.left, exclusive, now);
      if FitsAt(size, if b then s.right else s.left, exclusive, now, r1) {
        r := [b] + r1;
        FitsAbove(size, t, exclusive, now, b, r1);
      } else {
        var r2 := FirstFit(size, if b then s.left else s.right, exclusive, now);
        r := [!b] + r2;
        if FitsAt(size, if b then s.left else s.right, exclusive, now, r2) {
          FitsSecond(size, t, exclusive, now, r2);
        } else {
          FitsNowhere(size, t, exclusive, now);
        }
      }
    }
  }

  lemma {:induction false} FirstFitHere(size: nat, t: Tree, exclusive: bool, now: int)
    requires Wf(t) && size <= WIDTH && (IsAcquired(t.d) || t.d.prefix.bits >= size)
    ensures FitsAt(size, t, exclusive, now, []) || Exhausted(size, t, exclusive, now)
  {
    if IsAcquired(t.d) {
      forall r ensures !Slot(t, r) { assert [] <= r && RefAt(t, []) != 0; }
    } else if t.d.prefix.bits == size {
      SlotHere(t);
      assert Path(t.d.prefix) + [] == Path(t.d.prefix);
      CanonicalFromPath(t.d.prefix);
    }
  }

  lemma {:induction false} SlotFromChild(t: Tree, now: int, b: bool, r: seq<bool>)
    requires Wf(t) && t.d.prefix.bits < WIDTH && !IsAcquired(t.d)
    ensures var s := Split(t, now); Slot(t, [b] + r) <==> Slot(if b then s.right else s.left, r)
  {
    SlotAfterSplit(t, now, [b] + r);
    SlotBelow(Split(t, now), [b] + r);
    assert ([b] + r)[1..] == r;
  }

  lemma {:induction false} PrefixAtBelow(t: Tree, now: int, b: bool, r: seq<bool>)
    requires Wf(t) && t.d.prefix.bits + 1 + |r| <= WIDTH
    ensures var s := Split(t, now); PrefixAt(if b then s.right else s.left, r) == PrefixAt(t, [b] + r)
  {
    var path := Path(t.d.prefix);
    var tail := if b then [true] else [false];
    assert (path + tail) + r == path + ([b] + r);
  }

  lemma {:induction false} FitsAbove(size: nat, t: Tree, exclusive: bool, now: int, b: bool, r: seq<bool>)
    requires Wf(t) && t.d.prefix.bits < size <= WIDTH && !IsAcquired(t.d)
    requires var s := Split(t, now);
             b == RightFirst(s) && FitsAt(size, if b then s.right else s.left, exclusive, now, r)
    ensures FitsAt(size, t, exclusive, now, [b] + r)
  {
    var s := Split(t, now);
    var (t', answer) := AllocateNetwork(size, t, exclusive, now);
    SlotFromChild(t, now, b, r);
    PrefixAtBelow(t, now, b, r);
    assert ([b] + r)[1..] == r;
    forall q ensures AcquireEffect(t, t', [b] + r, q, true, exclusive, now) {
      EffectFromChildren(t, now, t', [b] + r, q, true, exclusive);
    }
  }

  /** The call on `t` when the preferred child has nothing to give. */
  lemma {:induction false} SecondTry(size: nat, t: Tree, exclusive: bool, now: int)
    requires Wf(t) && t.d.prefix.bits < size <= WIDTH && !IsAcquired(t.d)
    requires var s := Split(t, now);
             AllocateNetwork(size, if RightFirst(s) then s.right else s.left, exclusive, now).1.None?
    ensures var s := Split(t, now);
            var (l, left) := AllocateNetwork(size, s.left, exclusive, now);
            var (r, right) := AllocateNetwork(size, s.right, exclusive, now);
            AllocateNetwork(size, t, exclusive, now) == (Fork(s.d, l, r), if RightFirst(s) then left else right)
  {}

  lemma {:induction false} FitsSecond(size: nat, t: Tree, exclusive: bool, now: int, r: seq<bool>)
    requires Wf(t) && t.d.prefix.bits < size <= WIDTH && !IsAcquired(t.d)
    requires var s := Split(t, now); var b := RightFirst(s);
             && Exhausted(size, if b then s.right else s.left, exclusive, now)
             && FitsAt(size, if b then s.left else s.right, exclusive, now, r)
    ensures FitsAt(size, t, exclusive, now, [!RightFirst(Split(t, now))] + r)
  {
    var b := !RightFirst(Split(t, now));
    SecondTry(size, t, exclusive, now);
    SlotFromChild(t, now, b, r);
    PrefixAtBelow(t, now, b, r);
    var t' := AllocateNetwork(size, t, exclusive, now).0;
    forall q ensures AcquireEffect(t, t', [b] + r, q, true, exclusive, now) {
      FitsSecondEffect(size, t, exclusive, now, r, q);
    }
  }

  lemma {:induction false} FitsSecondEffect(size: nat, t: Tree, exclusive: bool, now: int, r: seq<bool>, q: seq<bool>)
    requires Wf(t) && t.d.prefix.bits < size <= WIDTH && !IsAcquired(t.d)
    requires var s := Split(t, now); var b := RightFirst(s);
             && Exhausted(size, if b then s.right else s.left, exclusive, now)
             && FitsAt(size, if b then s.left else s.right, exclusive, now, r)
    ensures AcquireEffect(t, AllocateNetwork(size, t, exclusive, now).0, [!RightFirst(Split(t, now))] + r, q, true,
                          exclusive, now)
  {
    SecondTry(size, t, exclusive, now);
    var p := [!RightFirst(Split(t, now))] + r;
    assert p[1..] == r;
    EffectFromChildren(t, now, AllocateNetwork(size, t, exclusive, now).0, p, q, true, exclusive);
  }

  lemma {:induction false} FitsNowhere(size: nat, t: Tree, exclusive: bool, now: int)
    requires Wf(t) && t.d.prefix.bits < size <= WIDTH && !IsAcquired(t.d)
    requires var s := Split(t, now); Exhausted(size, s.left, exclusive, now) && Exhausted(size, s.right, exclusive, now)
    ensures Exhausted(size, t, exclusive, now)
  {
    SecondTry(size, t, exclusive, now);
    NoSlotFromChildren(size, t, now);
    var t' := AllocateNetwork(size, t, exclusive, now).0;
    forall q ensures Unchanged(t, t', q) {
      FitsNowhereEffect(size, t, exclusive, now, q);
    }
  }

  lemma {:induction false} NoSlotFromChildren(size: nat, t: Tree, now: int)
    requires Wf(t) && t.d.prefix.bits < size <= WIDTH && !IsAcquired(t.d)
    requires var s := Split(t, now); NoSlot(size, s.left) && NoSlot(size, s.right)
    ensures NoSlot(size, t)
  {
    var s := Split(t, now);
    forall r | t.d.prefix.bits + |r| == size ensures !Slot(t, r) {
      NoSlotAbove(t, now, r);
    }
  }

  lemma {:induction false} NoSlotAbove(t: Tree, now: int, r: seq<bool>)
    requires Wf(t) && t.d.prefix.bits < WIDTH && !IsAcquired(t.d) && r != []
    requires var s := Split(t, now); !Slot(s.left, r[1..]) && !Slot(s.right, r[1..])
    ensures !Slot(t, r)
  {
    assert r == [r[0]] + r[1..];
    SlotFromChild(t, now, r[0], r[1..]);
  }

  lemma {:induction false} FitsNowhereEffect(size: nat, t: Tree, exclusive: bool, now: int, q: seq<bool>)
    requires Wf(t) && t.d.prefix.bits < size <= WIDTH && !IsAcquired(t.d)
    requires var s := Split(t, now); Exhausted(size, s.left, exclusive, now) && Exhausted(size, s.right, exclusive, now)
    ensures Unchanged(t, AllocateNetwork(size, t, exclusive, now).0, q)
  {
    SecondTry(size, t, exclusive, now);
    EffectFromChildren(t, now, AllocateNetwork(size, t, exclusive, now).0, [false], q, false, exclusive);
  }

  // ----- which of the usable positions

  /** The half looked at first below a position: the right one exactly when only that one is split. */
  ghost predicate Preferred(t: Tree, q: seq<bool>) { SplitAt(t, q + [true]) && !SplitAt(t, q + [false]) }

  /** Where two positions part, the first lies in the half looked at first. */
  ghost predicate Before(t: Tree, q: seq<bool>, r: seq<bool>) {
    exists k :: 0 <= k < |q| && k < |r| && q[..k] == r[..k] && q[k] != r[k] && q[k] == Preferred(t, q[..k])
  }

  ghost predicate Least(size: nat, t: Tree, r: seq<bool>) {
    && t.d.prefix.bits + |r| == size && Slot(t, r)
    && forall q :: t.d.prefix.bits + |q| == size && Slot(t, q) && q != r ==> Before(t, r, q)
  }

  lemma {:induction false} PreferredBelow(t: Tree, now: int, b: bool, q: seq<bool>)
    requires Wf(t) && t.d.prefix.bits < WIDTH
    ensures var s := Split(t, now); Preferred(if b then s.right else s.left, q) <==> Preferred(t, [b] + q)
  {
    var s := Split(t, now);
    forall c: bool ensures SplitAt(t, [b] + q + [c]) <==> SplitAt(if b then s.right else s.left, q + [c]) {
      assert ([b] + q + [c])[1..] == q + [c];
    }
  }

  lemma {:induction false} BeforeBelow(t: Tree, now: int, b: bool, q: seq<bool>, r: seq<bool>)
    requires Wf(t) && t.d.prefix.bits < WIDTH
    requires var s := Split(t, now); Before(if b then s.right else s.left, q, r)
    ensures Before(t, [b] + q, [b] + r)
  {
    var c := if b then Split(t, now).right else Split(t, now).left;
    var k :| 0 <= k < |q| && k < |r| && q[..k] == r[..k] && q[k] != r[k] && q[k] == Preferred(c, q[..k]);
    PreferredBelow(t, now, b, q[..k]);
    assert ([b] + q)[..k + 1] == [b] + q[..k] && ([b] + r)[..k + 1] == [b] + r[..k];
    assert ([b] + q)[k + 1] == q[k] && ([b] + r)[k + 1] == r[k];
  }

  lemma {:induction false} BeforeHere(t: Tree, now: int, q: seq<bool>, r: seq<bool>)
    requires Wf(t) && t.d.prefix.bits < WIDTH && q != [] && r != [] && q[0] == RightFirst(Split(t, now)) && r[0] != q[0]
    ensures Before(t, q, r)
  {
    assert q[..0] == r[..0] == [];
    assert [] + [true] == [true] && [] + [false] == [false];
    assert SplitAt(t, [true]) <==> Split(t, now).right.Fork?;
    assert SplitAt(t, [false]) <==> Split(t, now).left.Fork?;
  }

  lemma {:induction false} LeastBelow(size: nat, t: Tree, now: int, b: bool, r: seq<bool>, q: seq<bool>)
    requires Wf(t) && t.d.prefix.bits < size <= WIDTH && !IsAcquired(t.d)
    requires var s := Split(t, now); Least(size, if b then s.right else s.left, r)
    requires t.d.prefix.bits + |q| == size && Slot(t, q) && q != [b] + r && q[0] == b
    ensures Before(t, [b] + r, q)
  {
    var c := if b then Split(t, now).right else Split(t, now).left;
    assert q == [b] + q[1..];
    SlotFromChild(t, now, b, q[1..]);
    LeastBefore(size, c, r, q[1..]);
    BeforeBelow(t, now, b, r, q[1..]);
  }

  lemma {:induction false} LeastBefore(size: nat, t: Tree, r: seq<bool>, q: seq<bool>)
    requires Least(size, t, r) && |q| == |r| && Slot(t, q) && q != r
    ensures Before(t, r, q)
  {}

  /** The first half has a usable position: the least of them comes before all in the other half. */
  lemma {:induction false} LeastInFirst(size: nat, t: Tree, now: int, r: seq<bool>)
    requires Wf(t) && t.d.prefix.bits < size <= WIDTH && !IsAcquired(t.d)
    requires var s := Split(t, now); Least(size, if RightFirst(s) then s.right else s.left, r)
    ensures Least(size, t, [RightFirst(Split(t, now))] + r)
  {
    var b := RightFirst(Split(t, now));
    SlotFromChild(t, now, b, r);
    forall q | t.d.prefix.bits + |q| == size && Slot(t, q) && q != [b] + r ensures Before(t, [b] + r, q) {
      if q[0] == b { LeastBelow(size, t, now, b, r, q); } else { BeforeHere(t, now, [b] + r, q); }
    }
  }

  lemma {:induction false} LeastInSecond(size: nat, t: Tree, now: int, r: seq<bool>)
    requires Wf(t) && t.d.prefix.bits < size <= WIDTH && !IsAcquired(t.d)
    requires var s := Split(t, now); var b := RightFirst(s);
             NoSlot(size, if b then s.right else s.left) && Least(size, if b then s.left else s.right, r)
    ensures Least(size, t, [!RightFirst(Split(t, now))] + r)
  {
    var b := !RightFirst(Split(t, now));
    SlotFromChild(t, now, b, r);
    forall q | t.d.prefix.bits + |q| == size && Slot(t, q) && q != [b] + r ensures Before(t, [b] + r, q) {
      InSecond(size, t, now, q);
      LeastBelow(size, t, now, b, r, q);
    }
  }

  lemma {:induction false} InSecond(size: nat, t: Tree, now: int, q: seq<bool>)
    requires Wf(t) && t.d.prefix.bits < size <= WIDTH && !IsAcquired(t.d)
    requires var s := Split(t, now); NoSlot(size, if RightFirst(s) then s.right else s.left)
    requires t.d.prefix.bits + |q| == size && Slot(t, q)
    ensures q[0] != RightFirst(Split(t, now))
  {
    assert q == [q[0]] + q[1..];
    SlotFromChild(t, now, q[0], q[1..]);
  }

  lemma {:induction false} FreeAbove(size: nat, t: Tree, exclusive: bool, now: int, r: seq<bool>)
    requires Wf(t) && size <= WIDTH && FitsAt(size, t, exclusive, now, r)
    ensures !IsAcquired(t.d) && t.d.prefix.bits <= size
  {
    assert [] <= r && RefAt(t, []) == t.d.refCount;
  }

  /** `r` is the position handed out, and it is the least. */
  ghost predicate HandsOutLeast(size: nat, t: Tree, exclusive: bool, now: int, r: seq<bool>)
    requires Wf(t) && size <= WIDTH
  {
    Least(size, t, r) && AllocateNetwork(size, t, exclusive, now).1 == Some(PrefixAt(t, r))
  }

  lemma {:induction false} LeastByFirst(size: nat, t: Tree, exclusive: bool, now: int, r: seq<bool>)
    requires Wf(t) && t.d.prefix.bits < size <= WIDTH && !IsAcquired(t.d)
    requires var s := Split(t, now); HandsOutLeast(size, if RightFirst(s) then s.right else s.left, exclusive, now, r)
    ensures HandsOutLeast(size, t, exclusive, now, [RightFirst(Split(t, now))] + r)
  {
    PrefixAtBelow(t, now, RightFirst(Split(t, now)), r);
    LeastInFirst(size, t, now, r);
  }

  lemma {:induction false} LeastBySecond(size: nat, t: Tree, exclusive: bool, now: int, r: seq<bool>)
    requires Wf(t) && t.d.prefix.bits < size <= WIDTH && !IsAcquired(t.d)
    requires var s := Split(t, now); var b := RightFirst(s);
             && AllocateNetwork(size, if b then s.right else s.left, exclusive, now).1.None?
             && HandsOutLeast(size, if b then s.left else s.right, exclusive, now, r)
    ensures HandsOutLeast(size, t, exclusive, now, [!RightFirst(Split(t, now))] + r)
  {
    var s := Split(t, now);
    var b := RightFirst(s);
    var none := FirstFit(size, if b then s.right else s.left, exclusive, now);
    SecondTry(size, t, exclusive, now);
    PrefixAtBelow(t, now, !b, r);
    LeastInSecond(size, t, now, r);
  }

  /** Of all usable positions of the size, first fit hands out the least. */
  lemma {:induction false} FirstFitLeast(size: nat, t: Tree, exclusive: bool, now: int) returns (r: seq<bool>)
    requires Wf(t) && size <= WIDTH && AllocateNetwork(size, t, exclusive, now).1.Some?
    ensures Least(size, t, r) && AllocateNetwork(size, t, exclusive, now).1 == Some(PrefixAt(t, r))
    decreases WIDTH - t.d.prefix.bits
  {
    r := FirstFit(size, t, exclusive, now);
    FreeAbove(size, t, exclusive, now, r);
    if t.d.prefix.bits < size {
      var s := Split(t, now);
      var b := RightFirst(s);
      if AllocateNetwork(size, if b then s.right else s.left, exclusive, now).1.Some? {
        var r1 := FirstFitLeast(size, if b then s.right else s.left, exclusive, now);
        LeastByFirst(size, t, exclusive, now, r1);
        r := [b] + r1;
      } else {
        SecondTry(size, t, exclusive, now);
        var r2 := FirstFitLeast(size, if b then s.left else s.right, exclusive, now);
        LeastBySecond(size, t, exclusive, now, r2);
        r := [!b] + r2;
      }
    }
  }

  /** There is one least position. */
  lemma {:induction false} LeastIsUnique(size: nat, t: Tree, q: seq<bool>, r: seq<bool>)
    requires Least(size, t, q) && Least(size, t, r)
    ensures q == r
  {
    if q != r { BeforeIsStrict(t, q, r); }
  }

  lemma {:induction false} BeforeIsStrict(t: Tree, q: seq<bool>, r: seq<bool>)
    requires Before(t, q, r)
    ensures !Before(t, r, q)
  {
    var k :| 0 <= k < |q| && k < |r| && q[..k] == r[..k] && q[k] != r[k] && q[k] == Preferred(t, q[..k]);
    forall l | 0 <= l < |r| && l < |q| && r[..l] == q[..l] && r[l] != q[l] ensures l == k {
      assert forall j :: 0 <= j < l ==> r[j] == r[..l][j] == q[..l][j] == q[j];
      assert forall j :: 0 <= j < k ==> r[j] == r[..k][j] == q[..k][j] == q[j];
    }
  }

  /** A pool that was never split gives out its own base address at the size. */
  lemma {:induction false} FreePoolGivesBase(size: nat, t: Tree, exclusive: bool, now: int)
    requires Wf(t) && t.Leaf? && !IsAcquired(t.d) && t.d.prefix.bits <= size <= WIDTH
    ensures AllocateNetwork(size, t, exclusive, now).1 == Some(Cidr(t.d.prefix.addr, size))
  {
    var base := Zeros(size - t.d.prefix.bits);
    LeafSlots(t, base);
    SomeSlot(size, t, exclusive, now, base);
    var r := FirstFitLeast(size, t, exclusive, now);
    if r != base { ZerosFirst(t, r, base); }
    BaseIsZeros(t.d.prefix, size);
  }

  lemma {:induction false} SomeSlot(size: nat, t: Tree, exclusive: bool, now: int, r: seq<bool>)
    requires Wf(t) && size <= WIDTH && t.d.prefix.bits + |r| == size && Slot(t, r)
    ensures AllocateNetwork(size, t, exclusive, now).1.Some?
  {
    var q := FirstFit(size, t, exclusive, now);
  }

  /** In a tree that is not split, no position comes before the one of all zeros. */
  lemma {:induction false} ZerosFirst(t: Tree, r: seq<bool>, zeros: seq<bool>)
    requires t.Leaf? && forall k :: 0 <= k < |zeros| ==> !zeros[k]
    ensures !Before(t, r, zeros)
  {}

  lemma {:induction false} LeafSlots(t: Tree, r: seq<bool>)
    requires t.Leaf? && !IsAcquired(t.d)
    ensures Slot(t, r)
  {
    forall q | q <= r ensures RefAt(t, q) == 0 { if q == [] { assert RefAt(t, q) == t.d.refCount; } }
  }

  lemma {:induction false} BaseIsZeros(p: Prefix, size: nat)
    requires Canonical(p) && p.bits <= size <= WIDTH
    ensures FromPath(Path(p) + Zeros(size - p.bits)) == Cidr(p.addr, size)
  {
    var path := Path(p) + Zeros(size - p.bits);
    assert path + Zeros(WIDTH - size) == Path(p) + Zeros(WIDTH - p.bits);
    assert p.addr == Path(p) + Zeros(WIDTH - p.bits);
  }

  /** Replacing the children of a node that is free, or shared with nothing exclusive below, keeps the invariant. */
  lemma {:induction false} ForkKeepsWf(s: Tree, l: Tree, r: Tree)
    requires Wf(s) && s.Fork? && !IsExclusive(s.d)
    requires Wf(l) && l.d.prefix == s.left.d.prefix && Wf(r) && r.d.prefix == s.right.d.prefix
    requires IsAcquired(s.d) ==> !HasExclusiveDescendants(Fork(s.d, l, r))
    ensures Wf(Fork(s.d, l, r))
  {}

  ghost predicate NothingExclusive(t: Tree) { !IsExclusive(t.d) && !HasExclusiveDescendants(t) }

  lemma {:induction false} SharedKeepsNothingExclusive(p: Prefix, t: Tree, now: int)
    requires Wf(t) && IsPrefixChildOf(t.d.prefix, p) && NothingExclusive(t)
    ensures NothingExclusive(AllocateNetworkWithPrefix(p, t, false, now).0)
  {
    var (t', answer) := AllocateNetworkWithPrefix(p, t, false, now);
    AcquireExact(p, t, false, now);
    AdmissibleHere(t, false);
    assert forall q :: Comparable(q, []) ==> RefAt(t, q) != -1;
    forall q ensures RefAt(t', q) != -1 {
      assert Comparable(q, []) && AcquireEffect(t, t', Rel(t, p), q, answer.Some?, false, now);
      RefAtLeast(t, q);
    }
    AdmissibleHere(t', false);
  }

  lemma {:induction false} RefAtLeast(t: Tree, q: seq<bool>)
    requires Wf(t)
    ensures RefAt(t, q) >= -1
    decreases |q|
  {
    if q != [] && t.Fork? {
      RefBelow(t, q);
      RefAtLeast(if q[0] then t.right else t.left, q[1..]);
    }
  }

  lemma {:induction false} AllocateKeepsWf(size: nat, t: Tree, exclusive: bool, now: int)
    requires Wf(t) && size <= WIDTH
    ensures var t' := AllocateNetwork(size, t, exclusive, now).0; Wf(t') && t'.d.prefix == t.d.prefix
    decreases WIDTH - t.d.prefix.bits
  {
    if !IsAcquired(t.d) && t.d.prefix.bits < size {
      var s := Split(t, now);
      AllocateKeepsWf(size, s.left, exclusive, now);
      AllocateKeepsWf(size, s.right, exclusive, now);
      var l, r := AllocateNetwork(size, s.left, exclusive, now).0, AllocateNetwork(size, s.right, exclusive, now).0;
      ForkKeepsWf(s, l, r);
      ForkKeepsWf(s, s.left, r);
      ForkKeepsWf(s, l, s.right);
    }
  }

  /** One half of a free node may be replaced by what an acquisition makes of it. */
  lemma {:induction false} AllocateLeftKeepsWf(size: nat, t: Tree, exclusive: bool, now: int)
    requires Wf(t) && t.Fork? && !IsAcquired(t.d) && size <= WIDTH
    ensures Wf(Fork(t.d, AllocateNetwork(size, t.left, exclusive, now).0, t.right))
  {
    AllocateKeepsWf(size, t.left, exclusive, now);
    ForkKeepsWf(t, AllocateNetwork(size, t.left, exclusive, now).0, t.right);
  }

  lemma {:induction false} AllocateRightKeepsWf(size: nat, t: Tree, exclusive: bool, now: int)
    requires Wf(t) && t.Fork? && !IsAcquired(t.d) && size <= WIDTH
    ensures Wf(Fork(t.d, t.left, AllocateNetwork(size, t.right, exclusive, now).0))
  {
    AllocateKeepsWf(size, t.right, exclusive, now);
    ForkKeepsWf(t, t.left, AllocateNetwork(size, t.right, exclusive, now).0);
  }

  lemma {:induction false} SlotIsFree(t: Tree, r: seq<bool>)
    requires Slot(t, r)
    ensures Admissible(t, r, true)
    decreases |r|
  {
    if t.Leaf? {
      forall q | Comparable(q, r) ensures RefAt(t, q) == 0 { assert [] <= r && RefAt(t, []) == 0; }
    } else if r != [] {
      SlotBelow(t, r);
      SlotIsFree(if r[0] then t.right else t.left, r[1..]);
      AdmissibleBelow(t, r, true);
    }
  }

  /**
  First fit can refuse a size of which a whole network is free: a node that was split and never merged
  back hides it.
  */
  lemma {:induction false} FreeButRefused() returns (t: Tree, r: seq<bool>)
    ensures Wf(t) && t.d.prefix.bits + |r| <= WIDTH && Admissible(t, r, true)
    ensures AllocateNetwork(t.d.prefix.bits + |r|, t, true, 0).1.None?
    ensures AllocateNetwork(t.d.prefix.bits + |r|, t, false, 0).1.None?
  {
    var root := NewNode(FromPath(Zeros(8)), 0);
    t := Split(root, 0);
    r := [];
    AdmissibleHere(t, true);
  }

  // ----- releasing

  /** `merge`: forget two free, unsplit halves that have both been left alone for the grace period. */
  function Merge(t: Tree, grace: int, now: int): Tree {
    if t.Fork? && t.left.d.updated + grace < now && t.right.d.updated + grace < now
       && t.left.Leaf? && t.right.Leaf? && !IsAcquired(t.left.d) && !IsAcquired(t.right.d)
    then Leaf(t.d.(updated := now))
    else t
  }

  /**
  `networkRelease`. The clock is read anew at each node on the way: `clock(b)` is what the node with
  `b` bits reads, a shallower node reading later.
  */
  function NetworkRelease(p: Prefix, t: Tree, grace: int, clock: nat -> int): (Tree, Option<Prefix>)
    requires Wf(t)
  {
    var now := clock(t.d.prefix.bits);
    if t.d.prefix == p && t.d.updated + grace < now then
      if IsAcquired(t.d) then
        (Released(t, now), Some(p))
      else (t, None)
    else if t.Leaf? then (t, None)
    else
      var (l, left) := if IsPrefixChildOf(t.left.d.prefix, p) then NetworkRelease(p, t.left, grace, clock)
          else (t.left, None);
      var (r, right) := if IsPrefixChildOf(t.right.d.prefix, p) then NetworkRelease(p, t.right, grace, clock)
          else (t.right, None);
      (Merge(Fork(t.d, l, r), grace, now), if IsPrefixChildOf(t.right.d.prefix, p) then right else left)
  }

  function Released(t: Tree, now: int): Tree {
    t.(d := t.d.(refCount := CountAfterRelease(t.d.refCount), updated := now))
  }

  function CountAfterRelease(count: int): int { if count == -1 then 0 else count - 1 }

  /** Everything about a record but the time of its last update. */
  ghost predicate SameButTime(d: Data, e: Data) { d.(updated := 0) == e.(updated := 0) }

  /** What a release of position `r` did to position `q`. */
  ghost predicate ReleaseEffect(t: Tree, t': Tree, r: seq<bool>, q: seq<bool>, ok: bool) {
    && RefAt(t', q) == (if ok && q == r then CountAfterRelease(RefAt(t, q)) else RefAt(t, q))
    && (RefAt(t', q) != 0 && q != r ==> SameButTime(DataAt(t, q).value, DataAt(t', q).value))
    && (DataAt(t', q).Some? ==> DataAt(t, q).Some? && DataAt(t', q).value.ips == DataAt(t, q).value.ips)
  }

  ghost predicate Releasable(t: Tree, p: Prefix, r: seq<bool>, grace: int, clock: nat -> int) {
    && Canonical(p)
    && RefAt(t, r) != 0
    && DataAt(t, r).value.updated + grace < clock(p.bits)
  }

  lemma {:induction false} MergeKeeps(t: Tree, grace: int, now: int, q: seq<bool>)
    ensures var t' := Merge(t, grace, now);
            && RefAt(t', q) == RefAt(t, q)
            && (DataAt(t', q).Some? ==> DataAt(t, q).Some? && SameButTime(DataAt(t, q).value, DataAt(t', q).value))
  {
    var t' := Merge(t, grace, now);
    if t' != t && q != [] {
      RefBelow(t, q);
      var c := if q[0] then t.right else t.left;
      if q[1..] == [] { assert RefAt(c, []) == 0; }
    }
  }

  lemma {:induction false} MergeKeepsWf(t: Tree, grace: int, now: int)
    requires Wf(t)
    ensures var t' := Merge(t, grace, now); Wf(t') && t'.d.prefix == t.d.prefix
  {}

  lemma {:induction false} ReleaseFromChildren(t: Tree, m: Tree, r: seq<bool>, q: seq<bool>, ok: bool, grace: int,
                                               now: int)
    requires t.Fork? && m.Fork? && m.d == t.d && r != []
    requires q != [] ==>
               var c, c' := if q[0] then t.right else t.left, if q[0] then m.right else m.left;
               if q[0] == r[0] then ReleaseEffect(c, c', r[1..], q[1..], ok) else c' == c
    ensures ReleaseEffect(t, Merge(m, grace, now), r, q, ok)
  {
    MergeKeeps(m, grace, now, q);
    if q != [] {
      assert DataAt(m, q) == DataAt(if q[0] then m.right else m.left, q[1..]);
      assert DataAt(t, q) == DataAt(if q[0] then t.right else t.left, q[1..]);
      assert q == [q[0]] + q[1..] && r == [r[0]] + r[1..];
    }
  }

  lemma {:induction false} ReleaseStep(p: Prefix, t: Tree, grace: int, clock: nat -> int)
    requires Wf(t) && t.Fork? && IsPrefixChildOf(t.d.prefix, p) && t.d.prefix.bits < p.bits
    ensures var r := Rel(t, p);
            && r != []
            && var c := if r[0] then t.right else t.left;
            && IsPrefixChildOf(c.d.prefix, p) && Rel(c, p) == r[1..]
            && var (c', answer) := NetworkRelease(p, c, grace, clock);
            && NetworkRelease(p, t, grace, clock)
               == (Merge(if r[0] then Fork(t.d, t.left, c') else Fork(t.d, c', t.right), grace, clock(t.d.prefix.bits)),
                   answer)
  {
    RelBelow(t, p);
  }

  lemma {:induction false} ReleaseHere(p: Prefix, t: Tree, grace: int, clock: nat -> int)
    requires Wf(t) && IsPrefixChildOf(t.d.prefix, p) && t.d.prefix.bits == p.bits
    ensures var (t', answer) := NetworkRelease(p, t, grace, clock);
            && Rel(t, p) == []
            && (answer.Some? <==> Releasable(t, p, [], grace, clock))
            && (answer.Some? ==> answer.value == p)
            && (forall q :: ReleaseEffect(t, t', [], q, answer.Some?))
  {
    var (t', answer) := NetworkRelease(p, t, grace, clock);
    if t.d.prefix != p { SameLengthNotCanonical(t.d.prefix, p); }
    assert DataAt(t, []) == Some(t.d);
    if t.Fork? && answer.None? && t' != t {
      forall q ensures ReleaseEffect(t, t', [], q, false) { MergeKeeps(t, grace, clock(p.bits), q); }
    }
  }

  /**
  A release takes one reference of the named network and of no other, exactly when that network is
  acquired and its grace period is over; merging on the way back changes no count, and no address of
  a network that stays acquired.
  */
  lemma {:induction false} ReleaseExact(p: Prefix, t: Tree, grace: int, clock: nat -> int)
    requires Wf(t) && IsPrefixChildOf(t.d.prefix, p)
    ensures var (t', answer) := NetworkRelease(p, t, grace, clock);
            && (answer.Some? <==> Releasable(t, p, Rel(t, p), grace, clock))
            && (answer.Some? ==> answer.value == p)
            && (forall q :: ReleaseEffect(t, t', Rel(t, p), q, answer.Some?))
    decreases t
  {
    if t.d.prefix.bits == p.bits {
      ReleaseHere(p, t, grace, clock);
    } else if t.Fork? {
      ReleaseStep(p, t, grace, clock);
      var r := Rel(t, p);
      var c := if r[0] then t.right else t.left;
      ReleaseExact(p, c, grace, clock);
      var (c', answer) := NetworkRelease(p, c, grace, clock);
      var m := if r[0] then Fork(t.d, t.left, c') else Fork(t.d, c', t.right);
      forall q ensures ReleaseEffect(t, NetworkRelease(p, t, grace, clock).0, r, q, answer.Some?) {
        ReleaseFromChildren(t, m, r, q, answer.Some?, grace, clock(t.d.prefix.bits));
      }
      assert DataAt(t, r) == DataAt(c, r[1..]);
    }
  }

  lemma {:induction false} ReleaseKeepsFree(p: Prefix, t: Tree, grace: int, clock: nat -> int)
    requires Wf(t) && IsPrefixChildOf(t.d.prefix, p) && !IsAcquired(t.d) && !HasAcquiredDescendants(t)
    ensures var t' := NetworkRelease(p, t, grace, clock).0; !IsAcquired(t'.d) && !HasAcquiredDescendants(t')
  {
    var t' := NetworkRelease(p, t, grace, clock).0;
    ReleaseExact(p, t, grace, clock);
    AdmissibleHere(t, true);
    assert forall q :: Comparable(q, []) ==> RefAt(t, q) == 0;
    forall q ensures RefAt(t', q) == 0 {
      assert Comparable(q, []) && ReleaseEffect(t, t', Rel(t, p), q, NetworkRelease(p, t, grace, clock).1.Some?);
    }
    AdmissibleHere(t', true);
  }

  lemma {:induction false} ReleaseKeepsNothingExclusive(p: Prefix, t: Tree, grace: int, clock: nat -> int)
    requires Wf(t) && IsPrefixChildOf(t.d.prefix, p) && NothingExclusive(t)
    ensures NothingExclusive(NetworkRelease(p, t, grace, clock).0)
  {
    var (t', answer) := NetworkRelease(p, t, grace, clock);
    ReleaseExact(p, t, grace, clock);
    AdmissibleHere(t, false);
    assert forall q :: Comparable(q, []) ==> RefAt(t, q) != -1;
    forall q ensures RefAt(t', q) != -1 {
      assert Comparable(q, []) && ReleaseEffect(t, t', Rel(t, p), q, answer.Some?);
      RefAtLeast(t, q);
    }
    AdmissibleHere(t', false);
  }

  lemma {:induction false} ReleaseKeepsWf(p: Prefix, t: Tree, grace: int, clock: nat -> int)
    requires Wf(t) && IsPrefixChildOf(t.d.prefix, p)
    ensures var t' := NetworkRelease(p, t, grace, clock).0; Wf(t') && t'.d.prefix == t.d.prefix
    decreases t
  {
    if t.Fork? && t.d.prefix.bits < p.bits {
      ReleaseStep(p, t, grace, clock);
      var r := Rel(t, p);
      var c := if r[0] then t.right else t.left;
      ReleaseKeepsWf(p, c, grace, clock);
      var c' := NetworkRelease(p, c, grace, clock).0;
      var m := if r[0] then Fork(t.d, t.left, c') else Fork(t.d, c', t.right);
      if IsExclusive(t.d) {
        ReleaseKeepsFree(p, c, grace, clock);
      }
      if IsAcquired(t.d) {
        ReleaseKeepsNothingExclusive(p, c, grace, clock);
      }
      MergeKeepsWf(m, grace, clock(t.d.prefix.bits));
    } else {
      MergeKeepsWf(t, grace, clock(t.d.prefix.bits));
    }
  }

  // ----- listing

  /** `listNetworks`: nothing below an exclusive node is visited. */
  function ListNetworks(t: Tree): seq<Prefix> {
    var own := if IsAcquired(t.d) then [t.d.prefix] else [];
    if IsExclusive(t.d) || t.Leaf? then own
    else own + ListNetworks(t.left) + ListNetworks(t.right)
  }

  /** The acquired networks at or below `t`. */
  ghost predicate AcquiredBelow(t: Tree, p: Prefix) {
    IsPrefixChildOf(t.d.prefix, p) && Canonical(p) && RefAt(t, Rel(t, p)) != 0
  }

  lemma {:induction false} AcquiredBelowStep(t: Tree, p: Prefix)
    requires Wf(t) && t.Fork? && p != t.d.prefix
    ensures AcquiredBelow(t, p) <==> AcquiredBelow(t.left, p) || AcquiredBelow(t.right, p)
    ensures !(AcquiredBelow(t.left, p) && AcquiredBelow(t.right, p))
  {
    SplitPaths(t.d.prefix);
    ChildIsPathPrefix(t.d.prefix, p);
    ChildIsPathPrefix(t.left.d.prefix, p);
    ChildIsPathPrefix(t.right.d.prefix, p);
    if IsPrefixChildOf(t.d.prefix, p) {
      if t.d.prefix.bits == p.bits {
        SameLengthNotCanonical(t.d.prefix, p);
      } else {
        RelBelow(t, p);
        RefBelow(t, Rel(t, p));
      }
    } else {
      assert Path(t.d.prefix) <= Path(t.left.d.prefix) && Path(t.d.prefix) <= Path(t.right.d.prefix);
    }
  }

  /**
  The listing holds exactly the acquired networks; the invariant is what makes skipping below an exclusive
  node safe.
  */
  lemma {:induction false} ListExact(t: Tree, p: Prefix)
    requires Wf(t)
    ensures p in ListNetworks(t) <==> AcquiredBelow(t, p)
    decreases t
  {
    if p == t.d.prefix {
      assert Rel(t, p) == [] && RefAt(t, []) == t.d.refCount;
      if t.Fork? && !IsExclusive(t.d) {
        ListExact(t.left, p);
        ListExact(t.right, p);
      }
    } else if t.Leaf? {
      if IsPrefixChildOf(t.d.prefix, p) && t.d.prefix.bits == p.bits { SameLengthNotCanonical(t.d.prefix, p); }
    } else {
      AcquiredBelowStep(t, p);
      ListExact(t.left, p);
      ListExact(t.right, p);
      if IsExclusive(t.d) && AcquiredBelow(t, p) {
        if t.d.prefix.bits == p.bits { SameLengthNotCanonical(t.d.prefix, p); }
        AcquiredByWitness(t, Rel(t, p));
      }
    }
  }

  ghost predicate Distinct<T>(s: seq<T>) { forall i, j :: 0 <= i < j < |s| ==> s[i] != s[j] }

  lemma {:induction false} DistinctConcat<T>(a: seq<T>, b: seq<T>)
    requires Distinct(a) && Distinct(b) && forall x :: x in a ==> x !in b
    ensures Distinct(a + b)
  {
    forall i, j | 0 <= i < j < |a + b| ensures (a + b)[i] != (a + b)[j] {
      if i < |a| <= j { assert a[i] in a && b[j - |a|] in b; }
    }
  }

  lemma {:induction false} ListDistinct(t: Tree)
    requires Wf(t)
    ensures Distinct(ListNetworks(t))
    decreases t
  {
    if t.Fork? && !IsExclusive(t.d) {
      ListDistinct(t.left);
      ListDistinct(t.right);
      var l, r := ListNetworks(t.left), ListNetworks(t.right);
      forall p | p in l ensures p !in r && p != t.d.prefix {
        ListExact(t.left, p);
        ListExact(t.right, p);
        if p != t.d.prefix { AcquiredBelowStep(t, p); }
      }
      forall p | p in r ensures p != t.d.prefix { ListExact(t.right, p); }
      var own := if IsAcquired(t.d) then [t.d.prefix] else [];
      DistinctConcat(own, l);
      DistinctConcat(own + l, r);
    }
  }

  // ----- availability

  predicate NetworkIsAvailable(p: Prefix, t: Tree) {
    if t.d.prefix == p then
      && (t.Fork? ==> !t.left.Fork? && !IsAcquired(t.left.d))
      && (t.Fork? ==> !t.right.Fork? && !IsAcquired(t.right.d))
      && !IsAcquired(t.d)
    else if t.Leaf? then !IsAcquired(t.d)
    else if IsPrefixChildOf(t.left.d.prefix, p) && !IsAcquired(t.left.d) then NetworkIsAvailable(p, t.left)
    else if IsPrefixChildOf(t.right.d.prefix, p) && !IsAcquired(t.right.d) then NetworkIsAvailable(p, t.right)
    else false
  }

  /** A half of the network at `r` has itself been split. */
  ghost predicate SplitTwice(t: Tree, r: seq<bool>) { SplitAt(t, r + [false]) || SplitAt(t, r + [true]) }

  /** Whether the root is acquired is looked at only when the root is asked for or has never been split. */
  ghost predicate RootSkipped(p: Prefix, t: Tree) { IsAcquired(t.d) && t.Fork? && t.d.prefix != p }

  lemma {:induction false} AvailableStep(p: Prefix, t: Tree)
    requires Wf(t) && t.Fork? && IsPrefixChildOf(t.d.prefix, p) && t.d.prefix.bits < p.bits
    ensures var r := Rel(t, p); r != [] && var c := if r[0] then t.right else t.left;
            && IsPrefixChildOf(c.d.prefix, p) && Rel(c, p) == r[1..]
            && (NetworkIsAvailable(p, t) <==> !IsAcquired(c.d) && NetworkIsAvailable(p, c))
            && (SplitTwice(t, r) <==> SplitTwice(c, r[1..]))
  {
    RelBelow(t, p);
    var r := Rel(t, p);
    assert (r + [false])[1..] == r[1..] + [false] && (r + [true])[1..] == r[1..] + [true];
  }

  lemma {:induction false} AvailableHere(p: Prefix, t: Tree)
    requires Wf(t) && t.d.prefix == p
    ensures NetworkIsAvailable(p, t) <==> Admissible(t, [], true) && !SplitTwice(t, [])
  {
    AdmissibleHere(t, true);
    assert [] + [false] == [false] && [] + [true] == [true];
    if t.Fork? {
      assert SplitAt(t, [false]) <==> t.left.Fork?;
      assert SplitAt(t, [true]) <==> t.right.Fork?;
    }
  }

  /**
  Below a root that is free, is asked for itself, or was never split, a network reads available exactly
  when it could be acquired exclusively and neither half of it has been split.
  */
  lemma {:induction false} AvailableExact(p: Prefix, t: Tree)
    requires Wf(t) && IsPrefixChildOf(t.d.prefix, p) && Canonical(p) && !RootSkipped(p, t)
    ensures NetworkIsAvailable(p, t) <==> Admissible(t, Rel(t, p), true) && !SplitTwice(t, Rel(t, p))
    decreases t
  {
    if t.d.prefix == p {
      assert Rel(t, p) == [];
      AvailableHere(p, t);
    } else if t.d.prefix.bits == p.bits {
      SameLengthNotCanonical(t.d.prefix, p);
    } else if t.Leaf? {
      var r := Rel(t, p);
      assert RefAt(t, []) == t.d.refCount && Comparable([], r);
    } else {
      AvailableStep(p, t);
      var r := Rel(t, p);
      var c := if r[0] then t.right else t.left;
      AdmissibleBelow(t, r, true);
      assert RefAt(c, []) == c.d.refCount && Comparable([], r[1..]);
      if !IsAcquired(c.d) { AvailableExact(p, c); }
    }
  }

  /**
  Available therefore means acquirable unless the pool itself is acquired and has been split: then the
  answer ignores the pool's own reference and may be yes for a network that no one can acquire.
  */
  lemma {:induction false} AvailableIsAcquirable(p: Prefix, t: Tree, now: int)
    requires Wf(t) && IsPrefixChildOf(t.d.prefix, p) && Canonical(p) && NetworkIsAvailable(p, t)
    ensures AllocateNetworkWithPrefix(p, t, true, now).1.Some? <==> !RootSkipped(p, t)
  {
    AcquireExact(p, t, true, now);
    if RootSkipped(p, t) {
      assert Comparable([], Rel(t, p)) && RefAt(t, []) != 0;
    } else {
      AvailableExact(p, t);
    }
  }

  lemma {:induction false} AvailableButRefused() returns (p: Prefix, t: Tree)
    ensures Wf(t) && IsPrefixChildOf(t.d.prefix, p) && Canonical(p)
    ensures NetworkIsAvailable(p, t) && AllocateNetworkWithPrefix(p, t, true, 1).1.None?
  {
    var pool := FromPath(Zeros(8));
    var s := Split(NewNode(pool, 0), 0);
    assert s.left.Leaf? && s.right.Leaf? && !HasExclusiveDescendants(s);
    t := AllocateNetworkWithPrefix(pool, s, false, 0).0;
    p := t.left.d.prefix;
    assert t.Fork? && t.d.refCount == 1 && p.bits == 9;
    SplitPaths(pool);
    assert Path(pool) <= Path(p);
    ChildIsPathPrefix(pool, p);
    ChildIsPathPrefix(p, p);
    AvailableIsAcquirable(p, t, 1);
  }

  /** In a well-formed tree an exclusive network overlaps no other acquired one. */
  lemma {:induction false} ExclusiveAlone(t: Tree, p: seq<bool>, q: seq<bool>)
    requires Wf(t) && RefAt(t, p) == -1 && Comparable(p, q) && p != q
    ensures RefAt(t, q) == 0
    decreases |p|
  {
    if p == [] {
      if RefAt(t, q) != 0 { AcquiredByWitness(t, q); }
    } else if q == [] {
      ExclusiveByWitness(t, p);
    } else {
      RefBelow(t, p);
      if t.Fork? {
        RefBelow(t, q);
        assert p == [p[0]] + p[1..] && q == [q[0]] + q[1..];
        assert p[0] == q[0] && Comparable(p[1..], q[1..]);
        ExclusiveAlone(if p[0] then t.right else t.left, p[1..], q[1..]);
      }
    }
  }

  // ----- finding a node and changing its record in place

  /** `search`: the position of the node of a prefix, if it has one. */
  function Search(p: Prefix, t: Tree): Option<seq<bool>> {
    if t.d.prefix == p then Some([])
    else if t.Fork? && IsPrefixChildOf(t.left.d.prefix, p) then
      match Search(p, t.left) case None => None case Some(q) => Some([false] + q)
    else if t.Fork? && IsPrefixChildOf(t.right.d.prefix, p) then
      match Search(p, t.right) case None => None case Some(q) => Some([true] + q)
    else None
  }

  function UpdateAt(t: Tree, r: seq<bool>, d: Data): Tree
    requires DataAt(t, r).Some?
    decreases |r|
  {
    if r == [] then (if t.Leaf? then Leaf(d) else Fork(d, t.left, t.right))
    else if r[0] then Fork(t.d, t.left, UpdateAt(t.right, r[1..], d))
    else Fork(t.d, UpdateAt(t.left, r[1..], d), t.right)
  }

  lemma {:induction false} SearchExact(p: Prefix, t: Tree)
    requires Wf(t) && IsPrefixChildOf(t.d.prefix, p)
    ensures Search(p, t) == if Canonical(p) && DataAt(t, Rel(t, p)).Some? then Some(Rel(t, p)) else None
    decreases t
  {
    if t.d.prefix == p {
      assert Rel(t, p) == [];
    } else if t.d.prefix.bits == p.bits {
      SameLengthNotCanonical(t.d.prefix, p);
    } else if t.Fork? {
      RelBelow(t, p);
      ChildIsPathPrefix(t.left.d.prefix, p);
      ChildIsPathPrefix(t.right.d.prefix, p);
      OverlapIsComparable(t.left.d.prefix, p);
      OverlapIsComparable(t.right.d.prefix, p);
      var r := Rel(t, p);
      assert r == [r[0]] + r[1..];
      SearchExact(p, if r[0] then t.right else t.left);
    }
  }

  lemma {:induction false} UpdateAtExact(t: Tree, r: seq<bool>, d: Data, q: seq<bool>)
    requires DataAt(t, r).Some?
    ensures DataAt(UpdateAt(t, r, d), q) == if q == r then Some(d) else DataAt(t, q)
    decreases |r|
  {
    if r != [] && q != [] {
      assert q == [q[0]] + q[1..] && r == [r[0]] + r[1..];
      if q[0] == r[0] { UpdateAtExact(if r[0] then t.right else t.left, r[1..], d, q[1..]); }
    }
  }

  lemma {:induction false} UpdateAtKeepsWf(t: Tree, r: seq<bool>, d: Data)
    requires Wf(t) && DataAt(t, r).Some?
    requires d.prefix == DataAt(t, r).value.prefix && d.refCount == DataAt(t, r).value.refCount && WfIPs(d)
    ensures var t' := UpdateAt(t, r, d);
            && Wf(t') && t'.d.prefix == t.d.prefix && t'.d.refCount == t.d.refCount
            && (HasAcquiredDescendants(t') <==> HasAcquiredDescendants(t))
            && (HasExclusiveDescendants(t') <==> HasExclusiveDescendants(t))
    decreases |r|
  {
    if r != [] { UpdateAtKeepsWf(if r[0] then t.right else t.left, r[1..], d); }
  }

  // ----- what a release leaves behind

  /**
  The node of the released network is merged away: it held its last reference, it and its sibling are
  unsplit and free, and both have been left alone for the grace period when their parent looks.
  */
  ghost predicate Forgotten(t: Tree, r: seq<bool>, grace: int, own: int, parent: int) {
    && r != [] && CountAfterRelease(RefAt(t, r)) == 0 && !SplitAt(t, r) && own + grace < parent
    && var n := |r| - 1;
       var sibling := r[..n] + [!r[n]];
       && RefAt(t, sibling) == 0 && !SplitAt(t, sibling)
       && DataAt(t, sibling).Some? && DataAt(t, sibling).value.updated + grace < parent
  }

  lemma {:induction false} ForgottenBelow(t: Tree, r: seq<bool>, grace: int, own: int, parent: int)
    requires t.Fork? && |r| >= 2
    ensures Forgotten(t, r, grace, own, parent) <==>
              Forgotten(if r[0] then t.right else t.left, r[1..], grace, own, parent)
  {
    var n := |r| - 1;
    assert (r[..n] + [!r[n]])[1..] == r[1..][..n - 1] + [!r[1..][n - 1]];
  }

  lemma {:induction false} MergedAway(t: Tree, r: seq<bool>, m: Tree, grace: int, own: int, parent: int)
    requires t.Fork? && |r| == 1
    requires m == if r[0] then Fork(t.d, t.left, Released(t.right, own)) else Fork(t.d, Released(t.left, own), t.right)
    ensures DataAt(Merge(m, grace, parent), r).None? <==> Forgotten(t, r, grace, own, parent)
  {
    var s := [!r[0]];
    assert r[..0] + [!r[0]] == s && r[1..] == [] && s[1..] == [];
    var c, o := if r[0] then t.right else t.left, if r[0] then t.left else t.right;
    assert DataAt(t, r) == DataAt(c, []) == Some(c.d);
    assert DataAt(t, s) == DataAt(o, []) == Some(o.d);
    assert SplitAt(t, r) == SplitAt(c, []) == c.Fork?;
    assert SplitAt(t, s) == SplitAt(o, []) == o.Fork?;
    assert DataAt(m, r) == DataAt(if r[0] then m.right else m.left, []);
  }

  lemma {:induction false} ReleaseForgets(p: Prefix, t: Tree, grace: int, clock: nat -> int)
    requires Wf(t) && IsPrefixChildOf(t.d.prefix, p) && NetworkRelease(p, t, grace, clock).1.Some?
    ensures DataAt(NetworkRelease(p, t, grace, clock).0, Rel(t, p)).None? <==>
            p.bits > t.d.prefix.bits && Forgotten(t, Rel(t, p), grace, clock(p.bits), clock(p.bits - 1))
    decreases t
  {
    if t.d.prefix.bits < p.bits {
      ReleaseStep(p, t, grace, clock);
      var r := Rel(t, p);
      var c := if r[0] then t.right else t.left;
      var c' := NetworkRelease(p, c, grace, clock).0;
      var m := if r[0] then Fork(t.d, t.left, c') else Fork(t.d, c', t.right);
      if |r| == 1 {
        ReleaseExact(p, c, grace, clock);
        assert Rel(c, p) == [];
        FinalRelease(p, c, grace, clock);
        MergedAway(t, r, m, grace, clock(p.bits), clock(p.bits - 1));
      } else {
        ReleaseForgets(p, c, grace, clock);
        ForgottenBelow(t, r, grace, clock(p.bits), clock(p.bits - 1));
        assert DataAt(m, r) == DataAt(c', r[1..]);
      }
    }
  }

  lemma {:induction false} FinalRelease(p: Prefix, c: Tree, grace: int, clock: nat -> int)
    requires Wf(c) && IsPrefixChildOf(c.d.prefix, p) && c.d.prefix.bits == p.bits
    requires NetworkRelease(p, c, grace, clock).1.Some?
    ensures NetworkRelease(p, c, grace, clock).0 == Released(c, clock(p.bits))
  {}

  /**
  A network that is released and acquired again starts with the addresses it had before, unless its
  node was merged away in between: releasing does not clear them.
  */
  lemma {:induction false} ReacquiredAddresses(p: Prefix, t: Tree, grace: int, clock: nat -> int, exclusive: bool,
                                               now: int)
    requires Wf(t) && IsPrefixChildOf(t.d.prefix, p) && p.bits > t.d.prefix.bits
    requires NetworkRelease(p, t, grace, clock).1.Some?
    requires var t1 := NetworkRelease(p, t, grace, clock).0;
             Wf(t1) && AllocateNetworkWithPrefix(p, t1, exclusive, now).1.Some?
    ensures var t1 := NetworkRelease(p, t, grace, clock).0;
            var t2 := AllocateNetworkWithPrefix(p, t1, exclusive, now).0;
            && DataAt(t, Rel(t, p)).Some? && DataAt(t2, Rel(t, p)).Some?
            && DataAt(t2, Rel(t, p)).value.ips
               == if Forgotten(t, Rel(t, p), grace, clock(p.bits), clock(p.bits - 1)) then []
                   else DataAt(t, Rel(t, p)).value.ips
  {
    var r := Rel(t, p);
    var t1 := NetworkRelease(p, t, grace, clock).0;
    ReleaseKeepsWf(p, t, grace, clock);
    ReleaseExact(p, t, grace, clock);
    ReleaseForgets(p, t, grace, clock);
    assert ReleaseEffect(t, t1, r, r, true);
    AcquireExact(p, t1, exclusive, now);
    assert AcquireEffect(t1, AllocateNetworkWithPrefix(p, t1, exclusive, now).0, r, r, true, exclusive, now);
  }

  /** So a network can be acquired anew and find addresses of its previous holder taken. */
  lemma {:induction false} StaleAddresses() returns (p: Prefix, t: Tree)
    ensures Wf(t) && IsPrefixChildOf(t.d.prefix, p)
    ensures var (t1, released) := NetworkRelease(p, t, 0, b => 100 - b);
            && released.Some? && Wf(t1)
            && var (t2, acquired) := AllocateNetworkWithPrefix(p, t1, true, 200);
            acquired.Some? && DataAt(t2, Rel(t, p)).Some? && DataAt(t2, Rel(t, p)).value.ips != []
  {
    var pool := FromPath(Zeros(8));
    SplitPaths(pool);
    var (l, r) := SplitNetworkPrefix(pool);
    var held := Data(l, 1, 0, [NodeIP(l.addr, 0)], None);
    t := Fork(Data(pool, 0, 0, [], None), Leaf(held), Leaf(Data(r, 1, 0, [], None)));
    p := l;
    assert Wf(t.left) && Wf(t.right);
    assert Path(pool) <= Path(p);
    ChildIsPathPrefix(pool, p);
    assert Rel(t, p) == [false] && [false][1..] == [];
    assert DataAt(t, [false]) == DataAt(t.left, []) == Some(held);
    ReleaseExact(p, t, 0, b => 100 - b);
    ReleaseKeepsWf(p, t, 0, b => 100 - b);
    var t1 := NetworkRelease(p, t, 0, b => 100 - b).0;
    assert t1 == Fork(t.d, Leaf(held.(refCount := 0, updated := 91)), t.right);
    AdmissibleBelow(t1, [false], true);
    AdmissibleHere(t1.left, true);
    AcquireExact(p, t1, true, 200);
    assert AcquireEffect(t1, AllocateNetworkWithPrefix(p, t1, true, 200).0, [false], [false], true, true, 200);
    assert DataAt(t1, [false]) == DataAt(t1.left, []);
  }

  // ----- the times of other networks

  /** Between two nodes on the way the clock moves by no more than the grace period. */
  ghost predicate SteadyClock(clock: nat -> int, grace: int) { forall b: nat :: clock(b) <= clock(b + 1) + grace }

  /** What keeps the parent from merging: acquired, a fork, or updated just now. */
  ghost predicate Busy(t: Tree, now: int) { IsAcquired(t.d) || t.Fork? || t.d.updated == now }

  lemma {:induction false} AcquiredBelowIsFork(p: Prefix, t: Tree)
    requires Wf(t) && IsPrefixChildOf(t.d.prefix, p) && t.d.prefix.bits < p.bits && RefAt(t, Rel(t, p)) != 0
    ensures t.Fork?
  {
    assert Rel(t, p) != [];
  }

  lemma {:induction false} BusyHere(p: Prefix, t: Tree, grace: int, clock: nat -> int)
    requires Wf(t) && Canonical(p) && IsPrefixChildOf(t.d.prefix, p) && t.d.prefix.bits == p.bits
    requires RefAt(t, Rel(t, p)) != 0
    ensures Busy(NetworkRelease(p, t, grace, clock).0, clock(p.bits))
  {
    if t.d.prefix != p { SameLengthNotCanonical(t.d.prefix, p); }
    assert Rel(t, p) == [] && DataAt(t, []) == Some(t.d);
  }

  /** Releasing an acquired network merges no node above it while the clock is steady. */
  lemma {:induction false} ReleaseUnmerged(p: Prefix, t: Tree, grace: int, clock: nat -> int)
    requires Wf(t) && Canonical(p) && IsPrefixChildOf(t.d.prefix, p) && t.d.prefix.bits < p.bits
    requires RefAt(t, Rel(t, p)) != 0 && SteadyClock(clock, grace)
    ensures t.Fork?
    ensures var r := Rel(t, p);
            && r != []
            && var c := if r[0] then t.right else t.left;
            && IsPrefixChildOf(c.d.prefix, p) && Rel(c, p) == r[1..]
            && var c' := NetworkRelease(p, c, grace, clock).0;
            NetworkRelease(p, t, grace, clock).0 == if r[0] then Fork(t.d, t.left, c') else Fork(t.d, c', t.right)
    decreases t
  {
    AcquiredBelowIsFork(p, t);
    ReleaseStep(p, t, grace, clock);
    var r := Rel(t, p);
    var c := if r[0] then t.right else t.left;
    RefBelow(t, r);
    var b := t.d.prefix.bits;
    assert clock(b) <= clock(b + 1) + grace;
    if c.d.prefix.bits == p.bits { BusyHere(p, c, grace, clock); } else { ReleaseUnmerged(p, c, grace, clock); }
  }

  /**
  A release of an acquired network leaves the record of every other acquired network alone while the clock
  is steady.
  */
  lemma {:induction false} ReleaseLeavesOthers(p: Prefix, t: Tree, grace: int, clock: nat -> int, q: seq<bool>)
    requires Wf(t) && Canonical(p) && IsPrefixChildOf(t.d.prefix, p) && RefAt(t, Rel(t, p)) != 0
    requires SteadyClock(clock, grace)
    requires RefAt(t, q) != 0 && q != Rel(t, p)
    ensures DataAt(NetworkRelease(p, t, grace, clock).0, q) == DataAt(t, q)
    decreases t
  {
    if t.d.prefix.bits < p.bits {
      ReleaseUnmerged(p, t, grace, clock);
      var r := Rel(t, p);
      if q != [] && q[0] == r[0] {
        RefBelow(t, q);
        RefBelow(t, r);
        assert q == [q[0]] + q[1..] && r == [r[0]] + r[1..];
        ReleaseLeavesOthers(p, if r[0] then t.right else t.left, grace, clock, q[1..]);
      }
    } else {
      LeavesOthersHere(p, t, grace, clock, q);
    }
  }

  lemma {:induction false} LeavesOthersHere(p: Prefix, t: Tree, grace: int, clock: nat -> int, q: seq<bool>)
    requires Wf(t) && IsPrefixChildOf(t.d.prefix, p) && t.d.prefix.bits == p.bits && RefAt(t, q) != 0 && q != []
    ensures DataAt(NetworkRelease(p, t, grace, clock).0, q) == DataAt(t, q)
  {
    assert t.Fork?;
    RefBelow(t, q);
  }

  /** The time of the network itself stays or becomes what its node read. */
  lemma {:induction false} ReleaseOwnTime(p: Prefix, t: Tree, grace: int, clock: nat -> int)
    requires Wf(t) && Canonical(p) && IsPrefixChildOf(t.d.prefix, p) && RefAt(t, Rel(t, p)) != 0
    requires SteadyClock(clock, grace)
    ensures DataAt(t, Rel(t, p)).Some?
    ensures var d := DataAt(NetworkRelease(p, t, grace, clock).0, Rel(t, p));
            d.Some? && (d.value.updated == DataAt(t, Rel(t, p)).value.updated || d.value.updated == clock(p.bits))
    decreases t
  {
    if t.d.prefix.bits < p.bits {
      ReleaseUnmerged(p, t, grace, clock);
      var r := Rel(t, p);
      RefBelow(t, r);
      ReleaseOwnTime(p, if r[0] then t.right else t.left, grace, clock);
    } else {
      assert Rel(t, p) == [];
    }
  }

  /** A clock that jumps further than the grace period during one release can refresh the time of another network. */
  lemma {:induction false} ClockJumpTouches() returns (p: Prefix, t: Tree, clock: nat -> int, q: seq<bool>)
    ensures Wf(t) && Canonical(p) && IsPrefixChildOf(t.d.prefix, p) && RefAt(t, Rel(t, p)) != 0 && RefAt(t, q) != 0
    ensures q != Rel(t, p)
    ensures !SteadyClock(clock, 5)
    ensures DataAt(NetworkRelease(p, t, 5, clock).0, q) != DataAt(t, q)
  {
    var root := FromPath([]);
    SplitPaths(root);
    assert Path(root) == [];
    p := FromPath([false]);
    var l, r := Leaf(Data(p, 1, 0, [], None)), Leaf(Data(FromPath([true]), 0, 0, [], None));
    assert [] + [false] == [false] && [] + [true] == [true];
    t := Fork(Data(root, 1, 0, [], None), l, r);
    clock := b => if b == 1 then 10 else 100;
    q := [];
    assert clock(0) == 100 && clock(0 + 1) == 10;
    assert Path(p) == [false];
    assert Rel(t, p) == [false];
    assert IsPrefixChildOf(t.d.prefix, p);
    assert DataAt(t, [false]) == DataAt(l, []);
    assert Rel(l, p) == [];
    ReleaseStep(p, t, 5, clock);
  }
}
