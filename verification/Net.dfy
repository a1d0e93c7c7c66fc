/**
IPv4 addresses and prefixes, as `net/netip` gives them to the address manager.
An address is the sequence of its 32 bits, most significant first, so masking is
taking a prefix of the sequence; `Num` is the usual unsigned value.
*/
module Net {
  import opened Wrappers

  const WIDTH := 32

  function Zeros(n: nat): (z: seq<bool>)
    ensures |z| == n
    ensures forall i :: 0 <= i < n ==> !z[i]
  {
    seq(n, i => false)
  }

  type Addr = a: seq<bool> | |a| == WIDTH witness Zeros(WIDTH)

  datatype Cidr = Cidr(addr: seq<bool>, bits: nat)

  type Prefix = c: Cidr | |c.addr| == WIDTH && c.bits <= WIDTH witness Cidr(Zeros(WIDTH), WIDTH)

  /** The bits that a prefix fixes. */
  function Path(p: Prefix): seq<bool> { p.addr[..p.bits] }

  /** The prefix with those fixed bits and zero host bits. */
  function FromPath(path: seq<bool>): (p: Prefix)
    requires |path| <= WIDTH
    ensures Path(p) == path && Canonical(p)
  {
    var p := Cidr(path + Zeros(WIDTH - |path|), |path|);
    assert p.addr[..p.bits] == path;
    p
  }

  function Masked(p: Prefix): Prefix { Cidr(p.addr[..p.bits] + Zeros(WIDTH - p.bits), p.bits) }

  predicate Canonical(p: Prefix) { Masked(p).addr == p.addr }

  lemma CanonicalFromPath(p: Prefix)
    ensures Canonical(p) <==> p == FromPath(Path(p))
  {}

  predicate Contains(p: Prefix, a: Addr) { a[..p.bits] == p.addr[..p.bits] }

  predicate Overlaps(p: Prefix, q: Prefix) {
    var m := if p.bits <= q.bits then p.bits else q.bits;
    p.addr[..m] == q.addr[..m]
  }

  predicate IsPrefixChildOf(parent: Prefix, child: Prefix) {
    parent.bits <= child.bits && Overlaps(parent, child)
  }

  lemma ChildIsPathPrefix(parent: Prefix, child: Prefix)
    ensures IsPrefixChildOf(parent, child) <==> Path(parent) <= Path(child)
  {}

  lemma OverlapIsComparable(p: Prefix, q: Prefix)
    ensures Overlaps(p, q) <==> Path(p) <= Path(q) || Path(q) <= Path(p)
  {}

  /** `Overlaps` means what its name says: some address lies in both prefixes. */
  lemma OverlapsMeansSharedAddress(p: Prefix, q: Prefix)
    ensures Overlaps(p, q) <==> exists a: Addr :: Contains(p, a) && Contains(q, a)
  {
    var long: Addr := if p.bits <= q.bits then q.addr else p.addr;
    if Overlaps(p, q) {
      assert Contains(p, long) && Contains(q, long);
    }
    forall a: Addr | Contains(p, a) && Contains(q, a) ensures Overlaps(p, q) {
      var m := if p.bits <= q.bits then p.bits else q.bits;
      assert p.addr[..m] == p.addr[..p.bits][..m] == a[..m];
      assert q.addr[..m] == q.addr[..q.bits][..m] == a[..m];
    }
  }

  /** `isPrefixChildOf` is inclusion of the address sets. */
  lemma ChildMeansSubset(parent: Prefix, child: Prefix)
    ensures IsPrefixChildOf(parent, child) <==> forall a: Addr :: Contains(child, a) ==> Contains(parent, a)
  {
    if IsPrefixChildOf(parent, child) {
      forall a: Addr | Contains(child, a) ensures Contains(parent, a) {
        assert a[..parent.bits] == a[..child.bits][..parent.bits];
        assert child.addr[..parent.bits] == child.addr[..child.bits][..parent.bits];
      }
    } else if parent.bits <= child.bits {
      assert Contains(child, child.addr) && !Contains(parent, child.addr);
    } else {
      // flip the first bit that the parent fixes and the child does not
      var b := child.bits;
      var a: Addr := child.addr[b := !parent.addr[b]];
      assert Contains(child, a);
      assert a[..parent.bits][b] != parent.addr[..parent.bits][b];
      assert !Contains(parent, a);
    }
  }

  // ----- splitting

  function SetBit(byte: seq<bool>, position: nat): seq<bool>
    requires |byte| == 8 && position < 8
  {
    byte[position := true]
  }

  /** The two halves, the second built by editing one bit of one byte of the marshalled address. */
  function SplitNetworkPrefix(p: Prefix): (Prefix, Prefix)
    requires Canonical(p) && p.bits < WIDTH
  {
    var byteIndex := p.bits / 8;
    var bitIndex := p.bits % 8;
    var edited := p.addr[..8 * byteIndex]
                  + SetBit(p.addr[8 * byteIndex .. 8 * byteIndex + 8], bitIndex)
                  + p.addr[8 * byteIndex + 8..];
    (Cidr(p.addr, p.bits + 1), Cidr(edited, p.bits + 1))
  }

  lemma SplitPaths(p: Prefix)
    requires Canonical(p) && p.bits < WIDTH
    ensures SplitNetworkPrefix(p) == (FromPath(Path(p) + [false]), FromPath(Path(p) + [true]))
  {
    var (l, r) := SplitNetworkPrefix(p);
    assert p.addr == p.addr[..p.bits] + Zeros(WIDTH - p.bits);
    assert l.addr == (Path(p) + [false]) + Zeros(WIDTH - p.bits - 1);
    assert r.addr == p.addr[p.bits := true];
    assert r.addr == (Path(p) + [true]) + Zeros(WIDTH - p.bits - 1);
  }

  /** Splitting partitions: every address of the prefix is in exactly one half, and no other address is in either. */
  lemma SplitPartitions(p: Prefix, a: Addr)
    requires Canonical(p) && p.bits < WIDTH
    ensures var (l, r) := SplitNetworkPrefix(p);
            && Canonical(l) && Canonical(r)
            && (Contains(p, a) <==> Contains(l, a) || Contains(r, a))
            && !(Contains(l, a) && Contains(r, a))
  {
    SplitPaths(p);
    var (l, r) := SplitNetworkPrefix(p);
    assert Path(l) == Path(p) + [false] && Path(r) == Path(p) + [true];
    assert a[..p.bits + 1] == a[..p.bits] + (if a[p.bits] then [true] else [false]);
    assert a[..p.bits] == a[..p.bits + 1][..p.bits];
    assert Path(p) == (Path(p) + [false])[..p.bits] == (Path(p) + [true])[..p.bits];
  }

  // ----- addresses as numbers

  function Pow2(n: nat): (r: nat)
    ensures r > 0
  {
    if n == 0 then 1 else 2 * Pow2(n - 1)
  }

  function Num(s: seq<bool>): nat {
    if s == [] then 0 else 2 * Num(s[..|s| - 1]) + (if s[|s| - 1] then 1 else 0)
  }

  /** How many addresses a prefix holds. */
  function Size(p: Prefix): nat { Pow2(WIDTH - p.bits) }

  lemma {:induction false} NumBound(s: seq<bool>)
    ensures Num(s) < Pow2(|s|)
  {
    if s != [] { NumBound(s[..|s| - 1]); }
  }

  lemma {:induction false} NumInjective(s: seq<bool>, t: seq<bool>)
    requires |s| == |t|
    ensures Num(s) == Num(t) <==> s == t
  {
    if s != [] {
      var n := |s| - 1;
      NumInjective(s[..n], t[..n]);
      assert s == s[..n] + [s[n]] && t == t[..n] + [t[n]];
    }
  }

  lemma {:induction false} NumConcat(s: seq<bool>, t: seq<bool>)
    ensures Num(s + t) == Num(s) * Pow2(|t|) + Num(t)
  {
    if t == [] {
      assert s + t == s;
    } else {
      var n := |t| - 1;
      NumConcat(s, t[..n]);
      assert (s + t)[..|s + t| - 1] == s + t[..n];
      assert Num(s) * Pow2(|t|) == 2 * (Num(s) * Pow2(n));
    }
  }

  lemma {:induction false} NumZeros(n: nat)
    ensures Num(Zeros(n)) == 0
  {
    if n > 0 {
      NumZeros(n - 1);
      assert Zeros(n)[..n - 1] == Zeros(n - 1);
    }
  }

  lemma BlockIndex(x: nat, y: nat, h: nat, block: nat)
    requires h < block
    ensures x * block <= y * block + h < x * block + block <==> x == y
  {
    if x < y {
      assert (x + 1) * block <= y * block;
    } else if y < x {
      assert (y + 1) * block <= x * block;
    }
  }

  /** A canonical prefix is the block of `Size(p)` consecutive addresses that starts at its base. */
  lemma PrefixIsRange(p: Prefix, a: Addr)
    requires Canonical(p)
    ensures Contains(p, a) <==> Num(p.addr) <= Num(a) < Num(p.addr) + Size(p)
  {
    var k := p.bits;
    var host := a[k..];
    assert a == a[..k] + host;
    NumConcat(a[..k], host);
    NumBound(host);
    NumConcat(p.addr[..k], Zeros(WIDTH - k));
    NumZeros(WIDTH - k);
    BlockIndex(Num(p.addr[..k]), Num(a[..k]), Num(host), Size(p));
    NumInjective(a[..k], p.addr[..k]);
  }

  /** `Addr.Next`: ripple-carry increment, nothing after the all-ones address. */
  function Next(s: seq<bool>): (r: Option<seq<bool>>)
    ensures r.Some? ==> |r.value| == |s|
  {
    if s == [] then None
    else
      var n := |s| - 1;
      if !s[n] then Some(s[..n] + [true])
      else match Next(s[..n])
        case None => None
        case Some(t) => Some(t + [false])
  }

  lemma {:induction false} NextIsSuccessor(s: seq<bool>)
    ensures Next(s).Some? <==> Num(s) + 1 < Pow2(|s|)
    ensures Next(s).Some? ==> Num(Next(s).value) == Num(s) + 1
  {
    if s != [] {
      var n := |s| - 1;
      NumBound(s[..n]);
      if !s[n] {
        assert (s[..n] + [true])[..n] == s[..n];
      } else {
        NextIsSuccessor(s[..n]);
        match Next(s[..n])
        case None =>
        case Some(t) => assert (t + [false])[..n] == t;
      }
    }
  }
}
