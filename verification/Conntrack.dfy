/**
Evicting the connections that new notrack rules no longer want tracked (pkg/firewall/conntrack.go):
every flow whose original or reply tuple satisfies all the matches of some notrack rule is deleted.
*/
module Conntrack {
  import opened Wrappers
  import opened Decimal
  import opened Net
  import opened Strings

  datatype Position = Src | Dst

  datatype Proto = Tcp | Udp

  /** The parts of a match that a flow can tell; a match on a device alone has none of them. */
  datatype Match = Match(ip: Option<(string, Position)>, port: Option<(string, Position)>, proto: Option<Proto>,
                         neq: bool)

  type Rule = seq<Match>

  datatype Tuple = Tuple(src: Addr, dst: Addr, srcPort: nat, dstPort: nat, protocol: nat)

  datatype Flow = Flow(orig: Tuple, reply: Tuple)

  const MAX_PORT := 65535

  // ----- ports

  function ParsePortRange(s: string): Option<(nat, nat)> {
    var i := IndexOf(s, '-');
    if i == |s| then
      var p := ParseUint(s, MAX_PORT);
      if p.None? then None else Some((p.value, p.value))
    else
      var a, b := ParseUint(s[..i], MAX_PORT), ParseUint(s[i + 1..], MAX_PORT);
      if a.None? || b.None? || a.value > b.value then None else Some((a.value, b.value))
  }

  lemma {:induction false} DashOf(a: string, b: string)
    requires Numeral(a)
    ensures IndexOf(a, '-') == |a| && IndexOf(a + "-" + b, '-') == |a|
  {
    var s := a + "-" + b;
    assert s[|a|] == '-';
    assert forall j :: 0 <= j < |a| ==> s[j] == a[j];
  }

  /** Written ports and ranges are read back, exactly when they are ports and the range is not reversed. */
  lemma {:induction false} PortRoundTrip(a: nat, b: nat)
    ensures ParsePortRange(Digits(a)) == if a <= MAX_PORT then Some((a, a)) else None
    ensures ParsePortRange(Digits(a) + "-" + Digits(b)) == if a <= b <= MAX_PORT then Some((a, b)) else None
  {
    var s := Digits(a) + "-" + Digits(b);
    DashOf(Digits(a), Digits(b));
    ParseDigits(a, MAX_PORT);
    ParseDigits(b, MAX_PORT);
    assert s[..|Digits(a)|] == Digits(a) && s[|Digits(a)| + 1..] == Digits(b);
  }

  // ----- matching

  /** `parse` reads a prefix, or an address as the prefix of its full length. */
  predicate MatchIP(parse: string -> Option<Prefix>, t: Tuple, ip: (string, Position)) {
    var p := parse(ip.0);
    p.Some? && Net.Contains(p.value, if ip.1 == Src then t.src else t.dst)
  }

  predicate MatchPort(t: Tuple, port: (string, Position)) {
    var r := ParsePortRange(port.0);
    r.Some? && r.value.0 <= (if port.1 == Src then t.srcPort else t.dstPort) <= r.value.1
  }

  predicate MatchProto(t: Tuple, p: Proto) { t.protocol == if p == Tcp then 6 else 17 }

  predicate Satisfies(parse: string -> Option<Prefix>, m: Match, t: Tuple) {
    var matched :=
      && (m.ip.Some? ==> MatchIP(parse, t, m.ip.value))
      && (m.port.Some? ==> MatchPort(t, m.port.value))
      && (m.proto.Some? ==> MatchProto(t, m.proto.value));
    if m.neq then !matched else matched
  }

  predicate TupleMatches(parse: string -> Option<Prefix>, t: Tuple, r: Rule) {
    forall i :: 0 <= i < |r| ==> Satisfies(parse, r[i], t)
  }

  predicate FlowMatches(parse: string -> Option<Prefix>, f: Flow, rules: seq<Rule>) {
    exists i :: 0 <= i < |rules| && (TupleMatches(parse, f.orig, rules[i]) || TupleMatches(parse, f.reply, rules[i]))
  }

  /** Evicting does not depend on who opened the connection, and each rule evicts on its own. */
  lemma {:induction false} MatchingLaws(parse: string -> Option<Prefix>, f: Flow, a: seq<Rule>, b: seq<Rule>)
    ensures FlowMatches(parse, f, a) <==> FlowMatches(parse, Flow(f.reply, f.orig), a)
    ensures FlowMatches(parse, f, a + b) <==> FlowMatches(parse, f, a) || FlowMatches(parse, f, b)
  {
    var ab := a + b;
    if FlowMatches(parse, f, a) {
      var i :| 0 <= i < |a| && (TupleMatches(parse, f.orig, a[i]) || TupleMatches(parse, f.reply, a[i]));
      assert ab[i] == a[i];
    }
    if FlowMatches(parse, f, b) {
      var i :| 0 <= i < |b| && (TupleMatches(parse, f.orig, b[i]) || TupleMatches(parse, f.reply, b[i]));
      assert ab[|a| + i] == b[i];
    }
    if FlowMatches(parse, f, ab) {
      var i :| 0 <= i < |ab| && (TupleMatches(parse, f.orig, ab[i]) || TupleMatches(parse, f.reply, ab[i]));
      if i < |a| { assert ab[i] == a[i]; } else { assert ab[i] == b[i - |a|]; }
    }
  }

  /** Both values of the match, as far as it has them, can be read. */
  predicate Readable(parse: string -> Option<Prefix>, m: Match) {
    (m.ip.Some? ==> parse(m.ip.value.0).Some?) && (m.port.Some? ==> ParsePortRange(m.port.value.0).Some?)
  }

  /**
  A match on a value this code cannot read, such as a range of addresses, evicts no flow, or every flow
  when negated.
  */
  lemma {:induction false} UnreadableMatch(parse: string -> Option<Prefix>, m: Match, f: Flow)
    requires !Readable(parse, m)
    ensures FlowMatches(parse, f, [[m]]) <==> m.neq
  {
    SingleMatch(parse, m, f);
  }

  /** A rule with one match evicts what satisfies it in one of the two directions. */
  lemma {:induction false} SingleMatch(parse: string -> Option<Prefix>, m: Match, f: Flow)
    ensures FlowMatches(parse, f, [[m]]) <==> Satisfies(parse, m, f.orig) || Satisfies(parse, m, f.reply)
  {
    var r: Rule, rules: seq<Rule> := [m], [[m]];
    assert rules[0] == r && r[0] == m;
    assert TupleMatches(parse, f.orig, r) <==> Satisfies(parse, m, f.orig);
    assert TupleMatches(parse, f.reply, r) <==> Satisfies(parse, m, f.reply);
  }

  /** A tuple that does what a readable match asks. */
  lemma {:induction false} MatchedTuple(parse: string -> Option<Prefix>, m: Match) returns (t: Tuple)
    requires Readable(parse, m)
    ensures Satisfies(parse, m.(neq := false), t)
  {
    var a := if m.ip.Some? then parse(m.ip.value.0).value.addr else seq(WIDTH, _ => false);
    var p := if m.port.Some? then ParsePortRange(m.port.value.0).value.0 else 0;
    t := Tuple(a, a, p, p, if m.proto == Some(Udp) then 17 else 6);
  }

  /** A negated match evicts every flow exactly when a value in it cannot be read. */
  lemma {:induction false} NegatedEvictsEverything(parse: string -> Option<Prefix>, m: Match)
    requires m.neq
    ensures (forall f :: FlowMatches(parse, f, [[m]])) <==> !Readable(parse, m)
  {
    if Readable(parse, m) {
      var t := MatchedTuple(parse, m);
      SingleMatch(parse, m, Flow(t, t));
    } else {
      forall f ensures FlowMatches(parse, f, [[m]]) { UnreadableMatch(parse, m, f); }
    }
  }

  /** TCP and UDP have the protocol numbers 6 and 17. */
  lemma {:induction false} ProtocolNumbers(parse: string -> Option<Prefix>, t: Tuple, neq: bool)
    ensures TupleMatches(parse, t, [Match(None, None, Some(Tcp), neq)]) <==> (t.protocol == 6) != neq
    ensures TupleMatches(parse, t, [Match(None, None, Some(Udp), neq)]) <==> (t.protocol == 17) != neq
  {
    var tcp, udp := [Match(None, None, Some(Tcp), neq)], [Match(None, None, Some(Udp), neq)];
    assert tcp[0].proto == Some(Tcp) && udp[0].proto == Some(Udp);
    assert Satisfies(parse, tcp[0], t) <==> (t.protocol == 6) != neq;
    assert Satisfies(parse, udp[0], t) <==> (t.protocol == 17) != neq;
  }

  /** A match on a device alone changes nothing, unless it is negated: then its rule evicts no flow. */
  lemma {:induction false} DeviceMatch(parse: string -> Option<Prefix>, t: Tuple, r: Rule, neq: bool)
    ensures TupleMatches(parse, t, r + [Match(None, None, None, neq)]) <==> !neq && TupleMatches(parse, t, r)
  {
    var m := Match(None, None, None, neq);
    var more := r + [m];
    assert more[|r|] == m && forall i :: 0 <= i < |r| ==> more[i] == r[i];
    assert Satisfies(parse, m, t) <==> !neq;
  }

  // ----- what the rule asks in the kernel

  predicate IsRange(value: string) { IndexOf(value, '-') < |value| }

  /** The address is masked and compared with the one written, host bits included. */
  predicate CompiledIP(p: Prefix, a: Addr) { Masked(Cidr(a, p.bits)).addr == p.addr }

  lemma {:induction false} CompiledIPIff(p: Prefix, a: Addr)
    ensures CompiledIP(p, a) <==> Canonical(p) && Net.Contains(p, a)
  {
    var q := Masked(Cidr(a, p.bits));
    assert q.addr[..p.bits] == a[..p.bits];
  }

  /**
  The expressions of a match: those on address and single port are negated each, those on port range and
  protocol never.
  */
  predicate Compiled(parse: string -> Option<Prefix>, m: Match, t: Tuple)
    requires Readable(parse, m)
  {
    && (m.proto.Some? ==> MatchProto(t, m.proto.value))
    && (m.ip.Some? ==>
          CompiledIP(parse(m.ip.value.0).value, if m.ip.value.1 == Src then t.src else t.dst) != m.neq)
    && (m.port.Some? ==> MatchPort(t, m.port.value) != (m.neq && !IsRange(m.port.value.0)))
  }

  /** Ports are numbers of sixteen bits. */
  predicate Real(t: Tuple) { t.srcPort <= MAX_PORT && t.dstPort <= MAX_PORT }

  /** The matches that evict what the kernel no longer tracks. */
  predicate Agrees(parse: string -> Option<Prefix>, m: Match)
    requires Readable(parse, m)
  {
    var canonical := m.ip.Some? ==> Canonical(parse(m.ip.value.0).value);
    if !m.neq then canonical
    else if m.proto.Some? || (m.ip.None? && m.port.None?) then false
    else if m.port.None? then canonical
    else if m.ip.None? then !IsRange(m.port.value.0)
    else if IsRange(m.port.value.0) then canonical && ParsePortRange(m.port.value.0).value == (0, MAX_PORT)
    else !canonical && parse(m.ip.value.0).value.bits == 0
  }

  /** Both directions of a flow between an address and itself. */
  function Looped(a: Addr, port: nat, protocol: nat): Tuple { Tuple(a, a, port, port, protocol) }

  function Outside(p: Prefix): Addr { p.addr[0 := !p.addr[0]] }

  function OtherPort(r: (nat, nat)): nat { if r.0 > 0 then 0 else MAX_PORT }

  lemma {:induction false} OutsideIsNot(p: Prefix)
    ensures Net.Contains(p, Outside(p)) <==> p.bits == 0
  {
    if p.bits > 0 { assert Outside(p)[..p.bits][0] != p.addr[..p.bits][0]; }
  }

  lemma {:induction false} RangeBounds(s: string)
    requires ParsePortRange(s).Some?
    ensures var r := ParsePortRange(s).value; r.0 <= r.1 <= MAX_PORT && (!IsRange(s) ==> r.0 == r.1)
  {}

  /** A flow that a match which does not agree treats otherwise than the kernel. */
  lemma {:induction false} Disagreement(parse: string -> Option<Prefix>, m: Match) returns (t: Tuple)
    requires Readable(parse, m) && !Agrees(parse, m)
    ensures Real(t) && Satisfies(parse, m, t) != Compiled(parse, m, t)
  {
    var p := if m.ip.Some? then parse(m.ip.value.0).value else Cidr(Zeros(WIDTH), WIDTH);
    var r := if m.port.Some? then ParsePortRange(m.port.value.0).value else (0, 0);
    if m.port.Some? { RangeBounds(m.port.value.0); }
    OutsideIsNot(p);
    CompiledIPIff(p, p.addr);
    CompiledIPIff(p, Outside(p));
    if !m.neq {
      t := Looped(p.addr, r.0, if m.proto == Some(Udp) then 17 else 6);
    } else if m.proto.Some? {
      t := Looped(p.addr, r.0, 0);
    } else if m.ip.None? || m.port.None? {
      t := Looped(p.addr, r.0, 6);
    } else if IsRange(m.port.value.0) {
      t := Looped(p.addr, if r == (0, MAX_PORT) then r.0 else OtherPort(r), 6);
    } else if Canonical(p) {
      t := Looped(p.addr, OtherPort(r), 6);
    } else {
      t := Looped(Outside(p), r.0, 6);
    }
  }

  lemma {:induction false} AgreeingMatch(parse: string -> Option<Prefix>, m: Match, t: Tuple)
    requires Readable(parse, m) && Agrees(parse, m) && Real(t)
    ensures Satisfies(parse, m, t) <==> Compiled(parse, m, t)
  {
    if m.ip.Some? { CompiledIPIff(parse(m.ip.value.0).value, if m.ip.value.1 == Src then t.src else t.dst); }
  }

  /**
  A match evicts exactly the flows that its expressions in the kernel ask for, exactly when it agrees. The
  positive ones do unless the prefix has host bits; of the negated ones, in essence, those on an address or
  on a single port alone.
  */
  lemma {:induction false} EvictsAsCompiledIff(parse: string -> Option<Prefix>, m: Match)
    requires Readable(parse, m)
    ensures (forall t :: Real(t) ==> (Satisfies(parse, m, t) <==> Compiled(parse, m, t))) <==> Agrees(parse, m)
  {
    if Agrees(parse, m) {
      forall t | Real(t) ensures Satisfies(parse, m, t) <==> Compiled(parse, m, t) { AgreeingMatch(parse, m, t); }
    } else {
      var t := Disagreement(parse, m);
    }
  }

  /** A rule that names both addresses, both ports and the protocol matches that tuple and no other. */
  lemma {:induction false} FiveTupleExact(parse: string -> Option<Prefix>, src: string, dst: string, proto: Proto,
                                          t: Tuple, u: Tuple)
    requires parse(src) == Some(Cidr(t.src, WIDTH)) && parse(dst) == Some(Cidr(t.dst, WIDTH))
    requires t.srcPort <= MAX_PORT && t.dstPort <= MAX_PORT && MatchProto(t, proto)
    ensures TupleMatches(parse, u, [Match(Some((src, Src)), Some((Digits(t.srcPort), Src)), Some(proto), false),
                                    Match(Some((dst, Dst)), Some((Digits(t.dstPort), Dst)), None, false)])
            <==> u == t
  {
    var m, n := Match(Some((src, Src)), Some((Digits(t.srcPort), Src)), Some(proto), false),
        Match(Some((dst, Dst)), Some((Digits(t.dstPort), Dst)), None, false);
    PortRoundTrip(t.srcPort, 0);
    PortRoundTrip(t.dstPort, 0);
    assert u.src[..WIDTH] == u.src && t.src[..WIDTH] == t.src && u.dst[..WIDTH] == u.dst && t.dst[..WIDTH] == t.dst;
    assert [m, n][0] == m && [m, n][1] == n;
  }

  // ----- eviction

  function Remaining(parse: string -> Option<Prefix>, flows: seq<Flow>, rules: seq<Rule>): (r: seq<Flow>) {
    if flows == [] then []
    else
      var rest := Remaining(parse, flows[1..], rules);
      (if FlowMatches(parse, flows[0], rules) then [] else [flows[0]]) + rest
  }

  lemma {:induction false} RemainingExact(parse: string -> Option<Prefix>, flows: seq<Flow>, rules: seq<Rule>)
    ensures forall f :: multiset(Remaining(parse, flows, rules))[f] == if FlowMatches(parse, f, rules) then 0
              else multiset(flows)[f]
  {
    if flows != [] {
      RemainingExact(parse, flows[1..], rules);
      assert flows == [flows[0]] + flows[1..];
    }
  }

  lemma {:induction false} RemainingAppend(parse: string -> Option<Prefix>, a: seq<Flow>, b: seq<Flow>,
                                           rules: seq<Rule>)
    ensures Remaining(parse, a + b, rules) == Remaining(parse, a, rules) + Remaining(parse, b, rules)
  {
    if a == [] {
      assert a + b == b;
    } else {
      assert (a + b)[1..] == a[1..] + b;
      RemainingAppend(parse, a[1..], b, rules);
    }
  }

  /** What is left once the first `i` of the dumped flows have been visited. */
  function LeftAfter(parse: string -> Option<Prefix>, dump: seq<Flow>, rules: seq<Rule>, i: nat): seq<Flow>
    requires i <= |dump|
  {
    Remaining(parse, dump[..i], rules) + dump[i..]
  }

  lemma {:induction false} RemainingOne(parse: string -> Option<Prefix>, f: Flow, rules: seq<Rule>)
    ensures Remaining(parse, [f], rules) == if FlowMatches(parse, f, rules) then [] else [f]
  {
    assert [f][1..] == [];
    assert Remaining(parse, [], rules) == [];
  }

  /** Visiting the next flow removes it from where it is, or leaves everything. */
  lemma {:induction false} LeftStep(parse: string -> Option<Prefix>, dump: seq<Flow>, rules: seq<Rule>, i: nat)
    requires i < |dump|
    ensures var k := |Remaining(parse, dump[..i], rules)|;
            var left, next := LeftAfter(parse, dump, rules, i), LeftAfter(parse, dump, rules, i + 1);
            && k < |left| && left[k] == dump[i]
            && next == if FlowMatches(parse, dump[i], rules) then left[..k] + left[k + 1..] else left
  {
    assert dump[..i + 1] == dump[..i] + [dump[i]] && dump[i..] == [dump[i]] + dump[i + 1..];
    RemainingAppend(parse, dump[..i], [dump[i]], rules);
    RemainingOne(parse, dump[i], rules);
    var done := Remaining(parse, dump[..i], rules);
    var left := done + dump[i..];
    assert left[..|done|] == done && left[|done| + 1..] == dump[i + 1..];
  }

  lemma {:induction false} LeftEnds(parse: string -> Option<Prefix>, dump: seq<Flow>, rules: seq<Rule>)
    ensures LeftAfter(parse, dump, rules, 0) == dump
    ensures LeftAfter(parse, dump, rules, |dump|) == Remaining(parse, dump, rules)
  {
    assert dump[..0] == [] && dump[0..] == dump && dump[..|dump|] == dump && dump[|dump|..] == [];
  }

  /** The i-th visit goes through: the context is alive and the flow, if it matches, can be deleted. */
  predicate Passes(parse: string -> Option<Prefix>, dump: seq<Flow>, rules: seq<Rule>, stops: nat -> bool,
                   refused: Flow -> bool, i: nat)
    requires i < |dump|
  {
    !stops(i) && (FlowMatches(parse, dump[i], rules) ==> !refused(dump[i]))
  }

  class Tracker {
    var flows: seq<Flow>

    constructor (fs: seq<Flow>) ensures flows == fs { flows := fs; }

    /** Deletes the flow at its place in the table. */
    method Delete(k: nat)
      requires k < |flows|
      modifies this
      ensures flows == old(flows)[..k] + old(flows)[k + 1..]
    {
      flows := flows[..k] + flows[k + 1..];
    }

    method Visit(parse: string -> Option<Prefix>, dump: seq<Flow>, rules: seq<Rule>, stops: nat -> bool,
                 refused: Flow -> bool, i: nat)
      returns (ok: bool)
      requires i < |dump| && flows == LeftAfter(parse, dump, rules, i)
      modifies this
      ensures ok == Passes(parse, dump, rules, stops, refused, i)
      ensures flows == LeftAfter(parse, dump, rules, if ok then i + 1 else i)
    {
      LeftStep(parse, dump, rules, i);
      if stops(i) { return false; }
      if FlowMatches(parse, dump[i], rules) {
        if refused(dump[i]) { return false; }
        Delete(|Remaining(parse, dump[..i], rules)|);
      }
      ok := true;
    }

    /**
    `flushConntrackForNotrackRules` over the flows dumped at the start. `stops` tells at which flow the
    context is cancelled, `refused` which flows the kernel does not delete. Whatever happens, the flows
    gone are the matching ones among those visited.
    */
    method FlushMatching(parse: string -> Option<Prefix>, rules: seq<Rule>, stops: nat -> bool, refused: Flow -> bool)
      returns (ok: bool, ghost visited: nat)
      modifies this
      ensures visited <= |old(flows)| && flows == LeftAfter(parse, old(flows), rules, visited)
      ensures ok <==> rules == [] || forall i :: 0 <= i < |old(flows)| ==>
                Passes(parse, old(flows), rules, stops, refused, i)
      ensures ok && rules != [] ==> flows == Remaining(parse, old(flows), rules)
    {
      LeftEnds(parse, flows, rules);
      if |rules| == 0 { return true, 0; }
      var dump, i := flows, 0;
      while i < |dump|
        invariant i <= |dump| && flows == LeftAfter(parse, dump, rules, i)
        invariant forall j :: 0 <= j < i ==> Passes(parse, dump, rules, stops, refused, j)
      {
        ok := Visit(parse, dump, rules, stops, refused, i);
        if !ok { return false, i; }
        i := i + 1;
      }
      return true, i;
    }
  }
}
