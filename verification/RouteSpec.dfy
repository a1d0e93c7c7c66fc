/**
What a RouteConfiguration asks for and what the kernel holds (pkg/route/route.go, pkg/route/rule.go),
with the comparisons between the two. Networks and addresses are compared by their printed form, so
they are strings here; parsing, link lookup and what the kernel fills in come from the environment.
*/
module RouteSpec {
  import opened Wrappers
  import opened NextHops
  import opened Permutations

  datatype ApiNextHop = ApiNextHop(gw: string, dev: string, weight: Option<int>)

  datatype ApiRoute = ApiRoute(dst: Option<string>, src: Option<string>, gw: Option<string>, dev: Option<string>,
                               onlink: bool, scope: int, nextHops: seq<ApiNextHop>)

  datatype ApiRule = ApiRule(src: Option<string>, dst: Option<string>, iif: Option<string>, oif: Option<string>,
                             fwMark: Option<int>, priority: Option<int>, routes: seq<ApiRoute>)

  datatype NlRoute = NlRoute(table: nat, dst: Option<string>, src: Option<string>, gw: Option<string>,
                             link: int, flags: int, multiPath: seq<NextHop>, scope: int)

  datatype NlRule = NlRule(table: nat, src: Option<string>, dst: Option<string>, iif: string, oif: string, mark: int,
                           priority: int)

  /**
  What the host decides: `net.ParseCIDR` and `net.ParseIP` as maps from text to the printed form of the
  result, the links by name, the gateways that can be reached, the route the kernel keeps for the one it
  is sent (it fills in what is missing) and the priority it picks for the n-th rule when none is sent.
  */
  datatype Env = Env(links: map<string, int>, parseCidr: string -> Option<string>, parseIp: string -> Option<string>,
                     reachable: NlRoute -> bool, settle: NlRoute -> NlRoute, pick: nat -> int)

  datatype Error = BadCidr | LinkNotFound | FwMarkOutOfRange | FileExists | Unreachable | Ambiguous

  /** What the kernel keeps is what it was sent, up to the fields that were left open. */
  ghost predicate Settles(env: Env) {
    forall r: NlRoute :: (var k := env.settle(r); k.table == r.table && k.dst == r.dst && IsEqualRoute(r, k))
  }

  const FLAG_ONLINK := 4

  const MAX_UINT32 := 0xFFFF_FFFF

  // ----- routes

  function ForgeHop(env: Env, h: ApiNextHop): NextHop
    requires h.dev in env.links
  {
    var gw := env.parseIp(h.gw);
    NextHop(if gw.Some? then gw.value else "<nil>", env.links[h.dev], if h.weight.Some? then h.weight.value else 0)
  }

  function ForgeNextHops(env: Env, nhs: seq<ApiNextHop>): Result<seq<NextHop>, Error> {
    if nhs == [] then Ok([])
    else if nhs[0].dev !in env.links then Err(LinkNotFound)
    else
      match ForgeNextHops(env, nhs[1..])
      case Err(e) => Err(e)
      case Ok(rest) => Ok([ForgeHop(env, nhs[0])] + rest)
  }

  function Parsed(parse: string -> Option<string>, text: Option<string>): Option<string> {
    if text.None? then None else parse(text.value)
  }

  /** `forgeNetlinkRoute`. */
  function ForgeRoute(env: Env, r: ApiRoute, table: nat): Result<NlRoute, Error> {
    if r.dst.Some? && env.parseCidr(r.dst.value).None? then Err(BadCidr)
    else if r.dev.Some? && r.dev.value !in env.links then Err(LinkNotFound)
    else
      match ForgeNextHops(env, r.nextHops)
      case Err(e) => Err(e)
      case Ok(multiPath) =>
        var multi := |r.nextHops| > 0;
        Ok(NlRoute(table, Parsed(env.parseCidr, r.dst), Parsed(env.parseIp, r.src),
                   if multi then None else Parsed(env.parseIp, r.gw),
                   if multi || r.dev.None? then 0 else env.links[r.dev.value],
                   if r.onlink then FLAG_ONLINK else 0, multiPath, r.scope))
  }

  predicate Linked(env: Env, nhs: seq<ApiNextHop>) { forall i :: 0 <= i < |nhs| ==> nhs[i].dev in env.links }

  lemma {:induction false} ForgedHops(env: Env, nhs: seq<ApiNextHop>)
    ensures var r := ForgeNextHops(env, nhs);
            if Linked(env, nhs) then r.Ok? && |r.value| == |nhs| && forall i :: 0 <= i < |nhs| ==>
                r.value[i] == ForgeHop(env, nhs[i])
            else r == Err(LinkNotFound)
  {
    if nhs != [] {
      ForgedHops(env, nhs[1..]);
      assert forall i :: 0 <= i < |nhs| - 1 ==> nhs[1..][i] == nhs[i + 1];
      if Linked(env, nhs[1..]) && nhs[0].dev in env.links {
        forall i | 0 <= i < |nhs|
          ensures nhs[i].dev in env.links
        {
          if i > 0 { assert nhs[1..][i - 1].dev in env.links; }
        }
      }
    }
  }

  /** A route can be forged exactly when its destination parses and all the devices it names exist. */
  lemma {:induction false} ForgeSucceedsIff(env: Env, r: ApiRoute, table: nat)
    ensures ForgeRoute(env, r, table).Ok? <==>
            (r.dst.Some? ==> env.parseCidr(r.dst.value).Some?) && (r.dev.Some? ==> r.dev.value in env.links) &&
                Linked(env, r.nextHops)
  {
    ForgedHops(env, r.nextHops);
  }

  /**
  What a wanted next hop asks for: its gateway, or the text of no address, the link of its device, its
  weight or zero.
  */
  predicate HopCarries(env: Env, h: ApiNextHop, n: NextHop) {
    && n.gw == (if env.parseIp(h.gw).Some? then env.parseIp(h.gw).value else "<nil>")
    && h.dev in env.links && n.link == env.links[h.dev]
    && n.hops == if h.weight.Some? then h.weight.value else 0
  }

  /** The hops are, in some order, one for each wanted hop. */
  ghost predicate HopsCarry(env: Env, wanted: seq<ApiNextHop>, hops: seq<NextHop>) {
    exists ns: seq<NextHop> ::
      multiset(ns) == multiset(hops) && |ns| == |wanted| && forall i :: 0 <= i < |ns| ==>
          HopCarries(env, wanted[i], ns[i])
  }

  /** What a wanted route asks for, field by field; with next hops it has neither gateway nor link of its own. */
  ghost predicate Asks(env: Env, r: ApiRoute, table: nat, f: NlRoute) {
    && f.table == table
    && (if r.dst.Some? then f.dst.Some? && f.dst == env.parseCidr(r.dst.value) else f.dst.None?)
    && (if r.src.Some? then f.src == env.parseIp(r.src.value) else f.src.None?)
    && (if r.gw.Some? && r.nextHops == [] then f.gw == env.parseIp(r.gw.value) else f.gw.None?)
    && (r.dev.Some? ==> r.dev.value in env.links)
    && (if r.dev.Some? && r.nextHops == [] then f.link == env.links[r.dev.value] else f.link == 0)
    && (f.flags == 4 || f.flags == 0) && (f.flags == 4 <==> r.onlink)
    && f.scope == r.scope && |f.multiPath| == |r.nextHops|
    && forall i :: 0 <= i < |r.nextHops| ==> HopCarries(env, r.nextHops[i], f.multiPath[i])
  }

  /** The route sent is the one and only one that carries all that is asked. */
  lemma {:induction false} ForgedIffAsked(env: Env, r: ApiRoute, table: nat, f: NlRoute)
    ensures ForgeRoute(env, r, table) == Ok(f) <==> Asks(env, r, table, f)
  {
    ForgedHops(env, r.nextHops);
    if Asks(env, r, table, f) {
      assert forall i :: 0 <= i < |r.nextHops| ==> r.nextHops[i].dev in env.links;
      var g := ForgeRoute(env, r, table).value;
      assert forall i :: 0 <= i < |f.multiPath| ==> f.multiPath[i] == g.multiPath[i];
      assert f.multiPath == g.multiPath;
    }
  }

  lemma {:induction false} HopsPermute(env: Env, a: seq<ApiNextHop>, b: seq<ApiNextHop>)
    requires multiset(a) == multiset(b)
    ensures var r, s := ForgeNextHops(env, a), ForgeNextHops(env, b);
            (r.Ok? <==> s.Ok?) && (r.Ok? ==> multiset(r.value) == multiset(s.value))
  {
    if a == [] {
      assert |b| == |multiset(b)| == 0;
    } else {
      var i := TakeOut(a, b);
      HopsPermute(env, a[1..], b[..i] + b[i + 1..]);
      HopsWithout(env, b, i);
      HopsWithout(env, a, 0);
      assert a[..0] + a[1..] == a[1..];
    }
  }

  lemma {:induction false} LinkedWithout(env: Env, b: seq<ApiNextHop>, i: nat)
    requires i < |b|
    ensures Linked(env, b) <==> Linked(env, b[..i] + b[i + 1..]) && b[i].dev in env.links
  {
    var rest := b[..i] + b[i + 1..];
    forall j | 0 <= j < |b| && j != i ensures b[j] in rest { assert b[j] == rest[if j < i then j else j - 1]; }
    assert forall j :: 0 <= j < |rest| ==> rest[j] in b;
  }

  lemma {:induction false} WithoutMultiset(v: seq<NextHop>, i: nat)
    requires i < |v|
    ensures multiset(v) == multiset(v[..i] + v[i + 1..]) + multiset{v[i]}
  {
    assert v == v[..i] + [v[i]] + v[i + 1..];
  }

  lemma {:induction false} HopsWithout(env: Env, b: seq<ApiNextHop>, i: nat)
    requires i < |b|
    ensures var r, s := ForgeNextHops(env, b), ForgeNextHops(env, b[..i] + b[i + 1..]);
            && (r.Ok? <==> s.Ok? && b[i].dev in env.links)
            && (r.Ok? ==> multiset(r.value) == multiset(s.value) + multiset{ForgeHop(env, b[i])})
  {
    ForgedHops(env, b);
    ForgedHops(env, b[..i] + b[i + 1..]);
    LinkedWithout(env, b, i);
    if Linked(env, b) {
      var v := ForgeNextHops(env, b).value;
      assert ForgeNextHops(env, b[..i] + b[i + 1..]).value == v[..i] + v[i + 1..];
      WithoutMultiset(v, i);
    }
  }

  /** The order in which next hops are wanted makes no difference to the comparison. */
  lemma {:induction false} ForgeIgnoresHopOrder(env: Env, r: ApiRoute, hops: seq<ApiNextHop>, table: nat)
    requires multiset(hops) == multiset(r.nextHops)
    ensures var f, g := ForgeRoute(env, r, table), ForgeRoute(env, r.(nextHops := hops), table);
            (f.Ok? <==> g.Ok?) && (f.Ok? ==>
                                   IsEqualRoute(f.value, g.value) && f.value.(multiPath := []) ==
                                       g.value.(multiPath := []))
  {
    HopsPermute(env, r.nextHops, hops);
    assert |hops| == |multiset(hops)| == |r.nextHops|;
  }

  predicate SameIfBoth(a: Option<string>, b: Option<string>) { a.Some? && b.Some? ==> a.value == b.value }

  /** What `IsEqualRoute` decides: a missing field on either side matches anything. */
  ghost predicate IsEqualRoute(a: NlRoute, b: NlRoute) {
    && SameIfBoth(a.dst, b.dst) && SameIfBoth(a.src, b.src) && SameIfBoth(a.gw, b.gw)
    && (a.link != 0 && b.link != 0 ==> a.link == b.link)
    && a.flags == b.flags
    && multiset(a.multiPath) == multiset(b.multiPath)
  }

  /** Every field that both ends of a chain of two comparisons have is also there in the middle. */
  ghost predicate Bridges(a: NlRoute, b: NlRoute, c: NlRoute) {
    && (b.dst.None? ==> SameIfBoth(a.dst, c.dst)) && (b.src.None? ==> SameIfBoth(a.src, c.src))
    && (b.gw.None? ==> SameIfBoth(a.gw, c.gw))
    && (b.link == 0 && a.link != 0 && c.link != 0 ==> a.link == c.link)
  }

  /**
  Route comparison is reflexive, symmetric and blind to the order of next hops; it chains through a
  middle route exactly when that route does not hide a difference behind a missing field.
  */
  lemma {:induction false} EqualRouteLaws(a: NlRoute, b: NlRoute, c: NlRoute, hops: seq<NextHop>)
    requires multiset(hops) == multiset(a.multiPath)
    ensures IsEqualRoute(a, a)
    ensures IsEqualRoute(a, b) <==> IsEqualRoute(b, a)
    ensures IsEqualRoute(a.(multiPath := hops), b) <==> IsEqualRoute(a, b)
    ensures IsEqualRoute(a, b) && IsEqualRoute(b, c) ==> (IsEqualRoute(a, c) <==> Bridges(a, b, c))
  {}

  lemma {:induction false} EqualRouteNotTransitive() returns (a: NlRoute, b: NlRoute, c: NlRoute)
    ensures IsEqualRoute(a, b) && IsEqualRoute(b, c) && !IsEqualRoute(a, c)
  {
    b := NlRoute(300, None, None, None, 0, 0, [], 0);
    a, c := b.(gw := Some("10.0.0.1")), b.(gw := Some("10.0.0.2"));
  }

  /** `IsContainedRoute`: the first route that cannot be forged ends the search. */
  ghost predicate IsContainedRoute(env: Env, e: NlRoute, routes: seq<ApiRoute>) {
    if routes == [] then false
    else match ForgeRoute(env, routes[0], e.table)
      case Err(_) => false
      case Ok(r) => IsEqualRoute(e, r) || IsContainedRoute(env, e, routes[1..])
  }

  ghost predicate ForgesEqual(env: Env, e: NlRoute, r: ApiRoute) {
    var f := ForgeRoute(env, r, e.table);
    f.Ok? && IsEqualRoute(e, f.value)
  }

  /** Contained means equal to some wanted route before which everything can be forged. */
  lemma {:induction false} ContainedExact(env: Env, e: NlRoute, routes: seq<ApiRoute>)
    ensures IsContainedRoute(env, e, routes) <==>
            exists i :: 0 <= i < |routes| && ForgesEqual(env, e, routes[i]) && forall j :: 0 <= j < i ==>
                ForgeRoute(env, routes[j], e.table).Ok?
  {
    if routes != [] {
      ContainedExact(env, e, routes[1..]);
      if ForgeRoute(env, routes[0], e.table).Ok? {
        if i :| 0 <= i < |routes| && ForgesEqual(env, e, routes[i]) && forall j :: 0 <= j < i ==>
            ForgeRoute(env, routes[j], e.table).Ok? {
          if i > 0 {
            assert routes[1..][i - 1] == routes[i];
            assert forall j :: 0 <= j < i - 1 ==> routes[1..][j] == routes[j + 1];
          }
        }
        if i :| 0 <= i < |routes[1..]| && ForgesEqual(env, e, routes[1..][i]) && forall j :: 0 <= j < i ==>
            ForgeRoute(env, routes[1..][j], e.table).Ok? {
          assert routes[i + 1] == routes[1..][i];
          assert forall j :: 0 < j < i + 1 ==> routes[j] == routes[1..][j - 1];
          assert forall j :: 0 <= j < i + 1 ==> ForgeRoute(env, routes[j], e.table).Ok?;
        }
      }
    }
  }

  // ----- rules

  /** `RuleIsEqual`: a wanted field the kernel rule lacks matches, one it has and is not wanted does not. */
  predicate RuleIsEqual(r: ApiRule, k: NlRule) {
    && SameIfBoth(r.src, k.src) && (r.src.None? ==> k.src.None?)
    && SameIfBoth(r.dst, k.dst) && (r.dst.None? ==> k.dst.None?)
    && (if r.iif.Some? then r.iif.value == k.iif else k.iif == "")
    && (if r.oif.Some? then r.oif.value == k.oif else k.oif == "")
    && (r.fwMark.Some? ==> 0 <= r.fwMark.value <= MAX_UINT32 && r.fwMark.value == k.mark)
    && (r.priority.Some? ==> r.priority.value == k.priority)
  }

  /** `AddRule` up to the netlink call; `given` is the priority the kernel picks when none is sent. */
  function ForgeRule(env: Env, r: ApiRule, table: nat, given: int): Result<NlRule, Error> {
    if r.src.Some? && env.parseCidr(r.src.value).None? then Err(BadCidr)
    else if r.dst.Some? && env.parseCidr(r.dst.value).None? then Err(BadCidr)
    else if r.fwMark.Some? && !(0 <= r.fwMark.value <= MAX_UINT32) then Err(FwMarkOutOfRange)
    else Ok(NlRule(table, Parsed(env.parseCidr, r.src), Parsed(env.parseCidr, r.dst),
                   if r.iif.Some? then r.iif.value else "", if r.oif.Some? then r.oif.value else "",
                   if r.fwMark.Some? then r.fwMark.value else 0,
                   if r.priority.Some? && r.priority.value > 0 then r.priority.value else given))
  }

  /** What a wanted rule asks for, field by field; a priority that is not positive is left to the kernel. */
  predicate RuleAsks(env: Env, r: ApiRule, table: nat, given: int, k: NlRule) {
    && k.table == table
    && (if r.src.Some? then k.src.Some? && k.src == env.parseCidr(r.src.value) else k.src.None?)
    && (if r.dst.Some? then k.dst.Some? && k.dst == env.parseCidr(r.dst.value) else k.dst.None?)
    && (if r.iif.Some? then k.iif == r.iif.value else k.iif == "")
    && (if r.oif.Some? then k.oif == r.oif.value else k.oif == "")
    && (if r.fwMark.Some? then 0 <= k.mark < 0x1_0000_0000 && Some(k.mark) == r.fwMark else k.mark == 0)
    && (if r.priority.Some? && r.priority.value >= 1 then Some(k.priority) == r.priority else k.priority == given)
  }

  /** The rule sent is the one and only one that carries all that is asked. */
  lemma {:induction false} RuleForgedIffAsked(env: Env, r: ApiRule, table: nat, given: int, k: NlRule)
    ensures ForgeRule(env, r, table, given) == Ok(k) <==> RuleAsks(env, r, table, given, k)
  {}

  predicate CanonicalText(env: Env, text: Option<string>) { text.Some? ==> env.parseCidr(text.value) == text }

  /** A rule that recognises itself once installed. */
  predicate Stable(env: Env, r: ApiRule, given: int) {
    && CanonicalText(env, r.src) && CanonicalText(env, r.dst)
    && (r.priority.Some? && r.priority.value <= 0 ==> r.priority.value == given)
  }

  /**
  An installed rule matches the rule it was installed for exactly when the wanted networks are written
  in canonical form and a wanted priority is positive or happens to be the one the kernel assigned:
  zero and negative priorities are compared but never sent.
  */
  lemma {:induction false} InstalledRuleMatches(env: Env, r: ApiRule, table: nat, given: int)
    requires ForgeRule(env, r, table, given).Ok?
    ensures RuleIsEqual(r, ForgeRule(env, r, table, given).value) <==> Stable(env, r, given)
  {}

  /**
  A kernel rule matches a wanted one exactly when it is what installing it gives, in all that was asked,
  or lacks a wanted network.
  */
  lemma {:induction false} RuleMatchExact(env: Env, r: ApiRule, k: NlRule, table: nat, given: int)
    requires CanonicalText(env, r.src) && CanonicalText(env, r.dst) && ForgeRule(env, r, table, given).Ok?
    ensures var f := ForgeRule(env, r, table, given).value;
            RuleIsEqual(r, k) <==>
            && (k.src == f.src || (r.src.Some? && k.src.None?)) && (k.dst == f.dst || (r.dst.Some? && k.dst.None?))
            && k.iif == f.iif && k.oif == f.oif && (r.fwMark.Some? ==> k.mark == f.mark)
            && (r.priority.Some? ==> Some(k.priority) == r.priority)
  {}

  predicate IsContainedRule(k: NlRule, rules: seq<ApiRule>) { exists i :: 0 <= i < |rules| && RuleIsEqual(rules[i], k) }
}
