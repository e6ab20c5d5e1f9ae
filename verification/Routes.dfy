// Route mode of select_outbound: session memo, shared cache, indexed scan, and
// the draw among the outbounds of the route found.
module Routes {
  import opened Bytes
  import opened Names
  import opened RuleScan
  import G = Geosite
  import PI = ProbeIndex
  import SC = SetCache

  const MAX_KEY: nat := 255
  const QUIC_PORT: nat := 443

  datatype AddrKind = Ipv4 | DomainName | Ipv6

  datatype Target = Target(kind: AddrKind, host: Text, port: nat)

  datatype Test =
    | All
    | Geosite(rules: seq<G.Rule>, regex: (nat, Text) -> bool, attr: Text, attrNot: bool)
    | Geoip(accepts: Text -> bool)
    | Cidr(addr: Text, prefix: nat)
    | Ports(first: nat, last: nat)

  datatype Command = Connect | Associate

  datatype Block = Open | BlockAll | BlockUdp | BlockH3

  datatype Route = Route(rules: seq<Cond<Test>>, outbounds: seq<Block>)

  // An outbound is a position in the outbound array of one route.
  datatype Outbound = Outbound(route: nat, place: nat)

  // ---- CIDR ----

  const UNITS: seq<nat> := [128, 64, 32, 16, 8, 4, 2, 1]

  // Whole octets, then the rest highest bits that 0xff << (8 - rest) keeps.
  predicate CidrMatch(cidr: Text, prefix: nat, addr: Text)
    requires prefix <= 8 * |cidr|
  {
    && |cidr| == |addr|
    && var full, rest := prefix / 8, prefix % 8;
       && addr[..full] == cidr[..full]
       && (rest == 0 || addr[full] / UNITS[rest - 1] == cidr[full] / UNITS[rest - 1])
  }

  // Bit i of an address, highest first.
  function Bit(a: Text, i: nat): nat
    requires i < 8 * |a|
  {
    a[i / 8] / UNITS[i % 8] % 2
  }

  function OctetBit(x: byte, i: nat): nat
    requires i < 8
  {
    x / UNITS[i] % 2
  }

  // One more bit of the quotient.
  lemma NextUnit(x: byte, r: nat)
    requires 1 <= r <= 8
    ensures x / UNITS[r - 1] == if r == 1 then OctetBit(x, 0) else 2 * (x / UNITS[r - 2]) + OctetBit(x, r - 1)
  {
    assert r == 1 || r == 2 || r == 3 || r == 4 || r == 5 || r == 6 || r == 7 || r == 8;
  }

  lemma {:induction false} HighBits(x: byte, y: byte, r: nat)
    requires 1 <= r <= 8
    ensures x / UNITS[r - 1] == y / UNITS[r - 1] <==>
              forall i :: 0 <= i < r ==> OctetBit(x, i) == OctetBit(y, i)
    decreases r
  {
    NextUnit(x, r);
    NextUnit(y, r);
    if r > 1 {
      HighBits(x, y, r - 1);
      BitIsBinary(x, r - 1);
      BitIsBinary(y, r - 1);
    }
  }

  lemma BitIsBinary(x: byte, i: nat)
    requires i < 8
    ensures OctetBit(x, i) < 2
  {
  }

  ghost predicate SameBits(a: Text, b: Text, from: nat, to: nat)
    requires from <= to <= 8 * |a| && |a| == |b|
  {
    forall i :: from <= i < to ==> Bit(a, i) == Bit(b, i)
  }

  lemma BitOfOctet(a: Text, i: nat, k: nat)
    requires 8 * k <= i < 8 * k + 8 && k < |a|
    ensures Bit(a, i) == OctetBit(a[k], i - 8 * k)
  {
    assert i / 8 == k && i % 8 == i - 8 * k;
  }

  // The first r bits of octet k.
  lemma OctetBits(a: Text, b: Text, k: nat, r: nat)
    requires k < |a| == |b| && 1 <= r <= 8
    ensures a[k] / UNITS[r - 1] == b[k] / UNITS[r - 1] <==> SameBits(a, b, 8 * k, 8 * k + r)
  {
    HighBits(a[k], b[k], r);
    hide OctetBit, Bit;
    forall i | 8 * k <= i < 8 * k + r
      ensures Bit(a, i) == OctetBit(a[k], i - 8 * k) && Bit(b, i) == OctetBit(b[k], i - 8 * k)
    {
      BitOfOctet(a, i, k);
      BitOfOctet(b, i, k);
    }
    if SameBits(a, b, 8 * k, 8 * k + r) {
      forall i | 0 <= i < r
        ensures OctetBit(a[k], i) == OctetBit(b[k], i)
      {
        assert Bit(a, 8 * k + i) == Bit(b, 8 * k + i);
      }
    }
  }

  lemma {:induction false} OctetsBits(a: Text, b: Text, n: nat)
    requires n <= |a| == |b|
    ensures a[..n] == b[..n] <==> SameBits(a, b, 0, 8 * n)
    decreases n
  {
    if n > 0 {
      OctetsBits(a, b, n - 1);
      OctetBits(a, b, n - 1, 8);
      hide Bit;
      assert a[..n] == a[..n - 1] + [a[n - 1]] && b[..n] == b[..n - 1] + [b[n - 1]];
    }
  }

  // An address matches exactly when its first prefix bits are the network's.
  lemma CidrIsPrefix(cidr: Text, prefix: nat, addr: Text)
    requires prefix <= 8 * |cidr|
    ensures CidrMatch(cidr, prefix, addr) <==> |cidr| == |addr| && SameBits(addr, cidr, 0, prefix)
  {
    if |cidr| == |addr| {
      var full, rest := prefix / 8, prefix % 8;
      OctetsBits(addr, cidr, full);
      if rest > 0 {
        OctetBits(addr, cidr, full, rest);
      }
      hide Bit;
    }
  }

  // ---- One rule, one target ----

  ghost predicate Holds(t: Test, target: Target) {
    match t
    case All => true
    case Geosite(rules, regex, attr, attrNot) =>
      target.kind == DomainName && G.Matches(rules, regex, attr, attrNot, target.host)
    case Geoip(accepts) => target.kind != DomainName && accepts(target.host)
    case Cidr(addr, prefix) =>
      target.kind != DomainName && prefix <= 8 * |addr| && CidrMatch(addr, prefix, target.host)
    case Ports(first, last) => first <= target.port <= last
  }

  // The name a domain rule sees: one trailing dot does not count.
  function NameOf(target: Target): Option<Text> {
    if target.kind != DomainName then None
    else
      var h := target.host;
      Some(if |h| > 1 && h[|h| - 1] == DOT then h[..|h| - 1] else h)
  }

  function Folded(target: Target): Target {
    if target.kind == DomainName then target.(host := Lower(target.host)) else target
  }

  // route_target_equal.
  predicate SameTarget(a: Target, b: Target) {
    && a.kind == b.kind && a.port == b.port && |a.host| == |b.host|
    && if a.kind == DomainName then forall i :: 0 <= i < |a.host| ==> Lc(a.host[i]) == Lc(b.host[i])
       else a.host == b.host
  }

  lemma SameIsFolded(a: Target, b: Target)
    ensures SameTarget(a, b) <==> Folded(a) == Folded(b)
  {
    if Folded(a) == Folded(b) && a.kind == DomainName {
      forall i | 0 <= i < |a.host|
        ensures Lc(a.host[i]) == Lc(b.host[i])
      {
        assert Folded(a).host[i] == Folded(b).host[i];
      }
    }
  }

  function Groups(routes: seq<Route>): (gs: seq<seq<Cond<Test>>>)
    ensures |gs| == |routes| && forall i :: 0 <= i < |gs| ==> gs[i] == routes[i].rules
  {
    seq(|routes|, i requires 0 <= i < |routes| => routes[i].rules)
  }

  // The first route with any matching rule, rule by rule.
  ghost function FirstRoute(gs: seq<seq<Cond<Test>>>, target: Target): Option<nat> {
    First(gs, t => Holds(t, target), NameOf(target), 0)
  }

  lemma FoldedSame(gs: seq<seq<Cond<Test>>>, target: Target)
    requires |target.host| <= MAX_KEY
    ensures FirstRoute(gs, target) == FirstRoute(gs, Folded(target))
  {
    if target.kind == DomainName {
      var key := Folded(target);
      var name, low := NameOf(target).value, NameOf(key).value;
      assert key.host[..|name|] == Lower(target.host)[..|name|] == Lower(name);
      var holds, holds' := (t: Test) => Holds(t, target), (t: Test) => Holds(t, key);
      forall i, j | 0 <= i < |gs| && 0 <= j < |gs[i]|
        ensures CondHit(gs[i][j], holds, Some(name)) == CondHit(gs[i][j], holds', Some(low))
      {
        match gs[i][j] {
          case Domain(v) => MatchDomainFolded(name, v);
          case Other(Geosite(rules, regex, attr, attrNot)) =>
            G.MatchesFolded(rules, regex, attr, attrNot, target.host);
          case Other(_) =>
        }
      }
      FirstAgrees(gs, holds, Some(name), holds', Some(low), 0);
      assert FirstRoute(gs, target) == First(gs, holds, Some(name), 0);
      assert FirstRoute(gs, key) == First(gs, holds', Some(low), 0);
    }
  }

  // ---- Which outbound of the route ----

  // outbound_request_blocked.
  predicate Blocked(b: Block, command: Command, port: nat) {
    match b
    case Open => false
    case BlockAll => true
    case BlockUdp => command == Associate
    case BlockH3 => command == Associate && port == QUIC_PORT
  }

  ghost function OpenBefore(bs: seq<Block>, command: Command, port: nat, n: nat): nat
    requires n <= |bs|
  {
    if n == 0 then 0
    else OpenBefore(bs, command, port, n - 1) + if Blocked(bs[n - 1], command, port) then 0 else 1
  }

  lemma {:induction false} OpenGrows(bs: seq<Block>, command: Command, port: nat, m: nat, n: nat)
    requires m <= n <= |bs|
    ensures OpenBefore(bs, command, port, m) <= OpenBefore(bs, command, port, n)
    ensures OpenBefore(bs, command, port, n) == OpenBefore(bs, command, port, m)
            <==> forall i :: m <= i < n ==> Blocked(bs[i], command, port)
    decreases n
  {
    if m < n {
      OpenGrows(bs, command, port, m, n - 1);
    }
  }

  // Every place that can be drawn: an unblocked outbound of the route.
  predicate Usable(bs: seq<Block>, command: Command, port: nat, i: nat) {
    i < |bs| && !Blocked(bs[i], command, port)
  }

  // select_route_outbound: the current outbound if it may stay, else the draw.
  method PickOutbound(r: nat, bs: seq<Block>, current: Option<Outbound>, command: Command, port: nat, random: nat)
    returns (o: Option<Outbound>)
    ensures o.None? <==> forall i :: 0 <= i < |bs| ==> Blocked(bs[i], command, port)
    ensures o.Some? ==> o.value.route == r && Usable(bs, command, port, o.value.place)
    ensures current.Some? && current.value.route == r && Usable(bs, command, port, current.value.place) ==> o == current
    ensures o.Some? && o != current ==>
              var n := OpenBefore(bs, command, port, |bs|);
              n > 0 && OpenBefore(bs, command, port, o.value.place) == random % n
  {
    if current.Some? {
      var i := 0;
      while i < |bs|
        invariant 0 <= i <= |bs|
        invariant current.value.route == r && current.value.place < i ==> Blocked(bs[current.value.place], command, port)
      {
        if current.value == Outbound(r, i) && !Blocked(bs[i], command, port) {
          return current;
        }
        i := i + 1;
      }
    }
    var n: nat, i: nat := 0, 0;
    while i < |bs|
      invariant i <= |bs| && n == OpenBefore(bs, command, port, i)
    {
      if !Blocked(bs[i], command, port) {
        n := n + 1;
      }
      i := i + 1;
    }
    OpenGrows(bs, command, port, 0, |bs|);
    if n == 0 {
      return None;
    }
    var selected := if n == 1 then 0 else random % n;
    var left: nat := selected;
    i := 0;
    while i < |bs|
      invariant i <= |bs| && left + OpenBefore(bs, command, port, i) == selected
    {
      if !Blocked(bs[i], command, port) {
        if left == 0 {
          return Some(Outbound(r, i));
        }
        left := left - 1;
      }
      i := i + 1;
    }
    assert false;
  }

  // ---- The shared configuration and one session ----

  // What select_outbound may answer: nothing exactly when no route matches or
  // the first matching one is wholly blocked, else an open outbound of it.
  ghost predicate Allowed(routes: seq<Route>, command: Command, target: Target, o: Option<Outbound>) {
    match FirstRoute(Groups(routes), target)
    case None => o.None?
    case Some(r) =>
      && r < |routes|
      && (o.None? <==> forall i :: 0 <= i < |routes[r].outbounds| ==>
            Blocked(routes[r].outbounds[i], command, target.port))
      && (o.Some? ==> o.value.route == r && Usable(routes[r].outbounds, command, target.port, o.value.place))
  }

  class Config {
    const routes: seq<Route>
    const answer: (Test, Target) -> bool
    const hash: Text -> nat
    const slots: seq<PI.Slot>
    const others: seq<seq<Test>>
    const cache: SC.Cache<Target, Option<nat>>
    ghost const view: PI.View

    ghost predicate CacheTrue(uses: seq<seq<(Target, Option<nat>)>>) {
      forall s, u :: 0 <= s < |uses| && u in uses[s] ==> u.1 == FirstRoute(Groups(routes), u.0)
    }

    // answer stands for the geosite, geoip and address tests.
    ghost predicate Prepared() {
      && RuleScan.Ready(slots, hash, view, Groups(routes), others)
      && forall t, h :: answer(t, h) == Holds(t, h)
    }

    ghost predicate Ready()
      reads cache, cache.ways
    {
      Prepared() && cache.Valid() && CacheTrue(cache.uses)
    }

    constructor (routes: seq<Route>, answer: (Test, Target) -> bool, hash: Text -> nat,
                 targetHash: Target -> nat, pick: nat -> nat, sets: nat, blank: Target)
      requires Parsed(Groups(routes)) && sets > 0
      requires forall i :: 0 <= i < |routes| ==> routes[i].outbounds != []
      requires forall t, h :: answer(t, h) == Holds(t, h)
      ensures Ready() && this.routes == routes
      ensures fresh(cache) && fresh(cache.ways)
    {
      var ss, v, os := BuildIndex(Groups(routes), hash);
      slots, view, others := ss, v, os;
      this.routes := routes;
      this.answer := answer;
      this.hash := hash;
      cache := new SC.Cache(sets, targetHash, pick, SC.Way(false, 0, 0, blank, None));
    }

    lemma CacheAnswers(uses: seq<seq<(Target, Option<nat>)>>, s: nat, key: Target, v: Option<nat>)
      requires CacheTrue(uses) && s < |uses|
      requires SC.Current(SC.Cap(SC.Recents(uses[s])), key) == Some(v)
      ensures v == FirstRoute(Groups(routes), key)
    {
      SC.CurrentWasUsed(uses[s], key, v);
    }

    lemma CacheGrows(uses: seq<seq<(Target, Option<nat>)>>, s: nat, key: Target, v: Option<nat>)
      requires CacheTrue(uses) && s < |uses|
      requires v == FirstRoute(Groups(routes), key)
      ensures CacheTrue(uses[s := uses[s] + [(key, v)]])
    {
      hide FirstRoute;
    }

    // The uncached selection.
    method Choose(target: Target) returns (r: Option<nat>)
      requires Prepared() && |target.host| <= MAX_KEY
      ensures r == FirstRoute(Groups(routes), target)
    {
      hide RuleScan.Ready;
      ghost var gs := Groups(routes);
      var holds := (t: Test) requires true => answer(t, target);
      r := Select(Groups(routes), slots, hash, view, others, holds, NameOf(target),
                  target.kind == DomainName && slots != []);
      ghost var naive := (t: Test) => Holds(t, target);
      FirstAgrees(gs, holds, NameOf(target), naive, NameOf(target), 0);
      assert FirstRoute(gs, target) == First(gs, naive, NameOf(target), 0);
    }

    // The route for a target: shared cache first.
    method FindRoute(target: Target) returns (r: Option<nat>)
      requires Ready() && |target.host| <= MAX_KEY
      modifies cache`generation, cache`uses, cache`ranks, cache.ways
      ensures Ready()
      ensures r == FirstRoute(Groups(routes), target)
    {
      hide CacheTrue, FirstRoute, SC.Current, SC.Recents, SC.Cap;
      var key := Folded(target);
      FoldedSame(Groups(routes), target);
      ghost var s, before := cache.SetOf(key), cache.uses;
      var cached := cache.Lookup(key);
      if cached.Some? {
        CacheAnswers(before, s, key, cached.value);
        CacheGrows(before, s, key, cached.value);
        return cached.value;
      }
      r := Choose(target);
      CacheGrows(cache.uses, s, key, r);
      cache.Store(key, r);
    }
  }

  datatype Memo = Memo(command: Command, target: Target, outbound: Option<Outbound>)

  class Session {
    const conf: Config
    var outbound: Option<Outbound>
    var memo: Option<Memo>

    ghost predicate MemoTrue()
      reads this
    {
      memo.Some? ==>
        && |memo.value.target.host| <= MAX_KEY
        && Allowed(conf.routes, memo.value.command, memo.value.target, memo.value.outbound)
    }

    ghost predicate Ready()
      reads this, conf.cache, conf.cache.ways
    {
      conf.Ready() && MemoTrue()
    }

    constructor (conf: Config)
      requires conf.Ready()
      ensures Ready() && this.conf == conf && memo == None
    {
      this.conf := conf;
      outbound := None;
      memo := None;
    }

    lemma MemoHit(command: Command, a: Target, b: Target, o: Option<Outbound>)
      requires Allowed(conf.routes, command, a, o) && SameTarget(a, b) && |a.host| <= MAX_KEY
      ensures Allowed(conf.routes, command, b, o)
    {
      SameIsFolded(a, b);
      FoldedSame(Groups(conf.routes), a);
      FoldedSame(Groups(conf.routes), b);
    }

    // select_outbound in route mode, for any history and any draw.
    method SelectOutbound(target: Target, command: Command, random: nat) returns (o: Option<Outbound>)
      requires Ready() && |target.host| <= MAX_KEY
      modifies this`memo, conf.cache`generation, conf.cache`uses, conf.cache`ranks, conf.cache.ways
      ensures Ready()
      ensures Allowed(conf.routes, command, target, o)
    {
      hide FirstRoute, SC.AllHold, RuleScan.Ready;
      if memo.Some? && memo.value.command == command && SameTarget(memo.value.target, target) {
        MemoHit(command, memo.value.target, target, memo.value.outbound);
        return memo.value.outbound;
      }
      RouteInRange(conf.routes, target);
      if conf.routes == [] {
        return None;
      }
      var found := conf.FindRoute(target);
      if found.None? {
        o := None;
      } else {
        o := PickOutbound(found.value, conf.routes[found.value].outbounds, outbound, command, target.port, random);
      }
      FoldAgain(target);
      MemoHit(command, target, Folded(target), o);
      memo := Some(Memo(command, Folded(target), o));
    }
  }

  lemma RouteInRange(routes: seq<Route>, target: Target)
    ensures FirstRoute(Groups(routes), target).Some? ==> FirstRoute(Groups(routes), target).value < |routes|
  {
  }

  lemma FoldAgain(target: Target)
    ensures Folded(Folded(target)) == Folded(target) && SameTarget(target, Folded(target))
  {
    LowerIdempotent(target.host);
    SameIsFolded(target, Folded(target));
  }
}
