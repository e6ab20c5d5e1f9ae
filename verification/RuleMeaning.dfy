// What the rules of routes and of DNS rule groups ask of a target, and what
// an outbound refuses, told without the matchers' terms.
module RuleMeaning {
  import opened Bytes
  import opened Names
  import opened RuleScan
  import D = DnsRules
  import G = Geosite
  import GM = GeositeMeaning
  import R = Routes

  // ---- Which outbounds refuse a request ----

  lemma EveryOutbound(bs: seq<R.Block>, command: R.Command, port: nat)
    ensures (forall i :: 0 <= i < |bs| ==> R.Blocked(bs[i], command, port))
            <==> forall b :: b in bs ==> R.Blocked(b, command, port)
  {
    hide R.Blocked;
  }

  lemma BlockedMeans(b: R.Block, port: nat)
    ensures R.Blocked(b, R.Connect, port) <==> b == R.BlockAll
    ensures port != 443 ==> (R.Blocked(b, R.Associate, port) <==> b == R.BlockAll || b == R.BlockUdp)
    ensures port == 443 ==> (R.Blocked(b, R.Associate, port) <==> b != R.Open)
  {
    match b {
      case Open =>
      case BlockAll =>
      case BlockUdp =>
      case BlockH3 =>
    }
  }

  // A connection is refused only where everything is blocked.
  lemma ConnectRefused(routes: seq<R.Route>, target: R.Target, r: nat, o: Option<R.Outbound>)
    requires R.FirstRoute(R.Groups(routes), target) == Some(r) && R.Allowed(routes, R.Connect, target, o)
    ensures r < |routes|
    ensures o.None? <==> forall b :: b in routes[r].outbounds ==> b == R.BlockAll
    ensures o.Some? ==> && o.value.route == r && o.value.place < |routes[r].outbounds|
                        && routes[r].outbounds[o.value.place] != R.BlockAll
  {
    hide R.FirstRoute;
    var bs := routes[r].outbounds;
    EveryOutbound(bs, R.Connect, target.port);
    forall b: R.Block {
      BlockedMeans(b, target.port);
    }
    hide R.Blocked;
  }

  // Datagrams are refused where UDP is blocked too, and where HTTP/3 is if
  // they are for its port.
  lemma AssociateRefused(routes: seq<R.Route>, target: R.Target, r: nat, o: Option<R.Outbound>)
    requires R.FirstRoute(R.Groups(routes), target) == Some(r) && R.Allowed(routes, R.Associate, target, o)
    ensures r < |routes|
    ensures target.port != 443 ==>
              (o.None? <==> forall b :: b in routes[r].outbounds ==> b == R.BlockAll || b == R.BlockUdp)
    ensures target.port == 443 ==> (o.None? <==> R.Open !in routes[r].outbounds)
    ensures o.Some? ==> && o.value.route == r && o.value.place < |routes[r].outbounds|
                        && var b := routes[r].outbounds[o.value.place];
                           b == R.Open || (b == R.BlockH3 && target.port != 443)
  {
    hide R.FirstRoute;
    var bs := routes[r].outbounds;
    EveryOutbound(bs, R.Associate, target.port);
    forall b: R.Block {
      BlockedMeans(b, target.port);
    }
    hide R.Blocked;
  }

  // What is refused to a connection is refused to datagrams.
  lemma RefusedToBoth(routes: seq<R.Route>, target: R.Target, o: Option<R.Outbound>, o': Option<R.Outbound>)
    requires R.Allowed(routes, R.Connect, target, o) && R.Allowed(routes, R.Associate, target, o')
    ensures o.None? ==> o'.None?
  {
    hide R.FirstRoute;
    if R.FirstRoute(R.Groups(routes), target).Some? {
      var r := R.FirstRoute(R.Groups(routes), target).value;
      ConnectRefused(routes, target, r, o);
      AssociateRefused(routes, target, r, o');
    }
  }

  // ---- Which targets a route takes ----

  // The rule as a route of its own.
  ghost predicate Takes(c: Cond<R.Test>, target: R.Target) {
    R.FirstRoute([[c]], target).Some?
  }

  lemma TakesIsHit(c: Cond<R.Test>, target: R.Target)
    ensures Takes(c, target) <==> CondHit(c, t => R.Holds(t, target), R.NameOf(target))
  {
    var g := [c];
    assert [g][0] == g && g[0] == c;
  }

  // The first route one of whose rules takes the target.
  lemma FirstTakes(gs: seq<seq<Cond<R.Test>>>, target: R.Target)
    ensures var r := R.FirstRoute(gs, target);
            && (r.Some? ==> r.value < |gs| && exists c :: c in gs[r.value] && Takes(c, target))
            && forall k, c :: 0 <= k < (if r.Some? then r.value else |gs|) && c in gs[k] ==> !Takes(c, target)
  {
    hide Takes;
    forall c: Cond<R.Test>
      ensures Takes(c, target) <==> CondHit(c, t => R.Holds(t, target), R.NameOf(target))
    {
      TakesIsHit(c, target);
    }
    hide CondHit;
    var holds, r := (t: R.Test) => R.Holds(t, target), R.FirstRoute(gs, target);
    forall k, c | 0 <= k < (if r.Some? then r.value else |gs|) && c in gs[k]
      ensures !Takes(c, target)
    {
      var j :| 0 <= j < |gs[k]| && gs[k][j] == c;
      assert !GroupHit(gs[k], holds, R.NameOf(target));
    }
    if r.Some? {
      assert GroupHit(gs[r.value], holds, R.NameOf(target));
      var j :| 0 <= j < |gs[r.value]| && CondHit(gs[r.value][j], holds, R.NameOf(target));
      assert gs[r.value][j] in gs[r.value];
    }
  }

  // What each kind of rule asks: a port in the range, an address whose first
  // bits are the network's, a name the geosite entry matches.
  lemma RulesMean(t: R.Test, target: R.Target)
    ensures Takes(Other(t), target) == match t
              case All => true
              case Geosite(rules, regex, attr, attrNot) =>
                target.kind == R.DomainName && G.Matches(rules, regex, attr, attrNot, target.host)
              case Geoip(accepts) => target.kind != R.DomainName && accepts(target.host)
              case Cidr(net, prefix) =>
                && target.kind != R.DomainName && |net| == |target.host| && prefix <= 8 * |net|
                && R.SameBits(target.host, net, 0, prefix)
              case Ports(first, last) => first <= target.port && target.port <= last
  {
    hide R.SameBits, G.Matches;
    TakesIsHit(Other(t), target);
    match t {
      case Cidr(net, prefix) => if prefix <= 8 * |net| { R.CidrIsPrefix(net, prefix, target.host); }
      case _ =>
    }
  }

  // A domain rule takes the domain and all names under it, in any letter
  // case, with one trailing dot or without.
  lemma DomainRuleMeans(v: Text, name: Text, port: nat)
    requires name != []
    ensures name[|name| - 1] != DOT ==>
              (Takes(Domain(v), R.Target(R.DomainName, name, port))
               <==> Lower(name) == v || IsSuffix([DOT] + v, Lower(name)))
    ensures Takes(Domain(v), R.Target(R.DomainName, name + [DOT], port))
            <==> Lower(name) == v || IsSuffix([DOT] + v, Lower(name))
  {
    hide MatchDomain, Takes, IsSuffix;
    GM.DomainMeans(name, v);
    TakesIsHit(Domain(v), R.Target(R.DomainName, name, port));
    TakesIsHit(Domain(v), R.Target(R.DomainName, name + [DOT], port));
    assert (name + [DOT])[..|name|] == name;
  }

  // A name that is one dot keeps it, and an address is no name.
  lemma DomainRuleLimits(v: Text, host: Text, port: nat)
    ensures Takes(Domain(v), R.Target(R.DomainName, [DOT], port)) <==> v == [DOT] || v == []
    ensures !Takes(Domain(v), R.Target(R.Ipv4, host, port)) && !Takes(Domain(v), R.Target(R.Ipv6, host, port))
  {
    hide MatchDomain, Takes, IsSuffix;
    GM.DomainMeans([DOT], v);
    OneDot(v);
    TakesIsHit(Domain(v), R.Target(R.DomainName, [DOT], port));
    TakesIsHit(Domain(v), R.Target(R.Ipv4, host, port));
    TakesIsHit(Domain(v), R.Target(R.Ipv6, host, port));
  }

  lemma OneDot(v: Text)
    ensures Lower([DOT]) == v || IsSuffix([DOT] + v, Lower([DOT])) <==> v == [DOT] || v == []
  {
    assert Lower([DOT]) == [DOT];
    if v == [] {
      assert [DOT] + v == [DOT];
    }
  }

  // ---- Which names a DNS rule group takes ----

  ghost predicate GroupTakes(c: Cond<D.Test>, host: Text) {
    D.FirstGroup([[c]], D.Stripped(host)).Some?
  }

  lemma GroupTakesIsHit(c: Cond<D.Test>, host: Text)
    ensures GroupTakes(c, host) <==> CondHit(c, t => D.Holds(t, D.Stripped(host)), Some(D.Stripped(host)))
  {
    var g := [c];
    assert [g][0] == g && g[0] == c;
  }

  // One trailing dot does not count, and no more than one.
  lemma DnsRulesMean(c: Cond<D.Test>, name: Text, dots: nat)
    requires name != [] && dots <= 1 && (name[|name| - 1] == DOT ==> dots == 1)
    ensures GroupTakes(c, name + [DOT][..dots]) == match c
              case Domain(v) => Lower(name) == v || IsSuffix([DOT] + v, Lower(name))
              case Other(Geosite(rules, regex, attr, attrNot)) => G.Matches(rules, regex, attr, attrNot, name)
              case Other(Regexp(accepts)) => accepts(name)
  {
    hide MatchDomain, G.Matches, IsSuffix, GroupTakes;
    GM.DomainMeans(name, match c case Domain(v) => v case Other(_) => []);
    assert (name + [DOT])[..|name|] == name;
    assert name + [DOT][..dots] == if dots == 0 then name else name + [DOT];
    GroupTakesIsHit(c, name + [DOT][..dots]);
  }

  lemma DotStays(c: Cond<D.Test>)
    ensures GroupTakes(c, [DOT]) == match c
              case Domain(v) => v == [DOT] || v == []
              case Other(Geosite(rules, regex, attr, attrNot)) => G.Matches(rules, regex, attr, attrNot, [DOT])
              case Other(Regexp(accepts)) => accepts([DOT])
  {
    hide MatchDomain, G.Matches, IsSuffix, GroupTakes;
    if c.Domain? {
      GM.DomainMeans([DOT], c.value);
      OneDot(c.value);
    }
    GroupTakesIsHit(c, [DOT]);
  }
}
