// What the rules of a geosite entry mean, told without the matcher's terms:
// which rules an attribute filter leaves, and what each kind of rule asks.
module GeositeMeaning {
  import opened Bytes
  import opened Names
  import opened Geosite

  // One rule as an entry of its own.
  ghost predicate Alone(rules: seq<Rule>, regex: (nat, Text) -> bool, o: nat, host: Text)
    requires o < |rules|
  {
    Matches([rules[o]], (_, name) => regex(o, name), [], false, host)
  }

  lemma AloneIsHit(rules: seq<Rule>, regex: (nat, Text) -> bool, o: nat, host: Text)
    requires o < |rules|
    ensures Alone(rules, regex, o, host) <==> host != [] && Hit(rules, regex, o, host)
  {
    var one, f := [rules[o]], (_, name) => regex(o, name);
    assert Hit(one, f, 0, host) == Hit(rules, regex, o, host);
    assert AttrMatch(one[0], [], false);
  }

  // A filter leaves the rules that carry the attribute, a negated one those
  // that do not, and no filter leaves them all.
  lemma FilterKeeps(rules: seq<Rule>, regex: (nat, Text) -> bool, attr: Text, attrNot: bool, host: Text)
    ensures Matches(rules, regex, attr, attrNot, host) <==>
              exists o :: 0 <= o < |rules| && Alone(rules, regex, o, host)
                          && (attr != [] ==> if attrNot then attr !in rules[o].attrs else attr in rules[o].attrs)
  {
    hide Hit;
    forall o | 0 <= o < |rules|
      ensures Alone(rules, regex, o, host) <==> host != [] && Hit(rules, regex, o, host)
    {
      AloneIsHit(rules, regex, o, host);
    }
    hide Alone;
  }

  // An attribute no rule carries: nothing is left of the entry, or all of it.
  lemma NobodyCarries(rules: seq<Rule>, regex: (nat, Text) -> bool, attr: Text, host: Text)
    requires attr != [] && forall o :: 0 <= o < |rules| ==> attr !in rules[o].attrs
    ensures !Matches(rules, regex, attr, false, host)
    ensures Matches(rules, regex, attr, true, host) == Matches(rules, regex, [], false, host)
  {
    hide Matches, Alone;
    FilterKeeps(rules, regex, attr, false, host);
    FilterKeeps(rules, regex, attr, true, host);
    FilterKeeps(rules, regex, [], false, host);
  }

  // An attribute every rule carries: the other way round.
  lemma EverybodyCarries(rules: seq<Rule>, regex: (nat, Text) -> bool, attr: Text, host: Text)
    requires attr != [] && forall o :: 0 <= o < |rules| ==> attr in rules[o].attrs
    ensures !Matches(rules, regex, attr, true, host)
    ensures Matches(rules, regex, attr, false, host) == Matches(rules, regex, [], false, host)
  {
    hide Matches, Alone;
    FilterKeeps(rules, regex, attr, false, host);
    FilterKeeps(rules, regex, attr, true, host);
    FilterKeeps(rules, regex, [], false, host);
  }

  // A filter and its negation share the entry between them.
  lemma FiltersShare(rules: seq<Rule>, regex: (nat, Text) -> bool, attr: Text, host: Text)
    requires attr != []
    ensures Matches(rules, regex, [], false, host)
         == (Matches(rules, regex, attr, false, host) || Matches(rules, regex, attr, true, host))
  {
    hide Matches, Alone;
    FilterKeeps(rules, regex, attr, false, host);
    FilterKeeps(rules, regex, attr, true, host);
    FilterKeeps(rules, regex, [], false, host);
  }

  // What one rule asks of a name, letter case aside: to contain the keyword,
  // to be the domain or to end with a dot and the domain, to be the full name,
  // or what the regex says of the folded name if that is no longer than 256.
  lemma KindsMean(rules: seq<Rule>, regex: (nat, Text) -> bool, o: nat, host: Text)
    requires o < |rules|
    ensures var v, name := rules[o].value, Lower(host);
            Alone(rules, regex, o, host) == (host != [] && match rules[o].kind
              case Plain => v != [] && Occurs(v, name)
              case Domain => name == v || IsSuffix([DOT] + v, name)
              case Full => name == v
              case Regex => regex(o, if |host| > 256 then host else name))
  {
    AloneIsHit(rules, regex, o, host);
    var v, name := rules[o].value, Lower(host);
    LowerIdempotent(host);
    match rules[o].kind {
      case Plain => PlainMeans(host, v);
      case Domain => if host != [] { DomainMeans(host, v); }
      case Full =>
      case Regex =>
    }
  }

  lemma PlainMeans(host: Text, v: Text)
    ensures MatchPlain(host, v) <==> v != [] && Occurs(v, Lower(host))
  {
    LowerIdempotent(host);
    if v != [] {
      PlainIsOccurs(Lower(host), v);
      forall i | 0 <= i <= |host| - |v|
        ensures At(host, v, i) == At(Lower(host), v, i)
      {
        assert Lower(Lower(host)[i..i + |v|]) == Lower(host[i..i + |v|]);
      }
    }
  }

  lemma DomainMeans(host: Text, v: Text)
    requires host != []
    ensures MatchDomain(host, v) <==> Lower(host) == v || IsSuffix([DOT] + v, Lower(host))
  {
    var name := Lower(host);
    if |v| <= |host| {
      var at := |host| - |v|;
      assert name[at..] == Lower(host[at..]);
      if at == 0 {
        assert name[at..] == name;
      } else {
        assert name[at - 1..] == [name[at - 1]] + name[at..];
        assert name[at - 1] == DOT <==> host[at - 1] == DOT;
        if IsSuffix([DOT] + v, name) {
          assert ([DOT] + v)[0] == DOT && ([DOT] + v)[1..] == v;
        }
      }
    }
  }
}
