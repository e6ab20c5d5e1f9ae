// trojan_dns_rules: which rule group resolves a host.
module DnsRules {
  import opened Bytes
  import opened Names
  import opened RuleScan
  import G = Geosite
  import PI = ProbeIndex
  import SC = SetCache

  const MAX_KEY: nat := 256

  datatype Test =
    | Geosite(rules: seq<G.Rule>, regex: (nat, Text) -> bool, attr: Text, attrNot: bool)
    | Regexp(accepts: Text -> bool)

  type Groups = seq<seq<Cond<Test>>>

  ghost predicate Holds(t: Test, host: Text) {
    match t
    case Geosite(rules, regex, attr, attrNot) => G.Matches(rules, regex, attr, attrNot, host)
    case Regexp(accepts) => accepts(host)
  }

  // Regexes are compiled caseless.
  ghost predicate Caseless(gs: Groups) {
    forall i, j, h :: 0 <= i < |gs| && 0 <= j < |gs[i]| && gs[i][j].Other? && gs[i][j].rule.Regexp? ==>
      gs[i][j].rule.accepts(h) == gs[i][j].rule.accepts(Lower(h))
  }

  // One trailing dot does not count.
  function Stripped(host: Text): Text {
    if |host| > 1 && host[|host| - 1] == DOT then host[..|host| - 1] else host
  }

  // The lowest group with any matching rule, rule by rule on the name itself.
  ghost function FirstGroup(gs: Groups, name: Text): Option<nat> {
    First(gs, t => Holds(t, name), Some(name), 0)
  }

  // Case never decides, so the folded name can stand for the host in the cache.
  lemma FoldedSame(gs: Groups, name: Text)
    requires Caseless(gs) && |name| <= MAX_KEY
    ensures FirstGroup(gs, name) == FirstGroup(gs, Lower(name))
  {
    var key := Lower(name);
    var holds, holds' := (t: Test) => Holds(t, name), (t: Test) => Holds(t, key);
    forall i, j | 0 <= i < |gs| && 0 <= j < |gs[i]|
      ensures CondHit(gs[i][j], holds, Some(name)) == CondHit(gs[i][j], holds', Some(key))
    {
      match gs[i][j] {
        case Domain(v) => MatchDomainFolded(name, v);
        case Other(Geosite(rules, regex, attr, attrNot)) => G.MatchesFolded(rules, regex, attr, attrNot, name);
        case Other(Regexp(_)) =>
      }
    }
    FirstAgrees(gs, holds, Some(name), holds', Some(key), 0);
    assert FirstGroup(gs, name) == First(gs, holds, Some(name), 0);
    assert FirstGroup(gs, key) == First(gs, holds', Some(key), 0);
  }

  class Rules {
    const groups: Groups
    const answer: (Test, Text) -> bool
    const hash: Text -> nat
    const slots: seq<PI.Slot>
    const others: seq<seq<Test>>
    const cache: SC.Cache<Text, Option<nat>>
    ghost const view: PI.View

    // Every cached answer is the naive scan's answer for that folded name.
    ghost predicate CacheTrue(uses: seq<seq<(Text, Option<nat>)>>) {
      forall s, u :: 0 <= s < |uses| && u in uses[s] ==> u.1 == FirstGroup(groups, u.0)
    }

    // answer stands for geosite_match and the regex engine.
    ghost predicate Prepared() {
      && RuleScan.Ready(slots, hash, view, groups, others)
      && Caseless(groups)
      && forall t, h :: answer(t, h) == Holds(t, h)
    }

    ghost predicate Ready()
      reads cache, cache.ways
    {
      Prepared() && cache.Valid() && CacheTrue(cache.uses)
    }

    constructor (groups: Groups, answer: (Test, Text) -> bool, hash: Text -> nat, pick: nat -> nat, sets: nat)
      requires Parsed(groups) && Caseless(groups) && sets > 0
      requires forall t, h :: answer(t, h) == Holds(t, h)
      ensures Ready() && this.groups == groups
      ensures fresh(cache) && fresh(cache.ways)
    {
      var ss, v, os := BuildIndex(groups, hash);
      slots, view, others := ss, v, os;
      this.groups := groups;
      this.answer := answer;
      this.hash := hash;
      cache := new SC.Cache(sets, hash, pick, SC.Way(false, 0, 0, [], None));
    }

    lemma CacheAnswers(uses: seq<seq<(Text, Option<nat>)>>, s: nat, key: Text, v: Option<nat>)
      requires CacheTrue(uses) && s < |uses|
      requires SC.Current(SC.Cap(SC.Recents(uses[s])), key) == Some(v)
      ensures v == FirstGroup(groups, key)
    {
      SC.CurrentWasUsed(uses[s], key, v);
    }

    lemma CacheGrows(uses: seq<seq<(Text, Option<nat>)>>, s: nat, key: Text, v: Option<nat>)
      requires CacheTrue(uses) && s < |uses|
      requires v == FirstGroup(groups, key)
      ensures CacheTrue(uses[s := uses[s] + [(key, v)]])
    {
      hide FirstGroup;
    }

    // The uncached selection on the stripped name.
    method Choose(name: Text) returns (r: Option<nat>)
      requires Prepared()
      ensures r == FirstGroup(groups, name)
    {
      hide RuleScan.Ready, Caseless;
      var holds := (t: Test) requires true => answer(t, name);
      r := Select(groups, slots, hash, view, others, holds, Some(name), slots != [] && |name| <= MAX_KEY);
      ghost var naive := (t: Test) => Holds(t, name);
      FirstAgrees(groups, holds, Some(name), naive, Some(name), 0);
      assert FirstGroup(groups, name) == First(groups, naive, Some(name), 0);
    }

    // dns_rules_match, whatever was looked up before.
    method Match(host: Text) returns (r: Option<nat>)
      requires Ready()
      modifies cache`generation, cache`uses, cache`ranks, cache.ways
      ensures Ready()
      ensures r == if host == [] then None else FirstGroup(groups, Stripped(host))
    {
      hide CacheTrue, FirstGroup, SC.Current, SC.Recents, SC.Cap;
      if host == [] {
        return None;
      }
      var name := Stripped(host);
      if |name| > MAX_KEY {
        r := Choose(name);
        return;
      }
      var key := Lower(name);
      FoldedSame(groups, name);
      ghost var s, before := cache.SetOf(key), cache.uses;
      var cached := cache.Lookup(key);
      if cached.Some? {
        CacheAnswers(before, s, key, cached.value);
        CacheGrows(before, s, key, cached.value);
        return cached.value;
      }
      r := Choose(name);
      CacheGrows(cache.uses, s, key, r);
      cache.Store(key, r);
    }
  }
}
