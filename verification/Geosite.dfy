// One prepared geosite entry: its indexes, its keyword automaton or first-byte
// buckets, its regex list and its host cache, against the plain linear scan.
module Geosite {
  import opened Bytes
  import opened Names
  import AC = AhoCorasick
  import PI = ProbeIndex
  import SC = SetCache

  const MAX_KEY: nat := 256
  const AC_MAX_CHARS: nat := 1024 * 1024

  datatype Kind = Plain | Regex | Domain | Full

  datatype Rule = Rule(kind: Kind, value: Text, attrs: seq<Text>)

  // ---- geosite_match_domain and what it calls: one rule at a time ----

  predicate AttrMatch(r: Rule, attr: Text, attrNot: bool) {
    attr == [] || attrNot != (attr in r.attrs)
  }

  ghost predicate MatchPlain(host: Text, keyword: Text) {
    keyword != [] && exists i :: 0 <= i <= |host| - |keyword| && At(host, keyword, i)
  }

  ghost predicate At(host: Text, keyword: Text, i: nat)
    requires i + |keyword| <= |host|
  {
    Lower(host[i..i + |keyword|]) == keyword
  }

  // The name handed to a regex: folded when it fits the key buffer.
  function Subject(host: Text): Text {
    if |host| <= MAX_KEY then Lower(host) else host
  }

  ghost predicate Hit(rules: seq<Rule>, regex: (nat, Text) -> bool, o: nat, host: Text)
    requires o < |rules|
  {
    match rules[o].kind
    case Plain => MatchPlain(host, rules[o].value)
    case Regex => regex(o, Subject(host))
    case Domain => MatchDomain(host, rules[o].value)
    case Full => Lower(host) == rules[o].value
  }

  ghost predicate Matches(rules: seq<Rule>, regex: (nat, Text) -> bool, attr: Text, attrNot: bool, host: Text) {
    && host != []
    && exists o :: 0 <= o < |rules| && AttrMatch(rules[o], attr, attrNot) && Hit(rules, regex, o, host)
  }

  // Rules as parse_domain leaves them: never empty, folded unless a regex.
  ghost predicate Parsed(rules: seq<Rule>) {
    && |rules| < AC.NONE
    && forall o :: 0 <= o < |rules| ==>
         rules[o].value != [] && (rules[o].kind != Regex ==> IsLower(rules[o].value))
  }

  // Folding a host that fits the key buffer changes no rule's answer.
  lemma HitFolded(rules: seq<Rule>, regex: (nat, Text) -> bool, o: nat, host: Text)
    requires o < |rules| && |host| <= MAX_KEY
    ensures Hit(rules, regex, o, host) == Hit(rules, regex, o, Lower(host))
  {
    var key, v := Lower(host), rules[o].value;
    LowerIdempotent(host);
    MatchDomainFolded(host, v);
    forall i | 0 <= i <= |host| - |v|
      ensures At(host, v, i) == At(key, v, i)
    {
      assert Lower(key[i..i + |v|]) == Lower(host[i..i + |v|]);
    }
  }

  lemma MatchesFolded(rules: seq<Rule>, regex: (nat, Text) -> bool, attr: Text, attrNot: bool, host: Text)
    requires |host| <= MAX_KEY
    ensures Matches(rules, regex, attr, attrNot, host) == Matches(rules, regex, attr, attrNot, Lower(host))
  {
    forall o | 0 <= o < |rules|
      ensures Hit(rules, regex, o, host) == Hit(rules, regex, o, Lower(host))
    {
      HitFolded(rules, regex, o, host);
    }
  }

  // On a folded key the keyword test is plain containment.
  lemma PlainIsOccurs(key: Text, keyword: Text)
    requires IsLower(key) && keyword != []
    ensures MatchPlain(key, keyword) <==> Occurs(keyword, key)
  {
    if MatchPlain(key, keyword) {
      var i :| 0 <= i <= |key| - |keyword| && At(key, keyword, i);
      assert Lower(key[i..i + |keyword|]) == key[i..i + |keyword|];
      assert IsSuffix(keyword, key[..i + |keyword|]);
    }
    if Occurs(keyword, key) {
      var e :| 0 <= e <= |key| && IsSuffix(keyword, key[..e]);
      var i := e - |keyword|;
      assert key[..e][i..] == key[i..i + |keyword|];
      assert Lower(key[i..i + |keyword|]) == keyword;
      assert At(key, keyword, i);
    }
  }

  // ---- What the indexes must say ----

  // Orders of the rules of one kind that pass the filter and hit the key.
  ghost function KindHits(rules: seq<Rule>, regex: (nat, Text) -> bool, kind: Kind, attr: Text, attrNot: bool,
                          key: Text): set<nat>
  {
    set o | 0 <= o < |rules| && rules[o].kind == kind && AttrMatch(rules[o], attr, attrNot)
            && Hit(rules, regex, o, key)
  }

  // The index lists, under each value, exactly the rules of that kind and value.
  ghost predicate Indexes(contents: map<Text, seq<nat>>, rules: seq<Rule>, n: nat, kind: Kind)
    requires n <= |rules|
  {
    && (forall o :: 0 <= o < n && rules[o].kind == kind ==>
          rules[o].value in contents && o in contents[rules[o].value])
    && (forall v, o {:trigger o in contents[v]} :: v in contents && o in contents[v] ==>
          o < n && rules[o].kind == kind && rules[o].value == v)
  }

  lemma IndexesStep(contents: map<Text, seq<nat>>, rules: seq<Rule>, n: nat, kind: Kind, next: map<Text, seq<nat>>)
    requires n < |rules| && Indexes(contents, rules, n, kind)
    requires var v := rules[n].value;
             next == if rules[n].kind != kind then contents
                     else if v in contents then contents[v := contents[v] + [n]]
                     else contents[v := [n]]
    ensures Indexes(next, rules, n + 1, kind)
  {
    if rules[n].kind == kind {
      var v := rules[n].value;
      assert forall o :: o in next[v] <==> o == n || (v in contents && o in contents[v]);
    }
  }

  // Orders on the chain of v, filtered by attribute.
  ghost function ChainHits(rules: seq<Rule>, chain: seq<nat>, attr: Text, attrNot: bool): set<nat> {
    set o | o in chain && o < |rules| && AttrMatch(rules[o], attr, attrNot)
  }

  // Domain rules whose suffix of the key starts before position p.
  ghost function DomainHitsBefore(rules: seq<Rule>, attr: Text, attrNot: bool, key: Text, p: nat): set<nat> {
    set o | 0 <= o < |rules| && rules[o].kind == Domain && AttrMatch(rules[o], attr, attrNot)
            && MatchDomain(key, rules[o].value) && |key| - |rules[o].value| < p
  }

  // From one label start to the next, only the suffix looked up can be added.
  lemma SuffixTurn(contents: map<Text, seq<nat>>, rules: seq<Rule>, attr: Text, attrNot: bool,
                   key: Text, p: nat, q: nat)
    requires Parsed(rules) && Indexes(contents, rules, |rules|, Domain) && IsLower(key)
    requires p < q <= |key| && LabelStart(key, p)
    requires forall i :: p < i < q ==> !LabelStart(key, i)
    ensures DomainHitsBefore(rules, attr, attrNot, key, q)
         == DomainHitsBefore(rules, attr, attrNot, key, p)
            + if key[p..] in contents then ChainHits(rules, contents[key[p..]], attr, attrNot) else {}
  {
    var chain := if key[p..] in contents then ChainHits(rules, contents[key[p..]], attr, attrNot) else {};
    forall o | 0 <= o < |rules| && rules[o].kind == Domain && AttrMatch(rules[o], attr, attrNot)
      ensures o in chain <==> MatchDomain(key, rules[o].value) && p <= |key| - |rules[o].value| < q
    {
      SuffixAt(key, rules[o].value, p, q);
    }
  }

  lemma AllDomainHits(rules: seq<Rule>, regex: (nat, Text) -> bool, attr: Text, attrNot: bool, key: Text)
    requires Parsed(rules)
    ensures DomainHitsBefore(rules, attr, attrNot, key, |key|) == KindHits(rules, regex, Domain, attr, attrNot, key)
    ensures DomainHitsBefore(rules, attr, attrNot, key, 0) == {}
  {
  }

  // ---- Keywords: automaton or first-byte buckets ----

  ghost predicate KeysArePlain(keys: map<nat, Text>, rules: seq<Rule>, n: nat)
    requires n <= |rules|
  {
    forall o: nat :: o in keys <==> o < n && rules[o].kind == Plain
  }

  ghost predicate KeysSpell(keys: map<nat, Text>, rules: seq<Rule>) {
    forall o :: o in keys ==> o < |rules| && keys[o] == rules[o].value
  }

  // buckets[b] lists exactly the keywords that begin with octet b.
  ghost predicate Buckets(buckets: seq<seq<nat>>, rules: seq<Rule>, n: nat)
    requires n <= |rules| && Parsed(rules)
  {
    && |buckets| == 256
    && forall b: nat, o: nat :: b < 256 ==>
         (o in buckets[b] <==> o < n && rules[o].kind == Plain && rules[o].value[0] == b)
  }

  lemma BucketStep(before: seq<seq<nat>>, rules: seq<Rule>, n: nat, after: seq<seq<nat>>)
    requires n < |rules| && Parsed(rules) && rules[n].kind == Plain && Buckets(before, rules, n)
    requires var b := rules[n].value[0]; after == before[b := before[b] + [n]]
    ensures Buckets(after, rules, n + 1)
  {
    forall b: nat, o: nat | b < 256
      ensures o in after[b] <==> o < n + 1 && rules[o].kind == Plain && rules[o].value[0] == b
    {
      assert o in before[b] <==> o < n && rules[o].kind == Plain && rules[o].value[0] == b;
      if b == rules[n].value[0] {
        assert after[b] == before[b] + [n];
      } else {
        assert after[b] == before[b];
      }
    }
  }

  lemma AutomatonHits(keys: map<nat, Text>, rules: seq<Rule>, regex: (nat, Text) -> bool,
                      attr: Text, attrNot: bool, pass: nat -> bool, key: Text)
    requires Parsed(rules) && IsLower(key)
    requires KeysArePlain(keys, rules, |rules|) && KeysSpell(keys, rules)
    requires forall o: nat :: o < |rules| ==> pass(o) == AttrMatch(rules[o], attr, attrNot)
    ensures AC.Hits(keys, pass, key) == KindHits(rules, regex, Plain, attr, attrNot, key)
  {
    forall o | 0 <= o < |rules| && rules[o].kind == Plain
      ensures Occurs(rules[o].value, key) <==> Hit(rules, regex, o, key)
    {
      PlainIsOccurs(key, rules[o].value);
    }
  }

  // A keyword that occurs begins with some octet of the host.
  lemma PlainFirstOctet(host: Text, keyword: Text)
    requires MatchPlain(host, keyword)
    ensures exists i :: 0 <= i < |host| && Lc(host[i]) == keyword[0]
  {
    var i :| 0 <= i <= |host| - |keyword| && At(host, keyword, i);
    assert Lower(host[i..i + |keyword|])[0] == Lc(host[i]);
  }

  // The naive keyword scan.
  method ScanPlain(host: Text, keyword: Text) returns (r: bool)
    ensures r == MatchPlain(host, keyword)
  {
    if |keyword| == 0 || |host| < |keyword| {
      return false;
    }
    var i: nat := 0;
    while i <= |host| - |keyword|
      invariant i <= |host| - |keyword| + 1
      invariant forall k :: 0 <= k < i ==> !At(host, keyword, k)
    {
      var j: nat := 0;
      while j < |keyword| && Lc(host[i + j]) == keyword[j]
        invariant j <= |keyword|
        invariant forall k :: 0 <= k < j ==> Lc(host[i + k]) == keyword[k]
      {
        j := j + 1;
      }
      assert Lower(host[i..i + |keyword|]) == keyword <==> j == |keyword|;
      if j == |keyword| {
        assert At(host, keyword, i);
        return true;
      }
      i := i + 1;
    }
    return false;
  }

  // geosite_consider_match on the chain of one index entry.
  method ConsiderChain(rules: seq<Rule>, chain: seq<nat>, attr: Text, attrNot: bool, from: nat) returns (best: nat)
    requires forall o :: o in chain ==> o < |rules|
    ensures AC.Lowered(from, ChainHits(rules, chain, attr, attrNot), best)
  {
    best := from;
    var k := 0;
    ghost var seen: set<nat> := {};
    while k < |chain|
      invariant 0 <= k <= |chain|
      invariant seen == ChainHits(rules, chain[..k], attr, attrNot)
      invariant AC.Lowered(from, seen, best)
    {
      var o := chain[k];
      assert o in chain;
      assert chain[..k + 1] == chain[..k] + [o];
      ghost var next := if AttrMatch(rules[o], attr, attrNot) then seen + {o} else seen;
      assert next == ChainHits(rules, chain[..k + 1], attr, attrNot);
      if o < best && AttrMatch(rules[o], attr, attrNot) {
        best := o;
      }
      seen := next;
      k := k + 1;
    }
    assert chain[..k] == chain;
  }

  // ---- Sizing pass ----

  ghost function KindCount(rules: seq<Rule>, n: nat, kind: Kind): nat
    requires n <= |rules|
  {
    if n == 0 then 0
    else KindCount(rules, n - 1, kind) + if rules[n - 1].kind == kind then 1 else 0
  }

  ghost function PlainChars(rules: seq<Rule>, n: nat): nat
    requires n <= |rules|
  {
    if n == 0 then 0
    else PlainChars(rules, n - 1) + if rules[n - 1].kind == Plain then |rules[n - 1].value| else 0
  }

  lemma {:induction false} SizesGrow(rules: seq<Rule>, m: nat, n: nat, kind: Kind)
    requires m <= n <= |rules|
    ensures KindCount(rules, m, kind) <= KindCount(rules, n, kind)
    ensures PlainChars(rules, m) <= PlainChars(rules, n)
    decreases n
  {
    if m < n {
      SizesGrow(rules, m, n - 1, kind);
    }
  }

  lemma {:induction false} CountZero(rules: seq<Rule>, n: nat, kind: Kind)
    requires n <= |rules| && KindCount(rules, n, kind) == 0
    ensures forall o :: 0 <= o < n ==> rules[o].kind != kind
  {
    if n > 0 {
      CountZero(rules, n - 1, kind);
    }
  }

  // The first loop of build_indexes: how many rules of each kind, and the
  // keyword octets, saturated just above the automaton's limit.
  method CountRules(rules: seq<Rule>) returns (full: nat, domain: nat, plain: nat, chars: nat)
    ensures full == KindCount(rules, |rules|, Full) && domain == KindCount(rules, |rules|, Domain)
    ensures plain == KindCount(rules, |rules|, Plain)
    ensures chars == if PlainChars(rules, |rules|) <= AC_MAX_CHARS then PlainChars(rules, |rules|)
                     else AC_MAX_CHARS + 1
  {
    full, domain, plain, chars := 0, 0, 0, 0;
    var i: nat := 0;
    while i < |rules|
      invariant i <= |rules|
      invariant full == KindCount(rules, i, Full) && domain == KindCount(rules, i, Domain)
      invariant plain == KindCount(rules, i, Plain)
      invariant chars == if PlainChars(rules, i) <= AC_MAX_CHARS then PlainChars(rules, i) else AC_MAX_CHARS + 1
    {
      match rules[i].kind {
        case Full => full := full + 1;
        case Domain => domain := domain + 1;
        case Regex =>
        case Plain =>
          plain := plain + 1;
          if chars <= AC_MAX_CHARS && |rules[i].value| <= AC_MAX_CHARS - chars {
            chars := chars + |rules[i].value|;
          } else {
            chars := AC_MAX_CHARS + 1;
          }
      }
      i := i + 1;
    }
  }

  // full_index or domain_index: absent when the entry has no rule of its kind.
  class KindIndex {
    const rules: seq<Rule>
    const kind: Kind
    const hash: Text -> nat
    const index: PI.Index?

    ghost function Footprint(): set<object> {
      if index == null then {} else {index, index.slots}
    }

    // The first n rules have been indexed.
    ghost predicate Holds(n: nat)
      reads Footprint()
    {
      && Parsed(rules) && n <= |rules|
      && if index == null then forall o :: 0 <= o < |rules| ==> rules[o].kind != kind
         else
           && index.Valid() && index.hash == hash && !index.keepFirst && Indexes(index.view.contents, rules, n, kind)
           && |index.view.contents| <= KindCount(rules, n, kind)
           && index.slots.Length >= KindCount(rules, |rules|, kind)
    }

    constructor (rules: seq<Rule>, kind: Kind, count: nat, hash: Text -> nat)
      requires Parsed(rules) && count == KindCount(rules, |rules|, kind)
      ensures this.rules == rules && this.kind == kind && this.hash == hash
      ensures Holds(0) && fresh(Footprint())
    {
      this.rules := rules;
      this.kind := kind;
      this.hash := hash;
      if count != 0 {
        var slots := PI.IndexSlots(count, 16, 4);
        index := new PI.Index(slots, hash, false);
      } else {
        index := null;
        CountZero(rules, |rules|, kind);
      }
    }

    lemma SkipOther(n: nat)
      requires n < |rules| && rules[n].kind != kind && Holds(n)
      ensures Holds(n + 1)
    {
      if index != null {
        assert Indexes(index.view.contents, rules, n, kind);
        assert KindCount(rules, n + 1, kind) == KindCount(rules, n, kind);
        IndexesStep(index.view.contents, rules, n, kind, index.view.contents);
      }
    }

    method Add(n: nat)
      requires n < |rules| && rules[n].kind == kind && Holds(n)
      modifies Footprint()
      ensures Holds(n + 1)
    {
      SizesGrow(rules, n + 1, |rules|, kind);
      if index != null {
        ghost var before := index.view.contents;
        var ok := index.Insert(rules[n].value, n);
        IndexesStep(before, rules, n, kind, index.view.contents);
      }
    }
  }

  // plain_nodes when the keywords fit the automaton, plain_index otherwise.
  class Keywords {
    const rules: seq<Rule>
    const automaton: AC.KeywordAutomaton?
    const buckets: array<seq<nat>>

    ghost function Footprint(): set<object> {
      {buckets} + if automaton == null then {} else {automaton, automaton.nodes}
    }

    // The first n rules have been seen.
    ghost predicate Holds(n: nat)
      reads Footprint()
    {
      && Parsed(rules) && n <= |rules|
      && if automaton == null then Buckets(buckets[..], rules, n)
         else
           && automaton.Valid()
           && KeysArePlain(automaton.shape.keys, rules, n) && KeysSpell(automaton.shape.keys, rules)
           && automaton.size <= 1 + PlainChars(rules, n)
           && PlainChars(rules, |rules|) <= AC_MAX_CHARS
           && automaton.nodes.Length == 1 + PlainChars(rules, |rules|)
    }

    constructor (rules: seq<Rule>, plain: nat, chars: nat)
      requires Parsed(rules)
      requires chars <= AC_MAX_CHARS ==> chars == PlainChars(rules, |rules|)
      ensures this.rules == rules
      ensures Holds(0) && fresh(Footprint())
    {
      this.rules := rules;
      if plain != 0 && chars <= AC_MAX_CHARS {
        automaton := new AC.KeywordAutomaton(chars);
      } else {
        automaton := null;
      }
      buckets := new seq<nat>[256](_ => []);
    }

    method Add(n: nat)
      requires n < |rules| && rules[n].kind == Plain && Holds(n)
      modifies Footprint()
      ensures Holds(n + 1)
    {
      if automaton != null {
        SizesGrow(rules, n + 1, |rules|, Plain);
        hide AC.Good;
        automaton.Insert(n, rules[n].value);
      } else {
        var b := Lc(rules[n].value[0]);
        assert b == rules[n].value[0];
        ghost var before := buckets[..];
        buckets[b] := buckets[b] + [n];
        BucketStep(before, rules, n, buckets[..]);
      }
    }

    lemma SkipOther(n: nat)
      requires n < |rules| && rules[n].kind != Plain && Holds(n)
      ensures Holds(n + 1)
    {
    }
  }

  ghost predicate RegexesListed(rules: seq<Rule>, listed: seq<nat>, n: nat)
    requires n <= |rules|
  {
    && (forall k :: 0 <= k < |listed| ==> listed[k] < n && rules[listed[k]].kind == Regex)
    && (forall o :: 0 <= o < n && rules[o].kind == Regex ==> o in listed)
  }

  // build_indexes after n rules of its second loop.
  ghost predicate Built(rules: seq<Rule>, full: KindIndex, domain: KindIndex, keywords: Keywords,
                        regexRules: seq<nat>, n: nat)
    reads full.Footprint(), domain.Footprint(), keywords.Footprint()
  {
    && n <= |rules| && Parsed(rules)
    && full.rules == domain.rules == keywords.rules == rules
    && full.kind == Full && domain.kind == Domain
    && full.Footprint() !! domain.Footprint() && full.Footprint() !! keywords.Footprint()
    && domain.Footprint() !! keywords.Footprint()
    && full.Holds(n) && domain.Holds(n) && keywords.Holds(n) && RegexesListed(rules, regexRules, n)
  }

  // One turn of the second loop of build_indexes.
  method AddRule(rules: seq<Rule>, full: KindIndex, domain: KindIndex, keywords: Keywords,
                 regexRules: seq<nat>, n: nat) returns (listed: seq<nat>)
    requires n < |rules| && Built(rules, full, domain, keywords, regexRules, n)
    modifies full.Footprint(), domain.Footprint(), keywords.Footprint()
    ensures Built(rules, full, domain, keywords, listed, n + 1)
  {
    hide KindIndex.Holds, Keywords.Holds;
    listed := regexRules;
    match rules[n].kind {
      case Full =>
        domain.SkipOther(n);
        keywords.SkipOther(n);
        full.Add(n);
      case Domain =>
        full.SkipOther(n);
        keywords.SkipOther(n);
        domain.Add(n);
      case Regex =>
        listed := listed + [n];
        full.SkipOther(n);
        domain.SkipOther(n);
        keywords.SkipOther(n);
      case Plain =>
        full.SkipOther(n);
        domain.SkipOther(n);
        keywords.Add(n);
    }
  }

  // ---- The finished indexes, read-only from here on ----

  // An empty table stands for the NULL index of a kind no rule has.
  ghost predicate IndexReady(slots: seq<PI.Slot>, hash: Text -> nat, view: PI.View, rules: seq<Rule>, kind: Kind) {
    if slots == [] then forall o :: 0 <= o < |rules| ==> rules[o].kind != kind
    else PI.Table(slots, hash, view) && Indexes(view.contents, rules, |rules|, kind)
  }

  // No nodes stand for the first-octet buckets.
  ghost predicate KeywordsReady(nodes: seq<AC.Node>, shape: AC.Shape, buckets: seq<seq<nat>>, rules: seq<Rule>)
    requires Parsed(rules)
  {
    if nodes == [] then Buckets(buckets, rules, |rules|)
    else
      && AC.Linked(nodes, shape) && |nodes| <= AC.NONE
      && KeysArePlain(shape.keys, rules, |rules|) && KeysSpell(shape.keys, rules)
  }

  method FreezeIndex(k: KindIndex) returns (slots: seq<PI.Slot>, ghost view: PI.View)
    requires k.Holds(|k.rules|)
    ensures IndexReady(slots, k.hash, view, k.rules, k.kind)
  {
    if k.index == null {
      return [], PI.View(map[], map[]);
    }
    return k.index.slots[..], k.index.view;
  }

  // plain_build_fail closes the automaton.
  method FreezeKeywords(k: Keywords) returns (nodes: seq<AC.Node>, ghost shape: AC.Shape, buckets: seq<seq<nat>>)
    requires k.Holds(|k.rules|)
    modifies k.Footprint()
    ensures Parsed(k.rules) && KeywordsReady(nodes, shape, buckets, k.rules)
  {
    if k.automaton == null {
      return [], AC.Shape([], map[], map[]), k.buckets[..];
    }
    k.automaton.BuildFail();
    return k.automaton.nodes[..k.automaton.size], k.automaton.shape, k.buckets[..];
  }

  ghost function Found(slots: seq<PI.Slot>, view: PI.View, rules: seq<Rule>, value: Text,
                       attr: Text, attrNot: bool): set<nat>
  {
    if slots != [] && value in view.contents
    then ChainHits(rules, view.contents[value], attr, attrNot) else {}
  }

  // index_find followed by consider_match.
  method ConsiderIndex(slots: seq<PI.Slot>, hash: Text -> nat, ghost view: PI.View, rules: seq<Rule>,
                       ghost kind: Kind, value: Text, attr: Text, attrNot: bool, from: nat) returns (best: nat)
    requires IndexReady(slots, hash, view, rules, kind)
    ensures AC.Lowered(from, Found(slots, view, rules, value, attr, attrNot), best)
  {
    best := from;
    if slots != [] {
      var chain := PI.Find(slots, hash, view, value);
      if chain.Some? {
        best := ConsiderChain(rules, chain.value, attr, attrNot, from);
      }
    }
  }

  lemma FullHits(slots: seq<PI.Slot>, hash: Text -> nat, view: PI.View, rules: seq<Rule>,
                 regex: (nat, Text) -> bool, key: Text, attr: Text, attrNot: bool)
    requires IndexReady(slots, hash, view, rules, Full) && IsLower(key)
    ensures Found(slots, view, rules, key, attr, attrNot) == KindHits(rules, regex, Full, attr, attrNot, key)
  {
    LowerIdempotent(key);
  }

  lemma DomainTurn(slots: seq<PI.Slot>, hash: Text -> nat, view: PI.View, rules: seq<Rule>,
                   key: Text, attr: Text, attrNot: bool, p: nat, q: nat)
    requires Parsed(rules) && IndexReady(slots, hash, view, rules, Domain) && IsLower(key)
    requires p < q <= |key| && LabelStart(key, p)
    requires forall i :: p < i < q ==> !LabelStart(key, i)
    ensures DomainHitsBefore(rules, attr, attrNot, key, q)
         == DomainHitsBefore(rules, attr, attrNot, key, p) + Found(slots, view, rules, key[p..], attr, attrNot)
  {
    if slots != [] {
      SuffixTurn(view.contents, rules, attr, attrNot, key, p, q);
    }
  }

  lemma NoneListed(rules: seq<Rule>)
    ensures RegexesListed(rules, [], 0)
  {
  }

  // Size and allocate.
  method NewIndexes(rules: seq<Rule>, hash: Text -> nat)
    returns (full: KindIndex, domain: KindIndex, keywords: Keywords)
    requires Parsed(rules)
    ensures Built(rules, full, domain, keywords, [], 0) && full.hash == domain.hash == hash
    ensures fresh(full.Footprint()) && fresh(domain.Footprint()) && fresh(keywords.Footprint())
  {
    hide KindIndex.Holds, Keywords.Holds, Parsed;
    var fullCount, domainCount, plain, chars := CountRules(rules);
    full := new KindIndex(rules, Full, fullCount, hash);
    domain := new KindIndex(rules, Domain, domainCount, hash);
    assert full.Footprint() !! domain.Footprint() && full.Holds(0);
    keywords := new Keywords(rules, plain, chars);
    assert full.Footprint() !! keywords.Footprint() && domain.Footprint() !! keywords.Footprint();
    NoneListed(rules);
  }

  method FillIndexes(rules: seq<Rule>, full: KindIndex, domain: KindIndex, keywords: Keywords)
    returns (listed: seq<nat>)
    requires Built(rules, full, domain, keywords, [], 0)
    modifies full.Footprint(), domain.Footprint(), keywords.Footprint()
    ensures Built(rules, full, domain, keywords, listed, |rules|)
  {
    hide Built;
    listed := [];
    var i: nat := 0;
    while i < |rules|
      invariant i <= |rules|
      invariant Built(rules, full, domain, keywords, listed, i)
    {
      listed := AddRule(rules, full, domain, keywords, listed, i);
      i := i + 1;
    }
  }

  // build_indexes: size, allocate, fill in rule order, close the automaton.
  method BuildIndexes(rules: seq<Rule>, hash: Text -> nat)
    returns (fs: seq<PI.Slot>, ghost fv: PI.View, ds: seq<PI.Slot>, ghost dv: PI.View,
             nodes: seq<AC.Node>, ghost shape: AC.Shape, buckets: seq<seq<nat>>, listed: seq<nat>)
    requires Parsed(rules)
    ensures IndexReady(fs, hash, fv, rules, Full) && IndexReady(ds, hash, dv, rules, Domain)
    ensures KeywordsReady(nodes, shape, buckets, rules) && RegexesListed(rules, listed, |rules|)
  {
    hide KindIndex.Holds, Keywords.Holds, IndexReady, KeywordsReady;
    var full, domain, keywords := NewIndexes(rules, hash);
    listed := FillIndexes(rules, full, domain, keywords);
    hide Built;
    fs, fv := FreezeIndex(full);
    ds, dv := FreezeIndex(domain);
    nodes, shape, buckets := FreezeKeywords(keywords);
  }

  class Entry {
    const rules: seq<Rule>
    const regex: (nat, Text) -> bool
    const hash: Text -> nat
    const fullSlots: seq<PI.Slot>
    const domainSlots: seq<PI.Slot>
    const nodes: seq<AC.Node>
    const buckets: seq<seq<nat>>
    const regexRules: seq<nat>
    const cache: SC.Cache<Text, bool>
    ghost const fullView: PI.View
    ghost const domainView: PI.View
    ghost const shape: AC.Shape

    ghost predicate IndexesReady() {
      && Parsed(rules)
      && IndexReady(fullSlots, hash, fullView, rules, Full)
      && IndexReady(domainSlots, hash, domainView, rules, Domain)
      && KeywordsReady(nodes, shape, buckets, rules)
      && RegexesListed(rules, regexRules, |rules|)
    }

    // Every cached answer is the linear scan's answer for that folded host.
    ghost predicate CacheOk()
      reads cache, cache.ways
    {
      cache.Valid() && CacheTrue(cache.uses)
    }

    ghost predicate CacheTrue(uses: seq<seq<(Text, bool)>>) {
      forall s, u :: 0 <= s < |uses| && u in uses[s] ==> u.1 == Matches(rules, regex, [], false, u.0)
    }

    ghost predicate Ready()
      reads cache, cache.ways
    {
      IndexesReady() && CacheOk()
    }

    // build_indexes, then an empty cache.
    constructor (rules: seq<Rule>, regex: (nat, Text) -> bool, hash: Text -> nat, pick: nat -> nat, sets: nat)
      requires Parsed(rules) && sets > 0
      ensures Ready()
      ensures this.rules == rules && this.regex == regex
      ensures fresh(cache) && fresh(cache.ways)
    {
      hide IndexReady, KeywordsReady;
      var fs, fv, ds, dv, ns, sh, bs, listed := BuildIndexes(rules, hash);
      fullSlots, fullView, domainSlots, domainView := fs, fv, ds, dv;
      nodes, shape, buckets, regexRules := ns, sh, bs, listed;
      this.rules := rules;
      this.regex := regex;
      this.hash := hash;
      cache := new SC.Cache(sets, hash, pick, SC.Way(false, 0, 0, [], false));
    }

    // Orders of the rules, regexes apart, that pass the filter and hit.
    ghost function IndexedHits(attr: Text, attrNot: bool, key: Text): set<nat> {
      KindHits(rules, regex, Full, attr, attrNot, key)
      + KindHits(rules, regex, Domain, attr, attrNot, key)
      + KindHits(rules, regex, Plain, attr, attrNot, key)
    }

    // match_indexed: the smallest order among the indexed rules that match.
    method MatchIndexed(key: Text, attr: Text, attrNot: bool) returns (order: nat)
      requires IndexesReady() && IsLower(key) && key != []
      ensures AC.Lowered(AC.NONE, IndexedHits(attr, attrNot, key), order)
    {
      hide AC.Lowered, KindHits, IndexReady, KeywordsReady, Found;
      ghost var f := KindHits(rules, regex, Full, attr, attrNot, key);
      ghost var d := KindHits(rules, regex, Domain, attr, attrNot, key);
      var full := ConsiderIndex(fullSlots, hash, fullView, rules, Full, key, attr, attrNot, AC.NONE);
      FullHits(fullSlots, hash, fullView, rules, regex, key, attr, attrNot);
      var domain := ConsiderSuffixes(key, attr, attrNot, full);
      AC.LoweredTwice(AC.NONE, f, full, d, domain);
      order := SearchKeywords(key, attr, attrNot, domain);
      AC.LoweredTwice(AC.NONE, f + d, domain, KindHits(rules, regex, Plain, attr, attrNot, key), order);
    }

    // The suffix loop: the host itself, then what follows each dot.
    method ConsiderSuffixes(key: Text, attr: Text, attrNot: bool, from: nat) returns (best: nat)
      requires IndexesReady() && IsLower(key) && key != []
      ensures AC.Lowered(from, KindHits(rules, regex, Domain, attr, attrNot, key), best)
    {
      AllDomainHits(rules, regex, attr, attrNot, key);
      hide AC.Lowered, DomainHitsBefore, KindHits, IndexReady, KeywordsReady, Found;
      AC.LoweredNothing(from);
      best := from;
      var suffix: nat := 0;
      while suffix < |key|
        invariant suffix <= |key| && (LabelStart(key, suffix) || suffix == |key|)
        invariant AC.Lowered(from, DomainHitsBefore(rules, attr, attrNot, key, suffix), best)
      {
        var b := ConsiderIndex(domainSlots, hash, domainView, rules, Domain, key[suffix..], attr, attrNot, best);
        AC.LoweredTwice(from, DomainHitsBefore(rules, attr, attrNot, key, suffix), best,
                        Found(domainSlots, domainView, rules, key[suffix..], attr, attrNot), b);
        best := b;
        var next := NextLabel(key, suffix);
        DomainTurn(domainSlots, hash, domainView, rules, key, attr, attrNot, suffix, next);
        suffix := next;
      }
    }

    // match_plain_indexed.
    method SearchKeywords(key: Text, attr: Text, attrNot: bool, from: nat) returns (best: nat)
      requires IndexesReady() && IsLower(key)
      ensures AC.Lowered(from, KindHits(rules, regex, Plain, attr, attrNot, key), best)
    {
      if nodes == [] {
        best := SearchBuckets(key, attr, attrNot, from);
      } else {
        var rs := rules;
        var pass := (o: nat) => o < |rs| && AttrMatch(rs[o], attr, attrNot);
        best := AC.Search(nodes, shape, key, pass, from);
        AutomatonHits(shape.keys, rules, regex, attr, attrNot, pass, key);
      }
    }

    ghost function BucketHits(b: byte, key: Text, attr: Text, attrNot: bool): set<nat>
      requires Parsed(rules)
    {
      set o | o in KindHits(rules, regex, Plain, attr, attrNot, key) && rules[o].value[0] == b
    }

    // The first-octet buckets: each octet of the host opens its bucket once.
    method SearchBuckets(key: Text, attr: Text, attrNot: bool, from: nat) returns (best: nat)
      requires Parsed(rules) && Buckets(buckets, rules, |rules|) && IsLower(key)
      ensures AC.Lowered(from, KindHits(rules, regex, Plain, attr, attrNot, key), best)
    {
      hide AC.Lowered;
      best := from;
      var seen := new bool[256](_ => false);
      ghost var all := KindHits(rules, regex, Plain, attr, attrNot, key);
      ghost var done: set<nat> := {};
      AC.LoweredNothing(from);
      var i := 0;
      while i < |key|
        invariant 0 <= i <= |key|
        invariant forall k :: 0 <= k < i ==> seen[Lc(key[k])]
        invariant done <= all
        invariant forall o :: o in all && seen[rules[o].value[0]] ==> o in done
        invariant AC.Lowered(from, done, best)
      {
        var ch := Lc(key[i]);
        if !seen[ch] {
          seen[ch] := true;
          ghost var b := best;
          best := ScanBucket(ch, key, attr, attrNot, best);
          ghost var found := BucketHits(ch, key, attr, attrNot);
          AC.LoweredTwice(from, done, b, found, best);
          done := done + found;
        }
        i := i + 1;
      }
      forall o | o in all
        ensures o in done
      {
        PlainFirstOctet(key, rules[o].value);
      }
      assert done == all;
    }

    // The keywords of one bucket, each tried by the naive scan.
    method ScanBucket(b: byte, key: Text, attr: Text, attrNot: bool, from: nat) returns (best: nat)
      requires Parsed(rules) && Buckets(buckets, rules, |rules|)
      ensures AC.Lowered(from, BucketHits(b, key, attr, attrNot), best)
    {
      best := from;
      ghost var all := BucketHits(b, key, attr, attrNot);
      ghost var done: set<nat> := {};
      var bucket := buckets[b];
      var k := 0;
      while k < |bucket|
        invariant 0 <= k <= |bucket|
        invariant done <= all
        invariant forall o :: o in all && o in bucket[..k] ==> o in done
        invariant AC.Lowered(from, done, best)
      {
        var o := bucket[k];
        assert o in bucket;
        assert bucket[..k + 1] == bucket[..k] + [o];
        if o in all {
          done := done + {o};
        }
        if o < best && AttrMatch(rules[o], attr, attrNot) {
          var hit := ScanPlain(key, rules[o].value);
          if hit {
            best := o;
          }
        }
        k := k + 1;
      }
      assert bucket[..k] == bucket;
      assert done == all;
    }

    // What geosite_match does with a folded name that fits the key buffer.
    method MatchKey(attr: Text, attrNot: bool, key: Text) returns (r: bool)
      requires IndexesReady() && IsLower(key) && 0 < |key| <= MAX_KEY
      ensures r == Matches(rules, regex, attr, attrNot, key)
    {
      var order := MatchIndexed(key, attr, attrNot);
      LowerIdempotent(key);
      IndexedMatch(attr, attrNot, key, order);
      hide IndexReady, KeywordsReady, KindHits, AC.Lowered;
      var k := 0;
      while k < |regexRules|
        invariant 0 <= k <= |regexRules|
        invariant forall j :: 0 <= j < k ==>
                    !(AttrMatch(rules[regexRules[j]], attr, attrNot) && regex(regexRules[j], key))
      {
        var o := regexRules[k];
        if order != AC.NONE && o > order {
          return true;
        }
        if AttrMatch(rules[o], attr, attrNot) && regex(o, key) {
          assert Hit(rules, regex, o, key);
          return true;
        }
        k := k + 1;
      }
      return order != AC.NONE;
    }

    // An order was found exactly when some rule other than a regex matches.
    lemma IndexedMatch(attr: Text, attrNot: bool, key: Text, order: nat)
      requires Parsed(rules) && AC.Lowered(AC.NONE, IndexedHits(attr, attrNot, key), order)
      ensures order != AC.NONE <==>
                exists o :: 0 <= o < |rules| && rules[o].kind != Regex
                            && AttrMatch(rules[o], attr, attrNot) && Hit(rules, regex, o, key)
    {
      if o :| 0 <= o < |rules| && rules[o].kind != Regex
              && AttrMatch(rules[o], attr, attrNot) && Hit(rules, regex, o, key) {
        assert o in IndexedHits(attr, attrNot, key);
      }
    }

    // The linear scan over every rule.
    method LinearScan(attr: Text, attrNot: bool, host: Text) returns (r: bool)
      requires host != []
      ensures r == Matches(rules, regex, attr, attrNot, host)
    {
      var o := 0;
      while o < |rules|
        invariant 0 <= o <= |rules|
        invariant forall j :: 0 <= j < o ==> !(AttrMatch(rules[j], attr, attrNot) && Hit(rules, regex, j, host))
      {
        if AttrMatch(rules[o], attr, attrNot) {
          var hit: bool;
          match rules[o].kind {
            case Plain => hit := ScanPlain(host, rules[o].value);
            case Regex => hit := regex(o, Subject(host));
            case Domain => hit := MatchDomain(host, rules[o].value);
            case Full => hit := |host| == |rules[o].value| && Lower(host) == rules[o].value;
          }
          if hit {
            assert Hit(rules, regex, o, host);
            return true;
          }
        }
        o := o + 1;
      }
      return false;
    }

    lemma CacheAnswers(uses: seq<seq<(Text, bool)>>, s: nat, key: Text, v: bool)
      requires CacheTrue(uses) && s < |uses|
      requires SC.Current(SC.Cap(SC.Recents(uses[s])), key) == Some(v)
      ensures v == Matches(rules, regex, [], false, key)
    {
      SC.CurrentWasUsed(uses[s], key, v);
    }

    lemma CacheGrows(uses: seq<seq<(Text, bool)>>, s: nat, key: Text, v: bool)
      requires CacheTrue(uses) && s < |uses|
      requires v == Matches(rules, regex, [], false, key)
      ensures CacheTrue(uses[s := uses[s] + [(key, v)]])
    {
      hide Matches;
    }

    // geosite_match, whatever was looked up before.
    method Match(attr: Text, attrNot: bool, host: Text) returns (r: bool)
      requires Ready()
      modifies cache`generation, cache`uses, cache`ranks, cache.ways
      ensures Ready()
      ensures r == Matches(rules, regex, attr, attrNot, host)
    {
      hide IndexReady, KeywordsReady, CacheTrue, SC.Current, SC.Recents, SC.Cap;
      if host == [] {
        return false;
      }
      var cacheable := attr == [] && !attrNot;
      if |host| > MAX_KEY {
        r := LinearScan(attr, attrNot, host);
        return;
      }
      var key := Lower(host);
      LowerIdempotent(host);
      MatchesFolded(rules, regex, attr, attrNot, host);
      hide Matches;
      ghost var s := cache.SetOf(key);
      if cacheable {
        ghost var before := cache.uses;
        var cached := cache.Lookup(key);
        if cached.Some? {
          CacheAnswers(before, s, key, cached.value);
          CacheGrows(before, s, key, cached.value);
          return cached.value;
        }
      }
      r := MatchKey(attr, attrNot, key);
      if cacheable {
        CacheGrows(cache.uses, s, key, r);
        cache.Store(key, r);
      }
    }
  }
}
