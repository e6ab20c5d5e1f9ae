// First-match selection as DNS rules and routes share it: a suffix index over
// the domain rules, an ordered scan bounded by the index hit, and the naive
// scan both must agree with.
module RuleScan {
  import opened Bytes
  import opened Names
  import AC = AhoCorasick
  import PI = ProbeIndex

  // O is whatever a rule other than a domain suffix is decided by.
  datatype Cond<O> = Domain(value: Text) | Other(rule: O)

  // ---- The naive scan ----

  predicate CondHit<O>(c: Cond<O>, holds: O -> bool, name: Option<Text>) {
    match c
    case Domain(v) => name.Some? && MatchDomain(name.value, v)
    case Other(o) => holds(o)
  }

  ghost predicate GroupHit<O>(g: seq<Cond<O>>, holds: O -> bool, name: Option<Text>) {
    exists j :: 0 <= j < |g| && CondHit(g[j], holds, name)
  }

  // The first group from i on that has a matching rule.
  ghost function First<O>(gs: seq<seq<Cond<O>>>, holds: O -> bool, name: Option<Text>, i: nat): (r: Option<nat>)
    requires i <= |gs|
    ensures r.Some? ==> i <= r.value < |gs| && GroupHit(gs[r.value], holds, name)
    ensures forall k :: i <= k < (if r.Some? then r.value else |gs|) ==> !GroupHit(gs[k], holds, name)
    decreases |gs| - i
  {
    if i == |gs| then None
    else if GroupHit(gs[i], holds, name) then Some(i)
    else First(gs, holds, name, i + 1)
  }

  // Two ways of asking that every rule of a group answers alike.
  ghost predicate Alike<O>(g: seq<Cond<O>>, holds: O -> bool, name: Option<Text>,
                           holds': O -> bool, name': Option<Text>) {
    forall j :: 0 <= j < |g| ==> CondHit(g[j], holds, name) == CondHit(g[j], holds', name')
  }

  lemma GroupAgrees<O>(g: seq<Cond<O>>, holds: O -> bool, name: Option<Text>,
                       holds': O -> bool, name': Option<Text>)
    requires Alike(g, holds, name, holds', name')
    ensures GroupHit(g, holds, name) == GroupHit(g, holds', name')
  {
    hide CondHit;
  }

  // Only what the rules answer matters, not how.
  lemma {:induction false} FirstAgrees<O>(gs: seq<seq<Cond<O>>>, holds: O -> bool, name: Option<Text>,
                                          holds': O -> bool, name': Option<Text>, i: nat)
    requires i <= |gs| && forall k :: i <= k < |gs| ==> Alike(gs[k], holds, name, holds', name')
    ensures First(gs, holds, name, i) == First(gs, holds', name', i)
    decreases |gs| - i
  {
    hide GroupHit, Alike;
    if i < |gs| {
      GroupAgrees(gs[i], holds, name, holds', name');
      FirstAgrees(gs, holds, name, holds', name', i + 1);
    }
  }

  // Domain values as the parsers leave them: folded and never empty.
  ghost predicate Parsed<O>(gs: seq<seq<Cond<O>>>) {
    && |gs| < AC.NONE
    && forall i, j :: 0 <= i < |gs| && 0 <= j < |gs[i]| && gs[i][j].Domain? ==>
         gs[i][j].value != [] && IsLower(gs[i][j].value)
  }

  // ---- Building: the index and the lists of the other rules ----

  function Others<O>(g: seq<Cond<O>>): seq<O> {
    if g == [] then [] else
      var last := g[|g| - 1];
      var init := Others(g[..|g| - 1]);
      if last.Other? then init + [last.rule] else init
  }

  lemma {:induction false} OthersMembers<O>(g: seq<Cond<O>>)
    ensures |Others(g)| <= |g|
    ensures forall o :: o in Others(g) ==> exists j :: 0 <= j < |g| && g[j] == Other(o)
    ensures forall j :: 0 <= j < |g| && g[j].Other? ==> g[j].rule in Others(g)
    ensures |Others(g)| == |g| ==> forall j :: 0 <= j < |g| ==> g[j].Other?
  {
    if g != [] {
      OthersMembers(g[..|g| - 1]);
    }
  }

  lemma OthersNone<O>(g: seq<Cond<O>>)
    ensures Others(g[..0]) == []
  {
  }

  lemma OthersStep<O>(g: seq<Cond<O>>, j: nat)
    requires j < |g|
    ensures Others(g[..j + 1]) == if g[j].Other? then Others(g[..j]) + [g[j].rule] else Others(g[..j])
  {
    assert g[..j + 1][..j] == g[..j];
  }

  // Rules before rule j of group i have been read.
  predicate Before(k: nat, l: nat, i: nat, j: nat) {
    k < i || (k == i && l < j)
  }

  ghost predicate HasBefore<O>(gs: seq<seq<Cond<O>>>, v: Text, k: nat, i: nat, j: nat)
    requires k < |gs|
  {
    exists l :: 0 <= l < |gs[k]| && Before(k, l, i, j) && gs[k][l] == Domain(v)
  }

  // Each indexed value carries the first group that has it.
  ghost predicate FirstGroups<O>(contents: map<Text, seq<nat>>, gs: seq<seq<Cond<O>>>, i: nat, j: nat) {
    && (forall v :: v in contents ==>
          |contents[v]| == 1 && contents[v][0] < |gs| && HasBefore(gs, v, contents[v][0], i, j))
    && (forall k, l :: 0 <= k < |gs| && 0 <= l < |gs[k]| && Before(k, l, i, j) && gs[k][l].Domain? ==>
          gs[k][l].value in contents && contents[gs[k][l].value][0] <= k)
  }

  ghost function DomainCount<O>(gs: seq<seq<Cond<O>>>, i: nat, j: nat): nat
    requires if i < |gs| then j <= |gs[i]| else i == |gs| && j == 0
    decreases i, j
  {
    if j > 0 then DomainCount(gs, i, j - 1) + if gs[i][j - 1].Domain? then 1 else 0
    else if i > 0 then DomainCount(gs, i - 1, |gs[i - 1]|)
    else 0
  }

  lemma NothingRead<O>(gs: seq<seq<Cond<O>>>)
    ensures FirstGroups(map[], gs, 0, 0)
  {
  }

  lemma FirstGroupsStep<O>(contents: map<Text, seq<nat>>, gs: seq<seq<Cond<O>>>, i: nat, j: nat,
                           next: map<Text, seq<nat>>)
    requires i < |gs| && j < |gs[i]| && FirstGroups(contents, gs, i, j)
    requires next == if gs[i][j].Other? || gs[i][j].value in contents then contents
                     else contents[gs[i][j].value := [i]]
    ensures FirstGroups(next, gs, i, j + 1)
  {
    forall v | v in next
      ensures |next[v]| == 1 && next[v][0] < |gs| && HasBefore(gs, v, next[v][0], i, j + 1)
    {
      if v in contents {
        assert HasBefore(gs, v, contents[v][0], i, j);
        var l :| 0 <= l < |gs[next[v][0]]| && Before(next[v][0], l, i, j) && gs[next[v][0]][l] == Domain(v);
        assert Before(next[v][0], l, i, j + 1);
      } else {
        assert Before(i, j, i, j + 1);
      }
    }
    forall k, l | 0 <= k < |gs| && 0 <= l < |gs[k]| && Before(k, l, i, j + 1) && gs[k][l].Domain?
      ensures gs[k][l].value in next && next[gs[k][l].value][0] <= k
    {
      if !Before(k, l, i, j) {
        assert k == i && l == j;
      }
    }
  }

  lemma NextGroup<O>(contents: map<Text, seq<nat>>, gs: seq<seq<Cond<O>>>, i: nat)
    requires i < |gs| && FirstGroups(contents, gs, i, |gs[i]|)
    ensures FirstGroups(contents, gs, i + 1, 0)
  {
    forall v | v in contents
      ensures HasBefore(gs, v, contents[v][0], i + 1, 0)
    {
      assert HasBefore(gs, v, contents[v][0], i, |gs[i]|);
      var l :| 0 <= l < |gs[contents[v][0]]| && Before(contents[v][0], l, i, |gs[i]|)
               && gs[contents[v][0]][l] == Domain(v);
      assert Before(contents[v][0], l, i + 1, 0);
    }
    forall k, l | 0 <= k < |gs| && 0 <= l < |gs[k]| && Before(k, l, i + 1, 0) && gs[k][l].Domain?
      ensures gs[k][l].value in contents && contents[gs[k][l].value][0] <= k
    {
      assert Before(k, l, i, |gs[i]|);
    }
  }

  lemma {:induction false} CountGrows<O>(gs: seq<seq<Cond<O>>>, i: nat, j: nat)
    requires if i < |gs| then j <= |gs[i]| else i == |gs| && j == 0
    ensures DomainCount(gs, i, j) <= DomainCount(gs, |gs|, 0)
    decreases |gs| - i, if i < |gs| then |gs[i]| - j else 0
  {
    if i < |gs| {
      if j < |gs[i]| {
        CountGrows(gs, i, j + 1);
      } else {
        CountGrows(gs, i + 1, 0);
      }
    }
  }

  lemma CountStep<O>(gs: seq<seq<Cond<O>>>, i: nat, j: nat)
    requires i < |gs| && j < |gs[i]|
    ensures DomainCount(gs, i, j + 1) == DomainCount(gs, i, j) + if gs[i][j].Domain? then 1 else 0
    ensures DomainCount(gs, i, j + 1) <= DomainCount(gs, |gs|, 0)
  {
    CountGrows(gs, i, j + 1);
  }

  // The sizing pass.
  method CountDomains<O>(gs: seq<seq<Cond<O>>>) returns (count: nat)
    ensures count == DomainCount(gs, |gs|, 0)
  {
    count := 0;
    var i: nat := 0;
    while i < |gs|
      invariant i <= |gs| && count == DomainCount(gs, i, 0)
    {
      var j: nat := 0;
      while j < |gs[i]|
        invariant j <= |gs[i]| && count == DomainCount(gs, i, j)
      {
        if gs[i][j].Domain? {
          count := count + 1;
        }
        j := j + 1;
      }
      i := i + 1;
    }
  }

  // The finished index, and per group its rules that are not domain suffixes.
  ghost predicate Ready<O>(slots: seq<PI.Slot>, hash: Text -> nat, view: PI.View, gs: seq<seq<Cond<O>>>,
                           others: seq<seq<O>>)
  {
    && Parsed(gs)
    && (slots != [] ==>
          && PI.Table(slots, hash, view) && FirstGroups(view.contents, gs, |gs|, 0)
          && |others| == |gs| && forall i :: 0 <= i < |gs| ==> others[i] == Others(gs[i]))
  }

  // build_domain_index; without domain rules there is no index at all.
  method BuildIndex<O>(gs: seq<seq<Cond<O>>>, hash: Text -> nat)
    returns (slots: seq<PI.Slot>, ghost view: PI.View, others: seq<seq<O>>)
    requires Parsed(gs)
    ensures Ready(slots, hash, view, gs, others)
  {
    hide PI.Table, FirstGroups, Parsed;
    NothingRead(gs);
    var count := CountDomains(gs);
    if count == 0 {
      return [], PI.View(map[], map[]), [];
    }
    var size := PI.IndexSlots(count, 8, 2);
    var index := new PI.Index(size, hash, true);
    others := [];
    var i: nat := 0;
    while i < |gs|
      invariant i <= |gs| && index.Valid()
      invariant FirstGroups(index.view.contents, gs, i, 0)
      invariant |index.view.contents| <= DomainCount(gs, i, 0)
      invariant |others| == i && forall k :: 0 <= k < i ==> others[k] == Others(gs[k])
    {
      var list := FillGroup(gs, i, index, size);
      others := others + [list];
      NextGroup(index.view.contents, gs, i);
      i := i + 1;
    }
    slots, view := index.slots[..], index.view;
  }

  // domain_index_insert keeps the first group a value was seen in.
  method AddDomain<O>(gs: seq<seq<Cond<O>>>, i: nat, j: nat, index: PI.Index)
    requires i < |gs| && j < |gs[i]| && gs[i][j].Domain? && index.Valid() && index.keepFirst
    requires FirstGroups(index.view.contents, gs, i, j)
    requires |index.view.contents| < index.slots.Length
    modifies index, index.slots
    ensures index.Valid() && FirstGroups(index.view.contents, gs, i, j + 1)
    ensures |index.view.contents| <= |old(index.view.contents)| + 1
  {
    hide FirstGroups, PI.Table;
    ghost var before := index.view.contents;
    var ok := index.Insert(gs[i][j].value, i);
    FirstGroupsStep(before, gs, i, j, index.view.contents);
  }

  method FillGroup<O>(gs: seq<seq<Cond<O>>>, i: nat, index: PI.Index, size: nat) returns (list: seq<O>)
    requires i < |gs| && index.Valid() && index.keepFirst
    requires size == index.slots.Length && size > DomainCount(gs, |gs|, 0)
    requires FirstGroups(index.view.contents, gs, i, 0)
    requires |index.view.contents| <= DomainCount(gs, i, 0)
    modifies index, index.slots
    ensures index.Valid() && list == Others(gs[i])
    ensures FirstGroups(index.view.contents, gs, i, |gs[i]|)
    ensures |index.view.contents| <= DomainCount(gs, i, |gs[i]|)
  {
    hide FirstGroups, PI.Table, Parsed, Others, DomainCount;
    var g := gs[i];
    list := [];
    var j: nat := 0;
    OthersNone(g);
    while j < |g|
      invariant j <= |g| && index.Valid()
      invariant FirstGroups(index.view.contents, gs, i, j)
      invariant |index.view.contents| <= DomainCount(gs, i, j)
      invariant list == Others(g[..j])
    {
      OthersStep(g, j);
      CountStep(gs, i, j);
      if g[j].Other? {
        FirstGroupsStep(index.view.contents, gs, i, j, index.view.contents);
        list := list + [g[j].rule];
      } else {
        AddDomain(gs, i, j, index);
      }
      j := j + 1;
    }
    assert g[..j] == g;
  }

  // ---- Looking up ----

  // Groups with a domain rule whose suffix of the key starts before p.
  ghost function GroupsBefore<O>(gs: seq<seq<Cond<O>>>, key: Text, p: nat): set<nat> {
    set g | 0 <= g < |gs| && HasSuffixBefore(gs[g], key, p)
  }

  ghost predicate HasSuffixBefore<O>(g: seq<Cond<O>>, key: Text, p: nat) {
    exists j :: 0 <= j < |g| && g[j].Domain? && MatchDomain(key, g[j].value) && |key| - |g[j].value| < p
  }

  lemma SuffixesGrow<O>(g: seq<Cond<O>>, key: Text, p: nat, q: nat)
    requires p <= q
    ensures HasSuffixBefore(g, key, p) ==> HasSuffixBefore(g, key, q)
  {
  }

  // A suffix between p and q is the one at p, indexed under its first group.
  lemma NewSuffix<O>(contents: map<Text, seq<nat>>, gs: seq<seq<Cond<O>>>, key: Text, p: nat, q: nat, g: nat)
    requires Parsed(gs) && FirstGroups(contents, gs, |gs|, 0) && IsLower(key) && g < |gs|
    requires p < q <= |key| && LabelStart(key, p)
    requires forall i :: p < i < q ==> !LabelStart(key, i)
    requires HasSuffixBefore(gs[g], key, q) && !HasSuffixBefore(gs[g], key, p)
    ensures key[p..] in contents && contents[key[p..]][0] <= g
  {
    var j :| 0 <= j < |gs[g]| && gs[g][j].Domain? && MatchDomain(key, gs[g][j].value)
             && |key| - |gs[g][j].value| < q;
    SuffixAt(key, gs[g][j].value, p, q);
    assert Before(g, j, |gs|, 0);
  }

  lemma IndexedMatches<O>(contents: map<Text, seq<nat>>, gs: seq<seq<Cond<O>>>, key: Text, p: nat, q: nat)
    requires Parsed(gs) && FirstGroups(contents, gs, |gs|, 0) && IsLower(key)
    requires p < q <= |key| && LabelStart(key, p)
    requires forall i :: p < i < q ==> !LabelStart(key, i)
    requires key[p..] in contents
    ensures contents[key[p..]][0] < |gs| && HasSuffixBefore(gs[contents[key[p..]][0]], key, q)
  {
    var v := key[p..];
    var g := contents[v][0];
    assert HasBefore(gs, v, g, |gs|, 0);
    var l :| 0 <= l < |gs[g]| && gs[g][l] == Domain(v);
    SuffixAt(key, v, p, q);
  }

  // One turn of the suffix loop: the suffix at p, found or not.
  lemma SuffixTurn<O>(contents: map<Text, seq<nat>>, gs: seq<seq<Cond<O>>>, key: Text, p: nat, q: nat, best: nat)
    requires Parsed(gs) && FirstGroups(contents, gs, |gs|, 0) && IsLower(key)
    requires p < q <= |key| && LabelStart(key, p)
    requires forall i :: p < i < q ==> !LabelStart(key, i)
    requires AC.Lowered(AC.NONE, GroupsBefore(gs, key, p), best)
    ensures var next := if key[p..] in contents && contents[key[p..]][0] < best then contents[key[p..]][0] else best;
            AC.Lowered(AC.NONE, GroupsBefore(gs, key, q), next)
  {
    var v := key[p..];
    var before, after := GroupsBefore(gs, key, p), GroupsBefore(gs, key, q);
    forall g | g in after && g !in before
      ensures v in contents && contents[v][0] <= g
    {
      NewSuffix(contents, gs, key, p, q, g);
    }
    if v in contents {
      IndexedMatches(contents, gs, key, p, q);
      assert contents[v][0] in after;
    }
    forall g | g in before
      ensures g in after
    {
      SuffixesGrow(gs[g], key, p, q);
    }
    hide GroupsBefore, FirstGroups, Parsed, LabelStart;
  }

  // domain_index_match: the first group with a matching domain rule.
  method IndexMatch<O>(slots: seq<PI.Slot>, hash: Text -> nat, ghost view: PI.View, ghost gs: seq<seq<Cond<O>>>,
                       name: Text) returns (best: nat)
    requires slots != [] && PI.Table(slots, hash, view) && FirstGroups(view.contents, gs, |gs|, 0) && Parsed(gs)
    ensures AC.Lowered(AC.NONE, GroupsBefore(gs, Lower(name), |name|), best)
  {
    hide FirstGroups, PI.Table, HasSuffixBefore;
    best := AC.NONE;
    var key := Lower(name);
    LowerIdempotent(name);
    NothingBefore(gs, key);
    var suffix: nat := 0;
    while suffix < |key|
      invariant suffix <= |key| && (LabelStart(key, suffix) || suffix == |key|)
      invariant AC.Lowered(AC.NONE, GroupsBefore(gs, key, suffix), best)
    {
      var next := NextLabel(key, suffix);
      SuffixTurn(view.contents, gs, key, suffix, next, best);
      var found := PI.Find(slots, hash, view, key[suffix..]);
      IndexedOnce(view.contents, gs, key[suffix..]);
      if found.Some? && found.value[0] < best {
        best := found.value[0];
        if best == 0 {
          SuffixesGrow(gs[0], key, next, |key|);
          break;
        }
      }
      suffix := next;
    }
  }

  lemma IndexedOnce<O>(contents: map<Text, seq<nat>>, gs: seq<seq<Cond<O>>>, v: Text)
    requires FirstGroups(contents, gs, |gs|, 0)
    ensures v in contents ==> |contents[v]| == 1 && contents[v][0] < |gs|
  {
  }

  lemma NothingBefore<O>(gs: seq<seq<Cond<O>>>, key: Text)
    ensures AC.Lowered(AC.NONE, GroupsBefore(gs, key, 0), AC.NONE)
  {
  }

  // match_group.
  method MatchGroup<O>(g: seq<Cond<O>>, others: seq<O>, holds: O -> bool, name: Option<Text>, skipDomain: bool)
    returns (r: bool)
    requires skipDomain ==> others == Others(g)
    ensures r <==> if skipDomain then exists o :: o in others && holds(o) else GroupHit(g, holds, name)
  {
    if skipDomain {
      var j := 0;
      while j < |others|
        invariant 0 <= j <= |others| && forall i :: 0 <= i < j ==> !holds(others[i])
      {
        if holds(others[j]) {
          return true;
        }
        j := j + 1;
      }
      return false;
    }
    var j := 0;
    while j < |g|
      invariant 0 <= j <= |g| && forall i :: 0 <= i < j ==> !CondHit(g[i], holds, name)
    {
      if CondHit(g[j], holds, name) {
        return true;
      }
      j := j + 1;
    }
    return false;
  }

  // With its domain rules answered by the index, the rest of a group decides.
  lemma HitByParts<O>(g: seq<Cond<O>>, holds: O -> bool, name: Text)
    requires forall j :: 0 <= j < |g| && g[j].Domain? ==> g[j].value != []
    ensures GroupHit(g, holds, Some(name)) <==>
              (exists o :: o in Others(g) && holds(o)) || HasSuffixBefore(g, Lower(name), |name|)
  {
    OthersMembers(g);
    forall v
      ensures MatchDomain(Lower(name), v) == MatchDomain(name, v)
    {
      MatchDomainFolded(name, v);
    }
    if o :| o in Others(g) && holds(o) {
      var j :| 0 <= j < |g| && g[j] == Other(o);
      assert CondHit(g[j], holds, Some(name));
    }
    if HasSuffixBefore(g, Lower(name), |name|) {
      var j :| 0 <= j < |g| && g[j].Domain? && MatchDomain(Lower(name), g[j].value);
      assert CondHit(g[j], holds, Some(name));
    }
    if GroupHit(g, holds, Some(name)) {
      var j :| 0 <= j < |g| && CondHit(g[j], holds, Some(name));
      if g[j].Other? {
        assert g[j].rule in Others(g);
      }
    }
  }

  // A group without domain rules is its list of other rules.
  lemma PureGroup<O>(g: seq<Cond<O>>, holds: O -> bool, name: Text)
    requires |Others(g)| == |g|
    ensures GroupHit(g, holds, Some(name)) <==> exists o :: o in Others(g) && holds(o)
  {
    OthersMembers(g);
    hide Others;
    HitByParts(g, holds, name);
  }

  lemma {:induction false} FirstSkips<O>(gs: seq<seq<Cond<O>>>, holds: O -> bool, name: Option<Text>, i: nat, n: nat)
    requires i <= n <= |gs| && forall k :: i <= k < n ==> !GroupHit(gs[k], holds, name)
    ensures First(gs, holds, name, i) == First(gs, holds, name, n)
    decreases n - i
  {
    if i < n {
      FirstSkips(gs, holds, name, i + 1, n);
    }
  }

  // The leading groups without domain rules are decided first.
  method LeadingScan<O>(gs: seq<seq<Cond<O>>>, others: seq<seq<O>>, holds: O -> bool, name: Text)
    returns (start: nat, hit: bool)
    requires |others| == |gs| && forall i :: 0 <= i < |gs| ==> others[i] == Others(gs[i])
    ensures start <= |gs| && forall k :: 0 <= k < start ==> !GroupHit(gs[k], holds, Some(name))
    ensures hit ==> start < |gs| && GroupHit(gs[start], holds, Some(name))
  {
    hide Others, GroupHit;
    start := 0;
    while start < |gs|
      invariant start <= |gs| && forall k :: 0 <= k < start ==> !GroupHit(gs[k], holds, Some(name))
    {
      if others[start] == [] || |others[start]| != |gs[start]| {
        return start, false;
      }
      var r := MatchGroup(gs[start], others[start], holds, Some(name), true);
      PureGroup(gs[start], holds, name);
      if r {
        return start, true;
      }
      start := start + 1;
    }
    return start, false;
  }

  // Groups from..limit, in order; skipping domain rules only when no group in
  // the range has one that matches.
  method Scan<O>(gs: seq<seq<Cond<O>>>, others: seq<seq<O>>, holds: O -> bool, name: Option<Text>,
                 from: nat, limit: nat, skipDomain: bool) returns (r: Option<nat>)
    requires from <= limit <= |gs|
    requires skipDomain ==>
               && |others| == |gs|
               && forall k :: from <= k < limit ==>
                    && others[k] == Others(gs[k])
                    && (GroupHit(gs[k], holds, name) <==> exists o :: o in others[k] && holds(o))
    ensures r.Some? ==> from <= r.value < limit && GroupHit(gs[r.value], holds, name)
    ensures forall k :: from <= k < (if r.Some? then r.value else limit) ==> !GroupHit(gs[k], holds, name)
  {
    hide GroupHit;
    var i := from;
    while i < limit
      invariant from <= i <= limit && forall k :: from <= k < i ==> !GroupHit(gs[k], holds, name)
    {
      var hit := MatchGroup(gs[i], if skipDomain then others[i] else [], holds, name, skipDomain);
      if hit {
        return Some(i);
      }
      i := i + 1;
    }
    return None;
  }

  // The whole selection: leading scan, index candidate, bounded rescan.
  method Select<O>(gs: seq<seq<Cond<O>>>, slots: seq<PI.Slot>, hash: Text -> nat, ghost view: PI.View,
                   others: seq<seq<O>>, holds: O -> bool, name: Option<Text>, indexed: bool)
    returns (r: Option<nat>)
    requires Ready(slots, hash, view, gs, others)
    requires indexed ==> slots != [] && name.Some?
    ensures r == First(gs, holds, name, 0)
  {
    hide GroupHit, HasSuffixBefore, FirstGroups, PI.Table;
    if !indexed {
      r := Scan(gs, [], holds, name, 0, |gs|, false);
      FirstSkips(gs, holds, name, 0, if r.Some? then r.value else |gs|);
      return;
    }
    var start, hit := LeadingScan(gs, others, holds, name.value);
    FirstSkips(gs, holds, name, 0, start);
    if hit {
      return Some(start);
    }
    var candidate := IndexMatch(slots, hash, view, gs, name.value);
    var limit := if candidate != AC.NONE then candidate else |gs|;
    BoundedByIndex(gs, others, holds, name.value, candidate);
    assert start <= limit;
    r := Scan(gs, others, holds, name, start, limit, true);
    FirstSkips(gs, holds, name, start, if r.Some? then r.value else limit);
    if r.None? && candidate != AC.NONE {
      return Some(candidate);
    }
  }

  // Below the index hit only the other rules can match; the hit itself matches.
  lemma BoundedByIndex<O>(gs: seq<seq<Cond<O>>>, others: seq<seq<O>>, holds: O -> bool, name: Text, candidate: nat)
    requires Parsed(gs) && |others| == |gs| && forall i :: 0 <= i < |gs| ==> others[i] == Others(gs[i])
    requires AC.Lowered(AC.NONE, GroupsBefore(gs, Lower(name), |name|), candidate)
    ensures candidate == AC.NONE || (candidate < |gs| && GroupHit(gs[candidate], holds, Some(name)))
    ensures forall k :: 0 <= k < (if candidate == AC.NONE then |gs| else candidate) ==>
              (GroupHit(gs[k], holds, Some(name)) <==> exists o :: o in others[k] && holds(o))
  {
    hide GroupHit, HasSuffixBefore;
    var found := GroupsBefore(gs, Lower(name), |name|);
    forall k | 0 <= k < |gs|
      ensures GroupHit(gs[k], holds, Some(name)) <==> (exists o :: o in others[k] && holds(o)) || k in found
    {
      HitByParts(gs[k], holds, name);
    }
  }
}
