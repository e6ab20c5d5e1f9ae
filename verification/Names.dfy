// Domain names as the matchers see them: labels separated by dots, and the
// suffixes that start at a label.
module Names {
  import opened Bytes

  const DOT: byte := 46

  predicate MatchDomain(host: Text, d: Text) {
    && |d| <= |host|
    && Lower(host[|host| - |d|..]) == d
    && (|host| == |d| || host[|host| - |d| - 1] == DOT)
  }

  lemma MatchDomainFolded(host: Text, d: Text)
    ensures MatchDomain(Lower(host), d) == MatchDomain(host, d)
  {
    if |d| <= |host| {
      LowerIdempotent(host);
      assert Lower(Lower(host)[|host| - |d|..]) == Lower(host[|host| - |d|..]);
    }
  }

  ghost predicate LabelStart(key: Text, p: nat)
    requires p <= |key|
  {
    p == 0 || key[p - 1] == DOT
  }

  // Between one label start and the next, the folded suffix looked up is the
  // only value a domain rule can match.
  lemma SuffixAt(key: Text, v: Text, p: nat, q: nat)
    requires IsLower(key) && IsLower(v) && v != []
    requires p < q <= |key| && LabelStart(key, p)
    requires forall i :: p < i < q ==> !LabelStart(key, i)
    ensures MatchDomain(key, v) && p <= |key| - |v| < q <==> v == key[p..]
  {
    LowerIdempotent(key[p..]);
    if |v| <= |key| {
      LowerIdempotent(key[|key| - |v|..]);
      if MatchDomain(key, v) && p <= |key| - |v| < q {
        assert LabelStart(key, |key| - |v|);
      }
    }
  }

  // What follows the first dot at or after p, or the end.
  method NextLabel(key: Text, p: nat) returns (next: nat)
    requires p < |key|
    ensures p < next <= |key| && (next == |key| || LabelStart(key, next))
    ensures forall i :: p < i < next ==> !LabelStart(key, i)
  {
    next := p;
    while next < |key| && key[next] != DOT
      invariant p <= next <= |key|
      invariant forall i :: p <= i < next ==> key[i] != DOT
    {
      next := next + 1;
    }
    if next < |key| {
      next := next + 1;
    }
  }
}
