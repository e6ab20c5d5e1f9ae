// Which refusals may be remembered for a name: those whose question is the
// one that was asked.
module DnsRefusal {
  import opened Bytes
  import opened Names
  import opened Labels
  import opened Numbers
  import opened DnsQuery
  import opened DnsAnswer

  predicate SameFolded(a: Text, b: Text) {
    Lower(a) == Lower(b)
  }

  // The labels spell the name, letter case aside.
  predicate Fits(name: Text, ls: seq<Text>)
    decreases |ls|
  {
    if ls == [] then name == []
    else
      var n := |ls[0]|;
      && n <= |name| && SameFolded(name[..n], ls[0])
      && (|name| == n || name[n] == DOT)
      && Fits(if |name| == n then [] else name[n + 1..], ls[1..])
  }

  // With no octet to point at, every pointer is refused.
  const NOWHERE: nat := 0

  predicate RightQuestion(b: Text, name: Text, qtype: nat) {
    match ReadName(b, NOWHERE)
    case Bad => false
    case Named(n, u) =>
      && Fits(name, n.labels) && |b| - u >= 4
      && Be16(b[u], b[u + 1]) == qtype && Be16(b[u + 2], b[u + 3]) == 1
  }

  // A refusal to this query: an empty answer, or NXDOMAIN.
  predicate RightHeader(data: Text, id: nat, rc: Outcome) {
    && |data| >= 12
    && Be16(data[0], data[1]) == id
    && data[2] / 128 == 1 && data[2] / 2 % 2 == 0
    && ((rc.Declined? && data[3] % 16 == 0) || (rc.Failed? && data[3] % 16 == 3))
    && Be16(data[4], data[5]) == 1
  }

  predicate Cacheable(data: Text, id: nat, name: Text, qtype: nat, rc: Outcome) {
    RightHeader(data, id, rc) && RightQuestion(data[12..], name, qtype)
  }

  // ---- What it means for labels to fit ----

  predicate NoneEmpty(ls: seq<Text>) {
    forall i :: 0 <= i < |ls| ==> ls[i] != []
  }

  lemma {:induction false} FitsMeans(name: Text, ls: seq<Text>)
    requires NoneEmpty(ls)
    ensures Fits(name, ls) <==> SameFolded(name, Join(ls)) || (ls != [] && SameFolded(name, Join(ls) + [DOT]))
    decreases |ls|
  {
    hide SameFolded;
    if ls == [] {
      OnlyItself(name);
    } else {
      var l, more := ls[0], ls[1..];
      var rest := if |name| <= |l| then [] else name[|l| + 1..];
      FitsMeans(rest, more);
      OnlyItself(rest);
      if more == [] {
        LastLabel(name, l);
        assert Join(ls) == l;
      } else {
        assert more[0] != [];
        MoreFits(name, l, rest, Join(more));
      }
    }
  }

  lemma OnlyItself(name: Text)
    ensures SameFolded(name, []) <==> name == []
  {
  }

  lemma MoreFits(name: Text, l: Text, rest: Text, more: Text)
    requires more != [] && rest == if |name| <= |l| then [] else name[|l| + 1..]
    ensures SameFolded(name, l + [DOT] + more) || SameFolded(name, l + [DOT] + more + [DOT])
       <==> |l| <= |name| && SameFolded(name[..|l|], l) && (|name| == |l| || name[|l|] == DOT)
            && (SameFolded(rest, more) || SameFolded(rest, more + [DOT]))
  {
    MoreLabels(name, l, more);
    MoreLabels(name, l, more + [DOT]);
    assert l + [DOT] + more + [DOT] == l + [DOT] + (more + [DOT]);
  }

  lemma LastLabel(name: Text, l: Text)
    ensures SameFolded(name, l) || SameFolded(name, l + [DOT])
       <==> |l| <= |name| && SameFolded(name[..|l|], l) && (|name| == |l| || (name[|l|] == DOT && name[|l| + 1..] == []))
  {
    if |name| == |l| {
      assert name[..|l|] == name;
    } else if |name| == |l| + 1 {
      assert name == name[..|l|] + [name[|l|]];
      FoldedParts(name[..|l|], [name[|l|]], l, [DOT]);
      FoldedDot(name[|l|]);
    }
  }

  lemma FoldedDot(b: byte)
    ensures SameFolded([b], [DOT]) <==> b == DOT
  {
    assert Lower([b])[0] == Lc(b) && Lower([DOT])[0] == DOT;
  }

  lemma FoldedParts(a: Text, b: Text, c: Text, d: Text)
    requires |a| == |c|
    ensures SameFolded(a + b, c + d) <==> SameFolded(a, c) && SameFolded(b, d)
  {
    assert Lower(a + b) == Lower(a) + Lower(b) && Lower(c + d) == Lower(c) + Lower(d);
    if SameFolded(a + b, c + d) {
      assert Lower(a) == Lower(a + b)[..|a|] && Lower(b) == Lower(a + b)[|a|..];
      assert Lower(c) == Lower(c + d)[..|c|] && Lower(d) == Lower(c + d)[|c|..];
    }
  }

  lemma MoreLabels(name: Text, l: Text, more: Text)
    requires more != []
    ensures SameFolded(name, l + [DOT] + more)
       <==> |l| < |name| && SameFolded(name[..|l|], l) && name[|l|] == DOT && SameFolded(name[|l| + 1..], more)
  {
    if |l| < |name| {
      var a, b, c := name[..|l|], [name[|l|]], name[|l| + 1..];
      assert name == a + b + c;
      FoldedParts(a + b, c, l + [DOT], more);
      FoldedParts(a, b, l, [DOT]);
      FoldedDot(name[|l|]);
    }
  }

  lemma TrimFolded(a: Text, b: Text)
    requires b != [] && b[|b| - 1] != DOT
    ensures SameFolded(Trim(a), b) <==> SameFolded(a, b) || SameFolded(a, b + [DOT])
  {
    if a != [] {
      var n := |a| - 1;
      assert a == a[..n] + [a[n]] && b == b[..|b| - 1] + [b[|b| - 1]];
      FoldedDot(a[n]);
      if n == |b| {
        FoldedParts(a[..n], [a[n]], b, [DOT]);
      } else if |a| == |b| {
        FoldedParts(a[..n], [a[n]], b[..n], [b[n]]);
        if a[n] == DOT {
          FoldedDot(b[n]);
        }
      }
    }
  }

  lemma {:induction false} JoinEnds(ls: seq<Text>)
    requires ls != [] && NoneEmpty(ls) && DotFree(ls)
    ensures Join(ls) != [] && Join(ls)[|Join(ls)| - 1] != DOT
  {
    if |ls| == 1 {
      assert ls[0][|ls[0]| - 1] in ls[0];
    } else {
      JoinEnds(ls[1..]);
    }
  }

  // The question of another query fits exactly when the names are the same,
  // letter case and the root's dot aside.
  lemma QuestionEchoed(name: Text, qtype: nat, other: Text, otherType: nat, x: Text)
    requires Askable(other) && otherType < 0x10000
    ensures RightQuestion(Question(other, otherType) + x, name, qtype)
       <==> SameFolded(Trim(name), Trim(other)) && qtype == otherType
  {
    hide Octets16, Be16, Split, LabelsOk, ReadName, Join, Fits, SameFolded, Wire;
    var ls := Split(Trim(other));
    var n := WireName(ls, None);
    var rest := Octets16(otherType) + [0, 1] + x;
    var b := Question(other, otherType) + x;
    assert b == NameOctets(n) + rest;
    NameIsRead(n, rest, NOWHERE);
    var u := |NameOctets(n)|;
    assert forall k :: 0 <= k < 4 ==> b[u + k] == rest[k];
    Be16OfOctets(otherType);
    OneIs();
    JoinSplit(Trim(other));
    LabelsNonEmpty(ls);
    FitsMeans(name, ls);
    JoinEnds(ls);
    TrimFolded(name, Trim(other));
  }

  lemma OneIs()
    ensures Be16(0, 1) == 1
  {
  }

  lemma LabelsNonEmpty(ls: seq<Text>)
    requires LabelsOk(ls)
    ensures NoneEmpty(ls)
  {
  }

  // Labels that fit are those of the name if and only if none has a dot in
  // it: a dot inside a label is taken for one between two.
  lemma FitsIsSameLabels(name: Text, ls: seq<Text>)
    requires ls != [] && NoneEmpty(ls) && Fits(name, ls)
    ensures DotFree(ls) ==> Split(Trim(Lower(name))) == Folded(ls)
    ensures Split(Trim(Lower(name))) == Folded(ls) ==> DotFree(ls)
  {
    hide Split, Join, Fits;
    if DotFree(ls) {
      FitsMeans(name, ls);
      JoinFolded(ls);
      FoldedDots(ls);
      JoinEnds(Folded(ls));
      LowerIdempotent(name);
      LowerIdempotent(Join(ls));
      assert Lower(Join(ls) + [DOT]) == Lower(Join(ls)) + [DOT];
      LowerIdempotent(Join(Folded(ls)) + [DOT]);
      TrimExact(Lower(name), Join(Folded(ls)));
      SplitJoin(Folded(ls));
    }
    if Split(Trim(Lower(name))) == Folded(ls) {
      JoinSplit(Trim(Lower(name)));
      FoldedDots(ls);
    }
  }

  lemma TrimExact(a: Text, b: Text)
    requires b != [] && b[|b| - 1] != DOT && (a == b || a == b + [DOT])
    ensures Trim(a) == b
  {
    if a == b + [DOT] {
      assert a[|a| - 1] == DOT && a[..|a| - 1] == b;
    }
  }

  function Folded(ls: seq<Text>): (r: seq<Text>)
    ensures |r| == |ls| && forall i :: 0 <= i < |ls| ==> r[i] == Lower(ls[i])
  {
    seq(|ls|, i requires 0 <= i < |ls| => Lower(ls[i]))
  }

  lemma {:induction false} JoinFolded(ls: seq<Text>)
    ensures Join(Folded(ls)) == Lower(Join(ls))
  {
    if |ls| > 1 {
      JoinFolded(ls[1..]);
      assert Folded(ls)[1..] == Folded(ls[1..]);
      var a, b := ls[0], Join(ls[1..]);
      assert Lower(a + [DOT] + b) == Lower(a) + [DOT] + Lower(b);
    }
  }

  lemma FoldedDots(ls: seq<Text>)
    ensures DotFree(Folded(ls)) <==> DotFree(ls)
    ensures NoneEmpty(ls) ==> NoneEmpty(Folded(ls))
  {
    forall i | 0 <= i < |ls|
      ensures DOT in Folded(ls)[i] <==> DOT in ls[i]
      ensures ls[i] != [] ==> Folded(ls)[i] != []
    {
      DotFolded(ls[i]);
    }
  }

  lemma DotFolded(l: Text)
    ensures DOT in Lower(l) <==> DOT in l
  {
    if DOT in Lower(l) {
      var k :| 0 <= k < |l| && Lower(l)[k] == DOT;
      assert l[k] == DOT;
    }
    if DOT in l {
      var k :| 0 <= k < |l| && l[k] == DOT;
      assert Lower(l)[k] == DOT;
    }
  }

  // One label "a.b" is taken for the name of two.
  lemma DottedLabelFits()
    ensures var a, b: byte := 97, 98; Fits([a, DOT, b], [[a, DOT, b]]) && Split([a, DOT, b]) == [[a], [b]]
  {
    var a, b: byte := 97, 98;
    var n := [a, DOT, b];
    assert n[..3] == n;
    FirstDotIs(n, 1);
    assert n[2..] == [b] && n[..1] == [a];
    FirstDotIs([b], 1);
  }

  // ---- One pass over the question ----

  lemma QuestionTurn(data: Text, p: nat, name: Text, qtype: nat)
    requires p < |data| && data[p] != 0
    ensures var n: nat := data[p];
            RightQuestion(data[p..], name, qtype) ==
            if n >= 64 || |data| - p - 1 < n || |name| < n then false
            else
              && SameFolded(name[..n], data[p + 1..p + 1 + n])
              && (|name| == n || name[n] == DOT)
              && RightQuestion(data[p + 1 + n..], if |name| == n then [] else name[n + 1..], qtype)
  {
    hide SameFolded, Fits, Be16, AddLabel;
    var n: nat := data[p];
    var b := data[p..];
    if n >= 192 {
      PointersRefused(b);
    } else if n < 64 && |b| >= 1 + n {
      assert b[1 + n..] == data[p + 1 + n..] && b[1..1 + n] == data[p + 1..p + 1 + n];
      match ReadName(b[1 + n..], NOWHERE)
      case Bad =>
      case Named(m, u) =>
        LabelAdded(data[p + 1..p + 1 + n], m, u);
        FitsCons(name, data[p + 1..p + 1 + n], m.labels);
    }
  }

  lemma PointersRefused(b: Text)
    requires b != [] && b[0] >= 192
    ensures ReadName(b, NOWHERE).Bad?
  {
  }

  lemma LabelAdded(l: Text, m: WireName, u: nat)
    ensures AddLabel(l, Named(m, u)) == Named(WireName([l] + m.labels, m.pointer), 1 + |l| + u)
  {
  }

  lemma FitsCons(name: Text, l: Text, ls: seq<Text>)
    ensures Fits(name, [l] + ls)
       <==> && |l| <= |name| && SameFolded(name[..|l|], l)
            && (|name| == |l| || name[|l|] == DOT)
            && Fits(if |name| == |l| then [] else name[|l| + 1..], ls)
  {
    assert ([l] + ls)[1..] == ls;
  }

  lemma QuestionEnds(data: Text, p: nat, name: Text, qtype: nat)
    requires p < |data| && data[p] == 0
    ensures RightQuestion(data[p..], name, qtype)
       <==> && name == [] && |data| - p - 1 >= 4
            && Be16(data[p + 1], data[p + 2]) == qtype && Be16(data[p + 3], data[p + 4]) == 1
  {
  }

  method SameLabel(data: Text, p: nat, name: Text, pos: nat, n: nat) returns (same: bool)
    requires p + n <= |data| && pos + n <= |name|
    ensures same == SameFolded(name[pos..pos + n], data[p..p + n])
  {
    ghost var l, r := name[pos..pos + n], data[p..p + n];
    var i := 0;
    while i < n
      invariant i <= n && forall k :: 0 <= k < i ==> Lc(l[k]) == Lc(r[k])
    {
      if Lc(data[p + i]) != Lc(name[pos + i]) {
        assert Lower(l)[i] != Lower(r)[i];
        return false;
      }
      assert l[i] == name[pos + i] && r[i] == data[p + i];
      i := i + 1;
    }
    same := true;
  }

  // doh_negative_cacheable
  method NegativeCacheable(data: Text, id: nat, name: Text, qtype: nat, rc: Outcome) returns (yes: bool)
    ensures yes == Cacheable(data, id, name, qtype, rc)
  {
    hide Be16, RightQuestion, SameFolded;
    if !rc.Declined? && !rc.Failed? {
      return false;
    }
    if |data| < 12 || Be16(data[0], data[1]) != id {
      return false;
    }
    var rcode := data[3] % 16;
    if data[2] / 128 == 0 || data[2] / 2 % 2 != 0 {
      return false;
    }
    if (rc.Declined? && rcode != 0) || (rc.Failed? && rcode != 3) {
      return false;
    }
    if Be16(data[4], data[5]) != 1 {
      return false;
    }
    var p: nat, pos: nat := 12, 0;
    assert name[0..] == name;
    while true
      invariant 12 <= p <= |data| && pos <= |name|
      invariant RightQuestion(data[12..], name, qtype) == RightQuestion(data[p..], name[pos..], qtype)
      decreases |data| - p
    {
      if p >= |data| {
        NoQuestion(name[pos..], qtype);
        assert data[p..] == [];
        return false;
      }
      var n: nat := data[p];
      if n == 0 {
        break;
      }
      QuestionTurn(data, p, name[pos..], qtype);
      p := p + 1;
      if n / 64 != 0 || |data| - p < n || pos + n > |name| {
        return false;
      }
      var same := SameLabel(data, p, name, pos, n);
      assert name[pos..][..n] == name[pos..pos + n];
      if !same {
        return false;
      }
      assert pos + n < |name| ==> name[pos..][n + 1..] == name[pos + n + 1..];
      assert pos + n == |name| ==> name[pos + n..] == [];
      pos, p := pos + n, p + n;
      if pos < |name| {
        if name[pos] != DOT {
          return false;
        }
        pos := pos + 1;
      }
    }
    QuestionEnds(data, p, name[pos..], qtype);
    p := p + 1;
    if pos != |name| || |data| - p < 4 {
      return false;
    }
    yes := Be16(data[p], data[p + 1]) == qtype && Be16(data[p + 2], data[p + 3]) == 1;
  }

  lemma NoQuestion(name: Text, qtype: nat)
    ensures !RightQuestion([], name, qtype)
  {
  }
}
