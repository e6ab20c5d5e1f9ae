// Dotted names and the labels between the dots.
module Labels {
  import opened Bytes
  import opened Names

  // Where the first dot is, or the end.
  function FirstDot(s: Text): (d: nat)
    ensures d <= |s| && (d < |s| ==> s[d] == DOT)
    ensures forall i :: 0 <= i < d ==> s[i] != DOT
  {
    if s == [] || s[0] == DOT then 0 else 1 + FirstDot(s[1..])
  }

  function Split(s: Text): (ls: seq<Text>)
    ensures ls != []
    decreases |s|
  {
    var d := FirstDot(s);
    if d == |s| then [s] else [s[..d]] + Split(s[d + 1..])
  }

  function Join(ls: seq<Text>): Text {
    if ls == [] then [] else if |ls| == 1 then ls[0] else ls[0] + [DOT] + Join(ls[1..])
  }

  predicate DotFree(ls: seq<Text>) {
    forall i :: 0 <= i < |ls| ==> DOT !in ls[i]
  }

  // Section 2.3.4 of RFC 1035: a label is 63 octets or less, and only the
  // root's is empty.
  predicate LabelsOk(ls: seq<Text>) {
    forall i :: 0 <= i < |ls| ==> 1 <= |ls[i]| <= 63
  }

  predicate NoDot(s: Text, i: nat, d: nat)
    requires i <= d <= |s|
  {
    forall k :: i <= k < d ==> s[k] != DOT
  }

  lemma NoDotGrows(s: Text, i: nat, d: nat)
    requires i <= d < |s| && NoDot(s, i, d) && s[d] != DOT
    ensures NoDot(s, i, d + 1)
  {
  }

  lemma FirstDotIs(s: Text, d: nat)
    requires d <= |s| && (d < |s| ==> s[d] == DOT)
    requires forall i :: 0 <= i < d ==> s[i] != DOT
    ensures FirstDot(s) == d
  {
    var e := FirstDot(s);
    assert !(e < d) && !(d < e);
  }

  lemma {:induction false} JoinSplit(s: Text)
    ensures Join(Split(s)) == s && DotFree(Split(s))
    decreases |s|
  {
    var d := FirstDot(s);
    if d < |s| {
      JoinSplit(s[d + 1..]);
      assert Split(s)[1..] == Split(s[d + 1..]);
      assert s == s[..d] + [DOT] + s[d + 1..];
    }
  }

  lemma {:induction false} SplitJoin(ls: seq<Text>)
    requires ls != [] && DotFree(ls)
    ensures Split(Join(ls)) == ls
  {
    hide FirstDot;
    var s := Join(ls);
    if |ls| == 1 {
      FirstDotIs(s, |s|);
    } else {
      var d, rest := |ls[0]|, Join(ls[1..]);
      assert s == ls[0] + [DOT] + rest;
      FirstDotIs(s, d);
      assert s[d + 1..] == rest && s[..d] == ls[0];
      SplitJoin(ls[1..]);
      assert ls == [ls[0]] + ls[1..];
    }
  }

  // The label that runs from i to d is the next one.
  lemma NextIs(s: Text, i: nat, d: nat)
    requires i <= d <= |s| && (d < |s| ==> s[d] == DOT) && NoDot(s, i, d)
    ensures Split(s[i..]) == if d == |s| then [s[i..d]] else [s[i..d]] + Split(s[d + 1..])
  {
    FirstDotIs(s[i..], d - i);
    assert s[i..][..d - i] == s[i..d];
    if d == |s| {
      assert s[i..] == s[i..d];
    } else {
      assert s[i..][d - i + 1..] == s[d + 1..];
    }
  }

  lemma LongFirst(s: Text, i: nat, d: nat)
    requires d <= |s| && i + 63 < d && NoDot(s, i, d)
    ensures !LabelsOk(Split(s[i..]))
  {
    var t := s[i..];
    assert forall k :: 0 <= k < d - i ==> t[k] == s[i + k];
    assert FirstDot(t) >= d - i;
    assert |Split(t)[0]| > 63;
  }

  lemma OneLabel(l: Text)
    ensures LabelsOk([l]) <==> 1 <= |l| <= 63
  {
    assert [l][0] == l;
  }

  lemma LabelsOkSplit(a: seq<Text>, b: seq<Text>)
    ensures LabelsOk(a + b) == (LabelsOk(a) && LabelsOk(b))
  {
    if LabelsOk(a + b) {
      assert forall i :: 0 <= i < |a| ==> a[i] == (a + b)[i];
      assert forall i :: 0 <= i < |b| ==> b[i] == (a + b)[|a| + i];
    }
  }

  // A name without the one dot it may end with.
  function Trim(name: Text): (t: Text)
    ensures |t| <= |name|
  {
    if name != [] && name[|name| - 1] == DOT then name[..|name| - 1] else name
  }
}
