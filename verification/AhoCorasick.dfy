// The keyword automaton of the geosite matcher: a trie built in place,
// failure and output links set by a breadth-first pass, and the search that
// lowers best_order.
module AhoCorasick {
  import opened Bytes

  // (ngx_uint_t) -1, the "no order" and "no output" marker.
  const NONE: nat := 0xFFFF_FFFF_FFFF_FFFF

  datatype Edge = Edge(ch: byte, target: nat)

  datatype Node = Node(
    edges: seq<Edge>,
    domains: seq<nat>,
    fail: nat,
    output: nat,
    minOrder: nat)

  const FreshNode := Node([], [], 0, NONE, NONE)

  // ---- Words: the automaton as a finite set of strings ----

  function Parent(w: Text): Text
    requires w != []
  {
    w[..|w| - 1]
  }

  ghost predicate PrefixClosed(words: set<Text>) {
    && [] in words
    && forall w {:trigger Parent(w)} :: w in words && w != [] ==> Parent(w) in words
  }

  // The longest suffix of s that is in the set.
  ghost function Longest(words: set<Text>, s: Text): (r: Text)
    requires [] in words
    ensures r in words && IsSuffix(r, s)
    decreases |s|
  {
    if s in words then s else
      var r := Longest(words, s[1..]);
      assert s[|s| - |r|..] == s[1..][|s[1..]| - |r|..];
      r
  }

  lemma {:induction false} LongestMax(words: set<Text>, s: Text, v: Text)
    requires [] in words
    requires v in words && IsSuffix(v, s)
    ensures IsSuffix(v, Longest(words, s))
    decreases |s|
  {
    if s !in words {
      SuffixOfTail(v, s);
      LongestMax(words, s[1..], v);
    }
  }

  lemma SuffixOfSameLength(v: Text, s: Text)
    requires IsSuffix(v, s) && |v| == |s|
    ensures v == s
  {
    assert s[|s| - |v|..] == s;
  }

  lemma SuffixOfTail(v: Text, s: Text)
    requires IsSuffix(v, s) && v != s
    ensures s != [] && IsSuffix(v, s[1..])
  {
    if |v| == |s| {
      SuffixOfSameLength(v, s);
      assert false;
    }
    assert s[1..][|s| - 1 - |v|..] == s[|s| - |v|..];
  }

  lemma SuffixTransitive(a: Text, b: Text, c: Text)
    requires IsSuffix(a, b) && IsSuffix(b, c)
    ensures IsSuffix(a, c)
  {
    assert c[|c| - |a|..] == c[|c| - |b|..][|b| - |a|..];
  }

  // Reading one octet from a text needs only the longest suffix kept so far:
  // this is why the automaton may forget the text.
  lemma {:induction false} LongestStep(words: set<Text>, s: Text, c: byte)
    requires PrefixClosed(words)
    ensures Longest(words, s + [c]) == Longest(words, Longest(words, s) + [c])
    decreases |s|
  {
    if s !in words {
      assert Parent(s + [c]) == s;
      assert s + [c] !in words;
      assert (s + [c])[1..] == s[1..] + [c];
      LongestStep(words, s[1..], c);
    }
  }

  // What one turn of the failure loop of plain_next preserves.
  lemma FailTurn(words: set<Text>, u: Text, c: byte)
    requires PrefixClosed(words)
    requires u != [] && u + [c] !in words
    ensures Longest(words, u + [c]) == Longest(words, Longest(words, u[1..]) + [c])
  {
    assert (u + [c])[1..] == u[1..] + [c];
    LongestStep(words, u[1..], c);
  }

  // The recurrence build_fail uses for output links: K holds the empty word,
  // standing for "no output", and the words that carry keywords.
  lemma OutputTurn(words: set<Text>, keyed: set<Text>, s: Text)
    requires [] in keyed && keyed <= words
    ensures var f := Longest(words, s);
            Longest(keyed, s) == if f in keyed then f else Longest(keyed, f[1..])
  {
    var f := Longest(words, s);
    var k := Longest(keyed, s);
    LongestMax(words, s, k);
    if f in keyed {
      LongestMax(keyed, s, f);
      SuffixAntisymmetric(f, k);
    } else {
      SuffixOfTail(k, f);
      LongestMax(keyed, f[1..], k);
      var g := Longest(keyed, f[1..]);
      assert f[|f| - |g|..] == f[1..][|f| - 1 - |g|..];
      SuffixTransitive(g, f, s);
      LongestMax(keyed, s, g);
      SuffixAntisymmetric(g, k);
    }
  }

  lemma SuffixAntisymmetric(a: Text, b: Text)
    requires IsSuffix(a, b) && IsSuffix(b, a)
    ensures a == b
  {
    assert a[|a| - |b|..] == a;
  }

  // ---- Lowering best_order ----

  // best is the minimum of its old value and of the orders in hits.
  ghost predicate Lowered(from: nat, hits: set<nat>, best: nat) {
    && best <= from
    && (best == from || best in hits)
    && forall o :: o in hits ==> best <= o
  }

  lemma LoweredIsMinimum(from: nat, hits: set<nat>, a: nat, b: nat)
    requires Lowered(from, hits, a) && Lowered(from, hits, b)
    ensures a == b
  {
  }

  // Orders of the attribute-passing keywords that end somewhere in s[..n].
  ghost function Hits(keys: map<nat, Text>, pass: nat -> bool, s: Text): set<nat> {
    set o | o in keys && pass(o) && Occurs(keys[o], s)
  }

  ghost function EndHits(keys: map<nat, Text>, pass: nat -> bool, s: Text): set<nat> {
    set o | o in keys && pass(o) && IsSuffix(keys[o], s)
  }

  lemma HitsStep(keys: map<nat, Text>, pass: nat -> bool, s: Text, i: nat)
    requires i < |s|
    ensures Hits(keys, pass, s[..i + 1])
         == Hits(keys, pass, s[..i]) + EndHits(keys, pass, s[..i + 1])
  {
    var t := s[..i + 1];
    assert t[..i + 1] == t;
    forall w: Text
      ensures Occurs(w, t) <==> Occurs(w, s[..i]) || IsSuffix(w, t)
    {
      if Occurs(w, t) {
        var k :| 0 <= k <= |t| && IsSuffix(w, t[..k]);
        if k <= i { assert t[..k] == s[..i][..k]; }
      }
      if Occurs(w, s[..i]) {
        var k :| 0 <= k <= i && IsSuffix(w, s[..i][..k]);
        assert t[..k] == s[..i][..k];
      }
      if IsSuffix(w, t) { assert IsSuffix(w, t[..i + 1]); }
    }
  }

  // ---- The trie as a value ----

  // What the nodes are meant to spell: words[i] is the path to node i, ids its
  // inverse, keys the keywords inserted so far by order.
  datatype Shape = Shape(words: seq<Text>, ids: map<Text, nat>, keys: map<nat, Text>) {
    ghost function KeyedWords(): (r: set<Text>)
      ensures [] in r
    {
      {[]} + set o | o in keys :: keys[o]
    }
  }

  ghost predicate Numbered(sh: Shape) {
    && 1 <= |sh.words| && sh.words[0] == []
    && (forall i :: 0 <= i < |sh.words| ==> sh.words[i] in sh.ids && sh.ids[sh.words[i]] == i)
    && (forall w {:trigger sh.ids[w]} :: w in sh.ids ==>
          sh.ids[w] < |sh.words| && sh.words[sh.ids[w]] == w)
    && PrefixClosed(sh.ids.Keys)
  }

  // Every edge extends its node's word, and no octet has two edges.
  ghost predicate EdgesSpell(ns: seq<Node>, sh: Shape, i: nat)
    requires i < |ns| == |sh.words|
  {
    var edges, w := ns[i].edges, sh.words[i];
    && (forall e :: e in edges ==> Spells(e, w, sh))
    && (forall j, k :: 0 <= j < k < |edges| ==> edges[j].ch != edges[k].ch)
  }

  ghost predicate Spells(e: Edge, w: Text, sh: Shape) {
    w + [e.ch] in sh.ids && sh.ids[w + [e.ch]] == e.target
  }

  ghost predicate HasChild(ns: seq<Node>, sh: Shape, w: Text)
    requires Numbered(sh) && |ns| == |sh.words|
    requires w in sh.ids && w != []
  {
    Edge(w[|w| - 1], sh.ids[w]) in ns[sh.ids[Parent(w)]].edges
  }

  ghost predicate Trie(ns: seq<Node>, sh: Shape) {
    && Numbered(sh)
    && |ns| == |sh.words|
    && (forall i :: 0 <= i < |ns| ==> EdgesSpell(ns, sh, i))
    && (forall w {:trigger HasChild(ns, sh, w)} :: w in sh.ids && w != [] ==> HasChild(ns, sh, w))
  }

  ghost predicate MinOrderOk(n: Node) {
    && (n.domains == [] ==> n.minOrder == NONE)
    && (n.domains != [] ==> n.minOrder in n.domains)
    && forall o :: o in n.domains ==> n.minOrder <= o
  }

  // Node i carries exactly the keywords spelled words[i].
  ghost predicate Carries(ns: seq<Node>, sh: Shape, i: nat)
    requires i < |ns| == |sh.words|
  {
    && (forall o :: o in ns[i].domains <==> o in sh.keys && sh.keys[o] == sh.words[i])
    && MinOrderOk(ns[i])
  }

  ghost predicate Keyed(ns: seq<Node>, sh: Shape) {
    && |ns| == |sh.words|
    && (forall o :: o in sh.keys ==> o < NONE && sh.keys[o] != [] && sh.keys[o] in sh.ids)
    && (forall i :: 0 <= i < |ns| ==> Carries(ns, sh, i))
  }

  ghost predicate Good(ns: seq<Node>, sh: Shape) {
    Numbered(sh) && |ns| == |sh.words| && Trie(ns, sh) && Keyed(ns, sh)
  }

  // Failure link: the longest proper suffix that is a trie node.  Output
  // link: the nearest proper suffix that carries keywords.
  ghost predicate LinkOk(ns: seq<Node>, sh: Shape, i: nat)
    requires Numbered(sh) && i < |ns| == |sh.words|
  {
    if sh.words[i] == [] then ns[i].output == NONE
    else LinksRight(sh, ns[i].fail, ns[i].output, sh.words[i][1..])
  }

  ghost predicate LinksRight(sh: Shape, fail: nat, output: nat, s: Text)
    requires Numbered(sh)
  {
    && fail < |sh.words|
    && sh.words[fail] == Longest(sh.ids.Keys, s)
    && OutputOk(sh, output, Longest(sh.KeyedWords(), s))
  }

  ghost predicate OutputOk(sh: Shape, output: nat, w: Text) {
    if w == [] then output == NONE
    else output < |sh.words| && output != NONE && sh.words[output] == w
  }

  // Links are right for every node at most d deep.
  ghost predicate LinkedTo(ns: seq<Node>, sh: Shape, d: nat) {
    && Good(ns, sh)
    && forall i {:trigger LinkOk(ns, sh, i)} :: 0 <= i < |ns| && |sh.words[i]| <= d ==> LinkOk(ns, sh, i)
  }

  ghost predicate Linked(ns: seq<Node>, sh: Shape) {
    && Good(ns, sh)
    && forall i {:trigger LinkOk(ns, sh, i)} :: 0 <= i < |ns| ==> LinkOk(ns, sh, i)
  }

  function SetLink(n: Node, fail: nat, output: nat): Node {
    n.(fail := fail, output := output)
  }

  lemma SetLinkKeeps(ns: seq<Node>, sh: Shape, c: nat, fail: nat, output: nat)
    requires Good(ns, sh) && c < |ns|
    ensures var ns' := ns[c := SetLink(ns[c], fail, output)];
            && Good(ns', sh)
            && forall i {:trigger LinkOk(ns', sh, i)} ::
                 0 <= i < |ns| && i != c && LinkOk(ns, sh, i) ==> LinkOk(ns', sh, i)
  {
    var ns' := ns[c := SetLink(ns[c], fail, output)];
    forall i | 0 <= i < |ns|
      ensures EdgesSpell(ns', sh, i) && Carries(ns', sh, i)
    {
      assert EdgesSpell(ns, sh, i) && Carries(ns, sh, i);
    }
    forall w | w in sh.ids && w != []
      ensures HasChild(ns', sh, w)
    {
      assert HasChild(ns, sh, w);
    }
  }

  lemma HeadIn(s: seq<nat>)
    requires s != []
    ensures s[0] in s
  {
  }

  lemma RootCarriesNothing(ns: seq<Node>, sh: Shape)
    requires Good(ns, sh)
    ensures ns[0].domains == []
  {
    assert Carries(ns, sh, 0);
    if ns[0].domains != [] {
      HeadIn(ns[0].domains);
      assert false;
    }
  }

  lemma CarriesIffKeyed(ns: seq<Node>, sh: Shape, i: nat)
    requires Good(ns, sh) && i < |ns| && sh.words[i] != []
    ensures ns[i].domains != [] <==> sh.words[i] in sh.KeyedWords()
  {
    assert Carries(ns, sh, i);
    if ns[i].domains != [] {
      HeadIn(ns[i].domains);
    }
  }

  lemma KeyedAreWords(ns: seq<Node>, sh: Shape)
    requires Good(ns, sh)
    ensures sh.KeyedWords() <= sh.ids.Keys
  {
  }

  // The output link build_fail stores for a node whose failure node is fail.
  function OutputVia(n: Node, fail: nat): nat {
    if n.domains != [] then fail else n.output
  }

  lemma OutputViaOk(ns: seq<Node>, sh: Shape, fail: nat, s: Text)
    requires Good(ns, sh) && fail < |ns| && |ns| <= NONE
    requires sh.words[fail] == Longest(sh.ids.Keys, s)
    requires LinkOk(ns, sh, fail)
    ensures OutputOk(sh, OutputVia(ns[fail], fail), Longest(sh.KeyedWords(), s))
  {
    hide Trie, Keyed, Longest, Shape.KeyedWords;
    var f, keyed := sh.words[fail], sh.KeyedWords();
    KeyedAreWords(ns, sh);
    OutputTurn(sh.ids.Keys, keyed, s);
    if f == [] {
      assert sh.ids[[]] == 0 == fail;
      RootCarriesNothing(ns, sh);
    } else {
      CarriesIffKeyed(ns, sh, fail);
      if f in keyed {
        assert OutputOk(sh, fail, f);
      } else {
        assert OutputOk(sh, ns[fail].output, Longest(keyed, f[1..]));
      }
    }
  }

  // The child of a linked node gets right links from its parent's: u is the
  // parent's word without its first octet.
  lemma ChildLinks(ns: seq<Node>, sh: Shape, u: Text, ch: byte, fail: nat)
    requires Good(ns, sh) && fail < |ns| <= NONE
    requires sh.words[fail] == Longest(sh.ids.Keys, Longest(sh.ids.Keys, u) + [ch])
    requires LinkOk(ns, sh, fail)
    ensures LinksRight(sh, fail, OutputVia(ns[fail], fail), u + [ch])
  {
    LongestStep(sh.ids.Keys, u, ch);
    OutputViaOk(ns, sh, fail, u + [ch]);
  }

  lemma TailOfExtension(w: Text, ch: byte)
    requires w != []
    ensures (w + [ch])[1..] == w[1..] + [ch]
  {
  }

  // ---- The breadth-first queue ----

  ghost predicate Distinct(q: seq<nat>) {
    forall j, k :: 0 <= j < k < |q| ==> q[j] != q[k]
  }

  lemma {:induction false} DistinctBelow(q: seq<nat>, n: nat)
    requires Distinct(q) && forall k :: 0 <= k < |q| ==> q[k] < n
    ensures |q| <= n
    decreases n
  {
    if q == [] {
      return;
    }
    assert q[0] < n;
    if n - 1 in q {
      var k :| 0 <= k < |q| && q[k] == n - 1;
      var r := q[..k] + q[k + 1..];
      DistinctBelow(r, n - 1);
    } else {
      DistinctBelow(q, n - 1);
    }
  }

  ghost function Up(sh: Shape, c: nat): nat
    requires Numbered(sh) && c < |sh.words| && sh.words[c] != []
    ensures Up(sh, c) < |sh.words| && sh.words[Up(sh, c)] == Parent(sh.words[c])
  {
    sh.ids[Parent(sh.words[c])]
  }

  // The queue holds, once each and by nondecreasing depth, the children of the
  // root and of the nodes in done; tried are those of cur already queued.
  ghost predicate Frontier(sh: Shape, q: seq<nat>, head: nat)
    requires Numbered(sh)
  {
    && head <= |q|
    && Distinct(q)
    && (forall k :: 0 <= k < |q| ==> 0 < q[k] < |sh.words| && sh.words[q[k]] != [])
    && (forall j, k :: 0 <= j < k < |q| ==> |sh.words[q[j]]| <= |sh.words[q[k]]|)
    && (forall k :: 0 <= k < |q| && head < |q| ==> |sh.words[q[k]]| <= |sh.words[q[head]]| + 1)
  }

  // Exactly the children of the root (once rooted), of q[..done], and those
  // that the tried edges of cur lead to are in the queue.
  ghost predicate Opened(sh: Shape, q: seq<nat>, done: nat, rooted: bool, cur: nat, tried: seq<Edge>)
    requires Numbered(sh) && done <= |q|
  {
    forall c {:trigger Up(sh, c)} :: 0 < c < |sh.words| && sh.words[c] != [] ==>
      (c in q <==>
        || (rooted && Up(sh, c) == 0)
        || Up(sh, c) in q[..done]
        || (Up(sh, c) == cur && Edge(sh.words[c][|sh.words[c]| - 1], c) in tried))
  }

  lemma EdgeTarget(ns: seq<Node>, sh: Shape, cur: nat, k: nat)
    requires Good(ns, sh) && cur < |ns| && k < |ns[cur].edges|
    ensures var e := ns[cur].edges[k];
            && 0 < e.target < |ns| && sh.words[e.target] == sh.words[cur] + [e.ch]
            && Up(sh, e.target) == cur
            && forall j :: 0 <= j < k ==> ns[cur].edges[j].ch != e.ch
  {
    var e := ns[cur].edges[k];
    assert EdgesSpell(ns, sh, cur);
    assert e in ns[cur].edges;
    assert Spells(e, sh.words[cur], sh);
    assert Parent(sh.words[e.target]) == sh.words[cur];
  }

  ghost predicate AtEdge(sh: Shape, q: seq<nat>, done: nat, rooted: bool, cur: nat)
    requires Numbered(sh)
  {
    && cur < |sh.words|
    && Frontier(sh, q, done)
    && (if rooted then done < |q| && cur == q[done]
        else cur == 0 && done == 0 && forall k :: 0 <= k < |q| ==> |sh.words[q[k]]| <= 1)
  }

  lemma EnqueueOpened(ns: seq<Node>, sh: Shape, q: seq<nat>, done: nat, rooted: bool, cur: nat, k: nat)
    requires Good(ns, sh) && AtEdge(sh, q, done, rooted, cur) && k < |ns[cur].edges|
    requires Opened(sh, q, done, rooted, cur, ns[cur].edges[..k])
    ensures ns[cur].edges[k].target !in q
    ensures Opened(sh, q + [ns[cur].edges[k].target], done, rooted, cur, ns[cur].edges[..k + 1])
  {
    EdgeTarget(ns, sh, cur, k);
    var e, tried := ns[cur].edges[k], ns[cur].edges[..k];
    assert Edge(e.ch, e.target) !in tried;
    assert ns[cur].edges[..k + 1] == tried + [e];
    var q' := q + [e.target];
    assert q'[..done] == q[..done];
    forall c {:trigger Up(sh, c)} | 0 < c < |sh.words| && sh.words[c] != []
      ensures c in q' <==>
        || (rooted && Up(sh, c) == 0)
        || Up(sh, c) in q'[..done]
        || (Up(sh, c) == cur && Edge(sh.words[c][|sh.words[c]| - 1], c) in tried + [e])
    {
    }
  }

  lemma FrontierPush(sh: Shape, q: seq<nat>, done: nat, rooted: bool, cur: nat, c: nat)
    requires Numbered(sh) && AtEdge(sh, q, done, rooted, cur)
    requires c !in q && 0 < c < |sh.words| && sh.words[c] != []
    requires |sh.words[c]| == |sh.words[cur]| + 1
    ensures AtEdge(sh, q + [c], done, rooted, cur)
  {
    hide PrefixClosed;
    assert |sh.words[0]| == 0;
    assert forall k :: 0 <= k < |q| ==> |sh.words[q[k]]| <= |sh.words[c]|;
  }

  lemma EnqueueFrontier(ns: seq<Node>, sh: Shape, q: seq<nat>, done: nat, rooted: bool, cur: nat, k: nat)
    requires Good(ns, sh) && AtEdge(sh, q, done, rooted, cur) && k < |ns[cur].edges|
    requires ns[cur].edges[k].target !in q
    ensures AtEdge(sh, q + [ns[cur].edges[k].target], done, rooted, cur)
  {
    hide Trie, Keyed, Numbered, Frontier;
    EdgeTarget(ns, sh, cur, k);
    FrontierPush(sh, q, done, rooted, cur, ns[cur].edges[k].target);
  }

  // The whole edge list has been tried: move on to the next node.
  lemma Close(ns: seq<Node>, sh: Shape, q: seq<nat>, done: nat, rooted: bool, cur: nat)
    requires Good(ns, sh) && cur < |ns| && done <= |q|
    requires Frontier(sh, q, done) && Opened(sh, q, done, rooted, cur, ns[cur].edges)
    requires if rooted then done < |q| && cur == q[done] else cur == 0 && done == 0
    ensures Closed(sh, q, if rooted then done + 1 else 0)
    ensures rooted ==> Frontier(sh, q, done + 1)
  {
    forall c {:trigger Up(sh, c)} | 0 < c < |sh.words| && sh.words[c] != []
      ensures Up(sh, c) == cur ==> Edge(sh.words[c][|sh.words[c]| - 1], c) in ns[cur].edges
    {
      assert HasChild(ns, sh, sh.words[c]);
    }
    hide Good, Numbered;
    if rooted {
      assert q[..done + 1] == q[..done] + [cur];
      assert forall u: nat :: u in q[..done + 1] <==> u in q[..done] || u == cur;
    }
  }

  // Exactly the children of the root and of q[..head] are in the queue.
  ghost predicate Closed(sh: Shape, q: seq<nat>, head: nat)
    requires Numbered(sh) && head <= |q|
  {
    Opened(sh, q, head, true, 0, [])
  }

  lemma {:induction false} ReachedByDepth(sh: Shape, q: seq<nat>, head: nat, c: nat)
    requires Numbered(sh) && Frontier(sh, q, head) && Closed(sh, q, head)
    requires c < |sh.words| && sh.words[c] != []
    requires head < |q| ==> |sh.words[c]| <= |sh.words[q[head]]|
    ensures c in q
    decreases |sh.words[c]|
  {
    assert c != 0;
    var p := Up(sh, c);
    if sh.words[p] == [] {
      assert p == 0;
    } else {
      ReachedByDepth(sh, q, head, p);
      var k :| 0 <= k < |q| && q[k] == p;
      assert k < head;
      assert q[..head][k] == p;
    }
  }

  function AddChild(ns: seq<Node>, state: nat, ch: byte): seq<Node>
    requires state < |ns|
  {
    ns[state := ns[state].(edges := [Edge(ch, |ns|)] + ns[state].edges)] + [FreshNode]
  }

  ghost function GrowShape(sh: Shape, w: Text): Shape {
    sh.(words := sh.words + [w], ids := sh.ids[w := |sh.words|])
  }

  lemma AddChildTrie(ns: seq<Node>, sh: Shape, state: nat, ch: byte)
    requires Trie(ns, sh) && state < |ns|
    requires sh.words[state] + [ch] !in sh.ids
    ensures Trie(AddChild(ns, state, ch), GrowShape(sh, sh.words[state] + [ch]))
  {
    var w := sh.words[state] + [ch];
    var ns', sh' := AddChild(ns, state, ch), GrowShape(sh, w);
    assert Parent(w) == sh.words[state];
    assert PrefixClosed(sh'.ids.Keys);
    forall i | 0 <= i < |ns'|
      ensures EdgesSpell(ns', sh', i)
    {
      if i < |ns| {
        assert EdgesSpell(ns, sh, i);
        forall e | e in ns'[i].edges
          ensures Spells(e, sh'.words[i], sh')
        {
          assert e in ns[i].edges ==> Spells(e, sh.words[i], sh);
        }
        if i == state {
          assert forall e :: e in ns[i].edges ==> e.ch != ch by {
            assert forall e :: e in ns[i].edges ==> Spells(e, sh.words[i], sh);
          }
        }
      }
    }
    forall v | v in sh'.ids && v != []
      ensures HasChild(ns', sh', v)
    {
      if v == w {
        assert ns'[state].edges[0] == Edge(ch, |ns|);
      } else {
        assert HasChild(ns, sh, v);
      }
    }
  }

  lemma AddChildGood(ns: seq<Node>, sh: Shape, state: nat, ch: byte)
    requires Good(ns, sh) && state < |ns|
    requires sh.words[state] + [ch] !in sh.ids
    ensures Good(AddChild(ns, state, ch), GrowShape(sh, sh.words[state] + [ch]))
  {
    AddChildTrie(ns, sh, state, ch);
    hide Trie, Numbered;
    var w := sh.words[state] + [ch];
    var ns', sh' := AddChild(ns, state, ch), GrowShape(sh, w);
    forall i | 0 <= i < |ns'|
      ensures Carries(ns', sh', i)
    {
      if i < |ns| {
        assert Carries(ns, sh, i);
      }
    }
  }

  function AddOrder(n: Node, order: nat): Node {
    n.(domains := [order] + n.domains,
       minOrder := if order < n.minOrder then order else n.minOrder)
  }

  lemma AddOrderTrie(ns: seq<Node>, sh: Shape, state: nat, order: nat)
    requires Trie(ns, sh) && state < |ns|
    ensures Trie(ns[state := AddOrder(ns[state], order)],
                 sh.(keys := sh.keys[order := sh.words[state]]))
  {
    var ns' := ns[state := AddOrder(ns[state], order)];
    var sh' := sh.(keys := sh.keys[order := sh.words[state]]);
    forall i | 0 <= i < |ns'|
      ensures EdgesSpell(ns', sh', i)
    {
      assert EdgesSpell(ns, sh, i);
    }
    forall v | v in sh'.ids && v != []
      ensures HasChild(ns', sh', v)
    {
      assert HasChild(ns, sh, v);
    }
  }

  lemma AddOrderGood(ns: seq<Node>, sh: Shape, state: nat, order: nat)
    requires Good(ns, sh) && 0 < state < |ns|
    requires order < NONE && order !in sh.keys
    ensures Good(ns[state := AddOrder(ns[state], order)],
                 sh.(keys := sh.keys[order := sh.words[state]]))
  {
    var ns' := ns[state := AddOrder(ns[state], order)];
    var sh' := sh.(keys := sh.keys[order := sh.words[state]]);
    assert sh.words[state] != [] && sh.words[state] in sh.ids;
    AddOrderTrie(ns, sh, state, order);
    assert forall i :: 0 <= i < |ns| && i != state ==> sh.words[i] != sh.words[state];
    hide Trie, Numbered;
    forall i | 0 <= i < |ns'|
      ensures Carries(ns', sh', i)
    {
      assert Carries(ns, sh, i);
      if i == state {
        assert forall o :: o in ns'[i].domains <==> o == order || o in ns[i].domains;
      }
    }
  }

  lemma EdgeExists(ns: seq<Node>, sh: Shape, state: nat, ch: byte)
    requires Trie(ns, sh) && state < |ns|
    requires sh.words[state] + [ch] in sh.ids
    ensures Edge(ch, sh.ids[sh.words[state] + [ch]]) in ns[state].edges
  {
    var w := sh.words[state] + [ch];
    assert Parent(w) == sh.words[state];
    assert HasChild(ns, sh, w);
  }

  // ---- The breadth-first pass ----

  ghost predicate QueuedLinked(ns: seq<Node>, sh: Shape, q: seq<nat>) {
    && Good(ns, sh)
    && forall c {:trigger LinkOk(ns, sh, c)} ::
         0 <= c < |ns| && (c == 0 || c in q) ==> LinkOk(ns, sh, c)
  }

  // The first k edges of cur have been followed.
  ghost predicate Passing(ns: seq<Node>, sh: Shape, q: seq<nat>, done: nat, rooted: bool, cur: nat, k: nat) {
    && QueuedLinked(ns, sh, q)
    && AtEdge(sh, q, done, rooted, cur)
    && k <= |ns[cur].edges|
    && Opened(sh, q, done, rooted, cur, ns[cur].edges[..k])
  }

  ghost predicate BetweenNodes(ns: seq<Node>, sh: Shape, q: seq<nat>, head: nat) {
    && QueuedLinked(ns, sh, q)
    && Frontier(sh, q, head) && Closed(sh, q, head)
  }

  lemma QueueRoom(ns: seq<Node>, sh: Shape, q: seq<nat>, done: nat, c: nat)
    requires Numbered(sh) && Frontier(sh, q, done)
    requires c !in q && 0 < c < |sh.words|
    ensures |q| + 2 <= |sh.words|
  {
    DistinctBelow([0, c] + q, |sh.words|);
  }

  lemma QueuedLinkedPush(ns: seq<Node>, sh: Shape, q: seq<nat>, c: nat, fail: nat, output: nat)
    requires QueuedLinked(ns, sh, q)
    requires c < |ns| && sh.words[c] != []
    requires LinksRight(sh, fail, output, sh.words[c][1..])
    ensures QueuedLinked(ns[c := SetLink(ns[c], fail, output)], sh, q + [c])
  {
    hide Trie, Keyed, Numbered, LinksRight;
    SetLinkKeeps(ns, sh, c, fail, output);
    var ns' := ns[c := SetLink(ns[c], fail, output)];
    assert LinkOk(ns', sh, c);
    forall i | 0 <= i < |ns| && (i == 0 || i in q + [c])
      ensures LinkOk(ns', sh, i)
    {
      if i != c { assert LinkOk(ns, sh, i); }
    }
  }

  // Linking and queueing the next child keeps the pass going.
  lemma QueueChild(ns: seq<Node>, sh: Shape, q: seq<nat>, done: nat, rooted: bool, cur: nat, k: nat,
                   c: nat, fail: nat, output: nat)
    requires Passing(ns, sh, q, done, rooted, cur, k)
    requires k < |ns[cur].edges| && c == ns[cur].edges[k].target
    requires c < |ns| && sh.words[c] != []
    requires LinksRight(sh, fail, output, sh.words[c][1..])
    ensures |q| + 2 <= |ns|
    ensures Passing(ns[c := SetLink(ns[c], fail, output)], sh, q + [c], done, rooted, cur, k + 1)
  {
    hide LinksRight, LinkOk, Frontier, Trie, Keyed, Numbered, Opened;
    EdgeTarget(ns, sh, cur, k);
    EnqueueOpened(ns, sh, q, done, rooted, cur, k);
    EnqueueFrontier(ns, sh, q, done, rooted, cur, k);
    QueueRoom(ns, sh, q, done, c);
    QueuedLinkedPush(ns, sh, q, c, fail, output);
    assert ns[c := SetLink(ns[c], fail, output)][cur].edges == ns[cur].edges;
  }

  // Every node no deeper than the one at head is queued already.
  lemma ShallowQueued(ns: seq<Node>, sh: Shape, q: seq<nat>, head: nat, c: nat)
    requires BetweenNodes(ns, sh, q, head)
    requires c < |ns| && (head < |q| ==> |sh.words[c]| <= |sh.words[q[head]]|)
    ensures c == 0 || c in q
  {
    if sh.words[c] == [] {
      assert sh.ids[sh.words[c]] == c;
      assert sh.ids[sh.words[0]] == 0;
    } else {
      ReachedByDepth(sh, q, head, c);
    }
  }

  lemma RootLinks(sh: Shape)
    requires Numbered(sh)
    ensures LinksRight(sh, 0, NONE, [])
  {
    assert sh.ids[[]] == 0;
  }

  lemma FailOf(ns: seq<Node>, sh: Shape, state: nat)
    requires Numbered(sh) && state < |ns| == |sh.words|
    requires LinkOk(ns, sh, state) && sh.words[state] != []
    ensures ns[state].fail < |ns|
    ensures sh.words[ns[state].fail] == Longest(sh.ids.Keys, sh.words[state][1..])
    ensures |sh.words[ns[state].fail]| < |sh.words[state]|
  {
  }

  lemma StartNode(ns: seq<Node>, sh: Shape, q: seq<nat>, head: nat)
    requires BetweenNodes(ns, sh, q, head) && head < |q|
    ensures q[head] < |ns| && sh.words[q[head]] != []
    ensures Passing(ns, sh, q, head, true, q[head], 0)
    ensures forall c :: 0 <= c < |ns| && |sh.words[c]| <= |sh.words[q[head]]| ==> c == 0 || c in q
  {
    hide Trie, Keyed, LinkOk;
    assert ns[q[head]].edges[..0] == [];
    forall c | 0 <= c < |ns| && |sh.words[c]| <= |sh.words[q[head]]|
      ensures c == 0 || c in q
    {
      ShallowQueued(ns, sh, q, head, c);
    }
  }

  lemma StartRoot(ns: seq<Node>, sh: Shape)
    requires Good(ns, sh) && ns[0].output == NONE
    ensures Passing(ns, sh, [], 0, false, 0, 0)
  {
    hide Trie, Keyed;
    assert ns[0].edges[..0] == [];
    assert sh.words[0] == [];
    assert LinkOk(ns, sh, 0);
  }

  lemma FinishNode(ns: seq<Node>, sh: Shape, q: seq<nat>, done: nat, rooted: bool, cur: nat)
    requires cur < |ns| && Passing(ns, sh, q, done, rooted, cur, |ns[cur].edges|)
    ensures BetweenNodes(ns, sh, q, if rooted then done + 1 else 0)
  {
    hide Trie, Keyed, LinkOk, Numbered, Opened, Closed;
    assert ns[cur].edges[..|ns[cur].edges|] == ns[cur].edges;
    Close(ns, sh, q, done, rooted, cur);
  }

  lemma FinishPass(ns: seq<Node>, sh: Shape, q: seq<nat>)
    requires BetweenNodes(ns, sh, q, |q|)
    ensures Linked(ns, sh)
  {
    hide Trie, Keyed, Numbered, Closed, Frontier;
    forall c | 0 <= c < |ns|
      ensures LinkOk(ns, sh, c)
    {
      ShallowQueued(ns, sh, q, |q|, c);
    }
  }

  // ---- The search ----

  lemma LoweredTwice(a: nat, h1: set<nat>, b: nat, h2: set<nat>, c: nat)
    requires Lowered(a, h1, b) && Lowered(b, h2, c)
    ensures Lowered(a, h1 + h2, c)
  {
  }

  // The attribute-passing keywords spelled exactly w.
  ghost function Own(keys: map<nat, Text>, pass: nat -> bool, w: Text): set<nat> {
    set o | o in keys && pass(o) && keys[o] == w
  }

  ghost predicate Nonempty(keys: map<nat, Text>) {
    forall o :: o in keys ==> keys[o] != []
  }

  // A word ends w when it is w or ends the longest proper suffix kept of w.
  lemma SuffixSplit(words: set<Text>, v: Text, w: Text)
    requires [] in words && v in words && w != []
    ensures IsSuffix(v, w) <==> v == w || IsSuffix(v, Longest(words, w[1..]))
  {
    var g := Longest(words, w[1..]);
    if IsSuffix(v, w) && v != w {
      SuffixOfTail(v, w);
      LongestMax(words, w[1..], v);
    }
    hide Longest;
    if IsSuffix(v, g) {
      SuffixTransitive(v, g, w[1..]);
      assert w[|w| - |v|..] == w[1..][|w| - 1 - |v|..];
    }
    if v == w {
      assert w[0..] == w;
    }
  }

  // The keywords ending at w are its own and those ending at its output word.
  lemma ChainStep(sh: Shape, pass: nat -> bool, w: Text)
    requires Nonempty(sh.keys)
    ensures w == [] ==> EndHits(sh.keys, pass, w) == {} == Own(sh.keys, pass, w)
    ensures w != [] ==>
              var below := EndHits(sh.keys, pass, Longest(sh.KeyedWords(), w[1..]));
              EndHits(sh.keys, pass, w) == Own(sh.keys, pass, w) + below
  {
    hide Longest;
    if w != [] {
      var words := sh.KeyedWords();
      forall o | o in sh.keys
        ensures IsSuffix(sh.keys[o], w) <==> sh.keys[o] == w || IsSuffix(sh.keys[o], Longest(words, w[1..]))
      {
        SuffixSplit(words, sh.keys[o], w);
      }
      hide IsSuffix;
    }
  }

  // Keywords ending in the text end in the state kept for it.
  lemma EndHitsOfState(sh: Shape, pass: nat -> bool, s: Text)
    requires Numbered(sh)
    requires forall o :: o in sh.keys ==> sh.keys[o] in sh.ids
    ensures EndHits(sh.keys, pass, s) == EndHits(sh.keys, pass, Longest(sh.ids.Keys, s))
  {
    var w := Longest(sh.ids.Keys, s);
    forall o | o in sh.keys
      ensures IsSuffix(sh.keys[o], s) <==> IsSuffix(sh.keys[o], w)
    {
      if IsSuffix(sh.keys[o], s) { LongestMax(sh.ids.Keys, s, sh.keys[o]); }
      if IsSuffix(sh.keys[o], w) { SuffixTransitive(sh.keys[o], w, s); }
    }
  }

  lemma LoweredNothing(a: nat)
    ensures Lowered(a, {}, a)
  {
  }

  lemma NothingEndsAtRoot(sh: Shape, pass: nat -> bool)
    requires Nonempty(sh.keys)
    ensures EndHits(sh.keys, pass, []) == {}
  {
  }

  lemma NothingOccursInEmpty(sh: Shape, pass: nat -> bool, s: Text)
    requires Nonempty(sh.keys)
    ensures Hits(sh.keys, pass, s[..0]) == {}
  {
    assert s[..0] == [];
  }

  lemma LongestOfEmpty(sh: Shape)
    requires Numbered(sh)
    ensures forall s: Text :: sh.words[0] == Longest(sh.ids.Keys, s[..0])
  {
    forall s: Text
      ensures sh.words[0] == Longest(sh.ids.Keys, s[..0])
    {
      assert s[..0] == [];
    }
  }

  // A state with neither keywords nor an output link ends no keyword.
  lemma SilentState(ns: seq<Node>, sh: Shape, pass: nat -> bool, state: nat)
    requires Linked(ns, sh) && state < |ns|
    requires ns[state].domains == [] && ns[state].output == NONE
    ensures EndHits(sh.keys, pass, sh.words[state]) == {}
  {
    hide Trie, Longest;
    assert LinkOk(ns, sh, state) && Carries(ns, sh, state);
    ChainStep(sh, pass, sh.words[state]);
    NothingEndsAtRoot(sh, pass);
  }

  // plain_find_edge.
  method FindEdge(ns: seq<Node>, ghost sh: Shape, state: nat, ch: byte) returns (target: Option<nat>)
    requires Numbered(sh) && |ns| == |sh.words| && Trie(ns, sh) && state < |ns|
    ensures target.Some? <==> sh.words[state] + [ch] in sh.ids
    ensures target.Some? ==> target.value == sh.ids[sh.words[state] + [ch]]
  {
    var edges := ns[state].edges;
    assert EdgesSpell(ns, sh, state);
    var k := 0;
    while k < |edges|
      invariant 0 <= k <= |edges|
      invariant forall j :: 0 <= j < k ==> edges[j].ch != ch
    {
      if edges[k].ch == ch {
        assert edges[k] in edges;
        assert Spells(edges[k], sh.words[state], sh);
        return Some(edges[k].target);
      }
      k := k + 1;
    }
    if sh.words[state] + [ch] in sh.ids {
      EdgeExists(ns, sh, state, ch);
      assert false;
    }
    return None;
  }

  // plain_next: follow failure links until some node has the octet.
  method PlainNext(ns: seq<Node>, ghost sh: Shape, from: nat, ch: byte) returns (next: nat)
    requires Good(ns, sh) && from < |ns|
    requires LinkedTo(ns, sh, |sh.words[from]|)
    ensures next < |ns|
    ensures sh.words[next] == Longest(sh.ids.Keys, sh.words[from] + [ch])
    ensures |sh.words[next]| <= |sh.words[from]| + 1
  {
    ghost var ids := sh.ids.Keys;
    var edge := FindEdge(ns, sh, from, ch);
    if edge.Some? {
      return edge.value;
    }
    var state: nat := from;
    while state != 0
      invariant state < |ns| && |sh.words[state]| <= |sh.words[from]|
      invariant sh.words[state] + [ch] !in sh.ids
      invariant Longest(ids, sh.words[from] + [ch]) == Longest(ids, sh.words[state] + [ch])
      decreases |sh.words[state]|
    {
      assert LinkOk(ns, sh, state);
      FailTurn(ids, sh.words[state], ch);
      state := ns[state].fail;
      edge := FindEdge(ns, sh, state, ch);
      if edge.Some? {
        return edge.value;
      }
    }
    assert sh.words[0] + [ch] == [ch];
    assert [ch][1..] == [];
    return 0;
  }

  // The keyword list of one node, skipped when its minimum cannot help.
  method ConsiderNode(ns: seq<Node>, ghost sh: Shape, state: nat, pass: nat -> bool, from: nat) returns (best: nat)
    requires Good(ns, sh) && state < |ns|
    ensures Lowered(from, Own(sh.keys, pass, sh.words[state]), best)
  {
    hide Trie;
    best := from;
    ghost var own := Own(sh.keys, pass, sh.words[state]);
    assert Carries(ns, sh, state);
    var node := ns[state];
    assert forall o :: o in own <==> o in node.domains && pass(o);
    if node.minOrder < best {
      var k := 0;
      ghost var seen: set<nat> := {};
      while k < |node.domains|
        invariant 0 <= k <= |node.domains|
        invariant forall o :: o in seen <==> o in node.domains[..k] && pass(o)
        invariant Lowered(from, seen, best)
      {
        var order := node.domains[k];
        assert node.domains[..k + 1] == node.domains[..k] + [order];
        if pass(order) {
          seen := seen + {order};
        }
        if order < best && pass(order) {
          best := order;
        }
        k := k + 1;
      }
      assert node.domains[..k] == node.domains;
      assert seen == own;
    }
  }

  // plain_consider_match: walk the output links.
  method ConsiderMatch(ns: seq<Node>, ghost sh: Shape, start: nat, pass: nat -> bool, from: nat) returns (best: nat)
    requires Linked(ns, sh) && |ns| <= NONE && start < |ns|
    ensures Lowered(from, EndHits(sh.keys, pass, sh.words[start]), best)
  {
    hide Trie, Lowered, Longest, Carries;
    ghost var all := EndHits(sh.keys, pass, sh.words[start]);
    var state: nat := start;
    best := from;
    ghost var seen: set<nat> := {};
    LoweredNothing(from);
    while true
      invariant state < |ns|
      invariant all == seen + EndHits(sh.keys, pass, sh.words[state])
      invariant Lowered(from, seen, best)
      decreases |sh.words[state]|
    {
      ghost var w := sh.words[state];
      ghost var b := best;
      best := ConsiderNode(ns, sh, state, pass, best);
      LoweredTwice(from, seen, b, Own(sh.keys, pass, w), best);
      seen := seen + Own(sh.keys, pass, w);
      ChainStep(sh, pass, w);
      assert LinkOk(ns, sh, state);
      if ns[state].output == NONE {
        NothingEndsAtRoot(sh, pass);
        assert all == seen;
        break;
      }
      state := ns[state].output;
    }
  }

  // match_plain_indexed over the automaton.
  method Search(ns: seq<Node>, ghost sh: Shape, host: Text, pass: nat -> bool, from: nat) returns (best: nat)
    requires Linked(ns, sh) && |ns| <= NONE
    ensures Lowered(from, Hits(sh.keys, pass, host), best)
  {
    hide Trie, Lowered, Longest, Carries, LinkOk;
    var state: nat, i: nat := 0, 0;
    best := from;
    LoweredNothing(from);
    NothingOccursInEmpty(sh, pass, host);
    LongestOfEmpty(sh);
    while i < |host|
      invariant i <= |host| && state < |ns|
      invariant sh.words[state] == Longest(sh.ids.Keys, host[..i])
      invariant Lowered(from, Hits(sh.keys, pass, host[..i]), best)
    {
      LongestStep(sh.ids.Keys, host[..i], host[i]);
      assert host[..i + 1] == host[..i] + [host[i]];
      state := PlainNext(ns, sh, state, host[i]);
      EndHitsOfState(sh, pass, host[..i + 1]);
      HitsStep(sh.keys, pass, host, i);
      ghost var b := best;
      if ns[state].domains != [] || ns[state].output != NONE {
        best := ConsiderMatch(ns, sh, state, pass, best);
      } else {
        SilentState(ns, sh, pass, state);
        LoweredNothing(b);
      }
      LoweredTwice(from, Hits(sh.keys, pass, host[..i]), b,
                   EndHits(sh.keys, pass, host[..i + 1]), best);
      i := i + 1;
    }
    assert host[..|host|] == host;
  }

  class KeywordAutomaton {
    const nodes: array<Node>
    var size: nat
    ghost var shape: Shape

    ghost predicate Valid()
      reads this, nodes
    {
      size <= nodes.Length && Good(nodes[..size], shape) && nodes[0].output == NONE
    }

    constructor (capacity: nat)
      ensures Valid() && fresh(nodes) && nodes.Length == capacity + 1
      ensures size == 1 && shape.keys == map[]
    {
      nodes := new Node[capacity + 1](_ => FreshNode);
      size := 1;
      shape := Shape([[]], map[[] := 0], map[]);
      new;
      assert nodes[..size] == [FreshNode];
    }

    // A new leaf below state.
    method Grow(state: nat, ch: byte) returns (next: nat)
      requires Valid() && state < size < nodes.Length
      requires shape.words[state] + [ch] !in shape.ids
      modifies this, nodes
      ensures Valid() && size == old(size) + 1 && next == old(size)
      ensures shape == GrowShape(old(shape), old(shape).words[state] + [ch])
    {
      hide Trie, Keyed, Numbered;
      ghost var ns := nodes[..size];
      next := size;
      AddChildGood(ns, shape, state, ch);
      size := size + 1;
      nodes[next] := FreshNode;
      nodes[state] := nodes[state].(edges := [Edge(ch, next)] + nodes[state].edges);
      assert nodes[..size] == AddChild(ns, state, ch);
      shape := GrowShape(shape, shape.words[state] + [ch]);
    }

    // plain_insert: walk or extend the trie, then prepend the keyword.
    method Insert(order: nat, value: Text)
      requires Valid()
      requires order < NONE && order !in shape.keys && value != []
      requires size + |value| <= nodes.Length
      modifies this, nodes
      ensures Valid()
      ensures shape.keys == old(shape.keys)[order := value]
      ensures size <= old(size) + |value|
    {
      var state: nat, i: nat := 0, 0;
      while i < |value|
        invariant i <= |value|
        invariant Valid() && shape.keys == old(shape.keys)
        invariant state < size && shape.words[state] == value[..i]
        invariant old(size) <= size <= old(size) + i
      {
        var edge := FindEdge(nodes[..size], shape, state, value[i]);
        ghost var w := shape.words[state] + [value[i]];
        assert value[..i + 1] == w;
        if edge.None? {
          state := Grow(state, value[i]);
        } else {
          state := edge.value;
        }
        i := i + 1;
      }
      assert value[..|value|] == value;
      ghost var ns := nodes[..size];
      nodes[state] := AddOrder(nodes[state], order);
      assert nodes[..size] == ns[state := AddOrder(ns[state], order)];
      AddOrderGood(ns, shape, state, order);
      shape := shape.(keys := shape.keys[order := value]);
    }

    // Link one child and queue it.
    method LinkChild(queue: array<nat>, tail: nat, c: nat, fail: nat, output: nat)
      requires Valid() && queue != nodes as object
      requires c < size && 0 < c && tail < queue.Length
      modifies nodes, queue
      ensures Valid() && size == old(size)
      ensures nodes[..size] == old(nodes[..size])[c := SetLink(old(nodes[c]), fail, output)]
      ensures queue[..tail + 1] == old(queue[..tail]) + [c]
    {
      SetLinkKeeps(nodes[..size], shape, c, fail, output);
      nodes[c] := SetLink(nodes[c], fail, output);
      queue[tail] := c;
      assert nodes[..size] == old(nodes[..size])[c := SetLink(old(nodes[c]), fail, output)];
    }

    // plain_build_fail.
    method BuildFail()
      requires Valid() && size <= NONE
      modifies nodes
      ensures Valid() && Linked(nodes[..size], shape)
    {
      hide Trie, Keyed, LinksRight, LinkOk, Opened, Frontier, Closed;
      ghost var sh := shape;
      var queue := new nat[size];
      var head: nat, tail: nat, k: nat := 0, 0, 0;
      StartRoot(nodes[..size], sh);
      assert queue[..0] == [];
      while k < |nodes[0].edges|
        invariant tail <= size && k <= |nodes[0].edges| && Valid()
        invariant Passing(nodes[..size], sh, queue[..tail], 0, false, 0, k)
      {
        ghost var ns, q := nodes[..size], queue[..tail];
        EdgeTarget(ns, sh, 0, k);
        var c := nodes[0].edges[k].target;
        assert sh.words[c][1..] == [];
        RootLinks(sh);
        QueueChild(ns, sh, q, 0, false, 0, k, c, 0, NONE);
        LinkChild(queue, tail, c, 0, NONE);
        tail, k := tail + 1, k + 1;
      }
      FinishNode(nodes[..size], sh, queue[..tail], 0, false, 0);

      while head < tail
        invariant head <= tail <= size && Valid()
        invariant BetweenNodes(nodes[..size], sh, queue[..tail], head)
        decreases size - head
      {
        tail := OpenNode(queue, head, tail);
        head := head + 1;
      }
      FinishPass(nodes[..size], sh, queue[..tail]);
    }

    // Take the node at head: link and queue all its children.
    method OpenNode(queue: array<nat>, head: nat, from: nat) returns (tail: nat)
      requires Valid() && size <= NONE
      requires queue != nodes as object && head < from <= queue.Length == size
      requires BetweenNodes(nodes[..size], shape, queue[..from], head)
      modifies nodes, queue
      ensures Valid()
      ensures from <= tail <= size
      ensures BetweenNodes(nodes[..size], shape, queue[..tail], head + 1)
    {
      hide Trie, Keyed, LinksRight, Longest, Opened, Frontier;
      ghost var sh := shape;
      ghost var q0 := queue[..from];
      tail := from;
      var state := queue[head];
      assert state == q0[head];
      StartNode(nodes[..size], sh, q0, head);
      ghost var w := sh.words[state];
      var k: nat := 0;
      while k < |nodes[state].edges|
        invariant from <= tail <= size && k <= |nodes[state].edges| && Valid()
        invariant q0 <= queue[..tail]
        invariant Passing(nodes[..size], sh, queue[..tail], head, true, state, k)
      {
        ghost var ns, q := nodes[..size], queue[..tail];
        var ch, c := nodes[state].edges[k].ch, nodes[state].edges[k].target;
        EdgeTarget(ns, sh, state, k);
        assert LinkedTo(ns, sh, |w|);
        FailOf(ns, sh, state);
        assert nodes[state].fail == ns[state].fail;
        var fail := PlainNext(nodes[..size], sh, nodes[state].fail, ch);
        ChildLinks(ns, sh, w[1..], ch, fail);
        TailOfExtension(w, ch);
        var output := OutputVia(nodes[fail], fail);
        QueueChild(ns, sh, q, head, true, state, k, c, fail, output);
        LinkChild(queue, tail, c, fail, output);
        tail, k := tail + 1, k + 1;
      }
      FinishNode(nodes[..size], sh, queue[..tail], head, true, state);
    }
  }
}
