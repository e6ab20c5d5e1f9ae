// The 4-way set-associative cache that geosite hosts, DNS rules and routes
// share in shape: per-set slots with an access stamp, evicting the oldest.
module SetCache {
  import opened Bytes

  const WAYS: nat := 4

  datatype Way<K, V> = Way(valid: bool, accessed: nat, hash: nat, key: K, result: V)

  // ---- One set as a recency list ----

  ghost function Without<K, V>(l: seq<(K, V)>, k: K): seq<(K, V)> {
    if l == [] then [] else if l[0].0 == k then Without(l[1..], k) else [l[0]] + Without(l[1..], k)
  }

  ghost function Cap<T>(l: seq<T>): seq<T> {
    if |l| <= WAYS then l else l[..WAYS]
  }

  // Every key ever used, most recent use first, with its latest value.
  ghost function Recents<K, V>(uses: seq<(K, V)>): seq<(K, V)> {
    if uses == [] then [] else
      var last := uses[|uses| - 1];
      [last] + Without(Recents(uses[..|uses| - 1]), last.0)
  }

  ghost predicate DistinctKeys<K, V>(l: seq<(K, V)>) {
    forall i, j :: 0 <= i < j < |l| ==> l[i].0 != l[j].0
  }

  // Using k with value v: it becomes the most recent, the fifth drops out.
  ghost function Touch<K, V>(l: seq<(K, V)>, k: K, v: V): seq<(K, V)> {
    Cap([(k, v)] + Without(l, k))
  }

  lemma {:induction false} WithoutFrom<K, V>(l: seq<(K, V)>, k: K, j: nat) returns (i: nat)
    requires j < |Without(l, k)|
    ensures i < |l| && l[i] == Without(l, k)[j] && l[i].0 != k
  {
    if l[0].0 == k {
      i := WithoutFrom(l[1..], k, j);
      i := i + 1;
    } else if j == 0 {
      i := 0;
    } else {
      i := WithoutFrom(l[1..], k, j - 1);
      i := i + 1;
    }
  }

  lemma {:induction false} WithoutDistinct<K, V>(l: seq<(K, V)>, k: K)
    requires DistinctKeys(l)
    ensures DistinctKeys(Without(l, k))
  {
    if l != [] {
      assert forall j :: 0 <= j < |l| - 1 ==> l[1..][j] == l[j + 1];
      WithoutDistinct(l[1..], k);
      var r := Without(l[1..], k);
      forall j | 0 <= j < |r|
        ensures r[j].0 != l[0].0
      {
        var i := WithoutFrom(l[1..], k, j);
      }
    }
  }

  lemma {:induction false} RecentsDistinct<K, V>(uses: seq<(K, V)>)
    ensures DistinctKeys(Recents(uses))
  {
    if uses != [] {
      var l, k := Recents(uses[..|uses| - 1]), uses[|uses| - 1].0;
      RecentsDistinct(uses[..|uses| - 1]);
      WithoutDistinct(l, k);
      forall j | 0 <= j < |Without(l, k)|
        ensures Without(l, k)[j].0 != k
      {
        var i := WithoutFrom(l, k, j);
      }
    }
  }

  lemma {:induction false} RecentsFrom<K, V>(uses: seq<(K, V)>, j: nat) returns (i: nat)
    requires j < |Recents(uses)|
    ensures i < |uses| && uses[i] == Recents(uses)[j]
  {
    var l, k := Recents(uses[..|uses| - 1]), uses[|uses| - 1].0;
    if j == 0 {
      i := |uses| - 1;
    } else {
      i := WithoutFrom(l, k, j - 1);
      i := RecentsFrom(uses[..|uses| - 1], i);
    }
  }

  lemma {:induction false} WithoutOfPrefix<K, V>(l: seq<(K, V)>, n: nat, k: K)
    requires n <= |l|
    ensures Without(l[..n], k) <= Without(l, k)
    ensures DistinctKeys(l) ==> |Without(l[..n], k)| >= n - 1
    ensures (forall i :: 0 <= i < n ==> l[i].0 != k) ==> Without(l[..n], k) == l[..n]
  {
    if n > 0 {
      assert l[..n][1..] == l[1..][..n - 1];
      assert forall j :: 0 <= j < |l| - 1 ==> l[1..][j] == l[j + 1];
      WithoutOfPrefix(l[1..], n - 1, k);
      assert l[..n] == [l[0]] + l[1..][..n - 1];
    }
  }

  // Keeping only four entries at every step loses nothing: the set holds
  // exactly the four most recently used keys of its whole history.
  lemma CapCommutes<K, V>(uses: seq<(K, V)>, k: K, v: V)
    ensures Touch(Cap(Recents(uses)), k, v) == Cap(Recents(uses + [(k, v)]))
  {
    var l := Recents(uses);
    RecentsDistinct(uses);
    var n := if |l| <= WAYS then |l| else WAYS;
    WithoutOfPrefix(l, n, k);
    assert l[..|l|] == l;
    assert Cap(l) == l[..n];
    assert (uses + [(k, v)])[..|uses|] == uses;
  }

  lemma {:induction false} WithoutAt<K, V>(l: seq<(K, V)>, j: nat)
    requires DistinctKeys(l) && j < |l|
    ensures Without(l, l[j].0) == l[..j] + l[j + 1..]
  {
    if j == 0 {
      assert forall j :: 0 <= j < |l| - 1 ==> l[1..][j] == l[j + 1];
      WithoutOfPrefix(l[1..], |l| - 1, l[0].0);
      assert l[1..][..|l| - 1] == l[1..];
      assert l[..0] + l[1..] == l[1..];
    } else {
      assert DistinctKeys(l[1..]);
      WithoutAt(l[1..], j - 1);
      assert l[1..][j - 1] == l[j];
      assert l[..j] + l[j + 1..] == [l[0]] + (l[1..][..j - 1] + l[1..][j..]);
    }
  }

  lemma WithoutAbsent<K, V>(l: seq<(K, V)>, k: K)
    requires forall i :: 0 <= i < |l| ==> l[i].0 != k
    ensures Without(l, k) == l
  {
    WithoutOfPrefix(l, |l|, k);
    assert l[..|l|] == l;
  }

  ghost predicate LastUse<K, V>(uses: seq<(K, V)>, k: K, i: nat) {
    i < |uses| && uses[i].0 == k && forall m :: i < m < |uses| ==> uses[m].0 != k
  }

  // at[j] is the last use of the j-th key of the list: the list is in order
  // of last use, each key with its latest value.
  ghost predicate ByLastUse<K, V>(uses: seq<(K, V)>, l: seq<(K, V)>, at: seq<nat>) {
    && |at| == |l|
    && (forall j {:trigger at[j]} :: 0 <= j < |l| ==>
          LastUse(uses, l[j].0, at[j]) && uses[at[j]] == l[j])
    && (forall i, j {:trigger at[i], at[j]} :: 0 <= i < j < |at| ==> at[i] > at[j])
  }

  lemma {:induction false} RecentsByLastUse<K, V>(uses: seq<(K, V)>) returns (at: seq<nat>)
    ensures ByLastUse(uses, Recents(uses), at)
  {
    if uses == [] {
      at := [];
    } else {
      var init, last := uses[..|uses| - 1], uses[|uses| - 1];
      at := RecentsByLastUse(init);
      RecentsDistinct(init);
      var l := Recents(init);
      assert uses == init + [last];
      if j :| 0 <= j < |l| && l[j].0 == last.0 {
        var rest;
        rest, at := DropUse(init, l, at, j);
        WithoutAt(l, j);
        at := PushUse(init, last, rest, at);
      } else {
        WithoutAbsent(l, last.0);
        at := PushUse(init, last, l, at);
      }
    }
  }

  lemma DropUse<K, V>(uses: seq<(K, V)>, l: seq<(K, V)>, at: seq<nat>, j: nat)
    returns (rest: seq<(K, V)>, at': seq<nat>)
    requires ByLastUse(uses, l, at) && DistinctKeys(l) && j < |l|
    ensures rest == l[..j] + l[j + 1..] && ByLastUse(uses, rest, at')
    ensures forall i :: 0 <= i < |rest| ==> rest[i].0 != l[j].0
  {
    at' := at[..j] + at[j + 1..];
    rest := l[..j] + l[j + 1..];
    forall i | 0 <= i < |rest|
      ensures LastUse(uses, rest[i].0, at'[i]) && uses[at'[i]] == rest[i]
    {
      var o := if i < j then i else i + 1;
      assert rest[i] == l[o] && at'[i] == at[o];
    }
  }

  lemma PushUse<K, V>(init: seq<(K, V)>, last: (K, V), l: seq<(K, V)>, at: seq<nat>)
    returns (at': seq<nat>)
    requires ByLastUse(init, l, at) && forall i :: 0 <= i < |l| ==> l[i].0 != last.0
    ensures ByLastUse(init + [last], [last] + l, at')
  {
    at' := [|init|] + at;
    var uses, l' := init + [last], [last] + l;
    forall i | 0 <= i < |l'|
      ensures LastUse(uses, l'[i].0, at'[i]) && uses[at'[i]] == l'[i]
    {
      if i > 0 {
        assert LastUse(init, l[i - 1].0, at[i - 1]);
      }
    }
  }

  // No key that was ever used is missing.
  lemma {:induction false} RecentsComplete<K, V>(uses: seq<(K, V)>, i: nat) returns (j: nat)
    requires i < |uses|
    ensures j < |Recents(uses)| && Recents(uses)[j].0 == uses[i].0
  {
    var init, last := uses[..|uses| - 1], uses[|uses| - 1];
    if uses[i].0 == last.0 {
      j := 0;
    } else {
      j := RecentsComplete(init, i);
      j := WithoutKeeps(Recents(init), last.0, j);
      j := j + 1;
    }
  }

  lemma {:induction false} WithoutKeeps<K, V>(l: seq<(K, V)>, k: K, i: nat) returns (j: nat)
    requires i < |l| && l[i].0 != k
    ensures j < |Without(l, k)| && Without(l, k)[j] == l[i]
  {
    if i == 0 {
      j := 0;
    } else {
      j := WithoutKeeps(l[1..], k, i - 1);
      j := if l[0].0 == k then j else j + 1;
    }
  }

  // ---- Four slots hold a recency list ----

  // p lists the slots in use by decreasing stamp; slots in use are a prefix.
  ghost predicate Holds<K, V>(ws: seq<Way<K, V>>, l: seq<(K, V)>, p: seq<nat>, hash: K -> nat, now: nat) {
    && |ws| == WAYS && |l| == |p| <= WAYS
    && DistinctKeys(l)
    && (forall w :: 0 <= w < WAYS ==> (ws[w].valid <==> w < |p|))
    && (forall i {:trigger p[i]} :: 0 <= i < |p| ==>
          && p[i] < |p|
          && ws[p[i]].key == l[i].0 && ws[p[i]].result == l[i].1
          && ws[p[i]].hash == hash(l[i].0) && ws[p[i]].accessed <= now)
    && (forall w :: 0 <= w < |p| ==> w in p)
    && (forall i, j {:trigger p[i], p[j]} :: 0 <= i < j < |p| ==>
          p[i] != p[j] && ws[p[i]].accessed > ws[p[j]].accessed)
  }

  ghost function Refreshed(p: seq<nat>, j: nat): seq<nat>
    requires j < |p|
  {
    [p[j]] + p[..j] + p[j + 1..]
  }

  lemma RefreshedMembers(p: seq<nat>, j: nat)
    requires j < |p|
    ensures |Refreshed(p, j)| == |p|
    ensures forall i {:trigger Refreshed(p, j)[i]} :: 0 <= i < |p| ==>
              Refreshed(p, j)[i] == if i == 0 then p[j] else if i <= j then p[i - 1] else p[i]
    ensures forall w :: w in p ==> w in Refreshed(p, j)
  {
    forall w | w in p
      ensures w in Refreshed(p, j)
    {
      var i :| 0 <= i < |p| && p[i] == w;
      assert Refreshed(p, j)[if i == j then 0 else if i < j then i + 1 else i] == w;
    }
  }

  lemma TouchAt<K, V>(l: seq<(K, V)>, j: nat, v: V)
    requires DistinctKeys(l) && j < |l| <= WAYS
    ensures |Touch(l, l[j].0, v)| == |l|
    ensures forall i {:trigger Touch(l, l[j].0, v)[i]} :: 0 <= i < |l| ==>
              Touch(l, l[j].0, v)[i] == if i == 0 then (l[j].0, v) else if i <= j then l[i - 1] else l[i]
    ensures DistinctKeys(Touch(l, l[j].0, v))
  {
    WithoutAt(l, j);
    assert Touch(l, l[j].0, v) == [(l[j].0, v)] + (l[..j] + l[j + 1..]);
  }

  // A hit (lookup or store): the slot is stamped, the list is touched.
  lemma HitHolds<K, V>(ws: seq<Way<K, V>>, l: seq<(K, V)>, p: seq<nat>, hash: K -> nat, now: nat, j: nat, v: V)
    requires Holds(ws, l, p, hash, now) && j < |p|
    ensures Holds(ws[p[j] := Way(true, now + 1, hash(l[j].0), l[j].0, v)],
                  Touch(l, l[j].0, v), Refreshed(p, j), hash, now + 1)
  {
    hide Touch, Refreshed;
    TouchAt(l, j, v);
    RefreshedMembers(p, j);
    var p', l' := Refreshed(p, j), Touch(l, l[j].0, v);
    var ws' := ws[p[j] := Way(true, now + 1, hash(l[j].0), l[j].0, v)];
    forall i | 0 <= i < |p'|
      ensures p'[i] < |p'| && ws'[p'[i]].key == l'[i].0 && ws'[p'[i]].result == l'[i].1
      ensures ws'[p'[i]].hash == hash(l'[i].0) && ws'[p'[i]].accessed <= now + 1
    {
      var o := if i == 0 then j else if i <= j then i - 1 else i;
      assert p'[i] == p[o];
    }
  }

  // A store into the first unused slot.
  lemma FillHolds<K, V>(ws: seq<Way<K, V>>, l: seq<(K, V)>, p: seq<nat>, hash: K -> nat, now: nat, k: K, v: V)
    requires Holds(ws, l, p, hash, now) && |p| < WAYS
    requires forall i :: 0 <= i < |l| ==> l[i].0 != k
    ensures Holds(ws[|p| := Way(true, now + 1, hash(k), k, v)], Touch(l, k, v), [|p|] + p, hash, now + 1)
  {
    hide Without;
    WithoutAbsent(l, k);
    var p', l' := [|p|] + p, [(k, v)] + l;
    assert Touch(l, k, v) == l';
    assert forall i :: 0 <= i < |p'| ==> p'[i] == if i == 0 then |p| else p[i - 1];
    forall w | 0 <= w < |p'|
      ensures w in p'
    {
      if w == |p| {
        assert p'[0] == w;
      } else {
        assert w in p;
      }
    }
  }

  // A store that evicts the slot with the oldest stamp.
  lemma EvictHolds<K, V>(ws: seq<Way<K, V>>, l: seq<(K, V)>, p: seq<nat>, hash: K -> nat, now: nat, k: K, v: V)
    requires Holds(ws, l, p, hash, now) && |p| == WAYS
    requires forall i :: 0 <= i < |l| ==> l[i].0 != k
    ensures Holds(ws[p[3] := Way(true, now + 1, hash(k), k, v)], Touch(l, k, v), [p[3]] + p[..3], hash, now + 1)
  {
    WithoutAbsent(l, k);
    assert Touch(l, k, v) == [(k, v)] + l[..3];
    var p' := [p[3]] + p[..3];
    assert forall i :: 0 <= i < 4 ==> p'[i] == if i == 0 then p[3] else p[i - 1];
    forall w | 0 <= w < WAYS
      ensures w in p'
    {
      assert w in p;
      var i :| 0 <= i < |p| && p[i] == w;
      assert p'[if i == 3 then 0 else i + 1] == w;
    }
  }

  lemma HoldsLater<K, V>(ws: seq<Way<K, V>>, l: seq<(K, V)>, p: seq<nat>, hash: K -> nat, now: nat)
    requires Holds(ws, l, p, hash, now)
    ensures Holds(ws, l, p, hash, now + 1)
  {
  }

  // In use at rank i: the slot, its entry and its place in the list agree.
  lemma HoldsCurrent<K, V>(ws: seq<Way<K, V>>, l: seq<(K, V)>, p: seq<nat>, hash: K -> nat, now: nat, i: nat)
    requires Holds(ws, l, p, hash, now) && i < |l|
    ensures Current(l, l[i].0) == Some(l[i].1)
    ensures i < |p| && p[i] < WAYS && ws[p[i]].valid
  {
  }

  lemma UsedSlot<K, V>(ws: seq<Way<K, V>>, l: seq<(K, V)>, p: seq<nat>, hash: K -> nat, now: nat, w: nat)
    returns (i: nat)
    requires Holds(ws, l, p, hash, now) && w < WAYS && ws[w].valid
    ensures i < |p| == |l| && p[i] == w && ws[w].key == l[i].0
    ensures l[i] == (ws[w].key, ws[w].result) && ws[w].hash == hash(ws[w].key)
  {
    assert w in p;
    i :| 0 <= i < |p| && p[i] == w;
  }

  // All four slots in use: the smallest stamp is the last of the list.
  lemma OldestIsLast<K, V>(ws: seq<Way<K, V>>, l: seq<(K, V)>, p: seq<nat>, hash: K -> nat, now: nat, w: nat)
    requires Holds(ws, l, p, hash, now) && |p| == WAYS && w < WAYS
    requires forall j :: 0 <= j < WAYS ==> ws[w].accessed <= ws[j].accessed
    ensures p[3] == w
  {
    var i := UsedSlot(ws, l, p, hash, now, w);
    assert ws[w].accessed <= ws[p[3]].accessed;
    assert p[i] == w;
  }

  lemma FirstUnused<K, V>(ws: seq<Way<K, V>>, l: seq<(K, V)>, p: seq<nat>, hash: K -> nat, now: nat, n: nat)
    requires Holds(ws, l, p, hash, now) && n <= WAYS
    requires forall w :: 0 <= w < n ==> ws[w].valid
    requires n == WAYS || !ws[n].valid
    ensures n == |p| == |l|
  {
    assert n > 0 ==> ws[n - 1].valid;
  }

  // No slot in use carries k: k is not in the list.
  lemma NotHeld<K, V>(ws: seq<Way<K, V>>, l: seq<(K, V)>, p: seq<nat>, hash: K -> nat, now: nat, k: K, n: nat)
    requires Holds(ws, l, p, hash, now) && n <= WAYS
    requires forall w :: 0 <= w < n ==> !ws[w].valid || ws[w].key != k
    requires n == WAYS || !ws[n].valid
    ensures forall i :: 0 <= i < |l| ==> l[i].0 != k
  {
    forall i | 0 <= i < |l|
      ensures l[i].0 != k
    {
      assert p[i] < |p|;
      assert ws[p[i]].key == l[i].0;
    }
  }

  // What a set's entry for k is worth now.
  ghost function Current<K, V>(l: seq<(K, V)>, k: K): (r: Option<V>)
    ensures r.Some? <==> exists i :: 0 <= i < |l| && l[i].0 == k
    ensures r.Some? ==> (k, r.value) in l
    ensures forall i :: 0 <= i < |l| && l[i].0 == k && DistinctKeys(l) ==> r == Some(l[i].1)
  {
    if l == [] then None
    else if l[0].0 == k then Some(l[0].1)
    else
      assert forall j :: 0 <= j < |l| - 1 ==> l[1..][j] == l[j + 1];
      assert forall i :: 0 < i < |l| ==> l[i] == l[1..][i - 1];
      Current(l[1..], k)
  }

  // A hit was put there by a use of the same key.
  lemma CurrentWasUsed<K, V>(uses: seq<(K, V)>, k: K, v: V)
    requires Current(Cap(Recents(uses)), k) == Some(v)
    ensures (k, v) in uses
  {
    var l := Cap(Recents(uses));
    var j :| 0 <= j < |l| && l[j] == (k, v);
    var i := RecentsFrom(uses, j);
  }

  // ---- All sets ----

  ghost predicate SetHolds<K, V>(ws: seq<Way<K, V>>, uses: seq<seq<(K, V)>>, ranks: seq<seq<nat>>,
                                 hash: K -> nat, now: nat, s: nat)
    requires s < |uses| == |ranks| && |ws| == |uses| * WAYS
  {
    Holds(ws[s * WAYS..s * WAYS + WAYS], Cap(Recents(uses[s])), ranks[s], hash, now)
  }

  ghost predicate AllHold<K, V>(ws: seq<Way<K, V>>, sets: nat, uses: seq<seq<(K, V)>>, ranks: seq<seq<nat>>,
                                hash: K -> nat, now: nat)
  {
    && 0 < sets == |uses| == |ranks| && |ws| == sets * WAYS
    && forall s {:trigger SetHolds(ws, uses, ranks, hash, now, s)} ::
         0 <= s < sets ==> SetHolds(ws, uses, ranks, hash, now, s)
  }

  // Set s is touched as Holds demands; every other set keeps its list.
  lemma OneSetChanged<K, V>(ws: seq<Way<K, V>>, sets: nat, uses: seq<seq<(K, V)>>, ranks: seq<seq<nat>>,
                            hash: K -> nat, now: nat, s: nat, w: nat, p: seq<nat>, k: K, v: V)
    requires AllHold(ws, sets, uses, ranks, hash, now) && s < sets && w < WAYS
    requires Holds(ws[s * WAYS..s * WAYS + WAYS][w := Way(true, now + 1, hash(k), k, v)],
                   Touch(Cap(Recents(uses[s])), k, v), p, hash, now + 1)
    ensures AllHold(ws[s * WAYS + w := Way(true, now + 1, hash(k), k, v)], sets,
                    uses[s := uses[s] + [(k, v)]], ranks[s := p], hash, now + 1)
  {
    hide Holds, Cap, Recents, Touch;
    var ws' := ws[s * WAYS + w := Way(true, now + 1, hash(k), k, v)];
    var uses', ranks', now' := uses[s := uses[s] + [(k, v)]], ranks[s := p], now + 1;
    CapCommutes(uses[s], k, v);
    forall t | 0 <= t < sets
      ensures SetHolds(ws', uses', ranks', hash, now', t)
    {
      if t == s {
        assert ws'[s * WAYS..s * WAYS + WAYS]
            == ws[s * WAYS..s * WAYS + WAYS][w := Way(true, now + 1, hash(k), k, v)];
      } else {
        assert SetHolds(ws, uses, ranks, hash, now, t);
        assert ws'[t * WAYS..t * WAYS + WAYS] == ws[t * WAYS..t * WAYS + WAYS];
        HoldsLater(ws[t * WAYS..t * WAYS + WAYS], Cap(Recents(uses[t])), ranks[t], hash, now);
      }
    }
  }

  class Cache<K(==), V> {
    const ways: array<Way<K, V>>
    const sets: nat
    const hash: K -> nat
    const pick: nat -> nat
    var generation: nat
    ghost var uses: seq<seq<(K, V)>>
    ghost var ranks: seq<seq<nat>>

    function SetOf(k: K): (s: nat)
      requires sets > 0
      ensures s < sets
    {
      pick(hash(k)) % sets
    }

    // The recency list of set s: the four most recently used keys.
    ghost function Recent(s: nat): seq<(K, V)>
      requires s < |uses|
      reads this
    {
      Cap(Recents(uses[s]))
    }

    ghost predicate Valid()
      reads this, ways
    {
      AllHold(ways[..], sets, uses, ranks, hash, generation)
    }

    constructor (sets: nat, hash: K -> nat, pick: nat -> nat, blank: Way<K, V>)
      requires sets > 0 && !blank.valid
      ensures Valid() && fresh(ways)
      ensures this.sets == sets && this.hash == hash && this.pick == pick
      ensures forall s :: 0 <= s < sets ==> uses[s] == []
    {
      ways := new Way<K, V>[sets * WAYS](_ => blank);
      this.sets := sets;
      this.hash := hash;
      this.pick := pick;
      generation := 0;
      uses := seq(sets, _ => []);
      ranks := seq(sets, _ => []);
    }

    // The way of set s that is in use for k.
    method FindWay(s: nat, k: K) returns (found: bool, w: nat, ghost rank: nat)
      requires Valid() && s < sets
      ensures found <==> Current(Recent(s), k).Some?
      ensures found ==>
                && rank < |ranks[s]| && rank < |Recent(s)| && w < WAYS && ranks[s][rank] == w
                && Recent(s)[rank] == (k, ways[s * WAYS + w].result)
                && ways[s * WAYS + w].hash == hash(k) && ways[s * WAYS + w].key == k
                && ways[s * WAYS + w].valid
    {
      hide Holds;
      rank := 0;
      ghost var ws, l, p := ways[s * WAYS..s * WAYS + WAYS], Recent(s), ranks[s];
      assert SetHolds(ways[..], uses, ranks, hash, generation, s);
      assert ways[..][s * WAYS..s * WAYS + WAYS] == ways[s * WAYS..s * WAYS + WAYS];
      var start := s * WAYS;
      w := 0;
      while w < WAYS
        invariant w <= WAYS
        invariant forall j :: 0 <= j < w ==> !ws[j].valid || ws[j].key != k
      {
        assert ways[start + w] == ws[w];
        if ways[start + w].valid && ways[start + w].hash == hash(k) && ways[start + w].key == k {
          rank := UsedSlot(ws, l, p, hash, generation, w);
          return true, w, rank;
        }
        if ws[w].valid {
          ghost var i := UsedSlot(ws, l, p, hash, generation, w);
        }
        w := w + 1;
      }
      NotHeld(ws, l, p, hash, generation, k, w);
      return false, 0, 0;
    }

    // Way w of set s is stamped and holds k from now on.
    method Stamp(s: nat, w: nat, k: K, v: V, ghost p: seq<nat>)
      requires Valid() && s < sets && w < WAYS
      requires Holds(ways[s * WAYS..s * WAYS + WAYS][w := Way(true, generation + 1, hash(k), k, v)],
                     Touch(Recent(s), k, v), p, hash, generation + 1)
      modifies this`generation, this`uses, this`ranks, ways
      ensures Valid()
      ensures uses == old(uses)[s := old(uses[s]) + [(k, v)]]
    {
      hide Holds, Touch, Cap, Recents, SetHolds;
      ghost var all := ways[..];
      assert all[s * WAYS..s * WAYS + WAYS] == ways[s * WAYS..s * WAYS + WAYS];
      OneSetChanged(all, sets, uses, ranks, hash, generation, s, w, p, k, v);
      generation := generation + 1;
      ways[s * WAYS + w] := Way(true, generation, hash(k), k, v);
      assert ways[..] == all[s * WAYS + w := Way(true, generation, hash(k), k, v)];
      uses := uses[s := uses[s] + [(k, v)]];
      ranks := ranks[s := p];
    }

    // A hit returns the value last stored for k and makes k the most recent
    // key of its set; a miss changes nothing.
    method Lookup(k: K) returns (r: Option<V>)
      requires Valid()
      modifies this`generation, this`uses, this`ranks, ways
      ensures Valid()
      ensures r == Current(old(Recent(SetOf(k))), k)
      ensures r.None? ==> uses == old(uses)
      ensures r.Some? ==> uses == old(uses)[SetOf(k) := old(uses[SetOf(k)]) + [(k, r.value)]]
    {
      hide Holds, Refreshed, Touch, Current, Cap, Recents;
      var s := SetOf(k);
      var found, w, rank := FindWay(s, k);
      if !found {
        return None;
      }
      ghost var ws, l := ways[s * WAYS..s * WAYS + WAYS], Recent(s);
      assert SetHolds(ways[..], uses, ranks, hash, generation, s);
      assert ways[..][s * WAYS..s * WAYS + WAYS] == ws;
      var v := ways[s * WAYS + w].result;
      HitHolds(ws, l, ranks[s], hash, generation, rank, v);
      HoldsCurrent(ws, l, ranks[s], hash, generation, rank);
      Stamp(s, w, k, v, Refreshed(ranks[s], rank));
      return Some(v);
    }

    // The way to overwrite: k's own, else the first unused, else the oldest.
    method VictimWay(s: nat, k: K, ghost v: V) returns (w: nat, ghost p: seq<nat>)
      requires Valid() && s < sets
      ensures w < WAYS
      ensures Holds(ways[s * WAYS..s * WAYS + WAYS][w := Way(true, generation + 1, hash(k), k, v)],
                    Touch(Recent(s), k, v), p, hash, generation + 1)
    {
      hide Holds, Touch, Refreshed, Recents, Cap;
      ghost var ws, l, q := ways[s * WAYS..s * WAYS + WAYS], Recent(s), ranks[s];
      assert SetHolds(ways[..], uses, ranks, hash, generation, s);
      assert ways[..][s * WAYS..s * WAYS + WAYS] == ways[s * WAYS..s * WAYS + WAYS];
      var start := s * WAYS;
      var oldest := 0;
      w := 0;
      while w < WAYS
        invariant w <= WAYS && oldest < WAYS
        invariant forall j :: 0 <= j < w ==> ws[j].valid && ws[j].key != k
        invariant oldest <= w && forall j :: 0 <= j < w ==> ws[oldest].accessed <= ws[j].accessed
      {
        assert ways[start + w] == ws[w] && ways[start + oldest] == ws[oldest];
        if ways[start + w].valid && ways[start + w].hash == hash(k) && ways[start + w].key == k {
          ghost var j := UsedSlot(ws, l, q, hash, generation, w);
          p := Refreshed(q, j);
          HitHolds(ws, l, q, hash, generation, j, v);
          return;
        }
        if !ways[start + w].valid {
          NotHeld(ws, l, q, hash, generation, k, w);
          FirstUnused(ws, l, q, hash, generation, w);
          p := [w] + q;
          FillHolds(ws, l, q, hash, generation, k, v);
          return;
        }
        ghost var i := UsedSlot(ws, l, q, hash, generation, w);
        if ways[start + w].accessed < ways[start + oldest].accessed {
          oldest := w;
        }
        w := w + 1;
      }
      NotHeld(ws, l, q, hash, generation, k, w);
      FirstUnused(ws, l, q, hash, generation, w);
      p := [q[3]] + q[..3];
      OldestIsLast(ws, l, q, hash, generation, oldest);
      w := oldest;
      EvictHolds(ws, l, q, hash, generation, k, v);
    }

    method Store(k: K, v: V)
      requires Valid()
      modifies this`generation, this`uses, this`ranks, ways
      ensures Valid()
      ensures uses == old(uses)[SetOf(k) := old(uses[SetOf(k)]) + [(k, v)]]
    {
      var s := SetOf(k);
      var w, p := VictimWay(s, k, v);
      Stamp(s, w, k, v, p);
    }
  }
}
