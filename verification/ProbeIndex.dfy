// The open-addressing index built once at configuration time and probed at run
// time: geosite appends to a key's chain, DNS rules and routes keep the first.
module ProbeIndex {
  import opened Bytes

  datatype Slot = Free | Used(hash: nat, key: Text, chain: seq<nat>)

  // The i-th slot probed from home.
  function Probe(home: nat, i: nat, slots: nat): (p: nat)
    requires home < slots && i < slots
    ensures p < slots
  {
    if home + i < slots then home + i else home + i - slots
  }

  // How many probes lead from home to p.
  function Distance(home: nat, p: nat, slots: nat): (d: nat)
    requires home < slots && p < slots
    ensures d < slots && Probe(home, d, slots) == p
  {
    if p >= home then p - home else p + slots - home
  }

  lemma WrapIsModulo(home: nat, i: nat, slots: nat)
    requires home < slots && i < slots
    ensures (home + i) % slots == Probe(home, i, slots)
  {
    if home + i < slots {
      SmallModulo(home + i, slots);
    } else {
      ModAddsOnce(home + i - slots, slots);
    }
  }

  lemma SmallModulo(x: nat, m: nat)
    requires x < m
    ensures x % m == x
  {
  }

  lemma ModAddsOnce(x: nat, m: nat)
    requires x < m
    ensures (m + x) % m == x
  {
    var q: int := (m + x) / m;
    assert (q - 1) * m == x - (m + x) % m;
    SmallMultiple(q - 1, m);
  }

  lemma SmallMultiple(k: int, m: int)
    requires -m < k * m < m
    ensures k == 0
  {
    if k >= 1 {
      MulGrows(k, m);
      assert false;
    }
  }

  lemma MulGrows(k: nat, m: nat)
    requires k >= 1
    ensures k * m >= m
  {
  }

  // What the table stands for, and where each key sits.
  datatype View = View(contents: map<Text, seq<nat>>, at: map<Text, nat>)

  ghost predicate SlotOk(ts: seq<Slot>, v: View, p: nat)
    requires p < |ts|
  {
    ts[p].Used? ==> ts[p].key in v.contents && ts[p].key in v.at && v.at[ts[p].key] == p
  }

  // Key k sits in its slot and no free slot precedes it on its probe path.
  ghost predicate KeyOk(ts: seq<Slot>, hash: Text -> nat, v: View, k: Text)
    requires |ts| > 0 && k in v.contents
  {
    && k in v.at && v.at[k] < |ts|
    && ts[v.at[k]] == Used(hash(k), k, v.contents[k])
    && forall i :: 0 <= i < Distance(hash(k) % |ts|, v.at[k], |ts|) ==>
         ts[Probe(hash(k) % |ts|, i, |ts|)].Used?
  }

  ghost predicate Table(ts: seq<Slot>, hash: Text -> nat, v: View) {
    && |ts| > 0
    && (forall p {:trigger SlotOk(ts, v, p)} :: 0 <= p < |ts| ==> SlotOk(ts, v, p))
    && (forall k {:trigger KeyOk(ts, hash, v, k)} :: k in v.contents ==> KeyOk(ts, hash, v, k))
  }

  // A full table holds at least as many keys as slots.
  lemma {:induction false} FullTable(ts: seq<Slot>, v: View, n: nat, keys: set<Text>)
    requires n <= |ts|
    requires forall p {:trigger ts[p]} :: 0 <= p < n ==> ts[p].Used? && ts[p].key in keys
    requires forall p, q {:trigger ts[p], ts[q]} :: 0 <= p < q < n ==> ts[p].key != ts[q].key
    ensures n <= |keys|
    decreases n
  {
    if n > 0 {
      FullTable(ts, v, n - 1, keys - {ts[n - 1].key});
    }
  }

  // Probing every slot without meeting a free one means a full table.
  lemma NoFreeSlot(ts: seq<Slot>, hash: Text -> nat, v: View, home: nat)
    requires Table(ts, hash, v) && home < |ts|
    requires forall i {:trigger Probe(home, i, |ts|)} :: 0 <= i < |ts| ==> ts[Probe(home, i, |ts|)].Used?
    ensures |ts| <= |v.contents|
  {
    forall p | 0 <= p < |ts|
      ensures ts[p].Used? && ts[p].key in v.contents.Keys
      ensures ts[p].key in v.at && v.at[ts[p].key] == p
    {
      assert ts[Probe(home, Distance(home, p, |ts|), |ts|)].Used?;
      assert SlotOk(ts, v, p);
    }
    FullTable(ts, v, |ts|, v.contents.Keys);
  }

  lemma KeyPlace(ts: seq<Slot>, hash: Text -> nat, v: View, key: Text) returns (d: nat)
    requires Table(ts, hash, v) && key in v.contents
    ensures d < |ts|
    ensures ts[Probe(hash(key) % |ts|, d, |ts|)] == Used(hash(key), key, v.contents[key])
    ensures forall i :: 0 <= i < d ==> ts[Probe(hash(key) % |ts|, i, |ts|)].Used?
  {
    assert KeyOk(ts, hash, v, key);
    d := Distance(hash(key) % |ts|, v.at[key], |ts|);
  }

  // A key met nowhere before the first free slot is absent.
  lemma AbsentAtFree(ts: seq<Slot>, hash: Text -> nat, v: View, key: Text, i: nat)
    requires Table(ts, hash, v) && i <= |ts|
    requires forall j :: 0 <= j < i ==>
               var s := ts[Probe(hash(key) % |ts|, j, |ts|)]; s.Used? && s.key != key
    requires i == |ts| || ts[Probe(hash(key) % |ts|, i, |ts|)].Free?
    ensures key !in v.contents
  {
    if key in v.contents {
      var d := KeyPlace(ts, hash, v, key);
      assert false;
    }
  }

  lemma FillSlot(ts: seq<Slot>, hash: Text -> nat, v: View, key: Text, chain: seq<nat>, i: nat)
    requires Table(ts, hash, v) && i < |ts| && key !in v.contents
    requires forall j :: 0 <= j < i ==> ts[Probe(hash(key) % |ts|, j, |ts|)].Used?
    requires ts[Probe(hash(key) % |ts|, i, |ts|)].Free?
    ensures var p := Probe(hash(key) % |ts|, i, |ts|);
            Table(ts[p := Used(hash(key), key, chain)], hash, View(v.contents[key := chain], v.at[key := p]))
  {
    var home := hash(key) % |ts|;
    var p := Probe(home, i, |ts|);
    var ts', v' := ts[p := Used(hash(key), key, chain)], View(v.contents[key := chain], v.at[key := p]);
    assert Distance(home, p, |ts|) == i;
    forall q | 0 <= q < |ts'|
      ensures SlotOk(ts', v', q)
    {
      assert SlotOk(ts, v, q);
    }
    forall k | k in v'.contents
      ensures KeyOk(ts', hash, v', k)
    {
      if k != key { assert KeyOk(ts, hash, v, k); }
    }
  }

  lemma ChangeChain(ts: seq<Slot>, hash: Text -> nat, v: View, key: Text, p: nat, chain: seq<nat>)
    requires Table(ts, hash, v) && p < |ts| && ts[p].Used? && ts[p].key == key
    ensures key in v.contents && ts[p] == Used(hash(key), key, v.contents[key])
    ensures Table(ts[p := ts[p].(chain := chain)], hash, v.(contents := v.contents[key := chain]))
  {
    assert SlotOk(ts, v, p) && KeyOk(ts, hash, v, key);
    var ts', v' := ts[p := ts[p].(chain := chain)], v.(contents := v.contents[key := chain]);
    forall q | 0 <= q < |ts'|
      ensures SlotOk(ts', v', q)
    {
      assert SlotOk(ts, v, q);
    }
    forall k | k in v'.contents
      ensures KeyOk(ts', hash, v', k)
    {
      assert KeyOk(ts, hash, v, k);
    }
  }

  // Keys at distinct positions below n, none at p, are fewer than n.
  lemma {:induction false} KeysMissOne(keys: set<Text>, at: map<Text, nat>, n: nat, p: nat)
    requires p < n
    requires forall k :: k in keys ==> k in at && at[k] < n && at[k] != p
    requires forall k, l :: k in keys && l in keys && k != l ==> at[k] != at[l]
    ensures |keys| < n
    decreases n
  {
    if n == 1 {
      assert keys == {};
    } else if exists k :: k in keys && at[k] == n - 1 {
      var k :| k in keys && at[k] == n - 1;
      KeysMissOne(keys - {k}, at, n - 1, if p == n - 1 then 0 else p);
    } else if p == n - 1 && exists k :: k in keys && at[k] == 0 {
      var k :| k in keys && at[k] == 0;
      KeysMissOne(keys - {k}, at, n - 1, 0);
    } else {
      KeysMissOne(keys, at, n - 1, if p == n - 1 then 0 else p);
    }
  }

  lemma NotFullAtFree(ts: seq<Slot>, hash: Text -> nat, v: View, p: nat)
    requires Table(ts, hash, v) && p < |ts| && ts[p].Free?
    ensures |v.contents| < |ts|
  {
    forall k | k in v.contents.Keys
      ensures k in v.at && v.at[k] < |ts| && v.at[k] != p && ts[v.at[k]].Used? && ts[v.at[k]].key == k
    {
      assert KeyOk(ts, hash, v, k);
    }
    KeysMissOne(v.contents.Keys, v.at, |ts|, p);
  }

  // Slots are a power-of-two multiple of least, at least factor per key.
  method IndexSlots(count: nat, least: nat, factor: nat) returns (slots: nat)
    requires least > 0
    ensures slots >= least && slots >= count * factor
    ensures slots == least || slots < 2 * count * factor
  {
    slots := least;
    while slots < count * factor
      invariant least <= slots
      invariant slots == least || slots < 2 * count * factor
      decreases count * factor - slots
    {
      slots := slots * 2;
    }
  }

  // geosite_index_find and domain_index_find stop at the first free slot.
  method Find(ts: seq<Slot>, hash: Text -> nat, ghost v: View, key: Text) returns (chain: Option<seq<nat>>)
    requires Table(ts, hash, v)
    ensures chain == if key in v.contents then Some(v.contents[key]) else None
  {
    var h := hash(key);
    var home := h % |ts|;
    var i := 0;
    while i < |ts|
      invariant 0 <= i <= |ts|
      invariant forall j :: 0 <= j < i ==>
                  var s := ts[Probe(home, j, |ts|)]; s.Used? && s.key != key
    {
      WrapIsModulo(home, i, |ts|);
      var p := (home + i) % |ts|;
      if ts[p].Free? {
        AbsentAtFree(ts, hash, v, key, i);
        return None;
      }
      if ts[p].hash == h && ts[p].key == key {
        ChangeChain(ts, hash, v, key, p, []);
        return Some(ts[p].chain);
      }
      if ts[p].key == key {
        ChangeChain(ts, hash, v, key, p, []);
        assert false;
      }
      i := i + 1;
    }
    AbsentAtFree(ts, hash, v, key, i);
    return None;
  }

  class Index {
    const slots: array<Slot>
    const hash: Text -> nat
    const keepFirst: bool
    ghost var view: View

    ghost predicate Valid()
      reads this, slots
    {
      Table(slots[..], hash, view)
    }

    constructor (size: nat, hash: Text -> nat, keepFirst: bool)
      requires size > 0
      ensures Valid() && fresh(slots) && slots.Length == size
      ensures this.hash == hash && this.keepFirst == keepFirst
      ensures view.contents == map[]
    {
      slots := new Slot[size](_ => Free);
      this.hash := hash;
      this.keepFirst := keepFirst;
      view := View(map[], map[]);
    }

    method Insert(key: Text, value: nat) returns (ok: bool)
      requires Valid()
      modifies this, slots
      ensures Valid()
      ensures ok <==> key in old(view.contents) || |old(view.contents)| < slots.Length
      ensures view.contents ==
              if !ok || (keepFirst && key in old(view.contents)) then old(view.contents)
              else if key in old(view.contents)
                then old(view.contents)[key := old(view.contents)[key] + [value]]
              else old(view.contents)[key := [value]]
    {
      ghost var ts := slots[..];
      var h := hash(key);
      var home := h % slots.Length;
      var i := 0;
      while i < slots.Length
        invariant 0 <= i <= slots.Length
        invariant slots[..] == ts && view == old(view)
        invariant forall j :: 0 <= j < i ==>
                    var s := ts[Probe(home, j, |ts|)]; s.Used? && s.key != key
      {
        WrapIsModulo(home, i, slots.Length);
        var p := (home + i) % slots.Length;
        assert slots[p] == ts[p];
        if slots[p].Free? {
          AbsentAtFree(ts, hash, view, key, i);
          NotFullAtFree(ts, hash, view, p);
          FillSlot(ts, hash, view, key, [value], i);
          slots[p] := Used(h, key, [value]);
          assert slots[..] == ts[p := Used(h, key, [value])];
          view := View(view.contents[key := [value]], view.at[key := p]);
          return true;
        }
        if slots[p].hash == h && slots[p].key == key {
          var chain := if keepFirst then slots[p].chain else slots[p].chain + [value];
          ChangeChain(ts, hash, view, key, p, chain);
          if !keepFirst {
            slots[p] := slots[p].(chain := chain);
            view := view.(contents := view.contents[key := chain]);
          }
          assert slots[..] == ts[p := ts[p].(chain := chain)];
          return true;
        }
        if ts[p].key == key {
          ChangeChain(ts, hash, view, key, p, []);
          assert false;
        }
        i := i + 1;
      }
      AbsentAtFree(ts, hash, view, key, i);
      NoFreeSlot(ts, hash, view, home);
      return false;
    }
  }
}
