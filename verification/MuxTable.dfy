// The stream table of one mux session: open addressing over 128 slots with
// tombstones, rebuilt when too many of them pile up.
module MuxTable {
  import opened Bytes
  import opened ProbeIndex

  const MAX_STREAMS: nat := 64
  const TABLE_SIZE: nat := 128
  const WORD: nat := 0x1_0000_0000

  // ref tells two allocations apart; the table only compares them.
  datatype Stream = Stream(id: nat, ref: nat)

  datatype Cell = Empty | Tombstone | Live(stream: Stream)

  // mux_stream_slot, with its 32-bit product.
  function Home(id: nat): (h: nat)
    ensures h < TABLE_SIZE
  {
    id * 2654435761 % WORD % TABLE_SIZE
  }

  // ---- Counting cells ----

  ghost function Count(t: seq<Cell>, kind: Cell -> bool): nat {
    if t == [] then 0 else Count(t[..|t| - 1], kind) + if kind(t[|t| - 1]) then 1 else 0
  }

  lemma {:induction false} CountUpdate(t: seq<Cell>, p: nat, c: Cell, kind: Cell -> bool)
    requires p < |t|
    ensures Count(t[p := c], kind) == Count(t, kind) - (if kind(t[p]) then 1 else 0) + if kind(c) then 1 else 0
    decreases |t|
  {
    if p < |t| - 1 {
      assert t[p := c][..|t| - 1] == t[..|t| - 1][p := c];
      CountUpdate(t[..|t| - 1], p, c, kind);
    } else {
      assert t[p := c][..|t| - 1] == t[..|t| - 1];
    }
  }

  lemma {:induction false} CountAll(t: seq<Cell>, kind: Cell -> bool)
    ensures Count(t, kind) <= |t|
    ensures Count(t, kind) == |t| <==> forall p :: 0 <= p < |t| ==> kind(t[p])
    ensures Count(t, kind) == 0 <==> forall p :: 0 <= p < |t| ==> !kind(t[p])
  {
    if t != [] {
      CountAll(t[..|t| - 1], kind);
    }
  }

  lemma {:induction false} CountSplit(t: seq<Cell>)
    ensures Count(t, IsEmpty) + Count(t, IsTombstone) + Count(t, IsLive) == |t|
  {
    if t != [] {
      CountSplit(t[..|t| - 1]);
    }
  }

  predicate IsEmpty(c: Cell) { c.Empty? }

  predicate IsTombstone(c: Cell) { c.Tombstone? }

  predicate IsLive(c: Cell) { c.Live? }

  // ---- What the table stands for ----

  ghost predicate CellOk(t: seq<Cell>, m: map<nat, Stream>, at: map<nat, nat>, p: nat)
    requires p < |t|
  {
    t[p].Live? ==>
      var id := t[p].stream.id;
      id in m && m[id] == t[p].stream && id in at && at[id] == p
  }

  // Stream id sits in its cell and no empty cell precedes it on its path.
  ghost predicate IdOk(t: seq<Cell>, m: map<nat, Stream>, at: map<nat, nat>, id: nat)
    requires |t| == TABLE_SIZE && id in m
  {
    && m[id].id == id && id in at && at[id] < TABLE_SIZE && t[at[id]] == Live(m[id])
    && forall n :: 0 <= n < Distance(Home(id), at[id], TABLE_SIZE) ==>
         !t[Probe(Home(id), n, TABLE_SIZE)].Empty?
  }

  ghost predicate Represents(t: seq<Cell>, m: map<nat, Stream>, at: map<nat, nat>) {
    && |t| == TABLE_SIZE
    && (forall p {:trigger CellOk(t, m, at, p)} :: 0 <= p < TABLE_SIZE ==> CellOk(t, m, at, p))
    && (forall id {:trigger IdOk(t, m, at, id)} :: id in m ==> IdOk(t, m, at, id))
  }

  // Passed cells hold neither an end of path nor the stream looked for.
  ghost predicate Passed(t: seq<Cell>, id: nat, n: nat)
    requires |t| == TABLE_SIZE && n <= TABLE_SIZE
  {
    forall k :: 0 <= k < n ==>
      var c := t[Probe(Home(id), k, TABLE_SIZE)]; !c.Empty? && (c.Live? ==> c.stream.id != id)
  }

  lemma PlaceOf(t: seq<Cell>, m: map<nat, Stream>, at: map<nat, nat>, id: nat) returns (d: nat)
    requires Represents(t, m, at) && id in m
    ensures d < TABLE_SIZE && t[Probe(Home(id), d, TABLE_SIZE)] == Live(m[id]) && m[id].id == id
    ensures forall n :: 0 <= n < d ==> !t[Probe(Home(id), n, TABLE_SIZE)].Empty?
  {
    assert IdOk(t, m, at, id);
    d := Distance(Home(id), at[id], TABLE_SIZE);
  }

  lemma NotThere(t: seq<Cell>, m: map<nat, Stream>, at: map<nat, nat>, id: nat, n: nat)
    requires Represents(t, m, at) && n <= TABLE_SIZE && Passed(t, id, n)
    requires n == TABLE_SIZE || t[Probe(Home(id), n, TABLE_SIZE)].Empty?
    ensures id !in m
  {
    if id in m {
      var d := PlaceOf(t, m, at, id);
      assert false;
    }
  }

  lemma Placed(t: seq<Cell>, m: map<nat, Stream>, at: map<nat, nat>, s: Stream, n: nat)
    requires Represents(t, m, at) && n < TABLE_SIZE && s.id !in m
    requires forall k :: 0 <= k < n ==> !t[Probe(Home(s.id), k, TABLE_SIZE)].Empty?
    requires !t[Probe(Home(s.id), n, TABLE_SIZE)].Live?
    ensures var p := Probe(Home(s.id), n, TABLE_SIZE);
            Represents(t[p := Live(s)], m[s.id := s], at[s.id := p])
  {
    var p := Probe(Home(s.id), n, TABLE_SIZE);
    var t', m', at' := t[p := Live(s)], m[s.id := s], at[s.id := p];
    assert Distance(Home(s.id), p, TABLE_SIZE) == n;
    forall q | 0 <= q < TABLE_SIZE
      ensures CellOk(t', m', at', q)
    {
      assert CellOk(t, m, at, q);
    }
    forall id | id in m'
      ensures IdOk(t', m', at', id)
    {
      if id != s.id { assert IdOk(t, m, at, id); }
    }
  }

  lemma Buried(t: seq<Cell>, m: map<nat, Stream>, at: map<nat, nat>, p: nat)
    requires Represents(t, m, at) && p < TABLE_SIZE && t[p].Live?
    ensures Represents(t[p := Tombstone], m - {t[p].stream.id}, at)
  {
    var t', m' := t[p := Tombstone], m - {t[p].stream.id};
    assert CellOk(t, m, at, p);
    forall q | 0 <= q < TABLE_SIZE
      ensures CellOk(t', m', at, q)
    {
      assert CellOk(t, m, at, q);
    }
    forall id | id in m'
      ensures IdOk(t', m', at, id)
    {
      assert IdOk(t, m, at, id);
    }
  }

  // The streams of the queue, by id.
  ghost function ById(streams: seq<Stream>): map<nat, Stream> {
    if streams == [] then map[] else
      var last := streams[|streams| - 1];
      ById(streams[..|streams| - 1])[last.id := last]
  }

  ghost predicate DistinctIds(streams: seq<Stream>) {
    forall j, k :: 0 <= j < k < |streams| ==> streams[j].id != streams[k].id
  }

  lemma {:induction false} ByIdFrom(streams: seq<Stream>, id: nat) returns (k: nat)
    requires id in ById(streams)
    ensures k < |streams| && streams[k].id == id && ById(streams)[id] == streams[k]
  {
    if streams[|streams| - 1].id == id {
      k := |streams| - 1;
    } else {
      k := ByIdFrom(streams[..|streams| - 1], id);
    }
  }

  lemma ByIdPush(streams: seq<Stream>, s: Stream)
    ensures ById(streams + [s]) == ById(streams)[s.id := s]
  {
    assert (streams + [s])[..|streams|] == streams;
  }

  lemma {:induction false} ByIdDistinct(streams: seq<Stream>, k: nat)
    requires DistinctIds(streams) && k < |streams|
    ensures streams[k].id in ById(streams) && ById(streams)[streams[k].id] == streams[k]
  {
    if k < |streams| - 1 {
      ByIdDistinct(streams[..|streams| - 1], k);
    }
  }

  lemma NewId(streams: seq<Stream>, k: nat)
    requires DistinctIds(streams) && k < |streams|
    ensures streams[k].id !in ById(streams[..k])
  {
    if streams[k].id in ById(streams[..k]) {
      var j := ByIdFrom(streams[..k], streams[k].id);
      assert false;
    }
  }

  // The queue without its k-th stream.
  function Drop(streams: seq<Stream>, k: nat): (rest: seq<Stream>)
    requires k < |streams|
    ensures |rest| == |streams| - 1
    ensures forall j {:trigger rest[j]} :: 0 <= j < |rest| ==> rest[j] == streams[if j < k then j else j + 1]
  {
    streams[..k] + streams[k + 1..]
  }

  lemma DropKeeps(streams: seq<Stream>, k: nat, id: nat)
    requires DistinctIds(streams) && k < |streams| && DistinctIds(Drop(streams, k))
    ensures id in ById(Drop(streams, k)) <==> id in ById(streams) && id != streams[k].id
    ensures id in ById(Drop(streams, k)) ==> ById(Drop(streams, k))[id] == ById(streams)[id]
  {
    hide ById, Drop;
    var rest := Drop(streams, k);
    if id in ById(rest) {
      var j := ByIdFrom(rest, id);
      ByIdDistinct(streams, if j < k then j else j + 1);
    } else if id in ById(streams) && id != streams[k].id {
      var j := ByIdFrom(streams, id);
      var o := if j < k then j else j - 1;
      ByIdDistinct(rest, o);
      assert false;
    }
  }

  lemma ByIdDrop(streams: seq<Stream>, k: nat)
    requires DistinctIds(streams) && k < |streams|
    ensures ById(Drop(streams, k)) == ById(streams) - {streams[k].id}
    ensures DistinctIds(Drop(streams, k))
  {
    hide ById, Drop;
    assert DistinctIds(Drop(streams, k));
    forall id
      ensures id in ById(Drop(streams, k)) <==> id in ById(streams) && id != streams[k].id
      ensures id in ById(Drop(streams, k)) ==> ById(Drop(streams, k))[id] == ById(streams)[id]
    {
      DropKeeps(streams, k, id);
    }
  }

  // Probing from home meets an empty cell.
  ghost predicate Stops(t: seq<Cell>, home: nat)
    requires |t| == TABLE_SIZE && home < TABLE_SIZE
  {
    exists n :: 0 <= n < TABLE_SIZE && t[Probe(home, n, TABLE_SIZE)].Empty?
  }

  class StreamTable {
    const table: array<Cell>
    var streams: seq<Stream>
    var tombstones: nat
    ghost var at: map<nat, nat>

    // Every stream can be found and the two counters are exact.
    ghost predicate Sound()
      reads this, table
    {
      && table.Length == TABLE_SIZE
      && Represents(table[..], ById(streams), at)
      && DistinctIds(streams) && |streams| <= MAX_STREAMS
      && Count(table[..], IsLive) == |streams|
      && Count(table[..], IsTombstone) == tombstones
    }

    // Between operations tombstones stay below a quarter of the table and
    // below the number of streams.
    ghost predicate Valid()
      reads this, table
    {
      Sound() && (tombstones == 0 || (tombstones < TABLE_SIZE / 4 && tombstones < |streams|))
    }

    constructor ()
      ensures Valid() && fresh(table) && streams == []
    {
      table := new Cell[TABLE_SIZE](_ => Empty);
      streams := [];
      tombstones := 0;
      at := map[];
      new;
      CountAll(table[..], IsLive);
      CountAll(table[..], IsTombstone);
    }

    // A third of the table and more is always empty, so every probe stops.
    lemma AlwaysRoom()
      requires Valid()
      ensures Count(table[..], IsEmpty) >= 33
      ensures forall home :: 0 <= home < TABLE_SIZE ==> Stops(table[..], home)
    {
      CountSplit(table[..]);
      CountAll(table[..], IsEmpty);
      var p :| 0 <= p < TABLE_SIZE && table[..][p].Empty?;
      forall home | 0 <= home < TABLE_SIZE
        ensures Stops(table[..], home)
      {
        assert table[..][Probe(home, Distance(home, p, TABLE_SIZE), TABLE_SIZE)].Empty?;
      }
    }

    // mux_insert_stream, without the queue: m is what the table stands for.
    method Insert(s: Stream, ghost m: map<nat, Stream>) returns (ok: bool)
      requires table.Length == TABLE_SIZE && Represents(table[..], m, at)
      requires Count(table[..], IsTombstone) == tombstones
      modifies this`tombstones, this`at, table
      ensures ok <==> s.id !in m && Count(old(table[..]), IsLive) < TABLE_SIZE
      ensures Represents(table[..], if ok then m[s.id := s] else m, at)
      ensures Count(table[..], IsTombstone) == tombstones <= old(tombstones)
      ensures Count(table[..], IsLive) == Count(old(table[..]), IsLive) + if ok then 1 else 0
    {
      ghost var t := table[..];
      var i := Home(s.id);
      var first: Option<nat> := None;
      var n := 0;
      while n < TABLE_SIZE
        invariant 0 <= n <= TABLE_SIZE && table[..] == t && at == old(at) && tombstones == old(tombstones)
        invariant n < TABLE_SIZE ==> i == Probe(Home(s.id), n, TABLE_SIZE)
        invariant Passed(t, s.id, n)
        invariant first.Some? ==> first.value < n && t[Probe(Home(s.id), first.value, TABLE_SIZE)].Tombstone?
        invariant first.None? ==> forall k :: 0 <= k < n ==> t[Probe(Home(s.id), k, TABLE_SIZE)].Live?
      {
        assert table[i] == t[i];
        match table[i] {
          case Empty =>
            NotThere(t, m, at, s.id, n);
            CountAll(t, IsLive);
            Put(s, m, if first.Some? then first.value else n);
            return true;
          case Tombstone =>
            if first.None? {
              first := Some(n);
            }
          case Live(other) =>
            if other.id == s.id {
              assert CellOk(t, m, at, i);
              return false;
            }
        }
        i := if i + 1 == TABLE_SIZE then 0 else i + 1;
        n := n + 1;
      }
      NotThere(t, m, at, s.id, n);
      CountAll(t, IsLive);
      if first.Some? {
        Put(s, m, first.value);
        return true;
      }
      forall p | 0 <= p < TABLE_SIZE
        ensures t[p].Live?
      {
        assert t[Probe(Home(s.id), Distance(Home(s.id), p, TABLE_SIZE), TABLE_SIZE)].Live?;
      }
      return false;
    }

    // The stream goes into the n-th cell of its path; a tombstone is used up.
    method Put(s: Stream, ghost m: map<nat, Stream>, n: nat)
      requires table.Length == TABLE_SIZE && Represents(table[..], m, at) && s.id !in m
      requires Count(table[..], IsTombstone) == tombstones
      requires n < TABLE_SIZE && Passed(table[..], s.id, n)
      requires !table[Probe(Home(s.id), n, TABLE_SIZE)].Live?
      modifies this`tombstones, this`at, table
      ensures Represents(table[..], m[s.id := s], at)
      ensures Count(table[..], IsTombstone) == tombstones <= old(tombstones)
      ensures Count(table[..], IsLive) == Count(old(table[..]), IsLive) + 1
    {
      ghost var t := table[..];
      var p := Probe(Home(s.id), n, TABLE_SIZE);
      Placed(t, m, at, s, n);
      CountUpdate(t, p, Live(s), IsTombstone);
      CountUpdate(t, p, Live(s), IsLive);
      if table[p].Tombstone? && tombstones > 0 {
        tombstones := tombstones - 1;
      }
      table[p] := Live(s);
      at := at[s.id := p];
      assert table[..] == t[p := Live(s)];
    }

    // mux_find_stream.
    method Find(id: nat) returns (r: Option<Stream>)
      requires Sound()
      ensures r == if id in ById(streams) then Some(ById(streams)[id]) else None
    {
      ghost var t, m := table[..], ById(streams);
      var i := Home(id);
      var n := 0;
      while n < TABLE_SIZE
        invariant 0 <= n <= TABLE_SIZE && (n < TABLE_SIZE ==> i == Probe(Home(id), n, TABLE_SIZE))
        invariant Passed(t, id, n)
      {
        assert table[i] == t[i];
        if table[i].Empty? {
          NotThere(t, m, at, id, n);
          return None;
        }
        if table[i].Live? && table[i].stream.id == id {
          assert CellOk(t, m, at, i);
          return Some(table[i].stream);
        }
        i := if i + 1 == TABLE_SIZE then 0 else i + 1;
        n := n + 1;
      }
      NotThere(t, m, at, id, n);
      return None;
    }

    // mux_create_stream: refused at 64 streams or on a known id, else queued.
    method Create(s: Stream) returns (ok: bool)
      requires Valid()
      modifies this, table
      ensures Valid()
      ensures ok <==> |old(streams)| < MAX_STREAMS && s.id !in ById(old(streams))
      ensures streams == if ok then old(streams) + [s] else old(streams)
      ensures ok ==> ById(streams) == ById(old(streams))[s.id := s]
    {
      if |streams| >= MAX_STREAMS {
        return false;
      }
      ghost var m := ById(streams);
      ok := Insert(s, m);
      if ok {
        ByIdPush(streams, s);
        forall k | 0 <= k < |streams|
          ensures streams[k].id in m
        {
          ByIdDistinct(streams, k);
        }
        streams := streams + [s];
      }
    }

    // mux_remove_stream: the cell becomes a tombstone.
    method Bury(s: Stream)
      requires Sound() && s in streams
      modifies this`tombstones, table
      ensures table.Length == TABLE_SIZE && Represents(table[..], ById(streams) - {s.id}, at)
      ensures Count(table[..], IsLive) == |streams| - 1
      ensures Count(table[..], IsTombstone) == tombstones
    {
      ghost var t, m := table[..], ById(streams);
      ghost var place :| 0 <= place < |streams| && streams[place] == s;
      ByIdDistinct(streams, place);
      ghost var d := PlaceOf(t, m, at, s.id);
      hide ById, Count, IdOk, Home;
      var i := Home(s.id);
      var n := 0;
      while n < TABLE_SIZE
        invariant 0 <= n <= TABLE_SIZE && (n < TABLE_SIZE ==> i == Probe(Home(s.id), n, TABLE_SIZE))
        invariant n <= d && table[..] == t && tombstones == old(tombstones)
      {
        assert table[i] == t[i];
        if table[i].Empty? {
          assert false;
        }
        if table[i] == Live(s) {
          Buried(t, m, at, i);
          CountUpdate(t, i, Tombstone, IsLive);
          CountUpdate(t, i, Tombstone, IsTombstone);
          table[i] := Tombstone;
          tombstones := tombstones + 1;
          assert table[..] == t[i := Tombstone];
          return;
        }
        i := if i + 1 == TABLE_SIZE then 0 else i + 1;
        n := n + 1;
      }
      assert false;
    }

    method Clear()
      requires table.Length == TABLE_SIZE
      modifies this`tombstones, this`at, table
      ensures Represents(table[..], map[], at) && tombstones == 0
      ensures Count(table[..], IsLive) == 0 && Count(table[..], IsTombstone) == 0
    {
      forall p | 0 <= p < table.Length {
        table[p] := Empty;
      }
      tombstones := 0;
      at := map[];
      CountAll(table[..], IsLive);
      CountAll(table[..], IsTombstone);
    }

    // mux_rebuild_stream_table: the same streams, no tombstone.
    method Rebuild()
      requires table.Length == TABLE_SIZE && DistinctIds(streams) && |streams| <= MAX_STREAMS
      modifies this`tombstones, this`at, table
      ensures Sound() && tombstones == 0
    {
      Clear();
      var k := 0;
      while k < |streams|
        invariant 0 <= k <= |streams|
        invariant Represents(table[..], ById(streams[..k]), at) && tombstones == 0
        invariant Count(table[..], IsLive) == k && Count(table[..], IsTombstone) == 0
      {
        assert streams[..k + 1] == streams[..k] + [streams[k]];
        ByIdPush(streams[..k], streams[k]);
        NewId(streams, k);
        var ok := Insert(streams[k], ById(streams[..k]));
        k := k + 1;
      }
      assert streams[..k] == streams;
    }

    // The end of mux_cleanup_stream: remove, count, rebuild if worth it.
    method Cleanup(s: Stream)
      requires Valid() && s in streams
      modifies this, table
      ensures Valid()
      ensures ById(streams) == ById(old(streams)) - {s.id}
      ensures exists k :: 0 <= k < |old(streams)| && old(streams)[k] == s && streams == Drop(old(streams), k)
    {
      Bury(s);
      var k: nat := 0;
      while streams[k] != s
        invariant k < |streams| && s in streams[k..]
        decreases |streams| - k
      {
        k := k + 1;
      }
      ByIdDrop(streams, k);
      streams := Drop(streams, k);
      if tombstones == 0 {
        return;
      }
      if |streams| == 0 {
        Clear();
        return;
      }
      if tombstones < TABLE_SIZE / 4 && tombstones < |streams| {
        return;
      }
      Rebuild();
    }
  }
}
