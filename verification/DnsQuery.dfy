// Names on the wire, and the queries the DoH engine builds.
module DnsQuery {
  import opened Bytes
  import opened Names
  import opened Labels
  import opened Numbers

  const MAX_NAME: nat := 253

  // ---- Names on the wire, sections 3.1 and 4.1.4 of RFC 1035 ----

  function Wire(ls: seq<Text>): Text {
    if ls == [] then [] else [(|ls[0]| % 256) as byte] + ls[0] + Wire(ls[1..])
  }

  // Labels, and the pointer they end with when the root does not.
  datatype WireName = WireName(labels: seq<Text>, pointer: Option<nat>)

  function TailOctets(pointer: Option<nat>): (b: Text)
    ensures 1 <= |b| <= 2
  {
    match pointer
    case None => [0]
    case Some(o) => Octets16(0xC000 + o % 0x4000)
  }

  function NameOctets(n: WireName): (b: Text)
    ensures |b| > 0
  {
    Wire(n.labels) + TailOctets(n.pointer)
  }

  // A name some message of that many octets may hold.
  predicate NameOk(n: WireName, total: nat) {
    LabelsOk(n.labels) && (n.pointer.Some? ==> n.pointer.value < 0x4000 && n.pointer.value < total)
  }

  datatype Reading = Bad | Named(name: WireName, used: nat)

  function AddLabel(l: Text, r: Reading): (a: Reading)
    ensures a.Named? <==> r.Named?
    ensures r.Named? ==> a.used == 1 + |l| + r.used
  {
    match r
    case Bad => Bad
    case Named(n, used) => Named(WireName([l] + n.labels, n.pointer), 1 + |l| + used)
  }

  // The name a text starts with, and how many octets it takes, in a message
  // of total octets.
  function ReadName(b: Text, total: nat): (r: Reading)
    ensures r.Named? ==> 0 < r.used <= |b|
    decreases |b|
  {
    if b == [] then Bad
    else if b[0] == 0 then Named(WireName([], None), 1)
    else if b[0] >= 192 then
      if |b| < 2 then Bad
      else
        var o := PointerOf(b[0], b[1]);
        if o >= total then Bad else Named(WireName([], Some(o)), 2)
    else if b[0] >= 64 || |b| < 1 + b[0] then Bad
    else AddLabel(b[1..1 + b[0]], ReadName(b[1 + b[0]..], total))
  }

  function PointerOf(a: byte, b: byte): (o: nat)
    ensures o < 0x4000
  {
    Be16((a % 64) as byte, b)
  }

  function End(p: nat, r: Reading): Option<nat> {
    if r.Bad? then None else Some(p + r.used)
  }

  ghost function EndAt(data: Text, p: nat): (e: Option<nat>)
    requires p <= |data|
    ensures e.Some? ==> p < e.value <= |data|
  {
    End(p, ReadName(data[p..], |data|))
  }

  lemma SkipTurn(data: Text, p: nat)
    requires p < |data|
    ensures var b := data[p];
            EndAt(data, p) ==
            if b == 0 then Some(p + 1)
            else if b / 64 == 3 then
              if p + 1 == |data| || PointerOf(b, data[p + 1]) >= |data| then None else Some(p + 2)
            else if b / 64 != 0 || |data| - p < 1 + b then None
            else EndAt(data, p + 1 + b)
  {
    hide PointerOf;
    var b, rest := data[p], data[p..];
    assert rest[0] == b;
    if 0 < b < 64 && |rest| >= 1 + b {
      assert rest[1 + b..] == data[p + 1 + b..];
    }
  }

  lemma NothingThere(data: Text)
    ensures EndAt(data, |data|) == None
  {
  }

  // doh_skip_name
  method SkipName(data: Text, start: nat) returns (end: Option<nat>)
    requires start <= |data|
    ensures end == EndAt(data, start)
  {
    hide EndAt, PointerOf;
    var p := start;
    while true
      invariant start <= p <= |data|
      invariant EndAt(data, start) == EndAt(data, p)
      decreases |data| - p
    {
      if p >= |data| {
        NothingThere(data);
        return None;
      }
      SkipTurn(data, p);
      if data[p] == 0 {
        return Some(p + 1);
      }
      if data[p] / 64 == 3 {
        if p + 1 >= |data| {
          return None;
        }
        var offset := PointerOf(data[p], data[p + 1]);
        if offset >= |data| {
          return None;
        }
        return Some(p + 2);
      }
      if data[p] / 64 != 0 || |data| - p < 1 + data[p] {
        return None;
      }
      p := p + 1 + data[p];
    }
    end := None;
  }

  lemma TopBits(a: byte)
    requires a >= 192
    ensures a % 64 == a - 192
  {
  }

  lemma BelowTop(o: nat)
    requires o < 0x4000
    ensures o % 0x4000 == o
  {
  }

  lemma PointerOctets(a: byte, b: byte)
    requires a >= 192
    ensures 0xC000 + PointerOf(a, b) == Be16(a, b)
  {
    TopBits(a);
  }

  lemma PointerRead(o: nat)
    requires o < 0x4000
    ensures var b := TailOctets(Some(o)); b[0] >= 192 && |b| == 2 && PointerOf(b[0], b[1]) == o
  {
    var b := Octets16(0xC000 + o);
    BelowTop(o);
    Be16OfOctets(0xC000 + o);
    PointerOctets(b[0], b[1]);
  }

  lemma PointerWritten(a: byte, b: byte)
    requires a >= 192
    ensures TailOctets(Some(PointerOf(a, b))) == [a, b]
  {
    hide Octets16, PointerOf, Be16;
    BelowTop(PointerOf(a, b));
    PointerOctets(a, b);
    OctetsOfBe16(a, b);
  }

  // A name is read back as it was written, whatever follows.
  lemma {:induction false} NameIsRead(n: WireName, x: Text, total: nat)
    requires NameOk(n, total)
    ensures ReadName(NameOctets(n) + x, total) == Named(n, |NameOctets(n)|)
    decreases |n.labels|
  {
    hide PointerOf, TailOctets, Wire, NameOctets, ReadName, LabelsOk;
    var b := NameOctets(n) + x;
    if n.labels == [] {
      TailIsRead(n.pointer, x, total);
      NoLabels(n);
    } else {
      var l, m := n.labels[0], WireName(n.labels[1..], n.pointer);
      assert [l] + m.labels == n.labels;
      LabelsOkSplit([l], m.labels);
      OneLabel(l);
      NameIsRead(m, x, total);
      LabelIsRead(l, NameOctets(m) + x, total);
      NameLonger(l, m);
      assert b == [|l| as byte] + l + (NameOctets(m) + x);
    }
  }

  lemma NoLabels(n: WireName)
    requires n.labels == []
    ensures NameOctets(n) == TailOctets(n.pointer)
  {
    assert [] + TailOctets(n.pointer) == TailOctets(n.pointer);
  }

  lemma TailIsRead(pointer: Option<nat>, x: Text, total: nat)
    requires NameOk(WireName([], pointer), total)
    ensures ReadName(TailOctets(pointer) + x, total) == Named(WireName([], pointer), |TailOctets(pointer)|)
  {
    hide PointerOf;
    if pointer.Some? {
      PointerRead(pointer.value);
    }
  }

  lemma LabelIsRead(l: Text, x: Text, total: nat)
    requires 1 <= |l| <= 63
    ensures ReadName([|l| as byte] + l + x, total) == AddLabel(l, ReadName(x, total))
  {
    hide PointerOf, AddLabel;
    var b := [|l| as byte] + l + x;
    assert b[1 + |l|..] == x && b[1..1 + |l|] == l;
  }

  // And what is read was written so.
  lemma {:induction false} ReadWasWritten(b: Text, total: nat)
    requires ReadName(b, total).Named?
    ensures var r := ReadName(b, total); NameOk(r.name, total) && b[..r.used] == NameOctets(r.name)
    decreases |b|
  {
    hide PointerOf, TailOctets, Wire, AddLabel;
    if b[0] == 0 {
      RootOctets();
    } else if b[0] >= 192 {
      PointerWritten(b[0], b[1]);
      RootOctets();
    } else {
      var s: nat := 1 + b[0];
      var l, r := b[1..s], ReadName(b[s..], total);
      ReadWasWritten(b[s..], total);
      LabelWritten(l, b[s..], r, total);
      assert b == [|l| as byte] + l + b[s..];
    }
  }

  lemma LabelWritten(l: Text, rest: Text, r: Reading, total: nat)
    requires 1 <= |l| <= 63 && r.Named? && r.used <= |rest|
    requires NameOk(r.name, total) && rest[..r.used] == NameOctets(r.name)
    ensures var a := AddLabel(l, r);
            NameOk(a.name, total) && ([|l| as byte] + l + rest)[..a.used] == NameOctets(a.name)
  {
    hide LabelsOk, NameOctets;
    LabelsOkSplit([l], r.name.labels);
    OneLabel(l);
    NameLonger(l, r.name);
    assert ([|l| as byte] + l + rest)[..1 + |l| + r.used] == [|l| as byte] + l + rest[..r.used];
  }

  lemma RootOctets()
    ensures Wire([]) == [] && TailOctets(None) == [0] && NameOctets(WireName([], None)) == [0]
  {
  }

  lemma NameLonger(l: Text, n: WireName)
    requires |l| < 256
    ensures NameOctets(WireName([l] + n.labels, n.pointer)) == [|l| as byte] + l + NameOctets(n)
  {
    assert ([l] + n.labels)[1..] == n.labels;
  }

  // ---- Queries ----

  function QueryHeader(id: nat): (h: Text)
    requires id < 0x10000
    ensures |h| == 12
  {
    Octets16(id) + [1, 0, 0, 1, 0, 0, 0, 0, 0, 0]
  }

  function Question(name: Text, qtype: nat): Text
    requires qtype < 0x10000
  {
    Wire(Split(Trim(name))) + [0] + Octets16(qtype) + [0, 1]
  }

  function Query(name: Text, qtype: nat, id: nat): Text
    requires qtype < 0x10000 && id < 0x10000
  {
    QueryHeader(id) + Question(name, qtype)
  }

  // Section 2.3.4 of RFC 1035, on a name that may end with the root's dot.
  predicate Askable(name: Text) {
    |Trim(name)| <= MAX_NAME && LabelsOk(Split(Trim(name)))
  }

  // The header of a message, field by field (section 4.1.1 of RFC 1035).
  datatype Head = Head(id: nat, response: bool, opcode: nat, authoritative: bool, truncated: bool,
                       recursionDesired: bool, recursionAvailable: bool, reserved: nat, rcode: nat,
                       questions: nat, answers: nat, authorities: nat, additional: nat)

  function HeadOf(h: Text): Head
    requires |h| >= 12
  {
    Head(Be16(h[0], h[1]), h[2] / 128 == 1, h[2] / 8 % 16, h[2] / 4 % 2 == 1, h[2] / 2 % 2 == 1,
         h[2] % 2 == 1, h[3] / 128 == 1, h[3] / 16 % 8, h[3] % 16,
         Be16(h[4], h[5]), Be16(h[6], h[7]), Be16(h[8], h[9]), Be16(h[10], h[11]))
  }

  // A query with recursion desired and one question, and nothing else.
  lemma QueryAsks(name: Text, qtype: nat, id: nat, x: Text)
    requires qtype < 0x10000 && id < 0x10000
    ensures |Query(name, qtype, id)| >= 12
    ensures HeadOf(Query(name, qtype, id) + x)
         == Head(id, false, 0, false, false, true, false, 0, 0, 1, 0, 0, 0)
  {
    hide Be16, Octets16, Question;
    var h, data := QueryHeader(id), Query(name, qtype, id) + x;
    Be16OfOctets(id);
    assert data[..12] == h;
    assert forall k :: 0 <= k < 12 ==> data[k] == h[k];
    assert Be16(0, 0) == 0 && Be16(0, 1) == 1 by { SmallNumbers(); }
  }

  lemma SmallNumbers()
    ensures Be16(0, 0) == 0 && Be16(0, 1) == 1
  {
  }

  lemma WireNone()
    ensures Wire([]) == []
  {
  }

  lemma WireCons(l: Text, ls: seq<Text>)
    ensures Wire([l] + ls) == [(|l| % 256) as byte] + l + Wire(ls)
  {
    assert ([l] + ls)[1..] == ls;
  }

  lemma {:induction false} WireSplit(a: seq<Text>, b: seq<Text>)
    ensures Wire(a + b) == Wire(a) + Wire(b)
  {
    hide Wire;
    WireNone();
    if a == [] {
      assert a + b == b;
    } else {
      WireSplit(a[1..], b);
      WireCons(a[0], a[1..]);
      WireCons(a[0], a[1..] + b);
      assert a == [a[0]] + a[1..];
      assert a + b == [a[0]] + (a[1..] + b);
    }
  }

  lemma {:induction false} WireLength(s: Text)
    ensures |Wire(Split(s))| == |s| + 1
    decreases |s|
  {
    var d := FirstDot(s);
    if d < |s| {
      WireLength(s[d + 1..]);
      assert Split(s)[1..] == Split(s[d + 1..]);
    }
  }

  // The query names its question, the skipped name ends at QTYPE, and the
  // rest of the question follows.
  lemma QuerySkipped(name: Text, qtype: nat, id: nat, x: Text)
    requires Askable(name) && qtype < 0x10000 && id < 0x10000
    ensures var data := Query(name, qtype, id) + x;
            var q := |Trim(name)| + 2;
            && ReadName(data[12..], |data|) == Named(WireName(Split(Trim(name)), None), q)
            && data[12 + q..] == Octets16(qtype) + [0, 1] + x
  {
    hide Octets16, Split, LabelsOk, ReadName;
    var data, n := Query(name, qtype, id) + x, WireName(Split(Trim(name)), None);
    WireLength(Trim(name));
    var rest := Octets16(qtype) + [0, 1] + x;
    assert data == QueryHeader(id) + (NameOctets(n) + rest);
    assert data[12..] == NameOctets(n) + rest;
    NameIsRead(n, rest, |data|);
    assert data[12 + |NameOctets(n)|..] == rest;
  }

  // What Split tells of the label at i, the dot after it, and the rest.
  ghost predicate Placed(name: Text, done: seq<Text>, i: nat) {
    i <= |Trim(name)| && Split(Trim(name)) == done + Split(Trim(name)[i..]) && LabelsOk(done)
  }

  lemma LabelTaken(name: Text, done: seq<Text>, i: nat, d: nat)
    requires Placed(name, done, i) && i <= d <= |name| && NoDot(name, i, d)
    requires d == |name| || name[d] == DOT
    ensures d <= |Trim(name)|
    ensures d < |name| && d + 1 == |name| <==> d == |Trim(name)| < |name|
    ensures !(1 <= d - i <= 63) ==> !Askable(name)
    ensures d >= |name| - 1 && 1 <= d - i <= 63 ==> Split(Trim(name)) == done + [name[i..d]] && LabelsOk(done + [name[i..d]])
    ensures d < |name| - 1 && 1 <= d - i <= 63 ==> Placed(name, done + [name[i..d]], d + 1)
  {
    hide Split, LabelsOk;
    var t := Trim(name);
    assert d <= |t|;
    assert NoDot(t, i, d);
    NextIs(t, i, d);
    assert t[i..d] == name[i..d];
    OneLabel(name[i..d]);
    LabelsOkSplit(done, [name[i..d]]);
    if d < |t| {
      var more := Split(t[d + 1..]);
      assert done + ([name[i..d]] + more) == done + [name[i..d]] + more;
      LabelsOkSplit(done + [name[i..d]], more);
    }
  }

  lemma LabelTooLong(name: Text, done: seq<Text>, i: nat, d: nat)
    requires Placed(name, done, i) && i + 63 < d <= |name| && NoDot(name, i, d)
    ensures !Askable(name)
  {
    hide Split, LabelsOk;
    var t := Trim(name);
    assert NoDot(t, i, d);
    LongFirst(t, i, d);
    LabelsOkSplit(done, Split(t[i..]));
  }

  // One label: its octets behind a place for its length.
  method PutLabel(buf: array<byte>, p: nat, name: Text, i: nat) returns (ok: bool, d: nat)
    requires i < |name| && p + |name| - i < buf.Length
    modifies buf
    ensures i <= d <= |name| && NoDot(name, i, d)
    ensures !ok ==> (d == i && name[i] == DOT) || d - i > 63
    ensures ok ==> 1 <= d - i <= 63 && (d == |name| || name[d] == DOT)
    ensures ok ==> buf[..p + 1 + d - i] == old(buf[..p]) + [(d - i) as byte] + name[i..d]
    ensures forall k :: p + 1 + d - i <= k < buf.Length ==> buf[k] == old(buf[k])
  {
    d := i;
    ghost var was := buf[..];
    while d < |name| && name[d] != DOT
      invariant i <= d <= |name| && d - i <= 63 && NoDot(name, i, d)
      invariant buf[..p] == was[..p] && buf[p + 1..p + 1 + d - i] == name[i..d]
      invariant forall k :: p + 1 + d - i <= k < buf.Length ==> buf[k] == was[k]
      decreases |name| - d
    {
      if d - i == 63 || p + 1 + d - i >= buf.Length {
        NoDotGrows(name, i, d);
        ok, d := false, d + 1;
        return;
      }
      buf[p + 1 + d - i] := name[d];
      d := d + 1;
      assert buf[p + 1..p + 1 + d - i] == name[i..d - 1] + [name[d - 1]];
    }
    if d == i {
      ok := false;
      return;
    }
    buf[p] := d - i;
    ok := true;
    assert buf[..p + 1 + d - i] == buf[..p] + [buf[p]] + buf[p + 1..p + 1 + d - i];
  }

  // The labels of the name, one after the other.
  method PutLabels(buf: array<byte>, name: Text) returns (end: Option<nat>)
    requires name != [] && |name| <= MAX_NAME + 1 && 12 + |name| + 6 <= buf.Length
    requires |Trim(name)| <= MAX_NAME
    modifies buf
    ensures end.Some? <==> Askable(name)
    ensures end.Some? ==> end.value == 12 + |Trim(name)| + 1
                          && buf[..end.value] == old(buf[..12]) + Wire(Split(Trim(name)))
  {
    hide Split, LabelsOk, Wire, NoDot;
    ghost var t, done, head := Trim(name), [], buf[..12];
    var i, p: nat := 0, 12;
    PlacedStart(name);
    while i < |name|
      invariant i < |name| && p == 12 + i && buf[..p] == head + Wire(done) && Placed(name, done, i)
      decreases |name| - i
    {
      ghost var before := buf[..p];
      var ok, d := PutLabel(buf, p, name, i);
      if !ok {
        if d == i {
          LabelTaken(name, done, i, d);
        } else {
          LabelTooLong(name, done, i, d);
        }
        return None;
      }
      LabelTaken(name, done, i, d);
      OneMore(head, done, name[i..d]);
      done := done + [name[i..d]];
      p := p + 1 + d - i;
      assert buf[..p] == head + Wire(done);
      i := d;
      if i < |name| {
        i := i + 1;
        if i == |name| {
          break;
        }
      } else {
        break;
      }
    }
    WireLength(t);
    end := Some(p);
  }

  lemma PlacedStart(name: Text)
    ensures Placed(name, [], 0) && Wire([]) == []
  {
    assert Trim(name)[0..] == Trim(name);
    assert [] + Split(Trim(name)) == Split(Trim(name));
  }

  lemma OneMore(head: Text, done: seq<Text>, l: Text)
    requires |l| < 256
    ensures head + Wire(done + [l]) == head + Wire(done) + [|l| as byte] + l
  {
    WireSplit(done, [l]);
    assert Wire([l]) == [|l| as byte] + l;
  }

  // memcpy to buf at p.
  method Put(buf: array<byte>, p: nat, src: Text)
    requires p + |src| <= buf.Length
    modifies buf
    ensures buf[..p + |src|] == old(buf[..p]) + src
  {
    ghost var was := buf[..p];
    forall k | 0 <= k < |src| {
      buf[p + k] := src[k];
    }
    assert buf[..p] == was;
    assert buf[p..p + |src|] == src;
    assert buf[..p + |src|] == buf[..p] + buf[p..p + |src|];
  }

  // doh_build_query
  method BuildQuery(buf: array<byte>, name: Text, qtype: nat, id: nat) returns (n: nat)
    requires qtype < 0x10000 && id < 0x10000
    modifies buf
    ensures n != 0 <==> Askable(name) && buf.Length >= 12 + |name| + 4 + 2
    ensures n != 0 ==> n <= buf.Length && buf[..n] == Query(name, qtype, id)
  {
    hide Split, LabelsOk, Wire;
    if name == [] || |name| > 254 || (|name| == 254 && name[|name| - 1] != DOT)
       || buf.Length < 12 + |name| + 4 + 2 {
      if name == [] {
        NothingToAsk();
      }
      return 0;
    }
    Put(buf, 0, QueryHeader(id));
    assert buf[..12] == QueryHeader(id);
    var end := PutLabels(buf, name);
    if end.None? {
      return 0;
    }
    // The place for the root, QTYPE and QCLASS was made sure of above.
    if end.value + 5 > buf.Length {
      assert false;
    }
    Put(buf, end.value, [0] + Octets16(qtype) + [0, 1]);
    n := end.value + 5;
    assert buf[..n] == Query(name, qtype, id);
  }

  lemma NothingToAsk()
    ensures !Askable([])
  {
    assert |Split([])[0]| == 0;
  }
}
