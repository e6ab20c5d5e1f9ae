// The UDP frames of the Trojan protocol, and the sliding buffer a client's
// stream of them is parsed from.
module TrojanUdp {
  import opened Bytes
  import opened Names
  import opened Labels
  import opened Numbers
  import DnsQuery
  import DohScheduler

  const IPV4: byte := 1
  const DOMAIN: byte := 3
  const IPV6: byte := 4
  const MAX_PAYLOAD: nat := 16384
  const MAX_ADDR: nat := 1 + 1 + 255 + 2
  const SIZE: nat := MAX_PAYLOAD + MAX_ADDR + 4
  const MAX_PACKETS: nat := 32
  const MAX_BYTES: nat := 256 * 1024

  datatype Addr = Addr(kind: byte, host: Text, port: nat, wireLen: nat)

  datatype Frame = Frame(addr: Addr, payload: Text, wireLen: nat)

  datatype Parsed = Ok(frame: Frame) | NeedMore | Error

  predicate Printable(ch: byte) {
    0x20 < ch < 0x7f
  }

  predicate ValidDomain(host: Text) {
    && |host| <= 253
    && (forall i :: 0 <= i < |host| ==> Printable(host[i]))
    && LabelsOk(Split(host))
  }

  // Every label before the one that starts at s is as it must be.
  ghost predicate Checked(host: Text, s: nat, i: nat)
    requires s <= i <= |host|
  {
    && (forall k :: 0 <= k < i ==> Printable(host[k]))
    && NoDot(host, s, i)
    && i - s <= 63
    && (LabelsOk(Split(host)) <==> LabelsOk(Split(host[s..])))
  }

  lemma CheckedStart(host: Text)
    ensures Checked(host, 0, 0)
  {
    assert host[0..] == host;
  }

  lemma LabelGrows(host: Text, s: nat, i: nat)
    requires s <= i < |host| && Checked(host, s, i) && Printable(host[i]) && host[i] != DOT
    ensures i + 1 - s <= 63 ==> Checked(host, s, i + 1)
    ensures i + 1 - s > 63 ==> !LabelsOk(Split(host))
  {
    hide Split, LabelsOk, NoDot;
    NoDotGrows(host, s, i);
    if i + 1 - s > 63 {
      LongFirst(host, s, i + 1);
    }
  }

  lemma LabelEnds(host: Text, s: nat, i: nat)
    requires s <= i < |host| && Checked(host, s, i) && host[i] == DOT
    ensures if i == s then !LabelsOk(Split(host)) else Checked(host, i + 1, i + 1)
  {
    hide Split, LabelsOk;
    NextIs(host, s, i);
    LabelsOkSplit([host[s..i]], Split(host[i + 1..]));
    OneLabel(host[s..i]);
  }

  lemma NameEnds(host: Text, s: nat)
    requires s <= |host| && Checked(host, s, |host|)
    ensures LabelsOk(Split(host)) <==> s < |host|
  {
    hide Split, LabelsOk;
    NextIs(host, s, |host|);
    OneLabel(host[s..|host|]);
  }

  lemma AllPrintable(host: Text, s: nat)
    requires s <= |host| && Checked(host, s, |host|)
    ensures forall k :: 0 <= k < |host| ==> Printable(host[k])
  {
  }

  // valid_domain: one pass, counting the octets since the last dot.
  method CheckDomain(host: Text) returns (ok: bool)
    ensures ok == ValidDomain(host)
  {
    hide LabelsOk, Split, Checked;
    CheckedStart(host);
    if host == [] || |host| > 253 {
      if host == [] {
        NameEnds(host, 0);
      }
      return false;
    }
    var labelLen: nat := 0;
    var i: nat := 0;
    while i < |host|
      invariant labelLen <= i <= |host| && Checked(host, i - labelLen, i)
    {
      var ch := host[i];
      if ch <= 0x20 || ch >= 0x7f {
        assert !Printable(host[i]);
        return false;
      }
      if ch == DOT {
        LabelEnds(host, i - labelLen, i);
        if labelLen == 0 || labelLen > 63 {
          return false;
        }
        labelLen := 0;
      } else {
        LabelGrows(host, i - labelLen, i);
        labelLen := labelLen + 1;
        if labelLen > 63 {
          return false;
        }
      }
      i := i + 1;
    }
    NameEnds(host, i - labelLen);
    AllPrintable(host, i - labelLen);
    ok := labelLen != 0;
  }

  // How many octets stand before the host, and how many it has, once told.
  datatype Shape = Known(skip: nat, hostLen: nat) | Unsure | Wrong

  function ShapeOf(b: Text): Shape {
    if b == [] then Unsure
    else if b[0] == IPV4 then Known(1, 4)
    else if b[0] == IPV6 then Known(1, 16)
    else if b[0] != DOMAIN then Wrong
    else if |b| < 2 then Unsure
    else if b[1] == 0 then Wrong
    else Known(2, b[1])
  }

  // parse_udp_frame
  function Parse(b: Text): Parsed {
    match ShapeOf(b)
    case Unsure => NeedMore
    case Wrong => Error
    case Known(skip, hostLen) =>
      var pos := skip + hostLen + 2;
      if |b| < pos then NeedMore
      else
        var host := b[skip..skip + hostLen];
        var port := Be16(b[pos - 2], b[pos - 1]);
        if (b[0] == DOMAIN && !ValidDomain(host)) || port == 0 then Error
        else if |b| < pos + 4 then NeedMore
        else if b[pos + 2] != 13 || b[pos + 3] != 10 then Error
        else
          var wireLen := pos + 4 + Be16(b[pos], b[pos + 1]);
          if |b| < wireLen then NeedMore
          else Ok(Frame(Addr(b[0], host, port, pos), b[pos + 4..wireLen], wireLen))
  }

  // What build_udp_header asks of an address.
  predicate AddrOk(a: Addr) {
    && a.port < 0x10000
    && (|| (a.kind == IPV4 && |a.host| == 4 && a.wireLen == 1 + 4 + 2)
        || (a.kind == IPV6 && |a.host| == 16 && a.wireLen == 1 + 16 + 2)
        || (a.kind == DOMAIN && 0 < |a.host| <= 255 && a.wireLen == 1 + 1 + |a.host| + 2))
  }

  // What the parser takes on top of that.
  predicate Readable(a: Addr) {
    a.port != 0 && (a.kind == DOMAIN ==> ValidDomain(a.host))
  }

  function HostOf(a: Addr): (h: Text)
    requires AddrOk(a)
    ensures |h| == a.wireLen - 2
  {
    [a.kind] + (if a.kind == DOMAIN then [|a.host| as byte] else []) + a.host
  }

  function HeaderOf(a: Addr, n: nat): (h: Text)
    requires AddrOk(a) && n < 0x10000
    ensures |h| == a.wireLen + 4
  {
    HostOf(a) + Octets16(a.port) + Octets16(n) + [13, 10]
  }

  function Packed(a: Addr, payload: Text): (w: Text)
    requires AddrOk(a) && |payload| < 0x10000
    ensures |w| == a.wireLen + 4 + |payload|
  {
    HeaderOf(a, |payload|) + payload
  }

  lemma HeaderAt(a: Addr, n: nat)
    requires AddrOk(a) && n < 0x10000
    ensures var h, pos := HeaderOf(a, n), a.wireLen;
            var skip := if a.kind == DOMAIN then 2 else 1;
            && h[0] == a.kind && (a.kind == DOMAIN ==> h[1] == |a.host|)
            && pos == skip + |a.host| + 2 && h[skip..skip + |a.host|] == a.host
            && Be16(h[pos - 2], h[pos - 1]) == a.port && Be16(h[pos], h[pos + 1]) == n
            && h[pos + 2] == 13 && h[pos + 3] == 10
  {
    Be16OfOctets(a.port);
    Be16OfOctets(n);
  }

  // Parsing undoes packing, whatever follows, for exactly the addresses the
  // parser takes.
  lemma ParsePacked(a: Addr, payload: Text, x: Text)
    requires AddrOk(a) && |payload| < 0x10000
    ensures Parse(Packed(a, payload) + x)
         == if Readable(a) then Ok(Frame(a, payload, |Packed(a, payload)|)) else Error
  {
    hide HeaderOf, HostOf, ValidDomain;
    HeaderAt(a, |payload|);
    var b, h, pos := Packed(a, payload) + x, HeaderOf(a, |payload|), a.wireLen;
    assert b[..pos + 4] == h;
    var skip := if a.kind == DOMAIN then 2 else 1;
    assert b[skip..skip + |a.host|] == h[skip..skip + |a.host|];
    assert b[pos + 4..pos + 4 + |payload|] == payload;
  }

  // No frame is mistaken for a shorter one.
  lemma StrictPrefix(a: Addr, payload: Text, k: nat)
    requires AddrOk(a) && |payload| < 0x10000 && Readable(a) && k < |Packed(a, payload)|
    ensures Parse(Packed(a, payload)[..k]) == NeedMore
  {
    hide HeaderOf, HostOf, ValidDomain;
    HeaderAt(a, |payload|);
    var b, h, pos := Packed(a, payload)[..k], HeaderOf(a, |payload|), a.wireLen;
    assert forall i :: 0 <= i < k && i < pos + 4 ==> b[i] == h[i];
    var skip := if a.kind == DOMAIN then 2 else 1;
    if k >= pos {
      assert b[skip..skip + |a.host|] == h[skip..skip + |a.host|];
    }
  }

  lemma HeaderParsed(b: Text)
    requires Parse(b).Ok?
    ensures var f := Parse(b).frame;
            && AddrOk(f.addr) && |f.payload| < 0x10000 && f.addr.wireLen + 4 + |f.payload| == f.wireLen <= |b|
            && b[..f.addr.wireLen + 4] == HeaderOf(f.addr, |f.payload|)
  {
    hide ValidDomain, Be16, Octets16;
    var f, skip := Parse(b).frame, ShapeOf(b).skip;
    var pos := f.addr.wireLen;
    OctetsOfBe16(b[pos - 2], b[pos - 1]);
    OctetsOfBe16(b[pos], b[pos + 1]);
    var front := [b[0]] + if b[0] == DOMAIN then [b[1]] else [];
    assert b[..skip] == front;
    assert b[..pos - 2] == front + f.addr.host;
    assert b[pos - 2..pos + 4] == Octets16(f.addr.port) + Octets16(|f.payload|) + [13, 10];
    assert b[..pos + 4] == b[..pos - 2] + b[pos - 2..pos + 4];
  }

  // Packing undoes parsing.
  lemma ParsedIsPacked(b: Text)
    requires Parse(b).Ok?
    ensures var f := Parse(b).frame;
            && AddrOk(f.addr) && Readable(f.addr) && |f.payload| < 0x10000
            && f.wireLen <= |b| && b[..f.wireLen] == Packed(f.addr, f.payload)
  {
    hide ValidDomain;
    var f := Parse(b).frame;
    HeaderParsed(b);
    assert b[..f.wireLen] == b[..f.addr.wireLen + 4] + f.payload;
  }

  // A kind of address there is not, or a domain of no octets, is refused as
  // soon as it is seen.
  lemma RefusedAtOnce(b: Text)
    requires b != [] && (b[0] !in {1, 3, 4} || (b[0] == 3 && |b| >= 2 && b[1] == 0))
    ensures Parse(b) == Error
  {
  }

  // An address the parser does not take is refused with its last octet.
  lemma UnreadableRefused(a: Addr, x: Text)
    requires AddrOk(a) && !Readable(a)
    ensures Parse(HostOf(a) + Octets16(a.port) + x) == Error
  {
    hide HostOf, ValidDomain, HeaderOf;
    HeaderAt(a, 0);
    HeaderParts(a);
    var b, h, pos := HostOf(a) + Octets16(a.port) + x, HeaderOf(a, 0), a.wireLen;
    assert b[..pos] == h[..pos];
    assert forall i :: 0 <= i < pos ==> b[i] == h[i];
    var skip := if a.kind == DOMAIN then 2 else 1;
    assert b[skip..skip + |a.host|] == h[skip..skip + |a.host|];
  }

  lemma HeaderParts(a: Addr)
    requires AddrOk(a)
    ensures HeaderOf(a, 0)[..a.wireLen] == HostOf(a) + Octets16(a.port)
  {
  }

  // A verdict once given stands.
  lemma VerdictStands(b: Text, x: Text)
    requires Parse(b) != NeedMore
    ensures Parse(b + x) == Parse(b)
  {
    hide ValidDomain, Be16;
    assert ShapeOf(b + x) == ShapeOf(b);
    if ShapeOf(b).Known? {
      var skip, pos := ShapeOf(b).skip, ShapeOf(b).skip + ShapeOf(b).hostLen + 2;
      assert (b + x)[skip..pos - 2] == b[skip..pos - 2];
      if |b| >= pos + 4 {
        var wireLen := pos + 4 + Be16(b[pos], b[pos + 1]);
        if |b| >= wireLen {
          assert (b + x)[pos + 4..wireLen] == b[pos + 4..wireLen];
        }
      }
    }
  }

  // A full buffer that still asks for more starts a frame too big for it.
  lemma FullMeansTooBig(b: Text, x: Text)
    requires |b| == SIZE && Parse(b) == NeedMore && Parse(b + x).Ok?
    ensures Parse(b + x).frame.wireLen > SIZE && |Parse(b + x).frame.payload| > MAX_PAYLOAD
  {
    assert ShapeOf(b + x) == ShapeOf(b);
    var skip, pos := ShapeOf(b).skip, ShapeOf(b).skip + ShapeOf(b).hostLen + 2;
    assert (b + x)[skip..pos - 2] == b[skip..pos - 2];
  }

  // Whatever frame it is, its payload is over the limit.
  ghost predicate OnlyTooBig(b: Text) {
    forall x :: Parse(b + x).Ok? ==> |Parse(b + x).frame.payload| > MAX_PAYLOAD
  }

  lemma NeverFits(b: Text)
    requires |b| == SIZE && Parse(b) == NeedMore
    ensures OnlyTooBig(b)
  {
    hide Parse;
    forall x | Parse(b + x).Ok?
      ensures |Parse(b + x).frame.payload| > MAX_PAYLOAD
    {
      FullMeansTooBig(b, x);
    }
  }

  // A frame packed with room to spare always fits.
  lemma SmallFits(a: Addr, payload: Text)
    requires AddrOk(a) && |payload| <= MAX_PAYLOAD
    ensures |Packed(a, payload)| <= SIZE
  {
    HeaderAt(a, |payload|);
  }

  // memcpy into out at pos.
  method Copy(out: array<byte>, pos: nat, src: Text)
    requires pos + |src| <= out.Length
    modifies out
    ensures out[..pos + |src|] == old(out[..pos]) + src
    ensures forall k :: pos + |src| <= k < out.Length ==> out[k] == old(out[k])
  {
    ghost var was := out[..];
    forall k | 0 <= k < |src| {
      out[pos + k] := src[k];
    }
    assert forall k :: pos <= k < pos + |src| ==> out[k] == src[k - pos];
    assert out[..pos] == was[..pos];
  }

  // out[pos] = b
  method Put(out: array<byte>, pos: nat, b: byte)
    requires pos < out.Length
    modifies out
    ensures out[..pos + 1] == old(out[..pos]) + [b]
    ensures forall k :: pos < k < out.Length ==> out[k] == old(out[k])
  {
    out[pos] := b;
  }

  method PutTwo(out: array<byte>, pos: nat, v: nat)
    requires pos + 1 < out.Length && v < 0x10000
    modifies out
    ensures out[..pos + 2] == old(out[..pos]) + Octets16(v)
    ensures forall k :: pos + 1 < k < out.Length ==> out[k] == old(out[k])
  {
    Put(out, pos, v / 256);
    Put(out, pos + 1, v % 256);
  }

  method WriteHost(a: Addr, out: array<byte>) returns (pos: nat)
    requires AddrOk(a) && a.wireLen + 4 <= out.Length
    modifies out
    ensures pos == a.wireLen - 2 && out[..pos] == HostOf(a)
    ensures forall k :: pos <= k < out.Length ==> out[k] == old(out[k])
  {
    Put(out, 0, a.kind);
    pos := 1;
    if a.kind == DOMAIN {
      Put(out, 1, |a.host|);
      pos := 2;
    }
    Copy(out, pos, a.host);
    pos := pos + |a.host|;
  }

  method WriteHeader(a: Addr, n: nat, out: array<byte>)
    requires AddrOk(a) && n < 0x10000 && a.wireLen + 4 <= out.Length
    modifies out
    ensures out[..a.wireLen + 4] == HeaderOf(a, n)
    ensures forall k :: a.wireLen + 4 <= k < out.Length ==> out[k] == old(out[k])
  {
    hide HostOf, Octets16;
    var pos := WriteHost(a, out);
    PutTwo(out, pos, a.port);
    PutTwo(out, pos + 2, n);
    Put(out, pos + 4, 13);
    Put(out, pos + 5, 10);
    assert out[..pos + 6] == HostOf(a) + Octets16(a.port) + Octets16(n) + [13] + [10];
  }

  // build_udp_header
  method BuildHeader(a: Addr, n: nat, out: array<byte>) returns (written: Option<nat>)
    requires n < 0x10000 && a.port < 0x10000
    modifies out
    ensures written.Some? <==> AddrOk(a) && a.wireLen + 4 <= out.Length
    ensures written.None? ==> out[..] == old(out[..])
    ensures written.Some? ==> && written.value == a.wireLen + 4
                              && out[..written.value] == HeaderOf(a, n)
                              && forall k :: written.value <= k < out.Length ==> out[k] == old(out[k])
  {
    if a.kind == IPV4 {
      if |a.host| != 4 || a.wireLen != 1 + 4 + 2 {
        return None;
      }
    } else if a.kind == IPV6 {
      if |a.host| != 16 || a.wireLen != 1 + 16 + 2 {
        return None;
      }
    } else if a.kind == DOMAIN {
      if |a.host| == 0 || |a.host| > 255 || a.wireLen != 1 + 1 + |a.host| + 2 {
        return None;
      }
    } else {
      return None;
    }
    if out.Length < a.wireLen + 4 {
      return None;
    }
    WriteHeader(a, n, out);
    written := Some(a.wireLen + 4);
  }

  // pack_udp_frame
  method Pack(a: Addr, payload: Text, out: array<byte>) returns (written: Option<nat>)
    requires |payload| < 0x10000 && a.port < 0x10000
    modifies out
    ensures written.Some? <==> AddrOk(a) && |Packed(a, payload)| <= out.Length
    ensures written.Some? ==> && written.value == |Packed(a, payload)|
                              && out[..written.value] == Packed(a, payload)
                              && forall k :: written.value <= k < out.Length ==> out[k] == old(out[k])
  {
    var pos := BuildHeader(a, |payload|, out);
    if pos.None? || out.Length - pos.value < |payload| {
      return None;
    }
    if payload != [] {
      Copy(out, pos.value, payload);
    }
    written := Some(pos.value + |payload|);
  }

  // The whole frames a stream of octets starts with, and what is left.
  function Frames(w: Text): seq<Frame>
    decreases |w|
  {
    match Parse(w)
    case Ok(f) => [f] + Frames(w[f.wireLen..])
    case _ => []
  }

  predicate Sound(f: Frame) {
    && AddrOk(f.addr) && Readable(f.addr) && |f.payload| < 0x10000
    && f.wireLen == |Packed(f.addr, f.payload)|
  }

  predicate AllSound(fs: seq<Frame>) {
    forall i :: 0 <= i < |fs| ==> Sound(fs[i])
  }

  function Raw(f: Frame): Text {
    if Sound(f) then Packed(f.addr, f.payload) else []
  }

  function Octets(fs: seq<Frame>): Text {
    if fs == [] then [] else Raw(fs[0]) + Octets(fs[1..])
  }

  lemma RawFrame(f: Frame, x: Text)
    requires Sound(f)
    ensures |Raw(f)| == f.wireLen > 0 && Frames(Raw(f) + x) == [f] + Frames(x)
  {
    hide Packed, ValidDomain;
    ParsePacked(f.addr, f.payload, x);
    assert (Raw(f) + x)[f.wireLen..] == x;
  }

  // A stream of packed frames is parsed back as those frames, then whatever
  // follows them.
  lemma {:induction false} FramesOf(fs: seq<Frame>, x: Text)
    requires AllSound(fs)
    ensures Frames(Octets(fs) + x) == fs + Frames(x)
  {
    hide Frames, Raw, Sound;
    if fs == [] {
      assert Octets(fs) + x == x;
    } else {
      RawFrame(fs[0], Octets(fs[1..]) + x);
      FramesOf(fs[1..], x);
      assert Octets(fs) + x == Raw(fs[0]) + (Octets(fs[1..]) + x);
    }
  }

  lemma {:induction false} OctetsSnoc(fs: seq<Frame>, f: Frame)
    ensures Octets(fs + [f]) == Octets(fs) + Raw(f)
  {
    hide Raw;
    if fs == [] {
      assert [] + [f] == [f] && [f][1..] == [];
    } else {
      OctetsSnoc(fs[1..], f);
      assert (fs + [f])[1..] == fs[1..] + [f];
    }
  }

  // done are the frames that were taken, rest what waits: nothing of the
  // stream was lost, taken twice, or taken out of turn.
  ghost predicate Account(wire: Text, done: seq<Frame>, rest: Text) {
    AllSound(done) && wire == Octets(done) + rest
  }

  lemma AccountFrames(wire: Text, done: seq<Frame>, rest: Text)
    requires Account(wire, done, rest)
    ensures Frames(wire) == done + Frames(rest)
  {
    hide Frames, Octets;
    FramesOf(done, rest);
  }

  lemma AccountTakes(wire: Text, done: seq<Frame>, rest: Text, f: Frame)
    requires Account(wire, done, rest) && Parse(rest) == Ok(f)
    ensures f.wireLen <= |rest| && Account(wire, done + [f], rest[f.wireLen..])
  {
    hide Parse, Packed, Octets, ValidDomain, AddrOk;
    ParsedIsPacked(rest);
    OctetsSnoc(done, f);
    assert rest == rest[..f.wireLen] + rest[f.wireLen..];
    assert Octets(done) + rest == Octets(done) + Raw(f) + rest[f.wireLen..];
  }

  lemma AccountGrows(wire: Text, done: seq<Frame>, rest: Text, x: Text)
    requires Account(wire, done, rest)
    ensures Account(wire + x, done, rest + x)
  {
    hide Octets, AllSound;
    assert Octets(done) + (rest + x) == Octets(done) + rest + x;
  }

  // ---- What a frame meets on its way out ----

  datatype Socket = Takes | WouldBlock | Breaks

  // The DoH engine when it is asked: its load, whether a lookup of this
  // session is still under way, whether the name is cached, and whether a
  // request could be started.
  datatype Engine = Engine(active: nat, waiting: nat, inFlight: bool, cached: bool, starts: bool)

  datatype Way =
    | NoRoute
    | Straight(socket: Socket)
    | Relay(up: bool, socket: Socket)
    | Lookup(engine: Engine)
    | Resolver(starts: bool)
    | NoResolver

  datatype Asked = Started | Busy | Failed

  // start_doh_resolver and, past its first test, doh_resolve.
  function Ask(e: Engine): Asked {
    if e.inFlight then Busy
    else if e.cached then Started
    else if e.active >= DohScheduler.MAX_ACTIVE then
      if e.waiting >= DohScheduler.MAX_PENDING then Busy else Started
    else if e.starts then Started
    else Failed
  }

  // doh_resolve has one more way to fail, a name no query can be built for; the
  // parser lets none through.
  lemma ParsedIsAskable(b: Text)
    requires Parse(b).Ok? && Parse(b).frame.addr.kind == DOMAIN
    ensures DnsQuery.Askable(Parse(b).frame.addr.host)
  {
    hide Labels.Split, LabelsOk;
    ParsedIsPacked(b);
    NoLastDot(Parse(b).frame.addr.host);
  }

  lemma NoLastDot(host: Text)
    requires LabelsOk(Split(host))
    ensures Trim(host) == host
  {
    if host != [] && host[|host| - 1] == DOT {
      EmptyLastLabel(host);
    }
  }

  lemma {:induction false} EmptyLastLabel(host: Text)
    requires host != [] && host[|host| - 1] == DOT
    ensures !LabelsOk(Split(host))
    decreases |host|
  {
    var d := FirstDot(host);
    var rest := host[d + 1..];
    LabelsOkSplit([host[..d]], Split(rest));
    if rest == [] {
      assert |Split(rest)[0]| == 0;
    } else {
      EmptyLastLabel(rest);
    }
  }

  // A frame that leaves the buffer although it neither went out nor waits for
  // a name: its socket would block, the session has a lookup under way, the
  // engine is full, or its lookup cannot be started.
  predicate Loses(w: Way) {
    match w
    case Straight(socket) => socket == WouldBlock
    case Relay(up, socket) => up && socket == WouldBlock
    case Lookup(engine) =>
      || engine.inFlight
      || (!engine.cached && DohScheduler.Full(engine.active, engine.waiting))
      || (!engine.cached && engine.active < DohScheduler.MAX_ACTIVE && !engine.starts)
    case Resolver(starts) => !starts
    case _ => false
  }

  // The frames that were not lost, the k-th having met way(k).
  function Kept(fs: seq<Frame>, way: nat -> Way): (kept: seq<Frame>)
    ensures |kept| <= |fs|
  {
    if fs == [] then []
    else
      var n := |fs| - 1;
      Kept(fs[..n], way) + if Loses(way(n)) then [] else [fs[n]]
  }

  // Nothing is lost if and only if no frame met a way that loses it.
  lemma {:induction false} KeptAll(fs: seq<Frame>, way: nat -> Way)
    ensures Kept(fs, way) == fs <==> forall k :: 0 <= k < |fs| ==> !Loses(way(k))
  {
    if fs != [] {
      var n := |fs| - 1;
      KeptAll(fs[..n], way);
      assert fs == fs[..n] + [fs[n]];
      if Kept(fs, way) == fs {
        assert |Kept(fs[..n], way)| == n;
        assert Kept(fs, way)[..n] == Kept(fs[..n], way) && fs[..n] == Kept(fs[..n], way);
      }
    }
  }

  lemma KeptOne(fs: seq<Frame>, f: Frame, way: nat -> Way)
    ensures Kept(fs + [f], way) == Kept(fs, way) + if Loses(way(|fs|)) then [] else [f]
  {
    hide Loses;
    var all, n := fs + [f], |fs|;
    assert all != [] && |all| - 1 == n && all[..n] == fs && all[n] == f;
  }

  // One frame for a.b, the engine full, or for an address, the socket blocked:
  // read off the stream and gone.
  lemma FrameLost()
    ensures var byName := Frame(Addr(DOMAIN, [97, DOT, 98], 53, 7), [], 11);
            var byAddr := Frame(Addr(IPV4, [1, 2, 3, 4], 53, 7), [], 11);
            var full := Lookup(Engine(DohScheduler.MAX_ACTIVE, DohScheduler.MAX_PENDING, false, false, true));
            && Frames(Octets([byName])) == [byName] && Kept([byName], _ => full) == []
            && Frames(Octets([byAddr])) == [byAddr] && Kept([byAddr], _ => Straight(WouldBlock)) == []
  {
    hide Frames, Octets, Parse, Packed, HeaderOf;
    var byName := Frame(Addr(DOMAIN, [97, DOT, 98], 53, 7), [], 11);
    var byAddr := Frame(Addr(IPV4, [1, 2, 3, 4], 53, 7), [], 11);
    var full := Lookup(Engine(DohScheduler.MAX_ACTIVE, DohScheduler.MAX_PENDING, false, false, true));
    ShortName();
    OneFrame(byName);
    OneFrame(byAddr);
    KeptOne([], byName, _ => full);
    KeptOne([], byAddr, _ => Straight(WouldBlock));
    assert [] + [byName] == [byName] && [] + [byAddr] == [byAddr];
  }

  lemma ShortName()
    ensures ValidDomain([97, DOT, 98])
  {
    var host: Text := [97, DOT, 98];
    FirstDotIs(host, 1);
    FirstDotIs([98], 1);
    assert host[2..] == [98] && host[..1] == [97];
    assert Split(host) == [[97], [98]];
  }

  lemma OneFrame(f: Frame)
    requires Sound(f)
    ensures Frames(Octets([f])) == [f]
  {
    hide Sound, Raw;
    assert AllSound([f]);
    FramesOf([f], []);
    assert Octets([f]) + [] == Octets([f]) && [f] + Frames([]) == [f];
  }

  datatype Rc = Good | Again | Bad

  datatype Received = NoneYet | Closed | Data(bytes: Text)

  datatype Verdict = Yielded | Held | Waiting | Refused | BadFrame | TooBig | Ended

  class Input {
    const buf: array<byte>
    var pos: nat
    var len: nat
    ghost var wire: Text
    ghost var done: seq<Frame>
    ghost var taken: seq<Frame>

    ghost predicate Valid()
      reads this, buf
    {
      && buf.Length == SIZE && pos + len <= SIZE
      && Account(wire, done, buf[pos..pos + len])
    }

    constructor ()
      ensures Valid() && fresh(buf) && wire == [] && done == taken == []
    {
      buf := new byte[SIZE](_ => 0);
      pos, len := 0, 0;
      wire, done, taken := [], [], [];
      new;
      assert buf[0..0] == [];
    }

    // compact_udp_input: memmove down to the start.
    method Compact()
      requires Valid()
      modifies this`pos, buf
      ensures Valid() && pos == 0 && buf[..len] == old(buf[pos..pos + len])
    {
      if pos == 0 {
        return;
      }
      ghost var was := buf[pos..pos + len];
      if len != 0 {
        forall k | 0 <= k < len {
          buf[k] := buf[pos + k];
        }
        assert buf[..len] == was;
      }
      pos := 0;
      assert buf[0..len] == was;
    }

    // consume_udp_input, for the frame just parsed.
    method Consume(f: Frame)
      requires Valid() && Parse(buf[pos..pos + len]) == Ok(f)
      modifies this`pos, this`len, this`done
      ensures Valid() && done == old(done) + [f] && len == old(len) - f.wireLen
    {
      hide Account, Parse;
      ghost var rest := buf[pos..pos + len];
      AccountTakes(wire, done, rest, f);
      done := done + [f];
      if f.wireLen >= len {
        pos, len := 0, 0;
        assert buf[0..0] == rest[f.wireLen..];
        return;
      }
      pos, len := pos + f.wireLen, len - f.wireLen;
      assert buf[pos..pos + len] == rest[f.wireLen..];
    }

    // sendto and sendmsg; taken are the frames that went out or to a resolver.
    // A socket that would block counts as success.
    method SendTo(f: Frame, socket: Socket) returns (rc: Rc)
      modifies this`taken
      ensures rc == if socket == Breaks then Bad else Good
      ensures taken == if socket == Takes then old(taken) + [f] else old(taken)
    {
      match socket {
        case Takes =>
          taken := taken + [f];
          rc := Good;
        case WouldBlock =>
          rc := Good;
        case Breaks =>
          rc := Bad;
      }
    }

    // send_udp_frame, for the frame at the front.  What is resolved leaves the
    // buffer before the resolver is asked.
    method SendFrame(f: Frame, w: Way) returns (rc: Rc)
      requires Valid() && Parse(buf[pos..pos + len]) == Ok(f) && w != NoRoute
      modifies this`pos, this`len, this`done, this`taken
      ensures Valid()
      ensures done == if w.Lookup? || w.Resolver? then old(done) + [f] else old(done)
      ensures rc == Good ==> done == old(done) && len == old(len) && pos == old(pos)
      ensures rc == Good || done != old(done) ==> taken == old(taken) + if Loses(w) then [] else [f]
      ensures rc != Good && done == old(done) ==> taken == old(taken)
    {
      hide Account, Parse;
      match w {
        case Straight(socket) =>
          rc := SendTo(f, socket);
        case Relay(up, socket) =>
          if !up {
            return Again;
          }
          rc := SendTo(f, socket);
        case Lookup(engine) =>
          Consume(f);
          match Ask(engine) {
            case Started =>
              taken := taken + [f];
              rc := Again;
            case Busy =>
              rc := Again;
            case Failed =>
              rc := Bad;
          }
        case Resolver(starts) =>
          Consume(f);
          if !starts {
            return Bad;
          }
          taken := taken + [f];
          rc := Again;
        case NoResolver =>
          rc := Bad;
      }
    }

    // client_recv: whatever comes, wire is all of it so far.
    method ClientRecv(n: nat) returns (r: Received)
      requires n > 0
      modifies this`wire
      ensures r.Data? ==> 0 < |r.bytes| <= n
      ensures wire == if r.Data? then old(wire) + r.bytes else old(wire)
    {
      r := *;
      if r.Data? && !(0 < |r.bytes| <= n) {
        r := NoneYet;
      }
      wire := if r.Data? then wire + r.bytes else wire;
    }

    // recv behind what is unread.
    method Receive() returns (r: Received)
      requires Valid() && pos + len < SIZE
      modifies this`len, this`wire, buf
      ensures Valid()
      ensures r.Data? ==> 0 < |r.bytes| && wire == old(wire) + r.bytes && len == old(len) + |r.bytes|
      ensures !r.Data? ==> wire == old(wire) && len == old(len) && buf[..] == old(buf[..])
    {
      hide Account;
      ghost var before, rest := wire, buf[pos..pos + len];
      r := ClientRecv(SIZE - pos - len);
      if r.Data? {
        AccountGrows(before, done, rest, r.bytes);
        Copy(buf, pos + len, r.bytes);
        len := len + |r.bytes|;
        assert buf[pos..pos + len] == rest + r.bytes by {
          assert buf[pos..pos + len] == buf[..pos + len][pos..];
        }
      }
    }

    // What this run did: the frames that left the buffer, those of them that
    // were kept.
    ghost predicate Ran(done0: seq<Frame>, taken0: seq<Frame>, way: nat -> Way)
      reads this
    {
      && |done0| <= |done| && done[..|done0|] == done0
      && taken == taken0 + Kept(done[|done0|..], way)
    }

    // process_udp_client; the k-th frame of this run to leave the buffer meets
    // way(k).  Every frame leaves it once and in order, and the frames that
    // went out or to a resolver are all of them if and only if none met a way
    // that loses it.
    method Process(way: nat -> Way) returns (v: Verdict)
      requires Valid()
      modifies this, buf
      ensures Valid() && old(wire) <= wire && old(done) <= done <= Frames(wire)
      ensures Ran(old(done), old(taken), way)
      ensures old(taken) == old(done) ==>
                (taken == done <==> forall k :: 0 <= k < |done| - |old(done)| ==> !Loses(way(k)))
      ensures v in {Waiting, BadFrame, TooBig, Ended} ==> done == Frames(wire)
      ensures v in {Waiting, Ended, TooBig} ==> Parse(buf[pos..pos + len]) == NeedMore
      ensures v == BadFrame ==> Parse(buf[pos..pos + len]) == Error
      ensures v == TooBig ==> OnlyTooBig(buf[pos..pos + len])
    {
      hide Account, Parse, OnlyTooBig, Kept;
      var packets, bytes := 0, 0;
      ghost var done0, taken0 := done, taken;
      RanNothing(way);
      v := Yielded;
      while packets < MAX_PACKETS && bytes < MAX_BYTES
        invariant Valid() && old(wire) <= wire && Ran(done0, taken0, way) && packets == |done| - |done0|
        decreases MAX_PACKETS - packets, SIZE - len
      {
        var parsed := Parse(buf[pos..pos + len]);
        AccountFrames(wire, done, buf[pos..pos + len]);
        match parsed
        case Ok(f) =>
          var rc := FrameTurn(f, way(packets), done0, taken0, way);
          if rc != Good {
            RanAll(done0, taken0, way);
            AccountFrames(wire, done, buf[pos..pos + len]);
            return if rc == Again then Held else Refused;
          }
          packets, bytes := packets + 1, bytes + f.wireLen;
        case Error =>
          RanAll(done0, taken0, way);
          return BadFrame;
        case NeedMore =>
          RanAll(done0, taken0, way);
          if pos + len == SIZE {
            if pos == 0 {
              NeverFits(buf[pos..pos + len]);
              return TooBig;
            }
            Compact();
          }
          var r := Receive();
          match r {
            case NoneYet =>
              AccountFrames(wire, done, buf[pos..pos + len]);
              return Waiting;
            case Closed =>
              return Ended;
            case Data(_) =>
          }
      }
      RanAll(done0, taken0, way);
      AccountFrames(wire, done, buf[pos..pos + len]);
    }

    // One frame: routed, sent, consumed unless a resolver has done so.
    method FrameTurn(f: Frame, w: Way, ghost done0: seq<Frame>, ghost taken0: seq<Frame>, ghost way: nat -> Way)
      returns (rc: Rc)
      requires Valid() && Parse(buf[pos..pos + len]) == Ok(f)
      requires Ran(done0, taken0, way) && w == way(|done| - |done0|)
      modifies this`pos, this`len, this`done, this`taken
      ensures Valid() && Ran(done0, taken0, way)
      ensures rc == Good ==> done == old(done) + [f]
      ensures done == old(done) || done == old(done) + [f]
    {
      hide Account, Parse, Kept;
      if w == NoRoute {
        return Bad;
      }
      ghost var before := done;
      KeptOne(done[|done0|..], f, way);
      assert (done + [f])[|done0|..] == done[|done0|..] + [f];
      rc := SendFrame(f, w);
      if rc == Good {
        Consume(f);
      }
      assert done == before || done == before + [f];
    }

    lemma RanNothing(way: nat -> Way)
      ensures Ran(done, taken, way)
    {
      assert done[|done|..] == [];
    }

    lemma RanAll(done0: seq<Frame>, taken0: seq<Frame>, way: nat -> Way)
      requires Ran(done0, taken0, way)
      ensures taken0 == done0 ==>
                (taken == done <==> forall k :: 0 <= k < |done| - |done0| ==> !Loses(way(k)))
    {
      var mine := done[|done0|..];
      KeptAll(mine, way);
      assert done == done0 + mine;
      if taken0 == done0 && taken == done {
        assert taken[|done0|..] == Kept(mine, way);
      }
    }
  }
}
