// The smux frames of one client connection, and which of their octets belong
// to which stream.
module MuxFrames {
  import opened Bytes

  const HEADER_LEN: nat := 8
  const MAX_FRAME_SIZE: nat := 32768
  const UPD_LEN: nat := 8

  datatype Command = Syn | Fin | Psh | Nop | Upd

  datatype Header = Header(version: byte, command: Command, length: nat, id: nat)

  function CommandOf(b: byte): Option<Command> {
    if b == 0 then Some(Syn) else if b == 1 then Some(Fin) else if b == 2 then Some(Psh)
    else if b == 3 then Some(Nop) else if b == 4 then Some(Upd) else None
  }

  // mux_parse_header.
  function ParseHeader(h: Text): (r: Option<Header>)
    requires |h| == HEADER_LEN
    ensures r.Some? ==> r.value.length <= MAX_FRAME_SIZE && r.value.version != 0
  {
    var length: nat := h[2] + 256 * (h[3] as nat);
    var id: nat := h[4] + 256 * (h[5] as nat) + 65536 * (h[6] as nat) + 16777216 * (h[7] as nat);
    if (h[0] != 1 && h[0] != 2) || length > MAX_FRAME_SIZE then None
    else match CommandOf(h[1])
      case None => None
      case Some(Psh) => Some(Header(h[0], Psh, length, id))
      case Some(Upd) => if h[0] == 2 && length == UPD_LEN then Some(Header(h[0], Upd, length, id)) else None
      case Some(c) => if length == 0 then Some(Header(h[0], c, length, id)) else None
  }

  // ---- Packing, in the order of the least octet first ----

  const WORD: nat := 0x1_0000_0000

  function Octets32Le(v: nat): (b: Text)
    requires v < WORD
    ensures |b| == 4
  {
    [v % 256, v / 256 % 256, v / 65536 % 256, v / 16777216]
  }

  function Word32Le(b: Text): (v: nat)
    requires |b| == 4
    ensures v < WORD
  {
    b[0] + 256 * (b[1] as nat) + 65536 * (b[2] as nat) + 16777216 * (b[3] as nat)
  }

  lemma WordOfOctets(v: nat)
    requires v < WORD
    ensures Word32Le(Octets32Le(v)) == v
  {
    assert v / 65536 == v / 256 / 256 && v / 16777216 == v / 256 / 256 / 256;
  }

  lemma OctetsOfWord(b: Text)
    requires |b| == 4
    ensures Octets32Le(Word32Le(b)) == b
  {
    var high: nat := b[2] + 256 * (b[3] as nat);
    var middle: nat := b[1] + 256 * high;
    var v := Word32Le(b);
    assert v == b[0] + 256 * middle;
    assert v / 256 == middle && middle / 256 == high;
    assert v / 65536 == high && v / 16777216 == high / 256;
  }

  function CommandOctet(c: Command): (b: byte)
    ensures CommandOf(b) == Some(c)
  {
    match c
    case Syn => 0
    case Fin => 1
    case Psh => 2
    case Nop => 3
    case Upd => 4
  }

  // What mux_pack_header asks of a frame.
  predicate Packable(h: Header) {
    && (h.version == 1 || h.version == 2) && h.length <= MAX_FRAME_SIZE && h.id < WORD
    && match h.command
       case Psh => true
       case Upd => h.version == 2 && h.length == UPD_LEN
       case _ => h.length == 0
  }

  function HeaderOctets(h: Header): (b: Text)
    requires Packable(h)
    ensures |b| == HEADER_LEN
  {
    [h.version, CommandOctet(h.command), (h.length % 256) as byte, (h.length / 256) as byte] + Octets32Le(h.id)
  }

  // A packed header parses back.
  lemma HeaderIsParsed(h: Header)
    requires Packable(h)
    ensures ParseHeader(HeaderOctets(h)) == Some(h)
  {
    hide Octets32Le;
    var b := HeaderOctets(h);
    WordOfOctets(h.id);
    assert b[4..8] == Octets32Le(h.id);
    IdOf(b);
  }

  lemma IdOf(b: Text)
    requires |b| == HEADER_LEN
    ensures Word32Le(b[4..8]) == b[4] + 256 * (b[5] as nat) + 65536 * (b[6] as nat) + 16777216 * (b[7] as nat)
  {
  }

  // And a header that parses was packed so.
  lemma HeaderWasPacked(b: Text)
    requires |b| == HEADER_LEN && ParseHeader(b).Some?
    ensures Packable(ParseHeader(b).value) && HeaderOctets(ParseHeader(b).value) == b
  {
    hide Octets32Le, Word32Le;
    var h := ParseHeader(b).value;
    IdOf(b);
    OctetsOfWord(b[4..8]);
    var n: nat := b[2] + 256 * (b[3] as nat);
    assert n % 256 == b[2] && n / 256 == b[3];
    assert b == b[..4] + b[4..8];
  }

  // mux_pack_header, eight octets from at.
  method PackHeader(buf: array<byte>, at: nat, version: byte, command: byte, length: nat, id: nat)
    returns (ok: bool)
    requires at <= buf.Length && id < WORD
    modifies buf
    ensures ok <==> && at + HEADER_LEN <= buf.Length && CommandOf(command).Some?
                    && Packable(Header(version, CommandOf(command).value, length, id))
    ensures ok ==> buf[at..at + HEADER_LEN] == HeaderOctets(Header(version, CommandOf(command).value, length, id))
    ensures forall k :: 0 <= k < buf.Length && !(ok && at <= k < at + HEADER_LEN) ==> buf[k] == old(buf[k])
  {
    if buf.Length - at < HEADER_LEN || (version != 1 && version != 2) || length > MAX_FRAME_SIZE {
      return false;
    }
    if command == 0 || command == 1 || command == 3 {
      if length != 0 {
        return false;
      }
    } else if command == 4 {
      if version != 2 || length != UPD_LEN {
        return false;
      }
    } else if command != 2 {
      return false;
    }
    buf[at], buf[at + 1] := version, command;
    buf[at + 2], buf[at + 3] := length % 256, length / 256;
    Put32Le(buf, at + 4, id);
    ok := true;
    assert buf[at..at + 4] == [version, command, (length % 256) as byte, (length / 256) as byte];
    assert buf[at..at + HEADER_LEN] == buf[at..at + 4] + buf[at + 4..at + HEADER_LEN];
  }

  method Put32Le(buf: array<byte>, at: nat, v: nat)
    requires at + 4 <= buf.Length && v < WORD
    modifies buf
    ensures buf[at..at + 4] == Octets32Le(v)
    ensures forall k :: 0 <= k < buf.Length && !(at <= k < at + 4) ==> buf[k] == old(buf[k])
  {
    buf[at], buf[at + 1] := v % 256, v / 256 % 256;
    buf[at + 2], buf[at + 3] := v / 65536 % 256, v / 16777216;
  }

  function UpdateOctets(consumed: nat, window: nat): (b: Text)
    requires consumed < WORD && window < WORD
    ensures |b| == UPD_LEN
  {
    Octets32Le(consumed) + Octets32Le(window)
  }

  // mux_parse_update.
  function ParseUpdate(b: Text): (u: (nat, nat))
    requires |b| == UPD_LEN
  {
    (Word32Le(b[..4]), Word32Le(b[4..]))
  }

  lemma UpdateIsParsed(consumed: nat, window: nat)
    requires consumed < WORD && window < WORD
    ensures ParseUpdate(UpdateOctets(consumed, window)) == (consumed, window)
  {
    hide Octets32Le, Word32Le;
    WordOfOctets(consumed);
    WordOfOctets(window);
    var b := UpdateOctets(consumed, window);
    assert b[..4] == Octets32Le(consumed) && b[4..] == Octets32Le(window);
  }

  // mux_pack_update, eight octets from at.
  method PackUpdate(buf: array<byte>, at: nat, consumed: nat, window: nat) returns (ok: bool)
    requires at <= buf.Length && consumed < WORD && window < WORD
    modifies buf
    ensures ok <==> at + UPD_LEN <= buf.Length
    ensures ok ==> buf[at..at + UPD_LEN] == UpdateOctets(consumed, window)
    ensures forall k :: 0 <= k < buf.Length && !(ok && at <= k < at + UPD_LEN) ==> buf[k] == old(buf[k])
  {
    hide Octets32Le;
    if buf.Length - at < UPD_LEN {
      return false;
    }
    Put32Le(buf, at, consumed);
    ghost var first := buf[at..at + 4];
    Put32Le(buf, at + 4, window);
    assert buf[at..at + 4] == first;
    assert buf[at..at + UPD_LEN] == buf[at..at + 4] + buf[at + 4..at + UPD_LEN];
    ok := true;
  }

  function Least(a: nat, b: nat): nat {
    if a < b then a else b
  }

  predicate For(h: Header, id: nat) {
    h.command == Psh && h.id == id
  }

  // The payload octets of one stream in a text of frames, the last of which
  // may be cut short.
  ghost function PayloadOf(id: nat, t: Text): Text
    decreases |t|
  {
    if |t| < HEADER_LEN || ParseHeader(t[..HEADER_LEN]).None? then []
    else
      var h := ParseHeader(t[..HEADER_LEN]).value;
      var end := Least(HEADER_LEN + h.length, |t|);
      (if For(h, id) then t[HEADER_LEN..end] else []) + PayloadOf(id, t[end..])
  }

  // Nothing but whole frames.
  ghost predicate Whole(t: Text)
    decreases |t|
  {
    t == [] ||
    (&& |t| >= HEADER_LEN && ParseHeader(t[..HEADER_LEN]).Some?
     && |t| >= HEADER_LEN + ParseHeader(t[..HEADER_LEN]).value.length
     && Whole(t[HEADER_LEN + ParseHeader(t[..HEADER_LEN]).value.length..]))
  }

  lemma FirstFrame(id: nat, f: Text, h: Header, t: Text)
    requires |f| == HEADER_LEN + h.length && ParseHeader(f[..HEADER_LEN]) == Some(h)
    ensures PayloadOf(id, f + t) == (if For(h, id) then f[HEADER_LEN..] else []) + PayloadOf(id, t)
    ensures Whole(f + t) == Whole(t)
  {
    hide ParseHeader;
    assert (f + t)[..HEADER_LEN] == f[..HEADER_LEN] && (f + t)[|f|..] == t;
    assert (f + t)[HEADER_LEN..|f|] == f[HEADER_LEN..];
  }

  lemma {:induction false} WholeThen(id: nat, a: Text, b: Text)
    requires Whole(a)
    ensures PayloadOf(id, a + b) == PayloadOf(id, a) + PayloadOf(id, b)
    ensures Whole(b) ==> Whole(a + b)
    decreases |a|
  {
    hide ParseHeader, PayloadOf, For;
    if a == [] {
      assert a + b == b;
      NothingForNobody(id);
    } else {
      var h := ParseHeader(a[..HEADER_LEN]).value;
      var f, rest := a[..HEADER_LEN + h.length], a[HEADER_LEN + h.length..];
      assert f[..HEADER_LEN] == a[..HEADER_LEN] && a == f + rest && a + b == f + (rest + b);
      FirstFrame(id, f, h, rest);
      FirstFrame(id, f, h, rest + b);
      WholeThen(id, rest, b);
      var x := if For(h, id) then f[HEADER_LEN..] else [];
      assert x + (PayloadOf(id, rest) + PayloadOf(id, b)) == x + PayloadOf(id, rest) + PayloadOf(id, b);
    }
  }

  lemma NothingForNobody(id: nat)
    ensures PayloadOf(id, []) == []
  {
  }

  // What the frame being read has brought for one stream.
  ghost function Mine(id: nat, frame: Option<Header>, body: Text): Text {
    if frame.Some? && For(frame.value, id) then body else []
  }

  lemma CurrentFrame(id: nat, header: Text, h: Header, body: Text)
    requires |header| == HEADER_LEN && ParseHeader(header) == Some(h) && |body| <= h.length
    ensures PayloadOf(id, header + body) == Mine(id, Some(h), body)
    ensures |body| == h.length ==> Whole(header + body)
  {
    hide ParseHeader;
    var t := header + body;
    assert t[..HEADER_LEN] == header && t[HEADER_LEN..|t|] == body && t[|t|..] == [];
    assert PayloadOf(id, []) == [];
    assert body + [] == body;
  }

  lemma HeaderAlone(id: nat, header: Text)
    requires |header| <= HEADER_LEN
    ensures PayloadOf(id, header) == []
  {
    hide ParseHeader;
    if |header| == HEADER_LEN {
      assert header[..HEADER_LEN] == header && header[HEADER_LEN..|header|] == [];
      assert header[|header|..] == [];
    }
  }

  // ---- The log of everything recv returned ----

  // The log split at the frame being read.
  datatype Log = Log(done: Text, header: Text, frame: Option<Header>, body: Text) {
    ghost predicate Ok() {
      && |header| <= HEADER_LEN
      && (frame.None? ==> body == [])
      && (frame.Some? ==> |header| == HEADER_LEN && ParseHeader(header) == frame && |body| <= frame.value.length)
    }

    function All(): Text {
      done + header + body
    }
  }

  // The payload a stream was brought since the log was born octets long.
  ghost predicate TracedOne(log: Log, id: nat, line: Text, born: nat) {
    && born <= |log.done| && Whole(log.done[born..])
    && line == PayloadOf(id, log.done[born..]) + Mine(id, log.frame, log.body)
  }

  ghost predicate Traced(log: Log, lines: map<nat, Text>, born: map<nat, nat>) {
    && log.Ok() && lines.Keys == born.Keys
    && forall id :: id in lines ==> TracedOne(log, id, lines[id], born[id])
  }

  lemma LineIsPayload(log: Log, lines: map<nat, Text>, born: map<nat, nat>, id: nat)
    requires Traced(log, lines, born) && id in lines
    ensures id in born && born[id] <= |log.All()| && lines[id] == PayloadOf(id, log.All()[born[id]..])
  {
    hide PayloadOf, Whole, ParseHeader, Mine;
    assert TracedOne(log, id, lines[id], born[id]);
    var a, b := log.done[born[id]..], log.header + log.body;
    WholeThen(id, a, b);
    assert log.All()[born[id]..] == a + b;
    if log.frame.Some? {
      CurrentFrame(id, log.header, log.frame.value, log.body);
    } else {
      HeaderAlone(id, log.header);
      NoFrame(id, log.body);
      assert b == log.header;
    }
  }

  lemma NoFrame(id: nat, body: Text)
    ensures Mine(id, None, body) == [] && Mine(id, None, []) == []
  {
  }

  lemma HeaderArrives(log: Log, lines: map<nat, Text>, born: map<nat, nat>, x: Text)
    requires Traced(log, lines, born) && log.frame.None? && |log.header| + |x| <= HEADER_LEN
    ensures var next := log.(header := log.header + x);
            Traced(next, lines, born) && next.All() == log.All() + x
  {
    hide TracedOne, ParseHeader;
    var next := log.(header := log.header + x);
    forall id | id in lines
      ensures TracedOne(next, id, lines[id], born[id])
    {
      SameTrace(log, next, id, lines[id], born[id]);
    }
  }

  lemma SameTrace(log: Log, next: Log, id: nat, line: Text, born: nat)
    requires TracedOne(log, id, line, born) && next.done == log.done
    requires Mine(id, next.frame, next.body) == Mine(id, log.frame, log.body)
    ensures TracedOne(next, id, line, born)
  {
  }

  lemma FrameKnown(log: Log, lines: map<nat, Text>, born: map<nat, nat>, h: Header)
    requires Traced(log, lines, born) && log.frame.None? && |log.header| == HEADER_LEN
    requires ParseHeader(log.header) == Some(h)
    ensures Traced(log.(frame := Some(h)), lines, born) && log.(frame := Some(h)).All() == log.All()
  {
    hide TracedOne, ParseHeader;
    var next := log.(frame := Some(h));
    forall id | id in lines
      ensures TracedOne(next, id, lines[id], born[id])
    {
      SameTrace(log, next, id, lines[id], born[id]);
    }
  }

  // Every octet of the frame goes to the stream it is for.
  function Longer(lines: map<nat, Text>, frame: Option<Header>, x: Text): (r: map<nat, Text>)
    ensures r.Keys == lines.Keys
  {
    if frame.Some? && frame.value.command == Psh && frame.value.id in lines
    then lines[frame.value.id := lines[frame.value.id] + x] else lines
  }

  lemma BodyArrives(log: Log, lines: map<nat, Text>, born: map<nat, nat>, x: Text)
    requires Traced(log, lines, born) && log.frame.Some? && |log.body| + |x| <= log.frame.value.length
    ensures var next := log.(body := log.body + x);
            Traced(next, Longer(lines, log.frame, x), born) && next.All() == log.All() + x
  {
    hide ParseHeader, PayloadOf, Whole;
    var next, more := log.(body := log.body + x), Longer(lines, log.frame, x);
    forall id | id in more
      ensures TracedOne(next, id, more[id], born[id])
    {
      assert TracedOne(log, id, lines[id], born[id]);
      var p := PayloadOf(id, log.done[born[id]..]);
      assert p + log.body + x == p + (log.body + x);
    }
    assert log.done + log.header + (log.body + x) == log.done + log.header + log.body + x;
  }

  lemma FrameDone(log: Log, lines: map<nat, Text>, born: map<nat, nat>)
    requires Traced(log, lines, born) && log.frame.Some? && |log.body| == log.frame.value.length
    ensures var next := Log(log.All(), [], None, []);
            Traced(next, lines, born) && next.All() == log.All()
  {
    hide ParseHeader, PayloadOf, Whole, Mine;
    var next := Log(log.All(), [], None, []);
    forall id | id in lines
      ensures TracedOne(next, id, lines[id], born[id])
    {
      assert TracedOne(log, id, lines[id], born[id]);
      var a, b := log.done[born[id]..], log.header + log.body;
      CurrentFrame(id, log.header, log.frame.value, log.body);
      WholeThen(id, a, b);
      NoFrame(id, []);
      assert next.done[born[id]..] == a + b;
      assert PayloadOf(id, a + b) + [] == PayloadOf(id, a + b);
    }
  }

  // A stream is born with its SYN frame.
  lemma Born(log: Log, lines: map<nat, Text>, born: map<nat, nat>, id: nat)
    requires Traced(log, lines, born) && id !in lines
    requires log.frame.Some? && log.frame.value.command != Psh
    ensures Traced(log, lines[id := []], born[id := |log.done|])
  {
    hide ParseHeader;
    assert log.done[|log.done|..] == [];
    assert PayloadOf(id, []) == [];
    var l, b := lines[id := []], born[id := |log.done|];
    forall k | k in l
      ensures TracedOne(log, k, l[k], b[k])
    {
      if k != id {
        assert TracedOne(log, k, lines[k], born[k]);
      }
    }
  }

  lemma Gone(log: Log, lines: map<nat, Text>, born: map<nat, nat>, id: nat)
    requires Traced(log, lines, born)
    ensures Traced(log, lines - {id}, born - {id})
  {
    hide TracedOne, ParseHeader;
    assert forall k :: k in lines - {id} ==> TracedOne(log, k, lines[k], born[k]);
  }
}
