// What a client writes on a smux connection, frame by frame, and what each of
// its streams is for: a request header in front of the payload.
module MuxRequest {
  import opened Bytes
  import opened MuxFrames
  import opened MuxReceive
  import opened MuxStream
  import opened Numbers
  import U = TrojanUdp

  // ---- Frames as smux numbers and orders them: the least octet first ----

  const COMMANDS: seq<Command> := [Syn, Fin, Psh, Nop, Upd]
  const PSH: nat := 2
  const UPD: nat := 4

  datatype Written = Written(version: byte, command: nat, id: nat, payload: Text) {
    predicate Ok() {
      && (version == 1 || version == 2) && id < 0x1_0000_0000 && |payload| <= 32768
      && (|| command == PSH
          || (command == UPD && version == 2 && |payload| == 8)
          || (command < UPD && payload == []))
    }

    function Octets(): (t: Text)
      requires Ok()
      ensures |t| == 8 + |payload|
    {
      [version, command, |payload| % 0x100, |payload| / 0x100,
       id % 0x100, id / 0x100 % 0x100, id / 0x1_0000 % 0x100, id / 0x100_0000] + payload
    }
  }

  predicate AllOk(ws: seq<Written>) {
    forall i :: 0 <= i < |ws| ==> ws[i].Ok()
  }

  function Wire(ws: seq<Written>): Text
    requires AllOk(ws)
  {
    if ws == [] then [] else ws[0].Octets() + Wire(ws[1..])
  }

  // What the frames bring to one stream.
  function LineOf(ws: seq<Written>, id: nat): Text {
    if ws == [] then []
    else (if ws[0].command == PSH && ws[0].id == id then ws[0].payload else []) + LineOf(ws[1..], id)
  }

  lemma LengthRead(n: nat)
    requires n < 0x1_0000
    ensures n % 0x100 + 256 * (n / 0x100) == n
  {
  }

  lemma IdRead(id: nat)
    requires id < 0x1_0000_0000
    ensures id % 0x100 + 256 * (id / 0x100 % 0x100) + 65536 * (id / 0x1_0000 % 0x100) + 16777216 * (id / 0x100_0000)
         == id
  {
    assert id / 0x1_0000 == id / 0x100 / 0x100 && id / 0x100_0000 == id / 0x100 / 0x100 / 0x100;
  }

  // A header on the wire is read as what was written.
  lemma HeaderRead(w: Written)
    requires w.Ok()
    ensures w.command < |COMMANDS|
    ensures ParseHeader(w.Octets()[..HEADER_LEN]) == Some(Header(w.version, COMMANDS[w.command], |w.payload|, w.id))
  {
    LengthRead(|w.payload|);
    IdRead(w.id);
  }

  // The payload of every stream comes out of the frames whole and in order,
  // however the frames of other streams stand between.
  lemma {:induction false} LinesComeOut(ws: seq<Written>, id: nat)
    requires AllOk(ws)
    ensures PayloadOf(id, Wire(ws)) == LineOf(ws, id) && Whole(Wire(ws))
  {
    hide ParseHeader, PayloadOf, Whole, Written.Octets;
    if ws == [] {
      NothingForNobody(id);
      NothingIsWhole();
    } else {
      var w, f := ws[0], ws[0].Octets();
      HeaderRead(w);
      PayloadBehind(w);
      FirstFrame(id, f, Header(w.version, COMMANDS[w.command], |w.payload|, w.id), Wire(ws[1..]));
      LinesComeOut(ws[1..], id);
      assert w.command == PSH <==> COMMANDS[w.command] == Psh;
    }
  }

  lemma NothingIsWhole()
    ensures Whole([])
  {
  }

  lemma PayloadBehind(w: Written)
    requires w.Ok()
    ensures w.Octets()[HEADER_LEN..] == w.payload
  {
  }

  // What has arrived brings the beginning of what all of it will bring.
  lemma {:induction false} PayloadGrows(id: nat, t: Text, x: Text)
    ensures PayloadOf(id, t) <= PayloadOf(id, t + x)
    decreases |t|
  {
    hide ParseHeader, For;
    if |t| >= HEADER_LEN && ParseHeader(t[..HEADER_LEN]).Some? {
      var h := ParseHeader(t[..HEADER_LEN]).value;
      assert (t + x)[..HEADER_LEN] == t[..HEADER_LEN];
      var end, end' := Least(HEADER_LEN + h.length, |t|), Least(HEADER_LEN + h.length, |t + x|);
      if end == end' {
        assert (t + x)[HEADER_LEN..end] == t[HEADER_LEN..end] && (t + x)[end..] == t[end..] + x;
        PayloadGrows(id, t[end..], x);
      } else {
        assert t[end..] == [];
        NothingForNobody(id);
        assert t[HEADER_LEN..end] <= (t + x)[HEADER_LEN..end'];
      }
    }
  }

  // ---- The request header, as the protocol writes it ----

  // CONNECT is 1 and UDP ASSOCIATE is 3.
  predicate Asks(cmd: byte) {
    cmd == 1 || cmd == 3
  }

  function HeaderOf(cmd: byte, a: U.Addr): (q: Text)
    requires U.AddrOk(a)
    ensures |q| == 1 + a.wireLen
  {
    [cmd] + U.HostOf(a) + Octets16(a.port)
  }

  lemma RequestFront(cmd: byte, a: U.Addr)
    requires U.AddrOk(a)
    ensures var q := HeaderOf(cmd, a); q[0] == cmd && q[1] == a.kind && (a.kind == U.DOMAIN ==> q[2] == |a.host|)
  {
  }

  // A written header is taken for exactly what it is, whatever follows.
  lemma RequestRead(cmd: byte, a: U.Addr, x: Text)
    requires Asks(cmd) && U.AddrOk(a)
    ensures RequestNeeded(HeaderOf(cmd, a) + x) == Complete(|HeaderOf(cmd, a)|)
  {
    hide HeaderOf, U.HostOf;
    RequestFront(cmd, a);
  }

  // And nothing short of it: no octet past its end is ever asked for.
  lemma RequestCut(cmd: byte, a: U.Addr, k: nat)
    requires Asks(cmd) && U.AddrOk(a) && k < |HeaderOf(cmd, a)|
    ensures RequestNeeded(HeaderOf(cmd, a)[..k]).Need?
    ensures RequestNeeded(HeaderOf(cmd, a)[..k]).more <= |HeaderOf(cmd, a)|
  {
    hide HeaderOf, U.HostOf;
    RequestFront(cmd, a);
  }

  // What is taken for a header was written as one.
  lemma RequestWasWritten(t: Text) returns (a: U.Addr)
    requires RequestNeeded(t).Complete?
    ensures U.AddrOk(a) && Asks(t[0]) && t[..RequestNeeded(t).length] == HeaderOf(t[0], a)
  {
    var n, skip := RequestNeeded(t).length, if t[1] == ADDR_DOMAIN then 3 else 2;
    a := U.Addr(t[1], t[skip..n - 2], Be16(t[n - 2], t[n - 1]), n - 1);
    OctetsOfBe16(t[n - 2], t[n - 1]);
    hide Octets16, Be16;
    var front := [t[0], t[1]] + if t[1] == ADDR_DOMAIN then [t[2]] else [];
    assert t[..skip] == front;
    assert t[..n] == t[..skip] + t[skip..n - 2] + [t[n - 2], t[n - 1]];
    assert [t[0]] + U.HostOf(a) == front + t[skip..n - 2];
  }

  // From two octets on a header is refused exactly when nothing can make it
  // one.
  lemma RefusedForGood(t: Text, x: Text)
    requires RequestNeeded(t) == Malformed
    ensures RequestNeeded(t + x) == Malformed
  {
  }

  lemma NeedCanBeMet(t: Text) returns (x: Text)
    requires RequestNeeded(t).Need? && |t| >= 2
    ensures RequestNeeded(t + x).Complete?
  {
    if t[1] == ADDR_DOMAIN && |t| == 2 {
      x := [1, 0, 0, 0];
    } else {
      x := seq(RequestNeeded(t).more - |t|, _ => 0);
    }
  }

  // ---- A client's stream ----

  // A line that begins so and has a complete header has that one.
  lemma HeaderTaken(cmd: byte, a: U.Addr, p: Text, t: Text, n: nat)
    requires Asks(cmd) && U.AddrOk(a) && t <= HeaderOf(cmd, a) + p && RequestNeeded(t) == Complete(n)
    ensures n == |HeaderOf(cmd, a)| && t[..n] == HeaderOf(cmd, a) && t[n..] <= p
    ensures t == HeaderOf(cmd, a) + p ==> t[n..] == p
  {
    hide RequestNeeded, HeaderOf;
    var q := HeaderOf(cmd, a);
    if |t| < |q| {
      assert t == q[..|t|];
      RequestCut(cmd, a, |t|);
    } else {
      assert t == q + t[|q|..];
      RequestRead(cmd, a, t[|q|..]);
    }
  }

  // A stream whose frames bring a request header and then p has the header
  // for its header and p, as far as it has arrived, for its line: sent,
  // unread, deferred and still in the frame.
  lemma ClientIsServed(c: Session, s: Stream, ws: seq<Written>, cmd: byte, a: U.Addr, p: Text) returns (line: Text)
    requires c.Valid() && s in c.streams.Values && s.state != Closing
    requires AllOk(ws) && Asks(cmd) && U.AddrOk(a) && LineOf(ws, s.id) == HeaderOf(cmd, a) + p
    requires s.id in c.born && c.born[s.id] <= |c.log| && c.log[c.born[s.id]..] <= Wire(ws)
    ensures s.Ok() && (s.state == Request ==> s.request <= HeaderOf(cmd, a) + p)
    ensures s.state != Request ==>
              && s.request == HeaderOf(cmd, a) && line <= p
              && (c.log[c.born[s.id]..] == Wire(ws) ==> line == p)
              && line == s.sent + s.Unread() + Rest(s.pending) + if s == c.payloadStream then c.Unfed() else []
  {
    hide Session.Valid, Stream.Ok, Stream.Unread, Session.Unfed, Rest, RequestNeeded, PayloadOf, Wire, LineOf, HeaderOf;
    var t := c.log[c.born[s.id]..];
    var payload := c.PayloadInOrder(s);
    LinesComeOut(ws, s.id);
    PayloadGrows(s.id, t, Wire(ws)[|t|..]);
    assert t + Wire(ws)[|t|..] == Wire(ws);
    line := payload[|s.request|..];
    if s.state != Request {
      HeaderTaken(cmd, a, p, payload, |s.request|);
    }
  }
}
