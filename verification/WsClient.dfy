// What a WebSocket client writes: masked frames (section 5.2 of RFC 6455),
// messages cut into fragments with control frames between them (section 5.4),
// and that a reader gets from it the payloads that were sent.
module WsClient {
  import opened Bytes
  import opened Numbers
  import opened WsCodec
  import opened WsStream
  import I = WsInbound

  // ---- One frame ----

  predicate Writable(opcode: byte, n: nat) {
    && opcode in {0x0, 0x1, 0x2, 0x8, 0x9, 0xa} && n < 0x8000_0000_0000_0000
    && (opcode >= 8 ==> n <= 125) && (opcode == 8 ==> n != 1)
  }

  // The length in the shortest of its three forms, behind the mask bit.
  function LengthOctets(n: nat): (t: Text)
    requires n < 0x8000_0000_0000_0000
  {
    if n < 126 then [0x80 + n]
    else if n < 0x1_0000 then [0x80 + 126] + Octets16(n)
    else [0x80 + 127] + Octets32(n / 0x1_0000_0000) + Octets32(n % 0x1_0000_0000)
  }

  function HeaderOf(fin: bool, opcode: byte, mask: Text, n: nat): (h: Text)
    requires Writable(opcode, n) && |mask| == 4
    ensures |h| >= 6
  {
    [(if fin then 0x80 else 0) + opcode] + LengthOctets(n) + mask
  }

  lemma BigOfTwo(b: Text)
    requires |b| == 2
    ensures Big(b, 2) == Be16(b[0], b[1])
  {
    assert Big(b, 1) == 256 * Big(b, 0) + b[0];
  }

  lemma BigOfEight(b: Text)
    requires |b| == 8
    ensures Big(b, 8) == 0x1_0000_0000 * Be32(b[..4]) + Be32(b[4..])
  {
    assert Big(b, 1) == 256 * Big(b, 0) + b[0];
    assert Big(b, 2) == 256 * Big(b, 1) + b[1];
    assert Big(b, 3) == 256 * Big(b, 2) + b[2];
    assert Big(b, 4) == 256 * Big(b, 3) + b[3];
    assert Big(b, 5) == 256 * Big(b, 4) + b[4];
    assert Big(b, 6) == 256 * Big(b, 5) + b[5];
    assert Big(b, 7) == 256 * Big(b, 6) + b[6];
  }

  lemma LengthRead(first: byte, n: nat, x: Text)
    requires n < 0x8000_0000_0000_0000
    ensures ParseLength([first] + LengthOctets(n) + x) == Length(1 + |LengthOctets(n)|, n)
  {
    hide Big, Be16, Be32, Octets16, Octets32;
    if n >= 0x1_0000 {
      LongRead(first, n, x);
    } else if n >= 126 {
      var all := [first] + LengthOctets(n) + x;
      assert all[2..4] == Octets16(n);
      BigOfTwo(all[2..4]);
      Be16OfOctets(n);
    }
  }

  lemma LongRead(first: byte, n: nat, x: Text)
    requires 0x1_0000 <= n < 0x8000_0000_0000_0000
    ensures ParseLength([first] + LengthOctets(n) + x) == Length(10, n)
  {
    hide Big, Be16, Be32, Octets16, Octets32;
    var all, high, low := [first] + LengthOctets(n) + x, n / 0x1_0000_0000, n % 0x1_0000_0000;
    assert all[2..10][..4] == Octets32(high) && all[2..10][4..] == Octets32(low);
    BigOfEight(all[2..10]);
    Be32OfOctets(high);
    Be32OfOctets(low);
    assert all[2] == Octets32(high)[0];
    HighOctet(high);
  }

  lemma HighOctet(v: nat)
    requires v < 0x8000_0000
    ensures Octets32(v)[0] < 128
  {
  }

  // A header is read as it was written: every field, the mask in the order of
  // its octets, whatever follows.
  lemma HeaderIsRead(fin: bool, opcode: byte, mask: Text, n: nat, x: Text)
    requires Writable(opcode, n) && |mask| == 4 && (opcode >= 8 ==> fin)
    ensures var h := HeaderOf(fin, opcode, mask, n);
            ParseHeader(h + x) == Header(Frame(fin, opcode, true, mask, n, |h|))
  {
    hide ParseLength, LengthOctets;
    var first, h := [(if fin then 0x80 else 0) + opcode], HeaderOf(fin, opcode, mask, n);
    var l := LengthOctets(n);
    assert h + x == first + l + (mask + x);
    LengthRead(first[0], n, mask + x);
    FirstOfLength(n);
    assert (h + x)[1 + |l|..1 + |l| + 4] == mask;
  }

  lemma FirstOfLength(n: nat)
    requires n < 0x8000_0000_0000_0000
    ensures LengthOctets(n) != [] && LengthOctets(n)[0] >= 128
  {
  }

  // And a masked header that is read was written so: no length in a longer
  // form than it needs, no control frame cut or over its bound.
  lemma HeaderWasWritten(b: Text)
    requires ParseHeader(b).Header? && ParseHeader(b).frame.masked
    ensures var f := ParseHeader(b).frame;
            && Writable(f.opcode, f.length) && (f.opcode >= 8 ==> f.fin)
            && b[..f.headerLen] == HeaderOf(f.fin, f.opcode, f.mask, f.length)
  {
    hide Big, Be16, Be32, Octets16, Octets32;
    var f, end := ParseHeader(b).frame, ParseLength(b).end;
    assert b[..1] == [(if f.fin then 0x80 else 0) + f.opcode] by { FirstOctet(b[0]); }
    LengthWasWritten(b);
    assert b[..f.headerLen] == b[..1] + b[1..end] + b[end..end + 4];
  }

  lemma FirstOctet(b: byte)
    requires b / 16 % 8 == 0
    ensures b == (if b >= 128 then 0x80 else 0) + b % 16
  {
  }

  lemma LengthWasWritten(b: Text)
    requires |b| >= 2 && b[1] >= 128 && ParseLength(b).Length?
    ensures b[1..ParseLength(b).end] == LengthOctets(ParseLength(b).value)
  {
    hide Big, Be16, Be32, Octets16, Octets32;
    var end, n := ParseLength(b).end, ParseLength(b).value;
    if end == 4 {
      BigOfTwo(b[2..4]);
      OctetsOfBe16(b[2], b[3]);
      assert b[2..4] == [b[2], b[3]];
      assert b[1..4] == [b[1]] + b[2..4];
    } else if end == 10 {
      var t := b[2..10];
      BigOfEight(t);
      OctetsOfBe32(t[..4]);
      OctetsOfBe32(t[4..]);
      WideHalves(Be32(t[..4]), Be32(t[4..]));
      assert t == t[..4] + t[4..] && b[1..10] == [b[1]] + t;
    }
  }

  lemma WideHalves(high: nat, low: nat)
    requires low < 0x1_0000_0000
    ensures (0x1_0000_0000 * high + low) / 0x1_0000_0000 == high && (0x1_0000_0000 * high + low) % 0x1_0000_0000 == low
  {
  }

  // ---- Masking, bit by bit ----

  // Bit k of an octet, lowest first.
  function Bit(a: nat, k: nat): (b: nat)
    ensures b < 2
  {
    if k == 0 then a % 2 else Bit(a / 2, k - 1)
  }

  lemma {:induction false} XorIsBitwise(a: nat, b: nat, n: nat, k: nat)
    requires k < n
    ensures Bit(Xor(a, b, n), k) == if Bit(a, k) == Bit(b, k) then 0 else 1
  {
    var rest := Xor(a / 2, b / 2, n - 1);
    assert Xor(a, b, n) == 2 * rest + (a % 2 + b % 2) % 2;
    BitApart(rest, (a % 2 + b % 2) % 2);
    if k > 0 {
      XorIsBitwise(a / 2, b / 2, n - 1, k - 1);
    }
  }

  // Octet i of a masked payload differs from octet i of the payload in
  // exactly the bits of octet i modulo 4 of the mask.
  lemma MaskedIsBitwise(payload: Text, mask: Text, i: nat, k: nat)
    requires |mask| == 4 && i < |payload| && k < 8
    ensures Bit(Masked(payload, mask, 0)[i], k) != Bit(payload[i], k) <==> Bit(mask[i % 4], k) == 1
  {
    XorIsBitwise(payload[i], mask[i % 4], 8, k);
  }

  // ---- A whole frame ----

  function ClientFrame(fin: bool, opcode: byte, mask: Text, payload: Text): (t: Text)
    requires Writable(opcode, |payload|) && |mask| == 4
    ensures |t| > |payload|
  {
    HeaderOf(fin, opcode, mask, |payload|) + Masked(payload, mask, 0)
  }

  // A frame that may come says its payload and no more.
  lemma FrameSays(fin: bool, opcode: byte, mask: Text, payload: Text, y: Text, fragmented: bool)
    requires Writable(opcode, |payload|) && |mask| == 4 && (opcode >= 8 ==> fin)
    ensures var n := |HeaderOf(fin, opcode, mask, |payload|)|;
            var f := Frame(fin, opcode, true, mask, |payload|, n);
            Deframe(ClientFrame(fin, opcode, mask, payload) + y, fragmented, true)
            == if Refused(f, fragmented, true).Some? then Got([], [], Violation(Refused(f, fragmented, true).value))
               else if IsData(f) then Join(Got(payload, [], Open), Deframe(y, FragmentedAfter(f, fragmented), true))
               else if opcode == 8 then Got([], [], ClosedBy(payload))
               else Join(Got([], [Control(opcode, payload)], Open), Deframe(y, fragmented, true))
  {
    hide ParseHeader, HeaderOf, Masked, Deframe, Refused, FragmentedAfter, Body;
    var h, m := HeaderOf(fin, opcode, mask, |payload|), Masked(payload, mask, 0);
    var f := Frame(fin, opcode, true, mask, |payload|, |h|);
    HeaderIsRead(fin, opcode, mask, |payload|, []);
    assert h + [] == h;
    HeaderRead(h, m + y, fragmented, true);
    assert h + m + y == h + (m + y);
    MaskedTwice(payload, mask, 0);
    if IsData(f) {
      DataBodySplit(f, |m|, 0, [], m, y, fragmented, true);
    } else {
      ControlBodySplit(f, |m|, 0, [], m, y, fragmented, true);
      assert [] + payload == payload;
    }
    BodyEnd(f, |m|, if IsData(f) then [] else payload, y, fragmented, true);
  }

  // ---- Messages ----

  // A fragment of a message, the last one if it ends it, or a PING or PONG.
  datatype Item = Part(data: Text, last: bool, mask: Text) | Aside(pong: bool, data: Text, mask: Text) {
    predicate Ok() {
      |mask| == 4 && |data| < 0x8000_0000_0000_0000 && (Aside? ==> |data| <= 125)
    }

    function Within(inside: bool): bool {
      if Part? then !last else inside
    }

    function Octets(inside: bool): (t: Text)
      requires Ok()
      ensures |t| > |data|
    {
      if Part? then ClientFrame(last, if inside then 0x0 else 0x2, mask, data)
      else ClientFrame(true, if pong then 0xa else 0x9, mask, data)
    }

    function Says(): Got {
      if Part? then Got(data, [], Open)
      else Got([], [Control(if pong then 0xa else 0x9, data)], Open)
    }
  }

  predicate AllOk(items: seq<Item>) {
    forall i :: 0 <= i < |items| ==> items[i].Ok()
  }

  // The first fragment of a message is a BINARY frame, the others are CONT.
  function Wire(items: seq<Item>, inside: bool): Text
    requires AllOk(items)
  {
    if items == [] then [] else items[0].Octets(inside) + Wire(items[1..], items[0].Within(inside))
  }

  function WithinAfter(items: seq<Item>, inside: bool): bool {
    if items == [] then inside else WithinAfter(items[1..], items[0].Within(inside))
  }

  function Sent(items: seq<Item>): Text {
    if items == [] then [] else (if items[0].Part? then items[0].data else []) + Sent(items[1..])
  }

  function Asides(items: seq<Item>): seq<Control> {
    if items == [] then []
    else
      var first := items[0];
      (if first.Part? then [] else [Control(if first.pong then 0xa else 0x9, first.data)]) + Asides(items[1..])
  }

  lemma ItemSays(item: Item, inside: bool, y: Text)
    requires item.Ok()
    ensures Deframe(item.Octets(inside) + y, inside, true) == Join(item.Says(), Deframe(y, item.Within(inside), true))
  {
    hide Deframe, ClientFrame, HeaderOf;
    if item.Part? {
      FrameSays(item.last, if inside then 0x0 else 0x2, item.mask, item.data, y, inside);
    } else {
      FrameSays(true, if item.pong then 0xa else 0x9, item.mask, item.data, y, inside);
    }
  }

  // However messages are cut and whatever stands between the fragments, the
  // payloads come out joined in order, and reading goes on behind them.
  lemma {:induction false} MessagesAreRead(items: seq<Item>, inside: bool, y: Text)
    requires AllOk(items)
    ensures Deframe(Wire(items, inside) + y, inside, true)
         == Join(Got(Sent(items), Asides(items), Open), Deframe(y, WithinAfter(items, inside), true))
    decreases |items|
  {
    hide Deframe, Item.Octets;
    if items == [] {
      assert Wire(items, inside) + y == y;
    } else {
      var first, rest := items[0], items[1..];
      var inside' := first.Within(inside);
      var o, w := first.Octets(inside), Wire(rest, inside');
      assert o + w + y == o + (w + y);
      ItemSays(first, inside, w + y);
      MessagesAreRead(rest, inside', y);
      JoinAssoc(first.Says(), Got(Sent(rest), Asides(rest), Open), Deframe(y, WithinAfter(rest, inside'), true));
    }
  }

  lemma NothingMore(inside: bool)
    ensures Deframe([], inside, true) == Nothing
  {
  }

  // The whole conversation, without or with a CLOSE at its end.
  lemma WholeIsRead(items: seq<Item>, mask: Text, reason: Text, y: Text)
    requires AllOk(items) && |mask| == 4 && |reason| <= 125 && |reason| != 1
    ensures Deframe(Wire(items, false), false, true) == Got(Sent(items), Asides(items), Open)
    ensures Deframe(Wire(items, false) + ClientFrame(true, 0x8, mask, reason) + y, false, true)
         == Got(Sent(items), Asides(items), ClosedBy(reason))
  {
    hide Deframe, Wire, ClientFrame;
    var w, c := Wire(items, false), ClientFrame(true, 0x8, mask, reason);
    MessagesAreRead(items, false, []);
    NothingMore(WithinAfter(items, false));
    assert w + [] == w;
    MessagesAreRead(items, false, c + y);
    FrameSays(true, 0x8, mask, reason, y, WithinAfter(items, false));
    assert w + c + y == w + (c + y);
  }

  // What may not come ends the conversation there: text with 1003; a new
  // message inside another, a fragment of none, a frame without a mask, a
  // reserved bit, with 1002.
  lemma WrongIsRefused(items: seq<Item>, fin: bool, opcode: byte, mask: Text, payload: Text, y: Text)
    requires AllOk(items) && Writable(opcode, |payload|) && |mask| == 4 && opcode < 8
    requires WithinAfter(items, false) ==> opcode != 0x0
    requires !WithinAfter(items, false) ==> opcode != 0x2
    ensures Deframe(Wire(items, false) + ClientFrame(fin, opcode, mask, payload) + y, false, true)
         == Got(Sent(items), Asides(items), Violation(if opcode == 0x1 then 1003 else 1002))
  {
    hide Deframe, Wire, ClientFrame;
    var w, c := Wire(items, false), ClientFrame(fin, opcode, mask, payload);
    MessagesAreRead(items, false, c + y);
    FrameSays(fin, opcode, mask, payload, y, WithinAfter(items, false));
    assert w + c + y == w + (c + y);
  }

  lemma UnmaskedIsRefused(items: seq<Item>, opcode: byte, length: nat, y: Text)
    requires AllOk(items) && Sendable(opcode, length)
    ensures Deframe(Wire(items, false) + BuildHeader(opcode, length).value + y, false, true)
         == Got(Sent(items), Asides(items), Violation(1002))
  {
    hide Deframe, Wire, BuildHeader;
    var w, h := Wire(items, false), BuildHeader(opcode, length).value;
    MessagesAreRead(items, false, h + y);
    BuiltHeader(opcode, length, []);
    assert h + [] == h;
    HeaderRead(h, y, WithinAfter(items, false), true);
    assert w + h + y == w + (h + y);
  }

  // ---- The reader of one connection ----

  // While a client writes items, its reader has not ended the stream and has
  // delivered the beginning of what was sent; with nothing left to read, all.
  lemma ClientIsHeard(i: I.Inbound, items: seq<Item>, more: Text)
    requires i.Valid() && AllOk(items) && i.wire + more == Wire(items, false)
    ensures !i.closing && i.got.data <= Sent(items) && i.got.controls <= Asides(items)
    ensures more == [] && i.raw == [] && !i.active && i.header == [] ==>
              i.got == Got(Sent(items), Asides(items), Open)
  {
    hide Deframe, Wire, Meaning, Masked, ParseHeader;
    WholeIsRead(items, [0, 0, 0, 0], [], []);
    var rest := Meaning(i.Now(), i.raw + more, true);
    assert Deframe(i.wire + more, false, true) == Join(i.got, rest);
    OnlyAtTheEnd(i.Now(), i.raw + more);
    if more == [] && i.raw == [] && !i.active && i.header == [] {
      NothingMore(i.fragmented);
      assert i.raw + more == [];
    }
  }

  lemma OnlyAtTheEnd(st: State, y: Text)
    requires StateOk(st)
    ensures st.Ended? ==> Meaning(st, y, true).end == st.end
    ensures st.Head? && st.header == [] && y == [] ==> Meaning(st, y, true) == Deframe([], st.fragmented, true)
  {
    hide Deframe;
    if st.Head? && st.header == [] && y == [] {
      assert st.header + y == [];
    }
  }
}
