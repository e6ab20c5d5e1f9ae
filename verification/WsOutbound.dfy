// Sending over a WebSocket: one data frame at a time survives partial sends,
// and control frames slip in between frames.
module WsOutbound {
  import opened Bytes
  import opened WsCodec
  import opened WsStream

  datatype Rc = Ok | Again | Error

  // Whatever a connection may take of size octets, or a failure.
  method Accepted(size: nat) returns (n: Option<nat>)
    ensures n.Some? ==> n.value <= size
  {
    n := *;
    if n.Some? && n.value > size {
      n := Some(0);
    }
  }

  // A control frame as websocket_queue_control builds it.
  function ControlFrame(opcode: byte, payload: Text): Text
    requires KnownOpcode(opcode) && |payload| <= MAX_CONTROL
  {
    BuildHeader(opcode, |payload|).value + payload
  }

  // Read back by the client, unmasked, a control frame is one control frame.
  lemma ControlFrameRead(opcode: byte, payload: Text, y: Text)
    requires (opcode == PONG || opcode == CLOSE) && |payload| <= MAX_CONTROL
    requires opcode == CLOSE ==> |payload| != 1
    ensures Deframe(ControlFrame(opcode, payload) + y, false, false)
         == if opcode == CLOSE then Got([], [], ClosedBy(payload))
            else Join(Got([], [Control(PONG, payload)], Open), Deframe(y, false, false))
  {
    hide ParseHeader, Deframe, Body, Octets;
    var h := BuildHeader(opcode, |payload|).value;
    BuiltHeader(opcode, |payload|, []);
    assert h + [] == h;
    var f := Frame(true, opcode, false, [], |payload|, |h|);
    assert ControlFrame(opcode, payload) + y == h + (payload + y);
    HeaderRead(h, payload + y, false, false);
    ControlBodySplit(f, |payload|, 0, [], payload, y, false, false);
    assert [] + payload == payload;
    BodyEnd(f, |payload|, payload, y, false, false);
  }

  // Octets of a frame whose first octet announces a PONG never close.
  lemma PongNeverCloses(y: Text, p: Text)
    requires y != [] && y[0] == 128 + PONG
    ensures Deframe(y, false, false) != Got([], [], ClosedBy(p))
  {
    if ParseHeader(y).Header? {
      var f := ParseHeader(y).frame;
      assert f.opcode == PONG;
    }
  }

  // A CLOSE put in the place of a PONG already begun is swallowed by it.
  lemma CloseInsidePong()
    ensures ControlFrame(PONG, []) == [138, 0] && ControlFrame(CLOSE, [3, 232]) == [136, 2, 3, 232]
    ensures Deframe([138] + ControlFrame(CLOSE, [3, 232]), false, false) == Nothing
  {
    var y := [138] + ControlFrame(CLOSE, [3, 232]);
    assert y == [138, 136, 2, 3, 232];
    assert ParseLength(y) == Length(2, 8);
  }

  lemma JoinCancels(g: Got, a: Got, b: Got)
    requires Join(g, a) == Join(g, b)
    ensures a == b
  {
    assert a.data == (g.data + a.data)[|g.data|..] && b.data == (g.data + b.data)[|g.data|..];
    assert a.controls == (g.controls + a.controls)[|g.controls|..];
    assert b.controls == (g.controls + b.controls)[|g.controls|..];
  }

  // The client reads on: octets of a header, or of a control frame.
  lemma HeadSent(wire: Text, got: Got, h: Text, bytes: Text)
    requires Faithful(wire, [], got, Head(h, false), false)
    ensures Faithful(wire + bytes, [], got, Head(h + bytes, false), false)
  {
    hide Faithful;
    FaithfulReceived(wire, [], got, Head(h, false), false, bytes);
    assert [] + bytes == bytes + [];
    HeadGrows(wire + bytes, [] + bytes, got, h, false, false, bytes, []);
  }

  // Octets of a payload.
  lemma PayloadSent(wire: Text, got: Got, st: State, bytes: Text)
    requires StateOk(st) && st.Inside? && IsData(st.frame) && !st.frame.masked && |bytes| <= st.remaining
    requires Faithful(wire, [], got, st, false)
    ensures Faithful(wire + bytes, [], Join(got, Got(bytes, [], Open)), AfterOctets(st, bytes), false)
  {
    hide Faithful;
    FaithfulReceived(wire, [], got, st, false, bytes);
    assert [] + bytes == bytes + [];
    InsideMoves(wire + bytes, [] + bytes, got, st, false, bytes, []);
  }

  // The last octet of a control frame.
  lemma ControlSent(wire: Text, got: Got, opcode: byte, payload: Text)
    requires (opcode == PONG || opcode == CLOSE) && |payload| <= MAX_CONTROL && (opcode == CLOSE ==> |payload| != 1)
    requires Faithful(wire, [], got, Head(ControlFrame(opcode, payload), false), false)
    ensures opcode == CLOSE ==> Faithful(wire, [], got, Ended(ClosedBy(payload)), false)
    ensures opcode == PONG ==>
              Faithful(wire, [], Join(got, Got([], [Control(PONG, payload)], Open)), Head([], false), false)
  {
    hide Deframe, ControlFrame;
    var h := ControlFrame(opcode, payload);
    forall x: Text
      ensures opcode == CLOSE ==>
                Meaning(Head(h, false), [] + x, false) == Join(Nothing, Meaning(Ended(ClosedBy(payload)), [] + x, false))
      ensures opcode == PONG ==>
                Meaning(Head(h, false), [] + x, false)
                == Join(Got([], [Control(PONG, payload)], Open), Meaning(Head([], false), [] + x, false))
    {
      ControlFrameRead(opcode, payload, [] + x);
      assert [] + ([] + x) == [] + x;
      JoinNothing(Meaning(Ended(ClosedBy(payload)), [] + x, false));
    }
    if opcode == CLOSE {
      FaithfulStep(wire, [], got, Head(h, false), false, [], Nothing, Ended(ClosedBy(payload)));
      assert Join(got, Nothing) == got;
    } else {
      FaithfulStep(wire, [], got, Head(h, false), false, [], Got([], [Control(PONG, payload)], Open), Head([], false));
    }
  }

  lemma EmptySilent()
    ensures Deframe([], false, false) == Nothing
  {
  }

  lemma NoBodyYet(st: State)
    requires StateOk(st) && st.Inside? && st.remaining > 0 && IsData(st.frame)
    ensures Meaning(st, [], false) == Nothing
  {
    assert Clear(st.frame, [], st.offset) == [];
  }

  // A header cut short says nothing.
  lemma HeaderPartSilent(h: Text, n: nat)
    requires ParseHeader(h).Header? && ParseHeader(h).frame.headerLen == |h| && n < |h|
    ensures Meaning(Head(h[..n], false), [], false) == Nothing
  {
    hide ParseLength;
    assert h == h[..n] + h[n..] && h[..n] + [] == h[..n];
    if !ParseHeader(h[..n]).NeedMore? {
      VerdictStands(h[..n], h[n..]);
      assert false;
    }
  }

  // So does a control frame cut short.
  lemma ControlPartSilent(opcode: byte, payload: Text, n: nat)
    requires (opcode == PONG || opcode == CLOSE) && |payload| <= MAX_CONTROL && (opcode == CLOSE ==> |payload| != 1)
    requires n < |ControlFrame(opcode, payload)|
    ensures Meaning(Head(ControlFrame(opcode, payload)[..n], false), [], false) == Nothing
  {
    hide ParseHeader, Octets, BuildHeader;
    var h := BuildHeader(opcode, |payload|).value;
    BuiltHeader(opcode, |payload|, []);
    assert h + [] == h;
    var all := ControlFrame(opcode, payload);
    if n < |h| {
      assert all[..n] == h[..n];
      HeaderPartSilent(h, n);
    } else {
      var y := payload[..n - |h|];
      assert all[..n] + [] == h + y;
      HeaderRead(h, y, false, false);
    }
  }

  class Outbound {
    var out: Text
    var outPos: nat
    var closeQueued: bool
    var header: Text
    var headerPos: nat
    var remaining: nat
    // The octets the connection took, those accounted for, what the client
    // can make of them, the frame being sent, the control frame in out.
    ghost var line: Text
    ghost var wire: Text
    ghost var got: Got
    ghost var frame: Frame
    ghost var opcode: byte
    ghost var reply: Text
    ghost var closeSent: bool

    // websocket_app_frame_pending.
    predicate FramePending()
      reads this`header, this`headerPos, this`remaining
    {
      headerPos < |header| || remaining != 0
    }

    // Where the client, reading along, stands.
    ghost function Reader(): State
      requires outPos <= |out| && headerPos <= |header| && (remaining > 0 ==> remaining <= frame.length)
      reads this
    {
      if closeSent then Ended(ClosedBy(reply))
      else if !FramePending() then Head(out[..outPos], false)
      else if headerPos < |header| then Head(header[..headerPos], false)
      else Inside(frame, remaining, frame.length - remaining, [], false)
    }

    ghost predicate InOut()
      reads this`out, this`outPos, this`opcode, this`reply, this`closeQueued, this`closeSent
    {
      && (closeSent ==> closeQueued && out == [])
      && if out == [] then outPos == 0
         else
           && outPos < |out| && (opcode == PONG || opcode == CLOSE) && |reply| <= MAX_CONTROL
           && (opcode == CLOSE ==> |reply| != 1) && (opcode == CLOSE <==> closeQueued)
           && out == ControlFrame(opcode, reply)
    }

    ghost predicate InFrame()
      reads this`header, this`headerPos, this`remaining, this`frame, this`outPos
    {
      && headerPos <= |header|
      && (!FramePending() ==> header == [])
      && (FramePending() ==>
            && outPos == 0 && remaining <= frame.length < MAX_LENGTH
            && header == BuildHeader(BINARY, frame.length).value
            && frame == Frame(true, BINARY, false, [], frame.length, |header|)
            && (headerPos < |header| ==> remaining == frame.length))
    }

    ghost predicate Shape()
      reads this
    {
      InOut() && InFrame() && got.end == Open && (closeSent ==> !FramePending())
    }

    // Whole frames, then at most one begun: read by the client, the wire says
    // exactly what was reported as sent and the PONGs between frames.
    ghost predicate Valid()
      reads this
    {
      Shape() && Faithful(wire, [], got, Reader(), false)
    }

    // Every octet the connection took has been accounted for.
    ghost predicate Told()
      reads this`line, this`wire
    {
      line == wire
    }

    // The connection takes some of the octets, or fails.
    method Transmit(bytes: Text) returns (n: Option<nat>)
      modifies this`line
      ensures n.Some? ==> n.value <= |bytes|
      ensures line == if n.Some? then old(line) + bytes[..n.value] else old(line)
    {
      n := Accepted(|bytes|);
      line := if n.Some? then line + bytes[..n.value] else line;
    }

    constructor ()
      ensures Valid() && Told() && line == [] && got == Nothing && !closeQueued
    {
      hide Faithful, Deframe;
      out, header := [], [];
      outPos, headerPos, remaining := 0, 0, 0;
      closeQueued, closeSent := false, false;
      line, wire, reply := [], [], [];
      got := Nothing;
      opcode := PONG;
      frame := Frame(true, BINARY, false, [], 0, 0);
      new;
      assert out[..outPos] == [];
      FaithfulStart(wire, [], false);
    }

    // The client reads exactly what was reported as sent, whatever part of a
    // frame is still missing.
    lemma ReadExactly()
      requires Valid() && Told()
      ensures Deframe(line, false, false)
           == Got(got.data, got.controls, if closeSent then ClosedBy(reply) else Open)
    {
      hide Deframe, ParseHeader, BuildHeader, ControlFrame;
      var nothing: Text := [];
      assert wire + nothing == wire && [] + nothing == nothing;
      assert Deframe(wire + nothing, false, false) == Join(got, Meaning(Reader(), [] + nothing, false));
      if closeSent {
        return;
      }
      if FramePending() {
        if headerPos == |header| {
          NoBodyYet(Reader());
        } else {
          BuiltHeader(BINARY, frame.length, []);
          assert header + [] == header;
          HeaderPartSilent(header, headerPos);
        }
      } else if out != [] {
        ControlPartSilent(opcode, reply, outPos);
      } else {
        assert out[..outPos] + nothing == nothing;
        EmptySilent();
      }
      assert Meaning(Reader(), [], false) == Nothing;
    }

    // websocket_flush_out: never into the middle of a data frame.
    method FlushOut() returns (rc: Rc)
      requires Shape() && Told()
      modifies this`out, this`outPos, this`line, this`wire, this`got, this`closeSent
      ensures Shape() && Told() && (old(Valid()) ==> Valid())
      ensures got.data == old(got.data)
      ensures rc == Ok ==> out == [] || FramePending()
    {
      hide Faithful, Deframe, ControlFrame, BuildHeader;
      if out == [] {
        return Ok;
      }
      if FramePending() {
        return Ok;
      }
      while outPos < |out|
        invariant Shape() && Told() && out == old(out) && !FramePending() && got == old(got) && closeSent == old(closeSent)
        invariant old(Valid()) ==> Valid()
        decreases |out| - outPos
      {
        var n := Transmit(out[outPos..]);
        if n.None? {
          return Error;
        }
        if n.value == 0 {
          return Again;
        }
        assert out[outPos..][..n.value] == out[outPos..outPos + n.value];
        var finished := Push(n.value);
        if finished {
          return Ok;
        }
      }
      return Ok;
    }

    // n more octets of the control frame are out.
    method Push(n: nat) returns (finished: bool)
      requires Shape() && !FramePending() && 0 < n <= |out| - outPos
      requires line == wire + out[outPos..outPos + n]
      modifies this`out, this`outPos, this`wire, this`got, this`closeSent
      ensures Shape() && Told() && (old(Valid()) ==> Valid()) && got.data == old(got.data)
      ensures if finished then out == [] else out == old(out) && outPos > old(outPos) && got == old(got)
      ensures !finished ==> closeSent == old(closeSent)
    {
      hide Faithful, Deframe, ControlFrame, BuildHeader;
      ghost var bytes := out[outPos..outPos + n];
      assert out[..outPos] + bytes == out[..outPos + n];
      if Valid() {
        HeadSent(wire, got, out[..outPos], bytes);
      }
      ghost var was := Valid();
      wire := wire + bytes;
      outPos := outPos + n;
      if outPos < |out| {
        return false;
      }
      assert out[..outPos] == out;
      if was {
        ControlSent(wire, got, opcode, reply);
      }
      if opcode == CLOSE {
        closeSent := true;
      } else {
        got := Join(got, Got([], [Control(PONG, reply)], Open));
      }
      out, outPos := [], 0;
      assert out[..outPos] == [];
      return true;
    }

    // websocket_queue_control up to the point where it may flush.  A PONG
    // begun keeps its place against a later PONG; CLOSE takes the place of
    // whatever waits, which keeps the framing exactly when nothing of it is
    // on the wire.
    method Enqueue(op: byte, payload: Text)
      requires Valid() && (op == PONG || op == CLOSE) && |payload| <= MAX_CONTROL && (op == CLOSE ==> |payload| != 1)
      modifies this`out, this`outPos, this`closeQueued, this`opcode, this`reply
      ensures Shape() && wire == old(wire) && got == old(got)
      ensures Valid() <==> !(op == CLOSE && !old(closeQueued) && old(outPos) > 0)
      ensures out == if old(closeQueued) || (op == PONG && old(outPos) > 0) then old(out) else ControlFrame(op, payload)
      ensures op == CLOSE ==> closeQueued
    {
      hide Faithful, Deframe, ControlFrame, BuildHeader;
      if closeQueued || (op == PONG && out != [] && outPos > 0) {
        return;
      }
      ghost var begun := if outPos > 0 then out[..outPos] else [];
      if op == CLOSE {
        closeQueued := true;
      }
      Begins(out, opcode, reply);
      Begins(ControlFrame(op, payload), op, payload);
      out := ControlFrame(op, payload);
      outPos := 0;
      opcode, reply := op, payload;
      assert out[..outPos] == [];
      if begun != [] {
        CloseLost(wire, got, begun, payload);
      }
    }

    lemma Begins(o: Text, op: byte, p: Text)
      requires o != [] ==> (op == PONG || op == CLOSE) && |p| <= MAX_CONTROL && o == ControlFrame(op, p)
      ensures o != [] ==> |o| >= 2 && o[0] == 128 + op
      ensures op == PONG || op == CLOSE ==> |p| <= MAX_CONTROL ==> ControlFrame(op, p) != []
    {
    }

    // websocket_queue_control.
    method QueueControl(op: byte, payload: Text, ready: bool) returns (rc: Rc)
      requires Valid() && Told()
      requires (op == PONG || op == CLOSE) && |payload| <= MAX_CONTROL && (op == CLOSE ==> |payload| != 1)
      modifies this`out, this`outPos, this`closeQueued, this`opcode, this`reply
      modifies this`line, this`wire, this`got, this`closeSent
      ensures Shape() && Told() && got.data == old(got.data)
      ensures !(op == CLOSE && !old(closeQueued) && old(outPos) > 0) ==> Valid()
    {
      hide Faithful, Deframe, ControlFrame, BuildHeader;
      Enqueue(op, payload);
      rc := Ok;
      if ready && !FramePending() {
        var flushed := FlushOut();
        if flushed == Error {
          rc := Error;
        }
      }
    }

    // A new data frame, announced but not yet begun.
    method BuildFrame(frameSize: nat) returns (ok: bool)
      requires Valid() && !FramePending() && out == [] && !closeSent
      modifies this`header, this`headerPos, this`remaining, this`frame
      ensures Valid() && ok == (frameSize < MAX_LENGTH)
      ensures ok ==> FramePending() && headerPos == 0 && remaining == frameSize
    {
      hide Faithful, Deframe, Octets;
      if frameSize >= MAX_LENGTH {
        return false;
      }
      assert out[..outPos] == [];
      header := BuildHeader(BINARY, frameSize).value;
      headerPos := 0;
      remaining := frameSize;
      frame := Frame(true, BINARY, false, [], frameSize, |header|);
      assert header[..headerPos] == [];
      return true;
    }

    // n more octets of the frame header are out.
    method HeaderOut(n: nat)
      requires Valid() && FramePending() && n <= |header| - headerPos && !closeSent
      modifies this`headerPos, this`wire
      ensures headerPos == old(headerPos) + n && wire == old(wire) + header[old(headerPos)..headerPos]
      ensures InOut() && got.end == Open
      ensures Faithful(wire, [], got, if headerPos < |header| then Head(header[..headerPos], false)
                                      else Inside(frame, remaining, frame.length - remaining, [], false), false)
    {
      hide Faithful, Deframe, Octets, ParseHeader, BuildHeader, ControlFrame;
      ghost var bytes := header[headerPos..headerPos + n];
      assert header[..headerPos] + bytes == header[..headerPos + n];
      if headerPos < |header| {
        HeadSent(wire, got, header[..headerPos], bytes);
        if headerPos + n == |header| {
          assert header[..headerPos + n] == header && header + [] == header;
          BuiltHeader(BINARY, frame.length, []);
          HeadDone(wire + bytes, [], got, header, false, false);
        }
      } else {
        assert wire + bytes == wire;
      }
      wire := wire + bytes;
      headerPos := headerPos + n;
    }

    // The payload octets the connection took; the frame may be complete.
    method PayloadOut(ghost bytes: Text, n: nat)
      requires InOut() && got.end == Open
      requires headerPos == |header| && header != [] && n == |bytes| <= remaining && !closeSent
      requires outPos == 0 && remaining <= frame.length < MAX_LENGTH
      requires header == BuildHeader(BINARY, frame.length).value
      requires frame == Frame(true, BINARY, false, [], frame.length, |header|)
      requires Faithful(wire, [], got, Inside(frame, remaining, frame.length - remaining, [], false), false)
      modifies this`header, this`headerPos, this`remaining, this`wire, this`got
      ensures Valid() && wire == old(wire) + bytes && got.data == old(got.data) + bytes
      ensures remaining == old(remaining) - n
    {
      hide Faithful, Deframe, Octets, ParseHeader, BuildHeader, ControlFrame;
      ghost var st := Inside(frame, remaining, frame.length - remaining, [], false);
      PayloadSent(wire, got, st, bytes);
      wire := wire + bytes;
      got := Join(got, Got(bytes, [], Open));
      remaining := remaining - n;
      if remaining == 0 {
        InsideEnds(wire, [], got, AfterOctets(st, bytes), false);
        assert Join(got, Nothing) == got;
        header, headerPos := [], 0;
        assert out[..outPos] == [];
      }
    }

    // How n octets taken by send_chain divide: header, first part, second.
    // A header that fits the headroom goes out in one piece with the first.
    method Divide(n: nat, headroom: nat, firstSize: nat, secondSize: nat) returns (h: nat, a: nat, b: nat)
      requires headerPos <= |header| && n <= |header| - headerPos + firstSize + secondSize
      ensures h <= |header| - headerPos && a <= firstSize && b <= secondSize && h + a + b == n
      ensures h < |header| - headerPos ==> a == b == 0
      ensures a < firstSize ==> b == 0
    {
      var headerSize := |header| - headerPos;
      if firstSize == 0 || headerSize > headroom {
        headerSize := 0;
      }
      if headerSize > 0 {
        var merged := if n < headerSize + firstSize then n else headerSize + firstSize;
        if merged < headerSize {
          h, a := merged, 0;
        } else {
          h, a := headerSize, merged - headerSize;
        }
        b := n - merged;
      } else {
        h := if n < |header| - headerPos then n else |header| - headerPos;
        a := if n - h < firstSize then n - h else firstSize;
        b := n - h - a;
      }
    }

    // websocket_send_parts.
    method SendParts(first: Text, headroom: nat, second: Text, frameSize: nat, ready: bool)
      returns (rc: Rc, firstSent: nat, secondSent: nat)
      requires Valid() && Told()
      modifies this
      ensures Valid() && Told() && firstSent <= |first| && secondSent <= |second|
      ensures got.data == old(got.data) + first[..firstSent] + second[..secondSent]
      ensures firstSent < |first| ==> secondSent == 0
      ensures closeQueued == old(closeQueued)
    {
      hide Faithful, Deframe, BuildHeader, ControlFrame;
      rc, firstSent, secondSent := Again, 0, 0;
      var flushed := FlushOut();
      if flushed != Ok {
        rc := flushed;
        return;
      }
      if closeQueued {
        return;
      }
      if header == [] && remaining == 0 {
        var built := BuildFrame(frameSize);
        if !built {
          rc := Error;
          return;
        }
      }
      rc, firstSent, secondSent := SendChain(first, headroom, second);
      if rc != Error && header == [] && out != [] && ready {
        flushed := FlushOut();
        if flushed == Error {
          rc := Error;
        }
      }
    }

    // send_chain: what is left of the header, then the parts, as far as the
    // connection takes them.
    method SendOut(first: Text, headroom: nat, second: Text, firstSize: nat, secondSize: nat)
      returns (n: Option<nat>, h: nat, a: nat, b: nat)
      requires headerPos <= |header| && firstSize <= |first| && secondSize <= |second|
      modifies this`line
      ensures n.None? ==> line == old(line)
      ensures n.Some? ==>
                && h <= |header| - headerPos && a <= firstSize && b <= secondSize && h + a + b == n.value
                && (h < |header| - headerPos ==> a == b == 0) && (a < firstSize ==> b == 0)
                && line == old(line) + header[headerPos..headerPos + h] + (first[..a] + second[..b])
    {
      h, a, b := 0, 0, 0;
      var x, y, z := header[headerPos..], first[..firstSize], second[..secondSize];
      n := Transmit(x + y + z);
      if n.Some? {
        h, a, b := Divide(n.value, headroom, firstSize, secondSize);
        InThree(x, y, z, h, a, b);
        Parts(first, second, firstSize, secondSize, h, a, b);
      }
    }

    lemma Parts(first: Text, second: Text, m: nat, n: nat, h: nat, a: nat, b: nat)
      requires headerPos + h <= |header| && a <= m <= |first| && b <= n <= |second|
      ensures header[headerPos..][..h] == header[headerPos..headerPos + h]
      ensures first[..m][..a] == first[..a] && second[..n][..b] == second[..b]
    {
    }

    // The part of websocket_send_parts with a frame under way.
    method SendChain(first: Text, headroom: nat, second: Text) returns (rc: Rc, firstSent: nat, secondSent: nat)
      requires Valid() && Told() && FramePending() && !closeSent
      modifies this`header, this`headerPos, this`remaining, this`line, this`wire, this`got
      ensures Valid() && Told() && firstSent <= |first| && secondSent <= |second|
      ensures got.data == old(got.data) + first[..firstSent] + second[..secondSent]
      ensures firstSent < |first| ==> secondSent == 0
    {
      hide Faithful, Deframe, BuildHeader, ControlFrame;
      var firstSize := if |first| > remaining then remaining else |first|;
      var secondSize := 0;
      if firstSize == |first| {
        secondSize := if remaining - firstSize > |second| then |second| else remaining - firstSize;
      }
      var total := |header| - headerPos + firstSize + secondSize;
      if total == 0 {
        return Again, 0, 0;
      }
      var n, h;
      n, h, firstSent, secondSent := SendOut(first, headroom, second, firstSize, secondSize);
      if n.None? {
        return Error, 0, 0;
      }
      ghost var bytes := first[..firstSent] + second[..secondSent];
      HeaderOut(h);
      if headerPos == |header| {
        PayloadOut(bytes, firstSent + secondSent);
      }
      rc := if n.value < total && firstSent + secondSent == 0 then Again else Ok;
    }
  }

  lemma InThree(x: Text, y: Text, z: Text, h: nat, a: nat, b: nat)
    requires h <= |x| && a <= |y| && b <= |z|
    requires (h < |x| ==> a == b == 0) && (a < |y| ==> b == 0)
    ensures (x + y + z)[..h + a + b] == x[..h] + (y[..a] + z[..b])
  {
  }

  // With part of a PONG out, the client cannot be at a frame boundary.
  lemma CloseLost(wire: Text, got: Got, begun: Text, payload: Text)
    requires begun != [] && begun[0] == 128 + PONG && |payload| <= MAX_CONTROL && |payload| != 1
    requires Faithful(wire, [], got, Head(begun, false), false)
    ensures !Faithful(wire, [], got, Head([], false), false)
  {
    hide Deframe, ControlFrame;
    if Faithful(wire, [], got, Head([], false), false) {
      var x := ControlFrame(CLOSE, payload);
      assert Deframe(wire + x, false, false) == Join(got, Meaning(Head(begun, false), [] + x, false));
      assert Deframe(wire + x, false, false) == Join(got, Meaning(Head([], false), [] + x, false));
      JoinCancels(got, Meaning(Head(begun, false), [] + x, false), Meaning(Head([], false), [] + x, false));
      assert [] + ([] + x) == x + [];
      ControlFrameRead(CLOSE, payload, []);
      PongNeverCloses(begun + ([] + x), payload);
      assert false;
    }
  }
}
