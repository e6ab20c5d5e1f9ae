// client_recv over a WebSocket: an incremental deframer that hands out the
// application octets of masked client frames.
module WsInbound {
  import opened Bytes
  import opened WsCodec
  import opened WsStream

  const RAW_SIZE: nat := 4096
  const MAX_FRAMES: nat := 32

  datatype Received = Again | Gone | Data(bytes: Text)

  // NGX_AGAIN, the end of the connection or an error, or octets delivered.
  datatype Result = Wait | Lost | Delivered(n: nat)

  class Inbound {
    var raw: Text
    var header: Text
    var frame: Frame
    var active: bool
    var remaining: nat
    var offset: nat
    var fragmented: bool
    var control: Text
    var closing: bool
    // All octets received, all that came out of them, and how it ended.
    ghost var wire: Text
    ghost var got: Got
    ghost var end: End

    ghost function Now(): State
      reads this`header, this`frame, this`active, this`remaining, this`offset
      reads this`fragmented, this`control, this`closing, this`end
    {
      if closing then Ended(end)
      else if active then Inside(frame, remaining, offset, control, fragmented)
      else Head(header, fragmented)
    }

    // Between any two steps what was delivered is what the wire says so far.
    ghost predicate Sound()
      reads this
    {
      && |raw| <= RAW_SIZE
      && (active ==> |frame.mask| == 4 && frame.masked)
      && (active && !IsData(frame) ==> |control| + remaining == frame.length <= MAX_CONTROL)
      && Faithful(wire, raw, got, Now(), true)
    }

    ghost predicate Valid()
      reads this
    {
      && Sound()
      && (closing ==> end != Open)
      && (active ==> !closing && remaining > 0)
      && (!active && !closing ==> ParseHeader(header).NeedMore?)
    }

    constructor ()
      ensures Valid() && wire == [] && got == Nothing && !closing
    {
      hide Faithful, Deframe;
      raw, header, control := [], [], [];
      frame := Frame(false, CONT, false, [], 0, 0);
      active, fragmented, closing := false, false, false;
      remaining, offset := 0, 0;
      wire := [];
      got := Nothing;
      end := Open;
      new;
      FaithfulStart(wire, raw, true);
    }

    // However recv split the stream: what was delivered begins the unmasked
    // payloads in order, and after a violation or CLOSE it is all there is.
    lemma DeliveredInOrder(more: Text)
      requires Valid()
      ensures got.data <= Deframe(wire, false, true).data
      ensures closing ==> Deframe(wire + more, false, true) == Got(got.data, got.controls, end)
    {
      hide Faithful, Deframe, ParseHeader;
      FaithfulPrefix(wire, raw, got, Now(), true);
      if closing {
        NothingAfterEnd(wire, raw, got, Now(), true, more);
      }
    }

    // recv: whatever it returns when asked for n octets, wire is all of it so
    // far.
    method Recv(n: nat) returns (r: Received)
      modifies this`wire
      ensures r.Data? ==> 0 < |r.bytes| <= n
      ensures wire == if r.Data? then old(wire) + r.bytes else old(wire)
    {
      r := *;
      if r.Data? && !(0 < |r.bytes| <= n) {
        r := Again;
      }
      wire := if r.Data? then wire + r.bytes else wire;
    }

    // websocket_read_raw: through the raw buffer.
    method ReadRaw(size: nat) returns (r: Received)
      requires Sound() && size > 0
      modifies this`raw, this`wire
      ensures |raw| <= RAW_SIZE
      ensures r.Data? ==> 0 < |r.bytes| <= size && Faithful(wire, r.bytes + raw, got, Now(), true)
      ensures old(raw) != [] ==> r.Data? && r.bytes + raw == old(raw)
      ensures !r.Data? ==> Sound()
    {
      hide Faithful;
      if raw == [] {
        ghost var before := wire;
        r := Recv(RAW_SIZE);
        if !r.Data? {
          return;
        }
        FaithfulReceived(before, raw, got, Now(), true, r.bytes);
        assert raw + r.bytes == r.bytes;
        raw := r.bytes;
      }
      var n := if |raw| > size then size else |raw|;
      assert raw[..n] + raw[n..] == raw;
      r := Data(raw[..n]);
      raw := raw[n..];
    }

    // websocket_read_payload: from the raw buffer, or straight off the wire.
    method ReadPayload(dst: array<byte>, at: nat, size: nat) returns (r: Received)
      requires Sound() && size > 0 && at + size <= dst.Length
      modifies this`raw, this`wire, dst
      ensures |raw| <= RAW_SIZE
      ensures r.Data? ==> 0 < |r.bytes| <= size && Faithful(wire, r.bytes + raw, got, Now(), true)
      ensures r.Data? ==> dst[..] == old(dst[..at]) + r.bytes + old(dst[at + |r.bytes|..])
      ensures !r.Data? ==> Sound() && dst[..] == old(dst[..])
    {
      hide Faithful;
      if raw != [] {
        var n := if |raw| > size then size else |raw|;
        assert raw[..n] + raw[n..] == raw;
        r := Data(raw[..n]);
        raw := raw[n..];
      } else {
        ghost var before := wire;
        r := Recv(size);
        if !r.Data? {
          return;
        }
        FaithfulReceived(before, raw, got, Now(), true, r.bytes);
        assert raw + r.bytes == r.bytes + raw;
      }
      Copy(dst, at, r.bytes);
    }

    // websocket_fail: the stream has ended for the reader.
    method Fail(code: nat)
      modifies this`closing, this`active, this`end
      ensures closing && !active && end == Violation(code)
    {
      closing, active := true, false;
      end := Violation(code);
    }

    // websocket_handle_frame_end.
    method FrameEnd() returns (more: bool)
      requires Sound() && active && !closing && remaining == 0
      modifies this`active, this`fragmented, this`control, this`closing, this`header, this`got, this`end
      ensures Valid() && !active && more == !closing
      ensures got.data == old(got.data)
    {
      hide Faithful, Deframe;
      InsideEnds(wire, raw, got, Now(), true);
      got := Join(got, FrameOut(Now()));
      active := false;
      header := [];
      if IsData(frame) {
        fragmented := FragmentedAfter(frame, fragmented);
        return true;
      }
      if frame.opcode == CLOSE {
        closing := true;
        end := ClosedBy(control);
        return false;
      }
      control := [];
      return true;
    }

    // One chunk of a binary or continuation frame, unmasked in place.
    method DataChunk(dst: array<byte>, at: nat, size: nat, address: nat) returns (r: Received)
      requires Valid() && active && IsData(frame) && size > 0 && at + size <= dst.Length
      modifies this`raw, this`wire, this`remaining, this`offset, this`got, dst
      ensures Sound() && active && !closing && frame == old(frame)
      ensures r.Data? ==> 0 < |r.bytes| <= size && remaining == old(remaining) - |r.bytes|
      ensures r.Data? ==> got.data == old(got.data) + dst[at..at + |r.bytes|]
      ensures r.Data? ==> dst[..at] == old(dst[..at]) && dst[at + |r.bytes|..] == old(dst[at + |r.bytes|..])
      ensures !r.Data? ==> remaining == old(remaining) && got == old(got) && dst[..] == old(dst[..])
    {
      hide Faithful, Deframe, Masked, XorByte;
      var chunk := if size > remaining then remaining else size;
      r := ReadClear(dst, at, chunk, address);
      if !r.Data? {
        return;
      }
      var n := |r.bytes|;
      InsideMoves(wire, r.bytes + raw, got, Now(), true, r.bytes, raw);
      got := Join(got, OctetsOut(Now(), r.bytes));
      offset := offset + n;
      remaining := remaining - n;
    }

    // Octets of the payload into dst, the mask taken off where they are.
    method ReadClear(dst: array<byte>, at: nat, size: nat, address: nat) returns (r: Received)
      requires Sound() && active && size > 0 && at + size <= dst.Length
      modifies this`raw, this`wire, dst
      ensures |raw| <= RAW_SIZE
      ensures r.Data? ==> 0 < |r.bytes| <= size && Faithful(wire, r.bytes + raw, got, Now(), true)
      ensures r.Data? ==> dst[at..at + |r.bytes|] == Masked(r.bytes, frame.mask, offset)
      ensures r.Data? ==> dst[..at] == old(dst[..at]) && dst[at + |r.bytes|..] == old(dst[at + |r.bytes|..])
      ensures !r.Data? ==> Sound() && dst[..] == old(dst[..])
    {
      hide Faithful, Masked, Inbound.Now;
      r := ReadPayload(dst, at, size);
      if r.Data? {
        Framed(dst[..], old(dst[..]), at, r.bytes);
        Unmask(dst, at, |r.bytes|, address + at, frame.mask, offset);
      }
    }

    // One chunk of a control frame into ws_control.
    method ControlChunk() returns (r: Received)
      requires Valid() && active && !IsData(frame)
      modifies this`raw, this`wire, this`remaining, this`offset, this`control, this`got
      ensures Sound() && active && !closing && got.data == old(got.data)
      ensures if r.Data? then remaining < old(remaining) else remaining == old(remaining)
    {
      hide Faithful, Deframe, Masked, XorByte;
      r := ReadRaw(remaining);
      if !r.Data? {
        return;
      }
      InsideMoves(wire, r.bytes + raw, got, Now(), true, r.bytes, raw);
      got := Join(got, OctetsOut(Now(), r.bytes));
      control := control + Masked(r.bytes, frame.mask, offset);
      offset := offset + |r.bytes|;
      remaining := remaining - |r.bytes|;
    }

    // websocket_start_frame, the header octets being out of the way.
    method StartFrame(f: Frame) returns (more: bool)
      requires |raw| <= RAW_SIZE && !active && !closing
      requires ParseHeader(header) == Header(f) && f.headerLen == |header| && Faithful(wire, raw, got, Now(), true)
      modifies this`header, this`frame, this`active, this`remaining, this`offset, this`fragmented
      modifies this`control, this`closing, this`got, this`end
      ensures Valid() && more == !closing && got.data == old(got.data)
      ensures active ==> !closing && remaining > 0
    {
      hide Faithful, Deframe, ParseLength;
      HeadDone(wire, raw, got, header, fragmented, true);
      header := [];
      frame := f;
      var refused := Refused(f, fragmented, true);
      if refused.Some? {
        Fail(refused.value);
        return false;
      }
      active := true;
      remaining := f.length;
      offset := 0;
      control := [];
      if remaining == 0 {
        more := FrameEnd();
        return;
      }
      return true;
    }

    // In the header loop ws_header never holds more than one header.
    ghost predicate InHeader()
      reads this
    {
      && Sound() && !active && !closing
      && (ParseHeader(header).Header? ==> ParseHeader(header).frame.headerLen == |header|)
      && |header| <= MAX_HEADER_LEN
    }

    // The header loop, until a frame has started or the stream has ended.
    method NextFrame() returns (r: Received)
      requires Valid() && !active && !closing
      modifies this
      ensures Valid() && got.data == old(got.data)
      ensures r.Data? ==> !closing
    {
      hide Faithful, ParseHeader;
      NeedMoreIsShort(header);
      while true
        invariant InHeader() && got.data == old(got.data)
        decreases MAX_HEADER_LEN - |header|
      {
        var settled;
        settled, r := HeaderTurn();
        if settled {
          return if closing then Again else Data([]);
        }
        if !r.Data? {
          return;
        }
      }
    }

    // One turn: parse where the octets are, in the raw buffer or in ws_header.
    method HeaderTurn() returns (settled: bool, r: Received)
      requires InHeader()
      modifies this
      ensures got.data == old(got.data)
      ensures settled || !r.Data? ==> Valid()
      ensures !settled && r.Data? ==> InHeader() && |header| > |old(header)|
    {
      hide Faithful, ParseHeader;
      var direct := header == [] && |raw| >= 2;
      var parsed := if direct then ParseHeader(raw) else ParseHeader(header);
      NeedMoreIsShort(if direct then raw else header);
      match parsed {
        case Header(f) =>
          if direct {
            TakeHeader(f.headerLen);
          }
          var more := StartFrame(f);
          return true, Again;
        case Bad =>
          ghost var seen := if direct then raw else header;
          assert header + raw == seen + (if direct then [] else raw);
          HeadBad(wire, raw, got, header, fragmented, true, seen);
          header := [];
          Fail(1002);
          return true, Again;
        case NeedMore(needed) =>
          r := MoreHeader(needed, direct);
          return false, r;
      }
    }

    // The header is read in place.
    method TakeHeader(n: nat)
      requires InHeader() && header == [] && ParseHeader(raw).Header? && n == ParseHeader(raw).frame.headerLen
      modifies this`raw, this`header
      ensures |raw| <= RAW_SIZE && Faithful(wire, raw, got, Now(), true)
      ensures ParseHeader(header) == old(ParseHeader(raw)) && |header| == n
    {
      hide Faithful, ParseLength;
      HeaderExact(raw);
      assert raw == raw[..n] + raw[n..] && header + raw[..n] == raw[..n];
      HeadGrows(wire, raw, got, header, fragmented, true, raw[..n], raw[n..]);
      header := raw[..n];
      raw := raw[n..];
    }

    // What the header still needs goes to ws_header.
    method MoreHeader(needed: nat, ghost direct: bool) returns (r: Received)
      requires InHeader() && ParseHeader(if direct then raw else header) == NeedMore(needed)
      requires direct ==> header == [] && raw != []
      modifies this`raw, this`header, this`wire
      ensures if r.Data? then InHeader() && |header| > |old(header)| else Valid()
    {
      hide Faithful, ParseLength, Big;
      ghost var h := header;
      r := ReadRaw(needed - |header|);
      if r.Data? {
        HeadGrows(wire, r.bytes + raw, got, header, fragmented, true, r.bytes, raw);
        if direct {
          assert h + r.bytes == r.bytes;
          NeedMoreBefore(r.bytes, raw);
        } else {
          NeededExact(h, r.bytes);
        }
        header := header + r.bytes;
      }
    }

    // ngx_stream_trojan_client_recv.
    method ClientRecv(dst: array<byte>, at: nat, size: nat, address: nat) returns (r: Result)
      requires Valid() && at + size <= dst.Length
      modifies this, dst
      ensures Valid()
      ensures r.Delivered? ==> 0 < r.n <= size && got.data == old(got.data) + dst[at..at + r.n]
      ensures !r.Delivered? ==> got.data == old(got.data)
      ensures dst[..at] == old(dst[..at])
      ensures old(closing) ==> closing && r == Wait
    {
      hide Faithful, ParseHeader, Inbound.Valid, Inbound.Sound;
      if closing || size == 0 {
        return Wait;
      }
      var produced: nat, frames: nat := 0, 0;
      while produced < size
        invariant Valid() && !closing && produced <= size && frames < MAX_FRAMES
        invariant got.data == old(got.data) + dst[at..at + produced] && dst[..at] == old(dst[..at])
        decreases MAX_FRAMES - frames, if active then 0 else 1, if active then remaining else 0
      {
        var out, n := OneTurn(dst, at, produced, size, address);
        produced := produced + n;
        if out.Gone? && produced == 0 {
          return Lost;
        }
        if !out.Data? {
          return if produced > 0 then Delivered(produced) else Wait;
        }
        if !active {
          frames := frames + 1;
          if frames == MAX_FRAMES {
            return if produced > 0 then Delivered(produced) else Wait;
          }
        }
      }
      return Delivered(produced);
    }

    // What the state calls for: data, a control frame, or the next header.
    method OneTurn(dst: array<byte>, at: nat, produced: nat, size: nat, address: nat) returns (out: Received, n: nat)
      requires Valid() && !closing && produced < size && at + size <= dst.Length
      modifies this, dst
      ensures Valid() && produced + n <= size
      ensures got.data == old(got.data) + dst[at + produced..at + produced + n]
      ensures dst[at..at + produced + n] == old(dst[at..at + produced]) + dst[at + produced..at + produced + n]
      ensures dst[..at] == old(dst[..at])
      ensures out.Data? ==> !closing && (old(active) && active ==> remaining < old(remaining))
    {
      hide Faithful, ParseHeader, Inbound.Valid, Inbound.Sound;
      ghost var before := dst[..];
      n := 0;
      if active && IsData(frame) {
        out, n := DataTurn(dst, at + produced, size - produced, address);
      } else if active {
        out := ControlTurn();
      } else {
        out := NextFrame();
      }
      ghost var now := dst[..];
      assert now[..at + produced] == dst[..at + produced] && before[..at + produced] == old(dst[..at + produced]);
      Extended(now, before, at, produced, n);
    }

    // A data chunk and, with the last one, the end of its frame.
    method DataTurn(dst: array<byte>, at: nat, size: nat, address: nat) returns (out: Received, n: nat)
      requires Valid() && active && IsData(frame) && size > 0 && at + size <= dst.Length
      modifies this, dst
      ensures Valid() && n <= size && got.data == old(got.data) + dst[at..at + n]
      ensures dst[..at] == old(dst[..at])
      ensures out.Data? ==> !closing && (active ==> remaining < old(remaining))
    {
      hide Faithful, ParseHeader;
      n := 0;
      out := DataChunk(dst, at, size, address);
      if out.Data? {
        n := |out.bytes|;
        if remaining == 0 {
          var more := FrameEnd();
          if !more {
            out := Again;
          }
        }
      }
    }

    method ControlTurn() returns (out: Received)
      requires Valid() && active && !IsData(frame)
      modifies this
      ensures Valid() && got.data == old(got.data)
      ensures out.Data? ==> !closing && (active ==> remaining < old(remaining))
    {
      hide Faithful, ParseHeader;
      out := ControlChunk();
      if out.Data? && remaining == 0 {
        var more := FrameEnd();
        if !more {
          out := Again;
        }
      }
    }
  }

  lemma NeedMoreIsShort(h: Text)
    ensures ParseHeader(h).NeedMore? ==> |h| < ParseHeader(h).needed <= MAX_HEADER_LEN
    ensures ParseHeader(h).Header? ==> ParseHeader(h).frame.headerLen <= |h|
  {
  }

  method Copy(dst: array<byte>, at: nat, bytes: Text)
    requires at + |bytes| <= dst.Length
    modifies dst
    ensures dst[..] == old(dst[..at]) + bytes + old(dst[at + |bytes|..])
  {
    forall k | at <= k < at + |bytes| {
      dst[k] := bytes[k - at];
    }
  }

  method Unmask(dst: array<byte>, at: nat, n: nat, address: nat, mask: Text, offset: nat)
    requires at + n <= dst.Length && |mask| == 4
    modifies dst
    ensures dst[at..at + n] == Masked(old(dst[at..at + n]), mask, offset)
    ensures dst[..at] == old(dst[..at]) && dst[at + n..] == old(dst[at + n..])
  {
    hide Masked;
    ghost var before, part := dst[..], Masked(dst[at..at + n], mask, offset);
    ApplyMask(dst, at, n, address, mask, offset);
    assert before[..at] == old(dst[..at]) && before[at + n..] == old(dst[at + n..]);
    Framed(dst[..], before, at, part);
  }

  // The octets delivered before, and those just added.
  lemma Extended(now: Text, before: Text, at: nat, m: nat, n: nat)
    requires |now| == |before| && at + m + n <= |now| && now[..at + m] == before[..at + m]
    ensures now[at..at + m + n] == before[at..at + m] + now[at + m..at + m + n]
    ensures now[..at] == before[..at]
  {
    assert now[at..at + m] == now[..at + m][at..] && before[at..at + m] == before[..at + m][at..];
    assert now[..at] == now[..at + m][..at] && before[..at] == before[..at + m][..at];
  }

  lemma Framed(now: Text, before: Text, at: nat, part: Text)
    requires at + |part| <= |before| && now == before[..at] + part + before[at + |part|..]
    ensures now[at..at + |part|] == part && now[..at] == before[..at] && now[at + |part|..] == before[at + |part|..]
  {
  }
}
