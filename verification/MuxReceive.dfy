// Receiving on one smux session: frames from the client, the three ways a
// payload can take, the shared token bucket, and the upstream sockets.
module MuxReceive {
  import opened Bytes
  import opened MuxFrames
  import opened MuxStream
  import MuxWindow

  datatype Rc = Ok | Again | Busy | Done | Error

  datatype Received = Nothing | Closed | Data(bytes: Text)

  // Whatever recv may return when asked for n octets.
  method ClientRecv(n: nat) returns (r: Received)
    ensures r.Data? ==> 0 < |r.bytes| <= n
  {
    r := *;
    if r.Data? && !(0 < |r.bytes| <= n) {
      r := Nothing;
    }
  }

  const MAX_STREAMS: nat := 64

  // ---- The token bucket over all streams ----

  ghost function Sum(m: map<nat, nat>): nat {
    if m == map[] then 0 else
      var k :| k in m;
      m[k] + Sum(m - {k})
  }

  lemma {:induction false} SumWithout(m: map<nat, nat>, k: nat)
    requires k in m
    ensures Sum(m) == m[k] + Sum(m - {k})
    decreases |m|
  {
    var p :| p in m && Sum(m) == m[p] + Sum(m - {p});
    if p != k {
      SumWithout(m - {p}, k);
      SumWithout(m - {k}, p);
      assert m - {p} - {k} == m - {k} - {p};
    }
  }

  lemma SumSet(m: map<nat, nat>, k: nat, v: nat)
    ensures Sum(m[k := v]) == v + Sum(m - {k})
  {
    SumWithout(m[k := v], k);
    assert m[k := v] - {k} == m - {k};
  }

  lemma Assoc(a: Text, b: Text, c: Text)
    ensures a + b + c == a + (b + c)
  {
  }

  // A stream that keeps h octets and was brought the line, with unfed octets
  // of it elsewhere.  An
  // accepted frame finds the header complete; one read straight into the
  // buffer has its room there and nothing queued before it.
  ghost predicate Fed(s: Stream, v2: bool, h: nat, line: Text, unfed: Text, accepted: bool, direct: bool, left: int)
    reads s
  {
    && s.Ok() && h == s.Held() && s.Counts(v2)
    && (s.state != Closing ==>
          && s.wire == line && s.Line(unfed)
          && (accepted ==> s.state != Request)
          && (direct ==> s.pending == [] && s.RoomLeft() >= left))
  }

  class Session {
    const bufferSize: nat
    const payload: array<byte>
    var tokens: nat
    var streams: map<nat, Stream>
    var version: byte
    var header: Text
    var frame: Option<Header>
    var payloadRead: nat
    var feedPos: nat
    var payloadStream: Stream?
    var direct: bool
    var acceptChecked: bool
    var blocked: bool
    var deferred: bool
    // Octets kept for each stream; everything recv returned, the part before
    // the current frame, and its payload; what each stream was brought, and
    // how long the log was when it was born.
    ghost var held: map<nat, nat>
    ghost var log: Text
    ghost var done: Text
    ghost var body: Text
    ghost var lines: map<nat, Text>
    ghost var born: map<nat, nat>

    // recv on the client connection.
    method Recv(n: nat) returns (r: Received)
      modifies this`log
      ensures r.Data? ==> 0 < |r.bytes| <= n
      ensures log == if r.Data? then old(log) + r.bytes else old(log)
    {
      r := ClientRecv(n);
      log := if r.Data? then log + r.bytes else log;
    }

    // mux_take_recv_tokens.
    method Take(n: nat)
      modifies this`tokens
      ensures tokens == if n <= old(tokens) then old(tokens) - n else 0
    {
      if tokens > n {
        tokens := tokens - n;
      } else {
        tokens := 0;
      }
    }

    // The token part of mux_return_recv_tokens and of both recycle functions.
    method Return(n: nat)
      requires n <= MAX_TOKENS
      modifies this`tokens
      ensures tokens == if old(tokens) + n <= MAX_TOKENS then old(tokens) + n else MAX_TOKENS
    {
      if tokens > MAX_TOKENS - n {
        tokens := MAX_TOKENS;
      } else {
        tokens := tokens + n;
      }
    }

    // mux_stream_can_accept.
    method CanAccept(s: Stream, len: nat) returns (rc: Rc)
      requires s.Ok() && s.state != Request
      modifies s`buffer
      ensures s.Ok() && s.Unread() == old(s.Unread()) && s.Held() == old(s.Held()) && s.Payload() == old(s.Payload())
      ensures old(s.Line([])) ==> s.Line([])
      ensures rc == Ok || rc == Again || rc == Error
      ensures rc == Ok && len > 0 && s.state != Closing ==> tokens >= len && s.RoomLeft() >= len && s.buffer.Some?
      ensures rc == Error ==> len > MAX_STREAM_BUFFER
    {
      hide Rest, RequestNeeded;
      if len == 0 || s.state == Closing {
        return Ok;
      }
      if len > MAX_STREAM_BUFFER {
        return Error;
      }
      if tokens < len {
        return Again;
      }
      var enough := s.EnsureBuffer(len, bufferSize);
      if s.buffer.value.Room() >= len {
        return Ok;
      }
      s.Compact();
      return if s.buffer.value.Room() < len then Again else Ok;
    }

    // mux_queue_pending_frame.
    method QueuePending(s: Stream, data: Text) returns (rc: Rc)
      requires s.Ok() && s.state != Request
      modifies this`tokens, s`pending
      ensures s.Ok() && (rc == Ok || rc == Again)
      ensures rc == Ok && s.state != Closing ==>
                s.Payload() == old(s.Payload()) + data && tokens + s.Held() == old(tokens + s.Held())
      ensures rc == Ok && s.state == Closing ==> s.pending == old(s.pending) && tokens == old(tokens)
      ensures rc == Again ==> s.pending == old(s.pending) && tokens == old(tokens) && tokens < |data|
    {
      hide Rest;
      if data == [] || s.state == Closing {
        return Ok;
      }
      if tokens < |data| {
        return Again;
      }
      var rest := data;
      while rest != []
        invariant s.Ok() && Rest(s.pending) + rest == old(Rest(s.pending)) + data
        invariant tokens == old(tokens) - |data| + |rest|
        decreases |rest|
      {
        rest := QueueSome(s, rest);
      }
      Assoc(s.sent + s.Unread(), old(Rest(s.pending)), data);
      return Ok;
    }

    // One turn: fill the last frame, or a new one.
    method QueueSome(s: Stream, data: Text) returns (rest: Text)
      requires s.Ok() && s.state != Request && data != [] && tokens >= |data|
      modifies this`tokens, s`pending
      ensures s.Ok() && |rest| < |data| && tokens == old(tokens) - |data| + |rest|
      ensures Rest(s.pending) + rest == old(Rest(s.pending)) + data
    {
      hide Rest;
      if s.TailRoom() == 0 {
        s.NewFrame(|data|, bufferSize);
      }
      var n := if s.TailRoom() < |data| then s.TailRoom() else |data|;
      assert data == data[..n] + data[n..];
      s.ExtendTail(data[..n]);
      Take(n);
      rest := data[n..];
    }

    // mux_append_client_data.
    method AppendData(s: Stream, data: Text) returns (rc: Rc)
      requires s.Ok() && s.state != Request
      modifies this`tokens, s`buffer, s`pending
      ensures s.Ok() && (rc == Ok || rc == Again || rc == Error)
      ensures rc == Ok && s.state != Closing ==> s.Payload() == old(s.Payload()) + data
      ensures rc != Ok ==> s.Payload() == old(s.Payload())
      ensures tokens + s.Held() == old(tokens + s.Held())
      ensures rc == Again ==> tokens < |data|
      ensures rc == Error ==> |data| > MAX_STREAM_BUFFER
    {
      hide Rest;
      if data == [] || s.state == Closing {
        return Ok;
      }
      if s.pending != [] {
        rc := QueuePending(s, data);
        return;
      }
      rc := CanAccept(s, |data|);
      if rc == Again && tokens >= |data| {
        rc := QueuePending(s, data);
        return;
      }
      if rc != Ok {
        return;
      }
      ghost var before := s.Unread();
      s.Fill(data);
      Take(|data|);
      FilledAtEnd(s, before, data);
    }

    // With no frame waiting, the end of the buffer is the end of the line.
    lemma FilledAtEnd(s: Stream, before: Text, data: Text)
      requires s.Ok() && s.pending == [] && s.Unread() == before + data
      ensures s.Payload() == s.sent + before + [] + data
      ensures s.Held() == |before| + |data|
    {
    }

    // The send loop: octets leave the buffer in order, tokens come back.
    method SendBuffer(s: Stream, budget: nat) returns (rc: Rc, left: nat)
      requires s.Ok() && s.state == Proxy && s.buffer.Some? && tokens + |s.Unread()| <= MAX_TOKENS
      requires s.Counts(version == 2)
      modifies this`tokens, s`buffer, s`sent, s`rxConsumed
      ensures s.Counts(version == 2)
      ensures s.Ok() && s.buffer.Some? && s.sent + s.Unread() == old(s.sent + s.Unread())
      ensures |old(s.sent)| <= |s.sent| && tokens + |s.Unread()| == old(tokens + |s.Unread()|)
      ensures tokens >= old(tokens)
      ensures s.RoomLeft() >= old(s.RoomLeft())
      ensures rc == Ok || rc == Again || rc == Busy || rc == Error
      ensures rc == Ok ==> s.Unread() == []
    {
      left := budget;
      while s.buffer.value.pos < |s.buffer.value.bytes|
        invariant s.Ok() && s.buffer.Some? && s.sent + s.Unread() == old(s.sent + s.Unread())
        invariant |old(s.sent)| <= |s.sent| && tokens >= old(tokens)
        invariant tokens + |s.Unread()| == old(tokens + |s.Unread()|) && s.Counts(version == 2)
        invariant s.RoomLeft() >= old(s.RoomLeft())
        decreases |s.Unread()|
      {
        if left == 0 {
          return Busy, left;
        }
        var r := SendSome(s, left);
        match r {
          case NotNow => return Again, left;
          case Broken => return Error, left;
          case Took(n) => left := left - n;
        }
      }
      return Ok, left;
    }

    // One send: as much of the buffer as the budget allows.
    method SendSome(s: Stream, left: nat) returns (r: Taken)
      requires s.Ok() && s.state == Proxy && s.buffer.Some? && tokens + |s.Unread()| <= MAX_TOKENS
      requires s.Counts(version == 2) && left > 0 && s.Unread() != []
      modifies this`tokens, s`buffer, s`sent, s`rxConsumed
      ensures s.Counts(version == 2) && s.Ok() && s.buffer.Some?
      ensures s.sent + s.Unread() == old(s.sent + s.Unread()) && |old(s.sent)| <= |s.sent|
      ensures tokens + |s.Unread()| == old(tokens + |s.Unread()|) && tokens >= old(tokens)
      ensures s.RoomLeft() >= old(s.RoomLeft())
      ensures r.Took? ==> 0 < r.n <= left && |s.Unread()| == |old(s.Unread())| - r.n
    {
      var pos := s.buffer.value.pos;
      var unread := |s.buffer.value.bytes| - pos;
      var size := if unread > left then left else unread;
      ghost var before := s.sent;
      assert s.buffer.value.bytes[pos..pos + size] == s.Unread()[..size];
      r := s.Send(s.buffer.value.bytes[pos..pos + size]);
      if r.Took? {
        s.Advance(r.n, before);
        Return(r.n);
        s.Count(r.n, version == 2, |s.request| + |before|);
      }
    }

    // mux_flush_to_upstream: the write side is shut down after FIN exactly
    // when nothing is left anywhere, provided there ever was a buffer.
    method FlushToUpstream(s: Stream, budget: nat) returns (rc: Rc, left: nat)
      requires s.Ok() && s.state == Proxy && tokens + s.Held() <= MAX_TOKENS
      requires s.Counts(version == 2)
      modifies this`tokens, s`buffer, s`sent, s`rxConsumed, s`writeShutdown
      ensures s.Counts(version == 2)
      ensures s.Ok() && s.Payload() == old(s.Payload()) && |old(s.sent)| <= |s.sent|
      ensures tokens + s.Held() == old(tokens + s.Held()) && tokens >= old(tokens)
      ensures s.RoomLeft() >= old(s.RoomLeft())
      ensures s.writeShutdown && !old(s.writeShutdown) ==>
                s.clientFin && s.Unread() == [] && s.pending == [] && s.sent == s.Payload()
      ensures s.writeShutdown == (old(s.writeShutdown)
                                  || (rc == Ok && old(s.buffer).Some? && s.clientFin && s.pending == []))
      ensures old(s.buffer).None? ==> rc == Ok && s.buffer.None? && s.sent == old(s.sent)
      ensures rc == Ok ==> s.Unread() == []
      ensures rc == Ok || rc == Again || rc == Busy || rc == Error
    {
      hide Rest, Stream.Counts, Stream.Payload, Stream.Held;
      ghost var line := s.sent + s.Unread();
      Parts(s, line);
      if s.buffer.None? {
        return Ok, budget;
      }
      rc, left := SendBuffer(s, budget);
      Parts(s, line);
      if rc == Ok {
        FinishFlush(s);
      }
    }

    // A client that sends a request and FIN but no payload: the flush finds
    // nothing to do, everything is sent, and the write side stays open.
    method FinWithoutPayload(id: nat, budget: nat) returns (s: Stream, rc: Rc)
      ensures s.Sound() && s.state == Proxy && s.clientFin && s.buffer.None? && s.pending == []
      ensures rc == Ok && s.sent == s.Payload() == [] && !s.writeShutdown
      modifies this`tokens
    {
      s := new Stream(id);
      s.state, s.clientFin := Proxy, true;
      tokens := MAX_TOKENS;
      var left;
      rc, left := FlushToUpstream(s, budget);
    }

    // The end of mux_flush_to_upstream: reset, and perhaps shut down.
    method FinishFlush(s: Stream)
      requires s.Ok() && s.state == Proxy && s.buffer.Some? && s.Unread() == []
      modifies s`buffer, s`writeShutdown
      ensures s.Ok() && s.Unread() == [] && s.Payload() == old(s.Payload()) && s.Held() == old(s.Held())
      ensures s.RoomLeft() >= old(s.RoomLeft())
      ensures s.writeShutdown && !old(s.writeShutdown) ==>
                s.clientFin && s.pending == [] && s.sent == s.Payload()
      ensures s.writeShutdown == (old(s.writeShutdown) || (s.clientFin && s.pending == []))
    {
      hide Rest, Stream.Counts, Stream.Payload, Stream.Held, Stream.Unread, Stream.RoomLeft;
      Parts(s, s.sent + []);
      s.ResetBuffer();
      Parts(s, s.sent + []);
      if s.clientFin && !s.writeShutdown && s.pending == [] {
        s.writeShutdown := true;
        AllSent(s);
      }
    }

    lemma Parts(s: Stream, line: Text)
      requires s.Sound() && s.sent + s.Unread() == line
      ensures s.Payload() == line + Rest(s.pending) && s.Held() == |s.Unread()| + |Rest(s.pending)|
    {
    }

    lemma AllSent(s: Stream)
      requires s.Ok() && s.Unread() == [] && s.pending == []
      ensures s.sent == s.Payload()
    {
    }

    // With everything sent nothing is buffered.
    lemma NothingLeft(s: Stream)
      requires s.Ok() && |s.sent| == |s.Payload()|
      ensures s.sent == s.Payload() && s.Unread() == [] && Rest(s.pending) == []
    {
    }

    // mux_process_stream: flush and drain until neither moves.
    method ProcessStream(s: Stream, budget: nat) returns (rc: Rc, left: nat)
      requires s.Ok() && tokens + s.Held() <= MAX_TOKENS
      requires s.Counts(version == 2)
      modifies this`tokens, s`state, s`clientFin, s`buffer, s`pending, s`sent, s`rxConsumed, s`writeShutdown
      ensures s.Counts(version == 2)
      ensures s.Ok() && s.Payload() == old(s.Payload()) && |old(s.sent)| <= |s.sent|
      ensures tokens + s.Held() == old(tokens + s.Held()) && tokens >= old(tokens)
      ensures s.state == old(s.state) || s.state == Closing
      ensures old(s.state) == Request ==> s.state == Request
      ensures old(s.pending) == [] ==> s.pending == [] && s.RoomLeft() >= old(s.RoomLeft())
      ensures s.writeShutdown && !old(s.writeShutdown) ==> s.sent == s.Payload()
    {
      hide Rest, Stream.Counts, Stream.Payload, Stream.Held, Stream.RoomLeft, Stream.Unread;
      left := budget;
      if s.state != Proxy {
        return Ok, left;
      }
      var drained := true;
      while drained
        invariant s.Counts(version == 2)
        invariant s.Ok() && s.state == Proxy && s.Payload() == old(s.Payload()) && |old(s.sent)| <= |s.sent|
        invariant tokens + s.Held() == old(tokens + s.Held()) && tokens >= old(tokens)
        invariant old(s.pending) == [] ==> s.pending == [] && s.RoomLeft() >= old(s.RoomLeft())
        invariant s.writeShutdown && !old(s.writeShutdown) ==> |s.sent| == |s.Payload()|
        decreases |Rest(s.pending)|, drained
      {
        var more;
        rc, left, more := FlushAndDrain(s, left);
        if rc == Error {
          CloseStream(s);
        }
        if s.writeShutdown && !old(s.writeShutdown) {
          NothingLeft(s);
        }
        if rc != Ok {
          return;
        }
        drained := more;
      }
      if s.writeShutdown && !old(s.writeShutdown) {
        NothingLeft(s);
      }
      return Ok, left;
    }

    // One turn of the loop in mux_process_stream.
    method FlushAndDrain(s: Stream, budget: nat) returns (rc: Rc, left: nat, drained: bool)
      requires s.Ok() && s.state == Proxy && tokens + s.Held() <= MAX_TOKENS
      requires s.Counts(version == 2)
      modifies this`tokens, s`buffer, s`pending, s`sent, s`rxConsumed, s`writeShutdown
      ensures s.Counts(version == 2)
      ensures s.Ok() && s.Payload() == old(s.Payload()) && |old(s.sent)| <= |s.sent|
      ensures tokens + s.Held() == old(tokens + s.Held()) && tokens >= old(tokens)
      ensures old(s.pending) == [] ==> s.pending == [] && s.RoomLeft() >= old(s.RoomLeft())
      ensures s.writeShutdown && !old(s.writeShutdown) ==> |s.sent| == |s.Payload()|
      ensures |Rest(s.pending)| <= |old(Rest(s.pending))| && |s.sent| <= |s.Payload()|
      ensures drained ==> |Rest(s.pending)| < |old(Rest(s.pending))|
    {
      hide Rest;
      rc, left := FlushToUpstream(s, budget);
      if rc == Error || rc == Busy {
        return rc, left, false;
      }
      if rc == Again {
        return Ok, left, false;
      }
      var ok;
      Assoc(s.sent, s.Unread(), Rest(s.pending));
      ok, drained := s.Drain(bufferSize);
      Assoc(s.sent, s.Unread(), Rest(s.pending));
      if !ok {
        return Error, left, drained;
      }
    }

    // mux_close_stream, as far as the receive side goes.
    method CloseStream(s: Stream)
      modifies s`state, s`clientFin
      ensures s.state == Closing && s.clientFin
    {
      s.state := Closing;
      s.clientFin := true;
    }

    // mux_start_stream: refused, resolving or connecting, or connected at once.
    method StartStream(s: Stream)
      modifies s`state, s`clientFin
      ensures s.state != Request
    {
      var outcome: State := *;
      if outcome == Opening || outcome == Proxy {
        s.state := outcome;
      } else {
        CloseStream(s);
      }
    }

    // The part of a frame kept for mux_feed_stream and not yet fed.
    ghost function Unfed(): Text
      reads this`payloadStream, this`payloadRead, this`feedPos, this`direct, this`deferred, payload
    {
      if feedPos <= payloadRead <= payload.Length && payloadStream != null && !direct && !deferred
      then payload[feedPos..payloadRead] else []
    }

    // mux_feed_stream: complete the request header, then append the rest.
    method FeedStream(s: Stream, len: nat) returns (rc: Rc)
      requires s.Ok() && tokens + s.Held() <= MAX_TOKENS
      requires feedPos <= len <= payload.Length
      requires s.state != Closing ==> s.Line(payload[feedPos..len])
      requires s.Counts(version == 2)
      modifies this`tokens, this`feedPos, s`state, s`clientFin, s`request, s`rxConsumed, s`buffer, s`pending
      ensures s.Counts(version == 2)
      ensures s.Ok() && tokens + s.Held() == old(tokens + s.Held())
      ensures feedPos <= len && (rc == Ok || rc == Again || rc == Error)
      ensures s.state != Closing ==> s.Line(if rc == Ok then [] else payload[feedPos..len])
      ensures rc == Again ==> tokens < len - feedPos
      ensures old(s.state) == Closing ==> s.state == Closing
    {
      hide RequestNeeded, Rest, Stream.Counts, Stream.Payload, Stream.Held;
      var pos := feedPos;
      while pos < len
        invariant s.Counts(version == 2)
        invariant feedPos == pos <= len && s.Ok() && tokens + s.Held() == old(tokens + s.Held())
        invariant s.state != Closing ==> s.Line(payload[pos..len])
        invariant old(s.state) == Closing ==> s.state == Closing
        decreases len - pos, s.state == Request
      {
        if s.state == Closing {
          return Ok;
        }
        if s.state == Request {
          var more;
          more, pos := TakeRequest(s, pos, len);
          if !more {
            return Ok;
          }
          StartStream(s);
          continue;
        }
        rc := FeedRest(s, pos, len);
        return;
      }
      return Ok;
    }

    // Past the header the rest of the frame is appended whole or not at all.
    method FeedRest(s: Stream, pos: nat, len: nat) returns (rc: Rc)
      requires s.Ok() && s.state != Request && s.state != Closing && pos <= len <= payload.Length
      requires s.Line(payload[pos..len])
      modifies this`tokens, s`buffer, s`pending
      ensures s.Ok() && tokens + s.Held() == old(tokens + s.Held())
      ensures rc == Ok || rc == Again || rc == Error
      ensures s.Line(if rc == Ok then [] else payload[pos..len])
      ensures rc == Again ==> tokens < len - pos
    {
      hide Rest, RequestNeeded;
      ghost var before := s.Payload();
      rc := AppendData(s, payload[pos..len]);
      if rc == Ok {
        Assoc(s.request, before, payload[pos..len]);
      }
    }

    method CopyRequest(s: Stream, pos: nat, n: nat, ghost len: nat)
      requires s.Ok() && s.state == Request && feedPos == pos && pos + n <= len <= payload.Length
      requires s.wire == s.request + s.Payload() + payload[pos..len]
      requires s.Counts(version == 2)
      modifies this`feedPos, s`request, s`rxConsumed
      ensures s.Counts(version == 2)
      ensures s.Ok() && feedPos == pos + n && s.request == old(s.request) + payload[pos..pos + n]
      ensures s.wire == s.request + s.Payload() + payload[pos + n..len]
    {
      assert payload[pos..len] == payload[pos..pos + n] + payload[pos + n..len];
      ghost var before := |s.request| + |s.sent|;
      s.request := s.request + payload[pos..pos + n];
      s.Count(n, version == 2, before);
      feedPos := feedPos + n;
    }

    // The inner loop: copy what the header still needs, octets it does not
    // need stay in the frame.
    method TakeRequest(s: Stream, from: nat, len: nat) returns (complete: bool, pos: nat)
      requires s.Ok() && s.state == Request && from == feedPos < len <= payload.Length
      requires s.Line(payload[from..len])
      requires s.Counts(version == 2)
      modifies this`feedPos, s`state, s`clientFin, s`request, s`rxConsumed
      ensures s.Counts(version == 2)
      ensures s.Ok() && feedPos == pos && from <= pos <= len
      ensures complete ==>
                && s.state == Request && RequestNeeded(s.request) == Complete(|s.request|)
                && s.wire == s.request + s.Payload() + payload[pos..len]
      ensures !complete ==> s.state == Closing || (s.state == Request && s.Line([]))
    {
      hide RequestNeeded, Rest, Stream.Counts, Stream.Payload, Stream.Unread;
      pos := from;
      var needed := RequestNeeded(s.request);
      while !needed.Complete?
        invariant s.Counts(version == 2)
        invariant from <= pos <= len && feedPos == pos && s.Ok() && s.state == Request
        invariant needed == RequestNeeded(s.request)
        invariant s.wire == s.request + s.Payload() + payload[pos..len]
        invariant needed.Complete? ==> needed.length == |s.request|
        decreases len - pos
      {
        if needed.Malformed? {
          CloseStream(s);
          return false, pos;
        }
        var n := needed.more - |s.request|;
        if n > len - pos {
          n := len - pos;
        }
        ghost var before, data := s.request, payload[pos..pos + n];
        CopyRequest(s, pos, n, len);
        pos := pos + n;
        if |s.request| < needed.more {
          StillNeeded(before, data);
          return false, pos;
        }
        NeededNeverOvershoots(before, data);
        needed := RequestNeeded(s.request);
      }
      return true, pos;
    }

    // ---- The invariant of every reachable state ----

    // Octets of the current frame still to come.
    ghost function Left(): int
      reads this`frame, this`payloadRead
    {
      if frame.None? then 0 else frame.value.length - payloadRead
    }

    ghost predicate Framed()
      reads this`version, this`header, this`streams, this`frame, this`payloadStream
      reads this`payloadRead, this`feedPos, this`direct, this`deferred, this`acceptChecked
    {
      && payload.Length == MAX_FRAME_SIZE && |header| <= HEADER_LEN
      && (version == 0 ==> streams == map[] && frame.None?)
      && (if frame.None? then payloadStream == null && payloadRead == feedPos == 0
          else
            && |header| == HEADER_LEN
            && feedPos <= payloadRead <= frame.value.length <= MAX_FRAME_SIZE)
      && (payloadStream != null ==>
            && For(frame.value, payloadStream.id)
            && payloadStream.id in streams && streams[payloadStream.id] == payloadStream)
      && (direct || deferred ==> payloadStream != null && feedPos == 0 && acceptChecked)
      && !(direct && deferred)
    }

    // Every token is either free or stands for one buffered octet.
    ghost predicate Counted()
      reads this`tokens, this`held, this`streams
    {
      tokens + Sum(held) == MAX_TOKENS && held.Keys == streams.Keys
    }

    // An accepted frame keeps its tokens until it is read.
    ghost predicate Funded()
      reads this`frame, this`payloadRead, this`direct, this`deferred, this`tokens
    {
      direct || deferred ==> tokens >= Left()
    }

    // All streams, or all but one, are in order; the one a frame is coming in
    // for still has the unfed part of that frame ahead of it.
    ghost predicate Apart(except: Stream?, h: map<nat, nat>, l: map<nat, Text>)
      requires Framed()
      reads this`version, this`header, this`streams, this`frame, this`payloadStream, this`acceptChecked
      reads this`payloadRead, this`feedPos, this`direct, this`deferred, payload, streams.Values
    {
      && h.Keys == l.Keys == streams.Keys && Others(except, payloadStream, h, l)
      && (payloadStream != null && payloadStream != except ==>
            Coming(payloadStream, h[payloadStream.id], l[payloadStream.id]))
    }

    ghost predicate Others(a: Stream?, b: Stream?, h: map<nat, nat>, l: map<nat, Text>)
      requires h.Keys == l.Keys == streams.Keys
      reads this`version, this`streams, set x | x in streams.Values && x != a && x != b
    {
      forall id {:trigger streams[id]} :: id in streams ==>
        && streams[id].id == id
        && (streams[id] != a && streams[id] != b ==> Idle(streams[id], h[id], l[id]))
    }

    lemma OthersOnce(s: Stream, h: map<nat, nat>, l: map<nat, Text>)
      requires h.Keys == l.Keys == streams.Keys
      ensures Others(s, s, h, l) <==> Others(s, null, h, l)
    {
      hide Idle;
    }

    ghost predicate Idle(s: Stream, h: nat, line: Text)
      reads this`version, s
    {
      Fed(s, version == 2, h, line, [], false, false, 0)
    }

    ghost predicate Coming(s: Stream, h: nat, line: Text)
      reads this`version, this`frame, this`payloadStream, this`payloadRead, this`feedPos, this`direct, this`deferred, payload, s
    {
      Fed(s, version == 2, h, line, Unfed(), direct || deferred, direct, Left())
    }

    // A frame for an open stream has found it.
    ghost predicate Chosen()
      reads this`frame, this`streams, this`payloadStream, streams.Values
    {
      frame.Some? && frame.value.command == Psh && frame.value.length > 0
      && frame.value.id in streams && payloadStream == null
      ==> streams[frame.value.id].state == Closing
    }

    ghost function LogNow(): Log
      reads this`done, this`header, this`frame, this`body
    {
      Log(done, header, frame, body)
    }

    // Every octet recv returned is accounted for, stream by stream.
    ghost predicate Heard()
      reads this`log, this`done, this`header, this`frame, this`body, this`payloadRead, this`lines, this`born
    {
      HeardUpTo(log, payloadRead)
    }

    ghost predicate HeardUpTo(l: Text, read: nat)
      reads this`done, this`header, this`frame, this`body, this`lines, this`born
    {
      l == LogNow().All() && |body| == read && Traced(LogNow(), lines, born)
    }

    ghost predicate Steady()
      reads this, payload, streams.Values
    {
      Framed() && Counted() && Funded() && Apart(null, held, lines) && Heard()
    }

    ghost predicate Valid()
      reads this, payload, streams.Values
    {
      Steady() && Chosen()
    }

    // What an event may use of the stream it is about.
    lemma Split(s: Stream)
      requires Steady() && s in streams.Values
      ensures Framed() && Funded() && Apart(s, held, lines) && Heard() && s.Ok()
      ensures s.id in streams && streams[s.id] == s && s.id in held && held[s.id] == s.Held() && s.id in lines
      ensures if s == payloadStream then Coming(s, s.Held(), lines[s.id]) else Idle(s, s.Held(), lines[s.id])
      ensures tokens + Sum(held) == MAX_TOKENS && held.Keys == streams.Keys
      ensures tokens + s.Held() <= MAX_TOKENS
    {
      hide Unfed, Left, Rest, RequestNeeded, Stream.Payload;
      SumWithout(held, s.id);
    }

    // After work on s alone, the books are brought up to date.
    ghost method Settle(s: Stream)
      requires Framed() && Funded() && s.id in held && Apart(s, held, lines) && Heard()
      requires s.id in streams && streams[s.id] == s && s.Ok() && s.id in lines
      requires if s == payloadStream then Coming(s, s.Held(), lines[s.id]) else Idle(s, s.Held(), lines[s.id])
      requires tokens + s.Held() + Sum(held) == MAX_TOKENS + held[s.id]
      modifies this`held
      ensures Steady()
    {
      hide Rest, RequestNeeded, Stream.Counts, Stream.Payload, Stream.Unread, Stream.Held, Stream.RoomLeft;
      hide Sum, Unfed, Left, Idle, Coming, Heard;
      ghost var h := held;
      SumWithout(h, s.id);
      Rebalanced(h, s.id, s.Held(), MAX_TOKENS - Sum(h), tokens);
      held := h[s.id := s.Held()];
    }

    constructor (bufferSize: nat)
      ensures Valid() && tokens == MAX_TOKENS && streams == map[] && log == [] && fresh(payload)
    {
      this.bufferSize := bufferSize;
      payload := new byte[MAX_FRAME_SIZE](_ => 0);
      tokens := MAX_TOKENS;
      streams := map[];
      version := 0;
      header := [];
      frame := None;
      payloadRead, feedPos := 0, 0;
      payloadStream := null;
      direct, acceptChecked, blocked, deferred := false, false, false, false;
      held := map[];
      log, done, body := [], [], [];
      lines, born := map[], map[];
    }

    // No client buffer is larger than its bound, and the bucket never lends
    // more than it holds.
    lemma Bounded(s: Stream)
      requires Valid() && s in streams.Values
      ensures s.Ok() && (s.buffer.Some? ==> s.buffer.value.size <= MAX_STREAM_BUFFER)
      ensures tokens + s.Held() <= MAX_TOKENS
    {
      Split(s);
    }

    ghost function Holdings(): map<nat, nat>
      requires forall id :: id in streams ==> streams[id].Sound()
      reads this`streams, streams.Values
    {
      map id | id in streams :: streams[id].Held()
    }

    // Free tokens and buffered octets of all streams make up the whole bucket.
    lemma NoTokenLost()
      requires Valid()
      ensures forall id :: id in streams ==> streams[id].Sound()
      ensures tokens + Sum(Holdings()) == MAX_TOKENS
    {
      hide Stream.Held, Unfed, Left, Stream.Line, Sum;
      forall id | id in streams
        ensures streams[id].Sound() && held[id] == streams[id].Held()
      {
        Split(streams[id]);
      }
      assert held == Holdings();
    }

    // An open stream past its header: sent, buffered and deferred octets, with
    // the unfed rest of the frame coming in, are the payload of its frames
    // after that header, in order; the header is where its own octets say.
    lemma PayloadInOrder(s: Stream) returns (payload: Text)
      requires Valid() && s in streams.Values && s.state != Closing
      ensures s.Ok() && s.id in born && born[s.id] <= |log|
      ensures payload == PayloadOf(s.id, log[born[s.id]..])
      ensures s.state == Request ==> payload == s.request + [] + if s == payloadStream then Unfed() else []
      ensures s.state != Request ==>
                && s.request <= payload && RequestNeeded(payload) == Complete(|s.request|)
                && payload[|s.request|..]
                   == s.sent + s.Unread() + Rest(s.pending) + if s == payloadStream then Unfed() else []
    {
      hide Rest, RequestNeeded, Stream.Unread, Unfed, Left, Sum, PayloadOf, Traced;
      Split(s);
      LineIsPayload(LogNow(), lines, born, s.id);
      payload := s.wire;
      var unfed := if s == payloadStream then Unfed() else [];
      if s.state == Request {
        NothingYet(s);
      } else {
        AfterHeader(s.wire, s.request, s.Payload(), unfed);
      }
    }

    lemma NothingYet(s: Stream)
      requires s.Ok() && s.state == Request
      ensures s.Payload() == []
    {
    }

    lemma AfterHeader(wire: Text, header: Text, payload: Text, unfed: Text)
      requires wire == header + payload + unfed && RequestNeeded(header) == Complete(|header|)
      ensures header <= wire && RequestNeeded(wire) == Complete(|header|) && wire[|header|..] == payload + unfed
    {
      Assoc(header, payload, unfed);
      HeaderIsPrefix(header, payload + unfed);
    }

    // The books after one stream and the bucket changed together.
    lemma Rebalanced(h: map<nat, nat>, id: nat, now: nat, before: int, after: nat)
      requires id in h && before + Sum(h) == MAX_TOKENS && after + now == before + h[id]
      ensures after + Sum(h[id := now]) == MAX_TOKENS
    {
      SumWithout(h, id);
      SumSet(h, id, now);
    }

    // ---- Events of the upstream side ----

    // A socket event or a queued turn: process one stream.
    method Process(s: Stream, budget: nat)
      requires Valid() && s in streams.Values
      modifies this`tokens, this`held, s`state, s`clientFin, s`buffer, s`pending, s`sent, s`rxConsumed, s`writeShutdown
      ensures Valid() && s.Ok()
      ensures s.Payload() == old(s.Payload()) && |old(s.sent)| <= |s.sent|
      ensures s.writeShutdown && !old(s.writeShutdown) ==> s.sent == s.Payload()
    {
      hide Others;
      hide Rest, RequestNeeded, Stream.Counts, Stream.Payload, Stream.Unread, Stream.Held, Stream.RoomLeft;
      hide Sum, Unfed, Left, Framed, Heard;
      Split(s);
      var rc, left := ProcessStream(s, budget);
      Settle(s);
    }

    // mux_init_proxy, once the upstream connection is up.
    method Connected(s: Stream, budget: nat)
      requires Valid() && s in streams.Values && s.state == Opening
      modifies this`tokens, this`held, s`state, s`clientFin, s`buffer, s`pending, s`sent, s`rxConsumed, s`writeShutdown
      ensures Valid() && s.Ok()
      ensures s.Payload() == old(s.Payload()) && |old(s.sent)| <= |s.sent|
      ensures s.writeShutdown && !old(s.writeShutdown) ==> s.sent == s.Payload()
    {
      hide Others;
      hide Rest, RequestNeeded, Stream.Counts, Stream.Payload, Stream.Unread, Stream.Held, Stream.RoomLeft;
      hide Sum, Unfed, Left, Framed, Heard;
      Split(s);
      s.state := Proxy;
      var rc, left := ProcessStream(s, budget);
      Settle(s);
    }

    // A failed connection, a timeout, a resolver error.
    method Fail(s: Stream)
      requires Valid() && s in streams.Values
      modifies this`held, s`state, s`clientFin
      ensures Valid() && s.state == Closing
    {
      hide Others;
      hide Rest, RequestNeeded, Stream.Counts, Stream.Payload, Stream.Unread, Stream.Held, Stream.RoomLeft;
      hide Sum, Unfed, Left, Framed, Heard;
      Split(s);
      CloseStream(s);
      Settle(s);
    }

    // mux_recycle_pending_frames counts what the frames still hold.
    method PendingOctets(fs: seq<Frame>) returns (n: nat)
      requires FramesOk(fs)
      ensures n == |Rest(fs)|
    {
      n := 0;
      var left := fs;
      while left != []
        invariant FramesOk(left) && n + |Rest(left)| == |Rest(fs)|
        decreases |left|
      {
        n := n + |left[0].bytes| - left[0].pos;
        left := left[1..];
      }
    }

    // Both recycle functions.
    method Recycle(s: Stream)
      requires s.Ok() && tokens + s.Held() <= MAX_TOKENS
      modifies this`tokens
      ensures tokens == old(tokens) + s.Held()
    {
      if s.buffer.Some? {
        Return(|s.buffer.value.bytes| - s.buffer.value.pos);
      }
      var n := PendingOctets(s.pending);
      Return(n);
    }

    // mux_cleanup_stream, once the client side of the stream is done.
    method Cleanup(s: Stream)
      requires Valid() && s in streams.Values && s.state == Closing
      modifies this`tokens, this`held, this`lines, this`born, this`streams, this`payloadStream, this`feedPos
      modifies this`direct, this`acceptChecked, this`blocked, this`deferred
      ensures Valid() && streams == old(streams) - {s.id}
      ensures s.Ok() && tokens == old(tokens) + s.Held()
    {
      hide Rest, RequestNeeded, Stream.Counts, Stream.Payload, Stream.Unread, Stream.Held, Stream.RoomLeft;
      hide Sum, Unfed, Left, Stream.Line, Fed, Heard;
      Split(s);
      Recycle(s);
      Forget(s);
    }

    // The stream leaves the table, and the frame coming in for it loses its
    // reader; its octets have been paid back.
    method Forget(s: Stream)
      requires Framed() && Funded() && s.id in held && s.id in streams && streams[s.id] == s
      requires Apart(s, held, lines) && Heard() && Chosen() && s.state == Closing
      requires tokens + Sum(held) == MAX_TOKENS + held[s.id]
      modifies this`held, this`lines, this`born, this`streams, this`payloadStream, this`feedPos
      modifies this`direct, this`acceptChecked, this`blocked, this`deferred
      ensures Valid() && streams == old(streams) - {s.id}
    {
      hide Sum, Idle, Coming, Heard, Others, Framed, Funded, Apart, Chosen;
      if payloadStream == s {
        Abandon(s);
      }
      Remove(s);
    }

    method Abandon(s: Stream)
      requires Framed() && s.id in streams && streams[s.id] == s
      requires Apart(s, held, lines) && s.state == Closing && payloadStream == s
      modifies this`payloadStream, this`feedPos, this`direct, this`acceptChecked, this`blocked, this`deferred
      ensures Framed() && Funded() && Apart(s, held, lines) && Chosen() && payloadStream != s
    {
      hide Sum, Idle, Coming, Others;
      OthersOnce(s, held, lines);
      payloadStream := null;
      direct, acceptChecked, blocked, deferred := false, false, false, false;
      feedPos := 0;
    }

    method Remove(s: Stream)
      requires Framed() && Funded() && s.id in held && s.id in streams && streams[s.id] == s
      requires Apart(s, held, lines) && Heard() && Chosen() && payloadStream != s
      requires tokens + Sum(held) == MAX_TOKENS + held[s.id]
      modifies this`held, this`lines, this`born, this`streams
      ensures Valid() && streams == old(streams) - {s.id}
    {
      hide Sum, Idle, Coming, Heard;
      SumWithout(held, s.id);
      held := held - {s.id};
      Unlist(s.id);
      streams := streams - {s.id};
    }

    ghost method Unlist(id: nat)
      requires Heard()
      modifies this`lines, this`born
      ensures Heard() && lines == old(lines) - {id}
    {
      hide Traced;
      Gone(LogNow(), lines, born, id);
      lines, born := lines - {id}, born - {id};
    }

    // ---- Reading one frame ----

    // mux_prepare_client_payload: straight into the buffer, behind the frames
    // already waiting, or not yet.  A frame is smaller than a buffer, so the
    // error of mux_stream_can_accept cannot come up.
    method PreparePayload(s: Stream, directAllowed: bool) returns (rc: Rc)
      requires Steady() && s in streams.Values && frame.Some? && For(frame.value, s.id)
      requires payloadRead == feedPos == 0 && !direct && !deferred
      requires payloadStream == null || payloadStream == s
      requires directAllowed ==> s.state != Request
      modifies this`held, this`payloadStream, this`direct, this`acceptChecked, this`blocked, this`deferred, s`buffer
      ensures Valid() && (rc == Ok || rc == Again)
      ensures rc == Ok && directAllowed && s.state != Closing && old(frame.value.length) > 0 ==>
                payloadStream == s && (direct || deferred)
    {
      hide Others;
      hide Rest, RequestNeeded, Stream.Counts, Stream.Payload, Stream.Unread, Stream.Held, Stream.RoomLeft, Stream.Line, Sum;
      hide Heard;
      Split(s);
      var len := frame.value.length;
      if len == 0 || s.state == Closing {
        return Ok;
      }
      OthersOnce(s, held, lines);
      payloadStream := s;
      rc := Ok;
      if directAllowed {
        rc := Accept(s, len);
      }
      Settle(s);
    }

    // The choice itself.
    method Accept(s: Stream, len: nat) returns (rc: Rc)
      requires frame.Some? && len == frame.value.length && 0 < len <= MAX_FRAME_SIZE
      requires s.Ok() && s.state != Request && s.state != Closing && s.Line([]) && !direct && !deferred
      modifies this`direct, this`acceptChecked, this`blocked, this`deferred, s`buffer
      ensures s.Ok() && s.Line([]) && s.Held() == old(s.Held())
      ensures rc == if direct || deferred then Ok else Again
      ensures !(direct && deferred) && (direct || deferred ==> tokens >= len && acceptChecked)
      ensures direct ==> s.pending == [] && s.RoomLeft() >= len
    {
      hide Rest, RequestNeeded, Stream.Counts, Stream.Payload, Stream.Unread, Stream.Held, Stream.Line;
      rc := if s.pending != [] then Again else Ok;
      if rc == Ok {
        rc := CanAccept(s, len);
      }
      if rc == Again {
        rc := Defer();
      } else {
        direct := true;
        acceptChecked := true;
      }
    }

    // Tokens for the whole frame, or the client has to wait.
    method Defer() returns (rc: Rc)
      requires frame.Some?
      modifies this`direct, this`acceptChecked, this`blocked, this`deferred
      ensures rc == if tokens < frame.value.length then Again else Ok
      ensures if rc == Ok then deferred && !direct && acceptChecked else deferred == old(deferred) && direct == old(direct)
    {
      if tokens < frame.value.length {
        blocked := true;
        return Again;
      }
      direct := false;
      deferred := true;
      acceptChecked := true;
      return Ok;
    }

    // A turn of the read loop with the frame going straight into the buffer,
    // which never fills up before the frame ends.
    method RecvDirect(s: Stream, remaining: nat) returns (stop: Option<Rc>, ghost data: Text)
      requires s.Ok() && s.state != Request && s.pending == [] && s.Line([])
      requires 0 < remaining <= MAX_FRAME_SIZE && s.RoomLeft() >= remaining && tokens >= remaining
      modifies this`log, this`tokens, this`payloadRead, this`blocked, s`buffer, s`wire
      ensures s.Ok() && s.Line([]) && tokens + s.Held() == old(tokens + s.Held())
      ensures log == old(log) + data && s.wire == old(s.wire) + data && payloadRead == old(payloadRead) + |data|
      ensures |data| <= remaining && s.RoomLeft() >= remaining - |data| && tokens >= remaining - |data|
      ensures if stop.None? then payloadRead > old(payloadRead) else stop == Some(Ok) || stop == Some(Done)
    {
      hide Rest, RequestNeeded;
      var enough := s.EnsureBuffer(remaining, bufferSize);
      if !enough {
        assert false;
      }
      // Where mux_read_client_payload compacts a full buffer and may stop: room
      // for the whole frame was made sure of when it was accepted.
      if s.buffer.value.Room() == 0 {
        assert false;
      }
      var available := s.buffer.value.Room();
      if available > remaining {
        available := remaining;
      }
      blocked := false;
      data := [];
      var r := Recv(available);
      match r {
        case Nothing => stop := Some(Ok);
        case Closed => stop := Some(Done);
        case Data(bytes) =>
          data := bytes;
          s.TakeDirect(bytes);
          Take(|bytes|);
          payloadRead := payloadRead + |bytes|;
          stop := None;
      }
    }

    method ReadDirect(s: Stream) returns (stop: Option<Rc>)
      requires Valid() && direct && s == payloadStream && s.state != Closing && payloadRead < frame.value.length
      modifies this`log, this`body, this`lines, this`tokens, this`held, this`payloadRead, this`blocked
      modifies s`buffer, s`wire
      ensures Valid() && payloadRead >= old(payloadRead)
      ensures if stop.None? then payloadRead > old(payloadRead) else stop == Some(Ok) || stop == Some(Done)
    {
      hide Others;
      hide Rest, RequestNeeded, Stream.Counts, Stream.Payload, Stream.Unread, Stream.Held, Stream.RoomLeft, Stream.Line, Sum;
      hide HeardUpTo;
      Split(s);
      ghost var before, data := log, [];
      stop, data := RecvDirect(s, frame.value.length - payloadRead);
      Arrive(before, old(payloadRead), data);
      OthersAlike(s, old(lines));
      Settle(s);
    }

    // A turn of mux_read_deferred_payload: the tokens are there, so it never
    // stops for want of them.
    method RecvDeferred(s: Stream, remaining: nat) returns (stop: Option<Rc>, ghost data: Text)
      requires s.Ok() && s.state != Request && s.Line([])
      requires 0 < remaining <= MAX_FRAME_SIZE && tokens >= remaining
      modifies this`log, this`tokens, this`payloadRead, this`blocked, s`pending, s`wire
      ensures s.Ok() && s.Line([]) && tokens + s.Held() == old(tokens + s.Held())
      ensures log == old(log) + data && s.wire == old(s.wire) + data && payloadRead == old(payloadRead) + |data|
      ensures |data| <= remaining && tokens >= remaining - |data|
      ensures if stop.None? then payloadRead > old(payloadRead) else stop == Some(Ok) || stop == Some(Done)
    {
      hide Rest, RequestNeeded, Stream.Payload, Stream.Line;
      // Where mux_read_deferred_payload stops for want of tokens: those for the
      // whole frame were there when it was accepted.
      if tokens == 0 {
        assert false;
      }
      if s.TailRoom() == 0 {
        s.NewFrame(remaining, bufferSize);
      }
      var available := if s.TailRoom() > remaining then remaining else s.TailRoom();
      if available > tokens || available == 0 {
        assert false;
      }
      blocked := false;
      data := [];
      var r := Recv(available);
      match r {
        case Nothing => stop := Some(Ok);
        case Closed => stop := Some(Done);
        case Data(bytes) =>
          data := bytes;
          s.TakeDeferred(bytes);
          Take(|bytes|);
          payloadRead := payloadRead + |bytes|;
          stop := None;
      }
    }

    method ReadDeferred(s: Stream) returns (stop: Option<Rc>)
      requires Valid() && deferred && s == payloadStream && s.state != Closing && payloadRead < frame.value.length
      modifies this`log, this`body, this`lines, this`tokens, this`held, this`payloadRead, this`blocked
      modifies s`pending, s`wire
      ensures Valid() && payloadRead >= old(payloadRead)
      ensures if stop.None? then payloadRead > old(payloadRead) else stop == Some(Ok) || stop == Some(Done)
    {
      hide Others;
      hide Rest, RequestNeeded, Stream.Counts, Stream.Payload, Stream.Unread, Stream.Held, Stream.RoomLeft, Stream.Line, Sum;
      hide HeardUpTo;
      Split(s);
      ghost var before, data := log, [];
      stop, data := RecvDeferred(s, frame.value.length - payloadRead);
      Arrive(before, old(payloadRead), data);
      OthersAlike(s, old(lines));
      Settle(s);
    }

    // A turn of the read loop into mux_payload.
    method RecvPlain(remaining: nat) returns (stop: Option<Rc>, ghost data: Text)
      requires remaining > 0 && payload.Length >= payloadRead + remaining
      modifies this`log, this`payloadRead, this`blocked, payload
      ensures log == old(log) + data
      ensures payloadRead == old(payloadRead) + |data| <= old(payloadRead) + remaining
      ensures payload[..old(payloadRead)] == old(payload[..payloadRead])
      ensures payload[old(payloadRead)..payloadRead] == data
      ensures if stop.None? then data != [] else data == [] && (stop == Some(Ok) || stop == Some(Done))
    {
      blocked := false;
      data := [];
      var r := Recv(remaining);
      match r {
        case Nothing => stop := Some(Ok);
        case Closed => stop := Some(Done);
        case Data(bytes) =>
          data := bytes;
          forall i | 0 <= i < |bytes| {
            payload[payloadRead + i] := bytes[i];
          }
          payloadRead := payloadRead + |bytes|;
          stop := None;
      }
    }

    // The octets wait in mux_payload behind those not yet fed.
    method RecvAside(s: Stream, remaining: nat) returns (stop: Option<Rc>, ghost data: Text)
      requires s.Ok() && remaining > 0 && feedPos <= payloadRead && payload.Length >= payloadRead + remaining
      requires s.state != Closing ==> s.Line(payload[feedPos..payloadRead])
      modifies this`log, this`payloadRead, this`blocked, payload, s`wire
      ensures s.Ok() && s.Held() == old(s.Held()) && log == old(log) + data
      ensures payloadRead == old(payloadRead) + |data| <= old(payloadRead) + remaining
      ensures s.state != Closing ==> s.wire == old(s.wire) + data && s.Line(payload[feedPos..payloadRead])
      ensures if stop.None? then data != [] else data == [] && (stop == Some(Ok) || stop == Some(Done))
    {
      hide Rest, RequestNeeded, Stream.Payload, Stream.Line;
      ghost var unfed: Text := payload[feedPos..payloadRead];
      stop, data := RecvPlain(remaining);
      assert payload[feedPos..payloadRead] == unfed + data;
      if s.state != Closing {
        s.TakeAside(unfed, data);
      }
    }

    // The plain path keeps the octets for mux_feed_stream.
    method ReadAside(s: Stream) returns (stop: Option<Rc>)
      requires Valid() && s == payloadStream && payloadRead < frame.value.length && !deferred && !direct
      modifies this`log, this`body, this`lines, this`held, this`payloadRead, this`blocked
      modifies payload, s`wire
      ensures Valid() && payloadRead >= old(payloadRead)
      ensures if stop.None? then payloadRead > old(payloadRead) else stop == Some(Ok) || stop == Some(Done)
    {
      hide Others;
      hide Rest, RequestNeeded, Stream.Counts, Stream.Payload, Stream.Unread, Stream.Held, Stream.RoomLeft, Stream.Line, Sum;
      hide HeardUpTo;
      Split(s);
      ghost var before, data := log, [];
      stop, data := RecvAside(s, frame.value.length - payloadRead);
      Arrive(before, old(payloadRead), data);
      OthersAlike(s, old(lines));
      Settle(s);
    }

    // Nobody wants the payload of an unknown stream.
    method ReadNowhere() returns (stop: Option<Rc>)
      requires Valid() && payloadStream == null && frame.Some? && payloadRead < frame.value.length
      modifies this`log, this`body, this`lines, this`payloadRead, this`blocked, this`direct, payload
      ensures Valid() && payloadRead >= old(payloadRead)
      ensures if stop.None? then payloadRead > old(payloadRead) else stop == Some(Ok) || stop == Some(Done)
    {
      hide Idle, Sum, HeardUpTo;
      direct := false;
      ghost var before, data := log, [];
      stop, data := RecvPlain(frame.value.length - payloadRead);
      Arrive(before, old(payloadRead), data);
      NobodysLine(old(lines), data);
    }

    // The octets just received are accounted for.
    ghost method Arrive(before: Text, read: nat, data: Text)
      requires HeardUpTo(before, read) && log == before + data
      requires frame.Some? && payloadRead == read + |data| <= frame.value.length
      modifies this`body, this`lines
      ensures Heard() && lines == Longer(old(lines), frame, data)
    {
      hide Traced;
      BodyArrives(LogNow(), lines, born, data);
      lines := Longer(lines, frame, data);
      body := body + data;
    }

    // Only the line of the stream the frame is for is longer.
    lemma OthersAlike(s: Stream, l: map<nat, Text>)
      requires Framed() && Apart(s, held, l) && s == payloadStream
      requires lines.Keys == l.Keys && forall id :: id in l && id != s.id ==> lines[id] == l[id]
      ensures Apart(s, held, lines)
    {
      hide Idle, Coming;
    }

    lemma NobodysLine(l: map<nat, Text>, data: Text)
      requires Framed() && Apart(null, held, l) && Chosen() && payloadStream == null
      requires frame.Some? && frame.value.length > 0 && lines == Longer(l, frame, data)
      ensures Apart(null, held, lines)
    {
    }

    // mux_read_client_payload and mux_read_deferred_payload.
    method ReadPayload() returns (rc: Rc)
      requires Valid() && frame.Some?
      modifies this`log, this`body, this`lines
      modifies this`tokens, this`held, this`payloadRead, this`blocked, this`direct, this`deferred
      modifies payload, streams.Values
      ensures Valid() && (rc == Ok || rc == Done)
    {
      hide Counted, Funded, Apart, Heard;
      if deferred {
        if payloadStream.state != Closing {
          rc := ReadAllDeferred();
          return;
        }
        StopDeferring();
      }
      while payloadRead < frame.value.length
        invariant Valid() && !deferred
        decreases frame.value.length - payloadRead
      {
        var stop := ReadTurn();
        if stop.Some? {
          return stop.value;
        }
      }
      return Ok;
    }

    method ReadTurn() returns (stop: Option<Rc>)
      requires Valid() && frame.Some? && payloadRead < frame.value.length && !deferred
      modifies this`log, this`body, this`lines
      modifies this`tokens, this`held, this`payloadRead, this`blocked, this`direct
      modifies payload, streams.Values
      ensures Valid() && payloadRead >= old(payloadRead)
      ensures if stop.None? then payloadRead > old(payloadRead) else stop == Some(Ok) || stop == Some(Done)
    {
      hide Counted, Funded, Apart, Heard;
      if payloadStream == null {
        stop := ReadNowhere();
      } else if direct && payloadStream.state != Closing {
        stop := ReadDirect(payloadStream);
      } else {
        StopDirect();
        stop := ReadAside(payloadStream);
      }
    }

    method ReadAllDeferred() returns (rc: Rc)
      requires Valid() && frame.Some? && deferred && payloadStream.state != Closing
      modifies this`log, this`body, this`lines
      modifies this`tokens, this`held, this`payloadRead, this`blocked, streams.Values
      ensures Valid() && (rc == Ok || rc == Done)
    {
      hide Counted, Funded, Apart, Heard;
      while payloadRead < frame.value.length
        invariant Valid() && payloadStream.state != Closing
        decreases frame.value.length - payloadRead
      {
        var stop := ReadDeferred(payloadStream);
        if stop.Some? {
          return stop.value;
        }
      }
      return Ok;
    }

    method StopDirect()
      requires Valid() && payloadStream != null && (direct ==> payloadStream.state == Closing)
      modifies this`direct, this`held
      ensures Valid() && !direct
    {
      hide Others;
      hide Rest, RequestNeeded, Stream.Counts, Stream.Payload, Stream.Unread, Stream.Held, Stream.RoomLeft, Stream.Line, Sum;
      hide Heard;
      Split(payloadStream);
      direct := false;
      Settle(payloadStream);
    }

    method StopDeferring()
      requires Valid() && deferred && payloadStream.state == Closing
      modifies this`deferred, this`held
      ensures Valid() && !deferred
    {
      hide Others;
      hide Rest, RequestNeeded, Stream.Counts, Stream.Payload, Stream.Unread, Stream.Held, Stream.RoomLeft, Stream.Line, Sum;
      hide Heard;
      Split(payloadStream);
      deferred := false;
      Settle(payloadStream);
    }

    // ---- Finished frames ----

    // The end of a turn of mux_read_client.
    method ResetFrame()
      requires Heard() && frame.Some? && payloadRead == frame.value.length
      modifies this`done, this`body, this`header, this`frame, this`payloadRead, this`feedPos, this`payloadStream
      modifies this`direct, this`acceptChecked, this`blocked, this`deferred
      ensures header == [] && frame == None && payloadRead == feedPos == 0 && payloadStream == null
      ensures !direct && !deferred && Heard()
    {
      hide Traced;
      FrameDone(LogNow(), lines, born);
      done, body := log, [];
      header, frame, payloadRead, feedPos, payloadStream := [], None, 0, 0, null;
      direct, acceptChecked, blocked, deferred := false, false, false, false;
    }

    // A complete PSH: fed to its stream unless its octets are there already.
    method HandlePsh(s: Stream) returns (rc: Rc)
      requires Valid() && s == payloadStream && payloadRead == frame.value.length
      modifies this`tokens, this`held, this`done, this`body, this`header, this`frame, this`payloadRead, this`feedPos
      modifies this`payloadStream, this`direct, this`acceptChecked, this`blocked, this`deferred
      modifies s`state, s`clientFin, s`request, s`rxConsumed, s`buffer, s`pending
      ensures Valid() && (rc == Ok ==> frame == None)
    {
      hide Counted, Funded, Apart, Heard;
      if direct || deferred {
        EndDelivered(s);
        rc := Ok;
      } else {
        rc := FeedFrame(s);
      }
    }

    method EndDelivered(s: Stream)
      requires Valid() && s == payloadStream && payloadRead == frame.value.length && (direct || deferred)
      modifies this`tokens, this`held, this`done, this`body, this`header, this`frame, this`payloadRead, this`feedPos
      modifies this`payloadStream, this`direct, this`acceptChecked, this`blocked, this`deferred
      modifies s`state, s`clientFin, s`request, s`rxConsumed, s`buffer, s`pending
      ensures Valid() && frame == None
    {
      hide Others;
      hide Rest, RequestNeeded, Stream.Counts, Stream.Payload, Stream.Unread, Stream.Held, Stream.RoomLeft, Stream.Line, Sum;
      hide Heard;
      Split(s);
      EndPsh(s);
      Settle(s);
    }

    method FeedFrame(s: Stream) returns (rc: Rc)
      requires Valid() && s == payloadStream && payloadRead == frame.value.length && !direct && !deferred
      modifies this`tokens, this`held, this`done, this`body, this`header, this`frame, this`payloadRead, this`feedPos
      modifies this`payloadStream, this`direct, this`acceptChecked, this`blocked, this`deferred
      modifies s`state, s`clientFin, s`request, s`rxConsumed, s`buffer, s`pending
      ensures Valid() && (rc == Ok ==> frame == None)
    {
      hide Framed, Funded, Apart, Heard, Chosen, Idle, Coming, Sum, Stream.Held, Stream.Ok;
      WholeFrame(s);
      Split(s);
      rc := FeedPart(s);
      if rc == Ok {
        EndPsh(s);
      }
      Settle(s);
    }

    lemma WholeFrame(s: Stream)
      requires Valid() && s == payloadStream
      ensures s in streams.Values
    {
    }

    // The octets of the frame into the line, as far as tokens allow.
    method FeedPart(s: Stream) returns (rc: Rc)
      requires Framed() && Apart(s, held, lines) && Heard() && s == payloadStream
      requires payloadRead == frame.value.length && !direct && !deferred
      requires s.Ok() && s.id in lines && s.id in held && Coming(s, s.Held(), lines[s.id])
      requires tokens + s.Held() <= MAX_TOKENS && tokens + s.Held() + Sum(held) == MAX_TOKENS + held[s.id]
      modifies this`tokens, this`feedPos, this`blocked
      modifies s`state, s`clientFin, s`request, s`rxConsumed, s`buffer, s`pending
      ensures Framed() && Funded() && Apart(s, held, lines) && Heard() && Chosen() && s.Ok()
      ensures tokens + s.Held() + Sum(held) == MAX_TOKENS + held[s.id]
      ensures if rc == Ok then Idle(s, s.Held(), lines[s.id]) else Coming(s, s.Held(), lines[s.id])
    {
      hide Others, Heard, Sum;
      hide Rest, RequestNeeded, Stream.Counts, Stream.Payload, Stream.Unread, Stream.Held, Stream.RoomLeft, Stream.Line;
      rc := FeedStream(s, payloadRead);
      if rc == Again {
        blocked := true;
      }
    }

    // The frame is done with; only its stream is not in order yet.
    method EndPsh(s: Stream)
      requires Framed() && Apart(s, held, lines) && Heard()
      requires s == payloadStream && payloadRead == frame.value.length
      modifies this`done, this`body, this`header, this`frame, this`payloadRead, this`feedPos, this`payloadStream
      modifies this`direct, this`acceptChecked, this`blocked, this`deferred
      ensures Framed() && Funded() && Apart(s, held, lines) && Heard() && Chosen()
      ensures frame == None && payloadStream == null
    {
      hide Others, Heard;
      OthersOnce(s, held, lines);
      ResetFrame();
    }

    // FIN: a stream still waiting for its header is closed.
    method HandleFin(s: Stream)
      requires Valid() && s in streams.Values && frame.Some? && payloadStream == null
      requires payloadRead == frame.value.length
      modifies this`held, this`done, this`body, this`header, this`frame, this`payloadRead, this`feedPos, this`payloadStream
      modifies this`direct, this`acceptChecked, this`blocked, this`deferred, s`state, s`clientFin
      ensures Valid() && frame == None && s.clientFin
    {
      hide Others;
      hide Rest, RequestNeeded, Stream.Counts, Stream.Payload, Stream.Unread, Stream.Held, Stream.RoomLeft, Sum, Heard;
      Split(s);
      s.clientFin := true;
      if s.state == Request {
        CloseStream(s);
      }
      ResetFrame();
      Settle(s);
    }

    // SYN: odd ids only; a known id is ignored, a new one opens a stream.
    method HandleSyn(id: nat) returns (rc: Rc)
      requires Valid() && frame.Some? && frame.value.command == Syn && payloadStream == null
      requires payloadRead == frame.value.length
      modifies this`held, this`streams, this`lines, this`born
      modifies this`done, this`body, this`header, this`frame, this`payloadRead, this`feedPos, this`payloadStream
      modifies this`direct, this`acceptChecked, this`blocked, this`deferred
      ensures Valid()
      ensures rc == if id % 2 == 0 || (id !in old(streams) && |old(streams)| >= MAX_STREAMS) then Error else Ok
      ensures rc == Ok ==> frame == None && id in streams && old(streams).Keys + {id} == streams.Keys
      ensures forall k :: k in old(streams) ==> k in streams && streams[k] == old(streams)[k]
      ensures fresh(streams.Values - old(streams.Values))
    {
      hide Framed, Counted, Funded, Apart, Heard;
      if id == 0 || id % 2 == 0 {
        return Error;
      }
      if id !in streams {
        if |streams| >= MAX_STREAMS {
          return Error;
        }
        Open(id);
      }
      Skip();
      return Ok;
    }

    // mux_create_stream.
    method Open(id: nat)
      requires Valid() && payloadStream == null && id !in streams && frame.Some? && frame.value.command == Syn
      modifies this`held, this`streams, this`lines, this`born
      ensures Valid() && id in streams && fresh(streams[id])
      ensures streams == old(streams)[id := streams[id]]
    {
      hide Rest, Stream.Counts, Stream.Payload, Stream.Unread, Stream.RoomLeft, Sum, Coming, Heard;
      var s := new Stream(id);
      NewIsIdle(s);
      Add(s);
    }

    method Add(s: Stream)
      requires Valid() && payloadStream == null && frame.Some? && frame.value.command == Syn
      requires s.id !in streams && s !in streams.Values && s.Ok() && Idle(s, 0, [])
      modifies this`held, this`streams, this`lines, this`born
      ensures Valid() && streams == old(streams)[s.id := s]
    {
      hide Sum, Coming, Heard, Idle, Stream.Ok;
      SumSet(held, s.id, 0);
      assert held - {s.id} == held;
      held := held[s.id := 0];
      Enlist(s.id);
      streams := streams[s.id := s];
    }

    lemma NewIsIdle(s: Stream)
      requires s.Ok() && s.state == Request && s.request == [] && s.wire == [] && s.Held() == 0 && s.rxConsumed == 0
      ensures Idle(s, 0, [])
    {
    }

    ghost method Enlist(id: nat)
      requires Heard() && id !in lines && frame.Some? && frame.value.command == Syn
      modifies this`lines, this`born
      ensures Heard() && lines == old(lines)[id := []]
    {
      hide Traced;
      Born(LogNow(), lines, born, id);
      lines, born := lines[id := []], born[id := |done|];
    }

    // mux_handle_frame, followed on success by the reset in mux_read_client.
    method HandleFrame() returns (rc: Rc)
      requires Valid() && frame.Some? && payloadRead == frame.value.length
      modifies this, streams.Values
      ensures Valid() && (rc == Ok ==> frame == None)
      ensures fresh(streams.Values - old(streams.Values))
    {
      hide Counted, Funded, Apart, Heard;
      var h := frame.value;
      match h.command {
        case Syn =>
          rc := HandleSyn(h.id);
        case Fin =>
          if h.id in streams {
            HandleFin(streams[h.id]);
          } else {
            Skip();
          }
          rc := Ok;
        case Psh =>
          if payloadStream != null {
            rc := HandlePsh(payloadStream);
          } else {
            Skip();
            rc := Ok;
          }
        case Nop =>
          Skip();
          rc := Ok;
        case Upd =>
          // The window half of the protocol is a module of its own.
          var accepted: bool := *;
          if accepted {
            Skip();
          }
          rc := if accepted then Ok else Error;
      }
    }

    // A frame nothing is done about.
    method Skip()
      requires Valid() && frame.Some? && payloadStream == null && payloadRead == frame.value.length
      modifies this`done, this`body, this`header, this`frame, this`payloadRead, this`feedPos, this`payloadStream
      modifies this`direct, this`acceptChecked, this`blocked, this`deferred
      ensures Valid() && frame == None
    {
      hide Idle, Sum, Heard;
      ResetFrame();
    }

    // ---- The read loop ----

    method ReadHeader() returns (stop: Option<Rc>)
      requires Valid() && frame.None?
      modifies this`log, this`header
      ensures Valid() && (stop.None? ==> |header| == HEADER_LEN)
    {
      hide Idle, Coming, Sum, Traced;
      while |header| < HEADER_LEN
        invariant |header| <= HEADER_LEN && Valid()
        decreases HEADER_LEN - |header|
      {
        ghost var before := LogNow();
        var r := Recv(HEADER_LEN - |header|);
        match r {
          case Nothing => return Some(Ok);
          case Closed => return Some(Done);
          case Data(bytes) =>
            HeaderArrives(before, lines, born, bytes);
            header := header + bytes;
        }
      }
      return None;
    }

    // A complete header: parsed, and a PSH prepared for its stream.
    method StartFrame() returns (rc: Rc)
      requires Valid() && frame.None? && |header| == HEADER_LEN
      modifies this`version, this`frame, this`held, this`payloadStream, this`acceptChecked, this`blocked
      modifies this`direct, this`deferred, streams.Values
      ensures Valid() && (rc == Ok ==> frame.Some?)
    {
      hide Counted, Funded, Apart, Heard, ParseHeader;
      var parsed := ParseHeader(header);
      if parsed.None? {
        return Error;
      }
      if version == 0 {
        SetVersion(parsed.value.version);
      } else if parsed.value.version != version {
        return Error;
      }
      SetFrame(parsed.value);
      rc := Ok;
      if frame.value.command == Psh && frame.value.id in streams {
        var s := streams[frame.value.id];
        Named(frame.value.id);
        rc := PreparePayload(s, s.state != Request && s.state != Closing);
      }
    }

    // The first frame settles the version, before there is any stream.
    method SetVersion(v: byte)
      requires Valid() && version == 0 && v != 0
      modifies this`version
      ensures Valid() && version == v
    {
      hide Heard, Idle, Coming, Sum;
      version := v;
    }

    // On a version 2 connection every stream has counted its request header
    // and what its upstream socket took, and nothing else.
    lemma ConsumedIsRequestAndSent(s: Stream)
      requires Valid() && s in streams.Values && version == 2
      ensures s.rxConsumed == MuxWindow.Wrap(|s.request| + |s.sent|)
    {
      hide Rest, RequestNeeded, Sum, Heard;
      Split(s);
    }

    lemma Named(id: nat)
      requires Steady() && id in streams
      ensures streams[id].id == id
    {
    }

    method SetFrame(h: Header)
      requires Valid() && frame.None? && |header| == HEADER_LEN && ParseHeader(header) == Some(h) && version != 0
      modifies this`frame, this`acceptChecked
      ensures Steady() && frame == Some(h) && payloadStream == null && !direct && !deferred && payloadRead == feedPos == 0
    {
      hide Idle, Sum, ParseHeader, Traced;
      FrameKnown(LogNow(), lines, born, h);
      frame := Some(h);
      acceptChecked := false;
    }

    // mux_read_client: whatever recv does, whatever was blocked before.
    method ReadClient(maxLoops: nat, limit: nat) returns (rc: Rc)
      requires Valid()
      modifies this, payload, streams.Values
      ensures Valid()
    {
      hide Counted, Funded, Apart, Heard;
      var loops, bytes := 0, 0;
      while loops < maxLoops && bytes < limit
        invariant Valid() && 0 <= loops && fresh(streams.Values - old(streams.Values))
        decreases maxLoops - loops
      {
        var size;
        rc, size := ReadFrame();
        if rc != Ok || frame.Some? {
          return;
        }
        loops := loops + 1;
        bytes := bytes + size;
      }
      return Ok;
    }

    // One turn of its outer loop.
    method ReadFrame() returns (rc: Rc, size: nat)
      requires Valid()
      modifies this, payload, streams.Values
      ensures Valid() && fresh(streams.Values - old(streams.Values))
    {
      hide Counted, Funded, Apart, Heard;
      size := 0;
      if frame.None? {
        var stop := ReadHeader();
        if stop.Some? {
          return stop.value, 0;
        }
        rc := StartFrame();
        if rc != Ok {
          return rc, 0;
        }
      }
      if frame.value.command == Psh && payloadStream != null && !acceptChecked && payloadRead == 0
         && payloadStream.state != Request && payloadStream.state != Closing {
        rc := PreparePayload(payloadStream, true);
        if rc != Ok {
          return rc, 0;
        }
      }
      rc := ReadPayload();
      if rc != Ok || payloadRead < frame.value.length {
        return rc, 0;
      }
      size := HEADER_LEN + frame.value.length;
      rc := HandleFrame();
    }
  }
}
