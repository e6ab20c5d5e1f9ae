// One smux stream on its way upstream: the request header, the bounded client
// buffer, the deferred frames, and what the socket has taken so far.
module MuxStream {
  import opened Bytes
  import opened MuxFrames
  import W = MuxWindow

  const MAX_STREAM_BUFFER: nat := 65536
  const MAX_TOKENS: nat := 4194304

  const CMD_CONNECT: byte := 1
  const CMD_ASSOCIATE: byte := 3
  const ADDR_IPV4: byte := 1
  const ADDR_DOMAIN: byte := 3
  const ADDR_IPV6: byte := 4

  // ---- The request header in front of the payload ----

  datatype Needed = Need(more: nat) | Complete(length: nat) | Malformed

  function RequestNeeded(req: Text): (r: Needed)
    ensures r.Need? ==> |req| < r.more
    ensures r.Complete? ==> r.length <= |req|
  {
    if |req| < 2 then Need(2)
    else if req[0] != CMD_CONNECT && req[0] != CMD_ASSOCIATE then Malformed
    else if req[1] == ADDR_IPV4 then AtLeast(req, 8)
    else if req[1] == ADDR_IPV6 then AtLeast(req, 20)
    else if req[1] != ADDR_DOMAIN then Malformed
    else if |req| < 3 then Need(3)
    else if req[2] == 0 then Malformed
    else AtLeast(req, 5 + (req[2] as nat))
  }

  function AtLeast(req: Text, n: nat): (r: Needed)
    ensures r == if |req| < n then Need(n) else Complete(n)
  {
    if |req| < n then Need(n) else Complete(n)
  }

  // The header is decided by its own octets: the first prefix found complete
  // is complete at exactly its length, whatever follows.
  lemma HeaderIsPrefix(req: Text, rest: Text)
    requires RequestNeeded(req).Complete?
    ensures RequestNeeded(req + rest) == RequestNeeded(req)
  {
  }

  lemma StillNeeded(req: Text, more: Text)
    requires RequestNeeded(req).Need? && |req + more| < RequestNeeded(req).more
    ensures RequestNeeded(req + more) == RequestNeeded(req)
  {
  }

  lemma NeededNeverOvershoots(req: Text, more: Text)
    requires RequestNeeded(req).Need? && |req + more| <= RequestNeeded(req).more
    ensures RequestNeeded(req + more).Complete? ==> RequestNeeded(req + more).length == |req + more|
  {
  }

  // ---- Buffers ----

  datatype State = Request | Opening | Proxy | Closing

  // bytes run from start to last; pos is where the unread part begins.
  datatype Buf = Buf(bytes: Text, pos: nat, size: nat) {
    predicate Ok() {
      pos <= |bytes| <= size <= MAX_STREAM_BUFFER
    }

    function Unread(): Text
      requires Ok()
    {
      bytes[pos..]
    }

    function Room(): nat
      requires Ok()
    {
      size - |bytes|
    }
  }

  datatype Frame = Frame(bytes: Text, pos: nat, capacity: nat) {
    predicate Ok() {
      pos <= |bytes| <= capacity
    }
  }

  predicate FramesOk(fs: seq<Frame>) {
    forall i {:trigger fs[i]} :: 0 <= i < |fs| ==> fs[i].Ok()
  }

  function Rest(fs: seq<Frame>): Text
    requires FramesOk(fs)
  {
    if fs == [] then [] else fs[0].bytes[fs[0].pos..] + Rest(fs[1..])
  }

  lemma {:induction false} RestSplit(a: seq<Frame>, b: seq<Frame>)
    requires FramesOk(a) && FramesOk(b)
    ensures FramesOk(a + b) && Rest(a + b) == Rest(a) + Rest(b)
  {
    if a == [] {
      assert a + b == b;
    } else {
      assert (a + b)[1..] == a[1..] + b;
      RestSplit(a[1..], b);
    }
  }

  lemma RestOne(f: Frame)
    requires f.Ok()
    ensures Rest([f]) == f.bytes[f.pos..]
  {
    assert Rest([f]) == f.bytes[f.pos..] + Rest([]);
  }

  // Octets added to the last frame go to the end of the line.
  lemma RestExtend(fs: seq<Frame>, data: Text)
    requires fs != [] && FramesOk(fs)
    requires var f := fs[|fs| - 1]; |f.bytes| + |data| <= f.capacity
    ensures var f := fs[|fs| - 1];
            FramesOk(fs[|fs| - 1 := f.(bytes := f.bytes + data)])
    ensures var f := fs[|fs| - 1];
            Rest(fs[|fs| - 1 := f.(bytes := f.bytes + data)]) == Rest(fs) + data
  {
    var init, f := fs[..|fs| - 1], fs[|fs| - 1];
    var g := f.(bytes := f.bytes + data);
    assert fs == init + [f] && fs[|fs| - 1 := g] == init + [g];
    RestSplit(init, [f]);
    RestSplit(init, [g]);
    RestOne(f);
    RestOne(g);
    assert g.bytes[g.pos..] == f.bytes[f.pos..] + data;
  }

  datatype Taken = NotNow | Broken | Took(n: nat)

  // Whatever send may return when given n octets.
  method AnyTaken(n: nat) returns (r: Taken)
    ensures r.Took? ==> 0 < r.n <= n
  {
    r := *;
    if r.Took? && !(0 < r.n <= n) {
      r := NotNow;
    }
  }

  class Stream {
    const id: nat
    var state: State
    var request: Text
    var buffer: Option<Buf>
    var pending: seq<Frame>
    var clientFin: bool
    var writeShutdown: bool
    var rxConsumed: W.word
    ghost var sent: Text
    ghost var wire: Text

    constructor (id: nat)
      ensures this.id == id && state == Request && request == [] && wire == [] && !writeShutdown
      ensures rxConsumed == 0
      ensures Ok() && Held() == 0
    {
      this.id := id;
      state := Request;
      request := [];
      buffer := None;
      pending := [];
      clientFin, writeShutdown := false, false;
      rxConsumed := 0;
      sent := [];
      wire := [];
    }

    ghost predicate Sound()
      reads this`buffer, this`pending
    {
      (buffer.Some? ==> buffer.value.Ok()) && FramesOk(pending)
    }

    ghost predicate Ok()
      reads this
    {
      && Sound()
      && (state == Request ==> buffer.None? && pending == [] && sent == [])
    }

    ghost function Unread(): Text
      requires Sound()
      reads this`buffer, this`pending
    {
      if buffer.None? then [] else buffer.value.Unread()
    }

    // Octets this stream keeps in memory.
    ghost function Held(): nat
      requires Sound()
      reads this`buffer, this`pending
    {
      |Unread()| + |Rest(pending)|
    }

    // Everything after the request header, in order.
    ghost function Payload(): Text
      requires Sound()
      reads this`sent, this`buffer, this`pending
    {
      sent + Unread() + Rest(pending)
    }

    // Free octets at the end of the buffer.
    ghost function RoomLeft(): nat
      requires Sound()
      reads this`buffer, this`pending
    {
      if buffer.None? then 0 else buffer.value.Room()
    }

    // Every payload octet of the client is in the header or in the line.
    ghost predicate Line(unfed: Text)
      requires Ok()
      reads this
    {
      && wire == request + Payload() + unfed
      && if state == Request then RequestNeeded(request).Need?
         else RequestNeeded(request) == Complete(|request|)
    }

    // mux_ensure_client_buffer.
    method EnsureBuffer(len: nat, bufferSize: nat) returns (ok: bool)
      requires Ok() && state != Request
      modifies this`buffer
      ensures Ok() && Unread() == old(Unread())
      ensures ok <==> len <= MAX_STREAM_BUFFER
      ensures !ok ==> buffer == old(buffer)
      ensures ok ==> buffer.Some? && (buffer == old(buffer) || buffer.value.Room() >= len)
    {
      if len > MAX_STREAM_BUFFER {
        return false;
      }
      var size := if bufferSize > MAX_STREAM_BUFFER then MAX_STREAM_BUFFER else bufferSize;
      if size < len {
        size := len;
      }
      if buffer.None? {
        buffer := Some(Buf([], 0, size));
        return true;
      }
      var b := buffer.value;
      var buffered := |b.bytes| - b.pos;
      var required := size;
      if buffered > 0 {
        if buffered > len || buffered > MAX_STREAM_BUFFER - len {
          return true;
        }
        required := buffered + len;
        if required < size {
          required := size;
        }
      }
      if b.size >= required {
        return true;
      }
      if required < b.size * 2 {
        required := b.size * 2;
        if required > MAX_STREAM_BUFFER {
          required := MAX_STREAM_BUFFER;
        }
      }
      buffer := Some(Buf(b.bytes[b.pos..], 0, required));
      return true;
    }

    // mux_compact_buf.
    method Compact()
      requires Ok() && buffer.Some?
      modifies this`buffer
      ensures Ok() && Unread() == old(Unread())
      ensures buffer.Some? && buffer.value.size == old(buffer.value.size)
      ensures buffer.value.Room() == buffer.value.size - |Unread()|
    {
      var b := buffer.value;
      if b.pos == 0 {
        return;
      }
      buffer := Some(Buf(b.bytes[b.pos..], 0, b.size));
    }

    lemma Associate(a: Text, b: Text, c: Text)
      ensures a + b + c == a + (b + c)
    {
    }

    lemma RestTail(fs: seq<Frame>)
      requires FramesOk(fs) && fs != []
      ensures Rest(fs) == fs[0].bytes[fs[0].pos..] + Rest(fs[1..])
    {
    }

    lemma HeadMoved(fs: seq<Frame>, n: nat)
      requires FramesOk(fs) && fs != [] && fs[0].pos + n <= |fs[0].bytes|
      ensures var fs' := fs[0 := fs[0].(pos := fs[0].pos + n)];
              FramesOk(fs') && Rest(fs) == fs[0].bytes[fs[0].pos..fs[0].pos + n] + Rest(fs')
    {
      var f := fs[0];
      var g := f.(pos := f.pos + n);
      assert f.bytes[f.pos..] == f.bytes[f.pos..f.pos + n] + g.bytes[g.pos..];
      RestTail(fs);
      RestTail(fs[0 := g]);
      assert fs[0 := g][1..] == fs[1..];
      hide Rest;
      Associate(f.bytes[f.pos..f.pos + n], g.bytes[g.pos..], Rest(fs[1..]));
    }

    // As much of the first frame as fits goes to the end of the buffer.
    method MoveHead()
      requires Ok() && buffer.Some? && buffer.value.Room() > 0 && state != Request
      requires pending != [] && pending[0].pos < |pending[0].bytes|
      modifies this`buffer, this`pending
      ensures Ok() && buffer.Some? && |pending| == |old(pending)| && pending[1..] == old(pending[1..])
      ensures Unread() + Rest(pending) == old(Unread() + Rest(pending))
      ensures |Rest(pending)| < |old(Rest(pending))|
    {
      var b, f := buffer.value, pending[0];
      var available := b.size - |b.bytes|;
      if available > |f.bytes| - f.pos {
        available := |f.bytes| - f.pos;
      }
      var moved := f.bytes[f.pos..f.pos + available];
      var g := f.(pos := f.pos + available);
      HeadMoved(pending, available);
      hide Rest;
      assert (b.bytes + moved)[b.pos..] == b.bytes[b.pos..] + moved;
      buffer := Some(b.(bytes := b.bytes + moved));
      pending := pending[0 := g];
      assert pending[1..] == old(pending[1..]);
    }

    // mux_drain_pending_frames: frames move into the buffer in order.
    method Drain(bufferSize: nat) returns (ok: bool, drained: bool)
      requires Ok() && state != Request
      modifies this`buffer, this`pending
      ensures Ok() && Unread() + Rest(pending) == old(Unread() + Rest(pending))
      ensures if drained then |Rest(pending)| < |old(Rest(pending))| else Rest(pending) == old(Rest(pending))
      ensures state == Closing ==> buffer == old(buffer) && pending == old(pending)
      ensures old(pending) == [] ==> buffer == old(buffer) && pending == []
      ensures old(buffer).Some? ==> buffer.Some?
    {
      drained := false;
      if state == Closing {
        return true, false;
      }
      while pending != []
        invariant Ok() && Unread() + Rest(pending) == old(Unread() + Rest(pending))
        invariant old(pending) == [] ==> buffer == old(buffer) && pending == []
        invariant old(buffer).Some? ==> buffer.Some?
        invariant if drained then |Rest(pending)| < |old(Rest(pending))| else Rest(pending) == old(Rest(pending))
        decreases |pending|
      {
        if pending[0].pos == |pending[0].bytes| {
          DropHead();
          continue;
        }
        var enough := EnsureBuffer(|pending[0].bytes| - pending[0].pos, bufferSize);
        if !enough {
          return false, drained;
        }
        if buffer.value.Room() == 0 {
          Compact();
          if buffer.value.Room() == 0 {
            return true, drained;
          }
        }
        MoveHead();
        drained := true;
        if pending[0].pos < |pending[0].bytes| {
          return true, true;
        }
        DropHead();
      }
      return true, drained;
    }

    // A frame read to its end leaves the queue.
    method DropHead()
      requires Ok() && pending != [] && pending[0].pos == |pending[0].bytes| && state != Request
      modifies this`pending
      ensures Ok() && |pending| == |old(pending)| - 1 && Rest(pending) == old(Rest(pending))
    {
      assert Rest(pending) == [] + Rest(pending[1..]);
      pending := pending[1..];
    }

    // The deferred path: octets join the last frame, or a new one.
    function TailRoom(): (n: nat)
      requires Sound()
      reads this`buffer, this`pending
      ensures n > 0 ==> pending != []
    {
      if pending == [] then 0
      else pending[|pending| - 1].capacity - |pending[|pending| - 1].bytes|
    }

    // mux_alloc_pending_frame, queued at the tail.
    method NewFrame(len: nat, bufferSize: nat)
      requires Ok() && state != Request && len > 0
      modifies this`pending
      ensures Ok() && Rest(pending) == old(Rest(pending)) && TailRoom() >= len
      ensures old(Line([])) ==> Line([])
    {
      var capacity := if bufferSize > MAX_FRAME_SIZE then MAX_FRAME_SIZE else bufferSize;
      if capacity < len {
        capacity := len;
      }
      RestSplit(pending, [Frame([], 0, capacity)]);
      RestOne(Frame([], 0, capacity));
      pending := pending + [Frame([], 0, capacity)];
    }

    method ExtendTail(data: Text)
      requires Ok() && state != Request && 0 < |data| <= TailRoom()
      modifies this`pending
      ensures Ok() && Rest(pending) == old(Rest(pending)) + data
      ensures TailRoom() == old(TailRoom()) - |data|
    {
      RestExtend(pending, data);
      var k := |pending| - 1;
      pending := pending[k := pending[k].(bytes := pending[k].bytes + data)];
    }

    // Octets written at the end of the buffer.
    method Fill(data: Text)
      requires Ok() && state != Request && buffer.Some? && |data| <= buffer.value.Room()
      modifies this`buffer
      ensures Ok() && Unread() == old(Unread()) + data
      ensures buffer.Some? && buffer.value.Room() == old(buffer.value.Room()) - |data|
    {
      var b := buffer.value;
      assert (b.bytes + data)[b.pos..] == b.bytes[b.pos..] + data;
      buffer := Some(b.(bytes := b.bytes + data));
    }

    // Version 2 counts what was consumed: the request header and what the
    // upstream socket took, on a counter that wraps.
    ghost predicate Counts(v2: bool)
      reads this`rxConsumed, this`request, this`sent
    {
      CountsTo(|request| + |sent|, v2)
    }

    ghost predicate CountsTo(n: nat, v2: bool)
      reads this`rxConsumed
    {
      rxConsumed == if v2 then W.Wrap(n) else 0
    }

    method Count(n: nat, v2: bool, ghost before: nat)
      requires CountsTo(before, v2)
      modifies this`rxConsumed
      ensures CountsTo(before + n, v2)
    {
      if v2 {
        W.WrapPlus(before, n);
        rxConsumed := W.Wrap(rxConsumed + n);
      }
    }

    // send on the upstream socket: sent is all it ever took.
    method Send(bytes: Text) returns (r: Taken)
      modifies this`sent
      ensures r.Took? ==> 0 < r.n <= |bytes|
      ensures sent == if r.Took? then old(sent) + bytes[..r.n] else old(sent)
    {
      r := AnyTaken(|bytes|);
      sent := if r.Took? then sent + bytes[..r.n] else sent;
    }

    // The socket took the first n unread octets.
    method Advance(n: nat, ghost before: Text)
      requires Ok() && state != Request && n <= |Unread()| && buffer.Some?
      requires sent == before + Unread()[..n]
      modifies this`buffer
      ensures Ok() && buffer.Some? && RoomLeft() == old(RoomLeft())
      ensures sent + Unread() == before + old(Unread()) && |Unread()| == |old(Unread())| - n
    {
      ghost var u := Unread();
      assert u == u[..n] + u[n..];
      buffer := Some(buffer.value.(pos := buffer.value.pos + n));
      assert Unread() == u[n..];
      assert before + u[..n] + u[n..] == before + u;
    }

    method ResetBuffer()
      requires Ok() && buffer.Some? && Unread() == []
      modifies this`buffer
      ensures Ok() && Unread() == [] && buffer.Some?
      ensures buffer.value.Room() == buffer.value.size == old(buffer.value.size)
      ensures RoomLeft() >= old(RoomLeft())
    {
      buffer := Some(Buf([], 0, buffer.value.size));
    }

    // Octets off the wire straight into the buffer: no frame is waiting.
    method TakeDirect(data: Text)
      requires Ok() && state != Request && pending == [] && Line([])
      requires buffer.Some? && |data| <= RoomLeft()
      modifies this`buffer, this`wire
      ensures Ok() && Line([]) && buffer.Some?
      ensures Held() == old(Held()) + |data| && RoomLeft() == old(RoomLeft()) - |data|
      ensures wire == old(wire) + data
    {
      hide RequestNeeded;
      ghost var before := Unread();
      Fill(data);
      wire := wire + data;
      assert sent + (before + data) + [] == sent + before + [] + data;
      Associate(request, sent + before + [], data);
    }

    // Octets off the wire to the last deferred frame.
    method TakeDeferred(data: Text)
      requires Ok() && state != Request && Line([]) && 0 < |data| <= TailRoom()
      modifies this`pending, this`wire
      ensures Ok() && Line([]) && Held() == old(Held()) + |data| && wire == old(wire) + data
    {
      hide RequestNeeded, Rest;
      ghost var before := Rest(pending);
      ExtendTail(data);
      wire := wire + data;
      Associate(sent + Unread(), before, data);
      Associate(request, sent + Unread() + before, data);
    }

    // Octets off the wire kept elsewhere for now.
    ghost method TakeAside(unfed: Text, data: Text)
      requires Ok() && Line(unfed)
      modifies this`wire
      ensures Ok() && Line(unfed + data) && wire == old(wire) + data
    {
      hide RequestNeeded, Rest;
      wire := wire + data;
      Associate(request + Payload(), unfed, data);
    }
  }
}
