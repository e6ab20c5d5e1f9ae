// smux version 2 flow control of one stream: 32-bit counters that wrap, the
// peer's window on what is sent, and the UPD frames that report what was
// delivered.
module MuxWindow {
  import opened Bytes
  import opened MuxFrames

  const HALF: nat := 0x8000_0000
  const MAX_STREAM_BUFFER: nat := 65536
  const UPDATE_THRESHOLD: nat := 32768
  const INITIAL_PEER_WINDOW: nat := 262144
  const UPD_FRAME_LEN: nat := HEADER_LEN + UPD_LEN

  type word = w: int | 0 <= w < WORD

  function Wrap(x: int): word {
    x % WORD
  }

  // (int32_t) x: the one value in the range of the type that wraps to x.
  function Signed(x: word): (r: int)
    ensures 0 <= r + HALF < WORD && Wrap(r) == x
  {
    if x < HALF then x else x - WORD
  }

  lemma WrapSmall(x: int)
    requires 0 <= x < WORD
    ensures Wrap(x) == x
  {
  }

  lemma WrapAgain(x: int, k: int)
    ensures Wrap(x + k * WORD) == Wrap(x)
  {
    var q := x / WORD;
    assert x == q * WORD + x % WORD;
    assert x + k * WORD == (q + k) * WORD + x % WORD;
    Remainder(x + k * WORD, q + k, x % WORD);
  }

  lemma Remainder(x: int, q: int, r: int)
    requires x == q * WORD + r && 0 <= r < WORD
    ensures x % WORD == r
  {
  }

  // Differences of wrapped counters are wrapped differences.
  lemma WrapMinus(a: int, b: int)
    ensures Wrap(Wrap(a) - Wrap(b)) == Wrap(a - b)
  {
    assert Wrap(a) - Wrap(b) == a - b + (b / WORD - a / WORD) * WORD;
    WrapAgain(a - b, b / WORD - a / WORD);
  }

  lemma WrapPlus(a: int, n: int)
    ensures Wrap(Wrap(a) + n) == Wrap(a + n)
  {
    assert Wrap(a) + n == a + n + (-(a / WORD)) * WORD;
    WrapAgain(a + n, -(a / WORD));
  }

  // The counter value c stands for the total closest to now at or below it.
  ghost function Total(now: int, c: word): int {
    now + Signed(Wrap(c - Wrap(now)))
  }

  lemma TotalWraps(now: int, c: word)
    ensures Wrap(Total(now, c)) == c
  {
    var d := Wrap(c - Wrap(now));
    WrapPlus(now, d);
    var e := c - Wrap(now);
    WrapPlus(e, Wrap(now));
    assert Wrap(now + d) == Wrap(Wrap(now) + d) by { WrapPlus(now, d); }
    assert Wrap(d + Wrap(now)) == Wrap(e + Wrap(now)) by { WrapPlus(e, Wrap(now)); }
    WrapSmall(c);
    if d >= HALF {
      WrapAgain(now + d, -1);
    }
  }

  // A distance below half the range is read back exactly, whatever wrapped.
  lemma InFlight(total: int, consumed: int)
    requires 0 <= total - consumed < HALF
    ensures Signed(Wrap(Wrap(total) - Wrap(consumed))) == total - consumed
  {
    WrapMinus(total, consumed);
    WrapSmall(total - consumed);
  }

  // What a connection may take of size octets.
  method Accepted(size: nat) returns (n: nat)
    ensures n <= size
  {
    var k: int := *;
    n := if 0 <= k <= size then k else 0;
  }

  // ---- Sending ----

  datatype Rc = Ok | Busy | Error

  class Sender {
    var written: word
    var peerConsumed: word
    var peerWindow: word
    var frameLen: nat
    var frameSent: nat
    // The octets really sent, and how far the peer allows.
    ghost var total: nat
    ghost var limit: int

    ghost predicate Valid()
      reads this
    {
      && written == Wrap(total)
      && frameSent <= frameLen <= MAX_FRAME_SIZE
      && peerWindow < HALF
      && total + frameLen - frameSent <= limit
      && exists c: int :: c <= total && peerConsumed == Wrap(c) && limit == c + peerWindow
    }

    constructor ()
      ensures Valid() && total == 0 && limit == INITIAL_PEER_WINDOW && frameLen == 0
    {
      written, peerConsumed, peerWindow := 0, 0, INITIAL_PEER_WINDOW;
      frameLen, frameSent := 0, 0;
      total := 0;
      limit := INITIAL_PEER_WINDOW;
      new;
      assert 0 <= total && peerConsumed == Wrap(0) && limit == 0 + peerWindow;
    }

    // The UPD branch of mux_handle_frame: reports beyond what was sent are
    // refused, all others believed.  The invariant is kept if and only if the
    // window is below half the counter range and still holds the frame begun.
    method Update(consumed: word, window: word) returns (rc: Rc)
      requires Valid()
      modifies this
      ensures Valid() <==> rc == Error || (window < HALF && total + frameLen - frameSent <= limit)
      ensures rc == Ok && limit >= old(limit) && window < HALF ==> Valid()
      ensures total == old(total) && frameLen == old(frameLen) && frameSent == old(frameSent)
      ensures rc == if Total(total, consumed) > total then Error else Ok
      ensures limit == if rc == Ok then Total(total, consumed) + window else old(limit)
      ensures rc == Ok ==> peerConsumed == consumed && peerWindow == window
    {
      if Signed(Wrap(consumed - written)) > 0 {
        return Error;
      }
      TotalWraps(total, consumed);
      peerConsumed := consumed;
      peerWindow := window;
      limit := Total(total, consumed) + window;
      assert Total(total, consumed) <= total;
      return Ok;
    }

    // mux_stream_send_window: the negative in-flight error cannot come up.
    method SendWindow() returns (rc: Rc, window: nat)
      requires Valid() && frameSent == frameLen
      ensures rc == if total < limit then Ok else Busy
      ensures rc == Ok ==> window == if limit - total < MAX_FRAME_SIZE then limit - total else MAX_FRAME_SIZE
      ensures rc != Ok ==> window == 0
    {
      ghost var c: int :| c <= total && peerConsumed == Wrap(c) && limit == c + peerWindow;
      InFlight(total, c);
      var inflight := Signed(Wrap(written - peerConsumed));
      if inflight < 0 {
        assert false;
      }
      if peerWindow <= inflight {
        return Busy, 0;
      }
      var available := peerWindow - inflight;
      if available > MAX_FRAME_SIZE {
        available := MAX_FRAME_SIZE;
      }
      return Ok, available;
    }

    // A new data frame over what is buffered, never wider than the window.
    method OpenFrame(buffered: nat) returns (rc: Rc)
      requires Valid() && frameSent == frameLen && buffered > 0
      modifies this`frameLen, this`frameSent
      ensures Valid() && (rc == Ok <==> old(total) < limit) && (rc == Ok || rc == Busy)
      ensures rc == Ok ==> frameSent == 0 && 0 < frameLen <= buffered && frameLen <= MAX_FRAME_SIZE
                           && frameLen <= limit - total
      ensures rc == Ok ==> frameLen == buffered || frameLen == MAX_FRAME_SIZE || frameLen == limit - total
    {
      var window;
      rc, window := SendWindow();
      if rc != Ok {
        return;
      }
      frameLen := if buffered > window then window else buffered;
      frameSent := 0;
    }

    // send_frame_payload: the connection took n more payload octets.
    method Sent(n: nat)
      requires Valid() && n <= frameLen - frameSent
      modifies this`written, this`total, this`frameSent
      ensures Valid() && total == old(total) + n && frameSent == old(frameSent) + n
      ensures total + frameLen - frameSent <= limit
    {
      WrapPlus(total, n);
      written := Wrap(written + n);
      total := total + n;
      frameSent := frameSent + n;
    }

    // flush_stream_to_client: frames while there is data and window, whatever
    // the connection takes of each.
    method Flush(data: nat) returns (rc: Rc, taken: nat)
      requires Valid() && data >= frameLen - frameSent
      modifies this
      ensures Valid() && limit == old(limit) && taken <= data
      ensures total == old(total) + taken <= limit
      ensures rc == Busy ==> total == limit
    {
      taken := 0;
      while taken < data
        invariant Valid() && limit == old(limit) && taken <= data && total == old(total) + taken
        invariant data - taken >= frameLen - frameSent
        decreases data - taken
      {
        if frameSent == frameLen {
          rc := OpenFrame(data - taken);
          if rc != Ok {
            return;
          }
        }
        var n := Accepted(frameLen - frameSent);
        if n == 0 {
          return Ok, taken;
        }
        Sent(n);
        taken := taken + n;
      }
      return Ok, taken;
    }
  }

  // ---- The frames of reports ----

  // The UPD frame that reports a total.
  function UpdFrame(id: nat, total: nat): (b: Text)
    requires id < WORD
    ensures |b| == UPD_FRAME_LEN
  {
    HeaderOctets(Header(2, Upd, UPD_LEN, id)) + UpdateOctets(Wrap(total), MAX_STREAM_BUFFER)
  }

  function UpdFrames(id: nat, told: seq<nat>): Text
    requires id < WORD
  {
    if told == [] then [] else UpdFrames(id, told[..|told| - 1]) + UpdFrame(id, told[|told| - 1])
  }

  // The client reads each report back.
  lemma ReportRead(id: nat, total: nat)
    requires id < WORD
    ensures var b := UpdFrame(id, total);
            && ParseHeader(b[..HEADER_LEN]) == Some(Header(2, Upd, UPD_LEN, id))
            && ParseUpdate(b[HEADER_LEN..]) == (Wrap(total) as nat, MAX_STREAM_BUFFER)
  {
    hide HeaderOctets, UpdateOctets, ParseHeader, ParseUpdate, Wrap;
    var h := Header(2, Upd, UPD_LEN, id);
    var b := UpdFrame(id, total);
    HeaderIsParsed(h);
    UpdateIsParsed(Wrap(total), MAX_STREAM_BUFFER);
    assert b[..HEADER_LEN] == HeaderOctets(h);
    assert b[HEADER_LEN..] == UpdateOctets(Wrap(total), MAX_STREAM_BUFFER);
  }

  // Reports one after another are whole frames, which carry no payload of any
  // stream.
  lemma {:induction false} ReportsWhole(id: nat, told: seq<nat>, stream: nat)
    requires id < WORD
    ensures Whole(UpdFrames(id, told)) && PayloadOf(stream, UpdFrames(id, told)) == []
    decreases |told|
  {
    hide ParseHeader, ParseUpdate, UpdFrame, PayloadOf, Whole, Wrap;
    NothingForNobody(stream);
    NothingWhole();
    if told != [] {
      var n := |told| - 1;
      var h, b := Header(2, Upd, UPD_LEN, id), UpdFrame(id, told[n]);
      ReportsWhole(id, told[..n], stream);
      ReportRead(id, told[n]);
      CurrentFrame(stream, b[..HEADER_LEN], h, b[HEADER_LEN..]);
      assert b[..HEADER_LEN] + b[HEADER_LEN..] == b;
      WholeThen(stream, UpdFrames(id, told[..n]), b);
    }
  }

  lemma NothingWhole()
    ensures Whole([])
  {
  }

  lemma ToldMore(id: nat, told: seq<nat>, total: nat)
    requires id < WORD
    ensures UpdFrames(id, told + [total]) == UpdFrames(id, told) + UpdFrame(id, total)
  {
    hide UpdFrame;
    assert (told + [total])[..|told|] == told;
  }

  // Reports never go back and end at the total given.
  ghost predicate Rising(told: seq<nat>, bound: nat) {
    && (forall i, j :: 0 <= i < j < |told| ==> told[i] <= told[j])
    && (forall i :: 0 <= i < |told| ==> told[i] <= bound)
  }

  // ---- Receiving ----

  class Receiver {
    const id: nat
    const updateFrame: array<byte>
    var rxConsumed: word
    var rxSinceUpdate: word
    var updateConsumed: word
    var updateQueued: bool
    var frameLen: nat
    var framePos: nat
    var updateResend: bool
    // Octets really consumed and the totals the counters stand for; started
    // once payload was delivered; the octets of UPD frames the connection took
    // and the totals of those that are complete.
    ghost var consumed: nat
    ghost var reported: nat
    ghost var framed: nat
    ghost var started: bool
    ghost var line: Text
    ghost var told: seq<nat>

    ghost predicate Counters()
      reads this`rxConsumed, this`rxSinceUpdate, this`updateConsumed, this`updateQueued
      reads this`consumed, this`reported, this`started
    {
      && rxConsumed == Wrap(consumed)
      && (started ==>
            && updateConsumed == Wrap(reported) && reported <= consumed
            && consumed - reported == rxSinceUpdate < UPDATE_THRESHOLD)
      && (!started ==> updateConsumed == 0 && rxSinceUpdate == 0 && !updateQueued && reported == 0)
    }

    // A frame in the buffer holds a total reported before; once begun it is up
    // to date unless another one is due after it.
    ghost predicate Framed()
      reads this`updateQueued, this`frameLen, this`framePos, this`updateResend
      reads this`reported, this`framed, this`started, updateFrame
    {
      && id < WORD && updateFrame.Length == UPD_FRAME_LEN
      && (frameLen == 0 || frameLen == UPD_FRAME_LEN) && framePos <= frameLen
      && (frameLen > 0 ==>
            && framePos < frameLen && updateQueued && started
            && updateFrame[..] == UpdFrame(id, framed) && framed <= reported)
      && (updateResend ==> framePos > 0)
    }

    // What the connection took is whole frames of rising reports and the part
    // of the current one that is out.
    ghost predicate Spoken()
      requires Framed()
      reads this`updateQueued, this`frameLen, this`framePos, this`updateResend
      reads this`reported, this`framed, this`started, this`line, this`told, updateFrame
    {
      && line == UpdFrames(id, told) + (if frameLen > 0 then updateFrame[..framePos] else [])
      && Rising(told, if frameLen > 0 then framed else reported)
    }

    // With nothing queued the peer has been told the latest report.
    ghost predicate UpToDate()
      reads this
    {
      && (frameLen > 0 && !updateResend ==> framed == reported)
      && (told != [] ==> started)
      && (started && !updateQueued ==> told != [] && told[|told| - 1] == reported)
    }

    ghost predicate Valid()
      reads this, updateFrame
    {
      Counters() && Framed() && Spoken() && UpToDate()
    }

    constructor (id: nat)
      requires id < WORD
      ensures Valid() && consumed == 0 && !started && told == [] && line == [] && this.id == id
      ensures fresh(updateFrame)
    {
      this.id := id;
      updateFrame := new byte[UPD_FRAME_LEN](_ => 0);
      rxConsumed, rxSinceUpdate, updateConsumed := 0, 0, 0;
      updateQueued, updateResend := false, false;
      frameLen, framePos := 0, 0;
      consumed, reported, framed := 0, 0, 0;
      started := false;
      line, told := [], [];
    }

    // The request header counts as consumed before any payload does.
    method TakeHeader(n: nat)
      requires Valid() && !started
      modifies this`rxConsumed, this`consumed
      ensures Valid() && consumed == old(consumed) + n
    {
      WrapPlus(consumed, n);
      rxConsumed := Wrap(rxConsumed + n);
      consumed := consumed + n;
    }

    // The version 2 part of mux_return_recv_tokens.
    method Deliver(n: nat)
      requires Valid() && 0 < n <= MAX_STREAM_BUFFER
      modifies this
      ensures Valid() && started && consumed == old(consumed) + n
      ensures Wrap(rxConsumed - updateConsumed) == rxSinceUpdate < UPDATE_THRESHOLD
      ensures line == old(line) && told == old(told) && framePos == old(framePos)
      ensures old(framePos) > 0 ==> frameLen == old(frameLen)
    {
      hide Wrap, Rising, UpdFrame, UpdFrames, Framed, Spoken;
      var before := rxConsumed;
      WrapPlus(consumed, n);
      rxConsumed := Wrap(rxConsumed + n);
      rxSinceUpdate := Wrap(rxSinceUpdate + n);
      WrapSmall(old(rxSinceUpdate) + n);
      consumed := consumed + n;
      if before == 0 || updateConsumed == 0 || rxSinceUpdate >= UPDATE_THRESHOLD {
        Report();
      }
      WrapMinus(consumed, reported);
      WrapSmall(consumed - reported);
    }

    // All that was consumed is to be reported.
    method Report()
      requires rxConsumed == Wrap(consumed) && reported <= consumed && Framed() && Spoken()
      requires started || (!updateQueued && told == [])
      modifies this`updateConsumed, this`rxSinceUpdate, this`updateQueued, this`frameLen, this`updateResend
      modifies this`reported, this`started
      ensures Valid() && started && reported == consumed
      ensures old(framePos) > 0 ==> frameLen == old(frameLen)
    {
      hide Wrap, Rising, UpdFrame, UpdFrames;
      RisingOn(told, if frameLen > 0 then framed else reported, consumed);
      started := true;
      updateConsumed := rxConsumed;
      reported := consumed;
      rxSinceUpdate := 0;
      QueueUpdate();
    }

    lemma RisingOn(t: seq<nat>, a: nat, b: nat)
      ensures Rising(t, a) && a <= b ==> Rising(t, b)
    {
    }

    // mux_queue_update: a frame not begun is packed again, one begun is
    // followed by another.
    method QueueUpdate()
      requires Counters() && Framed() && Spoken() && started
      requires Rising(told, reported)
      requires frameLen > 0 && framePos == 0 ==> updateQueued
      modifies this`updateQueued, this`frameLen, this`updateResend
      ensures Valid() && updateQueued
      ensures old(framePos) > 0 ==> frameLen == old(frameLen)
    {
      hide Wrap, Rising, UpdFrame, UpdFrames;
      if !updateQueued {
        updateQueued := true;
        return;
      }
      if framePos == 0 {
        frameLen := 0;
        return;
      }
      updateResend := true;
    }

    // mux_pack_update_frame.
    method PackFrame()
      requires id < WORD && updateFrame.Length == UPD_FRAME_LEN && updateConsumed == Wrap(reported)
      modifies this`frameLen, this`framePos, this`framed, updateFrame
      ensures updateFrame[..] == UpdFrame(id, reported) && framed == reported
      ensures frameLen == UPD_FRAME_LEN && framePos == 0
    {
      hide HeaderOctets, UpdateOctets, Wrap;
      var ok := PackHeader(updateFrame, 0, 2, 4, UPD_LEN, id);
      assert ok;
      ghost var head := updateFrame[..HEADER_LEN];
      assert head == HeaderOctets(Header(2, Upd, UPD_LEN, id)) by {
        assert head == updateFrame[0..0 + HEADER_LEN];
      }
      ok := PackUpdate(updateFrame, HEADER_LEN, updateConsumed, MAX_STREAM_BUFFER);
      assert updateFrame[..HEADER_LEN] == head;
      assert updateFrame[..] == updateFrame[..HEADER_LEN] + updateFrame[HEADER_LEN..HEADER_LEN + UPD_LEN];
      framed := reported;
      frameLen, framePos := UPD_FRAME_LEN, 0;
    }

    // The connection takes some of what is left of the frame.
    method SendBytes() returns (n: nat)
      requires framePos <= frameLen <= updateFrame.Length
      modifies this`line
      ensures n <= frameLen - framePos && line == old(line) + updateFrame[framePos..framePos + n]
    {
      n := Accepted(frameLen - framePos);
      line := line + updateFrame[framePos..framePos + n];
    }

    // The frame is out: another one follows if a report came up meanwhile.
    method EndFrame()
      requires Counters() && started && framed <= reported && !updateQueued
      requires id < WORD && updateFrame.Length == UPD_FRAME_LEN
      requires frameLen == 0 && framePos == 0 && Rising(told, reported) && told != [] && told[|told| - 1] == framed
      requires line == UpdFrames(id, told) && (!updateResend ==> framed == reported)
      modifies this`updateQueued, this`frameLen, this`updateResend
      ensures Valid()
    {
      hide Wrap, Rising, UpdFrame, UpdFrames;
      assert line == UpdFrames(id, told) + [];
      if updateResend {
        updateResend := false;
        QueueUpdate();
      }
    }

    // One stream's turn in mux_flush_updates.
    method FlushUpdate() returns (done: bool)
      requires Valid() && updateQueued
      modifies this`updateQueued, this`frameLen, this`framePos, this`updateResend
      modifies this`framed, this`line, this`told, updateFrame
      ensures Valid() && old(line) <= line
      ensures old(framePos) > 0 ==> updateFrame[..] == old(updateFrame[..]) && framed == old(framed)
      ensures done ==> told == old(told) + [framed]
      ensures !done ==> told == old(told) && framePos >= old(framePos)
    {
      hide Wrap, Rising, UpdFrame, UpdFrames;
      FrameReady();
      ghost var whole := UpdFrames(id, told);
      var n := SendBytes();
      Onward(whole, updateFrame[..], framePos, n);
      assert updateFrame[..][framePos..framePos + n] == updateFrame[framePos..framePos + n];
      assert updateFrame[..][..framePos] == updateFrame[..framePos];
      assert updateFrame[..][..framePos + n] == updateFrame[..framePos + n];
      if n < frameLen - framePos {
        framePos := framePos + n;
        return false;
      }
      updateQueued := false;
      ToldMore(id, told, framed);
      RisingMore(told, framed, reported);
      told := told + [framed];
      frameLen := 0;
      framePos := 0;
      EndFrame();
      return true;
    }

    // A frame that is not there yet is packed.
    method FrameReady()
      requires Valid() && updateQueued
      modifies this`frameLen, this`framePos, this`framed, updateFrame
      ensures Valid() && frameLen == UPD_FRAME_LEN && framePos == old(framePos)
      ensures old(framePos) > 0 ==> updateFrame[..] == old(updateFrame[..]) && framed == old(framed)
    {
      hide Wrap, Rising, UpdFrame, UpdFrames;
      if frameLen == 0 {
        PackFrame();
        assert updateFrame[..0] == [];
      }
    }

    lemma Onward(whole: Text, b: Text, p: nat, n: nat)
      requires p + n <= |b|
      ensures whole + b[..p] + b[p..p + n] == whole + b[..p + n]
      ensures p + n == |b| ==> b[..p + n] == b
    {
      assert b[..p] + b[p..p + n] == b[..p + n];
    }

    lemma RisingMore(t: seq<nat>, a: nat, b: nat)
      requires Rising(t, a) && a <= b
      ensures Rising(t + [a], b)
    {
    }

    // In every state what the connection took is whole UPD frames and the
    // start of one; the reports rise, none is of more than was consumed, and
    // with nothing queued the peer is behind by less than the threshold, which
    // leaves it half a buffer of window.
    lemma PeerKeepsUp()
      requires Valid()
      ensures UpdFrames(id, told) <= line && |line| < |UpdFrames(id, told)| + UPD_FRAME_LEN
      ensures line != UpdFrames(id, told) ==> line <= UpdFrames(id, told) + UpdFrame(id, framed) && framed <= consumed
      ensures Rising(told, consumed)
      ensures started && !updateQueued ==> told != [] && consumed - told[|told| - 1] < UPDATE_THRESHOLD
    {
      hide Wrap, UpdFrame, UpdFrames;
      if frameLen > 0 {
        assert updateFrame[..framePos] <= updateFrame[..];
      }
    }
  }
}
