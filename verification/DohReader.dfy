// The DoH response reader: one buffer, compacted in place, that is handed
// whatever recv returns.
module DohReader {
  import opened Bytes
  import opened DohStream

  datatype Received = Again | Broken | Eof | Data(bytes: Text)

  datatype ReadState = AtStatus | InHeaders | InBody

  lemma AdvanceTurn(ph: Phase, t: Text)
    ensures Advance(ph, t) == match TurnOf(ph, t)
                              case Stay => More(ph, t)
                              case Fail => Failed
                              case Finish(b) => Done(b)
                              case Go(next, used) => Advance(next, t[used..])
  {
  }

  // doh_find_crlf: scan says how much was looked at before, so that no line
  // end is missed across two reads and none is looked for twice.
  method FindCrlf(buf: array<byte>, start: nat, end: nat, scan: nat) returns (p: Option<nat>, next: nat)
    requires start <= end <= buf.Length
    requires ScanOk(buf[start..end], scan)
    ensures p == FirstCrlf(buf[start..end])
    ensures p.None? ==> ScanOk(buf[start..end], next) && next <= end - start
  {
    ghost var b := buf[start..end];
    var len := end - start;
    if len < 2 {
      return None, 0;
    }
    var i := if scan > 0 then scan - 1 else 0;
    while i + 1 < len
      invariant i <= len && forall k :: 0 <= k < i && k + 1 < len ==> !(b[k] == CR && b[k + 1] == LF)
      decreases len - i
    {
      assert buf[start + i] == b[i] && buf[start + i + 1] == b[i + 1];
      if buf[start + i] == CR && buf[start + i + 1] == LF {
        FirstCrlfIs(b, i);
        return Some(i), scan;
      }
      i := i + 1;
    }
    return None, len - 1;
  }

  // No line end starts before the cursor.
  ghost predicate ScanOk(b: Text, scan: nat) {
    scan <= |b| && forall k :: 0 <= k < scan && k + 1 < |b| ==> k + 1 >= scan || !(b[k] == CR && b[k + 1] == LF)
  }

  lemma ScanGrows(b: Text, more: Text, scan: nat)
    requires ScanOk(b, scan)
    ensures ScanOk(b + more, scan)
  {
  }

  // memmove to a lower place in the same buffer.
  method MoveDown(buf: array<byte>, dst: nat, src: nat, n: nat)
    requires dst <= src && src + n <= buf.Length
    modifies buf
    ensures buf[dst..dst + n] == old(buf[src..src + n])
    ensures buf[..dst] == old(buf[..dst])
    ensures forall k :: dst + n <= k < buf.Length ==> buf[k] == old(buf[k])
  {
    forall k | dst <= k < dst + n {
      buf[k] := buf[k - dst + src];
    }
  }

  class Reader {
    const buf: array<byte>
    var recvPos: nat
    var state: ReadState
    var scan: nat
    var fields: Fields
    var decodedLen: nat
    var result: Option<Option<Text>>
    ghost var wire: Text

    ghost function PhaseNow(): Phase
      requires decodedLen <= buf.Length
      reads this`state, this`fields, this`decodedLen, buf
    {
      match state
      case AtStatus => Status
      case InHeaders => Headers(fields)
      case InBody => Body(fields, buf[..decodedLen])
    }

    ghost function Now(): Reading
      requires decodedLen <= recvPos <= buf.Length
      reads this`state, this`fields, this`decodedLen, this`recvPos, this`result, buf
    {
      match result
      case Some(Some(body)) => Done(body)
      case Some(None) => Failed
      case None => More(PhaseNow(), buf[decodedLen..recvPos])
    }

    ghost predicate Shape()
      reads this, buf
    {
      && buf.Length == MAX && decodedLen <= recvPos <= MAX
      && (state != InBody || !fields.chunked ==> decodedLen == 0)
      && (result.None? && state != InBody ==> ScanOk(buf[..recvPos], scan))
    }

    // What was made of the response so far is what its octets say, however
    // they came in.
    ghost predicate Valid()
      reads this, buf
    {
      Shape() && Limited(Now()) == Meaning(wire)
    }

    constructor ()
      ensures Valid() && fresh(buf) && wire == [] && result.None?
    {
      buf := new byte[MAX](_ => 0);
      recvPos, scan, decodedLen := 0, 0, 0;
      state := AtStatus;
      fields := Fields(0, 0, None, false, false, false);
      result := None;
      wire := [];
      new;
      assert buf[decodedLen..recvPos] == [];
    }

    // The status line, once it is complete.
    method ReadStatus() returns (more: bool, start: nat)
      requires Shape() && result.None? && state == AtStatus
      modifies this`state, this`scan, this`fields, this`result
      ensures buf.Length == MAX && decodedLen == 0 && start <= recvPos <= MAX
      ensures if more then state == InHeaders && result.None? && scan == 0
                           && Advance(Headers(fields), buf[start..recvPos]) == old(Advance(Status, buf[..recvPos]))
              else Shape() && Now() == old(Advance(Status, buf[..recvPos]))
    {
      hide StatusLine, Advance;
      start := 0;
      assert buf[0..recvPos] == buf[..recvPos] == buf[decodedLen..recvPos];
      AdvanceTurn(Status, buf[..recvPos]);
      var p, next := FindCrlf(buf, 0, recvPos, scan);
      if p.None? {
        scan := next;
        return false, 0;
      }
      var k := p.value;
      assert buf[..recvPos][..k] == buf[..k];
      var line := StatusLine(buf[..k]);
      if line.None? {
        result := Some(None);
        return false, 0;
      }
      fields := line.value;
      scan := 0;
      state := InHeaders;
      assert buf[..recvPos][k + 2..] == buf[k + 2..recvPos];
      return true, k + 2;
    }

    // The header lines from start on; the unfinished one moves to the front.
    method ReadHeaders(start: nat) returns (body: bool)
      requires buf.Length == MAX && decodedLen == 0 && start <= recvPos <= MAX
      requires result.None? && state == InHeaders && ScanOk(buf[start..recvPos], scan)
      modifies this`recvPos, this`state, this`scan, this`fields, this`result, buf
      ensures Shape() && (body ==> result.None? && state == InBody)
      ensures old(Advance(Headers(fields), buf[start..recvPos]))
           == if body then Advance(Body(fields, []), buf[..recvPos]) else Now()
    {
      hide Advance;
      var line: nat, done := start, false;
      body := false;
      while !done
        invariant buf.Length == MAX && decodedLen == 0 && line <= recvPos <= MAX
        invariant if done then
                    Shape() && (body ==> result.None? && state == InBody)
                    && old(Advance(Headers(fields), buf[start..recvPos]))
                       == if body then Advance(Body(fields, []), buf[..recvPos]) else Now()
                  else
                    result.None? && state == InHeaders && ScanOk(buf[line..recvPos], scan) && !body
                    && Advance(Headers(fields), buf[line..recvPos]) == old(Advance(Headers(fields), buf[start..recvPos]))
        decreases recvPos - line, !done
      {
        done, body, line := HeaderTurn(line);
      }
    }

    // One line.
    method HeaderTurn(line: nat) returns (done: bool, body: bool, next: nat)
      requires buf.Length == MAX && decodedLen == 0 && line <= recvPos <= MAX
      requires result.None? && state == InHeaders && ScanOk(buf[line..recvPos], scan)
      modifies this`recvPos, this`state, this`scan, this`fields, this`result, buf
      ensures next <= recvPos <= MAX && recvPos - next <= old(recvPos) - line
      ensures if done then
                Shape() && (body ==> result.None? && state == InBody)
                && old(Advance(Headers(fields), buf[line..recvPos]))
                   == if body then Advance(Body(fields, []), buf[..recvPos]) else Now()
              else
                line < next && recvPos == old(recvPos) && result.None? && state == InHeaders && !body
                && ScanOk(buf[next..recvPos], scan)
                && Advance(Headers(fields), buf[next..recvPos]) == old(Advance(Headers(fields), buf[line..recvPos]))
    {
      hide HeaderLine, Advance, FirstCrlf;
      ghost var t := buf[line..recvPos];
      AdvanceTurn(Headers(fields), t);
      done, body, next := true, false, 0;
      var p, afresh := FindCrlf(buf, line, recvPos, scan);
      if p.None? {
        scan := afresh;
        Compact(line);
        return;
      }
      var k := p.value;
      if fields.bytes + k + 2 > MAX {
        result := Some(None);
        next := line;
        return;
      }
      fields := fields.(bytes := fields.bytes + k + 2);
      if k == 0 {
        assert t[2..] == buf[line + 2..recvPos];
        body := StartBody(line + 2);
        return;
      }
      assert t[..k] == buf[line..line + k];
      var parsed := HeaderLine(fields, buf[line..line + k]);
      if parsed.None? {
        result := Some(None);
        next := line;
        return;
      }
      assert t[k + 2..] == buf[line + k + 2..recvPos];
      fields := parsed.value;
      scan := 0;
      done, next := false, line + k + 2;
    }

    // What is not yet understood moves to the front of the buffer.
    method Compact(line: nat)
      requires buf.Length == MAX && line <= recvPos <= MAX && decodedLen == 0
      modifies this`recvPos, buf
      ensures recvPos == old(recvPos) - line && buf[..recvPos] == old(buf[line..recvPos])
    {
      var tail := recvPos - line;
      if tail != 0 && line != 0 {
        MoveDown(buf, 0, line, tail);
      }
      assert line == 0 ==> buf[0..tail] == buf[..tail];
      recvPos := tail;
    }

    // The empty line: the body begins at the front of the buffer.
    method StartBody(from: nat) returns (body: bool)
      requires buf.Length == MAX && from <= recvPos <= MAX && decodedLen == 0 && result.None?
      modifies this`recvPos, this`state, this`result, buf
      ensures buf.Length == MAX && recvPos == old(recvPos) - from && buf[..recvPos] == old(buf[from..recvPos])
      ensures state == InBody && body == (200 <= fields.status < 300)
      ensures result == if body then None else Some(None)
    {
      Compact(from);
      state := InBody;
      body := 200 <= fields.status < 300;
      result := if body then None else Some(None);
    }

    // doh_body_ready without the end of the connection.
    method BodyReady()
      requires Shape() && result.None? && state == InBody
      modifies this`recvPos, this`decodedLen, this`result, buf
      ensures Shape()
      ensures Now() == old(Advance(Body(fields, buf[..decodedLen]), buf[decodedLen..recvPos]))
    {
      hide Advance, Chunk;
      if fields.chunked {
        DecodeChunked();
        return;
      }
      AdvanceTurn(Body(fields, buf[..decodedLen]), buf[decodedLen..recvPos]);
      assert buf[decodedLen..recvPos] == buf[..recvPos];
      if fields.length.Some? && recvPos >= fields.length.value {
        assert buf[..recvPos][..fields.length.value] == buf[..fields.length.value];
        result := Some(Some(buf[..fields.length.value]));
      }
    }

    // doh_decode_chunked: whole chunks move down behind the decoded octets,
    // what is left of the last one right behind them.
    method DecodeChunked()
      requires Shape() && result.None? && state == InBody && fields.chunked
      modifies this`recvPos, this`decodedLen, this`result, buf
      ensures Shape()
      ensures Now() == old(Advance(Body(fields, buf[..decodedLen]), buf[decodedLen..recvPos]))
    {
      hide Advance, TurnOf;
      var line, done := decodedLen, false;
      while !done
        invariant decodedLen <= line <= recvPos <= MAX == buf.Length
        invariant if done then Shape() && Now() == old(Advance(Body(fields, buf[..decodedLen]), buf[decodedLen..recvPos]))
                  else result.None? && Advance(Body(fields, buf[..decodedLen]), buf[line..recvPos])
                                       == old(Advance(Body(fields, buf[..decodedLen]), buf[decodedLen..recvPos]))
        decreases recvPos - line, !done
      {
        done, line := DecodeTurn(line);
      }
    }

    // One chunk.
    method DecodeTurn(line: nat) returns (done: bool, next: nat)
      requires buf.Length == MAX && decodedLen <= line <= recvPos <= MAX
      requires result.None? && state == InBody && fields.chunked
      modifies this`recvPos, this`decodedLen, this`result, buf
      ensures decodedLen <= next <= recvPos <= MAX && recvPos - next <= old(recvPos) - line
      ensures if done then
                Shape() && Now() == old(Advance(Body(fields, buf[..decodedLen]), buf[line..recvPos]))
              else
                && line < next && recvPos == old(recvPos) && result.None?
                && Advance(Body(fields, buf[..decodedLen]), buf[next..recvPos])
                   == old(Advance(Body(fields, buf[..decodedLen]), buf[line..recvPos]))
    {
      hide Advance, Chunk;
      ghost var d, t := buf[..decodedLen], buf[line..recvPos];
      AdvanceTurn(Body(fields, d), t);
      var c := NextChunk(line, recvPos);
      match c {
        case Wait =>
          KeepTail(line);
          return true, decodedLen;
        case Bad =>
          result := Some(None);
          return true, line;
        case Last =>
          result := Some(Some(buf[..decodedLen]));
          recvPos := decodedLen;
          return true, decodedLen;
        case Full(from, to) =>
          ChunkRoom(t, from, to);
          TakeFull(line, from, to);
          return false, line + to + 2;
      }
    }

    // The octets from..to behind line are the data of a chunk.
    method TakeFull(line: nat, from: nat, to: nat)
      requires buf.Length == MAX && decodedLen <= line && line + to + 2 <= recvPos <= MAX && from <= to
      modifies this`decodedLen, buf
      ensures decodedLen <= line + to
      ensures buf[..decodedLen] == old(buf[..decodedLen]) + old(buf[line..recvPos])[from..to]
      ensures buf[line + to + 2..recvPos] == old(buf[line..recvPos])[to + 2..]
    {
      ghost var b := buf[..];
      assert b[line..recvPos] == buf[line..recvPos];
      Parts(b, line, recvPos, from, to);
      TakeChunk(line + from, line + to, recvPos);
    }

    lemma Parts(b: Text, line: nat, end: nat, from: nat, to: nat)
      requires line <= end <= |b| && from <= to && line + to + 2 <= end
      ensures b[line..end][from..to] == b[line + from..line + to]
      ensures b[line..end][to + 2..] == b[line + to + 2..end]
    {
      var t := b[line..end];
      assert forall k :: 0 <= k < |t| ==> t[k] == b[line + k];
      assert t[from..to] == b[line + from..line + to];
    }

    // A chunk moves down behind the octets decoded before.
    method TakeChunk(from: nat, to: nat, ghost end: nat)
      requires buf.Length == MAX && decodedLen <= from <= to && to + 2 <= end <= MAX
      modifies this`decodedLen, buf
      ensures decodedLen == old(decodedLen) + (to - from)
      ensures buf[..decodedLen] == old(buf[..decodedLen]) + old(buf[from..to])
      ensures buf[to + 2..end] == old(buf[to + 2..end])
    {
      MoveDown(buf, decodedLen, from, to - from);
      decodedLen := decodedLen + (to - from);
      assert buf[..decodedLen] == buf[..old(decodedLen)] + buf[old(decodedLen)..decodedLen];
    }

    // An unfinished chunk moves down behind the decoded octets.
    method KeepTail(line: nat)
      requires buf.Length == MAX && decodedLen <= line <= recvPos <= MAX
      modifies this`recvPos, buf
      ensures recvPos == decodedLen + (old(recvPos) - line)
      ensures buf[decodedLen..recvPos] == old(buf[line..recvPos]) && buf[..decodedLen] == old(buf[..decodedLen])
    {
      if recvPos != line && line != decodedLen {
        MoveDown(buf, decodedLen, line, recvPos - line);
      }
      recvPos := decodedLen + (recvPos - line);
    }

    lemma ChunkRoom(t: Text, from: nat, to: nat)
      requires Chunk(t) == Full(from, to)
      ensures from < to && to + 2 <= |t|
    {
    }

    // One chunk header, its trailers or its data, without moving anything.
    method NextChunk(line: nat, end: nat) returns (c: Piece)
      requires buf.Length == MAX && line <= end <= MAX
      ensures c == Chunk(buf[line..end])
    {
      hide SizeFrom, Trailers;
      ghost var t := buf[line..end];
      StartOk(t);
      var p, next := FindCrlf(buf, line, end, 0);
      if p.None? {
        return Wait;
      }
      var k := p.value;
      assert t[..k] == buf[line..line + k];
      var size := ChunkSize(line, line + k);
      if size.None? {
        return Bad;
      }
      if size.value == 0 {
        c := ReadTrailers(line, line + k + 2, end);
        return;
      }
      var chunk := line + k + 2;
      if end - chunk < size.value + 2 {
        return Wait;
      }
      if buf[chunk + size.value] != CR || buf[chunk + size.value + 1] != LF {
        return Bad;
      }
      return Full(k + 2, k + 2 + size.value);
    }

    lemma StartOk(b: Text)
      ensures ScanOk(b, 0)
    {
    }

    // The hexadecimal size of a chunk, up to an extension.
    method ChunkSize(from: nat, to: nat) returns (size: Option<nat>)
      requires buf.Length == MAX && from <= to <= MAX
      ensures size == SizeFrom(buf[from..to], 0, 0)
    {
      ghost var l := buf[from..to];
      var q: nat, v: nat := from, 0;
      while q < to && buf[q] != SEMICOLON
        invariant from <= q <= to && v <= MAX && SizeFrom(l, 0, 0) == SizeFrom(l, q - from, v)
      {
        assert l[q - from] == buf[q];
        var d := HexDigit(buf[q]);
        if d.None? || v > (MAX - d.value) / 16 {
          return None;
        }
        v := 16 * v + d.value;
        q := q + 1;
      }
      assert q < to ==> l[q - from] == buf[q];
      return if q > from then Some(v) else None;
    }

    // The lines after the last chunk, up to the empty one.
    method ReadTrailers(line: nat, from: nat, end: nat) returns (c: Piece)
      requires buf.Length == MAX && line <= from <= end <= MAX
      ensures c == Trailers(buf[line..end], from - line)
    {
      hide FirstCrlf;
      ghost var t := buf[line..end];
      var trailers := from;
      while true
        invariant line <= trailers <= end && Trailers(t, from - line) == Trailers(t, trailers - line)
        decreases end - trailers
      {
        assert t[trailers - line..] == buf[trailers..end];
        StartOk(buf[trailers..end]);
        var p, next := FindCrlf(buf, trailers, end, 0);
        if p.None? {
          return Wait;
        }
        if p.value == 0 {
          return Last;
        }
        trailers := trailers + p.value + 2;
      }
    }

    // All that can be made of what is in the buffer.
    method Digest()
      requires Shape() && result.None?
      modifies this`recvPos, this`state, this`scan, this`fields, this`decodedLen, this`result, buf
      ensures Shape()
      ensures Now() == old(Advance(PhaseNow(), buf[decodedLen..recvPos]))
    {
      hide Advance;
      var start: nat, more := 0, true;
      assert state != InBody ==> buf[decodedLen..recvPos] == buf[..recvPos] == buf[0..recvPos];
      assert state == InBody && decodedLen == 0 ==> buf[..decodedLen] == [];
      if state == AtStatus {
        more, start := ReadStatus();
        if !more {
          return;
        }
        ScanFresh(buf[start..recvPos]);
      }
      if state == InHeaders {
        more := ReadHeaders(start);
        if !more {
          return;
        }
        assert buf[decodedLen..recvPos] == buf[..recvPos] && buf[..decodedLen] == [];
      }
      BodyReady();
    }

    lemma ScanFresh(b: Text)
      ensures ScanOk(b, 0)
    {
    }

    // Nothing waits in a full buffer: Kept is what the buffer holds.
    lemma KeptIsHeld()
      requires Shape() && result.None?
      ensures Kept(Now()) == recvPos
    {
    }

    // recv: whatever it returns when asked for n octets, wire is all of it so
    // far.
    method Recv(n: nat) returns (r: Received)
      modifies this`wire
      ensures r.Data? ==> 0 < |r.bytes| <= n
      ensures wire == if r.Data? then old(wire) + r.bytes else old(wire)
    {
      r := *;
      if r.Data? && !(0 < |r.bytes| <= n) {
        r := Again;
      }
      wire := if r.Data? then wire + r.bytes else wire;
    }

    // What recv returned goes behind what is there.
    method TakeIn(bytes: Text)
      requires Shape() && result.None? && recvPos + |bytes| <= MAX
      modifies this`recvPos, buf
      ensures Shape() && recvPos == old(recvPos) + |bytes|
      ensures PhaseNow() == old(PhaseNow())
      ensures buf[decodedLen..recvPos] == old(buf[decodedLen..recvPos]) + bytes
    {
      ghost var before := buf[..recvPos];
      forall k | recvPos <= k < recvPos + |bytes| {
        buf[k] := bytes[k - recvPos];
      }
      if state != InBody {
        ScanGrows(before, bytes, scan);
      }
      recvPos := recvPos + |bytes|;
      assert buf[..recvPos] == before + bytes;
      assert buf[..decodedLen] == before[..decodedLen];
    }

    // The connection ended: a body without a length is what is there.
    method FinishAtEof()
      requires Shape() && result.None? && Advance(PhaseNow(), buf[decodedLen..recvPos]) == Now()
      modifies this`recvPos, this`decodedLen, this`result, buf
      ensures Shape() && Now() == AtEof(old(Now()))
    {
      hide Advance;
      assert decodedLen == 0 ==> buf[decodedLen..recvPos] == buf[..recvPos];
      if state == InBody {
        if fields.chunked || fields.length.Some? {
          BodyReady();
        } else if recvPos > 0 {
          result := Some(Some(buf[..recvPos]));
        }
      }
      if result.None? {
        result := Some(None);
      }
    }

    // doh_read_handler.
    method ReadHandler() returns (r: Received)
      requires Valid() && result.None?
      modifies this, buf
      ensures r.Data? ==> Valid() && wire == old(wire) + r.bytes
      ensures r.Again? ==> Valid() && wire == old(wire)
      ensures r.Eof? ==> Shape() && wire == old(wire) && Now() == AtEof(Meaning(wire))
      ensures r.Broken? ==> result == Some(None)
    {
      hide Advance, Meaning, AtEof;
      KeptIsHeld();
      if recvPos == MAX {
        result := Some(None);
        return Again;
      }
      ghost var before := wire;
      r := Recv(MAX - recvPos);
      match r {
        case Again =>
        case Broken =>
          result := Some(None);
        case Eof =>
          MeaningRests(wire);
          FinishAtEof();
        case Data(bytes) =>
          FeedStep(before, bytes);
          TakeIn(bytes);
          Digest();
      }
    }
  }
}
