// What a stream of WebSocket frames says (sections 5.4 and 5.5 of RFC 6455):
// the application octets, the control frames, and how it ends.  This is the
// reference the incremental reader and the framer are held to.
module WsStream {
  import opened Bytes
  import opened WsCodec

  datatype End = Open | ClosedBy(payload: Text) | Violation(code: nat)

  datatype Control = Control(opcode: byte, payload: Text)

  datatype Got = Got(data: Text, controls: seq<Control>, end: End)

  const Nothing := Got([], [], Open)

  function Join(a: Got, b: Got): Got {
    Got(a.data + b.data, a.controls + b.controls, b.end)
  }

  lemma JoinAssoc(a: Got, b: Got, c: Got)
    ensures Join(Join(a, b), c) == Join(a, Join(b, c)) && Join(a, b).end == b.end
  {
    assert (a.data + b.data) + c.data == a.data + (b.data + c.data);
    assert (a.controls + b.controls) + c.controls == a.controls + (b.controls + c.controls);
  }

  lemma JoinNothing(a: Got)
    ensures Join(Nothing, a) == a
  {
  }

  predicate IsData(f: Frame) {
    f.opcode == BINARY || f.opcode == CONT
  }

  // Close code of a frame that may not come now; masked tells the direction.
  function Refused(f: Frame, fragmented: bool, masked: bool): Option<nat> {
    if f.masked != masked then Some(1002)
    else if f.opcode == BINARY then if fragmented then Some(1002) else None
    else if f.opcode == CONT then if fragmented then None else Some(1002)
    else if f.opcode == TEXT then Some(1003)
    else None
  }

  function FragmentedAfter(f: Frame, fragmented: bool): bool {
    if f.opcode == BINARY && !f.fin then true
    else if f.opcode == CONT && f.fin then false
    else fragmented
  }

  function Clear(f: Frame, body: Text, offset: nat): (r: Text)
    requires f.masked ==> |f.mask| == 4
    ensures |r| == |body|
  {
    if f.masked then Masked(body, f.mask, offset) else body
  }

  lemma ClearParts(f: Frame, a: Text, b: Text, offset: nat)
    requires f.masked ==> |f.mask| == 4
    ensures Clear(f, a + b, offset) == Clear(f, a, offset) + Clear(f, b, offset + |a|)
  {
    if f.masked {
      MaskedParts(a, b, f.mask, offset);
    }
  }

  // The meaning of y, read at a frame boundary.
  ghost function Deframe(y: Text, fragmented: bool, masked: bool): Got
    decreases |y|, 0
  {
    match ParseHeader(y)
    case NeedMore(_) => Nothing
    case Bad => Got([], [], Violation(1002))
    case Header(f) =>
      var refused := Refused(f, fragmented, masked);
      if refused.Some? then Got([], [], Violation(refused.value))
      else Body(f, f.length, 0, [], y[f.headerLen..], fragmented, masked)
  }

  // The meaning of y inside a frame: remaining octets to come, offset octets
  // read, control what a control frame brought so far.
  ghost function Body(f: Frame, remaining: nat, offset: nat, control: Text, y: Text,
                      fragmented: bool, masked: bool): Got
    requires f.masked ==> |f.mask| == 4
    decreases |y|, 1
  {
    if |y| < remaining then
      if IsData(f) then Got(Clear(f, y, offset), [], Open) else Nothing
    else
      var part, rest := Clear(f, y[..remaining], offset), y[remaining..];
      if IsData(f) then Join(Got(part, [], Open), Deframe(rest, FragmentedAfter(f, fragmented), masked))
      else if f.opcode == CLOSE then Got([], [], ClosedBy(control + part))
      else Join(Got([], [Control(f.opcode, control + part)], Open), Deframe(rest, fragmented, masked))
  }

  lemma DataBodySplit(f: Frame, remaining: nat, offset: nat, control: Text, a: Text, y: Text,
                      fragmented: bool, masked: bool)
    requires (f.masked ==> |f.mask| == 4) && IsData(f) && |a| <= remaining
    ensures Body(f, remaining, offset, control, a + y, fragmented, masked)
         == Join(Got(Clear(f, a, offset), [], Open),
                 Body(f, remaining - |a|, offset + |a|, control, y, fragmented, masked))
  {
    var r := remaining - |a|;
    if |y| < r {
      ClearParts(f, a, y, offset);
    } else {
      assert (a + y)[..remaining] == a + y[..r] && (a + y)[remaining..] == y[r..];
      ClearParts(f, a, y[..r], offset);
    }
  }

  lemma ControlBodySplit(f: Frame, remaining: nat, offset: nat, control: Text, a: Text, y: Text,
                         fragmented: bool, masked: bool)
    requires (f.masked ==> |f.mask| == 4) && !IsData(f) && |a| <= remaining
    ensures Body(f, remaining, offset, control, a + y, fragmented, masked)
         == Body(f, remaining - |a|, offset + |a|, control + Clear(f, a, offset), y, fragmented, masked)
  {
    var r := remaining - |a|;
    if |y| >= r {
      assert (a + y)[..remaining] == a + y[..r] && (a + y)[remaining..] == y[r..];
      ClearParts(f, a, y[..r], offset);
      assert control + (Clear(f, a, offset) + Clear(f, y[..r], offset + |a|))
          == control + Clear(f, a, offset) + Clear(f, y[..r], offset + |a|);
    }
  }

  lemma BodyEnd(f: Frame, offset: nat, control: Text, y: Text, fragmented: bool, masked: bool)
    requires f.masked ==> |f.mask| == 4
    ensures Body(f, 0, offset, control, y, fragmented, masked)
         == if IsData(f) then Deframe(y, FragmentedAfter(f, fragmented), masked)
            else if f.opcode == CLOSE then Got([], [], ClosedBy(control))
            else Join(Got([], [Control(f.opcode, control)], Open), Deframe(y, fragmented, masked))
  {
    assert y[..0] == [] && y[0..] == y && control + [] == control;
  }

  lemma HeaderRead(h: Text, y: Text, fragmented: bool, masked: bool)
    requires ParseHeader(h).Header? && ParseHeader(h).frame.headerLen == |h|
    ensures var f := ParseHeader(h).frame;
            Deframe(h + y, fragmented, masked)
            == if Refused(f, fragmented, masked).Some?
               then Got([], [], Violation(Refused(f, fragmented, masked).value))
               else Body(f, f.length, 0, [], y, fragmented, masked)
  {
    VerdictStands(h, y);
    assert (h + y)[|h|..] == y;
  }

  // ---- A reader in the middle of the stream ----

  datatype State =
    | Head(header: Text, fragmented: bool)
    | Inside(frame: Frame, remaining: nat, offset: nat, control: Text, fragmented: bool)
    | Ended(end: End)

  predicate StateOk(st: State) {
    st.Inside? && st.frame.masked ==> |st.frame.mask| == 4
  }

  ghost function Meaning(st: State, y: Text, masked: bool): Got
    requires StateOk(st)
  {
    match st
    case Head(h, fragmented) => Deframe(h + y, fragmented, masked)
    case Inside(f, remaining, offset, control, fragmented) =>
      Body(f, remaining, offset, control, y, fragmented, masked)
    case Ended(end) => Got([], [], end)
  }

  // wire has been taken apart down to raw: got is what came out of it, and
  // whatever follows means the same read from here as from the start.
  ghost predicate Faithful(wire: Text, raw: Text, got: Got, st: State, masked: bool)
    requires StateOk(st)
  {
    && got.end == Open
    && forall x: Text {:trigger wire + x} ::
         Deframe(wire + x, false, masked) == Join(got, Meaning(st, raw + x, masked))
  }

  // Before the first octet.
  lemma FaithfulStart(wire: Text, raw: Text, masked: bool)
    requires wire == [] && raw == []
    ensures Faithful(wire, raw, Nothing, Head([], false), masked)
  {
    hide Deframe, Meaning;
    forall x: Text
      ensures Deframe(wire + x, false, masked) == Join(Nothing, Meaning(Head([], false), raw + x, masked))
    {
      StartsEmpty(raw, x, masked);
      assert wire + x == raw + x;
    }
  }

  lemma StartsEmpty(raw: Text, x: Text, masked: bool)
    requires raw == []
    ensures Join(Nothing, Meaning(Head([], false), raw + x, masked)) == Deframe(raw + x, false, masked)
  {
    hide Deframe;
    assert [] + (raw + x) == raw + x;
    JoinNothing(Deframe(raw + x, false, masked));
  }

  lemma FaithfulReceived(wire: Text, raw: Text, got: Got, st: State, masked: bool, more: Text)
    requires StateOk(st) && Faithful(wire, raw, got, st, masked)
    ensures Faithful(wire + more, raw + more, got, st, masked)
  {
    hide Deframe, Meaning, Join;
    forall x: Text
      ensures Deframe(wire + more + x, false, masked) == Join(got, Meaning(st, raw + more + x, masked))
    {
      assert wire + more + x == wire + (more + x);
      assert raw + more + x == raw + (more + x);
    }
  }

  // A turn that changes neither the wire nor the meaning of what follows.
  lemma FaithfulStep(wire: Text, raw: Text, got: Got, st: State, masked: bool,
                     raw': Text, out: Got, st': State)
    requires StateOk(st) && StateOk(st') && Faithful(wire, raw, got, st, masked) && out.end == Open
    requires forall x: Text :: Meaning(st, raw + x, masked) == Join(out, Meaning(st', raw' + x, masked))
    ensures Faithful(wire, raw', Join(got, out), st', masked)
  {
    hide Deframe, Meaning, Join;
    forall x: Text
      ensures Deframe(wire + x, false, masked) == Join(Join(got, out), Meaning(st', raw' + x, masked))
    {
      JoinAssoc(got, out, Meaning(st', raw' + x, masked));
    }
    JoinAssoc(got, out, Nothing);
  }

  lemma HeadGrows(wire: Text, raw: Text, got: Got, header: Text, fragmented: bool, masked: bool, a: Text, r: Text)
    requires raw == a + r && Faithful(wire, raw, got, Head(header, fragmented), masked)
    ensures Faithful(wire, r, got, Head(header + a, fragmented), masked)
  {
    hide Deframe;
    forall x: Text
      ensures Meaning(Head(header, fragmented), raw + x, masked)
           == Join(Nothing, Meaning(Head(header + a, fragmented), r + x, masked))
    {
      assert header + (raw + x) == header + a + (r + x);
      JoinNothing(Meaning(Head(header + a, fragmented), r + x, masked));
    }
    FaithfulStep(wire, raw, got, Head(header, fragmented), masked, r, Nothing, Head(header + a, fragmented));
    assert Join(got, Nothing) == got;
  }

  // start_frame on a complete header.
  function AfterHeader(f: Frame, fragmented: bool, masked: bool): State {
    var refused := Refused(f, fragmented, masked);
    if refused.Some? then Ended(Violation(refused.value)) else Inside(f, f.length, 0, [], fragmented)
  }

  lemma HeadDone(wire: Text, raw: Text, got: Got, header: Text, fragmented: bool, masked: bool)
    requires Faithful(wire, raw, got, Head(header, fragmented), masked)
    requires ParseHeader(header).Header? && ParseHeader(header).frame.headerLen == |header|
    ensures Faithful(wire, raw, got, AfterHeader(ParseHeader(header).frame, fragmented, masked), masked)
  {
    hide Deframe, Body, ParseHeader;
    var st := AfterHeader(ParseHeader(header).frame, fragmented, masked);
    forall x: Text
      ensures Meaning(Head(header, fragmented), raw + x, masked) == Join(Nothing, Meaning(st, raw + x, masked))
    {
      HeaderRead(header, raw + x, fragmented, masked);
      JoinNothing(Meaning(st, raw + x, masked));
    }
    FaithfulStep(wire, raw, got, Head(header, fragmented), masked, raw, Nothing, st);
    assert Join(got, Nothing) == got;
  }

  lemma HeadBad(wire: Text, raw: Text, got: Got, header: Text, fragmented: bool, masked: bool, seen: Text)
    requires Faithful(wire, raw, got, Head(header, fragmented), masked)
    requires seen <= header + raw && ParseHeader(seen).Bad?
    ensures Faithful(wire, raw, got, Ended(Violation(1002)), masked)
  {
    hide ParseHeader;
    var st := Ended(Violation(1002));
    forall x: Text
      ensures Meaning(Head(header, fragmented), raw + x, masked) == Join(Nothing, Meaning(st, raw + x, masked))
    {
      var all := header + (raw + x);
      assert all == seen + all[|seen|..];
      VerdictStands(seen, all[|seen|..]);
    }
    FaithfulStep(wire, raw, got, Head(header, fragmented), masked, raw, Nothing, st);
    assert Join(got, Nothing) == got;
  }

  // a of the payload has been read.
  function AfterOctets(st: State, a: Text): (r: State)
    requires StateOk(st) && st.Inside? && |a| <= st.remaining
    ensures StateOk(r)
  {
    Inside(st.frame, st.remaining - |a|, st.offset + |a|,
           if IsData(st.frame) then st.control else st.control + Clear(st.frame, a, st.offset), st.fragmented)
  }

  function OctetsOut(st: State, a: Text): Got
    requires StateOk(st) && st.Inside?
  {
    if IsData(st.frame) then Got(Clear(st.frame, a, st.offset), [], Open) else Nothing
  }

  lemma InsideMoves(wire: Text, raw: Text, got: Got, st: State, masked: bool, a: Text, r: Text)
    requires StateOk(st) && st.Inside? && |a| <= st.remaining && raw == a + r
    requires Faithful(wire, raw, got, st, masked)
    ensures Faithful(wire, r, Join(got, OctetsOut(st, a)), AfterOctets(st, a), masked)
  {
    hide Body, Deframe, Clear;
    forall x: Text
      ensures Meaning(st, raw + x, masked) == Join(OctetsOut(st, a), Meaning(AfterOctets(st, a), r + x, masked))
    {
      assert raw + x == a + (r + x);
      if IsData(st.frame) {
        DataBodySplit(st.frame, st.remaining, st.offset, st.control, a, r + x, st.fragmented, masked);
      } else {
        ControlBodySplit(st.frame, st.remaining, st.offset, st.control, a, r + x, st.fragmented, masked);
        JoinNothing(Meaning(AfterOctets(st, a), r + x, masked));
      }
    }
    FaithfulStep(wire, raw, got, st, masked, r, OctetsOut(st, a), AfterOctets(st, a));
  }

  // handle_frame_end.
  function AfterFrame(st: State): State
    requires st.Inside?
  {
    if st.frame.opcode == CLOSE && !IsData(st.frame) then Ended(ClosedBy(st.control))
    else Head([], if IsData(st.frame) then FragmentedAfter(st.frame, st.fragmented) else st.fragmented)
  }

  function FrameOut(st: State): Got
    requires st.Inside?
  {
    if IsData(st.frame) || st.frame.opcode == CLOSE then Nothing
    else Got([], [Control(st.frame.opcode, st.control)], Open)
  }

  lemma InsideEnds(wire: Text, raw: Text, got: Got, st: State, masked: bool)
    requires StateOk(st) && st.Inside? && st.remaining == 0 && Faithful(wire, raw, got, st, masked)
    ensures Faithful(wire, raw, Join(got, FrameOut(st)), AfterFrame(st), masked)
  {
    hide Body, Deframe;
    forall x: Text
      ensures Meaning(st, raw + x, masked) == Join(FrameOut(st), Meaning(AfterFrame(st), raw + x, masked))
    {
      BodyEnd(st.frame, st.offset, st.control, raw + x, st.fragmented, masked);
      assert [] + (raw + x) == raw + x;
      JoinNothing(Meaning(AfterFrame(st), raw + x, masked));
    }
    FaithfulStep(wire, raw, got, st, masked, raw, FrameOut(st), AfterFrame(st));
  }

  // What came out so far is the beginning of what the wire says, and all of
  // it once the stream has ended.
  lemma FaithfulPrefix(wire: Text, raw: Text, got: Got, st: State, masked: bool)
    requires StateOk(st) && Faithful(wire, raw, got, st, masked)
    ensures var all := Deframe(wire, false, masked);
            got.data <= all.data && got.controls <= all.controls
    ensures st.Ended? ==> Deframe(wire, false, masked) == Got(got.data, got.controls, st.end)
  {
    assert wire + [] == wire;
  }

  // Nothing that follows an end is ever delivered.
  lemma NothingAfterEnd(wire: Text, raw: Text, got: Got, st: State, masked: bool, more: Text)
    requires StateOk(st) && st.Ended? && Faithful(wire, raw, got, st, masked)
    ensures Deframe(wire + more, false, masked) == Deframe(wire, false, masked)
  {
    assert wire + [] == wire;
  }
}
