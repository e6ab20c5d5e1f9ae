// What a DoH server's response says, read from the front: status line, header
// lines, body (section 7.1 of RFC 9112 for the chunked one).  A reader that
// is handed the response in pieces must come to the same end.
module DohStream {
  import opened Bytes

  const MAX: nat := 4096
  const CR: byte := 13
  const LF: byte := 10

  datatype Fields = Fields(status: nat, bytes: nat, length: Option<nat>, chunked: bool, close: bool, closeSeen: bool)

  datatype Phase = Status | Headers(f: Fields) | Body(f: Fields, decoded: Text)

  datatype Reading = More(phase: Phase, tail: Text) | Done(body: Text) | Failed

  // ---- Lines ----

  function CrlfFrom(b: Text, i: nat): (r: Option<nat>)
    ensures r.Some? ==> i <= r.value && r.value + 1 < |b| && b[r.value] == CR && b[r.value + 1] == LF
    ensures forall k :: i <= k < |b| - 1 && (r.Some? ==> k < r.value) ==> !(b[k] == CR && b[k + 1] == LF)
    decreases |b| - i
  {
    if i + 1 >= |b| then None
    else if b[i] == CR && b[i + 1] == LF then Some(i)
    else CrlfFrom(b, i + 1)
  }

  function FirstCrlf(b: Text): (r: Option<nat>)
    ensures r.Some? ==> r.value + 1 < |b| && b[r.value] == CR && b[r.value + 1] == LF
  {
    CrlfFrom(b, 0)
  }

  // The first line end is where it is, whatever follows.
  lemma FirstCrlfStays(b: Text, more: Text)
    requires FirstCrlf(b).Some?
    ensures FirstCrlf(b + more) == FirstCrlf(b)
  {
    hide CrlfFrom;
    var k := FirstCrlf(b).value;
    var all := b + more;
    assert forall j :: 0 <= j < |b| ==> all[j] == b[j];
    FirstCrlfIs(all, k);
  }

  lemma FirstCrlfIs(b: Text, k: nat)
    requires k + 1 < |b| && b[k] == CR && b[k + 1] == LF
    requires forall j :: 0 <= j < k ==> !(b[j] == CR && b[j + 1] == LF)
    ensures FirstCrlf(b) == Some(k)
  {
  }

  function IndexFrom(s: Text, c: byte, i: nat): (r: Option<nat>)
    ensures r.Some? ==> i <= r.value < |s| && s[r.value] == c
    decreases |s| - i
  {
    if i >= |s| then None else if s[i] == c then Some(i) else IndexFrom(s, c, i + 1)
  }

  // ngx_atoi: digits only, at least one.
  function Atoi(s: Text): (r: Option<nat>) {
    if s == [] || !IsDigit(s[|s| - 1]) then None
    else if |s| == 1 then Some(s[0] - 48)
    else match Atoi(s[..|s| - 1])
      case None => None
      case Some(v) => Some(10 * v + (s[|s| - 1] - 48))
  }

  predicate IsDigit(c: byte) {
    48 <= c <= 57
  }

  const HTTP: Text := [72, 84, 84, 80, 47]
  const HTTP10: Text := [72, 84, 84, 80, 47, 49, 46, 48]
  const SPACE: byte := 32
  const TAB: byte := 9
  const COMMA: byte := 44
  const SEMICOLON: byte := 59

  // "content-length:", "connection:", "transfer-encoding:", folded.
  const CONTENT_LENGTH: Text := [99, 111, 110, 116, 101, 110, 116, 45, 108, 101, 110, 103, 116, 104, 58]
  const CONNECTION: Text := [99, 111, 110, 110, 101, 99, 116, 105, 111, 110, 58]
  const TRANSFER_ENCODING: Text :=
    [116, 114, 97, 110, 115, 102, 101, 114, 45, 101, 110, 99, 111, 100, 105, 110, 103, 58]
  const CLOSE: Text := [99, 108, 111, 115, 101]
  const KEEP_ALIVE: Text := [107, 101, 101, 112, 45, 97, 108, 105, 118, 101]
  const CHUNKED: Text := [99, 104, 117, 110, 107, 101, 100]

  predicate Named(line: Text, name: Text) {
    |line| >= |name| && Lower(line[..|name|]) == name
  }

  function StatusLine(line: Text): Option<Fields> {
    if |line| < 12 || line[..5] != HTTP then None
    else match IndexFrom(line, SPACE, 5)
      case None => None
      case Some(sp) =>
        if |line| - sp < 4 then None
        else match Atoi(line[sp + 1..sp + 4])
          case None => None
          case Some(status) =>
            Some(Fields(status, |line| + 2, None, false, line[..8] == HTTP10, false))
  }

  function SkipBlanks(s: Text): Text {
    if s != [] && (s[0] == SPACE || s[0] == TAB) then SkipBlanks(s[1..]) else s
  }

  function SkipSeparators(s: Text): (r: Text)
    ensures |r| <= |s|
  {
    if s != [] && (s[0] == SPACE || s[0] == TAB || s[0] == COMMA) then SkipSeparators(s[1..]) else s
  }

  function SkipTo(s: Text, stopAtBlanks: bool): (r: Text)
    ensures |r| <= |s|
  {
    if s == [] || s[0] == COMMA || (stopAtBlanks && (s[0] == SPACE || s[0] == TAB)) then s
    else SkipTo(s[1..], stopAtBlanks)
  }

  // doh_header_has_token.
  predicate HasToken(s: Text, token: Text)
    decreases |s|
  {
    var start := SkipSeparators(s);
    var stop := SkipTo(start, true);
    if s == [] then false
    else if Lower(start[..|start| - |stop|]) == token then true
    else
      var rest := SkipTo(stop, false);
      |rest| < |s| && HasToken(rest, token)
  }

  // One header line: which fields it sets; None for a length out of range.
  function HeaderLine(f: Fields, line: Text): Option<Fields> {
    if Named(line, CONTENT_LENGTH) then
      match Atoi(SkipBlanks(line[|CONTENT_LENGTH|..]))
      case None => None
      case Some(v) => if v > MAX then None else Some(f.(length := Some(v)))
    else if Named(line, CONNECTION) then
      var v := line[|CONNECTION|..];
      if HasToken(v, CLOSE) then Some(f.(close := true, closeSeen := true))
      else if !f.closeSeen && HasToken(v, KEEP_ALIVE) then Some(f.(close := false))
      else Some(f)
    else if Named(line, TRANSFER_ENCODING) then
      if HasToken(line[|TRANSFER_ENCODING|..], CHUNKED) then Some(f.(chunked := true)) else Some(f)
    else Some(f)
  }

  // ---- Chunks ----

  function HexDigit(c: byte): Option<nat> {
    if 48 <= c <= 57 then Some(c - 48)
    else if 65 <= c <= 70 then Some(c - 55)
    else if 97 <= c <= 102 then Some(c - 87)
    else None
  }

  // The size in front of any extension; None without a digit or above MAX.
  function SizeFrom(line: Text, i: nat, size: nat): (r: Option<nat>)
    requires i <= |line| && size <= MAX
    ensures r.Some? ==> r.value <= MAX
    decreases |line| - i
  {
    if i == |line| || line[i] == SEMICOLON then if i > 0 then Some(size) else None
    else match HexDigit(line[i])
      case None => None
      case Some(d) => if size > (MAX - d) / 16 then None else SizeFrom(line, i + 1, 16 * size + d)
  }

  datatype Piece = Wait | Bad | Last | Full(from: nat, to: nat)

  function Trailers(t: Text, from: nat): (r: Piece)
    requires from <= |t|
    ensures r == Wait || r == Last
    decreases |t| - from
  {
    match FirstCrlf(t[from..])
    case None => Wait
    case Some(j) => if j == 0 then Last else Trailers(t, from + j + 2)
  }

  // The chunk at the front of t, if it is all there.
  function Chunk(t: Text): (r: Piece)
    ensures r.Full? ==> 2 <= r.from < r.to && r.to + 2 <= |t|
  {
    match FirstCrlf(t)
    case None => Wait
    case Some(k) =>
      match SizeFrom(t[..k], 0, 0)
      case None => Bad
      case Some(size) =>
        if size == 0 then Trailers(t, k + 2)
        else if |t| - (k + 2) < size + 2 then Wait
        else if t[k + 2 + size] != CR || t[k + 3 + size] != LF then Bad
        else Full(k + 2, k + 2 + size)
  }

  lemma {:induction false} TrailersStay(t: Text, from: nat, more: Text)
    requires from <= |t| && Trailers(t, from) == Last
    ensures Trailers(t + more, from) == Last
    decreases |t| - from
  {
    hide FirstCrlf;
    assert (t + more)[from..] == t[from..] + more;
    FirstCrlfStays(t[from..], more);
    var j := FirstCrlf(t[from..]).value;
    if j > 0 {
      TrailersStay(t, from + j + 2, more);
    }
  }

  lemma ChunkStays(t: Text, more: Text)
    requires Chunk(t) != Wait
    ensures Chunk(t + more) == Chunk(t)
  {
    FirstCrlfStays(t, more);
    var k := FirstCrlf(t).value;
    assert (t + more)[..k] == t[..k];
    if SizeFrom(t[..k], 0, 0) == Some(0) {
      TrailersStay(t, k + 2, more);
    }
  }

  // ---- One turn, and as many as go ----

  datatype Turn = Stay | Fail | Finish(body: Text) | Go(phase: Phase, used: nat)

  function TurnOf(ph: Phase, t: Text): (r: Turn)
    ensures r.Go? ==> 0 < r.used <= |t|
    ensures r.Go? ==> |DecodedIn(r.phase)| + |t| - r.used <= |DecodedIn(ph)| + |t|
  {
    match ph
    case Status =>
      (match FirstCrlf(t)
       case None => Stay
       case Some(k) =>
         match StatusLine(t[..k])
         case None => Fail
         case Some(f) => Go(Headers(f), k + 2))
    case Headers(f) =>
      (match FirstCrlf(t)
       case None => Stay
       case Some(k) =>
         var g := f.(bytes := f.bytes + k + 2);
         if g.bytes > MAX then Fail
         else if k == 0 then if f.status < 200 || f.status >= 300 then Fail else Go(Body(g, []), 2)
         else match HeaderLine(g, t[..k])
           case None => Fail
           case Some(h) => Go(Headers(h), k + 2))
    case Body(f, decoded) =>
      if f.chunked then
        match Chunk(t)
        case Wait => Stay
        case Bad => Fail
        case Last => Finish(decoded)
        case Full(from, to) => Go(Body(f, decoded + t[from..to]), to + 2)
      else if f.length.Some? && |t| >= f.length.value then Finish(t[..f.length.value])
      else Stay
  }

  function DecodedIn(ph: Phase): Text {
    if ph.Body? then ph.decoded else []
  }

  function Advance(ph: Phase, t: Text): Reading
    decreases |t|
  {
    match TurnOf(ph, t)
    case Stay => More(ph, t)
    case Fail => Failed
    case Finish(b) => Done(b)
    case Go(next, used) => Advance(next, t[used..])
  }

  lemma TurnStays(ph: Phase, t: Text, more: Text)
    requires TurnOf(ph, t) != Stay
    ensures TurnOf(ph, t + more) == TurnOf(ph, t)
  {
    hide HeaderLine, StatusLine, Chunk;
    if ph.Body? {
      if ph.f.chunked {
        ChunkStays(t, more);
        var c := Chunk(t);
        if c.Full? {
          ChunkWithin(t);
          assert (t + more)[c.from..c.to] == t[c.from..c.to];
        }
      } else {
        assert (t + more)[..ph.f.length.value] == t[..ph.f.length.value];
      }
    } else {
      FirstCrlfStays(t, more);
      var k := FirstCrlf(t).value;
      assert (t + more)[..k] == t[..k];
    }
  }

  lemma ChunkWithin(t: Text)
    requires Chunk(t).Full?
    ensures Chunk(t).from < Chunk(t).to < |t|
  {
  }

  // Reading on from where the last octets left off is reading from the start.
  lemma {:induction false} AdvanceOn(ph: Phase, t: Text, more: Text)
    ensures var s := Advance(ph, t);
            Advance(ph, t + more) == if s.More? then Advance(s.phase, s.tail + more) else s
    decreases |t|
  {
    hide TurnOf;
    var r := TurnOf(ph, t);
    if r != Stay {
      TurnStays(ph, t, more);
      if r.Go? {
        assert (t + more)[r.used..] == t[r.used..] + more;
        AdvanceOn(r.phase, t[r.used..], more);
      }
    }
  }

  // Octets a reader keeps: decoded ones and those not yet understood.
  function Kept(s: Reading): nat {
    if s.More? then |DecodedIn(s.phase)| + |s.tail| else 0
  }

  lemma {:induction false} AdvanceShrinks(ph: Phase, t: Text)
    ensures Kept(Advance(ph, t)) <= |DecodedIn(ph)| + |t|
    decreases |t|
  {
    hide Chunk, HeaderLine, StatusLine, FirstCrlf;
    var r := TurnOf(ph, t);
    if r.Go? {
      AdvanceShrinks(r.phase, t[r.used..]);
    }
  }

  // ---- A reader with MAX octets of room ----

  // A full buffer with nothing to make of it is the end.
  function Limited(s: Reading): Reading {
    if s.More? && Kept(s) >= MAX then Failed else s
  }

  function Feed(s: Reading, a: Text): Reading {
    if s.More? then Limited(Advance(s.phase, s.tail + a)) else s
  }

  const Start: Reading := More(Status, [])

  // The meaning of w: one octet at a time.
  function Meaning(w: Text): (s: Reading)
    ensures s.More? ==> Kept(s) < MAX
  {
    if w == [] then Start else Feed(Meaning(w[..|w| - 1]), [w[|w| - 1]])
  }

  // Whatever recv hands over at once, as long as it fits, comes to the same.
  lemma {:induction false} FeedIsMeaning(w: Text, a: Text)
    requires Meaning(w).More? && Kept(Meaning(w)) + |a| <= MAX && a != []
    ensures Feed(Meaning(w), a) == Meaning(w + a)
    decreases |a|
  {
    hide Advance, TurnOf;
    var s := Meaning(w);
    var init, last := a[..|a| - 1], [a[|a| - 1]];
    assert (w + a)[..|w + a| - 1] == w + init && [(w + a)[|w + a| - 1]] == last;
    if init == [] {
      assert w + init == w && a == last;
    } else {
      FeedIsMeaning(w, init);
      AdvanceShrinks(s.phase, s.tail + init);
      AdvanceOn(s.phase, s.tail + init, last);
      assert s.tail + init + last == s.tail + a;
    }
  }

  // What is kept has been read as far as it goes.
  lemma {:induction false} AdvanceRests(ph: Phase, t: Text)
    requires Advance(ph, t).More?
    ensures var s := Advance(ph, t); Advance(s.phase, s.tail) == s
    decreases |t|
  {
    hide TurnOf;
    var r := TurnOf(ph, t);
    if r.Go? {
      AdvanceRests(r.phase, t[r.used..]);
    }
  }

  lemma MeaningRests(w: Text)
    requires Meaning(w).More?
    ensures var s := Meaning(w); Advance(s.phase, s.tail) == s
  {
    if w != [] {
      var s := Meaning(w[..|w| - 1]);
      hide Advance;
      AdvanceRests(s.phase, s.tail + [w[|w| - 1]]);
    } else {
      assert TurnOf(Status, []) == Stay;
    }
  }

  // ---- Whole runs ----

  // What recv returned, event by event; after the end nothing is read.
  function Run(s: Reading, pieces: seq<Text>): Reading
    decreases |pieces|
  {
    if pieces == [] then s else Run(Feed(s, pieces[0]), pieces[1..])
  }

  predicate Fits(s: Reading, pieces: seq<Text>)
    decreases |pieces|
  {
    pieces == [] ||
    (pieces[0] != [] && (s.More? ==> Kept(s) + |pieces[0]| <= MAX) && Fits(Feed(s, pieces[0]), pieces[1..]))
  }

  function Flat(pieces: seq<Text>): Text {
    if pieces == [] then [] else pieces[0] + Flat(pieces[1..])
  }

  lemma {:induction false} EndStays(w: Text, a: Text)
    requires !Meaning(w).More?
    ensures Meaning(w + a) == Meaning(w)
    decreases |a|
  {
    if a == [] {
      assert w + a == w;
    } else {
      assert (w + a)[..|w + a| - 1] == w + a[..|a| - 1];
      EndStays(w, a[..|a| - 1]);
    }
  }

  lemma {:induction false} RunIsMeaning(w: Text, pieces: seq<Text>)
    requires Fits(Meaning(w), pieces)
    ensures Run(Meaning(w), pieces) == Meaning(w + Flat(pieces))
    decreases |pieces|
  {
    hide Feed, Meaning;
    if pieces == [] {
      assert w + Flat(pieces) == w;
    } else {
      FeedStep(w, pieces[0]);
      RunIsMeaning(w + pieces[0], pieces[1..]);
      assert w + pieces[0] + Flat(pieces[1..]) == w + Flat(pieces);
    }
  }

  lemma FeedStep(w: Text, a: Text)
    requires a != [] && (Meaning(w).More? ==> Kept(Meaning(w)) + |a| <= MAX)
    ensures Feed(Meaning(w), a) == Meaning(w + a)
  {
    hide Meaning, Advance;
    if Meaning(w).More? {
      FeedIsMeaning(w, a);
    } else {
      EndStays(w, a);
    }
  }

  // At the end of the connection a body without a length is what is there.
  function AtEof(s: Reading): Reading {
    if s.More? && s.phase.Body? && !s.phase.f.chunked && s.phase.f.length.None? && s.tail != []
    then Done(s.tail)
    else if s.More? then Failed else s
  }

  // However recv splits one response, the decoded body is the same or every
  // reading of it fails.
  lemma SplitsAgree(a: seq<Text>, b: seq<Text>)
    requires Fits(Start, a) && Fits(Start, b) && Flat(a) == Flat(b)
    ensures Run(Start, a) == Run(Start, b) && AtEof(Run(Start, a)) == AtEof(Run(Start, b))
  {
    hide Feed, Run, Fits;
    assert Meaning([]) == Start;
    RunIsMeaning([], a);
    RunIsMeaning([], b);
  }
}
