// What a DoH server writes: a status line, header lines, and a body with its
// length in front or cut into chunks (sections 4, 6.2 and 7.1 of RFC 9112).
// A reader of it ends with the body that was sent.
module DohSender {
  import opened Ascii
  import opened Bytes
  import opened DohStream

  // ---- Numbers ----

  predicate DecimalDigit(c: byte, d: nat) {
    d < 10 && c == '0' as int + d
  }

  predicate HexadecimalDigit(c: byte, d: nat) {
    DecimalDigit(c, d) || (10 <= d < 16 && (c == 'a' as int + (d - 10) || c == 'A' as int + (d - 10)))
  }

  // t writes n in ten digits, or in sixteen with letters of either case.
  predicate Decimal(t: Text, n: nat) {
    t != [] && DecimalDigit(t[|t| - 1], n % 10)
    && if |t| == 1 then n < 10 else Decimal(t[..|t| - 1], n / 10)
  }

  predicate Hexadecimal(t: Text, n: nat) {
    t != [] && HexadecimalDigit(t[|t| - 1], n % 16)
    && if |t| == 1 then n < 16 else Hexadecimal(t[..|t| - 1], n / 16)
  }

  lemma {:induction false} AtoiMeans(t: Text, n: nat)
    ensures Atoi(t) == Some(n) <==> Decimal(t, n)
    decreases |t|
  {
    if |t| > 1 {
      var init, d := t[..|t| - 1], t[|t| - 1];
      AtoiMeans(init, n / 10);
      if Atoi(init).Some? && IsDigit(d) {
        TenTimes(Atoi(init).value, d - 48);
      }
    }
  }

  lemma TenTimes(v: nat, d: nat)
    requires d < 10
    ensures (10 * v + d) / 10 == v && (10 * v + d) % 10 == d
  {
  }

  // An extension, or nothing: neither has a line end in it.
  predicate Extension(e: Text) {
    (e == [] || e[0] == ';' as int) && NoCrlf(e)
  }

  predicate NoCrlf(t: Text) {
    forall k :: 0 <= k < |t| - 1 ==> !(t[k] == CR && t[k + 1] == LF)
  }

  lemma HexDigitMeans(c: byte, d: nat)
    ensures HexDigit(c) == Some(d) <==> HexadecimalDigit(c, d)
    ensures HexadecimalDigit(c, d) ==> c != SEMICOLON && c != CR
  {
  }

  // The digits up to k have been read.
  lemma {:induction false} SizeSoFar(line: Text, k: nat, n: nat)
    requires 0 < k <= |line| && Hexadecimal(line[..k], n)
    ensures SizeFrom(line, 0, 0) == if n <= MAX then SizeFrom(line, k, n) else None
    decreases k
  {
    hide HexDigit, HexadecimalDigit;
    var t := line[..k];
    HexDigitMeans(line[k - 1], n % 16);
    if k > 1 {
      assert t[..k - 1] == line[..k - 1];
      SizeSoFar(line, k - 1, n / 16);
    }
  }

  // A size is read as it was written, whatever extension stands behind it,
  // and refused exactly when it is over the limit.
  lemma SizeIsRead(t: Text, n: nat, e: Text)
    requires Hexadecimal(t, n) && Extension(e)
    ensures SizeFrom(t + e, 0, 0) == if n <= MAX then Some(n) else None
  {
    var line := t + e;
    assert line[..|t|] == t;
    SizeSoFar(line, |t|, n);
  }

  lemma {:induction false} HexHasNoCr(t: Text, n: nat)
    requires Hexadecimal(t, n)
    ensures forall k :: 0 <= k < |t| ==> t[k] != CR
  {
    HexDigitMeans(t[|t| - 1], n % 16);
    if |t| > 1 {
      HexHasNoCr(t[..|t| - 1], n / 16);
      assert forall k :: 0 <= k < |t| - 1 ==> t[k] == t[..|t| - 1][k];
    }
  }

  // ---- Lines ----

  const CRLF: Text := [CR, LF]

  lemma LineEnds(line: Text, y: Text)
    requires NoCrlf(line)
    ensures FirstCrlf(line + CRLF + y) == Some(|line|)
    ensures (line + CRLF + y)[..|line|] == line && (line + CRLF + y)[|line| + 2..] == y
  {
    var b := line + CRLF + y;
    assert forall j :: 0 <= j < |line| ==> b[j] == line[j];
    FirstCrlfIs(b, |line|);
  }

  // ---- Chunks ----

  // One chunk: its size as written, an extension, its data.
  datatype Part = Part(size: Text, extension: Text, data: Text) {
    predicate Ok() {
      data != [] && |data| <= MAX && Hexadecimal(size, |data|) && Extension(extension)
    }

    function Octets(): Text {
      size + extension + CRLF + data + CRLF
    }
  }

  predicate AllOk(parts: seq<Part>) {
    forall i :: 0 <= i < |parts| ==> parts[i].Ok()
  }

  function Chunks(parts: seq<Part>): Text {
    if parts == [] then [] else parts[0].Octets() + Chunks(parts[1..])
  }

  function Sent(parts: seq<Part>): Text {
    if parts == [] then [] else parts[0].data + Sent(parts[1..])
  }

  // Trailer lines up to the empty one.
  function Trailer(lines: seq<Text>): Text {
    if lines == [] then CRLF else lines[0] + CRLF + Trailer(lines[1..])
  }

  predicate Lines(lines: seq<Text>) {
    forall i :: 0 <= i < |lines| ==> lines[i] != [] && NoCrlf(lines[i])
  }

  lemma SizeLine(size: Text, n: nat, extension: Text)
    requires Hexadecimal(size, n) && Extension(extension)
    ensures NoCrlf(size + extension)
  {
    HexHasNoCr(size, n);
    var line := size + extension;
    assert forall k :: 0 <= k < |extension| ==> line[|size| + k] == extension[k];
    forall k | 0 <= k < |line| - 1
      ensures !(line[k] == CR && line[k + 1] == LF)
    {
      if k >= |size| {
        assert line[k] == extension[k - |size|] && line[k + 1] == extension[k - |size| + 1];
      }
    }
  }

  lemma ChunkIsRead(p: Part, y: Text)
    requires p.Ok()
    ensures var from := |p.size| + |p.extension| + 2;
            && Chunk(p.Octets() + y) == Full(from, from + |p.data|)
            && (p.Octets() + y)[from..from + |p.data|] == p.data
            && |p.Octets()| == from + |p.data| + 2 && (p.Octets() + y)[|p.Octets()|..] == y
  {
    hide FirstCrlf, SizeFrom, Hexadecimal, Extension, NoCrlf;
    var line, rest := p.size + p.extension, p.data + CRLF + y;
    var t := p.Octets() + y;
    assert t == line + CRLF + rest;
    SizeLine(p.size, |p.data|, p.extension);
    LineEnds(line, rest);
    SizeIsRead(p.size, |p.data|, p.extension);
    assert t[|line| + 2..|line| + 2 + |p.data|] == rest[..|p.data|] == p.data;
    assert t[|line| + 2 + |p.data|] == CR && t[|line| + 3 + |p.data|] == LF;
  }

  lemma {:induction false} TrailerIsRead(t: Text, from: nat, lines: seq<Text>, y: Text)
    requires Lines(lines) && from <= |t| && t[from..] == Trailer(lines) + y
    ensures Trailers(t, from) == Last
    decreases |lines|
  {
    hide FirstCrlf, NoCrlf;
    if lines == [] {
      EmptyLine();
      LineEnds([], y);
      assert [] + CRLF + y == t[from..];
    } else {
      var line, rest := lines[0], Trailer(lines[1..]) + y;
      assert t[from..] == line + CRLF + rest;
      LineEnds(line, rest);
      assert t[from + |line| + 2..] == t[from..][|line| + 2..];
      TrailerIsRead(t, from + |line| + 2, lines[1..], y);
    }
  }

  lemma EmptyLine()
    ensures NoCrlf([])
  {
  }

  // The last chunk: a size of zero, in any number of zeros.
  lemma LastIsRead(zero: Text, extension: Text, lines: seq<Text>, y: Text)
    requires Hexadecimal(zero, 0) && Extension(extension) && Lines(lines)
    ensures Chunk(zero + extension + CRLF + Trailer(lines) + y) == Last
  {
    hide FirstCrlf, SizeFrom, Hexadecimal, Extension, NoCrlf, Trailer, Trailers;
    var line, rest := zero + extension, Trailer(lines) + y;
    var t := zero + extension + CRLF + Trailer(lines) + y;
    assert t == line + CRLF + rest;
    SizeLine(zero, 0, extension);
    LineEnds(line, rest);
    SizeIsRead(zero, 0, extension);
    TrailerIsRead(t, |line| + 2, lines, y);
  }

  lemma Turned(ph: Phase, t: Text)
    ensures var r := TurnOf(ph, t);
            && (r.Fail? ==> Advance(ph, t) == Failed)
            && (r.Go? ==> Advance(ph, t) == Advance(r.phase, t[r.used..]))
  {
    hide TurnOf;
  }

  lemma BodyTurn(f: Fields, decoded: Text, p: Part, y: Text)
    requires p.Ok() && f.chunked
    ensures Advance(Body(f, decoded), p.Octets() + y) == Advance(Body(f, decoded + p.data), y)
  {
    hide Chunk, Part.Octets, Part.Ok, Advance;
    ChunkIsRead(p, y);
    Turned(Body(f, decoded), p.Octets() + y);
  }

  lemma BodyFinish(f: Fields, decoded: Text, t: Text)
    requires f.chunked && Chunk(t) == Last
    ensures Advance(Body(f, decoded), t) == Done(decoded)
  {
    hide Chunk;
  }

  // However a body is divided into chunks, it is what comes out of them.
  lemma {:induction false} ChunksAreRead(f: Fields, decoded: Text, parts: seq<Part>, zero: Text, extension: Text,
                                         lines: seq<Text>, y: Text)
    requires f.chunked && AllOk(parts) && Hexadecimal(zero, 0) && Extension(extension) && Lines(lines)
    ensures Advance(Body(f, decoded), Chunks(parts) + (zero + extension + CRLF + Trailer(lines)) + y)
         == Done(decoded + Sent(parts))
    decreases |parts|
  {
    hide Advance, Trailer, Hexadecimal, Part.Octets, Part.Ok;
    var end := zero + extension + CRLF + Trailer(lines);
    if parts == [] {
      LastIsRead(zero, extension, lines, y);
      assert Chunks(parts) + end + y == end + y;
      BodyFinish(f, decoded, end + y);
      assert decoded + Sent(parts) == decoded;
    } else {
      var p, rest := parts[0], Chunks(parts[1..]) + end + y;
      assert Chunks(parts) + end + y == p.Octets() + rest;
      BodyTurn(f, decoded, p, rest);
      ChunksAreRead(f, decoded + p.data, parts[1..], zero, extension, lines, y);
      assert decoded + p.data + Sent(parts[1..]) == decoded + Sent(parts);
    }
  }
}
