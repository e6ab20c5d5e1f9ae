// A whole response as a DoH server writes it: what its status line and header
// lines say, and that the body behind them is what a reader ends with.
module DohResponse {
  import opened Ascii
  import opened Bytes
  import opened DohSender
  import opened DohStream

  // ---- Lists in a field's value ----

  predicate Blank(c: byte) {
    c == ' ' as int || c == '\t' as int
  }

  predicate Separator(c: byte) {
    Blank(c) || c == ',' as int
  }

  // Nothing but blanks between i and the comma before it, or the start.
  predicate Opens(s: Text, i: nat)
    requires i <= |s|
  {
    i == 0 || s[i - 1] == ',' as int || (Blank(s[i - 1]) && Opens(s, i - 1))
  }

  // s[i..j] is the first word of one element of the list.
  predicate Word(s: Text, i: nat, j: nat) {
    && i < j <= |s| && Opens(s, i)
    && (forall k :: i <= k < j ==> !Separator(s[k]))
    && (j < |s| ==> Separator(s[j]))
  }

  ghost predicate Lists(s: Text, token: Text) {
    exists i: nat, j: nat :: Word(s, i, j) && Lower(s[i..j]) == token
  }

  lemma {:induction false} SkipsSeparators(s: Text) returns (p: nat)
    ensures p <= |s| && SkipSeparators(s) == s[p..] && (p < |s| ==> !Separator(s[p]))
    ensures forall k :: 0 <= k < p ==> Separator(s[k])
    ensures Opens(s, p)
  {
    p := 0;
    while p < |s| && Separator(s[p])
      invariant p <= |s| && SkipSeparators(s) == SkipSeparators(s[p..])
      invariant Opens(s, p)
      invariant forall k :: 0 <= k < p ==> Separator(s[k])
    {
      assert s[p..][1..] == s[p + 1..];
      p := p + 1;
    }
  }

  // Where the word that starts at p ends, and the next comma.
  lemma {:induction false} SkipsTo(s: Text, p: nat, stopAtBlanks: bool) returns (q: nat)
    requires p <= |s|
    ensures p <= q <= |s| && SkipTo(s[p..], stopAtBlanks) == s[q..]
    ensures forall k :: p <= k < q ==> s[k] != COMMA && (stopAtBlanks ==> !Separator(s[k]))
    ensures q < |s| ==> s[q] == COMMA || (stopAtBlanks && Separator(s[q]))
  {
    q := p;
    while q < |s| && s[q] != COMMA && (stopAtBlanks ==> !Separator(s[q]))
      invariant p <= q <= |s| && SkipTo(s[p..], stopAtBlanks) == SkipTo(s[q..], stopAtBlanks)
      invariant forall k :: p <= k < q ==> s[k] != COMMA && (stopAtBlanks ==> !Separator(s[k]))
    {
      assert s[q..][1..] == s[q + 1..];
      q := q + 1;
    }
  }

  // A comma at d parts the list: what opens behind it opens in s.
  lemma {:induction false} OpensBehind(s: Text, d: nat, i: nat)
    requires d < |s| && s[d] == COMMA && 0 < i <= |s| - d
    ensures Opens(s[d..], i) == Opens(s, d + i)
    decreases i
  {
    if i > 1 {
      OpensBehind(s, d, i - 1);
    }
  }

  lemma WordBehind(s: Text, d: nat, i: nat, j: nat)
    requires d < |s| && s[d] == COMMA
    ensures Word(s[d..], i, j) <==> i > 0 && Word(s, d + i, d + j)
  {
    if 0 < i <= |s| - d {
      OpensBehind(s, d, i);
    }
    if i == 0 < j <= |s| - d {
      assert Separator(s[d..][0]);
    }
    if Word(s, d + i, d + j) {
      forall k | i <= k < j
        ensures !Separator(s[d..][k])
      {
        assert s[d..][k] == s[d + k];
      }
    }
    if Word(s[d..], i, j) {
      forall k | d + i <= k < d + j
        ensures !Separator(s[k])
      {
        assert s[k] == s[d..][k - d];
      }
    }
  }

  // With no comma between, nothing but the first word opens.
  lemma {:induction false} OnlyFirst(s: Text, p: nat, d: nat, i: nat)
    requires p < i <= d <= |s| && !Separator(s[p]) && forall k :: p <= k < d ==> s[k] != COMMA
    ensures !Opens(s, i)
    decreases i
  {
    if i - 1 > p {
      OnlyFirst(s, p, d, i - 1);
    }
  }

  // doh_header_has_token finds exactly the tokens the list has.
  lemma {:induction false} TokenMeans(s: Text, token: Text)
    requires token != []
    ensures HasToken(s, token) <==> Lists(s, token)
    decreases |s|
  {
    hide SkipSeparators, SkipTo;
    if s == [] {
      return;
    }
    var p := SkipsSeparators(s);
    var q := SkipsTo(s, p, true);
    var d := SkipsTo(s, q, false);
    var start, stop := s[p..], s[q..];
    assert start[..|start| - |stop|] == s[p..q];
    if Lower(s[p..q]) == token {
      assert Word(s, p, q);
    } else if d == 0 {
      assert false;
    } else {
      ListsBehind(s, token, p, q, d);
      TokenMeans(s[d..], token);
    }
  }

  lemma ListsBehind(s: Text, token: Text, p: nat, q: nat, d: nat)
    requires p <= q <= d <= |s| && 0 < d && token != []
    requires forall k :: 0 <= k < p ==> Separator(s[k])
    requires p < |s| ==> p < q
    requires forall k :: p <= k < q ==> !Separator(s[k])
    requires q < |s| ==> Separator(s[q])
    requires forall k :: q <= k < d ==> s[k] != COMMA
    requires d < |s| ==> s[d] == COMMA
    requires Lower(s[p..q]) != token
    ensures Lists(s, token) <==> Lists(s[d..], token)
  {
    hide Opens;
    if Lists(s, token) {
      var i: nat, j: nat :| Word(s, i, j) && Lower(s[i..j]) == token;
      if i < d {
        assert i >= p by { assert !Separator(s[i]); }
        if i > p {
          OnlyFirst(s, p, d, i);
        }
        assert false;
      }
      assert i != d;
      WordBehind(s, d, i - d, j - d);
      assert s[d..][i - d..j - d] == s[i..j];
      assert Lists(s[d..], token);
    }
    if Lists(s[d..], token) {
      var i: nat, j: nat :| Word(s[d..], i, j) && Lower(s[d..][i..j]) == token;
      WordBehind(s, d, i, j);
      assert s[d..][i..j] == s[d + i..d + j];
      assert Lists(s, token);
    }
  }

  // ---- Header lines ----

  // The line is the field of this name, in any letter case.
  predicate Field(line: Text, name: string) {
    |line| >= |name| && Spells(line[..|name|], name)
  }

  lemma NamesMean(line: Text)
    ensures Named(line, CONTENT_LENGTH) <==> Field(line, "content-length:")
    ensures Named(line, CONNECTION) <==> Field(line, "connection:")
    ensures Named(line, TRANSFER_ENCODING) <==> Field(line, "transfer-encoding:")
  {
    hide Named, Field;
    LengthName(line);
    ConnectionName(line);
    EncodingName(line);
  }

  lemma LengthName(line: Text)
    ensures Named(line, CONTENT_LENGTH) <==> Field(line, "content-length:")
  {
    hide Named, Field;
    NameMeans(line, "content-length:", CONTENT_LENGTH);
  }

  lemma ConnectionName(line: Text)
    ensures Named(line, CONNECTION) <==> Field(line, "connection:")
  {
    hide Named, Field;
    NameMeans(line, "connection:", CONNECTION);
  }

  lemma EncodingName(line: Text)
    ensures Named(line, TRANSFER_ENCODING) <==> Field(line, "transfer-encoding:")
  {
    hide Named, Field;
    NameMeans(line, "transfer-encoding:", TRANSFER_ENCODING);
  }

  lemma NameMeans(line: Text, name: string, folded: Text)
    requires NoCapitals(name) && Of(name) == folded
    ensures Named(line, folded) <==> Field(line, name)
  {
    if |line| >= |name| {
      SpellingFolds(line[..|name|], name);
    }
  }

  // Behind the name, 15 octets, come blanks up to k and then the number n.
  predicate SaysLength(line: Text, n: nat, k: nat) {
    && Field(line, "content-length:") && 15 <= k <= |line|
    && (forall i :: 15 <= i < k ==> Blank(line[i])) && Decimal(line[k..], n)
  }

  ghost predicate SaysChunked(line: Text) {
    Field(line, "transfer-encoding:") && Lists(line[18..], Of("chunked"))
  }

  lemma {:induction false} BlanksSkipped(s: Text, k: nat)
    requires k < |s| && !Blank(s[k]) && forall i :: 0 <= i < k ==> Blank(s[i])
    ensures SkipBlanks(s) == s[k..]
    decreases k
  {
    if k > 0 {
      BlanksSkipped(s[1..], k - 1);
      assert s[1..][k - 1..] == s[k..];
    }
  }

  lemma {:induction false} DecimalStarts(t: Text, n: nat)
    requires Decimal(t, n)
    ensures t != [] && !Blank(t[0])
  {
    if |t| > 1 {
      DecimalStarts(t[..|t| - 1], n / 10);
    }
  }

  lemma LengthLine(f: Fields, line: Text, n: nat, k: nat)
    requires SaysLength(line, n, k)
    ensures HeaderLine(f, line) == if n <= 4096 then Some(f.(length := Some(n))) else None
  {
    hide Decimal, Atoi, Named, Spells, SkipBlanks, Blank;
    NamesMean(line);
    var v := line[15..];
    DecimalStarts(line[k..], n);
    assert v[k - 15..] == line[k..] && v[k - 15] == line[k..][0];
    BlanksSkipped(v, k - 15);
    AtoiMeans(line[k..], n);
  }

  lemma ChunkedLine(f: Fields, line: Text)
    requires Field(line, "transfer-encoding:")
    ensures HeaderLine(f, line) == Some(f.(chunked := f.chunked || SaysChunked(line)))
  {
    hide HasToken, Lists, Named;
    NamesMean(line);
    OneField(line);
    TokenMeans(line[18..], CHUNKED);
    assert CHUNKED == Of("chunked");
  }

  // No line is two of these fields.
  lemma OneField(line: Text)
    ensures Field(line, "transfer-encoding:") ==> !Field(line, "content-length:") && !Field(line, "connection:")
    ensures Field(line, "content-length:") ==> !Field(line, "connection:")
  {
    FieldOctet(line, "content-length:", 3);
    FieldOctet(line, "connection:", 3);
    FieldOctet(line, "content-length:", 0);
    FieldOctet(line, "connection:", 0);
    FieldOctet(line, "transfer-encoding:", 0);
    hide Field;
  }

  lemma FieldOctet(line: Text, name: string, i: nat)
    requires i < |name|
    ensures Field(line, name) ==> i < |line| && EitherCase(line[i], name[i])
  {
    if Field(line, name) {
      assert EitherCase(line[..|name|][i], name[i]);
    }
  }

  // "close" is for good; "keep-alive" undoes only what the version said.
  lemma ConnectionLine(f: Fields, line: Text)
    requires Field(line, "connection:")
    ensures HeaderLine(f, line) == Some(
              if Lists(line[11..], Of("close")) then f.(close := true, closeSeen := true)
              else if Lists(line[11..], Of("keep-alive")) && !f.closeSeen then f.(close := false)
              else f)
  {
    hide HasToken, Lists, Named;
    NamesMean(line);
    OneField(line);
    TokenMeans(line[11..], CLOSE);
    TokenMeans(line[11..], KEEP_ALIVE);
    assert CLOSE == Of("close") && KEEP_ALIVE == Of("keep-alive");
  }

  lemma OtherLine(f: Fields, line: Text)
    requires !Field(line, "content-length:") && !Field(line, "transfer-encoding:") && !Field(line, "connection:")
    ensures HeaderLine(f, line) == Some(f)
  {
    hide Named, HasToken;
    NamesMean(line);
  }

  // ---- The head ----

  // A header line that is no reason to refuse the response.
  ghost predicate Fine(line: Text) {
    && line != [] && NoCrlf(line)
    && (Field(line, "content-length:") ==> exists n: nat, k: nat :: n <= 4096 && SaysLength(line, n, k))
  }

  ghost predicate AllFine(lines: seq<Text>) {
    forall i :: 0 <= i < |lines| ==> Fine(lines[i])
  }

  ghost predicate AnyChunked(lines: seq<Text>) {
    exists i :: 0 <= i < |lines| && SaysChunked(lines[i])
  }

  predicate NoLength(lines: seq<Text>) {
    forall i :: 0 <= i < |lines| ==> !Field(lines[i], "content-length:")
  }

  function HeadText(lines: seq<Text>): Text {
    if lines == [] then [] else lines[0] + CRLF + HeadText(lines[1..])
  }

  lemma FineLine(f: Fields, line: Text) returns (h: Fields)
    requires Fine(line)
    ensures HeaderLine(f, line) == Some(h)
    ensures h.status == f.status && h.bytes == f.bytes && h.chunked == (f.chunked || SaysChunked(line))
    ensures !Field(line, "content-length:") ==> h.length == f.length
    ensures forall n, k {:trigger SaysLength(line, n, k)} :: SaysLength(line, n, k) && n <= 4096 ==> h.length == Some(n)
  {
    hide HeaderLine, Field;
    OneField(line);
    if Field(line, "content-length:") {
      var n: nat, k: nat :| n <= 4096 && SaysLength(line, n, k);
      LengthLine(f, line, n, k);
      forall n': nat, k': nat | SaysLength(line, n', k') && n' <= 4096
        ensures n' == n
      {
        LengthLine(f, line, n', k');
      }
    } else if Field(line, "transfer-encoding:") {
      ChunkedLine(f, line);
    } else if Field(line, "connection:") {
      ConnectionLine(f, line);
    } else {
      OtherLine(f, line);
    }
    h := HeaderLine(f, line).value;
  }

  lemma OneLine(f: Fields, line: Text, h: Fields, y: Text)
    requires line != [] && NoCrlf(line) && f.bytes + |line| + 2 <= 4096
    requires HeaderLine(f.(bytes := f.bytes + |line| + 2), line) == Some(h)
    ensures Advance(Headers(f), line + CRLF + y) == Advance(Headers(h), y)
  {
    hide HeaderLine, NoCrlf, FirstCrlf, Chunk, Advance;
    LineEnds(line, y);
    Turned(Headers(f), line + CRLF + y);
  }

  // Line after line sets what it says.
  lemma {:induction false} LinesRead(f: Fields, lines: seq<Text>, y: Text) returns (g: Fields)
    requires AllFine(lines) && f.bytes + |HeadText(lines)| <= 4096
    ensures Advance(Headers(f), HeadText(lines) + y) == Advance(Headers(g), y)
    ensures g.status == f.status && g.bytes == f.bytes + |HeadText(lines)|
    ensures g.chunked == (f.chunked || AnyChunked(lines))
    ensures NoLength(lines) ==> g.length == f.length
    decreases |lines|
  {
    hide Advance, HeaderLine, SaysChunked, Field;
    if lines == [] {
      assert HeadText(lines) + y == y;
      g := f;
    } else {
      var line, rest := lines[0], HeadText(lines[1..]) + y;
      var h := FineLine(f.(bytes := f.bytes + |line| + 2), line);
      assert HeadText(lines) + y == line + CRLF + rest;
      OneLine(f, line, h, rest);
      g := LinesRead(h, lines[1..], y);
      assert AnyChunked(lines) <==> SaysChunked(line) || AnyChunked(lines[1..]) by { AnyOf(lines); }
    }
  }

  lemma AnyOf(lines: seq<Text>)
    requires lines != []
    ensures AnyChunked(lines) <==> SaysChunked(lines[0]) || AnyChunked(lines[1..])
  {
    hide SaysChunked;
    if AnyChunked(lines) && !SaysChunked(lines[0]) {
      var i :| 0 <= i < |lines| && SaysChunked(lines[i]);
      assert lines[1..][i - 1] == lines[i];
    }
    if AnyChunked(lines[1..]) {
      var i :| 0 <= i < |lines[1..]| && SaysChunked(lines[1..][i]);
      assert lines[i + 1] == lines[1..][i];
    }
  }

  // "HTTP/", a version, a blank, three digits, and whatever the server adds.
  predicate StatusText(line: Text, code: nat, v: nat) {
    && 3 <= v && 5 + v + 4 <= |line| && line[..5] == Of("HTTP/") && line[5 + v] == ' ' as int
    && (forall i :: 5 <= i < 5 + v ==> line[i] != ' ' as int)
    && Decimal(line[6 + v..9 + v], code) && NoCrlf(line)
  }

  lemma {:induction false} FirstBlank(s: Text, i: nat, k: nat)
    requires i <= k < |s| && s[k] == SPACE && forall j :: i <= j < k ==> s[j] != SPACE
    ensures IndexFrom(s, SPACE, i) == Some(k)
    decreases k - i
  {
    if i < k {
      FirstBlank(s, i + 1, k);
    }
  }

  lemma StatusRead(line: Text, code: nat, v: nat, y: Text) returns (f: Fields)
    requires StatusText(line, code, v)
    ensures Advance(Status, line + CRLF + y) == Advance(Headers(f), y)
    ensures f.status == code && f.bytes == |line| + 2 && f.length == None && !f.chunked && !f.closeSeen
    ensures f.close <==> line[5..8] == Of("1.0")
  {
    hide NoCrlf, FirstCrlf, Atoi, Decimal, IndexFrom, Chunk, HeaderLine, Advance;
    FirstBlank(line, 5, 5 + v);
    AtoiMeans(line[6 + v..9 + v], code);
    LineEnds(line, y);
    assert HTTP == Of("HTTP/");
    assert line[..8] == line[..5] + line[5..8];
    assert HTTP10 == HTTP + Of("1.0");
    f := StatusLine(line).value;
    Turned(Status, line + CRLF + y);
  }

  // The empty line: a body follows, unless the status is no success.
  lemma HeadEnds(f: Fields, y: Text)
    requires f.bytes + 2 <= 4096
    ensures Advance(Headers(f), CRLF + y)
         == if 200 <= f.status && f.status <= 299 then Advance(Body(f.(bytes := f.bytes + 2), []), y) else Failed
  {
    hide HeaderLine, FirstCrlf, Chunk, Advance;
    EmptyLine();
    LineEnds([], y);
    assert [] + CRLF + y == CRLF + y;
    Turned(Headers(f), CRLF + y);
  }

  function Head(status: Text, lines: seq<Text>): Text {
    status + CRLF + HeadText(lines) + CRLF
  }

  // A head that fits says its status, whether chunks follow, and nothing of a
  // length unless a line does.
  lemma HeadRead(status: Text, code: nat, v: nat, lines: seq<Text>, y: Text) returns (g: Fields)
    requires StatusText(status, code, v) && AllFine(lines) && |Head(status, lines)| <= 4096
    ensures Advance(Status, Head(status, lines) + y)
         == if 200 <= code && code <= 299 then Advance(Body(g, []), y) else Failed
    ensures g.chunked == AnyChunked(lines)
    ensures NoLength(lines) ==> g.length == None
  {
    hide Advance, StatusText, AllFine, NoLength, HeadText, AnyChunked;
    var rest := HeadText(lines) + (CRLF + y);
    assert Head(status, lines) + y == status + CRLF + rest;
    var f := StatusRead(status, code, v, rest);
    var h := LinesRead(f, lines, CRLF + y);
    HeadEnds(h, y);
    g := h.(bytes := h.bytes + 2);
  }

  // The last line that names a length decides it.
  lemma HeadWithLength(status: Text, code: nat, v: nat, before: seq<Text>, line: Text, after: seq<Text>,
                       n: nat, k: nat, y: Text) returns (g: Fields)
    requires StatusText(status, code, v) && AllFine(before) && Fine(line) && AllFine(after)
    requires SaysLength(line, n, k) && n <= 4096 && NoLength(after)
    requires !AnyChunked(before) && !AnyChunked(after)
    requires |status| + 2 + |HeadText(before)| + |line| + 2 + |HeadText(after)| + 2 <= 4096
    ensures Advance(Status, status + CRLF + HeadText(before) + (line + CRLF) + HeadText(after) + CRLF + y)
         == if 200 <= code && code <= 299 then Advance(Body(g, []), y) else Failed
    ensures !g.chunked && g.length == Some(n)
  {
    hide Advance, StatusText, AllFine, NoLength, HeadText, AnyChunked, Fine, SaysLength, SaysChunked, HeaderLine, Field;
    var end := CRLF + y;
    var third := HeadText(after) + end;
    var second := line + CRLF + third;
    var first := HeadText(before) + second;
    assert status + CRLF + HeadText(before) + (line + CRLF) + HeadText(after) + CRLF + y == status + CRLF + first;
    var f := StatusRead(status, code, v, first);
    var h := LinesRead(f, before, second);
    FineIsLine(line);
    LengthIsNotChunked(line, n, k);
    var i := FineLine(h.(bytes := h.bytes + |line| + 2), line);
    OneLine(h, line, i, third);
    var j := LinesRead(i, after, end);
    HeadEnds(j, y);
    g := j.(bytes := j.bytes + 2);
  }

  lemma FineIsLine(line: Text)
    requires Fine(line)
    ensures line != [] && NoCrlf(line)
  {
    hide NoCrlf;
  }

  lemma LengthIsNotChunked(line: Text, n: nat, k: nat)
    requires SaysLength(line, n, k)
    ensures !SaysChunked(line)
  {
    OneField(line);
    hide Field;
  }

  // ---- Whole responses ----

  // In chunks: the data of the chunks joined, whatever else was said of a
  // length, and whatever follows.
  lemma ChunkedIsRead(status: Text, code: nat, v: nat, lines: seq<Text>, parts: seq<Part>,
                      zero: Text, extension: Text, trailer: seq<Text>, y: Text)
    requires StatusText(status, code, v) && AllFine(lines) && AnyChunked(lines) && |Head(status, lines)| <= 4096
    requires AllOk(parts) && Hexadecimal(zero, 0) && Extension(extension) && Lines(trailer)
    ensures Advance(Status, Head(status, lines) + (Chunks(parts) + (zero + extension + CRLF + Trailer(trailer)) + y))
         == if 200 <= code && code <= 299 then Done(Sent(parts)) else Failed
  {
    hide Advance, StatusText, AllFine, AnyChunked, NoLength, Head;
    hide AllOk, Chunks, Trailer, Hexadecimal, Extension, Lines;
    var body := Chunks(parts) + (zero + extension + CRLF + Trailer(trailer)) + y;
    var g := HeadRead(status, code, v, lines, body);
    if 200 <= code <= 299 {
      ChunksAreRead(g, [], parts, zero, extension, trailer, y);
      assert [] + Sent(parts) == Sent(parts);
    }
  }

  // With a length: exactly that many octets.
  lemma LengthIsRead(status: Text, code: nat, v: nat, before: seq<Text>, line: Text, after: seq<Text>,
                     k: nat, body: Text, y: Text)
    requires StatusText(status, code, v) && AllFine(before) && Fine(line) && AllFine(after)
    requires SaysLength(line, |body|, k) && |body| <= 4096 && NoLength(after)
    requires !AnyChunked(before) && !AnyChunked(after)
    requires |status| + 2 + |HeadText(before)| + |line| + 2 + |HeadText(after)| + 2 <= 4096
    ensures Advance(Status, status + CRLF + HeadText(before) + (line + CRLF) + HeadText(after) + CRLF + (body + y))
         == if 200 <= code && code <= 299 then Done(body) else Failed
  {
    hide Advance, StatusText, AllFine, AnyChunked, Fine, SaysLength, NoLength, HeadText;
    var g := HeadWithLength(status, code, v, before, line, after, |body|, k, body + y);
    BodyOfLength(g, body, y);
  }

  lemma BodyOfLength(g: Fields, body: Text, y: Text)
    requires !g.chunked && g.length == Some(|body|)
    ensures Advance(Body(g, []), body + y) == Done(body)
  {
    assert (body + y)[..|body|] == body;
  }

  // With neither: the body ends where the connection does.
  lemma RestIsRead(status: Text, code: nat, v: nat, lines: seq<Text>, body: Text)
    requires StatusText(status, code, v) && AllFine(lines) && |Head(status, lines)| <= 4096
    requires !AnyChunked(lines) && NoLength(lines) && body != []
    ensures AtEof(Advance(Status, Head(status, lines) + body))
         == if 200 <= code && code <= 299 then Done(body) else Failed
  {
    hide StatusText, AllFine, AnyChunked, NoLength, Head;
    var g := HeadRead(status, code, v, lines, body);
  }

  // ---- A reader with room for 4096 octets ----

  // Whatever a reader makes of w, it is what w says, or w did not fit.
  lemma {:induction false} MeaningSays(w: Text)
    ensures Meaning(w) == Advance(Status, w) || Meaning(w) == Failed
    decreases |w|
  {
    hide Advance;
    if w == [] {
      NothingSaid();
    } else {
      var init, last := w[..|w| - 1], [w[|w| - 1]];
      MeaningSays(init);
      AdvanceOn(Status, init, last);
      assert w == init + last;
    }
  }

  lemma NothingSaid()
    ensures Advance(Status, []) == Start
  {
  }

  // What fits is read as what it says, in any pieces recv makes of it; 4096
  // octets that end nothing are too many.
  lemma ResponseIsRead(pieces: seq<Text>)
    requires Fits(Start, pieces) && |Flat(pieces)| <= 4096
    ensures var s := Advance(Status, Flat(pieces));
            Run(Start, pieces) == if s.More? && Kept(s) == 4096 then Failed else s
  {
    hide Advance, Run, Fits, Meaning;
    var w := Flat(pieces);
    StartsEmpty();
    RunIsMeaning([], pieces);
    AdvanceShrinks(Status, w);
    assert [] + w == w;
    if w == [] {
      NothingSaid();
    } else {
      FeedStep([], w);
    }
  }

  lemma StartsEmpty()
    ensures Meaning([]) == Start
  {
  }
}
