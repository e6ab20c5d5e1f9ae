// WebSocket frame headers (section 5.2 of RFC 6455) and the masking of
// payloads, octet by octet and a word at a time (section 5.3).
module WsCodec {
  import opened Bytes

  const MAX_HEADER_LEN: nat := 14
  const MAX_CONTROL: nat := 125
  const MAX_LENGTH: nat := 0x8000_0000_0000_0000

  const CONT: byte := 0
  const TEXT: byte := 1
  const BINARY: byte := 2
  const CLOSE: byte := 8
  const PING: byte := 9
  const PONG: byte := 10

  datatype Frame = Frame(fin: bool, opcode: byte, masked: bool, mask: Text, length: nat, headerLen: nat)

  datatype Parsed = NeedMore(needed: nat) | Bad | Header(frame: Frame)

  // Big-endian value of the first n octets.
  function Big(b: Text, n: nat): nat
    requires n <= |b|
  {
    if n == 0 then 0 else 256 * Big(b, n - 1) + b[n - 1]
  }

  predicate KnownOpcode(o: int) {
    o == CONT || o == TEXT || o == BINARY || o == CLOSE || o == PING || o == PONG
  }

  // Where the header's length field ends, and the length in it.
  datatype Length = Short(needed: nat) | Wrong | Length(end: nat, value: nat)

  function ParseLength(buf: Text): (r: Length)
    requires |buf| >= 2
    ensures r.Length? ==> 2 <= r.end <= 10 && r.end <= |buf| && r.value < MAX_LENGTH
    ensures r.Short? ==> |buf| < r.needed <= 10
  {
    var code := buf[1] % 128;
    if code < 126 then Length(2, code)
    else if code == 126 then
      if |buf| < 4 then Short(4)
      else if Big(buf[2..4], 2) < 126 then Wrong
      else
        BigBound(buf[2..4], 2);
        Length(4, Big(buf[2..4], 2))
    else if |buf| < 10 then Short(10)
    else if buf[2] >= 128 then Wrong
    else if Big(buf[2..10], 8) < 65536 then Wrong
    else
      BigBound(buf[2..10], 8);
      Length(10, Big(buf[2..10], 8))
  }

  lemma BigBound(b: Text, n: nat)
    requires n <= |b| && n <= 8
    ensures n == 2 ==> Big(b, n) < 65536
    ensures n == 8 && b[0] < 128 ==> Big(b, n) < MAX_LENGTH
  {
    if n == 2 {
      assert Big(b, 2) == 256 * Big(b, 1) + b[1];
      assert Big(b, 1) == 256 * Big(b, 0) + b[0];
    }
    if n == 8 && b[0] < 128 {
      assert Big(b, 1) == 256 * Big(b, 0) + b[0];
      assert Big(b, 2) == 256 * Big(b, 1) + b[1];
      assert Big(b, 3) == 256 * Big(b, 2) + b[2];
      assert Big(b, 4) == 256 * Big(b, 3) + b[3];
      assert Big(b, 5) == 256 * Big(b, 4) + b[4];
      assert Big(b, 6) == 256 * Big(b, 5) + b[5];
      assert Big(b, 7) == 256 * Big(b, 6) + b[6];
      assert Big(b, 8) == 256 * Big(b, 7) + b[7];
    }
  }

  // ws_parse_frame_header.
  function ParseHeader(buf: Text): (r: Parsed)
    ensures r.NeedMore? ==> |buf| < r.needed <= MAX_HEADER_LEN
    ensures r.Header? ==>
              && 2 <= r.frame.headerLen <= |buf| && r.frame.headerLen <= MAX_HEADER_LEN
              && KnownOpcode(r.frame.opcode) && r.frame.length < MAX_LENGTH
              && (r.frame.masked ==> |r.frame.mask| == 4)
              && (r.frame.opcode >= 8 ==> r.frame.fin && r.frame.length <= MAX_CONTROL)
              && (r.frame.opcode == CLOSE ==> r.frame.length != 1)
  {
    if |buf| < 2 then NeedMore(2)
    else
      var opcode := buf[0] % 16;
      var fin := buf[0] >= 128;
      if buf[0] / 16 % 8 != 0 || !KnownOpcode(opcode) || (opcode >= 8 && !fin) then Bad
      else match ParseLength(buf)
        case Short(needed) => NeedMore(needed)
        case Wrong => Bad
        case Length(end, length) =>
          if (opcode >= 8 && length > MAX_CONTROL) || (opcode == CLOSE && length == 1) then Bad
          else if buf[1] < 128 then Header(Frame(fin, opcode, false, [], length, end))
          else if |buf| < end + 4 then NeedMore(end + 4)
          else Header(Frame(fin, opcode, true, buf[end..end + 4], length, end + 4))
  }

  lemma LengthExtends(buf: Text, more: Text)
    requires |buf| >= 2 && !ParseLength(buf).Short?
    ensures ParseLength(buf + more) == ParseLength(buf)
  {
    var all := buf + more;
    if |buf| >= 4 { assert all[2..4] == buf[2..4]; }
    if |buf| >= 10 { assert all[2..10] == buf[2..10]; }
  }

  // A header is decided by its own octets: more of the stream never changes
  // a verdict, so it does not matter where the header was cut.
  lemma VerdictStands(buf: Text, more: Text)
    requires !ParseHeader(buf).NeedMore?
    ensures ParseHeader(buf + more) == ParseHeader(buf)
  {
    if |buf| >= 2 && !ParseLength(buf).Short? {
      LengthExtends(buf, more);
      var all := buf + more;
      if ParseLength(buf).Length? {
        var end := ParseLength(buf).end;
        if |buf| >= end + 4 { assert all[end..end + 4] == buf[end..end + 4]; }
      }
    }
  }

  lemma LengthCut(buf: Text, n: nat)
    requires |buf| >= 2 && ParseLength(buf).Length? && ParseLength(buf).end <= n <= |buf|
    ensures ParseLength(buf[..n]) == ParseLength(buf)
  {
    hide Big;
    var end := ParseLength(buf).end;
    if end == 4 {
      assert buf[..n][2..4] == buf[2..4];
    } else if end == 10 {
      assert buf[..n][2..10] == buf[2..10];
    }
  }

  // Nothing shorter than the header itself is ever taken for one.
  lemma HeaderExact(buf: Text)
    requires ParseHeader(buf).Header?
    ensures ParseHeader(buf[..ParseHeader(buf).frame.headerLen]) == ParseHeader(buf)
  {
    hide Big;
    var n := ParseHeader(buf).frame.headerLen;
    LengthCut(buf, n);
    var end := ParseLength(buf).end;
    if n == end + 4 {
      assert buf[..n][end..end + 4] == buf[end..end + 4];
    }
  }

  // Asking for what is needed never reads past the header.
  lemma NeededExact(h: Text, a: Text)
    requires ParseHeader(h).NeedMore? && |h + a| <= ParseHeader(h).needed
    ensures ParseHeader(h + a).Header? ==> ParseHeader(h + a).frame.headerLen == |h + a|
  {
    hide Big;
    if |h| >= 2 && ParseLength(h).Length? {
      LengthExtends(h, a);
    }
  }

  // A prefix of an undecided header is undecided.
  lemma NeedMoreBefore(h: Text, a: Text)
    requires ParseHeader(h + a).NeedMore?
    ensures ParseHeader(h).NeedMore?
  {
    if !ParseHeader(h).NeedMore? {
      VerdictStands(h, a);
    }
  }

  // ---- Building ----

  // Big-endian octets of v, n of them.
  function Octets(v: nat, n: nat): (r: Text)
    ensures |r| == n
  {
    if n == 0 then [] else Octets(v / 256, n - 1) + [v % 256]
  }

  function Power256(n: nat): nat {
    if n == 0 then 1 else 256 * Power256(n - 1)
  }

  lemma {:induction false} BigOfOctets(v: nat, n: nat, rest: Text)
    requires v < Power256(n)
    ensures Big(Octets(v, n) + rest, n) == v
  {
    if n > 0 {
      var o := Octets(v / 256, n - 1);
      assert Octets(v, n) + rest == o + ([v % 256] + rest);
      BigOfOctets(v / 256, n - 1, [v % 256] + rest);
    }
  }

  // ws_build_frame_header.
  function BuildHeader(opcode: byte, length: nat): (r: Option<Text>)
    requires KnownOpcode(opcode)
    ensures r.Some? <==> length < MAX_LENGTH
    ensures r.Some? ==> 2 <= |r.value| <= 10 && r.value[0] == 128 + opcode
  {
    if length >= MAX_LENGTH then None
    else if length < 126 then Some([128 + opcode, length])
    else if length <= 65535 then Some([128 + opcode, 126] + Octets(length, 2))
    else Some([128 + opcode, 127] + Octets(length, 8))
  }

  predicate Sendable(opcode: byte, length: nat) {
    && KnownOpcode(opcode) && length < MAX_LENGTH
    && (opcode >= 8 ==> length <= MAX_CONTROL)
    && (opcode == CLOSE ==> length != 1)
  }

  lemma Powers256()
    ensures Power256(2) == 65536 && Power256(8) == 0x1_0000_0000_0000_0000
  {
    assert Power256(1) == 256 && Power256(2) == 65536 && Power256(3) == 0x100_0000 && Power256(4) == 0x1_0000_0000;
    assert Power256(5) == 0x100_0000_0000 && Power256(6) == 0x1_0000_0000_0000;
    assert Power256(7) == 0x100_0000_0000_0000;
  }

  lemma BuiltLength(h: Text, length: nat, rest: Text)
    requires |h| >= 2 && length < MAX_LENGTH
    requires h == [h[0]] + (if length < 126 then [length]
                            else if length <= 65535 then [126] + Octets(length, 2)
                            else [127] + Octets(length, 8))
    ensures ParseLength(h + rest) == Length(|h|, length)
  {
    hide Big, Octets, Power256;
    if length > 65535 {
      LongLength(h[0], length, rest);
    } else if length >= 126 {
      MiddleLength(h[0], length, rest);
    }
  }

  lemma MiddleLength(o: byte, length: nat, rest: Text)
    requires 126 <= length <= 65535
    ensures ParseLength([o] + ([126] + Octets(length, 2)) + rest) == Length(4, length)
  {
    hide Big, Octets, Power256;
    var all := [o] + ([126] + Octets(length, 2)) + rest;
    Powers256();
    assert all[2..4] == Octets(length, 2) + [];
    BigOfOctets(length, 2, []);
  }

  lemma LongLength(o: byte, length: nat, rest: Text)
    requires 65535 < length < MAX_LENGTH
    ensures ParseLength([o] + ([127] + Octets(length, 8)) + rest) == Length(10, length)
  {
    hide Big, Octets, Power256;
    var all := [o] + ([127] + Octets(length, 8)) + rest;
    Powers256();
    assert all[2..10] == Octets(length, 8) + [];
    assert all[2] == Octets(length, 8)[0];
    BigOfOctets(length, 8, []);
    TopOctet(length);
  }

  lemma TopOctet(v: nat)
    requires v < MAX_LENGTH
    ensures Octets(v, 8)[0] < 128
  {
    TopOctets(v, 8);
  }

  lemma {:induction false} TopOctets(v: nat, n: nat)
    requires n > 0 && 2 * v < Power256(n)
    ensures Octets(v, n)[0] < 128
  {
    if n > 1 {
      TopOctets(v / 256, n - 1);
    }
  }

  // What is built is read back, whatever follows it.
  lemma BuiltHeader(opcode: byte, length: nat, rest: Text)
    requires Sendable(opcode, length)
    ensures var h := BuildHeader(opcode, length).value;
            ParseHeader(h + rest) == Header(Frame(true, opcode, false, [], length, |h|))
  {
    var h := BuildHeader(opcode, length).value;
    BuiltLength(h, length, rest);
    assert (h + rest)[0] == 128 + opcode && (h + rest)[1] == h[1];
  }

  // ---- Masking ----

  // Exclusive or of the n lowest bits.
  function Xor(a: nat, b: nat, n: nat): nat {
    if n == 0 then 0 else 2 * Xor(a / 2, b / 2, n - 1) + (a % 2 + b % 2) % 2
  }

  function Power2(n: nat): (p: nat)
    ensures p > 0
  {
    if n == 0 then 1 else 2 * Power2(n - 1)
  }

  lemma {:induction false} XorBound(a: nat, b: nat, n: nat)
    ensures Xor(a, b, n) < Power2(n)
  {
    if n > 0 {
      XorBound(a / 2, b / 2, n - 1);
    }
  }

  lemma BitApart(p: nat, bit: nat)
    requires bit < 2
    ensures (2 * p + bit) / 2 == p && (2 * p + bit) % 2 == bit
  {
  }

  lemma Parity(a: nat, b: nat)
    ensures ((a % 2 + b % 2) % 2 + b % 2) % 2 == a % 2
  {
  }

  lemma XorDigit(q: nat, b: nat, q': nat, b': nat, n: nat)
    requires b < 2 && b' < 2
    ensures Xor(2 * q + b, 2 * q' + b', n + 1) == 2 * Xor(q, q', n) + (b + b') % 2
  {
    BitApart(q, b);
    BitApart(q', b');
  }

  lemma PowerTwice(k: nat)
    requires k > 0
    ensures Power2(k) == 2 * Power2(k - 1)
  {
  }

  lemma HalfBelow(l: nat, p: nat)
    requires l < 2 * p
    ensures l / 2 < p
  {
  }

  lemma Halves(x: nat, l: nat)
    ensures 2 * (x + l / 2) + l % 2 == 2 * x + l && 2 * (l / 2) + l % 2 == l
  {
  }

  // Masking twice is not masking.
  lemma {:induction false} XorTwice(a: nat, b: nat, n: nat)
    requires a < Power2(n)
    ensures Xor(Xor(a, b, n), b, n) == a
  {
    hide Xor, Power2;
    if n == 0 {
      NoBits(0, 0, 0);
      XorNothing(Xor(a, b, n), b);
    } else {
      var q, r := Xor(a / 2, b / 2, n - 1), (a % 2 + b % 2) % 2;
      PowerTwice(n);
      HalfBelow(a, Power2(n - 1));
      XorTwice(a / 2, b / 2, n - 1);
      Halves(0, a);
      Halves(0, b);
      XorDigit(a / 2, a % 2, b / 2, b % 2, n - 1);
      XorDigit(q, r, b / 2, b % 2, n - 1);
      Parity(a, b);
    }
  }

  lemma XorNothing(a: nat, b: nat)
    ensures Xor(a, b, 0) == 0
  {
  }

  lemma NoBits(h: nat, h': nat, n: nat)
    ensures Power2(0) == 1 && Xor(0, 0, 0) == 0 && Xor(1 * h + 0, 1 * h' + 0, n) == Xor(h, h', n)
  {
  }

  // The bits of two words separate into low and high parts.
  lemma {:induction false} XorSplit(l: nat, h: nat, l': nat, h': nat, k: nat, n: nat)
    requires l < Power2(k) && l' < Power2(k)
    ensures Xor(Power2(k) * h + l, Power2(k) * h' + l', k + n) == Power2(k) * Xor(h, h', n) + Xor(l, l', k)
    decreases k
  {
    hide Xor, Power2;
    if k == 0 {
      NoBits(h, h', n);
    } else {
      var p, m := Power2(k - 1), k - 1;
      PowerTwice(k);
      HalfBelow(l, p);
      HalfBelow(l', p);
      XorSplit(l / 2, h, l' / 2, h', m, n);
      var x, x', y := p * h, p * h', p * Xor(h, h', n);
      DoubleTimes(p, h);
      DoubleTimes(p, h');
      DoubleTimes(p, Xor(h, h', n));
      XorDigit(x + l / 2, l % 2, x' + l' / 2, l' % 2, m + n);
      XorDigit(l / 2, l % 2, l' / 2, l' % 2, m);
      Halves(x, l);
      Halves(x', l');
      Halves(0, l);
      Halves(0, l');
      assert Xor(2 * x + l, 2 * x' + l', k + n) == 2 * (y + Xor(l / 2, l' / 2, m)) + (l % 2 + l' % 2) % 2;
    }
  }

  lemma DoubleTimes(p: nat, h: nat)
    ensures 2 * p * h == 2 * (p * h)
  {
  }

  function XorByte(a: byte, b: byte): byte {
    XorBound(a, b, 8);
    assert Power2(8) == 256 by { PowersOfTwo(); }
    Xor(a, b, 8)
  }

  lemma PowersOfTwo()
    ensures Power2(8) == 256
  {
    assert Power2(4) == 16;
  }

  lemma XorByteTwice(a: byte, b: byte)
    ensures XorByte(XorByte(a, b), b) == a
  {
    PowersOfTwo();
    XorTwice(a, b, 8);
  }

  // The payload as the mask makes it, offset octets into the frame.
  function Masked(d: Text, mask: Text, offset: nat): (r: Text)
    requires |mask| == 4
    ensures |r| == |d|
    ensures forall i :: 0 <= i < |d| ==> r[i] == XorByte(d[i], mask[(offset + i) % 4])
  {
    seq(|d|, i requires 0 <= i < |d| => XorByte(d[i], mask[(offset + i) % 4]))
  }

  lemma MaskedTwice(d: Text, mask: Text, offset: nat)
    requires |mask| == 4
    ensures Masked(Masked(d, mask, offset), mask, offset) == d
  {
    forall i | 0 <= i < |d|
      ensures Masked(Masked(d, mask, offset), mask, offset)[i] == d[i]
    {
      XorByteTwice(d[i], mask[(offset + i) % 4]);
    }
  }

  // However a payload is cut, its parts are masked at the running offset.
  lemma MaskedParts(a: Text, b: Text, mask: Text, offset: nat)
    requires |mask| == 4
    ensures Masked(a + b, mask, offset) == Masked(a, mask, offset) + Masked(b, mask, offset + |a|)
  {
    var l, r := Masked(a + b, mask, offset), Masked(a, mask, offset) + Masked(b, mask, offset + |a|);
    forall i | 0 <= i < |l|
      ensures l[i] == r[i]
    {
      assert (offset + i) % 4 == (offset + |a| + (i - |a|)) % 4;
    }
  }

  // A machine word, least octet first; memcpy in and out leaves the order of
  // octets in a word without meaning.
  function Word(b: Text): nat {
    if b == [] then 0 else b[0] + 256 * Word(b[1..])
  }

  function WordOctets(v: nat, n: nat): (r: Text)
    ensures |r| == n
  {
    if n == 0 then [] else [v % 256] + WordOctets(v / 256, n - 1)
  }

  function XorOctets(a: Text, b: Text): (r: Text)
    requires |a| == |b|
    ensures |r| == |a|
    ensures forall i :: 0 <= i < |a| ==> r[i] == XorByte(a[i], b[i])
  {
    seq(|a|, i requires 0 <= i < |a| => XorByte(a[i], b[i]))
  }

  lemma {:induction false} OctetsOfWord(b: Text)
    ensures WordOctets(Word(b), |b|) == b
  {
    if b != [] {
      OctetsOfWord(b[1..]);
      assert (b[0] + 256 * Word(b[1..])) / 256 == Word(b[1..]);
    }
  }

  // One exclusive or of two words is one per octet.
  lemma {:induction false} XorWord(a: Text, b: Text)
    requires |a| == |b|
    ensures Xor(Word(a), Word(b), 8 * |a|) == Word(XorOctets(a, b))
  {
    if a == [] {
      assert Xor(0, 0, 0) == 0;
    } else {
      XorWord(a[1..], b[1..]);
      PowersOfTwo();
      XorSplit(a[0], Word(a[1..]), b[0], Word(b[1..]), 8, 8 * (|a| - 1));
      assert 8 + 8 * (|a| - 1) == 8 * |a|;
      assert XorOctets(a, b)[1..] == XorOctets(a[1..], b[1..]);
    }
  }

  // The mask octets in the order a word at this offset meets them.
  function Mask64(mask: Text, offset: nat): (m: Text)
    requires |mask| == 4
    ensures |m| == 8 && forall k :: 0 <= k < 8 ==> m[k] == mask[(offset + k) % 4]
  {
    seq(8, k requires 0 <= k < 8 => mask[(offset + k) % 4])
  }

  // Four-octet masks come round every word.
  lemma MaskComesRound(mask: Text, offset: nat, words: nat)
    requires |mask| == 4
    ensures Mask64(mask, offset + 8 * words) == Mask64(mask, offset)
  {
    forall k | 0 <= k < 8
      ensures Mask64(mask, offset + 8 * words)[k] == Mask64(mask, offset)[k]
    {
      FourDivides(offset + k, 2 * words);
    }
  }

  lemma FourDivides(x: nat, n: nat)
    ensures (x + 4 * n) % 4 == x % 4
  {
  }

  // A word of payload, exclusive or of a word of mask: eight octets masked.
  lemma WordMasked(d: Text, mask: Text, offset: nat)
    requires |d| == 8 && |mask| == 4
    ensures WordOctets(Xor(Word(d), Word(Mask64(mask, offset)), 64), 8) == Masked(d, mask, offset)
  {
    var m := Mask64(mask, offset);
    XorWord(d, m);
    OctetsOfWord(XorOctets(d, m));
    assert XorOctets(d, m) == Masked(d, mask, offset);
  }

  // The first i octets from start are done, the others as they were.
  ghost predicate Partly(now: Text, before: Text, start: nat, done: Text, i: nat)
    requires start + |done| <= |before| && i <= |done|
  {
    && |now| == |before|
    && (forall k :: 0 <= k < |now| && !(start <= k < start + i) ==> now[k] == before[k])
    && (forall k :: start <= k < start + i ==> now[k] == done[k - start])
  }

  lemma StepWord(d: Text, mask: Text, offset: nat, i: nat, done: Text)
    requires |mask| == 4 && i + 8 <= |d| && done == Masked(d, mask, offset)
    ensures Masked(d[i..i + 8], mask, offset + i) == done[i..i + 8]
  {
    var l, r := Masked(d[i..i + 8], mask, offset + i), done[i..i + 8];
    forall k | 0 <= k < 8
      ensures l[k] == r[k]
    {
      assert offset + i + k == offset + (i + k);
    }
  }

  lemma Untouched(now: Text, before: Text, start: nat, done: Text, i: nat)
    requires start + |done| <= |before| && i + 8 <= |done| && Partly(now, before, start, done, i)
    ensures now[start + i..start + i + 8] == before[start..start + |done|][i..i + 8]
  {
    var l, r := now[start + i..start + i + 8], before[start..start + |done|][i..i + 8];
    forall k | 0 <= k < 8
      ensures l[k] == r[k]
    {
      assert now[start + i + k] == before[start + i + k];
    }
  }

  // One octet.
  method MaskOctet(data: array<byte>, start: nat, i: nat, mask: Text, offset: nat,
                   ghost before: Text, ghost len: nat)
    requires start + len <= |before| && i < len && |mask| == 4
    requires Partly(data[..], before, start, Masked(before[start..start + len], mask, offset), i)
    modifies data
    ensures Partly(data[..], before, start, Masked(before[start..start + len], mask, offset), i + 1)
  {
    assert data[start + i] == before[start..start + len][i];
    data[start + i] := XorByte(data[start + i], mask[(offset + i) % 4]);
  }

  // Eight octets: memcpy out, exclusive or, memcpy back.
  method MaskEight(data: array<byte>, start: nat, i: nat, m: nat, mask: Text, offset: nat,
                   ghost before: Text, ghost len: nat)
    requires start + len <= |before| && i + 8 <= len && |mask| == 4 && m == Word(Mask64(mask, offset + i))
    requires Partly(data[..], before, start, Masked(before[start..start + len], mask, offset), i)
    modifies data
    ensures Partly(data[..], before, start, Masked(before[start..start + len], mask, offset), i + 8)
  {
    hide XorByte, Word, Xor;
    ghost var d := before[start..start + len];
    Untouched(data[..], before, start, Masked(d, mask, offset), i);
    assert data[start + i..start + i + 8] == data[..][start + i..start + i + 8];
    MaskWord(data, start + i, m, mask, offset + i);
    StepWord(d, mask, offset, i, Masked(d, mask, offset));
    ghost var w := data[start + i..start + i + 8];
    assert forall k {:trigger data[k]} :: start + i <= k < start + i + 8 ==> data[k] == w[k - start - i];
  }

  // memcpy out, exclusive or, memcpy back.
  method MaskWord(data: array<byte>, at: nat, m: nat, ghost mask: Text, ghost offset: nat)
    requires at + 8 <= data.Length && |mask| == 4 && m == Word(Mask64(mask, offset))
    modifies data
    ensures data[at..at + 8] == Masked(old(data[at..at + 8]), mask, offset)
    ensures forall k :: 0 <= k < data.Length && !(at <= k < at + 8) ==> data[k] == old(data[k])
  {
    WordMasked(data[at..at + 8], mask, offset);
    var v := Xor(Word(data[at..at + 8]), m, 64);
    var b := WordOctets(v, 8);
    ghost var was := data[at..at + 8];
    assert forall k :: 0 <= k < 8 ==> b[k] == Masked(was, mask, offset)[k];
    forall k | at <= k < at + 8 {
      data[k] := b[k - at];
    }
    assert data[at..at + 8] == b;
  }

  // ws_apply_mask, in place: octets up to the first aligned address, whole
  // words, the octets left over.  base is the address of the first octet.
  method ApplyMask(data: array<byte>, start: nat, len: nat, base: nat, mask: Text, offset: nat)
    requires start + len <= data.Length && |mask| == 4
    modifies data
    ensures data[..] == old(data[..start]) + Masked(old(data[start..start + len]), mask, offset)
                        + old(data[start + len..])
  {
    hide XorByte, Word, Xor;
    ghost var before := data[..];
    ghost var done := Masked(before[start..start + len], mask, offset);
    assert before[start..start + len] == data[start..start + len];
    var i: nat := 0;
    while i < len && (base + i) % 8 != 0
      invariant i <= len && Partly(data[..], before, start, done, i)
    {
      MaskOctet(data, start, i, mask, offset, before, len);
      i := i + 1;
    }
    if len - i >= 8 {
      ghost var from, words := i, 0;
      var m := Word(Mask64(mask, offset + i));
      while len - i >= 8
        invariant i == from + 8 * words <= len && Partly(data[..], before, start, done, i)
        decreases len - i
      {
        MaskComesRound(mask, offset + from, words);
        MaskEight(data, start, i, m, mask, offset, before, len);
        i, words := i + 8, words + 1;
      }
    }
    while i < len
      invariant i <= len && Partly(data[..], before, start, done, i)
    {
      MaskOctet(data, start, i, mask, offset, before, len);
      i := i + 1;
    }
    assert data[..] == before[..start] + done + before[start + len..];
  }
}
