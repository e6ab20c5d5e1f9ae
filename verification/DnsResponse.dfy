// The DNS response a DoH answer carries, read in one pass.
module DnsResponse {
  import opened Bytes
  import opened Numbers
  import opened DnsQuery
  import opened DnsAnswer

  // A response, to this query, without error, and whole.
  predicate HeaderOk(data: Text, id: nat) {
    && |data| >= 12
    && Be16(data[0], data[1]) == id
    && data[2] / 128 == 1
    && data[3] % 16 == 0
    && data[2] / 2 % 2 == 0
  }

  // How much the first n questions take.
  function PassQuestions(b: Text, total: nat, n: nat): (u: Option<nat>)
    ensures u.Some? ==> u.value <= |b|
  {
    if n == 0 then Some(0)
    else
      match ReadName(b, total)
      case Bad => None
      case Named(_, v) =>
        if |b| - v < 4 then None
        else
          match PassQuestions(b[v + 4..], total, n - 1)
          case None => None
          case Some(w) => Some(v + 4 + w)
  }

  // What a message comes to.
  function Reply(data: Text, id: nat): Outcome {
    if !HeaderOk(data, id) then Failed
    else
      match PassQuestions(data[12..], |data|, Be16(data[4], data[5]))
      case None => Failed
      case Some(u) =>
        match ReadRecords(data[12 + u..], |data|, Be16(data[6], data[7]))
        case NoList => Failed
        case List(rs, _) => Verdict(rs, |data|)
  }

  datatype Asked = Asked(name: WireName, qtype: u16, qclass: u16)

  function AskedOctets(q: Asked): (b: Text)
    ensures |b| == |NameOctets(q.name)| + 4
  {
    NameOctets(q.name) + Octets16(q.qtype) + Octets16(q.qclass)
  }

  function QuestionsOctets(qs: seq<Asked>): Text {
    if qs == [] then [] else AskedOctets(qs[0]) + QuestionsOctets(qs[1..])
  }

  predicate NamesOk(qs: seq<Asked>, total: nat) {
    forall i :: 0 <= i < |qs| ==> NameOk(qs[i].name, total)
  }

  lemma QuestionPassed(q: Asked, rest: Text, total: nat, n: nat)
    requires NameOk(q.name, total)
    ensures PassQuestions(AskedOctets(q) + rest, total, n + 1)
         == match PassQuestions(rest, total, n)
            case None => None
            case Some(w) => Some(|AskedOctets(q)| + w)
  {
    hide ReadName, NameOctets, NameOk, Octets16;
    var tail := Octets16(q.qtype) + Octets16(q.qclass) + rest;
    NameIsRead(q.name, tail, total);
    var b := AskedOctets(q) + rest;
    assert b == NameOctets(q.name) + tail;
    assert b[|NameOctets(q.name)| + 4..] == rest;
  }

  lemma {:induction false} QuestionsPassed(qs: seq<Asked>, x: Text, total: nat)
    requires NamesOk(qs, total)
    ensures PassQuestions(QuestionsOctets(qs) + x, total, |qs|) == Some(|QuestionsOctets(qs)|)
  {
    hide PassQuestions, AskedOctets, NameOk;
    if qs == [] {
      NoQuestions(x, total);
      assert QuestionsOctets(qs) + x == x;
    } else {
      var rest := QuestionsOctets(qs[1..]) + x;
      QuestionPassed(qs[0], rest, total, |qs| - 1);
      QuestionsPassed(qs[1..], x, total);
      assert QuestionsOctets(qs) + x == AskedOctets(qs[0]) + rest;
    }
  }

  lemma NoQuestions(b: Text, total: nat)
    ensures PassQuestions(b, total, 0) == Some(0)
  {
  }

  // The message a header, questions and answers make.
  function Message(h: Text, qs: seq<Asked>, rs: seq<Record>, x: Text): Text {
    h + QuestionsOctets(qs) + RecordsOctets(rs) + x
  }

  predicate Announces(h: Text, qs: seq<Asked>, rs: seq<Record>) {
    && |h| == 12 && |qs| < 0x10000 && |rs| < 0x10000
    && Be16(h[4], h[5]) == |qs| && Be16(h[6], h[7]) == |rs|
  }

  // The answer to a message is what its records come to: exactly their
  // addresses, in order, under the least time to live.
  lemma ReplyToMessage(h: Text, qs: seq<Asked>, rs: seq<Record>, x: Text, id: nat)
    requires Announces(h, qs, rs)
    requires var total := |Message(h, qs, rs, x)|; NamesOk(qs, total) && OwnersOk(rs, total)
    ensures var data := Message(h, qs, rs, x);
            Reply(data, id) == if HeaderOk(h, id) then Verdict(rs, |data|) else Failed
  {
    hide QuestionsOctets, RecordsOctets, NamesOk, OwnersOk, Verdict, PassQuestions, ReadRecords;
    var data, u := Message(h, qs, rs, x), |QuestionsOctets(qs)|;
    assert forall k :: 0 <= k < 12 ==> data[k] == h[k];
    assert data[12..] == QuestionsOctets(qs) + (RecordsOctets(rs) + x);
    assert data[12 + u..] == RecordsOctets(rs) + x;
    QuestionsPassed(qs, RecordsOctets(rs) + x, |data|);
    RecordsAreRead(rs, x, |data|);
  }

  // It fails if and only if its header is not a proper answer to the query or
  // its addresses are more than one per sixteen octets, plus one.
  lemma RefusedExactly(h: Text, qs: seq<Asked>, rs: seq<Record>, x: Text, id: nat)
    requires Announces(h, qs, rs)
    requires var total := |Message(h, qs, rs, x)|; NamesOk(qs, total) && OwnersOk(rs, total)
    ensures Reply(Message(h, qs, rs, x), id).Failed?
       <==> !HeaderOk(h, id) || |AddressesOf(rs)| > |Message(h, qs, rs, x)| / 16 + 1
  {
    hide Message, NamesOk, OwnersOk, Announces, Reply, HeaderOk, AddressesOf;
    ReplyToMessage(h, qs, rs, x, id);
  }

  // One A record of class 3: its data is answered as an address, although
  // there is none of the Internet class.
  lemma OtherClassAnswered()
    ensures var h: Text := [0, 0, 128, 0, 0, 0, 0, 1, 0, 0, 0, 0];
            var r := Record(WireName([], None), A, 3, 60, [1, 2, 3, 4]);
            && Reply(Message(h, [], [r], []), 0) == Addresses([[1, 2, 3, 4]], 60)
            && InAddresses([r]) == []
  {
    hide Message, Reply, NameOctets, RecordsOctets;
    var h: Text := [0, 0, 128, 0, 0, 0, 0, 1, 0, 0, 0, 0];
    var r := Record(WireName([], None), A, 3, 60, [1, 2, 3, 4]);
    ReplyToMessage(h, [], [r], [], 0);
    assert AddressesOf([]) == [] && InAddresses([]) == [] && MinTtl([]) == NO_TTL;
    assert [r][..0] == [];
    assert AddressesOf([r]) == [] + [r.rdata] && MinTtl([r]) == 60;
  }

  // And there is no other way to be answered with addresses.
  lemma AddressesAreWritten(data: Text, id: nat) returns (rs: seq<Record>, u: nat)
    requires Reply(data, id).Addresses?
    ensures HeaderOk(data, id) && |rs| == Be16(data[6], data[7])
    ensures PassQuestions(data[12..], |data|, Be16(data[4], data[5])) == Some(u)
    ensures RecordsOctets(rs) <= data[12 + u..]
    ensures AddressesOf(rs) == Reply(data, id).addrs != []
    ensures Reply(data, id).ttl == if MinTtl(rs) == NO_TTL then 0 else MinTtl(rs)
  {
    hide ReadRecords, PassQuestions, RecordsOctets, AddressesOf, MinTtl;
    u := PassQuestions(data[12..], |data|, Be16(data[4], data[5])).value;
    var l := ReadRecords(data[12 + u..], |data|, Be16(data[6], data[7]));
    rs := l.records;
    RecordsWereWritten(data[12 + u..], |data|, Be16(data[6], data[7]));
  }

  // ---- One pass over the message ----

  // What is known of the questions once those before p are passed.
  ghost function QuestionsFrom(data: Text, p: nat, n: nat): Option<nat>
    requires p <= |data|
  {
    match PassQuestions(data[p..], |data|, n)
    case None => None
    case Some(u) => Some(p + u)
  }

  lemma QuestionTurn(data: Text, p: nat, n: nat)
    requires p <= |data| && n > 0
    ensures QuestionsFrom(data, p, n)
         == match EndAt(data, p)
            case None => None
            case Some(q) => if |data| - q < 4 then None else QuestionsFrom(data, q + 4, n - 1)
  {
    hide ReadName;
    var r := ReadName(data[p..], |data|);
    if r.Named? && |data| - p - r.used >= 4 {
      assert data[p..][r.used + 4..] == data[p + r.used + 4..];
    }
  }

  method SkipQuestions(data: Text, n: nat) returns (end: Option<nat>)
    requires |data| >= 12
    ensures end == QuestionsFrom(data, 12, n)
    ensures end.Some? ==> 12 <= end.value <= |data|
  {
    hide PassQuestions, EndAt;
    var p: nat := 12;
    var i := 0;
    while i < n
      invariant i <= n && 12 <= p <= |data| && QuestionsFrom(data, 12, n) == QuestionsFrom(data, p, n - i)
    {
      QuestionTurn(data, p, n - i);
      var q := SkipName(data, p);
      if q.None? || |data| - q.value < 4 {
        return None;
      }
      p := q.value + 4;
      i := i + 1;
    }
    NoQuestions(data[p..], |data|);
    end := Some(p);
  }

  datatype Fields = Fields(rtype: u16, ttl: u32, rdata: Rdata, next: nat)

  // One record: its owner is passed over, its class is not looked at.
  method NextRecord(data: Text, p: nat) returns (f: Option<Fields>)
    requires p <= |data|
    ensures match ReadRecord(data[p..], |data|)
            case Nothing => f.None?
            case Took(r, u) => f == Some(Fields(r.rtype, r.ttl, r.rdata, p + u))
  {
    hide ReadName, Be16, Be32;
    var q := SkipName(data, p);
    if q.None? || |data| - q.value < 10 {
      return None;
    }
    var at := q.value;
    ghost var rest := data[p..][at - p..];
    assert rest == data[at..];
    var rtype := Be16(data[at], data[at + 1]);
    var ttl := Be32(data[at + 4..at + 8]);
    var n := Be16(data[at + 8], data[at + 9]);
    if |data| - at - 10 < n {
      return None;
    }
    assert rest[4..8] == data[at + 4..at + 8] && rest[10..10 + n] == data[at + 10..at + 10 + n];
    f := Some(Fields(rtype, ttl, data[at + 10..at + 10 + n], at + 10 + n));
  }

  ghost function RecordsFrom(data: Text, p: nat, n: nat): Listed
    requires p <= |data|
  {
    ReadRecords(data[p..], |data|, n)
  }

  // All n answers from a are those done and the rest from p.
  ghost predicate Halfway(data: Text, a: nat, n: nat, done: seq<Record>, p: nat) {
    && a <= p <= |data| && |done| <= n
    && RecordsFrom(data, a, n) == Prepend(done, p - a, RecordsFrom(data, p, n - |done|))
  }

  lemma HalfwayStart(data: Text, a: nat, n: nat)
    requires a <= |data|
    ensures Halfway(data, a, n, [], a)
  {
    hide ReadRecords;
    match RecordsFrom(data, a, n)
    case NoList =>
    case List(rs, _) => assert [] + rs == rs;
  }

  lemma HalfwayTurn(data: Text, a: nat, n: nat, done: seq<Record>, p: nat)
    requires Halfway(data, a, n, done, p) && |done| < n
    ensures match ReadRecord(data[p..], |data|)
            case Nothing => RecordsFrom(data, a, n).NoList?
            case Took(r, u) => Halfway(data, a, n, done + [r], p + u)
  {
    hide ReadRecord;
    match ReadRecord(data[p..], |data|)
    case Nothing =>
    case Took(r, u) =>
      assert data[p..][u..] == data[p + u..];
      match RecordsFrom(data, p + u, n - |done| - 1)
      case NoList =>
      case List(rs, _) => assert done + ([r] + rs) == done + [r] + rs;
  }

  lemma {:induction false} AddressesGrow(rs: seq<Record>, more: seq<Record>)
    ensures |AddressesOf(rs)| <= |AddressesOf(rs + more)|
    decreases |more|
  {
    if more == [] {
      assert rs + more == rs;
    } else {
      AddressesGrow(rs, more[..|more| - 1]);
      assert (rs + more)[..|rs + more| - 1] == rs + more[..|more| - 1];
    }
  }

  // Once there is no room for one more, the answer is settled.
  lemma TooMany(data: Text, id: nat, a: nat, n: nat, done: seq<Record>, p: nat)
    requires HeaderOk(data, id) && n == Be16(data[6], data[7])
    requires QuestionsFrom(data, 12, Be16(data[4], data[5])) == Some(a)
    requires Halfway(data, a, n, done, p) && |AddressesOf(done)| > |data| / 16 + 1
    ensures Reply(data, id) == Failed
  {
    hide PassQuestions, ReadRecords, AddressesOf, MinTtl;
    match RecordsFrom(data, p, n - |done|)
    case NoList =>
    case List(rs, _) => AddressesGrow(done, rs);
  }

  lemma AllTaken(data: Text, id: nat, a: nat, n: nat, done: seq<Record>, p: nat)
    requires HeaderOk(data, id) && n == |done| == Be16(data[6], data[7])
    requires QuestionsFrom(data, 12, Be16(data[4], data[5])) == Some(a)
    requires Halfway(data, a, n, done, p)
    ensures Reply(data, id) == Verdict(done, |data|)
  {
    hide PassQuestions, Verdict;
    assert RecordsFrom(data, p, 0) == List([], 0);
    assert done + [] == done;
  }

  lemma NotAList(data: Text, id: nat, a: nat)
    requires HeaderOk(data, id) && a <= |data|
    requires QuestionsFrom(data, 12, Be16(data[4], data[5])) == Some(a)
    requires RecordsFrom(data, a, Be16(data[6], data[7])).NoList?
    ensures Reply(data, id) == Failed
  {
    hide PassQuestions, ReadRecords, Verdict;
  }

  lemma OneTaken(done: seq<Record>, r: Record)
    ensures AddressesOf(done + [r]) == if IsAddress(r) then AddressesOf(done) + [r.rdata] else AddressesOf(done)
    ensures MinTtl(done + [r]) == if Counts(r) && r.ttl < MinTtl(done) then r.ttl else MinTtl(done)
  {
    assert (done + [r])[..|done|] == done;
  }

  // doh_parse_response
  method ParseResponse(data: Text, id: nat) returns (r: Outcome)
    ensures r == Reply(data, id)
  {
    hide PassQuestions, ReadRecords, AddressesOf, MinTtl, Be16, QuestionsFrom, Halfway, ReadRecord;
    if |data| < 12 || Be16(data[0], data[1]) != id || data[2] / 128 != 1
       || data[3] % 16 != 0 || data[2] / 2 % 2 != 0 {
      return Failed;
    }
    var qdcount, ancount := Be16(data[4], data[5]), Be16(data[6], data[7]);
    var start := SkipQuestions(data, qdcount);
    if start.None? {
      NoStart(data, id);
      return Failed;
    }
    r := TakeAnswers(data, id, start.value, ancount);
  }

  lemma NoStart(data: Text, id: nat)
    requires HeaderOk(data, id) && QuestionsFrom(data, 12, Be16(data[4], data[5])).None?
    ensures Reply(data, id) == Failed
  {
    hide PassQuestions;
  }

  method TakeAnswers(data: Text, ghost id: nat, start: nat, ancount: nat) returns (r: Outcome)
    requires HeaderOk(data, id) && start <= |data| && ancount == Be16(data[6], data[7])
    requires QuestionsFrom(data, 12, Be16(data[4], data[5])) == Some(start)
    ensures r == Reply(data, id)
  {
    hide PassQuestions, ReadRecords, AddressesOf, MinTtl, Be16, QuestionsFrom, Halfway, ReadRecord, Reply, HeaderOk;
    HalfwayStart(data, start, ancount);
    ghost var done: seq<Record> := [];
    NothingTaken();
    var room := if ancount > |data| / 16 + 1 then |data| / 16 + 1 else ancount;
    var addrs: seq<Text>, ttl := [], NO_TTL;
    var p: nat, i := start, 0;
    while i < ancount
      invariant |addrs| <= i == |done| <= ancount && |addrs| <= room && p <= |data|
      invariant Halfway(data, start, ancount, done, p)
      invariant addrs == AddressesOf(done) && ttl == MinTtl(done)
    {
      HalfwayTurn(data, start, ancount, done, p);
      var f := NextRecord(data, p);
      if f.None? {
        NotAList(data, id, start);
        return Failed;
      }
      var Fields(rtype, rttl, rdata, next) := f.value;
      ghost var rec := ReadRecord(data[p..], |data|).record;
      OneTaken(done, rec);
      done := done + [rec];
      if (rtype == A && |rdata| == 4) || (rtype == AAAA && |rdata| == 16) {
        if |addrs| == room {
          TooMany(data, id, start, ancount, done, next);
          return Failed;
        }
        addrs := addrs + [rdata];
        if rttl < ttl {
          ttl := rttl;
        }
      } else if rtype == CNAME {
        if rttl < ttl {
          ttl := rttl;
        }
      }
      p := next;
      i := i + 1;
    }
    AllTaken(data, id, start, ancount, done, p);
    if addrs == [] {
      return Declined;
    }
    r := Addresses(addrs, if ttl == NO_TTL then 0 else ttl);
  }

  lemma NothingTaken()
    ensures AddressesOf([]) == [] && MinTtl([]) == NO_TTL
  {
  }

  // ---- The room for addresses ----

  predicate Roomy(rs: seq<Record>) {
    forall i :: 0 <= i < |rs| && IsAddress(rs[i]) ==> |NameOctets(rs[i].owner)| >= 2
  }

  lemma {:induction false} OctetsSnoc(rs: seq<Record>, r: Record)
    ensures RecordsOctets(rs + [r]) == RecordsOctets(rs) + RecordOctets(r)
  {
    hide RecordOctets;
    if rs == [] {
      assert [] + [r] == [r] && [r][1..] == [];
    } else {
      OctetsSnoc(rs[1..], r);
      assert (rs + [r])[1..] == rs[1..] + [r] && (rs + [r])[0] == rs[0];
      var a, b, c := RecordOctets(rs[0]), RecordsOctets(rs[1..]), RecordOctets(r);
      assert a + (b + c) == a + b + c;
    }
  }

  // Sixteen octets an address, unless its owner is the bare root.
  lemma {:induction false} SixteenEach(rs: seq<Record>)
    requires Roomy(rs)
    ensures 16 * |AddressesOf(rs)| <= |RecordsOctets(rs)|
  {
    hide NameOctets, RecordsOctets;
    if rs != [] {
      var n := |rs| - 1;
      SixteenEach(rs[..n]);
      OctetsSnoc(rs[..n], rs[n]);
      assert rs == rs[..n] + [rs[n]];
    }
  }

  // Answers whose owners are not the bare root are never too many.
  lemma RoomyFits(h: Text, qs: seq<Asked>, rs: seq<Record>, x: Text, id: nat)
    requires Announces(h, qs, rs) && HeaderOk(h, id) && Roomy(rs)
    requires var total := |Message(h, qs, rs, x)|; NamesOk(qs, total) && OwnersOk(rs, total)
    ensures !Reply(Message(h, qs, rs, x), id).Failed?
  {
    hide Roomy, NamesOk, OwnersOk, Reply, HeaderOk, Announces;
    ReplyToMessage(h, qs, rs, x, id);
    SixteenEach(rs);
  }

  // The shortest address record there is.
  function RootRecord(addr: Text): Record
    requires |addr| == 4
  {
    Record(WireName([], None), A, 1, 60, addr)
  }

  lemma {:induction false} RootRecords(addr: Text, n: nat)
    requires |addr| == 4
    ensures var rs := seq(n, _ => RootRecord(addr));
            |RecordsOctets(rs)| == 15 * n && |AddressesOf(rs)| == n
  {
    if n > 0 {
      var some, rs := seq(n - 1, _ => RootRecord(addr)), seq(n, _ => RootRecord(addr));
      RootRecords(addr, n - 1);
      OctetsSnoc(some, RootRecord(addr));
      assert rs == some + [RootRecord(addr)] && rs[..n - 1] == some;
    }
  }

  // Well-formed answers can be too many: n bare root addresses alone are
  // refused from the twenty-ninth on.
  lemma RootAnswersRefused(h: Text, addr: Text, n: nat, id: nat)
    requires |addr| == 4 && HeaderOk(h, id)
    requires Announces(h, [], seq(n, _ => RootRecord(addr)))
    ensures Reply(Message(h, [], seq(n, _ => RootRecord(addr)), []), id).Failed? <==> n >= 29
  {
    var rs := seq(n, _ => RootRecord(addr));
    var data := Message(h, [], rs, []);
    hide NameOctets, RecordsOctets, Reply, HeaderOk, AddressesOf;
    RootRecords(addr, n);
    ReplyToMessage(h, [], rs, [], id);
    assert |data| == 12 + 15 * n;
  }
}
