// The answer section of a DNS response, and what is taken from it.
module DnsAnswer {
  import opened Bytes
  import opened Names
  import opened Labels
  import opened Numbers
  import opened DnsQuery

  const NO_TTL: nat := 0xffff_ffff
  const A: nat := 1
  const CNAME: nat := 5
  const AAAA: nat := 28
  const IN: nat := 1

  type Rdata = t: Text | |t| < 0x10000

  datatype Record = Record(owner: WireName, rtype: u16, cls: u16, ttl: u32, rdata: Rdata)

  // ---- The answer section, section 4.1.3 of RFC 1035 ----

  function FixedOctets(r: Record): (b: Text)
    ensures |b| == 10
  {
    Octets16(r.rtype) + Octets16(r.cls) + Octets32(r.ttl) + Octets16(|r.rdata|)
  }

  function RecordOctets(r: Record): (b: Text)
    ensures |b| == |NameOctets(r.owner)| + 10 + |r.rdata|
  {
    NameOctets(r.owner) + FixedOctets(r) + r.rdata
  }

  function RecordsOctets(rs: seq<Record>): Text {
    if rs == [] then [] else RecordOctets(rs[0]) + RecordsOctets(rs[1..])
  }

  datatype Taken = Nothing | Took(record: Record, used: nat)

  // What follows the owner.
  function ReadBody(owner: WireName, f: Text): (t: Taken)
    ensures t.Took? ==> 10 <= t.used <= |f| && t.used == 10 + |t.record.rdata|
  {
    if |f| < 10 then Nothing
    else
      var n := Be16(f[8], f[9]);
      if |f| - 10 < n then Nothing
      else Took(Record(owner, Be16(f[0], f[1]), Be16(f[2], f[3]), Be32(f[4..8]), f[10..10 + n]), 10 + n)
  }

  function ReadRecord(b: Text, total: nat): (t: Taken)
    ensures t.Took? ==> 0 < t.used <= |b|
  {
    match ReadName(b, total)
    case Bad => Nothing
    case Named(owner, u) =>
      match ReadBody(owner, b[u..])
      case Nothing => Nothing
      case Took(r, v) => Took(r, u + v)
  }

  datatype Listed = NoList | List(records: seq<Record>, used: nat)

  function Prepend(rs: seq<Record>, u: nat, l: Listed): Listed {
    match l
    case NoList => NoList
    case List(more, v) => List(rs + more, u + v)
  }

  // The first n records of a text, in a message of total octets.
  function ReadRecords(b: Text, total: nat, n: nat): (l: Listed)
    ensures l.List? ==> |l.records| == n && l.used <= |b|
  {
    if n == 0 then List([], 0)
    else
      match ReadRecord(b, total)
      case Nothing => NoList
      case Took(r, u) => Prepend([r], u, ReadRecords(b[u..], total, n - 1))
  }

  lemma BodyIsRead(r: Record, x: Text)
    ensures ReadBody(r.owner, FixedOctets(r) + r.rdata + x) == Took(r, 10 + |r.rdata|)
  {
    hide Be16, Be32, Octets16, Octets32;
    Be16OfOctets(r.rtype);
    Be16OfOctets(r.cls);
    Be16OfOctets(|r.rdata|);
    Be32OfOctets(r.ttl);
    var f := FixedOctets(r) + r.rdata + x;
    assert f[4..8] == Octets32(r.ttl);
    assert f[10..10 + |r.rdata|] == r.rdata;
  }

  lemma BodyWasWritten(owner: WireName, f: Text)
    requires ReadBody(owner, f).Took?
    ensures var t := ReadBody(owner, f);
            t.record.owner == owner && f[..t.used] == FixedOctets(t.record) + t.record.rdata
  {
    hide Be16, Be32, Octets16, Octets32;
    var r := ReadBody(owner, f).record;
    OctetsOfBe16(f[0], f[1]);
    OctetsOfBe16(f[2], f[3]);
    OctetsOfBe16(f[8], f[9]);
    OctetsOfBe32(f[4..8]);
    assert f[..10] == [f[0], f[1]] + [f[2], f[3]] + f[4..8] + [f[8], f[9]];
    assert f[..10 + |r.rdata|] == f[..10] + r.rdata;
  }

  lemma RecordIsRead(r: Record, x: Text, total: nat)
    requires NameOk(r.owner, total)
    ensures ReadRecord(RecordOctets(r) + x, total) == Took(r, |RecordOctets(r)|)
  {
    hide ReadName, ReadBody, FixedOctets, NameOctets, NameOk;
    var rest := FixedOctets(r) + r.rdata + x;
    NameIsRead(r.owner, rest, total);
    BodyIsRead(r, x);
    var b := RecordOctets(r) + x;
    assert b == NameOctets(r.owner) + rest;
    assert b[|NameOctets(r.owner)|..] == rest;
  }

  lemma RecordWasWritten(b: Text, total: nat)
    requires ReadRecord(b, total).Took?
    ensures var t := ReadRecord(b, total);
            NameOk(t.record.owner, total) && b[..t.used] == RecordOctets(t.record)
  {
    hide ReadName, ReadBody, FixedOctets, NameOctets, NameOk;
    var n := ReadName(b, total);
    ReadWasWritten(b, total);
    BodyWasWritten(n.name, b[n.used..]);
    var t := ReadBody(n.name, b[n.used..]);
    assert b[..n.used + t.used] == b[..n.used] + b[n.used..][..t.used];
  }

  predicate OwnersOk(rs: seq<Record>, total: nat) {
    forall i :: 0 <= i < |rs| ==> NameOk(rs[i].owner, total)
  }

  lemma FirstIsRead(r: Record, rest: Text, total: nat, n: nat)
    requires NameOk(r.owner, total)
    ensures ReadRecords(RecordOctets(r) + rest, total, n + 1)
         == Prepend([r], |RecordOctets(r)|, ReadRecords(rest, total, n))
  {
    hide ReadRecord, RecordOctets, NameOk, Prepend;
    RecordIsRead(r, rest, total);
    assert (RecordOctets(r) + rest)[|RecordOctets(r)|..] == rest;
  }

  // The section is read back as it was written, whatever follows.
  lemma {:induction false} RecordsAreRead(rs: seq<Record>, x: Text, total: nat)
    requires OwnersOk(rs, total)
    ensures ReadRecords(RecordsOctets(rs) + x, total, |rs|) == List(rs, |RecordsOctets(rs)|)
  {
    hide ReadRecords, RecordOctets, NameOk;
    if rs == [] {
      NoRecords(x, total);
      assert RecordsOctets(rs) + x == x;
    } else {
      var rest := RecordsOctets(rs[1..]) + x;
      FirstIsRead(rs[0], rest, total, |rs| - 1);
      RecordsAreRead(rs[1..], x, total);
      assert RecordsOctets(rs) + x == RecordOctets(rs[0]) + rest;
      assert [rs[0]] + rs[1..] == rs;
    }
  }

  lemma NoRecords(b: Text, total: nat)
    ensures ReadRecords(b, total, 0) == List([], 0)
  {
  }

  // And what is read was written so.
  lemma {:induction false} RecordsWereWritten(b: Text, total: nat, n: nat)
    requires ReadRecords(b, total, n).List?
    ensures var l := ReadRecords(b, total, n);
            OwnersOk(l.records, total) && b[..l.used] == RecordsOctets(l.records)
  {
    hide ReadRecord, RecordOctets, NameOk;
    if n > 0 {
      var t := ReadRecord(b, total);
      var l := ReadRecords(b[t.used..], total, n - 1);
      RecordWasWritten(b, total);
      RecordsWereWritten(b[t.used..], total, n - 1);
      assert ([t.record] + l.records)[1..] == l.records;
      assert b[..t.used + l.used] == b[..t.used] + b[t.used..][..l.used];
    }
  }

  // ---- What is taken from the records ----

  predicate IsAddress(r: Record) {
    (r.rtype == A && |r.rdata| == 4) || (r.rtype == AAAA && |r.rdata| == 16)
  }

  // The addresses, in the order of the answers.
  function AddressesOf(rs: seq<Record>): (l: seq<Text>)
    ensures |l| <= |rs|
  {
    if rs == [] then []
    else
      var r, before := rs[|rs| - 1], AddressesOf(rs[..|rs| - 1]);
      if IsAddress(r) then before + [r.rdata] else before
  }

  // The addresses of the Internet class alone, which section 3.2.4 of RFC 1035
  // sets apart.
  function InAddresses(rs: seq<Record>): (l: seq<Text>) {
    if rs == [] then []
    else
      var r, before := rs[|rs| - 1], InAddresses(rs[..|rs| - 1]);
      if IsAddress(r) && r.cls == IN then before + [r.rdata] else before
  }

  // The class is not looked at, so the addresses are those of the Internet
  // class if and only if every address record is of that class.
  lemma {:induction false} InAddressesExact(rs: seq<Record>)
    ensures |InAddresses(rs)| <= |AddressesOf(rs)|
    ensures InAddresses(rs) == AddressesOf(rs)
       <==> forall i :: 0 <= i < |rs| && IsAddress(rs[i]) ==> rs[i].cls == IN
  {
    hide IsAddress;
    if rs != [] {
      var n := |rs| - 1;
      var some := rs[..n];
      InAddressesExact(some);
      assert forall i :: 0 <= i < n ==> rs[i] == some[i];
      if IsAddress(rs[n]) && InAddresses(rs) == AddressesOf(rs) {
        assert |InAddresses(some)| == |AddressesOf(some)|;
        assert AddressesOf(rs)[..|AddressesOf(some)|] == AddressesOf(some);
        assert InAddresses(rs)[..|InAddresses(some)|] == InAddresses(some);
      }
    }
  }

  predicate Counts(r: Record) {
    IsAddress(r) || r.rtype == CNAME
  }

  function MinTtl(rs: seq<Record>): (t: nat)
    ensures t <= NO_TTL
  {
    if rs == [] then NO_TTL
    else
      var r, before := rs[|rs| - 1], MinTtl(rs[..|rs| - 1]);
      if Counts(r) && r.ttl < before then r.ttl else before
  }

  // It is the least of the times to live of the addresses and aliases.
  lemma {:induction false} MinTtlIsLeast(rs: seq<Record>)
    ensures forall i :: 0 <= i < |rs| && Counts(rs[i]) ==> MinTtl(rs) <= rs[i].ttl
    ensures MinTtl(rs) == NO_TTL || exists i :: 0 <= i < |rs| && Counts(rs[i]) && rs[i].ttl == MinTtl(rs)
  {
    hide IsAddress;
    if rs != [] {
      var n := |rs| - 1;
      var some := rs[..n];
      MinTtlIsLeast(some);
      if MinTtl(some) != NO_TTL {
        var i :| 0 <= i < |some| && Counts(some[i]) && some[i].ttl == MinTtl(some);
        assert rs[i] == some[i];
      }
      assert forall i :: 0 <= i < n ==> rs[i] == some[i];
    }
  }

  datatype Outcome = Addresses(addrs: seq<Text>, ttl: nat) | Declined | Failed

  // What a response of so many octets with these answers comes to.
  function Verdict(rs: seq<Record>, total: nat): Outcome {
    var addrs, ttl := AddressesOf(rs), MinTtl(rs);
    if |addrs| > total / 16 + 1 then Failed
    else if addrs == [] then Declined
    else Addresses(addrs, if ttl == NO_TTL then 0 else ttl)
  }
}
