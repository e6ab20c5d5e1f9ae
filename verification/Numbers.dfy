// Numbers in network order.
module Numbers {
  import opened Bytes

  type u16 = v: nat | v < 0x10000

  type u32 = v: nat | v < 0x1_0000_0000

  function Be16(a: byte, b: byte): (v: nat)
    ensures v < 0x10000
  {
    a * 256 + b
  }

  function Octets16(v: nat): (b: Text)
    requires v < 0x10000
    ensures |b| == 2
  {
    [v / 256, v % 256]
  }

  lemma OctetsOfBe16(a: byte, b: byte)
    ensures Octets16(Be16(a, b)) == [a, b]
  {
  }

  lemma Be16OfOctets(v: nat)
    requires v < 0x10000
    ensures Be16(Octets16(v)[0], Octets16(v)[1]) == v
  {
  }

  function Be32(b: Text): (v: nat)
    requires |b| == 4
    ensures v < 0x1_0000_0000
  {
    Be16(b[0], b[1]) * 0x10000 + Be16(b[2], b[3])
  }

  function Octets32(v: nat): (b: Text)
    requires v < 0x1_0000_0000
    ensures |b| == 4
  {
    Octets16(v / 0x10000) + Octets16(v % 0x10000)
  }

  lemma Be32OfOctets(v: nat)
    requires v < 0x1_0000_0000
    ensures Be32(Octets32(v)) == v
  {
    Be16OfOctets(v / 0x10000);
    Be16OfOctets(v % 0x10000);
  }

  lemma Halves(x: nat, y: nat)
    requires y < 0x10000
    ensures (x * 0x10000 + y) / 0x10000 == x && (x * 0x10000 + y) % 0x10000 == y
  {
  }

  lemma OctetsOfBe32(b: Text)
    requires |b| == 4
    ensures Octets32(Be32(b)) == b
  {
    hide Be16, Octets16;
    OctetsOfBe16(b[0], b[1]);
    OctetsOfBe16(b[2], b[3]);
    Halves(Be16(b[0], b[1]), Be16(b[2], b[3]));
  }
}
