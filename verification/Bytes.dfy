// Octets, octet strings, and the ASCII folding shared by every matcher.
module Bytes {
  type byte = b: int | 0 <= b < 256

  type Text = seq<byte>

  datatype Option<+T> = None | Some(value: T)

  // The module's private lower-casing of A..Z; every other octet is kept.
  function Lc(b: byte): byte {
    if 65 <= b <= 90 then b + 32 else b
  }

  function Lower(s: Text): (r: Text)
    ensures |r| == |s|
    ensures forall i :: 0 <= i < |s| ==> r[i] == Lc(s[i])
  {
    seq(|s|, i requires 0 <= i < |s| => Lc(s[i]))
  }

  predicate IsLower(s: Text) {
    forall i :: 0 <= i < |s| ==> Lc(s[i]) == s[i]
  }

  predicate IsSuffix(a: Text, b: Text) {
    |a| <= |b| && b[|b| - |a|..] == a
  }

  // w occurs in s as a contiguous block.
  ghost predicate Occurs(w: Text, s: Text) {
    exists i :: 0 <= i <= |s| && IsSuffix(w, s[..i])
  }

  lemma LowerIdempotent(s: Text)
    ensures Lower(Lower(s)) == Lower(s) && IsLower(Lower(s))
    ensures IsLower(s) ==> Lower(s) == s
  {
  }
}
