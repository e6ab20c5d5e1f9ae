// Names as people write them, in ASCII, against octets on the wire.
module Ascii {
  import opened Bytes

  predicate Plain(s: string) {
    forall i :: 0 <= i < |s| ==> s[i] < 128 as char
  }

  function Of(s: string): (t: Text)
    requires Plain(s)
    ensures |t| == |s| && forall i :: 0 <= i < |s| ==> t[i] == s[i] as int
  {
    seq(|s|, i requires 0 <= i < |s| => s[i] as int)
  }

  // The letter as written, or its capital.
  predicate EitherCase(b: byte, c: char) {
    b == c as int || ('a' <= c <= 'z' && b == c as int - 'a' as int + 'A' as int)
  }

  // t is the word s, each letter in a case of its own.
  predicate Spells(t: Text, s: string) {
    |t| == |s| && forall i :: 0 <= i < |s| ==> EitherCase(t[i], s[i])
  }

  predicate NoCapitals(s: string) {
    Plain(s) && forall i :: 0 <= i < |s| ==> !('A' <= s[i] <= 'Z')
  }

  // Folding makes every spelling of a word the word, and nothing else.
  lemma SpellingFolds(t: Text, s: string)
    requires NoCapitals(s)
    ensures Lower(t) == Of(s) <==> Spells(t, s)
  {
    if Lower(t) == Of(s) {
      forall i | 0 <= i < |s|
        ensures EitherCase(t[i], s[i])
      {
        assert Lower(t)[i] == Of(s)[i];
      }
    }
  }
}
