/**
 * Newline positions in a byte buffer: the one fact that both the line index
 * built over a mapping and the newline split loop of the command-line tool
 * are computed from.
 */
module Newlines {

  newtype Byte = x: int | 0 <= x < 256

  const NEWLINE: Byte := 0x0A

  /** The offsets of the `\n` bytes of `s`, in increasing order. */
  function NewlinePositions(s: seq<Byte>): (ps: seq<nat>)
    ensures |ps| <= |s|
  {
    if s == [] then []
    else NewlinePositions(s[..|s| - 1]) + (if s[|s| - 1] == NEWLINE then [|s| - 1] else [])
  }

  /** `ps` lists exactly the newline offsets of `s`, strictly increasing. */
  ghost predicate ExactlyTheNewlines(s: seq<Byte>, ps: seq<nat>)
  {
    && (forall k :: 0 <= k < |ps| ==> ps[k] < |s| && s[ps[k]] == NEWLINE)
    && (forall k, l :: 0 <= k < l < |ps| ==> ps[k] < ps[l])
    && (forall i :: 0 <= i < |s| && s[i] == NEWLINE ==> i in ps)
  }

  lemma {:induction false} NewlinePositionsCorrect(s: seq<Byte>)
    ensures ExactlyTheNewlines(s, NewlinePositions(s))
  {
    if s != [] {
      var t := s[..|s| - 1];
      NewlinePositionsCorrect(t);
      var ps, qs := NewlinePositions(s), NewlinePositions(t);
      assert qs <= ps;
      forall i | 0 <= i < |s| && s[i] == NEWLINE ensures i in ps {
        if i < |t| {
          assert t[i] == s[i];
          assert i in qs;
        } else {
          assert ps[|ps| - 1] == i;
        }
      }
    }
  }

  /** The number of newline offsets is the number of `\n` bytes. */
  lemma {:induction false} NewlineCount(s: seq<Byte>)
    ensures |NewlinePositions(s)| == multiset(s)[NEWLINE]
  {
    if s != [] {
      var t, last := s[..|s| - 1], s[|s| - 1];
      NewlineCount(t);
      assert s == t + [last];
    }
  }

  /** Scanning a longer prefix only appends to the newline offsets found so far. */
  lemma NewlinePositionsStep(s: seq<Byte>, i: nat)
    requires i < |s|
    ensures NewlinePositions(s[..i + 1])
         == NewlinePositions(s[..i]) + (if s[i] == NEWLINE then [i] else [])
  {
    assert s[..i + 1][..i] == s[..i];
  }
}
