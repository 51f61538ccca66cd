/** Strings as Python 2 byte strings: sequences of characters, one per byte. */
module Strings {

  /** The concatenation of a sequence of strings, first to last ("".join(ss)). */
  function Concat(ss: seq<string>): string
  {
    if |ss| == 0 then "" else ss[0] + Concat(ss[1..])
  }

  /** Joining a string in front of others puts it first. */
  lemma ConcatCons(s: string, ss: seq<string>)
    ensures Concat([s] + ss) == s + Concat(ss)
  {
    assert ([s] + ss)[1..] == ss;
  }
}
