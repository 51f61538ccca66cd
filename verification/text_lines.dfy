/** A text file read line by line, as Python's readline() and file iteration see it:
    a line runs up to and including a newline, or to the end of the file for a last
    line without one. Positions are byte offsets, as tell() and seek() report them. */
module TextLines {
  import opened Strings

  /** A position the read cursor can rest at between lines: the start or the end of
      the text, or just past a newline. */
  predicate Boundary(text: string, p: int)
  {
    p == 0 || p == |text| || (0 < p <= |text| && text[p - 1] == '\n')
  }

  /** No newline among text[lo..hi]. */
  predicate NoNewline(text: string, lo: int, hi: int)
    requires 0 <= lo <= hi <= |text|
  {
    forall i | lo <= i < hi :: text[i] != '\n'
  }

  /** The shape of a line readline() returns: nonempty, with a newline at most as its last
      character. Only a file's last line may lack the newline (see Terminated). */
  predicate IsLine(l: string)
  {
    |l| > 0 && forall i | 0 <= i < |l| - 1 :: l[i] != '\n'
  }

  /** A line that ends with its newline. */
  predicate Terminated(l: string)
  {
    |l| > 0 && l[|l| - 1] == '\n'
  }

  /** The cursor after readline() from position p: just past the first newline at or
      after p, or the end of the text when there is none. */
  function LineEnd(text: string, p: nat): (r: nat)
    requires p <= |text|
    ensures p <= r <= |text|
    ensures p < |text| ==> p < r
    ensures || (r == |text| && NoNewline(text, p, r))
            || (p < r && text[r - 1] == '\n' && NoNewline(text, p, r - 1))
    decreases |text| - p
  {
    if p == |text| then p
    else if text[p] == '\n' then p + 1
    else LineEnd(text, p + 1)
  }

  /** readline() from p stops at the first boundary after p. */
  lemma LineEndIsNextBoundary(text: string, p: nat, b: nat)
    requires p < b <= |text| && Boundary(text, b)
    ensures Boundary(text, LineEnd(text, p))
    ensures LineEnd(text, p) <= b
  {
  }

  /** readline() from offset d + q of a text behaves as readline() from q of the
      text with its first d bytes dropped. */
  lemma {:induction false} LineEndDrop(text: string, d: nat, q: nat)
    requires d + q <= |text|
    ensures LineEnd(text, d + q) == d + LineEnd(text[d..], q)
    decreases |text| - d - q
  {
    if d + q < |text| && text[d + q] != '\n' {
      LineEndDrop(text, d, q + 1);
    }
  }

  /** The lines of a text in order, as iterating over the open file yields them. */
  function Lines(text: string): seq<string>
    decreases |text|
  {
    if |text| == 0 then []
    else
      var e := LineEnd(text, 0);
      [text[..e]] + Lines(text[e..])
  }

  /** A prefix joined with pieces that make up the rest is the whole text. */
  lemma JoinAt(text: string, e: nat, ls: seq<string>)
    requires e <= |text| && Concat(ls) == text[e..]
    ensures Concat([text[..e]] + ls) == text
  {
    ConcatCons(text[..e], ls);
    assert text[..e] + text[e..] == text;
  }

  /** The lines join back to the whole text. */
  lemma {:induction false} LinesJoinBack(text: string)
    ensures Concat(Lines(text)) == text
    decreases |text|
  {
    if |text| > 0 {
      var e := LineEnd(text, 0);
      LinesJoinBack(text[e..]);
      JoinAt(text, e, Lines(text[e..]));
    }
  }

  /** Each of the lines is a line, and every one but the last ends with its newline. */
  lemma {:induction false} LinesAreLines(text: string)
    ensures forall i | 0 <= i < |Lines(text)| :: IsLine(Lines(text)[i])
    ensures forall i | 0 <= i < |Lines(text)| - 1 :: Terminated(Lines(text)[i])
    decreases |text|
  {
    if |text| > 0 {
      var e := LineEnd(text, 0);
      var first, rest := text[..e], text[e..];
      LinesAreLines(rest);
      var r, r' := Lines(text), Lines(rest);
      assert r == [first] + r';
      assert forall i | 1 <= i < |r| :: r[i] == r'[i - 1];
      assert IsLine(first);
      assert |r'| > 0 ==> |rest| > 0 && Terminated(first);
    }
  }

  /** The decomposition into lines is unique: splitting the concatenation of
      well-formed lines gives back exactly those lines. */
  lemma {:induction false} LinesOfConcat(ls: seq<string>)
    requires forall i | 0 <= i < |ls| :: IsLine(ls[i])
    requires forall i | 0 <= i < |ls| - 1 :: Terminated(ls[i])
    ensures Lines(Concat(ls)) == ls
  {
    if |ls| > 0 {
      var text := Concat(ls);
      var l := ls[0];
      assert text == l + Concat(ls[1..]);
      assert text[..|l|] == l;
      var e := LineEnd(text, 0);
      assert forall i | 0 <= i < |l| :: text[i] == l[i];
      assert |ls| > 1 ==> text[|l| - 1] == '\n';
      assert e == |l|;
      assert text[e..] == Concat(ls[1..]);
      LinesOfConcat(ls[1..]);
    }
  }
}
