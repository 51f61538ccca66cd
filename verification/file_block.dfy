/** file_block of config.py: split a file into `blocks` nominal byte ranges by floor
    division, align each range's start to the next line, and yield the whole lines
    that start before the range's end. The file is its content as a string of bytes;
    seek() and tell() become positions in it. */
module FileBlock {
  import opened Strings
  import opened TextLines

  /** The nominal byte range [ini, end) of one block, before alignment. */
  datatype Range = Range(ini: nat, end: nat)

  /** The nominal range of block `block` of `blocks` for a file of `size` bytes:
      ini = size * block / blocks and end = size * (block + 1) / blocks, floored. */
  function NominalRange(size: nat, block: nat, blocks: nat): (r: Range)
    requires block < blocks
    ensures r.ini <= r.end <= size
    ensures block == 0 ==> r.ini == 0
    ensures block == blocks - 1 ==> r.end == size
  {
    NominalBounds(size, block, blocks);
    Range(size * block / blocks, size * (block + 1) / blocks)
  }

  lemma NominalBounds(size: nat, block: nat, blocks: nat)
    requires block < blocks
    ensures size * block / blocks <= size * (block + 1) / blocks <= size
    ensures size * (blocks - 1 + 1) / blocks == size
  {
    MulMonotone(size, block, block + 1);
    MulMonotone(size, block + 1, blocks);
    DivMonotone(size * block, size * (block + 1), blocks);
    DivMonotone(size * (block + 1), size * blocks, blocks);
    MulDivCancel(size, blocks);
  }

  lemma MulMonotone(x: nat, a: int, b: int)
    ensures a <= b ==> x * a <= x * b
  {
    assert x * b == x * a + x * (b - a);
  }

  lemma MulDivCancel(x: nat, d: nat)
    requires 0 < d
    ensures x * d / d == x
  {
    var q, r := x * d / d, x * d % d;
    assert d * q + r == d * x && 0 <= r < d;
    MulMonotone(d, x + 1, q);
    MulMonotone(d, q + 1, x);
    assert d * (x + 1) == d * x + d && d * (q + 1) == d * q + d;
  }

  lemma DivMonotone(a: nat, b: nat, d: nat)
    requires a <= b && 0 < d
    ensures a / d <= b / d
  {
    var qa, qb := a / d, b / d;
    assert d * qa + a % d == a && d * qb + b % d == b;
    MulMonotone(d, qb + 1, qa);
    assert d * (qb + 1) == d * qb + d;
  }

  /** Adjacent blocks meet: the nominal end of one block is the nominal start of the next. */
  lemma NominalRangesMeet(size: nat, block: nat, blocks: nat)
    requires block + 1 < blocks
    ensures NominalRange(size, block, blocks).end == NominalRange(size, block + 1, blocks).ini
  {
  }

  /** Where the cursor rests after aligning nominal offset `off`: offset 0 stays put;
      otherwise seek(off - 1) and readline() discard the rest of the line that holds
      byte off - 1. The result is the first line boundary at or after `off`. */
  function AlignUp(text: string, off: nat): (r: nat)
    requires off <= |text|
    ensures off <= r <= |text|
    ensures Boundary(text, r)
    ensures forall b | off <= b < r :: !Boundary(text, b)
  {
    if off == 0 then 0
    else
      var r := LineEnd(text, off - 1);
      assert Boundary(text, r);
      r
  }

  /** An offset that already sits at a line boundary is kept: a nominal start that lands
      just after a newline does not skip the line that begins there. */
  lemma AlignedBoundaryKept(text: string, off: nat)
    requires off <= |text| && Boundary(text, off)
    ensures AlignUp(text, off) == off
  {
  }

  /** The lines the generator yields from cursor `pos`: while the cursor is before
      `end`, one readline() each. */
  function ReadLines(text: string, pos: nat, end: nat): seq<string>
    requires pos <= |text| && end <= |text|
    decreases |text| - pos
  {
    if pos < end then
      var next := LineEnd(text, pos);
      [text[pos..next]] + ReadLines(text, next, end)
    else []
  }

  /** The cursor once the generator started at `pos` has stopped. Started at a line
      boundary no later than the boundary `end` aligns to, it stops exactly there. */
  function CursorAfter(text: string, pos: nat, end: nat): (q: nat)
    requires pos <= |text| && end <= |text|
    ensures pos <= q <= |text|
    ensures Boundary(text, pos) && pos <= AlignUp(text, end) ==> q == AlignUp(text, end)
    decreases |text| - pos
  {
    if pos < end then
      var next := LineEnd(text, pos);
      LineEndIsNextBoundary(text, pos, AlignUp(text, end));
      CursorAfter(text, next, end)
    else pos
  }

  /** Every yielded item is a whole line: line-shaped, and every item but the last
      ends with its newline. */
  lemma {:induction false} ReadLinesAreLines(text: string, pos: nat, end: nat)
    requires pos <= |text| && end <= |text|
    ensures forall i | 0 <= i < |ReadLines(text, pos, end)| :: IsLine(ReadLines(text, pos, end)[i])
    ensures forall i | 0 <= i < |ReadLines(text, pos, end)| - 1 :: Terminated(ReadLines(text, pos, end)[i])
    decreases |text| - pos
  {
    if pos < end {
      var next := LineEnd(text, pos);
      var rest := ReadLines(text, next, end);
      ReadLinesAreLines(text, next, end);
      var line := text[pos..next];
      assert IsLine(line);
      assert |rest| > 0 ==> Terminated(line) by {
        if |rest| > 0 {
          assert next < end;
          assert line[|line| - 1] == text[next - 1];
        }
      }
      var lines := ReadLines(text, pos, end);
      assert lines == [line] + rest;
      assert forall i | 1 <= i < |lines| :: lines[i] == rest[i - 1];
    }
  }

  /** The yielded lines are together exactly the bytes the cursor passes over. */
  lemma {:induction false} ReadLinesCover(text: string, pos: nat, end: nat)
    requires pos <= |text| && end <= |text|
    ensures Concat(ReadLines(text, pos, end)) == text[pos..CursorAfter(text, pos, end)]
    decreases |text| - pos
  {
    if pos < end {
      var next := LineEnd(text, pos);
      var q := CursorAfter(text, next, end);
      var line, rest := text[pos..next], ReadLines(text, next, end);
      ReadLinesCover(text, next, end);
      assert Concat(ReadLines(text, pos, end)) == line + Concat(rest) by {
        assert ReadLines(text, pos, end) == [line] + rest;
        assert ([line] + rest)[1..] == rest;
      }
      assert CursorAfter(text, pos, end) == q;
      assert line + text[next..q] == text[pos..q];
    }
  }

  /** Reading up to a nearer end and then on to a farther one yields the same lines as
      reading to the farther end in one go. */
  lemma {:induction false} ReadLinesSplit(text: string, pos: nat, mid: nat, end: nat)
    requires pos <= |text| && mid <= end <= |text|
    ensures ReadLines(text, pos, end)
            == ReadLines(text, pos, mid) + ReadLines(text, CursorAfter(text, pos, mid), end)
    decreases |text| - pos
  {
    if pos < mid {
      var next := LineEnd(text, pos);
      var line := text[pos..next];
      var a, b := ReadLines(text, next, mid), ReadLines(text, CursorAfter(text, next, mid), end);
      assert ReadLines(text, next, end) == a + b by {
        ReadLinesSplit(text, next, mid, end);
      }
      assert ReadLines(text, pos, end) == [line] + (a + b);
      assert ReadLines(text, pos, mid) == [line] + a;
      assert CursorAfter(text, pos, mid) == CursorAfter(text, next, mid);
      assert [line] + (a + b) == [line] + a + b;
    } else {
      assert ReadLines(text, pos, mid) == [];
    }
  }

  /** Reading from a boundary to the end of the file yields the rest of its lines. */
  lemma {:induction false} ReadLinesToEnd(text: string, pos: nat)
    requires pos <= |text|
    ensures ReadLines(text, pos, |text|) == Lines(text[pos..])
    decreases |text| - pos
  {
    if pos < |text| {
      var next := LineEnd(text, pos);
      var rest := text[pos..];
      var e := LineEnd(rest, 0);
      assert next == pos + e by {
        LineEndDrop(text, pos, 0);
      }
      assert Lines(rest) == [text[pos..next]] + Lines(text[next..]) by {
        assert rest[..e] == text[pos..next];
        assert rest[e..] == text[next..];
      }
      ReadLinesToEnd(text, next);
    }
  }

  /** The lines block `block` of `blocks` yields. */
  function Block(text: string, block: nat, blocks: nat): (r: seq<string>)
    requires block < blocks
  {
    var range := NominalRange(|text|, block, blocks);
    ReadLines(text, AlignUp(text, range.ini), range.end)
  }

  /** A block is a run of whole lines: exactly the bytes between the line boundaries its
      nominal start and end align to. */
  lemma BlockCoversAlignedRange(text: string, block: nat, blocks: nat)
    requires block < blocks
    ensures forall i | 0 <= i < |Block(text, block, blocks)| :: IsLine(Block(text, block, blocks)[i])
    ensures forall i | 0 <= i < |Block(text, block, blocks)| - 1 :: Terminated(Block(text, block, blocks)[i])
    ensures var range := NominalRange(|text|, block, blocks);
            Concat(Block(text, block, blocks)) == text[AlignUp(text, range.ini)..AlignUp(text, range.end)]
    ensures var range := NominalRange(|text|, block, blocks);
            Block(text, block, blocks) == Lines(text[AlignUp(text, range.ini)..AlignUp(text, range.end)])
  {
    var range := NominalRange(|text|, block, blocks);
    var start := AlignUp(text, range.ini);
    assert start <= AlignUp(text, range.end);
    ReadLinesAreLines(text, start, range.end);
    ReadLinesCover(text, start, range.end);
    LinesOfConcat(Block(text, block, blocks));
  }

  /** The lines of blocks 0 .. count - 1, in block order. */
  function FirstBlocks(text: string, blocks: nat, count: nat): seq<string>
    requires count <= blocks
  {
    if count == 0 then [] else FirstBlocks(text, blocks, count - 1) + Block(text, count - 1, blocks)
  }

  /** The lines read from the start of the file up to `mid`, followed by a block that
      starts where `mid` aligns to, are the lines read from the start up to the block's end. */
  lemma ReadOnFromAligned(text: string, mid: nat, end: nat)
    requires mid <= end <= |text|
    ensures ReadLines(text, 0, mid) + ReadLines(text, AlignUp(text, mid), end) == ReadLines(text, 0, end)
  {
    assert CursorAfter(text, 0, mid) == AlignUp(text, mid);
    ReadLinesSplit(text, 0, mid, end);
  }

  lemma {:induction false} FirstBlocksReadFromStart(text: string, blocks: nat, count: nat)
    requires 0 < count <= blocks
    ensures FirstBlocks(text, blocks, count)
            == ReadLines(text, 0, NominalRange(|text|, count - 1, blocks).end)
  {
    var range := NominalRange(|text|, count - 1, blocks);
    var block := Block(text, count - 1, blocks);
    assert FirstBlocks(text, blocks, count) == FirstBlocks(text, blocks, count - 1) + block;
    if count == 1 {
      assert FirstBlocks(text, blocks, 0) == [];
      assert [] + block == block;
    } else {
      FirstBlocksReadFromStart(text, blocks, count - 1);
      var mid := NominalRange(|text|, count - 2, blocks).end;
      assert mid == range.ini by {
        NominalRangesMeet(|text|, count - 2, blocks);
      }
      ReadOnFromAligned(text, mid, range.end);
    }
  }

  /** Partition: reading blocks 0 .. blocks - 1 in order yields every line of the file
      exactly once, in file order, and nothing else. */
  lemma BlocksPartitionLines(text: string, blocks: nat)
    requires 0 < blocks
    ensures FirstBlocks(text, blocks, blocks) == Lines(text)
  {
    FirstBlocksReadFromStart(text, blocks, blocks);
    ReadLinesToEnd(text, 0);
    assert text[0..] == text;
  }

  /** The block count file_block uses when its caller gives none. */
  const DefaultBlocks: nat := 1000

  /** With the default block count, blocks read in order still yield the file's lines. */
  lemma DefaultBlocksPartitionLines(text: string)
    ensures FirstBlocks(text, DefaultBlocks, DefaultBlocks) == Lines(text)
  {
    BlocksPartitionLines(text, DefaultBlocks);
  }

  /** readline(): scan from the cursor to just past the next newline. */
  method ReadLine(text: string, pos: nat) returns (next: nat)
    requires pos <= |text|
    ensures next == LineEnd(text, pos)
  {
    next := pos;
    while next < |text| && text[next] != '\n'
      invariant pos <= next <= |text|
      invariant LineEnd(text, next) == LineEnd(text, pos)
    {
      next := next + 1;
    }
    if next < |text| {
      next := next + 1;
    }
  }

  /** The generator's loop: from `start`, one readline() while the cursor is before `end`. */
  method ReadUntil(text: string, start: nat, end: nat) returns (lines: seq<string>)
    requires start <= |text| && end <= |text|
    ensures lines == ReadLines(text, start, end)
  {
    var pos := start;
    lines := [];
    while pos < end
      invariant pos <= |text|
      invariant lines + ReadLines(text, pos, end) == ReadLines(text, start, end)
      decreases |text| - pos
    {
      var next := ReadLine(text, pos);
      var line := text[pos..next];
      assert ReadLines(text, pos, end) == [line] + ReadLines(text, next, end);
      assert lines + ([line] + ReadLines(text, next, end)) == (lines + [line]) + ReadLines(text, next, end);
      lines := lines + [line];
      pos := next;
    }
  }

  /** file_block: the lines one call of the generator yields, for block `block` of
      `blocks` of the file `text`. */
  method FileBlockLines(text: string, block: nat, blocks: nat) returns (lines: seq<string>)
    requires block < blocks
    ensures lines == Block(text, block, blocks)
    ensures forall i | 0 <= i < |lines| :: IsLine(lines[i])
    ensures var range := NominalRange(|text|, block, blocks);
            Concat(lines) == text[AlignUp(text, range.ini)..AlignUp(text, range.end)]
    ensures forall i | 0 <= i < |lines| - 1 :: Terminated(lines[i])
  {
    var size := |text|;
    var range := NominalRange(size, block, blocks);
    var ini, end := range.ini, range.end;
    var pos: nat;
    if ini <= 0 {
      pos := 0;
    } else {
      pos := ReadLine(text, ini - 1);
    }
    assert pos == AlignUp(text, ini);
    lines := ReadUntil(text, pos, end);
    BlockCoversAlignedRange(text, block, blocks);
  }
}
