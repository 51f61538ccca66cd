/** The pathway configuration of config.py: read_pathways maps file identifiers to
    database paths, preferring a bundled `<id>.db` resource over the configured path;
    write_config writes such a mapping back as one "id path" line per identifier.

    The configuration is the sequence of lines the file yields (each with its newline).
    Whether the package bundles a resource, and where that resource lives, are the
    parameters `resourceExists` (asked about "<id>.db") and `resourcePath` (given the id). */
module Pathways {
  import opened Strings
  import opened Tokens
  import opened TextLines

  /** The outcome of reading a configuration: the resolved pathways, or the index of
      the first non-comment line with fewer than two tokens, where the reader's
      `line.split()[1]` raises IndexError and no mapping is returned. */
  datatype ReadResult = Resolved(pathways: map<string, string>) | Malformed(line: nat)

  /** A line holding the comment marker anywhere is skipped whole. */
  predicate IsComment(line: string)
  {
    '#' in line
  }

  /** A line that contributes an entry: no comment marker and at least two tokens. */
  predicate IsEntry(line: string)
  {
    !IsComment(line) && |Split(line)| >= 2
  }

  /** A line the reader cannot take apart: no comment marker and fewer than two tokens
      (a blank line is one). */
  predicate IsMalformed(line: string)
  {
    !IsComment(line) && |Split(line)| < 2
  }

  /** The identifier of an entry line: its first token. */
  function Key(line: string): string
    requires IsEntry(line)
  {
    Split(line)[0]
  }

  /** The configured path of an entry line: its second token; later tokens are ignored. */
  function ConfiguredPath(line: string): string
    requires IsEntry(line)
  {
    Split(line)[1]
  }

  /** The path an identifier resolves to: the bundled resource when `<id>.db` exists,
      otherwise the configured path unchanged. */
  function Resolve(id: string, configured: string,
                   resourceExists: string -> bool, resourcePath: string -> string): string
  {
    if resourceExists(id + ".db") then resourcePath(id) else configured
  }

  /** One step of the reader: the effect of line number `index` on the outcome of the
      lines before it. */
  function ApplyLine(prior: ReadResult, line: string, index: nat,
                    resourceExists: string -> bool, resourcePath: string -> string): ReadResult
  {
    match prior
    case Malformed(i) => Malformed(i)
    case Resolved(m) =>
      if IsComment(line) then Resolved(m)
      else if |Split(line)| < 2 then Malformed(index)
      else Resolved(m[Key(line) := Resolve(Key(line), ConfiguredPath(line), resourceExists, resourcePath)])
  }

  /** read_pathways: the lines are taken in order and each entry line stores its
      resolved path under its identifier, so a later line for the same identifier
      overwrites an earlier one. */
  function ReadPathways(lines: seq<string>,
                        resourceExists: string -> bool, resourcePath: string -> string): ReadResult
    decreases |lines|
  {
    if |lines| == 0 then Resolved(map[])
    else
      ApplyLine(ReadPathways(lines[..|lines| - 1], resourceExists, resourcePath),
               lines[|lines| - 1], |lines| - 1, resourceExists, resourcePath)
  }

  /** The read fails exactly when some non-comment line has fewer than two tokens, and
      then it reports the first such line: there is no partial mapping. */
  lemma {:induction false} ReadPathwaysFailure(lines: seq<string>,
                                              resourceExists: string -> bool, resourcePath: string -> string)
    ensures var r := ReadPathways(lines, resourceExists, resourcePath);
            && (r.Malformed? ==> r.line < |lines| && IsMalformed(lines[r.line]))
            && (r.Malformed? ==> forall i | 0 <= i < r.line :: !IsMalformed(lines[i]))
            && (r.Resolved? ==> forall i | 0 <= i < |lines| :: !IsMalformed(lines[i]))
    decreases |lines|
  {
    if |lines| > 0 {
      var init := lines[..|lines| - 1];
      ReadPathwaysFailure(init, resourceExists, resourcePath);
      assert forall i | 0 <= i < |init| :: init[i] == lines[i];
    }
  }

  /** Entry j is the last line that configures its identifier. */
  predicate IsLastEntry(lines: seq<string>, j: int)
    requires 0 <= j < |lines|
  {
    && IsEntry(lines[j])
    && forall k | j < k < |lines| && IsEntry(lines[k]) :: Key(lines[k]) != Key(lines[j])
  }

  /** The identifiers the configuration lines declare. */
  function DeclaredIds(lines: seq<string>): set<string>
  {
    set j | 0 <= j < |lines| && IsEntry(lines[j]) :: Key(lines[j])
  }

  /** A successful read holds exactly the identifiers of the entry lines. */
  lemma {:induction false} ReadPathwaysKeys(lines: seq<string>,
                                           resourceExists: string -> bool, resourcePath: string -> string)
    requires ReadPathways(lines, resourceExists, resourcePath).Resolved?
    ensures ReadPathways(lines, resourceExists, resourcePath).pathways.Keys == DeclaredIds(lines)
    decreases |lines|
  {
    if |lines| > 0 {
      var init := lines[..|lines| - 1];
      var last := lines[|lines| - 1];
      ReadPathwaysKeys(init, resourceExists, resourcePath);
      DeclaredIdsSnoc(lines);
      var m := ReadPathways(init, resourceExists, resourcePath).pathways;
      assert ReadPathways(lines, resourceExists, resourcePath)
             == ApplyLine(Resolved(m), last, |lines| - 1, resourceExists, resourcePath);
    }
  }

  lemma DeclaredIdsSnoc(lines: seq<string>)
    requires |lines| > 0
    ensures var init, last := lines[..|lines| - 1], lines[|lines| - 1];
            DeclaredIds(lines) == DeclaredIds(init) + (if IsEntry(last) then {Key(last)} else {})
  {
    var init, last := lines[..|lines| - 1], lines[|lines| - 1];
    assert forall j | 0 <= j < |init| :: init[j] == lines[j];
    if IsEntry(last) {
      assert Key(last) in DeclaredIds(lines) by {
        assert lines[|lines| - 1] == last;
      }
    }
  }

  /** In a successful read each identifier maps to the resolution of its last entry
      line: a later line for the same identifier wins. */
  lemma {:induction false} ReadPathwaysValues(lines: seq<string>,
                                             resourceExists: string -> bool, resourcePath: string -> string)
    requires ReadPathways(lines, resourceExists, resourcePath).Resolved?
    ensures forall j | 0 <= j < |lines| && IsLastEntry(lines, j) ::
              && Key(lines[j]) in ReadPathways(lines, resourceExists, resourcePath).pathways
              && ReadPathways(lines, resourceExists, resourcePath).pathways[Key(lines[j])]
                 == Resolve(Key(lines[j]), ConfiguredPath(lines[j]), resourceExists, resourcePath)
    decreases |lines|
  {
    if |lines| > 0 {
      var init := lines[..|lines| - 1];
      var last := lines[|lines| - 1];
      ReadPathwaysValues(init, resourceExists, resourcePath);
      var m := ReadPathways(init, resourceExists, resourcePath).pathways;
      var m' := ReadPathways(lines, resourceExists, resourcePath).pathways;
      assert IsEntry(last) ==> m' == m[Key(last) := Resolve(Key(last), ConfiguredPath(last), resourceExists, resourcePath)];
      assert !IsEntry(last) ==> m' == m;
      forall j | 0 <= j < |lines| && IsLastEntry(lines, j)
        ensures Key(lines[j]) in m'
        ensures m'[Key(lines[j])] == Resolve(Key(lines[j]), ConfiguredPath(lines[j]), resourceExists, resourcePath)
      {
        if j < |init| {
          assert init[j] == lines[j];
          assert forall k | j < k < |init| :: init[k] == lines[k];
          assert IsLastEntry(init, j);
        }
      }
    }
  }

  /** Every entry line is followed, possibly after others, by a last entry line for
      the same identifier. */
  lemma {:induction false} LastEntryExists(lines: seq<string>, j: nat)
    requires j < |lines| && IsEntry(lines[j])
    ensures exists k | j <= k < |lines| :: IsLastEntry(lines, k) && Key(lines[k]) == Key(lines[j])
    decreases |lines| - j
  {
    if !IsLastEntry(lines, j) {
      var k :| j < k < |lines| && IsEntry(lines[k]) && Key(lines[k]) == Key(lines[j]);
      LastEntryExists(lines, k);
    }
  }

  /** Precedence: when `<id>.db` is bundled, the identifier resolves to the bundled
      resource whatever path its configuration lines give. */
  lemma BundledResourceWins(lines: seq<string>,
                            resourceExists: string -> bool, resourcePath: string -> string, id: string)
    requires ReadPathways(lines, resourceExists, resourcePath).Resolved?
    requires id in ReadPathways(lines, resourceExists, resourcePath).pathways
    requires resourceExists(id + ".db")
    ensures ReadPathways(lines, resourceExists, resourcePath).pathways[id] == resourcePath(id)
  {
    ReadPathwaysKeys(lines, resourceExists, resourcePath);
    ReadPathwaysValues(lines, resourceExists, resourcePath);
    var j :| 0 <= j < |lines| && IsEntry(lines[j]) && Key(lines[j]) == id;
    LastEntryExists(lines, j);
  }

  /** Without a bundled `<id>.db`, the identifier resolves to exactly the path token of
      its last configuration line, with no normalisation. */
  lemma ConfiguredPathKept(lines: seq<string>,
                           resourceExists: string -> bool, resourcePath: string -> string, id: string)
    requires ReadPathways(lines, resourceExists, resourcePath).Resolved?
    requires id in ReadPathways(lines, resourceExists, resourcePath).pathways
    requires !resourceExists(id + ".db")
    ensures exists j | 0 <= j < |lines| && IsLastEntry(lines, j) && Key(lines[j]) == id ::
              ReadPathways(lines, resourceExists, resourcePath).pathways[id] == ConfiguredPath(lines[j])
  {
    ReadPathwaysKeys(lines, resourceExists, resourcePath);
    ReadPathwaysValues(lines, resourceExists, resourcePath);
    var j :| 0 <= j < |lines| && IsEntry(lines[j]) && Key(lines[j]) == id;
    LastEntryExists(lines, j);
  }

  /** Two outcomes that agree on success and on the mapping. */
  predicate SameMapping(r: ReadResult, r': ReadResult)
  {
    r.Resolved? == r'.Resolved? && (r.Resolved? ==> r.pathways == r'.pathways)
  }

  lemma ApplyLineKeepsAgreement(r: ReadResult, r': ReadResult, line: string, i: nat, i': nat,
                               resourceExists: string -> bool, resourcePath: string -> string)
    requires SameMapping(r, r')
    ensures SameMapping(ApplyLine(r, line, i, resourceExists, resourcePath),
                        ApplyLine(r', line, i', resourceExists, resourcePath))
  {
  }

  /** A comment line contributes nothing, even when tokens precede its '#': dropping
      it changes neither whether the read succeeds nor the mapping it returns. */
  lemma {:induction false} CommentLineIgnored(before: seq<string>, comment: string, after: seq<string>,
                                                 resourceExists: string -> bool, resourcePath: string -> string)
    requires IsComment(comment)
    ensures SameMapping(ReadPathways(before + [comment] + after, resourceExists, resourcePath),
                        ReadPathways(before + after, resourceExists, resourcePath))
    decreases |after|
  {
    var with, without := before + [comment] + after, before + after;
    if |after| == 0 {
      assert with[..|with| - 1] == before by {
        assert with == before + [comment];
      }
      assert without == before;
    } else {
      var after' := after[..|after| - 1];
      var last := after[|after| - 1];
      CommentLineIgnored(before, comment, after', resourceExists, resourcePath);
      var r := ReadPathways(before + [comment] + after', resourceExists, resourcePath);
      var r' := ReadPathways(before + after', resourceExists, resourcePath);
      ApplyLineKeepsAgreement(r, r', last, |with| - 1, |without| - 1, resourceExists, resourcePath);
      assert ReadPathways(with, resourceExists, resourcePath)
             == ApplyLine(r, last, |with| - 1, resourceExists, resourcePath) by {
        assert with[..|with| - 1] == before + [comment] + after';
        assert with[|with| - 1] == last;
      }
      assert ReadPathways(without, resourceExists, resourcePath)
             == ApplyLine(r', last, |without| - 1, resourceExists, resourcePath) by {
        assert without[..|without| - 1] == before + after';
        assert without[|without| - 1] == last;
      }
    }
  }

  /** One line of the written configuration: identifier, a space, path, newline. */
  function ConfigLine(id: string, path: string): string
  {
    id + " " + path + "\n"
  }

  /** The order in which the dictionary yields its keys: every key once, nothing else. */
  predicate IsIterationOrder(order: seq<string>, pathways: map<string, string>)
  {
    && (forall i | 0 <= i < |order| :: order[i] in pathways)
    && (forall id | id in pathways :: id in order)
    && (forall i, j | 0 <= i < j < |order| :: order[i] != order[j])
  }

  /** The lines write_config emits, one per identifier of `order`. */
  function ConfigLines(pathways: map<string, string>, order: seq<string>): (ls: seq<string>)
    requires forall i | 0 <= i < |order| :: order[i] in pathways
  {
    seq(|order|, i requires 0 <= i < |order| => ConfigLine(order[i], pathways[order[i]]))
  }

  /** write_config: the whole content of the configuration file once it is truncated
      and rewritten from the mapping. */
  function WriteConfig(pathways: map<string, string>, order: seq<string>): (text: string)
    requires IsIterationOrder(order, pathways)
  {
    Concat(ConfigLines(pathways, order))
  }

  /** A string that survives being written and read back: a nonempty run without
      whitespace and without the comment marker. */
  predicate IsPlain(s: string)
  {
    IsToken(s, IsSpace) && '#' !in s
  }

  /** Splitting the written file into lines gives back the lines written. */
  lemma WrittenLines(pathways: map<string, string>, order: seq<string>)
    requires IsIterationOrder(order, pathways)
    requires forall id | id in pathways :: '\n' !in id && '\n' !in pathways[id]
    ensures Lines(WriteConfig(pathways, order)) == ConfigLines(pathways, order)
  {
    var ls := ConfigLines(pathways, order);
    forall i | 0 <= i < |ls|
      ensures IsLine(ls[i]) && Terminated(ls[i])
    {
      var id, path := order[i], pathways[order[i]];
      assert ls[i] == id + " " + path + "\n";
      forall k | 0 <= k < |ls[i]| - 1
        ensures ls[i][k] != '\n'
      {
        if k < |id| {
          assert ls[i][k] == id[k];
        } else if k > |id| {
          assert ls[i][k] == path[k - |id| - 1];
        }
      }
    }
    LinesOfConcat(ls);
  }

  /** The written file holds one line "id path" per identifier, in iteration order,
      and nothing else, as long as no identifier or path holds a newline. */
  lemma WriteConfigLines(pathways: map<string, string>, order: seq<string>)
    requires IsIterationOrder(order, pathways)
    requires forall id | id in pathways :: '\n' !in id && '\n' !in pathways[id]
    ensures |Lines(WriteConfig(pathways, order))| == |order|
    ensures forall i | 0 <= i < |order| ::
              Lines(WriteConfig(pathways, order))[i] == order[i] + " " + pathways[order[i]] + "\n"
  {
    WrittenLines(pathways, order);
  }

  /** How str.split() takes a written line apart: into its identifier and path. */
  lemma SplitConfigLine(id: string, path: string)
    requires IsToken(id, IsSpace) && IsToken(path, IsSpace)
    ensures Split(ConfigLine(id, path)) == [id, path]
  {
    var gaps, toks := ["", " ", "\n"], [id, path];
    assert Weave(gaps[2..], toks[2..]) == "\n";
    assert Weave(gaps[1..], toks[1..]) == " " + path + "\n";
    assert Weave(gaps, toks) == "" + id + (" " + path + "\n");
    assert Separated(gaps, toks, IsSpace);
    RunsUnique(ConfigLine(id, path), gaps, toks, IsSpace);
  }

  /** A written line stores its identifier's resolved path. */
  lemma ApplyConfigLine(m: map<string, string>, id: string, path: string, index: nat,
                        resourceExists: string -> bool, resourcePath: string -> string)
    requires IsPlain(id) && IsPlain(path)
    ensures ApplyLine(Resolved(m), ConfigLine(id, path), index, resourceExists, resourcePath)
            == Resolved(m[id := Resolve(id, path, resourceExists, resourcePath)])
  {
    SplitConfigLine(id, path);
    assert ConfigLine(id, path) == id + " " + path + "\n";
    assert !IsComment(ConfigLine(id, path));
  }

  /** Reading the lines written for a prefix of identifiers. */
  lemma {:induction false} ReadConfigLines(pathways: map<string, string>, order: seq<string>,
                                          resourceExists: string -> bool, resourcePath: string -> string)
    requires forall i | 0 <= i < |order| :: order[i] in pathways
    requires forall id | id in pathways :: IsPlain(id) && IsPlain(pathways[id])
    ensures ReadPathways(ConfigLines(pathways, order), resourceExists, resourcePath)
            == Resolved(map id | id in order :: Resolve(id, pathways[id], resourceExists, resourcePath))
    decreases |order|
  {
    var ls := ConfigLines(pathways, order);
    if |order| > 0 {
      var init := order[..|order| - 1];
      var id := order[|order| - 1];
      assert ls[..|ls| - 1] == ConfigLines(pathways, init);
      ReadConfigLines(pathways, init, resourceExists, resourcePath);
      var m := map x | x in init :: Resolve(x, pathways[x], resourceExists, resourcePath);
      assert ls[|ls| - 1] == ConfigLine(id, pathways[id]);
      ApplyConfigLine(m, id, pathways[id], |ls| - 1, resourceExists, resourcePath);
      assert ReadPathways(ls, resourceExists, resourcePath)
          == ApplyLine(Resolved(m), ls[|ls| - 1], |ls| - 1, resourceExists, resourcePath);
      var m' := map x | x in order :: Resolve(x, pathways[x], resourceExists, resourcePath);
      assert m' == m[id := Resolve(id, pathways[id], resourceExists, resourcePath)] by {
        assert forall x :: x in order <==> x in init || x == id;
      }
    }
  }

  /** Round trip: reading back what write_config wrote gives every identifier its
      written path, or its bundled resource where one exists. */
  lemma ReadAfterWrite(pathways: map<string, string>, order: seq<string>,
                       resourceExists: string -> bool, resourcePath: string -> string)
    requires IsIterationOrder(order, pathways)
    requires forall id | id in pathways :: IsPlain(id) && IsPlain(pathways[id])
    ensures ReadPathways(Lines(WriteConfig(pathways, order)), resourceExists, resourcePath)
            == Resolved(map id | id in pathways :: Resolve(id, pathways[id], resourceExists, resourcePath))
  {
    assert forall id | id in pathways :: '\n' !in id && '\n' !in pathways[id] by {
      assert IsSpace('\n');
    }
    WrittenLines(pathways, order);
    ReadConfigLines(pathways, order, resourceExists, resourcePath);
    var written := map id | id in order :: Resolve(id, pathways[id], resourceExists, resourcePath);
    var expected := map id | id in pathways :: Resolve(id, pathways[id], resourceExists, resourcePath);
    assert written == expected by {
      assert forall id :: id in order <==> id in pathways;
      assert written.Keys == expected.Keys;
    }
  }

  /** Round trip with no bundled resources: the written mapping is read back unchanged. */
  lemma ReadAfterWriteWithoutResources(pathways: map<string, string>, order: seq<string>,
                                       resourcePath: string -> string)
    requires IsIterationOrder(order, pathways)
    requires forall id | id in pathways :: IsPlain(id) && IsPlain(pathways[id])
    ensures ReadPathways(Lines(WriteConfig(pathways, order)), _ => false, resourcePath) == Resolved(pathways)
  {
    ReadAfterWrite(pathways, order, _ => false, resourcePath);
  }
}
