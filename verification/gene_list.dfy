/** The string branch of make_a_list in config.py: a string that is not read as a file
    becomes the list of its tokens, re.findall(r'[^\s,]+', s) with the default
    separators whitespace and comma. */
module GeneList {
  import opened Strings
  import opened Tokens

  /** The characters the default pattern excludes from a token. */
  predicate IsListSeparator(c: char)
  {
    IsSpace(c) || c == ','
  }

  /** The tokens of s in order: each nonempty and free of whitespace and commas, and
      together exactly the characters of s that are neither. */
  function ListFromString(s: string): (genes: seq<string>)
    ensures forall i | 0 <= i < |genes| :: IsToken(genes[i], IsListSeparator)
    ensures Concat(genes) == Strip(s, IsListSeparator)
  {
    RunsStrip(s, IsListSeparator);
    Runs(s, IsListSeparator)
  }

  /** Each token is a maximal run: the list is the only sequence of tokens that,
      interleaved with whitespace-and-comma gaps (nonempty between two tokens), spells s. */
  lemma ListFromStringMaximal(s: string, genes: seq<string>)
    ensures genes == ListFromString(s)
            <==> exists gaps :: Separated(gaps, genes, IsListSeparator) && Weave(gaps, genes) == s
  {
    RunsAreMaximal(s, genes, IsListSeparator);
  }
}
