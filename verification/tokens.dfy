/** Tokens as maximal runs of non-separator characters. Python's str.split() with no
    argument is the instance whose separators are whitespace; re.findall(r'[^\s,]+', s)
    is the instance whose separators are whitespace and the comma. */
module Tokens {
  import opened Strings

  /** The whitespace of Python 2 byte strings, for str.split() and the class \s alike:
      space, tab, line feed, carriage return, vertical tab and form feed. */
  predicate IsSpace(c: char)
  {
    c == ' ' || c == '\t' || c == '\n' || c == '\r' || c == '\U{0B}' || c == '\U{0C}'
  }

  /** A token: nonempty and free of separators. */
  predicate IsToken(t: string, sep: char -> bool)
  {
    |t| > 0 && forall i | 0 <= i < |t| :: !sep(t[i])
  }

  /** A gap between tokens: separators only (possibly none). */
  predicate AllSep(g: string, sep: char -> bool)
  {
    forall i | 0 <= i < |g| :: sep(g[i])
  }

  /** The string with every separator removed. */
  function Strip(s: string, sep: char -> bool): (r: string)
    ensures |r| <= |s|
    ensures forall i | 0 <= i < |r| :: !sep(r[i])
  {
    if |s| == 0 then ""
    else (if sep(s[0]) then "" else [s[0]]) + Strip(s[1..], sep)
  }

  lemma {:induction false} StripAppend(a: string, b: string, sep: char -> bool)
    ensures Strip(a + b, sep) == Strip(a, sep) + Strip(b, sep)
  {
    if |a| > 0 {
      assert (a + b)[1..] == a[1..] + b;
      StripAppend(a[1..], b, sep);
    } else {
      assert a + b == b;
    }
  }

  lemma {:induction false} StripToken(t: string, sep: char -> bool)
    requires forall i | 0 <= i < |t| :: !sep(t[i])
    ensures Strip(t, sep) == t
  {
    if |t| > 0 {
      StripToken(t[1..], sep);
    }
  }

  /** The length of the run of non-separators that s starts with. */
  function RunLength(s: string, sep: char -> bool): (n: nat)
    ensures n <= |s|
    ensures forall i | 0 <= i < n :: !sep(s[i])
    ensures n == |s| || sep(s[n])
  {
    if |s| == 0 || sep(s[0]) then 0 else 1 + RunLength(s[1..], sep)
  }

  /** The maximal runs of non-separator characters of s, left to right. */
  function Runs(s: string, sep: char -> bool): (r: seq<string>)
    ensures forall i | 0 <= i < |r| :: IsToken(r[i], sep)
    decreases |s|
  {
    if |s| == 0 then []
    else if sep(s[0]) then Runs(s[1..], sep)
    else
      var n := RunLength(s, sep);
      [s[..n]] + Runs(s[n..], sep)
  }

  /** Joining the runs gives back the string with its separators removed. */
  lemma {:induction false} RunsStrip(s: string, sep: char -> bool)
    ensures Concat(Runs(s, sep)) == Strip(s, sep)
    decreases |s|
  {
    if |s| > 0 && sep(s[0]) {
      RunsStrip(s[1..], sep);
    } else if |s| > 0 {
      var n := RunLength(s, sep);
      assert s[..n] + s[n..] == s;
      StripAppend(s[..n], s[n..], sep);
      StripToken(s[..n], sep);
      RunsStrip(s[n..], sep);
    }
  }

  /** The string g0 t0 g1 t1 ... t(k-1) gk that interleaves gaps and tokens. */
  function Weave(gaps: seq<string>, toks: seq<string>): string
    requires |gaps| == |toks| + 1
    decreases |toks|
  {
    if |toks| == 0 then gaps[0] else gaps[0] + toks[0] + Weave(gaps[1..], toks[1..])
  }

  /** Gaps and tokens that split a string into maximal runs: every gap holds only
      separators, every token is nonempty and holds none, and the gaps strictly
      between two tokens are nonempty (so no two tokens touch). */
  predicate Separated(gaps: seq<string>, toks: seq<string>, sep: char -> bool)
  {
    && |gaps| == |toks| + 1
    && (forall i | 0 <= i < |toks| :: IsToken(toks[i], sep))
    && (forall i | 0 <= i < |gaps| :: AllSep(gaps[i], sep))
    && (forall i | 0 < i < |toks| :: |gaps[i]| > 0)
  }

  /** Weaving with a longer first gap puts the extra text in front. */
  lemma WeaveLongerFirstGap(pre: string, gaps: seq<string>, toks: seq<string>)
    requires |gaps| == |toks| + 1
    ensures Weave([pre + gaps[0]] + gaps[1..], toks) == pre + Weave(gaps, toks)
  {
    var g := [pre + gaps[0]] + gaps[1..];
    assert g[0] == pre + gaps[0];
    if |toks| > 0 {
      assert g[1..] == gaps[1..];
      var rest := Weave(gaps[1..], toks[1..]);
      assert Weave(gaps, toks) == gaps[0] + toks[0] + rest;
      assert Weave(g, toks) == g[0] + toks[0] + rest;
      StringAssoc4(pre, gaps[0], toks[0], rest);
    }
  }

  lemma StringAssoc4(a: string, b: string, c: string, d: string)
    ensures (a + b) + c + d == a + (b + c + d)
  {
  }

  /** Weaving a token in front, after an empty gap, puts it in front. */
  lemma WeaveToken(t: string, gaps: seq<string>, toks: seq<string>)
    requires |gaps| == |toks| + 1
    ensures Weave([""] + gaps, [t] + toks) == t + Weave(gaps, toks)
  {
    var g, k := [""] + gaps, [t] + toks;
    assert g[1..] == gaps;
    assert k[1..] == toks;
    assert "" + t == t;
    assert Weave(g, k) == g[0] + k[0] + Weave(gaps, toks);
  }

  /** Lengthening the first gap by separators keeps a weave separated. */
  lemma SeparatedLongerFirstGap(pre: string, gaps: seq<string>, toks: seq<string>, sep: char -> bool)
    requires Separated(gaps, toks, sep) && AllSep(pre, sep)
    ensures Separated([pre + gaps[0]] + gaps[1..], toks, sep)
  {
    var g := [pre + gaps[0]] + gaps[1..];
    assert forall i | 0 < i < |g| :: g[i] == gaps[i];
  }

  /** A token in front, after an empty gap, keeps a weave separated when the old first
      gap is nonempty or there is nothing after it. */
  lemma SeparatedToken(t: string, gaps: seq<string>, toks: seq<string>, sep: char -> bool)
    requires Separated(gaps, toks, sep) && IsToken(t, sep)
    requires |toks| > 0 ==> |gaps[0]| > 0
    ensures Separated([""] + gaps, [t] + toks, sep)
  {
    var g, k := [""] + gaps, [t] + toks;
    assert forall i | 0 < i < |g| :: g[i] == gaps[i - 1];
    assert forall i | 0 < i < |k| :: k[i] == toks[i - 1];
  }

  /** A leading separator joins the first gap of the rest's weave. */
  lemma RunsWeaveSeparator(s: string, sep: char -> bool, gaps': seq<string>) returns (gaps: seq<string>)
    requires |s| > 0 && sep(s[0])
    requires Separated(gaps', Runs(s[1..], sep), sep)
    requires Weave(gaps', Runs(s[1..], sep)) == s[1..]
    ensures Separated(gaps, Runs(s, sep), sep)
    ensures Weave(gaps, Runs(s, sep)) == s
    ensures |gaps[0]| > 0
  {
    var toks := Runs(s[1..], sep);
    assert Runs(s, sep) == toks;
    gaps := [[s[0]] + gaps'[0]] + gaps'[1..];
    SeparatedLongerFirstGap([s[0]], gaps', toks, sep);
    WeaveLongerFirstGap([s[0]], gaps', toks);
    assert [s[0]] + s[1..] == s;
  }

  /** A token in front of a separated weave of the rest, after an empty gap. */
  lemma WeaveTokenStep(s: string, n: nat, toks: seq<string>, gaps': seq<string>, sep: char -> bool)
    returns (gaps: seq<string>)
    requires 0 < n <= |s| && IsToken(s[..n], sep)
    requires Separated(gaps', toks, sep) && Weave(gaps', toks) == s[n..]
    requires |toks| > 0 ==> |gaps'[0]| > 0
    ensures Separated(gaps, [s[..n]] + toks, sep)
    ensures Weave(gaps, [s[..n]] + toks) == s
  {
    gaps := [""] + gaps';
    SeparatedToken(s[..n], gaps', toks, sep);
    WeaveToken(s[..n], gaps', toks);
    assert s[..n] + s[n..] == s;
  }

  /** A leading run becomes the first token, after an empty gap. */
  lemma RunsWeaveToken(s: string, sep: char -> bool, gaps': seq<string>) returns (gaps: seq<string>)
    requires |s| > 0 && !sep(s[0])
    requires var rest := s[RunLength(s, sep)..];
      Separated(gaps', Runs(rest, sep), sep) && Weave(gaps', Runs(rest, sep)) == rest &&
      (|rest| > 0 && sep(rest[0]) ==> |gaps'[0]| > 0)
    ensures Separated(gaps, Runs(s, sep), sep)
    ensures Weave(gaps, Runs(s, sep)) == s
  {
    var n := RunLength(s, sep);
    var toks := Runs(s[n..], sep);
    assert Runs(s, sep) == [s[..n]] + toks;
    assert |toks| > 0 ==> |gaps'[0]| > 0 by {
      if |toks| > 0 {
        assert |s[n..]| > 0;
      }
    }
    gaps := WeaveTokenStep(s, n, toks, gaps', sep);
  }

  /** Every string is woven from its runs and the separators around them: the
      returned gaps witness it. */
  lemma {:induction false} RunsWeave(s: string, sep: char -> bool) returns (gaps: seq<string>)
    ensures Separated(gaps, Runs(s, sep), sep)
    ensures Weave(gaps, Runs(s, sep)) == s
    ensures |s| > 0 && sep(s[0]) ==> |gaps[0]| > 0
    decreases |s|
  {
    if |s| == 0 {
      gaps := [""];
    } else if sep(s[0]) {
      var gaps' := RunsWeave(s[1..], sep);
      gaps := RunsWeaveSeparator(s, sep, gaps');
    } else {
      var gaps' := RunsWeave(s[RunLength(s, sep)..], sep);
      gaps := RunsWeaveToken(s, sep, gaps');
    }
  }

  lemma {:induction false} RunLengthOfToken(t: string, rest: string, sep: char -> bool)
    requires IsToken(t, sep) || |t| == 0
    requires |rest| == 0 || sep(rest[0])
    ensures RunLength(t + rest, sep) == |t|
  {
    if |t| > 0 {
      assert (t + rest)[1..] == t[1..] + rest;
      RunLengthOfToken(t[1..], rest, sep);
    } else {
      assert t + rest == rest;
    }
  }

  /** A weave that starts with a separator weaves the rest with a shorter first gap. */
  lemma DropSeparator(s: string, gaps: seq<string>, toks: seq<string>, sep: char -> bool)
    returns (gaps': seq<string>)
    requires Separated(gaps, toks, sep) && Weave(gaps, toks) == s && |gaps[0]| > 0
    ensures |s| > 0 && sep(s[0])
    ensures Separated(gaps', toks, sep) && Weave(gaps', toks) == s[1..]
  {
    var c := gaps[0][0];
    gaps' := [gaps[0][1..]] + gaps[1..];
    assert [[c] + gaps'[0]] + gaps'[1..] == gaps by {
      assert [c] + gaps[0][1..] == gaps[0];
    }
    WeaveLongerFirstGap([c], gaps', toks);
    assert forall i | 0 < i < |gaps'| :: gaps'[i] == gaps[i];
    assert AllSep(gaps'[0], sep);
  }

  /** A weave that starts with a token has that token as its leading run. */
  lemma DropToken(s: string, gaps: seq<string>, toks: seq<string>, sep: char -> bool)
    requires Separated(gaps, toks, sep) && Weave(gaps, toks) == s
    requires |gaps[0]| == 0 && |toks| > 0
    ensures Separated(gaps[1..], toks[1..], sep)
    ensures |toks[0]| <= |s| && s[..|toks[0]|] == toks[0]
    ensures s[|toks[0]|..] == Weave(gaps[1..], toks[1..])
    ensures |s| > 0 && !sep(s[0]) && RunLength(s, sep) == |toks[0]|
  {
    var t := toks[0];
    var rest := Weave(gaps[1..], toks[1..]);
    assert s == t + rest by {
      assert gaps[0] == "";
      assert "" + t == t;
    }
    if |toks| > 1 {
      assert |gaps[1]| > 0;
      assert rest == gaps[1] + toks[1] + Weave(gaps[2..], toks[2..]);
      assert rest[0] == gaps[1][0];
    } else {
      assert rest == gaps[1];
    }
    RunLengthOfToken(t, rest, sep);
    assert s[0] == t[0];
    assert s[..|t|] == t && s[|t|..] == rest;
  }

  /** The runs are the only way to weave a string: whenever gaps and tokens are
      separated as above and weave s, the tokens are exactly the runs of s. */
  lemma {:induction false} RunsUnique(s: string, gaps: seq<string>, toks: seq<string>, sep: char -> bool)
    requires Separated(gaps, toks, sep)
    requires Weave(gaps, toks) == s
    ensures Runs(s, sep) == toks
    decreases |s|
  {
    if |gaps[0]| > 0 {
      var gaps' := DropSeparator(s, gaps, toks, sep);
      RunsUnique(s[1..], gaps', toks, sep);
    } else if |toks| == 0 {
      assert s == "";
    } else {
      var n := |toks[0]|;
      DropToken(s, gaps, toks, sep);
      RunsUnique(s[n..], gaps[1..], toks[1..], sep);
      assert toks == [s[..n]] + toks[1..];
    }
  }

  /** Python's str.split() with no argument: the maximal whitespace-free runs. */
  function Split(s: string): (r: seq<string>)
    ensures forall i | 0 <= i < |r| :: IsToken(r[i], IsSpace)
    ensures Concat(r) == Strip(s, IsSpace)
  {
    RunsStrip(s, IsSpace);
    Runs(s, IsSpace)
  }

  /** The runs of s are characterised by maximality: a sequence of tokens is the runs of
      s exactly when some separator gaps weave it into s, no two tokens touching. */
  lemma RunsAreMaximal(s: string, toks: seq<string>, sep: char -> bool)
    ensures toks == Runs(s, sep) <==> exists gaps :: Separated(gaps, toks, sep) && Weave(gaps, toks) == s
  {
    if toks == Runs(s, sep) {
      var gaps := RunsWeave(s, sep);
    }
    if gaps :| Separated(gaps, toks, sep) && Weave(gaps, toks) == s {
      RunsUnique(s, gaps, toks, sep);
    }
  }
}
