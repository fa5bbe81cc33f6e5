/** The function-name rewrite applied before evaluation (script.js:367-368):
    two global, case-sensitive, word-anchored substitutions run one after
    the other, first `ln(` to `log(`, then `log(` to `log10(`. */
module Rewrite {
  import opened Text

  const Ln := "ln("
  const Log := "log("
  const Log10 := "log10("

  /** A pattern the rewrite can anchor: it starts with a word character, so
      a word boundary before it means the preceding character is not a word
      character (or there is none). */
  predicate Anchorable(pat: string) {
    |pat| > 0 && IsWordChar(pat[0])
  }

  /** Global replacement of `pat` by `rep` at word boundaries, scanning left
      to right without overlap. `prevWord` says whether the character of the
      ORIGINAL text just before `t` is a word character; after a match the
      scan resumes with the last character of the match as context, since
      the boundary test reads the input, not the output. */
  function Scan(t: string, prevWord: bool, pat: string, rep: string): string
    requires Anchorable(pat)
    decreases |t|
  {
    if t == [] then []
    else if !prevWord && pat <= t then rep + Scan(t[|pat|..], IsWordChar(Last(pat)), pat, rep)
    else [t[0]] + Scan(t[1..], IsWordChar(t[0]), pat, rep)
  }

  /** `s.replace(/\bpat/g, rep)` for an anchorable pattern: a pattern at
      the very start of the text is replaced. */
  function ReplaceAll(s: string, pat: string, rep: string): (r: string)
    requires Anchorable(pat)
    ensures pat <= s ==> rep <= r
  {
    Scan(s, false, pat, rep)
  }

  /** Text in which the pattern occurs at no word boundary passes the replace unchanged. */
  lemma ReplaceAllWithoutOccurrence(s: string, pat: string, rep: string)
    requires Anchorable(pat)
    ensures !Occurs(s, pat) ==> ReplaceAll(s, pat, rep) == s
  {
    NoMatchMeansNoOccurrence(s, false, pat);
    if NoMatch(s, false, pat) {
      NoMatchIsIdentity(s, false, pat, rep);
    }
  }

  /** The rewrite exactly as the calculator performs it: a leading `ln(`
      is rewritten twice and comes out as `log10(`. */
  function NormalizeNames(s: string): (r: string)
    ensures Ln <= s ==> Log10 <= r
  {
    ReplaceAll(ReplaceAll(s, Ln, Log), Log, Log10)
  }

  /** The rewrite meant to send `ln(` to the natural `log(` and `log(` to
      `log10(`: the two substitutions in the other order, so that the output
      of the first is not fed to the second. Text holding neither
      name at a word boundary passes unchanged. */
  function NormalizeNamesIntended(s: string): (r: string)
    ensures !Occurs(s, Ln) && !Occurs(s, Log) ==> r == s
  {
    ReplaceAllWithoutOccurrence(s, Log, Log10);
    ReplaceAllWithoutOccurrence(s, Ln, Log);
    ReplaceAll(ReplaceAll(s, Log, Log10), Ln, Log)
  }

  // ----- a word boundary, stated on positions -----

  /** A word boundary lies before position `i` of `t`, given whether the
      character before `t` is a word character. */
  predicate BoundaryAt(t: string, i: nat, prevWord: bool)
    requires i <= |t|
  {
    if i == 0 then !prevWord else !IsWordChar(t[i - 1])
  }

  /** `pat` occurs in `t` at position `i`, right after a word boundary. */
  predicate MatchAt(t: string, i: nat, prevWord: bool, pat: string) {
    i + |pat| <= |t| && t[i..i + |pat|] == pat && BoundaryAt(t, i, prevWord)
  }

  /** `t` holds `pat` at a word boundary, as `/\bpat/` would find it. */
  predicate Occurs(t: string, pat: string) {
    exists i: nat :: i < |t| && MatchAt(t, i, false, pat)
  }

  /** The scan of `t` finds nothing to replace. */
  predicate NoMatch(t: string, prevWord: bool, pat: string)
    decreases |t|
  {
    t == [] || (!(!prevWord && pat <= t) && NoMatch(t[1..], IsWordChar(t[0]), pat))
  }

  lemma MatchAtShift(t: string, i: nat, prevWord: bool, pat: string)
    requires |t| > 0
    ensures MatchAt(t, i + 1, prevWord, pat) <==> MatchAt(t[1..], i, IsWordChar(t[0]), pat)
  {
    if i + 1 + |pat| <= |t| {
      var direct, shifted := t[i + 1..i + 1 + |pat|], t[1..][i..i + |pat|];
      assert forall j :: 0 <= j < |pat| ==> direct[j] == shifted[j];
      assert direct == shifted;
      if i > 0 {
        assert t[i] == t[1..][i - 1];
      }
    }
  }

  /** The scan finds nothing exactly when the pattern occurs at no word boundary. */
  lemma {:induction false} NoMatchMeansNoOccurrence(t: string, prevWord: bool, pat: string)
    requires |pat| > 0
    ensures NoMatch(t, prevWord, pat) <==> forall i: nat :: i < |t| ==> !MatchAt(t, i, prevWord, pat)
  {
    if t != [] {
      NoMatchMeansNoOccurrence(t[1..], IsWordChar(t[0]), pat);
      forall i: nat | i < |t[1..]|
        ensures MatchAt(t, i + 1, prevWord, pat) <==> MatchAt(t[1..], i, IsWordChar(t[0]), pat)
      {
        MatchAtShift(t, i, prevWord, pat);
      }
      assert MatchAt(t, 0, prevWord, pat) <==> (!prevWord && pat <= t);
      if forall i: nat :: i < |t| ==> !MatchAt(t, i, prevWord, pat) {
        forall i: nat | i < |t[1..]|
          ensures !MatchAt(t[1..], i, IsWordChar(t[0]), pat)
        {
          assert !MatchAt(t, i + 1, prevWord, pat);
        }
      }
      if NoMatch(t, prevWord, pat) {
        forall i: nat | i < |t|
          ensures !MatchAt(t, i, prevWord, pat)
        {
          if i > 0 {
            assert !MatchAt(t[1..], i - 1, IsWordChar(t[0]), pat);
          }
        }
      }
    }
  }

  // ----- how the scan treats runs of word characters -----

  /** A scan whose context is a word character copies the first character. */
  lemma ScanAfterWord(t: string, pat: string, rep: string)
    requires Anchorable(pat)
    requires |t| > 0
    ensures Scan(t, true, pat, rep) == [t[0]] + Scan(t[1..], IsWordChar(t[0]), pat, rep)
  {
  }

  /** Text whose characters, but for the last, are word characters is copied
      unchanged when it follows a word character; the scan then continues
      with its last character as context. */
  lemma {:induction false} ScanPassesThrough(p: string, r: string, pat: string, rep: string)
    requires Anchorable(pat)
    requires |p| > 0
    requires forall j :: 0 <= j < |p| - 1 ==> IsWordChar(p[j])
    ensures Scan(p + r, true, pat, rep) == p + Scan(r, IsWordChar(Last(p)), pat, rep)
  {
    assert (p + r)[1..] == p[1..] + r;
    ScanAfterWord(p + r, pat, rep);
    if |p| > 1 {
      ScanPassesThrough(p[1..], r, pat, rep);
    }
  }

  /** If the output of a scan in word context begins with `w`, whose
      characters but the last are word characters, the input begins with `w`. */
  lemma {:induction false} WordPrefixComesFromInput(t: string, w: string, pat: string, rep: string)
    requires Anchorable(pat)
    requires |w| > 0
    requires forall j :: 0 <= j < |w| - 1 ==> IsWordChar(w[j])
    requires w <= Scan(t, true, pat, rep)
    ensures w <= t
  {
    assert t != [];
    ScanAfterWord(t, pat, rep);
    assert t[0] == w[0];
    if |w| > 1 {
      WordPrefixComesFromInput(t[1..], w[1..], pat, rep);
      assert t == [t[0]] + t[1..];
    }
  }

  /** Text that ends in a non-word character, with only word characters
      before it, contributes no match of `q` once its head is not one. */
  lemma {:induction false} NoMatchThroughToken(p: string, r: string, prevWord: bool, q: string)
    requires |p| > 0
    requires forall j :: 0 <= j < |p| - 1 ==> IsWordChar(p[j])
    requires !IsWordChar(Last(p))
    requires !prevWord ==> !(q <= p + r)
    requires NoMatch(r, false, q)
    ensures NoMatch(p + r, prevWord, q)
  {
    assert (p + r)[1..] == p[1..] + r;
    if |p| > 1 {
      NoMatchThroughToken(p[1..], r, true, q);
    }
  }

  /** A text the scan finds nothing in still yields nothing after any prefix. */
  lemma {:induction false} NoMatchSuffix(t: string, prevWord: bool, q: string, k: nat)
    requires NoMatch(t, prevWord, q)
    requires 0 < k <= |t|
    ensures NoMatch(t[k..], IsWordChar(t[k - 1]), q)
  {
    if k > 1 {
      NoMatchSuffix(t[1..], IsWordChar(t[0]), q, k - 1);
      assert t[1..][k - 1..] == t[k..];
    }
  }

  /** A scan that finds nothing leaves the text unchanged. */
  lemma {:induction false} NoMatchIsIdentity(t: string, prevWord: bool, pat: string, rep: string)
    requires Anchorable(pat)
    requires NoMatch(t, prevWord, pat)
    ensures Scan(t, prevWord, pat, rep) == t
  {
    if t != [] {
      NoMatchIsIdentity(t[1..], IsWordChar(t[0]), pat, rep);
    }
  }

  // ----- what each step leaves behind -----

  /** After the first step no `ln(` is left at a word boundary. */
  lemma {:induction false} FirstStepClearsLn(t: string, prevWord: bool)
    ensures NoMatch(Scan(t, prevWord, Ln, Log), prevWord, Ln)
  {
    if t != [] {
      if !prevWord && Ln <= t {
        FirstStepClearsLn(t[|Ln|..], false);
        assert (Log + Scan(t[|Ln|..], false, Ln, Log))[1] == 'o';
        NoMatchThroughToken(Log, Scan(t[|Ln|..], false, Ln, Log), prevWord, Ln);
      } else {
        var o1 := Scan(t[1..], IsWordChar(t[0]), Ln, Log);
        FirstStepClearsLn(t[1..], IsWordChar(t[0]));
        if !prevWord && Ln <= [t[0]] + o1 {
          WordPrefixComesFromInput(t[1..], Ln[1..], Ln, Log);
          assert false;
        }
      }
    }
  }

  /** The second step brings no `ln(` back. */
  lemma {:induction false} SecondStepKeepsLnCleared(t: string, prevWord: bool)
    requires NoMatch(t, prevWord, Ln)
    ensures NoMatch(Scan(t, prevWord, Log, Log10), prevWord, Ln)
  {
    if t != [] {
      if !prevWord && Log <= t {
        NoMatchSuffix(t, prevWord, Ln, |Log|);
        assert t[|Log| - 1] == '(';
        SecondStepKeepsLnCleared(t[|Log|..], false);
        assert (Log10 + Scan(t[|Log|..], false, Log, Log10))[1] == 'o';
        NoMatchThroughToken(Log10, Scan(t[|Log|..], false, Log, Log10), prevWord, Ln);
      } else {
        var o1 := Scan(t[1..], IsWordChar(t[0]), Log, Log10);
        SecondStepKeepsLnCleared(t[1..], IsWordChar(t[0]));
        if !prevWord && Ln <= [t[0]] + o1 {
          WordPrefixComesFromInput(t[1..], Ln[1..], Log, Log10);
          assert false;
        }
      }
    }
  }

  /** After the second step no `log(` is left at a word boundary. */
  lemma {:induction false} SecondStepClearsLog(t: string, prevWord: bool)
    ensures NoMatch(Scan(t, prevWord, Log, Log10), prevWord, Log)
  {
    if t != [] {
      if !prevWord && Log <= t {
        SecondStepClearsLog(t[|Log|..], false);
        assert (Log10 + Scan(t[|Log|..], false, Log, Log10))[3] == '1';
        NoMatchThroughToken(Log10, Scan(t[|Log|..], false, Log, Log10), prevWord, Log);
      } else {
        var o1 := Scan(t[1..], IsWordChar(t[0]), Log, Log10);
        SecondStepClearsLog(t[1..], IsWordChar(t[0]));
        if !prevWord && Log <= [t[0]] + o1 {
          WordPrefixComesFromInput(t[1..], Log[1..], Log, Log10);
          assert false;
        }
      }
    }
  }

  // ----- properties of the rewrite as written -----

  /** The text handed to the evaluator holds neither `ln(` nor `log(` at a
      word boundary. */
  lemma NormalizedHasNoLegacyNames(s: string)
    ensures !Occurs(NormalizeNames(s), Ln)
    ensures !Occurs(NormalizeNames(s), Log)
  {
    var mid := ReplaceAll(s, Ln, Log);
    var out := NormalizeNames(s);
    FirstStepClearsLn(s, false);
    SecondStepKeepsLnCleared(mid, false);
    SecondStepClearsLog(mid, false);
    NoMatchMeansNoOccurrence(out, false, Ln);
    NoMatchMeansNoOccurrence(out, false, Log);
  }

  /** Running the rewrite on its own output changes nothing. */
  lemma NormalizeNamesIdempotent(s: string)
    ensures NormalizeNames(NormalizeNames(s)) == NormalizeNames(s)
  {
    var mid := ReplaceAll(s, Ln, Log);
    var out := NormalizeNames(s);
    FirstStepClearsLn(s, false);
    SecondStepKeepsLnCleared(mid, false);
    SecondStepClearsLog(mid, false);
    NoMatchIsIdentity(out, false, Ln, Log);
    NoMatchIsIdentity(out, false, Log, Log10);
  }

  // ----- the rewrite works piece by piece across word boundaries -----

  /** A pattern shaped like a call: word characters followed by a single
      non-word character, as `ln(`, `log(` and `log10(` are. */
  predicate CallPattern(pat: string) {
    && Anchorable(pat)
    && !IsWordChar(Last(pat))
    && forall j :: 0 < j < |pat| - 1 ==> IsWordChar(pat[j])
  }

  /** A word boundary may follow the text: it is empty or ends in a non-word character. */
  predicate EndsAtBoundary(p: string) {
    p == [] || !IsWordChar(Last(p))
  }

  lemma CallPatterns()
    ensures CallPattern(Ln) && CallPattern(Log) && CallPattern(Log10)
  {
  }

  /** A call pattern starts `p + q` exactly when it starts `p`, if `p`
      ends in a non-word character: that character can only be the
      pattern's last, so no match straddles it. */
  lemma NoStraddle(pat: string, p: string, q: string)
    requires CallPattern(pat)
    requires p != [] && !IsWordChar(Last(p))
    ensures pat <= p + q <==> pat <= p
  {
    if |pat| > |p| {
      var j := |p| - 1;
      assert IsWordChar(pat[j]);
      assert (p + q)[j] == Last(p);
    } else {
      assert (p + q)[..|pat|] == p[..|pat|];
    }
  }

  /** No match of a call pattern straddles a non-word character that ends
      the text before it, so the scan of `p + q` is the scan of `p` followed
      by a fresh scan of `q`. */
  lemma {:induction false} ScanSplit(p: string, q: string, b: bool, pat: string, rep: string)
    requires CallPattern(pat)
    requires p != [] && !IsWordChar(Last(p))
    ensures Scan(p + q, b, pat, rep) == Scan(p, b, pat, rep) + Scan(q, false, pat, rep)
    decreases |p|
  {
    var t := p + q;
    var tail := Scan(q, false, pat, rep);
    NoStraddle(pat, p, q);
    if !b && pat <= p {
      var rest := p[|pat|..];
      assert t[|pat|..] == rest + q;
      if rest != [] {
        assert Last(rest) == Last(p);
        ScanSplit(rest, q, false, pat, rep);
        var head := Scan(rest, false, pat, rep);
        assert rep + (head + tail) == (rep + head) + tail;
      } else {
        assert rest + q == q;
        assert rep + [] == rep;
      }
    } else {
      var rest := p[1..];
      var c := p[0];
      assert t[0] == c && t[1..] == rest + q;
      if rest != [] {
        assert Last(rest) == Last(p);
        ScanSplit(rest, q, IsWordChar(c), pat, rep);
        var head := Scan(rest, IsWordChar(c), pat, rep);
        assert [c] + (head + tail) == ([c] + head) + tail;
      } else {
        assert rest + q == q;
        assert [c] + [] == [c];
      }
    }
  }

  /** Text that ends at a boundary still does after a prefix is put before it. */
  lemma EndsAtBoundaryAfter(a: string, x: string)
    requires EndsAtBoundary(x)
    requires x == [] ==> EndsAtBoundary(a)
    ensures EndsAtBoundary(a + x)
  {
    if x != [] {
      assert Last(a + x) == Last(x);
    } else {
      assert a + x == a;
    }
  }

  /** When both the text and a non-empty replacement end at a boundary, so
      does the scan's output. */
  lemma {:induction false} ScanKeepsBoundary(p: string, b: bool, pat: string, rep: string)
    requires Anchorable(pat)
    requires EndsAtBoundary(p) && EndsAtBoundary(rep) && rep != []
    ensures EndsAtBoundary(Scan(p, b, pat, rep))
    ensures p != [] ==> Scan(p, b, pat, rep) != []
    decreases |p|
  {
    if p != [] {
      if !b && pat <= p {
        var rest := p[|pat|..];
        if rest != [] {
          assert Last(rest) == Last(p);
        }
        ScanKeepsBoundary(rest, IsWordChar(Last(pat)), pat, rep);
        EndsAtBoundaryAfter(rep, Scan(rest, IsWordChar(Last(pat)), pat, rep));
      } else {
        var rest := p[1..];
        var c := p[0];
        var out := Scan(rest, IsWordChar(c), pat, rep);
        if rest != [] {
          assert Last(rest) == Last(p);
          ScanKeepsBoundary(rest, IsWordChar(c), pat, rep);
          EndsAtBoundaryAfter([c], out);
        } else {
          assert [c] + out == [Last(p)];
        }
      }
    }
  }

  /** A replace over text that ends at a boundary acts on the two sides separately. */
  lemma ReplaceAllSplit(p: string, q: string, pat: string, rep: string)
    requires CallPattern(pat)
    requires EndsAtBoundary(p) && EndsAtBoundary(rep) && rep != []
    ensures ReplaceAll(p + q, pat, rep) == ReplaceAll(p, pat, rep) + ReplaceAll(q, pat, rep)
    ensures EndsAtBoundary(ReplaceAll(p, pat, rep))
  {
    if p == [] {
      assert p + q == q;
    } else {
      ScanSplit(p, q, false, pat, rep);
    }
    ScanKeepsBoundary(p, false, pat, rep);
  }

  /** The rewrite as written treats text before a boundary and text after it independently. */
  lemma NormalizeNamesSplit(p: string, q: string)
    requires EndsAtBoundary(p)
    ensures NormalizeNames(p + q) == NormalizeNames(p) + NormalizeNames(q)
  {
    CallPatterns();
    ReplaceAllSplit(p, q, Ln, Log);
    ReplaceAllSplit(ReplaceAll(p, Ln, Log), ReplaceAll(q, Ln, Log), Log, Log10);
  }

  /** So does the rewrite in the corrected order. */
  lemma NormalizeNamesIntendedSplit(p: string, q: string)
    requires EndsAtBoundary(p)
    ensures NormalizeNamesIntended(p + q) == NormalizeNamesIntended(p) + NormalizeNamesIntended(q)
  {
    CallPatterns();
    ReplaceAllSplit(p, q, Log, Log10);
    ReplaceAllSplit(ReplaceAll(p, Log, Log10), ReplaceAll(q, Log, Log10), Ln, Log);
  }

  // ----- names at the start of the text -----

  lemma LogAtStart(r: string)
    ensures NormalizeNames(Log + r) == Log10 + NormalizeNames(r)
  {
    assert !(Ln <= Log + r) by { assert (Log + r)[1] == 'o'; }
    assert (Log + r)[1..] == "og(" + r;
    ScanPassesThrough("og(", r, Ln, Log);
    assert ReplaceAll(Log + r, Ln, Log) == Log + ReplaceAll(r, Ln, Log);
  }

  lemma LnAtStart(r: string)
    ensures NormalizeNames(Ln + r) == Log10 + NormalizeNames(r)
  {
    assert ReplaceAll(Ln + r, Ln, Log) == Log + ReplaceAll(r, Ln, Log) by {
      assert (Ln + r)[|Ln|..] == r;
    }
    assert (Log + ReplaceAll(r, Ln, Log))[|Log|..] == ReplaceAll(r, Ln, Log);
  }

  /** A run of word characters (a number, a name such as `pi`, an identifier). */
  predicate WordRun(w: string) {
    |w| > 0 && forall j :: 0 <= j < |w| ==> IsWordChar(w[j])
  }

  /** Neither name starts text in which a word run is glued to a name: either
      the pattern's closing `(` falls on a word character, or (for the one
      short case, `c` + `ln(` against `log(`) the second characters differ. */
  lemma GluedNoMatch(w: string, name: string, r: string, pat: string)
    requires WordRun(w)
    requires name == Ln || name == Log
    requires pat == Ln || pat == Log
    ensures !(pat <= w + name + r)
  {
    var t := w + name + r;
    var k := |pat| - 1;
    if k < |w| + |name| - 1 {
      if k < |w| {
        assert t[k] == w[k];
      } else {
        assert t[k] == name[k - |w|];
      }
      assert pat[k] == '(';
    } else {
      assert |w| == 1 && name == Ln && pat == Log;
      assert t[1] == name[0];
    }
  }

  /** One step of the rewrite copies a glued token (word characters ending
      in a non-word character) that the pattern does not start. */
  lemma GluedStep(g: string, r: string, pat: string, rep: string)
    requires Anchorable(pat)
    requires |g| > 1 && !IsWordChar(Last(g))
    requires forall j :: 0 <= j < |g| - 1 ==> IsWordChar(g[j])
    requires !(pat <= g + r)
    ensures ReplaceAll(g + r, pat, rep) == g + ReplaceAll(r, pat, rep)
  {
    var t := g + r;
    var tail := g[1..];
    assert t[1..] == tail + r;
    assert Last(tail) == Last(g);
    ScanPassesThrough(tail, r, pat, rep);
    assert [g[0]] + (tail + ReplaceAll(r, pat, rep)) == g + ReplaceAll(r, pat, rep);
  }

  lemma GluedAtStart(w: string, name: string, r: string)
    requires WordRun(w)
    requires name == Ln || name == Log
    ensures NormalizeNames(w + name + r) == w + name + NormalizeNames(r)
  {
    var g := w + name;
    forall j | 0 <= j < |g| - 1
      ensures IsWordChar(g[j])
    {
      if j >= |w| {
        assert g[j] == name[j - |w|];
      }
    }
    assert Last(g) == '(';
    var mid := ReplaceAll(r, Ln, Log);
    GluedNoMatch(w, name, r, Ln);
    GluedStep(g, r, Ln, Log);
    GluedNoMatch(w, name, mid, Log);
    GluedStep(g, mid, Log, Log10);
  }

  lemma IntendedLnAtStart(r: string)
    ensures NormalizeNamesIntended(Ln + r) == Log + NormalizeNamesIntended(r)
  {
    var x := ReplaceAll(r, Log, Log10);
    assert !(Log <= Ln + r) by { assert (Ln + r)[1] == 'n'; }
    assert (Ln + r)[1..] == "n(" + r;
    ScanPassesThrough("n(", r, Log, Log10);
    assert ReplaceAll(Ln + r, Log, Log10) == Ln + x;
    assert (Ln + x)[|Ln|..] == x;
  }

  lemma IntendedLogAtStart(r: string)
    ensures NormalizeNamesIntended(Log + r) == Log10 + NormalizeNamesIntended(r)
  {
    var x := ReplaceAll(r, Log, Log10);
    assert (Log + r)[|Log|..] == r;
    assert ReplaceAll(Log + r, Log, Log10) == Log10 + x;
    assert !(Ln <= Log10 + x) by { assert (Log10 + x)[1] == 'o'; }
    assert (Log10 + x)[1..] == "og10(" + x;
    ScanPassesThrough("og10(", x, Ln, Log);
  }

  // ----- names anywhere in the text -----

  lemma Regroup(a: string, b: string, c: string)
    ensures a + (b + c) == a + b + c
  {
  }

  lemma ConcatRegroup(a: string, b: string, c: string, d: string)
    ensures a + (b + c + d) == a + b + c + d
  {
  }

  /** A `log(` at a word boundary (after text `p` that ends in a non-word
      character, or at the start) reaches the evaluator as `log10(`; the
      text around it is rewritten independently. */
  lemma LogBecomesLog10(p: string, r: string)
    requires EndsAtBoundary(p)
    ensures NormalizeNames(p + Log + r) == NormalizeNames(p) + Log10 + NormalizeNames(r)
  {
    calc {
      NormalizeNames(p + Log + r);
      { assert p + Log + r == p + (Log + r); }
      NormalizeNames(p + (Log + r));
      { NormalizeNamesSplit(p, Log + r); }
      NormalizeNames(p) + NormalizeNames(Log + r);
      { LogAtStart(r); }
      NormalizeNames(p) + (Log10 + NormalizeNames(r));
      { Regroup(NormalizeNames(p), Log10, NormalizeNames(r)); }
      NormalizeNames(p) + Log10 + NormalizeNames(r);
    }
  }

  /** A `ln(` at a word boundary also reaches the evaluator as `log10(`: the
      output of the first step is rewritten again by the second. */
  lemma LnBecomesLog10(p: string, r: string)
    requires EndsAtBoundary(p)
    ensures NormalizeNames(p + Ln + r) == NormalizeNames(p) + Log10 + NormalizeNames(r)
  {
    calc {
      NormalizeNames(p + Ln + r);
      { assert p + Ln + r == p + (Ln + r); }
      NormalizeNames(p + (Ln + r));
      { NormalizeNamesSplit(p, Ln + r); }
      NormalizeNames(p) + NormalizeNames(Ln + r);
      { LnAtStart(r); }
      NormalizeNames(p) + (Log10 + NormalizeNames(r));
      { Regroup(NormalizeNames(p), Log10, NormalizeNames(r)); }
      NormalizeNames(p) + Log10 + NormalizeNames(r);
    }
  }

  /** Consequently, wherever they stand, the natural and the decimal
      logarithm keys produce the same evaluator text. */
  lemma LnAndLogCoincide(p: string, r: string)
    requires EndsAtBoundary(p)
    ensures NormalizeNames(p + Ln + r) == NormalizeNames(p + Log + r)
  {
    LnBecomesLog10(p, r);
    LogBecomesLog10(p, r);
  }

  /** A name glued to preceding word characters (`xln(`, `_log(`, `25ln(`,
      `piln(`) is not a function call to rewrite and is left as it is. */
  lemma GluedNamesUntouched(p: string, w: string, name: string, r: string)
    requires EndsAtBoundary(p)
    requires WordRun(w)
    requires name == Ln || name == Log
    ensures NormalizeNames(p + w + name + r) == NormalizeNames(p) + w + name + NormalizeNames(r)
  {
    var g := w + name + r;
    calc {
      NormalizeNames(p + w + name + r);
      { assert p + w + name + r == p + g; }
      NormalizeNames(p + g);
      { NormalizeNamesSplit(p, g); }
      NormalizeNames(p) + NormalizeNames(g);
      { GluedAtStart(w, name, r); }
      NormalizeNames(p) + (w + name + NormalizeNames(r));
      { ConcatRegroup(NormalizeNames(p), w, name, NormalizeNames(r)); }
      NormalizeNames(p) + w + name + NormalizeNames(r);
    }
  }

  // ----- the corrected order -----

  /** With the steps in the other order, a word-boundary `ln(` passes the
      first step untouched and is then rewritten to the natural `log(`. */
  lemma IntendedLnIsNatural(p: string, r: string)
    requires EndsAtBoundary(p)
    ensures NormalizeNamesIntended(p + Ln + r) == NormalizeNamesIntended(p) + Log + NormalizeNamesIntended(r)
  {
    calc {
      NormalizeNamesIntended(p + Ln + r);
      { assert p + Ln + r == p + (Ln + r); }
      NormalizeNamesIntended(p + (Ln + r));
      { NormalizeNamesIntendedSplit(p, Ln + r); }
      NormalizeNamesIntended(p) + NormalizeNamesIntended(Ln + r);
      { IntendedLnAtStart(r); }
      NormalizeNamesIntended(p) + (Log + NormalizeNamesIntended(r));
      { Regroup(NormalizeNamesIntended(p), Log, NormalizeNamesIntended(r)); }
      NormalizeNamesIntended(p) + Log + NormalizeNamesIntended(r);
    }
  }

  /** With the steps in the other order, a word-boundary `log(` becomes
      `log10(`, which the second step leaves alone. */
  lemma IntendedLogIsDecimal(p: string, r: string)
    requires EndsAtBoundary(p)
    ensures NormalizeNamesIntended(p + Log + r) == NormalizeNamesIntended(p) + Log10 + NormalizeNamesIntended(r)
  {
    calc {
      NormalizeNamesIntended(p + Log + r);
      { assert p + Log + r == p + (Log + r); }
      NormalizeNamesIntended(p + (Log + r));
      { NormalizeNamesIntendedSplit(p, Log + r); }
      NormalizeNamesIntended(p) + NormalizeNamesIntended(Log + r);
      { IntendedLogAtStart(r); }
      NormalizeNamesIntended(p) + (Log10 + NormalizeNamesIntended(r));
      { Regroup(NormalizeNamesIntended(p), Log10, NormalizeNamesIntended(r)); }
      NormalizeNamesIntended(p) + Log10 + NormalizeNamesIntended(r);
    }
  }

  /** With the steps in the other order the natural and the decimal
      logarithm keys stay distinct wherever they stand. */
  lemma IntendedKeepsLogsApart(p: string, r: string)
    requires EndsAtBoundary(p)
    ensures NormalizeNamesIntended(p + Ln + r) != NormalizeNamesIntended(p + Log + r)
  {
    IntendedLnIsNatural(p, r);
    IntendedLogIsDecimal(p, r);
    var n := |NormalizeNamesIntended(p)|;
    assert (NormalizeNamesIntended(p) + Log + NormalizeNamesIntended(r))[n + 3] == '(';
    assert (NormalizeNamesIntended(p) + Log10 + NormalizeNamesIntended(r))[n + 3] == '1';
  }
}
