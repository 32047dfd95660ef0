/** `norm_ws` of the APD scraper (Data/parser_AMP6_DB.py): every non-breaking
    space becomes a space, every run of horizontal whitespace becomes one
    space, every run of three or more line breaks becomes two, and whitespace
    is stripped at both ends. */
module Whitespace {
  import opened Text

  /** The class `[ \t\r\f\v]`. */
  predicate IsHSpace(c: char) {
    c == ' ' || c == '\t' || c == '\r' || c == '\U{0C}' || c == '\U{0B}'
  }

  /** `s.replace("\xa0", " ")`. */
  function NbspToSpace(s: string): string {
    ReplaceChar(s, '\U{A0}', ' ')
  }

  /** `re.sub(r"\n{3,}", "\n\n", s)`: a line break that starts a run of three
      is dropped, so every longer run shrinks to two. */
  function CapBreaks(s: string): (r: string)
    ensures |r| <= |s|
    ensures s != [] ==> |r| > 0 && r[0] == s[0] && r[|r| - 1] == s[|s| - 1]
    ensures |s| >= 2 ==> |r| >= 2 && r[1] == s[1]
    decreases |s|
  {
    if |s| >= 3 && s[0] == '\n' && s[1] == '\n' && s[2] == '\n' then CapBreaks(s[1..])
    else if s == [] then []
    else [s[0]] + CapBreaks(s[1..])
  }

  /** `norm_ws`. */
  function NormWs(s: string): string {
    Strip(CapBreaks(Collapse(NbspToSpace(s), IsHSpace, ' ')), IsSpace)
  }

  /** Three line breaks start at position `i` of `s`. */
  predicate TripleAt(s: string, i: nat)
    requires i + 3 <= |s|
  {
    s[i] == '\n' && s[i + 1] == '\n' && s[i + 2] == '\n'
  }

  /** No three line breaks in a row. */
  predicate NoTripleBreak(s: string) {
    forall i: nat :: i + 3 <= |s| ==> !TripleAt(s, i)
  }

  /** What `norm_ws` promises of its result: no non-breaking space, horizontal
      whitespace only as single spaces, at most two line breaks in a row, and
      no whitespace at either end. */
  predicate Normal(s: string) {
    Tidy(s) && NoEdge(s, IsSpace)
  }

  /** The inner shape of a normal string, whatever its ends. */
  predicate Tidy(s: string) {
    '\U{A0}' !in s && OnlyAs(s, IsHSpace, ' ') && NoAdjacent(s, IsHSpace) && NoTripleBreak(s)
  }

  /** `n` line breaks. */
  function Breaks(n: nat): (r: string)
    ensures |r| == n && forall i :: 0 <= i < n ==> r[i] == '\n'
  {
    if n == 0 then [] else "\n" + Breaks(n - 1)
  }

  // ---------------------------------------------------------------------
  // CapBreaks
  // ---------------------------------------------------------------------

  /** A line break followed by two more is dropped. */
  lemma CapBreaksDrop(x: string)
    requires |x| >= 2 && x[0] == '\n' && x[1] == '\n'
    ensures CapBreaks("\n" + x) == CapBreaks(x)
  {
    assert ("\n" + x)[1..] == x;
  }

  /** Any other character is kept. */
  lemma CapBreaksKeep(c: char, x: string)
    requires !(c == '\n' && |x| >= 2 && x[0] == '\n' && x[1] == '\n')
    ensures CapBreaks([c] + x) == [c] + CapBreaks(x)
  {
    assert ([c] + x)[1..] == x;
  }

  /** A single line break before a non-break is kept. */
  lemma CapBreaksOne(t: string)
    requires t == [] || t[0] != '\n'
    ensures CapBreaks("\n" + t) == "\n" + CapBreaks(t)
  {
    CapBreaksKeep('\n', t);
  }

  /** Two line breaks before a non-break are both kept. */
  lemma CapBreaksTwo(t: string)
    requires t == [] || t[0] != '\n'
    ensures CapBreaks("\n" + ("\n" + t)) == "\n" + ("\n" + CapBreaks(t))
  {
    var x := "\n" + t;
    assert |x| >= 2 ==> x[1] == t[0];
    CapBreaksKeep('\n', x);
    CapBreaksOne(t);
  }

  /** A run of line breaks before `t` is one line break before a shorter run. */
  lemma BreaksFront(n: nat, t: string)
    requires n > 0
    ensures Breaks(n) + t == "\n" + (Breaks(n - 1) + t)
  {
    Assoc("\n", Breaks(n - 1), t);
  }

  /** In a run of three or more line breaks the first one is dropped. */
  lemma CapBreaksLongRun(n: nat, t: string)
    requires n >= 3
    ensures CapBreaks(Breaks(n) + t) == CapBreaks(Breaks(n - 1) + t)
  {
    BreaksFront(n, t);
    BreaksFront(n - 1, t);
    BreaksFront(n - 2, t);
    CapBreaksDrop(Breaks(n - 1) + t);
  }

  lemma CapBreaksTwoRun(t: string)
    requires t == [] || t[0] != '\n'
    ensures CapBreaks(Breaks(2) + t) == Breaks(2) + CapBreaks(t)
  {
    BreaksFront(2, t);
    BreaksFront(1, t);
    BreaksFront(2, CapBreaks(t));
    BreaksFront(1, CapBreaks(t));
    assert Breaks(0) + t == t;
    assert Breaks(0) + CapBreaks(t) == CapBreaks(t);
    CapBreaksTwo(t);
  }

  lemma CapBreaksOneRun(t: string)
    requires t == [] || t[0] != '\n'
    ensures CapBreaks(Breaks(1) + t) == Breaks(1) + CapBreaks(t)
  {
    BreaksFront(1, t);
    BreaksFront(1, CapBreaks(t));
    assert Breaks(0) + t == t;
    assert Breaks(0) + CapBreaks(t) == CapBreaks(t);
    CapBreaksOne(t);
  }

  /** A maximal run of `n` line breaks keeps `min(n, 2)` of them: the regular
      expression's own reading of `CapBreaks`. */
  lemma {:induction false} CapBreaksRun(n: nat, t: string)
    requires t == [] || t[0] != '\n'
    ensures CapBreaks(Breaks(n) + t) == Breaks(if n < 2 then n else 2) + CapBreaks(t)
    decreases n
  {
    if n >= 3 {
      CapBreaksLongRun(n, t);
      CapBreaksRun(n - 1, t);
    } else if n == 2 {
      CapBreaksTwoRun(t);
    } else if n == 1 {
      CapBreaksOneRun(t);
    } else {
      assert Breaks(n) + t == t;
    }
  }

  lemma {:induction false} CapBreaksNoTriple(s: string)
    ensures NoTripleBreak(CapBreaks(s))
    decreases |s|
  {
    if |s| >= 3 && s[0] == '\n' && s[1] == '\n' && s[2] == '\n' {
      CapBreaksNoTriple(s[1..]);
    } else if s != [] {
      var t := CapBreaks(s[1..]);
      CapBreaksNoTriple(s[1..]);
      var r := [s[0]] + t;
      forall i: nat | i + 3 <= |r| ensures !TripleAt(r, i) {
        if i == 0 {
          assert r[1] == s[1] && r[2] == s[2];
        } else {
          assert !TripleAt(t, i - 1);
          assert r[i] == t[i - 1] && r[i + 1] == t[i] && r[i + 2] == t[i + 1];
        }
      }
    }
  }

  /** Dropping line breaks from inside runs never brings two separators together. */
  lemma {:induction false} CapBreaksKeepsClass(s: string, sep: char -> bool, c: char)
    requires NoAdjacent(s, sep) && OnlyAs(s, sep, c)
    ensures NoAdjacent(CapBreaks(s), sep) && OnlyAs(CapBreaks(s), sep, c)
    decreases |s|
  {
    if s != [] {
      SliceKeepsClass(s, 1, |s|, sep, c);
      assert s[1..|s|] == s[1..];
      CapBreaksKeepsClass(s[1..], sep, c);
      if !(|s| >= 3 && s[0] == '\n' && s[1] == '\n' && s[2] == '\n') {
        assert |s| > 1 ==> !SepPair(s, sep, 0);
        ConsShape(s[0], CapBreaks(s[1..]), sep, c);
      }
    }
  }

  lemma {:induction false} CapBreaksChars(s: string, x: char)
    requires x !in s
    ensures x !in CapBreaks(s)
    decreases |s|
  {
    if s != [] {
      CapBreaksChars(s[1..], x);
    }
  }

  lemma {:induction false} CapBreaksFixed(s: string)
    requires NoTripleBreak(s)
    ensures CapBreaks(s) == s
    decreases |s|
  {
    if s != [] {
      assert |s| >= 3 ==> !TripleAt(s, 0);
      var t := s[1..];
      forall i: nat | i + 3 <= |t| ensures !TripleAt(t, i) {
        assert !TripleAt(s, i + 1);
      }
      CapBreaksFixed(s[1..]);
    }
  }

  // ---------------------------------------------------------------------
  // norm_ws
  // ---------------------------------------------------------------------

  lemma SliceNoTriple(s: string, a: nat, b: nat)
    requires a <= b <= |s| && NoTripleBreak(s)
    ensures NoTripleBreak(s[a..b])
  {
    var t := s[a..b];
    forall i: nat | i + 3 <= |t| ensures !TripleAt(t, i) {
      assert !TripleAt(s, a + i);
    }
  }

  /** No non-breaking space survives the first two substitutions. */
  lemma CollapsedHasNoNbsp(s: string, x: string)
    requires x == Collapse(NbspToSpace(s), IsHSpace, ' ')
    ensures '\U{A0}' !in x
  {
    CollapseChars(NbspToSpace(s), IsHSpace, ' ');
  }

  /** The shape of the text before stripping. */
  lemma SubstitutedTidy(s: string, x: string)
    requires x == CapBreaks(Collapse(NbspToSpace(s), IsHSpace, ' '))
    ensures Tidy(x)
  {
    var x2 := Collapse(NbspToSpace(s), IsHSpace, ' ');
    CollapsedHasNoNbsp(s, x2);
    CollapseShape(NbspToSpace(s), IsHSpace, ' ');
    CapBreaksKeepsClass(x2, IsHSpace, ' ');
    CapBreaksChars(x2, '\U{A0}');
    CapBreaksNoTriple(x2);
  }

  /** Any slice of a tidy text is tidy. */
  lemma SliceTidy(x: string, a: nat, b: nat)
    requires a <= b <= |x| && Tidy(x)
    ensures Tidy(x[a..b])
  {
    SliceKeepsClass(x, a, b, IsHSpace, ' ');
    SliceNoTriple(x, a, b);
    assert '\U{A0}' !in x[a..b] by {
      forall i | 0 <= i < b - a ensures x[a..b][i] != '\U{A0}' {
        assert x[a..b][i] == x[a + i];
      }
    }
  }

  /** Stripping a tidy text gives a normal one. */
  lemma StripTidy(x: string, r: string)
    requires Tidy(x) && r == Strip(x, IsSpace)
    ensures Normal(r)
  {
    EdgelessSliceNormal(x, Lead(x, IsSpace), r);
  }

  /** A slice of a tidy text with no whitespace at its ends is normal. */
  lemma EdgelessSliceNormal(x: string, a: nat, r: string)
    requires Tidy(x) && a + |r| <= |x| && r == x[a..a + |r|] && NoEdge(r, IsSpace)
    ensures Normal(r)
  {
    SliceTidy(x, a, a + |r|);
  }

  /** The result of `norm_ws` is in normal form. */
  lemma NormWsNormal(s: string)
    ensures Normal(NormWs(s))
  {
    var x := CapBreaks(Collapse(NbspToSpace(s), IsHSpace, ' '));
    SubstitutedTidy(s, x);
    StripTidy(x, NormWs(s));
  }

  /** A string in normal form is left as it is. */
  lemma NormWsFixes(s: string)
    requires Normal(s)
    ensures NormWs(s) == s
  {
    assert NbspToSpace(s) == s;
    CollapseFixed(s, IsHSpace, ' ');
    CapBreaksFixed(s);
    StripFixed(s, IsSpace);
  }

  /** The fixed points of `norm_ws` are exactly the strings in normal form. */
  lemma NormWsFixedIffNormal(s: string)
    ensures NormWs(s) == s <==> Normal(s)
  {
    NormWsNormal(s);
    if Normal(s) {
      NormWsFixes(s);
    }
  }

  /** `norm_ws` is idempotent. */
  lemma NormWsIdempotent(s: string)
    ensures NormWs(NormWs(s)) == NormWs(s)
  {
    NormWsNormal(s);
    NormWsFixes(NormWs(s));
  }
}
