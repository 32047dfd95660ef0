/** The two header patterns of Data/preprocessing.py, as recognisers written out by
    hand: `HDR_SAMELINE_RE` ("Header: content" on one line) and
    `HDR_STANDALONE_RE` ("Header" alone on its line). A header is a letter,
    then characters of `[A-Za-z0-9 /-]` (the token), optionally followed by `:` and
    a qualifier of `[A-Za-z0-9_-]+`. */
module HeaderGrammar {
  import opened Wrappers
  import opened Text

  /** `[A-Za-z0-9 /-]` */
  predicate IsTokenChar(c: char) { IsLetter(c) || IsDigit(c) || c == ' ' || c == '/' || c == '-' }
  predicate NotTokenChar(c: char) { !IsTokenChar(c) }

  /** `[A-Za-z0-9_-]` */
  predicate IsQualChar(c: char) { IsLetter(c) || IsDigit(c) || c == '_' || c == '-' }
  predicate NotQualChar(c: char) { !IsQualChar(c) }

  /** `[A-Za-z][A-Za-z0-9 /-]*` */
  predicate IsToken(t: string) { |t| > 0 && IsLetter(t[0]) && NoneSep(t, NotTokenChar) }

  /** `[A-Za-z0-9_-]+` */
  predicate IsQualifier(q: string) { |q| > 0 && NoneSep(q, NotQualChar) }

  /** The language of the header group: a token, or a token, `:` and a qualifier.
      Neither part can hold a colon, so the colon, if any, is the first one. */
  predicate HeaderShaped(h: string) {
    IsToken(h) || (':' in h && IsToken(h[..IndexOf(h, ':')]) && IsQualifier(h[IndexOf(h, ':') + 1..]))
  }

  /** `\s*:` at the start of `x`: what follows the colon, if the pattern matches. */
  function ColonAfterSpaces(x: string): Option<string> {
    var y := TrimStart(x, IsSpace);
    if y != [] && y[0] == ':' then Some(y[1..]) else None
  }

  /** `:[A-Za-z0-9_-]+\s*:` at the start of `after`, the qualifier taken as long as
      possible: the qualifier and what follows the second colon. */
  function QualifiedTail(after: string): Option<(string, string)> {
    if after != [] && after[0] == ':' then
      var q := TakeWord(after[1..], NotQualChar);
      if q == [] then None
      else match ColonAfterSpaces(after[1 + |q|..])
        case Some(x) => Some((q, x))
        case None => None
    else None
  }

  /** One `HDR_SAMELINE_RE` match: the header and the content, both stripped. */
  datatype SameLineMatch = SameLineMatch(header: string, rest: string)

  /** `HDR_SAMELINE_RE.match(s)`. The lazy token grows one character at a time and,
      at each length, the qualifier is tried before the bare colon. Only when the
      token has reached its longest run `tok` can a qualifier follow, and then only
      if `tok` does not end with a space (a shorter token followed by spaces and a
      colon would have matched first). Otherwise the header is `tok` without its
      trailing spaces, provided spaces and a colon follow. */
  function SameLine(s: string): Option<SameLineMatch> {
    var t := TrimStart(s, IsSpace);
    if t == [] || !IsLetter(t[0]) then None
    else
      var tok := TakeWord(t, NotTokenChar);
      MatchAfterToken(tok, t[|tok|..])
  }

  /** The rest of `HDR_SAMELINE_RE` once the longest token run `tok` is known and
      `after` is what follows it. */
  function MatchAfterToken(tok: string, after: string): Option<SameLineMatch> {
    if tok != [] && tok[|tok| - 1] != ' ' && QualifiedTail(after).Some? then
      var qt := QualifiedTail(after).value;
      Some(SameLineMatch(tok + ":" + qt.0, Strip(qt.1, IsSpace)))
    else
      match ColonAfterSpaces(after)
      case Some(x) => Some(SameLineMatch(TrimEnd(tok, IsSpace), Strip(x, IsSpace)))
      case None => None
  }

  /** `HDR_STANDALONE_RE.match(s)`: the whole stripped line must be header-shaped,
      and the group is that stripped line. */
  function Standalone(s: string): Option<string> {
    var t := Strip(s, IsSpace);
    if HeaderShaped(t) then Some(t) else None
  }

  // ---------------------------------------------------------------------
  // Helper facts
  // ---------------------------------------------------------------------

  lemma TrimStartNoLead(s: string, sep: char -> bool)
    requires s == [] || !sep(s[0])
    ensures TrimStart(s, sep) == s
  {
  }

  lemma {:induction false} TakeWordAppend(a: string, b: string, sep: char -> bool)
    requires NoneSep(a, sep)
    ensures TakeWord(a + b, sep) == a + TakeWord(b, sep)
  {
    if a != [] {
      assert (a + b)[0] == a[0] && !sep(a[0]);
      assert (a + b)[1..] == a[1..] + b;
      assert NoneSep(a[1..], sep) by {
        forall i | 0 <= i < |a[1..]| ensures !sep(a[1..][i]) {
          assert a[1..][i] == a[i + 1];
        }
      }
      TakeWordAppend(a[1..], b, sep);
    } else {
      assert a + b == b;
    }
  }

  lemma {:induction false} TakeWordStopsAt(s: string, k: nat, sep: char -> bool)
    requires k < |s| && sep(s[k])
    ensures |TakeWord(s, sep)| <= k
  {
    if k > 0 && !sep(s[0]) {
      TakeWordStopsAt(s[1..], k - 1, sep);
    }
  }

  lemma TakeWordAtSep(b: string, sep: char -> bool)
    requires b != [] && sep(b[0])
    ensures TakeWord(b, sep) == []
  {
  }

  /** The longest token run of a line that starts with a letter is not empty. */
  lemma TokenRunNonEmpty(t: string)
    requires t != [] && IsLetter(t[0])
    ensures TakeWord(t, NotTokenChar) != []
    ensures IsToken(TakeWord(t, NotTokenChar))
  {
    var w := TakeWord(t, NotTokenChar);
    assert w[0] == t[0];
  }

  lemma IndexOfAt(a: string, b: string)
    requires ':' !in a && b != [] && b[0] == ':'
    ensures ':' in a + b && IndexOf(a + b, ':') == |a|
  {
    var s := a + b;
    assert s[|a|] == ':';
    var i := IndexOf(s, ':');
  }

  lemma TokenHasNoColon(t: string)
    requires NoneSep(t, NotTokenChar)
    ensures ':' !in t
  {
  }

  // ---------------------------------------------------------------------
  // Soundness and completeness of the same-line recogniser
  // ---------------------------------------------------------------------

  lemma QualifiedTailParts(after: string, q: string, x: string)
    requires QualifiedTail(after) == Some((q, x))
    ensures IsQualifier(q) && 1 + |q| <= |after| && after[..1 + |q|] == ":" + q
    ensures ColonAfterSpaces(after[1 + |q|..]) == Some(x)
  {
    var rest := after[1..];
    assert after[0] == ':';
    QualifierRun(rest, q);
    PrefixAfterHead(after, q);
  }

  lemma QualifierRun(rest: string, q: string)
    ensures q == TakeWord(rest, NotQualChar) && q != [] ==> IsQualifier(q) && |q| <= |rest| && rest[..|q|] == q
  {
  }

  lemma PrefixAfterHead<T>(s: seq<T>, p: seq<T>)
    requires s != [] && |p| <= |s[1..]| && s[1..][..|p|] == p
    ensures 1 + |p| <= |s| && s[..1 + |p|] == [s[0]] + p
  {
    assert s[..1 + |p|] == [s[0]] + s[1..][..|p|];
  }

  lemma ShapedQualified(tok: string, q: string)
    requires IsToken(tok) && IsQualifier(q)
    ensures HeaderShaped(tok + ":" + q) && NoEdge(tok + ":" + q, IsSpace)
  {
    var h := tok + ":" + q;
    QualifiedHeaderParts(tok, q);
    TokenHasNoColon(tok);
    IndexOfAt(tok, ":" + q);
    assert ':' in h && IndexOf(h, ':') == |tok|;
    assert IsToken(h[..IndexOf(h, ':')]) && IsQualifier(h[IndexOf(h, ':') + 1..]);
    assert !NotQualChar(q[|q| - 1]);
    assert !IsSpace(h[0]) && !IsSpace(h[|h| - 1]);
  }

  /** The pieces of `tok + ":" + q`. */
  lemma QualifiedHeaderParts(tok: string, q: string)
    requires tok != [] && q != []
    ensures var h := tok + ":" + q;
      h == tok + (":" + q) && h[..|tok|] == tok && h[|tok| + 1..] == q
      && h[0] == tok[0] && h[|h| - 1] == q[|q| - 1]
  {
    var h := tok + ":" + q;
    Assoc(tok, ":", q);
    SplitAt(tok, ":" + q);
    DropInto(h, tok, ":" + q, 1, |tok| + 1);
    SplitAt(":", q);
  }

  lemma QualifiedPrefix(t: string, tok: string, after: string, q: string)
    requires t == tok + after && 1 + |q| <= |after| && after[..1 + |q|] == ":" + q
    ensures t == (tok + ":" + q) + after[1 + |q|..]
  {
    Rejoin(after, 1 + |q|);
    Assoc(tok, ":", q);
    Assoc(tok, ":" + q, after[1 + |q|..]);
  }

  lemma SameLineSoundQualified(t: string, tok: string, after: string, q: string, x: string)
    requires IsToken(tok) && t == tok + after
    requires QualifiedTail(after) == Some((q, x))
    ensures var h := tok + ":" + q;
      HeaderShaped(h) && NoEdge(h, IsSpace) && |h| <= |t| && t[..|h|] == h
      && ColonAfterSpaces(t[|h|..]) == Some(x)
  {
    var h := tok + ":" + q;
    QualifiedTailParts(after, q, x);
    ShapedQualified(tok, q);
    QualifiedPrefix(t, tok, after, q);
    SplitAt(h, after[1 + |q|..]);
  }

  lemma SameLineSoundPlain(t: string, tok: string, after: string, x: string)
    requires IsToken(tok) && t == tok + after
    requires ColonAfterSpaces(after) == Some(x)
    ensures var h := TrimEnd(tok, IsSpace);
      HeaderShaped(h) && NoEdge(h, IsSpace) && |h| <= |t| && t[..|h|] == h
      && ColonAfterSpaces(t[|h|..]) == Some(x)
  {
    var h := TrimEnd(tok, IsSpace);
    assert h[0] == tok[0];
    assert IsToken(h) by {
      forall i | 0 <= i < |h| ensures !NotTokenChar(h[i]) {
        assert h[i] == tok[i];
      }
    }
    Rejoin(tok, |h|);
    Assoc(h, tok[|h|..], after);
    SplitAt(h, tok[|h|..] + after);
    TrimStartOfSeps(tok[|h|..], after, IsSpace);
  }

  /** Soundness: a same-line match reports a header-shaped, space-free-edged prefix
      of the line (after its leading whitespace), followed by optional whitespace and
      a colon, and the content is the rest of the line stripped. */
  lemma SameLineSound(s: string)
    requires SameLine(s).Some?
    ensures var m := SameLine(s).value; var t := TrimStart(s, IsSpace);
      HeaderShaped(m.header) && NoEdge(m.header, IsSpace)
      && |m.header| <= |t| && t[..|m.header|] == m.header
      && ColonAfterSpaces(t[|m.header|..]).Some?
      && m.rest == Strip(ColonAfterSpaces(t[|m.header|..]).value, IsSpace)
  {
    var t := TrimStart(s, IsSpace);
    TokenRunNonEmpty(t);
    var tok := TakeWord(t, NotTokenChar);
    Rejoin(t, |tok|);
    MatchSound(t, tok, t[|tok|..]);
  }

  lemma MatchSound(t: string, tok: string, after: string)
    ensures IsToken(tok) && t == tok + after && MatchAfterToken(tok, after).Some? ==>
      var m := MatchAfterToken(tok, after).value;
      HeaderShaped(m.header) && NoEdge(m.header, IsSpace)
      && |m.header| <= |t| && t[..|m.header|] == m.header
      && ColonAfterSpaces(t[|m.header|..]).Some?
      && m.rest == Strip(ColonAfterSpaces(t[|m.header|..]).value, IsSpace)
  {
    if IsToken(tok) && t == tok + after && MatchAfterToken(tok, after).Some? {
      if tok[|tok| - 1] != ' ' && QualifiedTail(after).Some? {
        var qt := QualifiedTail(after).value;
        SameLineSoundQualified(t, tok, after, qt.0, qt.1);
      } else {
        SameLineSoundPlain(t, tok, after, ColonAfterSpaces(after).value);
      }
    }
  }

  lemma PlainColonFound(w: string, x: string)
    requires AllSep(w, IsSpace)
    ensures ColonAfterSpaces(w + ":" + x) == Some(x)
  {
    Assoc(w, ":", x);
    TrimStartOfSeps(w, ":" + x, IsSpace);
    TrimStartNoLead(":" + x, IsSpace);
  }

  /** The longest token run of `w + ":" + x`, for whitespace `w`, stays inside `w`
      and only whitespace and the colon follow it. */
  lemma SpacesThenColon(w: string, x: string)
    requires AllSep(w, IsSpace)
    ensures var tail := w + ":" + x; var u := TakeWord(tail, NotTokenChar);
      |u| <= |w| && ColonAfterSpaces(tail[|u|..]) == Some(x)
  {
    var tail := w + ":" + x;
    var u := TakeWord(tail, NotTokenChar);
    assert |u| <= |w| by {
      TakeWordStopsAt(tail, |w|, NotTokenChar);
    }
    Assoc(w, ":", x);
    DropBefore(w, ":" + x, |u|);
    Assoc(w[|u|..], ":", x);
    assert AllSep(w[|u|..], IsSpace) by {
      forall i | 0 <= i < |w[|u|..]| ensures IsSpace(w[|u|..][i]) {
        assert w[|u|..][i] == w[|u| + i];
      }
    }
    PlainColonFound(w[|u|..], x);
  }

  /** After the longest token run of `h + tail`, where `tail` is whitespace, a colon
      and `x`, only whitespace and the colon remain before `x`. */
  lemma TokenRunThenColon(h: string, w: string, x: string, s: string)
    requires IsToken(h) && AllSep(w, IsSpace) && s == h + (w + ":" + x)
    ensures ColonAfterSpaces(s[|TakeWord(s, NotTokenChar)|..]) == Some(x)
  {
    var tail := w + ":" + x;
    var u := TakeWord(tail, NotTokenChar);
    TakeWordAppend(h, tail, NotTokenChar);
    SpacesThenColon(w, x);
    DropInto(s, h, tail, |u|, |TakeWord(s, NotTokenChar)|);
  }

  /** The same-line pattern matches whenever the line starts with a letter and its
      longest token run is followed by optional whitespace and a colon. */
  lemma SameLineWhenColonFollows(s: string)
    requires s != [] && IsLetter(s[0])
    requires ColonAfterSpaces(s[|TakeWord(s, NotTokenChar)|..]).Some?
    ensures SameLine(s).Some?
  {
    TrimStartNoLead(s, IsSpace);
    ColonMakesMatch(TakeWord(s, NotTokenChar), s[|TakeWord(s, NotTokenChar)|..]);
  }

  lemma ColonMakesMatch(tok: string, after: string)
    ensures ColonAfterSpaces(after).Some? ==> MatchAfterToken(tok, after).Some?
  {
  }

  /** With a qualified header `head + ":" + q`, the longest token run is `head`
      and a colon follows it at once. */
  lemma QualifiedRunThenColon(h: string, w: string, x: string, s: string)
    requires !IsToken(h) && HeaderShaped(h) && s == h + w + ":" + x
    ensures ColonAfterSpaces(s[|TakeWord(s, NotTokenChar)|..]).Some?
  {
    var head, tail := QualifiedSplit(h);
    RunThenColonAt(head, tail, w, x, s);
  }

  /** A qualified header is a token followed by the rest, which starts with the colon. */
  lemma QualifiedSplit(h: string) returns (head: string, tail: string)
    requires !IsToken(h) && HeaderShaped(h)
    ensures h == head + tail && NoneSep(head, NotTokenChar) && tail != [] && tail[0] == ':'
  {
    var p := IndexOf(h, ':');
    head, tail := h[..p], h[p..];
    Rejoin(h, p);
  }

  lemma RunThenColonAt(head: string, tail: string, w: string, x: string, s: string)
    requires NoneSep(head, NotTokenChar) && tail != [] && tail[0] == ':'
    requires s == (head + tail) + w + ":" + x
    ensures ColonAfterSpaces(s[|TakeWord(s, NotTokenChar)|..]).Some?
  {
    var rest := tail + w + ":" + x;
    RegroupAfterHead(head, tail, w, x);
    SplitAt(head, rest);
    TakeWordAppend(head, rest, NotTokenChar);
    TakeWordAtSep(rest, NotTokenChar);
    TrimStartNoLead(rest, IsSpace);
  }

  lemma RegroupAfterHead(head: string, tail: string, w: string, x: string)
    requires tail != []
    ensures (head + tail) + w + ":" + x == head + (tail + w + ":" + x)
    ensures (tail + w + ":" + x)[0] == tail[0]
  {
    Assoc(head, tail, w);
    Assoc(head, tail + w, ":");
    Assoc(head, tail + w + ":", x);
  }

  /** Completeness: every line made of a header-shaped prefix, optional whitespace,
      a colon and anything at all is matched by the same-line pattern. */
  lemma SameLineComplete(h: string, w: string, x: string)
    requires HeaderShaped(h) && AllSep(w, IsSpace)
    ensures SameLine(h + w + ":" + x).Some?
  {
    var s := h + w + ":" + x;
    assert s[0] == h[0];
    if IsToken(h) {
      assert s == h + (w + ":" + x);
      TokenRunThenColon(h, w, x, s);
    } else {
      QualifiedRunThenColon(h, w, x, s);
    }
    SameLineWhenColonFollows(s);
  }

  /** A header-shaped line with a colon is always taken by the same-line pattern
      first, so a standalone header that reaches the next-line check never holds a
      colon. */
  lemma StandaloneWithColonIsSameLine(s: string)
    requires HeaderShaped(s) && ':' in s
    ensures SameLine(s).Some?
  {
    var p := IndexOf(s, ':');
    var head := s[..p];
    var q := s[p + 1..];
    assert s == head + [] + ":" + q;
    assert IsToken(head) by {
      if IsToken(s) {
        TokenHasNoColon(s);
      }
    }
    SameLineComplete(head, [], q);
  }

  lemma StripStartsLikeTrimStart(s: string)
    requires TrimStart(s, IsSpace) != []
    ensures Strip(s, IsSpace) != [] && Strip(s, IsSpace)[0] == TrimStart(s, IsSpace)[0]
  {
    TrimEndKeepsHead(TrimStart(s, IsSpace), IsSpace);
  }

  lemma TrimEndKeepsHead(t: string, sep: char -> bool)
    requires t != [] && !sep(t[0])
    ensures TrimEnd(t, sep) != [] && TrimEnd(t, sep)[0] == t[0]
  {
  }

  /** Nothing that starts with a colon is header-shaped. */
  lemma ColonFirstNotShaped(t: string)
    requires t != [] && t[0] == ':'
    ensures !HeaderShaped(t)
  {
    if ':' in t {
      assert IndexOf(t, ':') == 0;
      assert !IsToken(t[..0]);
    }
  }

  /** A line whose first non-blank character is a colon matches neither pattern. */
  lemma ColonLineIsNoHeader(s: string)
    requires TrimStart(s, IsSpace) != [] && TrimStart(s, IsSpace)[0] == ':'
    ensures SameLine(s).None? && Standalone(s).None?
  {
    assert !IsLetter(':');
    NoLetterNoSameLine(s);
    StripStartsLikeTrimStart(s);
    ColonFirstNotShaped(Strip(s, IsSpace));
    UnshapedNoStandalone(s);
  }

  lemma NoLetterNoSameLine(s: string)
    ensures TrimStart(s, IsSpace) != [] && !IsLetter(TrimStart(s, IsSpace)[0]) ==> SameLine(s).None?
  {
  }

  lemma UnshapedNoStandalone(s: string)
    ensures !HeaderShaped(Strip(s, IsSpace)) ==> Standalone(s).None?
  {
  }

  /** On a line that starts with a letter, the same-line pattern is decided by the
      longest token run and what follows it. */
  lemma SameLineStartsWithLetter(s: string)
    ensures s != [] && IsLetter(s[0]) ==>
      SameLine(s) == MatchAfterToken(TakeWord(s, NotTokenChar), s[|TakeWord(s, NotTokenChar)|..])
  {
    if s != [] && IsLetter(s[0]) {
      TrimStartNoLead(s, IsSpace);
    }
  }

  lemma QualifiedMatch(tok: string, after: string, q: string, x: string)
    ensures tok != [] && tok[|tok| - 1] != ' ' && QualifiedTail(after) == Some((q, x)) ==>
      MatchAfterToken(tok, after) == Some(SameLineMatch(tok + ":" + q, Strip(x, IsSpace)))
  {
  }

  lemma PlainMatch(tok: string, after: string, x: string)
    ensures tok != [] && tok[|tok| - 1] == ' ' && ColonAfterSpaces(after) == Some(x) ==>
      MatchAfterToken(tok, after) == Some(SameLineMatch(TrimEnd(tok, IsSpace), Strip(x, IsSpace)))
  {
  }

  /** The header and content the same-line pattern reports when a qualifier is taken. */
  lemma SameLineQualifiedCase(s: string, tok: string, q: string, x: string)
    requires s != [] && IsLetter(s[0])
    requires tok == TakeWord(s, NotTokenChar) && tok != [] && tok[|tok| - 1] != ' '
    requires QualifiedTail(s[|tok|..]) == Some((q, x))
    ensures SameLine(s) == Some(SameLineMatch(tok + ":" + q, Strip(x, IsSpace)))
  {
    SameLineStartsWithLetter(s);
    QualifiedMatch(tok, s[|tok|..], q, x);
  }

  /** The header and content the same-line pattern reports when no qualifier is taken. */
  lemma SameLinePlainCase(s: string, tok: string, x: string)
    requires s != [] && IsLetter(s[0])
    requires tok == TakeWord(s, NotTokenChar) && tok != [] && tok[|tok| - 1] == ' '
    requires ColonAfterSpaces(s[|tok|..]) == Some(x)
    ensures SameLine(s) == Some(SameLineMatch(TrimEnd(tok, IsSpace), Strip(x, IsSpace)))
  {
    SameLineStartsWithLetter(s);
    PlainMatch(tok, s[|tok|..], x);
  }

  lemma ColonFirst(y: string)
    ensures ColonAfterSpaces(":" + y) == Some(y)
  {
    TrimStartNoLead(":" + y, IsSpace);
    SplitAt(":", y);
  }

  /** The longest token run of `tok + rest` is `tok` when `rest` starts outside the
      token class. */
  lemma TokenThenRest(tok: string, rest: string)
    requires IsToken(tok) && rest != [] && NotTokenChar(rest[0])
    ensures var s := tok + rest;
      s != [] && IsLetter(s[0]) && TakeWord(s, NotTokenChar) == tok && s[|tok|..] == rest
  {
    TakeWordOfJoin(tok, rest, NotTokenChar);
    assert (tok + rest)[0] == tok[0];
  }

  lemma QualifiedTailOf(q: string, w: string, x: string)
    requires IsQualifier(q) && AllSep(w, IsSpace)
    ensures QualifiedTail(":" + (q + (w + ":" + x))) == Some((q, x))
  {
    var tail := w + ":" + x;
    ColonQualSlices(q, tail);
    QualRunStops(q, w, x);
    PlainColonFound(w, x);
  }

  lemma ColonQualSlices(q: string, tail: string)
    ensures (":" + (q + tail))[1..] == q + tail && (":" + (q + tail))[1 + |q|..] == tail
  {
    SplitAt(":", q + tail);
    DropInto(":" + (q + tail), ":", q + tail, |q|, 1 + |q|);
  }

  lemma QualRunStops(q: string, w: string, x: string)
    requires IsQualifier(q) && AllSep(w, IsSpace)
    ensures TakeWord(q + (w + ":" + x), NotQualChar) == q
  {
    var tail := w + ":" + x;
    assert tail[0] == if w == [] then ':' else w[0];
    TakeWordOfJoin(q, tail, NotQualChar);
  }

  /** The qualifier is preferred: after a token that does not end with a space,
      `:qualifier` followed by whitespace and a second colon makes the qualifier
      part of the header, although the bare token is followed by a colon as well
      (so "Mech:abc: x" yields the header "Mech:abc" and the content "x"). */
  lemma QualifierPreferred(tok: string, q: string, w: string, x: string)
    requires IsToken(tok) && tok[|tok| - 1] != ' ' && IsQualifier(q) && AllSep(w, IsSpace)
    ensures SameLine(tok + ":" + q + w + ":" + x) == Some(SameLineMatch(tok + ":" + q, Strip(x, IsSpace)))
  {
    var rest := ":" + (q + (w + ":" + x));
    QualifiedLineParts(tok, q, w, x);
    TokenThenRest(tok, rest);
    QualifiedTailOf(q, w, x);
    SameLineStartsWithLetter(tok + rest);
    QualifiedMatch(tok, rest, q, x);
  }

  lemma QualifiedLineParts(tok: string, q: string, w: string, x: string)
    ensures tok + ":" + q + w + ":" + x == tok + (":" + (q + (w + ":" + x)))
  {
    Assoc(tok, ":", q);
    Assoc(tok + ":" + q, w, ":");
    Assoc(tok + ":" + q, w + ":", x);
    Assoc(tok, ":" + q, w + ":" + x);
    Assoc(":", q, w + ":" + x);
  }

  /** A token that ends with a space takes no qualifier: the header is the token
      without its trailing spaces, and everything after the first colon is the
      content (so "Mech :abc: x" yields the header "Mech" and the content "abc: x"). */
  lemma SpaceBlocksQualifier(tok: string, y: string)
    requires IsToken(tok) && tok[|tok| - 1] == ' '
    ensures SameLine(tok + ":" + y) == Some(SameLineMatch(TrimEnd(tok, IsSpace), Strip(y, IsSpace)))
  {
    Assoc(tok, ":", y);
    TokenThenRest(tok, ":" + y);
    ColonFirst(y);
    SameLineStartsWithLetter(tok + (":" + y));
    PlainMatch(tok, ":" + y, y);
  }

  lemma TrimEndNoTrail(s: string, sep: char -> bool)
    requires s == [] || !sep(s[|s| - 1])
    ensures TrimEnd(s, sep) == s
  {
  }
}
