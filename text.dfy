/** Python string and list operations used by both the scraper and the
    preprocessing step: `str.strip`, `re.sub(r"<class>+", c, s)`, `str.split`,
    `str.join`, `str.lower` (ASCII only) and the length of a prefix slice
    `xs[:k]`.  Stripping and run-collapsing are parametrised by the character
    class they act on, so that `strip()`, `strip("_")`, `\s+`, `[^a-z0-9]+`
    and `[ \t\r\f\v]+` are all instances of one definition. */
module Text {

  /** Python's `str.isspace`, which is also what `\s` matches in a `str` regex. */
  predicate IsSpace(c: char) {
    c == ' ' || ('\t' <= c <= '\r') || ('\U{1C}' <= c <= '\U{1F}')
    || c == '\U{85}' || c == '\U{A0}' || c == '\U{1680}'
    || ('\U{2000}' <= c <= '\U{200A}') || c == '\U{2028}' || c == '\U{2029}'
    || c == '\U{202F}' || c == '\U{205F}' || c == '\U{3000}'
  }

  predicate IsUpper(c: char) { 'A' <= c <= 'Z' }
  predicate IsLower(c: char) { 'a' <= c <= 'z' }
  predicate IsDigit(c: char) { '0' <= c <= '9' }
  predicate IsLetter(c: char) { IsUpper(c) || IsLower(c) }

  function LowerChar(c: char): (r: char)
    ensures !IsUpper(r)
    ensures !IsUpper(c) ==> r == c
    ensures IsSpace(r) == IsSpace(c)
  {
    if IsUpper(c) then (c as int + 32) as char else c
  }

  /** `str.lower()`, restricted to ASCII letters. */
  function Lower(s: string): (r: string)
    ensures |r| == |s|
    ensures forall i :: 0 <= i < |s| ==> r[i] == LowerChar(s[i])
  {
    if s == [] then [] else [LowerChar(s[0])] + Lower(s[1..])
  }

  /** `s.replace(a, b)` for single characters `a` and `b`. */
  function ReplaceChar(s: string, a: char, b: char): (r: string)
    ensures |r| == |s|
    ensures forall i :: 0 <= i < |s| ==> r[i] == if s[i] == a then b else s[i]
  {
    if s == [] then [] else [if s[0] == a then b else s[0]] + ReplaceChar(s[1..], a, b)
  }

  lemma ReplaceCharAppend(x: string, y: string, a: char, b: char)
    ensures ReplaceChar(x + y, a, b) == ReplaceChar(x, a, b) + ReplaceChar(y, a, b)
  {
  }

  /** Every character of `s` matching `sep` is `c`. */
  predicate OnlyAs(s: string, sep: char -> bool, c: char) {
    forall i :: 0 <= i < |s| && sep(s[i]) ==> s[i] == c
  }

  /** The characters at `i` and `i + 1` of `s` both match `sep`. */
  predicate SepPair(s: string, sep: char -> bool, i: nat)
    requires i + 1 < |s|
  {
    sep(s[i]) && sep(s[i + 1])
  }

  /** No two neighbouring characters of `s` both match `sep`. */
  predicate NoAdjacent(s: string, sep: char -> bool) {
    forall i: nat :: i + 1 < |s| ==> !SepPair(s, sep, i)
  }

  /** Neither end of `s` matches `sep`. */
  predicate NoEdge(s: string, sep: char -> bool) {
    s == [] || (!sep(s[0]) && !sep(s[|s| - 1]))
  }

  /** The separators of `s` are single `c` characters between words. */
  predicate Clean(s: string, sep: char -> bool, c: char) {
    NoEdge(s, sep) && NoAdjacent(s, sep) && OnlyAs(s, sep, c)
  }

  /** Every character of `s` is a separator. */
  predicate AllSep(s: string, sep: char -> bool) {
    forall i :: 0 <= i < |s| ==> sep(s[i])
  }

  /** No character of `s` is a separator. */
  predicate NoneSep(s: string, sep: char -> bool) {
    forall i :: 0 <= i < |s| ==> !sep(s[i])
  }

  /** `s.lstrip(chars)`: the longest suffix of `s` not starting with a separator. */
  function TrimStart(s: string, sep: char -> bool): (r: string)
    ensures |r| <= |s| && r == s[|s| - |r|..]
    ensures r == [] || !sep(r[0])
    ensures AllSep(s[..|s| - |r|], sep)
    decreases |s|
  {
    if |s| > 0 && sep(s[0]) then
      var r := TrimStart(s[1..], sep);
      TrimStartStep(s, r, sep);
      r
    else s
  }

  /** `s.rstrip(chars)`: the longest prefix of `s` not ending with a separator. */
  function TrimEnd(s: string, sep: char -> bool): (r: string)
    ensures |r| <= |s| && r == s[..|r|]
    ensures r == [] || !sep(r[|r| - 1])
    ensures AllSep(s[|r|..], sep)
    decreases |s|
  {
    if |s| > 0 && sep(s[|s| - 1]) then
      var r := TrimEnd(s[..|s| - 1], sep);
      TrimEndStep(s, r, sep);
      r
    else s
  }

  lemma TrimStartStep(s: string, r: string, sep: char -> bool)
    requires |s| > 0 && sep(s[0]) && |r| <= |s| - 1
    requires r == s[1..][|s| - 1 - |r|..] && AllSep(s[1..][..|s| - 1 - |r|], sep)
    ensures r == s[|s| - |r|..] && AllSep(s[..|s| - |r|], sep)
  {
    var p := s[..|s| - |r|];
    forall i | 0 <= i < |p| ensures sep(p[i]) {
      if i > 0 {
        assert p[i] == s[1..][..|s| - 1 - |r|][i - 1];
      }
    }
  }

  lemma TrimEndStep(s: string, r: string, sep: char -> bool)
    requires |s| > 0 && sep(s[|s| - 1]) && |r| <= |s| - 1
    requires r == s[..|s| - 1][..|r|] && AllSep(s[..|s| - 1][|r|..], sep)
    ensures r == s[..|r|] && AllSep(s[|r|..], sep)
  {
    var q := s[|r|..];
    forall i | 0 <= i < |q| ensures sep(q[i]) {
      if i < |s| - 1 - |r| {
        assert q[i] == s[..|s| - 1][|r|..][i];
      }
    }
  }

  /** Number of separators `strip` removes at the front. */
  function Lead(s: string, sep: char -> bool): nat {
    |s| - |TrimStart(s, sep)|
  }

  /** `s.strip(chars)`: the slice of `s` left once separators are removed at both ends. */
  function Strip(s: string, sep: char -> bool): (r: string)
    ensures Lead(s, sep) + |r| <= |s| && r == s[Lead(s, sep)..Lead(s, sep) + |r|]
    ensures NoEdge(r, sep)
    ensures AllSep(s[..Lead(s, sep)], sep) && AllSep(s[Lead(s, sep) + |r|..], sep)
  {
    var t := TrimStart(s, sep);
    var r := TrimEnd(t, sep);
    StripSlice(s, t, r, |s| - |t|, sep);
    r
  }

  /** The stripped text is what lies between the separators `lstrip` and
      `rstrip` remove. */
  lemma StripSlice(s: string, t: string, r: string, a: nat, sep: char -> bool)
    requires a <= |s| && t == s[a..] && AllSep(s[..a], sep) && (t == [] || !sep(t[0]))
    requires |r| <= |t| && r == t[..|r|] && AllSep(t[|r|..], sep) && (r == [] || !sep(r[|r| - 1]))
    ensures a + |r| <= |s| && r == s[a..a + |r|] && NoEdge(r, sep) && AllSep(s[a + |r|..], sep)
  {
    assert t[|r|..] == s[a + |r|..];
    if r != [] {
      assert r[0] == t[0];
    }
  }

  /** `re.sub(r"<sep>+", c, s)`: every maximal run of separators becomes one `c`. */
  function Collapse(s: string, sep: char -> bool, c: char): (r: string)
    ensures |r| <= |s|
    decreases |s|
  {
    if s == [] then []
    else if sep(s[0]) then [c] + Collapse(TrimStart(s, sep), sep, c)
    else [s[0]] + Collapse(s[1..], sep, c)
  }

  /** A word: a non-empty run without separators. */
  predicate IsWord(w: string, sep: char -> bool) {
    |w| > 0 && NoneSep(w, sep)
  }

  /** The longest prefix of `s` without separators. */
  function TakeWord(s: string, sep: char -> bool): (w: string)
    ensures |w| <= |s| && w == s[..|w|]
    ensures NoneSep(w, sep)
    ensures |w| == |s| || sep(s[|w|])
  {
    if |s| > 0 && !sep(s[0]) then [s[0]] + TakeWord(s[1..], sep) else []
  }

  /** The maximal separator-free runs of `s`, in order: `s.split()` for `sep == IsSpace`. */
  function Words(s: string, sep: char -> bool): (ws: seq<string>)
    decreases |s|
  {
    var t := TrimStart(s, sep);
    if t == [] then []
    else
      var w := TakeWord(t, sep);
      assert |w| > 0;
      [w] + Words(t[|w|..], sep)
  }

  /** `c.join(ws)`. */
  function Join(ws: seq<string>, c: char): string {
    if |ws| == 0 then []
    else if |ws| == 1 then ws[0]
    else ws[0] + [c] + Join(ws[1..], c)
  }

  function IndexOf(s: string, d: char): (i: nat)
    requires d in s
    ensures i < |s| && s[i] == d && d !in s[..i]
  {
    if s[0] == d then 0 else 1 + IndexOf(s[1..], d)
  }

  /** `s.split(d)`: the pieces between occurrences of `d`; joining them back gives `s`. */
  function Split(s: string, d: char): (parts: seq<string>)
    ensures |parts| >= 1
    ensures forall k :: 0 <= k < |parts| ==> d !in parts[k]
    ensures Join(parts, d) == s
    decreases |s|
  {
    if d !in s then [s]
    else
      var i := IndexOf(s, d);
      assert s == s[..i] + [d] + s[i + 1..];
      [s[..i]] + Split(s[i + 1..], d)
  }

  /** Length of the Python slice `xs[:k]` of a list of length `n`. */
  function PrefixLen(n: nat, k: int): (r: nat)
    ensures r <= n
    ensures k >= 0 ==> r == if k <= n then k else n
    ensures k < 0 ==> r + (if -k <= n then -k else n) == n
  {
    if k >= 0 then (if k <= n then k else n)
    else if n + k >= 0 then n + k else 0
  }

  // ---------------------------------------------------------------------
  // Small sequence identities, kept apart so that callers stay cheap
  // ---------------------------------------------------------------------

  lemma Assoc<T>(a: seq<T>, b: seq<T>, c: seq<T>)
    ensures a + b + c == a + (b + c)
  {
  }

  lemma SplitAt<T>(a: seq<T>, b: seq<T>)
    ensures (a + b)[..|a|] == a && (a + b)[|a|..] == b
  {
  }

  lemma DropInto<T>(s: seq<T>, a: seq<T>, b: seq<T>, n: nat, k: nat)
    requires s == a + b && n <= |b| && k == |a| + n
    ensures s[k..] == b[n..]
  {
  }

  lemma DropBefore<T>(a: seq<T>, b: seq<T>, k: nat)
    requires k <= |a|
    ensures (a + b)[k..] == a[k..] + b
  {
  }

  lemma Rejoin<T>(s: seq<T>, k: nat)
    requires k <= |s|
    ensures s == s[..k] + s[k..]
  {
  }

  /** A fixed prefix and suffix around two sequences cancel. */
  lemma Cancel<T>(p: seq<T>, a: seq<T>, b: seq<T>, q: seq<T>)
    requires p + a + q == p + b + q
    ensures a == b
  {
    assert |a| == |b|;
    assert a == (p + a + q)[|p|..|p| + |a|];
  }

  // ---------------------------------------------------------------------
  // Lemmas about trimming and collapsing
  // ---------------------------------------------------------------------

  lemma {:induction false} TrimStartOfSeps(a: string, b: string, sep: char -> bool)
    requires AllSep(a, sep)
    ensures TrimStart(a + b, sep) == TrimStart(b, sep)
  {
    if a != [] {
      assert (a + b)[0] == a[0] && sep(a[0]);
      assert (a + b)[1..] == a[1..] + b;
      TrimStartOfSeps(a[1..], b, sep);
    } else {
      assert a + b == b;
    }
  }

  lemma {:induction false} TrimEndAppend(a: string, b: string, sep: char -> bool)
    requires TrimEnd(b, sep) != []
    ensures TrimEnd(a + b, sep) == a + TrimEnd(b, sep)
    decreases |b|
  {
    var ab := a + b;
    if sep(b[|b| - 1]) {
      assert ab[..|ab| - 1] == a + b[..|b| - 1];
      TrimEndAppend(a, b[..|b| - 1], sep);
    }
  }

  lemma {:induction false} TrimEndOfSeps(a: string, b: string, sep: char -> bool)
    requires AllSep(b, sep)
    ensures TrimEnd(a + b, sep) == TrimEnd(a, sep)
    decreases |b|
  {
    if b != [] {
      var ab := a + b;
      assert ab[..|ab| - 1] == a + b[..|b| - 1];
      TrimEndOfSeps(a, b[..|b| - 1], sep);
    } else {
      assert a + b == a;
    }
  }

  /** After collapsing, separators are single `c` characters. */
  lemma {:induction false} CollapseShape(s: string, sep: char -> bool, c: char)
    ensures NoAdjacent(Collapse(s, sep, c), sep) && OnlyAs(Collapse(s, sep, c), sep, c)
    decreases |s|
  {
    if s != [] {
      var h, t := CollapseStep(s, sep, c);
      CollapseShape(t, sep, c);
      if t != [] {
        CollapseHead(t, sep, c);
      }
      ConsShape(h, Collapse(t, sep, c), sep, c);
    }
  }

  /** One step of `Collapse`: the first character it emits and the rest of the
      input it goes on with, a suffix of `s` that starts with a non-separator
      whenever `s` started with a separator. */
  lemma CollapseStep(s: string, sep: char -> bool, c: char) returns (h: char, t: string)
    requires s != []
    ensures Collapse(s, sep, c) == [h] + Collapse(t, sep, c)
    ensures |t| < |s| && t == s[|s| - |t|..]
    ensures h == (if sep(s[0]) then c else s[0])
    ensures sep(s[0]) ==> t == [] || !sep(t[0])
  {
    if sep(s[0]) {
      h, t := c, TrimStart(s, sep);
    } else {
      h, t := s[0], s[1..];
    }
  }

  lemma ConsShape(h: char, x: string, sep: char -> bool, c: char)
    requires NoAdjacent(x, sep) && OnlyAs(x, sep, c)
    requires sep(h) ==> h == c && (x == [] || !sep(x[0]))
    ensures NoAdjacent([h] + x, sep) && OnlyAs([h] + x, sep, c)
  {
    var r := [h] + x;
    forall i | 0 <= i < |r| && sep(r[i]) ensures r[i] == c {
      if i > 0 { assert r[i] == x[i - 1]; }
    }
    forall i: nat | i + 1 < |r| ensures !SepPair(r, sep, i) {
      if i > 0 {
        assert !SepPair(x, sep, i - 1);
        assert r[i] == x[i - 1] && r[i + 1] == x[i];
      }
    }
  }

  /** Every character `Collapse` emits is `c` or comes from its input. */
  lemma {:induction false} CollapseChars(s: string, sep: char -> bool, c: char)
    ensures forall i :: 0 <= i < |Collapse(s, sep, c)| && Collapse(s, sep, c)[i] != c ==> Collapse(s, sep, c)[i] in s
    decreases |s|
  {
    if s != [] {
      var h, t := CollapseStep(s, sep, c);
      CollapseChars(t, sep, c);
      ConsChars(s, h, t, Collapse(t, sep, c), c);
    }
  }

  lemma ConsChars(s: string, h: char, t: string, x: string, c: char)
    requires s != [] && (h == c || h == s[0]) && |t| <= |s| && t == s[|s| - |t|..]
    requires forall i :: 0 <= i < |x| && x[i] != c ==> x[i] in t
    ensures forall i :: 0 <= i < |[h] + x| && ([h] + x)[i] != c ==> ([h] + x)[i] in s
  {
    var r := [h] + x;
    forall i | 0 <= i < |r| && r[i] != c ensures r[i] in s {
      if i > 0 {
        assert r[i] == x[i - 1];
        var k :| 0 <= k < |t| && t[k] == x[i - 1];
        assert s[|s| - |t| + k] == t[k];
      }
    }
  }

  lemma CollapseHead(s: string, sep: char -> bool, c: char)
    requires s != []
    ensures Collapse(s, sep, c) != []
    ensures Collapse(s, sep, c)[0] == if sep(s[0]) then c else s[0]
  {
  }

  /** A separator-free prefix passes through `Collapse` unchanged. */
  lemma {:induction false} CollapsePlainPrefix(a: string, b: string, sep: char -> bool, c: char)
    requires NoneSep(a, sep)
    ensures Collapse(a + b, sep, c) == a + Collapse(b, sep, c)
  {
    if a != [] {
      var s := a + b;
      var t := a[1..];
      assert s[0] == a[0] && !sep(a[0]);
      CollapseSingle(s, sep, c);
      assert s[1..] == t + b;
      assert NoneSep(t, sep) by {
        forall i | 0 <= i < |t| ensures !sep(t[i]) {
          assert t[i] == a[i + 1];
        }
      }
      CollapsePlainPrefix(t, b, sep, c);
      assert a == [a[0]] + t;
    } else {
      assert a + b == b;
    }
  }

  /** A run of separators followed by a non-separator becomes one `c`. */
  lemma CollapseRunPrefix(sp: string, v: string, sep: char -> bool, c: char)
    requires |sp| > 0 && AllSep(sp, sep)
    requires v == [] || !sep(v[0])
    ensures Collapse(sp + v, sep, c) == [c] + Collapse(v, sep, c)
  {
    TrimStartOfSeps(sp, v, sep);
  }

  /** The last character of a collapsed string is not a separator when the input's was not. */
  lemma {:induction false} CollapseLast(s: string, sep: char -> bool, c: char)
    requires s != [] && !sep(s[|s| - 1])
    ensures Collapse(s, sep, c) != [] && !sep(Collapse(s, sep, c)[|Collapse(s, sep, c)| - 1])
    decreases |s|
  {
    if sep(s[0]) {
      CollapseLast(TrimStart(s, sep), sep, c);
    } else if |s| > 1 {
      CollapseLast(s[1..], sep, c);
    }
  }

  lemma CollapseNoEdge(s: string, sep: char -> bool, c: char)
    requires NoEdge(s, sep)
    ensures NoEdge(Collapse(s, sep, c), sep)
  {
    if s != [] {
      CollapseHead(s, sep, c);
      CollapseLast(s, sep, c);
    }
  }

  /** A string whose separators are already single `c`s is a fixed point of `Collapse`. */
  lemma {:induction false} CollapseFixed(s: string, sep: char -> bool, c: char)
    requires NoAdjacent(s, sep) && OnlyAs(s, sep, c)
    ensures Collapse(s, sep, c) == s
    decreases |s|
  {
    if s != [] {
      var u := s[1..];
      assert |s| > 1 ==> !SepPair(s, sep, 0);
      CollapseSingle(s, sep, c);
      SliceKeepsClass(s, 1, |s|, sep, c);
      assert s[1..|s|] == u;
      CollapseFixed(u, sep, c);
      assert s == [s[0]] + u;
    }
  }

  /** A separator that is already a lone `c` is kept as it is. */
  lemma CollapseSingle(s: string, sep: char -> bool, c: char)
    requires s != [] && (sep(s[0]) ==> s[0] == c && (|s| == 1 || !sep(s[1])))
    ensures Collapse(s, sep, c) == [s[0]] + Collapse(s[1..], sep, c)
  {
    if sep(s[0]) {
      var u := s[1..];
      assert u == [] || !sep(u[0]);
      assert TrimStart(u, sep) == u;
      assert TrimStart(s, sep) == TrimStart(u, sep);
    }
  }

  lemma StripFixed(s: string, sep: char -> bool)
    requires NoEdge(s, sep)
    ensures Strip(s, sep) == s
  {
  }

  lemma TrimStartCollapse(s: string, sep: char -> bool, c: char)
    requires sep(c)
    ensures TrimStart(Collapse(s, sep, c), sep) == Collapse(TrimStart(s, sep), sep, c)
  {
    var t := TrimStart(s, sep);
    if t != [] {
      CollapseHead(t, sep, c);
    }
    if s != [] && !sep(s[0]) {
      CollapseHead(s, sep, c);
    }
  }

  lemma TrimEndCons(a: char, x: string, sep: char -> bool)
    requires !sep(a)
    ensures TrimEnd([a] + x, sep) == [a] + TrimEnd(x, sep)
  {
    if TrimEnd(x, sep) != [] {
      TrimEndAppend([a], x, sep);
    } else {
      TrimEndOfSeps([a], x, sep);
    }
  }

  lemma CollapseCons(a: char, x: string, sep: char -> bool, c: char)
    requires !sep(a)
    ensures Collapse([a] + x, sep, c) == [a] + Collapse(x, sep, c)
  {
    assert ([a] + x)[1..] == x;
  }

  lemma TrimEndHead(s: string, sep: char -> bool)
    requires s != [] && !sep(s[0])
    ensures TrimEnd(s, sep) == [s[0]] + TrimEnd(s[1..], sep)
  {
    Rejoin(s, 1);
    TrimEndCons(s[0], s[1..], sep);
  }

  lemma TrimEndCollapseRun(sp: string, u: string, sep: char -> bool, c: char)
    requires sep(c) && |sp| > 0 && AllSep(sp, sep) && u != [] && !sep(u[0])
    requires TrimEnd(Collapse(u, sep, c), sep) == Collapse(TrimEnd(u, sep), sep, c)
    ensures TrimEnd(Collapse(sp + u, sep, c), sep) == Collapse(TrimEnd(sp + u, sep), sep, c)
  {
    var x := Collapse(u, sep, c);
    assert Collapse(sp + u, sep, c) == [c] + x by {
      CollapseRunPrefix(sp, u, sep, c);
    }
    assert TrimEnd([c] + x, sep) == [c] + TrimEnd(x, sep) by {
      CollapseHead(u, sep, c);
      TrimEndAppend([c], x, sep);
    }
    var te := TrimEnd(u, sep);
    assert te != [] && te[0] == u[0];
    assert Collapse(TrimEnd(sp + u, sep), sep, c) == [c] + Collapse(te, sep, c) by {
      TrimEndAppend(sp, u, sep);
      CollapseRunPrefix(sp, te, sep, c);
    }
  }

  lemma {:induction false} TrimEndCollapse(s: string, sep: char -> bool, c: char)
    requires sep(c)
    ensures TrimEnd(Collapse(s, sep, c), sep) == Collapse(TrimEnd(s, sep), sep, c)
    decreases |s|
  {
    if s == [] {
    } else if !sep(s[0]) {
      TrimEndCollapse(s[1..], sep, c);
      TrimEndCollapsePlainCase(s, sep, c);
    } else {
      var u := TrimStart(s, sep);
      if u != [] {
        TrimEndCollapse(u, sep, c);
      }
      TrimEndCollapseSepCase(s, sep, c);
    }
  }

  lemma TrimEndCollapsePlainCase(s: string, sep: char -> bool, c: char)
    requires s != [] && !sep(s[0])
    requires TrimEnd(Collapse(s[1..], sep, c), sep) == Collapse(TrimEnd(s[1..], sep), sep, c)
    ensures TrimEnd(Collapse(s, sep, c), sep) == Collapse(TrimEnd(s, sep), sep, c)
  {
    var x := s[1..];
    assert Collapse(s, sep, c) == [s[0]] + Collapse(x, sep, c);
    TrimEndCons(s[0], Collapse(x, sep, c), sep);
    TrimEndHead(s, sep);
    CollapseCons(s[0], TrimEnd(x, sep), sep, c);
  }

  lemma TrimEndCollapseSepCase(s: string, sep: char -> bool, c: char)
    requires sep(c) && s != [] && sep(s[0])
    requires var u := TrimStart(s, sep);
      u != [] ==> TrimEnd(Collapse(u, sep, c), sep) == Collapse(TrimEnd(u, sep), sep, c)
    ensures TrimEnd(Collapse(s, sep, c), sep) == Collapse(TrimEnd(s, sep), sep, c)
  {
    var u := TrimStart(s, sep);
    var sp := s[..|s| - |u|];
    Rejoin(s, |s| - |u|);
    if u == [] {
      TrimEndOfSeps([], s, sep);
      assert Collapse(s, sep, c) == [c];
    } else {
      TrimEndCollapseRun(sp, u, sep, c);
    }
  }

  /** Stripping separators commutes with collapsing them into a separator `c`. */
  lemma StripCollapse(s: string, sep: char -> bool, c: char)
    requires sep(c)
    ensures Strip(Collapse(s, sep, c), sep) == Collapse(Strip(s, sep), sep, c)
  {
    TrimStartCollapse(s, sep, c);
    TrimEndCollapse(TrimStart(s, sep), sep, c);
  }

  lemma {:induction false} TrimStartSameClass(s: string, p: char -> bool, q: char -> bool)
    requires forall i :: 0 <= i < |s| ==> (p(s[i]) <==> q(s[i]))
    ensures TrimStart(s, p) == TrimStart(s, q)
    decreases |s|
  {
    if s != [] {
      TrimStartSameClass(s[1..], p, q);
    }
  }

  lemma {:induction false} TrimEndSameClass(s: string, p: char -> bool, q: char -> bool)
    requires forall i :: 0 <= i < |s| ==> (p(s[i]) <==> q(s[i]))
    ensures TrimEnd(s, p) == TrimEnd(s, q)
    decreases |s|
  {
    if s != [] {
      TrimEndSameClass(s[..|s| - 1], p, q);
    }
  }

  /** `strip` only looks at the characters present, so two classes that agree on them strip alike. */
  lemma StripSameClass(s: string, p: char -> bool, q: char -> bool)
    requires forall i :: 0 <= i < |s| ==> (p(s[i]) <==> q(s[i]))
    ensures Strip(s, p) == Strip(s, q)
  {
    TrimStartSameClass(s, p, q);
    var t := TrimStart(s, p);
    TrimEndSameClass(t, p, q);
  }

  // ---------------------------------------------------------------------
  // Words and Join: the reference meaning of "strip, then collapse runs"
  // ---------------------------------------------------------------------

  lemma WordsSkipsLead(s: string, sep: char -> bool)
    ensures Words(s, sep) == Words(TrimStart(s, sep), sep)
  {
  }

  lemma CollapseTrimEndStep(w: string, sp: string, u: string, sep: char -> bool, c: char)
    requires NoneSep(w, sep) && |sp| > 0 && AllSep(sp, sep)
    requires u != [] && !sep(u[0])
    ensures Collapse(TrimEnd(w + (sp + u), sep), sep, c) == w + ([c] + Collapse(TrimEnd(u, sep), sep, c))
  {
    var te := TrimEnd(u, sep);
    assert te != [] && te[0] == u[0];
    TrimEndAppend(sp, u, sep);
    TrimEndAppend(w, sp + u, sep);
    CollapsePlainPrefix(w, sp + te, sep, c);
    CollapseRunPrefix(sp, te, sep, c);
  }

  lemma CollapseTrimEndWord(w: string, sp: string, sep: char -> bool, c: char)
    requires NoneSep(w, sep) && AllSep(sp, sep)
    ensures Collapse(TrimEnd(w + sp, sep), sep, c) == w
  {
    TrimEndOfSeps(w, sp, sep);
    assert TrimEnd(w, sep) == w;
    CollapsePlainPrefix(w, [], sep, c);
    assert w + [] == w;
  }

  /** A word, a run of separators and the rest split as the word followed by the rest's words. */
  lemma WordsOfWordThenSeps(w: string, sp: string, tail: string, sep: char -> bool)
    requires IsWord(w, sep) && |sp| > 0 && AllSep(sp, sep)
    requires tail == [] || !sep(tail[0])
    ensures Words(w + (sp + tail), sep) == [w] + Words(tail, sep)
  {
    var j := w + (sp + tail);
    TakeWordOfJoin(w, sp + tail, sep);
    assert j[0] == w[0];
    WordsCons(j, sep);
    assert j[|w|..] == sp + tail;
    TrimStartOfSeps(sp, tail, sep);
    WordsSkipsLead(sp + tail, sep);
  }

  /** The words after the first word of `t` and the separators that follow it. */
  function AfterFirstWord(t: string, sep: char -> bool): string {
    TrimStart(t[|TakeWord(t, sep)|..], sep)
  }

  lemma TrimEndWordsLast(t: string, sep: char -> bool, c: char)
    requires t != [] && !sep(t[0])
    requires AfterFirstWord(t, sep) == []
    ensures Collapse(TrimEnd(t, sep), sep, c) == Join(Words(t, sep), c)
  {
    var w := TakeWord(t, sep);
    var rest := t[|w|..];
    assert t == w + rest;
    CollapseTrimEndWord(w, rest, sep, c);
    WordsCons(t, sep);
  }

  lemma JoinConsWord(w: string, ws: seq<string>, c: char)
    requires |ws| > 0
    ensures Join([w] + ws, c) == w + ([c] + Join(ws, c))
  {
    JoinCons([w] + ws, c);
    assert ([w] + ws)[1..] == ws;
  }

  /** `t` is its first word, a run of separators and `AfterFirstWord(t)`. */
  lemma FirstWordSplit(t: string, sep: char -> bool) returns (w: string, sp: string, u: string)
    requires t != [] && !sep(t[0])
    requires AfterFirstWord(t, sep) != []
    ensures w == TakeWord(t, sep) && u == AfterFirstWord(t, sep)
    ensures |u| < |t| && IsWord(w, sep) && !sep(u[0])
    ensures |sp| > 0 && AllSep(sp, sep) && t == w + (sp + u)
  {
    w := TakeWord(t, sep);
    var rest := t[|w|..];
    u := TrimStart(rest, sep);
    sp := rest[..|rest| - |u|];
    Rejoin(t, |w|);
    Rejoin(rest, |rest| - |u|);
  }

  lemma AllWordsTail(ws: seq<string>, sep: char -> bool)
    requires |ws| > 0 && forall k :: 0 <= k < |ws| ==> IsWord(ws[k], sep)
    ensures forall k :: 0 <= k < |ws[1..]| ==> IsWord(ws[1..][k], sep)
    ensures [ws[0]] + ws[1..] == ws
  {
    forall k | 0 <= k < |ws[1..]| ensures IsWord(ws[1..][k], sep) {
      assert ws[1..][k] == ws[k + 1];
    }
  }

  lemma TrimEndWordsNext(w: string, sp: string, u: string, sep: char -> bool, c: char)
    requires IsWord(w, sep) && |sp| > 0 && AllSep(sp, sep) && u != [] && !sep(u[0])
    requires Collapse(TrimEnd(u, sep), sep, c) == Join(Words(u, sep), c)
    ensures Collapse(TrimEnd(w + (sp + u), sep), sep, c) == Join(Words(w + (sp + u), sep), c)
  {
    var wu := Words(u, sep);
    assert Words(w + (sp + u), sep) == [w] + wu by {
      WordsOfWordThenSeps(w, sp, u, sep);
    }
    assert Collapse(TrimEnd(w + (sp + u), sep), sep, c) == w + ([c] + Join(wu, c)) by {
      CollapseTrimEndStep(w, sp, u, sep, c);
    }
    assert Join([w] + wu, c) == w + ([c] + Join(wu, c)) by {
      WordsCons(u, sep);
      JoinConsWord(w, wu, c);
    }
  }

  lemma {:induction false} TrimEndWords(t: string, sep: char -> bool, c: char)
    requires t == [] || !sep(t[0])
    ensures Collapse(TrimEnd(t, sep), sep, c) == Join(Words(t, sep), c)
    decreases |t|
  {
    if t != [] {
      var u := AfterFirstWord(t, sep);
      if u == [] {
        TrimEndWordsLast(t, sep, c);
      } else {
        var w, sp, _ := FirstWordSplit(t, sep);
        TrimEndWords(u, sep, c);
        TrimEndWordsNext(w, sp, u, sep, c);
      }
    }
  }

  /** Stripping and then collapsing separator runs into `c` is `c.join(s.split())`. */
  lemma CollapseStripIsJoinWords(s: string, sep: char -> bool, c: char)
    ensures Collapse(Strip(s, sep), sep, c) == Join(Words(s, sep), c)
  {
    WordsSkipsLead(s, sep);
    TrimEndWords(TrimStart(s, sep), sep, c);
  }

  /** The result of stripping and collapsing has single separators between words only. */
  lemma CollapseStripClean(s: string, sep: char -> bool, c: char)
    ensures Clean(Collapse(Strip(s, sep), sep, c), sep, c)
  {
    CollapseNoEdge(Strip(s, sep), sep, c);
    CollapseShape(Strip(s, sep), sep, c);
  }

  lemma {:induction false} WordsAreWords(s: string, sep: char -> bool)
    ensures forall k :: 0 <= k < |Words(s, sep)| ==> IsWord(Words(s, sep)[k], sep)
    decreases |s|
  {
    var t := TrimStart(s, sep);
    if t != [] {
      var w := TakeWord(t, sep);
      var rest := Words(t[|w|..], sep);
      WordsAreWords(t[|w|..], sep);
      var ws := Words(s, sep);
      assert ws == [w] + rest;
      forall k | 0 <= k < |ws| ensures IsWord(ws[k], sep) {
        if k > 0 { assert ws[k] == rest[k - 1]; }
      }
    }
  }

  lemma {:induction false} TakeWordOfJoin(w: string, rest: string, sep: char -> bool)
    requires NoneSep(w, sep)
    requires rest == [] || sep(rest[0])
    ensures TakeWord(w + rest, sep) == w
  {
    if w == [] {
      assert w + rest == rest;
    } else {
      assert (w + rest)[0] == w[0];
      assert (w + rest)[1..] == w[1..] + rest;
      TakeWordOfJoin(w[1..], rest, sep);
    }
  }

  /** Splitting a joined list of words recovers the words. */
  lemma WordsCons(j: string, sep: char -> bool)
    requires j != [] && !sep(j[0])
    ensures Words(j, sep) == [TakeWord(j, sep)] + Words(j[|TakeWord(j, sep)|..], sep)
  {
  }

  lemma JoinCons(ws: seq<string>, c: char)
    requires |ws| > 1
    ensures Join(ws, c) == ws[0] + ([c] + Join(ws[1..], c))
  {
  }

  lemma WordsAfterSep(c: char, tail: string, sep: char -> bool)
    requires sep(c) && (tail == [] || !sep(tail[0]))
    ensures Words([c] + tail, sep) == Words(tail, sep)
  {
    TrimStartOfSeps([c], tail, sep);
    WordsSkipsLead([c] + tail, sep);
  }

  lemma WordsOfSingleWord(w: string, sep: char -> bool)
    requires IsWord(w, sep)
    ensures Words(w, sep) == [w]
  {
    TakeWordOfJoin(w, [], sep);
    assert w + [] == w;
    WordsCons(w, sep);
    assert w[|w|..] == [];
  }

  /** A word, a separator and the rest split as the word followed by the rest's words. */
  lemma WordsOfWordThenSep(w: string, c: char, tail: string, sep: char -> bool)
    requires IsWord(w, sep) && sep(c)
    requires tail == [] || !sep(tail[0])
    ensures Words(w + ([c] + tail), sep) == [w] + Words(tail, sep)
  {
    var j := w + ([c] + tail);
    TakeWordOfJoin(w, [c] + tail, sep);
    assert j[0] == w[0];
    WordsCons(j, sep);
    assert j[|w|..] == [c] + tail;
    WordsAfterSep(c, tail, sep);
  }

  /** Splitting a joined list of words recovers the words. */
  lemma {:induction false} WordsOfJoin(ws: seq<string>, sep: char -> bool, c: char)
    requires sep(c)
    requires forall k :: 0 <= k < |ws| ==> IsWord(ws[k], sep)
    ensures Words(Join(ws, c), sep) == ws
  {
    if |ws| == 1 {
      WordsOfSingleWord(ws[0], sep);
    } else if |ws| > 1 {
      var tl := ws[1..];
      AllWordsTail(ws, sep);
      WordsOfJoin(tl, sep, c);
      JoinCons(ws, c);
      JoinHead(tl, c);
      WordsOfWordThenSep(ws[0], c, Join(tl, c), sep);
    }
  }

  /** Joining the words of two strings with a separator gives the same string only
      when the strings have the same words. */
  lemma JoinWordsInjective(a: string, b: string, sep: char -> bool, c: char)
    requires sep(c)
    ensures Join(Words(a, sep), c) == Join(Words(b, sep), c) ==> Words(a, sep) == Words(b, sep)
  {
    WordsAreWords(a, sep);
    WordsAreWords(b, sep);
    WordsOfJoin(Words(a, sep), sep, c);
    WordsOfJoin(Words(b, sep), sep, c);
  }

  lemma JoinHead(ws: seq<string>, c: char)
    requires |ws| > 0 && |ws[0]| > 0
    ensures Join(ws, c) != [] && Join(ws, c)[0] == ws[0][0]
  {
  }

  // ---------------------------------------------------------------------
  // Lemmas about slices and lower-casing
  // ---------------------------------------------------------------------

  lemma SliceKeepsClass(s: string, a: nat, b: nat, sep: char -> bool, c: char)
    requires a <= b <= |s|
    requires NoAdjacent(s, sep) && OnlyAs(s, sep, c)
    ensures NoAdjacent(s[a..b], sep) && OnlyAs(s[a..b], sep, c)
  {
    var t := s[a..b];
    forall i: nat | i + 1 < |t| ensures !SepPair(t, sep, i) {
      assert !SepPair(s, sep, a + i);
      assert t[i] == s[a + i] && t[i + 1] == s[a + i + 1];
    }
    forall i | 0 <= i < |t| && sep(t[i]) ensures t[i] == c {
      assert t[i] == s[a + i];
    }
  }

  lemma {:induction false} LowerTrimStart(s: string, sep: char -> bool)
    requires forall x :: sep(LowerChar(x)) == sep(x)
    ensures Lower(TrimStart(s, sep)) == TrimStart(Lower(s), sep)
    decreases |s|
  {
    if s != [] && sep(s[0]) {
      assert Lower(s)[1..] == Lower(s[1..]);
      LowerTrimStart(s[1..], sep);
    }
  }

  lemma {:induction false} LowerTrimEnd(s: string, sep: char -> bool)
    requires forall x :: sep(LowerChar(x)) == sep(x)
    ensures Lower(TrimEnd(s, sep)) == TrimEnd(Lower(s), sep)
    decreases |s|
  {
    if s != [] && sep(s[|s| - 1]) {
      assert Lower(s)[..|s| - 1] == Lower(s[..|s| - 1]);
      LowerTrimEnd(s[..|s| - 1], sep);
    }
  }

  /** ASCII lower-casing does not touch whitespace, so it commutes with `strip`. */
  lemma LowerStrip(s: string)
    ensures Lower(Strip(s, IsSpace)) == Strip(Lower(s), IsSpace)
  {
    LowerTrimStart(s, IsSpace);
    LowerTrimEnd(TrimStart(s, IsSpace), IsSpace);
  }

  lemma LowerFixed(s: string)
    requires forall i :: 0 <= i < |s| ==> !IsUpper(s[i])
    ensures Lower(s) == s
  {
  }
}
