/** `extract_headers` (Data/preprocessing.py): every header found in the
    "Additional info" texts, counted per raw spelling. */
module Headers {
  import opened Wrappers
  import opened Text
  import opened Collections
  import opened HeaderGrammar
  import opened Preprocessing

  /** `not line.strip()`: the line is whitespace only (see `BlankIsEmptyStrip`). */
  predicate Blank(line: string) { AllSep(line, IsSpace) }

  lemma BlankIsEmptyStrip(line: string)
    ensures Blank(line) <==> Strip(line, IsSpace) == []
  {
    var l := Lead(line, IsSpace);
    var r := Strip(line, IsSpace);
    if r != [] {
      assert line[l] == r[0];
    } else {
      assert line == line[..l] + line[l..];
    }
  }

  /** `line.lstrip().startswith(":")` */
  predicate StartsWithColon(line: string) {
    var t := TrimStart(line, IsSpace);
    t != [] && t[0] == ':'
  }

  /** The first non-blank line at or after `j`, or `|lines|` when there is none. */
  function NextNonBlank(lines: seq<string>, j: nat): (k: nat)
    requires j <= |lines|
    ensures j <= k <= |lines|
    ensures forall m :: j <= m < k ==> Blank(lines[m])
    ensures k < |lines| ==> !Blank(lines[k])
    decreases |lines| - j
  {
    if j == |lines| || !Blank(lines[j]) then j else NextNonBlank(lines, j + 1)
  }

  /** The next non-blank line after line `i` starts with a colon. */
  predicate ColonLineFollows(lines: seq<string>, i: nat)
    requires i < |lines|
  {
    var j := NextNonBlank(lines, i + 1);
    j < |lines| && StartsWithColon(lines[j])
  }

  /** The header recorded for line `i`, if any: a same-line header, or a
      standalone header whose next non-blank line starts with a colon. */
  function LineHeader(lines: seq<string>, i: nat): Option<string>
    requires i < |lines|
  {
    var s := Strip(lines[i], IsSpace);
    if s == [] then None
    else match SameLine(s)
      case Some(m) => Some(Strip(m.header, IsSpace))
      case None =>
        if Standalone(s).Some? && ColonLineFollows(lines, i) then Standalone(s) else None
  }

  /** The decision for every line of a text: the header it records, if any. */
  function Recorded(lines: seq<string>): (r: seq<Option<string>>)
    ensures |r| == |lines|
  {
    seq(|lines|, j requires 0 <= j < |lines| => LineHeader(lines, j))
  }

  /** The recorded headers, in line order. */
  function Present(recs: seq<Option<string>>): seq<string> {
    if recs == [] then []
    else
      var last := recs[|recs| - 1];
      Present(recs[..|recs| - 1]) + (if last.Some? then [last.value] else [])
  }

  /** The headers of one normalised text; a blank text has none. */
  function TextHeaders(txt: string): seq<string> {
    if Blank(txt) then [] else Present(Recorded(Split(txt, '\n')))
  }

  /** The headers of all texts of the column, text after text. */
  function AllHeaders(texts: seq<Option<string>>): seq<string> {
    if texts == [] then []
    else AllHeaders(texts[..|texts| - 1]) + TextHeaders(NormText(texts[|texts| - 1]))
  }

  /** `pd.Series(headers).value_counts()`: one entry per distinct header with the
      number of times it occurs. */
  function ValueCounts(hs: seq<string>): (r: seq<(string, nat)>)
    ensures |r| == |Dedup(hs)|
    ensures forall k :: 0 <= k < |r| ==> r[k].0 == Dedup(hs)[k] && r[k].1 == Count(hs, r[k].0)
  {
    var d := Dedup(hs);
    seq(|d|, k requires 0 <= k < |d| => (d[k], Count(hs, d[k])))
  }

  /** `extract_headers`: the per-spelling counts of every header of the column. */
  method ExtractHeaders(texts: seq<Option<string>>) returns (counts: seq<(string, nat)>)
    ensures counts == ValueCounts(AllHeaders(texts))
  {
    var headers: seq<string> := [];
    var n := 0;
    while n < |texts|
      invariant n <= |texts|
      invariant headers == AllHeaders(texts[..n])
    {
      var found := ScanText(NormText(texts[n]));
      assert texts[..n + 1][..n] == texts[..n];
      headers := headers + found;
      n := n + 1;
    }
    assert texts[..n] == texts;
    counts := ValueCounts(headers);
  }

  /** The body of the outer loop of `extract_headers`: the headers of one text. */
  method ScanText(txt: string) returns (found: seq<string>)
    ensures found == TextHeaders(txt)
  {
    found := [];
    if !Blank(txt) {
      var lines := Split(txt, '\n');
      ghost var recs := Recorded(lines);
      var i := 0;
      while i < |lines|
        invariant i <= |lines|
        invariant found == Present(recs[..i])
      {
        var h := ScanLine(lines, i);
        PresentStep(recs, i);
        if h.Some? {
          found := found + [h.value];
        }
        i := i + 1;
      }
      assert recs[..i] == recs;
    }
  }

  lemma PresentStep(recs: seq<Option<string>>, i: nat)
    requires i < |recs|
    ensures Present(recs[..i + 1]) == Present(recs[..i]) + (if recs[i].Some? then [recs[i].value] else [])
  {
    assert recs[..i + 1][..i] == recs[..i];
  }

  /** The body of the inner loop of `extract_headers`: the header line `i` records,
      looking ahead past blank lines for a colon line after a standalone header. */
  method ScanLine(lines: seq<string>, i: nat) returns (h: Option<string>)
    requires i < |lines|
    ensures h == LineHeader(lines, i)
  {
    h := None;
    var s := Strip(lines[i], IsSpace);
    if s != [] {
      var m := SameLine(s);
      if m.Some? {
        h := Some(Strip(m.value.header, IsSpace));
      } else {
        var st := Standalone(s);
        if st.Some? {
          var j := i + 1;
          while j < |lines| && Blank(lines[j])
            invariant i + 1 <= j <= |lines|
            invariant NextNonBlank(lines, j) == NextNonBlank(lines, i + 1)
          {
            j := j + 1;
          }
          if j < |lines| && StartsWithColon(lines[j]) {
            h := st;
          }
        }
      }
    }
  }

  // ---------------------------------------------------------------------
  // Properties
  // ---------------------------------------------------------------------

  /** A recorded header is header-shaped and has no surrounding whitespace. */
  lemma LineHeaderShaped(lines: seq<string>, i: nat)
    requires i < |lines|
    ensures LineHeader(lines, i).Some? ==> GoodHeader(LineHeader(lines, i).value)
  {
    var s := Strip(lines[i], IsSpace);
    if SameLine(s).Some? {
      SameLineSound(s);
      StripFixed(SameLine(s).value.header, IsSpace);
    }
  }

  /** A header taken from a standalone line (the line and the colon line below it)
      never holds a colon: a header-shaped line with a colon is a same-line header. */
  lemma StandaloneHeaderHasNoColon(lines: seq<string>, i: nat)
    requires i < |lines| && LineHeader(lines, i).Some?
    requires SameLine(Strip(lines[i], IsSpace)).None?
    ensures ':' !in LineHeader(lines, i).value
  {
    var s := Strip(lines[i], IsSpace);
    StripFixed(s, IsSpace);
    if ':' in s {
      StandaloneWithColonIsSameLine(s);
    }
  }

  /** A line whose first non-blank character is a colon records no header. */
  lemma ColonLineRecordsNothing(lines: seq<string>, i: nat)
    requires i < |lines| && StartsWithColon(lines[i])
    ensures LineHeader(lines, i) == None
  {
    var s := Strip(lines[i], IsSpace);
    assert TrimStart(s, IsSpace) == s by {
      StripFixed(s, IsSpace);
      TrimStartNoLead(s, IsSpace);
    }
    StripStartsLikeTrimStart(lines[i]);
    ColonLineIsNoHeader(s);
  }

  /** A header as the column records it: header-shaped and stripped. */
  predicate GoodHeader(h: string) { HeaderShaped(h) && NoEdge(h, IsSpace) }

  /** Every header of the list is header-shaped and stripped. */
  predicate AllShaped(hs: seq<string>) {
    forall h :: h in hs ==> GoodHeader(h)
  }

  /** Every recorded header of a text is header-shaped and stripped. */
  lemma {:induction false} PresentShaped(recs: seq<Option<string>>)
    requires forall j :: 0 <= j < |recs| && recs[j].Some? ==> GoodHeader(recs[j].value)
    ensures AllShaped(Present(recs))
  {
    if recs != [] {
      PresentShaped(recs[..|recs| - 1]);
    }
  }

  lemma RecordedShaped(lines: seq<string>)
    ensures forall j :: 0 <= j < |lines| && Recorded(lines)[j].Some? ==> GoodHeader(Recorded(lines)[j].value)
  {
    forall j | 0 <= j < |lines| && Recorded(lines)[j].Some?
      ensures GoodHeader(Recorded(lines)[j].value)
    {
      LineHeaderShaped(lines, j);
    }
  }

  /** Every header recorded for a column is header-shaped and stripped. */
  lemma {:induction false} AllHeadersShaped(texts: seq<Option<string>>)
    ensures AllShaped(AllHeaders(texts))
  {
    if texts != [] {
      AllHeadersShaped(texts[..|texts| - 1]);
      var txt := NormText(texts[|texts| - 1]);
      if !Blank(txt) {
        RecordedShaped(Split(txt, '\n'));
        PresentShaped(Recorded(Split(txt, '\n')));
      }
    }
  }

  /** The headers of a column are those of its texts, concatenated: counting two
      parts of a column separately and adding gives the same list. */
  lemma {:induction false} AllHeadersAppend(a: seq<Option<string>>, b: seq<Option<string>>)
    ensures AllHeaders(a + b) == AllHeaders(a) + AllHeaders(b)
    decreases |b|
  {
    if b == [] {
      assert a + b == a;
    } else {
      var b0 := b[..|b| - 1];
      var t := TextHeaders(NormText(b[|b| - 1]));
      assert (a + b)[..|a + b| - 1] == a + b0;
      assert (a + b)[|a + b| - 1] == b[|b| - 1];
      assert AllHeaders(a + b) == AllHeaders(a + b0) + t;
      AllHeadersAppend(a, b0);
      assert AllHeaders(b) == AllHeaders(b0) + t;
      Assoc(AllHeaders(a), AllHeaders(b0), t);
    }
  }

  /** A missing or blank text contributes no header. */
  lemma BlankTextNoHeaders(v: Option<string>)
    requires Blank(NormText(v))
    ensures AllHeaders([v]) == []
  {
    assert [v][..0] == [];
  }
}
