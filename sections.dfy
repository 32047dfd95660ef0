/** `extract_top_sections` (Data/preprocessing.py): split one "Additional info"
    text into the sections of the selected canonical headers. A cursor names the
    section that content lines go to; every header line moves it (to nothing when
    the header is not selected), and each section's lines are joined at the end. */
module Sections {
  import opened Wrappers
  import opened Text
  import opened HeaderGrammar
  import opened Preprocessing
  import opened Headers

  /** `line.split(":", 1)[1]`: what follows the first colon of the line. */
  function AfterColon(line: string): string {
    if ':' in line then line[IndexOf(line, ':') + 1..] else []
  }

  /** The outcome of one turn of the line loop: where it continues, the new cursor,
      and the text it appends to a section, if any. */
  datatype Step = Step(next: nat, cur: Option<string>, piece: Option<(string, string)>)

  /** The cursor a header moves to: the header itself when selected, else nothing. */
  function Target(ch: string, top: seq<string>): Option<string> {
    if ch in top then Some(ch) else None
  }

  /** A header line with canonical header `ch` whose own content is `text`: the
      cursor moves to `ch` (or to nothing when `ch` is not selected), the text goes to
      the section when it is selected and not empty, and the loop goes on at `next`. */
  function HeaderStep(top: seq<string>, next: nat, ch: string, text: string): Step {
    var c := Target(ch, top);
    Step(next, c, if c.Some? && text != [] then Some((ch, text)) else None)
  }

  /** A content line `s`: it goes to the current section, if there is one. */
  function ContentStep(i: nat, cur: Option<string>, s: string): Step {
    Step(i + 1, cur, if cur.Some? then Some((cur.value, s)) else None)
  }

  /** The colon line of a standalone header whose next non-blank line is `j`: when
      `lines[j]` exists and starts with a colon, what follows its first colon, stripped. */
  function ColonText(lines: seq<string>, j: nat): (r: Option<string>)
    ensures r.Some? <==> j < |lines| && StartsWithColon(lines[j])
  {
    if j < |lines| && StartsWithColon(lines[j]) then Some(Strip(AfterColon(lines[j]), IsSpace)) else None
  }

  /** What a stripped line is, tried in the loop's order: empty, a same-line header
      (its canonical header and the text after the colon), a standalone header (its
      canonical header; it needs a colon line after it), or content. */
  datatype Shape = Empty | Inline(ch: string, rest: string) | Alone(ch: string) | Content

  function ShapeOf(s: string): (k: Shape)
    ensures k.Empty? <==> s == []
  {
    if s == [] then Empty
    else match SameLine(s)
      case Some(m) => Inline(CanonHeader(Strip(m.header, IsSpace)), m.rest)
      case None =>
        match Standalone(s)
        case Some(h) => Alone(CanonHeader(Strip(h, IsSpace)))
        case None => Content
  }

  /** What the loop looks at when it reaches line `i`: the stripped line, its shape,
      the next non-blank line `j` and, when that line starts with a colon, its text. */
  datatype View = View(s: string, shape: Shape, j: nat, colon: Option<string>)

  function ViewOf(lines: seq<string>, i: nat): (w: View)
    requires i < |lines|
    ensures w.shape.Empty? <==> w.s == []
    ensures w.colon.Some? ==> i < w.j < |lines| && StartsWithColon(lines[w.j])
    ensures w.colon.Some? ==> forall m :: i < m < w.j ==> Blank(lines[m])
  {
    var s := Strip(lines[i], IsSpace);
    var j := NextNonBlank(lines, i + 1);
    View(s, ShapeOf(s), j, ColonText(lines, j))
  }

  /** The view of every line of a text. */
  function Views(lines: seq<string>): (ws: seq<View>)
    ensures |ws| == |lines| && Coherent(ws)
  {
    seq(|lines|, i requires 0 <= i < |lines| => ViewOf(lines, i))
  }

  /** What every view of a text satisfies: only an empty line has the empty shape,
      and a colon line lies after its header and inside the text. */
  predicate Coherent(ws: seq<View>) {
    forall i :: 0 <= i < |ws| ==>
      (ws[i].shape.Empty? <==> ws[i].s == []) && (ws[i].colon.Some? ==> i < ws[i].j < |ws|)
  }

  /** One turn of the `while i < len(lines)` loop at line `i`, seen as `w`, with
      cursor `cur`. */
  function Turn(top: seq<string>, i: nat, cur: Option<string>, w: View): (st: Step)
    ensures st.next == if w.shape.Alone? && w.colon.Some? then w.j + 1 else i + 1
    ensures (cur.Some? ==> cur.value in top) ==>
      (st.cur.Some? ==> st.cur.value in top) && (st.piece.Some? ==> st.piece.value.0 in top)
  {
    match w.shape
    case Empty => Step(i + 1, cur, None)
    case Inline(ch, rest) => HeaderStep(top, i + 1, ch, rest)
    case Alone(ch) =>
      if w.colon.Some? then HeaderStep(top, w.j + 1, ch, w.colon.value)
      else ContentStep(i, cur, w.s)
    case Content => ContentStep(i, cur, w.s)
  }

  function OptSeq<T>(o: Option<T>): seq<T> {
    if o.Some? then [o.value] else []
  }

  /** Every (section, text) append the loop makes from line `i` on, in order. */
  function Pieces(ws: seq<View>, top: seq<string>, i: nat, cur: Option<string>): seq<(string, string)>
    requires Coherent(ws) && i <= |ws|
    decreases |ws| - i
  {
    if i == |ws| then []
    else
      var st := Turn(top, i, cur, ws[i]);
      OptSeq(st.piece) + Pieces(ws, top, st.next, st.cur)
  }

  /** `buf[h]`: the texts appended to section `h`, in order. */
  function Bodies(pieces: seq<(string, string)>, h: string): seq<string> {
    if pieces == [] then []
    else
      var last := pieces[|pieces| - 1];
      Bodies(pieces[..|pieces| - 1], h) + (if last.0 == h then [last.1] else [])
  }

  /** `"\n".join(buf[h]).strip()`, with an empty result reported as absent (`NaN`). */
  function Value(pieces: seq<(string, string)>, h: string): Option<string> {
    Cell(Bodies(pieces, h))
  }

  /** `s = "\n".join(texts).strip()`, kept when not empty. */
  function Cell(texts: seq<string>): Option<string> {
    var v := Strip(Join(texts, '\n'), IsSpace);
    if v == [] then None else Some(v)
  }

  /** `{key(h): np.nan for h in top[..k]}`, built in order. */
  function Absent(top: seq<string>, key: string -> string, k: nat): map<string, Option<string>>
    requires k <= |top|
  {
    if k == 0 then map[] else Absent(top, key, k - 1)[key(top[k - 1]) := None]
  }

  /** `{to_col_name(h): np.nan for h in top_headers_canon}` */
  function Initial(top: seq<string>): map<string, Option<string>> {
    Absent(top, ToColName, |top|)
  }

  /** The result map after the final loop has handled `top[..k]`: every selected
      header's column starts absent, then column `key(h)` is set to `val(h)` in order. */
  function Fill(top: seq<string>, key: string -> string, val: string -> Option<string>, k: nat): map<string, Option<string>>
    requires k <= |top|
  {
    if k == 0 then Absent(top, key, |top|)
    else Fill(top, key, val, k - 1)[key(top[k - 1]) := val(top[k - 1])]
  }

  /** The result once every selected header's section has been stored. */
  function Filled(top: seq<string>, pieces: seq<(string, string)>): map<string, Option<string>> {
    Fill(top, ToColName, h => Value(pieces, h), |top|)
  }

  /** `extract_top_sections(add_info, top_headers_canon)` */
  function TopSections(v: Option<string>, top: seq<string>): map<string, Option<string>> {
    var txt := NormText(v);
    if Blank(txt) then Initial(top)
    else Filled(top, Pieces(Views(Split(txt, '\n')), top, 0, None))
  }

  // ---------------------------------------------------------------------
  // The loops
  // ---------------------------------------------------------------------

  /** `extract_top_sections`: the line loop with its cursor and per-header buffers,
      then the loop that fills the result. */
  method ExtractTopSections(v: Option<string>, top: seq<string>) returns (out: map<string, Option<string>>)
    ensures out == TopSections(v, top)
  {
    var txt := NormText(v);
    if Blank(txt) {
      out := Initial(top);
      return;
    }
    var lines := Split(txt, '\n');
    var buf := ScanLines(lines, top);
    ghost var pieces := Pieces(Views(lines), top, 0, None);
    out := FillColumns(top, buf, ToColName, Cell, h => Value(pieces, h));
  }

  /** The line loop: `buf[h]` ends up holding every text appended to section `h`. */
  method ScanLines(lines: seq<string>, top: seq<string>) returns (buf: map<string, seq<string>>)
    ensures forall h :: h in top ==> h in buf && buf[h] == Bodies(Pieces(Views(lines), top, 0, None), h)
  {
    ghost var ws := Views(lines);
    var cur: Option<string> := None;
    buf := map h | h in top :: [];
    ghost var done: seq<(string, string)> := [];
    var i := 0;
    while i < |lines|
      invariant i <= |lines|
      invariant Pieces(ws, top, 0, None) == done + Pieces(ws, top, i, cur)
      invariant forall h :: h in top ==> h in buf && buf[h] == Bodies(done, h)
      invariant cur.Some? ==> cur.value in top
      decreases |lines| - i
    {
      var next, c, piece := ScanStep(lines, top, i, cur, ws);
      PiecesStep(ws, top, i, cur, done);
      if piece.Some? {
        AppendKeepsBodies(top, buf, done, piece.value);
        buf := Append(buf, piece.value.0, piece.value.1);
      } else {
        assert done + OptSeq(piece) == done;
      }
      done := done + OptSeq(piece);
      i, cur := next, c;
    }
    assert Pieces(ws, top, i, cur) == [];
    assert done + [] == done;
  }

  /** The final loop: the column `key(h)` of each selected header `h` gets
      `cell(buf[h])`; `val` names what each of those is. */
  method FillColumns(top: seq<string>, buf: map<string, seq<string>>, key: string -> string,
                     cell: seq<string> -> Option<string>, ghost val: string -> Option<string>)
    returns (out: map<string, Option<string>>)
    requires forall h :: h in top ==> h in buf && cell(buf[h]) == val(h)
    ensures out == Fill(top, key, val, |top|)
  {
    out := Absent(top, key, |top|);
    var k := 0;
    while k < |top|
      invariant k <= |top|
      invariant out == Fill(top, key, val, k)
    {
      var h := top[k];
      out := out[key(h) := cell(buf[h])];
      k := k + 1;
    }
  }

  /** `buf[h].append(text)` */
  function Append(buf: map<string, seq<string>>, h: string, text: string): (r: map<string, seq<string>>)
    requires h in buf
    ensures r.Keys == buf.Keys
    ensures forall g :: g in r ==> r[g] == buf[g] + (if g == h then [text] else [])
  {
    buf[h := buf[h] + [text]]
  }

  lemma AppendKeepsBodies(top: seq<string>, buf: map<string, seq<string>>, done: seq<(string, string)>, p: (string, string))
    requires forall h :: h in top ==> h in buf && buf[h] == Bodies(done, h)
    requires p.0 in top
    ensures forall h :: h in top ==> h in Append(buf, p.0, p.1) && Append(buf, p.0, p.1)[h] == Bodies(done + [p], h)
  {
    assert (done + [p])[..|done|] == done;
  }

  /** The body of the line loop: strip the line, see what it is, look for the colon
      line after a standalone header, and act. */
  method ScanStep(lines: seq<string>, top: seq<string>, i: nat, cur: Option<string>, ghost ws: seq<View>)
    returns (next: nat, c: Option<string>, piece: Option<(string, string)>)
    requires i < |lines| && ws == Views(lines)
    ensures Step(next, c, piece) == Turn(top, i, cur, ws[i])
  {
    assert ws[i] == ViewOf(lines, i);
    var s := Strip(lines[i], IsSpace);
    var k := Classify(s);
    var j, colon := i + 1, None;
    if k.Alone? {
      j, colon := FindColonLine(lines, i + 1);
    }
    next, c, piece := Advance(top, i, cur, View(s, k, j, colon));
    if !k.Alone? {
      TurnIgnoresColonLine(top, i, cur, View(s, k, j, colon), ViewOf(lines, i));
    }
  }

  /** `HDR_SAMELINE_RE.match(s)`, then `HDR_STANDALONE_RE.match(s)`, and the
      canonical header of the one that matches. */
  method Classify(s: string) returns (k: Shape)
    ensures k == ShapeOf(s)
  {
    if s == [] {
      return Empty;
    }
    var m := SameLine(s);
    if m.Some? {
      return Inline(CanonHeader(Strip(m.value.header, IsSpace)), m.value.rest);
    }
    var h := Standalone(s);
    if h.Some? {
      return Alone(CanonHeader(Strip(h.value, IsSpace)));
    }
    return Content;
  }

  /** What the loop does with a line it sees as `w`. */
  method Advance(top: seq<string>, i: nat, cur: Option<string>, w: View)
    returns (next: nat, c: Option<string>, piece: Option<(string, string)>)
    ensures Step(next, c, piece) == Turn(top, i, cur, w)
  {
    next, c, piece := i + 1, cur, None;
    match w.shape {
      case Empty =>
      case Inline(ch, rest) =>
        c := if ch in top then Some(ch) else None;
        if c.Some? && rest != [] {
          piece := Some((ch, rest));
        }
      case Alone(ch) =>
        if w.colon.Some? {
          c := if ch in top then Some(ch) else None;
          if c.Some? && w.colon.value != [] {
            piece := Some((ch, w.colon.value));
          }
          next := w.j + 1;
        } else if cur.Some? {
          piece := Some((cur.value, w.s));
        }
      case Content =>
        if cur.Some? {
          piece := Some((cur.value, w.s));
        }
    }
  }

  /** The lookahead of a standalone header: skip blank lines from `from`, then take
      what follows the first colon of the line reached, if it starts with a colon. */
  method FindColonLine(lines: seq<string>, from: nat) returns (j: nat, colon: Option<string>)
    requires from <= |lines|
    ensures j == NextNonBlank(lines, from) && colon == ColonText(lines, j)
  {
    j := SkipBlank(lines, from);
    colon := None;
    if j < |lines| && StartsWithColon(lines[j]) {
      colon := Some(Strip(AfterColon(lines[j]), IsSpace));
    }
  }

  /** `while j < len(lines) and not lines[j].strip(): j += 1` */
  method SkipBlank(lines: seq<string>, from: nat) returns (n: nat)
    requires from <= |lines|
    ensures n == NextNonBlank(lines, from)
  {
    n := from;
    while n < |lines| && Blank(lines[n])
      invariant from <= n <= |lines|
      invariant NextNonBlank(lines, n) == NextNonBlank(lines, from)
    {
      n := n + 1;
    }
  }

  lemma TurnIgnoresColonLine(top: seq<string>, i: nat, cur: Option<string>, w: View, w': View)
    requires !w.shape.Alone? && w'.shape == w.shape && w'.s == w.s
    ensures Turn(top, i, cur, w) == Turn(top, i, cur, w')
  {
  }

  lemma PiecesStep(ws: seq<View>, top: seq<string>, i: nat, cur: Option<string>, done: seq<(string, string)>)
    requires Coherent(ws) && i < |ws|
    ensures var st := Turn(top, i, cur, ws[i]);
      done + Pieces(ws, top, i, cur) == (done + OptSeq(st.piece)) + Pieces(ws, top, st.next, st.cur)
  {
    var st := Turn(top, i, cur, ws[i]);
    Assoc(done, OptSeq(st.piece), Pieces(ws, top, st.next, st.cur));
  }

  // ---------------------------------------------------------------------
  // Properties of one turn
  // ---------------------------------------------------------------------

  /** Text always goes to the section the cursor names after the line, and no empty
      text is ever appended. */
  lemma AppendsToCursor(top: seq<string>, i: nat, cur: Option<string>, w: View)
    requires w.shape.Empty? <==> w.s == []
    ensures var st := Turn(top, i, cur, w);
      st.piece.Some? ==> st.cur == Some(st.piece.value.0) && st.piece.value.1 != []
  {
  }

  /** A line that is neither a header nor completed by a colon line leaves the
      cursor where it was; a header line moves it to the header when selected and to
      nothing otherwise, dropping what follows until the next header. */
  lemma CursorMovesOnlyAtHeaders(top: seq<string>, i: nat, cur: Option<string>, w: View)
    ensures var st := Turn(top, i, cur, w);
      match w.shape
      case Inline(ch, _) => st.cur == Target(ch, top)
      case Alone(ch) => st.cur == (if w.colon.Some? then Target(ch, top) else cur)
      case _ => st.cur == cur
  {
  }

  /** `extract_headers` and `extract_top_sections` read a line the same way: it is
      a recorded header exactly when it moves the cursor, and the header the cursor
      moves to is the canonical form of the one recorded. */
  lemma RecordedHeaderMovesCursor(lines: seq<string>, i: nat, w: View)
    requires i < |lines| && w == ViewOf(lines, i)
    ensures LineHeader(lines, i).Some? <==> w.shape.Inline? || (w.shape.Alone? && w.colon.Some?)
    ensures LineHeader(lines, i).Some? ==> CanonHeader(LineHeader(lines, i).value) == w.shape.ch
  {
    var s := Strip(lines[i], IsSpace);
    if s == [] {
      EmptyLineShape(lines, i, s, w);
    } else {
      match SameLine(s)
      case Some(m) => InlineLineShape(lines, i, s, m, w);
      case None =>
        match Standalone(s)
        case Some(h) =>
          AloneLineShape(lines, i, s, h, w);
          StandaloneIsStripped(s, h);
        case None => ContentLineShape(lines, i, s, w);
    }
  }

  lemma EmptyLineShape(lines: seq<string>, i: nat, s: string, w: View)
    requires i < |lines| && w == ViewOf(lines, i) && s == Strip(lines[i], IsSpace) && s == []
    ensures LineHeader(lines, i).None? && w.shape.Empty?
  {
  }

  lemma InlineLineShape(lines: seq<string>, i: nat, s: string, m: SameLineMatch, w: View)
    requires i < |lines| && w == ViewOf(lines, i) && s == Strip(lines[i], IsSpace)
    requires s != [] && SameLine(s) == Some(m)
    ensures LineHeader(lines, i) == Some(Strip(m.header, IsSpace))
    ensures w.shape == Inline(CanonHeader(Strip(m.header, IsSpace)), m.rest)
  {
  }

  lemma AloneLineShape(lines: seq<string>, i: nat, s: string, h: string, w: View)
    requires i < |lines| && w == ViewOf(lines, i) && s == Strip(lines[i], IsSpace)
    requires s != [] && SameLine(s).None? && Standalone(s) == Some(h)
    ensures LineHeader(lines, i) == if w.colon.Some? then Some(h) else None
    ensures w.shape == Alone(CanonHeader(Strip(h, IsSpace)))
  {
  }

  lemma ContentLineShape(lines: seq<string>, i: nat, s: string, w: View)
    requires i < |lines| && w == ViewOf(lines, i) && s == Strip(lines[i], IsSpace)
    requires s != [] && SameLine(s).None? && Standalone(s).None?
    ensures LineHeader(lines, i).None? && w.shape.Content?
  {
  }

  lemma StandaloneIsStripped(s: string, h: string)
    requires Standalone(s) == Some(h)
    ensures Strip(h, IsSpace) == h
  {
    var t := Strip(s, IsSpace);
    assert h == t;
    StripFixed(t, IsSpace);
  }

  // ---------------------------------------------------------------------
  // What each kind of line contributes
  // ---------------------------------------------------------------------

  /** A blank line contributes nothing and keeps the cursor. */
  lemma BlankLineSkipped(lines: seq<string>, top: seq<string>, i: nat, cur: Option<string>)
    requires i < |lines| && Strip(lines[i], IsSpace) == []
    ensures Pieces(Views(lines), top, i, cur) == Pieces(Views(lines), top, i + 1, cur)
  {
    var ws := Views(lines);
    assert ws[i] == ViewOf(lines, i);
  }

  /** A same-line header ("Header: text") moves the cursor to its canonical header
      (or to nothing when it is not selected) and contributes the text after the
      colon to that section when it is selected and the text is not empty. */
  lemma InlineHeaderLine(lines: seq<string>, top: seq<string>, i: nat, cur: Option<string>, m: SameLineMatch, ch: string)
    requires i < |lines| && Strip(lines[i], IsSpace) != []
    requires SameLine(Strip(lines[i], IsSpace)) == Some(m) && ch == CanonHeader(Strip(m.header, IsSpace))
    ensures Pieces(Views(lines), top, i, cur)
      == (if ch in top && m.rest != [] then [(ch, m.rest)] else []) + Pieces(Views(lines), top, i + 1, Target(ch, top))
  {
    var ws := Views(lines);
    assert ws[i].shape == Inline(ch, m.rest) by {
      var w := ViewOf(lines, i);
      assert ws[i] == w;
      InlineLineShape(lines, i, Strip(lines[i], IsSpace), m, w);
    }
    InlineTurn(ws, top, i, cur, ch, m.rest);
  }

  /** A same-line header, one turn over the views. */
  lemma InlineTurn(ws: seq<View>, top: seq<string>, i: nat, cur: Option<string>, ch: string, rest: string)
    requires Coherent(ws) && i < |ws| && ws[i].shape == Inline(ch, rest)
    ensures Pieces(ws, top, i, cur)
      == (if ch in top && rest != [] then [(ch, rest)] else []) + Pieces(ws, top, i + 1, Target(ch, top))
  {
  }

  /** A standalone header whose next non-blank line `j` starts with a colon consumes
      that line: the cursor moves to its canonical header (or to nothing), the text
      after the first colon of line `j`, stripped, goes to that section when it is
      selected and not empty, and the loop goes on after line `j`. */
  lemma StandaloneHeaderLine(lines: seq<string>, top: seq<string>, i: nat, cur: Option<string>,
                              h: string, j: nat, ch: string, a: string)
    requires i < |lines| && Strip(lines[i], IsSpace) != []
    requires SameLine(Strip(lines[i], IsSpace)).None? && Standalone(Strip(lines[i], IsSpace)) == Some(h)
    requires j == NextNonBlank(lines, i + 1) && j < |lines| && StartsWithColon(lines[j])
    requires ch == CanonHeader(Strip(h, IsSpace)) && a == Strip(AfterColon(lines[j]), IsSpace)
    ensures Pieces(Views(lines), top, i, cur)
      == (if ch in top && a != [] then [(ch, a)] else []) + Pieces(Views(lines), top, j + 1, Target(ch, top))
  {
    var ws := Views(lines);
    assert ws[i].shape == Alone(ch) && ws[i].colon == Some(a) && ws[i].j == j by {
      var w := ViewOf(lines, i);
      assert ws[i] == w;
      AloneLineShape(lines, i, Strip(lines[i], IsSpace), h, w);
    }
    AloneTurn(ws, top, i, cur, ch, a, j);
  }

  /** A standalone header with its colon line, one turn over the views. */
  lemma AloneTurn(ws: seq<View>, top: seq<string>, i: nat, cur: Option<string>, ch: string, a: string, j: nat)
    requires Coherent(ws) && i < |ws| && ws[i].shape == Alone(ch) && ws[i].colon == Some(a) && ws[i].j == j
    ensures j + 1 <= |ws|
    ensures Pieces(ws, top, i, cur)
      == (if ch in top && a != [] then [(ch, a)] else []) + Pieces(ws, top, j + 1, Target(ch, top))
  {
  }

  /** Any other non-blank line, including a header-shaped line with no colon line
      after it, is content: it goes to the current section, stripped, if there is
      one, and the cursor stays. */
  lemma ContentLine(lines: seq<string>, top: seq<string>, i: nat, cur: Option<string>)
    requires i < |lines| && Strip(lines[i], IsSpace) != []
    requires SameLine(Strip(lines[i], IsSpace)).None?
    requires Standalone(Strip(lines[i], IsSpace)).Some? ==>
      !(NextNonBlank(lines, i + 1) < |lines| && StartsWithColon(lines[NextNonBlank(lines, i + 1)]))
    ensures Pieces(Views(lines), top, i, cur)
      == (if cur.Some? then [(cur.value, Strip(lines[i], IsSpace))] else []) + Pieces(Views(lines), top, i + 1, cur)
  {
    var ws := Views(lines);
    var s := Strip(lines[i], IsSpace);
    assert ws[i].s == s && (ws[i].shape.Content? || (ws[i].shape.Alone? && ws[i].colon.None?)) by {
      var w := ViewOf(lines, i);
      assert ws[i] == w;
      match Standalone(s)
      case Some(h) =>
        AloneLineShape(lines, i, s, h, w);
        assert w.colon.None?;
      case None => ContentLineShape(lines, i, s, w);
    }
    ContentTurn(ws, top, i, cur, s);
  }

  /** A content line, one turn over the views. */
  lemma ContentTurn(ws: seq<View>, top: seq<string>, i: nat, cur: Option<string>, s: string)
    requires Coherent(ws) && i < |ws| && ws[i].s == s
    requires ws[i].shape.Content? || (ws[i].shape.Alone? && ws[i].colon.None?)
    ensures Pieces(ws, top, i, cur)
      == (if cur.Some? then [(cur.value, s)] else []) + Pieces(ws, top, i + 1, cur)
  {
  }

  // ---------------------------------------------------------------------
  // Properties of the whole text
  // ---------------------------------------------------------------------

  /** Texts only ever go to selected headers. */
  lemma {:induction false} PiecesInTop(ws: seq<View>, top: seq<string>, i: nat, cur: Option<string>)
    requires Coherent(ws) && i <= |ws|
    requires cur.Some? ==> cur.value in top
    ensures forall p :: p in Pieces(ws, top, i, cur) ==> p.0 in top
    decreases |ws| - i
  {
    if i < |ws| {
      var st := Turn(top, i, cur, ws[i]);
      PiecesInTop(ws, top, st.next, st.cur);
    }
  }

  /** A section's texts from two runs of lines are those of the first, then those of
      the second. */
  lemma {:induction false} BodiesAppend(a: seq<(string, string)>, b: seq<(string, string)>, h: string)
    ensures Bodies(a + b, h) == Bodies(a, h) + Bodies(b, h)
    decreases |b|
  {
    if b == [] {
      assert a + b == a;
    } else {
      var b' := b[..|b| - 1];
      assert (a + b)[..|a + b| - 1] == a + b';
      BodiesAppend(a, b', h);
    }
  }

  /** A section is absent exactly when its joined text is blank; otherwise it is that
      text without surrounding whitespace. */
  lemma CellAbsentIffBlank(texts: seq<string>)
    ensures Cell(texts).None? <==> Blank(Join(texts, '\n'))
    ensures Cell(texts).Some? ==> NoEdge(Cell(texts).value, IsSpace)
  {
    BlankIsEmptyStrip(Join(texts, '\n'));
  }

  lemma {:induction false} AbsentKeys(top: seq<string>, key: string -> string, k: nat)
    requires k <= |top|
    ensures Absent(top, key, k).Keys == set h | h in top[..k] :: key(h)
    ensures forall c :: c in Absent(top, key, k) ==> Absent(top, key, k)[c].None?
  {
    if k > 0 {
      AbsentKeys(top, key, k - 1);
      assert top[..k] == top[..k - 1] + [top[k - 1]];
    }
  }

  lemma {:induction false} FillKeys(top: seq<string>, key: string -> string, val: string -> Option<string>, k: nat)
    requires k <= |top|
    ensures Fill(top, key, val, k).Keys == set h | h in top :: key(h)
  {
    if k == 0 {
      AbsentKeys(top, key, |top|);
      assert top[..|top|] == top;
    } else {
      FillKeys(top, key, val, k - 1);
    }
  }

  /** The column of `top[idx]` holds `val(top[idx])` once no later header has
      overwritten it. */
  lemma {:induction false} FillLast(top: seq<string>, key: string -> string, val: string -> Option<string>, k: nat, idx: nat)
    requires idx < k <= |top|
    requires forall t :: idx < t < k ==> key(top[t]) != key(top[idx])
    ensures key(top[idx]) in Fill(top, key, val, k) && Fill(top, key, val, k)[key(top[idx])] == val(top[idx])
  {
    if idx < k - 1 {
      FillLast(top, key, val, k - 1, idx);
    }
  }

  /** The result has one column per selected header, `to_col_name(h)`, whatever the
      text. */
  lemma SectionColumns(v: Option<string>, top: seq<string>)
    ensures TopSections(v, top).Keys == set h | h in top :: ToColName(h)
  {
    var txt := NormText(v);
    if Blank(txt) {
      AbsentKeys(top, ToColName, |top|);
      assert top[..|top|] == top;
    } else {
      FillKeys(top, ToColName, h => Value(Pieces(Views(Split(txt, '\n')), top, 0, None), h), |top|);
    }
  }

  /** A missing or blank text leaves every column absent. */
  lemma BlankTextAllAbsent(v: Option<string>, top: seq<string>)
    requires Blank(NormText(v))
    ensures forall c :: c in TopSections(v, top) ==> TopSections(v, top)[c].None?
  {
    AbsentKeys(top, ToColName, |top|);
  }

  /** The column of a selected header holds that header's joined section, unless a
      later selected header has the same column name, in which case the later one
      overwrites it. */
  lemma SectionOfLastHeader(v: Option<string>, top: seq<string>, idx: nat)
    requires idx < |top| && !Blank(NormText(v))
    requires forall t :: idx < t < |top| ==> ToColName(top[t]) != ToColName(top[idx])
    ensures ToColName(top[idx]) in TopSections(v, top)
    ensures var pieces := Pieces(Views(Split(NormText(v), '\n')), top, 0, None);
      TopSections(v, top)[ToColName(top[idx])] == Value(pieces, top[idx])
  {
    var pieces := Pieces(Views(Split(NormText(v), '\n')), top, 0, None);
    FillLast(top, ToColName, h => Value(pieces, h), |top|, idx);
  }
}
