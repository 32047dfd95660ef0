/** `parse_peptide_page` of the APD scraper (Data/parser_AMP6_DB.py): one
    peptide's page turned into one CSV record.  A page is given as what the
    parser reads from it: the rows of its peptide table (each row's direct
    `<td>` cells with their text nodes and, inside them, the `<b>` labels with
    the siblings that follow each), and the text nodes of its sequence
    paragraph. */
module PeptidePage {
  import opened Wrappers
  import opened Text
  import opened Collections
  import opened Whitespace

  /** `CSV_FIELDS`: the columns of the output file, in order. */
  const CsvFields: seq<string> := [
    "APD ID", "Name/Class", "Source", "Sequence", "Length", "Net charge",
    "Hydrophobic residue%", "Boman Index", "3D Structure", "Method",
    "Activity", "Crucial residues", "Additional info",
    "History and discovery", "Sequence analysis",
    "Title", "Author", "Reference"
  ]

  /** Where the columns the parser fills specially sit in `CsvFields`. */
  lemma SpecialColumns()
    ensures CsvFields[3] == "Sequence" && CsvFields[12] == "Additional info"
    ensures CsvFields[13] == "History and discovery" && CsvFields[14] == "Sequence analysis"
  {
  }

  /** A sibling of a label: a bare string, or an element with its tag name and text nodes. */
  datatype Node = Str(s: string) | Elem(tag: string, texts: seq<string>)

  /** A `<b>` label: its text nodes and the siblings after it, in order. */
  datatype Label = Label(texts: seq<string>, after: seq<Node>)

  /** A `<td>` directly under its row: its text nodes and the `<b>` labels inside it. */
  datatype Cell = Cell(texts: seq<string>, labels: seq<Label>)

  type Row = seq<Cell>

  /** `table.peptide` (absent, or its rows) and `p.peptide_sequence` (absent, or its text nodes). */
  datatype Page = Page(table: Option<seq<Row>>, seqTag: Option<seq<string>>)

  // ---------------------------------------------------------------------
  // Text of elements
  // ---------------------------------------------------------------------

  /** The text nodes that are not blank, each stripped. */
  function StrippedNodes(texts: seq<string>): seq<string> {
    if texts == [] then []
    else
      var t := Strip(texts[|texts| - 1], IsSpace);
      StrippedNodes(texts[..|texts| - 1]) + (if t != [] then [t] else [])
  }

  /** `get_text(sep, strip=True)`. */
  function GetText(texts: seq<string>, sep: char): string {
    Join(StrippedNodes(texts), sep)
  }

  predicate IsColon(c: char) { c == ':' }

  /** `rstrip(":")`. */
  function StripColons(x: string): (r: string)
    ensures r == [] || r[|r| - 1] != ':'
  {
    TrimEnd(x, IsColon)
  }

  /** `norm_ws(x.get_text(" ", strip=True)).rstrip(":")`: how a key or a title is read. */
  function LabelText(texts: seq<string>): (r: string)
    ensures r == [] || r[|r| - 1] != ':'
  {
    StripColons(NormWs(GetText(texts, ' ')))
  }

  // ---------------------------------------------------------------------
  // Reading a sequence of elements
  // ---------------------------------------------------------------------

  /** What the parser reads from every element of `xs`, one view each. */
  function Views<T, V>(xs: seq<T>, view: T -> V): (vs: seq<V>)
    ensures |vs| == |xs|
  {
    seq(|xs|, i requires 0 <= i < |xs| => view(xs[i]))
  }

  /** Element `i` of `vs` is what is read from element `i` of `xs`. */
  predicate ReadAt<T, V(==)>(xs: seq<T>, vs: seq<V>, view: T -> V, i: nat)
    requires i < |xs| && i < |vs|
  {
    vs[i] == view(xs[i])
  }

  /** `vs` holds what is read from each element of `xs`.  The loops below
      carry this rather than `vs == Views(xs, view)`, so that a view is
      looked into only where an element is read. */
  predicate Viewed<T, V(==)>(xs: seq<T>, vs: seq<V>, view: T -> V) {
    |vs| == |xs| && forall i: nat :: i < |xs| ==> ReadAt(xs, vs, view, i)
  }

  lemma ViewsViewed<T, V>(xs: seq<T>, view: T -> V)
    ensures Viewed(xs, Views(xs, view), view)
  {
    forall i: nat | i < |xs| ensures ReadAt(xs, Views(xs, view), view, i) {
    }
  }

  // ---------------------------------------------------------------------
  // The key/value table
  // ---------------------------------------------------------------------

  /** What both row loops read from a row: nothing unless it has exactly two
      cells; then the key (the first cell's text), the value (the second
      cell's text, lines kept) and the second cell itself. */
  datatype RowView = Other | TwoCells(key: string, val: string, second: Cell)

  function ViewRow(row: Row): RowView {
    if |row| != 2 then Other
    else TwoCells(LabelText(row[0].texts), NormWs(GetText(row[1].texts, '\n')), row[1])
  }

  /** Reading row `i`: `find_all("td", recursive=False)`, the width test, and
      the two cell texts. */
  method ReadRow(rows: seq<Row>, i: nat, ghost vs: seq<RowView>) returns (v: RowView)
    requires i < |rows| && Viewed(rows, vs, ViewRow)
    ensures v == vs[i]
    ensures v.TwoCells? <==> |rows[i]| == 2
  {
    assert ReadAt(rows, vs, ViewRow, i);
    var tds := rows[i];
    if |tds| != 2 {
      return Other;
    }
    var key := StripColons(NormWs(GetText(tds[0].texts, ' ')));
    var val := NormWs(GetText(tds[1].texts, '\n'));
    v := TwoCells(key, val, tds[1]);
  }

  /** The assignment `kv[key] = val` a row makes, if any: only rows of exactly
      two cells with a non-empty key make one. */
  function RowEntry(v: RowView): (e: Option<(string, string)>)
    ensures e.Some? <==> v.TwoCells? && v.key != ""
    ensures e.Some? ==> e.value == (v.key, v.val)
  {
    if v.TwoCells? && v.key != "" then Some((v.key, v.val)) else None
  }

  /** The `kv` loop over the rows. */
  method ReadTable(rows: seq<Row>, ghost vs: seq<RowView>) returns (kv: map<string, string>)
    requires Viewed(rows, vs, ViewRow)
    ensures kv == Assign(vs, RowEntry)
  {
    kv := map[];
    for i := 0 to |rows|
      invariant kv == Assign(vs[..i], RowEntry)
    {
      assert vs[..i + 1][..i] == vs[..i];
      var v := ReadRow(rows, i, vs);
      if v.Other? {
        continue;
      }
      if v.key != "" {
        kv := kv[v.key := v.val];
      }
    }
    assert vs[..|rows|] == vs;
  }

  /** The table, with the sequence paragraph's text, when there is one,
      replacing the table's "Sequence". */
  function Table(page: Page): map<string, string>
    requires page.table.Some?
  {
    var kv := Assign(Views(page.table.value, ViewRow), RowEntry);
    if page.seqTag.Some? then kv["Sequence" := NormWs(GetText(page.seqTag.value, ' '))] else kv
  }

  // ---------------------------------------------------------------------
  // The additional-information cell
  // ---------------------------------------------------------------------

  /** A two-cell row whose key reads "additional info" whatever its case. */
  predicate IsInfoRow(v: RowView) {
    v.TwoCells? && Lower(v.key) == "additional info"
  }

  /** The index of the first additional-information row, if any. */
  function InfoRow(vs: seq<RowView>): (k: Option<nat>)
    ensures k.Some? ==> k.value < |vs| && IsInfoRow(vs[k.value])
    ensures k.Some? ==> forall j :: 0 <= j < k.value ==> !IsInfoRow(vs[j])
    ensures k.None? ==> forall j :: 0 <= j < |vs| ==> !IsInfoRow(vs[j])
  {
    if vs == [] then None
    else if IsInfoRow(vs[0]) then Some(0)
    else
      var k := InfoRow(vs[1..]);
      if k.Some? then Some(k.value + 1) else None
  }

  /** `add_cell`: the second cell of the first additional-information row. */
  function InfoCell(vs: seq<RowView>): Option<Cell> {
    var k := InfoRow(vs);
    if k.Some? then Some(vs[k.value].second) else None
  }

  /** The `add_cell` loop, which stops at the first match. */
  method FindInfoCell(rows: seq<Row>, ghost vs: seq<RowView>) returns (cell: Option<Cell>)
    requires Viewed(rows, vs, ViewRow)
    ensures cell == InfoCell(vs)
  {
    cell := None;
    var i := 0;
    while i < |rows|
      invariant 0 <= i <= |rows|
      invariant forall j :: 0 <= j < i ==> !IsInfoRow(vs[j])
    {
      var v := ReadRow(rows, i, vs);
      if v.TwoCells? && Lower(v.key) == "additional info" {
        cell := Some(v.second);
        FirstInfoRow(vs, i);
        return;
      }
      i := i + 1;
    }
    NoInfoRow(vs);
  }

  lemma {:induction false} FirstInfoRow(vs: seq<RowView>, i: nat)
    requires i < |vs| && IsInfoRow(vs[i])
    requires forall j :: 0 <= j < i ==> !IsInfoRow(vs[j])
    ensures InfoRow(vs) == Some(i)
  {
    if i > 0 {
      FirstInfoRow(vs[1..], i - 1);
    }
  }

  lemma NoInfoRow(vs: seq<RowView>)
    requires forall j :: 0 <= j < |vs| ==> !IsInfoRow(vs[j])
    ensures InfoRow(vs) == None
  {
  }

  // ---------------------------------------------------------------------
  // Bold-label sections
  // ---------------------------------------------------------------------

  predicate IsBold(n: Node) { n.Elem? && n.tag == "b" }

  /** What the sibling walk reads from a sibling: a `<b>`, where it stops, or
      the normalised text of anything else (a string as it is, an element by
      `get_text(" ", strip=True)`). */
  datatype NodeView = Bold | Text(t: string)

  function ViewNode(n: Node): NodeView {
    if IsBold(n) then Bold
    else Text(NormWs(if n.Str? then n.s else GetText(n.texts, ' ')))
  }

  /** Reading sibling `i`. */
  method ReadNode(nodes: seq<Node>, i: nat, ghost ns: seq<NodeView>) returns (v: NodeView)
    requires i < |nodes| && Viewed(nodes, ns, ViewNode)
    ensures v == ns[i]
    ensures v.Bold? <==> IsBold(nodes[i])
  {
    assert ReadAt(nodes, ns, ViewNode, i);
    var sib := nodes[i];
    if sib.Elem? && sib.tag == "b" {
      return Bold;
    }
    var txt := if sib.Str? then sib.s else GetText(sib.texts, ' ');
    v := Text(NormWs(txt));
  }

  /** The non-empty texts of the siblings before the next `<b>`. */
  function Parts(ns: seq<NodeView>): (ps: seq<string>)
    ensures forall k :: 0 <= k < |ps| ==> ps[k] != []
  {
    if ns == [] || ns[0].Bold? then []
    else (if ns[0].t != [] then [ns[0].t] else []) + Parts(ns[1..])
  }

  /** The sibling walk, which breaks at the next `<b>`. */
  method CollectParts(nodes: seq<Node>, ghost ns: seq<NodeView>) returns (parts: seq<string>)
    requires Viewed(nodes, ns, ViewNode)
    ensures parts == Parts(ns)
  {
    parts := [];
    var i := 0;
    while i < |nodes|
      invariant 0 <= i <= |nodes|
      invariant Parts(ns) == parts + Parts(ns[i..])
    {
      var v := ReadNode(nodes, i, ns);
      if v.Bold? {
        break;
      }
      assert ns[i..][1..] == ns[i + 1..];
      if v.t != "" {
        parts := parts + [v.t];
      }
      i := i + 1;
    }
    assert parts + [] == parts;
  }

  /** `norm_ws(" ".join(parts))`, with one leading colon and the whitespace
      after it removed. */
  function Body(parts: seq<string>): string {
    var b := NormWs(Join(parts, ' '));
    if b != [] && b[0] == ':' then NormWs(b[1..]) else b
  }

  /** What the `sections` loop reads from a label: its title and its body. */
  datatype LabelView = LabelView(title: string, body: string)

  function ViewLabel(bold: Label): LabelView {
    LabelView(LabelText(bold.texts), Body(Parts(Views(bold.after, ViewNode))))
  }

  /** The assignment `sections[title.lower()] = body` a label makes, if any:
      only a label with a non-empty title and a non-empty body makes one. */
  function LabelEntry(v: LabelView): (e: Option<(string, string)>)
    ensures e.Some? <==> v.title != "" && v.body != ""
    ensures e.Some? ==> e.value == (Lower(v.title), v.body)
  {
    if v.title == "" || v.body == "" then None else Some((Lower(v.title), v.body))
  }

  /** One turn of the `sections` loop: the title, and only when it is not
      empty, the sibling walk and the body. */
  method ReadLabel(labels: seq<Label>, i: nat, ghost ls: seq<LabelView>) returns (e: Option<(string, string)>)
    requires i < |labels| && Viewed(labels, ls, ViewLabel)
    ensures e == LabelEntry(ls[i])
  {
    assert ReadAt(labels, ls, ViewLabel, i);
    var bold := labels[i];
    var title := StripColons(NormWs(GetText(bold.texts, ' ')));
    if title == "" {
      return None;
    }
    ghost var ns := Views(bold.after, ViewNode);
    ViewsViewed(bold.after, ViewNode);
    var parts := CollectParts(bold.after, ns);
    var body := NormWs(Join(parts, ' '));
    if body != [] && body[0] == ':' {
      body := NormWs(body[1..]);
    }
    e := if body != "" then Some((Lower(title), body)) else None;
  }

  /** The `sections` loop over the labels of the additional-information cell. */
  method ReadSections(labels: seq<Label>, ghost ls: seq<LabelView>) returns (sections: map<string, string>)
    requires Viewed(labels, ls, ViewLabel)
    ensures sections == Assign(ls, LabelEntry)
  {
    sections := map[];
    for i := 0 to |labels|
      invariant sections == Assign(ls[..i], LabelEntry)
    {
      assert ls[..i + 1][..i] == ls[..i];
      var e := ReadLabel(labels, i, ls);
      if e.Some? {
        sections := sections[e.value.0 := e.value.1];
      }
    }
    assert ls[..|labels|] == ls;
  }

  // ---------------------------------------------------------------------
  // The record
  // ---------------------------------------------------------------------

  /** `d.get(k, "")`. */
  function Get(d: map<string, string>, k: string): (v: string)
    ensures k in d ==> v == d[k]
    ensures k !in d ==> v == ""
  {
    if k in d then d[k] else ""
  }

  /** What comes of the additional-information cell: its full text and the
      two sections the record keeps; all "" without such a cell. */
  datatype Info = Info(full: string, history: string, analysis: string)

  function InfoOf(cell: Option<Cell>): Info {
    if cell.None? then Info("", "", "")
    else
      var sections := Assign(Views(cell.value.labels, ViewLabel), LabelEntry);
      Info(NormWs(GetText(cell.value.texts, '\n')),
           Get(sections, "history and discovery"), Get(sections, "sequence analysis"))
  }

  /** `out`: every CSV field, from the table unless it is one of the three
      taken from the additional-information cell. */
  function Record(kv: map<string, string>, info: Info): (out: map<string, string>)
    ensures out.Keys == set k | k in CsvFields
    ensures forall k :: k in CsvFields ==>
      k == "Additional info" || k == "History and discovery" || k == "Sequence analysis" || out[k] == Get(kv, k)
  {
    map k | k in CsvFields ::
      if k == "Additional info" then info.full
      else if k == "History and discovery" then info.history
      else if k == "Sequence analysis" then info.analysis
      else Get(kv, k)
  }

  /** The three columns taken from the additional-information cell. */
  lemma InfoColumns(kv: map<string, string>, info: Info)
    ensures var out := Record(kv, info);
      "Additional info" in out && "History and discovery" in out && "Sequence analysis" in out
    ensures Record(kv, info)["Additional info"] == info.full
    ensures Record(kv, info)["History and discovery"] == info.history
    ensures Record(kv, info)["Sequence analysis"] == info.analysis
  {
    SpecialColumns();
  }

  /** What `parse_peptide_page` returns, or the `ValueError` it raises. */
  function PeptideRecord(page: Page): (r: Result<map<string, string>, string>)
    ensures r.Failure? <==> page.table.None?
  {
    if page.table.None? then Failure("No peptide table found (table.peptide)")
    else
      var vs := Views(page.table.value, ViewRow);
      Success(Record(Table(page), InfoOf(InfoCell(vs))))
  }

  /** `parse_peptide_page`. */
  method ParsePeptidePage(page: Page) returns (r: Result<map<string, string>, string>)
    ensures r == PeptideRecord(page)
  {
    if page.table.None? {
      return Failure("No peptide table found (table.peptide)");
    }
    var rows := page.table.value;
    ghost var vs := Views(rows, ViewRow);
    ViewsViewed(rows, ViewRow);
    var kv := ReadTable(rows, vs);
    if page.seqTag.Some? {
      kv := kv["Sequence" := NormWs(GetText(page.seqTag.value, ' '))];
    }
    var cell := FindInfoCell(rows, vs);
    var info := Info("", "", "");
    if cell.Some? {
      var full := NormWs(GetText(cell.value.texts, '\n'));
      ghost var ls := Views(cell.value.labels, ViewLabel);
      ViewsViewed(cell.value.labels, ViewLabel);
      var sections := ReadSections(cell.value.labels, ls);
      info := Info(full, Get(sections, "history and discovery"), Get(sections, "sequence analysis"));
    }
    r := Success(Record(kv, info));
  }

  // ---------------------------------------------------------------------
  // Properties
  // ---------------------------------------------------------------------

  /** A column other than the three taken from the additional-information
      cell is the table's entry, or "" when the table has none; the sequence
      paragraph, when there is one, overrides "Sequence". */
  lemma TableColumn(page: Page, k: string)
    requires page.table.Some? && k in CsvFields
    requires k != "Additional info" && k != "History and discovery" && k != "Sequence analysis"
    ensures k == "Sequence" && page.seqTag.Some? ==>
      PeptideRecord(page).value[k] == NormWs(GetText(page.seqTag.value, ' '))
    ensures (k != "Sequence" || page.seqTag.None?) ==>
      PeptideRecord(page).value[k] == Get(Assign(Views(page.table.value, ViewRow), RowEntry), k)
  {
  }

  /** Every key of the table is a two-cell row's key text, never empty and
      never ending in a colon, and its value is that row's second cell text. */
  lemma TableKeys(rows: seq<Row>, vs: seq<RowView>, k: string)
    requires Viewed(rows, vs, ViewRow) && k in Assign(vs, RowEntry)
    ensures k != "" && k[|k| - 1] != ':'
    ensures exists i :: 0 <= i < |rows| && |rows[i]| == 2 && LabelText(rows[i][0].texts) == k
                        && Assign(vs, RowEntry)[k] == NormWs(GetText(rows[i][1].texts, '\n'))
  {
    AssignFrom(vs, RowEntry);
    var i :| 0 <= i < |vs| && RowEntry(vs[i]) == Some((k, Assign(vs, RowEntry)[k]));
    assert ReadAt(rows, vs, ViewRow, i);
  }

  /** A later row with the same key overwrites an earlier one: the value is
      that of the last two-cell row with the key. */
  lemma LastRowWins(rows: seq<Row>, i: nat)
    requires i < |rows| && |rows[i]| == 2 && LabelText(rows[i][0].texts) != ""
    requires forall j :: i < j < |rows| ==>
      |rows[j]| != 2 || LabelText(rows[j][0].texts) != LabelText(rows[i][0].texts)
    ensures var k := LabelText(rows[i][0].texts);
      k in Assign(Views(rows, ViewRow), RowEntry)
      && Assign(Views(rows, ViewRow), RowEntry)[k] == NormWs(GetText(rows[i][1].texts, '\n'))
  {
    var vs := Views(rows, ViewRow);
    var k := LabelText(rows[i][0].texts);
    forall j | i < j < |vs| ensures RowEntry(vs[j]).None? || RowEntry(vs[j]).value.0 != k {
      assert vs[j] == ViewRow(rows[j]);
    }
    assert vs[i] == ViewRow(rows[i]);
    AssignLast(vs, RowEntry, i, k, NormWs(GetText(rows[i][1].texts, '\n')));
  }

  /** Rows without exactly two cells change nothing. */
  lemma OtherRowsIgnored(rows: seq<Row>, row: Row)
    requires |row| != 2
    ensures Assign(Views(rows + [row], ViewRow), RowEntry) == Assign(Views(rows, ViewRow), RowEntry)
  {
    var vs := Views(rows + [row], ViewRow);
    assert vs[..|rows|] == Views(rows, ViewRow);
    assert vs[|rows|] == Other;
  }

  /** The additional-information cell is the second cell of the first
      two-cell row whose key reads "additional info" in any case. */
  lemma InfoCellIsFirst(rows: seq<Row>, i: nat)
    requires i < |rows| && |rows[i]| == 2 && Lower(LabelText(rows[i][0].texts)) == "additional info"
    requires forall j :: 0 <= j < i ==>
      |rows[j]| != 2 || Lower(LabelText(rows[j][0].texts)) != "additional info"
    ensures InfoCell(Views(rows, ViewRow)) == Some(rows[i][1])
  {
    var vs := Views(rows, ViewRow);
    ViewsViewed(rows, ViewRow);
    FirstInfoRowViewed(rows, vs, i);
  }

  lemma FirstInfoRowViewed(rows: seq<Row>, vs: seq<RowView>, i: nat)
    requires Viewed(rows, vs, ViewRow)
    requires i < |rows| && |rows[i]| == 2 && Lower(LabelText(rows[i][0].texts)) == "additional info"
    requires forall j :: 0 <= j < i ==>
      |rows[j]| != 2 || Lower(LabelText(rows[j][0].texts)) != "additional info"
    ensures InfoCell(vs) == Some(rows[i][1])
  {
    forall j | 0 <= j < i ensures !IsInfoRow(vs[j]) {
      NotInfoRow(rows, vs, j);
    }
    assert ReadAt(rows, vs, ViewRow, i);
    FirstInfoRow(vs, i);
  }

  lemma NotInfoRow(rows: seq<Row>, vs: seq<RowView>, j: nat)
    requires Viewed(rows, vs, ViewRow) && j < |rows|
    requires |rows[j]| != 2 || Lower(LabelText(rows[j][0].texts)) != "additional info"
    ensures !IsInfoRow(vs[j])
  {
    assert ReadAt(rows, vs, ViewRow, j);
  }

  /** Without such a row there is no additional-information cell, and the
      three columns taken from it are empty. */
  lemma NoInfoCell(page: Page)
    requires page.table.Some?
    requires forall j :: 0 <= j < |page.table.value| ==>
      |page.table.value[j]| != 2 || Lower(LabelText(page.table.value[j][0].texts)) != "additional info"
    ensures InfoCell(Views(page.table.value, ViewRow)) == None
    ensures var out := PeptideRecord(page).value;
      "Additional info" in out && "History and discovery" in out && "Sequence analysis" in out
    ensures PeptideRecord(page).value["Additional info"] == ""
    ensures PeptideRecord(page).value["History and discovery"] == ""
    ensures PeptideRecord(page).value["Sequence analysis"] == ""
  {
    var rows := page.table.value;
    var vs := Views(rows, ViewRow);
    ViewsViewed(rows, ViewRow);
    forall j | 0 <= j < |vs| ensures !IsInfoRow(vs[j]) {
      NotInfoRow(rows, vs, j);
    }
    NoInfoRow(vs);
    InfoColumns(Table(page), InfoOf(None));
  }

  lemma {:induction false} PartsStop(ns: seq<NodeView>, i: nat)
    requires i < |ns| && ns[i].Bold?
    ensures Parts(ns) == Parts(ns[..i])
    decreases i
  {
    if i > 0 && !ns[0].Bold? {
      PartsStop(ns[1..], i - 1);
      assert ns[..i][1..] == ns[1..][..i - 1];
    }
  }

  /** The sibling walk stops at the first `<b>`: nothing after it counts. */
  lemma PartsStopAtBold(nodes: seq<Node>, i: nat)
    requires i < |nodes| && IsBold(nodes[i])
    ensures Parts(Views(nodes, ViewNode)) == Parts(Views(nodes[..i], ViewNode))
  {
    var ns := Views(nodes, ViewNode);
    assert ns[i] == ViewNode(nodes[i]);
    PartsStop(ns, i);
    assert ns[..i] == Views(nodes[..i], ViewNode);
  }

  /** A section body is in `norm_ws`'s normal form, and it has lost one
      leading colon: a body that still starts with one had two. */
  lemma BodyNormal(parts: seq<string>)
    ensures Normal(Body(parts))
    ensures var b := NormWs(Join(parts, ' '));
      b != [] && b[0] == ':' ==> Body(parts) == NormWs(b[1..])
  {
    var b := NormWs(Join(parts, ' '));
    NormWsNormal(Join(parts, ' '));
    if b != [] && b[0] == ':' {
      NormWsNormal(b[1..]);
    }
  }

  /** Every section comes from a label view with a non-empty title and a
      non-empty body. */
  lemma SectionFrom(ls: seq<LabelView>, t: string)
    requires t in Assign(ls, LabelEntry)
    ensures exists i :: 0 <= i < |ls| && ls[i].title != "" && t == Lower(ls[i].title)
                        && Assign(ls, LabelEntry)[t] == ls[i].body != ""
  {
    AssignFrom(ls, LabelEntry);
    var i :| 0 <= i < |ls| && LabelEntry(ls[i]) == Some((t, Assign(ls, LabelEntry)[t]));
  }

  /** What is read from a label: its title text and a body in normal form. */
  lemma ViewLabelShape(bold: Label)
    ensures ViewLabel(bold).title == LabelText(bold.texts)
    ensures Normal(ViewLabel(bold).body)
  {
    BodyNormal(Parts(Views(bold.after, ViewNode)));
  }

  /** Lower-casing keeps a string free of a trailing colon. */
  lemma LowerNoColon(s: string)
    requires s != [] && s[|s| - 1] != ':'
    ensures Lower(s) != [] && Lower(s)[|s| - 1] != ':'
  {
  }

  /** Every section comes from a label with a non-empty title: its key is
      that title lower-cased, it never ends in a colon, and its body is not
      empty and in normal form. */
  lemma SectionShape(labels: seq<Label>, ls: seq<LabelView>, t: string)
    requires Viewed(labels, ls, ViewLabel) && t in Assign(ls, LabelEntry)
    ensures forall c :: 0 <= c < |t| ==> !IsUpper(t[c])
    ensures t != [] && t[|t| - 1] != ':'
    ensures Assign(ls, LabelEntry)[t] != "" && Normal(Assign(ls, LabelEntry)[t])
    ensures exists i :: 0 <= i < |labels| && t == Lower(LabelText(labels[i].texts))
  {
    SectionFrom(ls, t);
    var i :| 0 <= i < |ls| && ls[i].title != "" && t == Lower(ls[i].title)
             && Assign(ls, LabelEntry)[t] == ls[i].body != "";
    LabelRead(labels, ls, i);
    LowerNoColon(ls[i].title);
  }

  lemma LabelRead(labels: seq<Label>, ls: seq<LabelView>, i: nat)
    requires Viewed(labels, ls, ViewLabel) && i < |labels|
    ensures ls[i].title == LabelText(labels[i].texts) && Normal(ls[i].body)
  {
    assert ReadAt(labels, ls, ViewLabel, i);
    ViewLabelShape(labels[i]);
  }

  /** A later label with the same lower-cased title overwrites an earlier
      one: a section holds the body of the last label that makes one. */
  lemma LastLabelWins(labels: seq<Label>, ls: seq<LabelView>, i: nat)
    requires Viewed(labels, ls, ViewLabel) && i < |labels|
    requires LabelText(labels[i].texts) != "" && ls[i].body != ""
    requires forall j :: i < j < |ls| ==>
      LabelEntry(ls[j]).None? || LabelEntry(ls[j]).value.0 != Lower(LabelText(labels[i].texts))
    ensures var t := Lower(LabelText(labels[i].texts));
      t in Assign(ls, LabelEntry) && Assign(ls, LabelEntry)[t] == ls[i].body
  {
    assert ReadAt(labels, ls, ViewLabel, i);
    AssignLast(ls, LabelEntry, i, Lower(LabelText(labels[i].texts)), ls[i].body);
  }

  /** "History and discovery" and "Sequence analysis" hold the section of
      that title in the additional-information cell, or "" when it has none. */
  lemma SectionColumn(page: Page, k: string, t: string)
    requires page.table.Some?
    requires (k, t) == ("History and discovery", "history and discovery")
          || (k, t) == ("Sequence analysis", "sequence analysis")
    ensures var cell := InfoCell(Views(page.table.value, ViewRow));
      PeptideRecord(page).value[k] ==
        if cell.Some? then Get(Assign(Views(cell.value.labels, ViewLabel), LabelEntry), t) else ""
  {
  }
}
