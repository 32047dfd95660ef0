/** Text normalisation, header canonicalisation and column naming of the
    "Additional info" section engine (Data/preprocessing.py). */
module Preprocessing {
  import opened Wrappers
  import opened Text

  /** `AddInfoConfig`: which column holds the free text, how many headers to keep
      and the shortest canonical header that is not noise. */
  datatype AddInfoConfig = AddInfoConfig(textCol: string, topK: int, minHeaderLen: int)

  const DefaultConfig := AddInfoConfig("Additional info", 5, 3)

  // ---------------------------------------------------------------------
  // norm_text
  // ---------------------------------------------------------------------

  /** `s.replace("\r\n", "\n")`: scans left to right, pairs do not overlap. */
  function ReplaceCrLf(s: string): string {
    if |s| >= 2 && s[0] == '\r' && s[1] == '\n' then "\n" + ReplaceCrLf(s[2..])
    else if s == [] then []
    else [s[0]] + ReplaceCrLf(s[1..])
  }

  /** `s.replace("\r", "\n")`. */
  function CrToLf(s: string): string {
    ReplaceChar(s, '\r', '\n')
  }

  /** `norm_text`: a missing value (`NaN`) becomes "", and every line break
      (`\r\n`, a lone `\r`, or `\n`) becomes `\n`. */
  function NormText(v: Option<string>): string {
    match v
    case None => ""
    case Some(s) => CrToLf(ReplaceCrLf(s))
  }

  /** Universal-newline translation in a single left-to-right pass: the
      reference meaning of `NormText`. */
  function NewlinesOnePass(s: string): string {
    if s == [] then []
    else if s[0] == '\r' then
      "\n" + NewlinesOnePass(if |s| >= 2 && s[1] == '\n' then s[2..] else s[1..])
    else [s[0]] + NewlinesOnePass(s[1..])
  }

  /** The two chained `replace` calls of `norm_text` translate every line break
      in one pass. */
  lemma {:induction false} NormTextIsOnePass(s: string)
    ensures NormText(Some(s)) == NewlinesOnePass(s)
    decreases |s|
  {
    if s != [] {
      if |s| >= 2 && s[0] == '\r' && s[1] == '\n' {
        NormTextIsOnePass(s[2..]);
        ReplaceCharAppend("\n", ReplaceCrLf(s[2..]), '\r', '\n');
      } else {
        NormTextIsOnePass(s[1..]);
        ReplaceCharAppend([s[0]], ReplaceCrLf(s[1..]), '\r', '\n');
      }
    }
  }

  lemma {:induction false} ReplaceCrLfKeepsCrFree(s: string)
    requires '\r' !in s
    ensures ReplaceCrLf(s) == s
  {
    if s != [] {
      assert s[0] != '\r';
      assert '\r' !in s[1..] by {
        forall i | 0 <= i < |s[1..]| ensures s[1..][i] != '\r' {
          assert s[1..][i] == s[i + 1];
        }
      }
      ReplaceCrLfKeepsCrFree(s[1..]);
    }
  }

  /** `norm_text` leaves no carriage return and does not change a text that has none,
      so it is idempotent. */
  lemma NormTextNoCr(v: Option<string>)
    ensures '\r' !in NormText(v)
    ensures v.Some? && '\r' !in v.value ==> NormText(v) == v.value
    ensures NormText(Some(NormText(v))) == NormText(v)
  {
    var r := NormText(v);
    if v.Some? && '\r' !in v.value {
      ReplaceCrLfKeepsCrFree(v.value);
      assert CrToLf(v.value) == v.value;
    }
    ReplaceCrLfKeepsCrFree(r);
    assert CrToLf(r) == r;
  }

  // ---------------------------------------------------------------------
  // canon_header
  // ---------------------------------------------------------------------

  /** `canon_header`: strip, lower-case, and turn every whitespace run into one space. */
  function CanonHeader(h: string): (r: string)
    ensures Clean(r, IsSpace, ' ')
    ensures forall i :: 0 <= i < |r| ==> !IsUpper(r[i])
  {
    var l := Lower(Strip(h, IsSpace));
    LowerNoEdge(Strip(h, IsSpace));
    CollapseNoEdge(l, IsSpace, ' ');
    CollapseNoUpper(l);
    CollapseShape(l, IsSpace, ' ');
    Collapse(l, IsSpace, ' ')
  }

  lemma LowerNoEdge(s: string)
    requires NoEdge(s, IsSpace)
    ensures NoEdge(Lower(s), IsSpace)
  {
    if s != [] {
      assert Lower(s)[0] == LowerChar(s[0]);
      assert Lower(s)[|s| - 1] == LowerChar(s[|s| - 1]);
    }
  }

  lemma CollapseNoUpper(l: string)
    requires forall i :: 0 <= i < |l| ==> !IsUpper(l[i])
    ensures forall i :: 0 <= i < |Collapse(l, IsSpace, ' ')| ==> !IsUpper(Collapse(l, IsSpace, ' ')[i])
  {
    CollapseChars(l, IsSpace, ' ');
  }

  /** The canonical form is the header's lower-cased words joined by single spaces. */
  lemma CanonIsJoinedWords(h: string)
    ensures CanonHeader(h) == Join(Words(Lower(h), IsSpace), ' ')
  {
    LowerStrip(h);
    CollapseStripIsJoinWords(Lower(h), IsSpace, ' ');
  }

  /** Two headers have the same canonical form exactly when they have the same
      words once lower-cased, so case and whitespace-run length never matter. */
  lemma CanonSameIffSameWords(a: string, b: string)
    ensures CanonHeader(a) == CanonHeader(b) <==> Words(Lower(a), IsSpace) == Words(Lower(b), IsSpace)
  {
    CanonIsJoinedWords(a);
    CanonIsJoinedWords(b);
    JoinWordsInjective(Lower(a), Lower(b), IsSpace, ' ');
  }

  /** Canonicalising a canonical header changes nothing. */
  lemma CanonIdempotent(h: string)
    ensures CanonHeader(CanonHeader(h)) == CanonHeader(h)
  {
    var c := CanonHeader(h);
    LowerFixed(c);
    CanonIsJoinedWords(h);
    CanonIsJoinedWords(c);
    WordsAreWords(Lower(h), IsSpace);
    WordsOfJoin(Words(Lower(h), IsSpace), IsSpace, ' ');
  }

  // ---------------------------------------------------------------------
  // to_col_name
  // ---------------------------------------------------------------------

  /** Characters outside `[a-z0-9]`. */
  predicate NotAlnum(c: char) { !(IsLower(c) || IsDigit(c)) }

  predicate IsUnderscore(c: char) { c == '_' }

  /** `re.sub(r"_+", "_", re.sub(r"[^a-z0-9]+", "_", h)).strip("_")`. */
  function Slug(h: string): string {
    Strip(Collapse(Collapse(h, NotAlnum, '_'), IsUnderscore, '_'), IsUnderscore)
  }

  /** The slug is the header's `[a-z0-9]` runs joined by single underscores: it
      holds only `[a-z0-9_]`, never `__`, and neither starts nor ends with `_`. */
  lemma SlugIsJoinedRunsClean(h: string)
    ensures Slug(h) == Join(Words(h, NotAlnum), '_')
    ensures Clean(Slug(h), NotAlnum, '_')
  {
    SlugIsStripped(h);
    StripCollapse(h, NotAlnum, '_');
    CollapseStripIsJoinWords(h, NotAlnum, '_');
    CollapseStripClean(h, NotAlnum, '_');
  }

  /** After the first substitution the underscores are exactly the separators,
      so the second substitution changes nothing. */
  lemma SlugIsStripped(h: string)
    ensures Slug(h) == Strip(Collapse(h, NotAlnum, '_'), NotAlnum)
  {
    var x := Collapse(h, NotAlnum, '_');
    CollapseShape(h, NotAlnum, '_');
    UnderscoresAreTheSeparators(x);
    CollapseFixed(x, IsUnderscore, '_');
    StripSameClass(x, IsUnderscore, NotAlnum);
  }

  lemma UnderscoresAreTheSeparators(x: string)
    requires NoAdjacent(x, NotAlnum) && OnlyAs(x, NotAlnum, '_')
    ensures forall i :: 0 <= i < |x| ==> (IsUnderscore(x[i]) <==> NotAlnum(x[i]))
    ensures NoAdjacent(x, IsUnderscore) && OnlyAs(x, IsUnderscore, '_')
  {
    forall i: nat | i + 1 < |x| ensures !SepPair(x, IsUnderscore, i) {
      assert !SepPair(x, NotAlnum, i);
    }
  }

  /** `to_col_name`: the column that holds a selected section. */
  function ToColName(h: string): string {
    if h == "activity" then "Activity_seq" else "addinfo_" + Slug(h) + "_seq"
  }

  /** Apart from "activity", the column is `addinfo_`, the header's `[a-z0-9]`
      runs joined by underscores, and `_seq`. */
  lemma ColNameIsJoinedRuns(h: string)
    ensures h == "activity" ==> ToColName(h) == "Activity_seq"
    ensures h != "activity" ==> ToColName(h) == "addinfo_" + Join(Words(h, NotAlnum), '_') + "_seq"
  {
    SlugIsJoinedRunsClean(h);
  }

  /** Apart from "activity", two headers share a column exactly when they have the
      same `[a-z0-9]` runs; so distinct canonical headers such as "mode of action"
      and "mode-of-action" land in one column. */
  lemma SameColumnIffSameRuns(a: string, b: string)
    requires a != "activity" && b != "activity"
    ensures ToColName(a) == ToColName(b) <==> Words(a, NotAlnum) == Words(b, NotAlnum)
  {
    SameColumnSameSlug(a, b);
    SameSlugIffSameRuns(a, b);
  }

  lemma SameSlugIffSameRuns(a: string, b: string)
    ensures Slug(a) == Slug(b) <==> Words(a, NotAlnum) == Words(b, NotAlnum)
  {
    SameSlugSameRuns(a, b);
    SameRunsSameSlug(a, b);
  }

  lemma SameSlugSameRuns(a: string, b: string)
    ensures Slug(a) == Slug(b) ==> Words(a, NotAlnum) == Words(b, NotAlnum)
  {
    assert NotAlnum('_');
    SlugIsJoinedRunsClean(a);
    SlugIsJoinedRunsClean(b);
    JoinWordsInjective(a, b, NotAlnum, '_');
  }

  lemma SameRunsSameSlug(a: string, b: string)
    ensures Words(a, NotAlnum) == Words(b, NotAlnum) ==> Slug(a) == Slug(b)
  {
    SlugIsJoinedRunsClean(a);
    SlugIsJoinedRunsClean(b);
  }

  lemma SameColumnSameSlug(a: string, b: string)
    ensures a != "activity" && b != "activity" && ToColName(a) == ToColName(b) ==> Slug(a) == Slug(b)
  {
    if a != "activity" && b != "activity" && ToColName(a) == ToColName(b) {
      Cancel("addinfo_", Slug(a), Slug(b), "_seq");
    }
  }

  /** The "activity" column never collides with a generated one. */
  lemma ActivityColumnIsDistinct(h: string)
    requires h != "activity"
    ensures ToColName(h) != ToColName("activity")
  {
    assert ToColName(h)[0] == 'a';
  }
}
