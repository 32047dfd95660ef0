/** `extract_ids_from_result` of the APD scraper (Data/parser_AMP6_DB.py): the
    five-digit peptide IDs on the search result page, found by a pattern over
    the raw HTML or, when that finds none, from the page's `ID` inputs; plus
    the two checks `scrape_all` makes on the list before fetching. */
module ResultIds {
  import opened Wrappers
  import opened Text
  import opened Collections

  predicate IsQuote(c: char) { c == '"' || c == '\'' }

  /** `re.fullmatch(r"\d{5}", s)`, over ASCII digits. */
  predicate FiveDigits(s: string) {
    |s| == 5 && forall i :: 0 <= i < 5 ==> IsDigit(s[i])
  }

  /** Length of the run of `\s` characters at the front of `h`. */
  function SpaceRun(h: string): (n: nat)
    ensures n <= |h|
    ensures forall i :: 0 <= i < n ==> IsSpace(h[i])
    ensures n == |h| || !IsSpace(h[n])
  {
    if h != [] && IsSpace(h[0]) then 1 + SpaceRun(h[1..]) else 0
  }

  /** `h` starts with `lit`. */
  predicate StartsWith(h: string, lit: string) {
    |lit| <= |h| && h[..|lit|] == lit
  }

  /** The part `value=["'](\d{5})["']` of the pattern at the front of `h`:
      the captured ID. */
  function ValueAt(h: string): (id: Option<string>)
    ensures id.Some? ==> |h| >= 13 && FiveDigits(id.value) && id.value == h[7..12]
  {
    if StartsWith(h, "value=") && |h| >= 13 && IsQuote(h[6]) && FiveDigits(h[7..12]) && IsQuote(h[12])
    then Some(h[7..12]) else None
  }

  /** The pattern `name=["']ID["']\s+value=["'](\d{5})["']` at the front of
      `h`: the captured ID and the length of the match.  As `value=` does not
      start with whitespace, the greedy `\s+` needs no backtracking. */
  function MatchFront(h: string): (m: Option<(string, nat)>)
    ensures m.Some? ==> 0 < m.value.1 <= |h| && FiveDigits(m.value.0)
  {
    if StartsWith(h, "name=") && |h| >= 9 && IsQuote(h[5]) && h[6] == 'I' && h[7] == 'D' && IsQuote(h[8]) then
      var n := SpaceRun(h[9..]);
      var id := ValueAt(h[9 + n..]);
      if n > 0 && id.Some? then Some((id.value, 9 + n + 13)) else None
    else None
  }

  /** `re.findall` with that pattern: scanning left to right, a match is
      reported and skipped over, any other position is passed by one
      character. */
  function FindAll(h: string): (ids: seq<string>)
    ensures forall k :: 0 <= k < |ids| ==> FiveDigits(ids[k])
    decreases |h|
  {
    if h == [] then []
    else match MatchFront(h)
      case Some(m) => [m.0] + FindAll(h[m.1..])
      case None => FindAll(h[1..])
  }

  /** The fallback: every `input[name='ID']` value, stripped, kept when it is
      exactly five digits (`(inp.get("value") or "").strip()`). */
  function Fallback(values: seq<Option<string>>): (ids: seq<string>)
    ensures forall k :: 0 <= k < |ids| ==> FiveDigits(ids[k])
  {
    if values == [] then []
    else
      var v := Strip(values[|values| - 1].GetOr(""), IsSpace);
      Fallback(values[..|values| - 1]) + (if FiveDigits(v) then [v] else [])
  }

  /** What `extract_ids_from_result` returns for a page whose raw HTML is
      `html` and whose `ID` inputs carry the `values`. */
  function Ids(html: string, values: seq<Option<string>>): seq<string> {
    var found := FindAll(html);
    if found != [] then Dedup(found) else Dedup(Fallback(values))
  }

  /** De-duplicating keeps only elements of the input. */
  lemma DedupFiveDigits(xs: seq<string>)
    requires forall k :: 0 <= k < |xs| ==> FiveDigits(xs[k])
    ensures forall k :: 0 <= k < |Dedup(xs)| ==> FiveDigits(Dedup(xs)[k])
  {
    forall k | 0 <= k < |Dedup(xs)| ensures FiveDigits(Dedup(xs)[k]) {
      assert Dedup(xs)[k] in xs;
    }
  }

  /** The `seen`/`out` loop: keeps the first appearance of every ID. */
  method Unique(xs: seq<string>) returns (out: seq<string>)
    ensures out == Dedup(xs)
  {
    var seen: set<string> := {};
    out := [];
    for i := 0 to |xs|
      invariant out == Dedup(xs[..i])
      invariant seen == set x | x in out
    {
      assert xs[..i + 1][..i] == xs[..i];
      var x := xs[i];
      if x !in seen {
        seen := seen + {x};
        out := out + [x];
      }
    }
    assert xs[..|xs|] == xs;
  }

  /** `extract_ids_from_result`.  The fallback scan runs only when the pattern
      finds nothing; either way the IDs come without duplicates, in order of
      first appearance, each five digits. */
  method ExtractIdsFromResult(html: string, values: seq<Option<string>>) returns (out: seq<string>)
    ensures out == Ids(html, values)
    ensures NoDups(out)
    ensures forall k :: 0 <= k < |out| ==> FiveDigits(out[k])
    ensures FindAll(html) != [] ==> out == Dedup(FindAll(html))
    ensures FindAll(html) == [] ==> out == Dedup(Fallback(values))
  {
    var ids := FindAll(html);
    if ids != [] {
      out := Unique(ids);
      DedupFiveDigits(ids);
      return;
    }
    var ids2: seq<string> := [];
    for i := 0 to |values|
      invariant ids2 == Fallback(values[..i])
    {
      assert values[..i + 1][..i] == values[..i];
      var v := Strip(values[i].GetOr(""), IsSpace);
      if FiveDigits(v) {
        ids2 := ids2 + [v];
      }
    }
    assert values[..|values|] == values;
    out := Unique(ids2);
    DedupFiveDigits(ids2);
  }

  // ---------------------------------------------------------------------
  // The pattern against the markup it is meant for
  // ---------------------------------------------------------------------

  /** The attributes of one result row as the result page writes them. */
  function Tag(id: string): string {
    "name=\"ID\" value=\"" + id + "\""
  }

  /** All the rows of a result page, one after another. */
  function Tags(ids: seq<string>): string {
    if ids == [] then [] else Tag(ids[0]) + Tags(ids[1..])
  }

  lemma MatchTag(id: string, rest: string)
    requires FiveDigits(id)
    ensures MatchFront(Tag(id) + rest) == Some((id, |Tag(id)|))
  {
    var v := "value=\"" + id + "\"" + rest;
    var h := Tag(id) + rest;
    assert h == "name=\"ID\" " + v;
    assert |Tag(id)| == 23;
    assert h[..5] == "name=" && h[5] == '"' && h[6] == 'I' && h[7] == 'D' && h[8] == '"';
    assert h[9..] == " " + v;
    assert SpaceRun(v) == 0 by { assert v[0] == 'v'; }
    assert SpaceRun(" " + v) == 1 by { assert (" " + v)[1..] == v; }
    assert h[10..] == v;
    assert ValueAt(v) == Some(id) by {
      assert v[..6] == "value=" && v[6] == '"' && v[7..12] == id && v[12] == '"';
    }
  }

  /** A row at the front is reported, and the scan goes on right after it. */
  lemma FindAllTag(id: string, rest: string)
    requires FiveDigits(id)
    ensures FindAll(Tag(id) + rest) == [id] + FindAll(rest)
  {
    var h := Tag(id) + rest;
    MatchTag(id, rest);
    assert h[|Tag(id)|..] == rest;
  }

  /** Scanning the rows the result page writes gives back their IDs, in order. */
  lemma {:induction false} FindAllTags(ids: seq<string>)
    requires forall k :: 0 <= k < |ids| ==> FiveDigits(ids[k])
    ensures FindAll(Tags(ids)) == ids
    decreases |ids|
  {
    if ids != [] {
      FindAllTag(ids[0], Tags(ids[1..]));
      FindAllTags(ids[1..]);
    }
  }

  // ---------------------------------------------------------------------
  // scrape_all's use of the list
  // ---------------------------------------------------------------------

  /** `scrape_all` stops with an error on an empty list, and otherwise fetches
      `ids[:limit]`. */
  function IdsToFetch(ids: seq<string>, limit: Option<int>): (r: Result<seq<string>, string>)
    ensures r.Failure? <==> ids == []
    ensures r.Success? && limit.None? ==> r.value == ids
    ensures r.Success? && limit.Some? ==>
      r.value == ids[..PrefixLen(|ids|, limit.value)]
      && (limit.value >= 0 ==> |r.value| == if limit.value <= |ids| then limit.value else |ids|)
  {
    if ids == [] then Failure("No peptide IDs found")
    else if limit.None? then Success(ids)
    else Success(ids[..PrefixLen(|ids|, limit.value)])
  }
}
