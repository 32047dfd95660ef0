# APD scraper and "Additional info" section engine, in Dafny

This project models the text-processing core of a scraper for the APD
antimicrobial peptide database and of the pipeline that splits each peptide's
free-text "Additional info" into named sections. It has two parts.

**`Data/preprocessing.py`: the section engine.**

- `norm_text` normalises line endings (module `Preprocessing`).
- `canon_header` and `to_col_name` canonicalise headers and name columns (`Preprocessing`).
- The two header regular expressions are hand-written recognisers (`HeaderGrammar`).
- `extract_headers` counts the headers of every text (`Headers`).
- `pick_top_headers` selects the `top_k` most frequent canonical headers (`TopHeaders`).
- `extract_top_sections` runs the line-by-line state machine that fills one column per selected header (`Sections`).
- The `AddInfoConfig` defaults ("Additional info", 5, 3) are `Preprocessing.DefaultConfig`.

**`Data/parser_AMP6_DB.py`: the scraper.**

- `norm_ws` (`Whitespace`).
- The retry policy of `request_with_retry` (`Retry`).
- `build_form_payload` (`FormPayload`).
- `extract_ids_from_result`, and the two checks `scrape_all` makes on the ID list (`ResultIds`).
- `parse_peptide_page` with `CSV_FIELDS` (`PeptidePage`).

The shared modules are:

- `Text`: Python's `str.isspace`, ASCII `lower`, `strip`/`lstrip`/`rstrip`, whitespace-run collapsing, `split`/`join`, and slice bounds.
- `Collections`: order-preserving de-duplication, counts, and the dictionary built by a loop of assignments.
- `Wrappers`: `Option` and `Result`.

## How the model is built

**Where the source works step by step, the model does too.** These are methods with loops, each proved equal to a specification function:

- the line scans of `extract_headers` and `extract_top_sections`;
- the attempt loop of `request_with_retry`;
- the three harvesting loops of `build_form_payload`;
- the `seen`/`out` loop of `extract_ids_from_result`;
- the `kv`, `add_cell`, `sections` and sibling loops of `parse_peptide_page`.

The properties the source promises are lemmas about those functions.

**External inputs are abstracted.**

- **HTML.** A peptide page is given as what BeautifulSoup hands the parser:
  - the rows of `table.peptide`, each a list of direct `<td>` cells;
  - each cell's text nodes and its `<b>` labels;
  - each label's following siblings;
  - the text nodes of `p.peptide_sequence`.
- **Forms.** A form is its lists of inputs, selects and textareas with their attributes.
- **The network.** It is a function parameter: what attempt `a`, sent with timeout `t`, gives back.

**Each element is read into a small value.** In `PeptidePage`, a row becomes a `RowView`, a `<b>` label a `LabelView`, a sibling a `NodeView`. A straight-line method does the reading: `ReadRow`, `ReadLabel`, `ReadNode`. The loops and the dictionary semantics then work on those values, and `Viewed(xs, vs, view)` ties each value to the element it was read from.

**Points where the code's behaviour is easy to misread.**

- `pick_top_headers` sorts with pandas' default sort, which is not stable, so headers with equal totals come in no promised order. `TopHeaders.SortDesc` is a stable insertion sort and keeps equal totals in order of first appearance, which may differ from pandas' order. No contract depends on the order among equal totals; what is proved is the ordering by totals.
- `request_with_retry` also sleeps after the fifth failed attempt, before giving up, not only between attempts.
- The "no identifiers" error is raised by `scrape_all`, not by `extract_ids_from_result`, which returns an empty list.
- Keys of the peptide table have trailing colons removed after whitespace normalisation. A key written "Length :" therefore becomes "Length " with its space kept.

## Model

| member | source | states |
|---|---|---|
| Text.ReplaceChar | Data/preprocessing.py:21 | `replace` of one character by another: exactly the occurrences of the first become the second, everything else and the length are kept (`norm_text` turns each `'\r'` into `'\n'` with it, and `norm_ws` in Data/parser_AMP6_DB.py:29 each non-breaking space into a space) |
| Preprocessing.NormTextIsOnePass | Data/preprocessing.py:19-22 | the two chained replacements equal one left-to-right pass turning `"\r\n"` and a lone `'\r'` into `'\n'` |
| Preprocessing.NormTextNoCr | Data/preprocessing.py:19-22 | the result has no `'\r'`; a missing value gives `""`; a CR-free text is unchanged; applying it twice changes nothing |
| Preprocessing.CanonHeader | Data/preprocessing.py:24-27 | the canonical header has no upper-case letter, no whitespace at either end, and whitespace only as single spaces |
| Preprocessing.CanonIsJoinedWords | Data/preprocessing.py:24-27 | the canonical header is the whitespace-separated words of the lower-cased header joined by single spaces |
| Preprocessing.CanonSameIffSameWords | Data/preprocessing.py:24-27 | two headers have the same canonical form exactly when their lower-cased words agree, so case and run lengths of whitespace do not matter |
| Preprocessing.CanonIdempotent | Data/preprocessing.py:24-27 | canonicalising a canonical header changes nothing |
| Preprocessing.SlugIsJoinedRunsClean | Data/preprocessing.py:32-33 | the slug is the runs of `[a-z0-9]` joined by single underscores, with no underscore at either end and none doubled |
| Preprocessing.UnderscoresAreTheSeparators | Data/preprocessing.py:32-33 | in a slug the only non-alphanumeric character is `_`, never two in a row |
| Preprocessing.ColNameIsJoinedRuns | Data/preprocessing.py:29-34 | `"activity"` gives `"Activity_seq"`; anything else gives `"addinfo_" + slug + "_seq"` |
| Preprocessing.SameColumnIffSameRuns | Data/preprocessing.py:29-34 | two headers other than `"activity"` get the same column exactly when their `[a-z0-9]` runs agree |
| Preprocessing.SameSlugIffSameRuns | Data/preprocessing.py:32-33 | two slugs agree exactly when the alphanumeric runs agree |
| Preprocessing.ActivityColumnIsDistinct | Data/preprocessing.py:29-34 | no other header gets the column of `"activity"` |
| HeaderGrammar.SameLineSound | Data/preprocessing.py:14 | a same-line match reports a header-shaped prefix of the left-stripped line with no whitespace at its ends, followed by optional whitespace and a colon; the content is the rest of the line, stripped |
| HeaderGrammar.SameLineComplete | Data/preprocessing.py:14 | every line made of a header-shaped prefix, optional whitespace, a colon and anything else is matched |
| HeaderGrammar.StandaloneWithColonIsSameLine | Data/preprocessing.py:13-14 | a header-shaped line holding a colon is always taken by the same-line form first |
| HeaderGrammar.QualifierPreferred | Data/preprocessing.py:14 | after a token not ending in a space, `:qualifier` then whitespace and a second colon is part of the header ("Mech:abc: x" gives "Mech:abc" and "x") |
| HeaderGrammar.SpaceBlocksQualifier | Data/preprocessing.py:14 | a token ending in a space takes no qualifier: the header is the token without trailing spaces and the content is everything after the first colon |
| HeaderGrammar.ColonLineIsNoHeader | Data/preprocessing.py:13-14 | a line whose first non-blank character is a colon matches neither form |
| HeaderGrammar.UnshapedNoStandalone | Data/preprocessing.py:13 | the standalone form matches only a stripped line that is header-shaped |
| HeaderGrammar.NoLetterNoSameLine | Data/preprocessing.py:14 | a line whose first non-blank character is not a letter has no same-line match |
| HeaderGrammar.SameLineStartsWithLetter | Data/preprocessing.py:14 | on a line starting with a letter the match is decided by the longest token run and what follows it |
| Headers.BlankIsEmptyStrip | Data/preprocessing.py:46-52 | a line is blank exactly when stripping it leaves nothing |
| Headers.NextNonBlank | Data/preprocessing.py:59-61 | the inner `while j` scan stops at the first non-blank line at or after `j`, or at the end |
| Headers.ScanLine | Data/preprocessing.py:50-63 | the per-line decision: same-line form first, then a standalone header only when the next non-blank line starts with a colon |
| Headers.ScanText | Data/preprocessing.py:46-63 | the headers found in one text, in line order, one per recognised line |
| Headers.ValueCounts | Data/preprocessing.py:65 | one row per distinct header with its number of occurrences |
| Headers.ExtractHeaders | Data/preprocessing.py:36-65 | the counts of all headers found in all texts |
| Headers.LineHeaderShaped | Data/preprocessing.py:53-63 | every recorded header is header-shaped and stripped |
| Headers.StandaloneHeaderHasNoColon | Data/preprocessing.py:57-63 | a header recorded by the standalone form holds no colon |
| Headers.ColonLineRecordsNothing | Data/preprocessing.py:53-63 | a line starting with a colon records no header |
| Headers.AllHeadersShaped | Data/preprocessing.py:36-65 | every header counted over the corpus is header-shaped and stripped |
| Headers.AllHeadersAppend | Data/preprocessing.py:45-63 | the headers of two lists of texts are those of each list, in order |
| Headers.BlankTextNoHeaders | Data/preprocessing.py:45-47 | a missing or blank text contributes nothing |
| TopHeaders.LongEnough | Data/preprocessing.py:72 | every kept row's canonical header is at least `min_header_len` long |
| TopHeaders.LongEnoughKeys | Data/preprocessing.py:72 | a header survives the filter exactly when it is long enough and present |
| TopHeaders.Aggregate | Data/preprocessing.py:74-76 | one row per distinct canonical header carrying the sum of the counts of its rows |
| TopHeaders.SortDesc | Data/preprocessing.py:77 | the rows sorted by descending count, a permutation of the input |
| TopHeaders.TableRows | Data/preprocessing.py:72-78 | the sorted table has exactly the long-enough headers, each once, each with its total |
| TopHeaders.ScoreIsTotal | Data/preprocessing.py:68-76 | a canonical header's score is the sum of the counts of all raw spellings with that canonical form |
| TopHeaders.SelectShape | Data/preprocessing.py:79 | `head(k)` keeps distinct, long-enough headers, as many as Python slicing keeps |
| TopHeaders.EligibleIsKey | Data/preprocessing.py:69-72 | eligible means the canonical form of a counted raw header and long enough |
| TopHeaders.PickShape | Data/preprocessing.py:67-79 | the selection has no duplicates, only eligible headers, and `top_k` of them by Python's slicing |
| TopHeaders.PickAtMostTopK | Data/preprocessing.py:79 | with a non-negative `top_k` at most `top_k` headers are selected |
| TopHeaders.PickBest | Data/preprocessing.py:74-79 | every selected header's total is at least that of every eligible header left out |
| Sections.ColonText | Data/preprocessing.py:126-129 | the text after the first colon is taken exactly when the line exists and starts (after whitespace) with a colon |
| Sections.ViewOf | Data/preprocessing.py:97-126 | a line is classified as empty, same-line header, standalone header or content; a colon line found for it lies after only blank lines |
| Sections.Turn | Data/preprocessing.py:96-138 | one turn of the line loop goes on past the colon line exactly for a standalone header that has one, and to the next line otherwise; the cursor and every append name only selected headers |
| Sections.BlankLineSkipped | Data/preprocessing.py:97-100 | a blank line contributes nothing and keeps the cursor |
| Sections.InlineHeaderLine | Data/preprocessing.py:103-114 | a same-line header moves the cursor to its canonical header when selected (else to nothing) and contributes its non-empty text after the colon to that section; the loop goes on at the next line |
| Sections.StandaloneHeaderLine | Data/preprocessing.py:117-133 | a standalone header whose next non-blank line starts with a colon consumes that line: the cursor moves to its canonical header when selected (else to nothing), what follows that line's first colon, stripped and non-empty, goes to the section, and the loop goes on after the colon line |
| Sections.ContentLine | Data/preprocessing.py:135-138 | any other non-blank line, including a header-shaped line with no colon line after it, goes stripped to the current section, if any, and keeps the cursor |
| Sections.AppendsToCursor | Data/preprocessing.py:109-137 | text always goes to the section the cursor names after the line, and no empty text is appended |
| Sections.CursorMovesOnlyAtHeaders | Data/preprocessing.py:103-138 | a header line moves the cursor to the header when selected and to nothing otherwise; any other line leaves it |
| Sections.TurnIgnoresColonLine | Data/preprocessing.py:102-138 | only a standalone header looks at the following colon line |
| Sections.RecordedHeaderMovesCursor | Data/preprocessing.py:103-133 | a line moves the cursor exactly when the header counter records a header on it, and the cursor's target is that header's canonical form |
| Sections.PiecesStep | Data/preprocessing.py:96-138 | the appends from line `i` on are this turn's append followed by those from where the turn continues |
| Sections.ScanLines | Data/preprocessing.py:91-138 | after the line loop every selected header's buffer holds exactly the texts appended to it, in order |
| Sections.FillColumns | Data/preprocessing.py:140-143 | the final loop gives each selected header's column its joined, stripped buffer |
| Sections.ExtractTopSections | Data/preprocessing.py:81-145 | the method computes `extract_top_sections` |
| Sections.CellAbsentIffBlank | Data/preprocessing.py:142-143 | a column is absent exactly when its joined buffer is blank; otherwise it is stripped |
| Sections.SectionColumns | Data/preprocessing.py:87 | the result's keys are exactly the column names of the selected headers |
| Sections.BlankTextAllAbsent | Data/preprocessing.py:86-89 | a missing or blank text leaves every column absent |
| Sections.SectionOfLastHeader | Data/preprocessing.py:140-143 | a selected header's column holds the join of all its bodies in order, unless a later selected header has the same column name |
| Collections.Dedup | Data/parser_AMP6_DB.py:124-129 | the result has no duplicates and the same elements as the input |
| Collections.DedupOrder | Data/parser_AMP6_DB.py:124-129 | de-duplicating keeps elements in the order of their first appearances |
| Collections.AssignFrom | Data/parser_AMP6_DB.py:159-160 | every key of a dictionary built by assignments was assigned, with its value, and every assignment's key is present |
| Collections.AssignLast | Data/parser_AMP6_DB.py:159-160 | a key holds the value of its last assignment |
| Whitespace.CapBreaksRun | Data/parser_AMP6_DB.py:31 | a maximal run of `n` line breaks keeps `min(n, 2)` of them |
| Whitespace.CapBreaksNoTriple | Data/parser_AMP6_DB.py:31 | the result has no three line breaks in a row |
| Whitespace.SubstitutedTidy | Data/parser_AMP6_DB.py:29-31 | after the three substitutions there is no non-breaking space, horizontal whitespace is only single spaces, and no three line breaks are in a row |
| Whitespace.NormWsNormal | Data/parser_AMP6_DB.py:28-32 | `norm_ws`'s result is in normal form: none of `\xa0`, tab, CR, FF, VT; no two adjacent spaces; no `"\n\n\n"`; no whitespace at either end |
| Whitespace.NormWsFixes | Data/parser_AMP6_DB.py:28-32 | a string in normal form is left unchanged |
| Whitespace.NormWsFixedIffNormal | Data/parser_AMP6_DB.py:28-32 | the fixed points of `norm_ws` are exactly the strings in normal form |
| Whitespace.NormWsIdempotent | Data/parser_AMP6_DB.py:28-32 | applying `norm_ws` twice equals applying it once |
| Retry.EffectiveTimeout | Data/parser_AMP6_DB.py:41 | a caller's timeout is kept, else `(15, 120)` |
| Retry.Pauses | Data/parser_AMP6_DB.py:47 | the pause after the `i`-th failure is `min(30, 2*i)` |
| Retry.FirstSuccess | Data/parser_AMP6_DB.py:39-44 | the first attempt that succeeds, every earlier one having failed, or 6 when all five fail |
| Retry.Outcome | Data/parser_AMP6_DB.py:37-48 | success exactly when one of the five attempts succeeds, with the response of the first such; otherwise the give-up error chained to the fifth fault |
| Retry.RequestWithRetry | Data/parser_AMP6_DB.py:37-48 | the loop returns that outcome after between 1 and 5 attempts, pausing after every failure including the fifth, pauses 2, 4, 6, 8, 10 |
| FormPayload.InputRules | Data/parser_AMP6_DB.py:54-72 | unnamed inputs are skipped; checkboxes and radios only when checked, "on" by default; submit, button and image only with a value; others default to "" |
| FormPayload.InputTypeIgnoresCase | Data/parser_AMP6_DB.py:58 | the type is lower-cased and defaults to "text" when missing or empty |
| FormPayload.FirstSelected | Data/parser_AMP6_DB.py:79 | the first option marked selected, if any |
| FormPayload.Chosen | Data/parser_AMP6_DB.py:79 | the selected option when there is one, else the first option, and none only for a select without options |
| FormPayload.SelectRules | Data/parser_AMP6_DB.py:75-83 | each named select gives one pair: "" without options, else the chosen option's value; unnamed ones are skipped |
| FormPayload.ChoiceValueRule | Data/parser_AMP6_DB.py:83 | an option's value, or its stripped text when the value is missing or empty |
| FormPayload.AppendPairs | Data/parser_AMP6_DB.py:54-90 | each harvesting loop appends the pairs of its controls in order |
| FormPayload.BuildFormPayload | Data/parser_AMP6_DB.py:50-92 | the method computes the payload |
| FormPayload.PayloadOrder | Data/parser_AMP6_DB.py:50-92 | all input pairs come first, then all select pairs, then all textarea pairs |
| FormPayload.PayloadNamed | Data/parser_AMP6_DB.py:56-89 | every pair in the payload has a non-empty name |
| FormPayload.NamedControlsCount | Data/parser_AMP6_DB.py:75-90 | every named select and every named textarea contributes its pair |
| ResultIds.SpaceRun | Data/parser_AMP6_DB.py:121 | the longest run of `\s` at the front |
| ResultIds.ValueAt | Data/parser_AMP6_DB.py:121 | `value=` then a quote, five digits and a quote: the digits |
| ResultIds.MatchFront | Data/parser_AMP6_DB.py:121 | a match at the front captures five digits and consumes at least one character |
| ResultIds.FindAll | Data/parser_AMP6_DB.py:121 | `re.findall` scanning left to right; every ID found is five digits |
| ResultIds.MatchTag | Data/parser_AMP6_DB.py:121 | the pattern matches `name="ID" value="<id>"` and captures the id |
| ResultIds.FindAllTags | Data/parser_AMP6_DB.py:121 | scanning rows written as `name="ID" value="<id>"` gives back their IDs in order |
| ResultIds.Fallback | Data/parser_AMP6_DB.py:133-137 | the fallback keeps the stripped `ID` input values that are exactly five digits |
| ResultIds.Unique | Data/parser_AMP6_DB.py:124-129 | the `seen`/`out` loop keeps the first appearance of every ID |
| ResultIds.ExtractIdsFromResult | Data/parser_AMP6_DB.py:120-143 | no duplicates, each five digits, first-appearance order; the fallback is used only when the pattern finds nothing |
| ResultIds.IdsToFetch | Data/parser_AMP6_DB.py:231-236 | an empty list is an error; otherwise `ids[:limit]` with Python slicing, or all when no limit |
| PeptidePage.LabelText | Data/parser_AMP6_DB.py:157 | a key read from a cell never ends in a colon |
| PeptidePage.ReadRow | Data/parser_AMP6_DB.py:154-158 | reading a row yields key and value exactly when it has two direct cells |
| PeptidePage.RowEntry | Data/parser_AMP6_DB.py:155-160 | a row assigns exactly when it has two cells and a non-empty key, and then assigns its value to its key |
| PeptidePage.ReadTable | Data/parser_AMP6_DB.py:152-160 | the `kv` loop builds the dictionary of the rows' assignments |
| PeptidePage.TableKeys | Data/parser_AMP6_DB.py:153-160 | every key is a two-cell row's normalised key text, never empty, never ending in a colon, with that row's normalised second cell as value |
| PeptidePage.LastRowWins | Data/parser_AMP6_DB.py:159-160 | a key holds the value of the last two-cell row with that key |
| PeptidePage.OtherRowsIgnored | Data/parser_AMP6_DB.py:155-156 | a row without exactly two cells changes nothing |
| PeptidePage.TableColumn | Data/parser_AMP6_DB.py:162-164 | the sequence paragraph, when present, overrides "Sequence"; every other table column is the table's entry or "" |
| PeptidePage.InfoRow | Data/parser_AMP6_DB.py:167-173 | the index of the first two-cell row whose key reads "additional info" in any case |
| PeptidePage.FindInfoCell | Data/parser_AMP6_DB.py:166-173 | the `add_cell` loop stops at the first such row and takes its second cell |
| PeptidePage.InfoCellIsFirst | Data/parser_AMP6_DB.py:167-173 | the additional-information cell is the second cell of the first matching row |
| PeptidePage.NoInfoCell | Data/parser_AMP6_DB.py:175-176 | without a matching row the three columns taken from that cell are "" |
| PeptidePage.ReadNode | Data/parser_AMP6_DB.py:185-188 | a sibling is a stop exactly when it is a `<b>`; otherwise its text, normalised |
| PeptidePage.Parts | Data/parser_AMP6_DB.py:184-190 | every collected part is non-empty |
| PeptidePage.CollectParts | Data/parser_AMP6_DB.py:183-190 | the sibling walk collects the non-empty texts up to the next `<b>` |
| PeptidePage.PartsStopAtBold | Data/parser_AMP6_DB.py:185-186 | nothing after the first following `<b>` counts |
| PeptidePage.BodyNormal | Data/parser_AMP6_DB.py:191-193 | a body is in normal form; one leading colon has been removed |
| PeptidePage.LabelEntry | Data/parser_AMP6_DB.py:180-195 | a label makes a section exactly when its title and body are non-empty, keyed by the lower-cased title |
| PeptidePage.ReadLabel | Data/parser_AMP6_DB.py:180-195 | one turn of the `sections` loop, skipping the sibling walk for an empty title |
| PeptidePage.ReadSections | Data/parser_AMP6_DB.py:178-195 | the `sections` loop builds the dictionary of the labels' sections |
| PeptidePage.SectionShape | Data/parser_AMP6_DB.py:180-195 | every section key is a label's lower-cased title, without upper-case letters, never ending in a colon; its body is non-empty and normal |
| PeptidePage.LastLabelWins | Data/parser_AMP6_DB.py:195 | a later label with the same lower-cased title overwrites an earlier one |
| PeptidePage.Get | Data/parser_AMP6_DB.py:200 | `d.get(k, "")` |
| PeptidePage.Record | Data/parser_AMP6_DB.py:199-218 | the record has exactly the CSV columns; every column other than the three information columns is the table's entry, or "" when the table has none |
| PeptidePage.InfoColumns | Data/parser_AMP6_DB.py:212-214 | "Additional info", "History and discovery" and "Sequence analysis" are columns of the record and hold the full cell text and the two sections |
| PeptidePage.PeptideRecord | Data/parser_AMP6_DB.py:145-149 | the parse fails exactly when there is no peptide table |
| PeptidePage.ParsePeptidePage | Data/parser_AMP6_DB.py:145-218 | the method computes the record |

## Left out

- I/O: HTTP sessions, the search-form submission, `scrape_all`'s files and printing, `data_loading`, and the `main` glue of `Data/preprocessing.py`. `Data/c_vector.py` is not part of this model: it is pandas CSV plumbing with nothing structural to verify.
- BeautifulSoup: CSS selection, `get_text` and sibling traversal are not modelled. Pages, forms and the result page's `ID` inputs are given as already extracted lists of cells, labels, siblings, text nodes and attribute values. `get_text(sep, strip=True)` is modelled as the stripped non-blank text nodes joined by `sep`.
- Regular expressions in general: only the patterns the core uses are written out, as recognisers.
- Unicode: `lower()` is modelled for ASCII letters only, and `\d` for ASCII digits only.
- Randomness and floats: the `random.random()` jitter and the float sleep itself are not modelled.
- Retry.RequestWithRetry: `pauses` holds the integer base delays, not the seconds actually slept. The request's other keyword arguments and the session object are not modelled.
- Headers.ValueCounts: the rows follow first appearance, not pandas' descending-count order. `pick_top_headers` re-sorts them anyway.
- TopHeaders.PickBest: the order among headers with equal totals is left open, as pandas' default sort is not stable.
- pandas `NaN`: modelled as `Option.None`, both for a missing text and for an absent section.
- PeptidePage.Record: the keys are proved to be exactly the names in `CsvFields`. That the eighteen names are pairwise different, so that the record has eighteen keys, is a fact about constant strings and is not proved.
- PeptidePage.ReadRow: the `add_cell` loop reads the value cell as well as the key. The source reads only the key, and with pure functions the difference is not observable.
