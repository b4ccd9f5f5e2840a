# Snapshot build scripts: the text pipeline, in Dafny

The repository publishes snapshots of public Notion pages as static HTML.
Three Node scripts do the work. `scripts/build_layer.js` renders a page in a
browser and reads it up to three times. `scripts/build_l1.js` fetches
the HTML and picks a page part by CSS selector. `scripts/build_l5.js`
renders once. All three then run the same pipeline:

1. `normalizeText` cleans the whitespace.
2. Text shorter than 500 UTF-16 code units aborts the run.
3. A template without the `<pre id="content">…</pre>` marker aborts the run.
4. Otherwise the HTML-escaped text replaces the first marker region, and
   the file is written.

In `build_l1.js` and `build_l5.js` the output file is its own template.

This project models that pipeline and proves the properties that make it
safe:

- The normalized text has a fixed shape, is idempotent, and keeps every
  code unit that is not whitespace, in order.
- The escaping leaves no `<` or `>`, and can be decoded back.
- Short text or a missing marker never leads to a write.
- Without `$` in the text, the splice changes exactly the first marker
  region and leaves a file that the next run rewrites identically.
- The retry loop and the selector loop return what the scripts promise.

The modules are as follows:

- `JsText` (js_text.dfy): strings as sequences of UTF-16 code units, so
  `|s|` is JavaScript's `.length`. `String.prototype.trim` uses the
  whitespace set of ECMA-262.
- `Normalize` (normalize.dfy): `normalizeText`. Each of the four regex
  rewrites is a recursive function that follows the scan of a global
  regular expression: leftmost, greedy and non-overlapping. The fifth
  step, `trim`, is `JsText.Trim`.
- `Escape` (escape.dfy): `escapeHtml` as three global one-character
  replacements, `&` first. It also has a one-pass reference escaper and
  a decoder.
- `Splice` (splice.dfy): the match of `/<pre id="content">[\s\S]*?<\/pre>/`,
  which is the leftmost opening tag with the nearest closing tag after
  it. It also models `String.prototype.replace` with a string
  replacement, including the `$` expansion of the GetSubstitution
  operation of ECMA-262.
- `Guard` (guard.dfy): the length check, the template read, the marker
  test and the splice, as one decision from (cleaned text, template) to
  `Written(contents)` or `Aborted(reason)`. It also has the corrected
  splice (see Findings).
- `Rendered` (rendered.dfy): the `main || [role="main"] || body` element
  choice of the browser-driven scripts.
- `BuildLayer` (build_layer.dfy): the template existence check, the
  `waitAndExtract` retry loop (a method with a loop) and the commit.
- `BuildL1` (build_l1.dfy): the candidate-selector loop with its `break`
  and the body fallback (methods), then the commit.
- `BuildL5` (build_l5.dfy): the straight-line script as a pure function.
- `Wrappers` (wrappers.dfy): `Option`.

## Model

| member | source | states |
|---|---|---|
| JsText.TrimStart | scripts/build_layer.js:84 | the result is a suffix of the input, every unit removed is ECMA-262 whitespace, and the result does not start with whitespace |
| JsText.TrimEnd | scripts/build_layer.js:84 | the result is a prefix of the input, every unit removed is whitespace, and the result does not end with whitespace |
| JsText.Trim | scripts/build_layer.js:84 | `trim` never lengthens a string, and neither end of its result is whitespace |
| JsText.TrimIdentity | scripts/build_l1.js:79 | `trim` leaves a string unchanged exactly when neither end is whitespace |
| Normalize.StripCr | scripts/build_layer.js:80 | the result holds exactly the input's code units with every carriage return taken out (as multisets), and is never longer |
| Normalize.DropBlanksBeforeLf | scripts/build_layer.js:81 | no space or tab is left before a line feed; the result is empty only for empty input and is never longer; a non-blank first unit is kept |
| Normalize.CollapseLfRuns | scripts/build_layer.js:82 | no three line feeds are left in a row; the leading run of line feeds is cut to at most two; the first unit is kept; never longer |
| Normalize.CollapseBlankRuns | scripts/build_layer.js:83 | no two adjacent spaces or tabs are left; a leading blank run becomes one blank; the leading line-feed run is unchanged; never longer |
| Normalize.NormalizeText | scripts/build_layer.js:79 | a missing input (`input \|\| ""`) gives the empty string |
| Normalize.CollapseLfRunsKeepsNoBlankBeforeLf | scripts/build_layer.js:82 | collapsing line-feed runs keeps "no blank before a line feed" |
| Normalize.CollapseBlankRunsKeepsNoBlankBeforeLf | scripts/build_layer.js:83 | collapsing blank runs keeps "no blank before a line feed" |
| Normalize.CollapseBlankRunsKeepsNoTripleLf | scripts/build_layer.js:83 | collapsing blank runs keeps "no three line feeds in a row" |
| Normalize.RewritesShape | scripts/build_l1.js:75-78 | after the four rewrites there is no carriage return, no blank before a line feed, no triple line feed and no double blank, and the text is no longer than the input |
| Normalize.TrimKeepsShape | scripts/build_l1.js:79 | `trim` keeps those four properties and makes both ends non-whitespace |
| Normalize.NormalizeTextShape | scripts/build_layer.js:78-85 | the output has no `\r`, no space or tab before `\n`, no three `\n` in a row, no two adjacent spaces or tabs, no whitespace at either end, and is never longer than the input |
| Normalize.StripCrIdentity | scripts/build_l5.js:51 | the carriage-return rewrite leaves a string without `\r` unchanged |
| Normalize.DropBlanksBeforeLfIdentity | scripts/build_l5.js:52 | the second rewrite leaves a string with no blank before a line feed unchanged |
| Normalize.CollapseLfRunsIdentity | scripts/build_l5.js:53 | the third rewrite leaves a string without three line feeds in a row unchanged |
| Normalize.CollapseBlankRunsIdentity | scripts/build_l5.js:54 | the fourth rewrite leaves a string without two adjacent blanks unchanged |
| Normalize.NormalizeTextIdempotent | scripts/build_l5.js:49-56 | normalizing normalized text changes nothing |
| Normalize.NormalizeTextOfNothing | scripts/build_l1.js:74 | a missing input and the empty string both normalize to "" |
| Normalize.StripCrUnit | scripts/build_layer.js:80 | a lone carriage return is dropped and any other unit is kept |
| Normalize.StripCrAppend | scripts/build_layer.js:80 | the carriage-return rewrite distributes over concatenation, so every other unit keeps its place: `"a\r\nb"` becomes `"a\nb"` |
| Normalize.StripCrKeepsVisible | scripts/build_layer.js:80 | the first rewrite keeps every non-whitespace unit, in order |
| Normalize.DropBlanksBeforeLfKeepsVisible | scripts/build_layer.js:81 | the second rewrite keeps every non-whitespace unit, in order |
| Normalize.CollapseLfRunsKeepsVisible | scripts/build_layer.js:82 | the third rewrite keeps every non-whitespace unit, in order |
| Normalize.CollapseBlankRunsKeepsVisible | scripts/build_layer.js:83 | the fourth rewrite keeps every non-whitespace unit, in order |
| Normalize.TrimKeepsVisible | scripts/build_layer.js:84 | `trim` keeps every non-whitespace unit, in order |
| Normalize.NormalizeTextKeepsVisible | scripts/build_layer.js:78-85 | `normalizeText` changes only whitespace: the output's non-whitespace units are exactly the input's, in the same order |
| Normalize.DropBlanksBeforeLfCopies | scripts/build_layer.js:81 | a unit that is not a space or tab is copied, wherever it is |
| Normalize.DropBlanksBeforeLfRun | scripts/build_layer.js:81 | a run of one or more blanks followed by a line feed, anywhere in the string, becomes that one line feed |
| Normalize.DropBlanksBeforeLfHead | scripts/build_layer.js:81 | the scan over a leading run of blanks not followed by a line feed copies the run and goes on with the rest of the string |
| Normalize.DropBlanksBeforeLfKeepsRun | scripts/build_layer.js:81 | a run of blanks followed by neither a line feed nor a blank, or by the end, is copied unchanged |
| Normalize.CollapseLfRunsCopies | scripts/build_layer.js:82 | a unit that is not a line feed is copied, wherever it is |
| Normalize.CollapseLfRunsHead | scripts/build_layer.js:82 | for any string, the leading run of line feeds is cut to at most two and the rest of the string is rewritten on its own |
| Normalize.CollapseLfRunsRun | scripts/build_layer.js:82 | a whole run of line feeds anywhere in the string becomes exactly two line feeds when it has three or more, and is kept when shorter |
| Normalize.CollapseBlankRunsCopies | scripts/build_layer.js:83 | a unit that is not a space or tab is copied, wherever it is |
| Normalize.CollapseBlankRunsRun | scripts/build_layer.js:83 | a whole run of spaces and tabs anywhere in the string becomes one space when it has two or more units, and a single blank is kept |
| Normalize.DropBlanksBeforeLfAddsOnlyLf | scripts/build_l1.js:76 | the second rewrite inserts no code unit other than a line feed |
| Normalize.CollapseLfRunsAddsOnlyLf | scripts/build_l1.js:77 | the third rewrite inserts no code unit other than a line feed |
| Normalize.CollapseBlankRunsAddsOnlySpace | scripts/build_l1.js:78 | the fourth rewrite inserts no code unit other than a space |
| Normalize.RewritesAddOnlyLfAndSpace | scripts/build_l1.js:75-78 | the four rewrites together insert only line feeds and spaces |
| Normalize.TrimAddsNothing | scripts/build_l1.js:79 | `trim` inserts no code unit |
| Normalize.NormalizeTextAddsNothing | scripts/build_l1.js:73-80 | a code unit other than a line feed or space, such as `$`, appears in the output only when it appears in the input |
| Escape.ReplaceUnit | scripts/build_layer.js:89 | a global one-unit replacement removes every occurrence of the unit when the replacement lacks it, keeps every other unit's presence, and changes nothing when the unit is absent |
| Escape.ReplaceUnitAppend | scripts/build_layer.js:89-91 | a global one-unit replacement distributes over concatenation |
| Escape.EscapeHtml | scripts/build_layer.js:87-92 | the output has no `<` and no `>`, and holds `$` exactly when the input does |
| Escape.EscapeHtmlAppend | scripts/build_l1.js:82-87 | `escapeHtml` distributes over concatenation |
| Escape.EscapeHtmlUnit | scripts/build_l1.js:84-86 | one code unit escapes to its entity, or to itself when it is not `&`, `<` or `>` |
| Escape.EscapeHtmlIsPerUnit | scripts/build_layer.js:88-91 | the three passes equal the one-pass escaper: `&` first means no entity is escaped twice, and every other code unit passes through in order |
| Escape.EscapeEachAmpersands | scripts/build_l5.js:59-62 | every `&` in the one-pass escaper's output starts `&amp;`, `&lt;` or `&gt;` |
| Escape.EscapeHtmlShape | scripts/build_l5.js:58-63 | the output has no `<` or `>`, and every `&` in it starts `&amp;`, `&lt;` or `&gt;` |
| Escape.UnescapeUnit | scripts/build_l5.js:60-62 | decoding the entity of a code unit gives back that code unit |
| Escape.UnescapeEscapeHtml | scripts/build_layer.js:88-91 | one left-to-right pass decoding `&lt;`, `&gt;` and `&amp;` inverts `escapeHtml` |
| Splice.NearestClose | scripts/build_layer.js:15 | the lazy `[\s\S]*?` ends at the first `</pre>` at or after the given position, and there is none before it |
| Splice.MatchFrom | scripts/build_layer.js:15 | the scan from a position returns a lazy match at or after it, and no match starts between the position and that match |
| Splice.FirstMatch | scripts/build_layer.js:15 | the result is a lazy match of PRE_REGEX and no match starts earlier; `None` means PRE_REGEX matches nowhere (`PRE_REGEX.test` fails) |
| Splice.FirstMatchUnique | scripts/build_layer.js:15 | a lazy match with no match before it is the first match |
| Splice.Replace | scripts/build_layer.js:47-50 | without a match the template is returned unchanged |
| Splice.SubstituteLiteralPrefix | scripts/build_layer.js:49 | a `$`-free prefix of the replacement string is copied verbatim |
| Splice.Substitute | scripts/build_layer.js:47-50 | its body is the GetSubstitution expansion of ECMA-262 for a pattern without groups (`$$`, `$&`, `` $` `` and `$'` expanded, every other unit copied); its contract states that a replacement string without `$` is used verbatim, and the expansions are stated by `Splice.SubstituteAppend` and `Guard.DollarAmpersandKeepsOldBlock` |
| Splice.SubstituteAppend | scripts/build_layer.js:49 | the `$` expansion distributes over concatenation when the second part cannot complete a `$` sequence |
| Splice.ReplaceBlock | scripts/build_layer.js:47-50 | for any text, the replacement keeps everything before and after the first match, and puts there the opening tag, the `$`-expanded text and the closing tag |
| Splice.ReplaceLiteralSplices | scripts/build_layer.js:47-50 | the literal splice keeps the text around the first match and puts the tags and the text in its place |
| Splice.ReplaceWithoutDollar | scripts/build_layer.js:47-50 | with no `$` in the escaped text, `replace` equals the literal splice: only the first match changes, and it becomes exactly the opening tag, the text and the closing tag |
| Splice.NoOpenBeforeFirstMatch | scripts/build_layer.js:15 | no opening tag occurs before the first match |
| Splice.SplicedPrefix | scripts/build_l5.js:37-40 | the spliced file agrees with the template up to the end of the first opening tag |
| Splice.MarkerStaysAt | scripts/build_l5.js:37-40 | whatever is spliced in, the written file still matches PRE_REGEX, at the same start position |
| Splice.NoMatchBeforeSplice | scripts/build_l5.js:37-40 | the spliced file has no match before the old first match's start |
| Splice.FirstMatchStartsAt | scripts/build_layer.js:15 | the first match starts at the leftmost position where PRE_REGEX can match |
| Splice.BlockIsLazyMatch | scripts/build_layer.js:49 | a block around text without `<` is a lazy match wherever it is placed |
| Splice.MarkerKept | scripts/build_l1.js:64-67 | with no `<` in the escaped text, the written file's first match is exactly the new block |
| Splice.ReplaceLiteralStable | scripts/build_l1.js:64-67 | splicing the same escaped text into the spliced file gives that file back |
| Guard.Replacement | scripts/build_layer.js:49 | the replacement string, the marker tags around the escaped text, holds a `$` exactly when the cleaned text does |
| Guard.Commit | scripts/build_layer.js:35-52 | a file is written exactly when the cleaned text has at least 500 code units and the template is there with a marker; short text aborts whatever the template holds, because the length check comes first; a missing template or marker aborts with its own reason |
| Guard.CommitKeepsMarker | scripts/build_l5.js:35-40 | a written file still has the marker, at the template's position, so the next run's marker test passes |
| Guard.CommitWritesEscapedText | scripts/build_layer.js:47-50 | with no `$` in the text, the written file is the template with its first marker region replaced by the tags around exactly `escapeHtml(cleaned)` |
| Guard.CommitStable | scripts/build_l1.js:57-67 | with no `$` in the text, a written file used as the next template is written again unchanged |
| Guard.DollarAmpersandKeepsOldBlock | scripts/build_layer.js:47-50 | as written, cleaned text `$&…` writes the old marker region back nested inside the new one, followed by `amp;` and the escaped rest of the text instead of the escaped text `$&amp;…` |
| Guard.CommitLiteral | scripts/build_layer.js:35-52 | the corrected commit has `Guard.Commit`'s write condition and the same abort reason in each case: too short first, then a missing template, then a missing marker |
| Guard.CommitLiteralWritesEscapedText | scripts/build_layer.js:47-50 | the corrected commit writes exactly the escaped text into the first marker region, for every text |
| Guard.CommitLiteralStable | scripts/build_l1.js:64-67 | with the corrected commit, a file that is its own template is stable for every text |
| Guard.CommitAgreesWithoutDollar | scripts/build_layer.js:47-50 | the commit as written and the corrected one agree on every text without `$` |
| Rendered.PageText | scripts/build_layer.js:65-71 | the text read is `main`'s when it exists, else `[role="main"]`'s when that exists, else the body's, and "" when none exists |
| Rendered.FirstPresent | scripts/build_l5.js:19-23 | an `\|\|` chain of lookups gives the value of the first lookup that found something, and "" when none did |
| Rendered.PageTextIsFirstPresent | scripts/build_l5.js:19-23 | the element pick is the `\|\|` chain over `main`, `[role="main"]` and the body, in that order |
| BuildLayer.ChosenAttempt | scripts/build_layer.js:63-75 | the read kept is the first whose cleaned text has at least 500 code units, or the last read; every earlier one was shorter |
| BuildLayer.ChosenLongIffSomeLong | scripts/build_layer.js:73-75 | the read kept is long enough exactly when some read is, so a usable read is never passed over |
| BuildLayer.RetryUntilLong | scripts/build_layer.js:63-75 | the loop makes between one and three reads, stops after the first read of at least 500 code units, and returns the last read's cleaned text |
| BuildLayer.WaitAndExtract | scripts/build_layer.js:59-76 | `waitAndExtract` returns the normalized text of the first read of at least 500 code units, or else of the third read |
| BuildLayer.Run | scripts/build_layer.js:17-52 | a missing template aborts before any read; otherwise the text `waitAndExtract` returns goes through the guarded splice |
| BuildLayer.RunWritesOnlyLongText | scripts/build_layer.js:31-52 | a written layer page comes from a read whose normalized text had at least 500 code units, and keeps the template's marker position |
| BuildL1.Qualifies | scripts/build_l1.js:40 | a candidate text passes `t && t.trim().length > 200` only when it has more than 200 code units, so it is never empty |
| BuildL1.FirstQualifying | scripts/build_l1.js:38-44 | the position of the first selector whose text passes the test; every earlier one fails it |
| BuildL1.SelectedText | scripts/build_l1.js:37-45 | when some candidate qualifies, the selected text qualifies; when none does, it is the body's text |
| BuildL1.FirstQualifyingIsFirst | scripts/build_l1.js:38-44 | a passing selector with no passing selector before it is the one found |
| BuildL1.SelectedTextIsFirstQualifying | scripts/build_l1.js:28-44 | the selected text is that of the first selector, in the order main, article, `[role="main"]`, `.notion-page-content`, `.notion-scroller`, body, whose trimmed text is longer than 200 code units |
| BuildL1.ScanCandidates | scripts/build_l1.js:37-44 | the loop leaves `text` "" when no selector passes, and otherwise holds the first passing selector's text |
| BuildL1.SelectText | scripts/build_l1.js:37-45 | the loop followed by `if (!text)` computes the selection above |
| BuildL1.Run | scripts/build_l1.js:47-69 | the selected text is normalized and committed; the file is written exactly when that text has at least 500 code units and the current file has the marker |
| BuildL1.RebuildFallsBackToBody | scripts/build_l1.js:45 | when no candidate qualifies, the body's text is what gets cleaned and committed |
| BuildL1.RebuildStable | scripts/build_l1.js:57-69 | with no `$` in the page text, the rewritten `docs/L1.html` keeps its marker position, and a second run on the same page writes it again unchanged |
| BuildL5.Run | scripts/build_l5.js:28-42 | one read, no retry: the file is written exactly when that read's normalized text has at least 500 code units and the current file has the marker, and the written file keeps the marker at the same position |
| BuildL5.RunWithoutContentAborts | scripts/build_l5.js:18-32 | a page with none of the three elements gives "" and aborts as too short |
| BuildL5.RunWritesPageText | scripts/build_l5.js:37-40 | with no `$` in the page text, only the first marker region changes, and it holds exactly the escaped normalized text |
| BuildL5.RunStable | scripts/build_l5.js:34-42 | with no `$` in the page text, a second run on the same page writes `docs/L2.html` again unchanged |

## Left out

- The browser parts are not modelled: Playwright launch, `page.goto` and
  `waitForTimeout`. `innerText` is not modelled either. The rendered text
  of each element is an input (`Rendered.Page`).
- The wait lengths (3000, 6000 and 10000 ms, and 3000 ms in
  `build_l5.js`) are not modelled. Only the number and order of reads
  matter.
- `build_l1.js` fetches the page over HTTP with `fetch`; the request,
  its headers and the `res.ok` check are network I/O and are not
  modelled.
- The HTML parser is not modelled: cheerio, the removal of
  `script`/`style`/… and `$(sel).text()`. What a selector's text is
  comes in as a function `textOf`.
- `$("body").text() || ""`: the parser's `text()` always returns a
  string, so `|| ""` changes nothing and is left out.
- File-system calls are modelled as values, not performed:
  - a template is `Some(contents)`, or `None` when it cannot be read;
  - a write is the `Written(contents)` outcome;
  - `existsSync` in `build_layer.js` is the `None` case of `BuildLayer.Run`.
- BuildLayer.Run: a template that passes `existsSync` and then fails
  `readFileSync` is not a separate case. One `Option` stands for both.
- Not modelled: `process.argv`, the `OUT_FILE` name, `console` output,
  the error messages and `process.exit` codes. An abort reason stands
  for each thrown error.
- Regular expressions are not modelled in general. Only the eight
  patterns the scripts use are written out by hand: the four of
  `normalizeText`, the three of `escapeHtml` and `PRE_REGEX`.
- BuildLayer.RetryUntilLong is proved for any cleaning function, and
  `waitAndExtract` uses it with `normalizeText`. The loop is the one in
  the source. Keeping `normalizeText` abstract inside the loop proof
  keeps that proof small.
- BuildL1.ScanCandidates is proved for any test on the text.
  `SelectText` uses it with the source's test, `t && t.trim().length > 200`.
  It returns at the point where the source breaks out of the loop; the
  source does nothing else after the loop before `if (!text)`, which is
  in `SelectText`.
- Splice.Replace: its own contract covers only the no-match case. The
  match case is stated by `Splice.ReplaceBlock` and
  `Splice.ReplaceWithoutDollar`.
- The `$'` and `` $` `` sequences are expanded by `Splice.Substitute`
  like `$&`. Only the `$&` case of the finding is proved as a lemma.

## Findings

| source | as written | input that shows it | evidently intended | confidence | as-written member | corrected member |
|---|---|---|---|---|---|---|
| scripts/build_layer.js:47-50 | the escaped page text goes into `template.replace` as a replacement string, so its `$$`, `$&`, `` $` `` and `$'` sequences are expanded (the same code is at scripts/build_l1.js:64-67 and scripts/build_l5.js:37-40) | cleaned text `$&` followed by 498 or more code units without `$`: the `&` becomes `&amp;`, and the `$&` left in front expands to the template's old marker region, so the old block is written back nested inside the new one, followed by `amp;` and the rest of the escaped text instead of the text itself | the escaped text is spliced in literally, e.g. with a replacement function `() => block` | high, not executed | Guard.DollarAmpersandKeepsOldBlock | Guard.CommitLiteral |

The drivers (`BuildLayer`, `BuildL1`, `BuildL5`) model the scripts as
written, with `Guard.Commit`. The corrected commit is `Guard.CommitLiteral`.

- It has the same write and abort conditions as `Guard.Commit`.
- `Guard.CommitLiteralWritesEscapedText` proves it writes exactly the
  escaped text for every input.
- `Guard.CommitLiteralStable` proves that a file that is its own template
  stays stable for every input.
- `Guard.CommitAgreesWithoutDollar` proves that both commits agree on text
  without `$`. This is why the driver properties that assume no `$` hold
  for both.
