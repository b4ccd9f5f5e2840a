/** `scripts/build_l1.js`: build `docs/L1.html` from the fetched HTML of
    the L1 page. The text of a page part is what the HTML parser gives for
    a CSS selector; it is a parameter here. The output file is also the
    template, so each run splices into the file the previous run wrote. */
module BuildL1 {
  import opened Wrappers
  import opened JsText
  import opened Normalize
  import opened Splice
  import opened Guard

  /** The selectors tried, in the order of `candidates`. */
  datatype Selector =
    | Main                // "main"
    | Article             // "article"
    | RoleMain            // '[role="main"]'
    | NotionPageContent   // ".notion-page-content"
    | NotionScroller      // ".notion-scroller"
    | Body                // "body"

  const Candidates: seq<Selector> :=
    [Main, Article, RoleMain, NotionPageContent, NotionScroller, Body]

  /** `t && t.trim().length > 200`: a qualifying text has more than 200
      code units, so it is never empty. */
  predicate Qualifies(t: JsString)
    ensures Qualifies(t) ==> |t| > 200
  {
    t != [] && |Trim(t)| > 200
  }

  /** The position in `sels` of the first selector whose text passes
      `ok`, or `|sels|` when none does. */
  function FirstQualifying(ok: JsString -> bool, textOf: Selector -> JsString, sels: seq<Selector>): (k: nat)
    ensures k <= |sels|
    ensures forall j | 0 <= j < k :: !ok(textOf(sels[j]))
    ensures k < |sels| ==> ok(textOf(sels[k]))
    decreases |sels|
  {
    if sels == [] then 0
    else if ok(textOf(sels[0])) then 0
    else 1 + FirstQualifying(ok, textOf, sels[1..])
  }

  /** The text the selection settles on: the first qualifying candidate's
      text, or else the whole body's text. */
  function SelectedText(textOf: Selector -> JsString): (r: JsString)
    ensures (exists k | 0 <= k < |Candidates| :: Qualifies(textOf(Candidates[k]))) ==>
      Qualifies(r)
    ensures (forall k | 0 <= k < |Candidates| :: !Qualifies(textOf(Candidates[k]))) ==>
      r == textOf(Body)
  {
    var k := FirstQualifying(Qualifies, textOf, Candidates);
    if k < |Candidates| then textOf(Candidates[k]) else textOf(Body)
  }

  /** The selection is the reference one: the text of the first candidate
      that qualifies when one does, and otherwise the body's text. */
  lemma SelectedTextIsFirstQualifying(textOf: Selector -> JsString, k: nat)
    requires k < |Candidates| && Qualifies(textOf(Candidates[k]))
    requires forall j | 0 <= j < k :: !Qualifies(textOf(Candidates[j]))
    ensures SelectedText(textOf) == textOf(Candidates[k])
  {
    FirstQualifyingIsFirst(Qualifies, textOf, Candidates, k);
  }

  lemma FirstQualifyingIsFirst(ok: JsString -> bool, textOf: Selector -> JsString, sels: seq<Selector>, k: nat)
    requires k < |sels| && ok(textOf(sels[k]))
    requires forall j | 0 <= j < k :: !ok(textOf(sels[j]))
    ensures FirstQualifying(ok, textOf, sels) == k
  {
  }

  /** The candidate loop with its `break`, for any test `ok`: `text` stays
      "" until a selector's text passes, and is then that text. */
  method ScanCandidates(ok: JsString -> bool, textOf: Selector -> JsString, sels: seq<Selector>)
    returns (text: JsString)
    ensures var k := FirstQualifying(ok, textOf, sels);
      text == if k < |sels| then textOf(sels[k]) else []
  {
    text := [];
    var i := 0;
    while i < |sels|
      invariant 0 <= i <= |sels|
      invariant forall j | 0 <= j < i :: !ok(textOf(sels[j]))
    {
      var t := textOf(sels[i]);
      if ok(t) {
        text := t;
        FirstQualifyingIsFirst(ok, textOf, sels, i);
        return;
      }
      i := i + 1;
    }
  }

  /** The loop over the candidates, then `if (!text)` and the body
      fallback. A qualifying text is never empty, so the fallback runs
      exactly when no candidate qualified. */
  method SelectText(textOf: Selector -> JsString) returns (text: JsString)
    ensures text == SelectedText(textOf)
  {
    text := ScanCandidates(Qualifies, textOf, Candidates);
    if text == [] {
      text := textOf(Body);
    }
  }

  /** What a run does with the fetched page and the current contents of
      `docs/L1.html` (`None` when the file cannot be read). */
  function Rebuild(textOf: Selector -> JsString, current: Option<JsString>): Outcome {
    Commit(NormalizeText(Some(SelectedText(textOf))), current)
  }

  /** `run()` after the fetch: select, normalize, then the guarded splice. */
  method Run(textOf: Selector -> JsString, current: Option<JsString>) returns (o: Outcome)
    ensures o == Rebuild(textOf, current)
    ensures o.Written? <==>
      && |NormalizeText(Some(SelectedText(textOf)))| >= MinChars
      && current.Some? && FirstMatch(current.value).Some?
  {
    var text := SelectText(textOf);
    var cleaned := NormalizeText(Some(text));
    o := Commit(cleaned, current);
  }

  /** When no candidate's trimmed text has more than 200 code units, the
      body's text is what gets cleaned, however short. */
  lemma RebuildFallsBackToBody(textOf: Selector -> JsString, current: Option<JsString>)
    requires forall k | 0 <= k < |Candidates| :: !Qualifies(textOf(Candidates[k]))
    ensures Rebuild(textOf, current) == Commit(NormalizeText(Some(textOf(Body))), current)
  {
  }

  /** `docs/L1.html` is both template and output: a written file keeps its
      marker where it was, and with the same page and no `$` in it, the next
      run writes the very same file again. */
  lemma RebuildStable(textOf: Selector -> JsString, current: JsString)
    requires Rebuild(textOf, Some(current)).Written?
    requires Dollar !in SelectedText(textOf)
    ensures var written := Rebuild(textOf, Some(current)).contents;
      && FirstMatch(written).Some?
      && FirstMatch(written).value.start == FirstMatch(current).value.start
      && Rebuild(textOf, Some(written)) == Written(written)
  {
    var cleaned := NormalizeText(Some(SelectedText(textOf)));
    NormalizeTextAddsNothing(Some(SelectedText(textOf)), Dollar);
    CommitKeepsMarker(cleaned, current);
    CommitStable(cleaned, current);
  }
}
