/** `scripts/build_layer.js`: build one layer page from a rendered page.
    The template must exist before the browser is started; the page text
    is then read up to three times, after growing waits, and the first read
    whose normalized text is long enough is kept. The page as rendered
    after each wait is given as a sequence, one entry per wait. */
module BuildLayer {
  import opened Wrappers
  import opened JsText
  import opened Normalize
  import opened Splice
  import opened Guard
  import opened Rendered

  /** `waits` has three entries: at most three reads of the page. */
  const Attempts: nat := 3

  /** `last = normalizeText(text)` for one read of the page. */
  function Normalized(text: JsString): JsString {
    NormalizeText(Some(text))
  }

  /** `clean` applied to every read, in order. */
  function CleanEach(texts: seq<JsString>, clean: JsString -> JsString): (r: seq<JsString>)
    ensures |r| == |texts|
    ensures forall i | 0 <= i < |texts| :: r[i] == clean(texts[i])
  {
    seq(|texts|, i requires 0 <= i < |texts| => clean(texts[i]))
  }

  /** The read `waitAndExtract` settles on, given the cleaned text of each
      read: the first with at least `MinChars` code units, or else the last
      one. */
  function ChosenAttempt(cleaned: seq<JsString>): (k: nat)
    requires |cleaned| > 0
    ensures k < |cleaned|
    ensures forall j | 0 <= j < k :: |cleaned[j]| < MinChars
    ensures k < |cleaned| - 1 ==> |cleaned[k]| >= MinChars
    decreases |cleaned|
  {
    if |cleaned| == 1 || |cleaned[0]| >= MinChars then 0
    else 1 + ChosenAttempt(cleaned[1..])
  }

  /** Some read is long enough exactly when the chosen one is: the retry
      loop never passes over a usable read. */
  lemma {:induction false} ChosenLongIffSomeLong(cleaned: seq<JsString>)
    requires |cleaned| > 0
    ensures |cleaned[ChosenAttempt(cleaned)]| >= MinChars <==>
      exists j | 0 <= j < |cleaned| :: |cleaned[j]| >= MinChars
  {
    var k := ChosenAttempt(cleaned);
    if j :| 0 <= j < |cleaned| && |cleaned[j]| >= MinChars {
      assert k <= j;
      if k == |cleaned| - 1 {
        assert j == k;
      }
    }
  }

  /** The loop of `waitAndExtract`, for any per-read cleaning `clean`:
      `texts[i]` is what the page shows after the i-th wait. It stops at
      the first cleaned read with at least `MinChars` code units and
      returns that text, or else the last read's text, with the number of
      reads made. */
  method RetryUntilLong(texts: seq<JsString>, clean: JsString -> JsString)
    returns (cleaned: JsString, attempts: nat)
    requires |texts| == Attempts
    ensures 1 <= attempts <= Attempts
    ensures attempts == ChosenAttempt(CleanEach(texts, clean)) + 1
    ensures cleaned == clean(texts[attempts - 1])
  {
    ghost var all := CleanEach(texts, clean);
    cleaned := [];
    attempts := 0;
    for i := 0 to |texts|
      invariant attempts == i
      invariant forall j | 0 <= j < i :: |all[j]| < MinChars
      invariant i > 0 ==> cleaned == clean(texts[i - 1])
    {
      var text := texts[i];
      cleaned := clean(text);
      attempts := i + 1;
      if |cleaned| >= MinChars {
        return;
      }
    }
  }

  /** The text `waitAndExtract` returns. */
  function Extracted(texts: seq<JsString>): JsString
    requires |texts| > 0
  {
    var cleaned := CleanEach(texts, Normalized);
    cleaned[ChosenAttempt(cleaned)]
  }

  /** `waitAndExtract(page)`: the retry loop with `normalizeText` as the
      cleaning step. */
  method WaitAndExtract(texts: seq<JsString>) returns (cleaned: JsString, attempts: nat)
    requires |texts| == Attempts
    ensures 1 <= attempts <= Attempts
    ensures attempts == ChosenAttempt(CleanEach(texts, Normalized)) + 1
    ensures cleaned == Extracted(texts)
    ensures cleaned == NormalizeText(Some(texts[attempts - 1]))
  {
    cleaned, attempts := RetryUntilLong(texts, Normalized);
  }

  /** The text of each read of the page. */
  function Reads(pages: seq<Page>): (r: seq<JsString>)
    ensures |r| == |pages|
    ensures forall i | 0 <= i < |pages| :: r[i] == PageText(pages[i])
  {
    seq(|pages|, i requires 0 <= i < |pages| => PageText(pages[i]))
  }

  /** The whole script: `template` is `None` when `docs/_template.html` does
      not exist, in which case the page is never read; `pages[i]` is the
      page as rendered after the i-th wait. Otherwise the text goes through
      the guarded splice. */
  method Run(template: Option<JsString>, pages: seq<Page>) returns (o: Outcome, attempts: nat)
    requires |pages| == Attempts
    ensures template.None? ==> o == Aborted(TemplateNotFound) && attempts == 0
    ensures template.Some? ==> attempts == ChosenAttempt(CleanEach(Reads(pages), Normalized)) + 1
    ensures template.Some? ==> o == Commit(Extracted(Reads(pages)), template)
  {
    if template.None? {
      return Aborted(TemplateNotFound), 0;
    }
    var cleaned;
    cleaned, attempts := WaitAndExtract(Reads(pages));
    o := Commit(cleaned, template);
  }

  /** A written layer page holds the normalized text of a read that was
      long enough, and still has its marker where the template had it. */
  lemma RunWritesOnlyLongText(template: JsString, texts: seq<JsString>)
    requires |texts| == Attempts
    requires Commit(Extracted(texts), Some(template)).Written?
    ensures exists j | 0 <= j < |texts| :: |NormalizeText(Some(texts[j]))| >= MinChars
    ensures var written := Commit(Extracted(texts), Some(template)).contents;
      FirstMatch(written).Some? && FirstMatch(written).value.start == FirstMatch(template).value.start
  {
    ChosenLongIffSomeLong(CleanEach(texts, Normalized));
    CommitKeepsMarker(Extracted(texts), template);
  }
}
