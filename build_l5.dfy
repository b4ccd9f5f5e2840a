/** `scripts/build_l5.js`: build `docs/L2.html` from a page rendered once,
    after a single wait. The script has no loop: the page element is chosen
    by one `||` chain and the text goes straight to the guarded splice. As
    in `build_l1.js`, the output file is also the template. */
module BuildL5 {
  import opened Wrappers
  import opened JsText
  import opened Normalize
  import opened Escape
  import opened Splice
  import opened Guard
  import opened Rendered

  /** The whole script after the page is read: `current` is the contents
      of `docs/L2.html`, `None` when it cannot be read. */
  function Run(p: Page, current: Option<JsString>): (o: Outcome)
    ensures o.Written? <==>
      && |NormalizeText(Some(PageText(p)))| >= MinChars
      && current.Some? && FirstMatch(current.value).Some?
    ensures o.Written? ==>
      && FirstMatch(o.contents).Some?
      && FirstMatch(o.contents).value.start == FirstMatch(current.value).value.start
  {
    var cleaned := NormalizeText(Some(PageText(p)));
    if Commit(cleaned, current).Written? then
      CommitKeepsMarker(cleaned, current.value);
      Commit(cleaned, current)
    else
      Commit(cleaned, current)
  }

  /** A page with none of the three elements yields the empty text, which
      the length check refuses. */
  lemma RunWithoutContentAborts(current: Option<JsString>)
    ensures Run(Page(None, None, None), current) == Aborted(TooShort(0))
  {
    NormalizeTextOfNothing();
  }

  /** A written page holds, between the marker tags, the escaped
      normalized text, and the file around the first marker is kept, when
      the page text has no `$`. */
  lemma RunWritesPageText(p: Page, current: JsString)
    requires Run(p, Some(current)).Written?
    requires Dollar !in PageText(p)
    ensures var sp := FirstMatch(current).value;
      Run(p, Some(current)).contents
        == current[..sp.start] + PreOpen + EscapeHtml(NormalizeText(Some(PageText(p))))
           + PreClose + current[sp.end..]
  {
    NormalizeTextAddsNothing(Some(PageText(p)), Dollar);
    CommitWritesEscapedText(NormalizeText(Some(PageText(p))), current);
  }

  /** Re-running on the same page against the file just written writes
      it again unchanged, when the page text has no `$`. */
  lemma RunStable(p: Page, current: JsString)
    requires Run(p, Some(current)).Written?
    requires Dollar !in PageText(p)
    ensures var written := Run(p, Some(current)).contents;
      Run(p, Some(written)) == Written(written)
  {
    NormalizeTextAddsNothing(Some(PageText(p)), Dollar);
    CommitStable(NormalizeText(Some(PageText(p))), current);
  }
}
