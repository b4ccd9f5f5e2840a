/** What the scripts that drive a browser read from a rendered page:
    `page.evaluate` picks the first of `main`, `[role="main"]` and the
    body that exists, and returns its `innerText`. The DOM and the
    browser's text rendering are not part of this model: the text of each
    element is given. */
module Rendered {
  import opened Wrappers
  import opened JsText

  /** The rendered text of the elements the page script looks up, `None`
      where `document.querySelector` (or `document.body`) gives null. */
  datatype Page = Page(main: Option<JsString>, roleMain: Option<JsString>, body: Option<JsString>)

  /** `el ? el.innerText : ""` with `el` the first of `main`,
      `[role="main"]` and the body that exists. */
  function PageText(p: Page): (r: JsString)
    ensures p.main.None? && p.roleMain.None? && p.body.None? ==> r == []
    ensures r != [] ==> Some(r) in [p.main, p.roleMain, p.body]
    ensures p.main.Some? ==> r == p.main.value
    ensures p.main.None? && p.roleMain.Some? ==> r == p.roleMain.value
    ensures p.main.None? && p.roleMain.None? && p.body.Some? ==> r == p.body.value
  {
    if p.main.Some? then p.main.value
    else if p.roleMain.Some? then p.roleMain.value
    else if p.body.Some? then p.body.value
    else []
  }

  /** The reference reading of an `||` chain of lookups: the value of the
      first lookup that found something, and "" when none did. */
  function FirstPresent(lookups: seq<Option<JsString>>): (r: JsString)
    ensures (forall i | 0 <= i < |lookups| :: lookups[i].None?) ==> r == []
    ensures forall i | 0 <= i < |lookups| && lookups[i].Some? ::
      (forall j | 0 <= j < i :: lookups[j].None?) ==> r == lookups[i].value
  {
    if lookups == [] then []
    else if lookups[0].Some? then lookups[0].value
    else FirstPresent(lookups[1..])
  }

  /** The page script's pick is the `||` chain over `main`,
      `[role="main"]` and the body, in that order. */
  lemma PageTextIsFirstPresent(p: Page)
    ensures PageText(p) == FirstPresent([p.main, p.roleMain, p.body])
  {
    var l := [p.main, p.roleMain, p.body];
    if p.main.None? {
      assert l[1..] == [p.roleMain, p.body];
      if p.roleMain.None? {
        assert l[1..][1..] == [p.body];
      }
    }
  }
}
