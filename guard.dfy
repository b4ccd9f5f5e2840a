/** The commit step every script ends with: refuse cleaned text shorter
    than 500 code units, read the template, refuse a template without the
    `<pre id="content">...</pre>` marker, and otherwise splice the escaped
    text into the first marker and write the result. Writing the file is
    modelled as the `Written` outcome; an abort writes nothing. */
module Guard {
  import opened Wrappers
  import opened JsText
  import opened Escape
  import opened Splice

  /** MIN_CHARS */
  const MinChars: nat := 500

  /** Why a run stopped without writing. */
  datatype Abort =
    | TemplateNotFound    // the template file does not exist or cannot be read
    | TooShort(length: nat)
    | MarkerMissing

  /** `Written(contents)`: the output file is overwritten with `contents`. */
  datatype Outcome = Written(contents: JsString) | Aborted(reason: Abort)

  /** The replacement string the scripts pass to `template.replace`: the
      marker tags around the escaped text. It holds a `$`, and so goes
      through `$` expansion, exactly when the cleaned text does. */
  function Replacement(cleaned: JsString): (r: JsString)
    ensures Dollar in r <==> Dollar in cleaned
  {
    assert Dollar !in PreOpen && Dollar !in PreClose;
    Block(EscapeHtml(cleaned))
  }

  /** The length check, then the template read, then the marker test, then
      `template.replace(PRE_REGEX, ...)`. `template` is `None` when the file
      cannot be read. The file is written only when the text is long
      enough and the template has the marker; the length is checked first,
      so short text aborts whatever the template holds. */
  function Commit(cleaned: JsString, template: Option<JsString>): (o: Outcome)
    ensures o.Written? <==> |cleaned| >= MinChars && template.Some? && FirstMatch(template.value).Some?
    ensures |cleaned| < MinChars ==> o == Aborted(TooShort(|cleaned|))
    ensures |cleaned| >= MinChars && template.None? ==> o == Aborted(TemplateNotFound)
    ensures |cleaned| >= MinChars && template.Some? && FirstMatch(template.value).None? ==>
      o == Aborted(MarkerMissing)
  {
    if |cleaned| < MinChars then Aborted(TooShort(|cleaned|))
    else if template.None? then Aborted(TemplateNotFound)
    else if FirstMatch(template.value).None? then Aborted(MarkerMissing)
    else Written(Replace(template.value, Replacement(cleaned)))
  }

  /** A written file still has the marker, starting where the template's
      did, so the next run's marker test passes whatever the text held. */
  lemma CommitKeepsMarker(cleaned: JsString, template: JsString)
    requires Commit(cleaned, Some(template)).Written?
    ensures var written := Commit(cleaned, Some(template)).contents;
      && FirstMatch(written).Some?
      && FirstMatch(written).value.start == FirstMatch(template).value.start
  {
    var sp := FirstMatch(template).value;
    var esc := EscapeHtml(cleaned);
    ReplaceBlock(template, esc);
    MarkerStaysAt(template, Substitute(esc, template[sp.start..sp.end], template[..sp.start], template[sp.end..]));
  }

  /** With no `$` in the text, the written file is the template with its
      first marker region replaced by exactly the escaped text between the
      tags; the text before and after the region is kept. */
  lemma CommitWritesEscapedText(cleaned: JsString, template: JsString)
    requires Commit(cleaned, Some(template)).Written?
    requires Dollar !in cleaned
    ensures var sp := FirstMatch(template).value;
      Commit(cleaned, Some(template)).contents
        == template[..sp.start] + PreOpen + EscapeHtml(cleaned) + PreClose + template[sp.end..]
  {
    ReplaceWithoutDollar(template, EscapeHtml(cleaned));
  }

  /** A file that is its own template: when a run writes it, a second run
      with the same cleaned text finds the marker at the same place and
      writes the very same file again. */
  lemma CommitStable(cleaned: JsString, file: JsString)
    requires Commit(cleaned, Some(file)).Written?
    requires Dollar !in cleaned
    ensures var written := Commit(cleaned, Some(file)).contents;
      Commit(cleaned, Some(written)) == Written(written)
  {
    var esc := EscapeHtml(cleaned);
    var written := Commit(cleaned, Some(file)).contents;
    ReplaceWithoutDollar(file, esc);
    ReplaceLiteralStable(file, esc);
    MarkerKept(file, esc);
    ReplaceWithoutDollar(written, esc);
  }

  // ---------------------------------------------------------------------
  // The `$` sequences of the page text are expanded.

  lemma EscapeDollarPrefix(rest: JsString)
    ensures EscapeHtml([Dollar] + rest) == [Dollar] + EscapeHtml(rest)
  {
    EscapeHtmlAppend([Dollar], rest);
    EscapeHtmlUnit(Dollar);
  }

  lemma EscapeAmpFirst(rest: JsString)
    requires rest != [] && rest[0] == Amp
    ensures EscapeHtml(rest) != [] && EscapeHtml(rest)[0] == Amp
  {
    assert rest == [rest[0]] + rest[1..];
    EscapeHtmlAppend([rest[0]], rest[1..]);
    EscapeHtmlUnit(Amp);
  }

  lemma SubstituteDollarAmp(e: JsString, m: JsString, be: JsString, af: JsString)
    requires e != [] && e[0] == Amp
    requires Dollar !in e
    ensures Substitute([Dollar] + e, m, be, af) == m + e[1..]
  {
    var rep := [Dollar] + e;
    assert rep[0] == Dollar && rep[1] == Amp && rep[2..] == e[1..];
    assert Substitute(e[1..], m, be, af) == e[1..];
  }

  /** As written, a cleaned text `$&...` lands in the file mangled: its `&`
      is escaped to `&amp;`, and the `$&` this leaves at the front expands
      to the whole old marker region, so the old block stays nested inside
      the new one, followed by `amp;` and the rest of the text. */
  lemma DollarAmpersandKeepsOldBlock(file: JsString, rest: JsString)
    requires FirstMatch(file).Some?
    requires rest != [] && rest[0] == Amp
    requires Dollar !in rest
    requires |rest| + 1 >= MinChars
    ensures var sp := FirstMatch(file).value;
      Commit([Dollar] + rest, Some(file)) == Written(
        file[..sp.start] + PreOpen
        + (file[sp.start..sp.end] + EscapeHtml(rest)[1..])
        + PreClose + file[sp.end..])
  {
    var sp := FirstMatch(file).value;
    var m, be, af := file[sp.start..sp.end], file[..sp.start], file[sp.end..];
    EscapeDollarPrefix(rest);
    EscapeAmpFirst(rest);
    SubstituteDollarAmp(EscapeHtml(rest), m, be, af);
    ReplaceBlock(file, EscapeHtml([Dollar] + rest));
  }

  /** The corrected commit: the escaped text is spliced in literally (the
      replacement given as a function, `() => block`), so no `$` sequence
      is expanded. */
  function CommitLiteral(cleaned: JsString, template: Option<JsString>): (o: Outcome)
    ensures o.Written? <==> |cleaned| >= MinChars && template.Some? && FirstMatch(template.value).Some?
    ensures |cleaned| < MinChars ==> o == Aborted(TooShort(|cleaned|))
    ensures |cleaned| >= MinChars && template.None? ==> o == Aborted(TemplateNotFound)
    ensures |cleaned| >= MinChars && template.Some? && FirstMatch(template.value).None? ==>
      o == Aborted(MarkerMissing)
  {
    if |cleaned| < MinChars then Aborted(TooShort(|cleaned|))
    else if template.None? then Aborted(TemplateNotFound)
    else if FirstMatch(template.value).None? then Aborted(MarkerMissing)
    else Written(ReplaceLiteral(template.value, Replacement(cleaned)))
  }

  /** The corrected commit writes exactly the escaped text into the first
      marker region, for every text. */
  lemma CommitLiteralWritesEscapedText(cleaned: JsString, template: JsString)
    requires CommitLiteral(cleaned, Some(template)).Written?
    ensures var sp := FirstMatch(template).value;
      CommitLiteral(cleaned, Some(template)).contents
        == template[..sp.start] + PreOpen + EscapeHtml(cleaned) + PreClose + template[sp.end..]
  {
    ReplaceLiteralSplices(template, EscapeHtml(cleaned));
  }

  /** With the corrected commit a file that is its own template is stable
      for every cleaned text, `$` or not. */
  lemma CommitLiteralStable(cleaned: JsString, file: JsString)
    requires CommitLiteral(cleaned, Some(file)).Written?
    ensures var written := CommitLiteral(cleaned, Some(file)).contents;
      CommitLiteral(cleaned, Some(written)) == Written(written)
  {
    ReplaceLiteralStable(file, EscapeHtml(cleaned));
    MarkerKept(file, EscapeHtml(cleaned));
  }

  /** The two commits agree whenever the cleaned text has no `$`. */
  lemma CommitAgreesWithoutDollar(cleaned: JsString, template: Option<JsString>)
    requires Dollar !in cleaned
    ensures Commit(cleaned, template) == CommitLiteral(cleaned, template)
  {
    if template.Some? {
      ReplaceWithoutDollar(template.value, EscapeHtml(cleaned));
    }
  }
}
