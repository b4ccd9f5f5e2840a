/** `normalizeText` of the three build scripts: five whole-string rewrites
    applied in order,
      /\r/g -> "", /[ \t]+\n/g -> "\n", /\n{3,}/g -> "\n\n",
      /[ \t]{2,}/g -> " ", then trim.
    Each global replacement is modelled the way the regular-expression
    engine scans: try a match at the current position; on success emit the
    replacement and resume after the match, on failure emit one code unit
    and move one position on. The quantifiers are greedy, so a match
    consumes the whole run. */
module Normalize {
  import opened Wrappers
  import opened JsText

  /** The character class `[ \t]`. */
  predicate IsBlank(c: CodeUnit) {
    c == Space || c == Tab
  }

  function Min(a: nat, b: nat): nat {
    if a <= b then a else b
  }

  /** Length of the run of blanks that `s` starts with. */
  function BlankRun(s: JsString): (n: nat)
    ensures n <= |s|
    ensures forall i | 0 <= i < n :: IsBlank(s[i])
    ensures n == |s| || !IsBlank(s[n])
  {
    if s != [] && IsBlank(s[0]) then 1 + BlankRun(s[1..]) else 0
  }

  /** Length of the run of line feeds that `s` starts with. */
  function LfRun(s: JsString): (n: nat)
    ensures n <= |s|
    ensures forall i | 0 <= i < n :: s[i] == Lf
    ensures n == |s| || s[n] != Lf
  {
    if s != [] && s[0] == Lf then 1 + LfRun(s[1..]) else 0
  }

  // ---------------------------------------------------------------------
  // The shape of normalized text, one predicate per rewrite.

  /** No blank immediately before a line feed. */
  predicate NoBlankBeforeLf(s: JsString) {
    forall i | 0 < i < |s| :: s[i] == Lf ==> !IsBlank(s[i - 1])
  }

  /** No three consecutive line feeds. */
  predicate NoTripleLf(s: JsString) {
    forall i | 2 <= i < |s| :: s[i] == Lf ==> s[i - 1] != Lf || s[i - 2] != Lf
  }

  /** No two adjacent blanks. */
  predicate NoDoubleBlank(s: JsString) {
    forall i | 0 < i < |s| :: IsBlank(s[i]) ==> !IsBlank(s[i - 1])
  }

  /** Everything `normalizeText` promises about its output. */
  predicate IsNormal(s: JsString) {
    && Cr !in s
    && NoBlankBeforeLf(s)
    && NoTripleLf(s)
    && NoDoubleBlank(s)
    && Trimmed(s)
  }

  // ---------------------------------------------------------------------
  // The four regex rewrites, then `normalizeText` with `trim`.

  /** `.replace(/\r/g, "")`: the result is `s` with its carriage returns
      taken out and every other code unit kept. */
  function StripCr(s: JsString): (r: JsString)
    ensures |r| <= |s|
    ensures multiset(r) == multiset(s)[Cr := 0]
  {
    if s == [] then []
    else
      assert s == [s[0]] + s[1..];
      if s[0] == Cr then StripCr(s[1..]) else [s[0]] + StripCr(s[1..])
  }

  /** `.replace(/[ \t]+\n/g, "\n")`. A match can only start at a blank
      whose run of blanks ends at a line feed; the run is dropped. */
  function DropBlanksBeforeLf(s: JsString): (r: JsString)
    ensures |r| <= |s|
    ensures NoBlankBeforeLf(r)
    ensures r == [] <==> s == []
    ensures s != [] && !IsBlank(s[0]) ==> r[0] == s[0]
    ensures r != [] && r[0] == Lf ==> BlankRun(s) < |s| && s[BlankRun(s)] == Lf
    decreases |s|
  {
    if s == [] then []
    else if IsBlank(s[0]) && BlankRun(s) < |s| && s[BlankRun(s)] == Lf then
      [Lf] + DropBlanksBeforeLf(s[BlankRun(s) + 1..])
    else
      [s[0]] + DropBlanksBeforeLf(s[1..])
  }

  /** `.replace(/\n{3,}/g, "\n\n")`: every run of three or more line feeds
      becomes exactly two. */
  function CollapseLfRuns(s: JsString): (r: JsString)
    ensures |r| <= |s|
    ensures NoTripleLf(r)
    ensures r == [] <==> s == []
    ensures s != [] ==> r[0] == s[0]
    ensures LfRun(r) == Min(LfRun(s), 2)
    decreases |s|
  {
    if s == [] then []
    else if s[0] == Lf && LfRun(s) >= 3 then
      [Lf, Lf] + CollapseLfRuns(s[LfRun(s)..])
    else
      [s[0]] + CollapseLfRuns(s[1..])
  }

  /** `.replace(/[ \t]{2,}/g, " ")`: every run of two or more blanks
      becomes one space. */
  function CollapseBlankRuns(s: JsString): (r: JsString)
    ensures |r| <= |s|
    ensures NoDoubleBlank(r)
    ensures r == [] <==> s == []
    ensures s != [] && !IsBlank(s[0]) ==> r[0] == s[0]
    ensures BlankRun(r) == Min(BlankRun(s), 1)
    ensures LfRun(r) == LfRun(s)
    decreases |s|
  {
    if s == [] then []
    else if IsBlank(s[0]) && BlankRun(s) >= 2 then
      var t := CollapseBlankRuns(s[BlankRun(s)..]);
      ConsKeepsNoDoubleBlank(Space, t);
      [Space] + t
    else
      var t := CollapseBlankRuns(s[1..]);
      ConsKeepsNoDoubleBlank(s[0], t);
      [s[0]] + t
  }

  /** `normalizeText(input)`: `(input || "")` followed by the five rewrites. */
  function NormalizeText(input: Option<JsString>): (r: JsString)
    ensures input.None? ==> r == []
  {
    var s := if input.Some? then input.value else [];
    Trim(CollapseBlankRuns(CollapseLfRuns(DropBlanksBeforeLf(StripCr(s)))))
  }

  // ---------------------------------------------------------------------
  // Later rewrites keep what earlier ones established.

  lemma ConsKeepsNoBlankBeforeLf(x: CodeUnit, t: JsString)
    requires NoBlankBeforeLf(t)
    requires t != [] && t[0] == Lf ==> !IsBlank(x)
    ensures NoBlankBeforeLf([x] + t)
  {
    var u := [x] + t;
    forall i | 1 < i < |u|
      ensures u[i] == Lf ==> !IsBlank(u[i - 1])
    {
      assert u[i] == t[i - 1] && u[i - 1] == t[i - 2];
    }
  }

  lemma ConsKeepsNoDoubleBlank(x: CodeUnit, t: JsString)
    requires NoDoubleBlank(t)
    requires t != [] && IsBlank(t[0]) ==> !IsBlank(x)
    ensures NoDoubleBlank([x] + t)
  {
    var u := [x] + t;
    forall i | 1 < i < |u|
      ensures IsBlank(u[i]) ==> !IsBlank(u[i - 1])
    {
      assert u[i] == t[i - 1] && u[i - 1] == t[i - 2];
    }
  }

  lemma ConsKeepsNoTripleLf(x: CodeUnit, t: JsString)
    requires NoTripleLf(t)
    requires x == Lf ==> LfRun(t) < 2
    ensures NoTripleLf([x] + t)
  {
    var u := [x] + t;
    forall i | 2 < i < |u|
      ensures u[i] == Lf ==> u[i - 1] != Lf || u[i - 2] != Lf
    {
      assert u[i] == t[i - 1] && u[i - 1] == t[i - 2] && u[i - 2] == t[i - 3];
    }
  }

  lemma {:induction false} CollapseLfRunsKeepsNoBlankBeforeLf(s: JsString)
    requires NoBlankBeforeLf(s)
    ensures NoBlankBeforeLf(CollapseLfRuns(s))
    decreases |s|
  {
    if s == [] {
    } else if s[0] == Lf && LfRun(s) >= 3 {
      CollapseLfRunsKeepsNoBlankBeforeLf(s[LfRun(s)..]);
    } else {
      CollapseLfRunsKeepsNoBlankBeforeLf(s[1..]);
    }
  }

  lemma {:induction false} CollapseBlankRunsKeepsNoBlankBeforeLf(s: JsString)
    requires NoBlankBeforeLf(s)
    ensures NoBlankBeforeLf(CollapseBlankRuns(s))
    decreases |s|
  {
    if s == [] {
    } else if IsBlank(s[0]) && BlankRun(s) >= 2 {
      var n := BlankRun(s);
      CollapseBlankRunsKeepsNoBlankBeforeLf(s[n..]);
      assert IsBlank(s[n - 1]);
      ConsKeepsNoBlankBeforeLf(Space, CollapseBlankRuns(s[n..]));
    } else {
      CollapseBlankRunsKeepsNoBlankBeforeLf(s[1..]);
      ConsKeepsNoBlankBeforeLf(s[0], CollapseBlankRuns(s[1..]));
    }
  }

  lemma {:induction false} CollapseBlankRunsKeepsNoTripleLf(s: JsString)
    requires NoTripleLf(s)
    ensures NoTripleLf(CollapseBlankRuns(s))
    decreases |s|
  {
    if s == [] {
    } else if IsBlank(s[0]) && BlankRun(s) >= 2 {
      CollapseBlankRunsKeepsNoTripleLf(s[BlankRun(s)..]);
      ConsKeepsNoTripleLf(Space, CollapseBlankRuns(s[BlankRun(s)..]));
    } else {
      CollapseBlankRunsKeepsNoTripleLf(s[1..]);
      if s[0] == Lf && |s| > 2 && s[1] == Lf {
        assert s[2] != Lf;
      }
      ConsKeepsNoTripleLf(s[0], CollapseBlankRuns(s[1..]));
    }
  }

  /** A contiguous piece of a string keeps every shape property. */
  lemma SliceKeepsShape(s: JsString, a: nat, b: nat)
    requires a <= b <= |s|
    ensures Cr !in s ==> Cr !in s[a..b]
    ensures NoBlankBeforeLf(s) ==> NoBlankBeforeLf(s[a..b])
    ensures NoTripleLf(s) ==> NoTripleLf(s[a..b])
    ensures NoDoubleBlank(s) ==> NoDoubleBlank(s[a..b])
  {
    var t := s[a..b];
    if Cr in t {
      var i :| 0 <= i < |t| && t[i] == Cr;
      assert s[a + i] == Cr;
    }
  }

  // ---------------------------------------------------------------------
  // Each rewrite leaves alone a string that already has its shape.

  lemma {:induction false} StripCrIdentity(s: JsString)
    requires Cr !in s
    ensures StripCr(s) == s
    decreases |s|
  {
    if s != [] {
      StripCrIdentity(s[1..]);
    }
  }

  lemma {:induction false} DropBlanksBeforeLfIdentity(s: JsString)
    requires NoBlankBeforeLf(s)
    ensures DropBlanksBeforeLf(s) == s
    decreases |s|
  {
    if s != [] {
      DropBlanksBeforeLfIdentity(s[1..]);
    }
  }

  lemma {:induction false} CollapseLfRunsIdentity(s: JsString)
    requires NoTripleLf(s)
    ensures CollapseLfRuns(s) == s
    decreases |s|
  {
    if s != [] {
      var u := s[1..];
      assert NoTripleLf(u) by {
        SliceKeepsShape(s, 1, |s|);
        assert s[1..|s|] == u;
      }
      CollapseLfRunsIdentity(u);
      assert s[0] != Lf || LfRun(s) < 3;
      CollapseLfRunsStep(s);
      assert [s[0]] + u == s;
    }
  }

  lemma {:induction false} CollapseBlankRunsIdentity(s: JsString)
    requires NoDoubleBlank(s)
    ensures CollapseBlankRuns(s) == s
    decreases |s|
  {
    if s != [] {
      CollapseBlankRunsIdentity(s[1..]);
    }
  }

  // ---------------------------------------------------------------------
  // What normalizeText promises.

  /** The four rewrites before `trim` leave no carriage return, no blank
      before a line feed, no three line feeds in a row and no two adjacent
      blanks, and never lengthen the text. */
  lemma RewritesShape(s: JsString)
    ensures var t := CollapseBlankRuns(CollapseLfRuns(DropBlanksBeforeLf(StripCr(s))));
      && |t| <= |s| && Cr !in t && NoBlankBeforeLf(t) && NoTripleLf(t) && NoDoubleBlank(t)
  {
    var s1 := StripCr(s);
    assert multiset(s1)[Cr] == 0;
    var s2 := DropBlanksBeforeLf(s1);
    DropBlanksBeforeLfAddsOnlyLf(s1, Cr);
    var s3 := CollapseLfRuns(s2);
    CollapseLfRunsAddsOnlyLf(s2, Cr);
    CollapseBlankRunsAddsOnlySpace(s3, Cr);
    CollapseLfRunsKeepsNoBlankBeforeLf(s2);
    CollapseBlankRunsKeepsNoBlankBeforeLf(s3);
    CollapseBlankRunsKeepsNoTripleLf(s3);
  }

  /** No carriage return, no blank before a line feed, no three line
      feeds in a row and no two adjacent blanks. */
  predicate Rewritten(s: JsString) {
    Cr !in s && NoBlankBeforeLf(s) && NoTripleLf(s) && NoDoubleBlank(s)
  }

  lemma RewrittenSuffix(s: JsString, a: nat)
    requires a <= |s| && Rewritten(s)
    ensures Rewritten(s[a..])
  {
    SliceKeepsShape(s, a, |s|);
    assert s[a..|s|] == s[a..];
  }

  lemma RewrittenPrefix(s: JsString, b: nat)
    requires b <= |s| && Rewritten(s)
    ensures Rewritten(s[..b])
  {
    SliceKeepsShape(s, 0, b);
    assert s[0..b] == s[..b];
  }

  /** `trim` keeps the shape the rewrites established and adds its own. */
  lemma TrimKeepsShape(s: JsString)
    requires Rewritten(s)
    ensures IsNormal(Trim(s))
  {
    var s5 := TrimStart(s);
    RewrittenSuffix(s, |s| - |s5|);
    var r := TrimEnd(s5);
    RewrittenPrefix(s5, |r|);
    assert Trim(s) == r;
  }

  /** The output has no carriage return, no blank before a line feed, no
      three line feeds in a row, no two adjacent blanks, no whitespace at
      either end, and is never longer than the input. */
  lemma NormalizeTextShape(input: Option<JsString>)
    ensures IsNormal(NormalizeText(input))
    ensures input.Some? ==> |NormalizeText(input)| <= |input.value|
  {
    var s := if input.Some? then input.value else [];
    RewritesShape(s);
    TrimKeepsShape(CollapseBlankRuns(CollapseLfRuns(DropBlanksBeforeLf(StripCr(s)))));
  }

  /** Normalizing normalized text changes nothing. */
  lemma NormalizeTextIdempotent(input: Option<JsString>)
    ensures NormalizeText(Some(NormalizeText(input))) == NormalizeText(input)
  {
    var t := NormalizeText(input);
    NormalizeTextShape(input);
    StripCrIdentity(t);
    DropBlanksBeforeLfIdentity(t);
    CollapseLfRunsIdentity(t);
    CollapseBlankRunsIdentity(t);
    TrimIdentity(t);
  }

  // ---------------------------------------------------------------------
  // The rewrites only ever insert line feeds and spaces.

  lemma {:induction false} DropBlanksBeforeLfAddsOnlyLf(s: JsString, c: CodeUnit)
    requires c != Lf && c !in s
    ensures c !in DropBlanksBeforeLf(s)
    decreases |s|
  {
    if s != [] {
      if IsBlank(s[0]) && BlankRun(s) < |s| && s[BlankRun(s)] == Lf {
        var t := s[BlankRun(s) + 1..];
        assert forall i | 0 <= i < |t| :: t[i] == s[BlankRun(s) + 1 + i];
        DropBlanksBeforeLfAddsOnlyLf(t, c);
      } else {
        var t := s[1..];
        assert forall i | 0 <= i < |t| :: t[i] == s[1 + i];
        DropBlanksBeforeLfAddsOnlyLf(t, c);
      }
    }
  }

  lemma {:induction false} CollapseLfRunsAddsOnlyLf(s: JsString, c: CodeUnit)
    requires c != Lf && c !in s
    ensures c !in CollapseLfRuns(s)
    decreases |s|
  {
    if s != [] {
      if s[0] == Lf && LfRun(s) >= 3 {
        var t := s[LfRun(s)..];
        assert forall i | 0 <= i < |t| :: t[i] == s[LfRun(s) + i];
        CollapseLfRunsAddsOnlyLf(t, c);
      } else {
        var t := s[1..];
        assert forall i | 0 <= i < |t| :: t[i] == s[1 + i];
        CollapseLfRunsAddsOnlyLf(t, c);
      }
    }
  }

  lemma {:induction false} CollapseBlankRunsAddsOnlySpace(s: JsString, c: CodeUnit)
    requires c != Space && c !in s
    ensures c !in CollapseBlankRuns(s)
    decreases |s|
  {
    if s != [] {
      if IsBlank(s[0]) && BlankRun(s) >= 2 {
        var t := s[BlankRun(s)..];
        assert forall i | 0 <= i < |t| :: t[i] == s[BlankRun(s) + i];
        CollapseBlankRunsAddsOnlySpace(t, c);
      } else {
        var t := s[1..];
        assert forall i | 0 <= i < |t| :: t[i] == s[1 + i];
        CollapseBlankRunsAddsOnlySpace(t, c);
      }
    }
  }

  lemma RewritesAddOnlyLfAndSpace(s: JsString, c: CodeUnit)
    requires c != Lf && c != Space && c !in s
    ensures c !in CollapseBlankRuns(CollapseLfRuns(DropBlanksBeforeLf(StripCr(s))))
  {
    var s1 := StripCr(s);
    assert multiset(s1)[c] == 0;
    DropBlanksBeforeLfAddsOnlyLf(s1, c);
    var s2 := DropBlanksBeforeLf(s1);
    CollapseLfRunsAddsOnlyLf(s2, c);
    CollapseBlankRunsAddsOnlySpace(CollapseLfRuns(s2), c);
  }

  lemma TrimAddsNothing(s: JsString, c: CodeUnit)
    requires c !in s
    ensures c !in Trim(s)
  {
    var s5 := TrimStart(s);
    SliceKeepsAbsent(s, c, |s| - |s5|, |s|);
    assert s[|s| - |s5|..|s|] == s5;
    var r := TrimEnd(s5);
    SliceKeepsAbsent(s5, c, 0, |r|);
    assert s5[0..|r|] == r;
  }

  /** A unit missing from a string is missing from every slice of it. */
  lemma SliceKeepsAbsent(s: JsString, c: CodeUnit, a: nat, b: nat)
    requires c !in s && a <= b <= |s|
    ensures c !in s[a..b]
  {
    forall i | 0 <= i < b - a
      ensures s[a..b][i] != c
    {
      assert s[a..b][i] == s[a + i];
    }
  }

  /** Every code unit of the output other than a line feed or a space
      comes from the input: in particular the output holds a `$` only when
      the input does. */
  lemma NormalizeTextAddsNothing(input: Option<JsString>, c: CodeUnit)
    requires c != Lf && c != Space
    requires input.Some? ==> c !in input.value
    ensures c !in NormalizeText(input)
  {
    var s := if input.Some? then input.value else [];
    RewritesAddOnlyLfAndSpace(s, c);
    TrimAddsNothing(CollapseBlankRuns(CollapseLfRuns(DropBlanksBeforeLf(StripCr(s)))), c);
  }

  /** `(input || "")`: a missing input and the empty string both give "". */
  lemma NormalizeTextOfNothing()
    ensures NormalizeText(None) == []
    ensures NormalizeText(Some([])) == []
  {
  }

  // ---------------------------------------------------------------------
  // The rewrites only ever touch whitespace: every other code unit of the
  // input survives, in order.

  /** The code units of `s` that are not JS whitespace, in order. */
  function Visible(s: JsString): JsString {
    if s == [] then []
    else if IsJsWhite(s[0]) then Visible(s[1..])
    else [s[0]] + Visible(s[1..])
  }

  lemma {:induction false} VisibleAppend(a: JsString, b: JsString)
    ensures Visible(a + b) == Visible(a) + Visible(b)
    decreases |a|
  {
    if a == [] {
      assert a + b == b;
    } else {
      assert (a + b)[0] == a[0] && (a + b)[1..] == a[1..] + b;
      VisibleAppend(a[1..], b);
    }
  }

  lemma {:induction false} VisibleOfWhite(w: JsString)
    requires forall i | 0 <= i < |w| :: IsJsWhite(w[i])
    ensures Visible(w) == []
    decreases |w|
  {
    if w != [] {
      VisibleOfWhite(w[1..]);
    }
  }

  /** The visible units of a string with one more unit in front. */
  lemma VisibleCons(x: CodeUnit, t: JsString)
    ensures Visible([x] + t) == (if IsJsWhite(x) then [] else [x]) + Visible(t)
  {
    assert ([x] + t)[0] == x && ([x] + t)[1..] == t;
  }

  /** Dropping a whitespace prefix of length `n` keeps the visible units. */
  lemma VisibleDropWhite(s: JsString, n: nat)
    requires n <= |s|
    requires forall i | 0 <= i < n :: IsJsWhite(s[i])
    ensures Visible(s[n..]) == Visible(s)
  {
    assert s == s[..n] + s[n..];
    VisibleAppend(s[..n], s[n..]);
    VisibleOfWhite(s[..n]);
  }

  lemma {:induction false} StripCrKeepsVisible(s: JsString)
    ensures Visible(StripCr(s)) == Visible(s)
    decreases |s|
  {
    if s != [] {
      StripCrKeepsVisible(s[1..]);
      if s[0] != Cr {
        assert ([s[0]] + StripCr(s[1..]))[1..] == StripCr(s[1..]);
      }
    }
  }

  lemma {:induction false} DropBlanksBeforeLfKeepsVisible(s: JsString)
    ensures Visible(DropBlanksBeforeLf(s)) == Visible(s)
    decreases |s|
  {
    if s == [] {
    } else if IsBlank(s[0]) && BlankRun(s) < |s| && s[BlankRun(s)] == Lf {
      var n := BlankRun(s) + 1;
      var u := s[n..];
      assert Visible(DropBlanksBeforeLf(s)) == Visible(u) by {
        DropBlanksBeforeLfKeepsVisible(u);
        VisibleCons(Lf, DropBlanksBeforeLf(u));
      }
      assert Visible(u) == Visible(s) by {
        assert forall i | 0 <= i < n :: IsJsWhite(s[i]);
        VisibleDropWhite(s, n);
      }
    } else {
      var u := s[1..];
      DropBlanksBeforeLfStep(s);
      assert Visible(DropBlanksBeforeLf(s)) == Visible([s[0]] + u) by {
        DropBlanksBeforeLfKeepsVisible(u);
        VisibleCons(s[0], DropBlanksBeforeLf(u));
        VisibleCons(s[0], u);
      }
      assert [s[0]] + u == s;
    }
  }

  lemma {:induction false} CollapseLfRunsKeepsVisible(s: JsString)
    ensures Visible(CollapseLfRuns(s)) == Visible(s)
    decreases |s|
  {
    if s == [] {
    } else if s[0] == Lf && LfRun(s) >= 3 {
      var n := LfRun(s);
      var t := CollapseLfRuns(s[n..]);
      CollapseLfRunsKeepsVisible(s[n..]);
      VisibleDropWhite(s, n);
      VisibleAppend([Lf, Lf], t);
      VisibleOfWhite([Lf, Lf]);
    } else {
      var t := CollapseLfRuns(s[1..]);
      CollapseLfRunsKeepsVisible(s[1..]);
      assert ([s[0]] + t)[1..] == t;
    }
  }

  lemma {:induction false} CollapseBlankRunsKeepsVisible(s: JsString)
    ensures Visible(CollapseBlankRuns(s)) == Visible(s)
    decreases |s|
  {
    if s == [] {
    } else if IsBlank(s[0]) && BlankRun(s) >= 2 {
      var n := BlankRun(s);
      var t := CollapseBlankRuns(s[n..]);
      CollapseBlankRunsKeepsVisible(s[n..]);
      VisibleDropWhite(s, n);
      assert ([Space] + t)[1..] == t;
    } else {
      var t := CollapseBlankRuns(s[1..]);
      CollapseBlankRunsKeepsVisible(s[1..]);
      assert ([s[0]] + t)[1..] == t;
    }
  }

  /** Keeping the first `n` units, when all the others are whitespace,
      keeps the visible units. */
  lemma VisibleTakeWhite(s: JsString, n: nat)
    requires n <= |s|
    requires forall i | n <= i < |s| :: IsJsWhite(s[i])
    ensures Visible(s[..n]) == Visible(s)
  {
    var w := s[n..];
    assert forall i | 0 <= i < |w| :: IsJsWhite(w[i]) by {
      forall i | 0 <= i < |w|
        ensures IsJsWhite(w[i])
      {
        assert w[i] == s[n + i];
      }
    }
    VisibleOfWhite(w);
    assert s == s[..n] + w;
    VisibleAppend(s[..n], w);
    var v := Visible(s[..n]);
    assert v + [] == v;
  }

  lemma TrimKeepsVisible(s: JsString)
    ensures Visible(Trim(s)) == Visible(s)
  {
    var s5 := TrimStart(s);
    VisibleDropWhite(s, |s| - |s5|);
    var r := TrimEnd(s5);
    VisibleTakeWhite(s5, |r|);
  }

  /** `normalizeText` changes only whitespace: the code units that are not
      JS whitespace come out exactly as they went in, same units, same
      order. `StripCrAppend` and the run lemmas of the other rewrites say
      where whitespace is dropped or replaced. */
  lemma NormalizeTextKeepsVisible(input: Option<JsString>)
    ensures var s := if input.Some? then input.value else [];
      Visible(NormalizeText(input)) == Visible(s)
  {
    var s := if input.Some? then input.value else [];
    var s1 := StripCr(s);
    var s2 := DropBlanksBeforeLf(s1);
    var s3 := CollapseLfRuns(s2);
    var s4 := CollapseBlankRuns(s3);
    StripCrKeepsVisible(s);
    DropBlanksBeforeLfKeepsVisible(s1);
    CollapseLfRunsKeepsVisible(s2);
    CollapseBlankRunsKeepsVisible(s3);
    TrimKeepsVisible(s4);
  }

  // ---------------------------------------------------------------------
  // What each regex rewrite does with a run anywhere in the string. A
  // string is a run of the pattern's units followed by text that does not
  // continue the run; with the lemma that a unit outside the run is copied,
  // these determine each rewrite on every input.

  predicate AllBlank(w: JsString) {
    forall i | 0 <= i < |w| :: IsBlank(w[i])
  }

  predicate AllLf(w: JsString) {
    forall i | 0 <= i < |w| :: w[i] == Lf
  }

  lemma {:induction false} BlankRunOf(w: JsString, t: JsString)
    requires AllBlank(w)
    requires t == [] || !IsBlank(t[0])
    ensures BlankRun(w + t) == |w|
    decreases |w|
  {
    if w == [] {
      assert w + t == t;
    } else {
      assert (w + t)[0] == w[0] && (w + t)[1..] == w[1..] + t;
      BlankRunOf(w[1..], t);
    }
  }

  lemma {:induction false} LfRunOf(w: JsString, t: JsString)
    requires AllLf(w)
    requires t == [] || t[0] != Lf
    ensures LfRun(w + t) == |w|
    decreases |w|
  {
    if w == [] {
      assert w + t == t;
    } else {
      assert (w + t)[0] == w[0] && (w + t)[1..] == w[1..] + t;
      LfRunOf(w[1..], t);
    }
  }

  /** `/\r/g` works unit by unit: a carriage return is dropped and any
      other unit is kept where it stands. */
  lemma StripCrUnit(x: CodeUnit)
    ensures StripCr([x]) == if x == Cr then [] else [x]
  {
    assert [x][1..] == [];
  }

  /** `/\r/g` has no match longer than one unit, so it distributes over
      concatenation; with `StripCrUnit` this fixes the result on every
      input. */
  lemma {:induction false} StripCrAppend(a: JsString, b: JsString)
    ensures StripCr(a + b) == StripCr(a) + StripCr(b)
    decreases |a|
  {
    if a == [] {
      assert a + b == b;
    } else {
      assert (a + b)[0] == a[0] && (a + b)[1..] == a[1..] + b;
      StripCrAppend(a[1..], b);
      if a[0] != Cr {
        assert [a[0]] + (StripCr(a[1..]) + StripCr(b)) == ([a[0]] + StripCr(a[1..])) + StripCr(b);
      }
    }
  }

  /** `/[ \t]+\n/g`: a unit that is not a blank is copied. */
  lemma DropBlanksBeforeLfCopies(x: CodeUnit, t: JsString)
    requires !IsBlank(x)
    ensures DropBlanksBeforeLf([x] + t) == [x] + DropBlanksBeforeLf(t)
  {
    assert ([x] + t)[1..] == t;
  }

  /** `/[ \t]+\n/g`: a run of one or more blanks ending at a line feed,
      wherever it is, becomes that one line feed. */
  lemma DropBlanksBeforeLfRun(w: JsString, t: JsString)
    requires w != [] && AllBlank(w)
    ensures DropBlanksBeforeLf(w + [Lf] + t) == [Lf] + DropBlanksBeforeLf(t)
  {
    var s := w + [Lf] + t;
    BlankRunOf(w, [Lf] + t);
    assert s == w + ([Lf] + t);
    assert s[0] == w[0] && s[|w|] == Lf;
    assert s[|w| + 1..] == t;
  }

  /** One step of the scan of `/[ \t]+\n/g` where no match starts. */
  lemma DropBlanksBeforeLfStep(s: JsString)
    requires s != [] && !(IsBlank(s[0]) && BlankRun(s) < |s| && s[BlankRun(s)] == Lf)
    ensures DropBlanksBeforeLf(s) == [s[0]] + DropBlanksBeforeLf(s[1..])
  {
  }

  /** Putting the first unit of `s` back in front of a rewrite's output
      for the rest. */
  lemma ConsPrefix(s: JsString, k: nat, r: JsString, ru: JsString, rest: JsString)
    requires 1 <= k <= |s|
    requires r == [s[0]] + ru
    requires ru == s[1..][..k - 1] + rest
    ensures r == s[..k] + rest
  {
    assert s[..k] == [s[0]] + s[1..][..k - 1];
  }

  /** The scan of `/[ \t]+\n/g` over a leading run of blanks that does
      not end at a line feed: the run is copied. */
  lemma {:induction false} DropBlanksBeforeLfHead(s: JsString)
    requires BlankRun(s) == |s| || s[BlankRun(s)] != Lf
    ensures DropBlanksBeforeLf(s) == s[..BlankRun(s)] + DropBlanksBeforeLf(s[BlankRun(s)..])
    decreases |s|
  {
    var n := BlankRun(s);
    if n == 0 {
      assert s[..0] == [] && s[0..] == s;
    } else {
      var u := s[1..];
      assert BlankRun(u) == n - 1 && u[n - 1..] == s[n..];
      DropBlanksBeforeLfStep(s);
      DropBlanksBeforeLfHead(u);
      ConsPrefix(s, n, DropBlanksBeforeLf(s), DropBlanksBeforeLf(u), DropBlanksBeforeLf(s[n..]));
    }
  }

  /** `/[ \t]+\n/g`: a run of blanks that does not end at a line feed,
      wherever it is, is copied unchanged. */
  lemma DropBlanksBeforeLfKeepsRun(w: JsString, t: JsString)
    requires AllBlank(w)
    requires t == [] || (!IsBlank(t[0]) && t[0] != Lf)
    ensures DropBlanksBeforeLf(w + t) == w + DropBlanksBeforeLf(t)
  {
    var s := w + t;
    BlankRunOf(w, t);
    assert t != [] ==> s[|w|] == t[0];
    DropBlanksBeforeLfHead(s);
    assert s[..|w|] == w && s[|w|..] == t;
  }

  /** `/\n{3,}/g`: a unit that is not a line feed is copied. */
  lemma CollapseLfRunsCopies(x: CodeUnit, t: JsString)
    requires x != Lf
    ensures CollapseLfRuns([x] + t) == [x] + CollapseLfRuns(t)
  {
    assert ([x] + t)[1..] == t;
  }

  /** One step of the scan of `/\n{3,}/g` where no match starts. */
  lemma CollapseLfRunsStep(s: JsString)
    requires s != [] && !(s[0] == Lf && LfRun(s) >= 3)
    ensures CollapseLfRuns(s) == [s[0]] + CollapseLfRuns(s[1..])
  {
  }

  /** One step of the scan of `/\n{3,}/g` where a match starts. */
  lemma CollapseLfRunsCut(s: JsString)
    requires s != [] && s[0] == Lf && LfRun(s) >= 3
    ensures CollapseLfRuns(s) == [Lf, Lf] + CollapseLfRuns(s[LfRun(s)..])
  {
  }

  /** The scan of `/\n{3,}/g` over the leading run of line feeds: two of
      them are kept when it has three or more, all of them otherwise. */
  lemma {:induction false} CollapseLfRunsHead(s: JsString)
    ensures CollapseLfRuns(s) == s[..Min(LfRun(s), 2)] + CollapseLfRuns(s[LfRun(s)..])
    decreases |s|
  {
    var n := LfRun(s);
    if n == 0 {
      assert s[..0] == [] && s[0..] == s;
    } else if n >= 3 {
      CollapseLfRunsCut(s);
      assert s[..2] == [Lf, Lf];
    } else {
      var u := s[1..];
      assert LfRun(u) == n - 1 && u[n - 1..] == s[n..];
      CollapseLfRunsStep(s);
      CollapseLfRunsHead(u);
      ConsPrefix(s, n, CollapseLfRuns(s), CollapseLfRuns(u), CollapseLfRuns(s[n..]));
    }
  }

  /** `/\n{3,}/g`: a whole run of line feeds, wherever it is, becomes
      exactly two line feeds when it has three or more, and is kept when
      it has one or two. */
  lemma CollapseLfRunsRun(w: JsString, t: JsString)
    requires AllLf(w)
    requires t == [] || t[0] != Lf
    ensures CollapseLfRuns(w + t) == w[..Min(|w|, 2)] + CollapseLfRuns(t)
  {
    var s := w + t;
    LfRunOf(w, t);
    CollapseLfRunsHead(s);
    assert s[..Min(|w|, 2)] == w[..Min(|w|, 2)] && s[|w|..] == t;
  }

  /** `/[ \t]{2,}/g`: a unit that is not a blank is copied. */
  lemma CollapseBlankRunsCopies(x: CodeUnit, t: JsString)
    requires !IsBlank(x)
    ensures CollapseBlankRuns([x] + t) == [x] + CollapseBlankRuns(t)
  {
    assert ([x] + t)[1..] == t;
  }

  /** `/[ \t]{2,}/g`: a whole run of blanks, wherever it is, becomes one
      space when it has two or more, and a single blank is kept. */
  lemma CollapseBlankRunsRun(w: JsString, t: JsString)
    requires AllBlank(w)
    requires t == [] || !IsBlank(t[0])
    ensures CollapseBlankRuns(w + t) == (if |w| >= 2 then [Space] else w) + CollapseBlankRuns(t)
  {
    var s := w + t;
    BlankRunOf(w, t);
    if w == [] {
      assert s == t;
    } else if |w| >= 2 {
      assert s[0] == w[0] && s[|w|..] == t;
    } else {
      assert s[0] == w[0] && s[1..] == t;
      assert w == [w[0]];
    }
  }
}
