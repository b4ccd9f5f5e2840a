/** `escapeHtml` of the three build scripts: three global single-character
    replacements, `&` first, then `<`, then `>`. */
module Escape {
  import opened JsText

  const AmpEntity: JsString := [Amp, 0x61, 0x6D, 0x70, 0x3B]   // &amp;
  const LtEntity: JsString := [Amp, 0x6C, 0x74, 0x3B]          // &lt;
  const GtEntity: JsString := [Amp, 0x67, 0x74, 0x3B]          // &gt;

  /** `s.replace(/c/g, rep)` for a one-unit pattern `c` and a replacement
      without `$`: every occurrence of `c` becomes `rep`, everything else
      is kept in order. */
  function ReplaceUnit(s: JsString, c: CodeUnit, rep: JsString): (r: JsString)
    ensures c !in rep ==> c !in r
    ensures forall x | x != c && x !in rep :: x in r <==> x in s
    ensures c !in s ==> r == s
  {
    if s == [] then []
    else (if s[0] == c then rep else [s[0]]) + ReplaceUnit(s[1..], c, rep)
  }

  lemma {:induction false} ReplaceUnitAppend(a: JsString, b: JsString, c: CodeUnit, rep: JsString)
    ensures ReplaceUnit(a + b, c, rep) == ReplaceUnit(a, c, rep) + ReplaceUnit(b, c, rep)
    decreases |a|
  {
    if a == [] {
      assert a + b == b;
    } else {
      assert (a + b)[1..] == a[1..] + b;
      ReplaceUnitAppend(a[1..], b, c, rep);
    }
  }

  /** `escapeHtml(str)`; `(str || "")` is the identity on strings. */
  function EscapeHtml(s: JsString): (r: JsString)
    ensures Lt !in r && Gt !in r
    ensures Dollar in r <==> Dollar in s
  {
    ReplaceUnit(ReplaceUnit(ReplaceUnit(s, Amp, AmpEntity), Lt, LtEntity), Gt, GtEntity)
  }

  /** The entity one code unit turns into. */
  function EscapeUnit(c: CodeUnit): JsString {
    if c == Amp then AmpEntity
    else if c == Lt then LtEntity
    else if c == Gt then GtEntity
    else [c]
  }

  /** A one-pass reference escaper: each code unit replaced by its entity. */
  function EscapeEach(s: JsString): JsString {
    if s == [] then [] else EscapeUnit(s[0]) + EscapeEach(s[1..])
  }

  /** `escapeHtml` works code unit by code unit, so it distributes over
      concatenation. */
  lemma EscapeHtmlAppend(a: JsString, b: JsString)
    ensures EscapeHtml(a + b) == EscapeHtml(a) + EscapeHtml(b)
  {
    ReplaceUnitAppend(a, b, Amp, AmpEntity);
    var a1, b1 := ReplaceUnit(a, Amp, AmpEntity), ReplaceUnit(b, Amp, AmpEntity);
    ReplaceUnitAppend(a1, b1, Lt, LtEntity);
    ReplaceUnitAppend(ReplaceUnit(a1, Lt, LtEntity), ReplaceUnit(b1, Lt, LtEntity), Gt, GtEntity);
  }

  lemma EscapeHtmlUnit(c: CodeUnit)
    ensures EscapeHtml([c]) == EscapeUnit(c)
  {
    var a := ReplaceUnit([c], Amp, AmpEntity);
    assert a == if c == Amp then AmpEntity else [c] by {
      assert [c][1..] == [];
    }
    var b := ReplaceUnit(a, Lt, LtEntity);
    assert b == if c == Lt then LtEntity else a by {
      if c != Amp { assert [c][1..] == []; }
    }
    if c != Amp && c != Lt {
      assert [c][1..] == [];
    }
  }

  /** Because `&` is rewritten first, the three passes of `escapeHtml`
      never escape the `&` of an entity a later pass inserts: together
      they equal the one-pass escaper. */
  lemma {:induction false} EscapeHtmlIsPerUnit(s: JsString)
    ensures EscapeHtml(s) == EscapeEach(s)
    decreases |s|
  {
    if s != [] {
      assert s == [s[0]] + s[1..];
      EscapeHtmlAppend([s[0]], s[1..]);
      EscapeHtmlUnit(s[0]);
      EscapeHtmlIsPerUnit(s[1..]);
    }
  }

  /** `s` holds one of the three entities at position `i`. */
  predicate EntityAt(s: JsString, i: nat)
    requires i <= |s|
  {
    AmpEntity <= s[i..] || LtEntity <= s[i..] || GtEntity <= s[i..]
  }

  lemma {:induction false} EscapeEachAmpersands(s: JsString)
    ensures forall i | 0 <= i < |EscapeEach(s)| && EscapeEach(s)[i] == Amp :: EntityAt(EscapeEach(s), i)
    decreases |s|
  {
    if s != [] {
      var e, t := EscapeUnit(s[0]), EscapeEach(s[1..]);
      EscapeEachAmpersands(s[1..]);
      forall i | 0 <= i < |e + t| && (e + t)[i] == Amp
        ensures EntityAt(e + t, i)
      {
        if i < |e| {
          assert i == 0;
          assert e <= (e + t)[0..];
        } else {
          assert (e + t)[i..] == t[i - |e|..];
        }
      }
    }
  }

  /** What `escapeHtml` promises: no `<` or `>` is left, and every `&` in the
      output begins `&amp;`, `&lt;` or `&gt;`. */
  lemma EscapeHtmlShape(s: JsString)
    ensures Lt !in EscapeHtml(s) && Gt !in EscapeHtml(s)
    ensures forall i | 0 <= i < |EscapeHtml(s)| && EscapeHtml(s)[i] == Amp :: EntityAt(EscapeHtml(s), i)
  {
    EscapeHtmlIsPerUnit(s);
    EscapeEachAmpersands(s);
  }

  /** Decodes `&lt;`, `&gt;` and `&amp;` in one left-to-right pass. */
  function Unescape(s: JsString): JsString
    decreases |s|
  {
    if s == [] then []
    else if LtEntity <= s then [Lt] + Unescape(s[|LtEntity|..])
    else if GtEntity <= s then [Gt] + Unescape(s[|GtEntity|..])
    else if AmpEntity <= s then [Amp] + Unescape(s[|AmpEntity|..])
    else [s[0]] + Unescape(s[1..])
  }

  lemma UnescapeUnit(c: CodeUnit, t: JsString)
    ensures Unescape(EscapeUnit(c) + t) == [c] + Unescape(t)
  {
    var u := EscapeUnit(c) + t;
    assert u[0] == EscapeUnit(c)[0];
    if c == Amp {
      assert u[1] == 0x61;
      assert u[|AmpEntity|..] == t;
    } else if c == Lt {
      assert u[|LtEntity|..] == t;
    } else if c == Gt {
      assert u[1] == 0x67;
      assert u[|GtEntity|..] == t;
    } else {
      assert u[1..] == t;
    }
  }

  /** Decoding the entities undoes `escapeHtml`: every other code unit
      passes through unchanged and in order. */
  lemma {:induction false} UnescapeEscapeHtml(s: JsString)
    ensures Unescape(EscapeHtml(s)) == s
    decreases |s|
  {
    EscapeHtmlIsPerUnit(s);
    if s != [] {
      UnescapeUnit(s[0], EscapeEach(s[1..]));
      UnescapeEscapeHtml(s[1..]);
      EscapeHtmlIsPerUnit(s[1..]);
    }
  }
}
