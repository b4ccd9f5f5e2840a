/** `template.replace(PRE_REGEX, replacement)` with
      PRE_REGEX = /<pre id="content">[\s\S]*?<\/pre>/
    (not global): the first match is replaced, and the replacement string
    goes through the `$` expansion of GetSubstitution in ECMA-262. */
module Splice {
  import opened Wrappers
  import opened JsText

  /** `<pre id="content">` */
  const PreOpen: JsString :=
    [Lt, 0x70, 0x72, 0x65, Space, 0x69, 0x64, 0x3D, 0x22,
     0x63, 0x6F, 0x6E, 0x74, 0x65, 0x6E, 0x74, 0x22, Gt]

  /** `</pre>` */
  const PreClose: JsString := [Lt, Slash, 0x70, 0x72, 0x65, Gt]

  /** The replacement block the scripts build around the escaped text. */
  function Block(escaped: JsString): JsString {
    PreOpen + escaped + PreClose
  }

  /** A matched region of a template: `t[start..end]`. */
  datatype Span = Span(start: nat, end: nat)

  predicate OpensAt(t: JsString, p: nat) {
    p + |PreOpen| <= |t| && t[p..p + |PreOpen|] == PreOpen
  }

  predicate ClosesAt(t: JsString, q: nat) {
    q + |PreClose| <= |t| && t[q..q + |PreClose|] == PreClose
  }

  /** PRE_REGEX can match from position `p`: the opening tag there and a
      closing tag somewhere after it (`[\s\S]` takes every code unit). */
  ghost predicate MatchesAt(t: JsString, p: nat) {
    OpensAt(t, p) && exists q: nat :: p + |PreOpen| <= q && ClosesAt(t, q)
  }

  /** `sp` is the match PRE_REGEX makes from `sp.start`: the opening tag,
      then, because `*?` is lazy, the nearest closing tag after it. */
  predicate IsLazyMatch(t: JsString, sp: Span) {
    && OpensAt(t, sp.start)
    && sp.start + |PreOpen| + |PreClose| <= sp.end <= |t|
    && ClosesAt(t, sp.end - |PreClose|)
    && forall k: nat | sp.start + |PreOpen| <= k < sp.end - |PreClose| :: !ClosesAt(t, k)
  }

  /** The first closing tag at or after `q`, if any. */
  function NearestClose(t: JsString, q: nat): (r: Option<nat>)
    ensures r.Some? ==> q <= r.value && ClosesAt(t, r.value)
    ensures forall k: nat | q <= k && (r.None? || k < r.value) :: !ClosesAt(t, k)
    decreases |t| - q
  {
    if q + |PreClose| > |t| then None
    else if ClosesAt(t, q) then Some(q)
    else NearestClose(t, q + 1)
  }

  /** The regular-expression scan from position `p`: try a match at `p`,
      and on failure move one position on. */
  function MatchFrom(t: JsString, p: nat): (r: Option<Span>)
    ensures r.Some? ==> p <= r.value.start && IsLazyMatch(t, r.value)
    ensures forall k: nat | p <= k && (r.None? || k < r.value.start) :: !MatchesAt(t, k)
    decreases |t| - p
  {
    if p + |PreOpen| > |t| then None
    else if OpensAt(t, p) then
      match NearestClose(t, p + |PreOpen|)
      case Some(q) => Some(Span(p, q + |PreClose|))
      case None => MatchFrom(t, p + 1)
    else MatchFrom(t, p + 1)
  }

  /** The match of PRE_REGEX in `t`: the leftmost start, and from there the
      nearest closing tag. `PRE_REGEX.test(t)` is `FirstMatch(t).Some?`. */
  function FirstMatch(t: JsString): (r: Option<Span>)
    ensures r.Some? ==> IsLazyMatch(t, r.value)
    ensures forall k: nat | r.None? || k < r.value.start :: !MatchesAt(t, k)
  {
    MatchFrom(t, 0)
  }

  /** A lazy match is the first match when nothing matches before it. */
  lemma FirstMatchUnique(t: JsString, sp: Span)
    requires IsLazyMatch(t, sp)
    requires forall k: nat | k < sp.start :: !MatchesAt(t, k)
    ensures FirstMatch(t) == Some(sp)
  {
    assert MatchesAt(t, sp.start) by {
      assert ClosesAt(t, sp.end - |PreClose|);
    }
    var m := FirstMatch(t).value;
    assert MatchesAt(t, m.start) by {
      assert ClosesAt(t, m.end - |PreClose|);
    }
    assert m.start == sp.start;
  }

  /** The code units that make `$` special when they follow it. */
  predicate IsDollarCode(c: CodeUnit) {
    c == Dollar || c == Amp || c == Backtick || c == Quote
  }

  /** What `$c` stands for, for a code unit `c` with `IsDollarCode(c)`. */
  function DollarExpansion(c: CodeUnit, matched: JsString, before: JsString, after: JsString): JsString {
    if c == Dollar then [Dollar]
    else if c == Amp then matched
    else if c == Backtick then before
    else after
  }

  /** GetSubstitution of ECMA-262 for a pattern without capture groups:
      `$$` gives `$`, `$&` the matched text, `` $` `` the text before the
      match, `$'` the text after it; every other `$` (`$1`, `$<`, a final
      `$`) is literal. */
  function Substitute(rep: JsString, matched: JsString, before: JsString, after: JsString): (r: JsString)
    ensures Dollar !in rep ==> r == rep
    decreases |rep|
  {
    if rep == [] then []
    else if rep[0] == Dollar && |rep| >= 2 && IsDollarCode(rep[1]) then
      DollarExpansion(rep[1], matched, before, after) + Substitute(rep[2..], matched, before, after)
    else
      [rep[0]] + Substitute(rep[1..], matched, before, after)
  }

  /** `t.replace(PRE_REGEX, rep)` with a string `rep`: the first match is
      replaced by the expansion of `rep`; without a match `t` is returned. */
  function Replace(t: JsString, rep: JsString): (r: JsString)
    ensures FirstMatch(t).None? ==> r == t
  {
    match FirstMatch(t)
    case None => t
    case Some(sp) =>
      t[..sp.start] + Substitute(rep, t[sp.start..sp.end], t[..sp.start], t[sp.end..]) + t[sp.end..]
  }

  /** `t.replace(PRE_REGEX, () => block)`: the first match is replaced by
      `block` itself, with no `$` expansion. */
  function ReplaceLiteral(t: JsString, block: JsString): JsString {
    match FirstMatch(t)
    case None => t
    case Some(sp) => t[..sp.start] + block + t[sp.end..]
  }

  // ---------------------------------------------------------------------
  // The `$` expansion around the fixed tags.

  lemma {:induction false} SubstituteLiteralPrefix(a: JsString, b: JsString, m: JsString, be: JsString, af: JsString)
    requires Dollar !in a
    ensures Substitute(a + b, m, be, af) == a + Substitute(b, m, be, af)
    decreases |a|
  {
    if a == [] {
      assert a + b == b;
    } else {
      var x, rest := a[0], a[1..];
      assert a == [x] + rest;
      Regroup([x], rest, b);
      SubstituteLiteralUnit(x, rest + b, m, be, af);
      SubstituteLiteralPrefix(rest, b, m, be, af);
      Regroup([x], rest, Substitute(b, m, be, af));
    }
  }

  /** A code unit other than `$` is copied. */
  lemma SubstituteLiteralUnit(x: CodeUnit, t: JsString, m: JsString, be: JsString, af: JsString)
    requires x != Dollar
    ensures Substitute([x] + t, m, be, af) == [x] + Substitute(t, m, be, af)
  {
    assert ([x] + t)[1..] == t;
  }

  /** Expanding `a + b` for `a` of at most one code unit, when `b` cannot
      complete a `$` sequence. */
  lemma SubstituteAppendShort(a: JsString, b: JsString, m: JsString, be: JsString, af: JsString)
    requires |a| <= 1
    requires b == [] || !IsDollarCode(b[0])
    ensures Substitute(a + b, m, be, af) == Substitute(a, m, be, af) + Substitute(b, m, be, af)
  {
    if a == [] {
      assert a + b == b;
    } else {
      var u := a + b;
      assert u[0] == a[0] && u[1..] == b;
      assert !(|u| >= 2 && IsDollarCode(u[1]));
      assert Substitute(a, m, be, af) == [a[0]] by {
        assert a[1..] == [];
      }
    }
  }

  /** One step of the expansion of `a + b` when `a` has two code units or more. */
  lemma SubstituteStep(a: JsString, b: JsString, m: JsString, be: JsString, af: JsString)
    requires |a| >= 2
    ensures a[0] == Dollar && IsDollarCode(a[1]) ==>
      Substitute(a + b, m, be, af) == DollarExpansion(a[1], m, be, af) + Substitute(a[2..] + b, m, be, af)
    ensures !(a[0] == Dollar && IsDollarCode(a[1])) ==>
      Substitute(a + b, m, be, af) == [a[0]] + Substitute(a[1..] + b, m, be, af)
  {
    assert (a + b)[2..] == a[2..] + b;
    assert (a + b)[1..] == a[1..] + b;
  }

  /** Expanding `a + b` for longer `a`: one step, then the rest. */
  lemma SubstituteAppendStep(a: JsString, b: JsString, m: JsString, be: JsString, af: JsString)
    requires |a| >= 2
    requires Substitute(a[2..] + b, m, be, af) == Substitute(a[2..], m, be, af) + Substitute(b, m, be, af)
    requires Substitute(a[1..] + b, m, be, af) == Substitute(a[1..], m, be, af) + Substitute(b, m, be, af)
    ensures Substitute(a + b, m, be, af) == Substitute(a, m, be, af) + Substitute(b, m, be, af)
  {
    SubstituteStep(a, b, m, be, af);
    var sb := Substitute(b, m, be, af);
    if a[0] == Dollar && IsDollarCode(a[1]) {
      var d, s2 := DollarExpansion(a[1], m, be, af), Substitute(a[2..], m, be, af);
      assert Substitute(a, m, be, af) == d + s2;
      Regroup(d, s2, sb);
    } else {
      var s1 := Substitute(a[1..], m, be, af);
      assert Substitute(a, m, be, af) == [a[0]] + s1;
      Regroup([a[0]], s1, sb);
    }
  }

  /** Expansion distributes over `a + b` when `b` cannot complete a `$`
      sequence that `a` leaves open. */
  lemma {:induction false} SubstituteAppend(a: JsString, b: JsString, m: JsString, be: JsString, af: JsString)
    requires b == [] || !IsDollarCode(b[0])
    ensures Substitute(a + b, m, be, af) == Substitute(a, m, be, af) + Substitute(b, m, be, af)
    decreases |a|
  {
    if |a| >= 2 {
      SubstituteAppend(a[1..], b, m, be, af);
      SubstituteAppend(a[2..], b, m, be, af);
      SubstituteAppendStep(a, b, m, be, af);
    } else {
      SubstituteAppendShort(a, b, m, be, af);
    }
  }

  /** Whatever the escaped text holds, the splice changes only the first
      match: the text before and after it is kept, and the new region is
      the opening tag, the `$`-expanded text and the closing tag. */
  lemma ReplaceBlock(t: JsString, escaped: JsString)
    requires FirstMatch(t).Some?
    ensures var sp := FirstMatch(t).value;
      Replace(t, Block(escaped)) ==
        t[..sp.start] + PreOpen
        + Substitute(escaped, t[sp.start..sp.end], t[..sp.start], t[sp.end..])
        + PreClose + t[sp.end..]
  {
    var sp := FirstMatch(t).value;
    var m, be, af := t[sp.start..sp.end], t[..sp.start], t[sp.end..];
    var x := Substitute(escaped, m, be, af);
    SubstituteLiteralPrefix(PreOpen, escaped + PreClose, m, be, af);
    SubstituteAppend(escaped, PreClose, m, be, af);
    assert Substitute(PreClose, m, be, af) == PreClose;
    Regroup(PreOpen, escaped, PreClose);
    assert Substitute(Block(escaped), m, be, af) == PreOpen + (x + PreClose);
    assert Replace(t, Block(escaped)) == be + Substitute(Block(escaped), m, be, af) + af;
    Regroup5(be, PreOpen, x, PreClose, af);
  }

  lemma Regroup(a: JsString, b: JsString, c: JsString)
    ensures a + b + c == a + (b + c)
  {
  }

  lemma Regroup5(a: JsString, b: JsString, c: JsString, d: JsString, e: JsString)
    ensures a + (b + (c + d)) + e == a + b + c + d + e
  {
  }

  lemma Regroup4(a: JsString, b: JsString, c: JsString, d: JsString, e: JsString)
    ensures a + (b + c + d) + e == a + b + c + d + e
  {
  }

  /** The literal splice keeps the text around the first match and puts
      the block, tags included, in its place. */
  lemma ReplaceLiteralSplices(t: JsString, escaped: JsString)
    requires FirstMatch(t).Some?
    ensures var sp := FirstMatch(t).value;
      ReplaceLiteral(t, Block(escaped)) == t[..sp.start] + PreOpen + escaped + PreClose + t[sp.end..]
  {
    var sp := FirstMatch(t).value;
    Regroup4(t[..sp.start], PreOpen, escaped, PreClose, t[sp.end..]);
  }

  /** With no `$` in the escaped text the splice is literal: only the first
      match changes, and it becomes exactly the block around that text. */
  lemma ReplaceWithoutDollar(t: JsString, escaped: JsString)
    requires Dollar !in escaped
    ensures Replace(t, Block(escaped)) == ReplaceLiteral(t, Block(escaped))
    ensures FirstMatch(t).Some? ==>
      var sp := FirstMatch(t).value;
      Replace(t, Block(escaped)) == t[..sp.start] + PreOpen + escaped + PreClose + t[sp.end..]
  {
    if FirstMatch(t).Some? {
      var sp := FirstMatch(t).value;
      ReplaceBlock(t, escaped);
      assert Substitute(escaped, t[sp.start..sp.end], t[..sp.start], t[sp.end..]) == escaped;
    }
  }

  // ---------------------------------------------------------------------
  // The marker survives the splice.


  /** Before the first match no opening tag occurs at all, since the
      first match's closing tag would complete it. */
  lemma NoOpenBeforeFirstMatch(t: JsString, p: nat)
    requires FirstMatch(t).Some? && p < FirstMatch(t).value.start
    ensures !OpensAt(t, p)
  {
    var sp := FirstMatch(t).value;
    OpenBeforeCloseMatches(t, p, sp.end - |PreClose|);
  }

  lemma OpenBeforeCloseMatches(t: JsString, p: nat, q: nat)
    requires p + |PreOpen| <= q && ClosesAt(t, q)
    ensures OpensAt(t, p) ==> MatchesAt(t, p)
  {
  }

  lemma Middle(a: JsString, b: JsString, c: JsString)
    ensures (a + b + c)[|a|..|a| + |b|] == b
    ensures (a + b + c)[..|a| + |b|] == a + b
  {
  }

  /** The spliced file `t[..s] + PreOpen + x + PreClose + t[e..]` agrees
      with `t` up to the end of the opening tag at `s`. */
  lemma SplicedPrefix(t: JsString, sp: Span, x: JsString)
    requires IsLazyMatch(t, sp)
    ensures var u := t[..sp.start] + PreOpen + x + PreClose + t[sp.end..];
      u[..sp.start + |PreOpen|] == t[..sp.start + |PreOpen|]
  {
    var pre, post := t[..sp.start], t[sp.end..];
    var u := pre + PreOpen + x + PreClose + post;
    Regroup5(pre, PreOpen, x, PreClose, post);
    Middle(pre, PreOpen, x + (PreClose + post));
    assert t[..sp.start + |PreOpen|] == pre + t[sp.start..sp.start + |PreOpen|];
  }

  /** The spliced file `t[..s] + PreOpen + x + PreClose + t[e..]` has its
      first match starting at the same `s`, whatever `x` is. */
  lemma MarkerStaysAt(t: JsString, x: JsString)
    requires FirstMatch(t).Some?
    ensures var sp := FirstMatch(t).value;
      var u := t[..sp.start] + PreOpen + x + PreClose + t[sp.end..];
      FirstMatch(u).Some? && FirstMatch(u).value.start == sp.start
  {
    var sp := FirstMatch(t).value;
    var s := sp.start;
    var pre, post := t[..s], t[sp.end..];
    var u := pre + PreOpen + x + PreClose + post;
    SpliceAt(pre, PreOpen, x, PreClose, post);
    assert OpensAt(u, s);
    assert ClosesAt(u, s + |PreOpen| + |x|);
    OpenBeforeCloseMatches(u, s, s + |PreOpen| + |x|);
    NoMatchBeforeSplice(t, x);
    FirstMatchStartsAt(u, s);
  }

  /** Nothing before the first match of `t` matches in the spliced file,
      which agrees with `t` up to the end of that opening tag. */
  lemma NoMatchBeforeSplice(t: JsString, x: JsString)
    requires FirstMatch(t).Some?
    ensures var sp := FirstMatch(t).value;
      var u := t[..sp.start] + PreOpen + x + PreClose + t[sp.end..];
      forall p: nat | p < sp.start :: !MatchesAt(u, p)
  {
    var sp := FirstMatch(t).value;
    var s := sp.start;
    var u := t[..s] + PreOpen + x + PreClose + t[sp.end..];
    SplicedPrefix(t, sp, x);
    forall p: nat | p < s
      ensures !MatchesAt(u, p)
    {
      NoOpenBeforeFirstMatch(t, p);
      var n := s + |PreOpen|;
      assert u[p..p + |PreOpen|] == u[..n][p..p + |PreOpen|];
      assert t[p..p + |PreOpen|] == t[..n][p..p + |PreOpen|];
    }
  }

  /** The first match starts at `s` when PRE_REGEX can match at `s` and
      at no earlier position. */
  lemma FirstMatchStartsAt(u: JsString, s: nat)
    requires MatchesAt(u, s)
    requires forall p: nat | p < s :: !MatchesAt(u, p)
    ensures FirstMatch(u).Some? && FirstMatch(u).value.start == s
  {
    var m := FirstMatch(u).value;
    assert MatchesAt(u, m.start) by {
      assert ClosesAt(u, m.end - |PreClose|);
    }
  }

  /** A closing tag begins with `<`. */
  lemma NoCloseWithoutLt(t: JsString, q: nat)
    requires q < |t| && t[q] != Lt
    ensures !ClosesAt(t, q)
  {
  }

  /** Where the parts of `pre + a + x + b + post` sit. */
  lemma SpliceAt(pre: JsString, a: JsString, x: JsString, b: JsString, post: JsString)
    ensures var u := pre + a + x + b + post;
      && u[|pre|..|pre| + |a|] == a
      && u[|pre| + |a| + |x|..|pre| + |a| + |x| + |b|] == b
      && forall i | 0 <= i < |x| :: u[|pre| + |a| + i] == x[i]
  {
    var u := pre + a + x + b + post;
    Middle(pre, a, x + b + post);
    assert u == pre + a + (x + b + post);
    Middle(pre + a + x, b, post);
  }

  /** A block around text without `<` is a lazy match of PRE_REGEX
      wherever it is placed. */
  lemma BlockIsLazyMatch(pre: JsString, escaped: JsString, post: JsString)
    requires Lt !in escaped
    ensures var u := pre + PreOpen + escaped + PreClose + post;
      IsLazyMatch(u, Span(|pre|, |pre| + |PreOpen| + |escaped| + |PreClose|))
  {
    var u := pre + PreOpen + escaped + PreClose + post;
    SpliceAt(pre, PreOpen, escaped, PreClose, post);
    var c := |pre| + |PreOpen| + |escaped|;
    assert OpensAt(u, |pre|);
    assert ClosesAt(u, c);
    forall k: nat | |pre| + |PreOpen| <= k < c
      ensures !ClosesAt(u, k)
    {
      assert u[k] == escaped[k - |pre| - |PreOpen|];
      NoCloseWithoutLt(u, k);
    }
  }

  /** When the inserted text has no `<`, the spliced file's first match is
      exactly the new block: the nearest closing tag is the one inserted. */
  lemma MarkerKept(t: JsString, escaped: JsString)
    requires FirstMatch(t).Some?
    requires Lt !in escaped
    ensures var s := FirstMatch(t).value.start;
      FirstMatch(ReplaceLiteral(t, Block(escaped))) == Some(Span(s, s + |Block(escaped)|))
  {
    var sp := FirstMatch(t).value;
    var pre, post := t[..sp.start], t[sp.end..];
    var u := pre + PreOpen + escaped + PreClose + post;
    ReplaceLiteralSplices(t, escaped);
    NoMatchBeforeSplice(t, escaped);
    BlockIsLazyMatch(pre, escaped, post);
    FirstMatchUnique(u, Span(sp.start, sp.start + |PreOpen| + |escaped| + |PreClose|));
  }

  /** The corrected splice is stable: splicing the same text into its own
      output gives that output back, so a file that serves as its own
      template keeps a working marker run after run. */
  lemma ReplaceLiteralStable(t: JsString, escaped: JsString)
    requires FirstMatch(t).Some?
    requires Lt !in escaped
    ensures var u := ReplaceLiteral(t, Block(escaped));
      ReplaceLiteral(u, Block(escaped)) == u
  {
    var sp := FirstMatch(t).value;
    var u := ReplaceLiteral(t, Block(escaped));
    MarkerKept(t, escaped);
    var e := sp.start + |Block(escaped)|;
    assert u[..sp.start] == t[..sp.start];
    assert u[e..] == t[sp.end..];
  }

}
