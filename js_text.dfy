/** JavaScript strings as the scripts see them: sequences of UTF-16 code
    units, so that `|s|` is the `.length` the scripts compare with their
    500-character threshold, plus `String.prototype.trim`. */
module JsText {

  /** One UTF-16 code unit; lone surrogates are representable, as in JS. */
  newtype CodeUnit = x: int | 0 <= x < 0x1_0000

  type JsString = seq<CodeUnit>

  const Tab: CodeUnit := 0x09
  const Lf: CodeUnit := 0x0A
  const Cr: CodeUnit := 0x0D
  const Space: CodeUnit := 0x20
  const Dollar: CodeUnit := 0x24       // $
  const Amp: CodeUnit := 0x26          // &
  const Quote: CodeUnit := 0x27        // '
  const Slash: CodeUnit := 0x2F        // /
  const Lt: CodeUnit := 0x3C           // <
  const Gt: CodeUnit := 0x3E           // >
  const Backtick: CodeUnit := 0x60     // `

  /** The code units `trim` removes: WhiteSpace and LineTerminator of
      ECMA-262 (TAB, VT, FF, ZWNBSP, the Zs category, LF, CR, LS, PS). */
  predicate IsJsWhite(c: CodeUnit) {
    || c == Tab || c == Lf || c == 0x0B || c == 0x0C || c == Cr
    || c == Space || c == 0xA0 || c == 0x1680
    || (0x2000 <= c <= 0x200A)
    || c == 0x2028 || c == 0x2029 || c == 0x202F || c == 0x205F
    || c == 0x3000 || c == 0xFEFF
  }

  /** Neither end of `s` is JS whitespace. */
  predicate Trimmed(s: JsString) {
    s == [] || (!IsJsWhite(s[0]) && !IsJsWhite(s[|s| - 1]))
  }

  /** Drops the leading whitespace: the result is the suffix of `s` that
      follows its longest all-whitespace prefix. */
  function TrimStart(s: JsString): (r: JsString)
    ensures |r| <= |s| && r == s[|s| - |r|..]
    ensures forall i | 0 <= i < |s| - |r| :: IsJsWhite(s[i])
    ensures r == [] || !IsJsWhite(r[0])
  {
    if s != [] && IsJsWhite(s[0]) then TrimStart(s[1..]) else s
  }

  /** Drops the trailing whitespace: the result is the prefix of `s` that
      precedes its longest all-whitespace suffix. */
  function TrimEnd(s: JsString): (r: JsString)
    ensures |r| <= |s| && r == s[..|r|]
    ensures forall i | |r| <= i < |s| :: IsJsWhite(s[i])
    ensures r == [] || !IsJsWhite(r[|r| - 1])
  {
    if s != [] && IsJsWhite(s[|s| - 1]) then TrimEnd(s[..|s| - 1]) else s
  }

  /** `String.prototype.trim`. */
  function Trim(s: JsString): (r: JsString)
    ensures |r| <= |s|
    ensures Trimmed(r)
  {
    TrimEnd(TrimStart(s))
  }

  /** `trim` leaves a string alone exactly when neither end is whitespace. */
  lemma TrimIdentity(s: JsString)
    ensures Trim(s) == s <==> Trimmed(s)
  {
  }
}
