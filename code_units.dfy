/** UTF-16 code units, the upper bound on units the form shows and the
    placeholder, shared by the result buffer, the composition display and the
    candidate page, and the unit-by-unit substitution the first two use. */
module CodeUnits {

  /** One UTF-16 code unit: the element type of a .NET string (a C# `char`). */
  type CodeUnit = u: int | 0 <= u <= 0xFFFF

  /** A .NET string, as the sequence of its UTF-16 code units. */
  type Utf16 = seq<CodeUnit>

  /** The bounds the form names for simplified Chinese; only the upper one, 0x9FA5, is used. */
  const SimplifiedChineseMin: CodeUnit := 0x4E00
  const SimplifiedChineseMax: CodeUnit := 0x9FA5

  /** The one-unit string "?" that replaces what lies above 0x9FA5. */
  const Placeholder: CodeUnit := 0x3F

  /** Every unit of `s` can be rendered: none lies above 0x9FA5. */
  predicate Renderable(s: Utf16) {
    forall i :: 0 <= i < |s| ==> s[i] <= SimplifiedChineseMax
  }

  /** The unit shown in place of `u`. */
  function Glyph(u: CodeUnit): (g: CodeUnit)
    ensures g <= SimplifiedChineseMax
    ensures g == u || g == Placeholder
  {
    if u > SimplifiedChineseMax then Placeholder else u
  }

  /** Units above 0x9FA5 become the placeholder; all others, including
      everything below 0x4E00 (ASCII too), pass through. */
  lemma GlyphSubstitution(u: CodeUnit)
    ensures u > SimplifiedChineseMax ==> Glyph(u) == Placeholder
    ensures u <= SimplifiedChineseMax ==> Glyph(u) == u
    ensures u < SimplifiedChineseMin ==> Glyph(u) == u
  {
  }

  /** `s` with every unit replaced by its glyph. */
  function Glyphs(s: Utf16): (r: Utf16)
    ensures |r| == |s|
    ensures forall i :: 0 <= i < |s| ==> r[i] == Glyph(s[i])
    ensures Renderable(r)
  {
    if |s| == 0 then [] else [Glyph(s[0])] + Glyphs(s[1..])
  }
}
