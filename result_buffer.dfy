/** The policy by which the demo form accumulates result units into its
    "typed so far" buffer (the ResultReceived handler of Form1). */
module ResultBuffer {
  import opened CodeUnits

  /** Result units the handler interprets as keys rather than text. */
  const Backspace: CodeUnit := 8
  const Enter: CodeUnit := 13
  const Escape: CodeUnit := 27

  /** Escape and Enter both clear the buffer. */
  predicate IsClear(code: CodeUnit) {
    code == Escape || code == Enter
  }

  predicate IsControl(code: CodeUnit) {
    code == Backspace || IsClear(code)
  }

  /** The buffer after the handler has received one result unit: a key
      shortens the buffer to a prefix of itself, any other unit extends it by
      exactly its glyph. */
  function ApplyResult(content: Utf16, code: CodeUnit): (r: Utf16)
    ensures IsControl(code) ==> r <= content
    ensures !IsControl(code) ==> r == content + [Glyph(code)]
  {
    if code == Backspace then
      if |content| > 0 then content[..|content| - 1] else content
    else if IsClear(code) then
      []
    else
      content + [Glyph(code)]
  }

  /** The buffer after the handler has received `codes`, in order: each
      result unit adds at most one unit, and no unit above 0x9FA5 ever
      enters the buffer. */
  function Replay(content: Utf16, codes: seq<CodeUnit>): (r: Utf16)
    ensures |r| <= |content| + |codes|
    ensures Renderable(content) ==> Renderable(r)
    decreases |codes|
  {
    if |codes| == 0 then content else Replay(ApplyResult(content, codes[0]), codes[1..])
  }

  /** Backspace on a non-empty buffer removes exactly its last unit. */
  lemma BackspaceDropsLast(content: Utf16)
    requires |content| > 0
    ensures |ApplyResult(content, Backspace)| == |content| - 1
    ensures ApplyResult(content, Backspace) + [content[|content| - 1]] == content
  {
  }

  /** Backspace on an empty buffer is a no-op. */
  lemma BackspaceOnEmpty()
    ensures ApplyResult([], Backspace) == []
  {
  }

  /** Escape and Enter empty the buffer whatever it held, and doing so twice is doing so once. */
  lemma ClearEmpties(content: Utf16, code: CodeUnit)
    requires IsClear(code)
    ensures ApplyResult(content, code) == []
    ensures ApplyResult(ApplyResult(content, code), code) == ApplyResult(content, code)
  {
  }

  /** Any other unit appends exactly one unit, its glyph, after the old buffer. */
  lemma TypingAppendsOne(content: Utf16, code: CodeUnit)
    requires !IsControl(code)
    ensures |ApplyResult(content, code)| == |content| + 1
    ensures ApplyResult(content, code)[..|content|] == content
    ensures ApplyResult(content, code)[|content|] == Glyph(code)
  {
  }

  /** Backspace undoes the unit typed just before it. */
  lemma TypeThenBackspace(content: Utf16, code: CodeUnit)
    requires !IsControl(code)
    ensures ApplyResult(ApplyResult(content, code), Backspace) == content
  {
  }

  /** No unit above 0x9FA5 ever enters the buffer. */
  lemma ApplyKeepsRenderable(content: Utf16, code: CodeUnit)
    requires Renderable(content)
    ensures Renderable(ApplyResult(content, code))
  {
  }

  /** Receiving `xs` then `ys` is receiving `xs + ys`. */
  lemma {:induction false} ReplayConcat(content: Utf16, xs: seq<CodeUnit>, ys: seq<CodeUnit>)
    ensures Replay(content, xs + ys) == Replay(Replay(content, xs), ys)
    decreases |xs|
  {
    if |xs| == 0 {
      assert xs + ys == ys;
    } else {
      assert (xs + ys)[0] == xs[0];
      assert (xs + ys)[1..] == xs[1..] + ys;
      ReplayConcat(ApplyResult(content, xs[0]), xs[1..], ys);
    }
  }

  /** After an Escape or Enter, the buffer depends only on what came after it. */
  lemma ReplayAfterClear(content: Utf16, xs: seq<CodeUnit>, code: CodeUnit, ys: seq<CodeUnit>)
    requires IsClear(code)
    ensures Replay(content, xs + [code] + ys) == Replay([], ys)
  {
    ReplayConcat(content, xs + [code], ys);
    ReplayConcat(content, xs, [code]);
    assert Replay(Replay(content, xs), [code]) == Replay([], []);
  }

  /** Typing units that are not keys shows them after the buffer, substituted. */
  lemma {:induction false} ReplayTyping(content: Utf16, codes: seq<CodeUnit>)
    requires forall i :: 0 <= i < |codes| ==> !IsControl(codes[i])
    ensures Replay(content, codes) == content + Glyphs(codes)
    decreases |codes|
  {
    if |codes| == 0 {
      assert content + Glyphs(codes) == content;
    } else {
      ReplayTyping(content + [Glyph(codes[0])], codes[1..]);
      assert Glyphs(codes) == [Glyph(codes[0])] + Glyphs(codes[1..]);
      assert content + [Glyph(codes[0])] + Glyphs(codes[1..]) == content + Glyphs(codes);
    }
  }

  /** A committed 0xFF00 reaches the buffer as the placeholder. */
  lemma PlaceholderForFullWidth(content: Utf16)
    ensures ApplyResult(content, 0xFF00) == content + [Placeholder]
  {
  }
}
