# WindowsForms.IMEHelper demo form — a Dafny model

WindowsForms.IMEHelper lets a WinForms window receive Input Method Editor
(IME) output and draw it itself. The demo form `Form1` does three things with
that output, and this project models them:

1. **Result buffer.** The form keeps a "typed so far" string, `inputContent`,
   and mirrors it in a result text box. It updates the string once per result
   code unit that the IME delivers. Backspace (8) drops the last unit and does
   nothing on an empty buffer. Escape (27) and Enter (13) clear the buffer.
   Any other unit is appended, except that a unit above 0x9FA5, the upper bound the
   form accepts (named `UnicodeSimplifiedChineseMax`), is appended as `"?"`.
2. **Composition display.** The draw routine walks the composition string one
   unit at a time. It picks a colour from the unit's composition attribute,
   using a switch over six values. It shows each unit above 0x9FA5 as `"?"`.
3. **Candidate page.** The draw routine visits the candidates of the current
   page, the index range `[pageStart, min(pageStart + pageSize, count))`. A
   visited candidate whose first unit is above 0x9FA5 is overwritten in the
   candidate array itself with `"?"`. Every visited candidate is listed with a
   page-relative number, 1, 2, ….

Strings are modelled as sequences of UTF-16 code units (`CodeUnits.Utf16`),
since a .NET `char` is a UTF-16 unit, surrogates included. The modules are:

- `CodeUnits` (`code_units.dfy`): code units, the bounds and the placeholder that all
  three parts share, and `Glyph`/`Glyphs`, the unit-by-unit substitution that
  the result buffer and the composition display use. The candidate page
  substitutes whole candidates instead, with `CandidatePage.Masked`.
- `ResultBuffer` (`result_buffer.dfy`): `ApplyResult`, the handler's policy as a function.
  `Replay` folds it over a stream of units. The lemmas state the policy's
  properties, for one unit and for whole streams.
- `CompositionDisplay` (`composition_display.dfy`): the attribute and colour enumerations,
  `ColourOf` (the switch), its inverse, and `Render`, the composition loop.
- `CandidatePage` (`candidate_page.dfy`): `PageEnd`, the loop bound. `ShowPage` is the loop
  over the candidate `array`, which it changes in place. `PageDrawn` states
  what one draw of the page does.
- `ImeForm` (`ime_form.dfy`): class `Form1`. Its fields are the buffer and the three
  displayed texts. `OnResult` models the result handler and `FakeDraw` the draw
  routine.

Details taken from the code:

- `pageStart + pageSize` is a `uint` sum, and C# does not check it for
  overflow. It therefore wraps modulo 2^32 before `Math.Min` (which resolves
  to its `long` overload) compares it with the candidate count. `PageEnd`
  keeps the wrap. `WrappedPageIsEmpty` shows that a page whose sum overflows
  lists nothing.
- `Candidates[i][0]` fails with an index-out-of-range exception when a visited
  candidate is empty. The model returns `EmptyCandidate(i)` for the first such
  index. The candidates before it stay substituted, and the candidate text box
  keeps its previous text. The composition label was already refreshed.
- Only the first unit of a candidate is checked. A candidate whose later units
  lie above 0x9FA5 is listed as it is (`MaskedChecksFirstUnitOnly`).
- The colour switch paints Converted units light green, FixedConverted units
  gray, Input orange, InputError red, TargetConverted yellow and
  TargetNotConverted sky blue.
- Escape and Enter have one and the same effect, clearing the buffer. The
  model keeps them as one case, as the code does, rather than as two distinct
  signals.

## Model

| member | source | states |
|---|---|---|
| `CodeUnits.Glyph` | Form1.cs:42-45 | the unit shown is never above 0x9FA5, and is either the unit itself or `?` |
| `CodeUnits.GlyphSubstitution` | Form1.cs:18-20 | units above 0x9FA5 become `?`; every other unit, in particular everything below 0x4E00, passes through unchanged |
| `CodeUnits.Glyphs` | Form1.cs:89-92 | substituting a string keeps its length, substitutes it unit by unit, and leaves nothing above 0x9FA5 |
| `ResultBuffer.ApplyResult` | Form1.cs:31-47 | Backspace, Escape and Enter leave a prefix of the old buffer; any other unit yields the old buffer followed by exactly that unit's glyph |
| `ResultBuffer.Replay` | Form1.cs:29-50 | over any stream of result units the buffer grows by at most one unit per result, and no unit above 0x9FA5 ever enters it |
| `ResultBuffer.BackspaceDropsLast` | Form1.cs:33-35 | Backspace on a non-empty buffer yields the buffer without its last unit: one shorter and, with that unit re-appended, the old buffer |
| `ResultBuffer.BackspaceOnEmpty` | Form1.cs:34 | Backspace on an empty buffer leaves it empty, with no underflow |
| `ResultBuffer.ClearEmpties` | Form1.cs:37-39 | Escape and Enter empty the buffer whatever it held, and repeating them changes nothing |
| `ResultBuffer.TypingAppendsOne` | Form1.cs:41-46 | any other unit makes the buffer one longer, keeps the old buffer as prefix, and appends `?` if the unit is above 0x9FA5, the unit itself otherwise |
| `ResultBuffer.TypeThenBackspace` | Form1.cs:33-46 | typing a unit and then Backspace restores the buffer |
| `ResultBuffer.ApplyKeepsRenderable` | Form1.cs:41-46 | no result unit puts a unit above 0x9FA5 into the buffer |
| `ResultBuffer.ReplayConcat` | Form1.cs:29-50 | handling two streams of results one after the other is handling their concatenation |
| `ResultBuffer.ReplayAfterClear` | Form1.cs:37-39 | after an Escape or Enter the buffer depends only on the units received after it |
| `ResultBuffer.ReplayTyping` | Form1.cs:41-46 | a stream of non-key units yields the old buffer followed by the stream, substituted unit by unit |
| `ResultBuffer.PlaceholderForFullWidth` | Form1.cs:42-43 | a committed 0xFF00 is appended as the placeholder `?` |
| `CompositionDisplay.ColourOf` | Form1.cs:79-87 | the colour chosen for a composition unit determines its attribute: `AttributeShownAs` undoes it |
| `CompositionDisplay.EveryColourUsed` | Form1.cs:81-86 | every one of the six colours is the colour of some attribute |
| `CompositionDisplay.ColoursDistinct` | Form1.cs:81-86 | the switch is total and gives the six attributes six distinct colours |
| `CompositionDisplay.ConvertedThenInput` | Form1.cs:81-90 | for "你h" with attributes Converted, Input: light green then orange, and both units are shown unchanged |
| `CompositionDisplay.Render` | Form1.cs:73-95 | the composition text has the composition's length; each unit is `?` exactly when the original is above 0x9FA5 and the original otherwise; each unit's colour is the one for its attribute |
| `CandidatePage.PageEnd` | Form1.cs:98-99 | the loop never passes the end of the candidate array and never lists more than `pageSize` candidates |
| `CandidatePage.FullPage` | Form1.cs:99 | a page that fits inside the candidates, without overflow, ends at `pageStart + pageSize` |
| `CandidatePage.LastPageClamped` | Form1.cs:99 | a page that runs past the candidates is clamped to their count |
| `CandidatePage.WrappedPageIsEmpty` | Form1.cs:99 | when the 32-bit sum `pageStart + pageSize` overflows, the bound wraps below `pageStart` |
| `CandidatePage.TwelveCandidates` | Form1.cs:98-100 | twelve candidates, five per page: the page from 5 is [5, 10), the page from 10 is [10, 12) |
| `CandidatePage.Masked` | Form1.cs:102-103 | a listed candidate is non-empty and does not start above 0x9FA5; it is the candidate itself or `?` |
| `CandidatePage.MaskedSubstitution` | Form1.cs:102-103 | a candidate whose first unit is above 0x9FA5 is listed as `?`; any other candidate is listed exactly as it is |
| `CandidatePage.MaskedIdempotent` | Form1.cs:102-103 | substituting an already substituted candidate changes nothing |
| `CandidatePage.MaskedChecksFirstUnitOnly` | Form1.cs:102 | only the first unit decides: a later unit above 0x9FA5 is listed unchanged |
| `CandidatePage.StopAt` | Form1.cs:102 | the loop stops at the first empty candidate of the page, if there is one, and at the page end otherwise |
| `CandidatePage.PageDrawn` | Form1.cs:97-106 | one page draw keeps the array's length and leaves every candidate outside the page alone; a listed page has at most `pageSize` lines, numbered 1, 2, … and none starting above 0x9FA5; a failure is at an empty candidate of the page |
| `CandidatePage.ShowPage` | Form1.cs:97-108 | visited candidates starting above 0x9FA5 become `?` in the array; all others and all outside the page are unchanged; a completed page lists the visited candidates, as they now stand, numbered `i + 1 - pageStart`; an empty visited candidate ends the loop with the failure at its index |
| `CandidatePage.RedrawIsStable` | Form1.cs:97-106 | drawing a listed page a second time changes no candidate and lists the same page |
| `CandidatePage.TwelveCandidatesFromTen` | Form1.cs:98-105 | twelve candidates from index 10, five per page: exactly indices 10 and 11 are listed, numbered 1 and 2, and indices before 10 are untouched |
| `ImeForm.Form1.constructor` | Form1.cs:16 | the buffer and the result box start empty |
| `ImeForm.Form1.OnResult` | Form1.cs:29-50 | the buffer becomes `ApplyResult` of the old buffer and the unit; the result box shows the buffer; the other texts are unchanged |
| `ImeForm.Form1.FakeDraw` | Form1.cs:71-109 | the composition label shows the substituted composition; the returned colours expose the attribute classification; the candidate array changes as one page draw says; the candidate box shows the new page, or keeps its text when the loop failed |

## Left out

- IMEHandler.cs is left out. It only forwards to `IMENativeWindow`, which is not part of this model. So the composition, its attributes and the candidate array, page start and page size are parameters of `FakeDraw`, and each result unit is a parameter of `OnResult`.
- Event wiring and window lifecycle are left out: the handler subscriptions, `Application.Idle`, `FormClosing` disposal, `CenterToScreen` and `InitializeComponent`.
- The F1 enable toggle (Form1.cs:63-69) is left out. Its effect depends entirely on the native window.
- WinForms controls and `System.Drawing.Color` are not modelled. The text boxes and label are fields of `Form1`, and colours are an enumeration.
- The `"{0}.{1}\r\n"` formatting of the candidate list is not modelled. The list is a sequence of (number, text) entries.
- The source assigns `compColor` (Form1.cs:73, 81-86) but never reads it: only the composition text reaches the label. `CompositionDisplay.Render` and `ImeForm.Form1.FakeDraw` return the per-unit colours only to expose the attribute classification; the program itself paints nothing with them.
- Every string and array is taken to be non-null. A null candidate array, a null candidate (Form1.cs:102) or a null composition (Form1.cs:76) would throw a NullReferenceException, and the model does not cover that.
- `ImeForm.Form1.constructor`: the composition label and the candidate box are taken to start empty. Their initial texts come from `InitializeComponent` (Form1.cs:24), which is not part of this model.
- `CompositionDisplay.Render`: the source keeps one colour variable, starting at white. A value outside the six attributes would leave it unchanged. The model's attribute type has exactly the six values, so every unit gets its own colour, returned as one colour per unit.
- `ImeForm.Form1.FakeDraw` (and `CompositionDisplay.Render`): requires at least as many attributes as composition units. The loop at Form1.cs:76 only asks for the attributes of indices below `Composition.Length`. This rules out a native window that holds fewer attributes than there are composition units; what `GetCompositionAttr` returns then is not part of this model.
- Every read of `Candidates` (and of the page start and size) within one draw is assumed to return the same array object and the same values. `IMENativeWindow`, which supplies them, is not part of this model.
