/** The demo form: its "typed so far" buffer, fed by result units, and the
    three texts it shows (the result box, the composition label and the
    candidate list), refreshed by the draw routine on every idle tick. */
module ImeForm {
  import opened CodeUnits
  import opened ResultBuffer
  import opened CompositionDisplay
  import opened CandidatePage

  class Form1 {
    /** The accumulated result text. */
    var inputContent: Utf16
    /** What the result text box shows. */
    var resultText: Utf16
    /** What the composition label shows. */
    var compositionText: Utf16
    /** What the candidate text box shows, one numbered line per entry. */
    var candidatesText: seq<Entry>

    /** The result box mirrors the buffer, and nothing the form shows as
        result or composition lies above 0x9FA5. */
    ghost predicate Valid()
      reads this
    {
      resultText == inputContent && Renderable(inputContent) && Renderable(compositionText)
    }

    constructor ()
      ensures Valid()
      ensures inputContent == [] && resultText == []
      ensures compositionText == [] && candidatesText == []
    {
      inputContent := [];
      resultText := [];
      compositionText := [];
      candidatesText := [];
    }

    /** The ResultReceived handler: one result unit from the IME. */
    method OnResult(code: CodeUnit)
      requires Valid()
      modifies this
      ensures Valid()
      ensures inputContent == ApplyResult(old(inputContent), code)
      ensures compositionText == old(compositionText) && candidatesText == old(candidatesText)
    {
      if code == Backspace {
        if |inputContent| > 0 {
          inputContent := inputContent[..|inputContent| - 1];
        }
      } else if code == Escape || code == Enter {
        inputContent := [];
      } else {
        if code > SimplifiedChineseMax {
          inputContent := inputContent + [Placeholder];
        } else {
          inputContent := inputContent + [code];
        }
      }
      ApplyKeepsRenderable(old(inputContent), code);
      resultText := inputContent;
    }

    /** The draw routine. `composition` and `attributes` are what the IME
        reports for the composition, `candidates` its candidate array. The
        composition label is always refreshed; the candidate box only when
        the whole page could be listed. */
    method FakeDraw(composition: Utf16, attributes: seq<CompositionAttribute>,
                    candidates: array<Utf16>, pageStart: UInt32, pageSize: UInt32)
      returns (colours: seq<Colour>, outcome: PageOutcome)
      requires Valid()
      requires |composition| <= |attributes|
      modifies this, candidates
      ensures Valid()
      ensures inputContent == old(inputContent) && resultText == old(resultText)
      ensures compositionText == Glyphs(composition)
      ensures |colours| == |composition|
      ensures forall i :: 0 <= i < |composition| ==> colours[i] == ColourOf(attributes[i])
      ensures PageDrawn(old(candidates[..]), candidates[..], pageStart, pageSize, outcome)
      ensures candidatesText == if outcome.Listed? then outcome.entries else old(candidatesText)
    {
      var text;
      text, colours := Render(composition, attributes);
      compositionText := text;
      outcome := ShowPage(candidates, pageStart, pageSize);
      if outcome.Listed? {
        candidatesText := outcome.entries;
      }
    }
  }
}
