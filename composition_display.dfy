/** How the demo's draw routine shows the composition string: one display
    colour per attribute and the glyph substitution unit by unit. */
module CompositionDisplay {
  import opened CodeUnits

  /** The per-unit attribute the IME reports for the composition. */
  datatype CompositionAttribute =
    | Input | TargetConverted | Converted | TargetNotConverted | FixedConverted | InputError

  /** The six colours the draw routine paints composition units with. */
  datatype Colour = LightGreen | Gray | Orange | Red | Yellow | SkyBlue

  /** The attribute-to-colour switch of the draw routine; the colour tells
      the attribute back. */
  function ColourOf(a: CompositionAttribute): (c: Colour)
    ensures AttributeShownAs(c) == a
  {
    match a
    case Converted => LightGreen
    case FixedConverted => Gray
    case Input => Orange
    case InputError => Red
    case TargetConverted => Yellow
    case TargetNotConverted => SkyBlue
  }

  /** The attribute a colour stands for: the inverse of ColourOf. */
  function AttributeShownAs(c: Colour): (a: CompositionAttribute) {
    match c
    case LightGreen => Converted
    case Gray => FixedConverted
    case Orange => Input
    case Red => InputError
    case Yellow => TargetConverted
    case SkyBlue => TargetNotConverted
  }

  /** Every colour is used by some attribute. */
  lemma EveryColourUsed(c: Colour)
    ensures ColourOf(AttributeShownAs(c)) == c
  {
  }

  /** Distinct attributes are painted in distinct colours. */
  lemma ColoursDistinct(a: CompositionAttribute, b: CompositionAttribute)
    ensures ColourOf(a) == ColourOf(b) <==> a == b
  {
  }

  /** A converted ideograph followed by raw input ("你h"): green, then orange. */
  lemma ConvertedThenInput()
    ensures ColourOf(Converted) == LightGreen && ColourOf(Input) == Orange
    ensures Glyph(0x4F60) == 0x4F60 && Glyph(0x68) == 0x68
  {
  }

  /** The composition loop: the text shown for `composition` and the colour of
      each of its units, `attributes[i]` being what the IME reports for unit i. */
  method Render(composition: Utf16, attributes: seq<CompositionAttribute>)
    returns (text: Utf16, colours: seq<Colour>)
    requires |composition| <= |attributes|
    ensures |text| == |composition|
    ensures forall i :: 0 <= i < |composition| ==> text[i] == Glyph(composition[i])
    ensures |colours| == |composition|
    ensures forall i :: 0 <= i < |composition| ==> colours[i] == ColourOf(attributes[i])
  {
    text, colours := [], [];
    var i := 0;
    while i < |composition|
      invariant 0 <= i <= |composition|
      invariant |text| == i && |colours| == i
      invariant forall j :: 0 <= j < i ==> text[j] == Glyph(composition[j])
      invariant forall j :: 0 <= j < i ==> colours[j] == ColourOf(attributes[j])
    {
      var colour := ColourOf(attributes[i]);
      var val: Utf16 := [composition[i]];
      if val[0] > SimplifiedChineseMax {
        val := [Placeholder];
      }
      text := text + val;
      colours := colours + [colour];
      i := i + 1;
    }
  }
}
