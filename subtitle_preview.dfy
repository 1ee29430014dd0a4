/**
 * app/static/js/subtitlePreview.js: the live preview field (#preview-input)
 * and the font-size readout (#font-size-value), driven by the style controls.
 */
module SubtitlePreview {
  import opened Text
  import opened Dom
  import opened ButtonGroup
  import TextColour

  /** The class this script's colour handler moves. */
  const Highlight: set<string> := {"border-primary"}

  const PreviewText := "Subtitle Preview"

  /** The CSS background the background select's value maps to. */
  function BackgroundCss(selected: string): (css: string)
    // the 'Transparent' branch agrees with plain lower-casing
    ensures css == ToLower(selected)
  {
    if selected == "Transparent" then "transparent" else ToLower(selected)
  }

  class Preview {
    var fontFamily: string      // previewInput.style.fontFamily
    var fontSize: string        // previewInput.style.fontSize
    var color: string           // previewInput.style.color
    var backgroundColor: string // the value last assigned to previewInput.style.backgroundColor
    var value: string           // previewInput.value
    var sizeReadout: string     // the readout's textContent

    constructor (fontFamily0: string, fontSize0: string, color0: string, backgroundColor0: string,
                 value0: string, sizeReadout0: string)
      ensures fontFamily == fontFamily0 && fontSize == fontSize0 && color == color0
      ensures backgroundColor == backgroundColor0 && value == value0 && sizeReadout == sizeReadout0
    {
      fontFamily, fontSize, color := fontFamily0, fontSize0, color0;
      backgroundColor, value, sizeReadout := backgroundColor0, value0, sizeReadout0;
    }

    /** The font select's change handler. */
    method OnFontFamilyChange(selected: string)
      modifies this`fontFamily
      ensures fontFamily == selected
    {
      fontFamily := selected;
    }

    /** The font-size slider's input handler: the readout shows the value, the preview uses it in pixels. */
    method OnFontSizeInput(slider: string)
      modifies this`sizeReadout, this`fontSize
      ensures sizeReadout == slider
      ensures fontSize == sizeReadout + "px"
    {
      sizeReadout := slider;
      fontSize := slider + "px";
    }

    /**
     * The colour handler of text-colour button `i`; `computed` is the button's
     * computed background colour, which the browser supplies.
     */
    method OnColourClick(buttons: array<Button>, i: nat, computed: string)
      requires i < buttons.Length
      modifies buttons, this`color, this`value
      ensures buttons[..] == Highlighted(old(buttons[..]), i, Highlight)
      ensures Holders(buttons[..], "border-primary") == {i}
      ensures color == computed && value == PreviewText
    {
      ClickExclusive(buttons, i, Highlight);
      ExactlyOneHighlighted(old(buttons[..]), i, Highlight, "border-primary");
      color := computed;
      value := PreviewText;
    }

    /** The background select's change handler. */
    method OnBackgroundChange(selected: string)
      modifies this`backgroundColor
      ensures backgroundColor == BackgroundCss(selected)
    {
      backgroundColor := BackgroundCss(selected);
    }
  }

  /**
   * textColour.js and this script both handle each click on a text-colour
   * button; whichever runs first, the buttons end the same, as under
   * textColour.js's handler alone.
   */
  lemma ColourHandlersCommute(buttons: seq<Button>, i: nat)
    requires i < |buttons|
    ensures Highlighted(Highlighted(buttons, i, TextColour.Highlight), i, Highlight) ==
            Highlighted(Highlighted(buttons, i, Highlight), i, TextColour.Highlight)
    ensures Highlighted(Highlighted(buttons, i, Highlight), i, TextColour.Highlight) ==
            Highlighted(buttons, i, TextColour.Highlight)
  {
    NestedHighlightsCommute(buttons, i, Highlight, TextColour.Highlight);
  }
}
