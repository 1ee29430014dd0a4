/** app/static/js/textColour.js: the text-colour buttons (#text-colour-buttons). */
module TextColour {
  import opened Dom
  import opened ButtonGroup

  /** The two classes the handler moves. */
  const Highlight: set<string> := {"border-2", "border-primary"}

  /** The click handler of button `i`. */
  method OnClick(buttons: array<Button>, i: nat)
    requires i < buttons.Length
    modifies buttons
    ensures buttons[..] == Highlighted(old(buttons[..]), i, Highlight)
    ensures Holders(buttons[..], "border-2") == {i}
    ensures Holders(buttons[..], "border-primary") == {i}
  {
    ClickExclusive(buttons, i, Highlight);
    ExactlyOneHighlighted(old(buttons[..]), i, Highlight, "border-2");
    ExactlyOneHighlighted(old(buttons[..]), i, Highlight, "border-primary");
  }

  /**
   * The handler never adds or removes `selected`, the class the submission
   * reads the text colour from.
   */
  lemma SelectedUntouched(buttons: seq<Button>, i: nat)
    requires i < |buttons|
    ensures Holders(Highlighted(buttons, i, Highlight), "selected") == Holders(buttons, "selected")
  {
    var r := Highlighted(buttons, i, Highlight);
    assert forall k :: 0 <= k < |buttons| ==>
      ("selected" in r[k].classes <==> "selected" in r[k].classes - Highlight);
  }
}
