/** app/static/js/positionSelect.js: the subtitle-position buttons (#position-buttons). */
module PositionSelect {
  import opened Dom
  import opened ButtonGroup

  /** The one class the handler moves. */
  const Highlight: set<string> := {"border-primary"}

  /** The click handler of button `i`. */
  method OnClick(buttons: array<Button>, i: nat)
    requires i < buttons.Length
    modifies buttons
    ensures buttons[..] == Highlighted(old(buttons[..]), i, Highlight)
    ensures Holders(buttons[..], "border-primary") == {i}
  {
    ClickExclusive(buttons, i, Highlight);
    ExactlyOneHighlighted(old(buttons[..]), i, Highlight, "border-primary");
  }

  /**
   * The handler never adds or removes `btn-active`, the class the submission
   * reads the position from.
   */
  lemma BtnActiveUntouched(buttons: seq<Button>, i: nat)
    requires i < |buttons|
    ensures Holders(Highlighted(buttons, i, Highlight), "btn-active") == Holders(buttons, "btn-active")
  {
    var r := Highlighted(buttons, i, Highlight);
    assert forall k :: 0 <= k < |buttons| ==>
      ("btn-active" in r[k].classes <==> "btn-active" in r[k].classes - Highlight);
  }
}
