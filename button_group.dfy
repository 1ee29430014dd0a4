/**
 * The exclusive-highlight click handler that positionSelect.js, textColour.js
 * and subtitlePreview.js each attach to every button of a group: strip the
 * highlight classes from every button of the group, then add them to the
 * button that was clicked.
 */
module ButtonGroup {
  import opened Dom

  /** The group after a click on button `i` with highlight classes `h`. */
  function Highlighted(buttons: seq<Button>, i: nat, h: set<string>): (r: seq<Button>)
    requires i < |buttons|
    ensures |r| == |buttons|
    // the clicked button carries every highlight class, the others none
    ensures h <= r[i].classes
    ensures forall k :: 0 <= k < |r| && k != i ==> r[k].classes !! h
    // all other classes, the data-color attribute and the text stay as they were
    ensures forall k :: 0 <= k < |r| ==> r[k].classes - h == buttons[k].classes - h
    ensures forall k :: 0 <= k < |r| ==> r[k].dataColor == buttons[k].dataColor && r[k].text == buttons[k].text
  {
    seq(|buttons|, k requires 0 <= k < |buttons| =>
      buttons[k].(classes := if k == i then buttons[k].classes - h + h else buttons[k].classes - h))
  }

  /** `buttons.forEach(b => b.classList.remove(...h))` then `btn.classList.add(...h)`, in place. */
  method ClickExclusive(buttons: array<Button>, i: nat, h: set<string>)
    requires i < buttons.Length
    modifies buttons
    ensures buttons[..] == Highlighted(old(buttons[..]), i, h)
  {
    for k := 0 to buttons.Length
      invariant forall j :: 0 <= j < k ==> buttons[j] == old(buttons[j]).(classes := old(buttons[j]).classes - h)
      invariant forall j :: k <= j < buttons.Length ==> buttons[j] == old(buttons[j])
    {
      buttons[k] := buttons[k].(classes := buttons[k].classes - h);
    }
    buttons[i] := buttons[i].(classes := buttons[i].classes + h);
  }

  /** The indices of the buttons whose class list holds `c`. */
  function Holders(buttons: seq<Button>, c: string): set<nat> {
    set k | 0 <= k < |buttons| && c in buttons[k].classes
  }

  /** After a click exactly one button holds each highlight class: the clicked one. */
  lemma ExactlyOneHighlighted(buttons: seq<Button>, i: nat, h: set<string>, c: string)
    requires i < |buttons| && c in h
    ensures Holders(Highlighted(buttons, i, h), c) == {i}
  {
    var r := Highlighted(buttons, i, h);
    assert c in r[i].classes;
    assert forall k :: k in Holders(r, c) ==> k == i;
  }

  predicate ValidClicks(buttons: seq<Button>, clicks: seq<nat>) {
    forall k :: 0 <= k < |clicks| ==> clicks[k] < |buttons|
  }

  /** The group after a run of clicks, first click first. */
  function AfterClicks(buttons: seq<Button>, clicks: seq<nat>, h: set<string>): (r: seq<Button>)
    requires ValidClicks(buttons, clicks)
    ensures |r| == |buttons|
    decreases |clicks|
  {
    if clicks == [] then buttons
    else AfterClicks(Highlighted(buttons, clicks[0], h), clicks[1..], h)
  }

  /** One more click at the end of a run acts on the group the run left. */
  lemma {:induction false} AfterClicksSnoc(buttons: seq<Button>, clicks: seq<nat>, j: nat, h: set<string>)
    requires ValidClicks(buttons, clicks) && j < |buttons|
    ensures ValidClicks(buttons, clicks + [j])
    ensures AfterClicks(buttons, clicks + [j], h) == Highlighted(AfterClicks(buttons, clicks, h), j, h)
    decreases |clicks|
  {
    if clicks != [] {
      var next := Highlighted(buttons, clicks[0], h);
      assert (clicks + [j])[1..] == clicks[1..] + [j];
      AfterClicksSnoc(next, clicks[1..], j, h);
    }
  }

  /**
   * After a non-empty run of clicks the last button clicked is the only one
   * highlighted, and no class outside the highlight has changed anywhere.
   */
  lemma {:induction false} LastClickWins(buttons: seq<Button>, clicks: seq<nat>, h: set<string>, c: string)
    requires ValidClicks(buttons, clicks) && clicks != [] && c in h
    ensures Holders(AfterClicks(buttons, clicks, h), c) == {clicks[|clicks| - 1]}
    ensures forall k :: 0 <= k < |buttons| ==>
      AfterClicks(buttons, clicks, h)[k].classes - h == buttons[k].classes - h
  {
    var init := clicks[..|clicks| - 1];
    var last := clicks[|clicks| - 1];
    assert clicks == init + [last];
    assert ValidClicks(buttons, init);
    AfterClicksSnoc(buttons, init, last, h);
    ExactlyOneHighlighted(AfterClicks(buttons, init, h), last, h, c);
    OtherClassesKept(buttons, init, h);
  }

  lemma {:induction false} OtherClassesKept(buttons: seq<Button>, clicks: seq<nat>, h: set<string>)
    requires ValidClicks(buttons, clicks)
    ensures forall k :: 0 <= k < |buttons| ==>
      AfterClicks(buttons, clicks, h)[k].classes - h == buttons[k].classes - h
    decreases |clicks|
  {
    if clicks != [] {
      OtherClassesKept(Highlighted(buttons, clicks[0], h), clicks[1..], h);
    }
  }

  /** Clicking the highlighted button again changes nothing. */
  lemma ClickIdempotent(buttons: seq<Button>, i: nat, h: set<string>)
    requires i < |buttons|
    ensures Highlighted(Highlighted(buttons, i, h), i, h) == Highlighted(buttons, i, h)
  {
    var once := Highlighted(buttons, i, h);
    var twice := Highlighted(once, i, h);
    assert forall k :: 0 <= k < |buttons| ==> twice[k] == once[k] by {
      forall k | 0 <= k < |buttons| ensures twice[k] == once[k] {
        assert twice[k].classes == once[k].classes;
      }
    }
  }

  /**
   * Two handlers on the same click whose highlights nest (`h1` within `h2`)
   * give the same group in either order: that of the larger highlight alone.
   */
  lemma NestedHighlightsCommute(buttons: seq<Button>, i: nat, h1: set<string>, h2: set<string>)
    requires i < |buttons| && h1 <= h2
    ensures Highlighted(Highlighted(buttons, i, h1), i, h2) == Highlighted(buttons, i, h2)
    ensures Highlighted(Highlighted(buttons, i, h2), i, h1) == Highlighted(buttons, i, h2)
  {
    var a := Highlighted(Highlighted(buttons, i, h1), i, h2);
    var b := Highlighted(Highlighted(buttons, i, h2), i, h1);
    var c := Highlighted(buttons, i, h2);
    forall k | 0 <= k < |buttons| ensures a[k] == c[k] && b[k] == c[k] {
      assert a[k].classes == c[k].classes;
      assert b[k].classes == c[k].classes;
    }
  }
}
