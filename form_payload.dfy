/**
 * The style options the submit handler of app/static/js/videoPreview.js reads
 * from the page and the form data it posts to /generate.
 */
module FormPayload {
  import opened Wrappers
  import opened Text
  import opened Dom
  import opened ColorEncoder
  import opened ButtonGroup

  /** The text colour sent when no text-colour button carries `selected`. */
  const DefaultFontColour := "#FFFFFF"

  /** The position sent when no position button carries `btn-active`. */
  const DefaultPosition := "bottom"

  /** The field names of the form data, in the order they are appended. */
  const FieldNames: seq<string> := ["file", "font_family", "font_size", "font_color", "bg_color", "position"]

  /** What the handler reads from the page besides the uploaded file. */
  datatype Controls = Controls(
    fontFamily: string,              // #font-family-select value
    fontSize: string,                // #font-size-slider value
    colourButtons: seq<Button>,      // #text-colour-buttons buttons, in document order
    background: string,              // #background-select value
    positionButtons: seq<Button>)    // #position-buttons buttons, in document order

  /** What one submission reads: the uploaded file, the controls and the prompt's answer. */
  datatype Submission = Submission(file: File, controls: Controls, answer: Option<string>) {
    /** The form data posted for this submission. */
    function Form(): seq<Entry> {
      BuildPayload(file, controls, answer)
    }
  }

  datatype FieldValue = FileValue(file: File) | TextValue(text: string)

  /** One `formData.append(name, value)`. */
  datatype Entry = Entry(name: string, value: FieldValue)

  /** `querySelector('#group button.cls')`: the first button of the group, in document order, with class `cls`. */
  function FirstWithClass(buttons: seq<Button>, cls: string): (r: Option<nat>)
    ensures r == None <==> forall k :: 0 <= k < |buttons| ==> cls !in buttons[k].classes
    ensures r.Some? ==> r.value < |buttons| && cls in buttons[r.value].classes
    ensures r.Some? ==> forall k :: 0 <= k < r.value ==> cls !in buttons[k].classes
  {
    if buttons == [] then None
    else if cls in buttons[0].classes then Some(0)
    else match FirstWithClass(buttons[1..], cls)
      case None => None
      case Some(j) => Some(j + 1)
  }

  /** Lines 140-142: the `data-color` of the selected text-colour button, else white, encoded for FFmpeg. */
  function FontColour(buttons: seq<Button>): (token: string)
    ensures FirstWithClass(buttons, "selected") == None ==> token == White
    ensures forall k :: (0 <= k < |buttons| && "selected" in buttons[k].classes &&
              forall j :: 0 <= j < k ==> "selected" !in buttons[j].classes) ==>
              token == HexToFFmpegColor(buttons[k].dataColor)
    ensures Bracketed(token)
  {
    var first := FirstWithClass(buttons, "selected");
    if first.None? then WhiteToken()
    else HexToFFmpegColor(buttons[first.value].dataColor)
  }

  /**
   * Lines 144-152: Black and White are fixed literals; "Custom Colour" encodes
   * the prompt's answer unless it is empty or cancelled (`answer` None); any
   * other choice sends the empty string.
   */
  function BackgroundColour(selected: string, answer: Option<string>): (token: string)
    ensures selected == "Black" ==> token == "&H000000&"
    ensures selected == "White" ==> token == White
    ensures selected == "Custom Colour" && !Falsy(answer) ==> token == HexToFFmpegColor(answer)
    ensures selected == "Custom Colour" && answer.Some? && IsHexColour(answer.value) ==> IsToken(token)
    ensures token == "" <==>
      (selected != "Black" && selected != "White" && selected != "Custom Colour") ||
      (selected == "Custom Colour" && Falsy(answer))
  {
    if selected == "Black" then BlackToken()
    else if selected == "White" then WhiteToken()
    else if selected == "Custom Colour" then
      assert answer.Some? && IsHexColour(answer.value) ==> IsToken(HexToFFmpegColor(answer)) by {
        if answer.Some? && IsHexColour(answer.value) {
          ValidColourGivesToken(answer.value);
        }
      }
      if Falsy(answer) then "" else HexToFFmpegColor(answer)
    else ""
  }

  /** The "Black" choice, encoded. */
  function BlackToken(): (token: string)
    ensures token == "&H000000&"
  {
    BlackIsZeros();
    HexToFFmpegColor(Some("#000000"))
  }

  /** `#FFFFFF` encoded: the fallback text colour and the "White" background. */
  function WhiteToken(): (token: string)
    ensures token == White
  {
    WhiteIsWhite();
    HexToFFmpegColor(Some("#FFFFFF"))
  }

  /** Lines 154-155: the lower-cased text of the active position button, else "bottom". */
  function Position(buttons: seq<Button>): (position: string)
    ensures IsLowerCase(position)
    ensures FirstWithClass(buttons, "btn-active") == None ==> position == DefaultPosition
    ensures forall k :: (0 <= k < |buttons| && "btn-active" in buttons[k].classes &&
              forall j :: 0 <= j < k ==> "btn-active" !in buttons[j].classes) ==>
              position == ToLower(buttons[k].text)
  {
    var active := FirstWithClass(buttons, "btn-active");
    if active.None? then
      assert IsLowerCase(DefaultPosition) by {
        assert forall j :: 0 <= j < |DefaultPosition| ==> !IsUpper(DefaultPosition[j]);
      }
      DefaultPosition
    else ToLower(buttons[active.value].text)
  }

  /** Lines 157-163: the six entries of the form data. */
  function BuildPayload(file: File, controls: Controls, answer: Option<string>): (entries: seq<Entry>)
    ensures |entries| == |FieldNames|
    ensures forall k :: 0 <= k < |entries| ==> entries[k].name == FieldNames[k]
    ensures entries[0].value == FileValue(file)
    ensures forall k :: 1 <= k < |entries| ==> entries[k].value.TextValue?
    ensures entries[1].value.text == controls.fontFamily && entries[2].value.text == controls.fontSize
    ensures Bracketed(entries[3].value.text)
    ensures IsLowerCase(entries[5].value.text)
  {
    var texts := [controls.fontFamily, controls.fontSize, FontColour(controls.colourButtons),
                  BackgroundColour(controls.background, answer), Position(controls.positionButtons)];
    Entries(file, texts)
  }

  /** The file under its name, then each text value under the name that follows. */
  function Entries(file: File, texts: seq<string>): (entries: seq<Entry>)
    requires |texts| == |FieldNames| - 1
    ensures |entries| == |FieldNames|
    ensures entries[0] == Entry(FieldNames[0], FileValue(file))
    ensures forall k :: 1 <= k < |entries| ==> entries[k] == Entry(FieldNames[k], TextValue(texts[k - 1]))
  {
    [Entry(FieldNames[0], FileValue(file))] +
    seq(|texts|, k requires 0 <= k < |texts| => Entry(FieldNames[k + 1], TextValue(texts[k])))
  }

  /** The value sent under `name`, if the form data has an entry by that name. */
  function Lookup(entries: seq<Entry>, name: string): (v: Option<FieldValue>)
    ensures v == None <==> forall k :: 0 <= k < |entries| ==> entries[k].name != name
    ensures v.Some? ==> exists k :: 0 <= k < |entries| && entries[k] == Entry(name, v.value)
  {
    if entries == [] then None
    else if entries[0].name == name then Some(entries[0].value)
    else Lookup(entries[1..], name)
  }

  /** Each name appears once, so the server finds every option under its own name. */
  lemma PayloadFields(file: File, controls: Controls, answer: Option<string>)
    ensures var p := BuildPayload(file, controls, answer);
      Lookup(p, "file") == Some(FileValue(file)) &&
      Lookup(p, "font_family") == Some(TextValue(controls.fontFamily)) &&
      Lookup(p, "font_size") == Some(TextValue(controls.fontSize)) &&
      Lookup(p, "font_color") == Some(TextValue(FontColour(controls.colourButtons))) &&
      Lookup(p, "bg_color") == Some(TextValue(BackgroundColour(controls.background, answer))) &&
      Lookup(p, "position") == Some(TextValue(Position(controls.positionButtons)))
  {
    var texts := [controls.fontFamily, controls.fontSize, FontColour(controls.colourButtons),
                  BackgroundColour(controls.background, answer), Position(controls.positionButtons)];
    var p := BuildPayload(file, controls, answer);
    assert p == Entries(file, texts);
    EntriesLookup(file, texts, 0);
    EntriesLookup(file, texts, 1);
    EntriesLookup(file, texts, 2);
    EntriesLookup(file, texts, 3);
    EntriesLookup(file, texts, 4);
    EntriesLookup(file, texts, 5);
  }

  /** The form data a recorded submission posts carries each option under its own name. */
  lemma FormFields(s: Submission)
    ensures var p := s.Form();
      Lookup(p, "file") == Some(FileValue(s.file)) &&
      Lookup(p, "font_family") == Some(TextValue(s.controls.fontFamily)) &&
      Lookup(p, "font_size") == Some(TextValue(s.controls.fontSize)) &&
      Lookup(p, "font_color") == Some(TextValue(FontColour(s.controls.colourButtons))) &&
      Lookup(p, "bg_color") == Some(TextValue(BackgroundColour(s.controls.background, s.answer))) &&
      Lookup(p, "position") == Some(TextValue(Position(s.controls.positionButtons)))
  {
    PayloadFields(s.file, s.controls, s.answer);
  }

  /** The entry under the `k`-th name is the `k`-th one. */
  lemma EntriesLookup(file: File, texts: seq<string>, k: nat)
    requires |texts| == |FieldNames| - 1 && k < |FieldNames|
    ensures Lookup(Entries(file, texts), FieldNames[k]) ==
      Some(if k == 0 then FileValue(file) else TextValue(texts[k - 1]))
  {
    var p := Entries(file, texts);
    NamesDistinct();
    LookupAt(p, k, FieldNames[k]);
  }

  lemma NamesDistinct()
    ensures forall a, b :: 0 <= a < b < |FieldNames| ==> FieldNames[a] != FieldNames[b]
  {
    assert |FieldNames[0]| == 4 && |FieldNames[1]| == 11 && |FieldNames[2]| == 9;
    assert |FieldNames[3]| == 10 && |FieldNames[4]| == 8 && |FieldNames[5]| == 8;
    assert FieldNames[4][0] != FieldNames[5][0];
  }

  /** The first entry by a name is the one found. */
  lemma {:induction false} LookupAt(entries: seq<Entry>, i: nat, name: string)
    requires i < |entries| && entries[i].name == name
    requires forall k :: 0 <= k < i ==> entries[k].name != name
    ensures Lookup(entries, name) == Some(entries[i].value)
  {
    if i > 0 {
      LookupAt(entries[1..], i - 1, name);
    }
  }

  /** A highlight that does not include class `c` moves no `c`: the first holder stays first. */
  lemma HighlightKeepsFirst(buttons: seq<Button>, i: nat, h: set<string>, c: string)
    requires i < |buttons| && c !in h
    ensures FirstWithClass(Highlighted(buttons, i, h), c) == FirstWithClass(buttons, c)
  {
    var r := Highlighted(buttons, i, h);
    assert forall k :: 0 <= k < |buttons| ==> (c in r[k].classes <==> c in buttons[k].classes) by {
      forall k | 0 <= k < |buttons| ensures c in r[k].classes <==> c in buttons[k].classes {
        assert c in r[k].classes <==> c in r[k].classes - h;
        assert c in buttons[k].classes <==> c in buttons[k].classes - h;
      }
    }
    FirstWithClassAgrees(r, buttons, c);
  }

  /** Groups with the same holders of `c` (element by element) give the same first holder. */
  lemma {:induction false} FirstWithClassAgrees(a: seq<Button>, b: seq<Button>, c: string)
    requires |a| == |b|
    requires forall k :: 0 <= k < |a| ==> (c in a[k].classes <==> c in b[k].classes)
    ensures FirstWithClass(a, c) == FirstWithClass(b, c)
    decreases |a|
  {
    if a != [] && c !in a[0].classes {
      FirstWithClassAgrees(a[1..], b[1..], c);
    }
  }

  /**
   * A click on text-colour button `i`, by any highlight that leaves `selected`
   * alone, does not change the text colour the form sends.
   */
  lemma ColourClickKeepsFontColour(buttons: seq<Button>, i: nat, h: set<string>)
    requires i < |buttons| && "selected" !in h
    ensures FontColour(Highlighted(buttons, i, h)) == FontColour(buttons)
  {
    var r := Highlighted(buttons, i, h);
    HighlightKeepsFirst(buttons, i, h, "selected");
    match FirstWithClass(buttons, "selected")
    case None =>
    case Some(k) =>
      assert r[k].dataColor == buttons[k].dataColor;
  }

  /**
   * A click on position button `i`, by any highlight that leaves `btn-active`
   * alone, does not change the position the form sends.
   */
  lemma PositionClickKeepsPosition(buttons: seq<Button>, i: nat, h: set<string>)
    requires i < |buttons| && "btn-active" !in h
    ensures Position(Highlighted(buttons, i, h)) == Position(buttons)
  {
    var r := Highlighted(buttons, i, h);
    HighlightKeepsFirst(buttons, i, h, "btn-active");
    match FirstWithClass(buttons, "btn-active")
    case None =>
    case Some(k) =>
      assert r[k].text == buttons[k].text;
  }

  /**
   * So with no button of either group marked in the markup, the form sends
   * white text at the bottom, whatever clicks the groups received.
   */
  lemma UnmarkedGroupsSendDefaults(colours: seq<Button>, colourClicks: seq<nat>, hc: set<string>,
                                   positions: seq<Button>, positionClicks: seq<nat>, hp: set<string>)
    requires ValidClicks(colours, colourClicks) && "selected" !in hc
    requires ValidClicks(positions, positionClicks) && "btn-active" !in hp
    requires forall k :: 0 <= k < |colours| ==> "selected" !in colours[k].classes
    requires forall k :: 0 <= k < |positions| ==> "btn-active" !in positions[k].classes
    ensures FontColour(AfterClicks(colours, colourClicks, hc)) == White
    ensures Position(AfterClicks(positions, positionClicks, hp)) == DefaultPosition
  {
    ClassUntouchedByClicks(colours, colourClicks, hc, "selected");
    ClassUntouchedByClicks(positions, positionClicks, hp, "btn-active");
  }

  /** No run of clicks moves a class outside the highlight. */
  lemma {:induction false} ClassUntouchedByClicks(buttons: seq<Button>, clicks: seq<nat>, h: set<string>, c: string)
    requires ValidClicks(buttons, clicks) && c !in h
    ensures FirstWithClass(AfterClicks(buttons, clicks, h), c) == FirstWithClass(buttons, c)
    decreases |clicks|
  {
    if clicks != [] {
      HighlightKeepsFirst(buttons, clicks[0], h, c);
      ClassUntouchedByClicks(Highlighted(buttons, clicks[0], h), clicks[1..], h, c);
    }
  }
}
