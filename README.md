# Captify client and upload filter, modelled in Dafny

The system turns an uploaded MP4 into a subtitled video. This project models the
parts of it that decide what the user sees and what is sent to the server:

- the browser page controller in `app/static/js/videoPreview.js`:
  - choosing a file and the preview player;
  - closing the preview;
  - submitting the form, with its alert banners and its download and generate buttons;
  - the form data it posts to `/generate`;
  - the `hexToFFmpegColor` encoder that turns `#RRGGBB` or `#RGB` into FFmpeg's `&HBBGGRR&`.
- the three style-control scripts (`positionSelect.js`, `textColour.js`, `subtitlePreview.js`): exclusive-highlight button groups and the live preview field.
- the server-side upload filter `allowed_file` in `app/routes.py`, and the two settings of `config.py` it depends on (`ALLOWED_EXTENSIONS`, `MAX_CONTENT_LENGTH`).

## Modules and what they prove

- `Wrappers`, `Text`, `Dom` hold the shared vocabulary:
  - `Option` stands for JavaScript's `undefined`/`null` and Python's "not set".
  - ASCII lower-casing, `indexOf`/`rsplit` positions, and Python `split` with its inverse `Join`.
  - The `Button`, `File` and body `Element` values the scripts read and write.
- `Config` models the settings:
  - `ALLOWED_EXTENSIONS` is the lower-cased environment string split at every comma. It is proved to be exactly the set of pieces of that string.
  - The default gives `{"mp4"}`.
  - A blank after a comma is kept, so `"MP4, mov"` allows `" mov"` and not `"mov"`.
  - `MAX_CONTENT_LENGTH` is the megabyte setting times 1048576.
- `Routes` models `allowed_file`:
  - A name without a dot is refused.
  - Otherwise only the text after the last dot counts, lower-cased.
  - `stem.ext` passes exactly when `lower(ext)` is configured.
  - Case does not matter; `clip.mp4.exe` is refused; `.mp4` passes; `clip.` has the empty extension.
- `ColorEncoder` models `hexToFFmpegColor` in its own terms:
  - only the first `#` is removed;
  - a three-character rest is doubled;
  - three clamped JavaScript `substring` slices are reordered;
  - no hex digit is ever checked.
  - Falsy arguments give white.
  - Six `#`-free characters, or `#` followed by any six, come out as pairs 3, 2, 1. Three `#`-free characters `abc` encode as `aabbcc`. After six `#`-free characters, any further characters are dropped. A `#` elsewhere is not a prefix: `replace` removes the first one wherever it stands, and the rest is encoded as it then is.
  - A decoder `TokenToHex` is its inverse on six-character colours, in both directions.
- `Alerts` models `showAlert`:
  - the colour class, red exactly for `"error"`, green exactly for `"success"`, blue otherwise;
  - removal of the one element `getElementById("alert")` finds;
  - the new banner placed first;
  - with at most one banner before, exactly one after, and the rest of the page untouched.
- `ButtonGroup` models the exclusive-highlight loop the three scripts share: an in-place `for` loop over an array of buttons, specified by the function `Highlighted`.
  - After a click only the clicked button holds each highlight class.
  - Every other class is kept.
  - The last click of any run wins, and repeating a click changes nothing.
  - Two handlers whose highlights nest commute.
- `PositionSelect` and `TextColour` are the two group scripts. Neither touches `btn-active` or `selected`, the classes the submission reads.
- `SubtitlePreview` models the preview field as a class:
  - the font family, font size (`px`), colour, background and text;
  - a proof that its colour handler and `textColour.js`'s commute on a shared click.
- `FormPayload` models what the submit handler reads:
  - the first `.selected` colour button, else `#FFFFFF`;
  - the background choice and the prompt's answer;
  - the first `.btn-active` position button, else `bottom`;
  - the six form entries `file, font_family, font_size, font_color, bg_color, position`, in order, each found by its own name.
  - No run of clicks on the groups changes the colour or position sent, so on markup that marks neither class the form always sends white at the bottom.
- `VideoPreview` models the page as a class with the state the handlers change. Its invariant `Valid` says:
  - the generate button is usable between events;
  - the player is shown exactly while a file is held;
  - a held file is an MP4;
  - the download button is enabled only for the held file, after a successful reply for it. This last part holds because a submission is one atomic step here; in the code a close or a new file during the pending request breaks it (see "Left out").

Two behaviours of the code are worth stating on their own:

- The style groups' click handlers move `border-primary` (and, in `textColour.js`, `border-2`). The submit handler reads a different pair of classes: `selected` among the text-colour buttons (`videoPreview.js:140`) and `btn-active` among the position buttons (`videoPreview.js:154`). No handler ever sets those two classes, so clicks do not change what is sent. `FormPayload.UnmarkedGroupsSendDefaults` states the consequence.
- A cancelled or empty custom-colour prompt sends `bg_color` as the empty string and raises no banner (`videoPreview.js:150-151`).

Inputs from the browser and the server are parameters of the handlers:

- the selected file and its object URL;
- the prompt's answer;
- the parsed reply or the exception of `fetch`;
- the computed colour of a clicked button;
- the environment strings.

## Model

| member | source | states |
|---|---|---|
| Text.ToLower | app/routes.py:8 | same length, each character lower-cased on its own (ASCII), the result has no upper-case letter |
| Text.ToLowerOfLowerCase | app/routes.py:8 | lower-casing a lower-case string changes nothing |
| Text.ToLowerIdempotent | app/routes.py:8 | lower-casing twice is lower-casing once |
| Text.IndexOf | app/static/js/videoPreview.js:65 | None exactly when the character is absent; otherwise the position of its first occurrence |
| Text.IndexOfSplit | app/static/js/videoPreview.js:65 | in `p + [c] + q` with no `c` in `p`, the first `c` is at `|p|` |
| Text.LastIndexOf | app/routes.py:8 | None exactly when the character is absent; otherwise the position of its last occurrence |
| Text.LastIndexOfSplit | app/routes.py:8 | in `p + [c] + q` with no `c` in `q`, the last `c` is at `|p|` |
| Text.Split | config.py:20 | at least one piece, no piece holds the separator, and joining the pieces gives the input back |
| Text.SplitJoin | config.py:20 | splitting a join of separator-free pieces gives the pieces back |
| Config.AllowedExtensions | config.py:19-21 | every element is lower case and comma-free, and the set is exactly the set of a non-empty list of pieces whose comma-join is the lower-cased setting (default `mp4`), so an empty setting allows `{""}` |
| Config.SplitPiecesLowerCase | config.py:20 | every piece of a lower-case string is lower case |
| Config.AllowedExtensionsOfList | config.py:19-21 | a setting whose lower-cased form joins some comma-free names allows exactly those names, duplicates collapsed |
| Config.DefaultIsMp4 | config.py:19-21 | with the variable unset the set is `{"mp4"}` |
| Config.EmptySettingAllowsEmptyExtension | config.py:19-21 | an empty setting gives `{""}`, as `"".split(",")` is `[""]` |
| Config.PiecesAreNotTrimmed | config.py:20 | `"MP4, mov"` gives the names `mp4` and ` mov` (blank kept) |
| Config.MaxContentLength | config.py:11 | the byte count is a whole number of mebibytes equal to the setting, 524288000 by default |
| Routes.Extension | app/routes.py:8 | the dot-free suffix that follows the last dot |
| Routes.AllowedFile | app/routes.py:5-9 | a name without a dot is refused; an accepted name needs a dot-free lower-case allowed extension |
| Routes.AllowedFileOfSplit | app/routes.py:8-9 | for `stem.ext` with a dot-free `ext`, the extension is `ext` and the name passes exactly when `lower(ext)` is allowed |
| Routes.CaseInsensitive | app/routes.py:8-9 | `stem.EXT` passes exactly when `stem.ext` does |
| Routes.UpperCaseExtensionAccepted | app/routes.py:8-9 | `clip.MP4` passes under `{"mp4"}` |
| Routes.DoubleExtensionRefused | app/routes.py:8-9 | only the last extension counts: `clip.mp4.exe` is refused under `{"mp4"}` |
| Routes.DotFileAccepted | app/routes.py:8-9 | `.mp4` passes under `{"mp4"}` |
| Routes.TrailingDot | app/routes.py:8 | `clip.` has the empty extension |
| Routes.DefaultConfigAcceptsMp4 | app/routes.py:5-9 | under the default setting `clip.MP4` passes |
| Routes.BlankInSettingRefusesMov | app/routes.py:8-9 | under the setting `"MP4, mov"` the name `x.mov` is refused |
| Routes.MovNotListed | app/routes.py:8-9 | `x.mov` is refused under `{"mp4", " mov"}` |
| ColorEncoder.RemoveFirst | app/static/js/videoPreview.js:65 | without `c` the string is kept; with one, exactly one character goes |
| ColorEncoder.RemoveFirstSplit | app/static/js/videoPreview.js:65 | the `c` removed is the first; later ones stay |
| ColorEncoder.RemoveFirstAppend | app/static/js/videoPreview.js:65 | a `c`-free prefix is kept when removing from a longer string |
| ColorEncoder.DoubleEach | app/static/js/videoPreview.js:67 | twice the length, character `k` at positions `2k` and `2k+1` |
| ColorEncoder.Expand | app/static/js/videoPreview.js:66-68 | a three-character rest `abc` becomes `aabbcc`; any other length is kept as it is |
| ColorEncoder.Substring | app/static/js/videoPreview.js:69-71 | the slice for in-range ends, the empty string from past the end, the rest of the string for an end past it |
| ColorEncoder.Reorder | app/static/js/videoPreview.js:69-72 | an `&H…&` literal of at most 9 characters, exactly 9 from six or more digits |
| ColorEncoder.HexToFFmpegColor | app/static/js/videoPreview.js:63-73 | a falsy argument gives `&HFFFFFF&`; every result is an `&H…&` literal of at most 9 characters |
| ColorEncoder.LeadingHashStripped | app/static/js/videoPreview.js:65 | a leading `#` is dropped before the digits are used |
| ColorEncoder.NoHashKept | app/static/js/videoPreview.js:65 | a non-empty argument without `#` is used as it is |
| ColorEncoder.ReorderSix | app/static/js/videoPreview.js:69-72 | six or more digits come out as pairs 3, 2, 1 |
| ColorEncoder.ReorderFour | app/static/js/videoPreview.js:69-72 | four digits come out as pairs 2, 1, the first slice empty |
| ColorEncoder.SixCharacters | app/static/js/videoPreview.js:65-72 | six characters `s` without `#` give `&H` + s[4..6] + s[2..4] + s[0..2] + `&`, case kept |
| ColorEncoder.HashedSixCharacters | app/static/js/videoPreview.js:65-72 | `#` and any six characters give the same literal as the six alone |
| ColorEncoder.DoubleEachThree | app/static/js/videoPreview.js:67 | `abc` doubles to `aabbcc` |
| ColorEncoder.ThreeCharacters | app/static/js/videoPreview.js:65-72 | three characters `abc` without `#` give `&H` + `ccbbaa` + `&` |
| ColorEncoder.HashedThreeCharacters | app/static/js/videoPreview.js:65-72 | `#` and any three characters give the same literal as the three alone |
| ColorEncoder.ShorthandAsLonghand | app/static/js/videoPreview.js:66-68 | three characters `abc` without `#` encode exactly as `aabbcc` |
| ColorEncoder.TrailingCharactersIgnored | app/static/js/videoPreview.js:69-72 | after at least six characters without `#`, any further characters are dropped, a `#` among them included |
| ColorEncoder.LoneHash | app/static/js/videoPreview.js:65-72 | `#` gives `&H&` |
| ColorEncoder.FourCharacters | app/static/js/videoPreview.js:66-72 | `abcd` is neither padded nor refused: `&Hcdab&` |
| ColorEncoder.HashThenFour | app/static/js/videoPreview.js:65-72 | `#` and four characters give pairs 2, 1 of the four, unpadded |
| ColorEncoder.SecondHashKept | app/static/js/videoPreview.js:65-72 | only the first `#` goes: `##` and three characters `abc` give `&Hbc#a&` |
| ColorEncoder.WhiteIsWhite | app/static/js/videoPreview.js:141-142 | the fallback `#FFFFFF` encodes to `&HFFFFFF&` |
| ColorEncoder.UniformSix | app/static/js/videoPreview.js:65-72 | `#` and six copies of one character give `&H`, the six copies, `&` |
| ColorEncoder.BlackIsZeros | app/static/js/videoPreview.js:146 | `#000000` encodes to `&H000000&` |
| ColorEncoder.TokenToHex | app/static/js/videoPreview.js:72 | reads six digits back out of a literal |
| ColorEncoder.TokenOfDigits | app/static/js/videoPreview.js:72 | six hex digits between `&H` and `&` form a well-formed literal |
| ColorEncoder.SixDigitToken | app/static/js/videoPreview.js:63-73 | six hex digits, with or without `#`, give a well-formed literal |
| ColorEncoder.ThreeDigitToken | app/static/js/videoPreview.js:63-73 | three hex digits, with or without `#`, give a well-formed literal |
| ColorEncoder.ValidColourGivesToken | app/static/js/videoPreview.js:63-73 | every 3- or 6-digit colour gives a well-formed literal |
| ColorEncoder.TokenRoundTrip | app/static/js/videoPreview.js:69-72 | decoding the literal of six characters gives them back, with or without `#` |
| ColorEncoder.HexRoundTrip | app/static/js/videoPreview.js:69-72 | every well-formed literal is the encoding of its decoding |
| Alerts.ColourClass | app/static/js/videoPreview.js:51-55 | red exactly for `error`, green exactly for `success`, blue exactly for every other kind |
| Alerts.Banner | app/static/js/videoPreview.js:49-56 | the banner has the id `alert` and the message as its text; its classes are the base classes followed by the colour class of its kind |
| Alerts.RemoveFirstWithId | app/static/js/videoPreview.js:46-47 | the first element with the id is the one removed, the others kept in order; without such an element the body is unchanged |
| Alerts.RemoveFirstAlert | app/static/js/videoPreview.js:46-47 | one banner fewer (if there was one), and every other element kept in order |
| Alerts.WithBanner | app/static/js/videoPreview.js:45-58 | the new banner is first; at most one banner before means exactly one after; the rest of the page is unchanged, in order |
| Alerts.LatestBannerOnly | app/static/js/videoPreview.js:45-58 | after two alerts only the second one's banner is on the page |
| Alerts.NoAlertLeft | app/static/js/videoPreview.js:46-47 | with at most one banner, none is left after the removal |
| Alerts.RestHasNoAlert | app/static/js/videoPreview.js:46 | a count of zero means no element has the id |
| ButtonGroup.Highlighted | app/static/js/positionSelect.js:5-6 | the clicked button has every highlight class, the others none; all other classes, attributes and texts are kept |
| ButtonGroup.ClickExclusive | app/static/js/positionSelect.js:5-6 | the in-place loop leaves the array equal to `Highlighted` of the old contents |
| ButtonGroup.ExactlyOneHighlighted | app/static/js/positionSelect.js:5-6 | after a click the clicked button is the only holder of each highlight class |
| ButtonGroup.AfterClicks | app/static/js/positionSelect.js:3-7 | a run of clicks keeps the number of buttons |
| ButtonGroup.AfterClicksSnoc | app/static/js/positionSelect.js:3-7 | one more click acts on the group the run left |
| ButtonGroup.LastClickWins | app/static/js/positionSelect.js:3-7 | after a non-empty run only the last button clicked is highlighted, and no other class changed anywhere |
| ButtonGroup.OtherClassesKept | app/static/js/positionSelect.js:5-6 | no run of clicks changes a class outside the highlight |
| ButtonGroup.ClickIdempotent | app/static/js/positionSelect.js:3-7 | clicking the highlighted button again changes nothing |
| ButtonGroup.NestedHighlightsCommute | app/static/js/textColour.js:5-6 | two handlers with nested highlights give, in either order, the larger highlight alone |
| PositionSelect.OnClick | app/static/js/positionSelect.js:4-7 | the group becomes `Highlighted` with `border-primary`, held by the clicked button only |
| PositionSelect.BtnActiveUntouched | app/static/js/positionSelect.js:5-6 | the holders of `btn-active` are the same after the click |
| TextColour.OnClick | app/static/js/textColour.js:4-7 | the group becomes `Highlighted` with `border-2` and `border-primary`, each held by the clicked button only |
| TextColour.SelectedUntouched | app/static/js/textColour.js:5-6 | the holders of `selected` are the same after the click |
| SubtitlePreview.BackgroundCss | app/static/js/subtitlePreview.js:34 | the CSS background is the lower-cased choice (`Transparent` gives `transparent`) |
| SubtitlePreview.Preview.constructor | app/static/js/subtitlePreview.js:1-7 | the preview starts from the page's current style values |
| SubtitlePreview.Preview.OnFontFamilyChange | app/static/js/subtitlePreview.js:10-12 | the preview font is the selected family |
| SubtitlePreview.Preview.OnFontSizeInput | app/static/js/subtitlePreview.js:15-18 | the readout is the slider value and the preview size is that value with `px` |
| SubtitlePreview.Preview.OnColourClick | app/static/js/subtitlePreview.js:21-30 | the colour group is `Highlighted` with `border-primary` for the clicked button only; the preview takes its computed colour and the text `Subtitle Preview` |
| SubtitlePreview.Preview.OnBackgroundChange | app/static/js/subtitlePreview.js:33-35 | the value assigned to the preview background is `BackgroundCss` of the choice |
| SubtitlePreview.ColourHandlersCommute | app/static/js/subtitlePreview.js:23-24 | this script's colour handler and `textColour.js`'s give the same buttons in either order, as `textColour.js`'s alone |
| FormPayload.FirstWithClass | app/static/js/videoPreview.js:140 | None exactly when no button has the class; otherwise the first button that has it |
| FormPayload.FontColour | app/static/js/videoPreview.js:140-142 | white without a `.selected` button, else the encoding of the first one's `data-color`; always an `&H…&` literal |
| FormPayload.BlackToken | app/static/js/videoPreview.js:146 | the Black background, encoded, is `&H000000&` |
| FormPayload.WhiteToken | app/static/js/videoPreview.js:141-147 | `#FFFFFF`, the fallback text colour and the White background, encodes to `&HFFFFFF&` |
| FormPayload.BackgroundColour | app/static/js/videoPreview.js:144-152 | Black gives `&H000000&`, White `&HFFFFFF&`, Custom Colour the encoded answer (a well-formed literal for a valid colour); empty exactly for another choice or an empty or cancelled answer |
| FormPayload.Position | app/static/js/videoPreview.js:154-155 | the lower-cased text of the first `.btn-active` button, else `bottom`; always lower case |
| FormPayload.BuildPayload | app/static/js/videoPreview.js:157-163 | six entries named file, font_family, font_size, font_color, bg_color, position in that order: the file, the two control values, an `&H…&` colour and a lower-case position |
| FormPayload.Entries | app/static/js/videoPreview.js:157-163 | the file under the first name, then each text value under the names that follow |
| FormPayload.Lookup | app/static/js/videoPreview.js:157-163 | None exactly when no entry has the name; otherwise the value of an entry with it |
| FormPayload.PayloadFields | app/static/js/videoPreview.js:157-163 | each option is found under its own field name |
| FormPayload.FormFields | app/static/js/videoPreview.js:157-163 | the form data of every recorded submission carries its file and each option under its own field name |
| FormPayload.EntriesLookup | app/static/js/videoPreview.js:157-163 | the entry found under the `k`-th field name is the `k`-th one: the file, then the text values in order |
| FormPayload.NamesDistinct | app/static/js/videoPreview.js:158-163 | the six field names are distinct |
| FormPayload.LookupAt | app/static/js/videoPreview.js:157-163 | the first entry with a name is the one found |
| FormPayload.HighlightKeepsFirst | app/static/js/videoPreview.js:140 | a click whose highlight leaves a class alone leaves the first holder of that class unchanged |
| FormPayload.FirstWithClassAgrees | app/static/js/videoPreview.js:140 | groups with the same holders give the same first holder |
| FormPayload.ColourClickKeepsFontColour | app/static/js/videoPreview.js:140-142 | a click on the text-colour group does not change the colour sent |
| FormPayload.PositionClickKeepsPosition | app/static/js/videoPreview.js:154-155 | a click on the position group does not change the position sent |
| FormPayload.UnmarkedGroupsSendDefaults | app/static/js/videoPreview.js:140-155 | with neither class in the markup, any clicks still send white text at the bottom |
| FormPayload.ClassUntouchedByClicks | app/static/js/videoPreview.js:140 | no run of clicks changes the first holder of a class outside the highlight |
| VideoPreview.Page.constructor | app/static/js/videoPreview.js:76-83 | no file held, the upload prompt shown, no request, and the invariant holds |
| VideoPreview.Page.ShowAlert | app/static/js/videoPreview.js:45-58 | the body becomes `WithBanner` of the old body |
| VideoPreview.Page.OnFileChange | app/static/js/videoPreview.js:110-123 | no file changes nothing but the input; a non-MP4 adds an error banner and keeps the previous upload; an MP4 is held, played and disables the download; the invariant is kept |
| VideoPreview.Page.OnClosePreview | app/static/js/videoPreview.js:101-106 | the prompt is back, no file is held, the input is cleared and the download disabled; nothing else changes |
| VideoPreview.Page.OnSubmit | app/static/js/videoPreview.js:126-189 | without a file, an error banner and no request; otherwise one request, a banner for the outcome, the download enabled for this file and URL exactly on success and unchanged otherwise, and the generate button re-enabled with its label |
| VideoPreview.Page.Post | app/static/js/videoPreview.js:133-166 | the generate button is disabled with `Generating...` and one submission is recorded |
| VideoPreview.Page.Settle | app/static/js/videoPreview.js:165-184 | a throw or an `error` status gives an error banner and leaves the download as it was; any other reply gives a success banner and enables the download for its URL |
| VideoPreview.Succeeded | app/static/js/videoPreview.js:166-174 | a thrown `fetch` or `json()` fails; a reply with status `error` fails; any other reply succeeds, one with no status included |
| VideoPreview.FailureMessage | app/static/js/videoPreview.js:169-184 | the banner text of a failure: `Unexpected error: ` and the exception's message, or the server's message |

## Left out

- ColorEncoder.HexToFFmpegColor: a `string` here is a sequence of Unicode scalar values, while JavaScript's `length`, `split('')` and `substring` count UTF-16 code units. So the lengths, the doubling of `Expand`/`DoubleEach`, the `Substring` slices and "after the sixth character" in `TrailingCharactersIgnored` agree with the code only for characters in the Basic Multilingual Plane. For example, the answer `"😀a"` has length 3 in JavaScript and is doubled code unit by code unit; the model sees length 2.
- Text.ToLower: maps only ASCII `A`-`Z`. Python's `str.lower` and JavaScript's `toLowerCase` also map non-ASCII letters, and some of those change the length.
- Config.MaxContentLength: takes the already-parsed megabyte count. The `ValueError` that `int()` raises on a non-numeric setting is not modelled.
- Config.AllowedExtensions: the environment value is a parameter. `load_dotenv`, `os.environ` and the other settings of `config.py` are not modelled.
- Routes.AllowedFile: the configured set is a parameter; Flask's `current_app` is not modelled, nor are the `index` route and `create_app`.
- VideoPreview.Page.OnSubmit: one atomic step from the click to the `finally` block. The intermediate `Generating...` state is visible only inside it, through `Post`. Nothing else runs across the `await` points (`videoPreview.js:166-167`): not a second submit, and not the close handler (`videoPreview.js:101-106`) or the file-change handler (`videoPreview.js:110-123`). In the code those two stay active while the request is pending. If the user closes the preview or picks another MP4 in that wait, the success branch (`videoPreview.js:177-181`) still enables the download: either with no file held, or for the previous video. So `VideoPreview.Page.DownloadGuarded`, and with it the part of `Valid` about the download, holds only in this atomic model and can fail in the code.
- VideoPreview.Page.OnSubmit: each request is recorded as the file, controls and prompt answer it was built from (`Submission`). Its form data is `Submission.Form()`; `FormPayload.FormFields` states what that form data carries.
- VideoPreview.Page.Settle: the reply's `message` and `download_url` are plain strings. A reply that lacks them, where JavaScript would show `undefined`, and an exception without a `message` are not modelled.
- VideoPreview.Page.OnFileChange: `URL.createObjectURL` is a parameter, and the player markup is reduced to the variant `Player(url)`.
- VideoPreview.Page.constructor: the markup (templates) is not part of this model. The download button's initial `btn-disabled` class is a precondition.
- VideoPreview.Page: the download button's `onclick` stays bound after the button is disabled again; disabling is modelled by the class alone. Navigation to `download_url` is not modelled.
- The 5-second `setTimeout` that removes a banner (timers) is not modelled.
- The IndexedDB helpers `openDB`, `saveVideo`, `loadVideo` and `deleteVideo` (asynchronous browser storage, called by none of the handlers) are not modelled.
- SubtitlePreview.Preview.OnBackgroundChange: `backgroundColor` holds the string last assigned, not the style the browser applies. The browser drops a value it cannot parse as a CSS colour. The background select also offers `Custom Colour` (`videoPreview.js:148` tests for it), which lower-cases to `custom colour`. On that choice the real preview keeps its previous background, while the model's field becomes `custom colour`.
- SubtitlePreview.Preview.OnColourClick: the computed colour from `getComputedStyle` is a parameter (browser style evaluation).
- `fetch`, `response.json()` and `prompt` are inputs of the submit handler. Their outcomes are the `outcome` and `answer` parameters.
