# Newstogram transform engine — a Dafny model

Newstogram is a browser editor for news images: pictures and text blocks are
placed on one or more canvases as *elements* (a positioned wrapper with four
controls: a delete button, a resize handle, a rotate handle and a move
button), which the user selects, drags, resizes, rotates, deletes and styles.
A small Express service scrapes an article page, has it translated, and
returns title candidates, body text and image URLs.

This project models the core of that system:

- `js/element.js`, the multi-canvas element engine → module `Transform`
  (with the shared pieces in `Common`, `Text` and `Colour`);
- `js/element-2.js`, the single-canvas engine → module `Single`, and its
  word highlighter → module `Highlight`;
- `js/main.js`, the page-level drag/resize state → module `DragState`;
- `js/textEditor.js`, the text panel controls → module `Styling`;
- the pure parts of the `/scrape` and `/stream-image` routes of
  `tes-api/api/app.js` → module `Scrape`.

The DOM is modelled as state: an element is a record (position, size,
rotation, active flag, its four handles and what it holds) kept in a
`map<ElemId, Element>` field of a page class (`Transform.Stage`,
`Single.Board`); the canvases of the multi-canvas engine are records holding
the ordered list of their members. Listeners become methods that update that
state; a gesture (move, resize, rotate) is a `Begin…` method that returns the
grip captured at pointer-down and a `…Step` method for each pointer move.
Each method's `ensures` ties the new state to specification functions
(`Place`, `Deactivated`, `Activated`, `Resized`, `Rotated`, `Split`, …), and
the lemmas state what the engine does with those: handles ride with the
corners of a rotated element (off by half their size right after
activation), a drag follows the pointer exactly,
a resize never goes below its floor, exactly one element is active after a
click, highlighting keeps the text and wraps exactly the selection, the
fence-cleaning of the model reply recovers the JSON body, and so on.

JavaScript semantics are written out where they matter: `String.trim` and
the `\s` class, `substring` clamping and argument swap, `/\d+/g` digit runs,
`parseInt(x).toString(16)`, `||` on empty strings, truthiness, and the fact
that reading a property of `null` throws (modelled as a `threw` result).
Layout reads of the element (`getBoundingClientRect`, `offsetWidth`) are
parameters or fields; a handle's `offsetWidth` and `offsetHeight` are its
size fixed at creation while it is displayed and zero while it is
`display: none`. `Math.cos`/`Math.sin`
of the current angle, `Math.atan2`, `getComputedStyle` values, `JSON.parse`
and the network are parameters.

The multi-canvas resize turns the pointer travel into the element's own
frame: at a quarter turn a pointer moving right shrinks the height
(`Transform.ResizeQuarterTurn`).

## Model

| member | source | states |
|---|---|---|
| Common.EventPosition | js/element.js:102-111 | the position is the event's own point, the first active touch or the first ended touch |
| Common.EventPositionPreference | js/element-2.js:60-69 | touches win over changedTouches, which win over clientX/clientY |
| Common.MouseAndTouchAgree | js/element.js:102-111 | a mouse event and a touch whose first point is the same point give the same position |
| Common.TurnBack | js/element.js:89-98 | turning the offset by the rotation and then back gives the offset again |
| Common.TurnKeepsLength | js/element.js:89-98 | turning an offset keeps its length |
| Common.HideAll | js/element.js:13-20 | every handle is hidden, same set of handles, nothing else changes |
| Common.ShowAll | js/element.js:402-406 | every handle is displayed, same set of handles, nothing else changes |
| Common.HideAllIdempotent | js/element.js:4-21 | hiding twice is hiding once |
| Text.SpaceRun | tes-api/api/app.js:136 | the longest whitespace prefix |
| Text.TrimStart | tes-api/api/app.js:136 | what is left after the leading whitespace, starting with non-space |
| Text.TrailingSpaces | tes-api/api/app.js:136 | the length of the longest whitespace suffix |
| Text.TrimShape | tes-api/api/app.js:136 | trim returns the middle slice between whitespace runs and the result is trimmed |
| Text.TrimOfTrimmed | tes-api/api/app.js:136 | trimming a trimmed string changes nothing |
| Text.TrimIdempotent | tes-api/api/app.js:136 | trimming twice is trimming once |
| Text.TrimUnique | js/textEditor.js:35 | whitespace around a trimmed middle is exactly what trim removes |
| Text.TrimPadded | js/textEditor.js:35 | extra whitespace on either side does not change the trimmed result |
| Text.TrimEmpty | js/textEditor.js:35-36 | trim gives the empty string exactly when the text is all whitespace |
| Text.Hex | js/textEditor.js:7 | `toString(16)`: lower-case hex digits, no leading zero, last digit is the value mod 16 |
| Text.HexRoundTrip | js/textEditor.js:7 | reading the hex text back gives the number |
| Text.Hex2RoundTrip | js/element.js:565-567 | two-digit hex text reads back to the byte |
| Text.ByteHex | js/element.js:565-567 | `("0" + hex).slice(-2)` is the two-digit hex of the value mod 256 |
| Text.PaddedHex | js/textEditor.js:7 | `padStart(2,'0')` gives two digits below 256 and the unpadded text at or above |
| Colour.Match | js/element.js:563 | a match splits the whole string into parts that fit the pattern |
| Colour.MatchComplete | js/element.js:563 | on a deterministic pattern every split that fits is the one found |
| Colour.StrictRgbDeterministic | js/element.js:563 | the anchored `rgb(d, d, d)` pattern admits one split only |
| Colour.LooseRgbDeterministic | js/element-2.js:518 | the anchored, case-insensitive `rgb ( d , d , d )` pattern with optional blanks admits one split only |
| Colour.Rgb2HexMulti | js/element.js:561-569 | empty or `#` input is returned as is; anything else gives a `#rrggbb` colour, `#ffffff` when no split fits the strict pattern |
| Colour.Rgb2HexSingle | js/element-2.js:512-527 | `#` input is returned as is; null, empty and `transparent` give `#ffffff`, as does input no split of which fits the loose pattern; anything else gives a `#rrggbb` colour |
| Colour.Rgb2HexMultiReads | js/element.js:561-569 | on an `rgb(…)` string the result is `#` and the three components' hex, mod 256 |
| Colour.Rgb2HexSingleReads | js/element-2.js:512-527 | on any string of the loose `rgb ( d , d , d )` form (not `rgba`) the result is `#` and the three components' hex, mod 256 |
| Colour.HexColourOf | js/element.js:565-568 | the three hexed components form a well-formed `#rrggbb` colour |
| Colour.DigitRuns | js/textEditor.js:6 | `/\d+/g` matches are non-empty digit strings |
| Colour.DigitRunsKeepDigits | js/textEditor.js:6 | the matches together are exactly the digits of the input, in order |
| Colour.DigitRunsMaximal | js/textEditor.js:6 | a digit block with a non-digit or an end on each side is exactly one match |
| Colour.Rgb2HexEditor | js/textEditor.js:4-8 | `#` input is returned as is; otherwise it throws exactly when there is no digit, and else gives `#` followed by every digit run's hex padded to two digits |
| Colour.PaddedHexAllBytes | js/textEditor.js:7 | runs below 256 give two lowercase hex digits each, in order |
| Colour.EditorReadsRuns | js/textEditor.js:4-8 | with every run below 256 the result is `#` then each run's two-digit hex, in order |
| Colour.MultiOnComputed | js/element.js:561-569 | on a computed `rgb(r, g, b)` colour the multi-canvas helper gives the three bytes' hex |
| Colour.EditorOnComputed | js/textEditor.js:4-8 | on a computed colour with components below 256 the editor helper gives the same hex |
| Colour.EditorRuns | js/textEditor.js:6 | a computed `rgb(r, g, b)` colour has exactly the three components as digit runs |
| Colour.RgbaRuns | js/textEditor.js:116 | a computed `rgba(r, g, b, a)` colour has r, g, b as its first three digit runs, the alpha's digits after them |
| Transform.Anchor | js/element.js:89-98 | each handle's unturned offset from the centre is half the size plus 5 on both axes, with the role's corner: delete top-left, resize bottom-right, rotate top-right, move bottom-left |
| Transform.Place | js/element.js:55-83 | a placed handle keeps its size, is shown iff the element is active, and only the rotate handle is counter-rotated; the half size it subtracts is read before the display is set, so it is zero for a handle that was hidden |
| Transform.PlaceCentre | js/element.js:55-83 | the element's centre plus the turned corner offset is the handle's centre when the handle was displayed before the call, and its top-left corner when it was hidden |
| Transform.PlaceAgainCentres | js/element.js:55-83 | a handle placed while its element is active is centred on its corner by the next placement |
| Transform.HiddenPlacedByCorner | js/element.js:68-69 | a hidden 20x20 delete button of an unturned 100x100 element at the origin is placed at -5, not the centred -15, which the next placement gives |
| Transform.PlaceUnturns | js/element.js:55-83 | turning the handle's pinned point (centre if it was displayed, top-left if hidden) back around the element's centre gives its unrotated offset |
| Transform.PlaceDistance | js/element.js:55-83 | every handle's pinned point is the same distance from the centre whatever the rotation |
| Transform.OppositeHandles | js/element.js:89-98 | the pinned points of delete/resize and of rotate/move are point-symmetric about the element's centre |
| Transform.PlaceAll | js/element.js:25-99 | same handles, each shown iff the element is active |
| Transform.Redrawn | js/element.js:25-99 | only the given element changes; its handles are placed and shown iff it is active when its canvas and container exist |
| Transform.Off | js/element.js:13-20 | an inactive element with every handle hidden |
| Transform.DeactivatedScope | js/element.js:4-21 | elements of the target canvas (or all, with no target) are inactive with hidden handles; others are untouched; geometry never changes |
| Transform.DeactivatedIdempotent | js/element.js:4-21 | deactivating twice is deactivating once |
| Transform.DeactivatedConsistent | js/element.js:4-21 | deactivation keeps the page consistent |
| Transform.ActivatedAlone | js/element.js:397-408 | the element is active with its handles shown, no other element of its canvas is active, other canvases are untouched |
| Transform.ActivatedPlacesCorners | js/element.js:397-408 | since activation hides the element's handles before placing them, each handle's top-left corner, not its centre, lands on its turned corner point |
| Transform.HiddenPlaceAllCorners | js/element.js:55-98 | placing the handles of an element whose handles are all hidden puts each handle's top-left corner on its turned corner point |
| Transform.DragFollowsPointer | js/element.js:248-252 | with the offset taken from the laid-out corner, the element moves exactly as far as the pointer |
| Transform.GripOffsetsAgreeUnturned | js/element.js:242-246 | for an unrotated element the box corner and the layout corner give the same offset |
| Transform.GrabTurnedJumps | js/element.js:242-246 | for a rotated element the offset from the bounding box makes the element jump on grab |
| Transform.Resized | js/element.js:299-312 | each side is the start size plus the pointer travel in the element's frame when that is at least 30, and 30 otherwise, each side on its own |
| Transform.ResizeAlongAxes | js/element.js:299-312 | moving the pointer along the element's own axes changes width and height by that travel |
| Transform.ResizeAtStart | js/element.js:299-312 | back at the grab point the size is the start size |
| Transform.ResizeQuarterTurn | js/element.js:299-312 | at a quarter turn a pointer move to the right shrinks the height by that much |
| Transform.Rotated | js/element.js:363-373 | the angle is the start angle plus the pointer's turn around the centre, in degrees |
| Transform.RotationRelative | js/element.js:355-373 | at the grab point the angle is unchanged; two pointer positions differ by the turn between them |
| Transform.UnlistedConsistent | js/element.js:203-218 | deleting an element and removing it from its canvas keeps the page consistent |
| Transform.ListedConsistent | js/element.js:115-187 | adding a new element to the end of its canvas keeps the page consistent |
| Transform.SameCanvasConsistent | js/element.js:397-408 | changes that leave every element on its canvas keep the page consistent |
| Transform.RedrawnOverwrites | js/element.js:25-99 | redrawing an element does not depend on what it held before |
| Transform.Without | js/element.js:212 | removing an id keeps every other member and drops that one |
| Transform.TextSlot.Set | js/element.js:480-491 | the active text and panel are stored; the panel is shown when both are present |
| Transform.TextSlot.Clear | js/element.js:551-558 | the active text and panel are cleared and the old panel hidden |
| Transform.Hidden | js/element.js:16-20 | the given panel is hidden and every other keeps its display |
| Transform.Stage.UpdateAllHandles | js/element.js:25-99 | the element is Redrawn as it is (handles placed when its canvas and container exist, else unchanged); a missing one changes nothing; the page stays consistent |
| Transform.Stage.SwitchOff | js/element.js:5-15 | the selected elements become Deactivated, nothing else changes |
| Transform.Stage.Deactivate | js/element.js:4-21 | elements become Deactivated for the target; the target's panel is Hidden; the page stays consistent |
| Transform.Stage.Activate | js/element.js:397-408 | an inactive element becomes Activated, an active or missing one leaves the page as it is |
| Transform.Stage.BeginMove | js/element.js:235-246 | a grip exists iff the element is active, with the offset from the element's layout corner (the corrected offset; the code reads the bounding box) |
| Transform.Stage.MoveStep | js/element.js:248-252 | the element is Redrawn with its corner at the pointer less the offset, its handles following; the page stays consistent |
| Transform.Stage.PressWrapper | js/element.js:411-436 | presses on handles or editable text start no drag; a press on an inactive element leaves the page Activated with its canvas's panel Hidden, on an active one changes nothing; only a body press grips, at the corrected layout-corner offset |
| Transform.Stage.WrapperStep | js/element.js:437-448 | the drag stops, changing nothing, if the element became inactive; else the element is Redrawn with its corner following the pointer; the page stays consistent |
| Transform.Stage.BeginResize | js/element.js:285-297 | a grip exists iff the element is active, holding the pointer, the size and the angle |
| Transform.Stage.ResizeStep | js/element.js:299-318 | the element is Redrawn with the Resized size, at least 30 on each side, its handles following; the page stays consistent |
| Transform.Stage.BeginRotate | js/element.js:350-361 | a grip exists iff the element is active, holding the centre, the pointer angle and the rotation |
| Transform.Stage.RotateStep | js/element.js:363-376 | the element is Redrawn with the Rotated angle, its handles following; the page stays consistent |
| Transform.Stage.Delete | js/element.js:203-218 | the element leaves the page and its canvas list; the text slot is cleared iff it held this element's text, and then its panel is hidden (clearActiveTextElement, js/element.js:551-558) while the other panels keep their display |
| Transform.Stage.CreateElement | js/element.js:115-472 | without a canvas or container nothing is created; otherwise a fresh inactive 400px element with hidden handles is appended to its canvas |
| Transform.Stage.ClickText | js/element.js:160-164 | clicking an element's text leaves the page Activated (unchanged if already active), makes its text and panel current and shows that panel |
| Transform.Stage.ClickCanvas | js/element.js:573-583 | a click on the canvas background deactivates its elements, hides its panel and the previously current panel, and clears the text slot |
| Single.Placed | js/element-2.js:15-21 | the handle moves to the spot and keeps its display, transform and size |
| Single.PlaceAll | js/element-2.js:52-57 | every handle moves to its fixed spot relative to the element |
| Single.SpotIgnoresRotation | js/element-2.js:15-49 | the single-canvas engine places handles from the unrotated box, whatever the rotation |
| Single.SpotsFollowMove | js/element-2.js:15-49 | moving the element moves every handle spot by the same amount |
| Single.SpotShape | js/element-2.js:15-49 | the resize spot is one element-size away from the delete spot; the move and rotate spots are 20 by 10 apart |
| Single.Off | js/element-2.js:4-12 | an inactive element with every handle hidden |
| Single.AllOff | js/element-2.js:4-12 | every element of the page is Off, none removed and none active |
| Single.Activated | js/element-2.js:313-320 | the element is the only active one with its handles shown; every other element is Off; geometry and content are kept |
| Single.ActivatedIdempotent | js/element-2.js:313-320 | activating twice is activating once |
| Single.DragFollowsPointer | js/element-2.js:203-218 | the element moves exactly as far as the pointer |
| Single.Resized | js/element-2.js:377-387 | each side is the start size plus the pointer travel exactly when that exceeds 50, else the current side |
| Single.ResizeKeepsAboveFifty | js/element-2.js:377-387 | sides above 50 stay above 50 |
| Single.ResizeAtStart | js/element-2.js:377-387 | back at the grab point the size is the start size |
| Single.PlaceAllIgnoresRotation | js/element-2.js:52-57 | turning an element leaves its handles' placement unchanged |
| Single.Rotated | js/element-2.js:283-293 | only the element changes: it takes the angle and its handles are placed, which the angle does not affect |
| Single.RotationAbsolute | js/element-2.js:283-293 | two boards that differ only in the element's angle are equal after the same rotate step |
| Single.Board.UpdateAllHandles | js/element-2.js:52-57 | the element's handles become PlaceAll; a missing element changes nothing |
| Single.Board.Deactivate | js/element-2.js:4-12 | every element becomes Off |
| Single.Board.Activate | js/element-2.js:313-320 | the board becomes Activated: only active and the handles' display change |
| Single.Board.BeginMove | js/element-2.js:203-210 | a grip exists iff the element exists, with the offset from its corner |
| Single.Board.MoveStep | js/element-2.js:211-218 | the corner follows the pointer and the handles follow the element |
| Single.Board.PressWrapper | js/element-2.js:324-361 | a handle press changes nothing; other presses leave the board Activated; only a body press grips, at the offset from the corner |
| Single.Board.BeginResize | js/element-2.js:367-376 | a grip exists iff the element exists, holding the pointer and size |
| Single.Board.ResizeStep | js/element-2.js:377-387 | the size becomes Resized and the handles follow |
| Single.Board.BeginRotate | js/element-2.js:274-282 | the centre is the page origin plus the element's centre |
| Single.Board.RotateStep | js/element-2.js:283-293 | the board becomes Rotated to the pointer angle |
| Single.Board.Delete | js/element-2.js:169-179 | the element leaves the page; the current text is kept |
| Single.Board.CreateElement | js/element-2.js:72-406 | a fresh 400px element with all handles shown; the delete button at the container's corner, the others at their spots |
| Single.Board.ClickText | js/element-2.js:100-117 | clicking text leaves the board Activated, every other element Off, and makes the text current with the panel shown |
| Single.Board.ClickCanvas | js/element-2.js:409-415 | a click on the canvas deactivates every element |
| Highlight.Clamp | js/element-2.js:453-455 | a substring index is clamped to the length |
| Highlight.Substring | js/element-2.js:453-455 | JavaScript substring: the slice when the bounds are in order and in range |
| Highlight.JoinedAppend | js/element-2.js:459-471 | the text of two fragments together is the two texts together |
| Highlight.Fragment | js/element-2.js:457-471 | the selected text is one marked piece; before and after are non-empty plain pieces when present |
| Highlight.FragmentKeepsText | js/element-2.js:451-471 | the pieces read back the original text |
| Highlight.SubstringsJoin | js/element-2.js:457-459 | the text before, the selection and the text after, cut with `substring`, join back to the node's text |
| Highlight.IndexOf | js/element-2.js:472-476 | the first position of the node among its siblings, or the length |
| Highlight.ReplaceShape | js/element-2.js:472-476 | the node is replaced by the new nodes at its first position; a node not there changes nothing |
| Highlight.CreatedLays | js/element-2.js:457-471 | the new nodes are the fragment's pieces, the mark a span around its text; nothing old changes |
| Highlight.InsertedKeeps | js/element-2.js:472-476 | insertion changes only the parent's child list and keeps the document well formed |
| Highlight.SplitLaysFragment | js/element-2.js:451-487 | splitting lays out the fragment after the old nodes and keeps every old text and span |
| Highlight.SplitWellFormed | js/element-2.js:451-487 | splitting a text node keeps the document well formed |
| Highlight.SplitReplacesNode | js/element-2.js:472-476 | the parent's child list has the text node replaced by the fragment's nodes |
| Highlight.Wrapped | js/element-2.js:488-503 | the fallback creates one new span with the chosen colours (moving the contents and inserting the span are not modelled) |
| Highlight.ChosenRange | js/element-2.js:437-448 | the live selection is used when there is one, else the saved range |
| Highlight.Highlighter.SaveRange | js/element-2.js:417-433 | the selection is saved only when the editable text has focus and there is one |
| Highlight.Highlighter.HighlightSelection | js/element-2.js:435-504 | no range or a collapsed one changes nothing; a range in one text node splits it and selects the mark; otherwise the fallback creates the span (without moving the contents) |
| Highlight.HighlightKeepsText | js/element-2.js:451-487 | the pieces keep the node's text and the new span holds exactly the selected text |
| DragState.PlaceInOrder | js/main.js:15-17 | handles are placed in order; with n the index of the first missing role (FirstMissing), the roles before n are placed at their spots and every other handle, the missing one and the later ones included, keeps its place; the flag says none was missing |
| DragState.DragInOrder | js/main.js:15-17 | the drag half places its three handles exactly as PlaceInOrder does over resize, delete, rotate |
| DragState.DragStep | js/main.js:10-18 | the corner goes to the pointer less the offset; resize, delete and rotate handles are placed at their spots in that order; a missing one throws, the ones before it are placed and it and the later ones keep their place; the move button and other elements are kept |
| DragState.ResizeStep | js/main.js:19-29 | the wrapper gets the new size; the handle stored in the resize state goes to the resize spot (updateHandle), then the delete button to its spot; if the stored handle is missing nothing is placed, if the delete button is missing only the stored handle is; either throws; other handles and elements are kept |
| DragState.SideFloor | js/main.js:21-24 | each side is at least 50, follows the pointer above 50 and grows as the pointer moves on |
| DragState.SideAtStart | js/main.js:21-24 | back at the start pointer the side is the start size |
| DragState.Tracker.MouseMove | js/main.js:9-30 | a drag then a resize are applied; a throw in the drag skips the resize |
| DragState.Tracker.MouseUp | js/main.js:32-35 | both gestures end |
| DragState.DragThenResize | js/main.js:9-30 | drag and resize of one element compose to the dragged corner and the new size |
| Styling.StyleTargetChoice | js/textEditor.js:49-58 | the selected word is styled if there is one, else the text's first block if it has one |
| Styling.BoldTarget | js/textEditor.js:93-100 | bold applies to the selected word, else the current text element, and to nothing when there is neither |
| Styling.ComputedWeight | js/textEditor.js:95 | the computed font weight is never the keyword bold |
| Styling.ToggleAsWrittenNeverClears | js/textEditor.js:93-101 | comparing the computed weight with "bold" always writes bold |
| Styling.Toggle | js/textEditor.js:93-101 | the toggle writes normal or bold |
| Styling.WeightValues | js/textEditor.js:95 | 700 is bold and 400 is not |
| Styling.ToggleFlips | js/textEditor.js:93-101 | one click flips boldness and two clicks restore it |
| Styling.WithAlpha | js/textEditor.js:113-126 | it throws exactly when the colour has no digits; otherwise an rgba value with alpha value/100 |
| Styling.AlphaKeepsColour | js/textEditor.js:116-117 | on a computed rgb colour the three components are kept and only the alpha changes |
| Styling.AlphaKeepsColourRgba | js/textEditor.js:116-123 | on a computed `rgba(r, g, b, a)` colour, whatever the alpha text, the three components are kept and only the alpha changes |
| Styling.TitleToAdd | js/textEditor.js:11-14 | a title is added iff it is non-empty, as typed |
| Styling.DescriptionToAdd | js/textEditor.js:33-36 | a description is added iff it is not all whitespace, trimmed |
| Styling.DescriptionStable | js/textEditor.js:35 | adding an added description again gives the same text |
| Styling.DescriptionIgnoresPadding | js/textEditor.js:35 | whitespace around the typed text does not change what is added |
| Styling.Styler.SetStyle | js/textEditor.js:49-80 | the chosen property is written on the target, or nothing changes without one |
| Styling.Styler.SetFontSize | js/textEditor.js:82-91 | the size is written with the px unit on the target |
| Styling.Styler.Bold | js/textEditor.js:93-101 | the target's weight is flipped (the corrected toggle; the code as written never clears bold) |
| Styling.Styler.Opacity | js/textEditor.js:113-126 | the target's background gets the alpha; it throws iff the colour has no digits |
| Styling.Styler.ClickOutside | js/textEditor.js:104-111 | a click outside the panel and every element hides the panel and clears the current text and word |
| Styling.Styler.AddTitle | js/textEditor.js:11-30 | a new text element is created iff the title is non-empty; its container holds an `h3` with the title as typed; the element gets the next id, holds the container, sits at the given point 400px wide and unturned with its handles shown and placed; the existing elements, the current text and the panel are unchanged |
| Styling.Styler.AddDescription | js/textEditor.js:33-46 | a new text element is created iff the trimmed description is non-empty; its container holds a `p` with the trimmed text; the element gets the next id, holds the container, sits at the given point 400px wide and unturned with its handles shown and placed; the existing elements, the current text and the panel are unchanged |
| Scrape.FirstBreak | tes-api/api/app.js:138 | the first line break, with none before it |
| Scrape.LastBreak | tes-api/api/app.js:138 | the last line break, with none after it |
| Scrape.BreakCut | tes-api/api/app.js:138 | the largest prefix of the leading whitespace that ends in a line break, or 0 when that whitespace holds none |
| Scrape.OpeningFence | tes-api/api/app.js:138 | the match is taken exactly when the input starts with three backticks and the whitespace after them (and `json`) holds a line break; it then ends at the last such break |
| Scrape.ClosingFence | tes-api/api/app.js:138 | when the input ends in three backticks the match starts at the first position from which a line break and whitespace reach them; otherwise, or with none, no match |
| Scrape.CleanJsonText | tes-api/api/app.js:135-141 | the result is trimmed; an unfenced reply is only trimmed |
| Scrape.Unfence | tes-api/api/app.js:137-139 | the fence step leaves a trimmed text trimmed and leaves text that does not start with a fence unchanged |
| Scrape.UnfenceAround | tes-api/api/app.js:138 | a trimmed fenced reply, tagged json or not, gives back exactly its body |
| Scrape.CutAfterBreak | tes-api/api/app.js:138 | the opening pattern's line-break run stops at the first character that is not whitespace |
| Scrape.OpeningOfFenced | tes-api/api/app.js:138 | on a fenced reply the opening match is the fence, the tag and the break |
| Scrape.ClosingOfFenced | tes-api/api/app.js:138 | on a fenced reply the closing match is the break and the fence |
| Scrape.CleanFenced | tes-api/api/app.js:135-141 | a fenced body, tagged json or not, comes back exactly |
| Scrape.CleanFencedReply | tes-api/api/app.js:135-141 | a fenced body with whitespace around the fence comes back exactly |
| Scrape.ContentAppend | tes-api/api/app.js:74-76 | each paragraph adds its trimmed text and a line break |
| Scrape.LinedAppend | tes-api/api/app.js:73-75 | appending one more line to the body is appending its text and a line break |
| Scrape.CollectContent | tes-api/api/app.js:70-77 | the loop builds ContentOf the paragraphs |
| Scrape.ContentLines | tes-api/api/app.js:70-77 | the body's lines are the trimmed paragraphs, one each |
| Scrape.LinesOfLined | tes-api/api/app.js:70-77 | splitting the body at its line breaks gives back the lines that made it |
| Scrape.SrcOf | tes-api/api/app.js:84 | a non-empty data-src wins; else a non-empty src; else none |
| Scrape.KeptExactlyOnce | tes-api/api/app.js:80-89 | every image source appears in the list, exactly once |
| Scrape.FirstAt | tes-api/api/app.js:85 | the first image with that source |
| Scrape.KeptInFirstOrder | tes-api/api/app.js:80-89 | sources are listed in the order of their first appearance |
| Scrape.CollectImages | tes-api/api/app.js:80-89 | the loop builds Kept of the images |
| Scrape.Thumbnail | tes-api/api/app.js:92-102 | the thumbnail is set iff the anchor holds an image with a source, and is that source |
| Scrape.Field | tes-api/api/app.js:149 | reading a property of null throws |
| Scrape.TrimStrings | tes-api/api/app.js:150 | trimming every title, throwing on a non-string |
| Scrape.NonEmpty | tes-api/api/app.js:150 | dropping empty titles removes none iff none is empty |
| Scrape.Shape | tes-api/api/app.js:145-164 | one or three titles, the fallback or all non-empty and trimmed; the body is the original, empty or the parsed isi |
| Scrape.ShapedTitles | tes-api/api/app.js:149-158 | the chosen titles are the fallback or one or three trimmed non-empty titles |
| Scrape.ThreeTitles | tes-api/api/app.js:149-150 | three non-blank titles are kept, trimmed |
| Scrape.BlankTitle | tes-api/api/app.js:151-153 | one blank title among three falls back to the page title |
| Scrape.ArrayTitles | tes-api/api/app.js:149-153 | a three-entry title array is kept when no entry trims to empty and falls back to the page title otherwise |
| Scrape.TrimThree | tes-api/api/app.js:150 | trimming three string titles gives their three trims, in order |
| Scrape.OriginalTitleShaped | tes-api/api/app.js:147-158 | when the title choice falls back to the page title, the reply carries the page title whatever the body |
| Scrape.OneTitle | tes-api/api/app.js:154-155 | a single non-blank title string is kept, trimmed |
| Scrape.Unparsable | tes-api/api/app.js:160-164 | an unparsable reply gives the page title and an empty body |
| Scrape.BodyChoice | tes-api/api/app.js:159 | a non-blank isi is kept untrimmed, a blank one falls back to the article text |
| Scrape.StreamImage | tes-api/api/app.js:28-51 | 400 with the Indonesian message iff the url is missing; 500 with `Gagal mengunduh gambar` iff the download fails; otherwise the image is streamed under the upstream content type |
| Scrape.ScrapeRoute | tes-api/api/app.js:52-176 | 400 for a missing url or a failed fetch, 500 on a throw, else the shaped titles and body with the kept images and thumbnail |

## Left out

- Rendering, CSS string formatting (`px`, `deg`, `rotate(...)`), `offsetWidth` rounding and the z-index of auto-inserted text are not modelled; sizes and positions are reals.
- Layout reads (`getBoundingClientRect`, `offsetWidth`/`offsetHeight`) are parameters: the rendered height of an auto-height element, the handles' sizes and the single-canvas element's initial position come in as arguments.
- `Math.cos`/`Math.sin` of the current angle are the parameters `c` and `s`; `Math.atan2` is a function parameter; the lemmas that need it assume `c² + s² = 1`.
- `getComputedStyle` is a parameter: the inherited font weight and the computed background colour; populating the text panel's inputs from computed styles (js/element.js:493-538) is not modelled.
- `querySelector('h3, p')` on the current text element is the `block` parameter of the style controls.
- Styling.Styler.AddTitle: the fixed inline styles given to the new `h3` (margin, padding, position, z-index, white text, Arial, the `rgba(0, 0, 0, 0.5)` background, line height) and the `contentEditable` flag are not recorded in the style map, which holds only what the panel's controls write.
- Listener registration and removal are not modelled; the single-canvas engine adds document listeners on every gesture without always removing them, which the model does not track.
- Ranges are values, not live DOM ranges.
- Highlight.Wrapped: the multi-node fallback (`extractContents` into a span, then `insertNode`) is modelled only as the creation of one span with the chosen colours; the model does not move the range's contents into the span or insert the span into the document, because ranges spanning several nodes are not modelled as document trees.
- Highlight.Highlighter.HighlightSelection: in the multi-node case it inherits the gap of Highlight.Wrapped; the selected text is not moved and the new span is not placed in the document.
- Transform.Stage.BeginMove: takes the move offset from the element's layout corner (Transform.GripOffset), the corrected form of the Findings row; the code as written reads it from the rotated bounding box, which is modelled separately as Transform.GripOffsetAsWritten and shown to make a turned element jump (Transform.GrabTurnedJumps).
- Transform.Stage.PressWrapper: the same corrected offset as Transform.Stage.BeginMove; the as-written bounding-box offset of js/element.js:432-434 is not what the page model runs.
- Styling.Styler.Bold: flips the weight with the corrected toggle (Styling.Toggle) of the Findings row; the code as written never clears bold, modelled as Styling.ToggleAsWritten (Styling.ToggleAsWrittenNeverClears).
- Text.DecimalValue: digit strings are read exactly; `parseInt` in the page goes through a double and rounds above 2^53 (for example `rgb(99999999999999999999,0,0)`), so for such components the model's low byte can differ from the page's.
- Nothing in the modelled files sets `currentDrag` or `currentResize` in js/main.js; `DragState.Tracker` leaves its fields for a caller to set.
- DragState.ResizeStep: `currentResize.handle` (js/main.js:27) is modelled as a role of the resized wrapper's own handle map (`ResizeTarget.handle`); a handle object belonging to another wrapper, or detached from every wrapper, is not represented, since nothing in the modelled files builds `currentResize`.
- js/textEditor.js, js/element.js and js/element-2.js each declare a global `rgb2hex`; in the page only the last loaded wins. The three are modelled separately (`Colour.Rgb2HexEditor`, `Colour.Rgb2HexMulti`, `Colour.Rgb2HexSingle`).
- Colour.EditorOnComputed: stated only for components below 256; above that the editor helper gives more than two hex digits while the multi-canvas helper keeps the low byte (`Text.PaddedHex`, `Colour.MultiOnComputed`), so no single agreement lemma is stated.
- Single.Board.Delete: the single-canvas delete does not clear the current text element, and the model keeps it.
- Transform.Stage.CreateElement: a missing text panel only logs an error in the source; the model creates the element and leaves the panel unset.
- Transform.Stage.CreateElement: the deferred first placement (`setTimeout(() => updateAllHandles(wrapper), 0)`, js/element.js:469) is not modelled, because timers are not; the new handles stay at their creation place, hidden, where the source would move them while still hidden, and activation places them afresh either way.
- The model's `JSON.parse`, the OpenAI call and its prompt are parameters; the text of `/scrape`'s 500 error (`error.toString()`) is not modelled (`ServerError(None)`), only that the route answers 500; `/stream-image`'s fixed 500 text is.
- Scrape.StreamImage: the piped image bytes and the `Content-Disposition: inline` header are not modelled; the answer records only the content type passed on, because the stream is I/O.
- Express routing, `axios` streaming, `fetch` and JSDOM parsing are not modelled; the fetched page is a value holding the `h1` text, the article's paragraphs and images, and the thumbnail anchor.
- js/image.js and js/canvas.js are not part of this model.

## Findings

| source | as written | input that shows it | evidently intended | confidence | as-written member | corrected member |
|---|---|---|---|---|---|---|
| js/textEditor.js:93-101 | the bold button compares the computed `fontWeight` with `'bold'`, but computed weights are numbers such as `"700"` | any click on text already bold: computed weight `"700"` ≠ `'bold'`, so bold is written again | a toggle: bold text becomes normal | not executed | Styling.ToggleAsWrittenNeverClears | Styling.ToggleFlips |
| js/element.js:242-246 | the move offset is taken from the rotated element's bounding box, while the drag then writes `left`/`top` | a 100×100 element at (0,0) turned by cos 0.6, sin 0.8, grabbed at (10,10): the element jumps to (-20,-20) | the element stays where it is when grabbed and follows the pointer | not executed | Transform.GrabTurnedJumps | Transform.DragFollowsPointer |
