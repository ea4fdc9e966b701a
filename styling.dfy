/** The text edit panel of js/textEditor.js: which node a style change
    goes to, the bold toggle, the background opacity slider, closing the
    panel, and the guards on adding a title or a description. */
module Styling {
  import opened Common
  import opened Text
  import Colour
  import Single
  import Highlight

  type NodeId = Highlight.NodeId

  /** The inline style properties the panel writes. */
  datatype Prop = FontFamily | TextColor | BackgroundColor | FontSize | FontWeight

  /** An inline style value: plain CSS text, or the `rgba(...)` the
      opacity slider writes, its components as the digit groups they were
      read as (or `undefined` when missing). */
  datatype Value = Css(text: string) | Rgba(red: string, green: string, blue: string, alpha: real)

  /** The node a font family, colour, background or size change goes to:
      the selected word if there is one, else the first `h3` or `p` inside
      the current text element (`block`, the `querySelector` answer), else
      none. */
  function StyleTarget(word: Option<NodeId>, text: Option<TextId>, block: TextId -> Option<NodeId>): (t: Option<NodeId>)
  {
    if word.Some? then word
    else if text.Some? then block(text.value)
    else None
  }

  /** The selected word always wins; without one, a text element with no
      `h3` or `p` inside takes no change; without either, nothing does. */
  lemma StyleTargetChoice(word: Option<NodeId>, text: Option<TextId>, block: TextId -> Option<NodeId>)
    ensures word.Some? ==> StyleTarget(word, text, block) == word
    ensures StyleTarget(word, text, block).Some? <==> word.Some? || (text.Some? && block(text.value).Some?)
    ensures StyleTarget(word, text, block).Some? && word.None? ==> StyleTarget(word, text, block) == block(text.value)
  {
  }

  /** The node the bold button acts on: the selected word, else the current
      text element itself (not its `h3` or `p`). */
  function BoldTarget(word: Option<NodeId>, text: Option<TextId>): (t: Option<NodeId>)
    ensures t.Some? <==> word.Some? || text.Some?
    ensures word.Some? ==> t == word
    ensures word.None? ==> t == text
  {
    if word.Some? then word else text
  }

  /** The computed `font-weight` for a declared one: browsers report the
      keywords `normal` and `bold` as the numbers 400 and 700. */
  function ComputedWeight(declared: string): (w: string)
    ensures w != "bold"
  {
    if declared == "bold" then "700"
    else if declared == "normal" then "400"
    else declared
  }

  /** The bold button's choice as written: `normal` only when the computed
      weight is the word `bold`. */
  function ToggleAsWritten(computed: string): string
  {
    if computed == "bold" then "normal" else "bold"
  }

  /** The computed weight is never the word `bold`, so the button as
      written always writes `bold` and can never make text normal again. */
  lemma ToggleAsWrittenNeverClears(declared: string)
    ensures ToggleAsWritten(ComputedWeight(declared)) == "bold"
    ensures ComputedWeight(ToggleAsWritten(ComputedWeight("bold"))) == "700"
  {
  }

  /** A weight that renders bold: the keyword, or a number of 600 or more. */
  predicate IsBold(computed: string)
  {
    computed == "bold" || (computed != [] && AllDigits(computed) && DecimalValue(computed) >= 600)
  }

  /** The bold button as intended: `normal` on bold text, `bold` otherwise. */
  function Toggle(computed: string): (w: string)
    ensures w == "normal" || w == "bold"
  {
    if IsBold(computed) then "normal" else "bold"
  }

  lemma WeightValues()
    ensures IsBold("700") && !IsBold("400")
  {
    assert "70"[..1] == "7" && "700"[..2] == "70";
    assert "40"[..1] == "4" && "400"[..2] == "40";
    assert "7"[..0] == [] && "4"[..0] == [];
    assert DecimalValue("700") == 700;
    assert DecimalValue("400") == 400;
  }

  /** Pressing the corrected button flips whether the text renders bold,
      so pressing it twice gives back the same boldness. */
  lemma ToggleFlips(computed: string)
    ensures IsBold(ComputedWeight(Toggle(computed))) <==> !IsBold(computed)
    ensures IsBold(ComputedWeight(Toggle(ComputedWeight(Toggle(computed))))) <==> IsBold(computed)
  {
    WeightValues();
  }

  /** The `i`-th digit group, or JavaScript's `undefined` text when the
      array is shorter. */
  function Component(runs: seq<string>, i: nat): string
  {
    if i < |runs| then runs[i] else "undefined"
  }

  /** The opacity slider: the first three digit groups of the computed
      background, with alpha `value / 100`. No digit group at all makes the
      match `null` and the handler throws (`None`). */
  function WithAlpha(computedBg: string, value: int): (r: Option<Value>)
    ensures r.None? <==> Colour.DigitRuns(computedBg) == []
    ensures r.Some? ==> r.value.Rgba? && r.value.alpha * 100.0 == value as real
  {
    var runs := Colour.DigitRuns(computedBg);
    if runs == [] then None
    else Some(Rgba(Component(runs, 0), Component(runs, 1), Component(runs, 2), value as real / 100.0))
  }

  /** On a computed `rgb(r, g, b)` background the slider keeps the three
      components and sets only the alpha. */
  lemma AlphaKeepsColour(r: string, g: string, b: string, value: int)
    requires |r| > 0 && |g| > 0 && |b| > 0 && AllDigits(r) && AllDigits(g) && AllDigits(b)
    ensures WithAlpha(Colour.ComputedRgb(r, g, b), value) == Some(Rgba(r, g, b, value as real / 100.0))
  {
    Colour.EditorRuns(r, g, b);
  }

  /** On a computed `rgba(r, g, b, a)` background, the form every target
      takes once the slider or a title's own default has set it, the slider
      keeps the three components and replaces only the alpha. */
  lemma AlphaKeepsColourRgba(r: string, g: string, b: string, a: string, value: int)
    requires |r| > 0 && |g| > 0 && |b| > 0 && AllDigits(r) && AllDigits(g) && AllDigits(b)
    ensures WithAlpha(Colour.ComputedRgba(r, g, b, a), value) == Some(Rgba(r, g, b, value as real / 100.0))
  {
    Colour.RgbaRuns(r, g, b, a);
  }

  /** The title typed in: added only when not empty, as typed. */
  function TitleToAdd(typed: string): (r: Option<string>)
    ensures r.Some? <==> typed != []
    ensures r.Some? ==> r.value == typed
  {
    if typed != [] then Some(typed) else None
  }

  /** The description typed in: trimmed, and added only when something is
      left. */
  function DescriptionToAdd(typed: string): (r: Option<string>)
    ensures r.Some? ==> r.value != [] && Trimmed(r.value)
    ensures r.None? <==> AllSpaces(typed)
  {
    TrimShape(typed);
    TrimEmpty(typed);
    var t := Trim(typed);
    if t != [] then Some(t) else None
  }

  /** Adding the same description again adds the same text: the trimmed
      text is its own trim. */
  lemma DescriptionStable(typed: string)
    requires DescriptionToAdd(typed).Some?
    ensures DescriptionToAdd(DescriptionToAdd(typed).value) == DescriptionToAdd(typed)
  {
    TrimIdempotent(typed);
  }

  /** Whitespace typed around a description makes no difference. */
  lemma DescriptionIgnoresPadding(g: string, typed: string, h: string)
    requires AllSpaces(g) && AllSpaces(h)
    ensures DescriptionToAdd(g + typed + h) == DescriptionToAdd(typed)
  {
    TrimPadded(g, typed, h);
  }

  /** The editable block an add button puts in a new text container: an
      `h3` title or a `p` description, with its `innerText`. */
  datatype Block = Heading(text: string) | Paragraph(text: string)

  /** The panel's state: the board (for `currentTextElement` and the
      panel's display), the highlighter (for `currentSelectedWord`), the
      inline styles the panel has written, per node and property, and the
      block each text container made by the add buttons holds. */
  class Styler {
    const board: Single.Board
    const marks: Highlight.Highlighter
    var style: map<(NodeId, Prop), Value>
    var blocks: map<TextId, Block>

    constructor(b: Single.Board, h: Highlight.Highlighter)
      ensures board == b && marks == h && style == map[] && blocks == map[]
    {
      board := b;
      marks := h;
      style := map[];
      blocks := map[];
    }

    /** The font family, colour, background colour and font size controls:
        the value goes to the style target, if there is one. */
    method SetStyle(prop: Prop, value: Value, block: TextId -> Option<NodeId>)
      modifies this
      ensures blocks == old(blocks)
      ensures var t := StyleTarget(marks.selectedWord, board.currentText, block);
        style == if t.Some? then old(style)[(t.value, prop) := value] else old(style)
    {
      var t := StyleTarget(marks.selectedWord, board.currentText, block);
      if t.Some? {
        style := style[(t.value, prop) := value];
      }
    }

    /** The font size control writes the number with `px`. */
    method SetFontSize(typed: string, block: TextId -> Option<NodeId>)
      modifies this
      ensures blocks == old(blocks)
      ensures var t := StyleTarget(marks.selectedWord, board.currentText, block);
        style == if t.Some? then old(style)[(t.value, FontSize) := Css(typed + "px")] else old(style)
    {
      SetStyle(FontSize, Css(typed + "px"), block);
    }

    /** The computed weight of a node: its declared inline weight, else the
        weight it inherits. */
    function WeightOf(n: NodeId, inherited: string): string
      reads this
    {
      if (n, FontWeight) in style && style[(n, FontWeight)].Css? then ComputedWeight(style[(n, FontWeight)].text)
      else inherited
    }

    /** The bold button, with the corrected comparison. */
    method Bold(inherited: string)
      modifies this
      ensures blocks == old(blocks)
      ensures var t := BoldTarget(marks.selectedWord, board.currentText);
        t.None? ==> style == old(style)
      ensures var t := BoldTarget(marks.selectedWord, board.currentText);
        t.Some? ==> style == old(style)[(t.value, FontWeight) := Css(Toggle(old(WeightOf(t.value, inherited))))]
    {
      var t := BoldTarget(marks.selectedWord, board.currentText);
      if t.Some? {
        style := style[(t.value, FontWeight) := Css(Toggle(WeightOf(t.value, inherited)))];
      }
    }

    /** The opacity slider on the style target; a throw leaves the styles
        as they were. */
    method Opacity(value: int, computedBg: string, block: TextId -> Option<NodeId>) returns (threw: bool)
      modifies this
      ensures blocks == old(blocks)
      ensures var t := StyleTarget(marks.selectedWord, board.currentText, block);
        var a := WithAlpha(computedBg, value);
        && (threw <==> t.Some? && a.None?)
        && style == if t.Some? && a.Some? then old(style)[(t.value, BackgroundColor) := a.value] else old(style)
    {
      threw := false;
      var t := StyleTarget(marks.selectedWord, board.currentText, block);
      if t.Some? {
        var a := WithAlpha(computedBg, value);
        if a.None? {
          threw := true;
        } else {
          style := style[(t.value, BackgroundColor) := a.value];
        }
      }
    }

    /** The document click listener: a click outside both the panel and
        every element hides the panel and forgets the text element and the
        selected word. */
    method ClickOutside(inPanel: bool, inElement: bool)
      modifies board, marks
      ensures !inPanel && !inElement ==>
        !board.panelShown && board.currentText == None && marks.selectedWord == None
      ensures inPanel || inElement ==>
        board.panelShown == old(board.panelShown) && board.currentText == old(board.currentText)
        && marks.selectedWord == old(marks.selectedWord)
      ensures board.elements == old(board.elements) && board.origin == old(board.origin) && board.nextId == old(board.nextId)
      ensures marks.doc == old(marks.doc) && marks.selection == old(marks.selection) && marks.savedRange == old(marks.savedRange)
    {
      if !inPanel && !inElement {
        board.panelShown := false;
        board.currentText := None;
        marks.selectedWord := None;
      }
    }

    /** The add title button: a non-empty title becomes a new element whose
        content is a container (`container`) holding an `h3` with the title
        as typed, created as
        createElement does: 400 pixels wide at `at`, unturned, inactive,
        with its handles shown, after every existing element, which stays
        as it was. */
    method AddTitle(typed: string, container: TextId, at: Point, renderedHeight: real, size: Role -> Point)
      returns (id: Option<ElemId>)
      requires board.Valid()
      modifies board, this
      ensures board.Valid()
      ensures id.Some? <==> TitleToAdd(typed).Some?
      ensures style == old(style)
      ensures id.None? ==> blocks == old(blocks)
      ensures id.Some? ==> blocks == old(blocks)[container := Heading(TitleToAdd(typed).value)]
      ensures id.None? ==> board.elements == old(board.elements) && board.nextId == old(board.nextId)
      ensures board.origin == old(board.origin) && board.currentText == old(board.currentText)
      ensures board.panelShown == old(board.panelShown)
      ensures id.Some? ==>
        && id.value == old(board.nextId) && id.value !in old(board.elements)
        && board.elements.Keys == old(board.elements).Keys + {id.value}
        && (forall j :: j in old(board.elements) ==> board.elements[j] == old(board.elements)[j])
        && var e := board.elements[id.value];
           && e.content == Words(container)
           && !e.active && e.rotation == 0.0 && e.left == at.x && e.top == at.y
           && e.width == 400.0 && e.height == renderedHeight
           && e.handles.Keys == AllRoles && (forall r :: r in e.handles ==> e.handles[r].shown)
           && e.handles[DeleteBtn].left == board.origin.x - 5.0 && e.handles[DeleteBtn].top == board.origin.y - 5.0
           && (forall r :: r in e.handles && r != DeleteBtn ==>
                 e.handles[r].left == Single.Spot(r, e, board.origin).x && e.handles[r].top == Single.Spot(r, e, board.origin).y)
    {
      if TitleToAdd(typed).None? {
        return None;
      }
      blocks := blocks[container := Heading(TitleToAdd(typed).value)];
      var made := board.CreateElement(EditableText(container), false, at, renderedHeight, size);
      id := Some(made);
    }

    /** The add description button: the trimmed description, when not
        empty, becomes a new element the same way, its container holding a
        `p` with the trimmed text. */
    method AddDescription(typed: string, container: TextId, at: Point, renderedHeight: real, size: Role -> Point)
      returns (id: Option<ElemId>)
      requires board.Valid()
      modifies board, this
      ensures board.Valid()
      ensures id.Some? <==> DescriptionToAdd(typed).Some?
      ensures style == old(style)
      ensures id.None? ==> blocks == old(blocks)
      ensures id.Some? ==> blocks == old(blocks)[container := Paragraph(DescriptionToAdd(typed).value)]
      ensures id.None? ==> board.elements == old(board.elements) && board.nextId == old(board.nextId)
      ensures board.origin == old(board.origin) && board.currentText == old(board.currentText)
      ensures board.panelShown == old(board.panelShown)
      ensures id.Some? ==>
        && id.value == old(board.nextId) && id.value !in old(board.elements)
        && board.elements.Keys == old(board.elements).Keys + {id.value}
        && (forall j :: j in old(board.elements) ==> board.elements[j] == old(board.elements)[j])
        && var e := board.elements[id.value];
           && e.content == Words(container)
           && !e.active && e.rotation == 0.0 && e.left == at.x && e.top == at.y
           && e.width == 400.0 && e.height == renderedHeight
           && e.handles.Keys == AllRoles && (forall r :: r in e.handles ==> e.handles[r].shown)
           && e.handles[DeleteBtn].left == board.origin.x - 5.0 && e.handles[DeleteBtn].top == board.origin.y - 5.0
           && (forall r :: r in e.handles && r != DeleteBtn ==>
                 e.handles[r].left == Single.Spot(r, e, board.origin).x && e.handles[r].top == Single.Spot(r, e, board.origin).y)
    {
      if DescriptionToAdd(typed).None? {
        return None;
      }
      blocks := blocks[container := Paragraph(DescriptionToAdd(typed).value)];
      var made := board.CreateElement(EditableText(container), false, at, renderedHeight, size);
      id := Some(made);
    }
  }
}
