/** Highlighting of selected text in js/element-2.js: the saved selection
    range, and the splitting of one text node into the text before the
    selection, a styled span holding the selection, and the text after. */
module Highlight {
  import opened Common

  type NodeId = nat

  /** A DOM range: a start and an end boundary, each a container node and
      an offset in it. */
  datatype Range = Range(startNode: NodeId, startOffset: nat, endNode: NodeId, endOffset: nat)

  /** `range.collapsed`: both boundaries are the same point. */
  predicate Collapsed(r: Range)
  {
    r.startNode == r.endNode && r.startOffset == r.endOffset
  }

  /** The colour and background colour a highlight span is given. */
  datatype Paint = Paint(color: string, background: string)

  function Clamp(i: nat, n: nat): (r: nat)
    ensures r <= n && (r == i || r == n)
  {
    if i < n then i else n
  }

  /** JavaScript `s.substring(a, b)` for non-negative arguments: both are
      clamped to the length and swapped when out of order. */
  function Substring(s: string, a: nat, b: nat): (r: string)
    ensures a <= b <= |s| ==> r == s[a..b]
    ensures |r| <= |s|
  {
    var x := Clamp(a, |s|);
    var y := Clamp(b, |s|);
    if x <= y then s[x..y] else s[y..x]
  }

  /** JavaScript `s.substring(a)`. */
  function SubstringFrom(s: string, a: nat): (r: string)
    ensures a <= |s| ==> r == s[a..]
    ensures |r| <= |s|
  {
    s[Clamp(a, |s|)..]
  }

  /** One part of the fragment that replaces the text node. */
  datatype Piece = Plain(text: string) | Mark(text: string)

  /** The text a sequence of pieces reads as. */
  function Joined(f: seq<Piece>): string
  {
    if f == [] then [] else f[0].text + Joined(f[1..])
  }

  lemma {:induction false} JoinedAppend(f: seq<Piece>, g: seq<Piece>)
    ensures Joined(f + g) == Joined(f) + Joined(g)
    decreases |f|
  {
    if f != [] {
      assert (f + g)[0] == f[0];
      assert (f + g)[1..] == f[1..] + g;
      JoinedAppend(f[1..], g);
      calc {
        Joined(f + g);
        f[0].text + Joined(f[1..] + g);
        f[0].text + (Joined(f[1..]) + Joined(g));
        (f[0].text + Joined(f[1..])) + Joined(g);
      }
    } else {
      assert f + g == g;
    }
  }

  /** Where the mark sits in a fragment: after the `before` text when that
      is not empty. */
  function MarkAt(text: string, start: nat): nat
  {
    if Substring(text, 0, start) == [] then 0 else 1
  }

  /** The fragment built for a selection from `start` to `end` of a text
      node: the text before (only when not empty), the marked selection,
      and the text after (only when not empty). */
  function Fragment(text: string, start: nat, end: nat): (f: seq<Piece>)
    ensures MarkAt(text, start) < |f| <= 3
    ensures f[MarkAt(text, start)] == Mark(Substring(text, start, end))
    ensures forall i :: 0 <= i < |f| && i != MarkAt(text, start) ==> f[i].Plain? && f[i].text != []
  {
    var before := Substring(text, 0, start);
    var after := SubstringFrom(text, end);
    (if before != [] then [Plain(before)] else [])
      + [Mark(Substring(text, start, end))]
      + (if after != [] then [Plain(after)] else [])
  }

  /** A piece that is present only when its text is not empty reads as
      that text either way. */
  lemma JoinedOptional(t: string)
    ensures Joined(if t != [] then [Plain(t)] else []) == t
  {
    if t != [] {
      assert [Plain(t)][1..] == [];
    }
  }

  /** Cutting at two ordered positions and putting the pieces back together
      gives the text again. */
  lemma SubstringsJoin(text: string, start: nat, end: nat)
    requires start <= end
    ensures Substring(text, 0, start) + Substring(text, start, end) + SubstringFrom(text, end) == text
  {
    var x := Clamp(start, |text|);
    var y := Clamp(end, |text|);
    assert Substring(text, 0, start) == text[..x];
    assert Substring(text, start, end) == text[x..y];
    assert SubstringFrom(text, end) == text[y..];
    assert text == text[..x] + text[x..y] + text[y..];
  }

  /** For a range whose start does not follow its end, the fragment reads
      as the original text: before + selected + after is the text. */
  lemma FragmentKeepsText(text: string, start: nat, end: nat)
    requires start <= end
    ensures Joined(Fragment(text, start, end)) == text
  {
    var before := Substring(text, 0, start);
    var selected := Substring(text, start, end);
    var after := SubstringFrom(text, end);
    var b: seq<Piece> := if before != [] then [Plain(before)] else [];
    var a: seq<Piece> := if after != [] then [Plain(after)] else [];
    JoinedAppend(b, [Mark(selected)]);
    JoinedAppend(b + [Mark(selected)], a);
    JoinedOptional(before);
    JoinedOptional(after);
    assert [Mark(selected)][1..] == [];
    SubstringsJoin(text, start, end);
  }

  /** The ids `base`, `base + 1`, ..., `base + n - 1`. */
  function Ids(base: nat, n: nat): (ids: seq<NodeId>)
    ensures |ids| == n
    ensures forall i :: 0 <= i < n ==> ids[i] == base + i
  {
    seq(n, i requires 0 <= i => base + i)
  }

  /** The position of the first `x` in `xs`, or `|xs|` when there is none. */
  function IndexOf(xs: seq<NodeId>, x: NodeId): (i: nat)
    ensures i <= |xs|
    ensures i < |xs| ==> xs[i] == x
    ensures forall j :: 0 <= j < i ==> xs[j] != x
  {
    if xs == [] then 0
    else if xs[0] == x then 0
    else 1 + IndexOf(xs[1..], x)
  }

  /** `parentNode.replaceChild(frag, node)` on a child list: the first `x`
      gives way to `ys`; a list without `x` stays as it is. */
  function Replace(xs: seq<NodeId>, x: NodeId, ys: seq<NodeId>): (r: seq<NodeId>)
  {
    var i := IndexOf(xs, x);
    if i == |xs| then xs else xs[..i] + ys + xs[i + 1..]
  }

  /** Replacing drops the first `x` and nothing else, and puts `ys` in its
      place: what precedes it and what follows it are kept in order. */
  lemma ReplaceShape(xs: seq<NodeId>, x: NodeId, ys: seq<NodeId>)
    ensures x !in xs ==> Replace(xs, x, ys) == xs
    ensures x in xs ==> exists i :: 0 <= i < |xs| && xs[i] == x && x !in xs[..i]
                                    && Replace(xs, x, ys) == xs[..i] + ys + xs[i + 1..]
  {
    var i := IndexOf(xs, x);
    if x in xs {
      assert i < |xs|;
      assert x !in xs[..i];
    } else {
      assert i == |xs|;
    }
  }

  /** The part of the document highlighting works on: text nodes and their
      values, highlight spans and their paint, the children of each
      container, the parent of each attached node, and the next fresh id. */
  datatype Doc = Doc(
    texts: map<NodeId, string>,
    spans: map<NodeId, Paint>,
    children: map<NodeId, seq<NodeId>>,
    parent: map<NodeId, NodeId>,
    next: NodeId)

  /** Every id in use is below `next`, and a parent is a container. */
  ghost predicate WellFormed(d: Doc)
  {
    && (forall n :: n in d.texts ==> n < d.next)
    && (forall n :: n in d.spans ==> n < d.next)
    && (forall n :: n in d.children ==> n < d.next)
    && (forall n :: n in d.parent ==> n < d.next && d.parent[n] in d.children)
  }

  /** The piece a fresh id `n` is made for. */
  function PieceAt(f: seq<Piece>, base: nat, n: nat): Piece
    requires base <= n < base + |f|
  {
    f[n - base]
  }

  /** The nodes built for a fragment, not yet attached: plain pieces become
      text nodes at `next + i`, the mark a span at `next + k` whose one
      child is a text node at `next + |f|`. */
  function Created(d: Doc, f: seq<Piece>, k: nat, paint: Paint): (c: Doc)
    requires k < |f|
    ensures c.next == d.next + |f| + 1
  {
    var mark: NodeId := d.next + k;
    var inner: NodeId := d.next + |f|;
    Doc((d.texts + map n: NodeId | d.next <= n < inner && n != mark :: PieceAt(f, d.next, n).text)[inner := f[k].text],
        d.spans[mark := paint],
        d.children[mark := [inner]],
        d.parent[inner := mark],
        inner + 1)
  }

  /** A split keeps the document well formed. */
  lemma SplitWellFormed(d: Doc, node: NodeId, start: nat, end: nat, paint: Paint)
    requires WellFormed(d) && node in d.texts
    ensures WellFormed(Split(d, node, start, end, paint))
  {
    SplitLaysFragment(d, node, start, end, paint);
  }

  /** The fragment's nodes `ids` take `node`'s place under `p`. */
  function Inserted(d: Doc, node: NodeId, p: NodeId, ids: seq<NodeId>): (c: Doc)
    requires p in d.children
  {
    d.(children := d.children[p := Replace(d.children[p], node, ids)],
       parent := (d.parent - {node}) + map n | n in ids :: p)
  }

  /** The single-text-node case of highlightSelectedText. The fragment's
      nodes are made first; they are put in the node's place only when the
      node has a parent (without one, `replaceChild` throws). */
  function Split(d: Doc, node: NodeId, start: nat, end: nat, paint: Paint): (c: Doc)
    requires WellFormed(d) && node in d.texts
  {
    var text := d.texts[node];
    var f := Fragment(text, start, end);
    var made := Created(d, f, MarkAt(text, start), paint);
    if node in d.parent then Inserted(made, node, d.parent[node], Ids(d.next, |f|)) else made
  }

  /** The fragment `f` laid out at ids `base ..`: each plain piece a text
      node, the mark a span with one text child at `base + |f|`. */
  ghost predicate Laid(d: Doc, f: seq<Piece>, base: nat, paint: Paint)
  {
    forall i :: 0 <= i < |f| ==>
      match f[i]
      case Plain(t) => base + i in d.texts && d.texts[base + i] == t
      case Mark(t) =>
        && base + i in d.spans && d.spans[base + i] == paint
        && base + i in d.children && d.children[base + i] == [base + |f|]
        && base + |f| in d.texts && d.texts[base + |f|] == t
  }

  /** The made nodes are laid out as the fragment says, at ids that were
      fresh, and the nodes already there are untouched. */
  lemma CreatedLays(d: Doc, f: seq<Piece>, k: nat, paint: Paint)
    requires WellFormed(d) && k < |f| && f[k].Mark?
    requires forall i :: 0 <= i < |f| && i != k ==> f[i].Plain?
    ensures var c := Created(d, f, k, paint);
      && WellFormed(c)
      && Laid(c, f, d.next, paint)
      && (forall n :: n in d.texts ==> n in c.texts && c.texts[n] == d.texts[n])
      && (forall n :: n in d.spans ==> n in c.spans && c.spans[n] == d.spans[n])
      && (forall n :: n in d.children ==> n in c.children && c.children[n] == d.children[n])
  {
    var c := Created(d, f, k, paint);
    forall i | 0 <= i < |f|
      ensures match f[i]
        case Plain(t) => d.next + i in c.texts && c.texts[d.next + i] == t
        case Mark(t) =>
          && d.next + i in c.spans && c.spans[d.next + i] == paint
          && d.next + i in c.children && c.children[d.next + i] == [d.next + |f|]
          && d.next + |f| in c.texts && c.texts[d.next + |f|] == t
    {
      if i != k {
        assert PieceAt(f, d.next, d.next + i) == f[i];
      }
    }
  }

  /** Attaching changes only the parent's child list and the parent links. */
  lemma InsertedKeeps(d: Doc, node: NodeId, p: NodeId, ids: seq<NodeId>)
    requires WellFormed(d) && p in d.children
    requires forall i :: 0 <= i < |ids| ==> ids[i] < d.next
    ensures var c := Inserted(d, node, p, ids);
      && WellFormed(c)
      && c.texts == d.texts && c.spans == d.spans && c.next == d.next
      && (forall n :: n in d.children && n != p ==> n in c.children && c.children[n] == d.children[n])
  {
  }

  /** After a split the fragment is in the document at fresh ids, the
      nodes that were there keep their text and paint, and the document
      stays well formed. */
  lemma SplitLaysFragment(d: Doc, node: NodeId, start: nat, end: nat, paint: Paint)
    requires WellFormed(d) && node in d.texts
    ensures var c := Split(d, node, start, end, paint);
      var f := Fragment(d.texts[node], start, end);
      && WellFormed(c)
      && c.next == d.next + |f| + 1
      && Laid(c, f, d.next, paint)
      && (forall n :: n in d.texts ==> n in c.texts && c.texts[n] == d.texts[n])
      && (forall n :: n in d.spans ==> n in c.spans && c.spans[n] == d.spans[n])
  {
    var text := d.texts[node];
    var f := Fragment(text, start, end);
    var k := MarkAt(text, start);
    var made := Created(d, f, k, paint);
    CreatedLays(d, f, k, paint);
    if node in d.parent {
      var p := d.parent[node];
      var ids := Ids(d.next, |f|);
      InsertedKeeps(made, node, p, ids);
      var c := Inserted(made, node, p, ids);
      assert c == Split(d, node, start, end, paint);
      assert p < d.next;
      assert Laid(c, f, d.next, paint) by {
        forall i | 0 <= i < |f| && f[i].Mark?
          ensures d.next + i in c.children && c.children[d.next + i] == [d.next + |f|]
        {
          assert d.next + i in made.children && made.children[d.next + i] == [d.next + |f|];
        }
      }
    }
  }

  /** When the node has a parent, the parent's children now hold the
      fragment's top-level nodes where the node was, those nodes have that
      parent, and the node itself is detached. */
  lemma SplitReplacesNode(d: Doc, node: NodeId, start: nat, end: nat, paint: Paint)
    requires WellFormed(d) && node in d.texts && node in d.parent
    ensures var c := Split(d, node, start, end, paint);
      var ids := Ids(d.next, |Fragment(d.texts[node], start, end)|);
      var p := d.parent[node];
      && c.children[p] == Replace(d.children[p], node, ids)
      && node !in c.parent
      && (forall n :: n in ids ==> n in c.parent && c.parent[n] == p)
  {
    var text := d.texts[node];
    var f := Fragment(text, start, end);
    var made := Created(d, f, MarkAt(text, start), paint);
    var p := d.parent[node];
    assert p < d.next && node < d.next;
    assert made.children[p] == d.children[p];
    assert node !in made.parent - {node};
  }

  /** The multi-node fallback: a new empty span becomes the selected word;
      the moving of the range's contents into it is not tracked. */
  function Wrapped(d: Doc, paint: Paint): (c: Doc)
    ensures c.next == d.next + 1 && d.next in c.spans && c.spans[d.next] == paint
    ensures WellFormed(d) ==> WellFormed(c)
  {
    d.(spans := d.spans[d.next := paint], children := d.children[d.next := []], next := d.next + 1)
  }

  /** The range highlightSelectedText works on: the live selection's,
      else the saved one. */
  function ChosenRange(selection: Option<Range>, saved: Option<Range>): (r: Option<Range>)
    ensures r.Some? <==> selection.Some? || saved.Some?
    ensures selection.Some? ==> r == selection
  {
    if selection.Some? then selection else saved
  }

  /** The selection state: the document, the window's live selection,
      `savedRange` and `currentSelectedWord`. */
  class Highlighter {
    var doc: Doc
    var selection: Option<Range>
    var savedRange: Option<Range>
    var selectedWord: Option<NodeId>

    ghost predicate Valid()
      reads this
    {
      WellFormed(doc)
    }

    constructor()
      ensures Valid()
      ensures doc == Doc(map[], map[], map[], map[], 0)
      ensures selection == None && savedRange == None && selectedWord == None
    {
      doc := Doc(map[], map[], map[], map[], 0);
      selection := None;
      savedRange := None;
      selectedWord := None;
    }

    /** The mouseup / touchend listener: while editable text has focus, the
        live selection's range is saved. */
    method SaveRange(editableFocused: bool)
      modifies this
      ensures editableFocused && old(selection).Some? ==> savedRange == old(selection)
      ensures !(editableFocused && old(selection).Some?) ==> savedRange == old(savedRange)
      ensures doc == old(doc) && selection == old(selection) && selectedWord == old(selectedWord)
    {
      if editableFocused && selection.Some? {
        savedRange := selection;
      }
    }

    /** highlightSelectedText: nothing without a range or with a collapsed
        one; a range inside one text node splits that node; any other range
        is wrapped in a new span. The selection and the saved range are
        cleared at the end, which a split of a detached node never reaches. */
    method HighlightSelection(paint: Paint)
      requires Valid()
      modifies this
      ensures Valid()
      ensures var r := ChosenRange(old(selection), old(savedRange));
        r.None? || Collapsed(r.value) ==> unchanged(this)
      ensures var r := ChosenRange(old(selection), old(savedRange));
        r.Some? && !Collapsed(r.value) && r.value.startNode == r.value.endNode && r.value.startNode in old(doc).texts ==>
          var node := r.value.startNode;
          && doc == Split(old(doc), node, r.value.startOffset, r.value.endOffset, paint)
          && selectedWord == Some(old(doc).next + MarkAt(old(doc).texts[node], r.value.startOffset))
          && (node in old(doc).parent ==> selection.None? && savedRange.None?)
          && (node !in old(doc).parent ==> selection == old(selection) && savedRange == old(savedRange))
      ensures var r := ChosenRange(old(selection), old(savedRange));
        r.Some? && !Collapsed(r.value) && !(r.value.startNode == r.value.endNode && r.value.startNode in old(doc).texts) ==>
          && doc == Wrapped(old(doc), paint)
          && selectedWord == Some(old(doc).next)
          && selection.None? && savedRange.None?
    {
      var range: Range;
      if selection.Some? {
        range := selection.value;
      } else if savedRange.Some? {
        range := savedRange.value;
      } else {
        return;
      }
      if Collapsed(range) {
        return;
      }
      if range.startNode == range.endNode && range.startNode in doc.texts {
        var node := range.startNode;
        SplitWellFormed(doc, node, range.startOffset, range.endOffset, paint);
        selectedWord := Some(doc.next + MarkAt(doc.texts[node], range.startOffset));
        var attached := node in doc.parent;
        doc := Split(doc, node, range.startOffset, range.endOffset, paint);
        if attached {
          selection := None;
          savedRange := None;
        }
      } else {
        doc := Wrapped(doc, paint);
        selectedWord := Some(doc.next - 1);
        selection := None;
        savedRange := None;
      }
    }
  }

  /** The highlighted span of a split holds exactly the selected text, and
      the document reads, around it, as before: the fragment joins back to
      the node's text. */
  lemma HighlightKeepsText(d: Doc, node: NodeId, start: nat, end: nat, paint: Paint)
    requires WellFormed(d) && node in d.texts && start <= end
    ensures var c := Split(d, node, start, end, paint);
      var f := Fragment(d.texts[node], start, end);
      var k := MarkAt(d.texts[node], start);
      && Joined(f) == d.texts[node]
      && d.next + k in c.spans && c.children[d.next + k] == [d.next + |f|]
      && c.texts[d.next + |f|] == Substring(d.texts[node], start, end)
  {
    FragmentKeepsText(d.texts[node], start, end);
    SplitLaysFragment(d, node, start, end, paint);
    var f := Fragment(d.texts[node], start, end);
    var k := MarkAt(d.texts[node], start);
    var c := Split(d, node, start, end, paint);
    assert f[k] == Mark(Substring(d.texts[node], start, end));
    assert Laid(c, f, d.next, paint);
  }
}
