/** The page-level drag and resize state of js/main.js: `currentDrag` with
    its offsets, `currentResize` with the size and pointer it started from,
    and the document's mousemove / mouseup listeners that act on the board
    of js/element-2.js. */
module DragState {
  import opened Common
  import opened Single

  /** The index of the first role with no handle, or the length when every
      role has one: where the chain of updaters throws. */
  function FirstMissing(hs: map<Role, Handle>, roles: seq<Role>): (n: nat)
    ensures n <= |roles|
    ensures forall j :: 0 <= j < n ==> roles[j] in hs
    ensures n < |roles| ==> roles[n] !in hs
    decreases |roles|
  {
    if roles == [] || roles[0] !in hs then 0
    else 1 + FirstMissing(hs, roles[1..])
  }

  /** The handles main.js repositions one after another around element e:
      the first missing one throws, so the ones before it are placed and it
      and every later one keep their old place. The flag says whether all of
      them were there. */
  function PlaceInOrder(hs: map<Role, Handle>, e: Element, roles: seq<Role>, origin: Point): (r: (map<Role, Handle>, bool))
    ensures r.0.Keys == hs.Keys
    ensures r.1 <==> forall i :: 0 <= i < |roles| ==> roles[i] in hs
    ensures forall k :: k in r.0 && k !in roles ==> r.0[k] == hs[k]
    ensures r.1 ==> forall k :: k in roles ==> r.0[k] == Placed(hs[k], Spot(k, e, origin))
    ensures forall j :: 0 <= j < FirstMissing(hs, roles) ==> r.0[roles[j]] == Placed(hs[roles[j]], Spot(roles[j], e, origin))
    ensures forall k :: k in hs && k !in roles[..FirstMissing(hs, roles)] ==> r.0[k] == hs[k]
    decreases |roles|
  {
    if roles == [] then (hs, true)
    else if roles[0] !in hs then (hs, false)
    else
      var k := roles[0];
      var hs' := hs[k := Placed(hs[k], Spot(k, e, origin))];
      var rest := PlaceInOrder(hs', e, roles[1..], origin);
      assert forall i :: 1 <= i < |roles| ==> roles[i] == roles[1..][i - 1];
      PlaceInOrderStep(hs, e, roles, origin, rest.0);
      rest
  }

  /** The inductive step of PlaceInOrder's prefix clauses: placing the head
      first, then the placed prefix of the tail, gives the placed prefix of
      the whole list. */
  lemma PlaceInOrderStep(hs: map<Role, Handle>, e: Element, roles: seq<Role>, origin: Point, rest: map<Role, Handle>)
    requires roles != [] && roles[0] in hs
    requires var hs' := hs[roles[0] := Placed(hs[roles[0]], Spot(roles[0], e, origin))];
      && rest.Keys == hs'.Keys
      && (forall j :: 0 <= j < FirstMissing(hs', roles[1..]) ==> rest[roles[1..][j]] == Placed(hs'[roles[1..][j]], Spot(roles[1..][j], e, origin)))
      && (forall k :: k in hs' && k !in roles[1..][..FirstMissing(hs', roles[1..])] ==> rest[k] == hs'[k])
    ensures forall j :: 0 <= j < FirstMissing(hs, roles) ==> rest[roles[j]] == Placed(hs[roles[j]], Spot(roles[j], e, origin))
    ensures forall k :: k in hs && k !in roles[..FirstMissing(hs, roles)] ==> rest[k] == hs[k]
  {
    var k := roles[0];
    var hs' := hs[k := Placed(hs[k], Spot(k, e, origin))];
    var n := FirstMissing(hs, roles);
    assert FirstMissing(hs', roles[1..]) == n - 1 by {
      SameFirstMissing(hs, hs', roles[1..]);
    }
    assert roles[..n] == [k] + roles[1..][..n - 1];
    forall j | 0 <= j < n
      ensures rest[roles[j]] == Placed(hs[roles[j]], Spot(roles[j], e, origin))
    {
      if j > 0 {
        assert roles[j] == roles[1..][j - 1];
        if roles[j] == k {
          assert hs'[k] == Placed(hs[k], Spot(k, e, origin));
        }
      } else if k in roles[1..][..n - 1] {
        var i :| 0 <= i < n - 1 && roles[1..][..n - 1][i] == k;
        assert roles[1..][i] == k;
      } else {
        assert k in hs';
      }
    }
  }

  /** Two maps with the same keys stop the chain at the same role. */
  lemma SameFirstMissing(hs: map<Role, Handle>, hs': map<Role, Handle>, roles: seq<Role>)
    requires hs.Keys == hs'.Keys
    ensures FirstMissing(hs, roles) == FirstMissing(hs', roles)
    decreases |roles|
  {
    if roles != [] && roles[0] in hs {
      SameFirstMissing(hs, hs', roles[1..]);
    }
  }

  /** The drag half of mousemove: the wrapper's corner goes to the pointer
      less the drag offset, then the resize handle, delete button and
      rotate handle follow in that order (the move button does not). A
      missing handle throws: the handles before it are placed, it and the
      later ones stay. The flag says the handler threw. */
  function DragStep(els: map<ElemId, Element>, id: ElemId, at: Point, origin: Point): (r: (map<ElemId, Element>, bool))
    ensures r.0.Keys == els.Keys
    ensures id !in els ==> r == (els, false)
    ensures id in els ==> r.0[id].left == at.x && r.0[id].top == at.y
    ensures forall j :: j in els && j != id ==> r.0[j] == els[j]
    ensures id in els ==> r.0[id].(left := els[id].left, top := els[id].top, handles := els[id].handles) == els[id]
    ensures id in els ==> r.0[id].handles.Keys == els[id].handles.Keys
    ensures id in els ==> (r.1 <==> exists k :: k in [ResizeHandle, DeleteBtn, RotateHandle] && k !in els[id].handles)
    ensures id in els ==> forall k :: k in els[id].handles && k !in [ResizeHandle, DeleteBtn, RotateHandle] ==>
      r.0[id].handles[k] == els[id].handles[k]
    ensures id in els && !r.1 ==>
      forall k :: k in [ResizeHandle, DeleteBtn, RotateHandle] ==>
        r.0[id].handles[k] == Placed(els[id].handles[k], Spot(k, r.0[id], origin))
    // where the chain stops
    ensures id in els ==>
      var hs := els[id].handles;
      var e := r.0[id];
      && (ResizeHandle !in hs ==> e.handles == hs)
      && (ResizeHandle in hs && DeleteBtn !in hs ==>
            e.handles == hs[ResizeHandle := Placed(hs[ResizeHandle], Spot(ResizeHandle, e, origin))])
      && (ResizeHandle in hs && DeleteBtn in hs && RotateHandle !in hs ==>
            e.handles == hs[ResizeHandle := Placed(hs[ResizeHandle], Spot(ResizeHandle, e, origin))]
                           [DeleteBtn := Placed(hs[DeleteBtn], Spot(DeleteBtn, e, origin))])
  {
    if id !in els then (els, false)
    else
      var e := els[id].(left := at.x, top := at.y);
      var hs := e.handles;
      if ResizeHandle !in hs then (els[id := e], true)
      else
        var h1 := hs[ResizeHandle := Placed(hs[ResizeHandle], Spot(ResizeHandle, e, origin))];
        if DeleteBtn !in h1 then (els[id := e.(handles := h1)], true)
        else
          var h2 := h1[DeleteBtn := Placed(h1[DeleteBtn], Spot(DeleteBtn, e, origin))];
          if RotateHandle !in h2 then (els[id := e.(handles := h2)], true)
          else (els[id := e.(handles := h2[RotateHandle := Placed(h2[RotateHandle], Spot(RotateHandle, e, origin))])], false)
  }

  /** The drag half is PlaceInOrder over the resize handle, the delete
      button and the rotate handle of the moved wrapper. */
  lemma DragInOrder(els: map<ElemId, Element>, id: ElemId, at: Point, origin: Point)
    requires id in els
    ensures var e := els[id].(left := at.x, top := at.y);
      var p := PlaceInOrder(e.handles, e, [ResizeHandle, DeleteBtn, RotateHandle], origin);
      DragStep(els, id, at, origin) == (els[id := e.(handles := p.0)], !p.1)
  {
    var e := els[id].(left := at.x, top := at.y);
    var roles := [ResizeHandle, DeleteBtn, RotateHandle];
    assert roles[1..] == [DeleteBtn, RotateHandle];
    assert roles[1..][1..] == [RotateHandle];
    assert roles[1..][1..][1..] == [];
  }

  /** What `currentResize` holds: the wrapper being resized and, as
      `currentResize.handle`, one of that wrapper's handles by role. */
  datatype ResizeTarget = ResizeTarget(wrapper: ElemId, handle: Role)

  /** The resize half of mousemove: the new size is written, then the
      stored handle goes to the resize spot (updateHandle) and the delete
      button to its own spot. A missing handle throws there, leaving the
      later one where it was. */
  function ResizeStep(els: map<ElemId, Element>, t: ResizeTarget, size: Point, origin: Point): (r: (map<ElemId, Element>, bool))
    ensures r.0.Keys == els.Keys
    ensures t.wrapper !in els ==> r == (els, false)
    ensures forall j :: j in els && j != t.wrapper ==> r.0[j] == els[j]
    ensures t.wrapper in els ==>
      var was := els[t.wrapper];
      var e := r.0[t.wrapper];
      && e.width == size.x && e.height == size.y
      && e.(width := was.width, height := was.height, handles := was.handles) == was
      && e.handles.Keys == was.handles.Keys
      && (r.1 <==> t.handle !in was.handles || DeleteBtn !in was.handles)
      && (t.handle !in was.handles ==> e.handles == was.handles)
      && (t.handle in was.handles && DeleteBtn !in was.handles ==>
            e.handles == was.handles[t.handle := Placed(was.handles[t.handle], Spot(ResizeHandle, e, origin))])
      && (t.handle in was.handles && DeleteBtn in was.handles ==>
            && e.handles[DeleteBtn] == Placed(was.handles[DeleteBtn], Spot(DeleteBtn, e, origin))
            && (t.handle != DeleteBtn ==> e.handles[t.handle] == Placed(was.handles[t.handle], Spot(ResizeHandle, e, origin)))
            && forall k :: k in was.handles && k != t.handle && k != DeleteBtn ==> e.handles[k] == was.handles[k])
  {
    if t.wrapper !in els then (els, false)
    else
      var e := els[t.wrapper].(width := size.x, height := size.y);
      if t.handle !in e.handles then (els[t.wrapper := e], true)
      else
        var hs := e.handles[t.handle := Placed(e.handles[t.handle], Spot(ResizeHandle, e, origin))];
        if DeleteBtn !in hs then (els[t.wrapper := e.(handles := hs)], true)
        else (els[t.wrapper := e.(handles := hs[DeleteBtn := Placed(hs[DeleteBtn], Spot(DeleteBtn, e, origin))])], false)
  }

  /** One side of the resize: start size plus pointer travel, floored at 50. */
  function Side(orig: real, from: real, to: real): real
  {
    var v := orig + (to - from);
    if v < 50.0 then 50.0 else v
  }

  /** Each side is at least 50 after any move, follows the pointer exactly
      while it stays at or above 50, and never shrinks as the pointer
      moves on. */
  lemma SideFloor(orig: real, from: real, to: real, further: real)
    requires to <= further
    ensures Side(orig, from, to) >= 50.0
    ensures orig + (to - from) >= 50.0 ==> Side(orig, from, to) == orig + (to - from)
    ensures Side(orig, from, to) <= Side(orig, from, further)
  {
  }

  /** Back at the start pointer, a start size of at least 50 is restored. */
  lemma SideAtStart(orig: real, from: real)
    requires orig >= 50.0
    ensures Side(orig, from, from) == orig
  {
  }

  class Tracker {
    const board: Board
    var drag: Option<ElemId>
    var dragOffset: Point
    var resize: Option<ResizeTarget>
    var origSize: Point
    var origMouse: Point

    constructor(b: Board)
      ensures board == b && drag == None && resize == None
      ensures dragOffset == Point(0.0, 0.0) && origSize == Point(0.0, 0.0) && origMouse == Point(0.0, 0.0)
    {
      board := b;
      drag := None;
      dragOffset := Point(0.0, 0.0);
      resize := None;
      origSize := Point(0.0, 0.0);
      origMouse := Point(0.0, 0.0);
    }

    /** The mousemove listener. A drag and a resize in progress both apply,
        the drag first; a throw in the drag half skips the resize half.
        Returns whether the handler threw. */
    method MouseMove(client: Point) returns (threw: bool)
      modifies board
      ensures board.origin == old(board.origin) && board.nextId == old(board.nextId)
      ensures board.currentText == old(board.currentText) && board.panelShown == old(board.panelShown)
      ensures drag.None? && resize.None? ==> board.elements == old(board.elements) && !threw
      ensures var d := if drag.Some? then DragStep(old(board.elements), drag.value, client.Minus(dragOffset), board.origin)
                       else (old(board.elements), false);
        var size := Point(Side(origSize.x, origMouse.x, client.x), Side(origSize.y, origMouse.y, client.y));
        var r := if resize.Some? && !d.1 then ResizeStep(d.0, resize.value, size, board.origin) else (d.0, d.1);
        board.elements == r.0 && threw == r.1
    {
      threw := false;
      if drag.Some? {
        var d := DragStep(board.elements, drag.value, client.Minus(dragOffset), board.origin);
        board.elements := d.0;
        threw := d.1;
      }
      if resize.Some? && !threw {
        var size := Point(Side(origSize.x, origMouse.x, client.x), Side(origSize.y, origMouse.y, client.y));
        var r := ResizeStep(board.elements, resize.value, size, board.origin);
        board.elements := r.0;
        threw := r.1;
      }
    }

    /** The mouseup listener: both gestures end. */
    method MouseUp()
      modifies this
      ensures drag == None && resize == None
      ensures dragOffset == old(dragOffset) && origSize == old(origSize) && origMouse == old(origMouse)
    {
      drag := None;
      resize := None;
    }
  }

  /** A drag and a resize of the same wrapper in one mousemove compose:
      when no handle is missing, the wrapper ends at the dragged corner with
      the clamped size, and the delete button sits at its spot for both. */
  lemma DragThenResize(els: map<ElemId, Element>, t: ResizeTarget, at: Point, size: Point, origin: Point)
    requires t.wrapper in els
    requires ResizeHandle in els[t.wrapper].handles && DeleteBtn in els[t.wrapper].handles && RotateHandle in els[t.wrapper].handles
    requires t.handle in els[t.wrapper].handles
    ensures var d := DragStep(els, t.wrapper, at, origin);
      var r := ResizeStep(d.0, t, size, origin);
      && !d.1 && !r.1
      && r.0[t.wrapper].left == at.x && r.0[t.wrapper].top == at.y
      && r.0[t.wrapper].width == size.x && r.0[t.wrapper].height == size.y
      && r.0[t.wrapper].handles[DeleteBtn] == Placed(els[t.wrapper].handles[DeleteBtn], Spot(DeleteBtn, r.0[t.wrapper], origin))
  {
    var id := t.wrapper;
    var e := els[id].(left := at.x, top := at.y);
    var placed := PlaceInOrder(e.handles, e, [ResizeHandle, DeleteBtn, RotateHandle], origin);
    assert placed.1;
    var d := DragStep(els, id, at, origin);
    assert d.0[id].handles.Keys == els[id].handles.Keys;
  }
}
