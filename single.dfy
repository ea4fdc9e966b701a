/** The single-canvas transform engine of js/element-2.js: handles laid out
    in a straight line around the unturned box, moves by layout offset,
    resizes that skip small sizes, absolute rotation, and global selection.
    The board also holds the page globals the other scripts share:
    `currentTextElement` and the display of the one text edit panel. */
module Single {
  import opened Common

  /** One wrapper: its layout left/top (offsetLeft/offsetTop, which the
      style left/top set) and size (offsetWidth/offsetHeight) in pixels, its
      angle in degrees, the `active` class, its handles and its content. */
  datatype Element = Element(
    left: real, top: real, width: real, height: real,
    rotation: real,
    active: bool,
    handles: map<Role, Handle>,
    content: Content)

  /** updateHandle / updateDeleteButton / updateMoveButton /
      updateRotateHandle: where each handle's top-left goes, as the canvas
      origin plus an offset from the element's layout box. */
  function Spot(r: Role, e: Element, origin: Point): Point
  {
    match r
    case ResizeHandle => Point(origin.x + e.left + e.width - 5.0, origin.y + e.top + e.height - 5.0)
    case DeleteBtn => Point(origin.x + e.left - 5.0, origin.y + e.top - 5.0)
    case MoveBtn => Point(origin.x + e.left + e.width / 2.0 - 10.0, origin.y + e.top + e.height + 5.0)
    case RotateHandle => Point(origin.x + e.left + e.width / 2.0 - 30.0, origin.y + e.top + e.height - 5.0)
  }

  /** A handle moved to its spot; nothing else about it changes. */
  function Placed(h: Handle, at: Point): (r: Handle)
    ensures r.left == at.x && r.top == at.y
    ensures r.shown == h.shown && r.turn == h.turn && r.width == h.width && r.height == h.height
  {
    h.(left := at.x, top := at.y)
  }

  /** updateAllHandles: every present handle at its spot. */
  function PlaceAll(e: Element, origin: Point): (hs: map<Role, Handle>)
    ensures hs.Keys == e.handles.Keys
    ensures forall r :: r in hs ==> hs[r].left == Spot(r, e, origin).x && hs[r].top == Spot(r, e, origin).y
    ensures forall r :: r in hs ==> hs[r].shown == e.handles[r].shown
  {
    map r | r in e.handles :: Placed(e.handles[r], Spot(r, e, origin))
  }

  /** The layout ignores the element's angle: handles do not follow a turn. */
  lemma SpotIgnoresRotation(r: Role, e: Element, origin: Point, deg: real)
    ensures Spot(r, e.(rotation := deg), origin) == Spot(r, e, origin)
  {
  }

  /** Turning the element leaves every handle where it was laid out. */
  lemma PlaceAllIgnoresRotation(e: Element, origin: Point, deg: real)
    ensures PlaceAll(e.(rotation := deg), origin) == PlaceAll(e, origin)
  {
    forall r | r in e.handles
      ensures PlaceAll(e.(rotation := deg), origin)[r] == PlaceAll(e, origin)[r]
    {
      SpotIgnoresRotation(r, e, origin, deg);
    }
  }

  /** Moving the element by d moves every handle's spot by d. */
  lemma SpotsFollowMove(r: Role, e: Element, origin: Point, d: Point)
    ensures Spot(r, e.(left := e.left + d.x, top := e.top + d.y), origin) == Spot(r, e, origin).Plus(d)
  {
  }

  /** Resize sits at the bottom-right and delete at the top-left, five
      pixels inside and outside the box; the move button is 20 pixels to
      the right of the rotate handle and 10 pixels lower. */
  lemma SpotShape(e: Element, origin: Point)
    ensures Spot(ResizeHandle, e, origin).Minus(Spot(DeleteBtn, e, origin)) == Point(e.width, e.height)
    ensures Spot(MoveBtn, e, origin).Minus(Spot(RotateHandle, e, origin)) == Point(20.0, 10.0)
  {
  }

  /** deactivateAllElements: `active` removed, every handle hidden. */
  function Off(e: Element): (r: Element)
    ensures !r.active && r.handles.Keys == e.handles.Keys
    ensures forall k :: k in r.handles ==> !r.handles[k].shown
  {
    e.(active := false, handles := HideAll(e.handles))
  }

  /** deactivateAllElements over the whole board: every wrapper off, none
      added or removed. */
  function AllOff(els: map<ElemId, Element>): (r: map<ElemId, Element>)
    ensures r.Keys == els.Keys
    ensures forall id :: id in r ==> r[id] == Off(els[id])
    ensures forall id :: id in r ==> !r[id].active
  {
    map id | id in els :: Off(els[id])
  }

  /** activateElement: every element deactivated, then this one marked
      active with all its handles shown; only `active` and the handles'
      display change. */
  function Activated(els: map<ElemId, Element>, id: ElemId): (r: map<ElemId, Element>)
    ensures r.Keys == els.Keys
    ensures id in els ==> r[id].(active := els[id].active, handles := els[id].handles) == els[id]
    ensures id in els ==> r[id].handles == ShowAll(els[id].handles)
    ensures forall j :: j in r && j != id ==> r[j] == Off(els[j])
    ensures forall j :: j in r ==> (r[j].active <==> j == id)
  {
    var off := AllOff(els);
    if id in els then off[id := els[id].(active := true, handles := ShowAll(els[id].handles))] else off
  }

  /** Activating twice is activating once. */
  lemma ActivatedIdempotent(els: map<ElemId, Element>, id: ElemId)
    ensures Activated(Activated(els, id), id) == Activated(els, id)
  {
    var once := Activated(els, id);
    var twice := Activated(once, id);
    forall j | j in twice
      ensures twice[j] == once[j]
    {
      if j != id {
        HideAllIdempotent(els[j].handles);
      } else {
        ShowAllIdempotent(els[j].handles);
      }
    }
  }

  /** A move in progress: the pointer's offset from the layout corner. */
  datatype MoveGrip = MoveGrip(id: ElemId, offset: Point)

  function DragTo(g: MoveGrip, p: Point): Point
  {
    p.Minus(g.offset)
  }

  /** The offset is taken from the layout corner, so the element follows the
      pointer exactly and returning to the start pointer restores it. */
  lemma DragFollowsPointer(e: Element, p0: Point, p: Point)
    ensures var g := MoveGrip(0, p0.Minus(Point(e.left, e.top)));
      DragTo(g, p) == Point(e.left + (p.x - p0.x), e.top + (p.y - p0.y))
    ensures DragTo(MoveGrip(0, p0.Minus(Point(e.left, e.top))), p0) == Point(e.left, e.top)
  {
  }

  /** A resize in progress: start pointer and start size. */
  datatype ResizeGrip = ResizeGrip(id: ElemId, start: Point, width: real, height: real)

  /** resizeElement: each side is written only when its new value is above
      50; otherwise the side it had stays. */
  function Resized(g: ResizeGrip, p: Point, current: Point): (size: Point)
    ensures size.x == g.width + (p.x - g.start.x) || size.x == current.x
    ensures size.y == g.height + (p.y - g.start.y) || size.y == current.y
    ensures size.x != current.x ==> size.x > 50.0
    ensures size.y != current.y ==> size.y > 50.0
    ensures var w := g.width + (p.x - g.start.x);
      (w > 50.0 ==> size.x == w) && (w <= 50.0 ==> size.x == current.x)
    ensures var h := g.height + (p.y - g.start.y);
      (h > 50.0 ==> size.y == h) && (h <= 50.0 ==> size.y == current.y)
  {
    var w := g.width + (p.x - g.start.x);
    var h := g.height + (p.y - g.start.y);
    Point(if w > 50.0 then w else current.x, if h > 50.0 then h else current.y)
  }

  /** A side that was above 50 stays above 50 through any resize. */
  lemma ResizeKeepsAboveFifty(g: ResizeGrip, p: Point, current: Point)
    requires current.x > 50.0 && current.y > 50.0
    ensures Resized(g, p, current).x > 50.0 && Resized(g, p, current).y > 50.0
  {
  }

  /** A resize that comes back to the start pointer restores the start size
      when that size is above 50. */
  lemma ResizeAtStart(g: ResizeGrip, current: Point)
    requires g.width > 50.0 && g.height > 50.0
    ensures Resized(g, g.start, current) == Point(g.width, g.height)
  {
  }

  /** rotateElement: the pointer's angle about the centre, in degrees. */
  function Angle(atan2: (real, real) -> real, centre: Point, p: Point): real
  {
    RadToDeg(atan2(p.y - centre.y, p.x - centre.x))
  }

  /** rotateElement on the board: the element takes the angle `deg` and its
      handles are laid out again; nothing else changes. */
  function Rotated(els: map<ElemId, Element>, origin: Point, id: ElemId, deg: real): (r: map<ElemId, Element>)
    ensures r.Keys == els.Keys
    ensures forall j :: j in r && j != id ==> r[j] == els[j]
    ensures id in els ==> r[id].rotation == deg
    ensures id in els ==> r[id].(rotation := els[id].rotation, handles := els[id].handles) == els[id]
    ensures id in els ==> r[id].handles == PlaceAll(els[id], origin)
  {
    if id in els then
      var e := els[id].(rotation := deg);
      PlaceAllIgnoresRotation(els[id], origin, deg);
      els[id := e.(handles := PlaceAll(e, origin))]
    else els
  }

  /** The board: the elements, the canvas's viewport origin, the next fresh
      id, `currentTextElement` and whether the text edit panel is shown. */
  class Board {
    var elements: map<ElemId, Element>
    var origin: Point
    var nextId: ElemId
    var currentText: Option<TextId>
    var panelShown: bool

    ghost predicate Valid()
      reads this
    {
      forall id :: id in elements ==> id < nextId
    }

    constructor(at: Point)
      ensures Valid()
      ensures elements == map[] && origin == at && nextId == 0 && currentText == None && !panelShown
    {
      elements := map[];
      origin := at;
      nextId := 0;
      currentText := None;
      panelShown := false;
    }

    /** updateAllHandles(wrapper); a wrapper that has left the page takes
        the writes without effect. */
    method UpdateAllHandles(id: ElemId)
      modifies this
      ensures origin == old(origin) && nextId == old(nextId)
      ensures currentText == old(currentText) && panelShown == old(panelShown)
      ensures elements == if id in old(elements)
                          then old(elements)[id := old(elements)[id].(handles := PlaceAll(old(elements)[id], origin))]
                          else old(elements)
    {
      if id in elements {
        elements := elements[id := elements[id].(handles := PlaceAll(elements[id], origin))];
      }
    }

    /** deactivateAllElements: the `forEach` over every wrapper. */
    method Deactivate()
      modifies this
      ensures elements == AllOff(old(elements))
      ensures origin == old(origin) && nextId == old(nextId)
      ensures currentText == old(currentText) && panelShown == old(panelShown)
    {
      ghost var start := elements;
      var todo := elements.Keys;
      while todo != {}
        invariant origin == old(origin) && nextId == old(nextId)
        invariant currentText == old(currentText) && panelShown == old(panelShown)
        invariant todo <= start.Keys && elements.Keys == start.Keys
        invariant forall id :: id in start ==> elements[id] == if id in todo then start[id] else Off(start[id])
        decreases todo
      {
        var id :| id in todo;
        elements := elements[id := Off(elements[id])];
        todo := todo - {id};
      }
    }

    /** activateElement: every element deactivated, then this one marked
        active with all its handles shown. */
    method Activate(id: ElemId)
      modifies this
      ensures origin == old(origin) && nextId == old(nextId)
      ensures currentText == old(currentText) && panelShown == old(panelShown)
      ensures elements == Activated(old(elements), id)
    {
      Deactivate();
      if id in elements {
        ShowAfterHide(old(elements)[id].handles);
        elements := elements[id := elements[id].(active := true, handles := ShowAll(elements[id].handles))];
      }
    }

    /** The move button's mousedown / touchstart; there is no activity check
        in this version. */
    method BeginMove(id: ElemId, ev: PointerEvent) returns (g: Option<MoveGrip>)
      ensures g.Some? <==> id in elements
      ensures g.Some? ==> g.value == MoveGrip(id, EventPosition(ev).Minus(Point(elements[id].left, elements[id].top)))
    {
      if id !in elements {
        return None;
      }
      g := Some(MoveGrip(id, EventPosition(ev).Minus(Point(elements[id].left, elements[id].top))));
    }

    /** moveElement: the layout corner follows the pointer, then the handles. */
    method MoveStep(g: MoveGrip, ev: PointerEvent)
      modifies this
      ensures origin == old(origin) && nextId == old(nextId)
      ensures currentText == old(currentText) && panelShown == old(panelShown)
      ensures g.id !in old(elements) ==> elements == old(elements)
      ensures g.id in old(elements) ==>
        var at := DragTo(g, EventPosition(ev));
        var e := old(elements)[g.id].(left := at.x, top := at.y);
        elements == old(elements)[g.id := e.(handles := PlaceAll(e, origin))]
    {
      if g.id !in elements {
        return;
      }
      var at := DragTo(g, EventPosition(ev));
      elements := elements[g.id := elements[g.id].(left := at.x, top := at.y)];
      UpdateAllHandles(g.id);
    }

    /** setupDrag on the wrapper: a press on a handle does nothing, a press
        on editable text only activates, a press elsewhere activates and
        starts a drag. */
    method PressWrapper(id: ElemId, at: PressTarget, ev: PointerEvent) returns (g: Option<MoveGrip>)
      modifies this
      ensures origin == old(origin) && nextId == old(nextId)
      ensures currentText == old(currentText) && panelShown == old(panelShown)
      ensures at == OnHandle ==> elements == old(elements) && g.None?
      ensures at == OnEditable ==> g.None?
      ensures at != OnHandle ==> elements == Activated(old(elements), id)
      ensures g.Some? <==> at == OnBody && id in old(elements)
      ensures g.Some? ==> g.value == MoveGrip(id, EventPosition(ev).Minus(Point(old(elements)[id].left, old(elements)[id].top)))
    {
      if at == OnHandle {
        return None;
      }
      if at == OnEditable {
        Activate(id);
        return None;
      }
      Activate(id);
      if id !in elements {
        return None;
      }
      g := Some(MoveGrip(id, EventPosition(ev).Minus(Point(elements[id].left, elements[id].top))));
    }

    /** The resize handle's mousedown / touchstart. */
    method BeginResize(id: ElemId, ev: PointerEvent) returns (g: Option<ResizeGrip>)
      ensures g.Some? <==> id in elements
      ensures g.Some? ==> g.value == ResizeGrip(id, EventPosition(ev), elements[id].width, elements[id].height)
    {
      if id !in elements {
        return None;
      }
      g := Some(ResizeGrip(id, EventPosition(ev), elements[id].width, elements[id].height));
    }

    /** resizeElement. */
    method ResizeStep(g: ResizeGrip, ev: PointerEvent)
      modifies this
      ensures origin == old(origin) && nextId == old(nextId)
      ensures currentText == old(currentText) && panelShown == old(panelShown)
      ensures g.id !in old(elements) ==> elements == old(elements)
      ensures g.id in old(elements) ==>
        var e := old(elements)[g.id];
        var size := Resized(g, EventPosition(ev), Point(e.width, e.height));
        var e' := e.(width := size.x, height := size.y);
        elements == old(elements)[g.id := e'.(handles := PlaceAll(e', origin))]
    {
      if g.id !in elements {
        return;
      }
      var e := elements[g.id];
      var size := Resized(g, EventPosition(ev), Point(e.width, e.height));
      elements := elements[g.id := e.(width := size.x, height := size.y)];
      UpdateAllHandles(g.id);
    }

    /** The rotate handle's mousedown / touchstart: the centre is fixed. */
    method BeginRotate(id: ElemId) returns (centre: Option<Point>)
      ensures centre.Some? <==> id in elements
      ensures centre.Some? ==>
        centre.value == Point(origin.x + elements[id].left + elements[id].width / 2.0,
                              origin.y + elements[id].top + elements[id].height / 2.0)
    {
      if id !in elements {
        return None;
      }
      var e := elements[id];
      centre := Some(Point(origin.x + e.left + e.width / 2.0, origin.y + e.top + e.height / 2.0));
    }

    /** rotateElement: the new angle is where the pointer is, whatever angle
        the element had before. */
    method RotateStep(id: ElemId, centre: Point, ev: PointerEvent, atan2: (real, real) -> real)
      modifies this
      ensures origin == old(origin) && nextId == old(nextId)
      ensures currentText == old(currentText) && panelShown == old(panelShown)
      ensures elements == Rotated(old(elements), origin, id, Angle(atan2, centre, EventPosition(ev)))
    {
      if id !in elements {
        return;
      }
      elements := elements[id := elements[id].(rotation := Angle(atan2, centre, EventPosition(ev)))];
      UpdateAllHandles(id);
    }

    /** The delete button: the handles and the wrapper leave the page. */
    method Delete(id: ElemId)
      requires Valid()
      modifies this
      ensures Valid()
      ensures elements == old(elements) - {id}
      ensures origin == old(origin) && nextId == old(nextId)
      ensures currentText == old(currentText) && panelShown == old(panelShown)
    {
      elements := elements - {id};
    }

    /** createElement: a new wrapper 400 pixels wide (150 high when
        auto-inserted), not active but with all four handles displayed. The
        delete button is placed before the wrapper joins the canvas, when its
        offsets are all zero; the other three are placed after. */
    method CreateElement(payload: Payload, auto: bool, at: Point, renderedHeight: real, size: Role -> Point)
      returns (id: ElemId)
      requires Valid()
      modifies this
      ensures Valid()
      ensures id == old(nextId) && id !in old(elements)
      ensures elements.Keys == old(elements).Keys + {id}
      ensures forall j :: j in old(elements) ==> elements[j] == old(elements)[j]
      ensures origin == old(origin) && currentText == old(currentText) && panelShown == old(panelShown)
      ensures var e := elements[id];
        && !e.active && e.rotation == 0.0 && e.left == at.x && e.top == at.y
        && e.width == 400.0 && e.height == (if auto then 150.0 else renderedHeight)
        && e.handles.Keys == AllRoles && (forall r :: r in e.handles ==> e.handles[r].shown)
        && e.handles[DeleteBtn].left == origin.x - 5.0 && e.handles[DeleteBtn].top == origin.y - 5.0
        && (forall r :: r in e.handles && r != DeleteBtn ==>
              e.handles[r].left == Spot(r, e, origin).x && e.handles[r].top == Spot(r, e, origin).y)
        && e.content == (if payload.Image? then Picture else Words(payload.text))
    {
      var e := Element(at.x, at.y, 400.0, if auto then 150.0 else renderedHeight, 0.0, false, map[],
                       if payload.Image? then Picture else Words(payload.text));
      var detached := Element(0.0, 0.0, 0.0, 0.0, 0.0, false, map[], e.content);
      var hs := map r | r in AllRoles ::
        Handle(Spot(r, if r == DeleteBtn then detached else e, origin).x,
               Spot(r, if r == DeleteBtn then detached else e, origin).y,
               true, None, size(r).x, size(r).y);
      id := nextId;
      elements := elements[id := e.(handles := hs)];
      nextId := nextId + 1;
    }

    /** A click on the element's text: the element is activated, becomes
        `currentTextElement` and the panel is shown. */
    method ClickText(id: ElemId)
      modifies this
      ensures origin == old(origin) && nextId == old(nextId)
      ensures id !in old(elements) || !old(elements)[id].content.Words? ==>
        elements == old(elements) && currentText == old(currentText) && panelShown == old(panelShown)
      ensures elements.Keys == old(elements).Keys
      ensures id in old(elements) && old(elements)[id].content.Words? ==>
        && elements == Activated(old(elements), id)
        && currentText == Some(old(elements)[id].content.text) && panelShown
    {
      if id !in elements || !elements[id].content.Words? {
        return;
      }
      var t := elements[id].content.text;
      Activate(id);
      currentText := Some(t);
      panelShown := true;
    }

    /** A click or touchend on the canvas background. */
    method ClickCanvas()
      modifies this
      ensures elements == AllOff(old(elements))
      ensures origin == old(origin) && nextId == old(nextId)
      ensures currentText == old(currentText) && panelShown == old(panelShown)
    {
      Deactivate();
    }
  }

  /** Rotation is absolute: two boards that differ only in this element's
      angle are equal after the same rotate step. */
  lemma RotationAbsolute(els: map<ElemId, Element>, origin: Point, id: ElemId, before: real, deg: real)
    requires id in els
    ensures Rotated(els[id := els[id].(rotation := before)], origin, id, deg) == Rotated(els, origin, id, deg)
  {
    PlaceAllIgnoresRotation(els[id], origin, before);
  }
}
