/** The multi-canvas transform engine of js/element.js: placed elements on
    several canvases, their four handles laid out around the turned box, the
    move / resize / rotate gestures, per-canvas selection and the one
    "active text element" slot. Layout reads the browser would answer
    (canvas and container origins, rendered sizes) are fields or parameters;
    Math.cos / Math.sin of the element's angle are the parameters c and s,
    and Math.atan2 is a function parameter. */
module Transform {
  import opened Common

  type CanvasId = nat

  /** One placed element (the `.element` wrapper): its style left/top and
      rendered size in pixels, `dataset.rotation` in degrees, the `active`
      class, its handles by role and its content. */
  datatype Element = Element(
    canvas: CanvasId,
    left: real, top: real, width: real, height: real,
    rotation: real,
    active: bool,
    handles: map<Role, Handle>,
    content: Content)

  /** A canvas: the wrappers it holds in document order, its viewport
      origin, the viewport origin of its enclosing `.canvas-container` if it
      has one, and whether its `textEditPanel-N` exists. */
  datatype Canvas = Canvas(members: seq<ElemId>, origin: Point, container: Option<Point>, hasPanel: bool)

  function Abs(x: real): (r: real)
    ensures r >= 0.0 && (r == x || r == -x)
  {
    if x < 0.0 then -x else x
  }

  // ---------------------------------------------------------------------
  // Handle layout (updateAllHandles / positionHandle)
  // ---------------------------------------------------------------------

  /** Centre of the element's box in the viewport. The transform turns the
      box about this point, so it is also the centre of the bounding
      rectangle that getBoundingClientRect reports. */
  function Centre(e: Element, origin: Point): Point
  {
    Point(origin.x + e.left + e.width / 2.0, origin.y + e.top + e.height / 2.0)
  }

  /** Where each handle's centre sits before rotation, relative to the
      element's centre: five pixels outside each corner. */
  function Anchor(r: Role, half: Point): (a: Point)
    ensures a.x == half.x + 5.0 || a.x == -(half.x + 5.0)
    ensures a.y == half.y + 5.0 || a.y == -(half.y + 5.0)
    // right of the centre: resize and rotate; below it: resize and move
    ensures r == ResizeHandle || r == RotateHandle ==> a.x == half.x + 5.0
    ensures r == DeleteBtn || r == MoveBtn ==> a.x == -(half.x + 5.0)
    ensures r == ResizeHandle || r == MoveBtn ==> a.y == half.y + 5.0
    ensures r == DeleteBtn || r == RotateHandle ==> a.y == -(half.y + 5.0)
  {
    match r
    case DeleteBtn => Point(-half.x - 5.0, -half.y - 5.0)
    case ResizeHandle => Point(half.x + 5.0, half.y + 5.0)
    case RotateHandle => Point(half.x + 5.0, -half.y - 5.0)
    case MoveBtn => Point(-half.x - 5.0, half.y + 5.0)
  }

  /** Half the size the layout reports for a handle (offsetWidth and
      offsetHeight over two): its own size while displayed, nothing while it
      is `display: none`. */
  function LaidHalf(h: Handle): Point
  {
    if h.shown then Point(h.width / 2.0, h.height / 2.0) else Point(0.0, 0.0)
  }

  /** positionHandle: the handle's new style. Its top-left in the container is
      the turned corner point (element centre plus the turned anchor) less
      the container origin and the half size read from the layout before
      the handle's display is set; it is then displayed exactly when the
      element is active; only the rotate handle is counter-turned. */
  function Place(r: Role, h: Handle, centre: Point, half: Point, container: Point,
                 c: real, s: real, rotation: real, active: bool): (p: Handle)
    ensures p.width == h.width && p.height == h.height
    ensures p.shown <==> active
    ensures r == RotateHandle ==> p.turn == Some(-rotation)
    ensures r != RotateHandle ==> p.turn == None
  {
    var at := centre.Plus(Turn(Anchor(r, half), c, s));
    Handle(at.x - container.x - LaidHalf(h).x, at.y - container.y - LaidHalf(h).y,
           active, if r == RotateHandle then Some(-rotation) else None, h.width, h.height)
  }

  /** The viewport centre of a handle placed in a container. */
  function HandleCentre(h: Handle, container: Point): Point
  {
    Point(container.x + h.left + h.width / 2.0, container.y + h.top + h.height / 2.0)
  }

  /** The viewport top-left of a handle placed in a container. */
  function HandleCorner(h: Handle, container: Point): Point
  {
    Point(container.x + h.left, container.y + h.top)
  }

  /** The point of the placed handle p that positionHandle puts on the turned
      corner: its centre when the handle h was displayed before the call,
      its top-left when h was hidden. */
  function Pinned(h: Handle, p: Handle, container: Point): Point
  {
    HandleCorner(p, container).Plus(LaidHalf(h))
  }

  /** The placed handle's pinned point is the element's centre moved by the
      anchor turned through the element's angle: a handle displayed before
      the call is centred there, a hidden one has its top-left corner there. */
  lemma PlaceCentre(r: Role, h: Handle, centre: Point, half: Point, container: Point,
                    c: real, s: real, rotation: real, active: bool)
    ensures var p := Place(r, h, centre, half, container, c, s, rotation, active);
      Pinned(h, p, container) == centre.Plus(Turn(Anchor(r, half), c, s))
    ensures var p := Place(r, h, centre, half, container, c, s, rotation, active);
      h.shown ==> HandleCentre(p, container) == centre.Plus(Turn(Anchor(r, half), c, s))
    ensures var p := Place(r, h, centre, half, container, c, s, rotation, active);
      !h.shown ==> HandleCorner(p, container) == centre.Plus(Turn(Anchor(r, half), c, s))
  {
  }

  /** A handle placed while its element is active is displayed, so placing
      it again, after any move, resize or turn, centres it on its corner. */
  lemma PlaceAgainCentres(r: Role, h: Handle, centre: Point, half: Point, container: Point, c: real, s: real, rotation: real,
                          centre': Point, half': Point, c': real, s': real, rotation': real, active': bool)
    ensures var p := Place(r, h, centre, half, container, c, s, rotation, true);
      HandleCentre(Place(r, p, centre', half', container, c', s', rotation', active'), container)
        == centre'.Plus(Turn(Anchor(r, half'), c', s'))
  {
    var p := Place(r, h, centre, half, container, c, s, rotation, true);
    PlaceCentre(r, p, centre', half', container, c', s', rotation', active');
  }

  /** Turning a placed handle's pinned point back about the centre by the
      element's angle gives the unturned anchor: the handle rides with its
      corner. */
  lemma PlaceUnturns(r: Role, h: Handle, centre: Point, half: Point, container: Point,
                     c: real, s: real, rotation: real, active: bool)
    requires c * c + s * s == 1.0
    ensures Turn(Pinned(h, Place(r, h, centre, half, container, c, s, rotation, active), container).Minus(centre), c, -s)
         == Anchor(r, half)
  {
    var a := Anchor(r, half);
    PlaceCentre(r, h, centre, half, container, c, s, rotation, active);
    assert Pinned(h, Place(r, h, centre, half, container, c, s, rotation, active), container).Minus(centre)
        == Turn(a, c, s);
    TurnBack(a, c, s);
  }

  /** Every handle's pinned point keeps the same distance from the element's
      centre at every angle: the corner distance widened by five pixels on
      each axis. */
  lemma PlaceDistance(r: Role, h: Handle, centre: Point, half: Point, container: Point,
                      c: real, s: real, rotation: real, active: bool)
    requires c * c + s * s == 1.0
    ensures var d := Pinned(h, Place(r, h, centre, half, container, c, s, rotation, active), container).Minus(centre);
      d.x * d.x + d.y * d.y == (half.x + 5.0) * (half.x + 5.0) + (half.y + 5.0) * (half.y + 5.0)
  {
    var a := Anchor(r, half);
    PlaceCentre(r, h, centre, half, container, c, s, rotation, active);
    TurnKeepsLength(a, c, s);
    assert a.x * a.x == (half.x + 5.0) * (half.x + 5.0);
    assert a.y * a.y == (half.y + 5.0) * (half.y + 5.0);
  }

  /** Delete and resize sit on opposite corners, as do rotate and move: the
      pinned points of each pair are symmetric about the element's centre at
      every angle. */
  lemma OppositeHandles(h: Handle, k: Handle, centre: Point, half: Point, container: Point,
                        c: real, s: real, rotation: real, active: bool)
    ensures var p := Pinned(h, Place(DeleteBtn, h, centre, half, container, c, s, rotation, active), container);
            var q := Pinned(k, Place(ResizeHandle, k, centre, half, container, c, s, rotation, active), container);
      p.x + q.x == 2.0 * centre.x && p.y + q.y == 2.0 * centre.y
    ensures var p := Pinned(h, Place(RotateHandle, h, centre, half, container, c, s, rotation, active), container);
            var q := Pinned(k, Place(MoveBtn, k, centre, half, container, c, s, rotation, active), container);
      p.x + q.x == 2.0 * centre.x && p.y + q.y == 2.0 * centre.y
  {
    PlaceCentre(DeleteBtn, h, centre, half, container, c, s, rotation, active);
    PlaceCentre(ResizeHandle, k, centre, half, container, c, s, rotation, active);
    PlaceCentre(RotateHandle, h, centre, half, container, c, s, rotation, active);
    PlaceCentre(MoveBtn, k, centre, half, container, c, s, rotation, active);
  }

  /** As written, a handle placed while hidden is not centred: an unturned
      100 x 100 element centred at (50, 50) in a container at the origin
      puts a hidden 20 x 20 delete button's left edge at -5, where centring
      would give -15; the next placement, once it is displayed, gives -15. */
  lemma HiddenPlacedByCorner()
    ensures var h := Handle(0.0, 0.0, false, None, 20.0, 20.0);
            var m := Point(50.0, 50.0);
            var o := Point(0.0, 0.0);
            var p := Place(DeleteBtn, h, m, m, o, 1.0, 0.0, 0.0, true);
      && p.left == -5.0 && p.top == -5.0
      && Place(DeleteBtn, p, m, m, o, 1.0, 0.0, 0.0, true).left == -15.0
  {
  }

  /** The handles of an element, every present one placed. */
  function PlaceAll(e: Element, cv: Canvas, c: real, s: real): (hs: map<Role, Handle>)
    requires cv.container.Some?
    ensures hs.Keys == e.handles.Keys
    ensures forall r :: r in hs ==> hs[r].shown == e.active
  {
    var half := Point(e.width / 2.0, e.height / 2.0);
    map r | r in e.handles :: Place(r, e.handles[r], Centre(e, cv.origin), half, cv.container.value, c, s, e.rotation, e.active)
  }

  /** updateAllHandles returns at once for a wrapper that is not in the page
      or whose canvas has no enclosing container. */
  predicate CanPlace(els: map<ElemId, Element>, cvs: map<CanvasId, Canvas>, id: ElemId)
  {
    id in els && els[id].canvas in cvs && cvs[els[id].canvas].container.Some?
  }

  /** The element replaced by e, which stays on its canvas, then
      updateAllHandles: the handles are placed, and so shown exactly when e
      is active, if the element can be placed; otherwise e is kept as it is. */
  function Redrawn(els: map<ElemId, Element>, cvs: map<CanvasId, Canvas>, id: ElemId, e: Element, c: real, s: real): (r: map<ElemId, Element>)
    requires id in els && e.canvas == els[id].canvas
    ensures r.Keys == els.Keys
    ensures forall j :: j in r && j != id ==> r[j] == els[j]
    ensures r[id].(handles := e.handles) == e
    ensures !CanPlace(els, cvs, id) ==> r[id] == e
    ensures CanPlace(els, cvs, id) ==>
      r[id].handles.Keys == e.handles.Keys && forall k :: k in r[id].handles ==> r[id].handles[k].shown == e.active
  {
    els[id := if CanPlace(els, cvs, id) then e.(handles := PlaceAll(e, cvs[e.canvas], c, s)) else e]
  }

  // ---------------------------------------------------------------------
  // Selection (deactivateAllElements / activateElement)
  // ---------------------------------------------------------------------

  /** One element deactivated: `active` removed, every handle hidden. */
  function Off(e: Element): (r: Element)
    ensures !r.active && r.handles.Keys == e.handles.Keys
    ensures forall k :: k in r.handles ==> !r.handles[k].shown
  {
    e.(active := false, handles := HideAll(e.handles))
  }

  /** The selector of deactivateAllElements: every element, or those of one canvas. */
  predicate InScope(e: Element, target: Option<CanvasId>)
  {
    target.None? || e.canvas == target.value
  }

  /** The elements after deactivateAllElements(target). */
  function Deactivated(els: map<ElemId, Element>, target: Option<CanvasId>): map<ElemId, Element>
  {
    map id | id in els :: if InScope(els[id], target) then Off(els[id]) else els[id]
  }

  /** Deactivation clears exactly its scope: everything in it ends inactive
      with hidden handles, everything outside is untouched, and no element
      changes canvas, content or geometry. */
  lemma DeactivatedScope(els: map<ElemId, Element>, target: Option<CanvasId>)
    ensures var d := Deactivated(els, target);
      && d.Keys == els.Keys
      && (forall id :: id in d && InScope(els[id], target) ==>
            (!d[id].active && forall k :: k in d[id].handles ==> !d[id].handles[k].shown))
      && (forall id :: id in d && !InScope(els[id], target) ==> (d[id] == els[id]))
      && (forall id :: id in d ==>
            (d[id].canvas == els[id].canvas && d[id].content == els[id].content
             && d[id].left == els[id].left && d[id].top == els[id].top && d[id].rotation == els[id].rotation))
  {
  }

  lemma DeactivatedIdempotent(els: map<ElemId, Element>, target: Option<CanvasId>)
    ensures Deactivated(Deactivated(els, target), target) == Deactivated(els, target)
  {
    var d := Deactivated(els, target);
    forall id | id in d
      ensures Deactivated(d, target)[id] == d[id]
    {
      if InScope(els[id], target) {
        HideAllIdempotent(els[id].handles);
      }
    }
  }

  /** The elements after activateElement on an inactive element: its canvas
      deactivated, then the element marked active and its handles placed. */
  function Activated(els: map<ElemId, Element>, cvs: map<CanvasId, Canvas>, id: ElemId, c: real, s: real): map<ElemId, Element>
    requires id in els
  {
    var d := Deactivated(els, Some(els[id].canvas));
    Redrawn(d, cvs, id, d[id].(active := true), c, s)
  }

  /** After activation the element is the only active one on its canvas,
      with every handle shown when it can be placed, and the elements of
      every other canvas are untouched. */
  lemma ActivatedAlone(els: map<ElemId, Element>, cvs: map<CanvasId, Canvas>, id: ElemId, c: real, s: real)
    requires id in els
    ensures var a := Activated(els, cvs, id, c, s);
      && a.Keys == els.Keys
      && a[id].active
      && (CanPlace(els, cvs, id) ==> forall r :: r in a[id].handles ==> a[id].handles[r].shown)
      && (forall j :: j in a && j != id && a[j].canvas == els[id].canvas ==> !a[j].active)
      && (forall j :: j in a && els[j].canvas != els[id].canvas ==> (a[j] == els[j]))
  {
    DeactivatedScope(els, Some(els[id].canvas));
  }

  /** Every handle of e, on a canvas with a container, has its top-left
      corner on its turned corner point (centre plus the turned anchor). */
  predicate CornersPinned(e: Element, cvs: map<CanvasId, Canvas>, c: real, s: real)
  {
    && e.canvas in cvs && cvs[e.canvas].container.Some?
    && forall r :: r in e.handles ==>
         HandleCorner(e.handles[r], cvs[e.canvas].container.value)
           == Centre(e, cvs[e.canvas].origin).Plus(Turn(Anchor(r, Point(e.width / 2.0, e.height / 2.0)), c, s))
  }

  /** Activation hides the element's handles (deactivateAllElements runs on
      its canvas first) and then places them, so each handle's top-left
      corner, not its centre, lands on its turned corner point; the next
      placement centres it (PlaceAgainCentres). */
  lemma ActivatedPlacesCorners(els: map<ElemId, Element>, cvs: map<CanvasId, Canvas>, id: ElemId, c: real, s: real)
    requires id in els && CanPlace(els, cvs, id)
    ensures CornersPinned(Activated(els, cvs, id, c, s)[id], cvs, c, s)
  {
    var d := Deactivated(els, Some(els[id].canvas));
    var on := Off(els[id]).(active := true);
    assert d[id] == Off(els[id]);
    assert CanPlace(d, cvs, id);
    var p := on.(handles := PlaceAll(on, cvs[on.canvas], c, s));
    assert Activated(els, cvs, id, c, s)[id] == p;
    HiddenPlaceAllCorners(on, cvs, c, s);
  }

  /** Placing an element's handles while every one of them is hidden puts
      each handle's top-left corner on its turned corner point. */
  lemma HiddenPlaceAllCorners(e: Element, cvs: map<CanvasId, Canvas>, c: real, s: real)
    requires e.canvas in cvs && cvs[e.canvas].container.Some?
    requires forall r :: r in e.handles ==> !e.handles[r].shown
    ensures CornersPinned(e.(handles := PlaceAll(e, cvs[e.canvas], c, s)), cvs, c, s)
  {
    var cv := cvs[e.canvas];
    var half := Point(e.width / 2.0, e.height / 2.0);
    forall r | r in e.handles
      ensures HandleCorner(PlaceAll(e, cv, c, s)[r], cv.container.value)
           == Centre(e, cv.origin).Plus(Turn(Anchor(r, half), c, s))
    {
      PlaceCentre(r, e.handles[r], Centre(e, cv.origin), half, cv.container.value, c, s, e.rotation, e.active);
    }
    var p := e.(handles := PlaceAll(e, cv, c, s));
    assert Centre(p, cv.origin) == Centre(e, cv.origin) && Point(p.width / 2.0, p.height / 2.0) == half;
  }

  // ---------------------------------------------------------------------
  // Gestures
  // ---------------------------------------------------------------------

  /** A move in progress: the element, the pointer's offset from the corner
      it was grabbed by, and the canvas origin read at the start. */
  datatype MoveGrip = MoveGrip(id: ElemId, offset: Point, origin: Point)

  /** The element's top-left corner in the viewport as laid out (before its
      transform): canvas origin plus style left/top. */
  function LayoutCorner(e: Element, origin: Point): Point
  {
    Point(origin.x + e.left, origin.y + e.top)
  }

  /** Top-left of the bounding rectangle of the element turned by the angle
      with cosine c and sine s: what getBoundingClientRect reports. */
  function BoxCorner(e: Element, origin: Point, c: real, s: real): Point
  {
    var m := Centre(e, origin);
    Point(m.x - (Abs(e.width * c) + Abs(e.height * s)) / 2.0,
          m.y - (Abs(e.width * s) + Abs(e.height * c)) / 2.0)
  }

  /** The drag offset as element.js measures it: from the bounding rectangle. */
  function GripOffsetAsWritten(e: Element, origin: Point, c: real, s: real, p: Point): Point
  {
    p.Minus(BoxCorner(e, origin, c, s))
  }

  /** The drag offset measured from the laid-out corner, which is what
      left/top are written against. */
  function GripOffset(e: Element, origin: Point, p: Point): Point
  {
    p.Minus(LayoutCorner(e, origin))
  }

  /** moveElement / moveWrapper: the new style left/top for pointer p. */
  function DragTo(g: MoveGrip, p: Point): Point
  {
    p.Minus(g.offset).Minus(g.origin)
  }

  /** The element follows the pointer: after grabbing at p0 the new corner is
      the old one moved by p - p0, so returning to p0 restores left/top. */
  lemma DragFollowsPointer(e: Element, origin: Point, p0: Point, p: Point)
    ensures var g := MoveGrip(0, GripOffset(e, origin, p0), origin);
      DragTo(g, p) == Point(e.left + (p.x - p0.x), e.top + (p.y - p0.y))
    ensures DragTo(MoveGrip(0, GripOffset(e, origin, p0), origin), p0) == Point(e.left, e.top)
  {
  }

  /** With no rotation the bounding rectangle is the laid-out box, so the two
      ways of measuring the offset agree on an unturned element. */
  lemma GripOffsetsAgreeUnturned(e: Element, origin: Point, p: Point)
    requires e.width >= 0.0 && e.height >= 0.0
    ensures GripOffsetAsWritten(e, origin, 1.0, 0.0, p) == GripOffset(e, origin, p)
  {
  }

  /** As written, grabbing a turned element makes it jump although the
      pointer has not moved: a 100 x 100 element at (0, 0), turned by the
      angle with cosine 3/5 and sine 4/5, lands at (-20, -20). */
  lemma GrabTurnedJumps()
    ensures var e := Element(0, 0.0, 0.0, 100.0, 100.0, 53.13, true, map[], Picture);
            var o := Point(0.0, 0.0);
            var p := Point(10.0, 10.0);
      DragTo(MoveGrip(0, GripOffsetAsWritten(e, o, 0.6, 0.8, p), o), p) == Point(-20.0, -20.0)
  {
  }

  /** A resize in progress: the start pointer, the start size and the cosine
      and sine of the element's angle. */
  datatype ResizeGrip = ResizeGrip(id: ElemId, start: Point, width: real, height: real, c: real, s: real)

  /** The pointer's movement turned back into the element's own axes:
      rotation by minus the element's angle. */
  function ElementDelta(g: ResizeGrip, p: Point): Point
  {
    Turn(p.Minus(g.start), g.c, -g.s)
  }

  /** resizeElement: the start size grown by the element-axis delta, each
      side floored at 30 pixels. */
  function Resized(g: ResizeGrip, p: Point): (size: Point)
    ensures size.x >= 30.0 && size.y >= 30.0
    // each side follows the pointer on its own, floored at 30 separately
    ensures g.width + ElementDelta(g, p).x >= 30.0 ==> size.x == g.width + ElementDelta(g, p).x
    ensures g.width + ElementDelta(g, p).x < 30.0 ==> size.x == 30.0
    ensures g.height + ElementDelta(g, p).y >= 30.0 ==> size.y == g.height + ElementDelta(g, p).y
    ensures g.height + ElementDelta(g, p).y < 30.0 ==> size.y == 30.0
  {
    var d := ElementDelta(g, p);
    var w := g.width + d.x;
    var h := g.height + d.y;
    Point(if w < 30.0 then 30.0 else w, if h < 30.0 then 30.0 else h)
  }

  /** Dragging the resize handle along the element's own turned axes grows
      the element by exactly the distance moved along each axis (above the
      floor). */
  lemma ResizeAlongAxes(g: ResizeGrip, along: Point)
    requires g.c * g.c + g.s * g.s == 1.0
    requires g.width + along.x >= 30.0 && g.height + along.y >= 30.0
    ensures Resized(g, g.start.Plus(Turn(along, g.c, g.s))) == Point(g.width + along.x, g.height + along.y)
  {
    var p := g.start.Plus(Turn(along, g.c, g.s));
    assert p.Minus(g.start) == Turn(along, g.c, g.s);
    TurnBack(along, g.c, g.s);
  }

  /** A resize that has not moved keeps a size that is already above the floor. */
  lemma ResizeAtStart(g: ResizeGrip)
    requires g.width >= 30.0 && g.height >= 30.0
    ensures Resized(g, g.start) == Point(g.width, g.height)
  {
  }

  /** At a quarter turn, moving the pointer right by dx shrinks the height by
      dx and leaves the width: the viewport x axis is the element's -y axis. */
  lemma ResizeQuarterTurn(g: ResizeGrip, dx: real)
    requires g.c == 0.0 && g.s == 1.0
    requires g.height - dx >= 30.0 && g.width >= 30.0
    ensures Resized(g, Point(g.start.x + dx, g.start.y)) == Point(g.width, g.height - dx)
  {
  }

  /** A rotation in progress: the centre and pointer angle read at the start
      and the angle the element had, in degrees. */
  datatype RotateGrip = RotateGrip(id: ElemId, centre: Point, startAngle: real, initial: real)

  function PointerAngle(atan2: (real, real) -> real, centre: Point, p: Point): real
  {
    atan2(p.y - centre.y, p.x - centre.x)
  }

  /** rotateElement: the start angle plus how far the pointer has swept about
      the centre since the gesture began, converted back to degrees. */
  function Rotated(g: RotateGrip, atan2: (real, real) -> real, p: Point): (deg: real)
    ensures deg == g.initial + RadToDeg(PointerAngle(atan2, g.centre, p) - g.startAngle)
  {
    RadToDeg(DegToRad(g.initial) + (PointerAngle(atan2, g.centre, p) - g.startAngle))
  }

  /** The rotation is relative: at the start pointer nothing turns, and two
      pointers' results differ by the sweep between them, whatever the angle
      the element started at. */
  lemma RotationRelative(g: RotateGrip, atan2: (real, real) -> real, p: Point, q: Point, p0: Point)
    requires g.startAngle == PointerAngle(atan2, g.centre, p0)
    ensures Rotated(g, atan2, p0) == g.initial
    ensures Rotated(g, atan2, q) - Rotated(g, atan2, p)
         == RadToDeg(PointerAngle(atan2, g.centre, q) - PointerAngle(atan2, g.centre, p))
  {
  }

  /** Every element sits in the member list of the canvas it names, every
      listed member is an element of that canvas, and ids are fresh below
      next. */
  predicate Consistent(els: map<ElemId, Element>, cvs: map<CanvasId, Canvas>, next: ElemId)
  {
    && (forall id :: id in els ==> id < next && els[id].canvas in cvs && id in cvs[els[id].canvas].members)
    && (forall k, i :: k in cvs && 0 <= i < |cvs[k].members| ==>
          cvs[k].members[i] in els && els[cvs[k].members[i]].canvas == k)
  }

  /** The canvases with one wrapper taken out of every member list. */
  function Unlisted(cvs: map<CanvasId, Canvas>, id: ElemId): (r: map<CanvasId, Canvas>)
    ensures r.Keys == cvs.Keys
  {
    map k | k in cvs :: cvs[k].(members := Without(cvs[k].members, id))
  }

  /** Removing a wrapper from the page and from its canvas keeps the page
      consistent. */
  lemma UnlistedConsistent(els: map<ElemId, Element>, cvs: map<CanvasId, Canvas>, next: ElemId, id: ElemId)
    requires Consistent(els, cvs, next)
    ensures Consistent(els - {id}, Unlisted(cvs, id), next)
  {
    var e, u := els - {id}, Unlisted(cvs, id);
    forall k, i | k in u && 0 <= i < |u[k].members|
      ensures u[k].members[i] in e && e[u[k].members[i]].canvas == k
    {
      var y := u[k].members[i];
      assert y in cvs[k].members && y != id;
      var j :| 0 <= j < |cvs[k].members| && cvs[k].members[j] == y;
    }
  }

  /** Adding a fresh wrapper to the end of its canvas's list keeps the page
      consistent. */
  lemma ListedConsistent(els: map<ElemId, Element>, cvs: map<CanvasId, Canvas>, next: ElemId, e: Element)
    requires Consistent(els, cvs, next) && e.canvas in cvs
    ensures Consistent(els[next := e], cvs[e.canvas := cvs[e.canvas].(members := cvs[e.canvas].members + [next])], next + 1)
  {
    var k := e.canvas;
    var els', cvs' := els[next := e], cvs[k := cvs[k].(members := cvs[k].members + [next])];
    assert next !in els;
    forall j, i | j in cvs' && 0 <= i < |cvs'[j].members|
      ensures cvs'[j].members[i] in els' && els'[cvs'[j].members[i]].canvas == j
    {
      if j == k && i == |cvs[k].members| {
      } else {
        assert cvs'[j].members[i] == cvs[j].members[i];
      }
    }
  }

  /** Redrawing an element does not depend on what it held before, only on
      its canvas. */
  lemma RedrawnOverwrites(els: map<ElemId, Element>, cvs: map<CanvasId, Canvas>, id: ElemId, e0: Element, e: Element, c: real, s: real)
    requires id in els && e0.canvas == els[id].canvas && e.canvas == els[id].canvas
    ensures Redrawn(els[id := e0], cvs, id, e, c, s) == Redrawn(els, cvs, id, e, c, s)
  {
    assert CanPlace(els[id := e0], cvs, id) == CanPlace(els, cvs, id);
  }

  /** Changes that keep every element on its canvas keep the page
      consistent. */
  lemma SameCanvasConsistent(els: map<ElemId, Element>, els': map<ElemId, Element>, cvs: map<CanvasId, Canvas>, next: ElemId)
    requires Consistent(els, cvs, next)
    requires els'.Keys == els.Keys && forall id :: id in els ==> els'[id].canvas == els[id].canvas
    ensures Consistent(els', cvs, next)
  {
  }

  /** Deactivation keeps every element on its canvas, so the page stays
      consistent. */
  lemma DeactivatedConsistent(els: map<ElemId, Element>, cvs: map<CanvasId, Canvas>, next: ElemId, target: Option<CanvasId>)
    requires Consistent(els, cvs, next)
    ensures Consistent(Deactivated(els, target), cvs, next)
  {
    DeactivatedScope(els, target);
    SameCanvasConsistent(els, Deactivated(els, target), cvs, next);
  }

  /** Remove every occurrence of x. */
  function Without(xs: seq<ElemId>, x: ElemId): (r: seq<ElemId>)
    ensures forall y :: y in r <==> y in xs && y != x
    ensures |r| <= |xs|
  {
    if xs == [] then []
    else if xs[0] == x then Without(xs[1..], x)
    else [xs[0]] + Without(xs[1..], x)
  }

  // ---------------------------------------------------------------------
  // The active text slot
  // ---------------------------------------------------------------------

  /** The panels' display states with panel p, when it is one of them, hidden. */
  function Hidden(shown: map<CanvasId, bool>, p: Option<CanvasId>): (r: map<CanvasId, bool>)
    ensures r.Keys == shown.Keys
    ensures p.Some? && p.value in r ==> !r[p.value]
    ensures forall k :: k in r && p != Some(k) ==> r[k] == shown[k]
  {
    if p.Some? && p.value in shown then shown[p.value := false] else shown
  }

  /** `_activeTextElement` and `_activeTextEditPanel`, with the display state
      of every canvas's text edit panel (true is `block`). */
  class TextSlot {
    var text: Option<TextId>
    var panel: Option<CanvasId>
    var panelShown: map<CanvasId, bool>

    constructor(panels: set<CanvasId>)
      ensures text == None && panel == None
      ensures panelShown == map k | k in panels :: false
    {
      text := None;
      panel := None;
      panelShown := map k | k in panels :: false;
    }

    /** setActiveTextElement: both references are stored first; only when
        both are present is the panel shown. */
    method Set(t: Option<TextId>, p: Option<CanvasId>)
      modifies this
      ensures text == t && panel == p
      ensures panelShown == if t.Some? && p.Some? && p.value in old(panelShown)
                            then old(panelShown)[p.value := true] else old(panelShown)
    {
      text := t;
      panel := p;
      if t.None? || p.None? {
        return;
      }
      if p.value in panelShown {
        panelShown := panelShown[p.value := true];
      }
    }

    /** clearActiveTextElement: hides the stored panel, then nulls both. */
    method Clear()
      modifies this
      ensures text == None && panel == None
      ensures panelShown == if old(panel).Some? && old(panel).value in old(panelShown)
                            then old(panelShown)[old(panel).value := false] else old(panelShown)
    {
      if panel.Some? && panel.value in panelShown {
        panelShown := panelShown[panel.value := false];
      }
      text := None;
      panel := None;
    }
  }

  // ---------------------------------------------------------------------
  // The page
  // ---------------------------------------------------------------------

  class Stage {
    var elements: map<ElemId, Element>
    var canvases: map<CanvasId, Canvas>
    var nextId: ElemId
    const slot: TextSlot

    /** Every element sits in the member list of the canvas it names, every
        listed member is an element of that canvas, and ids are fresh below
        nextId. */
    ghost predicate Valid()
      reads this
    {
      Consistent(elements, canvases, nextId)
    }

    constructor(cvs: map<CanvasId, Canvas>)
      requires forall k :: k in cvs ==> cvs[k].members == []
      ensures Valid() && fresh(slot)
      ensures elements == map[] && canvases == cvs && nextId == 0
      ensures slot.text == None && slot.panel == None
      ensures slot.panelShown == map k | k in cvs && cvs[k].hasPanel :: false
    {
      elements := map[];
      canvases := cvs;
      nextId := 0;
      slot := new TextSlot(set k | k in cvs && cvs[k].hasPanel);
    }

    /** updateAllHandles(wrapper). */
    method UpdateAllHandles(id: ElemId, c: real, s: real)
      requires Valid()
      modifies this
      ensures Valid()
      ensures canvases == old(canvases) && nextId == old(nextId)
      ensures id in old(elements) ==> elements == Redrawn(old(elements), canvases, id, old(elements)[id], c, s)
      ensures id !in old(elements) ==> elements == old(elements)
    {
      if !CanPlace(elements, canvases, id) {
        return;
      }
      var e := elements[id];
      elements := elements[id := e.(handles := PlaceAll(e, canvases[e.canvas], c, s))];
      SameCanvasConsistent(old(elements), elements, canvases, nextId);
    }

    /** The `forEach` of deactivateAllElements(target) over the selected
        wrappers. */
    method SwitchOff(target: Option<CanvasId>)
      modifies this
      ensures elements == Deactivated(old(elements), target)
      ensures canvases == old(canvases) && nextId == old(nextId)
    {
      ghost var start := elements;
      var todo := set id | id in elements && InScope(elements[id], target);
      while todo != {}
        invariant canvases == old(canvases) && nextId == old(nextId)
        invariant todo <= start.Keys && elements.Keys == start.Keys
        invariant forall id :: id in todo ==> InScope(start[id], target)
        invariant forall id :: id in start ==>
          elements[id] == if InScope(start[id], target) && id !in todo then Off(start[id]) else start[id]
        decreases todo
      {
        var id :| id in todo;
        elements := elements[id := Off(elements[id])];
        todo := todo - {id};
      }
      assert forall id :: id in start ==> elements[id] == Deactivated(start, target)[id];
    }

    /** deactivateAllElements(target): the selected wrappers switched off,
        then the target canvas's text panel hidden. */
    method Deactivate(target: Option<CanvasId>)
      requires Valid()
      modifies this, slot
      ensures Valid()
      ensures elements == Deactivated(old(elements), target)
      ensures canvases == old(canvases) && nextId == old(nextId)
      ensures slot.text == old(slot.text) && slot.panel == old(slot.panel)
      ensures slot.panelShown == Hidden(old(slot.panelShown), target)
    {
      DeactivatedConsistent(elements, canvases, nextId, target);
      SwitchOff(target);
      if target.Some? && target.value in slot.panelShown {
        slot.panelShown := slot.panelShown[target.value := false];
      }
    }

    /** activateElement: nothing for a missing or already active element;
        otherwise its own canvas is deactivated, it becomes active and its
        handles are placed (and so shown). */
    method Activate(id: ElemId, c: real, s: real)
      requires Valid()
      modifies this, slot
      ensures Valid()
      ensures canvases == old(canvases) && nextId == old(nextId)
      ensures slot.text == old(slot.text) && slot.panel == old(slot.panel)
      ensures id !in old(elements) || old(elements)[id].active ==>
        elements == old(elements) && slot.panelShown == old(slot.panelShown)
      ensures id in old(elements) && !old(elements)[id].active ==>
        && elements == Activated(old(elements), canvases, id, c, s)
        && slot.panelShown == Hidden(old(slot.panelShown), Some(old(elements)[id].canvas))
    {
      if id !in elements || elements[id].active {
        return;
      }
      var k := elements[id].canvas;
      ghost var before := elements;
      DeactivatedScope(before, Some(k));
      Deactivate(Some(k));
      ghost var d := elements;
      var e := elements[id].(active := true);
      elements := elements[id := e];
      SameCanvasConsistent(before, elements, canvases, nextId);
      UpdateAllHandles(id, c, s);
      RedrawnOverwrites(d, canvases, id, e, e, c, s);
    }

    /** The move button's mousedown / touchstart: only an active element can
        be grabbed; the grip records the pointer's offset from the element's
        corner and the canvas origin. Nothing changes yet. */
    method BeginMove(id: ElemId, ev: PointerEvent) returns (g: Option<MoveGrip>)
      requires Valid()
      ensures g.Some? <==> id in elements && elements[id].active
      ensures g.Some? ==>
        var o := canvases[elements[id].canvas].origin;
        g.value == MoveGrip(id, GripOffset(elements[id], o, EventPosition(ev)), o)
    {
      if id !in elements || !elements[id].active {
        return None;
      }
      var o := canvases[elements[id].canvas].origin;
      g := Some(MoveGrip(id, GripOffset(elements[id], o, EventPosition(ev)), o));
    }

    /** moveElement: the element's left/top follow the pointer; a wrapper
        that has been removed takes the writes without effect. */
    method MoveStep(g: MoveGrip, ev: PointerEvent, c: real, s: real)
      requires Valid()
      modifies this
      ensures Valid()
      ensures canvases == old(canvases) && nextId == old(nextId)
      ensures g.id !in old(elements) ==> elements == old(elements)
      ensures g.id in old(elements) ==>
        var at := DragTo(g, EventPosition(ev));
        elements == Redrawn(old(elements), canvases, g.id, old(elements)[g.id].(left := at.x, top := at.y), c, s)
    {
      if g.id !in elements {
        return;
      }
      var at := DragTo(g, EventPosition(ev));
      elements := elements[g.id := elements[g.id].(left := at.x, top := at.y)];
      SameCanvasConsistent(old(elements), elements, canvases, nextId);
      UpdateAllHandles(g.id, c, s);
    }

    /** mousedown / touchstart on the wrapper. A press on a handle or on
        editable text only activates an inactive element and starts nothing;
        on an active one it is left to the handle or the text. A press on the
        wrapper itself activates the element and starts a drag. */
    method PressWrapper(id: ElemId, at: PressTarget, ev: PointerEvent, c: real, s: real) returns (g: Option<MoveGrip>)
      requires Valid()
      modifies this, slot
      ensures Valid()
      ensures canvases == old(canvases) && nextId == old(nextId)
      ensures slot.text == old(slot.text) && slot.panel == old(slot.panel)
      ensures at != OnBody ==> g.None?
      ensures id !in old(elements) || old(elements)[id].active ==>
        elements == old(elements) && slot.panelShown == old(slot.panelShown)
      ensures id in old(elements) && !old(elements)[id].active ==>
        && elements == Activated(old(elements), canvases, id, c, s)
        && slot.panelShown == Hidden(old(slot.panelShown), Some(old(elements)[id].canvas))
      ensures id in old(elements) ==> id in elements && elements[id].active
      ensures g.Some? <==> at == OnBody && id in old(elements)
      ensures g.Some? ==>
        var o := canvases[old(elements)[id].canvas].origin;
        g.value == MoveGrip(id, GripOffset(old(elements)[id], o, EventPosition(ev)), o)
    {
      if id !in elements {
        return None;
      }
      if at != OnBody {
        if !elements[id].active {
          Activate(id, c, s);
        }
        return None;
      }
      Activate(id, c, s);
      var o := canvases[elements[id].canvas].origin;
      g := Some(MoveGrip(id, GripOffset(elements[id], o, EventPosition(ev)), o));
    }

    /** moveWrapper: stops (false) once the element is no longer active,
        otherwise moves it like the move button does. */
    method WrapperStep(g: MoveGrip, ev: PointerEvent, c: real, s: real) returns (going: bool)
      requires Valid()
      modifies this
      ensures Valid()
      ensures canvases == old(canvases) && nextId == old(nextId)
      ensures !going <==> g.id in old(elements) && !old(elements)[g.id].active
      ensures !going || g.id !in old(elements) ==> elements == old(elements)
      ensures going && g.id in old(elements) ==>
        var at := DragTo(g, EventPosition(ev));
        elements == Redrawn(old(elements), canvases, g.id, old(elements)[g.id].(left := at.x, top := at.y), c, s)
    {
      if g.id in elements && !elements[g.id].active {
        return false;
      }
      MoveStep(g, ev, c, s);
      going := true;
    }

    /** The resize handle's mousedown / touchstart. */
    method BeginResize(id: ElemId, ev: PointerEvent, c: real, s: real) returns (g: Option<ResizeGrip>)
      ensures g.Some? <==> id in elements && elements[id].active
      ensures g.Some? ==> g.value == ResizeGrip(id, EventPosition(ev), elements[id].width, elements[id].height, c, s)
    {
      if id !in elements || !elements[id].active {
        return None;
      }
      g := Some(ResizeGrip(id, EventPosition(ev), elements[id].width, elements[id].height, c, s));
    }

    /** resizeElement: writes the floored size, then places the handles. */
    method ResizeStep(g: ResizeGrip, ev: PointerEvent, c: real, s: real)
      requires Valid()
      modifies this
      ensures Valid()
      ensures canvases == old(canvases) && nextId == old(nextId)
      ensures g.id !in old(elements) ==> elements == old(elements)
      ensures g.id in old(elements) ==>
        var size := Resized(g, EventPosition(ev));
        && elements == Redrawn(old(elements), canvases, g.id, old(elements)[g.id].(width := size.x, height := size.y), c, s)
        && elements[g.id].width >= 30.0 && elements[g.id].height >= 30.0
    {
      if g.id !in elements {
        return;
      }
      var size := Resized(g, EventPosition(ev));
      elements := elements[g.id := elements[g.id].(width := size.x, height := size.y)];
      SameCanvasConsistent(old(elements), elements, canvases, nextId);
      UpdateAllHandles(g.id, c, s);
    }

    /** The rotate handle's mousedown / touchstart: the centre and the
        pointer's angle about it are fixed for the whole gesture. */
    method BeginRotate(id: ElemId, ev: PointerEvent, atan2: (real, real) -> real) returns (g: Option<RotateGrip>)
      requires Valid()
      ensures g.Some? <==> id in elements && elements[id].active
      ensures g.Some? ==>
        var m := Centre(elements[id], canvases[elements[id].canvas].origin);
        g.value == RotateGrip(id, m, PointerAngle(atan2, m, EventPosition(ev)), elements[id].rotation)
    {
      if id !in elements || !elements[id].active {
        return None;
      }
      var m := Centre(elements[id], canvases[elements[id].canvas].origin);
      g := Some(RotateGrip(id, m, PointerAngle(atan2, m, EventPosition(ev)), elements[id].rotation));
    }

    /** rotateElement: writes the new angle, then places the handles with the
        cosine and sine of that angle. */
    method RotateStep(g: RotateGrip, ev: PointerEvent, atan2: (real, real) -> real, c: real, s: real)
      requires Valid()
      modifies this
      ensures Valid()
      ensures canvases == old(canvases) && nextId == old(nextId)
      ensures g.id !in old(elements) ==> elements == old(elements)
      ensures g.id in old(elements) ==>
        elements == Redrawn(old(elements), canvases, g.id, old(elements)[g.id].(rotation := Rotated(g, atan2, EventPosition(ev))), c, s)
    {
      if g.id !in elements {
        return;
      }
      elements := elements[g.id := elements[g.id].(rotation := Rotated(g, atan2, EventPosition(ev)))];
      SameCanvasConsistent(old(elements), elements, canvases, nextId);
      UpdateAllHandles(g.id, c, s);
    }

    /** The delete button: the handles and the wrapper leave the page, and the
        active text slot is cleared only when it holds this element's text. */
    method Delete(id: ElemId)
      requires Valid()
      modifies this, slot
      ensures Valid()
      ensures elements == old(elements) - {id} && nextId == old(nextId)
      ensures canvases == Unlisted(old(canvases), id)
      ensures var holds := id in old(elements) && old(slot.text).Some? && old(elements)[id].content == Words(old(slot.text).value);
        && (holds ==> slot.text == None && slot.panel == None
                      && slot.panelShown == Hidden(old(slot.panelShown), old(slot.panel)))
        && (!holds ==> slot.text == old(slot.text) && slot.panel == old(slot.panel) && slot.panelShown == old(slot.panelShown))
    {
      var holds := id in elements && slot.text.Some? && elements[id].content == Words(slot.text.value);
      UnlistedConsistent(elements, canvases, nextId, id);
      elements := elements - {id};
      canvases := Unlisted(canvases, id);
      if holds {
        slot.Clear();
      }
    }

    /** createElement: nothing without a target canvas or when the canvas has
        no enclosing container; otherwise a new inactive wrapper, 400 pixels
        wide (150 high when auto-inserted), unturned, with its four handles
        hidden, appended to that canvas. The rendered height of other
        content, the initial position and the handles' sizes are layout
        inputs. */
    method CreateElement(target: Option<CanvasId>, payload: Payload, auto: bool, at: Point,
                         renderedHeight: real, size: Role -> Point) returns (r: Option<ElemId>)
      requires Valid()
      modifies this
      ensures Valid()
      ensures r.None? <==> target.None? || target.value !in old(canvases) || old(canvases)[target.value].container.None?
      ensures r.None? ==> elements == old(elements) && canvases == old(canvases) && nextId == old(nextId)
      ensures r.Some? ==>
        && r.value !in old(elements) && elements.Keys == old(elements).Keys + {r.value}
        && (forall j :: j in old(elements) ==> elements[j] == old(elements)[j])
        && var e := elements[r.value];
           && e.canvas == target.value && !e.active && e.rotation == 0.0
           && e.width == 400.0 && e.height == (if auto then 150.0 else renderedHeight)
           && e.handles.Keys == AllRoles && (forall k :: k in e.handles ==> !e.handles[k].shown)
           && e.content == (if payload.Image? then Picture else Words(payload.text))
           && canvases == old(canvases)[target.value := old(canvases)[target.value].(members := old(canvases)[target.value].members + [r.value])]
    {
      if target.None? || target.value !in canvases || canvases[target.value].container.None? {
        return None;
      }
      var k := target.value;
      var id := nextId;
      var hs := map q | q in AllRoles :: Handle(0.0, 0.0, false, None, size(q).x, size(q).y);
      var e := Element(k, at.x, at.y, 400.0, if auto then 150.0 else renderedHeight, 0.0, false, hs,
                       if payload.Image? then Picture else Words(payload.text));
      ListedConsistent(elements, canvases, nextId, e);
      elements := elements[id := e];
      canvases := canvases[k := canvases[k].(members := canvases[k].members + [id])];
      nextId := nextId + 1;
      r := Some(id);
    }

    /** A click on the element's text: the wrapper is activated and the text
        becomes the active one, with its canvas's panel if that exists. */
    method ClickText(id: ElemId, c: real, s: real)
      requires Valid()
      modifies this, slot
      ensures Valid()
      ensures canvases == old(canvases) && nextId == old(nextId)
      ensures id !in old(elements) || !old(elements)[id].content.Words? ==>
        elements == old(elements) && slot.text == old(slot.text) && slot.panel == old(slot.panel)
      ensures id !in old(elements) || !old(elements)[id].content.Words? ==> slot.panelShown == old(slot.panelShown)
      ensures id in old(elements) && old(elements)[id].content.Words? ==>
        var k := old(elements)[id].canvas;
        var shown := if old(elements)[id].active then old(slot.panelShown) else Hidden(old(slot.panelShown), Some(k));
        && (old(elements)[id].active ==> elements == old(elements))
        && (!old(elements)[id].active ==> elements == Activated(old(elements), canvases, id, c, s))
        && id in elements && elements[id].active
        && slot.text == Some(old(elements)[id].content.text)
        && slot.panel == (if canvases[k].hasPanel then Some(k) else None)
        && slot.panelShown == if canvases[k].hasPanel && k in shown then shown[k := true] else shown
    {
      if id !in elements || !elements[id].content.Words? {
        return;
      }
      var t := elements[id].content.text;
      var k := elements[id].canvas;
      Activate(id, c, s);
      slot.Set(Some(t), if canvases[k].hasPanel then Some(k) else None);
    }

    /** A click or touchend on a canvas's own background: that canvas is
        deactivated and the active text slot cleared. */
    method ClickCanvas(k: CanvasId)
      requires Valid()
      modifies this, slot
      ensures Valid()
      ensures canvases == old(canvases) && nextId == old(nextId)
      ensures elements == Deactivated(old(elements), Some(k))
      ensures slot.text == None && slot.panel == None
      ensures slot.panelShown == Hidden(Hidden(old(slot.panelShown), Some(k)), old(slot.panel))
      ensures k in slot.panelShown ==> !slot.panelShown[k]
    {
      Deactivate(Some(k));
      slot.Clear();
    }
  }
}
