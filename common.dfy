/** Shared vocabulary of the transform engine: optional values, viewport points,
    pointer events, the four handle roles and a handle's style state. */
module Common {

  datatype Option<T> = None | Some(value: T)

  /** A point or a vector in CSS pixels. */
  datatype Point = Point(x: real, y: real)
  {
    function Plus(o: Point): Point { Point(x + o.x, y + o.y) }
    function Minus(o: Point): Point { Point(x - o.x, y - o.y) }
  }

  /** What the handlers read from a mouse or touch event: the event's own
      clientX/clientY, and the `touches` / `changedTouches` lists, which are
      absent (None) on a mouse event. */
  datatype PointerEvent = PointerEvent(
    client: Point,
    touches: Option<seq<Point>>,
    changedTouches: Option<seq<Point>>)

  predicate HasPoints(l: Option<seq<Point>>) { l.Some? && |l.value| > 0 }

  /** getEventPosition: the first active touch, else the first ended touch,
      else the event's own coordinates. */
  function EventPosition(e: PointerEvent): (p: Point)
    ensures p == e.client || (HasPoints(e.touches) && p == e.touches.value[0])
                          || (HasPoints(e.changedTouches) && p == e.changedTouches.value[0])
  {
    if HasPoints(e.touches) then e.touches.value[0]
    else if HasPoints(e.changedTouches) then e.changedTouches.value[0]
    else e.client
  }

  /** A mouse event (no touch lists at all). */
  function MouseAt(p: Point): PointerEvent { PointerEvent(p, None, None) }

  /** Which input the position comes from, in the source's order of preference. */
  lemma EventPositionPreference(e: PointerEvent)
    ensures HasPoints(e.touches) ==> EventPosition(e) == e.touches.value[0]
    ensures !HasPoints(e.touches) && HasPoints(e.changedTouches) ==> EventPosition(e) == e.changedTouches.value[0]
    ensures !HasPoints(e.touches) && !HasPoints(e.changedTouches) ==> EventPosition(e) == e.client
  {
  }

  /** A mouse event at p and a touch start whose first touch is at p give the
      same position, whatever the touch event's own clientX/clientY hold. */
  lemma MouseAndTouchAgree(p: Point, own: Point, rest: seq<Point>, ended: Option<seq<Point>>)
    ensures EventPosition(MouseAt(p)) == EventPosition(PointerEvent(own, Some([p] + rest), ended))
  {
  }

  /** Standard 2D rotation of v by the angle whose cosine is c and sine is s. */
  function Turn(v: Point, c: real, s: real): Point
  {
    Point(v.x * c - v.y * s, v.x * s + v.y * c)
  }

  /** Turning by -θ (cosine c, sine -s) undoes turning by θ. */
  lemma TurnBack(v: Point, c: real, s: real)
    requires c * c + s * s == 1.0
    ensures Turn(Turn(v, c, s), c, -s) == v
    ensures Turn(Turn(v, c, -s), c, s) == v
  {
    var w := Turn(v, c, s);
    calc {
      w.x * c - w.y * (-s);
      (v.x * c - v.y * s) * c + (v.x * s + v.y * c) * s;
      v.x * (c * c + s * s);
    }
    calc {
      w.x * (-s) + w.y * c;
      -(v.x * c - v.y * s) * s + (v.x * s + v.y * c) * c;
      v.y * (c * c + s * s);
    }
    var u := Turn(v, c, -s);
    calc {
      u.x * c - u.y * s;
      (v.x * c + v.y * s) * c - (-v.x * s + v.y * c) * s;
      v.x * (c * c + s * s);
    }
    calc {
      u.x * s + u.y * c;
      (v.x * c + v.y * s) * s + (-v.x * s + v.y * c) * c;
      v.y * (c * c + s * s);
    }
  }

  /** Rotation keeps lengths. */
  lemma TurnKeepsLength(v: Point, c: real, s: real)
    requires c * c + s * s == 1.0
    ensures var w := Turn(v, c, s); w.x * w.x + w.y * w.y == v.x * v.x + v.y * v.y
  {
    var w := Turn(v, c, s);
    calc {
      w.x * w.x + w.y * w.y;
      (v.x * c - v.y * s) * (v.x * c - v.y * s) + (v.x * s + v.y * c) * (v.x * s + v.y * c);
      v.x * v.x * (c * c + s * s) + v.y * v.y * (c * c + s * s);
    }
  }

  /** Math.PI, as the real number the double denotes. */
  const Pi: real := 3.141592653589793

  function DegToRad(d: real): real { d * (Pi / 180.0) }
  function RadToDeg(r: real): real { r * (180.0 / Pi) }

  type ElemId = nat
  type TextId = nat

  /** What a wrapper holds: a picture, or an editable text element. */
  datatype Content = Picture | Words(text: TextId)

  /** The content handed to createElement: an image, an element that is
      already editable text, or plain text that gets a new paragraph. */
  datatype Payload = Image | EditableText(text: TextId) | PlainText(text: TextId)

  /** Where a press on a wrapper landed. */
  datatype PressTarget = OnHandle | OnEditable | OnBody

  /** The four controls every placed element owns. */
  datatype Role = DeleteBtn | ResizeHandle | RotateHandle | MoveBtn

  const AllRoles: set<Role> := {DeleteBtn, ResizeHandle, RotateHandle, MoveBtn}

  /** A handle's style state: its top-left in its container, whether it is
      displayed (`block`) or hidden (`none`), its own transform (None is the
      empty transform, Some(d) is `rotate(d deg)`), and its rendered size. */
  datatype Handle = Handle(left: real, top: real, shown: bool, turn: Option<real>, width: real, height: real)

  /** The same handles with display set to `none`. */
  function HideAll(hs: map<Role, Handle>): (r: map<Role, Handle>)
    ensures r.Keys == hs.Keys
    ensures forall k :: k in r ==> !r[k].shown && r[k] == hs[k].(shown := false)
  {
    map k | k in hs :: hs[k].(shown := false)
  }

  /** The same handles with display set to `block`. */
  function ShowAll(hs: map<Role, Handle>): (r: map<Role, Handle>)
    ensures r.Keys == hs.Keys
    ensures forall k :: k in r ==> r[k].shown && r[k] == hs[k].(shown := true)
  {
    map k | k in hs :: hs[k].(shown := true)
  }

  lemma HideAllIdempotent(hs: map<Role, Handle>)
    ensures HideAll(HideAll(hs)) == HideAll(hs)
  {
  }

  lemma ShowAllIdempotent(hs: map<Role, Handle>)
    ensures ShowAll(ShowAll(hs)) == ShowAll(hs)
  {
  }

  /** Showing hidden handles gives the same handles as showing them directly. */
  lemma ShowAfterHide(hs: map<Role, Handle>)
    ensures ShowAll(HideAll(hs)) == ShowAll(hs)
  {
  }
}
