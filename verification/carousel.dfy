/**
 The drag-to-scroll strip of project cards.

 The strip keeps three pieces of state: its horizontal offset `x`, whether a
 drag is in progress, and `startX`, the mouse position relative to the
 strip when the drag began.  The offset is never right of 0 and never left of
 `-maxScroll`, where `maxScroll` is how much wider the content is than the
 visible box.  The box's widths are read from the page at every move; here
 they are an input of the move.  The spring that animates `x` is not
 modelled: `x` is the target the spring is set to.
 */
module Carousel {

  import opened Common

  datatype Drag = Drag(x: int, isDragging: bool, startX: int)

  /** The strip at rest before any mouse event. */
  const Initial: Drag := Drag(0, false, 0)

  /** The box the strip scrolls in: content width and visible width. */
  datatype Layout = Layout(scrollWidth: int, clientWidth: int)

  /**
   How far left the strip may move.  The range `[-maxScroll, 0]` has room for
   the fully scrolled position exactly when the content is at least as wide
   as the box.
   */
  function MaxScroll(layout: Layout): (m: int)
    ensures InRange(-m, m) <==> layout.scrollWidth >= layout.clientWidth
  {
    layout.scrollWidth - layout.clientWidth
  }

  /** The mouse events the strip listens to. */
  datatype Event = Down(pageX: int) | Move(pageX: int) | Up | Leave

  function Abs(a: int): nat { if a < 0 then -a else a }

  /** The offset lies in the scrollable range `[-maxScroll, 0]`. */
  predicate InRange(x: int, maxScroll: int)
  {
    -maxScroll <= x <= 0
  }

  /**
   `Math.max(Math.min(0, v), -maxScroll)`: the offset the strip is moved to
   when the mouse asks for `v`.
   */
  function Clamp(v: int, maxScroll: int): (r: int)
    ensures maxScroll >= 0 ==> InRange(r, maxScroll)
    ensures InRange(v, maxScroll) ==> r == v
  {
    Max(Min(0, v), -maxScroll)
  }

  /**
   The clamped offset is the point of the scrollable range nearest to the
   requested one, so clamping moves the strip no further than it must.
   */
  lemma ClampNearest(v: int, maxScroll: int, y: int)
    requires maxScroll >= 0
    requires InRange(y, maxScroll)
    ensures Abs(Clamp(v, maxScroll) - v) <= Abs(y - v)
  {
  }

  /** Clamping an offset that was already clamped changes nothing. */
  lemma ClampIdempotent(v: int, maxScroll: int)
    requires maxScroll >= 0
    ensures Clamp(Clamp(v, maxScroll), maxScroll) == Clamp(v, maxScroll)
  {
  }

  /** `handleMouseDown`: start a drag, remembering where the mouse grabbed the strip. */
  function MouseDown(s: Drag, pageX: int): (r: Drag)
    ensures r.isDragging
    ensures r.x == s.x
    ensures r.startX + r.x == pageX
  {
    s.(isDragging := true, startX := pageX - s.x)
  }

  /**
   `handleMouseMove`: while dragging, the strip follows the mouse, kept
   inside the scrollable range; otherwise the move is ignored.
   */
  function MouseMove(s: Drag, pageX: int, layout: Layout): (r: Drag)
    ensures !s.isDragging ==> r == s
    ensures r.isDragging == s.isDragging && r.startX == s.startX
    ensures s.isDragging && MaxScroll(layout) >= 0 ==> InRange(r.x, MaxScroll(layout))
    ensures s.isDragging && InRange(pageX - s.startX, MaxScroll(layout)) ==> r.x == pageX - s.startX
  {
    if !s.isDragging then
      s
    else
      s.(x := Clamp(pageX - s.startX, MaxScroll(layout)))
  }

  /** `handleMouseUp`, also bound to the mouse leaving the strip: end the drag. */
  function MouseUp(s: Drag): (r: Drag)
    ensures !r.isDragging
    ensures r.x == s.x && r.startX == s.startX
  {
    s.(isDragging := false)
  }

  /**
   One mouse event, bound as on the strip: a press starts a drag, a release or
   the mouse leaving ends it, and only a move can shift the strip.
   */
  function Step(s: Drag, e: Event, layout: Layout): (r: Drag)
    ensures e.Down? ==> r.isDragging && r.startX + r.x == e.pageX
    ensures e.Up? || e.Leave? ==> !r.isDragging
    ensures e.Move? ==> r.isDragging == s.isDragging
    ensures !e.Move? ==> r.x == s.x
  {
    match e
    case Down(p) => MouseDown(s, p)
    case Move(p) => MouseMove(s, p, layout)
    case Up => MouseUp(s)
    case Leave => MouseUp(s)
  }

  /** A sequence of mouse events, oldest first. */
  function Run(s: Drag, events: seq<Event>, layout: Layout): Drag
    decreases |events|
  {
    if events == [] then s else Run(Step(s, events[0], layout), events[1..], layout)
  }

  /** The cursor shown over the strip. */
  function Cursor(s: Drag): (c: string)
    ensures c == "grabbing" <==> s.isDragging
    ensures c == "grab" <==> !s.isDragging
  {
    if s.isDragging then "grabbing" else "grab"
  }

  /** Leaving the strip has exactly the effect of releasing the button. */
  lemma LeaveIsUp(s: Drag, layout: Layout)
    ensures Step(s, Leave, layout) == Step(s, Up, layout)
    ensures !Step(s, Leave, layout).isDragging
  {
  }

  /**
   With content at least as wide as the box, the strip stays inside the
   scrollable range whatever the mouse does, starting from rest.
   */
  lemma {:induction false} RunStaysInRange(s: Drag, events: seq<Event>, layout: Layout)
    requires MaxScroll(layout) >= 0
    requires InRange(s.x, MaxScroll(layout))
    ensures InRange(Run(s, events, layout).x, MaxScroll(layout))
    decreases |events|
  {
    if events != [] {
      RunStaysInRange(Step(s, events[0], layout), events[1..], layout);
    }
  }

  /** The strip starts inside the range, so it never leaves it. */
  lemma InitialInRange(events: seq<Event>, layout: Layout)
    requires MaxScroll(layout) >= 0
    ensures InRange(Run(Initial, events, layout).x, MaxScroll(layout))
  {
    RunStaysInRange(Initial, events, layout);
  }

  /**
   With content narrower than the box, `maxScroll` is negative and the clamp
   pins every dragged offset to `clientWidth - scrollWidth`, a point right of
   0: the first move of a drag shifts the strip right by the spare width,
   wherever the mouse goes.
   */
  lemma NarrowContentDrag(s: Drag, pageX: int, layout: Layout)
    requires layout.scrollWidth < layout.clientWidth
    requires s.isDragging
    ensures MouseMove(s, pageX, layout).x == layout.clientWidth - layout.scrollWidth
    ensures MouseMove(s, pageX, layout).x > 0
  {
  }

  /** Without a button press, no sequence of moves shifts the strip. */
  lemma {:induction false} MovesWithoutDragIgnored(s: Drag, events: seq<Event>, layout: Layout)
    requires !s.isDragging
    requires forall k :: 0 <= k < |events| ==> events[k].Move?
    ensures Run(s, events, layout) == s
    decreases |events|
  {
    if events != [] {
      MovesWithoutDragIgnored(s, events[1..], layout);
    }
  }

  /**
   A press at `p0` followed by a move to `p1` shifts the strip by `p1 - p0`,
   clamped to the range; a move back to the press position leaves it where it
   was.
   */
  lemma DragFollowsMouse(s: Drag, p0: int, p1: int, layout: Layout)
    requires MaxScroll(layout) >= 0
    requires InRange(s.x, MaxScroll(layout))
    ensures Run(s, [Down(p0), Move(p1)], layout).x == Clamp(s.x + (p1 - p0), MaxScroll(layout))
    ensures Run(s, [Down(p0), Move(p0)], layout).x == s.x
    ensures Run(s, [Down(p0), Move(p1)], layout).isDragging
  {
    forall p | p == p0 || p == p1
      ensures Run(s, [Down(p0), Move(p)], layout) == MouseMove(MouseDown(s, p0), p, layout)
    {
      var d := MouseDown(s, p0);
      assert [Down(p0), Move(p)][1..] == [Move(p)];
      assert [Move(p)][1..] == [];
      assert Run(s, [Down(p0), Move(p)], layout) == Run(d, [Move(p)], layout);
      assert Run(d, [Move(p)], layout) == Run(MouseMove(d, p, layout), [], layout);
    }
  }
}
