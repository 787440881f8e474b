/**
 * The location filter of borb's text-extraction toolkit: an event listener
 * that forwards text and image render events to its own listeners only when
 * their origin lies strictly inside a rectangle, and forwards every other
 * event unconditionally.
 */
module Location {
  import opened Wrappers
  import opened Geometry

  /** A downstream listener, known only by its identity. */
  type ListenerId = nat

  /** The render events the filter tells apart; any other event kind is `OtherEvent`. */
  datatype Event =
    | ChunkOfTextRenderEvent(boundingBox: Option<Rectangle>, text: string)
    | ImageRenderEvent(x: real, y: real)
    | OtherEvent(kind: nat)

  /** One call `listener._event_occurred(event)`. */
  datatype Delivery = Delivery(listener: ListenerId, event: Event)

  /**
   * What the listeners receive, in call order. The listeners themselves are
   * not modelled; the filter's only effect is to append to this log.
   */
  class DeliveryLog {
    var deliveries: seq<Delivery>

    constructor ()
      ensures deliveries == []
    {
      deliveries := [];
    }

    method Deliver(listener: ListenerId, event: Event)
      modifies this
      ensures deliveries == old(deliveries) + [Delivery(listener, event)]
    {
      deliveries := deliveries + [Delivery(listener, event)];
    }
  }

  /** The point (px, py) lies in the open interior of `r` on both axes. */
  predicate StrictlyInside(r: Rectangle, px: real, py: real)
  {
    r.x < px < r.x + r.width && r.y < py < r.y + r.height
  }

  /**
   * Whether the filter lets `e` through: text by the origin of its bounding
   * box, images by their position, anything else always. A text event
   * without a bounding box is an assertion failure, not an outcome.
   */
  predicate Admits(r: Rectangle, e: Event)
    requires !(e.ChunkOfTextRenderEvent? && e.boundingBox.None?)
  {
    match e
    case ChunkOfTextRenderEvent(bb, _) => StrictlyInside(r, bb.value.x, bb.value.y)
    case ImageRenderEvent(px, py) => StrictlyInside(r, px, py)
    case OtherEvent(_) => true
  }

  /** One delivery of `e` to each of `listeners`, in order. */
  function Broadcast(listeners: seq<ListenerId>, e: Event): seq<Delivery>
  {
    if listeners == [] then [] else [Delivery(listeners[0], e)] + Broadcast(listeners[1..], e)
  }

  /** What one event appends to the log: nothing on a failed assertion or a rejected event. */
  function Forwarded(r: Rectangle, listeners: seq<ListenerId>, e: Event): seq<Delivery>
  {
    if e.ChunkOfTextRenderEvent? && e.boundingBox.None? then []
    else if Admits(r, e) then Broadcast(listeners, e)
    else []
  }

  class LocationFilter {
    const rectangle: Rectangle
    var listeners: seq<ListenerId>

    /** A filter on `rectangle` with no listeners yet. */
    constructor (rectangle: Rectangle)
      ensures this.rectangle == rectangle && listeners == []
    {
      this.rectangle := rectangle;
      listeners := [];
    }

    /** Appends `listener` and returns this same filter, for chaining. */
    method AddListener(listener: ListenerId) returns (self: LocationFilter)
      modifies this
      ensures self == this
      ensures listeners == old(listeners) + [listener]
    {
      listeners := listeners + [listener];
      self := this;
    }

    /**
     * Handles one event: `ok` is false exactly when a text event carries no
     * bounding box (the assertion that fails); otherwise the event goes to
     * every listener, in order, when the filter admits it, and to none when
     * not. The filter itself never changes.
     */
    method EventOccurred(event: Event, log: DeliveryLog) returns (ok: bool)
      modifies log
      ensures ok <==> !(event.ChunkOfTextRenderEvent? && event.boundingBox.None?)
      ensures log.deliveries == old(log.deliveries) + Forwarded(rectangle, listeners, event)
    {
      if event.ChunkOfTextRenderEvent? {
        if event.boundingBox.None? {
          return false;
        }
        var bb := event.boundingBox.value;
        if rectangle.x < bb.x < rectangle.x + rectangle.width
          && rectangle.y < bb.y < rectangle.y + rectangle.height
        {
          NotifyAll(event, log);
        }
        return true;
      }
      if event.ImageRenderEvent? {
        if rectangle.x < event.x < rectangle.x + rectangle.width
          && rectangle.y < event.y < rectangle.y + rectangle.height
        {
          NotifyAll(event, log);
        }
        return true;
      }
      NotifyAll(event, log);
      return true;
    }

    /** `for l in self._listeners: l._event_occurred(event)`. */
    method NotifyAll(event: Event, log: DeliveryLog)
      modifies log
      ensures log.deliveries == old(log.deliveries) + Broadcast(listeners, event)
    {
      var i := 0;
      while i < |listeners|
        invariant 0 <= i <= |listeners|
        invariant log.deliveries == old(log.deliveries) + Broadcast(listeners[..i], event)
      {
        BroadcastSnoc(listeners[..i], listeners[i], event);
        assert listeners[..i + 1] == listeners[..i] + [listeners[i]];
        log.Deliver(listeners[i], event);
        i := i + 1;
      }
      assert listeners[..i] == listeners;
    }
  }

  /** Broadcasting to one more listener appends one delivery. */
  lemma {:induction false} BroadcastSnoc(ls: seq<ListenerId>, l: ListenerId, e: Event)
    ensures Broadcast(ls + [l], e) == Broadcast(ls, e) + [Delivery(l, e)]
  {
    if ls != [] {
      assert (ls + [l])[1..] == ls[1..] + [l];
      BroadcastSnoc(ls[1..], l, e);
    }
  }

  /** Each listener receives the event exactly once, in insertion order. */
  lemma {:induction false} BroadcastEachOnceInOrder(ls: seq<ListenerId>, e: Event)
    ensures |Broadcast(ls, e)| == |ls|
    ensures forall i :: 0 <= i < |ls| ==> Broadcast(ls, e)[i] == Delivery(ls[i], e)
  {
    if ls != [] {
      BroadcastEachOnceInOrder(ls[1..], e);
    }
  }

  /**
   * A text event with a bounding box reaches every listener exactly when the
   * origin of its box lies strictly inside the rectangle, and no listener otherwise.
   */
  lemma {:induction false} TextEventForwardedIff(r: Rectangle, ls: seq<ListenerId>, bb: Rectangle, text: string)
    ensures StrictlyInside(r, bb.x, bb.y) ==>
      Forwarded(r, ls, ChunkOfTextRenderEvent(Some(bb), text)) == Broadcast(ls, ChunkOfTextRenderEvent(Some(bb), text))
    ensures !StrictlyInside(r, bb.x, bb.y) ==> Forwarded(r, ls, ChunkOfTextRenderEvent(Some(bb), text)) == []
  {
  }

  /** An origin on any edge of the rectangle is outside the open interval and is dropped. */
  lemma {:induction false} EdgeIsOutside(r: Rectangle, e: Event)
    requires e.ChunkOfTextRenderEvent? && e.boundingBox.Some?
    requires var bb := e.boundingBox.value;
      bb.x == r.x || bb.x == r.x + r.width || bb.y == r.y || bb.y == r.y + r.height
    ensures forall ls :: Forwarded(r, ls, e) == []
  {
  }

  /** A rectangle without positive width or height admits no text or image event at all. */
  lemma {:induction false} EmptyRectangleAdmitsNoPlacedEvent(r: Rectangle, e: Event)
    requires r.width <= 0.0 || r.height <= 0.0
    requires !e.OtherEvent?
    ensures forall ls :: Forwarded(r, ls, e) == []
  {
  }

  /** Events that are neither text nor image reach every listener whatever the rectangle. */
  lemma {:induction false} OtherEventsPassThrough(r: Rectangle, ls: seq<ListenerId>, kind: nat)
    ensures Forwarded(r, ls, OtherEvent(kind)) == Broadcast(ls, OtherEvent(kind))
  {
  }

  /** An image event is forwarded by the same strict test on its own position. */
  lemma {:induction false} ImageEventForwardedIff(r: Rectangle, ls: seq<ListenerId>, px: real, py: real)
    requires ls != []
    ensures Forwarded(r, ls, ImageRenderEvent(px, py)) != [] <==> StrictlyInside(r, px, py)
  {
  }

  /** A client: a chained filter forwards an inside event to both listeners, first added first. */
  method ChainedFilterDemo(log: DeliveryLog)
    modifies log
    ensures log.deliveries == old(log.deliveries) + [
      Delivery(1, ImageRenderEvent(5.0, 5.0)), Delivery(2, ImageRenderEvent(5.0, 5.0))]
  {
    var f := new LocationFilter(Rectangle(0.0, 0.0, 10.0, 10.0));
    var g := f.AddListener(1);
    g := g.AddListener(2);
    assert f.listeners == [1, 2];
    var e := ImageRenderEvent(5.0, 5.0);
    BroadcastEachOnceInOrder([1, 2], e);
    var ok := f.EventOccurred(e, log);
    ok := f.EventOccurred(ImageRenderEvent(0.0, 5.0), log);
  }
}
