/**
 Keyboard and window events as the game loop sees them at the start of a
 frame. Quit and Escape stop the game; an arrow key sets the direction of
 travel, whatever it was before (the opposite direction included); every
 other event is ignored.
 */
module Input {
  import opened Wrappers
  import opened Grid

  datatype Key = Escape | LeftArrow | RightArrow | UpArrow | DownArrow | OtherKey

  /** A window close request, a key press (a press without a key code is `OtherKey`), or anything else. */
  datatype Event = Quit | KeyDown(key: Key) | OtherEvent

  predicate Stops(e: Event) {
    e == Quit || e == KeyDown(Escape)
  }

  function ArrowKey(d: Direction): Key {
    match d
    case Up => UpArrow
    case Down => DownArrow
    case Left => LeftArrow
    case Right => RightArrow
  }

  /** The direction an event selects: only the four arrow keys select one. */
  function KeyDirection(e: Event): (r: Option<Direction>)
    ensures r.Some? ==> e == KeyDown(ArrowKey(r.value))
    ensures Stops(e) ==> r.None?
  {
    match e
    case KeyDown(LeftArrow) => Some(Left)
    case KeyDown(RightArrow) => Some(Right)
    case KeyDown(UpArrow) => Some(Up)
    case KeyDown(DownArrow) => Some(Down)
    case _ => None
  }

  /** Each direction has its arrow key. */
  lemma KeyDirectionOfArrow(d: Direction)
    ensures KeyDirection(KeyDown(ArrowKey(d))) == Some(d)
  {
  }

  /** What polling one frame's events yields: whether to stop, and the direction afterwards. */
  datatype Polled = Polled(quit: bool, direction: Direction)

  /** One event's effect on the direction (when it does not stop the game). */
  function Turn(d: Direction, e: Event): Direction {
    match KeyDirection(e)
    case Some(d') => d'
    case None => d
  }

  /** The events handled in order; the first Quit or Escape stops, later events are not looked at. */
  function ApplyEvents(d: Direction, events: seq<Event>): Polled
    decreases |events|
  {
    if events == [] then Polled(false, d)
    else if Stops(events[0]) then Polled(true, d)
    else ApplyEvents(Turn(d, events[0]), events[1..])
  }

  /** The direction selected by the last arrow key among `events`, or `d` if there is none. */
  function LastArrow(d: Direction, events: seq<Event>): Direction
    decreases |events|
  {
    if events == [] then d
    else
      match KeyDirection(events[|events| - 1])
      case Some(d') => d'
      case None => LastArrow(d, events[..|events| - 1])
  }

  lemma {:induction false} LastArrowCons(d: Direction, e: Event, events: seq<Event>)
    ensures LastArrow(d, [e] + events) == LastArrow(Turn(d, e), events)
    decreases |events|
  {
    if events != [] {
      var n := |events|;
      assert ([e] + events)[..n] == [e] + events[..n - 1];
      assert ([e] + events)[n] == events[n - 1];
      LastArrowCons(d, e, events[..n - 1]);
    }
  }

  /** Polling stops exactly when some event is Quit or Escape. */
  lemma {:induction false} ApplyEventsQuits(d: Direction, events: seq<Event>)
    ensures ApplyEvents(d, events).quit <==> exists i :: 0 <= i < |events| && Stops(events[i])
    decreases |events|
  {
    if events != [] && !Stops(events[0]) {
      ApplyEventsQuits(Turn(d, events[0]), events[1..]);
      if exists i :: 0 <= i < |events| && Stops(events[i]) {
        var i :| 0 <= i < |events| && Stops(events[i]);
        assert events[1..][i - 1] == events[i];
      }
    }
  }

  /** Without Quit or Escape the last arrow key wins; no direction is ever refused. */
  lemma {:induction false} ApplyEventsLastArrow(d: Direction, events: seq<Event>)
    requires forall i :: 0 <= i < |events| ==> !Stops(events[i])
    ensures ApplyEvents(d, events) == Polled(false, LastArrow(d, events))
    decreases |events|
  {
    if events != [] {
      ApplyEventsLastArrow(Turn(d, events[0]), events[1..]);
      LastArrowCons(d, events[0], events[1..]);
      assert [events[0]] + events[1..] == events;
    }
  }

  /** Pressing the arrow opposite to the direction of travel reverses it. */
  lemma ReversalAccepted(d: Direction)
    ensures ApplyEvents(d, [KeyDown(ArrowKey(Opposite(d)))]) == Polled(false, Opposite(d))
  {
  }
}
