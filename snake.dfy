/**
 The game state and what one tick and one frame of `Game::run` do to it,
 as functions on values, with the properties the game relies on.
 */
module Snake {
  import opened Wrappers
  import opened Grid
  import opened Random
  import opened Input

  /** Direction of travel, the body with its head at index 0, and the apple. */
  datatype State = State(direction: Direction, body: seq<Cell>, apple: Cell)

  /** The state after a tick, and whether the tick ended the game. */
  datatype Outcome = Outcome(gameOver: bool, state: State)

  /** The head lies on another segment of the body. */
  predicate BitesItself(body: seq<Cell>)
    requires |body| >= 1
  {
    exists i :: 1 <= i < |body| && body[i] == body[0]
  }

  predicate AllInGrid(body: seq<Cell>) {
    forall i :: 0 <= i < |body| ==> InGrid(body[i])
  }

  /** Consecutive segments share a side. */
  predicate Connected(body: seq<Cell>) {
    forall i :: 0 <= i < |body| - 1 ==> Adjacent(body[i], body[i + 1])
  }

  /** What holds of the body while the game runs. */
  predicate WellFormed(body: seq<Cell>) {
    |body| >= 3 && AllInGrid(body) && Connected(body)
  }

  predicate Playable(s: State) {
    WellFormed(s.body) && AppleRange(s.apple)
  }

  /** The three-cell horizontal snake `Game::new` starts with, head at `start`. */
  function InitialBody(start: Cell): seq<Cell>
    requires start.x >= 2
  {
    [start, Cell(start.x - 1, start.y), Cell(start.x - 2, start.y)]
  }

  /** Every start `Game::new` can draw gives a well-formed snake of length 3 on the field. */
  lemma InitialWellFormed(d: Draw)
    ensures |InitialBody(StartCell(d))| == 3 && InitialBody(StartCell(d))[0] == StartCell(d)
    ensures WellFormed(InitialBody(StartCell(d)))
    ensures !BitesItself(InitialBody(StartCell(d)))
  {
    var b := InitialBody(StartCell(d));
    assert Adjacent(b[0], b[1]) && Adjacent(b[1], b[2]);
  }

  /** The argument of `draw_score`: the length beyond the initial three cells. */
  function Score(body: seq<Cell>): (r: nat)
    requires |body| >= 3
    ensures r + 3 == |body|
  {
    |body| - 3
  }

  /** The body after the apple check: the tail is popped unless the head is on the apple. */
  function Kept(body: seq<Cell>, eats: bool): seq<Cell>
    requires |body| >= 1
  {
    if eats then body else body[..|body| - 1]
  }

  /**
   One tick of the game loop: the self-collision check, the apple check (a
   new apple from `draw`, or the tail popped), the wall check and the new
   head. A wall ends the game after the apple check has already been applied.
   */
  function Advance(s: State, draw: Draw): (r: Outcome)
    requires |s.body| >= 1
    ensures BitesItself(s.body) ==> r == Outcome(true, s)
    ensures r.gameOver <==> BitesItself(s.body) || NextHead(s.body[0], s.direction).None?
    ensures r.state.direction == s.direction
    ensures !BitesItself(s.body) ==>
      r.state.apple == (if s.body[0] == s.apple then GetRandomLocation(draw) else s.apple)
    ensures !r.gameOver ==> |r.state.body| == |s.body| + (if s.body[0] == s.apple then 1 else 0)
    ensures !r.gameOver ==>
      r.state.body[0].x == s.body[0].x + Dx(s.direction) &&
      r.state.body[0].y == s.body[0].y + Dy(s.direction)
    ensures !r.gameOver ==> r.state.body[1..] == Kept(s.body, s.body[0] == s.apple)
  {
    if BitesItself(s.body) then Outcome(true, s)
    else
      var head := s.body[0];
      var eats := head == s.apple;
      var apple := if eats then GetRandomLocation(draw) else s.apple;
      var kept := Kept(s.body, eats);
      match NextHead(head, s.direction)
      case None => Outcome(true, State(s.direction, kept, apple))
      case Some(next) => Outcome(false, State(s.direction, [next] + kept, apple))
  }

  /** With the head on the field, a tick ends the game exactly on a bite or a move off the field. */
  lemma AdvanceEndsExactly(s: State, draw: Draw)
    requires |s.body| >= 1 && InGrid(s.body[0])
    ensures Advance(s, draw).gameOver <==>
      BitesItself(s.body) ||
      !InGridAt(s.body[0].x + Dx(s.direction), s.body[0].y + Dy(s.direction))
  {
  }

  lemma ConnectedPrefix(body: seq<Cell>, n: nat)
    requires Connected(body) && n <= |body|
    ensures Connected(body[..n])
  {
    forall i | 0 <= i < n - 1
      ensures Adjacent(body[..n][i], body[..n][i + 1])
    {
      assert body[..n][i] == body[i] && body[..n][i + 1] == body[i + 1];
    }
  }

  /** Putting a cell next to the old head in front of a connected body keeps it connected. */
  lemma ConnectedCons(c: Cell, body: seq<Cell>)
    requires Connected(body) && |body| >= 1 && Adjacent(c, body[0])
    ensures Connected([c] + body)
  {
    var b := [c] + body;
    forall i | 0 <= i < |b| - 1
      ensures Adjacent(b[i], b[i + 1])
    {
      if i > 0 {
        assert b[i] == body[i - 1] && b[i + 1] == body[i];
      }
    }
  }

  /** A tick that does not end the game keeps the state playable: length at least 3, on the field, connected. */
  lemma AdvancePreservesPlayable(s: State, draw: Draw)
    requires Playable(s)
    ensures !Advance(s, draw).gameOver ==> Playable(Advance(s, draw).state)
  {
    var r := Advance(s, draw);
    if !r.gameOver {
      var head := s.body[0];
      var eats := head == s.apple;
      var kept := Kept(s.body, eats);
      var next := NextHead(head, s.direction).value;
      assert r.state.body == [next] + kept;
      if !eats {
        ConnectedPrefix(s.body, |s.body| - 1);
      }
      assert kept[0] == head;
      ConnectedCons(next, kept);
      forall i | 0 <= i < |r.state.body|
        ensures InGrid(r.state.body[i])
      {
        if i > 0 {
          assert r.state.body[i] == s.body[i - 1];
        }
      }
    }
  }

  /** One frame's inputs: the events polled, and the draws for an apple it may place. */
  datatype Frame = Frame(events: seq<Event>, appleDraw: Draw)

  /** Whether the game ended, the state reached, and the score drawn after each completed frame. */
  datatype Session = Session(ended: bool, state: State, scores: seq<nat>)

  /**
   Frames of the game loop in order: events first (Quit or Escape ends the
   loop with the direction changes already made), then a tick (which may end
   it), then the score is drawn. Running out of frames leaves the game going.
   */
  function Play(s: State, frames: seq<Frame>): (r: Session)
    requires Playable(s)
    ensures !r.ended ==> Playable(r.state) && |r.scores| == |frames|
    ensures |r.scores| <= |frames|
    decreases |frames|
  {
    if frames == [] then Session(false, s, [])
    else
      var polled := ApplyEvents(s.direction, frames[0].events);
      var turned := s.(direction := polled.direction);
      if polled.quit then Session(true, turned, [])
      else
        var o := Advance(turned, frames[0].appleDraw);
        if o.gameOver then Session(true, o.state, [])
        else
          AdvancePreservesPlayable(turned, frames[0].appleDraw);
          var rest := Play(o.state, frames[1..]);
          Session(rest.ended, rest.state, [Score(o.state.body)] + rest.scores)
  }

  /** The score never goes down and rises by at most one per frame. */
  lemma {:induction false} PlayScoresClimb(s: State, frames: seq<Frame>)
    requires Playable(s)
    ensures forall i :: 0 < i < |Play(s, frames).scores| ==>
      Play(s, frames).scores[i - 1] <= Play(s, frames).scores[i] <= Play(s, frames).scores[i - 1] + 1
    decreases |frames|
  {
    if frames != [] {
      var polled := ApplyEvents(s.direction, frames[0].events);
      var turned := s.(direction := polled.direction);
      if !polled.quit {
        var o := Advance(turned, frames[0].appleDraw);
        if !o.gameOver {
          PlayScoresClimb(o.state, frames[1..]);
          var rest := Play(o.state, frames[1..]).scores;
          var scores := Play(s, frames).scores;
          assert scores == [Score(o.state.body)] + rest;
          if |rest| > 0 {
            PlayFirstScore(o.state, frames[1..]);
          }
          forall i | 0 < i < |scores|
            ensures scores[i - 1] <= scores[i] <= scores[i - 1] + 1
          {
            if i > 1 {
              assert scores[i - 1] == rest[i - 2] && scores[i] == rest[i - 1];
            }
          }
        }
      }
    }
  }

  /** The first score drawn is the starting score or one more. */
  lemma PlayFirstScore(s: State, frames: seq<Frame>)
    requires Playable(s) && |Play(s, frames).scores| > 0
    ensures Score(s.body) <= Play(s, frames).scores[0] <= Score(s.body) + 1
  {
  }

  /** While the game runs, the last score drawn is that of the current body. */
  lemma {:induction false} PlayLastScore(s: State, frames: seq<Frame>)
    requires Playable(s) && !Play(s, frames).ended && |frames| > 0
    ensures Play(s, frames).scores[|frames| - 1] == Score(Play(s, frames).state.body)
    decreases |frames|
  {
    var polled := ApplyEvents(s.direction, frames[0].events);
    var turned := s.(direction := polled.direction);
    var o := Advance(turned, frames[0].appleDraw);
    if |frames| > 1 {
      PlayLastScore(o.state, frames[1..]);
    }
  }

  /**
   No reversal guard: at the start of a game (heading right), pressing Left
   moves the head onto its own neck, and the next frame ends the game. The
   one score drawn is 0, or 1 when the first apple lay on the start cell.
   */
  lemma ReversalEndsGame(start: Draw, apple: Cell, first: Draw, second: Draw)
    requires AppleRange(apple)
    ensures var s := State(Right, InitialBody(StartCell(start)), apple);
      var r := Play(s, [Frame([KeyDown(LeftArrow)], first), Frame([], second)]);
      r.ended && r.scores == [if apple == StartCell(start) then 1 else 0]
  {
    var s := State(Right, InitialBody(StartCell(start)), apple);
    InitialWellFormed(start);
    var turned := s.(direction := Left);
    var o := Advance(turned, first);
    assert !o.gameOver;
    assert o.state.body[2] == o.state.body[0];
    assert BitesItself(o.state.body);
  }
}
