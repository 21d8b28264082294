/**
 The game object: its direction of travel and the snake's body, which the
 game loop updates in place (pop the tail, insert the new head at index 0).
 Each method is proved against the value-level definitions of module Snake.
 */
module SnakeGame {
  import opened Grid
  import opened Random
  import opened Input
  import opened Snake

  /** The self-collision scan: compares the head with every later segment. */
  method HeadHitsBody(body: seq<Cell>) returns (hit: bool)
    requires |body| >= 1
    ensures hit <==> BitesItself(body)
  {
    var head := body[0];
    for i := 1 to |body|
      invariant forall j :: 1 <= j < i ==> body[j] != head
    {
      if body[i] == head {
        return true;
      }
    }
    return false;
  }

  class Game {
    var direction: Direction
    var snake: seq<Cell>

    /** The object invariant: the body is at least three cells long, on the field and connected. */
    predicate Valid()
      reads this
    {
      WellFormed(snake)
    }

    /** `Game::new`: a three-cell snake heading right, its head drawn from the start range. */
    constructor (start: Draw)
      ensures direction == Right
      ensures snake == InitialBody(StartCell(start))
      ensures Valid() && !BitesItself(snake)
    {
      var c := StartCell(start);
      direction := Right;
      snake := InitialBody(c);
      InitialWellFormed(start);
    }

    /** The event loop at the top of a frame; only the direction can change. */
    method PollEvents(events: seq<Event>) returns (quit: bool)
      modifies this
      ensures snake == old(snake)
      ensures Polled(quit, direction) == ApplyEvents(old(direction), events)
    {
      for i := 0 to |events|
        invariant snake == old(snake)
        invariant ApplyEvents(old(direction), events) == ApplyEvents(direction, events[i..])
      {
        var e := events[i];
        assert events[i..][1..] == events[i + 1..];
        match e {
          case Quit =>
            return true;
          case KeyDown(Escape) =>
            return true;
          case KeyDown(LeftArrow) =>
            direction := Left;
          case KeyDown(RightArrow) =>
            direction := Right;
          case KeyDown(UpArrow) =>
            direction := Up;
          case KeyDown(DownArrow) =>
            direction := Down;
          case _ =>
        }
      }
      return false;
    }

    /**
     One tick on the object: the body and the apple (a local of the game loop,
     so taken and returned here) change as `Advance` says, including on the
     ticks that end the game.
     */
    method Tick(apple: Cell, draw: Draw) returns (over: bool, nextApple: Cell)
      requires |snake| >= 1
      modifies this
      ensures direction == old(direction)
      ensures Outcome(over, State(direction, snake, nextApple)) ==
        Advance(State(old(direction), old(snake), apple), draw)
    {
      var head := snake[0];
      var hit := HeadHitsBody(snake);
      if hit {
        return true, apple;
      }
      nextApple := apple;
      if head == apple {
        nextApple := GetRandomLocation(draw);
      } else {
        snake := snake[..|snake| - 1];
      }
      var next: Cell;
      match direction {
        case Up =>
          if head.y == 0 {
            return true, nextApple;
          }
          next := Cell(head.x, head.y - 1);
        case Down =>
          if head.y == CELL_HEIGHT - 1 {
            return true, nextApple;
          }
          next := Cell(head.x, head.y + 1);
        case Left =>
          if head.x == 0 {
            return true, nextApple;
          }
          next := Cell(head.x - 1, head.y);
        case Right =>
          if head.x == CELL_WIDTH - 1 {
            return true, nextApple;
          }
          next := Cell(head.x + 1, head.y);
      }
      snake := [next] + snake;
      over := false;
    }

    /**
     `Game::run` over a finite run of frames: place the first apple, then per
     frame poll the events, tick, and draw the score `len - 3`. It stops on
     Quit or Escape, on game over, or when the frames run out; the score
     subtraction never underflows because the object invariant is kept on
     every frame that goes on.
     */
    method Run(appleDraw: Draw, frames: seq<Frame>) returns (ended: bool, scores: seq<nat>, apple: Cell)
      requires Valid()
      modifies this
      ensures Play(State(old(direction), old(snake), GetRandomLocation(appleDraw)), frames) ==
        Session(ended, State(direction, snake, apple), scores)
      ensures !ended ==> Valid()
    {
      apple := GetRandomLocation(appleDraw);
      ghost var start := State(direction, snake, apple);
      scores := [];
      for i := 0 to |frames|
        invariant Valid() && AppleRange(apple)
        invariant Play(start, frames) ==
          var rest := Play(State(direction, snake, apple), frames[i..]);
          Session(rest.ended, rest.state, scores + rest.scores)
      {
        ghost var before := State(direction, snake, apple);
        ghost var done := scores;
        assert frames[i..][0] == frames[i] && frames[i..][1..] == frames[i + 1..];
        var quit := PollEvents(frames[i].events);
        if quit {
          return true, scores, apple;
        }
        ghost var turned := State(direction, snake, apple);
        var over;
        over, apple := Tick(apple, frames[i].appleDraw);
        if over {
          return true, scores, apple;
        }
        AdvancePreservesPlayable(turned, frames[i].appleDraw);
        ghost var rest := Play(State(direction, snake, apple), frames[i + 1..]);
        assert Play(before, frames[i..]).scores == [Score(snake)] + rest.scores;
        scores := scores + [Score(snake)];
        assert scores + rest.scores == done + ([Score(snake)] + rest.scores);
      }
      ended := false;
    }
  }
}
