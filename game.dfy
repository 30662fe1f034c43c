/**
 * The running game: the entity that walks the maze, the fog of war that it
 * lifts, and the run state machine that reads keys until the exit is reached
 * (index.js:67-157, without drawing, timers and browser events).
 */
module Game {
  import opened Options
  import opened MazeGrid
  import Leaderboard
  import Format

  const WIDTH: int := 38
  const HEIGHT: int := 17
  const FOG_RADIUS: int := 3

  /** The direction map of index.js:127-131: arrow keys and WASD. */
  function Direction(key: string): (d: Option<Cell>)
    ensures d.Some? ==> Adjacent((0, 0), d.value)
    ensures d.Some? <==> key in {"ArrowUp", "ArrowDown", "ArrowLeft", "ArrowRight", "w", "s", "a", "d"}
    ensures d == Some((0, -1)) <==> key == "ArrowUp" || key == "w"
    ensures d == Some((0, 1)) <==> key == "ArrowDown" || key == "s"
    ensures d == Some((-1, 0)) <==> key == "ArrowLeft" || key == "a"
    ensures d == Some((1, 0)) <==> key == "ArrowRight" || key == "d"
  {
    if key == "ArrowUp" || key == "w" then Some((0, -1))
    else if key == "ArrowDown" || key == "s" then Some((0, 1))
    else if key == "ArrowLeft" || key == "a" then Some((-1, 0))
    else if key == "ArrowRight" || key == "d" then Some((1, 0))
    else None
  }

  /**
   * Where an entity at (x, y) ends up after move(dx, dy) on the maze: it
   * stays, or it lands on the target, which is open; it never steps into a
   * wall.
   */
  function Moved(maze: array2<int>, x: int, y: int, dx: int, dy: int): (r: Cell)
    reads maze
    ensures r == (x, y) || (r == (x + dx, y + dy) && IsOpen(maze, r.0, r.1))
    ensures IsOpen(maze, x, y) ==> IsOpen(maze, r.0, r.1)
  {
    if IsOpen(maze, x + dx, y + dy) then (x + dx, y + dy) else (x, y)
  }

  /**
   * A move commits exactly when its target is open; otherwise the entity
   * stays put.
   */
  lemma MoveCommitsIffOpen(maze: array2<int>, x: int, y: int, dx: int, dy: int)
    requires dx != 0 || dy != 0
    ensures Moved(maze, x, y, dx, dy) == (x + dx, y + dy) <==> IsOpen(maze, x + dx, y + dy)
    ensures Moved(maze, x, y, dx, dy) == (x, y) <==> !IsOpen(maze, x + dx, y + dy)
  {
  }

  /**
   * On a maze whose open cells are all inside the border, an entity on an
   * open cell that takes a unit step is again on an open inside cell, at
   * most one step away.
   */
  lemma MoveStaysOpen(maze: array2<int>, w: int, h: int, x: int, y: int, dx: int, dy: int)
    requires OpenOnlyInside(maze, w, h) && IsOpen(maze, x, y) && Adjacent((0, 0), (dx, dy))
    ensures IsOpen(maze, Moved(maze, x, y, dx, dy).0, Moved(maze, x, y, dx, dy).1)
    ensures Interior(w, h, Moved(maze, x, y, dx, dy).0, Moved(maze, x, y, dx, dy).1)
    ensures Moved(maze, x, y, dx, dy) == (x, y) || Adjacent((x, y), Moved(maze, x, y, dx, dy))
  {
  }

  /** (x, y) lies in the fog-of-war square around (ex, ey). */
  predicate Near(x: int, y: int, ex: int, ey: int) {
    -FOG_RADIUS <= x - ex <= FOG_RADIUS && -FOG_RADIUS <= y - ey <= FOG_RADIUS
  }

  /** Every grid cell of the square around (ex, ey) has been seen. */
  ghost predicate SquareSeen(seen: array2<bool>, ex: int, ey: int)
    reads seen
  {
    forall r, c :: 0 <= r < seen.Length0 && 0 <= c < seen.Length1 && Near(c, r, ex, ey) ==> seen[r, c]
  }

  /** The entity of index.js:68-76: a position that moves only onto open cells. */
  class Entity {
    var x: int
    var y: int

    constructor (x0: int, y0: int)
      ensures x == x0 && y == y0
    {
      x, y := x0, y0;
    }

    /** Step by (dx, dy) when the target cell is open (index.js:70-75). */
    method Move(dx: int, dy: int, maze: array2<int>)
      modifies this
      ensures (x, y) == Moved(maze, old(x), old(y), dx, dy)
    {
      if IsOpen(maze, x + dx, y + dy) {
        x := x + dx;
        y := y + dy;
      }
    }
  }

  /** One run (index.js:101-157): the maze, the entity, the fog and the state. */
  class Game {
    const maze: array2<int>
    const entity: Entity
    const seen: array2<bool>
    var running: bool
    /** The stored leaderboard, which a win updates. */
    var leaderboard: seq<Leaderboard.Score>

    /**
     * The run's invariant: the maze has the generator's walls, entry and
     * exit, and the exit can be walked to from the entry; the entity is on an
     * open cell and has seen the square around it; the run is still going
     * exactly while the entity is not on the exit.
     */
    ghost predicate Valid()
      reads this, entity, maze, seen
    {
      && Sized(maze, WIDTH, HEIGHT) && OpenOnlyInside(maze, WIDTH, HEIGHT)
      && IsOpen(maze, 1, 1) && IsOpen(maze, WIDTH, HEIGHT) && Reachable(maze, (WIDTH, HEIGHT))
      && seen.Length0 == HEIGHT + 2 && seen.Length1 == WIDTH + 2
      && IsOpen(maze, entity.x, entity.y)
      && SquareSeen(seen, entity.x, entity.y)
      && (running <==> (entity.x, entity.y) != (WIDTH, HEIGHT))
    }

    /**
     * A new run (index.js:102-113): a generated maze, the entity on the
     * entry, nothing seen, running; the first frame then reveals the square
     * around the entry. `stored` is the leaderboard read from storage.
     */
    constructor (stored: seq<Leaderboard.Score>)
      ensures Valid() && running && leaderboard == stored
      ensures fresh(maze) && Generated(maze, WIDTH, HEIGHT)
      ensures fresh(entity) && fresh(seen) && entity.x == 1 && entity.y == 1
      ensures forall r, c :: 0 <= r < seen.Length0 && 0 <= c < seen.Length1 ==> seen[r, c] == Near(c, r, 1, 1)
    {
      var m := Generate(WIDTH, HEIGHT);
      maze := m;
      entity := new Entity(1, 1);
      seen := new bool[HEIGHT + 2, WIDTH + 2]((_, _) => false);
      running := true;
      leaderboard := stored;
      new;
      Reveal();
    }

    /**
     * Lift the fog in the square of radius FOG_RADIUS around the entity
     * (index.js:115-122). Rows outside the grid are skipped, as in the
     * source; columns outside the grid are skipped too.
     */
    method Reveal()
      modifies seen
      ensures forall r, c :: 0 <= r < seen.Length0 && 0 <= c < seen.Length1 ==>
                seen[r, c] == (old(seen[r, c]) || Near(c, r, entity.x, entity.y))
    {
      for dy := -FOG_RADIUS to FOG_RADIUS + 1
        invariant forall r, c :: 0 <= r < seen.Length0 && 0 <= c < seen.Length1 ==>
                    seen[r, c] == (old(seen[r, c]) || (Near(c, r, entity.x, entity.y) && r < entity.y + dy))
      {
        for dx := -FOG_RADIUS to FOG_RADIUS + 1
          invariant forall r, c :: 0 <= r < seen.Length0 && 0 <= c < seen.Length1 ==>
                      seen[r, c] == (old(seen[r, c]) || (Near(c, r, entity.x, entity.y) &&
                                     (r < entity.y + dy || (r == entity.y + dy && c < entity.x + dx))))
        {
          var yy := entity.y + dy;
          var xx := entity.x + dx;
          if 0 <= yy < seen.Length0 && 0 <= xx < seen.Length1 {
            seen[yy, xx] := true;
          }
        }
      }
    }

    /**
     * A key press (index.js:124-145). Ignored once the run is over or for a
     * key outside the direction map; otherwise move, reveal, and on reaching
     * the exit stop the run and save `elapsed` under the `name` entered.
     */
    method Input(key: string, elapsed: nat, name: Option<string>)
      requires Valid()
      modifies this, entity, seen
      ensures Valid()
      ensures !old(running) ==> !running
      ensures !old(running) || Direction(key).None? ==>
                && running == old(running) && leaderboard == old(leaderboard)
                && entity.x == old(entity.x) && entity.y == old(entity.y) && unchanged(seen)
      ensures old(running) && Direction(key).Some? ==>
                && (entity.x, entity.y) == Moved(maze, old(entity.x), old(entity.y), Direction(key).value.0, Direction(key).value.1)
                && (forall r, c :: 0 <= r < seen.Length0 && 0 <= c < seen.Length1 ==>
                      seen[r, c] == (old(seen[r, c]) || Near(c, r, entity.x, entity.y)))
                && (running <==> (entity.x, entity.y) != (WIDTH, HEIGHT))
                && leaderboard == if running then old(leaderboard) else Leaderboard.Save(old(leaderboard), name, elapsed)
    {
      if !running {
        return;
      }
      var d := Direction(key);
      if d.Some? {
        MoveStaysOpen(maze, WIDTH, HEIGHT, entity.x, entity.y, d.value.0, d.value.1);
        entity.Move(d.value.0, d.value.1, maze);
        Reveal();
        if entity.x == WIDTH && entity.y == HEIGHT {
          running := false;
          leaderboard := Leaderboard.Save(leaderboard, name, elapsed);
        }
      }
    }

    /**
     * One animation frame of loop() (index.js:147-156): reveal around the
     * entity, compute the timer text for `elapsed`, and ask for another
     * frame while the run is going. The square is already seen, so the
     * reveal changes nothing.
     */
    method Tick(elapsed: nat) returns (timer: string, again: bool)
      requires Valid()
      modifies seen
      ensures Valid()
      ensures forall r, c :: 0 <= r < seen.Length0 && 0 <= c < seen.Length1 ==> seen[r, c] == old(seen[r, c])
      ensures timer == Format.TimerText(elapsed) && again == running
    {
      Reveal();
      timer := Format.TimerText(elapsed);
      again := running;
    }
  }
}
