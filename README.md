# Maze: a verified model of the game core

This project models the core of a browser maze game in Dafny. In the game, a player steers a dot through a generated maze under a fog of war. The run ends when the player reaches the exit, and the finishing time goes on a five-entry leaderboard.

The model covers four parts:

- **`MazeGrid`** (`maze.dfy`) covers maze generation, a randomized growing-tree ("Prim's") carve on the odd-coordinate lattice with step 2. `Generate` is an imperative method over an `array2<int>`: 1 is a wall and 0 is open, indexed `maze[y, x]`. The frontier is a `seq` that the loop splices and extends, as the source's array does. `Math.random` becomes an arbitrary choice (`:|`), so every property holds for every sequence of random picks.
  - Termination is proved with the set of lattice cells that are still wall. A carve strictly shrinks that set. An iteration that carves nothing strictly shrinks the frontier.
  - Reachability is proved with a ghost spanning tree: each carved cell records the cell that carved it.
  - The absence of loops is proved with the same tree. Every open wall is the passage of a tree edge, and ranks rise from parent to child, so a closed walk that never turns back cannot exist.
  - Each direction tried from a frontier entry (`Expand`) states exactly which cells change, and the carve itself (`Carve`) is the body of the source's `if`.
- **`Game`** (`game.dfy`) covers three things:
  - `Entity`, whose `Move` commits only onto an open cell;
  - the key map;
  - the `Game` class, whose fields mirror the source object: the maze, the entity, the `seen` fog grid (`array2<bool>`), the `running` flag and the stored leaderboard.
  
  `Reveal` keeps the source's nested loops. `Input` is the keydown handler. `Tick` is one animation frame. The class invariant `Valid()` holds in every reachable state: the entity is on an open cell, the square around it has been seen, the exit is reachable, and the run is going exactly while the entity is not on the exit.
- **`Leaderboard`** (`leaderboard.dfy`) covers the list logic of saving a score: the name defaults to "Anonymous", the score is pushed, the list is sorted by time with a stable sort, and the best five are kept. The stable sort is modelled as insertion sort, with each new entry placed after the entries it ties with.
- **`Format`** (`format.dfy`) covers the `mm:ss.mmm` time text and the per-frame timer line, over whole milliseconds. It includes the inverse parser used to state the round trip.

`Generate` takes the interior width and height as parameters. `Game` uses the source's constants: width 38, height 17, fog radius 3.

## Model

| member | source | states |
|---|---|---|
| MazeGrid.Generate | index.js:44-65 | Returns a fresh (h+2)×(w+2) grid of 0/1. The border is all wall and only interior cells are open. The entry (1, 1) and the exit (w, h) are open. Every interior odd/odd cell is open, and every open lattice cell has all its in-range lattice neighbours open. Except for the exit, no open cell has both coordinates even, and every open cell with one even coordinate joins the two open lattice cells beside it. The maze has no loop: no closed walk through open walls from lattice cell to lattice cell that never turns straight back. When w or h is odd, every open cell can be walked to from the entry. |
| MazeGrid.ExpandEntry | index.js:52-60 | Expanding one spliced frontier entry over the four steps keeps the carve invariant and leaves every inside lattice neighbour of the entry open. The frontier grows by exactly the neighbours that were inside and still wall, in step order. Every other cell is unchanged, and a changed cell went from wall to open and lies within two cells of the entry along a row or column. Either the set of lattice cells still wall strictly shrinks, or that set and the frontier stay as they were; this is the termination measure of the outer loop. |
| MazeGrid.Expand | index.js:53-59 | The k-th step (dx, dy) from the entry (x, y). If the target two cells away was inside and still wall, exactly the wall between and the target become open, and the target is pushed. Otherwise the grid and the frontier are unchanged. Afterwards the target is open whenever it is inside, neighbours that were open stay open, and later steps find their targets as carvable as before. The carve invariant is kept. |
| MazeGrid.Carve | index.js:56-58 | Carving from a frontier cell to an inside lattice neighbour that is still wall opens exactly the wall between and the neighbour, pushes the neighbour, and keeps the carve invariant. The set of lattice cells still wall strictly shrinks. |
| MazeGrid.NeighboursKept | index.js:53-59 | A carve along one step opens that neighbour, keeps every open neighbour open, and leaves the targets of the later steps as carvable as they were. |
| MazeGrid.OpenExit | index.js:63 | Exactly the exit cell (w, h) becomes open and every other cell is unchanged. The border stays walled, every lattice cell stays open and expanded, the spanning tree is kept, and every open wall cell stays the passage of a tree edge. Only the exit itself is exempt from the parity shape. |
| MazeGrid.CarveStart | index.js:45-49 | The all-wall grid with only the entry open, and the frontier [(1, 1)], satisfy the carve invariant. |
| MazeGrid.Spliced | index.js:52 | Removing any frontier entry leaves every other entry on the frontier and makes the removed entry the one being expanded. |
| MazeGrid.EntryExpanded | index.js:53-60 | Once all four neighbours of the spliced entry have been tried, the entry counts as fully expanded. |
| MazeGrid.FrontierDrained | index.js:51-61 | When the frontier is empty, every open lattice cell has all its in-range lattice neighbours open. |
| MazeGrid.LatticeCellOpen | index.js:51-61 | If the entry is open and the open lattice cells are closed under lattice steps, then every interior lattice cell is open (induction on x + y). |
| MazeGrid.LatticeFilled | index.js:51-61 | Every interior lattice cell is open when the loop ends. |
| MazeGrid.ShapeKept | index.js:56-57 | Opening a wall and the lattice cell behind it keeps the parity shape of every cell. |
| MazeGrid.TreeKept | index.js:56-58 | Carving a new lattice cell and recording the cell that carved it keeps a spanning tree of the open lattice cells. |
| MazeGrid.PassagesKept | index.js:56-58 | After a carve, every open wall cell is still the passage of a tree edge: the new wall joins the carved cell to the cell that carved it. |
| MazeGrid.TreeDescends | index.js:51-61 | In the spanning tree every parent is ranked below its child. |
| MazeGrid.EdgeInTree | index.js:51-61 | In the finished maze, the open wall between two lattice neighbours is a tree edge, in one direction or the other. |
| MazeGrid.DownTree | index.js:51-61 | A walk along tree edges that never turns back and starts from a parent to its child keeps going from parent to child, so the ranks rise along it. |
| MazeGrid.Backwards | index.js:51-61 | The reversed walk also runs along tree edges and never turns back. |
| MazeGrid.NoLatticeCycle | index.js:44-65 | The finished maze has no loop: a closed walk that never turns back would have to rise in rank all the way round. |
| MazeGrid.PendingKept | index.js:56-58 | After a carve, every ranked cell is still on the frontier, is the entry being expanded, or is fully expanded. |
| MazeGrid.PathToRanked | index.js:56-58 | Every cell of the spanning tree has an open walk of unit steps from the entry to it. |
| MazeGrid.AllReachable | index.js:44-65 | In the finished maze, with w or h odd, every open cell (lattice cell, opened wall or exit) is reachable from the entry. |
| Game.Direction | index.js:127-132 | Maps exactly the eight keys ArrowUp/w, ArrowDown/s, ArrowLeft/a and ArrowRight/d to the unit steps (0,-1), (0,1), (-1,0) and (1,0). Every other key maps to nothing. |
| Game.Moved | index.js:70-75 | The entity stays where it is, or it lands on the target, which is open. An entity on an open cell stays on an open cell. |
| Game.MoveCommitsIffOpen | index.js:70-75 | A move lands on the target exactly when the target is open, and otherwise leaves the entity where it was. |
| Game.MoveStaysOpen | index.js:70-75 | On a maze whose open cells are all interior, a unit step from an open cell ends on an open interior cell, either the same cell or the adjacent one. |
| Game.Entity.Move | index.js:70-75 | The new position is the target if the target is open, and the old position otherwise. |
| Game.Entity.constructor | index.js:69 | The entity starts at the given position. |
| Game.Game.constructor | index.js:102-113 | A new run holds a fresh maze with every property `Generate` promises for 38×17, puts the entity on (1, 1) and is running. It holds the stored leaderboard. The first frame's reveal leaves exactly the square of radius 3 around (1, 1) seen. The invariant holds. |
| Game.Game.Reveal | index.js:115-122 | Each grid cell ends seen exactly when it was seen before or lies in the square of radius 3 around the entity. No cell is hidden again, and cells outside the square keep their value. |
| Game.Game.Input | index.js:124-145 | After a finished run or an unmapped key, nothing changes. Otherwise the entity moves as `Move` does and the square around its new position is revealed. The run keeps going exactly while the entity is not on the exit. On reaching the exit, the leaderboard becomes the saved list with the entered name and the elapsed time. A finished run never restarts. The invariant is kept. |
| Game.Game.Tick | index.js:147-156 | A frame on a valid run changes no fog cell: the reveal is idempotent. It yields the timer text for the elapsed time and asks for another frame exactly while the run is going. |
| Leaderboard.DisplayName | index.js:20 | The stored name is the entered name when it is non-empty, and "Anonymous" when the prompt was dismissed or left empty. |
| Leaderboard.Insert | index.js:20-21 | Inserting into a sorted list gives a sorted list one longer, whose head is the new entry or the old head. |
| Leaderboard.InsertAt | index.js:21 | Insert places the new entry after every entry at most as slow and before every strictly slower one, which is stable placement for an entry pushed last. |
| Leaderboard.InsertPermutes | index.js:20-21 | Insert adds exactly the new entry and keeps every other entry. |
| Leaderboard.SortByTime | index.js:21 | The sorted list is ordered by time and is a permutation of the input. |
| Leaderboard.SortSortedIsIdentity | index.js:21 | Sorting a list that is already sorted by time returns it unchanged. |
| Leaderboard.Save | index.js:18-23 | The saved board is sorted, has min(5, n + 1) entries and is drawn from the stored scores plus the new one. No dropped entry is faster than a kept one. |
| Leaderboard.KeptPrefix | index.js:22 | Keeping a prefix of a sorted list drops no entry faster than a kept one. |
| Leaderboard.SaveIsInsert | index.js:19-22 | Saving equals inserting the new entry stably into the sorted stored list and cutting the result to five. |
| Leaderboard.SaveKeepsFaster | index.js:19-22 | A win is kept when fewer than five scores are stored, or when it is strictly faster than the fifth best. |
| Leaderboard.SaveKeepsBoardOnSlower | index.js:19-22 | A win that ties or is slower than the fifth best leaves the five best exactly as they were. |
| Leaderboard.InsertAfterPrefix | index.js:21-22 | Inserting an entry no faster than the n-th leaves the first n entries in place. |
| Format.Decimal | index.js:10 | String(n) is a non-empty string of decimal digits with no leading zero. It has one digit below 10, at most two below 100 and at most three below 1000. |
| Format.PadStart | index.js:10 | padStart gives length max(length, width). |
| Format.PaddedValue | index.js:10 | Zero padding of String(n) is all digits and still reads as n. |
| Format.DecimalValue | index.js:10 | String(n) reads back as n. |
| Format.Clock | index.js:10 | The template has ':' seven characters and '.' four characters from the end. Its length is the minutes' digit count padded to two, plus seven, so it is exactly nine characters below 100 minutes. |
| Format.FormatTime | index.js:6-11 | formatTime's text has ':' and '.' at the fixed places from the end. Its length is the whole minutes' digit count padded to two, plus seven, for every time: exactly nine below 100 minutes, ten from 100 to 999 minutes, and so on. |
| Format.FieldWidths | index.js:7-9 | Seconds are below 60 and milliseconds below 1000, and minutes·60000 + seconds·1000 + milliseconds gives back the time. |
| Format.SecondsAgree | index.js:153 | The timer's seconds, floor(t/1000) mod 60, equal formatTime's floor((t mod 60000)/1000). |
| Format.TimerText | index.js:153 | The timer line is "Time: " followed by a clock with ':' and '.' at the fixed places from the end, and the clock reads back as the elapsed time. The line's length is the whole minutes' digit count padded to two, plus thirteen, for every time, so it is exactly fifteen characters below 100 minutes. |
| Format.TimerIsFormatTime | index.js:153 | The timer line is "Time: " followed by formatTime of the elapsed time. |
| Format.ClockRoundTrip | index.js:10 | Parsing the template back gives minutes·60000 + seconds·1000 + milliseconds. |
| Format.FormatTimeRoundTrip | index.js:6-11 | Parsing formatTime's text gives back the time. |
| Format.FormatTimeInjective | index.js:6-11 | Different times give different texts. |

Two facts about the generator shape the model:

- The frontier does not only shrink: each carve pushes the new cell. Termination is therefore argued on the lattice cells still wall, which every carve reduces.
- The exit (w, h) is forced open after the carve. When w and h are both even, the exit has both coordinates even, so no carve ever opens a cell next to it, and it stays isolated from the entry. The game's 38×17 maze has an odd height, so its exit lies next to an open lattice cell and is reachable. `Generate` states reachability under exactly that condition.

## Left out

- The renderer (`Renderer.draw`) and `renderLeaderboard`: these are DOM output, with no logic the core depends on.
- `loadLeaderboard` and the `localStorage`/JSON round trip: the stored list is a constructor parameter and a field of `Game`.
- `performance.now`, `requestAnimationFrame` and `addEventListener`: the elapsed time is a parameter of `Input` and `Tick`, `Tick` returns whether another frame is requested, and `Input` is the handler itself.
- `prompt`: the entered name is a parameter, with `None` standing for a dismissed prompt.
- The distribution of `Math.random`: the random index is an arbitrary choice, so the properties hold for every outcome, but nothing is said about probabilities.
- Floating-point times: times are whole milliseconds (`nat`), so `Math.floor` of a fractional time is not modelled.
- MazeGrid.Generate: reachability is stated only when w or h is odd. With both even, the forced exit can be isolated (see above), which the source's constants never produce.
- Game.Game.Reveal: for a column left of the grid (x = -1 or -2), the source writes a stray non-index property on an existing row. For a column right of the grid (x = 40 or 41), it writes array slots past the end and so lengthens that row. The model skips both writes. Neither changes a cell of the grid, and the renderer only reads cells inside the grid.
- Game.Moved: a target row outside the grid would make the source throw. The model treats an out-of-grid target as blocked. `MoveStaysOpen` shows the entity never gets there.
- Game.Direction: keys that name inherited object properties (such as "toString") are truthy in the source's map, and spreading them throws. The model ignores them like any unmapped key.
- Leaderboard.SortByTime: stability is stated through where `Insert` places the new entry (`InsertAt`, `SaveKeepsBoardOnSlower`). That entries with equal stored times keep their relative order is not stated as a separate property.
