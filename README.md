# Pac-Man grid engine, modelled in Dafny

This project models the game-state engine of a small grid Pac-Man game
(`main.py`). The engine state is:

- a 6 × 20 maze of cell codes (1 wall, 0 empty, 2 pellet, 3 ghost, 4 Pac-Man);
- the list of pellets not yet eaten;
- Pac-Man's position;
- the list of ghost positions;
- the score;
- the lives.

Three commands change that state in place. `move_pacman` takes one step, and
eats a pellet when one is listed on the target cell. `move_ghosts` moves each
ghost to the first open neighbour in a shuffled direction order. Both end with
`check_collision`, which takes a life for every ghost found on Pac-Man's cell.

The model has four modules:

- `Maze`: the cell codes, and the two row-major scans run at start-up. One
  builds the pellet list. The other, `get_positions`, is written as a method
  with nested loops and proved equal to a scan function.
- `Moves`: directions and one-cell steps, and the arrow-key mapping of the
  event loop. It also has the first enterable neighbour a ghost picks, and
  `list.remove` on the pellet list.
- `Collision`: the collision pass as a pure function over the ghost list. A
  lemma relates it to an independent count of hits.
- `Engine`: the class `Game`, whose fields are the engine state. The maze is
  an `array2<int>` updated in place; the pellet and ghost lists are `seq`
  fields. `CheckCollision`, `MoveGhost` and `MoveGhosts` are methods whose
  loops carry invariants; `MovePacman` has no loop, as in the game: it is
  the move step `MoveStep` followed by `CheckCollision`.
  `Game.Valid()` is kept by every command. It bundles five invariants:
  - the walls never change and close the grid;
  - Pac-Man and the ghosts stand on open cells inside the border;
  - the pellet list matches the maze;
  - the score is ten points per pellet eaten;
  - the game is over exactly when no life is left.

Some behaviour of the code is easy to misread; the model follows the code:

- The collision check runs after every Pac-Man command, also after a bump
  into a wall (`main.py:90` is outside the `if`).
- One life is taken per ghost that matches during the pass, not once per
  pass. After a reset, later ghosts are compared against the start cell.
- When the last life is taken the game ends at once, before Pac-Man would be
  reset (`main.py:121-124` come before `main.py:127-130`).
- A ghost may enter only an empty cell or a pellet cell (0 or 2). It never
  enters a cell showing another ghost or Pac-Man, although those are not
  walls (`main.py:101`).
- Pac-Man may step onto a ghost cell, since only 1 counts as a wall
  (`main.py:81`).

## Model

| member | source | states |
|---|---|---|
| `Maze.ScanBeforeMembers` | main.py:54-59 | a partial row-major scan lists exactly the in-bounds cells holding the code that lie before the scan point |
| `Maze.ScanBeforeOrdered` | main.py:54-55 | the scan lists cells in strictly increasing row-major order, so no cell twice |
| `Maze.LastOfCells` | main.py:56-57 | the Pac-Man scan result is absent exactly when no cell holds 4; otherwise it holds 4 and no later cell does (the last one seen wins) |
| `Maze.InitialPellets` | main.py:29 | the starting pellet list holds exactly the cells showing a pellet, each once |
| `Maze.GetPositions` | main.py:51-60 | the nested-loop scan returns the last Pac-Man cell and every ghost cell in row-major order, as the scan functions define them |
| `Moves.Step` | main.py:72-79 | a step lands on an orthogonal neighbour; up and down keep the column, left and right keep the row |
| `Moves.KeyDirection` | main.py:167-175 | each arrow key maps to its own direction, in both directions of the if-and-only-if, and every other key to no move |
| `Moves.FirstOpen` | main.py:98-101 | the cell a ghost picks is an in-bounds neighbour that is empty or holds a pellet |
| `Moves.FirstOpenIsFirst` | main.py:98-108 | nothing is picked exactly when no direction leads to an enterable cell; otherwise the pick comes from the earliest direction that does |
| `Moves.RemoveFirst` | main.py:82-83 | removing a listed pellet shortens the list by one and removes exactly one copy of it; removing an unlisted one leaves the list as it was |
| `Moves.IndexOf` | main.py:83 | the position `list.remove` acts on holds x, and no earlier entry does |
| `Moves.RemoveFirstKeepsOrder` | main.py:83 | removing a listed x cuts out exactly its first occurrence; the entries before and after it keep their order |
| `Moves.RemoveFirstNoDup` | main.py:82-83 | on a list without repeats, removal keeps it repeat-free and removes exactly that coordinate |
| `Collision.Collide` | main.py:113-130 | after the pass Pac-Man is at the start if a reset happened, otherwise where he was; lives never go up |
| `Collision.HitsFromStart` | main.py:115-116 | once Pac-Man is on the start cell, the remaining matches are the ghosts standing on it |
| `Collision.CollideTakesOneLifePerHit` | main.py:115-130 | the pass takes one life per match and stops at 0; the game ends exactly when the matches reach the lives; one notice per life taken, the last saying game over when it is; Pac-Man ends at the start after a non-final match |
| `Engine.StartingMaze` | main.py:19-26 | the starting layout is closed by a ring of walls and has Pac-Man on the start cell (1, 1) |
| `Engine.Game.constructor` | main.py:62-64 | the game starts from the layout with its pellet list, the scanned positions, score 0 and 3 lives, and satisfies the invariants |
| `Engine.Game.StartIsValid` | main.py:19-29 | a walled grid scanned as at start-up, with score 0 and 3 lives, satisfies every invariant |
| `Engine.Game.MoveStep` | main.py:67-88 | a step toward a wall changes nothing; otherwise a listed pellet on the target is removed for exactly 10 points, the old cell is cleared and the target shows Pac-Man; the invariants are kept |
| `Engine.Game.EatPellet` | main.py:82-84 | the target pellet, if listed, is removed exactly and 10 points are added, keeping the score equal to 10 per eaten pellet |
| `Engine.Game.ResetPacman` | main.py:126-130 | Pac-Man's cell is cleared, he is placed on the start cell, and that cell shows him; nothing else changes |
| `Engine.Game.CheckCollision` | main.py:113-130 | position, lives, game-over flag and notices are those of the collision pass; the maze changes only by the reset; walls and the other invariants are kept |
| `Engine.Game.MoveGhost` | main.py:94-108 | the ghost moves to the first enterable neighbour in its order, or stays when there is none; the cell left shows a pellet if it is still listed, otherwise empty; the new cell shows the ghost |
| `Engine.Game.MoveGhosts` | main.py:92-109 | every ghost stays or moves to an adjacent non-wall cell; the count of ghosts, the pellets and the score are unchanged; the collision pass then runs on the new positions; nothing happens once the game is over |
| `Engine.Game.MovePacman` | main.py:67-90 | the move step followed by the collision pass, which runs after a wall bump too; pellets only shrink, ghosts do not move, the maze is the composition of both updates; nothing happens once the game is over |

## Left out

- Drawing the maze, the score and the lives, and `display_message` with its
  two-second delay: these are screen output. The messages are modelled as
  `Notice` values returned by the commands.
- The main loop, event polling, the quit event and the frame clock: the key
  mapping is modelled as `KeyDirection`, and each command as a method the
  loop would call.
- `random.shuffle`: each ghost's direction order is a parameter, required to
  be a permutation of the four directions.
- Process exit after the last life: modelled as the `gameOver` flag. Every
  command does nothing once it is set.
- Window, colour and pixel constants, and the unused row and column counts:
  presentation only.
- Direction strings other than the four arrows: `move_pacman` is only called
  with those four, so `Direction` has exactly four values.
- Python's wrap-around for negative list indices: positions stay strictly
  inside the wall border (an invariant of `Game`), so no index is negative or
  past the end.
- Engine.Game.MoveGhosts: does not state, for each ghost, the maze that ghost
  saw just before its own move, because earlier ghosts' moves change it. The
  exact per-ghost rule is the contract of `Engine.Game.MoveGhost`, which
  `MoveGhosts` calls once per ghost in list order.
