// The game state and the three commands that change it in place: moving
// Pac-Man, moving the ghosts, and the collision check both of them end with.

module Engine {
  import opened Maze
  import opened Moves
  import opened Collision

  /** The starting maze, row by row (1 wall, 0 empty, 2 pellet, 3 ghost, 4 Pac-Man). */
  const LAYOUT: seq<seq<int>> := [
    [1, 1, 1, 1, 1, 1, 1, 1, 1, 1, 1, 1, 1, 1, 1, 1, 1, 1, 1, 1],
    [1, 4, 0, 0, 0, 0, 0, 0, 0, 0, 0, 0, 0, 0, 0, 0, 0, 2, 0, 1],
    [1, 0, 1, 1, 1, 0, 1, 1, 1, 1, 1, 1, 1, 1, 1, 0, 1, 1, 0, 1],
    [1, 0, 1, 3, 1, 0, 1, 3, 0, 0, 0, 0, 1, 3, 1, 0, 1, 3, 0, 1],
    [1, 2, 0, 0, 0, 0, 0, 0, 0, 0, 0, 0, 0, 0, 0, 0, 0, 2, 0, 1],
    [1, 1, 1, 1, 1, 1, 1, 1, 1, 1, 1, 1, 1, 1, 1, 1, 1, 1, 1, 1]
  ]

  const MAZE_ROWS := 6
  const MAZE_COLS := 20
  const PELLET_POINTS := 10
  const START_LIVES := 3

  function LayoutCell(r: int, c: int): int
  {
    if 0 <= r < |LAYOUT| && 0 <= c < |LAYOUT[r]| then LAYOUT[r][c] else WALL
  }

  /** The starting maze is closed by a ring of walls, and Pac-Man starts on the start cell. */
  lemma StartingMaze(m: array2<int>)
    requires m.Length0 == MAZE_ROWS && m.Length1 == MAZE_COLS
    requires forall r, c :: 0 <= r < MAZE_ROWS && 0 <= c < MAZE_COLS ==> m[r, c] == LayoutCell(r, c)
    ensures forall p :: OnBorder(m, p) ==> m[p.0, p.1] == WALL
    ensures m[START.0, START.1] == PACMAN
  {
  }

  class Game {
    /** The maze grid; its cells change, the grid itself is never replaced. */
    const maze: array2<int>
    /** Coordinates of the pellets not eaten yet. */
    var pellets: seq<Pos>
    var pac: Pos
    var ghosts: seq<Pos>
    var score: int
    var lives: int
    /** Set when the last life is lost; the program exits at that point. */
    var gameOver: bool

    /** The wall cells, fixed when the game starts. */
    ghost const walls: set<Pos>
    /** How many pellets the game started with. */
    ghost const pelletTotal: nat

    /** Walls never change, and they close the grid. */
    ghost predicate WallsFixed()
      reads maze
    {
      && 3 <= maze.Length0 && 3 <= maze.Length1
      && (forall r, c :: 0 <= r < maze.Length0 && 0 <= c < maze.Length1 ==>
            (maze[r, c] == WALL <==> (r, c) in walls))
      && (forall p :: OnBorder(maze, p) ==> p in walls)
      && START !in walls
    }

    /** Pac-Man and every ghost stand on open cells inside the wall ring. */
    ghost predicate ActorsOnOpenCells()
      reads this`pac, this`ghosts
    {
      && Interior(maze, pac) && pac !in walls
      && (forall k :: 0 <= k < |ghosts| ==> Interior(maze, ghosts[k]) && ghosts[k] !in walls)
    }

    /**
     * The pellet list has no repeats, lists nothing eaten, lists only cells
     * showing a pellet or a ghost, and lists every cell showing a pellet.
     */
    ghost predicate PelletsTracked()
      reads this`pellets, this`pac, maze
    {
      && NoDup(pellets) && START !in pellets && pac !in pellets
      && (forall p :: p in pellets ==>
            InBounds(maze, p) && (maze[p.0, p.1] == PELLET || maze[p.0, p.1] == GHOST))
      && (forall r, c :: 0 <= r < maze.Length0 && 0 <= c < maze.Length1 && maze[r, c] == PELLET ==>
            (r, c) in pellets)
    }

    /** Ten points for every pellet eaten so far. */
    ghost predicate ScoreCountsPellets()
      reads this`pellets, this`score
    {
      |pellets| <= pelletTotal && score == PELLET_POINTS * (pelletTotal - |pellets|)
    }

    /** The game is over exactly when no life is left. */
    ghost predicate LivesConsistent()
      reads this`lives, this`gameOver
    {
      0 <= lives && (gameOver <==> lives == 0)
    }

    ghost predicate Valid()
      reads this, maze
    {
      WallsFixed() && ActorsOnOpenCells() && PelletsTracked() && ScoreCountsPellets() && LivesConsistent()
    }

    /** The game as the module sets it up: the starting maze, its pellets and actors. */
    constructor ()
      ensures Valid()
      ensures fresh(maze) && maze.Length0 == MAZE_ROWS && maze.Length1 == MAZE_COLS
      ensures forall r, c :: 0 <= r < MAZE_ROWS && 0 <= c < MAZE_COLS ==> maze[r, c] == LayoutCell(r, c)
      ensures pellets == InitialPellets(maze) && pelletTotal == |pellets|
      ensures Some(pac) == Last(Cells(maze, PACMAN)) && ghosts == Cells(maze, GHOST)
      ensures score == 0 && lives == START_LIVES && !gameOver
    {
      var m := new int[MAZE_ROWS, MAZE_COLS]((r, c) => LayoutCell(r, c));
      StartingMaze(m);
      LastOfCells(m, PACMAN);
      var p, gs := GetPositions(m);
      maze := m;
      walls := set r, c | 0 <= r < m.Length0 && 0 <= c < m.Length1 && m[r, c] == WALL :: (r, c);
      pellets := InitialPellets(m);
      pelletTotal := |InitialPellets(m)|;
      pac := p.value;
      ghosts := gs;
      score := 0;
      lives := START_LIVES;
      gameOver := false;
      new;
      StartIsValid();
    }

    /** A grid closed by walls, scanned as at start-up, gives a valid game. */
    lemma StartIsValid()
      requires 3 <= maze.Length0 && 3 <= maze.Length1
      requires forall p :: OnBorder(maze, p) ==> maze[p.0, p.1] == WALL
      requires maze[START.0, START.1] == PACMAN
      requires walls == set r, c | 0 <= r < maze.Length0 && 0 <= c < maze.Length1 && maze[r, c] == WALL :: (r, c)
      requires pellets == InitialPellets(maze) && pelletTotal == |pellets|
      requires Some(pac) == Last(Cells(maze, PACMAN)) && ghosts == Cells(maze, GHOST)
      requires score == 0 && lives == START_LIVES && !gameOver
      ensures Valid()
    {
      LastOfCells(maze, PACMAN);
      ScanBeforeMembers(maze, GHOST, maze.Length0, 0);
      forall k | 0 <= k < |ghosts| ensures Interior(maze, ghosts[k]) && ghosts[k] !in walls {
        assert ghosts[k] in Cells(maze, GHOST);
      }
    }

    /**
     * The move step of move_pacman: a step into a wall changes nothing;
     * otherwise a listed pellet on the target is eaten for ten points and
     * Pac-Man moves there.
     */
    method MoveStep(d: Direction)
      requires Valid()
      modifies this`pac, this`pellets, this`score, maze
      ensures Valid()
      ensures var t := Step(old(pac), d);
        if old(maze[t.0, t.1]) == WALL then
          pac == old(pac) && pellets == old(pellets) && score == old(score) && unchanged(maze)
        else
          && pac == t
          && pellets == RemoveFirst(old(pellets), t)
          && (forall q :: q in pellets <==> q in old(pellets) && q != t)
          && score == old(score) + (if t in old(pellets) then PELLET_POINTS else 0)
          && forall r, c :: 0 <= r < maze.Length0 && 0 <= c < maze.Length1 ==>
               maze[r, c] == if (r, c) == t then PACMAN
                             else if (r, c) == old(pac) then EMPTY
                             else old(maze[r, c])
    {
      var t := Step(pac, d);
      if maze[t.0, t.1] != WALL {
        EatPellet(t);
        maze[pac.0, pac.1] := EMPTY;
        maze[t.0, t.1] := PACMAN;
        pac := t;
      }
    }

    /** Eat the pellet at t, if one is listed there: drop it from the list, score ten points. */
    method EatPellet(t: Pos)
      requires NoDup(pellets) && ScoreCountsPellets()
      modifies this`pellets, this`score
      ensures NoDup(pellets) && ScoreCountsPellets()
      ensures pellets == RemoveFirst(old(pellets), t)
      ensures forall q :: q in pellets <==> q in old(pellets) && q != t
      ensures score == old(score) + (if t in old(pellets) then PELLET_POINTS else 0)
    {
      RemoveFirstNoDup(pellets, t);
      if t in pellets {
        pellets := RemoveFirst(pellets, t);
        score := score + PELLET_POINTS;
      }
    }

    /** Send Pac-Man back to the start: clear the cell he is on, then mark the start cell. */
    method ResetPacman()
      requires Valid() && !gameOver
      modifies this`pac, maze
      ensures Valid()
      ensures pac == START
      ensures forall r, c :: 0 <= r < maze.Length0 && 0 <= c < maze.Length1 ==>
        maze[r, c] == if (r, c) == START then PACMAN
                      else if (r, c) == old(pac) then EMPTY
                      else old(maze[r, c])
    {
      maze[pac.0, pac.1] := EMPTY;
      pac := START;
      maze[START.0, START.1] := PACMAN;
    }

    /**
     * check_collision: walk the ghosts in order; each ghost on Pac-Man's cell
     * takes a life; the last life ends the game at once, any other sends
     * Pac-Man back to the start, clearing the cell he left.
     */
    method CheckCollision() returns (notices: seq<Notice>)
      requires Valid() && !gameOver
      modifies this`pac, this`lives, this`gameOver, maze
      ensures Valid()
      ensures var o := Collide(old(ghosts), old(pac), old(lives));
        && pac == o.pac && lives == o.lives && gameOver == o.over && notices == o.notices
        && forall r, c :: 0 <= r < maze.Length0 && 0 <= c < maze.Length1 ==>
             maze[r, c] == if o.reset && (r, c) == START then PACMAN
                           else if o.reset && (r, c) == old(pac) then EMPTY
                           else old(maze[r, c])
    {
      notices := [];
      ghost var reset := false;
      var i := 0;
      while i < |ghosts|
        invariant 0 <= i <= |ghosts|
        invariant Valid() && !gameOver
        invariant var o := Collide(ghosts[i..], pac, lives);
          var whole := Collide(ghosts, old(pac), old(lives));
          && o.pac == whole.pac && o.lives == whole.lives && o.over == whole.over
          && notices + o.notices == whole.notices
          && (whole.reset <==> reset || o.reset)
        invariant pac == if reset then START else old(pac)
        invariant forall r, c :: 0 <= r < maze.Length0 && 0 <= c < maze.Length1 ==>
          maze[r, c] == if reset && (r, c) == START then PACMAN
                        else if reset && (r, c) == old(pac) then EMPTY
                        else old(maze[r, c])
      {
        assert ghosts[i..] == [ghosts[i]] + ghosts[i + 1..];
        if pac == ghosts[i] {
          lives := lives - 1;
          if lives > 0 {
            notices := notices + [LostLife];
          }
          if lives == 0 {
            notices := notices + [GameOver];
            gameOver := true;
            return;
          }
          ResetPacman();
          reset := true;
        }
        i := i + 1;
      }
    }

    /**
     * One ghost's move: the first neighbour, in this ghost's direction
     * order, that is empty or holds a pellet. The cell left behind shows
     * its pellet again if it is still listed; the new cell shows the ghost.
     */
    method MoveGhost(k: nat, order: seq<Direction>)
      requires Valid() && k < |ghosts|
      modifies this`ghosts, maze
      ensures Valid()
      ensures var p := old(ghosts[k]);
        match old(FirstOpen(maze, ghosts[k], order))
        case None => ghosts == old(ghosts) && unchanged(maze)
        case Some(q) =>
          && ghosts == old(ghosts)[k := q]
          && forall r, c :: 0 <= r < maze.Length0 && 0 <= c < maze.Length1 ==>
               maze[r, c] == if (r, c) == q then GHOST
                             else if (r, c) == p then (if p in pellets then PELLET else EMPTY)
                             else old(maze[r, c])
    {
      var p := ghosts[k];
      var i := 0;
      while i < |order| && !Enterable(maze, Step(p, order[i]))
        invariant 0 <= i <= |order|
        invariant FirstOpen(maze, p, order) == FirstOpen(maze, p, order[i..])
      {
        assert order[i..] == [order[i]] + order[i + 1..];
        i := i + 1;
      }
      if i < |order| {
        assert order[i..] == [order[i]] + order[i + 1..];
        var q := Step(p, order[i]);
        maze[p.0, p.1] := EMPTY;
        if p in pellets {
          maze[p.0, p.1] := PELLET;
        }
        ghosts := ghosts[k := q];
        maze[q.0, q.1] := GHOST;
      }
    }

    /**
     * move_ghosts: every ghost takes one step (or stays when walled in), in
     * list order, each with its own shuffled direction order; then the
     * collision check runs once. Nothing happens once the game is over.
     */
    method MoveGhosts(orders: seq<seq<Direction>>) returns (notices: seq<Notice>)
      requires Valid() && |orders| == |ghosts|
      requires forall k :: 0 <= k < |orders| ==> IsShuffle(orders[k])
      modifies this, maze
      ensures Valid()
      ensures old(gameOver) ==> unchanged(this) && unchanged(maze) && notices == []
      ensures pellets == old(pellets) && score == old(score)
      ensures |ghosts| == |old(ghosts)|
      ensures forall k :: 0 <= k < |ghosts| ==>
        ghosts[k] == old(ghosts[k]) || (Adjacent(old(ghosts[k]), ghosts[k]) && ghosts[k] !in walls)
      ensures !old(gameOver) ==>
        var o := Collide(ghosts, old(pac), old(lives));
        pac == o.pac && lives == o.lives && gameOver == o.over && notices == o.notices
    {
      if gameOver {
        return [];
      }
      var k := 0;
      while k < |ghosts|
        invariant 0 <= k <= |ghosts| == |old(ghosts)|
        invariant Valid() && !gameOver
        invariant pellets == old(pellets) && score == old(score)
        invariant pac == old(pac) && lives == old(lives)
        invariant forall j :: k <= j < |ghosts| ==> ghosts[j] == old(ghosts[j])
        invariant forall j :: 0 <= j < k ==>
          ghosts[j] == old(ghosts[j]) || (Adjacent(old(ghosts[j]), ghosts[j]) && ghosts[j] !in walls)
      {
        MoveGhost(k, orders[k]);
        k := k + 1;
      }
      notices := CheckCollision();
    }

    /**
     * move_pacman: the move step, then the collision check, which runs even
     * after a bump into a wall. Nothing happens once the game is over.
     */
    method MovePacman(d: Direction) returns (notices: seq<Notice>)
      requires Valid()
      modifies this, maze
      ensures Valid()
      ensures ghosts == old(ghosts)
      ensures forall q :: q in pellets ==> q in old(pellets)
      ensures old(gameOver) ==> unchanged(this) && unchanged(maze) && notices == []
      ensures !old(gameOver) ==>
        var t := Step(old(pac), d);
        var bump := old(maze[t.0, t.1]) == WALL;
        var mid := if bump then old(pac) else t;
        var o := Collide(old(ghosts), mid, old(lives));
        && (bump ==> pellets == old(pellets) && score == old(score))
        && (!bump ==> pellets == RemoveFirst(old(pellets), t) &&
                      score == old(score) + (if t in old(pellets) then PELLET_POINTS else 0))
        && pac == o.pac && lives == o.lives && gameOver == o.over && notices == o.notices
        && forall r, c :: 0 <= r < maze.Length0 && 0 <= c < maze.Length1 ==>
             maze[r, c] == if o.reset && (r, c) == START then PACMAN
                           else if o.reset && (r, c) == mid then EMPTY
                           else if !bump && (r, c) == t then PACMAN
                           else if !bump && (r, c) == old(pac) then EMPTY
                           else old(maze[r, c])
    {
      if gameOver {
        return [];
      }
      MoveStep(d);
      notices := CheckCollision();
    }
  }
}
