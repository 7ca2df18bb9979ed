// The maze grid, its cell codes, and the two scans the game runs over it at
// start-up: the pellet list and the Pac-Man / ghost positions.

module Maze {

  datatype Option<T> = None | Some(value: T)

  /** A grid coordinate: (row, column). */
  type Pos = (int, int)

  // Cell codes stored in the maze grid.
  const EMPTY := 0
  const WALL := 1
  const PELLET := 2
  const GHOST := 3
  const PACMAN := 4

  /** Where Pac-Man is put back after losing a life. */
  const START: Pos := (1, 1)

  predicate InBounds(m: array2<int>, p: Pos)
  {
    0 <= p.0 < m.Length0 && 0 <= p.1 < m.Length1
  }

  /** Strictly inside the outer ring of the grid, so every neighbour is in bounds. */
  predicate Interior(m: array2<int>, p: Pos)
  {
    1 <= p.0 < m.Length0 - 1 && 1 <= p.1 < m.Length1 - 1
  }

  predicate OnBorder(m: array2<int>, p: Pos)
  {
    InBounds(m, p) && (p.0 == 0 || p.0 == m.Length0 - 1 || p.1 == 0 || p.1 == m.Length1 - 1)
  }

  /** Row-major order: p is visited before q when the grid is read row by row. */
  predicate Before(p: Pos, q: Pos)
  {
    p.0 < q.0 || (p.0 == q.0 && p.1 < q.1)
  }

  predicate Ordered(s: seq<Pos>)
  {
    forall i, j :: 0 <= i < j < |s| ==> Before(s[i], s[j])
  }

  predicate NoDup(s: seq<Pos>)
  {
    forall i, j :: 0 <= i < j < |s| ==> s[i] != s[j]
  }

  /**
   * The coordinates of the cells holding `v` that come before (r, c) when
   * the grid is read row by row, in that order. (m.Length0, 0) is the end
   * of the grid.
   */
  function ScanBefore(m: array2<int>, v: int, r: nat, c: nat): seq<Pos>
    reads m
    requires r <= m.Length0 && c <= m.Length1
    requires r == m.Length0 ==> c == 0
    decreases r, c
  {
    if c == 0 then
      if r == 0 then [] else ScanBefore(m, v, r - 1, m.Length1)
    else
      ScanBefore(m, v, r, c - 1) + (if m[r, c - 1] == v then [(r, c - 1)] else [])
  }

  /** The cells holding `v`, over the whole grid, in row-major order. */
  function Cells(m: array2<int>, v: int): seq<Pos>
    reads m
  {
    ScanBefore(m, v, m.Length0, 0)
  }

  /** A scan lists exactly the in-bounds cells holding `v` before (r, c). */
  lemma {:induction false} ScanBeforeMembers(m: array2<int>, v: int, r: nat, c: nat)
    requires r <= m.Length0 && c <= m.Length1
    requires r == m.Length0 ==> c == 0
    ensures forall p :: p in ScanBefore(m, v, r, c) <==>
      InBounds(m, p) && Before(p, (r, c)) && m[p.0, p.1] == v
    decreases r, c
  {
    if c == 0 {
      if r != 0 {
        ScanBeforeMembers(m, v, r - 1, m.Length1);
      }
    } else {
      ScanBeforeMembers(m, v, r, c - 1);
    }
  }

  /** A scan lists its cells in strictly increasing row-major order. */
  lemma {:induction false} ScanBeforeOrdered(m: array2<int>, v: int, r: nat, c: nat)
    requires r <= m.Length0 && c <= m.Length1
    requires r == m.Length0 ==> c == 0
    ensures Ordered(ScanBefore(m, v, r, c))
    decreases r, c
  {
    if c == 0 {
      if r != 0 {
        ScanBeforeOrdered(m, v, r - 1, m.Length1);
      }
    } else {
      ScanBeforeOrdered(m, v, r, c - 1);
      ScanBeforeMembers(m, v, r, c - 1);
      var front := ScanBefore(m, v, r, c - 1);
      assert forall q :: q in front ==> Before(q, (r, c - 1));
    }
  }

  function Last(s: seq<Pos>): Option<Pos>
  {
    if s == [] then None else Some(s[|s| - 1])
  }

  /**
   * The last entry of the whole-grid scan is the last cell holding `v` in
   * row-major order, and there is none exactly when no cell holds `v`.
   */
  lemma LastOfCells(m: array2<int>, v: int)
    ensures Last(Cells(m, v)).None? <==>
      forall r, c :: 0 <= r < m.Length0 && 0 <= c < m.Length1 ==> m[r, c] != v
    ensures Last(Cells(m, v)).Some? ==>
      var p := Last(Cells(m, v)).value;
      InBounds(m, p) && m[p.0, p.1] == v &&
      forall r, c :: 0 <= r < m.Length0 && 0 <= c < m.Length1 && Before(p, (r, c)) ==> m[r, c] != v
  {
    var s := Cells(m, v);
    ScanBeforeMembers(m, v, m.Length0, 0);
    ScanBeforeOrdered(m, v, m.Length0, 0);
    if s != [] {
      var p := s[|s| - 1];
      forall i | 0 <= i < |s| ensures !Before(p, s[i]) {
        assert i < |s| - 1 ==> Before(s[i], p);
      }
    } else {
      forall r, c | 0 <= r < m.Length0 && 0 <= c < m.Length1
        ensures m[r, c] != v
      {
        assert (r, c) !in s;
      }
    }
  }

  /**
   * The pellet list built once from the initial maze (main.py:29): every
   * in-bounds cell holding a pellet, each listed once.
   */
  function InitialPellets(m: array2<int>): (ps: seq<Pos>)
    reads m
    ensures forall p :: p in ps <==> InBounds(m, p) && m[p.0, p.1] == PELLET
    ensures NoDup(ps)
  {
    ScanBeforeMembers(m, PELLET, m.Length0, 0);
    ScanBeforeOrdered(m, PELLET, m.Length0, 0);
    Cells(m, PELLET)
  }

  /**
   * get_positions: one row-major pass over the grid that keeps the last
   * Pac-Man cell seen and collects every ghost cell in order.
   */
  method GetPositions(m: array2<int>) returns (pac: Option<Pos>, ghosts: seq<Pos>)
    ensures pac == Last(Cells(m, PACMAN))
    ensures ghosts == Cells(m, GHOST)
  {
    pac := None;
    ghosts := [];
    var r := 0;
    while r < m.Length0
      invariant 0 <= r <= m.Length0
      invariant pac == Last(ScanBefore(m, PACMAN, r, 0))
      invariant ghosts == ScanBefore(m, GHOST, r, 0)
    {
      var c := 0;
      while c < m.Length1
        invariant 0 <= c <= m.Length1
        invariant pac == Last(ScanBefore(m, PACMAN, r, c))
        invariant ghosts == ScanBefore(m, GHOST, r, c)
      {
        if m[r, c] == PACMAN {
          pac := Some((r, c));
        } else if m[r, c] == GHOST {
          ghosts := ghosts + [(r, c)];
        }
        c := c + 1;
      }
      r := r + 1;
    }
  }
}
