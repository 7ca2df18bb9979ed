// One-cell moves on the grid: the four directions, the arrow-key mapping, the
// first enterable neighbour a ghost picks, and removing an eaten pellet from
// the pellet list.

module Moves {
  import opened Maze

  datatype Direction = Up | Down | Left | Right

  /** The keys the event loop reacts to; any other key is ignored. */
  datatype Key = ArrowUp | ArrowDown | ArrowLeft | ArrowRight | OtherKey

  /** p and q are orthogonal neighbours. */
  predicate Adjacent(p: Pos, q: Pos)
  {
    (p.0 == q.0 && (q.1 == p.1 + 1 || q.1 == p.1 - 1)) ||
    (p.1 == q.1 && (q.0 == p.0 + 1 || q.0 == p.0 - 1))
  }

  /** The cell one step from p: up and down change the row, left and right the column. */
  function Step(p: Pos, d: Direction): (q: Pos)
    ensures Adjacent(p, q)
    ensures d == Up || d == Down ==> q.1 == p.1
    ensures d == Left || d == Right ==> q.0 == p.0
  {
    match d
    case Up => (p.0 - 1, p.1)
    case Down => (p.0 + 1, p.1)
    case Left => (p.0, p.1 - 1)
    case Right => (p.0, p.1 + 1)
  }

  /** The arrow-key dispatch of the event loop: each arrow key to its direction. */
  function KeyDirection(k: Key): (d: Option<Direction>)
    ensures d.None? <==> k == OtherKey
    ensures d == Some(Up) <==> k == ArrowUp
    ensures d == Some(Down) <==> k == ArrowDown
    ensures d == Some(Left) <==> k == ArrowLeft
    ensures d == Some(Right) <==> k == ArrowRight
  {
    match k
    case ArrowUp => Some(Up)
    case ArrowDown => Some(Down)
    case ArrowLeft => Some(Left)
    case ArrowRight => Some(Right)
    case OtherKey => None
  }

  /** The order the direction list starts in: right, left, down, up. */
  const DIRECTIONS: seq<Direction> := [Right, Left, Down, Up]

  /** A shuffled direction list: a permutation of the four directions. */
  predicate IsShuffle(order: seq<Direction>)
  {
    multiset(order) == multiset(DIRECTIONS)
  }

  /** A ghost may enter a cell that is empty or holds a pellet. */
  predicate Enterable(m: array2<int>, q: Pos)
    reads m
    requires InBounds(m, q)
  {
    m[q.0, q.1] == EMPTY || m[q.0, q.1] == PELLET
  }

  /** The first neighbour of p, in the given direction order, that a ghost may enter. */
  function FirstOpen(m: array2<int>, p: Pos, order: seq<Direction>): (r: Option<Pos>)
    reads m
    requires Interior(m, p)
    ensures r.Some? ==> Adjacent(p, r.value) && InBounds(m, r.value) && Enterable(m, r.value)
  {
    if order == [] then None
    else if Enterable(m, Step(p, order[0])) then Some(Step(p, order[0]))
    else FirstOpen(m, p, order[1..])
  }

  /**
   * FirstOpen finds nothing exactly when no direction in the order leads to an
   * enterable cell; otherwise it picks the neighbour of the earliest such direction.
   */
  lemma {:induction false} FirstOpenIsFirst(m: array2<int>, p: Pos, order: seq<Direction>)
    requires Interior(m, p)
    ensures FirstOpen(m, p, order).None? <==>
      forall j :: 0 <= j < |order| ==> !Enterable(m, Step(p, order[j]))
    ensures FirstOpen(m, p, order).Some? ==>
      exists i :: 0 <= i < |order| && FirstOpen(m, p, order).value == Step(p, order[i]) &&
        Enterable(m, Step(p, order[i])) &&
        forall j :: 0 <= j < i ==> !Enterable(m, Step(p, order[j]))
  {
    if order != [] && !Enterable(m, Step(p, order[0])) {
      FirstOpenIsFirst(m, p, order[1..]);
      var rest := order[1..];
      assert forall j :: 1 <= j < |order| ==> order[j] == rest[j - 1];
      if FirstOpen(m, p, rest).Some? {
        var i :| 0 <= i < |rest| && FirstOpen(m, p, rest).value == Step(p, rest[i]) &&
          Enterable(m, Step(p, rest[i])) &&
          forall j :: 0 <= j < i ==> !Enterable(m, Step(p, rest[j]));
        assert order[i + 1] == rest[i];
      }
    } else if order != [] {
      assert FirstOpen(m, p, order).value == Step(p, order[0]);
    }
  }

  /**
   * Eating a pellet: list.remove drops the first occurrence of x, and the
   * membership guard in front of it leaves the list as it is when x is not
   * listed. The other entries keep their order.
   */
  function RemoveFirst(s: seq<Pos>, x: Pos): (r: seq<Pos>)
    ensures x !in s ==> r == s
    ensures x in s ==> |r| == |s| - 1 && multiset(r) == multiset(s) - multiset{x}
  {
    if s == [] then []
    else
      assert s == [s[0]] + s[1..];
      if s[0] == x then s[1..] else [s[0]] + RemoveFirst(s[1..], x)
  }

  /** Where the first occurrence of a listed x sits. */
  function IndexOf(s: seq<Pos>, x: Pos): (i: nat)
    requires x in s
    ensures i < |s| && s[i] == x && x !in s[..i]
  {
    if s[0] == x then 0
    else
      var j := IndexOf(s[1..], x);
      assert s[..j + 1] == [s[0]] + s[1..][..j];
      j + 1
  }

  /** A listed x is cut out at its first occurrence; the entries around it keep their order. */
  lemma {:induction false} RemoveFirstKeepsOrder(s: seq<Pos>, x: Pos)
    requires x in s
    ensures var i := IndexOf(s, x); RemoveFirst(s, x) == s[..i] + s[i + 1..]
  {
    if s[0] != x {
      var t := s[1..];
      RemoveFirstKeepsOrder(t, x);
      var j := IndexOf(t, x);
      assert s == [s[0]] + t;
      SpliceAfterHead(s[0], t, j);
    }
  }

  /** Cutting entry j out of t and putting a in front is cutting entry j + 1 out of [a] + t. */
  lemma SpliceAfterHead(a: Pos, t: seq<Pos>, j: nat)
    requires j < |t|
    ensures [a] + (t[..j] + t[j + 1..]) == ([a] + t)[..j + 1] + ([a] + t)[j + 2..]
  {
  }

  /** On a list without repeats, removing x removes exactly x and keeps the list repeat-free. */
  lemma {:induction false} RemoveFirstNoDup(s: seq<Pos>, x: Pos)
    requires NoDup(s)
    ensures NoDup(RemoveFirst(s, x))
    ensures forall y :: y in RemoveFirst(s, x) <==> y in s && y != x
  {
    if s != [] {
      var t := s[1..];
      assert NoDup(t) by {
        forall i, j | 0 <= i < j < |t| ensures t[i] != t[j] {
          assert t[i] == s[i + 1] && t[j] == s[j + 1];
        }
      }
      assert s[0] !in t by {
        forall j | 0 <= j < |t| ensures t[j] != s[0] {
          assert t[j] == s[j + 1];
        }
      }
      if s[0] != x {
        RemoveFirstNoDup(t, x);
        var r := RemoveFirst(s, x);
        var rt := RemoveFirst(t, x);
        assert r == [s[0]] + rt;
        forall i, j | 0 <= i < j < |r| ensures r[i] != r[j] {
          if i == 0 {
            assert r[j] == rt[j - 1];
            assert rt[j - 1] in rt;
          } else {
            assert r[i] == rt[i - 1] && r[j] == rt[j - 1];
          }
        }
      }
    }
  }
}
