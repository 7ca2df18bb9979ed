// The collision pass: Pac-Man's position compared with each ghost in list
// order, one life taken per match, Pac-Man sent back to the start after each
// match that does not end the game.

module Collision {
  import opened Maze

  /** What the pass asks the presentation layer to show. */
  datatype Notice = LostLife | GameOver

  /**
   * The result of one pass: Pac-Man's final position and lives, whether the
   * game ended, whether Pac-Man was sent back to the start at least once,
   * and the notices shown, in order.
   */
  datatype Outcome = Outcome(pac: Pos, lives: int, over: bool, reset: bool, notices: seq<Notice>)

  /**
   * The pass over the ghosts `gs`. A match takes a life; reaching 0 ends the
   * game on the spot, before the reset; otherwise Pac-Man goes back to the
   * start and later ghosts are compared against the start.
   */
  function Collide(gs: seq<Pos>, pac: Pos, lives: int): (o: Outcome)
    ensures o.pac == if o.reset then START else pac
    ensures o.lives <= lives
  {
    if gs == [] then Outcome(pac, lives, false, false, [])
    else if gs[0] == pac then
      if lives - 1 == 0 then Outcome(pac, 0, true, false, [GameOver])
      else
        var rest := Collide(gs[1..], START, lives - 1);
        rest.(reset := true, notices := (if lives - 1 > 0 then [LostLife] else []) + rest.notices)
    else Collide(gs[1..], pac, lives)
  }

  /**
   * How many lives a pass would take if lives never ran out: the first ghost
   * on Pac-Man's cell, then every later ghost on the start cell.
   */
  function Hits(gs: seq<Pos>, pac: Pos): nat
  {
    if gs == [] then 0
    else if gs[0] == pac then 1 + multiset(gs[1..])[START]
    else Hits(gs[1..], pac)
  }

  /** From the start cell, the hits are just the ghosts standing on it. */
  lemma {:induction false} HitsFromStart(gs: seq<Pos>)
    ensures Hits(gs, START) == multiset(gs)[START]
  {
    if gs != [] {
      assert gs == [gs[0]] + gs[1..];
      if gs[0] != START {
        HitsFromStart(gs[1..]);
      }
    }
  }

  /**
   * A pass with at least one life left takes one life per hit and stops at 0:
   * the game ends exactly when the hits reach the lives, one notice is shown
   * per life taken (the last one says the game is over when it is), and
   * Pac-Man is at the start after a pass that took a life and left some.
   */
  lemma {:induction false} CollideTakesOneLifePerHit(gs: seq<Pos>, pac: Pos, lives: int)
    requires lives >= 1
    ensures var o := Collide(gs, pac, lives); var n := Hits(gs, pac);
      && (o.over <==> n >= lives)
      && o.lives == (if n >= lives then 0 else lives - n)
      && |o.notices| == lives - o.lives
      && (forall i :: 0 <= i < |o.notices| ==>
            o.notices[i] == if o.over && i == |o.notices| - 1 then GameOver else LostLife)
      && (o.reset <==> n >= 1 && lives >= 2)
      && (!o.over ==> o.pac == if n == 0 then pac else START)
  {
    if gs != [] {
      if gs[0] == pac {
        if lives - 1 != 0 {
          CollideTakesOneLifePerHit(gs[1..], START, lives - 1);
          HitsFromStart(gs[1..]);
          var rest := Collide(gs[1..], START, lives - 1);
          var o := Collide(gs, pac, lives);
          assert o.notices == [LostLife] + rest.notices;
          forall i | 0 <= i < |o.notices|
            ensures o.notices[i] == if o.over && i == |o.notices| - 1 then GameOver else LostLife
          {
            if i > 0 {
              assert o.notices[i] == rest.notices[i - 1];
            }
          }
        }
      } else {
        CollideTakesOneLifePerHit(gs[1..], pac, lives);
      }
    }
  }
}
