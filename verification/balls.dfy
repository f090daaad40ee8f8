/**
  Balls as the rules see them: a number and a kind, with position and
  velocity abstracted away, plus the opening rack built by `createBalls`.
 */
module Balls {
  import opened Wrappers

  /** The `type` tag a ball carries. */
  datatype Kind = Cue | Solid | Stripe | Eight

  datatype Ball = Ball(number: int, kind: Kind)

  const CueBall: Ball := Ball(0, Cue)

  /** Number of balls in the triangular rack (5 rows). */
  const RackSize: nat := 15

  /** The number-to-kind table; numbers outside 1..15 have no entry. */
  function KindOfNumber(n: int): Option<Kind>
  {
    if 1 <= n <= 7 then Some(Solid)
    else if n == 8 then Some(Eight)
    else if 9 <= n <= 15 then Some(Stripe)
    else None
  }

  /** The kind a solid/stripe assignment hands to the other players. */
  function Complement(k: Kind): Kind
  {
    if k == Solid then Stripe else Solid
  }

  /** A numbered ball in the rules' sense: neither the cue ball nor the eight. */
  predicate Numbered(b: Ball)
  {
    b.number != 0 && b.number != 8
  }

  /** A ball whose kind agrees with the table (and the cue ball is number 0). */
  predicate Sound(b: Ball)
  {
    if b.number == 0 then b.kind == Cue else KindOfNumber(b.number) == Some(b.kind)
  }

  lemma {:induction false} NumberedSoundIsGroup(b: Ball)
    requires Sound(b) && Numbered(b)
    ensures b.kind == Solid || b.kind == Stripe
    ensures b.kind == Solid <==> 1 <= b.number <= 7
  {
  }

  /*
    Rack numbering.  The counter in `createBalls` starts at 1 and is bumped
    on every slot except row 2 / column 2, which gets the literal 8.  Slots
    are numbered 0..14 in row-major order.
   */

  /** Index of the first slot of each row of the triangle. */
  function RowStart(row: nat): nat
    requires row <= 5
  {
    [0, 1, 3, 6, 10, 15][row]
  }

  /** Value of the counter once `done` slots have been filled. */
  function CounterAfter(done: nat): nat
  {
    if done <= 5 then done + 1 else done
  }

  /** Closed form of the number given to rack slot `slot`. */
  function RackNumber(slot: nat): int
    requires slot < RackSize
  {
    if slot < 5 then slot + 1 else if slot == 5 then 8 else slot
  }

  function RackBall(slot: nat): Ball
    requires slot < RackSize
  {
    var n := RackNumber(slot);
    Ball(n, KindOfNumber(n).value)
  }

  /** The opening layout: cue ball first, then the fifteen rack slots in row-major order. */
  function Rack(): seq<Ball>
  {
    [CueBall] + seq(RackSize, (s: nat) requires s < RackSize => RackBall(s))
  }

  /**
    The source's nested loop, statement for statement, including its two
    `break` guards; the ensures shows it builds `Rack()` and that the counter
    never exceeds 15, so neither guard ever fires.
   */
  method CreateBalls() returns (balls: seq<Ball>)
    ensures |balls| == 1 + RackSize
    ensures balls[0] == CueBall
    ensures forall i :: 1 <= i < |balls| ==> balls[i].number == RackNumber(i - 1)
    ensures forall i :: 0 <= i < |balls| ==> Sound(balls[i])
    ensures balls == Rack()
  {
    balls := [CueBall];
    var ballNumber := 1;
    var row := 0;
    while row < 5
      invariant 0 <= row <= 5
      invariant |balls| == 1 + RowStart(row)
      invariant ballNumber == CounterAfter(RowStart(row))
      invariant balls[0] == CueBall
      invariant forall i :: 1 <= i < |balls| ==> balls[i] == RackBall(i - 1)
    {
      var numBalls := row + 1;
      var col := 0;
      while col < numBalls
        invariant 0 <= col <= numBalls
        invariant |balls| == 1 + RowStart(row) + col
        invariant ballNumber == CounterAfter(RowStart(row) + col)
        invariant balls[0] == CueBall
        invariant forall i :: 1 <= i < |balls| ==> balls[i] == RackBall(i - 1)
      {
        var number;
        if row == 2 && col == 2 {
          number := 8;
        } else {
          number := ballNumber;
          ballNumber := ballNumber + 1;
        }
        balls := balls + [Ball(number, KindOfNumber(number).value)];
        if ballNumber > 15 {
          break;
        }
        col := col + 1;
      }
      if ballNumber > 15 {
        break;
      }
      row := row + 1;
    }
    assert |balls| == 1 + RackSize;
    forall i | 0 <= i < |balls|
      ensures Sound(balls[i])
    {
      if i > 0 {
        assert balls[i] == RackBall(i - 1);
      }
    }
    assert balls == Rack();
  }

  /** Every ball of the opening layout agrees with the number-to-kind table. */
  lemma RackSound()
    ensures |Rack()| == 16
    ensures forall i :: 0 <= i < |Rack()| ==> Sound(Rack()[i])
  {
    var r := Rack();
    forall i | 0 <= i < |r|
      ensures Sound(r[i])
    {
      if i > 0 {
        assert r[i] == RackBall(i - 1);
      }
    }
  }

  /** The opening layout written out ball by ball. */
  lemma RackContents()
    ensures Rack() == [CueBall, Ball(1, Solid), Ball(2, Solid), Ball(3, Solid), Ball(4, Solid),
                       Ball(5, Solid), Ball(8, Eight), Ball(6, Solid), Ball(7, Solid), Ball(8, Eight),
                       Ball(9, Stripe), Ball(10, Stripe), Ball(11, Stripe), Ball(12, Stripe),
                       Ball(13, Stripe), Ball(14, Stripe)]
  {
    var r := Rack();
    assert r[6] == RackBall(5) == Ball(8, Eight);
    assert r[9] == RackBall(8) == Ball(8, Eight);
  }

  /**
    The numbering the rack actually receives: 1..5, 8, 6..14.  Ball 8 sits
    in the centre slot of row 2 and again in slot 8; no ball is numbered 15,
    and the cue ball is the only ball numbered 0.
   */
  lemma RackNumbering()
    ensures Rack()[1 + RowStart(2) + 2] == Ball(8, Eight)
    ensures Rack()[1 + 8] == Ball(8, Eight)
    ensures forall i :: 0 <= i < |Rack()| ==> Rack()[i].number != 15
    ensures forall i :: 1 <= i < |Rack()| ==> Rack()[i].number != 0
  {
    var r := Rack();
    forall i | 1 <= i < |r|
      ensures r[i].number != 0 && r[i].number != 15
    {
      assert r[i] == RackBall(i - 1);
    }
  }
}
