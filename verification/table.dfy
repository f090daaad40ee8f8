/**
  The table and its phase flags: the per-frame `update` (with physics
  reduced to "balls are moving" and "which balls are over a pocket"), the
  press that places the cue ball, the shot, the roster buttons and the reset,
  together with the invariant every reachable state keeps.
 */
module Table {
  import opened Wrappers
  import opened Balls
  import opened Roster
  import opened Rules

  /** Number of entries of a mask equal to `v`. */
  function Count(mask: seq<bool>, v: bool): nat
  {
    if mask == [] then 0 else (if mask[0] == v then 1 else 0) + Count(mask[1..], v)
  }

  /** The balls whose mask entry is `v`, keeping table order (the `filter` in `update`). */
  function Select(balls: seq<Ball>, mask: seq<bool>, v: bool): (r: seq<Ball>)
    requires |mask| == |balls|
    ensures |r| == Count(mask, v)
  {
    if balls == [] then []
    else (if mask[0] == v then [balls[0]] else []) + Select(balls[1..], mask[1..], v)
  }

  /** Interleave two parts back into table order, guided by the mask. */
  function Merge(mask: seq<bool>, potted: seq<Ball>, live: seq<Ball>): seq<Ball>
    requires |potted| == Count(mask, true) && |live| == Count(mask, false)
  {
    if mask == [] then []
    else if mask[0] then [potted[0]] + Merge(mask[1..], potted[1..], live)
    else [live[0]] + Merge(mask[1..], potted, live[1..])
  }

  /**
    Splitting the live balls into the potted batch and the balls that stay
    loses nothing and keeps both parts in table order: merging them back
    along the mask gives the original sequence.
   */
  lemma {:induction false} SplitMergeRoundTrip(balls: seq<Ball>, mask: seq<bool>)
    requires |mask| == |balls|
    ensures Merge(mask, Select(balls, mask, true), Select(balls, mask, false)) == balls
    decreases |balls|
  {
    if balls != [] {
      SplitMergeRoundTrip(balls[1..], mask[1..]);
      var potted := Select(balls, mask, true);
      var live := Select(balls, mask, false);
      if mask[0] {
        assert potted == [balls[0]] + Select(balls[1..], mask[1..], true);
        assert live == Select(balls[1..], mask[1..], false);
      } else {
        assert potted == Select(balls[1..], mask[1..], true);
        assert live == [balls[0]] + Select(balls[1..], mask[1..], false);
      }
    }
  }

  /** The two parts of a split add up to the original balls, as a multiset. */
  lemma {:induction false} SplitConserves(balls: seq<Ball>, mask: seq<bool>)
    requires |mask| == |balls|
    ensures multiset(Select(balls, mask, true)) + multiset(Select(balls, mask, false)) == multiset(balls)
    decreases |balls|
  {
    if balls != [] {
      SplitConserves(balls[1..], mask[1..]);
      assert balls == [balls[0]] + balls[1..];
    }
  }

  /** With no ball over a pocket, the kept part is the whole sequence. */
  lemma {:induction false} SelectAllKept(balls: seq<Ball>, mask: seq<bool>)
    requires |mask| == |balls|
    ensures Count(mask, true) == 0 ==> Select(balls, mask, false) == balls
    decreases |balls|
  {
    if balls != [] {
      SelectAllKept(balls[1..], mask[1..]);
      assert balls == [balls[0]] + balls[1..];
    }
  }

  /** A number absent from the table is absent from either part of a split. */
  lemma SelectKeepsAbsent(balls: seq<Ball>, mask: seq<bool>, v: bool, n: int)
    requires |mask| == |balls|
    requires !HasNumber(balls, n)
    ensures !HasNumber(Select(balls, mask, v), n)
  {
    SplitConserves(balls, mask);
    var part := Select(balls, mask, v);
    forall j | 0 <= j < |part|
      ensures part[j].number != n
    {
      assert part[j] in multiset(balls);
    }
  }

  /** The mask of positions found over a pocket this tick. */
  function PocketMask(balls: seq<Ball>, overPocket: set<nat>): (m: seq<bool>)
    ensures |m| == |balls|
  {
    seq(|balls|, i requires 0 <= i < |balls| => i in overPocket)
  }

  /** What `handlePockets` needs of the state: a valid turn index and a terminating hand-over. */
  predicate Callable(g: Game)
  {
    g.current < |g.players| && (g.gameOver || SomeActive(g.players))
  }

  /**
    One frame of `update`.  While balls move, aiming is switched off, the
    balls over a pocket leave the table (in order) and, if there are any,
    go to `HandlePockets`.  Once everything rests, aiming is switched back
    on unless the game is over or the cue ball is in hand.
   */
  function Tick(g: Game, moving: bool, overPocket: set<nat>): (h: Game)
    requires Callable(g)
    ensures var mask := PocketMask(g.balls, overPocket);
            moving ==> && h.balls == Select(g.balls, mask, false)
                       && h.pocketed == g.pocketed + Select(g.balls, mask, true)
                       && !h.canAim
    ensures var mask := PocketMask(g.balls, overPocket);
            moving && Count(mask, true) == 0 ==> h == g.(canAim := false)
    ensures var mask := PocketMask(g.balls, overPocket);
            var g1 := g.(canAim := false, balls := Select(g.balls, mask, false));
            moving && Count(mask, true) > 0 ==> h == HandlePockets(g1, Select(g.balls, mask, true))
    ensures multiset(h.balls) + multiset(h.pocketed) == multiset(g.balls) + multiset(g.pocketed)
    ensures !moving ==> h.balls == g.balls && h.pocketed == g.pocketed && h.players == g.players
                        && h.current == g.current && h.gameOver == g.gameOver && h.winner == g.winner
                        && h.placingCueBall == g.placingCueBall
                        && (h.canAim <==> g.canAim || (!g.gameOver && !g.placingCueBall))
  {
    if moving then
      var mask := PocketMask(g.balls, overPocket);
      var batch := Select(g.balls, mask, true);
      var g1 := g.(canAim := false, balls := Select(g.balls, mask, false));
      SplitConserves(g.balls, mask);
      SelectAllKept(g.balls, mask);
      if |batch| > 0 then
        HandlePocketsKeepsAimOff(g1, batch);
        HandlePockets(g1, batch)
      else g1
    else if !g.gameOver && !g.canAim && !g.placingCueBall then
      g.(canAim := true)
    else
      g
  }

  /** Position of the first ball numbered `n`, if any (`balls.find`). */
  function FindNumber(balls: seq<Ball>, n: int): (r: Option<nat>)
    ensures r.Some? ==> r.value < |balls| && balls[r.value].number == n
                        && forall j :: 0 <= j < r.value ==> balls[j].number != n
    ensures r.None? <==> !HasNumber(balls, n)
  {
    if balls == [] then None
    else if balls[0].number == n then Some(0)
    else match FindNumber(balls[1..], n)
      case None => None
      case Some(i) => Some(i + 1)
  }

  /** The ball a placement moves: the cue ball if it is live, else whatever ball comes first. */
  function PlacementTarget(balls: seq<Ball>): (r: Option<nat>)
    ensures r.None? <==> |balls| == 0
    ensures r.Some? ==> r.value < |balls|
    ensures HasNumber(balls, 0) ==> r.Some? && balls[r.value].number == 0
    ensures !HasNumber(balls, 0) && |balls| > 0 ==> r == Some(0)
  {
    match FindNumber(balls, 0)
    case Some(i) => Some(i)
    case None => if |balls| > 0 then Some(0) else None
  }

  /**
    Result of pressing on the table: nothing happens, a ball is placed (its
    position is the one moved), or the placement dereferences a missing ball
    (the source throws before changing any state).
   */
  datatype PressOutcome = Unchanged | Placed(game: Game, moved: nat) | NoBallToMove

  /**
    The placement branch of `handleInputDown`; `validSpot` stands for the
    geometric check.  Pressing while aiming only starts a drag, which lives
    in the input layer, so it changes nothing here.
   */
  function Press(g: Game, moving: bool, validSpot: bool): (r: PressOutcome)
    ensures g.gameOver || moving || !g.placingCueBall || !validSpot ==> r == Unchanged
    ensures r.NoBallToMove? <==> !g.gameOver && !moving && g.placingCueBall && validSpot && |g.balls| == 0
    ensures !g.gameOver && !moving && g.placingCueBall && validSpot && |g.balls| > 0 ==>
              r == Placed(g.(placingCueBall := false, canAim := true), PlacementTarget(g.balls).value)
    ensures r.Placed? ==> && r.moved < |g.balls|
                          && !r.game.placingCueBall && r.game.canAim
                          && r.game == g.(placingCueBall := false, canAim := true)
  {
    if g.gameOver || moving then Unchanged
    else if g.placingCueBall then
      if validSpot then
        match PlacementTarget(g.balls)
        case Some(i) => Placed(g.(placingCueBall := false, canAim := true), i)
        case None => NoBallToMove
      else Unchanged
    else Unchanged
  }

  /** The shot: the first live ball is struck and aiming stops until the balls rest. */
  function Shoot(g: Game): Game
  {
    g.(canAim := false)
  }

  /** `reset`: two fresh players, the opening rack, no history, nothing decided. */
  function InitialGame(): Game
  {
    Game(Rack(), [], InitialRoster(), 0, false, None, false, false)
  }

  /** The commands the outside world drives the core with. */
  datatype Command =
    | Frame(moving: bool, overPocket: set<nat>)
    | PressAt(moving: bool, validSpot: bool)
    | Release
    | AddButton
    | RemoveButton
    | Restart

  function Step(g: Game, cmd: Command): Game
    requires Callable(g)
  {
    match cmd
    case Frame(moving, overPocket) => Tick(g, moving, overPocket)
    case PressAt(moving, validSpot) =>
      (match Press(g, moving, validSpot)
       case Placed(h, _) => h
       case _ => g)
    case Release => Shoot(g)
    case AddButton => if |g.players| > 0 then g.(players := AddPlayer(g.players)) else g
    case RemoveButton =>
      var r := RemovePlayer(g.players, g.current);
      g.(players := r.0, current := r.1)
    case Restart => InitialGame()
  }

  /** Roster facts of a reachable state: 2..8 distinct players, a turn in range, elimination only once the game is over, a winner exactly then. */
  predicate SeatsOk(g: Game)
  {
    && MinPlayers <= |g.players| <= MaxPlayers
    && g.current < |g.players|
    && UniqueIds(g.players)
    && (!g.gameOver ==> forall i :: 0 <= i < |g.players| ==> !g.players[i].eliminated)
    && (g.gameOver <==> g.winner.Some?)
  }

  /** Players only ever hold the solid or stripe kind. */
  predicate KindsOk(g: Game)
  {
    forall i :: 0 <= i < |g.players| ==> g.players[i].kind != Some(Cue) && g.players[i].kind != Some(Eight)
  }

  /**
    The invariant of every reachable state: the roster facts; never aiming
    while placing the cue ball or after the end; no live cue ball while it is
    in hand; every rack ball either live
    or potted, exactly once; players hold only solid or stripe.
   */
  predicate Valid(g: Game)
  {
    && SeatsOk(g)
    && !(g.canAim && g.placingCueBall)
    && (g.gameOver ==> !g.canAim)
    && (g.placingCueBall ==> !HasNumber(g.balls, 0))
    && multiset(g.balls) + multiset(g.pocketed) == multiset(Rack())
    && KindsOk(g)
  }

  lemma ValidIsCallable(g: Game)
    requires Valid(g)
    ensures Callable(g)
  {
    if !g.gameOver {
      assert !g.players[0].eliminated;
    }
  }

  lemma InitialGameValid()
    ensures Valid(InitialGame())
    ensures |InitialGame().balls| == 16 && InitialGame().balls[0] == CueBall
    ensures InitialGame().pocketed == []
    ensures |InitialGame().players| == 2 && InitialGame().current == 0
    ensures forall i :: 0 <= i < 2 ==> InitialGame().players[i] == Player(i + 1, None, false)
    ensures !InitialGame().gameOver && InitialGame().winner == None
    ensures !InitialGame().canAim && !InitialGame().placingCueBall
  {
    RackSound();
  }

  /** Any ball drawn from the rack agrees with the number-to-kind table. */
  lemma RackBallSound(b: Ball)
    requires b in multiset(Rack())
    ensures Sound(b)
  {
    RackSound();
    var i :| 0 <= i < |Rack()| && Rack()[i] == b;
  }

  /** Kind assignment from balls of the rack only ever hands out solid or stripe. */
  lemma RosterAfterKinds(ps: seq<Player>, shooter: nat, batch: seq<Ball>)
    requires shooter < |ps|
    requires forall j :: 0 <= j < |batch| ==> Sound(batch[j])
    requires forall i :: 0 <= i < |ps| ==> ps[i].kind != Some(Cue) && ps[i].kind != Some(Eight)
    ensures var r := RosterAfter(ps, shooter, batch);
            forall i :: 0 <= i < |r| ==> r[i].kind != Some(Cue) && r[i].kind != Some(Eight)
  {
    match FirstNumbered(batch)
    case None =>
    case Some(j) =>
      NumberedSoundIsGroup(batch[j]);
  }

  lemma {:induction false} SelectSound(balls: seq<Ball>, mask: seq<bool>, v: bool)
    requires |mask| == |balls|
    requires forall i :: 0 <= i < |balls| ==> Sound(balls[i])
    ensures forall i :: 0 <= i < |Select(balls, mask, v)| ==> Sound(Select(balls, mask, v)[i])
    decreases |balls|
  {
    if balls != [] {
      SelectSound(balls[1..], mask[1..], v);
    }
  }

  /** `HandlePockets` keeps the roster facts and the kinds, and never turns aiming on. */
  lemma HandlePocketsKeepsValid(g: Game, batch: seq<Ball>)
    requires SeatsOk(g) && KindsOk(g) && !g.canAim
    requires forall j :: 0 <= j < |batch| ==> Sound(batch[j])
    ensures Callable(g)
    ensures var h := HandlePockets(g, batch);
            SeatsOk(h) && KindsOk(h) && !h.canAim
    ensures HandlePockets(g, batch).placingCueBall ==> g.placingCueBall || HasNumber(batch, 0)
  {
    if !g.gameOver {
      assert !g.players[0].eliminated;
    }
    var h := HandlePockets(g, batch);
    KindAssignment(g, batch);
    RosterAfterKinds(g.players, g.current, batch);
    if HasNumber(batch, 0) {
      CueFoul(g, batch);
    } else if HasNumber(batch, 8) {
      EightBallOutcome(g, batch);
    } else {
      TurnContinuation(g, batch);
    }
    assert UniqueIds(h.players) by {
      assert forall i :: 0 <= i < |g.players| ==> h.players[i].id == g.players[i].id;
    }
  }

  lemma LiveBallsSound(g: Game)
    requires multiset(g.balls) + multiset(g.pocketed) == multiset(Rack())
    ensures forall i :: 0 <= i < |g.balls| ==> Sound(g.balls[i])
  {
    forall i | 0 <= i < |g.balls|
      ensures Sound(g.balls[i])
    {
      assert g.balls[i] in multiset(Rack());
      RackBallSound(g.balls[i]);
    }
  }

  lemma TickPreservesValid(g: Game, moving: bool, overPocket: set<nat>)
    requires Valid(g)
    ensures Callable(g)
    ensures Valid(Tick(g, moving, overPocket))
  {
    ValidIsCallable(g);
    if moving {
      var mask := PocketMask(g.balls, overPocket);
      var batch := Select(g.balls, mask, true);
      var g1 := g.(canAim := false, balls := Select(g.balls, mask, false));
      SplitConserves(g.balls, mask);
      if |batch| > 0 {
        LiveBallsSound(g);
        SelectSound(g.balls, mask, true);
        HandlePocketsKeepsValid(g1, batch);
        var h := Tick(g, moving, overPocket);
        if h.placingCueBall {
          if HasNumber(batch, 0) {
            OneCueBall(h.balls, batch, g.pocketed);
          } else {
            SelectKeepsAbsent(g.balls, mask, false, 0);
          }
        }
      }
    }
  }

  lemma StepPreservesValid(g: Game, cmd: Command)
    requires Valid(g)
    ensures Callable(g)
    ensures Valid(Step(g, cmd))
  {
    ValidIsCallable(g);
    match cmd
    case Frame(moving, overPocket) => TickPreservesValid(g, moving, overPocket);
    case PressAt(moving, validSpot) =>
    case Release =>
    case AddButton =>
    case RemoveButton =>
    case Restart => InitialGameValid();
  }

  /** The state after a run of commands. */
  function Run(g: Game, cmds: seq<Command>): Game
    requires Valid(g)
    decreases |cmds|
  {
    if cmds == [] then g
    else
      StepPreservesValid(g, cmds[0]);
      Run(Step(g, cmds[0]), cmds[1..])
  }

  /** Every state reached from a fresh game keeps the invariant. */
  lemma {:induction false} RunPreservesValid(g: Game, cmds: seq<Command>)
    requires Valid(g)
    ensures Valid(Run(g, cmds))
    decreases |cmds|
  {
    if cmds != [] {
      StepPreservesValid(g, cmds[0]);
      RunPreservesValid(Step(g, cmds[0]), cmds[1..]);
    }
  }

  /** The rack holds one cue ball, so once it is potted no live ball is numbered 0. */
  lemma OneCueBall(live: seq<Ball>, batch: seq<Ball>, pocketed: seq<Ball>)
    requires multiset(live) + multiset(pocketed + batch) == multiset(Rack())
    requires HasNumber(batch, 0)
    ensures !HasNumber(live, 0)
  {
    RackNumbering();
    assert multiset(Rack())[CueBall] == 1 by {
      assert Rack() == [CueBall] + Rack()[1..];
      assert CueBall !in Rack()[1..];
    }
    var j :| 0 <= j < |batch| && batch[j].number == 0;
    assert batch[j] in multiset(Rack());
    RackBallSound(batch[j]);
    assert multiset(pocketed + batch)[CueBall] >= 1;
    assert multiset(live)[CueBall] == 0;
    if HasNumber(live, 0) {
      var k :| 0 <= k < |live| && live[k].number == 0;
      assert live[k] in multiset(Rack());
      RackBallSound(live[k]);
      assert false;
    }
  }

  /**
    In every reachable state with the cue ball in hand, a valid placement
    moves position 0, which holds a numbered ball, or fails on an empty table.
   */
  lemma PlacementMovesNumberedBall(g: Game)
    requires Valid(g) && !g.gameOver && g.placingCueBall
    ensures |g.balls| > 0 ==> Press(g, false, true) == Placed(g.(placingCueBall := false, canAim := true), 0)
                              && g.balls[0].number != 0
    ensures |g.balls| == 0 ==> Press(g, false, true) == NoBallToMove
  {
  }

  /**
    After a cue-ball foul the cue ball is gone from the table, so the next
    placement moves the first live numbered ball (or fails on an empty table).
   */
  lemma PlacementAfterCueFoul(g: Game, overPocket: set<nat>)
    requires Valid(g) && !g.gameOver
    requires HasNumber(Select(g.balls, PocketMask(g.balls, overPocket), true), 0)
    ensures Callable(g)
    ensures var h := Tick(g, true, overPocket);
            && h.placingCueBall && !h.canAim
            && !HasNumber(h.balls, 0)
            && (|h.balls| > 0 ==> Press(h, false, true) == Placed(h.(placingCueBall := false, canAim := true), 0)
                                  && h.balls[0].number != 0)
            && (|h.balls| == 0 ==> Press(h, false, true) == NoBallToMove)
  {
    ValidIsCallable(g);
    var mask := PocketMask(g.balls, overPocket);
    var batch := Select(g.balls, mask, true);
    var live := Select(g.balls, mask, false);
    var g1 := g.(canAim := false, balls := live);
    CueFoul(g1, batch);
    var h := Tick(g, true, overPocket);
    assert h == HandlePockets(g1, batch);
    TickPreservesValid(g, true, overPocket);
    OneCueBall(h.balls, batch, g.pocketed);
  }
}
