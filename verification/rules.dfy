/**
  The rule engine: `handlePockets`, which reads one tick's batch of potted
  balls as the outcome of a shot and updates the history, the kinds assigned
  to players, the turn, fouls, elimination and the winner.
 */
module Rules {
  import opened Wrappers
  import opened Balls
  import opened Roster

  /**
    The discrete game state: live balls (in table order), the potted-ball
    history, the roster and whose turn it is, the end-of-game facts (the
    winner is recorded by player id) and the two phase flags.
   */
  datatype Game = Game(
    balls: seq<Ball>,
    pocketed: seq<Ball>,
    players: seq<Player>,
    current: nat,
    gameOver: bool,
    winner: Option<int>,
    canAim: bool,
    placingCueBall: bool)

  /** What the `forEach` over a batch accumulates: the roster and three flags. */
  datatype Scan = Scan(players: seq<Player>, cue: bool, eight: bool, valid: bool)

  /**
    The global side effect of the first numbered ball an unassigned shooter
    pots: the shooter takes its kind, every other unassigned player (other id)
    takes the complementary kind, everyone else is left alone.
   */
  function AssignKinds(ps: seq<Player>, shooter: nat, k: Kind): seq<Player>
    requires shooter < |ps|
  {
    seq(|ps|, i requires 0 <= i < |ps| =>
      if i == shooter then ps[i].(kind := Some(k))
      else if ps[i].id != ps[shooter].id && ps[i].kind.None? then ps[i].(kind := Some(Complement(k)))
      else ps[i])
  }

  /** One iteration of the `forEach` in `handlePockets`. */
  function Visit(s: Scan, shooter: nat, b: Ball): (r: Scan)
    requires shooter < |s.players|
  {
    if b.number == 0 then s.(cue := true)
    else if b.number == 8 then s.(eight := true)
    else
      var ps := if s.players[shooter].kind.None? then AssignKinds(s.players, shooter, b.kind) else s.players;
      s.(players := ps, valid := s.valid || ps[shooter].kind == Some(b.kind))
  }

  /**
    The whole `forEach`, left to right.  Ids and elimination flags are never
    touched, and a kind once set is never changed.
   */
  function ScanBatch(s: Scan, shooter: nat, batch: seq<Ball>): (r: Scan)
    requires shooter < |s.players|
    ensures |r.players| == |s.players|
    ensures forall i :: 0 <= i < |s.players| ==>
              && r.players[i].id == s.players[i].id
              && r.players[i].eliminated == s.players[i].eliminated
              && (s.players[i].kind.Some? ==> r.players[i].kind == s.players[i].kind)
    decreases |batch|
  {
    if batch == [] then s else ScanBatch(Visit(s, shooter, batch[0]), shooter, batch[1..])
  }

  /** Position of the first numbered ball of a batch, if any. */
  function FirstNumbered(batch: seq<Ball>): (r: Option<nat>)
    ensures r.Some? ==> r.value < |batch| && Numbered(batch[r.value])
                        && forall j :: 0 <= j < r.value ==> !Numbered(batch[j])
    ensures r.None? ==> forall j :: 0 <= j < |batch| ==> !Numbered(batch[j])
  {
    if batch == [] then None
    else if Numbered(batch[0]) then Some(0)
    else match FirstNumbered(batch[1..])
      case None => None
      case Some(i) => Some(i + 1)
  }

  /**
    The roster after a batch, stated without the loop: only an unassigned
    shooter who pots a numbered ball changes anything, and then the kind
    comes from the first numbered ball in batch order.
   */
  function RosterAfter(ps: seq<Player>, shooter: nat, batch: seq<Ball>): seq<Player>
    requires shooter < |ps|
  {
    match FirstNumbered(batch)
    case Some(i) => if ps[shooter].kind.None? then AssignKinds(ps, shooter, batch[i].kind) else ps
    case None => ps
  }

  predicate HasNumber(batch: seq<Ball>, n: int)
  {
    exists i :: 0 <= i < |batch| && batch[i].number == n
  }

  /** The shot is "valid": some numbered ball in the batch is of the shooter's kind. */
  predicate PotsOwnKind(batch: seq<Ball>, k: Option<Kind>)
  {
    exists i :: 0 <= i < |batch| && Numbered(batch[i]) && Some(batch[i].kind) == k
  }

  /**
    After an assignment the shooter holds the ball's kind, and when the
    shooter was unassigned, players who already held a kind are untouched.
   */
  lemma AssignKindsSettled(ps: seq<Player>, shooter: nat, k: Kind)
    requires shooter < |ps|
    ensures AssignKinds(ps, shooter, k)[shooter].kind == Some(k)
    ensures ps[shooter].kind.None? ==> forall i :: 0 <= i < |ps| ==> ps[i].kind.Some? ==> AssignKinds(ps, shooter, k)[i] == ps[i]
  {
  }

  lemma HasNumberCons(batch: seq<Ball>, n: int)
    requires |batch| > 0
    ensures HasNumber(batch, n) <==> batch[0].number == n || HasNumber(batch[1..], n)
  {
    if HasNumber(batch, n) && batch[0].number != n {
      var j :| 0 <= j < |batch| && batch[j].number == n;
      assert batch[1..][j - 1] == batch[j];
    }
    if HasNumber(batch[1..], n) {
      var j :| 0 <= j < |batch[1..]| && batch[1..][j].number == n;
      assert batch[j + 1] == batch[1..][j];
    }
  }

  lemma PotsOwnKindCons(batch: seq<Ball>, k: Option<Kind>)
    requires |batch| > 0
    ensures PotsOwnKind(batch, k) <==>
              (Numbered(batch[0]) && Some(batch[0].kind) == k) || PotsOwnKind(batch[1..], k)
  {
    if PotsOwnKind(batch, k) && !(Numbered(batch[0]) && Some(batch[0].kind) == k) {
      var j :| 0 <= j < |batch| && Numbered(batch[j]) && Some(batch[j].kind) == k;
      assert batch[1..][j - 1] == batch[j];
    }
    if PotsOwnKind(batch[1..], k) {
      var j :| 0 <= j < |batch[1..]| && Numbered(batch[1..][j]) && Some(batch[1..][j].kind) == k;
      assert batch[j + 1] == batch[1..][j];
    }
  }

  /** The cue and eight flags of the loop record whether those numbers occur in the batch. */
  lemma {:induction false} ScanFlags(s: Scan, shooter: nat, batch: seq<Ball>)
    requires shooter < |s.players|
    ensures ScanBatch(s, shooter, batch).cue <==> s.cue || HasNumber(batch, 0)
    ensures ScanBatch(s, shooter, batch).eight <==> s.eight || HasNumber(batch, 8)
    decreases |batch|
  {
    if batch != [] {
      ScanFlags(Visit(s, shooter, batch[0]), shooter, batch[1..]);
      HasNumberCons(batch, 0);
      HasNumberCons(batch, 8);
    }
  }

  /** Once the shooter holds a kind, the rest of the batch leaves the roster alone. */
  lemma {:induction false} ScanSettled(s: Scan, shooter: nat, batch: seq<Ball>)
    requires shooter < |s.players|
    requires s.players[shooter].kind.Some?
    ensures ScanBatch(s, shooter, batch).players == s.players
    decreases |batch|
  {
    if batch != [] {
      ScanSettled(Visit(s, shooter, batch[0]), shooter, batch[1..]);
    }
  }

  /** The loop's roster is the loop-free `RosterAfter`. */
  lemma {:induction false} ScanRoster(s: Scan, shooter: nat, batch: seq<Ball>)
    requires shooter < |s.players|
    ensures ScanBatch(s, shooter, batch).players == RosterAfter(s.players, shooter, batch)
    decreases |batch|
  {
    if batch != [] {
      var s1 := Visit(s, shooter, batch[0]);
      var tail := batch[1..];
      if Numbered(batch[0]) {
        ScanSettled(s1, shooter, tail);
      } else {
        ScanRoster(s1, shooter, tail);
        match FirstNumbered(tail)
        case None =>
        case Some(i) =>
          assert batch[i + 1] == tail[i];
      }
    }
  }

  /** The loop's `validShot` says the batch pots a numbered ball of the shooter's final kind. */
  lemma {:induction false} ScanValid(s: Scan, shooter: nat, batch: seq<Ball>)
    requires shooter < |s.players|
    ensures var r := ScanBatch(s, shooter, batch);
            r.valid <==> s.valid || PotsOwnKind(batch, r.players[shooter].kind)
    decreases |batch|
  {
    if batch != [] {
      var s1 := Visit(s, shooter, batch[0]);
      var tail := batch[1..];
      ScanValid(s1, shooter, tail);
      PotsOwnKindCons(batch, ScanBatch(s1, shooter, tail).players[shooter].kind);
      if Numbered(batch[0]) {
        ScanSettled(s1, shooter, tail);
      }
    }
  }

  /**
    The loop agrees with the loop-free description: roster and all three
    flags of `ScanBatch` are those of `RosterAfter`, `HasNumber` and
    `PotsOwnKind`.
   */
  lemma ScanMatchesDescription(s: Scan, shooter: nat, batch: seq<Ball>)
    requires shooter < |s.players|
    ensures var r := ScanBatch(s, shooter, batch);
            && r.players == RosterAfter(s.players, shooter, batch)
            && (r.cue <==> s.cue || HasNumber(batch, 0))
            && (r.eight <==> s.eight || HasNumber(batch, 8))
            && (r.valid <==> s.valid || PotsOwnKind(batch, r.players[shooter].kind))
  {
    ScanFlags(s, shooter, batch);
    ScanRoster(s, shooter, batch);
    ScanValid(s, shooter, batch);
  }

  /** Live balls other than the cue ball whose kind equals `k` (the source's `remaining`). */
  function Remaining(balls: seq<Ball>, k: Option<Kind>): (count: nat)
    ensures count <= |balls|
    ensures count == 0 <==> forall i :: 0 <= i < |balls| ==> balls[i].number == 0 || Some(balls[i].kind) != k
  {
    if balls == [] then 0
    else (if balls[0].number != 0 && Some(balls[0].kind) == k then 1 else 0) + Remaining(balls[1..], k)
  }

  /** The players not eliminated, in roster order (the source's `filter`). */
  function Active(ps: seq<Player>): (r: seq<Player>)
    ensures |r| == CountActive(ps)
    ensures forall j :: 0 <= j < |r| ==> !r[j].eliminated && r[j] in ps
    ensures forall i :: 0 <= i < |ps| && !ps[i].eliminated ==> ps[i] in r
  {
    if ps == [] then []
    else (if ps[0].eliminated then [] else [ps[0]]) + Active(ps[1..])
  }

  /** The filter keeps roster order: its head is the first active seat. */
  lemma {:induction false} ActiveHead(ps: seq<Player>, i: nat)
    requires i < |ps| && !ps[i].eliminated
    requires forall k :: 0 <= k < i ==> ps[k].eliminated
    ensures |Active(ps)| > 0 && Active(ps)[0] == ps[i]
    decreases i
  {
    if i > 0 {
      assert ps[1..][i - 1] == ps[i];
      ActiveHead(ps[1..], i - 1);
    }
  }

  /**
    The eight ball was potted without the cue ball: the game ends.  With no
    ball of the shooter's kind left on the table the shooter wins; otherwise
    the shooter is eliminated and the winner is the only active player, or
    else the next seat, whether or not that player is eliminated.
   */
  function EightOutcome(g: Game): Game
    requires g.current < |g.players|
  {
    var shooter := g.players[g.current];
    if Remaining(g.balls, shooter.kind) == 0 then
      g.(gameOver := true, winner := Some(shooter.id))
    else
      var ps := g.players[g.current := shooter.(eliminated := true)];
      g.(gameOver := true, players := ps, winner := Some(EliminationWinner(ps, g.current)))
  }

  /** The winner's id once the shooter at `shooter` is eliminated: the sole active player, else the next seat. */
  function EliminationWinner(ps: seq<Player>, shooter: nat): int
    requires shooter < |ps|
  {
    var active := Active(ps);
    if |active| == 1 then active[0].id else ps[(shooter + 1) % |ps|].id
  }

  /**
    `handlePockets`: `g.balls` are the live balls after this tick's batch
    was removed.  The cue-ball foul is decided before the eight ball.
   */
  function HandlePockets(g: Game, batch: seq<Ball>): (h: Game)
    requires g.current < |g.players|
    requires g.gameOver || SomeActive(g.players)
    ensures h.balls == g.balls
    ensures h.pocketed == g.pocketed + batch
    ensures |h.players| == |g.players| && h.current < |h.players|
    ensures forall i :: 0 <= i < |g.players| ==>
              && h.players[i].id == g.players[i].id
              && (g.players[i].eliminated ==> h.players[i].eliminated)
              && (g.players[i].kind.Some? ==> h.players[i].kind == g.players[i].kind)
    ensures g.gameOver ==> h.gameOver
  {
    var sc := ScanBatch(Scan(g.players, false, false, false), g.current, batch);
    var g1 := g.(pocketed := g.pocketed + batch, players := sc.players);
    assert g.gameOver || SomeActive(sc.players) by {
      if !g.gameOver {
        var w :| 0 <= w < |g.players| && !g.players[w].eliminated;
        assert !sc.players[w].eliminated;
      }
    }
    if sc.cue then
      g1.(placingCueBall := true, canAim := false, current := SwitchPlayer(sc.players, g.current, g.gameOver))
    else if sc.eight then
      EightOutcome(g1)
    else if !sc.valid && |batch| > 0 then
      g1.(current := SwitchPlayer(sc.players, g.current, g.gameOver))
    else
      g1
  }

  /** `handlePockets` never switches aiming on. */
  lemma HandlePocketsKeepsAimOff(g: Game, batch: seq<Ball>)
    requires g.current < |g.players|
    requires g.gameOver || SomeActive(g.players)
    requires !g.canAim
    ensures !HandlePockets(g, batch).canAim
  {
    var s0 := Scan(g.players, false, false, false);
    ScanFlags(s0, g.current, batch);
    var sc := ScanBatch(s0, g.current, batch);
    if !sc.cue && sc.eight {
      EightOutcomeFacts(g.(pocketed := g.pocketed + batch, players := sc.players));
    }
  }

  /** Kind assignment: the roster after any batch is the loop-free `RosterAfter`, except for the eliminated flag of an illegal eight. */
  lemma KindAssignment(g: Game, batch: seq<Ball>)
    requires g.current < |g.players|
    requires g.gameOver || SomeActive(g.players)
    ensures var h := HandlePockets(g, batch);
            var expected := RosterAfter(g.players, g.current, batch);
            forall i :: 0 <= i < |g.players| ==> h.players[i].kind == expected[i].kind
  {
    ScanMatchesDescription(Scan(g.players, false, false, false), g.current, batch);
  }

  /** The shooter's kind after the batch, when it was unset: the first numbered ball's, and the others get the complement. */
  lemma FirstNumberedBallSetsKinds(g: Game, batch: seq<Ball>, i: nat)
    requires g.current < |g.players|
    requires g.gameOver || SomeActive(g.players)
    requires g.players[g.current].kind.None?
    requires FirstNumbered(batch) == Some(i)
    ensures var h := HandlePockets(g, batch);
            && h.players[g.current].kind == Some(batch[i].kind)
            && forall j :: 0 <= j < |g.players| && j != g.current ==>
                 h.players[j].kind ==
                   (if g.players[j].kind.None? && g.players[j].id != g.players[g.current].id
                    then Some(Complement(batch[i].kind)) else g.players[j].kind)
  {
    KindAssignment(g, batch);
  }

  /** A batch without numbered balls leaves every player's kind as it was. */
  lemma NoNumberedBallKeepsKinds(g: Game, batch: seq<Ball>)
    requires g.current < |g.players|
    requires g.gameOver || SomeActive(g.players)
    requires forall j :: 0 <= j < |batch| ==> !Numbered(batch[j])
    ensures var h := HandlePockets(g, batch);
            forall i :: 0 <= i < |g.players| ==> h.players[i].kind == g.players[i].kind
  {
    KindAssignment(g, batch);
  }

  /**
    Cue-ball foul: whatever else is in the batch (the eight included), the
    next player must place the cue ball, nobody is eliminated and the game
    does not end.
   */
  lemma CueFoul(g: Game, batch: seq<Ball>)
    requires g.current < |g.players|
    requires g.gameOver || SomeActive(g.players)
    requires HasNumber(batch, 0)
    ensures var h := HandlePockets(g, batch);
            && h.placingCueBall && !h.canAim
            && h.gameOver == g.gameOver && h.winner == g.winner
            && (forall i :: 0 <= i < |g.players| ==> h.players[i].eliminated == g.players[i].eliminated)
            && h.current == SwitchPlayer(g.players, g.current, g.gameOver)
  {
    var s0 := Scan(g.players, false, false, false);
    ScanMatchesDescription(s0, g.current, batch);
    var sc := ScanBatch(s0, g.current, batch);
    SwitchReadsOnlyFlags(g.players, sc.players, g.current, g.gameOver);
  }

  /** Potting the cue ball and the eight together during play is only a foul: the game goes on. */
  lemma CueAndEightIsOnlyAFoul(g: Game, batch: seq<Ball>)
    requires g.current < |g.players| && !g.gameOver && SomeActive(g.players)
    requires HasNumber(batch, 0) && HasNumber(batch, 8)
    ensures !HandlePockets(g, batch).gameOver
    ensures HandlePockets(g, batch).winner == g.winner
  {
    CueFoul(g, batch);
  }

  /** With exactly one active player, the filter's head is that player, wherever they sit. */
  lemma SoleActiveIsHead(ps: seq<Player>)
    requires CountActive(ps) == 1
    ensures |Active(ps)| == 1
    ensures forall j :: 0 <= j < |ps| && !ps[j].eliminated ==> Active(ps)[0] == ps[j]
  {
    var r := Active(ps);
    assert !r[0].eliminated && r[0] in ps;
    var i :| 0 <= i < |ps| && ps[i] == r[0];
    forall j | 0 <= j < |ps| && !ps[j].eliminated
      ensures Active(ps)[0] == ps[j]
    {
      SoleActiveSeat(ps, i, j);
    }
  }

  /** What `EightOutcome` decides, stated on the state it is given. */
  lemma EightOutcomeFacts(g: Game)
    requires g.current < |g.players|
    ensures var h := EightOutcome(g);
            var shooter := g.players[g.current];
            && h.gameOver && h.winner.Some? && h.current == g.current && h.balls == g.balls
            && h.pocketed == g.pocketed && h.placingCueBall == g.placingCueBall && h.canAim == g.canAim
            && |h.players| == |g.players|
            && (forall i :: 0 <= i < |g.players| && i != g.current ==> h.players[i] == g.players[i])
            && h.players[g.current].id == shooter.id && h.players[g.current].kind == shooter.kind
            && (Remaining(g.balls, shooter.kind) == 0 ==>
                  h.winner == Some(shooter.id) && h.players[g.current] == shooter)
            && (Remaining(g.balls, shooter.kind) > 0 ==> h.players[g.current].eliminated)
  {
  }

  /**
    Who wins once the shooter is eliminated: the only active player when
    exactly one is left, otherwise the next seat, eliminated or not.  On a
    roster of two or more with distinct ids that is never the shooter.
   */
  lemma EliminationWinnerFacts(ps: seq<Player>, shooter: nat)
    requires shooter < |ps| && ps[shooter].eliminated
    ensures CountActive(ps) == 1 ==>
              forall j :: 0 <= j < |ps| && !ps[j].eliminated ==> EliminationWinner(ps, shooter) == ps[j].id
    ensures CountActive(ps) != 1 ==> EliminationWinner(ps, shooter) == ps[(shooter + 1) % |ps|].id
    ensures UniqueIds(ps) && |ps| >= 2 ==> EliminationWinner(ps, shooter) != ps[shooter].id
  {
    var n := |ps|;
    if CountActive(ps) == 1 {
      SoleActiveIsHead(ps);
      assert Active(ps)[0] != ps[shooter];
    } else if n >= 2 {
      WrapStep(shooter, 1, n);
      assert (shooter + 1) % n != shooter;
    }
  }

  /** The winner of an illegal eight, on the state `EightOutcome` is given. */
  lemma IllegalEightWinner(g: Game)
    requires g.current < |g.players|
    requires Remaining(g.balls, g.players[g.current].kind) > 0
    ensures var h := EightOutcome(g);
            && |h.players| == |g.players|
            && (CountActive(h.players) == 1 ==>
                  forall j :: 0 <= j < |h.players| && !h.players[j].eliminated ==> h.winner == Some(h.players[j].id))
            && (CountActive(h.players) != 1 ==>
                  h.winner == Some(g.players[(g.current + 1) % |g.players|].id))
            && (UniqueIds(g.players) && |g.players| >= 2 ==> h.winner != Some(g.players[g.current].id))
  {
    var c := g.current;
    var ps := g.players[c := g.players[c].(eliminated := true)];
    EliminationWinnerFacts(ps, c);
    if UniqueIds(g.players) {
      assert UniqueIds(ps) by {
        assert forall i :: 0 <= i < |ps| ==> ps[i].id == g.players[i].id;
      }
    }
  }

  /** With the eight but not the cue ball in the batch, `handlePockets` is the eight-ball branch on the updated roster and history. */
  lemma EightBranchTaken(g: Game, batch: seq<Ball>)
    requires g.current < |g.players|
    requires g.gameOver || SomeActive(g.players)
    requires !HasNumber(batch, 0) && HasNumber(batch, 8)
    ensures HandlePockets(g, batch)
            == EightOutcome(g.(pocketed := g.pocketed + batch, players := RosterAfter(g.players, g.current, batch)))
    ensures |RosterAfter(g.players, g.current, batch)| == |g.players|
    ensures forall i :: 0 <= i < |g.players| ==>
              && RosterAfter(g.players, g.current, batch)[i].id == g.players[i].id
              && RosterAfter(g.players, g.current, batch)[i].eliminated == g.players[i].eliminated
  {
    ScanMatchesDescription(Scan(g.players, false, false, false), g.current, batch);
  }

  /**
    The eight ball without the cue ball ends the game.  The shooter wins when
    no live ball of their kind (as it stands after this batch) remains;
    otherwise they alone are eliminated and someone else wins.
   */
  lemma EightBallOutcome(g: Game, batch: seq<Ball>)
    requires g.current < |g.players|
    requires g.gameOver || SomeActive(g.players)
    requires UniqueIds(g.players) && |g.players| >= 2
    requires !HasNumber(batch, 0) && HasNumber(batch, 8)
    ensures var h := HandlePockets(g, batch);
            var shooter := g.players[g.current];
            var k := RosterAfter(g.players, g.current, batch)[g.current].kind;
            && h.gameOver && h.winner.Some? && h.current == g.current
            && h.placingCueBall == g.placingCueBall && h.canAim == g.canAim
            && (Remaining(g.balls, k) == 0 ==>
                  h.winner == Some(shooter.id)
                  && forall i :: 0 <= i < |g.players| ==> h.players[i].eliminated == g.players[i].eliminated)
            && (Remaining(g.balls, k) > 0 ==>
                  && h.players[g.current].eliminated
                  && (forall i :: 0 <= i < |g.players| && i != g.current ==> h.players[i].eliminated == g.players[i].eliminated)
                  && h.winner != Some(shooter.id))
  {
    EightBranchTaken(g, batch);
    var g1 := g.(pocketed := g.pocketed + batch, players := RosterAfter(g.players, g.current, batch));
    assert UniqueIds(g1.players);
    EightOutcomeFacts(g1);
    if Remaining(g1.balls, g1.players[g1.current].kind) > 0 {
      IllegalEightWinner(g1);
    }
  }

  /**
    The winner of an illegal eight: with exactly one player left active after
    the shooter's elimination, that player; otherwise the player in the next
    seat, `(current + 1) % n`, even when that player is eliminated.
   */
  lemma IllegalEightOutcome(g: Game, batch: seq<Ball>)
    requires g.current < |g.players|
    requires g.gameOver || SomeActive(g.players)
    requires !HasNumber(batch, 0) && HasNumber(batch, 8)
    requires Remaining(g.balls, RosterAfter(g.players, g.current, batch)[g.current].kind) > 0
    ensures var h := HandlePockets(g, batch);
            && |h.players| == |g.players|
            && (CountActive(h.players) == 1 ==>
                  forall j :: 0 <= j < |g.players| && !h.players[j].eliminated ==> h.winner == Some(g.players[j].id))
            && (CountActive(h.players) != 1 ==>
                  h.winner == Some(g.players[(g.current + 1) % |g.players|].id))
  {
    EightBranchTaken(g, batch);
    var g1 := g.(pocketed := g.pocketed + batch, players := RosterAfter(g.players, g.current, batch));
    EightOutcomeFacts(g1);
    IllegalEightWinner(g1);
  }

  /**
    An illegal eight during play (nobody eliminated yet): the winner is the
    player the turn would have passed to.
   */
  lemma IllegalEightDuringPlay(g: Game, batch: seq<Ball>)
    requires g.current < |g.players| && |g.players| >= 2 && !g.gameOver
    requires UniqueIds(g.players)
    requires forall i :: 0 <= i < |g.players| ==> !g.players[i].eliminated
    requires !HasNumber(batch, 0) && HasNumber(batch, 8)
    requires Remaining(g.balls, RosterAfter(g.players, g.current, batch)[g.current].kind) > 0
    ensures var h := HandlePockets(g, batch);
            && SomeActive(h.players)
            && h.winner == Some(h.players[SwitchPlayer(h.players, g.current, false)].id)
  {
    assert !g.players[0].eliminated;
    EightBallOutcome(g, batch);
    IllegalEightOutcome(g, batch);
    var h := HandlePockets(g, batch);
    var n := |g.players|;
    var next := (g.current + 1) % n;
    WrapStep(g.current, 1, n);
    assert next != g.current;
    assert !h.players[next].eliminated;
    SwitchToNextSeat(h.players, g.current);
    if CountActive(h.players) == 1 {
      assert h.winner == Some(g.players[next].id);
    }
  }

  /** An unassigned shooter who pots the eight (and no cue, no numbered ball) wins: nothing matches an unset kind. */
  lemma UnassignedShooterWinsOnEight(g: Game, batch: seq<Ball>)
    requires g.current < |g.players|
    requires g.gameOver || SomeActive(g.players)
    requires UniqueIds(g.players) && |g.players| >= 2
    requires g.players[g.current].kind.None?
    requires !HasNumber(batch, 0) && HasNumber(batch, 8)
    requires forall j :: 0 <= j < |batch| ==> !Numbered(batch[j])
    ensures HandlePockets(g, batch).gameOver
    ensures HandlePockets(g, batch).winner == Some(g.players[g.current].id)
  {
    EightBallOutcome(g, batch);
  }

  /**
    Turn continuation: without the cue ball or the eight, the shooter keeps
    the turn exactly when the batch is empty or holds a numbered ball of
    their kind (as assigned by this very batch); otherwise `switchPlayer`
    runs.  Nothing else about the phase changes.
   */
  lemma TurnContinuation(g: Game, batch: seq<Ball>)
    requires g.current < |g.players|
    requires g.gameOver || SomeActive(g.players)
    requires !HasNumber(batch, 0) && !HasNumber(batch, 8)
    ensures var h := HandlePockets(g, batch);
            var k := RosterAfter(g.players, g.current, batch)[g.current].kind;
            && h.gameOver == g.gameOver && h.winner == g.winner
            && h.canAim == g.canAim && h.placingCueBall == g.placingCueBall
            && (forall i :: 0 <= i < |g.players| ==> h.players[i].eliminated == g.players[i].eliminated)
            && (if |batch| == 0 || PotsOwnKind(batch, k) then h.current == g.current
                else h.current == SwitchPlayer(g.players, g.current, g.gameOver))
  {
    var s0 := Scan(g.players, false, false, false);
    ScanMatchesDescription(s0, g.current, batch);
    var sc := ScanBatch(s0, g.current, batch);
    SwitchReadsOnlyFlags(g.players, sc.players, g.current, g.gameOver);
  }

  /** During play with nobody eliminated, the shooter keeps the turn iff the batch is empty or pots their own kind. */
  lemma TurnStaysIff(g: Game, batch: seq<Ball>)
    requires g.current < |g.players| && |g.players| >= 2 && !g.gameOver
    requires forall i :: 0 <= i < |g.players| ==> !g.players[i].eliminated
    requires !HasNumber(batch, 0) && !HasNumber(batch, 8)
    ensures SomeActive(g.players)
    ensures HandlePockets(g, batch).current == g.current
            <==> |batch| == 0 || PotsOwnKind(batch, RosterAfter(g.players, g.current, batch)[g.current].kind)
  {
    SwitchLeavesShooter(g.players, g.current);
    TurnContinuation(g, batch);
  }

  /** An empty batch changes nothing. */
  lemma EmptyBatchIsNoOp(g: Game)
    requires g.current < |g.players|
    requires g.gameOver || SomeActive(g.players)
    ensures HandlePockets(g, []) == g
  {
  }
}
