/**
  The player roster: an ordered list of 2..8 players, each with an id, an
  assigned kind (unset until the first numbered ball is potted) and an
  elimination flag; resizing, and the turn hand-over `switchPlayer`.
 */
module Roster {
  import opened Wrappers
  import opened Balls

  /** A player; the display name is "Player <id>", so the id identifies it. */
  datatype Player = Player(id: int, kind: Option<Kind>, eliminated: bool)

  const MinPlayers: nat := 2
  const MaxPlayers: nat := 8

  function NewPlayer(id: int): Player
  {
    Player(id, None, false)
  }

  /** The two players a fresh game starts with. */
  function InitialRoster(): seq<Player>
  {
    [NewPlayer(1), NewPlayer(2)]
  }

  predicate UniqueIds(ps: seq<Player>)
  {
    forall i, j :: 0 <= i < |ps| && 0 <= j < |ps| && i != j ==> ps[i].id != ps[j].id
  }

  predicate SomeActive(ps: seq<Player>)
  {
    exists i :: 0 <= i < |ps| && !ps[i].eliminated
  }

  /** Number of players not eliminated. */
  function CountActive(ps: seq<Player>): (c: nat)
    ensures c <= |ps|
    ensures c == 0 <==> forall i :: 0 <= i < |ps| ==> ps[i].eliminated
  {
    if ps == [] then 0 else (if ps[0].eliminated then 0 else 1) + CountActive(ps[1..])
  }

  /** When exactly one player is active, any two active seats are the same seat. */
  lemma {:induction false} SoleActiveSeat(ps: seq<Player>, i: nat, j: nat)
    requires CountActive(ps) == 1
    requires i < |ps| && j < |ps| && !ps[i].eliminated && !ps[j].eliminated
    ensures i == j
    decreases |ps|
  {
    var tail := ps[1..];
    if ps[0].eliminated {
      assert i > 0 && j > 0;
      assert tail[i - 1] == ps[i] && tail[j - 1] == ps[j];
      SoleActiveSeat(tail, i - 1, j - 1);
    }
  }

  /** Largest id on the roster (`Math.max` over the ids). */
  function MaxId(ps: seq<Player>): (m: int)
    requires |ps| > 0
    ensures forall i :: 0 <= i < |ps| ==> ps[i].id <= m
    ensures exists i :: 0 <= i < |ps| && ps[i].id == m
  {
    if |ps| == 1 then ps[0].id
    else
      var rest := MaxId(ps[1..]);
      if ps[0].id >= rest then ps[0].id else rest
  }

  /**
    `addPlayer`: below eight players, append an unassigned, active player
    whose id is one more than the largest id; at eight, nothing happens.
   */
  function AddPlayer(ps: seq<Player>): (r: seq<Player>)
    requires |ps| > 0
    ensures |ps| >= MaxPlayers ==> r == ps
    ensures |ps| < MaxPlayers ==>
              && |r| == |ps| + 1
              && r[..|ps|] == ps
              && r[|ps|] == NewPlayer(MaxId(ps) + 1)
              && r[|ps|].kind == None
              && !r[|ps|].eliminated
              && forall i :: 0 <= i < |ps| ==> ps[i].id < r[|ps|].id
    ensures UniqueIds(ps) ==> UniqueIds(r)
    ensures MinPlayers <= |ps| <= MaxPlayers ==> MinPlayers <= |r| <= MaxPlayers
  {
    if |ps| < MaxPlayers then ps + [NewPlayer(MaxId(ps) + 1)] else ps
  }

  /**
    `removePlayer`: above two players, drop the last one and move the turn
    to the first player if it pointed past the new end; at two, nothing happens.
   */
  function RemovePlayer(ps: seq<Player>, current: nat): (r: (seq<Player>, nat))
    ensures |ps| <= MinPlayers ==> r == (ps, current)
    ensures |ps| > MinPlayers ==>
              && r.0 == ps[..|ps| - 1]
              && (current < |ps| - 1 ==> r.1 == current)
              && (current >= |ps| - 1 ==> r.1 == 0)
    ensures current < |ps| ==> r.1 < |r.0|
    ensures UniqueIds(ps) ==> UniqueIds(r.0)
    ensures MinPlayers <= |ps| <= MaxPlayers ==> MinPlayers <= |r.0| <= MaxPlayers
  {
    if |ps| > MinPlayers then
      var rest := ps[..|ps| - 1];
      (rest, if current >= |rest| then 0 else current)
    else (ps, current)
  }

  /**
    Cyclic distance from `from` forward to `i` on a ring of `n` seats,
    in 1..n (a seat is at distance n from itself).
   */
  function Distance(from: nat, i: nat, n: nat): nat
    requires from < n
  {
    if i > from then i - from else i + n - from
  }

  /** The seat `d` places after `from` (the source's `(index + 1) % length`, applied d times). */
  function Seat(from: nat, d: nat, n: nat): nat
    requires n > 0
  {
    (from + d) % n
  }

  lemma {:induction false} WrapStep(from: nat, d: nat, n: nat)
    requires from < n && d <= n
    ensures (from + d) % n == if from + d < n then from + d else from + d - n
  {
    if from + d >= n {
      assert from + d == 1 * n + (from + d - n);
    }
  }

  /**
    First offset `d` in k..n whose seat `(from + d) % n` holds a player who is
    not eliminated; the recursion is the do-while of `switchPlayer`, one seat
    per call, bounded by the number of seats left.
   */
  function NextActiveOffset(ps: seq<Player>, from: nat, k: nat): (d: nat)
    requires from < |ps|
    requires 1 <= k <= |ps|
    requires exists j :: k <= j <= |ps| && !ps[Seat(from, j, |ps|)].eliminated
    ensures k <= d <= |ps|
    ensures !ps[Seat(from, d, |ps|)].eliminated
    ensures forall j :: k <= j < d ==> ps[Seat(from, j, |ps|)].eliminated
    decreases |ps| - k
  {
    if !ps[Seat(from, k, |ps|)].eliminated then k else NextActiveOffset(ps, from, k + 1)
  }

  /**
    `switchPlayer`: step the turn forward modulo the roster size; while the
    game is on, keep stepping past eliminated players.  The loop terminates
    only if the game is over or someone is still active, hence the requires.
   */
  function SwitchPlayer(ps: seq<Player>, current: nat, gameOver: bool): (next: nat)
    requires current < |ps|
    requires gameOver || SomeActive(ps)
    ensures next < |ps|
    ensures gameOver ==> next == (current + 1) % |ps|
    ensures !gameOver ==> !ps[next].eliminated
    ensures !gameOver ==>
              forall i :: 0 <= i < |ps| && Distance(current, i, |ps|) < Distance(current, next, |ps|)
                ==> ps[i].eliminated
  {
    if gameOver then (current + 1) % |ps|
    else
      var n := |ps|;
      var w :| 0 <= w < n && !ps[w].eliminated;
      WrapStep(current, Distance(current, w, n), n);
      assert !ps[Seat(current, Distance(current, w, n), n)].eliminated;
      var d := NextActiveOffset(ps, current, 1);
      WrapStep(current, d, n);
      var next := Seat(current, d, n);
      assert Distance(current, next, n) == d;
      forall i | 0 <= i < n && Distance(current, i, n) < d
        ensures ps[i].eliminated
      {
        WrapStep(current, Distance(current, i, n), n);
        assert i == Seat(current, Distance(current, i, n), n);
      }
      next
  }

  /** During play, when the next seat holds an active player, the turn goes exactly there. */
  lemma SwitchToNextSeat(ps: seq<Player>, current: nat)
    requires current < |ps|
    requires !ps[(current + 1) % |ps|].eliminated
    ensures SomeActive(ps)
    ensures SwitchPlayer(ps, current, false) == (current + 1) % |ps|
  {
    var n := |ps|;
    var seat := (current + 1) % n;
    assert !ps[seat].eliminated;
    WrapStep(current, 1, n);
    assert Distance(current, seat, n) == 1;
  }

  /** With nobody eliminated, the turn simply passes to the next seat. */
  lemma NoEliminationSwitchIsNextSeat(ps: seq<Player>, current: nat)
    requires current < |ps|
    requires forall i :: 0 <= i < |ps| ==> !ps[i].eliminated
    ensures SomeActive(ps)
    ensures SwitchPlayer(ps, current, false) == (current + 1) % |ps|
  {
    WrapStep(current, 1, |ps|);
    SwitchToNextSeat(ps, current);
  }

  /** On a roster of at least two players, a hand-over during play never returns the turn to the shooter. */
  lemma SwitchLeavesShooter(ps: seq<Player>, current: nat)
    requires 2 <= |ps| && current < |ps|
    requires forall i :: 0 <= i < |ps| ==> !ps[i].eliminated
    ensures SomeActive(ps)
    ensures SwitchPlayer(ps, current, false) != current
  {
    NoEliminationSwitchIsNextSeat(ps, current);
    WrapStep(current, 1, |ps|);
  }

  /** `switchPlayer` reads only the elimination flags of the roster. */
  lemma SwitchReadsOnlyFlags(ps: seq<Player>, qs: seq<Player>, current: nat, gameOver: bool)
    requires current < |ps| == |qs|
    requires forall i :: 0 <= i < |ps| ==> ps[i].eliminated == qs[i].eliminated
    requires gameOver || SomeActive(ps)
    ensures gameOver || SomeActive(qs)
    ensures SwitchPlayer(ps, current, gameOver) == SwitchPlayer(qs, current, gameOver)
  {
    if !gameOver {
      var a := SwitchPlayer(ps, current, gameOver);
      var b := SwitchPlayer(qs, current, gameOver);
      assert !qs[a].eliminated;
      assert !ps[b].eliminated;
    }
  }
}
