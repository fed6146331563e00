/**
 * Whole runs of a room: sequences of handler calls applied one after the
 * other. The fair-play rule promises that a finished round gave both players
 * the same number of attempts; this holds for every run in which set-secret
 * is not sent while player 2 is to move in an unfinished round (set-secret
 * has no phase check, see Session.SecretResetsFinalTurn).
 */
module Rounds {
  import opened Wrappers
  import opened Session
  import Evaluator

  /** One handler call on a room, with the caller's socket id or player number. */
  datatype Action =
    | JoinAs(socket: SocketId, name: Option<string>, avatar: Option<string>)
    | SetSecretAs(p: Player, secret: string)
    | GuessAs(p: Player, guess: string)
    | VoteAs(p: Player)
    | LeaveAs(socket: SocketId)

  /** The call does not fail: a guess needs what Session.CanGuess asks for. */
  predicate Allowed(s: RoomState, a: Action) {
    a.GuessAs? ==> CanGuess(s, a.p)
  }

  function Apply(s: RoomState, a: Action): (t: RoomState)
    requires Allowed(s, a)
  {
    match a
    case JoinAs(socket, name, avatar) => Join(s, socket, name, avatar).state
    case SetSecretAs(p, secret) => SetSecret(s, p, secret).state
    case GuessAs(p, guess) => SubmitGuess(s, p, guess).state
    case VoteAs(p) => PlayAgain(s, p).state
    case LeaveAs(socket) => Leave(s, socket)
  }

  /** Every call of the run is allowed in the state it meets. */
  predicate Runs(s: RoomState, acts: seq<Action>)
    decreases |acts|
  {
    |acts| == 0 || (Allowed(s, acts[0]) && Runs(Apply(s, acts[0]), acts[1..]))
  }

  function Run(s: RoomState, acts: seq<Action>): RoomState
    requires Runs(s, acts)
    decreases |acts|
  {
    if |acts| == 0 then s else Run(Apply(s, acts[0]), acts[1..])
  }

  /** A set-secret is honest when it is not sent while player 2 is to move in an unfinished round. */
  predicate Honest(s: RoomState, a: Action) {
    a.SetSecretAs? ==> s.gameOver || s.currentPlayer == 1
  }

  predicate HonestRun(s: RoomState, acts: seq<Action>)
    requires Runs(s, acts)
    decreases |acts|
  {
    |acts| == 0 || (Honest(s, acts[0]) && HonestRun(Apply(s, acts[0]), acts[1..]))
  }

  /**
   * The turn balance of a round: when player 1 is to move both have had the
   * same number of attempts and no final turn is pending; when player 2 is
   * to move player 1 is one attempt ahead; a finished round is even.
   */
  predicate Balanced(s: RoomState) {
    && (!s.gameOver && s.currentPlayer == 1 ==> s.attempts.one == s.attempts.two && !s.fairPlay.pendingFinalTurn)
    && (!s.gameOver && s.currentPlayer == 2 ==> s.attempts.one == s.attempts.two + 1)
    && (s.gameOver ==> s.attempts.one == s.attempts.two)
  }

  /** One honest, allowed call keeps the invariant and the balance. */
  lemma ApplyKeepsBalance(s: RoomState, a: Action)
    requires Inv(s) && Balanced(s) && Allowed(s, a) && Honest(s, a)
    ensures Inv(Apply(s, a)) && Balanced(Apply(s, a))
  {
    match a
    case JoinAs(socket, name, avatar) => JoinKeepsInv(s, socket, name, avatar);
    case SetSecretAs(p, secret) => SetSecretKeepsInv(s, p, secret);
    case GuessAs(p, guess) =>
      SubmitGuessKeepsInv(s, p, guess);
      if !s.gameOver && p == s.currentPlayer {
        RoundResolution(s, p, guess);
      }
    case VoteAs(p) => PlayAgainKeepsInv(s, p);
    case LeaveAs(socket) => LeaveKeepsInv(s, socket);
  }

  /** Every honest run keeps the invariant and the balance. */
  lemma {:induction false} HonestRunsStayBalanced(s: RoomState, acts: seq<Action>)
    requires Inv(s) && Balanced(s) && Runs(s, acts) && HonestRun(s, acts)
    ensures Inv(Run(s, acts)) && Balanced(Run(s, acts))
    decreases |acts|
  {
    if |acts| > 0 {
      ApplyKeepsBalance(s, acts[0]);
      HonestRunsStayBalanced(Apply(s, acts[0]), acts[1..]);
    }
  }

  /**
   * The fair-play promise, from the creation of a room: after any honest run,
   * a finished round gave both players the same number of attempts, and a
   * pending final turn in an unfinished round belongs to player 2.
   */
  lemma FairFromCreation(code: string, socket: SocketId, name: Option<string>, avatar: Option<string>,
                         acts: seq<Action>)
    requires Runs(NewRoom(code, socket, name, avatar), acts) && HonestRun(NewRoom(code, socket, name, avatar), acts)
    ensures var t := Run(NewRoom(code, socket, name, avatar), acts);
      && Inv(t)
      && (t.gameOver ==> t.attempts.one == t.attempts.two)
      && FinalTurnHeld(t)
  {
    HonestRunsStayBalanced(NewRoom(code, socket, name, avatar), acts);
  }

  /**
   * The series score never goes down, whatever the run: only a guess that
   * ends a round changes it, by one win for the winner.
   */
  lemma {:induction false} SeriesScoreGrows(s: RoomState, acts: seq<Action>)
    requires Runs(s, acts)
    ensures var t := Run(s, acts);
      s.seriesWins.one <= t.seriesWins.one && s.seriesWins.two <= t.seriesWins.two
    decreases |acts|
  {
    if |acts| > 0 {
      if acts[0].GuessAs? {
        SeriesScoreOnGuess(s, acts[0].p, acts[0].guess);
      }
      SeriesScoreGrows(Apply(s, acts[0]), acts[1..]);
    }
  }

  /**
   * What a dishonest set-secret does: sent while player 2 holds the final
   * turn, it hands the move back to player 1, whose correct guess then wins
   * the round outright, two attempts ahead of player 2.
   */
  lemma MidRoundSecretSkipsFinalTurn(s: RoomState, p: Player, secret: string, guess: string)
    requires Inv(s) && Balanced(s) && s.fairPlay.pendingFinalTurn && !s.gameOver && s.currentPlayer == 2
    requires secret != "" && Truthy(s.secrets.Get(Opponent(p)))
    requires Evaluator.Evaluate(SetSecret(s, p, secret).state.secrets.two.value, guess).correctPlace
             == Evaluator.CodeLength
    ensures var t := SubmitGuess(SetSecret(s, p, secret).state, 1, guess).state;
      t.gameOver && t.winner == Won(1) && t.attempts.one == t.attempts.two + 2
  {
    SecretResetsFinalTurn(s, p, secret);
    var u := SetSecret(s, p, secret).state;
    RoundResolution(u, 1, guess);
  }

  /**
   * The other way to set a secret while player 2 is to move: submit-guess has
   * no phase check, so once player 2 has stored a secret, player 1 may guess
   * before storing their own. A miss passes the move to player 2, and player
   * 1's set-secret then starts the game with player 1 to move, one attempt
   * ahead. That set-secret is not honest, and the balance is lost.
   */
  lemma GuessBeforeOwnSecret(code: string, creator: SocketId, joiner: SocketId,
                             secret2: string, guess: string, secret1: string)
    requires secret2 != "" && secret1 != ""
    requires !Solved(Evaluator.Evaluate(secret2, guess))
    ensures var acts := [JoinAs(joiner, None, None), SetSecretAs(2, secret2), GuessAs(1, guess)];
      var s := NewRoom(code, creator, None, None);
      && Runs(s, acts) && HonestRun(s, acts)
      && var u := Run(s, acts);
      && !Honest(u, SetSecretAs(1, secret1))
      && var t := SetSecret(u, 1, secret1).state;
      && t.setupPhase == 3 && !t.gameOver && t.currentPlayer == 1
      && t.attempts == PerPlayer(1, 0) && !Balanced(t)
  {
    var s := NewRoom(code, creator, None, None);
    var s1 := Join(s, joiner, None, None).state;
    var s2 := SetSecret(s1, 2, secret2).state;
    var g, ss := GuessAs(1, guess), SetSecretAs(2, secret2);
    assert s2.secrets == PerPlayer(None, Some(secret2)) && s2.currentPlayer == 1;
    OpeningMiss(s2, guess);
    RunCons(s2, g, []);
    RunCons(s1, ss, [g]);
    RunCons(s, JoinAs(joiner, None, None), [ss, g]);
  }

  /** Player 1's first guess of a round, a miss: the move passes to player 2, one attempt to none. */
  lemma OpeningMiss(s: RoomState, guess: string)
    requires !s.gameOver && s.currentPlayer == 1 && !s.fairPlay.pendingFinalTurn
    requires s.attempts == PerPlayer(0, 0) && s.secrets.two.Some?
    requires !Solved(Evaluator.Evaluate(s.secrets.two.value, guess))
    ensures var t := SubmitGuess(s, 1, guess).state;
      !t.gameOver && t.currentPlayer == 2 && t.attempts == PerPlayer(1, 0)
  {
    RoundResolution(s, 1, guess);
  }

  /** A run that starts with a: its first step, then the rest. */
  lemma RunCons(s: RoomState, a: Action, rest: seq<Action>)
    requires Allowed(s, a) && Runs(Apply(s, a), rest)
    ensures Runs(s, [a] + rest)
    ensures Run(s, [a] + rest) == Run(Apply(s, a), rest)
    ensures HonestRun(s, [a] + rest) == (Honest(s, a) && HonestRun(Apply(s, a), rest))
  {
    assert ([a] + rest)[1..] == rest;
  }
}
