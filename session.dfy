/**
 * One game room as a value, and each socket handler of the server as a
 * transition on it. A transition returns the new room state together with
 * what the handler announces (a rejection, or the event it emits).
 *
 * The imperative room (module Rooms) is proved to follow these transitions;
 * the lemmas here state what the transitions promise: the rejection order of
 * join-room, when set-secret starts the game, the counters of submit-guess,
 * the fair-play final turn, round resolution and the rematch reset.
 */
module Session {
  import opened Wrappers
  import Evaluator

  /** The two seats of a room. */
  type Player = p: int | p == 1 || p == 2 witness 1

  function Opponent(p: Player): (q: Player)
    ensures q != p
  {
    if p == 1 then 2 else 1
  }

  /** A record keyed by player number, such as { 1: …, 2: … }. */
  datatype PerPlayer<T> = PerPlayer(one: T, two: T) {
    function Get(p: Player): T {
      if p == 1 then one else two
    }

    function Set(p: Player, v: T): (r: PerPlayer<T>)
      ensures r.Get(p) == v && r.Get(Opponent(p)) == Get(Opponent(p))
    {
      if p == 1 then PerPlayer(v, two) else PerPlayer(one, v)
    }
  }

  type SocketId = string

  /** JavaScript truthiness of an optional string: present and not empty. */
  predicate Truthy(v: Option<string>) {
    v.Some? && v.value != ""
  }

  /** The value of `v || fallback` for an optional string. */
  function OrElse(v: Option<string>, fallback: string): (r: string)
    ensures Truthy(v) ==> r == v.value
    ensures !Truthy(v) ==> r == fallback
  {
    if Truthy(v) then v.value else fallback
  }

  /** The default avatar, a koala. */
  const DefaultAvatar: string := "\U{1F428}"

  datatype Info = Info(name: string, avatar: string)

  /** One entry of a player's guess log. */
  datatype GuessEntry = GuessEntry(guess: string, result: Evaluator.Feedback)

  /** The winner field: null while the round runs, 0 for a tie, or a player number. */
  datatype Winner = NoWinner | Tie | Won(player: Player)

  /** The series score after a round with the given winner: one more win for a winning player. */
  function Credit(wins: PerPlayer<nat>, w: Winner): PerPlayer<nat> {
    if w.Won? then wins.Set(w.player, wins.Get(w.player) + 1) else wins
  }

  /** The fair-play record: whether player 2 is owed a final turn, and who won provisionally. */
  datatype FairPlay = FairPlay(pendingFinalTurn: bool, provisionalWinner: Option<Player>)

  const NoFinalTurn := FairPlay(false, None)

  datatype RoomState = RoomState(
    code: string,
    players: seq<SocketId>,
    playerNames: map<SocketId, string>,
    playerInfo: PerPlayer<Info>,
    playerSockets: PerPlayer<Option<SocketId>>,
    secrets: PerPlayer<Option<string>>,
    setupPhase: int,
    currentPlayer: Player,
    guesses: PerPlayer<seq<GuessEntry>>,
    attempts: PerPlayer<nat>,
    gameOver: bool,
    winner: Winner,
    seriesWins: PerPlayer<nat>,
    fairPlay: FairPlay,
    playAgainVotes: set<Player>)

  datatype RoomError = RoomNotFound | RoomFull | GameInProgress | GameIsOver | NotYourTurn

  /** What follows a scored guess. */
  datatype Follow = FinalChance | GameEnded(winner: Winner) | TurnChanged(next: Player)

  /** What a handler announces; a rejection leaves the room as it was. */
  datatype Reply =
    | Rejected(error: RoomError)
    | Joined
    | SecretStored(opponentNotified: bool)
    | GameStarted
    | GuessSubmitted(result: Evaluator.Feedback, isCorrect: bool, follow: Follow)
    | WaitingForRematch(opponentNotified: bool)
    | GameReset

  datatype Step = Step(state: RoomState, reply: Reply)

  /**
   * The invariant every handler keeps: the setup phase is 1 or 3, the
   * creator's socket is known, at most two sockets are seated, the attempt
   * counters are the lengths of the guess logs, a round is over exactly when
   * it has a winner, a pending final turn was earned by player 1, and a
   * pending rematch has at most one vote.
   */
  predicate Inv(s: RoomState) {
    && (s.setupPhase == 1 || s.setupPhase == 3)
    && s.playerSockets.one.Some?
    && |s.players| <= 2
    && s.attempts.one == |s.guesses.one| && s.attempts.two == |s.guesses.two|
    && (s.gameOver <==> s.winner != NoWinner)
    && s.fairPlay.provisionalWinner == (if s.fairPlay.pendingFinalTurn then Some(1) else None)
    && |s.playAgainVotes| <= 1
  }

  // ----- create-room -----

  /** The room a creator opens: seated alone as player 1, in setup phase 1, with nothing played. */
  function NewRoom(code: string, socket: SocketId, name: Option<string>, avatar: Option<string>): (s: RoomState)
    ensures Inv(s)
    ensures s.players == [socket] && s.playerSockets == PerPlayer(Some(socket), None)
    ensures s.playerInfo.one == Info(OrElse(name, "Player 1"), OrElse(avatar, DefaultAvatar))
    ensures s.setupPhase == 1 && s.currentPlayer == 1 && !s.gameOver && s.winner == NoWinner
    ensures s.secrets == PerPlayer(None, None) && s.attempts == PerPlayer(0, 0)
    ensures s.seriesWins == PerPlayer(0, 0) && !s.fairPlay.pendingFinalTurn
    ensures s.playerInfo.two == Info("Player 2", DefaultAvatar)
    ensures s.playerNames == map[socket := s.playerInfo.one.name]
    ensures s.guesses == PerPlayer([], []) && s.playAgainVotes == {}
  {
    RoomState(
      code,
      [socket],
      map[socket := OrElse(name, "Player 1")],
      PerPlayer(Info(OrElse(name, "Player 1"), OrElse(avatar, DefaultAvatar)), Info("Player 2", DefaultAvatar)),
      PerPlayer(Some(socket), None),
      PerPlayer(None, None),
      1,
      1,
      PerPlayer([], []),
      PerPlayer(0, 0),
      false,
      NoWinner,
      PerPlayer(0, 0),
      NoFinalTurn,
      {})
  }

  // ----- join-room -----

  /**
   * A second socket takes seat 2. A full room is refused before a room past
   * setup; either refusal changes nothing. A successful join seats the
   * joiner and records its name and socket, and keeps the phase.
   */
  function Join(s: RoomState, socket: SocketId, name: Option<string>, avatar: Option<string>): (r: Step)
    ensures r.reply == Rejected(RoomFull) <==> |s.players| >= 2
    ensures r.reply == Rejected(GameInProgress) <==> |s.players| < 2 && s.setupPhase > 1
    ensures r.reply == Joined <==> |s.players| < 2 && s.setupPhase <= 1
    ensures r.reply.Rejected? ==> r.state == s
    ensures !r.reply.Rejected? ==> r.reply == Joined
    ensures !r.reply.Rejected? ==>
      && r.state.players == s.players + [socket]
      && r.state.playerNames == s.playerNames[socket := OrElse(name, "Player 2")]
      && r.state.playerInfo == s.playerInfo.Set(2, Info(OrElse(name, "Player 2"), OrElse(avatar, DefaultAvatar)))
      && r.state.playerSockets == s.playerSockets.Set(2, Some(socket))
      && r.state.(players := s.players, playerNames := s.playerNames,
                  playerInfo := s.playerInfo, playerSockets := s.playerSockets) == s
  {
    if |s.players| >= 2 then Step(s, Rejected(RoomFull))
    else if s.setupPhase > 1 then Step(s, Rejected(GameInProgress))
    else
      var joinedName := OrElse(name, "Player 2");
      Step(s.(players := s.players + [socket],
              playerNames := s.playerNames[socket := joinedName],
              playerInfo := s.playerInfo.Set(2, Info(joinedName, OrElse(avatar, DefaultAvatar))),
              playerSockets := s.playerSockets.Set(2, Some(socket))),
           Joined)
  }

  // ----- set-secret -----

  /**
   * Player p's secret is stored whatever the phase and whatever its length.
   * The game starts (phase 3, player 1 to move) exactly when both stored
   * secrets are truthy; otherwise nothing else changes and the opponent is
   * told when its socket is known.
   */
  function SetSecret(s: RoomState, p: Player, secret: string): (r: Step)
    ensures r.state.secrets == s.secrets.Set(p, Some(secret))
    ensures r.reply == GameStarted <==> Truthy(r.state.secrets.one) && Truthy(r.state.secrets.two)
    ensures r.reply == GameStarted ==> r.state == s.(secrets := r.state.secrets, setupPhase := 3, currentPlayer := 1)
    ensures r.reply != GameStarted ==> r.state == s.(secrets := r.state.secrets)
    ensures r.reply != GameStarted ==> r.reply == SecretStored(Truthy(s.playerSockets.Get(Opponent(p))))
  {
    var secrets := s.secrets.Set(p, Some(secret));
    if Truthy(secrets.one) && Truthy(secrets.two) then
      Step(s.(secrets := secrets, setupPhase := 3, currentPlayer := 1), GameStarted)
    else
      Step(s.(secrets := secrets), SecretStored(Truthy(s.playerSockets.Get(Opponent(p)))))
  }

  // ----- submit-guess -----

  /**
   * What submit-guess needs in order not to fail: the guess of the player to
   * move is scored against the opponent's secret, which must have been set,
   * and a pending final turn carries its provisional winner.
   */
  predicate CanGuess(s: RoomState, p: Player) {
    && (!s.gameOver && p == s.currentPlayer ==> s.secrets.Get(Opponent(p)).Some?)
    && (s.fairPlay.pendingFinalTurn ==> s.fairPlay.provisionalWinner.Some?)
  }

  /** The guess is logged for p only: its counter grows by one and its log by the scored entry. */
  predicate Logged(s: RoomState, t: RoomState, p: Player, entry: GuessEntry) {
    && t.attempts.Get(p) == s.attempts.Get(p) + 1
    && t.guesses.Get(p) == s.guesses.Get(p) + [entry]
    && t.attempts.Get(Opponent(p)) == s.attempts.Get(Opponent(p))
    && t.guesses.Get(Opponent(p)) == s.guesses.Get(Opponent(p))
  }

  /** A guess scored as a full match. */
  predicate Solved(result: Evaluator.Feedback) {
    result.correctPlace == Evaluator.CodeLength
  }

  /** The guess log after p's scored guess: p's counter and log grow, the rest stays. */
  function Log(s: RoomState, p: Player, entry: GuessEntry): (t: RoomState)
    ensures Logged(s, t, p, entry)
    ensures t.(attempts := s.attempts, guesses := s.guesses) == s
  {
    s.(attempts := s.attempts.Set(p, s.attempts.Get(p) + 1), guesses := s.guesses.Set(p, s.guesses.Get(p) + [entry]))
  }

  /** How a scored guess by p ends, from the state in which it is already logged. */
  function Resolve(s: RoomState, p: Player, isCorrect: bool): (RoomState, Follow)
    requires s.fairPlay.pendingFinalTurn ==> s.fairPlay.provisionalWinner.Some?
  {
    if isCorrect then
      if p == 1 && !s.fairPlay.pendingFinalTurn then
        (s.(fairPlay := FairPlay(true, Some(1)), currentPlayer := 2), FinalChance)
      else if s.fairPlay.pendingFinalTurn && p == 2 then
        (s.(gameOver := true, winner := Tie), GameEnded(Tie))
      else
        (s.(gameOver := true, winner := Won(p), seriesWins := s.seriesWins.Set(p, s.seriesWins.Get(p) + 1)),
         GameEnded(Won(p)))
    else if s.fairPlay.pendingFinalTurn && p == 2 then
      var w := s.fairPlay.provisionalWinner.value;
      (s.(gameOver := true, winner := Won(w), seriesWins := s.seriesWins.Set(w, s.seriesWins.Get(w) + 1)),
       GameEnded(Won(w)))
    else
      var next := Opponent(s.currentPlayer);
      (s.(currentPlayer := next), TurnChanged(next))
  }

  /** An accepted guess with its scored entry: logged for p, then resolved. */
  function Accept(s: RoomState, p: Player, entry: GuessEntry): Step
    requires s.fairPlay.pendingFinalTurn ==> s.fairPlay.provisionalWinner.Some?
  {
    Step(Resolve(Log(s, p, entry), p, Solved(entry.result)).0,
         GuessSubmitted(entry.result, Solved(entry.result), Resolve(Log(s, p, entry), p, Solved(entry.result)).1))
  }

  /**
   * A guess is refused, changing nothing, when the round is over or it is not
   * p's turn. Otherwise it is scored against the opponent's secret and logged
   * for p alone; a full match is a correct guess; the seats, names, secrets,
   * phase and rematch votes are left as they were.
   */
  function SubmitGuess(s: RoomState, p: Player, guess: string): (r: Step)
    requires CanGuess(s, p)
    ensures r.reply == Rejected(GameIsOver) <==> s.gameOver
    ensures r.reply == Rejected(NotYourTurn) <==> !s.gameOver && p != s.currentPlayer
    ensures r.reply.GuessSubmitted? <==> !s.gameOver && p == s.currentPlayer
    ensures r.reply.Rejected? ==> r.state == s
    ensures !r.reply.Rejected? ==>
      && r.reply.GuessSubmitted?
      && r.reply.result == Evaluator.Evaluate(s.secrets.Get(Opponent(p)).value, guess)
      && r.reply.isCorrect == (r.reply.result.correctPlace == Evaluator.CodeLength)
      && Logged(s, r.state, p, GuessEntry(guess, r.reply.result))
      && r.state.(attempts := s.attempts, guesses := s.guesses, currentPlayer := s.currentPlayer,
                  gameOver := s.gameOver, winner := s.winner, seriesWins := s.seriesWins,
                  fairPlay := s.fairPlay) == s
  {
    if s.gameOver then Step(s, Rejected(GameIsOver))
    else if p != s.currentPlayer then Step(s, Rejected(NotYourTurn))
    else Accept(s, p, GuessEntry(guess, Evaluator.Evaluate(s.secrets.Get(Opponent(p)).value, guess)))
  }

  // ----- play-again -----

  /** A new round: no secrets, setup phase 1, player 1 to move, empty logs, no winner, no votes. */
  predicate FreshRound(t: RoomState) {
    && t.secrets == PerPlayer(None, None) && t.setupPhase == 1 && t.currentPlayer == 1
    && t.guesses == PerPlayer([], []) && t.attempts == PerPlayer(0, 0)
    && !t.gameOver && t.winner == NoWinner && t.fairPlay == NoFinalTurn && t.playAgainVotes == {}
  }

  /**
   * A rematch vote by p always clears the fair-play record. When both players
   * have voted the round is reset, keeping the seats and the series score;
   * otherwise the vote is recorded and the opponent told when its socket is
   * known.
   */
  function PlayAgain(s: RoomState, p: Player): (r: Step)
    ensures r.state.fairPlay == NoFinalTurn
    ensures r.reply == GameReset <==> s.playAgainVotes + {p} == {1, 2}
    ensures r.reply == GameReset ==>
      && FreshRound(r.state)
      && r.state.(secrets := s.secrets, setupPhase := s.setupPhase, currentPlayer := s.currentPlayer,
                  guesses := s.guesses, attempts := s.attempts, gameOver := s.gameOver,
                  winner := s.winner, fairPlay := s.fairPlay, playAgainVotes := s.playAgainVotes) == s
    ensures r.reply != GameReset ==>
      && r.state == s.(fairPlay := NoFinalTurn, playAgainVotes := s.playAgainVotes + {p})
      && r.reply == WaitingForRematch(Truthy(s.playerSockets.Get(Opponent(p))))
  {
    var votes := s.playAgainVotes + {p};
    BothVoted(votes);
    if |votes| == 2 then
      Step(s.(fairPlay := NoFinalTurn, secrets := PerPlayer(None, None), setupPhase := 1, currentPlayer := 1,
              guesses := PerPlayer([], []), attempts := PerPlayer(0, 0), gameOver := false,
              winner := NoWinner, playAgainVotes := {}),
           GameReset)
    else
      Step(s.(fairPlay := NoFinalTurn, playAgainVotes := votes),
           WaitingForRematch(Truthy(s.playerSockets.Get(Opponent(p)))))
  }

  /** A vote set has two members exactly when both players voted. */
  lemma BothVoted(v: set<Player>)
    ensures |v| == 2 <==> v == {1, 2}
  {
    if 1 in v && 2 in v {
      assert v == {1, 2};
    } else if 1 in v {
      assert v == {1};
    } else if 2 in v {
      assert v == {2};
    } else {
      assert v == {};
    }
  }

  // ----- exit-room -----

  /** The sequence without the first occurrence of x, as indexOf followed by splice. */
  function RemoveFirst(s: seq<SocketId>, x: SocketId): (r: seq<SocketId>)
    ensures x !in s ==> r == s
  {
    if s == [] then []
    else if s[0] == x then s[1..]
    else [s[0]] + RemoveFirst(s[1..], x)
  }

  /** The index of the first occurrence of x, or -1. */
  function IndexOf(s: seq<SocketId>, x: SocketId): (i: int)
    ensures -1 <= i < |s|
    ensures i == -1 <==> x !in s
    ensures 0 <= i ==> s[i] == x && x !in s[..i]
  {
    if s == [] then -1
    else if s[0] == x then 0
    else
      var k := IndexOf(s[1..], x);
      assert s[1..][..if k < 0 then 0 else k] == s[1..if k < 0 then 1 else k + 1];
      if k < 0 then -1 else k + 1
  }

  /** Removing the first occurrence is splicing out the index indexOf finds. */
  lemma {:induction false} RemoveFirstSplices(s: seq<SocketId>, x: SocketId)
    requires x in s
    ensures RemoveFirst(s, x) == s[..IndexOf(s, x)] + s[IndexOf(s, x) + 1..]
  {
    if s[0] != x {
      RemoveFirstSplices(s[1..], x);
      var k := IndexOf(s[1..], x);
      assert s[..k + 1] == [s[0]] + s[1..][..k];
      assert s[k + 2..] == s[1..][k + 1..];
    }
  }

  /** Exactly one seat of x is given up, and nobody else's. */
  lemma {:induction false} RemoveFirstCounts(s: seq<SocketId>, x: SocketId)
    ensures multiset(RemoveFirst(s, x)) == multiset(s) - multiset{x}
  {
    if s != [] {
      assert s == [s[0]] + s[1..];
      RemoveFirstCounts(s[1..], x);
      if s[0] != x {
        assert multiset(s) == multiset{s[0]} + multiset(s[1..]);
      }
    }
  }

  /** The exit-room handler: the leaving socket gives up its seat; everything else stays. */
  function Leave(s: RoomState, socket: SocketId): (t: RoomState)
    ensures multiset(t.players) == multiset(s.players) - multiset{socket}
    ensures |t.players| == if socket in s.players then |s.players| - 1 else |s.players|
    ensures t == s.(players := t.players)
    ensures socket !in s.players ==> t == s
  {
    RemoveFirstCounts(s.players, socket);
    assert |multiset(RemoveFirst(s.players, socket))| == |RemoveFirst(s.players, socket)|;
    s.(players := RemoveFirst(s.players, socket))
  }

  // ----- Properties of single handlers -----

  /** A guess's outcome, by cases: the fair-play final turn, a tie, a win, a lost final turn, or a turn change. */
  lemma RoundResolution(s: RoomState, p: Player, guess: string)
    requires CanGuess(s, p) && !s.gameOver && p == s.currentPlayer
    ensures var r := SubmitGuess(s, p, guess);
      var t, pending := r.state, s.fairPlay.pendingFinalTurn;
      && r.reply.GuessSubmitted?
      && (r.reply.isCorrect && p == 1 && !pending ==>
            !t.gameOver && t.fairPlay == FairPlay(true, Some(1)) && t.currentPlayer == 2
            && t.winner == s.winner && t.seriesWins == s.seriesWins && r.reply.follow == FinalChance)
      && (r.reply.isCorrect && p == 2 && pending ==>
            t.gameOver && t.winner == Tie && t.seriesWins == s.seriesWins && r.reply.follow == GameEnded(Tie)
            && t.currentPlayer == s.currentPlayer && t.fairPlay == s.fairPlay)
      && (r.reply.isCorrect && (p == 1 ==> pending) && (p == 2 ==> !pending) ==>
            t.gameOver && t.winner == Won(p) && t.seriesWins == s.seriesWins.Set(p, s.seriesWins.Get(p) + 1)
            && t.currentPlayer == s.currentPlayer && t.fairPlay == s.fairPlay)
      && (!r.reply.isCorrect && p == 2 && pending ==>
            t.gameOver && t.winner == Won(s.fairPlay.provisionalWinner.value)
            && t.seriesWins.Get(t.winner.player) == s.seriesWins.Get(t.winner.player) + 1
            && t.seriesWins.Get(Opponent(t.winner.player)) == s.seriesWins.Get(Opponent(t.winner.player))
            && t.currentPlayer == s.currentPlayer && t.fairPlay == s.fairPlay)
      && (!r.reply.isCorrect && !(p == 2 && pending) ==>
            !t.gameOver && t.currentPlayer == Opponent(p) && t.winner == s.winner
            && t.seriesWins == s.seriesWins && t.fairPlay == s.fairPlay && r.reply.follow == TurnChanged(Opponent(p)))
      && (t.gameOver ==> r.reply.follow == GameEnded(t.winner))
  {
  }

  /** Guessing the opponent's secret itself is a correct guess, whatever that secret's length. */
  lemma GuessingTheSecretIsCorrect(s: RoomState, p: Player)
    requires CanGuess(s, p) && !s.gameOver && p == s.currentPlayer
    ensures SubmitGuess(s, p, s.secrets.Get(Opponent(p)).value).reply.isCorrect
  {
    Evaluator.IdenticalGuessWins(s.secrets.Get(Opponent(p)).value);
  }

  /** A player 1 win never stands at once: player 2 always gets a final turn first. */
  lemma FinalChanceOpens(s: RoomState, guess: string)
    requires CanGuess(s, 1) && !s.gameOver && s.currentPlayer == 1 && !s.fairPlay.pendingFinalTurn
    requires Evaluator.Evaluate(s.secrets.two.value, guess).correctPlace == Evaluator.CodeLength
    ensures var t := SubmitGuess(s, 1, guess).state;
      !t.gameOver && t.winner == s.winner && t.currentPlayer == 2
      && t.fairPlay.pendingFinalTurn && t.fairPlay.provisionalWinner == Some(1)
  {
  }

  /**
   * Unless set-secret intervenes, the final turn is player 2's: while it is
   * pending and the round not over, player 2 is to move. Every handler other
   * than set-secret keeps this.
   */
  predicate FinalTurnHeld(s: RoomState) {
    s.fairPlay.pendingFinalTurn && !s.gameOver ==> s.currentPlayer == 2
  }

  lemma GuessKeepsFinalTurn(s: RoomState, p: Player, guess: string)
    requires CanGuess(s, p) && FinalTurnHeld(s)
    ensures FinalTurnHeld(SubmitGuess(s, p, guess).state)
  {
  }

  /**
   * set-secret has no phase check: a secret sent while player 2 holds the
   * final turn starts the game again with player 1 to move, the final turn
   * still pending.
   */
  lemma SecretResetsFinalTurn(s: RoomState, p: Player, secret: string)
    requires s.fairPlay.pendingFinalTurn && !s.gameOver && s.currentPlayer == 2
    requires secret != "" && Truthy(s.secrets.Get(Opponent(p)))
    ensures var t := SetSecret(s, p, secret).state;
      !FinalTurnHeld(t) && t.currentPlayer == 1 && t.fairPlay == s.fairPlay && t.attempts == s.attempts
  {
  }

  /** Every handler keeps the room invariant. */
  lemma JoinKeepsInv(s: RoomState, socket: SocketId, name: Option<string>, avatar: Option<string>)
    requires Inv(s)
    ensures Inv(Join(s, socket, name, avatar).state)
  {
  }

  lemma SetSecretKeepsInv(s: RoomState, p: Player, secret: string)
    requires Inv(s)
    ensures Inv(SetSecret(s, p, secret).state)
  {
  }

  lemma SubmitGuessKeepsInv(s: RoomState, p: Player, guess: string)
    requires Inv(s) && (!s.gameOver && p == s.currentPlayer ==> s.secrets.Get(Opponent(p)).Some?)
    ensures CanGuess(s, p) && Inv(SubmitGuess(s, p, guess).state)
  {
  }

  lemma PlayAgainKeepsInv(s: RoomState, p: Player)
    requires Inv(s)
    ensures Inv(PlayAgain(s, p).state)
  {
  }

  lemma LeaveKeepsInv(s: RoomState, socket: SocketId)
    requires Inv(s)
    ensures Inv(Leave(s, socket))
  {
  }

  /** A repeated vote by the same player changes nothing more: the votes form a set. */
  lemma RepeatedVote(s: RoomState, p: Player)
    requires PlayAgain(s, p).reply != GameReset
    ensures PlayAgain(PlayAgain(s, p).state, p) == PlayAgain(s, p)
  {
  }

  /** Starting from no votes, a vote by each player resets the round and keeps the series score. */
  lemma RematchByBoth(s: RoomState, p: Player)
    requires s.playAgainVotes == {}
    ensures var first := PlayAgain(s, p);
      var second := PlayAgain(first.state, Opponent(p));
      && first.reply != GameReset && second.reply == GameReset
      && FreshRound(second.state) && second.state.seriesWins == s.seriesWins
      && second.state.players == s.players && second.state.playerInfo == s.playerInfo
  {
    assert {p} + {Opponent(p)} == {1, 2};
  }

  /**
   * play-again has no gameOver check: a vote sent while player 2 holds the
   * final turn cancels it, so a miss by player 2 no longer ends the round
   * with player 1's win but passes the move back to player 1.
   */
  lemma VoteCancelsFinalTurn(s: RoomState, p: Player, guess: string)
    requires !s.gameOver && s.currentPlayer == 2 && s.fairPlay.pendingFinalTurn && s.playAgainVotes == {}
    requires s.secrets.one.Some?
    requires Evaluator.Evaluate(s.secrets.one.value, guess).correctPlace != Evaluator.CodeLength
    ensures var u := PlayAgain(s, p).state;
      var t := SubmitGuess(u, 2, guess).state;
      !t.gameOver && t.currentPlayer == 1 && t.winner == s.winner && t.seriesWins == s.seriesWins
  {
    assert s.playAgainVotes + {p} != {1, 2};
  }

  /**
   * The series score moves only when a round ends: a guess that ends the
   * round with a winner credits that winner with one win, and any other
   * handler leaves the score alone.
   */
  lemma SeriesScoreOnGuess(s: RoomState, p: Player, guess: string)
    requires CanGuess(s, p)
    ensures var t := SubmitGuess(s, p, guess).state;
      t.seriesWins == if !s.gameOver && t.gameOver then Credit(s.seriesWins, t.winner) else s.seriesWins
  {
    if !s.gameOver && p == s.currentPlayer {
      AcceptScores(s, p, GuessEntry(guess, Evaluator.Evaluate(s.secrets.Get(Opponent(p)).value, guess)));
    }
  }

  /** An accepted guess, whatever its score, credits the winner of the round it ends, and no one else. */
  lemma AcceptScores(s: RoomState, p: Player, entry: GuessEntry)
    requires !s.gameOver && (s.fairPlay.pendingFinalTurn ==> s.fairPlay.provisionalWinner.Some?)
    ensures var t := Accept(s, p, entry).state;
      t.seriesWins == if t.gameOver then Credit(s.seriesWins, t.winner) else s.seriesWins
  {
  }
}
