/**
 * The room record of the game server as an object whose handlers update its
 * fields in place. Each handler method is proved to follow the transition of
 * the same name in module Session, and to keep the room invariant.
 */
module Rooms {
  import opened Wrappers
  import opened Session
  import Evaluator

  /** The position of the first occurrence of x in s, or -1, found by a left-to-right scan. */
  method FindSocket(s: seq<SocketId>, x: SocketId) returns (index: int)
    ensures index == IndexOf(s, x)
    ensures index == -1 <==> x !in s
    ensures index != -1 ==> 0 <= index < |s| && s[index] == x && x !in s[..index]
  {
    var i := 0;
    while i < |s|
      invariant 0 <= i <= |s|
      invariant x !in s[..i]
      invariant IndexOf(s, x) == -1 || i <= IndexOf(s, x)
    {
      if s[i] == x {
        return i;
      }
      assert s[..i + 1] == s[..i] + [s[i]];
      i := i + 1;
    }
    assert s[..i] == s;
    return -1;
  }

  class Room {
    const code: string
    var players: seq<SocketId>
    var playerNames: map<SocketId, string>
    var playerInfo: PerPlayer<Info>
    var playerSockets: PerPlayer<Option<SocketId>>
    var secrets: PerPlayer<Option<string>>
    var setupPhase: int
    var currentPlayer: Player
    var guesses: PerPlayer<seq<GuessEntry>>
    var attempts: PerPlayer<nat>
    var gameOver: bool
    var winner: Winner
    var seriesWins: PerPlayer<nat>
    var fairPlay: FairPlay
    var playAgainVotes: set<Player>

    /** The room's fields as one value. */
    ghost function State(): RoomState
      reads this
    {
      RoomState(code, players, playerNames, playerInfo, playerSockets, secrets, setupPhase, currentPlayer,
                guesses, attempts, gameOver, winner, seriesWins, fairPlay, playAgainVotes)
    }

    ghost predicate Valid()
      reads this
    {
      Inv(State())
    }

    /** create-room: the creator is seated as player 1 of a fresh room. */
    constructor (roomCode: string, socket: SocketId, name: Option<string>, avatar: Option<string>)
      ensures Valid() && State() == NewRoom(roomCode, socket, name, avatar)
    {
      var info := Info(OrElse(name, "Player 1"), OrElse(avatar, DefaultAvatar));
      code := roomCode;
      players := [socket];
      playerNames := map[socket := OrElse(name, "Player 1")];
      playerInfo := PerPlayer(info, Info("Player 2", DefaultAvatar));
      secrets := PerPlayer(None, None);
      setupPhase := 1;
      currentPlayer := 1;
      playerSockets := PerPlayer(Some(socket), None);
      guesses := PerPlayer([], []);
      attempts := PerPlayer(0, 0);
      gameOver := false;
      winner := NoWinner;
      seriesWins := PerPlayer(0, 0);
      fairPlay := NoFinalTurn;
      playAgainVotes := {};
    }

    /** join-room, once the room has been found. */
    method Join(socket: SocketId, name: Option<string>, avatar: Option<string>) returns (reply: Reply)
      requires Valid()
      modifies this
      ensures Valid()
      ensures Step(State(), reply) == Session.Join(old(State()), socket, name, avatar)
    {
      if |players| >= 2 {
        return Rejected(RoomFull);
      }
      if setupPhase > 1 {
        return Rejected(GameInProgress);
      }
      var joinedName := OrElse(name, "Player 2");
      players := players + [socket];
      playerNames := playerNames[socket := joinedName];
      playerInfo := playerInfo.Set(2, Info(joinedName, OrElse(avatar, DefaultAvatar)));
      playerSockets := playerSockets.Set(2, Some(socket));
      reply := Joined;
    }

    /** set-secret for player p. */
    method SetSecret(p: Player, secret: string) returns (reply: Reply)
      requires Valid()
      modifies this
      ensures Valid()
      ensures Step(State(), reply) == Session.SetSecret(old(State()), p, secret)
    {
      secrets := secrets.Set(p, Some(secret));
      if Truthy(secrets.one) && Truthy(secrets.two) {
        setupPhase := 3;
        currentPlayer := 1;
        reply := GameStarted;
      } else {
        reply := SecretStored(Truthy(playerSockets.Get(Opponent(p))));
      }
    }

    /** submit-guess for player p: scored by the imperative evaluator, then the fair-play rule. */
    method SubmitGuess(p: Player, guess: string) returns (reply: Reply)
      requires Valid()
      requires !gameOver && p == currentPlayer ==> secrets.Get(Opponent(p)).Some?
      modifies this
      ensures Valid()
      ensures Step(State(), reply) == Session.SubmitGuess(old(State()), p, guess)
    {
      if gameOver {
        return Rejected(GameIsOver);
      }
      if p != currentPlayer {
        return Rejected(NotYourTurn);
      }
      ghost var s := State();
      var target := Opponent(p);
      var result := Evaluator.EvaluateGuess(secrets.Get(target).value, guess);
      attempts := attempts.Set(p, attempts.Get(p) + 1);
      guesses := guesses.Set(p, guesses.Get(p) + [GuessEntry(guess, result)]);
      var isCorrect := result.correctPlace == Evaluator.CodeLength;
      var follow := ResolveGuess(p, isCorrect);
      reply := GuessSubmitted(result, isCorrect, follow);
      SubmitGuessKeepsInv(s, p, guess);
      assert State() == Session.SubmitGuess(s, p, guess).state;
    }

    /** The win check of submit-guess, once the guess of p is logged. */
    method ResolveGuess(p: Player, isCorrect: bool) returns (follow: Follow)
      requires fairPlay.pendingFinalTurn ==> fairPlay.provisionalWinner.Some?
      modifies this
      ensures (State(), follow) == Session.Resolve(old(State()), p, isCorrect)
    {
      if isCorrect {
        if p == 1 && !fairPlay.pendingFinalTurn {
          fairPlay := FairPlay(true, Some(1));
          currentPlayer := 2;
          return FinalChance;
        }
        gameOver := true;
        if fairPlay.pendingFinalTurn && p == 2 {
          winner := Tie;
        } else {
          winner := Won(p);
          seriesWins := seriesWins.Set(p, seriesWins.Get(p) + 1);
        }
        return GameEnded(winner);
      }
      if fairPlay.pendingFinalTurn && p == 2 {
        gameOver := true;
        var w := fairPlay.provisionalWinner.value;
        winner := Won(w);
        seriesWins := seriesWins.Set(w, seriesWins.Get(w) + 1);
        return GameEnded(winner);
      }
      currentPlayer := Opponent(currentPlayer);
      follow := TurnChanged(currentPlayer);
    }

    /** play-again: a rematch vote by player p. */
    method PlayAgain(p: Player) returns (reply: Reply)
      requires Valid()
      modifies this
      ensures Valid()
      ensures Step(State(), reply) == Session.PlayAgain(old(State()), p)
    {
      fairPlay := NoFinalTurn;
      playAgainVotes := playAgainVotes + {p};
      BothVoted(playAgainVotes);
      if |playAgainVotes| == 2 {
        ResetRound();
        reply := GameReset;
      } else {
        reply := WaitingForRematch(Truthy(playerSockets.Get(Opponent(p))));
      }
    }

    /** The reset of a rematch: a fresh round that keeps the seats and the series score. */
    method ResetRound()
      modifies this
      ensures State() == old(State()).(secrets := PerPlayer(None, None), setupPhase := 1, currentPlayer := 1,
                                         guesses := PerPlayer([], []), attempts := PerPlayer(0, 0),
                                         gameOver := false, winner := NoWinner, playAgainVotes := {})
    {
      secrets := PerPlayer(None, None);
      setupPhase := 1;
      currentPlayer := 1;
      guesses := PerPlayer([], []);
      attempts := PerPlayer(0, 0);
      gameOver := false;
      winner := NoWinner;
      playAgainVotes := {};
    }

    /** exit-room: the socket gives up its seat, if it has one. */
    method Leave(socket: SocketId)
      requires Valid()
      modifies this
      ensures Valid()
      ensures State() == Session.Leave(old(State()), socket)
    {
      var index := FindSocket(players, socket);
      if index > -1 {
        RemoveFirstSplices(players, socket);
        players := players[..index] + players[index + 1..];
      }
    }
  }
}
