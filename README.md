# DigitDuel game server, modelled in Dafny

DigitDuel is a two-player, Mastermind-style duel played over socket.io. Each
player sets a four-character secret. The players then take turns guessing the
opponent's secret, and each guess is scored position by position. The whole
server is `server.js`. This project models its two cores:

- **Guess scoring** (`evaluateGuess`). It runs two passes over fixed
  four-element arrays:
  - the first pass marks the exact positions correct and consumes them;
  - the second pass gives every other guess position the first unconsumed
    secret position holding the same character, and marks it present.
- **The room state machine and the room table.** The handlers cover
  create-room, join-room, set-secret, submit-guess, play-again and exit-room.
  The interesting rules are:
  - the fair-play final turn: after player 1 guesses correctly, player 2
    still gets one last guess, which can tie the round;
  - the rematch vote, which resets the round but keeps the series score.

## Modules

| file | module | what it holds |
|---|---|---|
| `wrappers.dfy` | `Wrappers` | `Option` |
| `evaluator.dfy` | `Evaluator` | scoring, in two forms |
| `session.dfy` | `Session` | a room's fields, each handler as a transition, and the lemmas about them |
| `rounds.dfy` | `Rounds` | whole runs of handler calls, the fair-play balance theorem, the series score |
| `rooms.dfy` | `Rooms` | the `Room` class |
| `roomcodes.dfy` | `RoomCodes` | room codes; join-room's upper-case-then-trim |
| `registry.dfy` | `Registry` | the `Registry` class |

More on each:

- **Evaluator.**
  - `Evaluate` is a reference definition: both passes written as recursive
    functions.
  - `EvaluateGuess` is the imperative version. It works in place on a status
    array and a used-secret array with two loops, and is proved to compute
    the same feedback.
- **Session.** `RoomState` is the room record as a value. Each handler is a
  function that returns the new state and a reply.
- **Rooms.** `Room` is a class holding the same fields. It has one method
  per handler, and each method is proved to follow its `Session` transition
  and to keep the room invariant.
- **Registry.** The table is a map from codes to `Room` objects. Its handler
  methods look a room up, delegate to it, and delete a room once it is empty.

### Modelling choices

- **Reads past the end.** JavaScript reads past the end of a string's
  characters as `undefined`, and `undefined === undefined` holds. The
  evaluator therefore reads `Option<char>` symbols. A guess and a secret both
  shorter than four characters agree at the positions they both lack.
- **Truthiness.** A secret or socket id is truthy when it is present and not
  empty.
- **Winner.** `winner` is `null`, `0` (a tie) or a player number. These become
  `NoWinner`, `Tie` and `Won(p)`.
- **Per-player records.** `{1: …, 2: …}` becomes `PerPlayer<T>`.
- **The caller's identity.** The socket's stored room code and player number
  are explicit parameters. Join-room instead looks up the code it is given,
  after normalising it.

### Behaviour worth knowing

- **Repeated and swapped digits.** Secret `1234` with guess `1243` scores
  correct, correct, present, present: correctPlace 2 and correctDigits 4
  (`Evaluator.ExampleSwap`). Secret `1123` with guess `3211` scores all four
  present: correctPlace 0 and correctDigits 4 (`Evaluator.ExampleRepeatedDigits`).
  In the second case both `1`s of the secret are still free when the guess's
  two `1`s are scored.
- **set-secret checks neither phase nor length.** A non-empty secret sent
  while player 2 holds the final turn, with the opponent's secret non-empty,
  sets `currentPlayer` back to 1 with the final turn still pending. Player 1
  can then win outright, two attempts ahead (`Session.SecretResetsFinalTurn`,
  `Rounds.MidRoundSecretSkipsFinalTurn`). An empty secret is falsy and does
  not restart the game.
- **submit-guess does not check the setup phase.** Once player 2 has stored
  a secret, player 1 may guess before storing their own. A miss passes the
  move to player 2. Player 1's set-secret then starts the game with player 1
  to move and one attempt ahead (`Rounds.GuessBeforeOwnSecret`).
- **The fair-play theorem** `Rounds.FairFromCreation` therefore leaves out
  every set-secret sent while player 2 is to move in an unfinished round.
  Both paths above are of this kind. In the runs it covers, a finished round
  always gave both players the same number of attempts.
- **play-again does not check `gameOver`.** A vote sent during the final
  turn cancels it (`Session.VoteCancelsFinalTurn`).

## Model

| member | source | states |
|---|---|---|
| Evaluator.EvaluateGuess | server.js:405-444 | The feedback equals the reference two-pass `Evaluate`. It has four statuses. A status is Correct exactly where guess and secret read the same symbol. correctPlace counts the Correct statuses. correctDigits is the size of the multiset intersection of the two codes' symbols. 0 ≤ correctPlace ≤ correctDigits ≤ 4. |
| Evaluator.MarkExact | server.js:414-422 | After the first loop, the status and used-secret arrays hold exactly the first-pass marking: Correct and consumed where the symbols agree, Absent and free elsewhere. The returned count is the number of Correct statuses. |
| Evaluator.MarkPresent | server.js:424-437 | After the second loop the arrays hold the second pass applied to the first-pass marking. The Correct count is unchanged. correctDigits counts the Correct and Present positions. |
| Evaluator.FirstFree | server.js:429-435 | The result is the first unconsumed secret position from j on holding the digit. None means every such position is consumed or holds another symbol. |
| Evaluator.PresentMarking | server.js:424-437 | The reference second pass never creates or removes a Correct status, and never rewrites a position it has passed. |
| Evaluator.AgreementsCount | server.js:414-422 | Counting agreements position by position, as the first loop's counter does, gives the number of Correct statuses among the first n. |
| Evaluator.ExactPositionsAreCorrect | server.js:414-422 | statuses[i] is Correct if and only if guess and secret agree at i, for each of the four positions. |
| Evaluator.FullMatchIffAgree | server.js:208 | correctPlace is 4, the win test, if and only if guess and secret agree at all four positions. |
| Evaluator.IdenticalGuessWins | server.js:208 | Guessing the secret itself is always a full match. |
| Evaluator.FullMatchIffEqual | server.js:208 | For four-character codes, a full match holds if and only if the guess equals the secret. |
| Evaluator.ScoreBounds | server.js:405-444 | correctDigits is 4 minus the number of Absent statuses, and 0 ≤ correctPlace ≤ correctDigits ≤ 4. |
| Evaluator.PresentMarkingCredits | server.js:424-437 | From position i on, the second pass credits exactly as many positions as the free secret symbols and the not-yet-Correct guess symbols have in common. |
| Evaluator.NoDoubleCounting | server.js:412-437 | correctDigits equals the size of the multiset intersection of secret and guess symbols. A symbol is credited as often as it occurs on both sides and never more: no secret position is consumed twice. |
| Evaluator.ScoreSymmetric | server.js:405-444 | Swapping secret and guess changes neither correctPlace nor correctDigits. |
| Evaluator.ExampleSwap | server.js:405-444 | Secret 1234 with guess 1243 scores Correct, Correct, Present, Present, with correctPlace 2 and correctDigits 4. |
| Evaluator.ExampleRepeatedDigits | server.js:405-444 | Secret 1123 with guess 3211 scores all four Present, with correctPlace 0 and correctDigits 4. |
| Evaluator.ExampleRepeatedGuess | server.js:405-444 | Secret 1234 with guess 1111 scores Correct, Absent, Absent, Absent: the repeated 1 is credited once. |
| Evaluator.ExampleShortCodes | server.js:416 | Two equal two-character codes are a full match: the missing positions read undefined on both sides. |
| Session.Opponent | server.js:199 | The other player number is never the player's own. |
| Session.NewRoom | server.js:47-70 | A fresh room:<br>• the creator is seated alone in seat 1;<br>• name and avatar fall back to "Player 1" and the koala, and only the creator's name is recorded;<br>• seat 2 shows "Player 2" with the koala;<br>• it is in phase 1 with player 1 to move;<br>• nothing has been played, nobody has voted, there is no winner and no final turn;<br>• the series is 0–0;<br>• the invariant holds. |
| Session.Join | server.js:97-110 | A full room (two or more players) is refused first. A room past phase 1 is refused next. Both conditions are stated as if-and-only-if, and so is admission: a room with fewer than two players in phase 1 always admits the joiner. A refusal changes nothing. A successful join changes exactly four fields:<br>• the socket is appended to players;<br>• its name, defaulting to "Player 2", is recorded;<br>• seat 2's info is set;<br>• seat 2's socket is set. |
| Session.SetSecret | server.js:141-173 | p's secret is stored whatever the phase or length. The game starts (phase 3, player 1 to move) if and only if both stored secrets are truthy, and nothing else changes. Otherwise only the secret changes, and the reply says whether the opponent's socket is known. |
| Session.Log | server.js:205-206 | p's attempt counter grows by one and p's log by the entry. The opponent's counter and log, and every other field, stay as they were. |
| Session.SubmitGuess | server.js:186-217 | A guess is refused with "game over" if and only if the round is over. It is refused with "not your turn" if and only if it is not p's turn. It is accepted if and only if the round runs and it is p's turn. A refusal changes nothing. An accepted guess:<br>• is scored by Evaluate against the opponent's secret;<br>• is correct exactly on a full match;<br>• is logged for p only;<br>• leaves seats, names, secrets, phase and votes as they were. |
| Session.RoundResolution | server.js:222-287 | Every outcome of an accepted guess:<br>• player 1's first full match opens the final turn (round not over, player 2 to move, score kept);<br>• player 2's full match in the final turn is a tie, score kept;<br>• any other full match wins for the guesser and adds one to their score;<br>• player 2's miss in the final turn gives the provisional winner the win and one more point, the other score unchanged;<br>• any other miss passes the turn and keeps winner, score and fair-play record;<br>• a round that ends announces its winner and keeps the player to move and the fair-play record. |
| Session.FinalChanceOpens | server.js:224-239 | Player 1's full match with no final turn pending leaves the round unfinished. Player 2 moves next, the final turn is pending, and player 1 is the provisional winner. |
| Session.GuessKeepsFinalTurn | server.js:222-287 | While a final turn is pending in an unfinished round, player 2 is to move. Every guess keeps this. |
| Session.SecretResetsFinalTurn | server.js:141-149 | A non-empty secret, with the opponent's secret non-empty, sent while player 2 holds the final turn gives the move back to player 1, with the final turn still pending and the attempts unchanged. |
| Session.GuessingTheSecretIsCorrect | server.js:198-208 | Guessing the opponent's secret itself, of any length, is reported as correct. |
| Session.JoinKeepsInv | server.js:107-110 | join-room keeps the invariant: phase 1 or 3, creator's socket known, at most two seats, counters equal to log lengths, over exactly when there is a winner, a pending final turn owned by player 1, at most one vote. |
| Session.SetSecretKeepsInv | server.js:141-149 | set-secret keeps the room invariant. |
| Session.SubmitGuessKeepsInv | server.js:186-287 | submit-guess keeps the room invariant. Given the opponent's secret, it also meets everything the guess needs. |
| Session.PlayAgainKeepsInv | server.js:300-323 | play-again keeps the room invariant. |
| Session.LeaveKeepsInv | server.js:359-363 | exit-room keeps the room invariant. |
| Session.PlayAgain | server.js:300-345 | A vote always clears the fair-play record. The round is reset if and only if both players have now voted. The reset keeps seats and series score, and clears secrets, logs, counters, winner and votes, with phase 1 and player 1 to move. Otherwise only the vote is added. |
| Session.BothVoted | server.js:314 | A vote set has size 2 exactly when both players are in it. |
| Session.RepeatedVote | server.js:311 | A second vote by the same player, before the reset, changes nothing. |
| Session.RematchByBoth | server.js:311-323 | Starting from no votes, a vote by each player resets the round. The first vote does not reset it. Seats, player info and series score survive the reset. |
| Session.VoteCancelsFinalTurn | server.js:300-303 | A vote sent while player 2 holds the final turn, when no vote has been cast yet, cancels it. A miss by player 2 then passes the move to player 1 instead of ending the round. |
| Session.SeriesScoreOnGuess | server.js:243-269 | A guess that ends the round credits its winner with one win. Any other guess leaves the series score alone. |
| Session.AcceptScores | server.js:243-269 | An accepted guess, whatever its score, changes the series score only by crediting the winner of the round it ends. |
| Session.IndexOf | server.js:360 | indexOf gives -1 exactly when the socket is not seated. Otherwise it gives its first position. |
| Session.RemoveFirst | server.js:360-363 | Removing an unseated socket changes nothing. |
| Session.RemoveFirstSplices | server.js:360-363 | Removing the first occurrence is `splice(indexOf(x), 1)`. |
| Session.RemoveFirstCounts | server.js:360-363 | Exactly one seat of the leaving socket is given up, and no other seat. |
| Session.Leave | server.js:359-363 | exit-room gives up exactly one seat of the leaving socket: the multiset of players loses one occurrence of it, and nothing else. A socket that is not seated changes nothing. Every other field is unchanged. |
| Rounds.ApplyKeepsBalance | server.js:222-287 | One allowed, honest handler call keeps the invariant and the turn balance. The balance: equal attempts and no pending final turn when player 1 is to move, player 1 one attempt ahead when player 2 is, equal attempts once the round is over. |
| Rounds.HonestRunsStayBalanced | server.js:222-287 | Every run of honest, allowed calls keeps the invariant and the turn balance. |
| Rounds.FairFromCreation | server.js:222-287 | After any honest run from a new room: a finished round gave both players the same number of attempts, and a pending final turn in an unfinished round is player 2's. |
| Rounds.SeriesScoreGrows | server.js:243-269 | No run of handler calls ever lowers either player's series score. |
| Rounds.MidRoundSecretSkipsFinalTurn | server.js:141-149 | After a non-empty secret, with the opponent's secret non-empty, is sent during player 2's final turn, player 1's correct guess wins the round outright, two attempts ahead of player 2. |
| Rounds.GuessBeforeOwnSecret | server.js:186-196 | From a new room: join, player 2's secret, then player 1's missed guess is an honest run ending with player 2 to move. Player 1's set-secret there is not honest. It starts the game with player 1 to move, attempts at 1–0, and the turn balance broken. |
| Rooms.FindSocket | server.js:360 | The scan returns indexOf: -1 exactly when the socket is absent, otherwise its first position. |
| Rooms.Room.constructor | server.js:52-70 | The new room object's fields are those of `NewRoom`, and the invariant holds. |
| Rooms.Room.Join | server.js:97-110 | The fields and reply after the method are those of `Session.Join`, and the invariant is kept. |
| Rooms.Room.SetSecret | server.js:141-173 | The fields and reply after the method are those of `Session.SetSecret`, and the invariant is kept. |
| Rooms.Room.SubmitGuess | server.js:186-287 | The guess is scored by the imperative `EvaluateGuess`, logged, and resolved. The fields and reply afterwards are those of `Session.SubmitGuess`, and the invariant is kept. |
| Rooms.Room.ResolveGuess | server.js:222-287 | The in-place win check leaves exactly the fields, and reports exactly the follow-up, of `Session.Resolve`. |
| Rooms.Room.PlayAgain | server.js:300-345 | The fields and reply after the method are those of `Session.PlayAgain`, and the invariant is kept. |
| Rooms.Room.ResetRound | server.js:316-323 | The rematch reset clears secrets, logs, counters, winner and votes, with phase 1 and player 1 to move. It keeps everything else. |
| Rooms.Room.Leave | server.js:359-363 | The fields after the method are those of `Session.Leave`, and the invariant is kept. |
| RoomCodes.TrimStart | server.js:89 | The result is a suffix of the input that does not start with whitespace. Everything cut off is whitespace. |
| RoomCodes.TrimEnd | server.js:89 | The result is a prefix of the input that does not end with whitespace. Everything cut off is whitespace. |
| RoomCodes.AlphabetChar | server.js:28 | The characters codes are drawn from are their own upper case and are not whitespace. |
| RoomCodes.TypedCodeNormalizes | server.js:89 | A code typed with any whitespace around it, in any letter case that upper-cases to it, is looked up under the code itself. |
| RoomCodes.RoomCodeNormalizes | server.js:89 | A generated code typed exactly as shown is looked up under itself. |
| RoomCodes.LowerCaseCode | server.js:89 | A code typed in lower case upper-cases back to itself. |
| Registry.Registry.constructor | server.js:24 | The table starts empty and valid. |
| Registry.Registry.CreateRoom | server.js:40-72 | Given a fresh six-character code from the code alphabet, a new room is stored under it. The room is `NewRoom`, and no other room changes. |
| Registry.Registry.Insert | server.js:72 | `rooms.set(code, room)` adds exactly that entry and keeps the table valid. |
| Registry.Registry.JoinRoom | server.js:88-110 | An unknown code, after upper-casing and trimming, is refused with "room not found" and changes nothing. Otherwise join-room runs on that room alone. |
| Registry.Registry.JoinAt | server.js:96-110 | The room under the code becomes `Session.Join` of itself, and every other room is unchanged. |
| Registry.Registry.SetSecret | server.js:132-173 | Without a room, the reply is "room not found" and nothing changes. Otherwise that room alone follows `Session.SetSecret`. |
| Registry.Registry.SubmitGuess | server.js:177-287 | Without a room, the reply is "room not found" and nothing changes. Otherwise that room alone follows `Session.SubmitGuess`. |
| Registry.Registry.PlayAgain | server.js:291-345 | Without a room, the reply is "room not found" and nothing changes. Otherwise that room alone follows `Session.PlayAgain`. |
| Registry.Registry.ExitRoom | server.js:349-370 | Without a truthy code, or without a room under it, nothing changes. Otherwise the socket leaves that room, and the room is deleted exactly when nobody is left. |
| Registry.Registry.Delete | server.js:367 | `rooms.delete(code)` removes exactly that entry and keeps the table valid. |

## Left out

- **Express and the listener.** The static files, the root redirect and the
  listen call (server.js:15-21, 446-449) are I/O bootstrap.
- **The socket.io transport.**
  - Not modelled: `socket.join` and `socket.leave`, the payload shape of every
    `emit`, and `console.log`.
  - A reply is an abstract tag: the rejection, or the event sent. It carries
    only the data the handler decides, such as the score or whether the
    opponent is notified.
- **Socket-side state.** The writes to `socket.roomCode` and
  `socket.playerNumber` (74-75, 112-113, 373-374) belong to the caller. Here
  the caller passes the code and the player number instead.
- **generateRoomCode** (27-34) draws random characters. `Registry.CreateRoom`
  therefore takes the code as a parameter. It requires what the generator and
  the retry loop at 43-45 guarantee: six characters from A–Z and 0–9, not
  already in use.
- **The disconnect handler's delayed deletion** (379-401) is driven by a
  five-minute timer.
- **Non-string payloads.** `code`, `secret` and `guess` are always strings,
  while `name` and `avatar` are a string or missing, so no handler will
  crash on a missing field. The source would crash at `code.toUpperCase()`
  and at `secret.split("")` / `guess.split("")`.
- Session.SubmitGuess, Rooms.Room.SubmitGuess, Registry.Registry.SubmitGuess:
  require the opponent's secret to be set when the guess is accepted. The
  source crashes at `secret.split("")` when it is missing (200-203); the
  model does not handle that case.
- RoomCodes.UpperChar: upper-cases only a–z and the characters whose upper
  case is ASCII (ı, ſ, ß and the ligatures ﬀ, ﬁ, ﬂ, ﬃ, ﬄ, ﬅ, ﬆ). Every
  other character is kept as it is, where `toUpperCase` might change it.
  Either way the key then holds a character outside A–Z and 0–9, so it is
  not a stored code.
- **Strings are sequences of Unicode scalar values**, not UTF-16 code units.
  A character outside the Basic Multilingual Plane holds one position here
  but two in `split("")`.
- **Lazy vote set.** `playAgainVotes` is created on the first vote (305-308).
  Here it exists from creation as the empty set, which behaves the same.
