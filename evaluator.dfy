/**
 * Scoring of one guess against a secret, as the game server's evaluateGuess
 * does it: a first pass credits exact positions, a second pass gives every
 * other guess position the first unconsumed secret position holding the same
 * symbol.
 *
 * Evaluate is the reference definition (the two passes as recursive
 * functions); EvaluateGuess is the imperative version over arrays, proved to
 * compute the same feedback. The lemmas state what the feedback means.
 */
module Evaluator {
  import opened Wrappers

  /** Every code has four positions; the scorer reads exactly these. */
  const CodeLength: nat := 4

  datatype Status = Absent | Present | Correct

  datatype Feedback = Feedback(statuses: seq<Status>, correctPlace: nat, correctDigits: nat)

  /**
   * What the scorer reads at one position of a string: a character, or None
   * for a position past the end (a JavaScript read past the end of an array
   * yields undefined, and undefined === undefined holds).
   */
  type Symbol = Option<char>

  function SymbolAt(s: string, i: nat): Symbol {
    if i < |s| then Some(s[i]) else None
  }

  /** The four symbols the scorer reads from a secret or a guess. */
  function Symbols(s: string): (r: seq<Symbol>)
    ensures |r| == CodeLength
  {
    seq(CodeLength, i requires 0 <= i => SymbolAt(s, i))
  }

  /** How many statuses equal x. */
  function Count(st: seq<Status>, x: Status): nat {
    multiset(st)[x]
  }

  /** The scorer's working state: the statuses so far and the consumed secret positions. */
  datatype Marking = Marking(statuses: seq<Status>, used: seq<bool>)

  predicate Sized(m: Marking) {
    |m.statuses| == CodeLength && |m.used| == CodeLength
  }

  /** First pass: a position where guess and secret agree is Correct and consumes that secret position. */
  function ExactMarking(S: seq<Symbol>, G: seq<Symbol>): (m: Marking)
    requires |S| == CodeLength && |G| == CodeLength
    ensures Sized(m)
    ensures forall k :: 0 <= k < CodeLength ==> m.statuses[k] == (if G[k] == S[k] then Correct else Absent)
    ensures forall k :: 0 <= k < CodeLength ==> m.used[k] == (G[k] == S[k])
  {
    Marking(seq(CodeLength, k requires 0 <= k < CodeLength => if G[k] == S[k] then Correct else Absent),
            seq(CodeLength, k requires 0 <= k < CodeLength => G[k] == S[k]))
  }

  /** The first unconsumed secret position at or after j that holds d, if any. */
  function FirstFree(S: seq<Symbol>, used: seq<bool>, d: Symbol, j: nat): (r: Option<nat>)
    requires |used| == |S| && j <= |S|
    decreases |S| - j
    ensures r.Some? ==> j <= r.value < |S| && !used[r.value] && S[r.value] == d
    ensures r.Some? ==> forall k :: j <= k < r.value ==> used[k] || S[k] != d
    ensures r.None? ==> forall k :: j <= k < |S| ==> used[k] || S[k] != d
  {
    if j == |S| then None
    else if !used[j] && S[j] == d then Some(j)
    else FirstFree(S, used, d, j + 1)
  }

  /**
   * Second pass, from guess position i on: a position that is not Correct and
   * finds a free secret position holding its symbol becomes Present and
   * consumes that position. Correct positions stay Correct and no other
   * position becomes Correct.
   */
  function PresentMarking(S: seq<Symbol>, G: seq<Symbol>, m: Marking, i: nat): (r: Marking)
    requires |S| == CodeLength && |G| == CodeLength && Sized(m) && i <= CodeLength
    decreases CodeLength - i
    ensures Sized(r)
    ensures forall k :: 0 <= k < CodeLength ==> (r.statuses[k] == Correct <==> m.statuses[k] == Correct)
    ensures forall k :: 0 <= k < i ==> r.statuses[k] == m.statuses[k]
  {
    if i == CodeLength then m
    else if m.statuses[i] == Correct then PresentMarking(S, G, m, i + 1)
    else match FirstFree(S, m.used, G[i], 0)
      case None => PresentMarking(S, G, m, i + 1)
      case Some(j) => PresentMarking(S, G, Marking(m.statuses[i := Present], m.used[j := true]), i + 1)
  }

  /** The feedback for a guess, by the two passes; correctDigits counts Correct and Present alike. */
  function Evaluate(secret: string, guess: string): Feedback {
    var S, G := Symbols(secret), Symbols(guess);
    var st := PresentMarking(S, G, ExactMarking(S, G), 0).statuses;
    Feedback(st, Count(st, Correct), Count(st, Correct) + Count(st, Present))
  }

  /**
   * The imperative scorer: a status array filled with Absent, a usage array
   * filled with false, and the two passes below.
   */
  method EvaluateGuess(secret: string, guess: string) returns (fb: Feedback)
    ensures fb == Evaluate(secret, guess)
    ensures |fb.statuses| == CodeLength
    ensures forall i :: 0 <= i < CodeLength ==> (fb.statuses[i] == Correct <==> SymbolAt(guess, i) == SymbolAt(secret, i))
    ensures fb.correctPlace == Count(fb.statuses, Correct)
    ensures fb.correctDigits == |multiset(Symbols(secret)) * multiset(Symbols(guess))|
    ensures 0 <= fb.correctPlace <= fb.correctDigits <= CodeLength
  {
    var statuses := new Status[CodeLength](_ => Absent);
    var usedSecret := new bool[CodeLength](_ => false);
    var correctPlace := MarkExact(secret, guess, statuses, usedSecret);
    var correctDigits := MarkPresent(secret, guess, statuses, usedSecret, correctPlace);
    fb := Feedback(statuses[..], correctPlace, correctDigits);
    NoDoubleCounting(secret, guess);
    ScoreBounds(secret, guess);
  }

  /** First pass: marks the exact positions Correct and consumes them; returns how many there are. */
  method MarkExact(secret: string, guess: string, statuses: array<Status>, usedSecret: array<bool>)
    returns (correctPlace: nat)
    requires statuses.Length == CodeLength && usedSecret.Length == CodeLength
    requires forall k :: 0 <= k < CodeLength ==> statuses[k] == Absent && !usedSecret[k]
    modifies statuses, usedSecret
    ensures Marking(statuses[..], usedSecret[..]) == ExactMarking(Symbols(secret), Symbols(guess))
    ensures correctPlace == Count(statuses[..], Correct)
  {
    ghost var S, G := Symbols(secret), Symbols(guess);
    correctPlace := 0;
    for i := 0 to CodeLength
      invariant forall k :: 0 <= k < i ==> statuses[k] == (if G[k] == S[k] then Correct else Absent)
      invariant forall k :: 0 <= k < i ==> usedSecret[k] == (G[k] == S[k])
      invariant forall k :: i <= k < CodeLength ==> statuses[k] == Absent && !usedSecret[k]
      invariant correctPlace == Agreements(S, G, i)
    {
      assert G[i] == SymbolAt(guess, i) && S[i] == SymbolAt(secret, i);
      if SymbolAt(guess, i) == SymbolAt(secret, i) {
        statuses[i] := Correct;
        correctPlace := correctPlace + 1;
        usedSecret[i] := true;
      }
    }
    ghost var m := ExactMarking(S, G);
    assert statuses[..] == m.statuses;
    assert usedSecret[..] == m.used;
    AgreementsCount(S, G, CodeLength);
    assert m.statuses[..CodeLength] == m.statuses;
  }

  /** How many of the first n positions agree. */
  function Agreements(S: seq<Symbol>, G: seq<Symbol>, n: nat): nat
    requires n <= |S| == |G|
  {
    if n == 0 then 0 else Agreements(S, G, n - 1) + (if G[n - 1] == S[n - 1] then 1 else 0)
  }

  /** The first pass marks Correct exactly the agreeing positions, so it counts the agreements. */
  lemma {:induction false} AgreementsCount(S: seq<Symbol>, G: seq<Symbol>, n: nat)
    requires |S| == CodeLength && |G| == CodeLength && n <= CodeLength
    ensures Agreements(S, G, n) == Count(ExactMarking(S, G).statuses[..n], Correct)
  {
    if n > 0 {
      AgreementsCount(S, G, n - 1);
      var st := ExactMarking(S, G).statuses;
      assert st[..n] == st[..n - 1] + [st[n - 1]];
    }
  }

  /**
   * Second pass: each position that is not Correct takes the first free
   * secret position holding its symbol, if any, and becomes Present.
   * correctDigits comes in as the first pass's count and goes out as the
   * number of credited positions.
   */
  method MarkPresent(secret: string, guess: string, statuses: array<Status>, usedSecret: array<bool>, correctPlace: nat)
    returns (correctDigits: nat)
    requires statuses.Length == CodeLength && usedSecret.Length == CodeLength
    requires forall k :: 0 <= k < CodeLength ==> statuses[k] != Present
    requires correctPlace == Count(statuses[..], Correct)
    modifies statuses, usedSecret
    ensures Marking(statuses[..], usedSecret[..]) ==
      PresentMarking(Symbols(secret), Symbols(guess), old(Marking(statuses[..], usedSecret[..])), 0)
    ensures correctPlace == Count(statuses[..], Correct)
    ensures correctDigits == Credited(statuses[..])
  {
    ghost var S, G := Symbols(secret), Symbols(guess);
    ghost var start := Marking(statuses[..], usedSecret[..]);
    assert Count(statuses[..], Present) == 0 by {
      assert Present !in statuses[..];
    }
    correctDigits := correctPlace;
    for i := 0 to CodeLength
      invariant PresentMarking(S, G, Marking(statuses[..], usedSecret[..]), i) == PresentMarking(S, G, start, 0)
      invariant forall k :: i <= k < CodeLength ==> statuses[k] != Present
      invariant correctPlace == Count(statuses[..], Correct)
      invariant correctDigits == Credited(statuses[..])
    {
      if statuses[i] == Correct {
        continue;
      }
      var digit := SymbolAt(guess, i);
      ghost var st0, used0, digits0 := statuses[..], usedSecret[..], correctDigits;
      ghost var found: Option<nat> := None;
      var j := 0;
      while j < CodeLength
        invariant 0 <= j <= CodeLength
        invariant statuses[..] == st0 && usedSecret[..] == used0 && correctDigits == digits0
        invariant FirstFree(S, used0, digit, 0) == FirstFree(S, used0, digit, j)
      {
        if !usedSecret[j] && digit == SymbolAt(secret, j) {
          statuses[i] := Present;
          correctDigits := correctDigits + 1;
          usedSecret[j] := true;
          found := Some(j);
          break;
        }
        j := j + 1;
      }
      assert found == FirstFree(S, used0, digit, 0);
      assert statuses[..] == if found.Some? then st0[i := Present] else st0;
      assert usedSecret[..] == if found.Some? then used0[found.value := true] else used0;
      if found.Some? {
        CreditPresent(st0, i);
      }
    }
  }

  // ----- What the feedback means -----

  /** Exactly the positions where guess and secret agree are Correct. */
  lemma ExactPositionsAreCorrect(secret: string, guess: string)
    ensures |Evaluate(secret, guess).statuses| == CodeLength
    ensures forall i :: 0 <= i < CodeLength ==>
      (Evaluate(secret, guess).statuses[i] == Correct <==> SymbolAt(guess, i) == SymbolAt(secret, i))
  {
  }

  lemma {:induction false} CountAll(st: seq<Status>, x: Status)
    ensures Count(st, x) == |st| <==> forall k :: 0 <= k < |st| ==> st[k] == x
  {
    if st != [] {
      assert st == [st[0]] + st[1..];
      CountAll(st[1..], x);
      assert multiset(st) == multiset{st[0]} + multiset(st[1..]);
      if Count(st, x) == |st| {
        assert Count(st[1..], x) <= |st[1..]| by { CountsSum(st[1..]); }
      }
    }
  }

  lemma {:induction false} CountsSum(st: seq<Status>)
    ensures Count(st, Absent) + Count(st, Present) + Count(st, Correct) == |st|
  {
    if st != [] {
      assert st == [st[0]] + st[1..];
      var m, t := multiset(st), multiset(st[1..]);
      assert m == multiset{st[0]} + t;
      assert m[Absent] == t[Absent] + (if st[0] == Absent then 1 else 0);
      assert m[Present] == t[Present] + (if st[0] == Present then 1 else 0);
      assert m[Correct] == t[Correct] + (if st[0] == Correct then 1 else 0);
      CountsSum(st[1..]);
    }
  }

  /** A guess scores four Correct exactly when it agrees with the secret at all four positions. */
  lemma FullMatchIffAgree(secret: string, guess: string)
    ensures Evaluate(secret, guess).correctPlace == CodeLength <==>
      forall i :: 0 <= i < CodeLength ==> SymbolAt(guess, i) == SymbolAt(secret, i)
  {
    var fb := Evaluate(secret, guess);
    CountAll(fb.statuses, Correct);
  }

  /** Guessing the secret itself is a full match, whatever the secret's length. */
  lemma IdenticalGuessWins(secret: string)
    ensures Evaluate(secret, secret).correctPlace == CodeLength
  {
    FullMatchIffAgree(secret, secret);
  }

  /** For four-character codes a full match means the guess is the secret. */
  lemma FullMatchIffEqual(secret: string, guess: string)
    requires |secret| == CodeLength && |guess| == CodeLength
    ensures Evaluate(secret, guess).correctPlace == CodeLength <==> guess == secret
  {
    FullMatchIffAgree(secret, guess);
    if forall i :: 0 <= i < CodeLength ==> SymbolAt(guess, i) == SymbolAt(secret, i) {
      assert forall i :: 0 <= i < CodeLength ==> guess[i] == secret[i] by {
        forall i | 0 <= i < CodeLength ensures guess[i] == secret[i] {
          assert SymbolAt(guess, i) == SymbolAt(secret, i);
        }
      }
    }
  }

  /** correctDigits counts the non-Absent statuses, and 0 <= correctPlace <= correctDigits <= 4. */
  lemma ScoreBounds(secret: string, guess: string)
    ensures Evaluate(secret, guess).correctDigits == CodeLength - Count(Evaluate(secret, guess).statuses, Absent)
    ensures 0 <= Evaluate(secret, guess).correctPlace <= Evaluate(secret, guess).correctDigits <= CodeLength
  {
    CountsSum(Evaluate(secret, guess).statuses);
  }

  /** Exact matches are decided position by position, so they do not depend on which side is the secret. */
  lemma ScoreSymmetric(secret: string, guess: string)
    ensures Evaluate(secret, guess).correctPlace == Evaluate(guess, secret).correctPlace
    ensures Evaluate(secret, guess).correctDigits == Evaluate(guess, secret).correctDigits
  {
    var a, b := Evaluate(secret, guess).statuses, Evaluate(guess, secret).statuses;
    assert forall i :: 0 <= i < CodeLength ==> (a[i] == Correct <==> b[i] == Correct);
    CorrectCountsAgree(a, b);
    NoDoubleCounting(secret, guess);
    NoDoubleCounting(guess, secret);
    assert multiset(Symbols(secret)) * multiset(Symbols(guess)) == multiset(Symbols(guess)) * multiset(Symbols(secret));
  }

  lemma {:induction false} CorrectCountsAgree(a: seq<Status>, b: seq<Status>)
    requires |a| == |b|
    requires forall i :: 0 <= i < |a| ==> (a[i] == Correct <==> b[i] == Correct)
    ensures Count(a, Correct) == Count(b, Correct)
  {
    if a != [] {
      assert a == [a[0]] + a[1..];
      assert b == [b[0]] + b[1..];
      CorrectCountsAgree(a[1..], b[1..]);
    }
  }

  // ----- No double counting: correctDigits is the number of shared symbols -----

  /** Credits of a status sequence: Correct and Present positions. */
  function Credited(st: seq<Status>): nat {
    Count(st, Correct) + Count(st, Present)
  }

  /** Symbols at unconsumed secret positions from j on. */
  function FreeSymbols(S: seq<Symbol>, used: seq<bool>, j: nat): multiset<Symbol>
    requires |used| == |S| && j <= |S|
    decreases |S| - j
  {
    if j == |S| then multiset{}
    else (if used[j] then multiset{} else multiset{S[j]}) + FreeSymbols(S, used, j + 1)
  }

  /** Guess symbols at positions from i on that are not Correct. */
  function Unmatched(G: seq<Symbol>, st: seq<Status>, i: nat): multiset<Symbol>
    requires |st| == |G| && i <= |G|
    decreases |G| - i
  {
    if i == |G| then multiset{}
    else (if st[i] == Correct then multiset{} else multiset{G[i]}) + Unmatched(G, st, i + 1)
  }

  /** Symbols at positions from i on where guess and secret agree. */
  function Agreed(S: seq<Symbol>, G: seq<Symbol>, i: nat): multiset<Symbol>
    requires |S| == |G| && i <= |G|
    decreases |G| - i
  {
    if i == |G| then multiset{}
    else (if G[i] == S[i] then multiset{G[i]} else multiset{}) + Agreed(S, G, i + 1)
  }

  lemma {:induction false} FreeFound(S: seq<Symbol>, used: seq<bool>, d: Symbol, j: nat)
    requires |used| == |S| && j <= |S|
    decreases |S| - j
    ensures FirstFree(S, used, d, j).Some? <==> d in FreeSymbols(S, used, j)
  {
    if j < |S| {
      FreeFound(S, used, d, j + 1);
    }
  }

  lemma {:induction false} FreeFrame(S: seq<Symbol>, used: seq<bool>, j0: nat, j: nat)
    requires |used| == |S| && j0 < j <= |S|
    decreases |S| - j
    ensures FreeSymbols(S, used[j0 := true], j) == FreeSymbols(S, used, j)
  {
    if j < |S| {
      FreeFrame(S, used, j0, j + 1);
    }
  }

  /** Consuming a free secret position removes its symbol from the free ones. */
  lemma {:induction false} ConsumeFree(S: seq<Symbol>, used: seq<bool>, j0: nat, j: nat)
    requires |used| == |S| && j <= j0 < |S| && !used[j0]
    decreases j0 - j
    ensures FreeSymbols(S, used, j) == FreeSymbols(S, used[j0 := true], j) + multiset{S[j0]}
  {
    if j < j0 {
      ConsumeFree(S, used, j0, j + 1);
    } else {
      FreeFrame(S, used, j0, j + 1);
    }
  }

  lemma {:induction false} UnmatchedFrame(G: seq<Symbol>, st: seq<Status>, k: nat, x: Status, i: nat)
    requires |st| == |G| && k < i <= |G|
    decreases |G| - i
    ensures Unmatched(G, st[k := x], i) == Unmatched(G, st, i)
  {
    if i < |G| {
      UnmatchedFrame(G, st, k, x, i + 1);
    }
  }

  lemma IntersectWith(A: multiset<Symbol>, B: multiset<Symbol>, d: Symbol)
    ensures d in A ==> |A * (multiset{d} + B)| == 1 + |(A - multiset{d}) * B|
    ensures d !in A ==> |A * (multiset{d} + B)| == |A * B|
  {
    if d in A {
      assert A * (multiset{d} + B) == multiset{d} + (A - multiset{d}) * B;
    } else {
      assert A * (multiset{d} + B) == A * B;
    }
  }

  /** Turning an Absent status into Present adds one credit. */
  lemma CreditPresent(st: seq<Status>, i: nat)
    requires i < |st| && st[i] == Absent
    ensures Count(st[i := Present], Correct) == Count(st, Correct)
    ensures Count(st[i := Present], Present) == Count(st, Present) + 1
  {
    assert multiset(st[i := Present]) == multiset(st) - multiset{Absent} + multiset{Present};
  }

  /**
   * The second pass credits exactly as many positions as the free secret
   * symbols and the unmatched guess symbols have in common.
   */
  lemma {:induction false} PresentMarkingCredits(S: seq<Symbol>, G: seq<Symbol>, m: Marking, i: nat)
    requires |S| == CodeLength && |G| == CodeLength && Sized(m) && i <= CodeLength
    requires forall k :: i <= k < CodeLength ==> m.statuses[k] != Present
    decreases CodeLength - i
    ensures Credited(PresentMarking(S, G, m, i).statuses) ==
      Credited(m.statuses) + |FreeSymbols(S, m.used, 0) * Unmatched(G, m.statuses, i)|
  {
    if i == CodeLength {
    } else if m.statuses[i] == Correct {
      assert Unmatched(G, m.statuses, i) == Unmatched(G, m.statuses, i + 1);
      PresentMarkingCredits(S, G, m, i + 1);
    } else {
      match FirstFree(S, m.used, G[i], 0)
      case None =>
        PresentMiss(S, G, m, i);
        PresentMarkingCredits(S, G, m, i + 1);
      case Some(j) =>
        var m' := Marking(m.statuses[i := Present], m.used[j := true]);
        PresentHit(S, G, m, i, j);
        PresentMarkingCredits(S, G, m', i + 1);
    }
  }

  /** A guess position that finds no free secret position is left Absent and credits nothing. */
  lemma PresentMiss(S: seq<Symbol>, G: seq<Symbol>, m: Marking, i: nat)
    requires |S| == CodeLength && |G| == CodeLength && Sized(m) && i < CodeLength
    requires m.statuses[i] != Correct && FirstFree(S, m.used, G[i], 0).None?
    ensures PresentMarking(S, G, m, i) == PresentMarking(S, G, m, i + 1)
    ensures |FreeSymbols(S, m.used, 0) * Unmatched(G, m.statuses, i)|
         == |FreeSymbols(S, m.used, 0) * Unmatched(G, m.statuses, i + 1)|
  {
    var F, U := FreeSymbols(S, m.used, 0), Unmatched(G, m.statuses, i + 1);
    assert Unmatched(G, m.statuses, i) == multiset{G[i]} + U;
    FreeFound(S, m.used, G[i], 0);
    IntersectWith(F, U, G[i]);
  }

  /** A guess position that finds free secret position j turns Present, consuming j, and credits one. */
  lemma PresentHit(S: seq<Symbol>, G: seq<Symbol>, m: Marking, i: nat, j: nat)
    requires |S| == CodeLength && |G| == CodeLength && Sized(m) && i < CodeLength
    requires m.statuses[i] != Correct && FirstFree(S, m.used, G[i], 0) == Some(j)
    requires forall k :: i <= k < CodeLength ==> m.statuses[k] != Present
    ensures var m' := Marking(m.statuses[i := Present], m.used[j := true]);
      && PresentMarking(S, G, m, i) == PresentMarking(S, G, m', i + 1)
      && Credited(m'.statuses) == Credited(m.statuses) + 1
      && |FreeSymbols(S, m.used, 0) * Unmatched(G, m.statuses, i)|
         == 1 + |FreeSymbols(S, m'.used, 0) * Unmatched(G, m'.statuses, i + 1)|
  {
    var m' := Marking(m.statuses[i := Present], m.used[j := true]);
    CreditPresent(m.statuses, i);
    HitIntersection(S, G, m, i, j);
  }

  lemma HitIntersection(S: seq<Symbol>, G: seq<Symbol>, m: Marking, i: nat, j: nat)
    requires |S| == CodeLength && |G| == CodeLength && Sized(m) && i < CodeLength
    requires m.statuses[i] != Correct && FirstFree(S, m.used, G[i], 0) == Some(j)
    ensures |FreeSymbols(S, m.used, 0) * Unmatched(G, m.statuses, i)|
         == 1 + |FreeSymbols(S, m.used[j := true], 0) * Unmatched(G, m.statuses[i := Present], i + 1)|
  {
    var F, U := FreeSymbols(S, m.used, 0), Unmatched(G, m.statuses, i + 1);
    assert Unmatched(G, m.statuses, i) == multiset{G[i]} + U;
    FreeFound(S, m.used, G[i], 0);
    IntersectWith(F, U, G[i]);
    ConsumeFree(S, m.used, j, 0);
    UnmatchedFrame(G, m.statuses, i, Present, i + 1);
    assert F - multiset{G[i]} == FreeSymbols(S, m.used[j := true], 0);
  }

  lemma SplitAt<T>(s: seq<T>, i: nat)
    requires i < |s|
    ensures multiset(s[i..]) == multiset{s[i]} + multiset(s[i + 1..])
  {
    assert s[i..] == [s[i]] + s[i + 1..];
  }

  /** After the first pass the secret's symbols split into the agreed ones and the free ones. */
  lemma {:induction false} SecretSplit(S: seq<Symbol>, G: seq<Symbol>, i: nat)
    requires |S| == CodeLength && |G| == CodeLength && i <= CodeLength
    decreases CodeLength - i
    ensures multiset(S[i..]) == Agreed(S, G, i) + FreeSymbols(S, ExactMarking(S, G).used, i)
  {
    if i < CodeLength {
      SecretSplit(S, G, i + 1);
      SplitAt(S, i);
    }
  }

  /** After the first pass the guess's symbols split into the agreed ones and the unmatched ones. */
  lemma {:induction false} GuessSplit(S: seq<Symbol>, G: seq<Symbol>, i: nat)
    requires |S| == CodeLength && |G| == CodeLength && i <= CodeLength
    decreases CodeLength - i
    ensures multiset(G[i..]) == Agreed(S, G, i) + Unmatched(G, ExactMarking(S, G).statuses, i)
  {
    if i < CodeLength {
      GuessSplit(S, G, i + 1);
      SplitAt(G, i);
    }
  }

  /** The first pass marks one Correct per agreed symbol. */
  lemma {:induction false} AgreedCount(S: seq<Symbol>, G: seq<Symbol>, i: nat)
    requires |S| == CodeLength && |G| == CodeLength && i <= CodeLength
    decreases CodeLength - i
    ensures |Agreed(S, G, i)| == Count(ExactMarking(S, G).statuses[i..], Correct)
  {
    if i < CodeLength {
      AgreedCount(S, G, i + 1);
      SplitAt(ExactMarking(S, G).statuses, i);
    }
  }

  /**
   * correctDigits is the size of the multiset intersection of the secret's and
   * the guess's symbols: a symbol is credited as often as it occurs on both
   * sides, and never more, so no secret position is credited twice.
   */
  lemma NoDoubleCounting(secret: string, guess: string)
    ensures Evaluate(secret, guess).correctDigits == |multiset(Symbols(secret)) * multiset(Symbols(guess))|
  {
    var S, G := Symbols(secret), Symbols(guess);
    var m0 := ExactMarking(S, G);
    SecretSplit(S, G, 0);
    GuessSplit(S, G, 0);
    AgreedCount(S, G, 0);
    assert S[0..] == S && G[0..] == G && m0.statuses[0..] == m0.statuses;
    PresentMarkingCredits(S, G, m0, 0);
    var C, F, U := Agreed(S, G, 0), FreeSymbols(S, m0.used, 0), Unmatched(G, m0.statuses, 0);
    assert Count(m0.statuses, Present) == 0 by {
      assert Present !in m0.statuses;
    }
    ShareCommon(C, F, U);
  }

  /** What two multisets share beyond a common part is what their remainders share. */
  lemma ShareCommon(C: multiset<Symbol>, F: multiset<Symbol>, U: multiset<Symbol>)
    ensures (C + F) * (C + U) == C + F * U
  {
  }

  // ----- Worked examples -----

  /** The feedback is determined by its statuses. */
  lemma FeedbackOf(secret: string, guess: string, st: seq<Status>, place: nat, digits: nat)
    requires Evaluate(secret, guess).statuses == st
    requires Count(st, Correct) == place && Count(st, Correct) + Count(st, Present) == digits
    ensures Evaluate(secret, guess) == Feedback(st, place, digits)
  {
  }

  /** Two exact positions, and two digits that are only swapped. */
  lemma ExampleSwap()
    ensures Evaluate("1234", "1243") == Feedback([Correct, Correct, Present, Present], 2, 4)
  {
    SwapStatuses();
    FeedbackOf("1234", "1243", [Correct, Correct, Present, Present], 2, 4);
  }

  lemma SwapStatuses()
    ensures Evaluate("1234", "1243").statuses == [Correct, Correct, Present, Present]
  {
    var S, G := Symbols("1234"), Symbols("1243");
    assert S == [Some('1'), Some('2'), Some('3'), Some('4')];
    assert G == [Some('1'), Some('2'), Some('4'), Some('3')];
    var m0 := Marking([Correct, Correct, Absent, Absent], [true, true, false, false]);
    assert ExactMarking(S, G) == m0;
    assert FirstFree(S, m0.used, G[2], 0) == FirstFree(S, m0.used, G[2], 2) == Some(3);
    var m1 := Marking([Correct, Correct, Present, Absent], [true, true, false, true]);
    assert FirstFree(S, m1.used, G[3], 0) == Some(2);
    var m2 := Marking([Correct, Correct, Present, Present], [true, true, true, true]);
    assert PresentMarking(S, G, m0, 0) == PresentMarking(S, G, m1, 3) == PresentMarking(S, G, m2, 4) == m2;
  }

  /** Both 1s of the secret are still free when the guess's two 1s are scored, so all four digits are credited. */
  lemma ExampleRepeatedDigits()
    ensures Evaluate("1123", "3211") == Feedback([Present, Present, Present, Present], 0, 4)
  {
    RepeatedDigitsStatuses();
    FeedbackOf("1123", "3211", [Present, Present, Present, Present], 0, 4);
  }

  lemma RepeatedDigitsStatuses()
    ensures Evaluate("1123", "3211").statuses == [Present, Present, Present, Present]
  {
    var S, G := Symbols("1123"), Symbols("3211");
    assert S == [Some('1'), Some('1'), Some('2'), Some('3')];
    assert G == [Some('3'), Some('2'), Some('1'), Some('1')];
    RepeatedDigitsPasses(S, G);
  }

  lemma RepeatedDigitsPasses(S: seq<Symbol>, G: seq<Symbol>)
    requires S == [Some('1'), Some('1'), Some('2'), Some('3')]
    requires G == [Some('3'), Some('2'), Some('1'), Some('1')]
    ensures PresentMarking(S, G, ExactMarking(S, G), 0).statuses == [Present, Present, Present, Present]
  {
    var m0 := Marking([Absent, Absent, Absent, Absent], [false, false, false, false]);
    assert ExactMarking(S, G) == m0;
    assert FirstFree(S, m0.used, G[0], 0) == FirstFree(S, m0.used, G[0], 2) == Some(3);
    var m1 := Marking(m0.statuses[0 := Present], m0.used[3 := true]);
    PresentStep(S, G, m0, 0, 3, m1);
    assert FirstFree(S, m1.used, G[1], 0) == Some(2);
    var m2 := Marking(m1.statuses[1 := Present], m1.used[2 := true]);
    PresentStep(S, G, m1, 1, 2, m2);
    assert FirstFree(S, m2.used, G[2], 0) == Some(0);
    var m3 := Marking(m2.statuses[2 := Present], m2.used[0 := true]);
    PresentStep(S, G, m2, 2, 0, m3);
    assert FirstFree(S, m3.used, G[3], 0) == Some(1);
    var m4 := Marking(m3.statuses[3 := Present], m3.used[1 := true]);
    PresentStep(S, G, m3, 3, 1, m4);
    assert m4.statuses == [Present, Present, Present, Present];
  }

  /** One step of the second pass: guess position i takes secret position j. */
  lemma PresentStep(S: seq<Symbol>, G: seq<Symbol>, m: Marking, i: nat, j: nat, m': Marking)
    requires |S| == CodeLength && |G| == CodeLength && Sized(m) && i < CodeLength
    requires m.statuses[i] != Correct && FirstFree(S, m.used, G[i], 0) == Some(j)
    requires m' == Marking(m.statuses[i := Present], m.used[j := true])
    ensures PresentMarking(S, G, m, i) == PresentMarking(S, G, m', i + 1)
  {
  }

  /** A repeated guess digit is credited only as often as the secret holds it. */
  lemma ExampleRepeatedGuess()
    ensures Evaluate("1234", "1111") == Feedback([Correct, Absent, Absent, Absent], 1, 1)
  {
    var S, G := Symbols("1234"), Symbols("1111");
    assert S == [Some('1'), Some('2'), Some('3'), Some('4')];
    assert G == [Some('1'), Some('1'), Some('1'), Some('1')];
    RepeatedGuessPasses(S, G);
    FeedbackOf("1234", "1111", [Correct, Absent, Absent, Absent], 1, 1);
  }

  lemma RepeatedGuessPasses(S: seq<Symbol>, G: seq<Symbol>)
    requires S == [Some('1'), Some('2'), Some('3'), Some('4')]
    requires G == [Some('1'), Some('1'), Some('1'), Some('1')]
    ensures PresentMarking(S, G, ExactMarking(S, G), 0).statuses == [Correct, Absent, Absent, Absent]
  {
    var m0 := Marking([Correct, Absent, Absent, Absent], [true, false, false, false]);
    assert ExactMarking(S, G) == m0;
    PresentSkip(S, G, m0, 0);
    assert FirstFree(S, m0.used, G[1], 0) == None;
    PresentSkip(S, G, m0, 1);
    PresentSkip(S, G, m0, 2);
    PresentSkip(S, G, m0, 3);
  }

  /** A step of the second pass that credits nothing: position i is Correct, or its symbol has no free match. */
  lemma PresentSkip(S: seq<Symbol>, G: seq<Symbol>, m: Marking, i: nat)
    requires |S| == CodeLength && |G| == CodeLength && Sized(m) && i < CodeLength
    requires m.statuses[i] == Correct || FirstFree(S, m.used, G[i], 0) == None
    ensures PresentMarking(S, G, m, i) == PresentMarking(S, G, m, i + 1)
  {
  }

  /** Past the end of both strings every position reads undefined, so two short equal strings match in full. */
  lemma ExampleShortCodes()
    ensures Evaluate("12", "12").correctPlace == CodeLength
  {
    IdenticalGuessWins("12");
  }
}
