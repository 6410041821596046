/** The guess loop of main with the terminal taken out: the lines the player
    types are a sequence of strings, the dictionary a sequence of words and
    the target a given word. A line is rejected, without using up a turn,
    when it is not five characters long, when its upper-cased form holds
    something other than A-Z, or when that form is not in the dictionary.
    At most six guesses are accepted; an accepted guess equal to the target
    ends the game before it is scored; every other accepted guess gets its
    row of marks. */
module Session {
  import opened Validation
  import opened Scoring

  const MAX_GUESSES: nat := 6

  /** A row of the board that no guess has filled. */
  const BLANK_ROW: seq<char> := [UNMARKED, UNMARKED, UNMARKED, UNMARKED, UNMARKED]

  /** What the validation cascade makes of one input line. */
  datatype Verdict =
    | WrongLength
    | NotLetters
    | NotInDictionary
    | Accepted(word: string)

  /** The checks, in the order the loop makes them: the length of the raw
      line first (before upper-casing), then the letters of the upper-cased
      line, then the dictionary. */
  function Validate(raw: string, dictionary: seq<string>): (v: Verdict)
    ensures v.WrongLength? <==> |raw| != WORD_LENGTH
    ensures v.NotLetters? <==>
      |raw| == WORD_LENGTH && exists i :: 0 <= i < |raw| && !IsAsciiLetter(raw[i])
    ensures v.NotInDictionary? <==>
      |raw| == WORD_LENGTH && (forall i :: 0 <= i < |raw| ==> IsAsciiLetter(raw[i])) &&
      ToUpper(raw) !in dictionary
    ensures v.Accepted? <==>
      |raw| == WORD_LENGTH && (forall i :: 0 <= i < |raw| ==> IsAsciiLetter(raw[i])) &&
      ToUpper(raw) in dictionary
    ensures v.Accepted? ==> v.word == ToUpper(raw) && IsWord(v.word) && OnlyCapitalLetters(v.word)
  {
    UpperCaseCheck(raw);
    if |raw| != WORD_LENGTH then WrongLength
    else
      var guess := ToUpper(raw);
      if !OnlyCapitalLetters(guess) then NotLetters
      else if !StringInSlice(guess, dictionary) then NotInDictionary
      else Accepted(guess)
  }

  /** The words accepted from the given input lines, in order. */
  function AcceptedWords(inputs: seq<string>, dictionary: seq<string>): (words: seq<string>)
    ensures |words| <= |inputs|
    ensures forall w :: w in words ==> IsWord(w) && OnlyCapitalLetters(w) && w in dictionary
    decreases |inputs|
  {
    if inputs == [] then []
    else
      var v := Validate(inputs[|inputs| - 1], dictionary);
      AcceptedWords(inputs[..|inputs| - 1], dictionary) + (if v.Accepted? then [v.word] else [])
  }

  /** How a game ends: the guesses that were scored, in order, and whether
      the target was guessed. */
  datatype Outcome = Outcome(scored: seq<string>, won: bool)

  /** The game over a stream of accepted words with the given number of
      turns left. It stops when no turn is left, when the words run out, or
      at the first word equal to the target, which is not scored. */
  function Game(words: seq<string>, target: string, turns: nat): (o: Outcome)
    ensures |o.scored| <= turns && |o.scored| <= |words|
  {
    if turns == 0 || words == [] then Outcome([], false)
    else if words[0] == target then Outcome([], true)
    else
      var rest := Game(words[1..], target, turns - 1);
      Outcome([words[0]] + rest.scored, rest.won)
  }

  /** What the game makes of the words: the scored guesses are the words
      before the first occurrence of the target, cut at the number of
      turns; the game is won exactly when the target comes within the
      turns. */
  lemma {:induction false} GameOutcome(words: seq<string>, target: string, turns: nat)
    ensures var o := Game(words, target, turns);
      o.scored == words[..|o.scored|] && target !in o.scored &&
      (o.won <==> target in words[..Min(turns, |words|)]) &&
      (o.won ==> |o.scored| < turns && |o.scored| < |words| && words[|o.scored|] == target) &&
      (!o.won ==> |o.scored| == Min(turns, |words|))
    decreases turns
  {
    if turns > 0 && words != [] && words[0] != target {
      GameOutcome(words[1..], target, turns - 1);
      assert words[..Min(turns, |words|)] == [words[0]] + words[1..][..Min(turns - 1, |words| - 1)];
      var rest := Game(words[1..], target, turns - 1);
      assert words[..1 + |rest.scored|] == [words[0]] + words[1..][..|rest.scored|];
    }
  }

  lemma AcceptedStep(inputs: seq<string>, dictionary: seq<string>, n: nat)
    requires n < |inputs|
    ensures AcceptedWords(inputs[..n + 1], dictionary) ==
      AcceptedWords(inputs[..n], dictionary) +
      (var v := Validate(inputs[n], dictionary); if v.Accepted? then [v.word] else [])
  {
    assert inputs[..n + 1][..n] == inputs[..n];
  }

  /** Reading the input in two parts accepts the same words. */
  lemma {:induction false} AcceptedAppend(a: seq<string>, b: seq<string>, dictionary: seq<string>)
    ensures AcceptedWords(a + b, dictionary) == AcceptedWords(a, dictionary) + AcceptedWords(b, dictionary)
    decreases |b|
  {
    if b != [] {
      var b' := b[..|b| - 1];
      assert (a + b)[..|a + b| - 1] == a + b';
      assert (a + b)[|a + b| - 1] == b[|b| - 1];
      AcceptedAppend(a, b', dictionary);
    } else {
      assert a + b == a;
    }
  }

  /** A rejected line, wherever it comes, changes nothing: it does not use
      up a turn and it does not change the outcome of the game. */
  lemma RejectedLineIgnored(before: seq<string>, raw: string, after: seq<string>,
                            dictionary: seq<string>, target: string)
    requires !Validate(raw, dictionary).Accepted?
    ensures AcceptedWords(before + [raw] + after, dictionary) == AcceptedWords(before + after, dictionary)
    ensures Game(AcceptedWords(before + [raw] + after, dictionary), target, MAX_GUESSES) ==
            Game(AcceptedWords(before + after, dictionary), target, MAX_GUESSES)
  {
    AcceptedAppend(before + [raw], after, dictionary);
    AcceptedAppend(before, [raw], dictionary);
    AcceptedAppend(before, after, dictionary);
    RejectedAlone(raw, dictionary);
    assert AcceptedWords(before + [raw], dictionary) == AcceptedWords(before, dictionary);
  }

  lemma RejectedAlone(raw: string, dictionary: seq<string>)
    requires !Validate(raw, dictionary).Accepted?
    ensures AcceptedWords([raw], dictionary) == []
  {
    assert [raw][..0] == [];
  }

  /** Scoring a run of non-winning guesses first and the rest of the words
      afterwards is the same game. */
  lemma {:induction false} GameAfter(done: seq<string>, rest: seq<string>, target: string, turns: nat)
    requires target !in done && |done| <= turns
    ensures var o := Game(rest, target, turns - |done|);
      Game(done + rest, target, turns) == Outcome(done + o.scored, o.won)
    decreases |done|
  {
    if done != [] {
      assert (done + rest)[0] == done[0] && (done + rest)[1..] == done[1..] + rest;
      GameAfter(done[1..], rest, target, turns - 1);
    } else {
      assert done + rest == rest;
    }
  }

  /** Six accepted guesses that all miss lose the game, whatever follows. */
  lemma SixMissesLose(words: seq<string>, target: string)
    requires |words| >= MAX_GUESSES
    requires target !in words[..MAX_GUESSES]
    ensures Game(words, target, MAX_GUESSES) == Outcome(words[..MAX_GUESSES], false)
  {
    GameOutcome(words, target, MAX_GUESSES);
  }

  /** A line of the wrong length is rejected whatever the dictionary holds,
      and the length is that of the line as typed. */
  lemma ShortLineRejected(dictionary: seq<string>)
    ensures Validate("AB", dictionary) == WrongLength
    ensures Validate("crane", ["CRANE"]) == Accepted("CRANE")
  {
    assert ToUpper("crane") == "CRANE";
  }

  /** A dictionary word typed in capitals is accepted as it is. */
  lemma CapitalWordAccepted(w: string, dictionary: seq<string>)
    requires IsWord(w) && OnlyCapitalLetters(w) && w in dictionary
    ensures Validate(w, dictionary) == Accepted(w)
  {
    UpperCaseKeepsCapitals(w);
  }

  /** Where the loop stops — after six scored guesses, at the winning
      guess, or at the end of the input — the board holds the game's
      outcome. */
  lemma {:induction false} StopsWithOutcome(inputs: seq<string>, dictionary: seq<string>, pos: nat,
                                            scored: seq<string>, target: string, won: bool)
    requires pos <= |inputs| && |scored| <= MAX_GUESSES && target !in scored
    requires AcceptedWords(inputs[..pos], dictionary) == scored + (if won then [target] else [])
    requires won ==> |scored| < MAX_GUESSES
    requires won || |scored| == MAX_GUESSES || pos == |inputs|
    ensures Game(AcceptedWords(inputs, dictionary), target, MAX_GUESSES) == Outcome(scored, won)
  {
    var won' := if won then [target] else [];
    var tail := won' + AcceptedWords(inputs[pos..], dictionary);
    AcceptedFrom(inputs, dictionary, pos, scored, won');
    GameAfter(scored, tail, target, MAX_GUESSES);
    if !won && |scored| < MAX_GUESSES {
      assert inputs[pos..] == [];
    }
    GameStopsAt(tail, target, MAX_GUESSES - |scored|, won);
    assert scored + [] == scored;
  }

  /** The words accepted from all the lines: those accepted up to pos,
      then those accepted after it. */
  lemma AcceptedFrom(inputs: seq<string>, dictionary: seq<string>, pos: nat,
                     scored: seq<string>, won': seq<string>)
    requires pos <= |inputs|
    requires AcceptedWords(inputs[..pos], dictionary) == scored + won'
    ensures AcceptedWords(inputs, dictionary) == scored + (won' + AcceptedWords(inputs[pos..], dictionary))
  {
    assert inputs[..pos] + inputs[pos..] == inputs;
    AcceptedAppend(inputs[..pos], inputs[pos..], dictionary);
  }

  /** The game is over at once when the next word is the target, when no
      turn is left, or when no word is left. */
  lemma GameStopsAt(words: seq<string>, target: string, turns: nat, won: bool)
    requires won ==> |words| > 0 && words[0] == target && turns > 0
    requires !won ==> turns == 0 || words == []
    ensures Game(words, target, turns) == Outcome([], won)
  {
  }

  /** The board after the given guesses were scored: row r holds the marks
      of the r-th of them and the remaining rows are blank. */
  ghost predicate BoardHolds(board: seq<seq<char>>, target: string, scored: seq<string>)
    requires IsWord(target)
  {
    |board| == MAX_GUESSES && |scored| <= MAX_GUESSES &&
    (forall r :: 0 <= r < |scored| ==> IsWord(scored[r]) && board[r] == Colors(target, scored[r])) &&
    (forall r :: |scored| <= r < MAX_GUESSES ==> board[r] == BLANK_ROW)
  }

  /** Writing the marks of one more scored guess into the first blank row. */
  lemma BoardStep(board: seq<seq<char>>, target: string, scored: seq<string>, guess: string)
    requires IsWord(target) && IsWord(guess)
    requires BoardHolds(board, target, scored) && |scored| < MAX_GUESSES
    ensures BoardHolds(board[|scored| := Colors(target, guess)], target, scored + [guess])
  {
  }

  /** The inner loop of a turn: read lines from position start until one
      passes the checks. Rejected lines are skipped; when the lines run out
      no guess is returned. */
  method ReadGuess(fullWordList: seq<string>, inputs: seq<string>, start: nat)
    returns (guess: string, pos: nat, guessValid: bool)
    requires start <= |inputs|
    ensures start <= pos <= |inputs|
    ensures guessValid ==> (IsWord(guess) &&
      AcceptedWords(inputs[..pos], fullWordList) == AcceptedWords(inputs[..start], fullWordList) + [guess])
    ensures !guessValid ==> (pos == |inputs| &&
      AcceptedWords(inputs[..pos], fullWordList) == AcceptedWords(inputs[..start], fullWordList))
  {
    pos := start;
    guess := "";
    guessValid := false;
    while !guessValid
      invariant start <= pos <= |inputs|
      invariant !guessValid ==>
        AcceptedWords(inputs[..pos], fullWordList) == AcceptedWords(inputs[..start], fullWordList)
      invariant guessValid ==> (IsWord(guess) &&
        AcceptedWords(inputs[..pos], fullWordList) == AcceptedWords(inputs[..start], fullWordList) + [guess])
      decreases |inputs| - pos
    {
      if pos == |inputs| {
        break;
      }
      AcceptedStep(inputs, fullWordList, pos);
      guess := inputs[pos];
      pos := pos + 1;
      if |guess| != WORD_LENGTH {
        continue;
      }
      guess := ToUpper(guess);
      if !OnlyCapitalLetters(guess) {
        continue;
      }
      if !StringInSlice(guess, fullWordList) {
        continue;
      }
      guessValid := true;
    }
  }

  /** The guess loop of main. Each turn reads lines until one passes the
      checks; a guess equal to the target ends the loop unscored; any other
      guess gets its row of marks in colors. The target is revealed at the
      end in every case. When the lines run out before the game is over the
      loop stops there. */
  method Play(targetWord: string, fullWordList: seq<string>, inputs: seq<string>)
    returns (board: seq<seq<char>>, guessNumber: nat, won: bool, revealed: string)
    requires IsWord(targetWord)
    ensures var o := Game(AcceptedWords(inputs, fullWordList), targetWord, MAX_GUESSES);
      guessNumber == |o.scored| && won == o.won &&
      |board| == MAX_GUESSES &&
      (forall r :: 0 <= r < |o.scored| ==> IsWord(o.scored[r]) && board[r] == Colors(targetWord, o.scored[r])) &&
      (forall r :: |o.scored| <= r < MAX_GUESSES ==> board[r] == BLANK_ROW)
    ensures revealed == targetWord
  {
    var colors := new seq<char>[MAX_GUESSES](_ => BLANK_ROW);
    ghost var scored: seq<string> := [];
    var pos := 0;
    guessNumber := 0;
    won := false;
    while guessNumber < MAX_GUESSES
      invariant 0 <= pos <= |inputs|
      invariant guessNumber == |scored| <= MAX_GUESSES
      invariant targetWord !in scored
      invariant AcceptedWords(inputs[..pos], fullWordList) == scored
      invariant BoardHolds(colors[..], targetWord, scored)
      invariant !won
      decreases MAX_GUESSES - guessNumber
    {
      var guess, next, guessValid := ReadGuess(fullWordList, inputs, pos);
      pos := next;
      if !guessValid {
        break;
      }
      if guess == targetWord {
        won := true;
        break;
      }
      var row := GetColors(targetWord, guess);
      ghost var before := colors[..];
      colors[guessNumber] := row;
      assert colors[..] == before[guessNumber := row];
      BoardStep(before, targetWord, scored, guess);
      scored := scored + [guess];
      guessNumber := guessNumber + 1;
    }
    board := colors[..];
    revealed := targetWord;
    StopsWithOutcome(inputs, fullWordList, pos, scored, targetWord, won);
  }
}
