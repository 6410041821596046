/** The usual Wordle rule, written as a reference to compare getColors with:
    first every exact match is marked 'G' and uses up one copy of its letter
    in the target, then the remaining guess positions, from the left, are
    marked 'Y' while copies of their letter remain. getColors does not
    follow it; the two agree on how many positions of each letter are
    marked, not on which ones nor on their colour. */
module TwoPass {
  import opened Validation
  import opened Scoring

  /** Exact matches of letter c among the first n positions. */
  function ExactIn(target: string, guess: string, c: char, n: nat): nat
    requires IsWord(target) && IsWord(guess) && n <= WORD_LENGTH
  {
    if n == 0 then 0
    else ExactIn(target, guess, c, n - 1) + (if guess[n - 1] == c && target[n - 1] == c then 1 else 0)
  }

  /** Copies of c among the first n guess positions that are not exact matches. */
  function LooseIn(target: string, guess: string, c: char, n: nat): nat
    requires IsWord(target) && IsWord(guess) && n <= WORD_LENGTH
  {
    if n == 0 then 0
    else LooseIn(target, guess, c, n - 1) + (if guess[n - 1] == c && target[n - 1] != c then 1 else 0)
  }

  /** The copies of c in the target left over once the exact matches have
      taken theirs: the pool the second pass draws from. */
  function Pool(target: string, guess: string, c: char): int
    requires IsWord(target) && IsWord(guess)
  {
    Count(target, c) - ExactIn(target, guess, c, WORD_LENGTH)
  }

  function StandardAt(target: string, guess: string, j: nat): char
    requires IsWord(target) && IsWord(guess) && j < WORD_LENGTH
  {
    var c := guess[j];
    if c == target[j] then GREEN
    else if LooseIn(target, guess, c, j) < Pool(target, guess, c) then YELLOW
    else UNMARKED
  }

  /** The two-pass rule. An exact match is always 'G', and a letter absent
      from the target is never marked. */
  function StandardColors(target: string, guess: string): (marks: seq<char>)
    requires IsWord(target) && IsWord(guess)
    ensures |marks| == WORD_LENGTH
    ensures forall j :: 0 <= j < WORD_LENGTH ==> (marks[j] == GREEN <==> guess[j] == target[j])
    ensures forall j :: 0 <= j < WORD_LENGTH && guess[j] !in target ==> marks[j] == UNMARKED
  {
    assert forall j :: 0 <= j < WORD_LENGTH && guess[j] !in target ==> Count(target, guess[j]) == 0 by {
      forall j | 0 <= j < WORD_LENGTH && guess[j] !in target
        ensures Count(target, guess[j]) == 0
      {
        CountZeroIff(target, guess[j]);
      }
    }
    seq(WORD_LENGTH, j requires 0 <= j < WORD_LENGTH => StandardAt(target, guess, j))
  }

  lemma {:induction false} ExactBound(target: string, guess: string, c: char, n: nat)
    requires IsWord(target) && IsWord(guess) && n <= WORD_LENGTH
    ensures ExactIn(target, guess, c, n) <= Count(target[..n], c)
  {
    if n > 0 {
      ExactBound(target, guess, c, n - 1);
      CountStep(target, n - 1, c);
    }
  }

  lemma {:induction false} CountSplit(target: string, guess: string, c: char, n: nat)
    requires IsWord(target) && IsWord(guess) && n <= WORD_LENGTH
    ensures Count(guess[..n], c) == ExactIn(target, guess, c, n) + LooseIn(target, guess, c, n)
  {
    if n == 0 {
      assert guess[..0] == [];
    } else {
      CountSplit(target, guess, c, n - 1);
      CountStep(guess, n - 1, c);
    }
  }

  lemma {:induction false} StandardPrefix(target: string, guess: string, c: char, n: nat)
    requires IsWord(target) && IsWord(guess) && n <= WORD_LENGTH
    requires Pool(target, guess, c) >= 0
    ensures MarkedIn(StandardColors(target, guess), guess, c, n) ==
      ExactIn(target, guess, c, n) + Min(Pool(target, guess, c), LooseIn(target, guess, c, n))
  {
    if n > 0 {
      StandardPrefix(target, guess, c, n - 1);
    }
  }

  /** Under the two-pass rule too, the marked positions holding c are as
      many as the smaller of the copies of c in the target and in the guess. */
  lemma StandardPerLetter(target: string, guess: string, c: char)
    requires IsWord(target) && IsWord(guess)
    ensures MarkedIn(StandardColors(target, guess), guess, c, WORD_LENGTH) == Min(Count(target, c), Count(guess, c))
  {
    ExactBound(target, guess, c, WORD_LENGTH);
    assert target[..WORD_LENGTH] == target;
    CountSplit(target, guess, c, WORD_LENGTH);
    assert guess[..WORD_LENGTH] == guess;
    StandardPrefix(target, guess, c, WORD_LENGTH);
  }

  /** getColors and the two-pass rule mark the same number of positions of
      every letter. */
  lemma SameMarkedCount(target: string, guess: string, c: char)
    requires IsWord(target) && IsWord(guess)
    ensures MarkedIn(Colors(target, guess), guess, c, WORD_LENGTH) ==
            MarkedIn(StandardColors(target, guess), guess, c, WORD_LENGTH)
  {
    MarkedPerLetter(target, guess, c);
    StandardPerLetter(target, guess, c);
  }

  /** Where the two differ: the exact match of the final E. */
  lemma CraneEerieDiffers()
    ensures StandardColors("CRANE", "EERIE") == [UNMARKED, UNMARKED, YELLOW, UNMARKED, GREEN]
    ensures Colors("CRANE", "EERIE") != StandardColors("CRANE", "EERIE")
  {
    ExactMatchMissed();
    CraneLetters();
    assert ExactIn("CRANE", "EERIE", 'E', WORD_LENGTH) == 1;
    assert ExactIn("CRANE", "EERIE", 'R', WORD_LENGTH) == 0;
    assert ExactIn("CRANE", "EERIE", 'I', WORD_LENGTH) == 0;
    assert Pool("CRANE", "EERIE", 'E') == 0;
    assert Pool("CRANE", "EERIE", 'R') == 1;
    assert Pool("CRANE", "EERIE", 'I') == 0;
    assert LooseIn("CRANE", "EERIE", 'R', 2) == 0;
    assert StandardAt("CRANE", "EERIE", 0) == UNMARKED;
    assert StandardAt("CRANE", "EERIE", 1) == UNMARKED;
    assert StandardAt("CRANE", "EERIE", 2) == YELLOW;
    assert StandardAt("CRANE", "EERIE", 3) == UNMARKED;
    assert StandardAt("CRANE", "EERIE", 4) == GREEN;
  }
}
