/** getColors: the per-letter marks of a guess against the target word, as
    the program computes them. Each target letter scans the guess from the
    left and marks as many copies of itself as the target holds; a later
    copy of the same target letter marks the same guess positions again, so
    the last copy decides between 'G' and 'Y'. */
module Scoring {
  import opened Validation

  const GREEN: char := 'G'
  const YELLOW: char := 'Y'
  /** The zero rune: a position left without a mark. */
  const UNMARKED: char := '\0'

  predicate IsWord(w: string) {
    |w| == WORD_LENGTH
  }

  function Min(a: int, b: int): int {
    if a <= b then a else b
  }

  /** strings.Count with a one-letter pattern: the occurrences of c in s. */
  function Count(s: string, c: char): (n: nat)
    ensures n <= |s|
  {
    if s == [] then 0
    else Count(s[..|s| - 1], c) + (if s[|s| - 1] == c then 1 else 0)
  }

  /** The count is zero exactly when the letter does not occur. */
  lemma {:induction false} CountZeroIff(s: string, c: char)
    ensures Count(s, c) == 0 <==> c !in s
    decreases |s|
  {
    if s != [] {
      assert s == s[..|s| - 1] + [s[|s| - 1]];
      CountZeroIff(s[..|s| - 1], c);
    }
  }

  /** The last index of s that holds c, or -1 when c does not occur. */
  function LastIndex(s: string, c: char): (k: int)
    ensures -1 <= k < |s|
    ensures k >= 0 ==> s[k] == c
    ensures forall q :: k < q < |s| ==> s[q] != c
  {
    if s == [] then -1
    else if s[|s| - 1] == c then |s| - 1
    else LastIndex(s[..|s| - 1], c)
  }

  /** The mark getColors leaves at guess position j. The position is marked
      when fewer than Count(target, c) copies of its letter c come before it
      in the guess; the mark is 'G' when j is the last position of the
      target holding c, and 'Y' otherwise. */
  function ColorAt(target: string, guess: string, j: nat): char
    requires IsWord(target) && IsWord(guess) && j < WORD_LENGTH
  {
    var c := guess[j];
    if Count(guess[..j], c) < Count(target, c) then
      if LastIndex(target, c) == j then GREEN else YELLOW
    else UNMARKED
  }

  /** The result of getColors(target, guess). */
  function Colors(target: string, guess: string): (marks: seq<char>)
    requires IsWord(target) && IsWord(guess)
    ensures |marks| == WORD_LENGTH
    ensures forall j :: 0 <= j < WORD_LENGTH ==> marks[j] in {GREEN, YELLOW, UNMARKED}
    ensures forall j :: 0 <= j < WORD_LENGTH && guess[j] !in target ==> marks[j] == UNMARKED
    ensures forall j :: 0 <= j < WORD_LENGTH && marks[j] == GREEN ==> guess[j] == target[j]
  {
    assert forall j :: 0 <= j < WORD_LENGTH && guess[j] !in target ==> Count(target, guess[j]) == 0 by {
      forall j | 0 <= j < WORD_LENGTH && guess[j] !in target
        ensures Count(target, guess[j]) == 0
      {
        CountZeroIff(target, guess[j]);
      }
    }
    seq(WORD_LENGTH, j requires 0 <= j < WORD_LENGTH => ColorAt(target, guess, j))
  }

  /** The mark at guess position j once the outer loop of getColors has
      handled the first n letters of the target. */
  function MarkAfter(target: string, guess: string, n: nat, j: nat): char
    requires IsWord(target) && IsWord(guess) && n <= WORD_LENGTH && j < WORD_LENGTH
  {
    var c := guess[j];
    var k := LastIndex(target[..n], c);
    if k < 0 || Count(guess[..j], c) >= Count(target, c) then UNMARKED
    else if k == j then GREEN else YELLOW
  }

  lemma CountStep(s: string, n: nat, c: char)
    requires n < |s|
    ensures Count(s[..n + 1], c) == Count(s[..n], c) + (if s[n] == c then 1 else 0)
  {
    assert s[..n + 1][..n] == s[..n];
  }

  lemma {:induction false} CountMonotone(s: string, a: nat, b: nat, c: char)
    requires a <= b <= |s|
    ensures Count(s[..a], c) <= Count(s[..b], c)
    decreases b - a
  {
    if a < b {
      var prev := Count(s[..b - 1], c);
      CountStep(s, b - 1, c);
      assert prev <= Count(s[..b], c);
      CountMonotone(s, a, b - 1, c);
    }
  }

  /** What handling target letter i does to guess position q. */
  lemma MarkStep(target: string, guess: string, i: nat, q: nat)
    requires IsWord(target) && IsWord(guess) && i < WORD_LENGTH && q < WORD_LENGTH
    ensures guess[q] != target[i] ==> MarkAfter(target, guess, i + 1, q) == MarkAfter(target, guess, i, q)
    ensures guess[q] == target[i] ==>
      MarkAfter(target, guess, i + 1, q) ==
        if Count(guess[..q], target[i]) < Count(target, target[i]) then (if i == q then GREEN else YELLOW)
        else UNMARKED
  {
    assert target[..i + 1][..i] == target[..i];
    assert target[i] in target;
  }

  /** A copy of target letter i that the inner loop reaches before breaking
      gets its mark: 'G' at index i, 'Y' elsewhere. */
  lemma CopyMarked(target: string, guess: string, i: nat, j: nat)
    requires IsWord(target) && IsWord(guess) && i < WORD_LENGTH && j < WORD_LENGTH
    requires guess[j] == target[i]
    requires Count(guess[..j + 1], target[i]) <= Count(target, target[i])
    ensures MarkAfter(target, guess, i + 1, j) == if i == j then GREEN else YELLOW
  {
    MarkStep(target, guess, i, j);
    CountStep(guess, j, target[i]);
  }

  /** Once the inner loop breaks at guess position j, no later position
      changes for this target letter. */
  lemma BreakKeepsRest(target: string, guess: string, i: nat, j: nat)
    requires IsWord(target) && IsWord(guess) && i < WORD_LENGTH && j < WORD_LENGTH
    requires guess[j] == target[i]
    requires Count(guess[..j + 1], target[i]) > Count(target, target[i])
    ensures forall q :: j <= q < WORD_LENGTH ==> MarkAfter(target, guess, i + 1, q) == MarkAfter(target, guess, i, q)
  {
    forall q | j <= q < WORD_LENGTH
      ensures MarkAfter(target, guess, i + 1, q) == MarkAfter(target, guess, i, q)
    {
      MarkStep(target, guess, i, q);
      CountStep(guess, j, target[i]);
      if q > j {
        CountMonotone(guess, j + 1, q, target[i]);
      }
    }
  }

  lemma MarkAfterAll(target: string, guess: string, j: nat)
    requires IsWord(target) && IsWord(guess) && j < WORD_LENGTH
    ensures MarkAfter(target, guess, WORD_LENGTH, j) == ColorAt(target, guess, j)
  {
    assert target[..WORD_LENGTH] == target;
    CountZeroIff(target, guess[j]);
  }

  /** One pass of the outer loop of getColors: the guess is walked from the
      left, the copies of the target letter at index i are counted, the walk
      stops once they exceed the target's copies, and each copy met before
      that is marked 'G' (same index) or 'Y'. */
  method MarkCopies(marks: array<char>, targetWord: string, guess: string, i: nat)
    requires IsWord(targetWord) && IsWord(guess) && i < WORD_LENGTH && marks.Length == WORD_LENGTH
    requires forall q :: 0 <= q < WORD_LENGTH ==> marks[q] == MarkAfter(targetWord, guess, i, q)
    modifies marks
    ensures forall q :: 0 <= q < WORD_LENGTH ==> marks[q] == MarkAfter(targetWord, guess, i + 1, q)
  {
    var targetLetter := targetWord[i];
    var matchesFoundInGuess := 0;
    var letterCopiesInTargetWord := Count(targetWord, targetLetter);
    ghost var start := marks[..];
    ghost var goal := seq(WORD_LENGTH, q requires 0 <= q < WORD_LENGTH => MarkAfter(targetWord, guess, i + 1, q));
    var j := 0;
    while j < WORD_LENGTH
      invariant 0 <= j <= WORD_LENGTH
      invariant matchesFoundInGuess == Count(guess[..j], targetLetter) <= letterCopiesInTargetWord
      invariant forall q :: 0 <= q < j ==> marks[q] == goal[q]
      invariant forall q :: j <= q < WORD_LENGTH ==> marks[q] == start[q]
    {
      CountStep(guess, j, targetLetter);
      if targetLetter == guess[j] {
        matchesFoundInGuess := matchesFoundInGuess + 1;
        if matchesFoundInGuess > letterCopiesInTargetWord {
          BreakKeepsRest(targetWord, guess, i, j);
          break;
        }
        CopyMarked(targetWord, guess, i, j);
        marks[j] := if i == j then GREEN else YELLOW;
      } else {
        MarkStep(targetWord, guess, i, j);
      }
      j := j + 1;
    }
  }

  /** getColors: every letter of the target, in order, marks its copies in
      the guess; the marks start as the zero rune. */
  method GetColors(targetWord: string, guess: string) returns (colors: seq<char>)
    requires IsWord(targetWord) && IsWord(guess)
    ensures colors == Colors(targetWord, guess)
  {
    var marks := new char[WORD_LENGTH](_ => UNMARKED);
    for i := 0 to WORD_LENGTH
      invariant forall q :: 0 <= q < WORD_LENGTH ==> marks[q] == MarkAfter(targetWord, guess, i, q)
    {
      MarkCopies(marks, targetWord, guess, i);
    }
    colors := marks[..];
    forall j | 0 <= j < WORD_LENGTH
      ensures colors[j] == Colors(targetWord, guess)[j]
    {
      MarkAfterAll(targetWord, guess, j);
    }
  }

  /** The number of the first n guess positions that hold c and carry a mark. */
  function MarkedIn(marks: seq<char>, guess: string, c: char, n: nat): nat
    requires n <= |marks| && n <= |guess|
  {
    if n == 0 then 0
    else MarkedIn(marks, guess, c, n - 1) + (if guess[n - 1] == c && marks[n - 1] != UNMARKED then 1 else 0)
  }

  lemma {:induction false} MarkedPrefix(target: string, guess: string, c: char, n: nat)
    requires IsWord(target) && IsWord(guess) && n <= WORD_LENGTH
    ensures MarkedIn(Colors(target, guess), guess, c, n) == Min(Count(target, c), Count(guess[..n], c))
  {
    if n == 0 {
      assert guess[..0] == [];
    } else {
      MarkedPrefix(target, guess, c, n - 1);
      CountStep(guess, n - 1, c);
    }
  }

  /** For every letter c, the marked guess positions holding c are as many
      as the smaller of the copies of c in the target and in the guess; in
      particular never more than the target holds. */
  lemma MarkedPerLetter(target: string, guess: string, c: char)
    requires IsWord(target) && IsWord(guess)
    ensures MarkedIn(Colors(target, guess), guess, c, WORD_LENGTH) == Min(Count(target, c), Count(guess, c))
    ensures MarkedIn(Colors(target, guess), guess, c, WORD_LENGTH) <= Count(target, c)
  {
    MarkedPrefix(target, guess, c, WORD_LENGTH);
    assert guess[..WORD_LENGTH] == guess;
  }

  /** A position is marked exactly when it is one of the leftmost
      Count(target, c) copies of its letter c in the guess. This reads the
      marking condition off the closed form; it speaks of getColors itself
      because GetColors is proved to return Colors. */
  lemma MarkedIffLeftmost(target: string, guess: string, j: nat)
    requires IsWord(target) && IsWord(guess) && j < WORD_LENGTH
    ensures Colors(target, guess)[j] != UNMARKED <==> Count(guess[..j], guess[j]) < Count(target, guess[j])
  {
  }

  /** 'G' at j means: j is marked and it is the last position of the target
      holding guess[j]; a marked position that is not is 'Y'. */
  lemma GreenIffLastCopy(target: string, guess: string, j: nat)
    requires IsWord(target) && IsWord(guess) && j < WORD_LENGTH
    ensures Colors(target, guess)[j] == GREEN <==>
      Colors(target, guess)[j] != UNMARKED && target[j] == guess[j] &&
      forall q :: j < q < WORD_LENGTH ==> target[q] != guess[j]
    ensures Colors(target, guess)[j] == YELLOW <==>
      Colors(target, guess)[j] != UNMARKED && !(target[j] == guess[j] &&
      forall q :: j < q < WORD_LENGTH ==> target[q] != guess[j])
  {
    var k := LastIndex(target, guess[j]);
    if target[j] == guess[j] && forall q :: j < q < WORD_LENGTH ==> target[q] != guess[j] {
      assert k == j;
    }
  }

  /** A target whose five letters are pairwise distinct scores itself all 'G'. */
  lemma SelfScoreDistinct(target: string)
    requires IsWord(target)
    requires forall a, b :: 0 <= a < b < WORD_LENGTH ==> target[a] != target[b]
    ensures Colors(target, target) == [GREEN, GREEN, GREEN, GREEN, GREEN]
  {
    forall j | 0 <= j < WORD_LENGTH
      ensures Colors(target, target)[j] == GREEN
    {
      assert target[j] !in target[..j];
      assert target[j] in target;
      CountZeroIff(target[..j], target[j]);
      CountZeroIff(target, target[j]);
      GreenIffLastCopy(target, target, j);
    }
  }

  /** The letter counts and last indices of CRANE that scoring EERIE needs. */
  lemma CraneLetters()
    ensures Count("CRANE", 'E') == 1 && Count("CRANE", 'R') == 1 && Count("CRANE", 'I') == 0
    ensures LastIndex("CRANE", 'E') == 4 && LastIndex("CRANE", 'R') == 1
  {
    assert "CRANE"[..4] == "CRAN";
    assert "CRAN"[..3] == "CRA";
    assert "CRA"[..2] == "CR";
    assert "CR"[..1] == "C";
    assert "C"[..0] == "";
    assert LastIndex("CRA", 'R') == 1;
  }

  /** The copies of E among the first guess positions of EERIE. */
  lemma EerieEs()
    ensures Count("E", 'E') == 1 && Count("EE", 'E') == 2 && Count("EERI", 'E') == 2
    ensures Count("EE", 'R') == 0
  {
    assert "EERI"[..3] == "EER";
    assert "EER"[..2] == "EE";
    assert "EE"[..1] == "E";
    assert "E"[..0] == "";
  }

  /** An exact match can stay unmarked: the first E of EERIE takes the only
      E of CRANE, so the inner loop breaks at the second E and never reaches
      the exact match at position 4. */
  lemma ExactMatchMissed()
    ensures "EERIE"[4] == "CRANE"[4]
    ensures Colors("CRANE", "EERIE") == [YELLOW, UNMARKED, YELLOW, UNMARKED, UNMARKED]
  {
    CraneLetters();
    EerieEs();
    assert "EERIE"[..0] == "" && "EERIE"[..1] == "E" && "EERIE"[..2] == "EE" && "EERIE"[..4] == "EERI";
    assert ColorAt("CRANE", "EERIE", 0) == YELLOW;
    assert ColorAt("CRANE", "EERIE", 1) == UNMARKED;
    assert ColorAt("CRANE", "EERIE", 2) == YELLOW;
    assert ColorAt("CRANE", "EERIE", 3) == UNMARKED;
    assert ColorAt("CRANE", "EERIE", 4) == UNMARKED;
    ColorsAre("CRANE", "EERIE", [YELLOW, UNMARKED, YELLOW, UNMARKED, UNMARKED]);
  }

  /** Colors is determined by its five marks. */
  lemma ColorsAre(target: string, guess: string, marks: seq<char>)
    requires IsWord(target) && IsWord(guess) && |marks| == WORD_LENGTH
    requires ColorAt(target, guess, 0) == marks[0] && ColorAt(target, guess, 1) == marks[1]
    requires ColorAt(target, guess, 2) == marks[2] && ColorAt(target, guess, 3) == marks[3]
    requires ColorAt(target, guess, 4) == marks[4]
    ensures Colors(target, guess) == marks
  {
    var m := Colors(target, guess);
    assert m[0] == marks[0] && m[1] == marks[1] && m[2] == marks[2] && m[3] == marks[3] && m[4] == marks[4];
    FiveEqual(m, marks);
  }

  /** Two sequences of five elements that agree at every index are equal. */
  lemma FiveEqual(a: seq<char>, b: seq<char>)
    requires |a| == WORD_LENGTH && |b| == WORD_LENGTH
    requires a[0] == b[0] && a[1] == b[1] && a[2] == b[2] && a[3] == b[3] && a[4] == b[4]
    ensures a == b
  {
  }

  /** A repeated target letter marks the same guess positions again, so an
      exact match of its first copy ends up 'Y'. */
  lemma GreenOverwritten()
    ensures "ALLEY"[1] == "ALLOW"[1]
    ensures Colors("ALLOW", "ALLEY") == [GREEN, YELLOW, GREEN, UNMARKED, UNMARKED]
    ensures Colors("ALLOW", "ALLOW") == [GREEN, YELLOW, GREEN, GREEN, GREEN]
  {
    AlleyAgainstAllow();
    AllowAgainstItself();
  }

  lemma AlleyAgainstAllow()
    ensures Colors("ALLOW", "ALLEY") == [GREEN, YELLOW, GREEN, UNMARKED, UNMARKED]
  {
    AllowLetters();
    assert "ALLEY"[..0] == "" && "ALLEY"[..1] == "A" && "ALLEY"[..2] == "AL";
    assert Count("AL", 'L') == 1 by {
      assert "AL"[..1] == "A";
    }
    assert ColorAt("ALLOW", "ALLEY", 0) == GREEN;
    assert ColorAt("ALLOW", "ALLEY", 1) == YELLOW;
    assert ColorAt("ALLOW", "ALLEY", 2) == GREEN;
    assert ColorAt("ALLOW", "ALLEY", 3) == UNMARKED;
    assert ColorAt("ALLOW", "ALLEY", 4) == UNMARKED;
    ColorsAre("ALLOW", "ALLEY", [GREEN, YELLOW, GREEN, UNMARKED, UNMARKED]);
  }

  lemma AllowAgainstItself()
    ensures Colors("ALLOW", "ALLOW") == [GREEN, YELLOW, GREEN, GREEN, GREEN]
  {
    AllowLetters();
    assert "ALLOW"[..0] == "" && "ALLOW"[..1] == "A" && "ALLOW"[..2] == "AL";
    assert "ALLOW"[..3] == "ALL" && "ALLOW"[..4] == "ALLO";
    assert Count("AL", 'L') == 1 by {
      assert "AL"[..1] == "A";
    }
    CountZeroIff("ALL", 'O');
    CountZeroIff("ALLO", 'W');
    assert ColorAt("ALLOW", "ALLOW", 0) == GREEN;
    assert ColorAt("ALLOW", "ALLOW", 1) == YELLOW;
    assert ColorAt("ALLOW", "ALLOW", 2) == GREEN;
    assert ColorAt("ALLOW", "ALLOW", 3) == GREEN;
    assert ColorAt("ALLOW", "ALLOW", 4) == GREEN;
    ColorsAre("ALLOW", "ALLOW", [GREEN, YELLOW, GREEN, GREEN, GREEN]);
  }

  /** The letter counts and last indices of ALLOW. */
  lemma AllowLetters()
    ensures Count("ALLOW", 'A') == 1 && Count("ALLOW", 'L') == 2
    ensures Count("ALLOW", 'O') == 1 && Count("ALLOW", 'W') == 1
    ensures Count("ALLOW", 'E') == 0 && Count("ALLOW", 'Y') == 0 && Count("ALLOW", 'S') == 0
    ensures LastIndex("ALLOW", 'A') == 0 && LastIndex("ALLOW", 'L') == 2
    ensures LastIndex("ALLOW", 'O') == 3 && LastIndex("ALLOW", 'W') == 4
  {
    assert "ALLOW"[..4] == "ALLO";
    assert "ALLO"[..3] == "ALL";
    assert "ALL"[..2] == "AL";
    assert "AL"[..1] == "A";
    assert "A"[..0] == "";
    assert LastIndex("A", 'A') == 0;
  }

  lemma WallsAgainstAllow()
    ensures Colors("ALLOW", "WALLS") == [YELLOW, YELLOW, GREEN, YELLOW, UNMARKED]
  {
    AllowLetters();
    assert "WALLS"[..0] == "" && "WALLS"[..1] == "W" && "WALLS"[..2] == "WA";
    assert "WALLS"[..3] == "WAL";
    assert Count("WA", 'L') == 0;
    assert Count("WAL", 'L') == 1 by {
      assert "WAL"[..2] == "WA";
    }
    assert ColorAt("ALLOW", "WALLS", 0) == YELLOW;
    assert ColorAt("ALLOW", "WALLS", 1) == YELLOW;
    assert ColorAt("ALLOW", "WALLS", 2) == GREEN;
    assert ColorAt("ALLOW", "WALLS", 3) == YELLOW;
    assert ColorAt("ALLOW", "WALLS", 4) == UNMARKED;
    ColorsAre("ALLOW", "WALLS", [YELLOW, YELLOW, GREEN, YELLOW, UNMARKED]);
  }
}
