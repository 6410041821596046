# Wordle in the terminal: a Dafny model of its core

The program is a terminal Wordle game written in Go (`main.go`). When
`./words.db` does not exist yet, it builds an SQLite table of words from
three word lists: the Linux word list, filtered to five-letter words, then
the Wordle answer list and the Wordle guess list, which are upper-cased but
not filtered. When the file exists, the table is used as it is. The program
then picks a target word at random. The player gets six turns. A typed line is
rejected, without using up a turn, when it is not five characters long, when
its upper-cased form is not made of the letters A–Z, or when it is not in the
dictionary. An accepted guess equal to the target ends the game. Any other
accepted guess is scored by `getColors` and printed with green and yellow
letters. The target is printed at the end in every case.

The model has five modules:

- `Validation` (`Validation.dfy`): the input checks `onlyCapitalLetters` and
  `stringInSlice`, and upper-casing restricted to ASCII.
- `Scoring` (`Scoring.dfy`): `getColors` as written. `Colors` is a closed-form
  description of its result. The method `GetColors` keeps the nested loops,
  the `break` and the in-place writes to a 5-slot array, and is proved to
  return `Colors`. The lemmas then state what the marks mean.
- `TwoPass` (`TwoPass.dfy`): the usual two-pass Wordle rule, exact matches
  first. It is a reference to compare `getColors` with; the program does not
  use it.
- `Session` (`Session.dfy`): the guess loop of `main` without the terminal.
  The typed lines are a sequence of strings. `Play` keeps the loop, the
  counter and the 6-row `colors` array, and is proved against the game
  function `Game` applied to the accepted words.
- `WordTable` (`WordTable.dfy`): the word table as a class over a sequence of
  rows, each a word with three flags. Its loaders keep one invariant: every
  word flagged as a Wordle answer is also flagged as a guess.

How `getColors` differs from the usual Wordle rule. The model follows the
code. Each letter of the target walks the guess from the left. It marks the
first copies of itself, as many as the target holds. The mark is 'G' when
the guess index equals the target index, and 'Y' otherwise. A later copy of
the same target letter marks the same positions again. So:

- An exact match can stay unmarked when earlier copies in the guess took
  the target's copies (`CRANE` against `EERIE`, last position).
- An exact match can end up 'Y' (`ALLOW` against `ALLEY`, second position).
- A word with a repeated letter does not score itself all 'G'.

Exact-match priority therefore does not hold, and is not claimed. What does
hold:

- the marked positions of each letter are its leftmost copies in the guess,
  as many as the smaller of its counts in the two words;
- a 'G' is always an exact match;
- this per-letter number equals the two-pass rule's.

## Model

| member | source | states |
|---|---|---|
| `Validation.OnlyCapitalLetters` | main.go:17-24 | true exactly when every character lies in 'A'..'Z'; true for the empty string |
| `Validation.StringInSlice` | main.go:222-229 | true exactly when the string equals some element of the list; false for an empty list |
| `Validation.UpperChar` | main.go:297 | the upper-cased character is a capital exactly when the input is an ASCII letter; a capital is kept as it is |
| `Validation.ToUpper` | main.go:297 | upper-casing keeps the length of an ASCII line, so the length check before it stands for the string after it |
| `Validation.UpperCaseCheck` | main.go:297-298 | an upper-cased line passes the capital-letter check exactly when every character of the raw line is an ASCII letter of either case |
| `Validation.UpperCaseKeepsCapitals` | main.go:297-302 | a word already in capitals is unchanged by upper-casing |
| `Scoring.Count` | main.go:240 | the count never exceeds the length |
| `Scoring.CountZeroIff` | main.go:240 | the count of a letter is zero exactly when the letter does not occur |
| `Scoring.LastIndex` | main.go:237-251 | the result is -1 or an index holding the letter, and no later index holds it |
| `Scoring.Colors` | main.go:232-257 | five marks, each 'G', 'Y' or the zero rune; a guess letter absent from the target is unmarked; 'G' only on an exact match |
| `Scoring.MarkStep` | main.go:241-251 | handling target letter i marks only guess positions holding that letter: 'G' at i, 'Y' elsewhere, while their rank is below the target's count; every other position keeps its mark |
| `Scoring.BreakKeepsRest` | main.go:244-246 | once the copies found exceed the target's count, the break skips no position that handling this letter would have marked |
| `Scoring.MarkCopies` | main.go:238-254 | one pass of the outer loop turns the marks after i target letters into the marks after i+1 |
| `Scoring.GetColors` | main.go:232-257 | the nested loops with the break and the in-place writes return exactly `Colors(target, guess)` |
| `Scoring.MarkedPerLetter` | main.go:240-246 | for every letter, the marked positions holding it number min(count in target, count in guess), never more than the target holds |
| `Scoring.MarkedIffLeftmost` | main.go:240-246 | a position is marked exactly when fewer copies of its letter than the target holds come before it in the guess |
| `Scoring.GreenIffLastCopy` | main.go:237-251 | 'G' exactly when the position is marked and is the last position of the target holding that letter; 'Y' exactly when it is marked and is not |
| `Scoring.SelfScoreDistinct` | main.go:237-251 | a target of five distinct letters scores itself all 'G' |
| `Scoring.ExactMatchMissed` | main.go:241-246 | CRANE against EERIE gives Y,_,Y,_,_: the exact match at the last position stays unmarked |
| `Scoring.GreenOverwritten` | main.go:237-251 | ALLOW against ALLEY gives G,Y,G,_,_, and ALLOW against itself G,Y,G,G,G: a later copy of L overwrites the 'G' of the first |
| `Scoring.WallsAgainstAllow` | main.go:232-257 | ALLOW against WALLS gives Y,Y,G,Y,_ |
| `TwoPass.SameMarkedCount` | main.go:240-246 | getColors and the two-pass rule mark the same number of positions of every letter |
| `TwoPass.CraneEerieDiffers` | main.go:241-251 | on CRANE against EERIE the two-pass rule gives _,_,Y,_,G, which is not what getColors gives |
| `Session.Validate` | main.go:293-306 | wrong length exactly when the raw line is not five characters long; otherwise not letters exactly when some raw character is not an ASCII letter; otherwise not in the dictionary exactly when the upper-cased line is missing from it; accepted words are the upper-cased line, five capitals long |
| `Session.AcceptedWords` | main.go:291-307 | at most one word per line, each five capitals long and in the dictionary |
| `Session.Game` | main.go:288-311 | no more guesses are scored than there are turns or accepted words |
| `Session.GameOutcome` | main.go:288-311 | the scored guesses are the first accepted words, in input order, and none is the target; the game is won exactly when the target is among the first six accepted words, and then it is the word right after the scored ones; a lost game scores six words or every accepted word |
| `Session.AcceptedAppend` | main.go:291-307 | reading the lines in two parts accepts the same words in the same order |
| `Session.RejectedLineIgnored` | main.go:293-305 | a rejected line anywhere in the input changes neither the accepted words nor the outcome of the game |
| `Session.GameAfter` | main.go:288-312 | scoring non-winning guesses first and then playing on with the remaining turns is the same game |
| `Session.SixMissesLose` | main.go:288 | six accepted guesses that all miss end the game lost, with those six scored |
| `Session.CapitalWordAccepted` | main.go:293-305 | a dictionary word typed in capitals passes the three checks and is accepted as it is |
| `Session.ShortLineRejected` | main.go:293-297 | a two-letter line is rejected for its length whatever the dictionary; a lower-case line is upper-cased before the dictionary lookup |
| `Session.StopsWithOutcome` | main.go:288-311 | when the loop stops (six guesses scored, the target guessed, or the input used up) its state is the outcome of `Game` |
| `Session.ReadGuess` | main.go:290-307 | reads lines until one passes the three checks; the words accepted so far grow by exactly that word; at the end of the input nothing is accepted |
| `Session.Play` | main.go:285-324 | the counter is the number of scored guesses; row r of the board is the marks of the r-th scored guess and the rows after them are blank; the won flag is the game's; the target is revealed in every case |
| `WordTable.DefaultRow` | main.go:36-40 | a row inserted with only its word is a Linux word, not a Wordle answer and not an allowed guess |
| `WordTable.WordExistsIff` | main.go:79-90 | wordExists finds a word exactly when it is not empty and some row holds it; the empty word is never found, even when a row holds it |
| `WordTable.SetFlags` | main.go:101-107 | the UPDATE of updateDatabase, and the guess-only one of updateMoreDatabase (main.go:122), set the guess flag on every row holding the word, and the answer flag too for the first; other rows and the row count are unchanged |
| `WordTable.Admissible` | main.go:139-141 | a line passes the filter of addScannedWords exactly when it is five characters long and every character is an ASCII letter |
| `WordTable.Added` | main.go:49-58 | an existing word (wordExists true) leaves the table unchanged; otherwise exactly one row with the defaults (Linux word, not an answer, not a guess) is appended; earlier rows are kept; the invariant is kept |
| `WordTable.AnswerMarked` | main.go:92-109 | the word becomes an answer and a guess; when wordExists does not find it (always so for the empty word) the table is the old one plus exactly one row for the word, an answer and a guess but not a Linux word; otherwise the flags are set on its existing rows; other rows unchanged; the invariant is kept |
| `WordTable.GuessMarked` | main.go:111-128 | the word becomes a guess and no answer flag changes; when wordExists does not find it (always so for the empty word) the table is the old one plus exactly one row for the word, flagged as a guess only; otherwise the guess flag is set on its existing rows; the invariant is kept |
| `WordTable.LinuxWordsAdded` | main.go:136-148 | every admissible line, upper-cased, is in the table afterwards; every row added is one of those words, five capitals long, with the default flags, and was not in the table before it; existing rows are kept; the invariant is kept |
| `WordTable.UpperLines` | main.go:151-155 | the words passed on are the lines upper-cased, one per line, in order |
| `WordTable.AnswersMarked` | main.go:150-158 | passing the words one by one to updateDatabase keeps the invariant |
| `WordTable.AnswersMarkedRead` | main.go:150-158 | every word is an answer afterwards, and every row holding one of those non-empty words has both Wordle flags; rows of other words, and rows holding the empty word, are unchanged; every row added holds one of the words, is an answer and a guess but not a Linux word, and repeats no earlier non-empty word; one row holding the empty word is added per empty word passed, since wordExists never finds it; no row is removed and no flag cleared |
| `WordTable.GuessesMarked` | main.go:160-168 | passing the words one by one to updateMoreDatabase keeps the invariant |
| `WordTable.GuessesMarkedRead` | main.go:160-168 | every word is an allowed guess afterwards, and every row holding one of those non-empty words has the guess flag; no answer flag changes; rows of other words, and rows holding the empty word, are unchanged; every row added holds one of the words, is a guess only, and repeats no earlier non-empty word; one row holding the empty word is added per empty word passed, since wordExists never finds it; no row is removed and no flag cleared |
| `WordTable.GrowsKeepsAnswer` | main.go:160-168 | a later update that clears no flag keeps every answer an answer |
| `WordTable.BuiltTable` | main.go:261-268 | the table built from the Linux list, then the answers, then the allowed guesses, flags every answer as a guess, and every line of the answer list is an answer |
| `WordTable.Table.constructor` | main.go:34-47 | the table starts empty, so the invariant holds |
| `WordTable.Table.AddToDatabase` | main.go:49-58 | the new table is `Added` of the old one, and the invariant is kept |
| `WordTable.Table.UpdateDatabase` | main.go:92-109 | the new table is `AnswerMarked` of the old one, and the invariant is kept |
| `WordTable.Table.UpdateMoreDatabase` | main.go:111-128 | the new table is `GuessMarked` of the old one, and the invariant is kept |
| `WordTable.Table.AddScannedWords` | main.go:136-148 | after the loop the table is `LinuxWordsAdded` of the old one over all lines, and the invariant is kept |
| `WordTable.Table.UpdateScannedWords` | main.go:150-158 | after the loop the table is `AnswersMarked` of the old one over all lines, upper-cased, and the invariant is kept |
| `WordTable.Table.UpdateMoreScannedWords` | main.go:160-168 | after the loop the table is `GuessesMarked` of the old one over all lines, upper-cased, and the invariant is kept |

## Left out

- SQLite and files: `createSqlite3Db`, `fileFound`, `scanFileLineByLine`, the statements' preparation and execution, and `fatalError` are library calls, file I/O or process exit. The table is a sequence of rows; the `word_id` key is not modelled. A word file is a sequence of lines.
- `getAllWords`, `getWordleGuessWords`, `getLinuxWords`, `getWordleWords`: these are SQL queries with `ORDER BY`. `Play` takes the dictionary as a given sequence of words.
- The random choice of the target (`math/rand` seeded from the clock) is not modelled. The target is a parameter of `Play` and must be five characters long.
- Terminal I/O: the prompts, the messages and the coloured printing of each scored guess are left out. The printing does not change the state.
- `Session.Play`: the input is a finite sequence of lines, and the model stops when it runs out. At end of input, Go's `fmt.Scanln` leaves the previous guess in place, so the real loop either accepts that guess again or never ends. A blank or all-space line does the same: `fmt.Scanln` returns an error that the loop ignores and `guess` keeps its previous value, so an accepted word is submitted again and uses a turn. The model treats such a line as an empty string, which is rejected for its length. Lines containing spaces are not split as `fmt.Scanln` would split them.
- `Session.Validate` and `Session.RejectedLineIgnored`: they take each line as typed. A blank line is therefore a rejected line here, whereas the program re-checks the previous guess in its place (see `Session.Play`).
- `Validation.ToUpper`: only ASCII letters are upper-cased. Go's `strings.ToUpper` also maps non-ASCII letters, and some of them map into A–Z. Go's `len` counts bytes, not characters. Both matter only for non-ASCII input.
