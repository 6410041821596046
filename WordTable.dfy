/** The five_letter_words table, with SQLite abstracted away: the table is a
    sequence of rows, each a word and its three list flags. Words from the
    Linux word list are inserted with the column defaults; the Wordle answer
    list flags its words as answers and as guesses; the Wordle guess list
    flags its words as guesses. Any word flagged as an answer is therefore
    flagged as a guess. */
module WordTable {
  import opened Validation

  /** A row of five_letter_words; the word_id key is not modelled. */
  datatype Row = Row(word: string, linuxWordList: bool, wordleWordList: bool, wordleGuessList: bool)

  /** A row inserted with only its word: linux_word_list defaults to TRUE,
      wordle_word_list and wordle_guess_list to FALSE. */
  function DefaultRow(word: string): (r: Row)
    ensures r.word == word && r.linuxWordList
    ensures !r.wordleWordList && !r.wordleGuessList
  {
    Row(word, true, false, false)
  }

  /** The table's invariant: every Wordle answer is also an allowed guess. */
  ghost predicate AnswersAreGuesses(rows: seq<Row>) {
    forall i :: 0 <= i < |rows| && rows[i].wordleWordList ==> rows[i].wordleGuessList
  }

  /** wordExists: the query returns the word of a matching row, and the
      result counts only when it is not the empty string, so the empty word
      is never found. */
  predicate WordExists(rows: seq<Row>, word: string) {
    word != "" && exists i :: 0 <= i < |rows| && rows[i].word == word
  }

  /** The words of the table, one per row. */
  function Words(rows: seq<Row>): (ws: seq<string>)
    ensures |ws| == |rows| && forall i :: 0 <= i < |rows| ==> ws[i] == rows[i].word
  {
    seq(|rows|, i requires 0 <= i < |rows| => rows[i].word)
  }

  /** wordExists finds exactly the non-empty words some row holds; the
      empty word is never found, even when a row holds it. */
  lemma WordExistsIff(rows: seq<Row>, word: string)
    ensures WordExists(rows, word) <==> word != "" && word in Words(rows)
    ensures !WordExists(rows + [Row("", true, false, false)], "")
  {
    var ws := Words(rows);
    if word != "" && word in ws {
      var i :| 0 <= i < |ws| && ws[i] == word;
      assert rows[i].word == word;
    }
  }

  /** The table holds a row for word flagged as a Wordle answer. */
  ghost predicate IsAnswer(rows: seq<Row>, word: string) {
    exists i :: 0 <= i < |rows| && rows[i].word == word && rows[i].wordleWordList
  }

  /** rows' grows into r: no row is removed or renamed and no flag of the
      two Wordle lists is cleared. */
  ghost predicate Grows(rows: seq<Row>, r: seq<Row>) {
    |rows| <= |r| &&
    forall i :: 0 <= i < |rows| ==>
      r[i].word == rows[i].word && r[i].linuxWordList == rows[i].linuxWordList &&
      (rows[i].wordleWordList ==> r[i].wordleWordList) &&
      (rows[i].wordleGuessList ==> r[i].wordleGuessList)
  }

  lemma GrowsTrans(a: seq<Row>, b: seq<Row>, c: seq<Row>)
    requires Grows(a, b) && Grows(b, c)
    ensures Grows(a, c)
  {
  }

  lemma GrowsKeepsAnswer(rows: seq<Row>, r: seq<Row>, word: string)
    requires Grows(rows, r) && IsAnswer(rows, word)
    ensures IsAnswer(r, word)
  {
    var i :| 0 <= i < |rows| && rows[i].word == word && rows[i].wordleWordList;
    assert r[i].word == word && r[i].wordleWordList;
  }

  /** The UPDATE ... WHERE word = ? statements: every row holding word gets
      wordle_guess_list set, and wordle_word_list too when asAnswer holds. */
  function SetFlags(rows: seq<Row>, word: string, asAnswer: bool): (r: seq<Row>)
    ensures Grows(rows, r) && |r| == |rows|
    ensures forall i :: 0 <= i < |rows| && rows[i].word != word ==> r[i] == rows[i]
    ensures forall i :: 0 <= i < |rows| && rows[i].word == word ==>
      r[i].wordleGuessList && (r[i].wordleWordList <==> rows[i].wordleWordList || asAnswer)
  {
    seq(|rows|, i requires 0 <= i < |rows| =>
      if rows[i].word == word
      then rows[i].(wordleWordList := rows[i].wordleWordList || asAnswer, wordleGuessList := true)
      else rows[i])
  }

  /** addToSqliteDatabase: a word already in the table is left as it is;
      otherwise one row with the column defaults is added. */
  function Added(rows: seq<Row>, word: string): (r: seq<Row>)
    ensures Grows(rows, r) && r[..|rows|] == rows
    ensures |r| == if WordExists(rows, word) then |rows| else |rows| + 1
    ensures WordExists(rows, word) ==> r == rows
    ensures forall i :: |rows| <= i < |r| ==> r[i] == DefaultRow(word)
    ensures word != "" ==> WordExists(r, word)
    ensures AnswersAreGuesses(rows) ==> AnswersAreGuesses(r)
  {
    if WordExists(rows, word) then rows
    else
      var r := rows + [DefaultRow(word)];
      assert r[|rows|].word == word;
      r
  }

  /** updateDatabase: a new word is inserted as an answer and a guess but not
      a Linux word; an existing word gets both Wordle flags set. */
  function AnswerMarked(rows: seq<Row>, word: string): (r: seq<Row>)
    ensures Grows(rows, r)
    ensures |r| == if WordExists(rows, word) then |rows| else |rows| + 1
    ensures forall i :: 0 <= i < |rows| && rows[i].word != word ==> r[i] == rows[i]
    ensures forall i :: 0 <= i < |r| && r[i].word == word && (i >= |rows| || word != "") ==>
      r[i].wordleWordList && r[i].wordleGuessList
    ensures forall i :: |rows| <= i < |r| ==> !r[i].linuxWordList
    ensures !WordExists(rows, word) ==> r == rows + [Row(word, false, true, true)]
    ensures IsAnswer(r, word)
    ensures AnswersAreGuesses(rows) ==> AnswersAreGuesses(r)
  {
    if !WordExists(rows, word) then
      var r := rows + [Row(word, false, true, true)];
      assert r[|rows|].word == word && r[|rows|].wordleWordList;
      r
    else
      var r := SetFlags(rows, word, true);
      assert forall i :: 0 <= i < |rows| && rows[i].word == word ==> r[i].word == word && r[i].wordleWordList;
      r
  }

  /** updateMoreDatabase: a new word is inserted as a guess only; an existing
      word gets its guess flag set and keeps its answer flag. */
  function GuessMarked(rows: seq<Row>, word: string): (r: seq<Row>)
    ensures Grows(rows, r)
    ensures |r| == if WordExists(rows, word) then |rows| else |rows| + 1
    ensures forall i :: 0 <= i < |rows| ==> r[i].wordleWordList == rows[i].wordleWordList
    ensures forall i :: 0 <= i < |rows| && rows[i].word != word ==> r[i] == rows[i]
    ensures forall i :: 0 <= i < |r| && r[i].word == word && (i >= |rows| || word != "") ==> r[i].wordleGuessList
    ensures forall i :: |rows| <= i < |r| ==> r[i] == Row(word, false, false, true)
    ensures !WordExists(rows, word) ==> r == rows + [Row(word, false, false, true)]
    ensures AnswersAreGuesses(rows) ==> AnswersAreGuesses(r)
  {
    if !WordExists(rows, word) then rows + [Row(word, false, false, true)]
    else SetFlags(rows, word, false)
  }

  /** The filter of addScannedWords: five characters long, and only capital
      letters once upper-cased. */
  predicate Admissible(line: string)
    ensures Admissible(line) <==>
      |line| == WORD_LENGTH && forall i :: 0 <= i < |line| ==> IsAsciiLetter(line[i])
  {
    UpperCaseCheck(line);
    |line| == WORD_LENGTH && OnlyCapitalLetters(ToUpper(line))
  }

  /** A word the table holds stays there as the table grows. */
  lemma GrowsKeepsWord(rows: seq<Row>, r: seq<Row>, word: string)
    requires Grows(rows, r) && WordExists(rows, word)
    ensures WordExists(r, word)
  {
    var i :| 0 <= i < |rows| && rows[i].word == word;
    assert r[i].word == word;
  }

  /** The table holds a row for word flagged as an allowed guess. */
  ghost predicate IsGuess(rows: seq<Row>, word: string) {
    exists i :: 0 <= i < |rows| && rows[i].word == word && rows[i].wordleGuessList
  }

  /** word is one of the admissible lines, upper-cased. */
  ghost predicate ReadFrom(word: string, lines: seq<string>) {
    exists k :: 0 <= k < |lines| && Admissible(lines[k]) && word == ToUpper(lines[k])
  }

  /** Each row of r from index |rows| on holds a word of no earlier row,
      unless it is the empty word, which wordExists never finds. */
  ghost predicate AddedRowsNew(rows: seq<Row>, r: seq<Row>) {
    forall i, j :: |rows| <= i < |r| && 0 <= j < i && r[i].word != "" ==> r[j].word != r[i].word
  }

  /** The table after addScannedWords has read the given lines: every
      admissible line, upper-cased, is in the table; every row added is one
      of them, with the column defaults, and was not in the table before it
      was added. */
  function LinuxWordsAdded(rows: seq<Row>, lines: seq<string>): (r: seq<Row>)
    ensures Grows(rows, r) && r[..|rows|] == rows
    ensures forall k :: 0 <= k < |lines| && Admissible(lines[k]) ==> WordExists(r, ToUpper(lines[k]))
    ensures forall i :: |rows| <= i < |r| ==>
      ReadFrom(r[i].word, lines)
    ensures forall i :: |rows| <= i < |r| ==> r[i] == DefaultRow(r[i].word) && !WordExists(r[..i], r[i].word)
    ensures forall i :: |rows| <= i < |r| ==> |r[i].word| == WORD_LENGTH && OnlyCapitalLetters(r[i].word)
    ensures AnswersAreGuesses(rows) ==> AnswersAreGuesses(r)
    decreases |lines|
  {
    if lines == [] then rows
    else
      var before := LinuxWordsAdded(rows, lines[..|lines| - 1]);
      var last := lines[|lines| - 1];
      var r := if Admissible(last) then Added(before, ToUpper(last)) else before;
      GrowsTrans(rows, before, r);
      assert r[..|rows|] == rows by {
        assert r[..|before|] == before;
        assert r[..|rows|] == r[..|before|][..|rows|];
      }
      LinuxLinesFound(lines, before, r);
      LinuxRowsAdded(rows, lines, before, r);
      r
  }

  /** After one more line, every admissible line read so far is found. */
  lemma LinuxLinesFound(lines: seq<string>, before: seq<Row>, r: seq<Row>)
    requires lines != []
    requires var last := lines[|lines| - 1];
      r == if Admissible(last) then Added(before, ToUpper(last)) else before
    requires var init := lines[..|lines| - 1];
      forall k :: 0 <= k < |init| && Admissible(init[k]) ==> WordExists(before, ToUpper(init[k]))
    ensures forall k :: 0 <= k < |lines| && Admissible(lines[k]) ==> WordExists(r, ToUpper(lines[k]))
  {
    var init := lines[..|lines| - 1];
    forall k | 0 <= k < |lines| && Admissible(lines[k])
      ensures WordExists(r, ToUpper(lines[k]))
    {
      if k < |init| {
        assert init[k] == lines[k];
        GrowsKeepsWord(before, r, ToUpper(lines[k]));
      } else {
        assert ToUpper(lines[k]) != "";
      }
    }
  }

  /** After one more line, every row added is an admissible line read so
      far, with the column defaults, and new when it was added. */
  lemma LinuxRowsAdded(rows: seq<Row>, lines: seq<string>, before: seq<Row>, r: seq<Row>)
    requires lines != [] && |rows| <= |before|
    requires var last := lines[|lines| - 1];
      r == if Admissible(last) then Added(before, ToUpper(last)) else before
    requires var init := lines[..|lines| - 1];
      (forall i :: |rows| <= i < |before| ==>
        ReadFrom(before[i].word, init)) &&
      (forall i :: |rows| <= i < |before| ==> before[i] == DefaultRow(before[i].word) && !WordExists(before[..i], before[i].word)) &&
      (forall i :: |rows| <= i < |before| ==> |before[i].word| == WORD_LENGTH && OnlyCapitalLetters(before[i].word))
    ensures forall i :: |rows| <= i < |r| ==>
      ReadFrom(r[i].word, lines)
    ensures forall i :: |rows| <= i < |r| ==> r[i] == DefaultRow(r[i].word) && !WordExists(r[..i], r[i].word)
    ensures forall i :: |rows| <= i < |r| ==> |r[i].word| == WORD_LENGTH && OnlyCapitalLetters(r[i].word)
  {
    var init := lines[..|lines| - 1];
    assert r[..|before|] == before;
    forall i | |rows| <= i < |before|
      ensures ReadFrom(r[i].word, lines)
      ensures r[i] == DefaultRow(r[i].word) && !WordExists(r[..i], r[i].word)
    {
      assert r[..i] == before[..i];
      assert r[i] == before[i];
      var k :| 0 <= k < |init| && Admissible(init[k]) && before[i].word == ToUpper(init[k]);
      assert init[k] == lines[k];
      assert 0 <= k < |lines| && Admissible(lines[k]) && r[i].word == ToUpper(lines[k]);
    }
    forall i | |before| <= i < |r|
      ensures ReadFrom(r[i].word, lines)
      ensures r[i] == DefaultRow(r[i].word) && !WordExists(r[..i], r[i].word)
      ensures |r[i].word| == WORD_LENGTH && OnlyCapitalLetters(r[i].word)
    {
      var n := |lines| - 1;
      assert r[..i] == before;
      assert Admissible(lines[n]) && r[i].word == ToUpper(lines[n]);
    }
  }

  /** The lines of a word file, each upper-cased, as updateScannedWords and
      updateMoreScannedWords pass them on. */
  function UpperLines(lines: seq<string>): (words: seq<string>)
    ensures |words| == |lines| && forall k :: 0 <= k < |lines| ==> words[k] == ToUpper(lines[k])
  {
    seq(|lines|, k requires 0 <= k < |lines| => ToUpper(lines[k]))
  }

  /** Reading one more line adds its upper-cased form to the words. */
  lemma UpperLinesStep(lines: seq<string>, k: nat)
    requires k < |lines|
    ensures UpperLines(lines[..k + 1]) == UpperLines(lines[..k]) + [ToUpper(lines[k])]
  {
    var a := UpperLines(lines[..k + 1]);
    var b := UpperLines(lines[..k]) + [ToUpper(lines[k])];
    assert |a| == |b|;
    forall q | 0 <= q < |a|
      ensures a[q] == b[q]
    {
      assert lines[..k + 1][q] == lines[q];
      if q < k {
        assert lines[..k][q] == lines[q];
      }
    }
  }

  /** The number of rows holding the empty word. */
  function EmptyRows(rows: seq<Row>): nat
  {
    if rows == [] then 0
    else EmptyRows(rows[..|rows| - 1]) + if rows[|rows| - 1].word == "" then 1 else 0
  }

  /** The number of empty words in words. */
  function EmptyWords(words: seq<string>): nat
  {
    if words == [] then 0
    else EmptyWords(words[..|words| - 1]) + if words[|words| - 1] == "" then 1 else 0
  }

  /** EmptyRows depends on the words of the rows only. */
  lemma {:induction false} SameWordsEmptyRows(a: seq<Row>, b: seq<Row>)
    requires |a| == |b| && forall i :: 0 <= i < |a| ==> a[i].word == b[i].word
    ensures EmptyRows(a) == EmptyRows(b)
    decreases |a|
  {
    if a != [] {
      SameWordsEmptyRows(a[..|a| - 1], b[..|b| - 1]);
    }
  }

  /** Passing one more word to updateDatabase or updateMoreDatabase adds a
      row holding the empty word exactly when that word is empty. */
  lemma EmptyRowsStep(rows: seq<Row>, words: seq<string>, init: seq<string>, before: seq<Row>, r: seq<Row>)
    requires words != [] && init == words[..|words| - 1]
    requires EmptyRows(before) == EmptyRows(rows) + EmptyWords(init)
    requires Grows(before, r)
    requires |r| == if WordExists(before, words[|init|]) then |before| else |before| + 1
    requires forall i :: |before| <= i < |r| ==> r[i].word == words[|init|]
    ensures EmptyRows(r) == EmptyRows(rows) + EmptyWords(words)
  {
    EmptyWordsLast(words, init);
    EmptyRowsMarked(before, r, words[|init|]);
  }

  /** One call of updateDatabase or updateMoreDatabase adds a row holding
      the empty word exactly when it is passed the empty word. */
  lemma EmptyRowsMarked(before: seq<Row>, r: seq<Row>, word: string)
    requires Grows(before, r)
    requires |r| == if WordExists(before, word) then |before| else |before| + 1
    requires forall i :: |before| <= i < |r| ==> r[i].word == word
    ensures EmptyRows(r) == EmptyRows(before) + if word == "" then 1 else 0
  {
    if |r| == |before| {
      assert WordExists(before, word);
      SameWordsEmptyRows(before, r);
    } else {
      assert r[|before|].word == word;
      EmptyRowsAppend(before, r);
    }
  }

  /** EmptyWords counts the last word after the others. */
  lemma EmptyWordsLast(words: seq<string>, init: seq<string>)
    requires words != [] && init == words[..|words| - 1]
    ensures EmptyWords(words) == EmptyWords(init) + if words[|init|] == "" then 1 else 0
  {
  }

  /** Appending a row to rows with the same words counts that row. */
  lemma EmptyRowsAppend(before: seq<Row>, r: seq<Row>)
    requires |r| == |before| + 1 && forall i :: 0 <= i < |before| ==> r[i].word == before[i].word
    ensures EmptyRows(r) == EmptyRows(before) + if r[|before|].word == "" then 1 else 0
  {
    SameWordsEmptyRows(before, r[..|r| - 1]);
  }

  /** How a run of updateDatabase or updateMoreDatabase calls, passed the
      given words, takes rows to r: no row is removed or renamed and no flag
      cleared; rows whose word was not passed, and rows holding the empty
      word, are unchanged; every row added holds one of the words, none
      repeats an earlier non-empty word, and there is one added row holding
      the empty word per empty word passed, since wordExists never finds
      it. */
  ghost predicate AddedFrom(rows: seq<Row>, words: seq<string>, r: seq<Row>) {
    Grows(rows, r) &&
    (forall i :: 0 <= i < |rows| && (rows[i].word !in words || rows[i].word == "") ==> r[i] == rows[i]) &&
    (forall i :: |rows| <= i < |r| ==> r[i].word in words) &&
    AddedRowsNew(rows, r) &&
    EmptyRows(r) == EmptyRows(rows) + EmptyWords(words)
  }

  /** Passing one more word keeps the table growing, and leaves alone the
      rows of words not passed and the rows holding the empty word, given
      what a single call of updateDatabase or updateMoreDatabase does. */
  lemma KeptStep(rows: seq<Row>, words: seq<string>, init: seq<string>, before: seq<Row>, r: seq<Row>)
    requires words != [] && init == words[..|words| - 1]
    requires Grows(rows, before) && Grows(before, r)
    requires forall i :: 0 <= i < |rows| && (rows[i].word !in init || rows[i].word == "") ==> before[i] == rows[i]
    requires forall i :: 0 <= i < |before| && (before[i].word != words[|init|] || words[|init|] == "") ==>
      r[i] == before[i]
    ensures Grows(rows, r)
    ensures forall i :: 0 <= i < |rows| && (rows[i].word !in words || rows[i].word == "") ==> r[i] == rows[i]
  {
    assert words == init + [words[|init|]];
    GrowsTrans(rows, before, r);
    forall i | 0 <= i < |rows| && (rows[i].word !in words || rows[i].word == "")
      ensures r[i] == rows[i]
    {
      assert before[i] == rows[i];
    }
  }

  /** The rows after rows' end were added by updateDatabase: answers and
      guesses, not Linux words. */
  ghost predicate AnswerRowsAdded(rows: seq<Row>, r: seq<Row>) {
    forall i :: |rows| <= i < |r| ==> !r[i].linuxWordList && r[i].wordleWordList && r[i].wordleGuessList
  }

  /** The rows after rows' end were added by updateMoreDatabase, as guesses
      only, and no answer flag of rows has changed. */
  ghost predicate GuessRowsAdded(rows: seq<Row>, r: seq<Row>)
    requires |rows| <= |r|
  {
    (forall i :: 0 <= i < |rows| ==> r[i].wordleWordList == rows[i].wordleWordList) &&
    (forall i :: |rows| <= i < |r| ==> !r[i].linuxWordList && !r[i].wordleWordList && r[i].wordleGuessList)
  }

  /** One more updateDatabase call keeps AnswerRowsAdded. */
  lemma AnswerRowsStep(rows: seq<Row>, before: seq<Row>, r: seq<Row>, word: string)
    requires |rows| <= |before| && AnswerRowsAdded(rows, before)
    requires r == AnswerMarked(before, word)
    ensures AnswerRowsAdded(rows, r)
  {
  }

  /** One more updateMoreDatabase call keeps GuessRowsAdded. */
  lemma GuessRowsStep(rows: seq<Row>, before: seq<Row>, r: seq<Row>, word: string)
    requires |rows| <= |before| && GuessRowsAdded(rows, before)
    requires r == GuessMarked(before, word)
    ensures |rows| <= |r| && GuessRowsAdded(rows, r)
  {
  }

  /** What updateScannedWords promises once it has passed the given words
      to updateDatabase, taking rows to r: the table grows as AddedFrom
      says, and the rows added are answers and guesses but not Linux words;
      every word is a Wordle answer, and every row holding one of them
      (other than the empty word) has both Wordle flags. */
  ghost predicate AnswersRead(rows: seq<Row>, words: seq<string>, r: seq<Row>) {
    AddedFrom(rows, words, r) &&
    AnswerRowsAdded(rows, r) &&
    (forall k :: 0 <= k < |words| ==> IsAnswer(r, words[k])) &&
    (forall i :: 0 <= i < |r| && r[i].word in words && r[i].word != "" ==>
      r[i].wordleWordList && r[i].wordleGuessList)
  }

  /** The table after updateScannedWords has read a word file: one
      updateDatabase per word, in order; the words are the file's lines,
      upper-cased (UpperLines). */
  function AnswersMarked(rows: seq<Row>, words: seq<string>): (r: seq<Row>)
    ensures AnswersAreGuesses(rows) ==> AnswersAreGuesses(r)
    decreases |words|
  {
    if words == [] then rows
    else AnswerMarked(AnswersMarked(rows, words[..|words| - 1]), words[|words| - 1])
  }

  /** AnswersMarked keeps the promises of AnswersRead. */
  lemma AnswersMarkedRead(rows: seq<Row>, words: seq<string>)
    ensures AnswersRead(rows, words, AnswersMarked(rows, words))
  {
    AnswersMarkedKept(rows, words, AnswersMarked(rows, words));
    AnswersMarkedNew(rows, words, AnswersMarked(rows, words));
    AnswersMarkedFlagged(rows, words);
  }

  /** What updateScannedWords leaves alone: the table only grows, and the
      rows of words not passed, and the rows holding the empty word, are
      unchanged. */
  lemma {:induction false} AnswersMarkedKept(rows: seq<Row>, words: seq<string>, r: seq<Row>)
    requires r == AnswersMarked(rows, words)
    ensures Grows(rows, r) && AnswerRowsAdded(rows, r)
    ensures forall i :: 0 <= i < |rows| && (rows[i].word !in words || rows[i].word == "") ==> r[i] == rows[i]
    decreases |words|
  {
    if words != [] {
      var init := words[..|words| - 1];
      var before := AnswersMarked(rows, init);
      AnswersMarkedKept(rows, init, before);
      KeptStep(rows, words, init, before, r);
      AnswerRowsStep(rows, before, r, words[|init|]);
    }
  }

  /** The rows updateScannedWords adds: each holds one of the words, none
      repeats an earlier non-empty word, and one holds the empty word per
      empty word passed. */
  lemma {:induction false} AnswersMarkedNew(rows: seq<Row>, words: seq<string>, r: seq<Row>)
    requires r == AnswersMarked(rows, words)
    ensures |rows| <= |r| && AddedRowsNew(rows, r)
    ensures forall i :: |rows| <= i < |r| ==> r[i].word in words
    ensures EmptyRows(r) == EmptyRows(rows) + EmptyWords(words)
    decreases |words|
  {
    if words != [] {
      var init := words[..|words| - 1];
      var before := AnswersMarked(rows, init);
      AnswersMarkedNew(rows, init, before);
      NewRowsStep(rows, words, init, before, r);
      EmptyRowsStep(rows, words, init, before, r);
    }
  }

  /** Every word passed to updateDatabase is an answer afterwards, on
      every row holding it unless it is the empty word. */
  lemma {:induction false} AnswersMarkedFlagged(rows: seq<Row>, words: seq<string>)
    ensures var r := AnswersMarked(rows, words);
      (forall k :: 0 <= k < |words| ==> IsAnswer(r, words[k])) &&
      (forall i :: 0 <= i < |r| && r[i].word in words && r[i].word != "" ==>
        r[i].wordleWordList && r[i].wordleGuessList)
    decreases |words|
  {
    if words != [] {
      var n := |words| - 1;
      var init := words[..n];
      var word := words[n];
      var before := AnswersMarked(rows, init);
      var r := AnswersMarked(rows, words);
      AnswersMarkedFlagged(rows, init);
      assert words == init + [word];
      forall k | 0 <= k < |words|
        ensures IsAnswer(r, words[k])
      {
        if k < n {
          assert words[k] == init[k];
          GrowsKeepsAnswer(before, r, words[k]);
        }
      }
      forall i | 0 <= i < |r| && r[i].word in words && r[i].word != ""
        ensures r[i].wordleWordList && r[i].wordleGuessList
      {
        if i < |before| && r[i].word != word {
          assert before[i].word == r[i].word;
        }
      }
    }
  }

  /** What updateMoreScannedWords promises once it has passed the given
      words to updateMoreDatabase, taking rows to r: the table grows as
      AddedFrom says, no answer flag changes, and the rows added are
      guesses only; every word is an allowed guess, and every row holding
      one of them (other than the empty word) has its guess flag. */
  ghost predicate GuessesRead(rows: seq<Row>, words: seq<string>, r: seq<Row>) {
    AddedFrom(rows, words, r) &&
    GuessRowsAdded(rows, r) &&
    (forall k :: 0 <= k < |words| ==> IsGuess(r, words[k])) &&
    (forall i :: 0 <= i < |r| && r[i].word in words && r[i].word != "" ==> r[i].wordleGuessList)
  }

  /** The table after updateMoreScannedWords has read a word file: one
      updateMoreDatabase per word, in order; the words are the file's
      lines, upper-cased (UpperLines). */
  function GuessesMarked(rows: seq<Row>, words: seq<string>): (r: seq<Row>)
    ensures AnswersAreGuesses(rows) ==> AnswersAreGuesses(r)
    decreases |words|
  {
    if words == [] then rows
    else GuessMarked(GuessesMarked(rows, words[..|words| - 1]), words[|words| - 1])
  }

  /** GuessesMarked keeps the promises of GuessesRead. */
  lemma GuessesMarkedRead(rows: seq<Row>, words: seq<string>)
    ensures GuessesRead(rows, words, GuessesMarked(rows, words))
  {
    GuessesMarkedKept(rows, words, GuessesMarked(rows, words));
    GuessesMarkedNew(rows, words, GuessesMarked(rows, words));
    GuessesMarkedFlagged(rows, words);
  }

  /** What updateMoreScannedWords leaves alone: the table only grows, and the
      rows of words not passed, and the rows holding the empty word, are
      unchanged. */
  lemma {:induction false} GuessesMarkedKept(rows: seq<Row>, words: seq<string>, r: seq<Row>)
    requires r == GuessesMarked(rows, words)
    ensures Grows(rows, r) && GuessRowsAdded(rows, r)
    ensures forall i :: 0 <= i < |rows| && (rows[i].word !in words || rows[i].word == "") ==> r[i] == rows[i]
    decreases |words|
  {
    if words != [] {
      var init := words[..|words| - 1];
      var before := GuessesMarked(rows, init);
      GuessesMarkedKept(rows, init, before);
      KeptStep(rows, words, init, before, r);
      GuessRowsStep(rows, before, r, words[|init|]);
    }
  }

  /** The rows updateMoreScannedWords adds: each holds one of the words, none
      repeats an earlier non-empty word, and one holds the empty word per
      empty word passed. */
  lemma {:induction false} GuessesMarkedNew(rows: seq<Row>, words: seq<string>, r: seq<Row>)
    requires r == GuessesMarked(rows, words)
    ensures |rows| <= |r| && AddedRowsNew(rows, r)
    ensures forall i :: |rows| <= i < |r| ==> r[i].word in words
    ensures EmptyRows(r) == EmptyRows(rows) + EmptyWords(words)
    decreases |words|
  {
    if words != [] {
      var init := words[..|words| - 1];
      var before := GuessesMarked(rows, init);
      GuessesMarkedNew(rows, init, before);
      NewRowsStep(rows, words, init, before, r);
      EmptyRowsStep(rows, words, init, before, r);
    }
  }

  /** Every word passed to updateMoreDatabase is a guess afterwards, on
      every row holding it unless it is the empty word. */
  lemma {:induction false} GuessesMarkedFlagged(rows: seq<Row>, words: seq<string>)
    ensures var r := GuessesMarked(rows, words);
      (forall k :: 0 <= k < |words| ==> IsGuess(r, words[k])) &&
      (forall i :: 0 <= i < |r| && r[i].word in words && r[i].word != "" ==> r[i].wordleGuessList)
    decreases |words|
  {
    if words != [] {
      var n := |words| - 1;
      var init := words[..n];
      var word := words[n];
      var before := GuessesMarked(rows, init);
      var r := GuessesMarked(rows, words);
      GuessesMarkedFlagged(rows, init);
      assert words == init + [word];
      forall k | 0 <= k < |words|
        ensures IsGuess(r, words[k])
      {
        if k < n {
          assert words[k] == init[k];
          var i :| 0 <= i < |before| && before[i].word == init[k] && before[i].wordleGuessList;
          assert r[i].word == words[k] && r[i].wordleGuessList;
        } else if WordExists(before, word) {
          var i :| 0 <= i < |before| && before[i].word == word;
          assert r[i].word == word && r[i].wordleGuessList;
        } else {
          assert r[|before|].word == word && r[|before|].wordleGuessList;
        }
      }
      forall i | 0 <= i < |r| && r[i].word in words && r[i].word != ""
        ensures r[i].wordleGuessList
      {
        if i < |before| && r[i].word != word {
          assert before[i].word == r[i].word;
        }
      }
    }
  }

  /** Passing one more word to updateDatabase or updateMoreDatabase adds
      at most one row, for that word, and only when wordExists does not
      find it; so the added rows stay new. */
  lemma NewRowsStep(rows: seq<Row>, words: seq<string>, init: seq<string>, before: seq<Row>, r: seq<Row>)
    requires words != [] && init == words[..|words| - 1]
    requires |rows| <= |before| && Grows(before, r)
    requires |r| == if WordExists(before, words[|init|]) then |before| else |before| + 1
    requires forall i :: |before| <= i < |r| ==> r[i].word == words[|init|]
    requires forall i :: |rows| <= i < |before| ==> before[i].word in init
    requires AddedRowsNew(rows, before)
    ensures forall i :: |rows| <= i < |r| ==> r[i].word in words
    ensures AddedRowsNew(rows, r)
  {
    var word := words[|init|];
    assert words == init + [word];
    forall i, j | |rows| <= i < |r| && 0 <= j < i && r[i].word != ""
      ensures r[j].word != r[i].word
    {
      if i < |before| {
        assert r[i].word == before[i].word && r[j].word == before[j].word;
      } else {
        assert r[j].word == before[j].word;
      }
    }
  }

  /** The table main builds when words.db is missing: the Linux list, then
      the answers, then the allowed guesses. It keeps every answer a guess,
      and every line of the answer list is an answer. */
  lemma BuiltTable(linuxLines: seq<string>, answerLines: seq<string>, guessLines: seq<string>)
    ensures var built := GuessesMarked(AnswersMarked(LinuxWordsAdded([], linuxLines), UpperLines(answerLines)),
                                       UpperLines(guessLines));
      AnswersAreGuesses(built) &&
      forall k :: 0 <= k < |answerLines| ==> IsAnswer(built, ToUpper(answerLines[k]))
  {
    var linux := LinuxWordsAdded([], linuxLines);
    var answers := AnswersMarked(linux, UpperLines(answerLines));
    var built := GuessesMarked(answers, UpperLines(guessLines));
    AnswersMarkedRead(linux, UpperLines(answerLines));
    GuessesMarkedRead(answers, UpperLines(guessLines));
    forall k | 0 <= k < |answerLines|
      ensures IsAnswer(built, ToUpper(answerLines[k]))
    {
      assert IsAnswer(answers, UpperLines(answerLines)[k]);
      GrowsKeepsAnswer(answers, built, ToUpper(answerLines[k]));
    }
  }

  /** The table, updated in place by the loaders. */
  class Table {
    var rows: seq<Row>

    ghost predicate Valid()
      reads this
    {
      AnswersAreGuesses(rows)
    }

    /** createTable: the table starts empty. */
    constructor ()
      ensures rows == [] && Valid()
    {
      rows := [];
    }

    method AddToDatabase(word: string)
      requires Valid()
      modifies this
      ensures Valid() && rows == Added(old(rows), word)
    {
      if !WordExists(rows, word) {
        rows := rows + [DefaultRow(word)];
      }
    }

    method UpdateDatabase(word: string)
      requires Valid()
      modifies this
      ensures Valid() && rows == AnswerMarked(old(rows), word)
    {
      if !WordExists(rows, word) {
        rows := rows + [Row(word, false, true, true)];
      } else {
        rows := SetFlags(rows, word, true);
      }
    }

    method UpdateMoreDatabase(word: string)
      requires Valid()
      modifies this
      ensures Valid() && rows == GuessMarked(old(rows), word)
    {
      if !WordExists(rows, word) {
        rows := rows + [Row(word, false, false, true)];
      } else {
        rows := SetFlags(rows, word, false);
      }
    }

    /** addScannedWords: each five-character line is upper-cased and, when
        it is then made of capitals only, added. */
    method AddScannedWords(lines: seq<string>)
      requires Valid()
      modifies this
      ensures Valid() && rows == LinuxWordsAdded(old(rows), lines)
    {
      for k := 0 to |lines|
        invariant Valid() && rows == LinuxWordsAdded(old(rows), lines[..k])
      {
        assert lines[..k + 1][..k] == lines[..k];
        var word := lines[k];
        if |word| == WORD_LENGTH {
          word := ToUpper(word);
          if OnlyCapitalLetters(word) {
            AddToDatabase(word);
          }
        }
      }
      assert lines[..|lines|] == lines;
    }

    /** updateScannedWords: each line is upper-cased and marked an answer. */
    method UpdateScannedWords(lines: seq<string>)
      requires Valid()
      modifies this
      ensures Valid() && rows == AnswersMarked(old(rows), UpperLines(lines))
    {
      for k := 0 to |lines|
        invariant Valid() && rows == AnswersMarked(old(rows), UpperLines(lines[..k]))
      {
        UpperLinesStep(lines, k);
        var wordleWord := ToUpper(lines[k]);
        UpdateDatabase(wordleWord);
        assert (UpperLines(lines[..k]) + [wordleWord])[..k] == UpperLines(lines[..k]);
      }
      assert lines[..|lines|] == lines;
    }

    /** updateMoreScannedWords: each line is upper-cased and marked a guess. */
    method UpdateMoreScannedWords(lines: seq<string>)
      requires Valid()
      modifies this
      ensures Valid() && rows == GuessesMarked(old(rows), UpperLines(lines))
    {
      for k := 0 to |lines|
        invariant Valid() && rows == GuessesMarked(old(rows), UpperLines(lines[..k]))
      {
        UpperLinesStep(lines, k);
        var wordleWord := ToUpper(lines[k]);
        UpdateMoreDatabase(wordleWord);
        assert (UpperLines(lines[..k]) + [wordleWord])[..k] == UpperLines(lines[..k]);
      }
      assert lines[..|lines|] == lines;
    }
  }
}
