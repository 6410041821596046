/** The input checks of the game: the capital-letter test, membership in a
    word list, and the (ASCII) upper-casing applied to a raw guess. */
module Validation {

  /** Length of every word of the game. */
  const WORD_LENGTH: nat := 5

  predicate IsCapital(c: char) {
    'A' <= c <= 'Z'
  }

  predicate IsAsciiLetter(c: char) {
    'A' <= c <= 'Z' || 'a' <= c <= 'z'
  }

  /** onlyCapitalLetters: walks the string and gives up at the first
      character outside 'A'..'Z'. */
  function OnlyCapitalLetters(s: string): (r: bool)
    ensures r <==> forall i :: 0 <= i < |s| ==> IsCapital(s[i])
  {
    if s == [] then true
    else if s[0] < 'A' || s[0] > 'Z' then false
    else OnlyCapitalLetters(s[1..])
  }

  /** stringInSlice: linear search that stops at the first equal element. */
  function StringInSlice(a: string, list: seq<string>): (r: bool)
    ensures r <==> a in list
  {
    if list == [] then false
    else if list[0] == a then true
    else StringInSlice(a, list[1..])
  }

  /** strings.ToUpper restricted to ASCII: 'a'..'z' become 'A'..'Z', every
      other character is kept. */
  function UpperChar(c: char): (u: char)
    ensures IsCapital(u) <==> IsAsciiLetter(c)
    ensures IsCapital(c) ==> u == c
  {
    if 'a' <= c <= 'z' then (c as int - 32) as char else c
  }

  function ToUpper(s: string): (r: string)
    ensures |r| == |s|
  {
    seq(|s|, i requires 0 <= i < |s| => UpperChar(s[i]))
  }

  /** After upper-casing, the capital-letter test accepts exactly the strings
      made of ASCII letters of either case. */
  lemma UpperCaseCheck(s: string)
    ensures OnlyCapitalLetters(ToUpper(s)) <==> forall i :: 0 <= i < |s| ==> IsAsciiLetter(s[i])
  {
    var u := ToUpper(s);
    assert forall i :: 0 <= i < |s| ==> u[i] == UpperChar(s[i]);
  }

  /** Upper-casing leaves a word of capitals as it is. */
  lemma UpperCaseKeepsCapitals(s: string)
    requires OnlyCapitalLetters(s)
    ensures ToUpper(s) == s
  {
  }
}
