/**
 * The counters built on CleanText: words, sentences, letters, and words of
 * three or more syllables. A null text is None; every counter cleans a
 * non-empty text first and leaves an empty one as it is.
 */
module Metrics {
  import opened Strings
  import opened Patterns
  import opened Normalizer
  import Syllables

  /** The text the counters work on: `!string.IsNullOrEmpty(text) ? CleanText(text) : text`. */
  function Prepared(text: string): (p: string)
    ensures text != [] ==> IsCleaned(p)
    ensures text == [] ==> p == []
  {
    if text == [] then [] else CleanShape(text); Clean(text)
  }

  method PrepareText(text: string) returns (p: string)
    ensures p == Prepared(text)
  {
    p := text;
    if text != [] {
      p := CleanText(text);
    }
  }

  // ---------------------------------------------------------------------
  // WordCount
  // ---------------------------------------------------------------------

  /** The number of pieces Regex.Split(text, @"\s+") yields on the prepared text. */
  function WordCount(text: Option<string>): (n: nat)
    ensures n == 0 <==> text.None?
    ensures text == Some([]) ==> n == 1
    ensures text.Some? && text.value != [] ==> n == RunCount(Clean(text.value), WhiteSpace) + 1
  {
    match text
    case None => 0
    case Some(t) => |Split(Prepared(t), WhiteSpace)|
  }

  /**
   * A cleaned text neither starts nor ends with whitespace, so every piece
   * of the split is a non-empty word: the count is the number of words.
   */
  lemma WordCountCountsWords(t: string)
    requires t != []
    ensures WordCount(Some(t)) == NonEmptyCount(Split(Clean(t), WhiteSpace))
    ensures forall i :: 0 <= i < |Split(Clean(t), WhiteSpace)| ==> Split(Clean(t), WhiteSpace)[i] != []
  {
    var p := Clean(t);
    assert IsCleaned(p) by {
      CleanShape(t);
    }
    SplitWithoutEmptyPieces(p, WhiteSpace);
    NonEmptyCountAll(Split(p, WhiteSpace));
  }

  lemma {:induction false} NonEmptyCountAll(parts: seq<string>)
    requires forall i :: 0 <= i < |parts| ==> parts[i] != []
    ensures NonEmptyCount(parts) == |parts|
    decreases |parts|
  {
    if parts != [] {
      NonEmptyCountAll(parts[1..]);
    }
  }

  // ---------------------------------------------------------------------
  // SentenceCount
  // ---------------------------------------------------------------------

  /** The number of '.', '!' and '?' characters in s. */
  function Terminators(s: string): nat {
    if s == [] then 0 else (if In(Terminator, s[0]) then 1 else 0) + Terminators(s[1..])
  }

  /** Deleting every non-terminator leaves exactly the terminators. */
  lemma {:induction false} KeptTerminators(s: string)
    ensures |Without(s, NonTerminator)| == Terminators(s)
    decreases |s|
  {
    if s != [] {
      KeptTerminators(s[1..]);
    }
  }

  /** Math.Max(1, n). */
  function AtLeastOne(n: nat): (r: nat)
    ensures r >= 1 && r >= n && (r == 1 || r == n)
  {
    if n > 1 then n else 1
  }

  method SentenceCount(text: Option<string>) returns (n: nat)
    ensures text.None? ==> n == 0
    ensures text.Some? ==> n == AtLeastOne(Terminators(Prepared(text.value)))
  {
    if text.None? {
      return 0;
    }
    var t := PrepareText(text.value);
    var p := t;
    t := RewriteMatches(t, Class(NonTerminator), "");
    assert |t| == Terminators(p) by {
      RewriteClassDeletes(p, NonTerminator);
      KeptTerminators(p);
    }
    n := AtLeastOne(|t|);
  }

  /** A text whose last character is '.' holds at least one terminator. */
  lemma {:induction false} StopIsTerminator(s: string)
    requires LastIsStop(s)
    ensures Terminators(s) >= 1
    decreases |s|
  {
    if |s| > 1 {
      assert s[1..][|s| - 2] == s[|s| - 1];
      StopIsTerminator(s[1..]);
    }
  }

  /**
   * For a non-empty text the floor of 1 never applies: the cleaned text
   * ends with '.', so the count is its number of terminators, and that is
   * at least one.
   */
  lemma SentencesOfCleanText(t: string)
    requires t != []
    ensures AtLeastOne(Terminators(Prepared(t))) == Terminators(Clean(t)) >= 1
  {
    StopIsTerminator(Prepared(t));
  }

  // ---------------------------------------------------------------------
  // LetterCount
  // ---------------------------------------------------------------------

  /** What the letter count measures: the text with each run of non-letters deleted value by value. */
  function LetterText(text: string): string {
    Rewrite(Prepared(text), Plus(NonLetter), "")
  }

  method LetterCount(text: Option<string>) returns (n: nat)
    ensures text.None? ==> n == 0
    ensures text.Some? ==> n == |LetterText(text.value)|
  {
    if text.None? {
      return 0;
    }
    var t := PrepareText(text.value);
    t := RewriteMatches(t, Plus(NonLetter), "");
    n := |t|;
  }

  /** The number of ASCII letters in s. */
  function Letters(s: string): nat {
    |Without(s, NonLetter)|
  }

  /**
   * Every letter of the prepared text survives, in order, and nothing is
   * added: the count lies between the number of letters and the length.
   */
  lemma LetterCountBounds(text: string)
    ensures Without(LetterText(text), NonLetter) == Without(Prepared(text), NonLetter)
    ensures Letters(Prepared(text)) <= |LetterText(text)| <= |Prepared(text)|
  {
    RewriteRunsKeepsOthers(Prepared(text), NonLetter);
  }

  /** Words of ASCII letters only. */
  predicate LettersOnly(s: string) {
    s != [] && forall i :: 0 <= i < |s| ==> IsAsciiLetter(s[i])
  }

  lemma ApostropheRuns(x: string, y: string, z: string)
    requires LettersOnly(x) && LettersOnly(y) && LettersOnly(z)
    ensures Matches(Plus(NonLetter), x + (" " + (y + ("' " + z)))) == [" ", "' "]
  {
    var t := "' " + z;
    assert Matches(Plus(NonLetter), t) == ["' "] by {
      PlusSkips(z, "", NonLetter);
      assert z + "" == z;
      PlusTakesRun("' ", z, NonLetter);
    }
    assert Matches(Plus(NonLetter), " " + (y + t)) == [" ", "' "] by {
      PlusSkips(y, t, NonLetter);
      PlusTakesRun(" ", y + t, NonLetter);
    }
    PlusSkips(x, " " + (y + t), NonLetter);
  }

  lemma SpacesDeleted(x: string, y: string, z: string)
    requires LettersOnly(x) && LettersOnly(y) && LettersOnly(z)
    ensures ReplaceAll(x + (" " + (y + ("' " + z))), " ", "") == x + y + "'" + z
  {
    var u := y + "'";
    var t := y + ("' " + z);
    assert ReplaceAll(x + (" " + t), " ", "") == x + ReplaceAll(t, " ", "") by {
      assert Spaceless(x);
      ReplaceBehindSpaceless(x, " ", "", t);
      assert x + "" == x;
    }
    assert ReplaceAll(t, " ", "") == u + z by {
      assert Spaceless(u) && Spaceless(z);
      assert t == u + (" " + z);
      ReplaceBehindSpaceless(u, " ", "", z);
      SpacelessUnchanged(z, " ", "");
      assert u + "" == u;
    }
    assert x + (u + z) == x + y + "'" + z;
  }

  /**
   * The count can exceed the letters: in "a b' c" the non-letter runs are
   * " " and "' "; deleting the value " " first also takes the space out of
   * "' ", which then no longer occurs, so the apostrophe is counted.
   */
  lemma ApostropheCounted(x: string, y: string, z: string)
    requires LettersOnly(x) && LettersOnly(y) && LettersOnly(z)
    ensures Rewrite(x + " " + y + "' " + z, Plus(NonLetter), "") == x + y + "'" + z
  {
    var s := x + (" " + (y + ("' " + z)));
    assert x + " " + y + "' " + z == s;
    var ms := Matches(Plus(NonLetter), s);
    ApostropheRuns(x, y, z);
    assert ReplaceEach(s, ms[..1], "") == ReplaceAll(s, " ", "") by {
      assert ms[..1] == [" "] && ms[..1][..0] == [];
    }
    SpacesDeleted(x, y, z);
    assert Spaceless(x + y + "'" + z);
    SpacelessUnchanged(x + y + "'" + z, "' ", "");
  }

  // ---------------------------------------------------------------------
  // HasUpperCase
  // ---------------------------------------------------------------------

  /**
   * The flag is set by the first character only, because the loop breaks
   * unconditionally after it; an empty string gives false.
   */
  method HasUpperCase(str: string) returns (b: bool)
    ensures b <==> |str| > 0 && IsAsciiUpper(str[0])
  {
    var any := false;
    for i := 0 to |str|
      invariant !any
    {
      if IsAsciiUpper(str[i]) {
        any := true;
      }
      break;
    }
    b := str != [] && any;
  }

  // ---------------------------------------------------------------------
  // WordsWithThreeSyllables
  // ---------------------------------------------------------------------

  /** The loop's state after some iterations: the indices counted, and whether an exception ended it. */
  datatype Tally = Tally(counted: set<nat>, stopped: bool)

  /**
   * text.Substring(text.IndexOf(word), 1), or None where Substring throws:
   * the word is absent (index -1) or found at the very end (only the empty
   * word can be). A non-empty word that occurs gives its own first
   * character, because the search is ordinal.
   */
  function FirstLetter(text: string, word: string): (r: Option<string>)
    ensures r.Some? ==> |r.value| == 1
    ensures r.None? <==> IndexOf(text, word) < 0 || IndexOf(text, word) >= |text|
    ensures |word| > 0 && IndexOf(text, word) >= 0 ==> r == Some(word[..1])
  {
    var k := IndexOf(text, word);
    if k < 0 || k + 1 > |text| then None
    else
      assert |word| > 0 ==> text[k..k + 1] == word[..1] by {
        if |word| > 0 {
          assert word <= text[k..];
          assert text[k] == text[k..][0] == word[0];
        }
      }
      Some(text[k..k + 1])
  }

  /** FirstLetter in terms of the index IndexOf returned. */
  lemma FirstLetterAt(text: string, word: string, k: int)
    requires k == IndexOf(text, word)
    ensures FirstLetter(text, word) == if k < 0 || k + 1 > |text| then None else Some(text[k..k + 1])
  {
  }

  /** For each word, whether SyllableCount gives more than two syllables. */
  function LongFlags(words: seq<string>): (flags: seq<bool>)
    ensures |flags| == |words|
  {
    if words == [] then [] else [Syllables.Syllables(words[0]) > 2] + LongFlags(words[1..])
  }

  lemma {:induction false} LongFlagsMeaning(words: seq<string>, i: nat)
    requires i < |words|
    ensures LongFlags(words)[i] == (Syllables.Syllables(words[i]) > 2)
    decreases i
  {
    if i > 0 {
      LongFlagsMeaning(words[1..], i - 1);
    }
  }

  /**
   * One iteration of the loop, at index i, from the tally t. Reading past
   * the last word throws IndexOutOfRangeException and a failed Substring
   * throws ArgumentOutOfRangeException; both are caught, and the count
   * reached so far is returned.
   */
  function Step(text: string, words: seq<string>, long: seq<bool>, t: Tally, i: nat, countProperNouns: bool): Tally
    requires |long| == |words|
  {
    if t.stopped then t
    else if i >= |words| then Tally(t.counted, true)
    else if !long[i] then t
    else if countProperNouns then Tally(t.counted + {i}, false)
    else match FirstLetter(text, words[i])
      case None => Tally(t.counted, true)
      case Some(f) => if IsAsciiUpper(f[0]) then t else Tally(t.counted + {i}, false)
  }

  /** The first n iterations of the loop over the words of the prepared text, given which words are long. */
  function LongWordsUpTo(text: string, words: seq<string>, long: seq<bool>, n: nat, countProperNouns: bool): (t: Tally)
    requires |long| == |words|
    ensures forall i :: i in t.counted ==> i < n && i < |words|
    ensures |t.counted| <= n && |t.counted| <= |words|
    ensures countProperNouns && n <= |words| ==> !t.stopped
  {
    if n == 0 then Tally({}, false)
    else Step(text, words, long, LongWordsUpTo(text, words, long, n - 1, countProperNouns), n - 1, countProperNouns)
  }

  /** WordsWithThreeSyllables: the loop runs WordCount(text) times over the pieces of the split. */
  function LongWords(text: Option<string>, countProperNouns: bool): nat {
    match text
    case None => 0
    case Some(t) =>
      var p := Prepared(t);
      var words := Split(p, WhiteSpace);
      |LongWordsUpTo(p, words, LongFlags(words), WordCount(Some(p)), countProperNouns).counted|
  }

  /** Once an exception has ended the loop, later iterations change nothing. */
  lemma {:induction false} StoppedStays(text: string, words: seq<string>, long: seq<bool>, m: nat, n: nat, countProperNouns: bool)
    requires |long| == |words|
    requires m <= n && LongWordsUpTo(text, words, long, m, countProperNouns).stopped
    ensures LongWordsUpTo(text, words, long, n, countProperNouns) == LongWordsUpTo(text, words, long, m, countProperNouns)
    decreases n
  {
    if m < n {
      StoppedStays(text, words, long, m, n - 1, countProperNouns);
    }
  }

  /** SyllableCount(words[i]) > 2 */
  method IsLongWord(words: seq<string>, i: nat) returns (long: bool)
    requires i < |words|
    ensures long == LongFlags(words)[i]
  {
    var syllableCount := Syllables.SyllableCount(words[i]);
    long := syllableCount > 2;
    LongFlagsMeaning(words, i);
  }

  method WordsWithThreeSyllables(text: Option<string>, countProperNouns: bool) returns (longWordCount: nat)
    ensures longWordCount == LongWords(text, countProperNouns)
  {
    longWordCount := 0;
    if text.None? {
      return;
    }
    var p := PrepareText(text.value);
    var wordCount := WordCount(Some(p));
    var words := Split(p, WhiteSpace);
    longWordCount := CountLongWords(p, words, wordCount, countProperNouns);
  }

  /** The try block: the loop over the first wordCount words, ended early by a caught exception. */
  method CountLongWords(p: string, words: seq<string>, wordCount: nat, countProperNouns: bool)
    returns (longWordCount: nat)
    ensures longWordCount == |LongWordsUpTo(p, words, LongFlags(words), wordCount, countProperNouns).counted|
  {
    ghost var flags := LongFlags(words);
    longWordCount := 0;
    for i := 0 to wordCount
      invariant !LongWordsUpTo(p, words, flags, i, countProperNouns).stopped
      invariant longWordCount == |LongWordsUpTo(p, words, flags, i, countProperNouns).counted|
    {
      if i >= |words| {
        StepStops(p, words, flags, i, wordCount, countProperNouns);
        break;
      }
      var long := IsLongWord(words, i);
      if !long {
        StepKeeps(p, words, flags, i, countProperNouns);
      } else if countProperNouns {
        StepCounts(p, words, flags, i, countProperNouns);
        longWordCount := longWordCount + 1;
      } else {
        var k := IndexOf(p, words[i]);
        FirstLetterAt(p, words[i], k);
        if k < 0 || k + 1 > |p| {
          StepStops(p, words, flags, i, wordCount, countProperNouns);
          break;
        }
        var upper := HasUpperCase(p[k..k + 1]);
        if !upper {
          StepCounts(p, words, flags, i, countProperNouns);
          longWordCount := longWordCount + 1;
        } else {
          StepKeeps(p, words, flags, i, countProperNouns);
        }
      }
    }
  }

  /** An iteration that throws: the tally after the whole loop is the one before it. */
  lemma StepStops(text: string, words: seq<string>, long: seq<bool>, i: nat, n: nat, countProperNouns: bool)
    requires |long| == |words| && i < n
    requires !LongWordsUpTo(text, words, long, i, countProperNouns).stopped
    requires i >= |words| || (long[i] && !countProperNouns && FirstLetter(text, words[i]).None?)
    ensures LongWordsUpTo(text, words, long, n, countProperNouns).counted == LongWordsUpTo(text, words, long, i, countProperNouns).counted
  {
    StoppedStays(text, words, long, i + 1, n, countProperNouns);
  }

  /** An iteration that skips the word: a short word, or a capitalised one with the filter on. */
  lemma StepKeeps(text: string, words: seq<string>, long: seq<bool>, i: nat, countProperNouns: bool)
    requires |long| == |words| && i < |words|
    requires !LongWordsUpTo(text, words, long, i, countProperNouns).stopped
    requires !long[i] || (!countProperNouns && FirstLetter(text, words[i]).Some? && IsAsciiUpper(FirstLetter(text, words[i]).value[0]))
    ensures LongWordsUpTo(text, words, long, i + 1, countProperNouns) == LongWordsUpTo(text, words, long, i, countProperNouns)
  {
  }

  /** An iteration that counts the word. */
  lemma StepCounts(text: string, words: seq<string>, long: seq<bool>, i: nat, countProperNouns: bool)
    requires |long| == |words| && i < |words| && long[i]
    requires !LongWordsUpTo(text, words, long, i, countProperNouns).stopped
    requires countProperNouns || (FirstLetter(text, words[i]).Some? && !IsAsciiUpper(FirstLetter(text, words[i]).value[0]))
    ensures !LongWordsUpTo(text, words, long, i + 1, countProperNouns).stopped
    ensures |LongWordsUpTo(text, words, long, i + 1, countProperNouns).counted| == |LongWordsUpTo(text, words, long, i, countProperNouns).counted| + 1
  {
    var before := LongWordsUpTo(text, words, long, i, countProperNouns);
    assert i !in before.counted;
  }

  /** The count never exceeds the number of words. */
  lemma LongWordsBound(text: Option<string>, countProperNouns: bool)
    ensures LongWords(text, countProperNouns) <= WordCount(text)
  {
  }

  /** A long word counted with the proper-noun filter on is counted with it off. */
  lemma {:induction false} ProperNounFilterSubset(text: string, words: seq<string>, long: seq<bool>, n: nat)
    requires |long| == |words|
    ensures LongWordsUpTo(text, words, long, n, false).counted <= LongWordsUpTo(text, words, long, n, true).counted
    decreases n
  {
    if n > 0 {
      ProperNounFilterSubset(text, words, long, n - 1);
    }
  }

  /** Turning the proper-noun filter on never raises the count. */
  lemma ProperNounFilterCountsFewer(text: Option<string>)
    ensures LongWords(text, false) <= LongWords(text, true)
  {
    if text.Some? {
      var p := Prepared(text.value);
      var words := Split(p, WhiteSpace);
      var flags := LongFlags(words);
      var n := WordCount(Some(p));
      ProperNounFilterSubset(p, words, flags, n);
      SubsetCardinality(LongWordsUpTo(p, words, flags, n, false).counted,
                        LongWordsUpTo(p, words, flags, n, true).counted);
    }
  }

  lemma SubsetCardinality(a: set<nat>, b: set<nat>)
    requires a <= b
    ensures |a| <= |b|
  {
    assert b == a + (b - a);
  }
}
