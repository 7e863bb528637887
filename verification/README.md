# Escc.TextStatistics — a Dafny model of the text counters

`TextStatistics` measures English prose for readability scores. This project
models its counting core: the text clean-up pipeline (`CleanText`), the
per-word syllable estimate (`SyllableCount`), the counters built on the
cleaned text (`WordCount`, `SentenceCount`, `LetterCount`,
`WordsWithThreeSyllables`, `HasUpperCase`) and the verbal description of a
reading-ease score (`TranslateReadingEase`).

The source works by rewriting strings with regular expressions. Every pattern
it uses is hand-coded here (module `Patterns` for the clean-up and counter
patterns, module `Syllables` for the syllable tables), and the recurring idiom

    foreach (Match m in Regex.Matches(text, p)) text = text.Replace(m.Value, r);

is modelled exactly as written: the match values are collected once, from the
text before the loop, and each value is then replaced everywhere in the
current text with an ordinal replace-all (`Patterns.Rewrite`, run by the loop
in `Patterns.RewriteMatches`). Dictionaries of patterns are ordered sequences
of pairs, walked in insertion order. A `null` string is `None` of
`Strings.Option<string>`.

Modules, in dependency order:

- `Strings` (strings.dfy): `char.IsWhiteSpace`, ASCII letter tests,
  `ToLower`, `Trim`/`TrimStart`/`TrimEnd`, ordinal `string.Replace`
  (`ReplaceAll`) and `IndexOf`.
- `Patterns` (patterns.dfy): the character classes and regexes of the
  pipeline, `Regex.Matches`, the rewrite idiom and `Regex.Split`.
- `Syllables` (syllables.dfy): the syllable tables and `SyllableCount`.
- `Normalizer` (cleantext.dfy): `CleanText`, and `CloseAll`, a one-scan
  reference definition of its closing-tag step.
- `Metrics` (metrics.dfy): the counters.
- `ReadingEase` (readingease.dfy): `TranslateReadingEase`.
- `SyllableChecks` (syllablechecks.dfy): a character-by-character test of
  the syllable patterns, proved to agree with `Regex.IsMatch`, and the count
  of "sced" worked out with it.

Each method that loops in the source is a Dafny `method` with the same loop,
proved equal to a specification function (`Syllables.Syllables`,
`Normalizer.Clean`, `Metrics.LongWords`, …). The properties are proved about
those functions. `TextStatistics` has no fields, so there is no class.

Where the code does something other than its comments and names suggest, the
model follows the code:

- `SyllableCount` turns only a count of exactly 0 into 1. A negative count is
  returned as it is ("sced" has one vowel group and matches two subtracting
  patterns, giving -1). So the result is "never 0", not "at least 1".
- The punctuation class `[",:;()-]` also contains the double quote.
- `WordsWithThreeSyllables` cleans the text and then calls `WordCount` on the
  cleaned text, which cleans it a second time. The number of loop iterations
  is the word count of the twice-cleaned text, while the words are those of
  the once-cleaned text.
- The `[ ]+` collapse of `CleanText` can leave double spaces, because it
  replaces match values, not match positions. In "a  b   c" the two-space
  value is replaced first, inside the three-space run as well, which leaves
  "a b  c" (`Normalizer.SpaceRunSurvives`).
- `LetterCount` can count a non-letter. In "a b' c" the non-letter runs are
  " " and "' ". Deleting " " everywhere first turns "' " into "'", and the
  value "' " no longer occurs, so the apostrophe stays and is counted
  (`Metrics.ApostropheCounted`).
- The `[0-9]+` step, commented as removing text made only of numbers, can
  leave digits of such a word, for the same reason. In "1 12" the value "1"
  is replaced first, inside "12" as well, and the value "12" no longer
  occurs, so "   2" keeps the "2" (`Normalizer.DigitsSurvive`). Cleaning is
  therefore not idempotent: `CleanText("1 12")` is "2.", and cleaning "2."
  again gives "." (`Normalizer.CleanTwiceDiffers`). This matters because
  `WordsWithThreeSyllables` cleans twice.
- The tag pattern `<[^>]+>` needs a closing '>'. A '<' without one, as in
  "a < b", passes the tag step unchanged (`Patterns.UnclosedTagKept`), and
  no later step of `CleanText` removes '<'.

## Model

| member | source | states |
|---|---|---|
| Syllables.SyllableCount | Escc.TextStatistics/TextStatistics.cs:14-133 | the loops of the method compute exactly `Syllables(text)`: non-letters dropped, lower-cased, the exception value or the estimate with 0 turned into 1 |
| Syllables.Syllables | Escc.TextStatistics/TextStatistics.cs:133 | the count of a word is never 0 |
| Syllables.NormalizeWord | Escc.TextStatistics/TextStatistics.cs:18-24 | the looked-up word holds only the lower-case letters a-z and is no longer than the input |
| Syllables.Lookup | Escc.TextStatistics/TextStatistics.cs:29-32 | `ContainsKey` fails exactly when no entry has the key; otherwise the value returned is stored under the key |
| Syllables.ExceptionsWin | Escc.TextStatistics/TextStatistics.cs:29-32 | a word that normalises to an exception gets the exception's count, whatever the rules would give |
| Syllables.ForeverIsThree | Escc.TextStatistics/TextStatistics.cs:18-32 | "Forever!" is counted as 3 syllables, because the exception is looked up after normalisation |
| Syllables.StripAffixes | Escc.TextStatistics/TextStatistics.cs:77-99 | stripping never lengthens the word and adds no character; with anchored patterns the affix count is at most the number of patterns |
| Syllables.RemoveAffixes | Escc.TextStatistics/TextStatistics.cs:88-99 | the prefix/suffix loop leaves the stripped word and the affix count that `StripAffixes` defines |
| Syllables.RemoveMatches | Escc.TextStatistics/TextStatistics.cs:94-98 | the inner loop deletes every occurrence of each match value and counts one per match |
| Syllables.AnchoredMatchesOnce | Escc.TextStatistics/TextStatistics.cs:79-85 | a pattern anchored with `^` or `$` and no empty alternative matches at most once |
| Syllables.AffixBound | Escc.TextStatistics/TextStatistics.cs:77-99 | at most 7 affixes are counted for any word, and the stem is no longer than the input |
| Syllables.PrefixDeletesEverywhere | Escc.TextStatistics/TextStatistics.cs:94-98 | when a literal prefix pattern such as `^un` matches, every occurrence of the prefix in the word is deleted, not only the leading one, and one affix is counted |
| Syllables.SuffixDeletesEverywhere | Escc.TextStatistics/TextStatistics.cs:94-98 | the same for a literal suffix pattern such as `ly$`: every occurrence is deleted and one affix is counted |
| Syllables.SuffixFoundAtEnd | Escc.TextStatistics/TextStatistics.cs:94 | a literal suffix at the end of the word is the first match, found at the end by its only alternative |
| Syllables.IsMatchIff | Escc.TextStatistics/TextStatistics.cs:120 | `IsMatch` holds exactly when some alternative matches at some position, with the anchors respected |
| Syllables.CountWordParts | Escc.TextStatistics/TextStatistics.cs:106-111 | the number of non-empty pieces of `Split(text, "[^aeiouy]+")` is the number of maximal vowel groups |
| Patterns.SplitCountsVowelGroups | Escc.TextStatistics/TextStatistics.cs:106-111 | the non-empty pieces of the split on runs of non-vowels are exactly as many as the maximal groups of vowels |
| Syllables.SubtractMatching | Escc.TextStatistics/TextStatistics.cs:117-122 | the subtraction loop takes one off the start value per matching pattern of the table |
| Syllables.CountMatchingPatterns | Escc.TextStatistics/TextStatistics.cs:123-129 | the addition loop counts the matching patterns of the table |
| Syllables.EstimateStem | Escc.TextStatistics/TextStatistics.cs:102-130 | vowel groups plus affixes, minus subtracting matches, plus adding matches |
| Syllables.SyllablesBounds | Escc.TextStatistics/TextStatistics.cs:102-133 | the count lies between minus the size of the subtracting table and the word length plus the affix and adding tables; it can be negative |
| SyllableChecks.Decides | Escc.TextStatistics/TextStatistics.cs:120-128 | the character-by-character test of a pattern on a word answers exactly as `IsMatch` |
| SyllableChecks.CountByHits | Escc.TextStatistics/TextStatistics.cs:117-129 | when the patterns of a table that match a word are known, the table changes the count by exactly their number |
| SyllableChecks.NoAffixMatches | Escc.TextStatistics/TextStatistics.cs:90-100 | affix patterns that match nowhere leave the word unchanged and add nothing to the count |
| SyllableChecks.PlainWord | Escc.TextStatistics/TextStatistics.cs:18-133 | a normalised word that is no exception and has no affix is counted by its estimate, unchanged when that is not 0 |
| SyllableChecks.ScedSubtractsTwo | Escc.TextStatistics/TextStatistics.cs:117-123 | exactly two subtracting patterns, `[^aeiuoyt]{2,}ed$` and `[cg]h?e[rsd]?$`, match "sced" |
| SyllableChecks.ScedAddsNothing | Escc.TextStatistics/TextStatistics.cs:124-129 | no adding pattern matches "sced" |
| SyllableChecks.ScedKeepsItsAffixes | Escc.TextStatistics/TextStatistics.cs:77-100 | "sced" has no prefix or suffix to strip |
| SyllableChecks.NegativeCountKept | Escc.TextStatistics/TextStatistics.cs:131-133 | the count of "sced" is -1 and is returned as it is: only 0 is turned into 1 |
| Syllables.WeightsIgnored | Escc.TextStatistics/TextStatistics.cs:117-129 | the numbers stored with the patterns are never read: two tables with the same patterns give the same count |
| Patterns.RewriteMatches | Escc.TextStatistics/TextStatistics.cs:184-190 | the loop over the match values computes `Rewrite`: each value collected up front replaced everywhere, in order |
| Patterns.RewriteClassDeletes | Escc.TextStatistics/TextStatistics.cs:18-20 | rewriting each one-character match of a class to "" deletes exactly the characters of that class |
| Patterns.RewriteClassTranslates | Escc.TextStatistics/TextStatistics.cs:184-190 | rewriting each one-character match of a class to one character maps exactly the class to that character |
| Patterns.RewriteRunsKeepsOthers | Escc.TextStatistics/TextStatistics.cs:315-317 | deleting the values of the runs of a class keeps every other character, in order |
| Patterns.SplitWithoutEmptyPieces | Escc.TextStatistics/TextStatistics.cs:160 | a text that neither starts nor ends with a separator splits into non-empty pieces only |
| Normalizer.ReplaceTable | Escc.TextStatistics/TextStatistics.cs:184-190 | the loop over a pattern dictionary applies the rewrite for each entry, in order |
| Normalizer.CleanText | Escc.TextStatistics/TextStatistics.cs:167-231 | the method computes the staged pipeline `Clean`, and the result is non-empty, starts with no whitespace, ends with '.', and has no '!', '?' or blanked punctuation |
| Normalizer.CleanShape | Escc.TextStatistics/TextStatistics.cs:193-231 | every cleaned text, from any input, has that shape |
| Normalizer.PunctuateUnifies | Escc.TextStatistics/TextStatistics.cs:176-190 | after the first dictionary no '!', '?' or punctuation mark is left |
| Normalizer.CollapseKeepsStop | Escc.TextStatistics/TextStatistics.cs:193-209 | the second dictionary keeps the added final '.' last, once trailing whitespace is trimmed |
| Normalizer.TidyKeepsLast | Escc.TextStatistics/TextStatistics.cs:214-228 | the digit and space dictionary keeps a final '.' |
| Normalizer.LaterTablesKeepPlain | Escc.TextStatistics/TextStatistics.cs:195-228 | the later dictionaries bring back no '!', '?' or punctuation |
| Normalizer.TagFreeKept | Escc.TextStatistics/TextStatistics.cs:173-174 | a text without '<' passes the closing-tag replacements unchanged |
| Normalizer.UpperCaseTagsKept | Escc.TextStatistics/TextStatistics.cs:173-174 | the replacement is ordinal: a text with no lower-case letter keeps its closing tags |
| Normalizer.UpperCaseParagraphKept | Escc.TextStatistics/TextStatistics.cs:173-174 | "</P>" is not turned into a full stop |
| Normalizer.ParagraphClosed | Escc.TextStatistics/TextStatistics.cs:173-174 | "</p>" becomes "." |
| Normalizer.CloseTagsInOnePass | Escc.TextStatistics/TextStatistics.cs:170-174 | the nine ordinal replacements, one tag after another, equal one scan from the left that turns each exact lower-case closing tag of the list into "." and copies every other character unchanged |
| Normalizer.ClosedTagsGone | Escc.TextStatistics/TextStatistics.cs:170-174 | no closing tag of the nine block tags is left anywhere in the text after the step |
| Normalizer.MatchedLength | Escc.TextStatistics/TextStatistics.cs:173-174 | the length of a closing tag of the list that starts the text, and 0 exactly when none does |
| Normalizer.SpaceRunSurvives | Escc.TextStatistics/TextStatistics.cs:217-227 | for any words x, y, z without spaces, the `[ ]+` rewrite turns x + "  " + y + "   " + z into x + " " + y + "  " + z: a double space survives |
| Normalizer.DigitsSurvive | Escc.TextStatistics/TextStatistics.cs:216-227 | for a digit d, a non-digit c, a digit run e without d and a tail y without digits, the `[0-9]+` rewrite turns [d] + [c] + [d] + e + y into " " + [c] + " " + e + y: the digits of e survive |
| Normalizer.CleanDigitWords | Escc.TextStatistics/TextStatistics.cs:167-231 | the whole pipeline turns the two digit words [d] + " " + [d] + e ("1 12") into e + "." ("2.") |
| Normalizer.CleanDigitWord | Escc.TextStatistics/TextStatistics.cs:167-231 | the whole pipeline turns a digit run followed by '.' ("2.") into "." |
| Normalizer.CleanTwiceDiffers | Escc.TextStatistics/TextStatistics.cs:236-238 | cleaning a cleaned text can change it again, as `WordsWithThreeSyllables` does: "1 12" cleans to "2." and then to "." |
| Patterns.UnclosedTagKept | Escc.TextStatistics/TextStatistics.cs:178 | a text without '>' has no `<[^>]+>` match and is left unchanged by the tag rewrite |
| Strings.TrimExact | Escc.TextStatistics/TextStatistics.cs:211 | `Trim` of a text that is whitespace outside s[i..j], where s[i..j] has no whitespace at either end, is exactly s[i..j] |
| Strings.ReplaceAll | Escc.TextStatistics/TextStatistics.cs:174 | ordinal `Replace`: the result holds only characters of the text or of the replacement, and is no longer than the text when the replacement is no longer than the pattern |
| Strings.ReplaceFirst | Escc.TextStatistics/TextStatistics.cs:174 | the text before the first occurrence is copied, that occurrence becomes the replacement, and the search resumes after it |
| Strings.ReplaceNone | Escc.TextStatistics/TextStatistics.cs:174 | a text in which the pattern does not occur is unchanged |
| Strings.IndexOf | Escc.TextStatistics/TextStatistics.cs:259 | ordinal `IndexOf`: -1 exactly when the word occurs nowhere, otherwise the first position where it occurs |
| Strings.Trim | Escc.TextStatistics/TextStatistics.cs:193 | `Trim`: the result neither starts nor ends with whitespace, holds only characters of the text, and is empty exactly when the text is all whitespace |
| Patterns.MatchLength | Escc.TextStatistics/TextStatistics.cs:178-180 | a match found at the start of the text has the pattern's shape; a class or run pattern matches exactly when the first character is in the class, and a run stops only at a character outside the class |
| Patterns.Matches | Escc.TextStatistics/TextStatistics.cs:186 | every value `Regex.Matches` yields has the pattern's shape |
| Patterns.PlusSkips | Escc.TextStatistics/TextStatistics.cs:216-217 | characters outside the class of a `[class]+` pattern start no match |
| Patterns.PlusTakesRun | Escc.TextStatistics/TextStatistics.cs:216-217 | a whole run of the class, followed by a character outside it or by the end, is one match |
| Patterns.Split | Escc.TextStatistics/TextStatistics.cs:160 | `Regex.Split` on runs of a class gives one more piece than there are runs, no piece holds a class character, and the first piece is empty exactly when the text is empty or starts with the class |
| Metrics.Prepared | Escc.TextStatistics/TextStatistics.cs:157 | a non-empty text is cleaned and then has the cleaned shape; an empty one is left as it is |
| Metrics.WordCount | Escc.TextStatistics/TextStatistics.cs:155-165 | null gives 0 and only null; "" gives 1; otherwise one more than the number of whitespace runs in the cleaned text |
| Metrics.WordCountCountsWords | Escc.TextStatistics/TextStatistics.cs:155-165 | for a non-empty text every piece of the split is a non-empty word, so the count is the number of words |
| Metrics.SentenceCount | Escc.TextStatistics/TextStatistics.cs:323-335 | null gives 0; otherwise `Max(1, n)` for the number n of '.', '!' and '?' left after cleaning |
| Metrics.KeptTerminators | Escc.TextStatistics/TextStatistics.cs:328-330 | deleting every non-terminator leaves exactly the terminators |
| Metrics.SentencesOfCleanText | Escc.TextStatistics/TextStatistics.cs:323-335 | for a non-empty text the floor of 1 never applies: the count is the number of terminators of the cleaned text, at least one |
| Metrics.LetterCount | Escc.TextStatistics/TextStatistics.cs:309-321 | null gives 0; otherwise the length of the cleaned text after the rewrite of the non-letter runs |
| Metrics.LetterCountBounds | Escc.TextStatistics/TextStatistics.cs:309-321 | every letter survives in order, so the count lies between the number of letters and the cleaned length |
| Metrics.ApostropheCounted | Escc.TextStatistics/TextStatistics.cs:315-317 | for any words x, y, z of letters, the non-letter rewrite turns x + " " + y + "' " + z into x + y + "'" + z: the apostrophe is counted as a letter |
| Metrics.HasUpperCase | Escc.TextStatistics/TextStatistics.cs:286-296 | true exactly when the string is non-empty and its first character is upper case; later characters are never looked at |
| Metrics.FirstLetter | Escc.TextStatistics/TextStatistics.cs:258-259 | `Substring` throws, giving None, exactly when `IndexOf` returns -1 or the text's length; otherwise the result is one character, and for a non-empty word the search finds, it is that word's own first character |
| Metrics.LongWordsUpTo | Escc.TextStatistics/TextStatistics.cs:241-282 | after n iterations the counted indices are below n and below the number of words; with proper nouns counted no exception is raised while n stays within the words |
| Metrics.StoppedStays | Escc.TextStatistics/TextStatistics.cs:271-281 | once an exception has ended the loop the count no longer changes |
| Metrics.IsLongWord | Escc.TextStatistics/TextStatistics.cs:249 | a word is long exactly when its syllable count exceeds 2 |
| Metrics.CountLongWords | Escc.TextStatistics/TextStatistics.cs:241-282 | the try block returns the count reached when the loop ends or an exception is caught |
| Metrics.WordsWithThreeSyllables | Escc.TextStatistics/TextStatistics.cs:234-284 | the method computes `LongWords`: null gives 0; otherwise the long words among the first WordCount pieces, skipping capitalised ones when proper nouns are excluded |
| Metrics.LongWordsBound | Escc.TextStatistics/TextStatistics.cs:234-284 | the count never exceeds the word count |
| Metrics.ProperNounFilterCountsFewer | Escc.TextStatistics/TextStatistics.cs:250-266 | excluding proper nouns never raises the count |
| ReadingEase.TranslateReadingEase | Escc.TextStatistics/TextStatistics.cs:404-438 | a score in a band gets that band's description; the failure message is returned exactly when the score is in no band |
| ReadingEase.DescriptionIsNotSentinel | Escc.TextStatistics/TextStatistics.cs:408-435 | no band description is the failure message |
| ReadingEase.BandsDisjoint | Escc.TextStatistics/TextStatistics.cs:408-430 | each band ends before the next begins, so no score is in two bands |
| ReadingEase.LabelsDistinct | Escc.TextStatistics/TextStatistics.cs:410-430 | the six descriptions are pairwise different |
| ReadingEase.OutOfRangeIsSentinel | Escc.TextStatistics/TextStatistics.cs:432-435 | scores below 0 or above 100 give the failure message |
| ReadingEase.GapIsSentinel | Escc.TextStatistics/TextStatistics.cs:412 | scores in the gaps between bands, such as 30.05, give the failure message |

## Left out

- The score formulas (`AverageSyllablesPerWord`, `PercentageWordsWithThreeSyllables`, `AverageWordsPerSentence`, the Flesch–Kincaid, Gunning fog, Coleman–Liau, SMOG and ARI scores and their average, lines 137-153, 299-306 and 337-402): floating-point arithmetic and rounding. The integer division `30 / SentenceCount(text)` at line 377 is one of them.
- IEEE doubles: `TranslateReadingEase` takes a Dafny `real`, and its band limits are read as exact decimals.
- The error reporting in the `catch` blocks of `WordsWithThreeSyllables` (lines 275 and 280): it sends telemetry, which has no effect on the result. A caught exception is modelled as "return the count reached so far".
- `ToLower(CultureInfo.CurrentCulture)` and `char.IsUpper`: modelled on ASCII letters only. Culture-specific casing and non-ASCII upper-case letters are not modelled.
- `RegexOptions.IgnoreCase`: the case-insensitive classes are read as their ASCII meaning. Unicode case-folding exceptions, such as the Kelvin sign matching `k`, are not modelled.
- A general regular-expression engine: only the patterns the source uses are written out. The patterns of `Normalizer` and `Metrics` each give the match the .NET engine finds. The syllable patterns are read only through `Regex.IsMatch`, and each is written to give the same yes-or-no answer as .NET. All but one also give the same match. The exception is `[^aeiuoyt]{2,}ed$`, written with exactly two non-vowel characters before `ed`: on "xsced" the model matches "sced" at 1 where .NET matches "xsced" at 0. Whether it matches, and so every count, is the same. In the syllable tables `$` is the end of the text. The words there hold only letters, so `$` before a final newline never arises.
- 32-bit integers: the counts are unbounded Dafny integers. `Syllables.SyllablesBounds` proves that a syllable count lies between -15 (the size of the subtracting table) and the word length plus 24 (7 affix patterns and 17 adding patterns), so wrap-around cannot occur for any string .NET can hold.
- Metrics.LetterCount: counts Unicode scalar values, while .NET `String.Length` counts UTF-16 code units. A character outside the Basic Multilingual Plane that survives the non-letter rewrite, as the emoji in "a b😀 c" does (by the same mechanism as the apostrophe in `Metrics.ApostropheCounted`), counts once here and twice in the source: 4 here against 5 there.
- Normalizer.CleanText: takes a non-null string. In the source `CleanText(null)` throws a `NullReferenceException` at line 174; the counters in `Metrics` take `Option<string>` and never pass it null.
- Syllables.SyllableCount: takes a non-null string. In the source `SyllableCount(null)` throws an `ArgumentNullException` from `Regex.Matches` at line 18.
