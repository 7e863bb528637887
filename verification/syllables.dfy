/**
 * Syllable counting for one word: non-letters dropped, lower-cased, looked
 * up in a table of exceptions, otherwise one syllable per group of vowels
 * plus one per stripped prefix or suffix, corrected by two tables of
 * patterns that each subtract or add one when they match.
 */
module Syllables {
  import opened Strings
  import opened Patterns

  // ---------------------------------------------------------------------
  // The anchored patterns of the syllable tables, written out as
  // fixed-length alternatives that agree with .NET on whether the pattern
  // matches (the only thing the tables ask of them)
  // ---------------------------------------------------------------------

  /**
   * One piece of a pattern: a literal text, one character of a set or of
   * its complement, or \1 (the character before, once more).
   */
  datatype Atom = Text(text: string) | OneOf(chars: string) | NoneOf(chars: string) | Again

  /** How many characters the atom matches. */
  function Width(a: Atom): nat {
    if a.Text? then |a.text| else 1
  }

  /** How many characters an alternative matches. */
  function Span(atoms: seq<Atom>): nat {
    if atoms == [] then 0 else Width(atoms[0]) + Span(atoms[1..])
  }

  type Alternative = seq<Atom>

  /**
   * A regular expression written out as fixed-length alternatives, in
   * the order the engine prefers them ("ers?" is "ers" before "er"), with
   * its ^ and $ anchors ($ is the end of the text). Each gives the same
   * yes-or-no answer as the .NET engine; all but one also give the same
   * match, the exception being [^aeiuoyt]{2,}ed$, whose unbounded run is
   * written as its last two characters.
   */
  datatype Pattern = Pattern(alternatives: seq<Alternative>, atStart: bool, atEnd: bool)

  predicate AtomAt(a: Atom, s: string, i: nat)
    requires i + Width(a) <= |s|
  {
    match a
    case Text(t) => s[i..i + |t|] == t
    case OneOf(cs) => s[i] in cs
    case NoneOf(cs) => s[i] !in cs
    case Again => i > 0 && s[i] == s[i - 1]
  }

  /** The atoms match s from position i on. */
  predicate AtomsAt(atoms: seq<Atom>, s: string, i: nat)
    decreases |atoms|
  {
    if atoms == [] then i <= |s|
    else i + Width(atoms[0]) <= |s| && AtomAt(atoms[0], s, i) && AtomsAt(atoms[1..], s, i + Width(atoms[0]))
  }

  /** A match never runs past the end of the text. */
  lemma {:induction false} AtomsAtWithin(atoms: seq<Atom>, s: string, i: nat)
    requires AtomsAt(atoms, s, i)
    ensures i + Span(atoms) <= |s|
    decreases |atoms|
  {
    if atoms != [] {
      AtomsAtWithin(atoms[1..], s, i + Width(atoms[0]));
    }
  }

  predicate MatchesAt(p: Pattern, alt: Alternative, s: string, i: nat) {
    (!p.atStart || i == 0) && AtomsAt(alt, s, i) && (!p.atEnd || i + Span(alt) == |s|)
  }

  /** The first alternative, from index k on, that matches at position i. */
  function PreferredAt(p: Pattern, s: string, i: nat, k: nat): (r: Option<nat>)
    ensures r.Some? ==> k <= r.value < |p.alternatives| && MatchesAt(p, p.alternatives[r.value], s, i)
    ensures r.None? ==> forall j :: k <= j < |p.alternatives| ==> !MatchesAt(p, p.alternatives[j], s, i)
    decreases |p.alternatives| - k
  {
    if k >= |p.alternatives| then None
    else if MatchesAt(p, p.alternatives[k], s, i) then Some(k)
    else PreferredAt(p, s, i, k + 1)
  }

  /** The leftmost match at or after position i: its position and alternative. */
  function FirstFrom(p: Pattern, s: string, i: nat): (r: Option<(nat, nat)>)
    ensures r.Some? ==> i <= r.value.0 && r.value.1 < |p.alternatives|
                        && MatchesAt(p, p.alternatives[r.value.1], s, r.value.0)
    ensures r.Some? ==> forall j, k :: i <= j < r.value.0 && 0 <= k < |p.alternatives| ==>
                          !MatchesAt(p, p.alternatives[k], s, j)
    ensures r.None? ==> forall j, k :: i <= j && 0 <= k < |p.alternatives| ==>
                          !MatchesAt(p, p.alternatives[k], s, j)
    decreases |s| + 1 - i
  {
    if i > |s| then None
    else
      match PreferredAt(p, s, i, 0)
      case Some(k) => Some((i, k))
      case None => FirstFrom(p, s, i + 1)
  }

  /** Regex.IsMatch */
  predicate IsMatch(p: Pattern, s: string) {
    FirstFrom(p, s, 0).Some?
  }

  /** IsMatch holds exactly when some alternative matches somewhere. */
  lemma IsMatchIff(p: Pattern, s: string)
    ensures IsMatch(p, s) <==>
            exists i: nat, k :: 0 <= k < |p.alternatives| && MatchesAt(p, p.alternatives[k], s, i)
  {
    var r := FirstFrom(p, s, 0);
    if r.Some? {
      var i: nat := r.value.0;
      assert MatchesAt(p, p.alternatives[r.value.1], s, i);
    }
  }

  /** No alternative of the pattern is empty, so neither is any match. */
  predicate NeverEmpty(p: Pattern) {
    forall k :: 0 <= k < |p.alternatives| ==> Span(p.alternatives[k]) > 0
  }

  /**
   * Regex.Matches from position i: the values of the successive leftmost
   * matches; the scan resumes after a match, or one character on after an
   * empty one.
   */
  function MatchesFrom(p: Pattern, s: string, i: nat): (ms: seq<string>)
    ensures NeverEmpty(p) ==> forall j :: 0 <= j < |ms| ==> |ms[j]| > 0
    decreases |s| + 1 - i
  {
    var first := FirstFrom(p, s, i);
    if first.None? then []
    else
      var pos := first.value.0;
      var len := Span(p.alternatives[first.value.1]);
      AtomsAtWithin(p.alternatives[first.value.1], s, pos);
      [s[pos..pos + len]] + MatchesFrom(p, s, if len == 0 then pos + 1 else pos + len)
  }

  /** One step of the scan: the leftmost match, then the scan after it. */
  lemma MatchesFromStep(p: Pattern, s: string, i: nat, pos: nat, k: nat)
    requires FirstFrom(p, s, i) == Some((pos, k)) && Span(p.alternatives[k]) > 0
    ensures pos + Span(p.alternatives[k]) <= |s|
    ensures MatchesFrom(p, s, i) == [s[pos..pos + Span(p.alternatives[k])]] + MatchesFrom(p, s, pos + Span(p.alternatives[k]))
  {
    AtomsAtWithin(p.alternatives[k], s, pos);
  }

  /** A scan that finds one match, of value v, and nothing after it. */
  lemma OnlyMatch(p: Pattern, s: string, pos: nat, k: nat, v: string)
    requires FirstFrom(p, s, 0) == Some((pos, k)) && Span(p.alternatives[k]) > 0
    requires FirstFrom(p, s, pos + Span(p.alternatives[k])).None?
    requires pos + Span(p.alternatives[k]) <= |s| && s[pos..pos + Span(p.alternatives[k])] == v
    ensures AllMatches(p, s) == [v]
  {
    MatchesFromStep(p, s, 0, pos, k);
  }

  function AllMatches(p: Pattern, s: string): (ms: seq<string>)
    ensures NeverEmpty(p) ==> forall j :: 0 <= j < |ms| ==> |ms[j]| > 0
  {
    MatchesFrom(p, s, 0)
  }

  /** A pattern anchored at either end of the text, none of whose alternatives is empty, matches at most once. */
  lemma AnchoredMatchesOnce(p: Pattern, s: string)
    requires p.atStart || p.atEnd
    requires NeverEmpty(p)
    ensures |AllMatches(p, s)| <= 1
  {
    var first := FirstFrom(p, s, 0);
    if first.Some? {
      var (pos, k) := first.value;
      var next := pos + Span(p.alternatives[k]);
      AtomsAtWithin(p.alternatives[k], s, pos);
      assert MatchesFrom(p, s, next) == [];
      assert AllMatches(p, s) == [s[pos..next]] + MatchesFrom(p, s, next);
    }
  }

  function Infix(alts: seq<Alternative>): Pattern { Pattern(alts, false, false) }
  function AtStart(alts: seq<Alternative>): Pattern { Pattern(alts, true, false) }
  function AtEnd(alts: seq<Alternative>): Pattern { Pattern(alts, false, true) }

  // ---------------------------------------------------------------------
  // The tables, in the order they are written
  // ---------------------------------------------------------------------

  /** Words whose count is given outright. */
  const Exceptions: seq<(string, int)> := [("simile", 3), ("forever", 3), ("shoreline", 2)]

  /** A pattern with the number it is stored with in its dictionary (which the count never reads). */
  datatype Weighted = Weighted(pattern: Pattern, weight: int)

  /** Patterns that each take one syllable off when they match. */
  const SubSyllables: seq<Weighted> := [
    Weighted(Infix([[Text("cial")]]), 1),
    Weighted(Infix([[Text("tia")]]), 1),
    Weighted(Infix([[Text("cius")]]), 1),
    Weighted(Infix([[Text("cious")]]), 1),
    Weighted(Infix([[Text("giu")]]), 1),
    Weighted(Infix([[Text("ion")]]), 1),
    Weighted(Infix([[Text("iou")]]), 1),
    Weighted(AtEnd([[Text("sia")]]), 1),
    // [^aeiuoyt]{2,}ed$: a run of two or more is there exactly when its last
    // two are, so whether it matches is unchanged; the match itself is the
    // last two characters plus "ed", not the whole run
    Weighted(AtEnd([[NoneOf("aeiuoyt"), NoneOf("aeiuoyt"), Text("ed")]]), 1),
    Weighted(AtEnd([[NoneOf("\n"), Text("ely")]]), 1),
    Weighted(AtEnd([[OneOf("cg"), OneOf("h"), OneOf("e"), OneOf("rsd")],
                    [OneOf("cg"), OneOf("h"), OneOf("e")],
                    [OneOf("cg"), OneOf("e"), OneOf("rsd")],
                    [OneOf("cg"), OneOf("e")]]), 1),
    Weighted(AtEnd([[Text("rved")], [Text("rve")]]), 1),
    Weighted(AtEnd([[OneOf("aeiouy"), OneOf("dt"), OneOf("e"), OneOf("s")],
                    [OneOf("aeiouy"), OneOf("dt"), OneOf("e")]]), 1),
    Weighted(AtEnd([[OneOf("aeiouy"), NoneOf("aeiouydt"), OneOf("e"), OneOf("rsd")],
                    [OneOf("aeiouy"), NoneOf("aeiouydt"), OneOf("e")]]), 1),
    Weighted(AtEnd([[OneOf("aeiouy"), Text("rse")]]), 1)
  ]

  /** Patterns that each add one syllable when they match. */
  const AddSyllables: seq<Weighted> := [
    Weighted(Infix([[Text("ia")]]), 2),
    Weighted(Infix([[Text("riet")]]), 2),
    Weighted(Infix([[Text("dien")]]), 2),
    Weighted(Infix([[Text("iu")]]), 2),
    Weighted(Infix([[Text("io")]]), 2),
    Weighted(Infix([[Text("ii")]]), 2),
    Weighted(AtEnd([[OneOf("aeiouym"), Text("bl")]]), 2),
    Weighted(Infix([[OneOf("aeiou"), OneOf("aeiou"), OneOf("aeiou")]]), 2),
    Weighted(AtStart([[Text("mc")]]), 2),
    Weighted(AtEnd([[Text("ism")]]), 2),
    Weighted(AtEnd([[NoneOf("aeiouy"), Again, OneOf("l")]]), 2),
    Weighted(Infix([[NoneOf("l"), Text("lien")]]), 2),
    Weighted(AtStart([[Text("coa"), OneOf("dglx"), NoneOf("\n")]]), 2),
    Weighted(Infix([[NoneOf("gq"), Text("ua"), NoneOf("auieo")]]), 2),
    Weighted(AtEnd([[Text("dnt")]]), 2),
    Weighted(AtEnd([[Text("uity")]]), 2),
    Weighted(AtEnd([[Text("ier")], [Text("iest")]]), 2)
  ]

  /** Single-syllable prefixes and suffixes, stripped in this order. */
  const Affixes: seq<Pattern> := [
    AtStart([[Text("un")]]),
    AtStart([[Text("fore")]]),
    AtEnd([[Text("ly")]]),
    AtEnd([[Text("less")]]),
    AtEnd([[Text("ful")]]),
    AtEnd([[Text("ers")], [Text("er")]]),
    AtEnd([[Text("ings")], [Text("ing")]])
  ]

  // ---------------------------------------------------------------------
  // The count, as a function of the word
  // ---------------------------------------------------------------------

  /** Dictionary.ContainsKey and the indexer: the value stored under the key. */
  function Lookup(table: seq<(string, int)>, key: string): (r: Option<int>)
    ensures r.None? <==> forall i :: 0 <= i < |table| ==> table[i].0 != key
    ensures r.Some? ==> exists i :: 0 <= i < |table| && table[i] == (key, r.value)
  {
    if table == [] then None
    else if table[0].0 == key then Some(table[0].1)
    else
      var r := Lookup(table[1..], key);
      assert forall i :: 1 <= i < |table| ==> table[i] == table[1..][i - 1];
      r
  }

  /** The number of patterns of the table that match s, whatever their weights. */
  function CountMatching(table: seq<Weighted>, s: string): (n: nat)
    ensures n <= |table|
    decreases |table|
  {
    if table == [] then 0
    else CountMatching(table[..|table| - 1], s) + if IsMatch(table[|table| - 1].pattern, s) then 1 else 0
  }

  predicate AllLower(s: string) {
    forall i :: 0 <= i < |s| ==> 'a' <= s[i] <= 'z'
  }

  /** The word as the tables see it: letters only, lower-cased. */
  function NormalizeWord(text: string): (w: string)
    ensures AllLower(w)
    ensures |w| <= |text|
  {
    var letters := Without(text, NonLetter);
    Lower(letters)
  }

  /**
   * One affix pattern applied: every value it matched in the word is
   * deleted wherever it occurs, and each match counts one.
   */
  function StripOne(word: string, p: Pattern): (r: (string, nat))
    requires NeverEmpty(p)
    ensures |r.0| <= |word|
    ensures (p.atStart || p.atEnd) ==> r.1 <= 1
    ensures forall c :: c in r.0 ==> c in word
  {
    var ms := AllMatches(p, word);
    assert (p.atStart || p.atEnd) ==> |ms| <= 1 by {
      if p.atStart || p.atEnd {
        AnchoredMatchesOnce(p, word);
      }
    }
    (ReplaceEach(word, ms, ""), |ms|)
  }

  /** The affix patterns applied in turn, with the total number of matches. */
  function StripAffixes(word: string, affixes: seq<Pattern>): (r: (string, nat))
    requires forall i :: 0 <= i < |affixes| ==> NeverEmpty(affixes[i])
    ensures |r.0| <= |word|
    ensures (forall i :: 0 <= i < |affixes| ==> affixes[i].atStart || affixes[i].atEnd) ==> r.1 <= |affixes|
    ensures forall c :: c in r.0 ==> c in word
    decreases |affixes|
  {
    if affixes == [] then (word, 0)
    else
      var front := affixes[..|affixes| - 1];
      assert forall i :: 0 <= i < |front| ==> front[i] == affixes[i];
      var before := StripAffixes(word, front);
      var last := StripOne(before.0, affixes[|affixes| - 1]);
      (last.0, before.1 + last.1)
  }

  /**
   * The count for a word that is not an exception: one per group of vowels
   * in the stem, one per affix stripped, one off for each subtracting
   * pattern that matches the stem and one on for each adding pattern.
   */
  function Estimate(stem: string, affixCount: nat): int {
    RunCount(stem, Vowel) + affixCount - CountMatching(SubSyllables, stem) + CountMatching(AddSyllables, stem)
  }

  /** What SyllableCount returns for a word. */
  function Syllables(text: string): (r: int)
    ensures r != 0
  {
    var word := NormalizeWord(text);
    match Lookup(Exceptions, word)
    case Some(n) => n
    case None =>
      AffixesWellFormed();
      var stripped := StripAffixes(word, Affixes);
      var n := Estimate(stripped.0, stripped.1);
      if n == 0 then 1 else n
  }

  // ---------------------------------------------------------------------
  // The method
  // ---------------------------------------------------------------------

  lemma WithoutLetterFree(s: string)
    requires AllLower(s)
    ensures Without(s, NonLetter) == s
  {
    if s != [] {
      WithoutLetterFree(s[1..]);
    }
  }

  lemma CountMatchingPrefix(table: seq<Weighted>, s: string, i: nat)
    requires i < |table|
    ensures CountMatching(table[..i + 1], s) == CountMatching(table[..i], s) + if IsMatch(table[i].pattern, s) then 1 else 0
  {
    assert table[..i + 1][..i] == table[..i];
  }

  /** The prefix and suffix loop: each pattern's matches deleted in turn, and counted. */
  method RemoveAffixes(word: string, affixes: seq<Pattern>) returns (text: string, count: nat)
    requires forall i :: 0 <= i < |affixes| ==> NeverEmpty(affixes[i])
    ensures (text, count) == StripAffixes(word, affixes)
  {
    text := word;
    count := 0;
    for a := 0 to |affixes|
      invariant (text, count) == StripAffixes(word, affixes[..a])
    {
      assert affixes[..a + 1][..a] == affixes[..a];
      text, count := RemoveMatches(text, affixes[a], count);
    }
    assert affixes[..|affixes|] == affixes;
  }

  /** The loop over one pattern's matches: each value deleted, each match counted. */
  method RemoveMatches(word: string, p: Pattern, before: nat) returns (text: string, count: nat)
    requires NeverEmpty(p)
    ensures text == StripOne(word, p).0 && count == before + StripOne(word, p).1
  {
    var matches := AllMatches(p, word);
    text := word;
    count := before;
    for m := 0 to |matches|
      invariant text == ReplaceEach(word, matches[..m], "")
      invariant count == before + m
    {
      assert matches[..m + 1][..m] == matches[..m];
      text := ReplaceAll(text, matches[m], "");
      count := count + 1;
    }
    assert matches[..|matches|] == matches;
  }

  /** The subtraction loop: one off the running count for each pattern of the table that matches. */
  method SubtractMatching(start: int, table: seq<Weighted>, word: string) returns (result: int)
    ensures result == start - CountMatching(table, word)
  {
    result := start;
    for i := 0 to |table|
      invariant result == start - CountMatching(table[..i], word)
    {
      CountMatchingPrefix(table, word, i);
      if IsMatch(table[i].pattern, word) {
        result := result - 1;
      }
    }
    assert table[..|table|] == table;
  }

  /** The addition loop: how many patterns of the table match. */
  method CountMatchingPatterns(table: seq<Weighted>, word: string) returns (count: nat)
    ensures count == CountMatching(table, word)
  {
    count := 0;
    for i := 0 to |table|
      invariant count == CountMatching(table[..i], word)
    {
      CountMatchingPrefix(table, word, i);
      if IsMatch(table[i].pattern, word) {
        count := count + 1;
      }
    }
    assert table[..|table|] == table;
  }

  /** Regex.Split on runs of non-vowels, then the non-empty pieces counted. */
  method CountWordParts(word: string) returns (wordPartCount: nat)
    ensures wordPartCount == RunCount(word, Vowel)
  {
    var wordParts := Split(word, NonVowel);
    wordPartCount := 0;
    for i := 0 to |wordParts|
      invariant wordPartCount == NonEmptyCount(wordParts[..i])
    {
      NonEmptyCountOfPrefix(wordParts, i);
      if wordParts[i] != "" {
        wordPartCount := wordPartCount + 1;
      }
    }
    assert wordParts[..|wordParts|] == wordParts;
    SplitCountsVowelGroups(word);
  }

  lemma AffixesWellFormed()
    ensures forall i :: 0 <= i < |Affixes| ==> NeverEmpty(Affixes[i]) && (Affixes[i].atStart || Affixes[i].atEnd)
  {
  }

  lemma StemLower(word: string)
    requires AllLower(word)
    ensures AllLower(StripAffixes(word, Affixes).0)
  {
    AffixesWellFormed();
    var stem := StripAffixes(word, Affixes).0;
    forall i | 0 <= i < |stem| ensures 'a' <= stem[i] <= 'z' {
      assert stem[i] in stem;
    }
  }

  /** The count for a stem of lower-case letters from which affixCount affixes were stripped. */
  method EstimateStem(stem: string, affixCount: nat) returns (syllableCount: int)
    requires AllLower(stem)
    ensures syllableCount == Estimate(stem, affixCount)
  {
    var text := Without(stem, NonLetter);
    assert text == stem by {
      WithoutLetterFree(stem);
    }
    var wordPartCount := CountWordParts(text);
    syllableCount := wordPartCount + affixCount;
    var result := SubtractMatching(syllableCount, SubSyllables, text);
    var count := CountMatchingPatterns(AddSyllables, text);
    syllableCount := result + count;
  }

  method SyllableCount(text: string) returns (syllableCount: int)
    ensures syllableCount == Syllables(text)
  {
    var word := RewriteMatches(text, Class(NonLetter), "");
    word := Lower(word);
    assert word == NormalizeWord(text) by {
      RewriteClassDeletes(text, NonLetter);
    }

    var problem := Lookup(Exceptions, word);
    if problem.Some? {
      return problem.value;
    }

    assert forall i :: 0 <= i < |Affixes| ==> NeverEmpty(Affixes[i]) by {
      AffixesWellFormed();
    }
    var affixCount;
    word, affixCount := RemoveAffixes(word, Affixes);
    assert AllLower(word) by {
      StemLower(NormalizeWord(text));
    }
    syllableCount := EstimateStem(word, affixCount);

    syllableCount := if syllableCount == 0 then 1 else syllableCount;
  }

  // ---------------------------------------------------------------------
  // Properties of the count
  // ---------------------------------------------------------------------

  /** A word that normalises to an exception gets the exception's count, whatever the rules would say. */
  lemma ExceptionsWin(text: string, i: nat)
    requires i < |Exceptions| && NormalizeWord(text) == Exceptions[i].0
    ensures Syllables(text) == Exceptions[i].1
  {
    var r := Lookup(Exceptions, NormalizeWord(text));
    var j :| 0 <= j < |Exceptions| && Exceptions[j] == (NormalizeWord(text), r.value);
    assert i == j;
  }

  /** Punctuation and capitals are dropped before the lookup, so "Forever!" is the exception "forever". */
  lemma ForeverIsThree()
    ensures Syllables("Forever!") == 3
  {
    ForeverNormalized();
    ExceptionsWin("Forever!", 1);
  }

  lemma ForeverNormalized()
    ensures NormalizeWord("Forever!") == "forever"
  {
    ForeverLoseMark();
    ForeverLowered();
  }

  lemma ForeverLoseMark()
    ensures Without("Forever!", NonLetter) == "Forever"
  {
    assert "Forever!" == "Forever" + "!";
    WithoutConcat("Forever", "!", NonLetter);
    ForeverIsLetters();
    assert Without("!", NonLetter) == "";
  }

  lemma ForeverLowered()
    ensures Lower("Forever") == "forever"
  {
  }

  lemma ForeverIsLetters()
    ensures Without("Forever", NonLetter) == "Forever"
  {
    assert "Forever" == "Fore" + "ver";
    WithoutConcat("Fore", "ver", NonLetter);
  }

  /** At most one match per affix pattern: at most seven affixes, and the word never grows. */
  lemma AffixBound(text: string)
    ensures forall i :: 0 <= i < |Affixes| ==> NeverEmpty(Affixes[i])
    ensures var r := StripAffixes(NormalizeWord(text), Affixes); r.1 <= 7 && |r.0| <= |text|
  {
    AffixesWellFormed();
  }

  /** The count never drops below minus the number of subtracting patterns, and is bounded by the word's length plus the patterns that add. */
  lemma SyllablesBounds(text: string)
    ensures -|SubSyllables| <= Syllables(text) <= |text| + |Affixes| + |AddSyllables|
  {
    var word := NormalizeWord(text);
    if Lookup(Exceptions, word).None? {
      AffixBound(text);
      var stripped := StripAffixes(word, Affixes);
      var n := Estimate(stripped.0, stripped.1);
      assert RunCount(stripped.0, Vowel) <= |text|;
      assert CountMatching(SubSyllables, stripped.0) <= |SubSyllables|;
      assert CountMatching(AddSyllables, stripped.0) <= |AddSyllables|;
      assert -|SubSyllables| <= n <= |text| + |Affixes| + |AddSyllables|;
      assert Syllables(text) == if n == 0 then 1 else n;
    } else {
      var r := Lookup(Exceptions, word);
      var j :| 0 <= j < |Exceptions| && Exceptions[j] == (word, r.value);
    }
  }

  /** The weights stored with the patterns are never read: tables with the same patterns count alike. */
  lemma {:induction false} WeightsIgnored(t: seq<Weighted>, u: seq<Weighted>, s: string)
    requires |t| == |u| && forall i :: 0 <= i < |t| ==> t[i].pattern == u[i].pattern
    ensures CountMatching(t, s) == CountMatching(u, s)
    decreases |t|
  {
    if t != [] {
      WeightsIgnored(t[..|t| - 1], u[..|u| - 1], s);
    }
  }

  /** A literal matches at i exactly when the text holds it there. */
  lemma TextAt(w: string, s: string, i: nat)
    ensures AtomsAt([Text(w)], s, i) <==> i + |w| <= |s| && s[i..i + |w|] == w
  {
    assert [Text(w)][1..] == [];
  }

  /** A pattern that matched once leaves the word with every occurrence of that match deleted. */
  lemma StripOneSingle(word: string, p: Pattern, v: string)
    requires NeverEmpty(p) && AllMatches(p, word) == [v]
    ensures StripOne(word, p) == (ReplaceAll(word, v, ""), 1)
  {
    var ms := AllMatches(p, word);
    assert ms[..0] == [] && ms[0] == v;
    assert ReplaceEach(word, ms, "") == ReplaceAll(ReplaceEach(word, [], ""), v, "");
  }

  /**
   * A prefix pattern that matches deletes its literal everywhere in the word,
   * not only at the start.
   */
  lemma PrefixDeletesEverywhere(word: string, w: string)
    requires |w| > 0 && w <= word
    ensures StripOne(word, AtStart([[Text(w)]])) == (ReplaceAll(word, w, ""), 1)
  {
    var p := AtStart([[Text(w)]]);
    assert AllMatches(p, word) == [w] by {
      TextAt(w, word, 0);
      assert word[0..|w|] == w;
      assert MatchesAt(p, p.alternatives[0], word, 0);
      assert FirstFrom(p, word, 0) == Some((0, 0));
      OnlyMatch(p, word, 0, 0, w);
    }
    StripOneSingle(word, p, w);
  }

  /** A suffix literal matches where it ends the word. */
  lemma SuffixMatchesAtEnd(word: string, w: string)
    requires |w| <= |word| && word[|word| - |w|..] == w
    ensures MatchesAt(AtEnd([[Text(w)]]), [Text(w)], word, |word| - |w|)
  {
    var pos: nat := |word| - |w|;
    assert word[pos..pos + |w|] == w;
    TextAt(w, word, pos);
    assert Span([Text(w)]) == |w| by {
      assert [Text(w)][1..] == [];
    }
  }

  /** A suffix literal is first found where it ends the word. */
  lemma SuffixFoundAtEnd(word: string, w: string)
    requires |w| > 0 && |w| <= |word| && word[|word| - |w|..] == w
    ensures FirstFrom(AtEnd([[Text(w)]]), word, 0).Some?
    ensures FirstFrom(AtEnd([[Text(w)]]), word, 0).value.0 == |word| - |w|
    ensures FirstFrom(AtEnd([[Text(w)]]), word, 0).value.1 == 0
  {
    var p := AtEnd([[Text(w)]]);
    SuffixMatchesAtEnd(word, w);
    assert p.alternatives[0] == [Text(w)];
    assert Span([Text(w)]) == |w| by {
      assert [Text(w)][1..] == [];
    }
  }

  /** Nothing non-empty is found from the end of the text on. */
  lemma NothingAfterEnd(p: Pattern, word: string)
    requires NeverEmpty(p)
    ensures FirstFrom(p, word, |word|).None?
  {
    forall j: nat, k | |word| <= j && 0 <= k < |p.alternatives|
      ensures !MatchesAt(p, p.alternatives[k], word, j)
    {
      if MatchesAt(p, p.alternatives[k], word, j) {
        AtomsAtWithin(p.alternatives[k], word, j);
      }
    }
  }

  /**
   * A suffix pattern that matches deletes its literal everywhere in the
   * word, not only at the end.
   */
  lemma SuffixDeletesEverywhere(word: string, w: string)
    requires |w| > 0 && |w| <= |word| && word[|word| - |w|..] == w
    ensures StripOne(word, AtEnd([[Text(w)]])) == (ReplaceAll(word, w, ""), 1)
  {
    var p := AtEnd([[Text(w)]]);
    var pos: nat := |word| - |w|;
    assert Span(p.alternatives[0]) == |w|;
    SuffixFoundAtEnd(word, w);
    NothingAfterEnd(p, word);
    OnlyMatch(p, word, pos, 0, w);
    StripOneSingle(word, p, w);
  }
}
