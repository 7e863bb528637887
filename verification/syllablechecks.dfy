/**
 * Deciding the syllable patterns on a given word. The predicates below test
 * a pattern character by character, in the order the engine tries
 * positions and alternatives, and are proved to agree with Regex.IsMatch as
 * the Syllables module defines it. On a literal word Dafny evaluates them,
 * which is how the count of "sced" is worked out: it comes to -1, because
 * SyllableCount only turns a count of exactly 0 into 1.
 */
module SyllableChecks {
  import opened Strings
  import opened Patterns
  import opened Syllables

  // ---------------------------------------------------------------------
  // The decision procedure
  // ---------------------------------------------------------------------

  /** s[i] is one of the characters cs[j..]. */
  predicate CharIn(s: string, i: nat, cs: string, j: nat)
    requires i < |s|
    decreases |cs| - j
  {
    j < |cs| && (cs[j] == s[i] || CharIn(s, i, cs, j + 1))
  }

  /** The literal t, from its j-th character on, occurs in s at position i + j. */
  predicate TextHolds(t: string, s: string, i: nat, j: nat)
    requires i + |t| <= |s|
    decreases |t| - j
  {
    j >= |t| || (s[i + j] == t[j] && TextHolds(t, s, i, j + 1))
  }

  predicate AtomHolds(a: Atom, s: string, i: nat)
    requires i + Width(a) <= |s|
  {
    match a
    case Text(t) => TextHolds(t, s, i, 0)
    case OneOf(cs) => CharIn(s, i, cs, 0)
    case NoneOf(cs) => !CharIn(s, i, cs, 0)
    case Again => i > 0 && s[i] == s[i - 1]
  }

  /** The atoms from the j-th on match s from position i on. */
  predicate AtomsHold(atoms: seq<Atom>, j: nat, s: string, i: nat)
    decreases |atoms| - j
  {
    if j >= |atoms| then i <= |s|
    else i + Width(atoms[j]) <= |s| && AtomHolds(atoms[j], s, i) && AtomsHold(atoms, j + 1, s, i + Width(atoms[j]))
  }

  /** The alternative matches at i, anchors included. */
  predicate HitsAt(p: Pattern, alt: Alternative, s: string, i: nat) {
    (!p.atEnd || i + Span(alt) == |s|) && (!p.atStart || i == 0) && AtomsHold(alt, 0, s, i)
  }

  /** Some alternative from index k on matches at i. */
  predicate AltHitFrom(p: Pattern, s: string, i: nat, k: nat)
    decreases |p.alternatives| - k
  {
    k < |p.alternatives| && (HitsAt(p, p.alternatives[k], s, i) || AltHitFrom(p, s, i, k + 1))
  }

  /** The pattern matches at some position from i on. */
  predicate HitFrom(p: Pattern, s: string, i: nat)
    decreases |s| + 1 - i
  {
    i <= |s| && (AltHitFrom(p, s, i, 0) || HitFrom(p, s, i + 1))
  }

  // ---------------------------------------------------------------------
  // It decides IsMatch
  // ---------------------------------------------------------------------

  lemma {:induction false} CharInIff(s: string, i: nat, cs: string, j: nat)
    requires i < |s| && j <= |cs|
    ensures CharIn(s, i, cs, j) <==> s[i] in cs[j..]
    decreases |cs| - j
  {
    if j < |cs| {
      CharInIff(s, i, cs, j + 1);
      assert cs[j..] == [cs[j]] + cs[j + 1..];
    }
  }

  lemma {:induction false} TextHoldsIff(t: string, s: string, i: nat, j: nat)
    requires i + |t| <= |s| && j <= |t|
    ensures TextHolds(t, s, i, j) <==> s[i + j..i + |t|] == t[j..]
    decreases |t| - j
  {
    if j < |t| {
      TextHoldsIff(t, s, i, j + 1);
      assert s[i + j..i + |t|] == [s[i + j]] + s[i + j + 1..i + |t|];
      assert t[j..] == [t[j]] + t[j + 1..];
    }
  }

  lemma AtomHoldsIff(a: Atom, s: string, i: nat)
    requires i + Width(a) <= |s|
    ensures AtomHolds(a, s, i) == AtomAt(a, s, i)
  {
    match a
    case Text(t) =>
      TextHoldsIff(t, s, i, 0);
      assert t[0..] == t;
    case OneOf(cs) =>
      CharInIff(s, i, cs, 0);
      assert cs[0..] == cs;
    case NoneOf(cs) =>
      CharInIff(s, i, cs, 0);
      assert cs[0..] == cs;
    case Again =>
  }

  lemma {:induction false} AtomsHoldIff(atoms: seq<Atom>, j: nat, s: string, i: nat)
    requires j <= |atoms|
    ensures AtomsHold(atoms, j, s, i) == AtomsAt(atoms[j..], s, i)
    decreases |atoms| - j
  {
    if j < |atoms| {
      assert atoms[j..][0] == atoms[j];
      assert atoms[j..][1..] == atoms[j + 1..];
      AtomsHoldIff(atoms, j + 1, s, i + Width(atoms[j]));
      if i + Width(atoms[j]) <= |s| {
        AtomHoldsIff(atoms[j], s, i);
      }
    }
  }

  lemma {:induction false} AltHitFromIff(p: Pattern, s: string, i: nat, k: nat)
    ensures AltHitFrom(p, s, i, k) == PreferredAt(p, s, i, k).Some?
    decreases |p.alternatives| - k
  {
    if k < |p.alternatives| {
      AtomsHoldIff(p.alternatives[k], 0, s, i);
      assert p.alternatives[k][0..] == p.alternatives[k];
      AltHitFromIff(p, s, i, k + 1);
    }
  }

  lemma {:induction false} HitFromIff(p: Pattern, s: string, i: nat)
    ensures HitFrom(p, s, i) == FirstFrom(p, s, i).Some?
    decreases |s| + 1 - i
  {
    if i <= |s| {
      AltHitFromIff(p, s, i, 0);
      HitFromIff(p, s, i + 1);
    }
  }

  /** The character-by-character test answers exactly as Regex.IsMatch. */
  lemma Decides(p: Pattern, s: string)
    ensures HitFrom(p, s, 0) == IsMatch(p, s)
  {
    HitFromIff(p, s, 0);
  }

  // ---------------------------------------------------------------------
  // Counting matches from known answers
  // ---------------------------------------------------------------------

  /** With the set of matching patterns known, the table's count is its size. */
  lemma {:induction false} CountByHits(table: seq<Weighted>, s: string, hits: set<nat>)
    requires forall k :: 0 <= k < |table| ==> (IsMatch(table[k].pattern, s) <==> k in hits)
    requires forall k :: k in hits ==> k < |table|
    ensures CountMatching(table, s) == |hits|
    decreases |table|
  {
    if table == [] {
      assert hits == {} by {
        forall k | k in hits ensures false { }
      }
    } else {
      var n := |table| - 1;
      CountByHits(table[..n], s, hits - {n});
    }
  }

  /** Affix patterns that do not match leave the word as it is and count nothing. */
  lemma {:induction false} NoAffixMatches(word: string, affixes: seq<Pattern>)
    requires forall i :: 0 <= i < |affixes| ==> NeverEmpty(affixes[i]) && !IsMatch(affixes[i], word)
    ensures StripAffixes(word, affixes) == (word, 0)
    decreases |affixes|
  {
    if affixes != [] {
      var front := affixes[..|affixes| - 1];
      NoAffixMatches(word, front);
      var p := affixes[|affixes| - 1];
      assert AllMatches(p, word) == [];
    }
  }

  // ---------------------------------------------------------------------
  // The word "sced"
  // ---------------------------------------------------------------------

  // One lemma per pattern: Dafny evaluates each test on the literal word.

  lemma ScedSubtracting0() ensures !HitFrom(SubSyllables[0].pattern, "sced", 0) { }  // cial
  lemma ScedSubtracting1() ensures !HitFrom(SubSyllables[1].pattern, "sced", 0) { }  // tia
  lemma ScedSubtracting2() ensures !HitFrom(SubSyllables[2].pattern, "sced", 0) { }  // cius
  lemma ScedSubtracting3() ensures !HitFrom(SubSyllables[3].pattern, "sced", 0) { }  // cious
  lemma ScedSubtracting4() ensures !HitFrom(SubSyllables[4].pattern, "sced", 0) { }  // giu
  lemma ScedSubtracting5() ensures !HitFrom(SubSyllables[5].pattern, "sced", 0) { }  // ion
  lemma ScedSubtracting6() ensures !HitFrom(SubSyllables[6].pattern, "sced", 0) { }  // iou
  lemma ScedSubtracting7() ensures !HitFrom(SubSyllables[7].pattern, "sced", 0) { }  // sia$
  lemma ScedSubtracting8() ensures HitFrom(SubSyllables[8].pattern, "sced", 0)  // [^aeiuoyt]{2,}ed$
  {
    var p := SubSyllables[8].pattern;
    assert HitsAt(p, p.alternatives[0], "sced", 0);
    assert AltHitFrom(p, "sced", 0, 0);
  }
  lemma ScedSubtracting9() ensures !HitFrom(SubSyllables[9].pattern, "sced", 0) { }  // .ely$
  lemma ScedSubtracting10() ensures HitFrom(SubSyllables[10].pattern, "sced", 0)  // [cg]h?e[rsd]?$, on "ced"
  {
    var p := SubSyllables[10].pattern;
    assert HitsAt(p, p.alternatives[2], "sced", 1);
    assert AltHitFrom(p, "sced", 1, 2);
    assert AltHitFrom(p, "sced", 1, 1);
    assert AltHitFrom(p, "sced", 1, 0);
    assert HitFrom(p, "sced", 1);
  }
  lemma ScedSubtracting11() ensures !HitFrom(SubSyllables[11].pattern, "sced", 0) { }  // rved?$
  lemma ScedSubtracting12() ensures !HitFrom(SubSyllables[12].pattern, "sced", 0) { }  // [aeiouy][dt]es?$
  lemma ScedSubtracting13() ensures !HitFrom(SubSyllables[13].pattern, "sced", 0) { }  // [aeiouy][^aeiouydt]e[rsd]?$
  lemma ScedSubtracting14() ensures !HitFrom(SubSyllables[14].pattern, "sced", 0) { }  // [aeiouy]rse$

  lemma ScedAdding0() ensures !HitFrom(AddSyllables[0].pattern, "sced", 0) { }  // ia
  lemma ScedAdding1() ensures !HitFrom(AddSyllables[1].pattern, "sced", 0) { }  // riet
  lemma ScedAdding2() ensures !HitFrom(AddSyllables[2].pattern, "sced", 0) { }  // dien
  lemma ScedAdding3() ensures !HitFrom(AddSyllables[3].pattern, "sced", 0) { }  // iu
  lemma ScedAdding4() ensures !HitFrom(AddSyllables[4].pattern, "sced", 0) { }  // io
  lemma ScedAdding5() ensures !HitFrom(AddSyllables[5].pattern, "sced", 0) { }  // ii
  lemma ScedAdding6() ensures !HitFrom(AddSyllables[6].pattern, "sced", 0) { }  // [aeiouym]bl$
  lemma ScedAdding7() ensures !HitFrom(AddSyllables[7].pattern, "sced", 0) { }  // [aeiou]{3}
  lemma ScedAdding8() ensures !HitFrom(AddSyllables[8].pattern, "sced", 0) { }  // ^mc
  lemma ScedAdding9() ensures !HitFrom(AddSyllables[9].pattern, "sced", 0) { }  // ism$
  lemma ScedAdding10() ensures !HitFrom(AddSyllables[10].pattern, "sced", 0) { }  // ([^aeiouy])\1l$
  lemma ScedAdding11() ensures !HitFrom(AddSyllables[11].pattern, "sced", 0) { }  // [^l]lien
  lemma ScedAdding12() ensures !HitFrom(AddSyllables[12].pattern, "sced", 0) { }  // ^coa[dglx].
  lemma ScedAdding13() ensures !HitFrom(AddSyllables[13].pattern, "sced", 0) { }  // [^gq]ua[^auieo]
  lemma ScedAdding14() ensures !HitFrom(AddSyllables[14].pattern, "sced", 0) { }  // dnt$
  lemma ScedAdding15() ensures !HitFrom(AddSyllables[15].pattern, "sced", 0) { }  // uity$
  lemma ScedAdding16() ensures !HitFrom(AddSyllables[16].pattern, "sced", 0) { }  // ie(r|st)$

  lemma ScedAffix0() ensures !HitFrom(Affixes[0], "sced", 0) { }  // ^un
  lemma ScedAffix1() ensures !HitFrom(Affixes[1], "sced", 0) { }  // ^fore
  lemma ScedAffix2() ensures !HitFrom(Affixes[2], "sced", 0) { }  // ly$
  lemma ScedAffix3() ensures !HitFrom(Affixes[3], "sced", 0) { }  // less$
  lemma ScedAffix4() ensures !HitFrom(Affixes[4], "sced", 0) { }  // ful$
  lemma ScedAffix5() ensures !HitFrom(Affixes[5], "sced", 0) { }  // ers?$
  lemma ScedAffix6() ensures !HitFrom(Affixes[6], "sced", 0) { }  // ings?$

  /** Of the subtracting patterns, [^aeiuoyt]{2,}ed$ and [cg]h?e[rsd]?$ match "sced", and no other. */
  lemma SubtractingAnswer(k: nat)
    requires k < |SubSyllables|
    ensures HitFrom(SubSyllables[k].pattern, "sced", 0) == (k == 8 || k == 10)
  {
    if k == 0 {
      ScedSubtracting0();
    } else if k == 1 {
      ScedSubtracting1();
    } else if k == 2 {
      ScedSubtracting2();
    } else if k == 3 {
      ScedSubtracting3();
    } else if k == 4 {
      ScedSubtracting4();
    } else if k == 5 {
      ScedSubtracting5();
    } else if k == 6 {
      ScedSubtracting6();
    } else if k == 7 {
      ScedSubtracting7();
    } else if k == 8 {
      ScedSubtracting8();
    } else if k == 9 {
      ScedSubtracting9();
    } else if k == 10 {
      ScedSubtracting10();
    } else if k == 11 {
      ScedSubtracting11();
    } else if k == 12 {
      ScedSubtracting12();
    } else if k == 13 {
      ScedSubtracting13();
    } else {
      ScedSubtracting14();
    }
  }

  /** No adding pattern matches "sced". */
  lemma AddingAnswer(k: nat)
    requires k < |AddSyllables|
    ensures !HitFrom(AddSyllables[k].pattern, "sced", 0)
  {
    if k == 0 {
      ScedAdding0();
    } else if k == 1 {
      ScedAdding1();
    } else if k == 2 {
      ScedAdding2();
    } else if k == 3 {
      ScedAdding3();
    } else if k == 4 {
      ScedAdding4();
    } else if k == 5 {
      ScedAdding5();
    } else if k == 6 {
      ScedAdding6();
    } else if k == 7 {
      ScedAdding7();
    } else if k == 8 {
      ScedAdding8();
    } else if k == 9 {
      ScedAdding9();
    } else if k == 10 {
      ScedAdding10();
    } else if k == 11 {
      ScedAdding11();
    } else if k == 12 {
      ScedAdding12();
    } else if k == 13 {
      ScedAdding13();
    } else if k == 14 {
      ScedAdding14();
    } else if k == 15 {
      ScedAdding15();
    } else {
      ScedAdding16();
    }
  }

  /** "sced" has none of the prefixes and suffixes. */
  lemma AffixAnswer(k: nat)
    requires k < |Affixes|
    ensures !HitFrom(Affixes[k], "sced", 0)
  {
    if k == 0 {
      ScedAffix0();
    } else if k == 1 {
      ScedAffix1();
    } else if k == 2 {
      ScedAffix2();
    } else if k == 3 {
      ScedAffix3();
    } else if k == 4 {
      ScedAffix4();
    } else if k == 5 {
      ScedAffix5();
    } else {
      ScedAffix6();
    }
  }

  lemma ScedSubtractsTwo()
    ensures CountMatching(SubSyllables, "sced") == 2
  {
    forall k | 0 <= k < |SubSyllables|
      ensures IsMatch(SubSyllables[k].pattern, "sced") <==> k in {8, 10}
    {
      SubtractingAnswer(k);
      Decides(SubSyllables[k].pattern, "sced");
    }
    CountByHits(SubSyllables, "sced", {8, 10});
  }

  lemma ScedAddsNothing()
    ensures CountMatching(AddSyllables, "sced") == 0
  {
    forall k | 0 <= k < |AddSyllables|
      ensures IsMatch(AddSyllables[k].pattern, "sced") <==> k in {}
    {
      AddingAnswer(k);
      Decides(AddSyllables[k].pattern, "sced");
    }
    CountByHits(AddSyllables, "sced", {});
  }

  lemma ScedKeepsItsAffixes()
    ensures StripAffixes("sced", Affixes) == ("sced", 0)
  {
    AffixesWellFormed();
    forall k | 0 <= k < |Affixes|
      ensures NeverEmpty(Affixes[k]) && !IsMatch(Affixes[k], "sced")
    {
      AffixAnswer(k);
      Decides(Affixes[k], "sced");
    }
    NoAffixMatches("sced", Affixes);
  }

  /**
   * "sced" is no exception, keeps its letters, has one group of vowels and
   * no affix, and matches two subtracting patterns and no adding one: its
   * count is -1, and SyllableCount returns it as it is.
   */
  lemma NegativeCountKept()
    ensures Syllables.Syllables("sced") == -1
  {
    ScedIsNoException();
    ScedKeepsItsAffixes();
    ScedHasOneVowelGroup();
    ScedSubtractsTwo();
    ScedAddsNothing();
    PlainWord("sced");
  }

  /** A word already in normal form, no exception and without affixes is counted by its estimate alone. */
  lemma PlainWord(word: string)
    requires NormalizeWord(word) == word && Lookup(Exceptions, word).None?
    requires StripAffixes(word, Affixes) == (word, 0)
    ensures Estimate(word, 0) != 0 ==> Syllables.Syllables(word) == Estimate(word, 0)
  {
  }

  lemma ScedIsNoException()
    ensures NormalizeWord("sced") == "sced"
    ensures Lookup(Exceptions, "sced").None?
  {
  }

  lemma ScedHasOneVowelGroup()
    ensures RunCount("sced", Vowel) == 1
  {
  }
}
