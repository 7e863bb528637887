/**
 * The regular expressions of the text pipeline, hand-coded: each is a
 * character class, a greedy run of one, or one of four fixed shapes.
 * Regex.Matches is a left-to-right scan for non-overlapping matches, and the
 * source's recurring idiom
 *
 *     foreach (Match m in Regex.Matches(text, p)) text = text.Replace(m.Value, r);
 *
 * is Rewrite: the match values are collected once, from the text as it was
 * before the loop, and then every occurrence of each value in the CURRENT
 * text is replaced, value after value.
 */
module Patterns {
  import opened Strings

  datatype CharClass =
    | Punctuation    // [",:;()-]
    | Terminator     // [\.!?]
    | NonTerminator  // [^\.!?]
    | NonLetter      // [^a-zA-Z]
    | Digit          // [0-9]
    | Space          // [ ]
    | StopOrSpace    // [\. ]
    | NotClosing     // [^>]
    | WhiteSpace     // \s
    | Vowel          // [aeiouy]
    | NonVowel       // [^aeiouy]

  predicate In(cls: CharClass, c: char) {
    match cls
    case Punctuation => c == '"' || c == ',' || c == ':' || c == ';' || c == '(' || c == ')' || c == '-'
    case Terminator => c == '.' || c == '!' || c == '?'
    case NonTerminator => !(c == '.' || c == '!' || c == '?')
    case NonLetter => !IsAsciiLetter(c)
    case Digit => '0' <= c <= '9'
    case Space => c == ' '
    case StopOrSpace => c == '.' || c == ' '
    case NotClosing => c != '>'
    case WhiteSpace => IsWhiteSpace(c)
    case Vowel => c in "aeiouy"
    case NonVowel => c !in "aeiouy"
  }

  datatype Regex =
    | Class(cls: CharClass)  // one character of the class
    | Plus(cls: CharClass)   // a greedy run of one or more characters of the class
    | Tag                    // <[^>]+>
    | LineBreak              // [ ]*(\n|\r\n|\r)[ ]*
    | RepeatedStop           // ([\.])[\. ]+
    | PaddedStop             // [ ]*([\.])

  /**
   * What a whole match of each pattern looks like (for LineBreak: spaces and
   * line-break characters, with at least one line-break character).
   */
  predicate Shape(re: Regex, m: string) {
    match re
    case Class(cls) => |m| == 1 && In(cls, m[0])
    case Plus(cls) => |m| > 0 && forall i :: 0 <= i < |m| ==> In(cls, m[i])
    case Tag =>
      |m| >= 3 && m[0] == '<' && m[|m| - 1] == '>' && forall i :: 0 < i < |m| - 1 ==> m[i] != '>'
    case LineBreak =>
      |m| > 0 && (forall i :: 0 <= i < |m| ==> m[i] in " \r\n") && ('\r' in m || '\n' in m)
    case RepeatedStop =>
      |m| >= 2 && m[0] == '.' && forall i :: 1 <= i < |m| ==> In(StopOrSpace, m[i])
    case PaddedStop =>
      |m| > 0 && m[|m| - 1] == '.' && forall i :: 0 <= i < |m| - 1 ==> m[i] == ' '
  }

  /** The length of the longest prefix of s made of characters of the class. */
  function RunLength(s: string, cls: CharClass): (n: nat)
    ensures n <= |s|
    ensures forall i :: 0 <= i < n ==> In(cls, s[i])
    ensures n < |s| ==> !In(cls, s[n])
  {
    if s != [] && In(cls, s[0]) then 1 + RunLength(s[1..], cls) else 0
  }

  /**
   * The length of the match the .NET engine (leftmost, greedy, backtracking)
   * finds when it tries the pattern at the start of s; 0 when it fails there.
   */
  function MatchLength(re: Regex, s: string): (n: nat)
    ensures n <= |s|
    ensures n > 0 ==> Shape(re, s[..n])
    ensures (re.Class? || re.Plus?) ==> (n > 0 <==> s != [] && In(re.cls, s[0]))
    ensures re.Plus? && n < |s| ==> !In(re.cls, s[n])
  {
    match re
    case Class(cls) => if s != [] && In(cls, s[0]) then 1 else 0
    case Plus(cls) => RunLength(s, cls)
    case Tag =>
      if s != [] && s[0] == '<' then
        var k := RunLength(s[1..], NotClosing);
        if k >= 1 && 1 + k < |s| then k + 2 else 0
      else 0
    case LineBreak =>
      var k := RunLength(s, Space);
      if k < |s| && (s[k] == '\n' || s[k] == '\r') then
        var e := if s[k] == '\r' && k + 1 < |s| && s[k + 1] == '\n' then k + 2 else k + 1;
        var n := e + RunLength(s[e..], Space);
        assert s[..n][k] == s[k];
        n
      else 0
    case RepeatedStop =>
      if |s| >= 2 && s[0] == '.' && In(StopOrSpace, s[1]) then 1 + RunLength(s[1..], StopOrSpace) else 0
    case PaddedStop =>
      var k := RunLength(s, Space);
      if k < |s| && s[k] == '.' then k + 1 else 0
  }

  /** Regex.Matches: the values of the successive non-overlapping matches, left to right. */
  function Matches(re: Regex, s: string): (ms: seq<string>)
    ensures forall i :: 0 <= i < |ms| ==> Shape(re, ms[i])
    decreases |s|
  {
    if s == [] then []
    else
      var n := MatchLength(re, s);
      if n > 0 then [s[..n]] + Matches(re, s[n..]) else Matches(re, s[1..])
  }

  lemma ShapeNonEmpty(re: Regex, m: string)
    requires Shape(re, m)
    ensures |m| > 0
  {
  }

  /** text.Replace(v, rep) for each value v in turn. */
  function ReplaceEach(s: string, values: seq<string>, rep: string): (r: string)
    requires forall i :: 0 <= i < |values| ==> |values[i]| > 0
    ensures forall c :: c in r ==> c in s || c in rep
    ensures rep == [] ==> |r| <= |s|
    decreases |values|
  {
    if values == [] then s
    else ReplaceAll(ReplaceEach(s, values[..|values| - 1], rep), values[|values| - 1], rep)
  }

  /** foreach (Match m in Regex.Matches(s, re)) s = s.Replace(m.Value, rep); */
  function Rewrite(s: string, re: Regex, rep: string): (r: string)
    ensures forall c :: c in r ==> c in s || c in rep
  {
    var ms := Matches(re, s);
    assert forall i :: 0 <= i < |ms| ==> |ms[i]| > 0 by {
      forall i | 0 <= i < |ms| ensures |ms[i]| > 0 {
        ShapeNonEmpty(re, ms[i]);
      }
    }
    ReplaceEach(s, ms, rep)
  }

  /** The idiom as the source runs it: a loop over the match values. */
  method RewriteMatches(text: string, re: Regex, rep: string) returns (r: string)
    ensures r == Rewrite(text, re, rep)
  {
    var matches := Matches(re, text);
    forall i | 0 <= i < |matches| ensures |matches[i]| > 0 {
      ShapeNonEmpty(re, matches[i]);
    }
    r := text;
    for i := 0 to |matches|
      invariant r == ReplaceEach(text, matches[..i], rep)
    {
      assert matches[..i + 1][..i] == matches[..i];
      r := ReplaceAll(r, matches[i], rep);
    }
    assert matches[..|matches|] == matches;
  }

  // ---------------------------------------------------------------------
  // One-character classes: the rewrite deletes or maps exactly the class
  // ---------------------------------------------------------------------

  /** s without the characters of the class. */
  function Without(s: string, cls: CharClass): (r: string)
    ensures |r| <= |s|
    ensures forall i :: 0 <= i < |r| ==> !In(cls, r[i])
  {
    if s == [] then []
    else if In(cls, s[0]) then Without(s[1..], cls)
    else [s[0]] + Without(s[1..], cls)
  }

  /** s with every character of the class replaced by x. */
  function Translate(s: string, cls: CharClass, x: char): (r: string)
    ensures |r| == |s|
    ensures forall i :: 0 <= i < |s| ==> r[i] == if In(cls, s[i]) then x else s[i]
  {
    if s == [] then [] else [if In(cls, s[0]) then x else s[0]] + Translate(s[1..], cls, x)
  }

  /** The first characters of the values. */
  function Heads(values: seq<string>): set<char> {
    set i | 0 <= i < |values| && |values[i]| > 0 :: values[i][0]
  }

  /** Every character of the class occurring in s is the value of some match. */
  lemma {:induction false} ClassMatchesCover(s: string, cls: CharClass)
    ensures forall i :: 0 <= i < |s| && In(cls, s[i]) ==> s[i] in Heads(Matches(Class(cls), s))
    decreases |s|
  {
    if s != [] {
      var ms := Matches(Class(cls), s);
      var rest := Matches(Class(cls), s[1..]);
      ClassMatchesCover(s[1..], cls);
      forall i | 0 <= i < |s| && In(cls, s[i]) ensures s[i] in Heads(ms) {
        if In(cls, s[0]) {
          assert ms == [s[..1]] + rest;
          if i == 0 {
            assert ms[0][0] == s[0];
          } else {
            assert s[1..][i - 1] == s[i];
            var j :| 0 <= j < |rest| && |rest[j]| > 0 && rest[j][0] == s[i];
            assert ms[j + 1] == rest[j];
          }
        } else {
          assert ms == rest;
          assert s[1..][i - 1] == s[i];
        }
      }
    }
  }

  lemma {:induction false} ReplaceEachByNothing(s: string, values: seq<string>)
    requires forall i :: 0 <= i < |values| ==> |values[i]| == 1
    ensures ReplaceEach(s, values, "") == Drop(s, Heads(values))
    decreases |values|
  {
    if values == [] {
      assert Heads(values) == {};
      DropNothing(s);
    } else {
      var front := values[..|values| - 1];
      var last := values[|values| - 1];
      ReplaceEachByNothing(s, front);
      assert last == [last[0]];
      var mid := ReplaceEach(s, front, "");
      assert ReplaceEach(s, values, "") == ReplaceAll(mid, last, "");
      ReplaceCharByNothing(mid, last[0]);
      DropTwice(s, Heads(front), {last[0]});
      assert Heads(values) == Heads(front) + {last[0]} by {
        forall c | c in Heads(values) ensures c in Heads(front) + {last[0]} {
          var i :| 0 <= i < |values| && |values[i]| > 0 && values[i][0] == c;
          if i < |values| - 1 {
            assert front[i] == values[i];
          }
        }
        forall c | c in Heads(front) ensures c in Heads(values) {
          var i :| 0 <= i < |front| && |front[i]| > 0 && front[i][0] == c;
          assert values[i] == front[i];
        }
      }
    }
  }

  lemma {:induction false} ReplaceEachByChar(s: string, values: seq<string>, x: char)
    requires forall i :: 0 <= i < |values| ==> |values[i]| == 1
    ensures ReplaceEach(s, values, [x]) == Substitute(s, Heads(values), x)
    decreases |values|
  {
    if values != [] {
      var front := values[..|values| - 1];
      var last := values[|values| - 1];
      ReplaceEachByChar(s, front, x);
      assert last == [last[0]];
      ReplaceCharByChar(ReplaceEach(s, front, [x]), last[0], x);
      SubstituteTwice(s, Heads(front), {last[0]}, x);
      assert Heads(values) == Heads(front) + {last[0]} by {
        forall c | c in Heads(values) ensures c in Heads(front) + {last[0]} {
          var i :| 0 <= i < |values| && |values[i]| > 0 && values[i][0] == c;
          if i < |values| - 1 {
            assert front[i] == values[i];
          }
        }
        forall c | c in Heads(front) ensures c in Heads(values) {
          var i :| 0 <= i < |front| && |front[i]| > 0 && front[i][0] == c;
          assert values[i] == front[i];
        }
      }
    }
  }

  lemma {:induction false} DropIsWithout(s: string, cs: set<char>, cls: CharClass)
    requires forall i :: 0 <= i < |s| ==> (s[i] in cs <==> In(cls, s[i]))
    ensures Drop(s, cs) == Without(s, cls)
    decreases |s|
  {
    if s != [] {
      DropIsWithout(s[1..], cs, cls);
    }
  }

  /** Class heads of the matches are exactly the class characters that occur in s. */
  lemma ClassHeads(s: string, cls: CharClass)
    ensures forall i :: 0 <= i < |s| ==> (s[i] in Heads(Matches(Class(cls), s)) <==> In(cls, s[i]))
  {
    var ms := Matches(Class(cls), s);
    ClassMatchesCover(s, cls);
    forall c | c in Heads(ms) ensures In(cls, c) {
      var i :| 0 <= i < |ms| && |ms[i]| > 0 && ms[i][0] == c;
      assert Shape(Class(cls), ms[i]);
    }
  }

  /** Rewriting a one-character class to nothing deletes exactly the characters of the class. */
  lemma RewriteClassDeletes(s: string, cls: CharClass)
    ensures Rewrite(s, Class(cls), "") == Without(s, cls)
  {
    var ms := Matches(Class(cls), s);
    ReplaceEachByNothing(s, ms);
    ClassHeads(s, cls);
    DropIsWithout(s, Heads(ms), cls);
  }

  /** Rewriting a one-character class to x maps exactly the characters of the class to x. */
  lemma RewriteClassTranslates(s: string, cls: CharClass, x: char)
    ensures Rewrite(s, Class(cls), [x]) == Translate(s, cls, x)
  {
    var ms := Matches(Class(cls), s);
    ReplaceEachByChar(s, ms, x);
    ClassHeads(s, cls);
  }

  // ---------------------------------------------------------------------
  // Facts that survive a rewrite
  // ---------------------------------------------------------------------

  lemma {:induction false} ReplaceEachKeepsLast(s: string, values: seq<string>, rep: string)
    requires forall i :: 0 <= i < |values| ==> |values[i]| > 0
    requires |s| > 0
    requires (|rep| > 0 && rep[|rep| - 1] == s[|s| - 1])
             || forall i :: 0 <= i < |values| ==> s[|s| - 1] !in values[i]
    ensures var r := ReplaceEach(s, values, rep); |r| > 0 && r[|r| - 1] == s[|s| - 1]
    decreases |values|
  {
    if values != [] {
      var front := values[..|values| - 1];
      ReplaceEachKeepsLast(s, front, rep);
      ReplaceKeepsLast(ReplaceEach(s, front, rep), values[|values| - 1], rep);
    }
  }

  /**
   * A rewrite keeps the last character of the text when no match of the
   * pattern can contain it, or when the replacement ends with it.
   */
  lemma RewriteKeepsLast(s: string, re: Regex, rep: string)
    requires |s| > 0
    requires (|rep| > 0 && rep[|rep| - 1] == s[|s| - 1])
             || forall m :: Shape(re, m) ==> s[|s| - 1] !in m
    ensures var r := Rewrite(s, re, rep); |r| > 0 && r[|r| - 1] == s[|s| - 1]
  {
    var ms := Matches(re, s);
    forall i | 0 <= i < |ms| ensures |ms[i]| > 0 {
      ShapeNonEmpty(re, ms[i]);
    }
    ReplaceEachKeepsLast(s, ms, rep);
  }

  lemma {:induction false} ReplaceEachKeepsEndsWithStop(s: string, values: seq<string>, rep: string)
    requires forall i :: 0 <= i < |values| ==> |values[i]| > 0 && TrimEnd(values[i]) != []
    requires EndsWithStop(s) && EndsWithStop(rep)
    ensures EndsWithStop(ReplaceEach(s, values, rep))
    decreases |values|
  {
    if values != [] {
      var front := values[..|values| - 1];
      ReplaceEachKeepsEndsWithStop(s, front, rep);
      ReplaceKeepsEndsWithStop(ReplaceEach(s, front, rep), values[|values| - 1], rep);
    }
  }

  /**
   * A rewrite whose matches all hold a non-blank character, with a
   * replacement whose last non-blank character is '.', keeps the last
   * non-blank character of the text a '.'.
   */
  lemma RewriteKeepsEndsWithStop(s: string, re: Regex, rep: string)
    requires EndsWithStop(s) && EndsWithStop(rep)
    requires forall m :: Shape(re, m) ==> TrimEnd(m) != []
    ensures EndsWithStop(Rewrite(s, re, rep))
  {
    var ms := Matches(re, s);
    forall i | 0 <= i < |ms| ensures |ms[i]| > 0 && TrimEnd(ms[i]) != [] {
      ShapeNonEmpty(re, ms[i]);
    }
    ReplaceEachKeepsEndsWithStop(s, ms, rep);
  }

  lemma {:induction false} WithoutConcat(a: string, b: string, cls: CharClass)
    ensures Without(a + b, cls) == Without(a, cls) + Without(b, cls)
    decreases |a|
  {
    if a != [] {
      assert (a + b)[1..] == a[1..] + b;
      WithoutConcat(a[1..], b, cls);
    } else {
      assert a + b == b;
    }
  }

  lemma {:induction false} ReplaceKeepsOthers(s: string, pat: string, cls: CharClass)
    requires |pat| > 0 && forall i :: 0 <= i < |pat| ==> In(cls, pat[i])
    ensures Without(ReplaceAll(s, pat, ""), cls) == Without(s, cls)
    decreases |s|
  {
    if |s| >= |pat| {
      if s[..|pat|] == pat {
        var t := s[|pat|..];
        assert ReplaceAll(s, pat, "") == ReplaceAll(t, pat, "") by {
          assert "" + ReplaceAll(t, pat, "") == ReplaceAll(t, pat, "");
        }
        assert Without(s, cls) == Without(t, cls) by {
          assert s == pat + t;
          WithoutConcat(pat, t, cls);
          WithoutOfClassOnly(pat, cls);
        }
        ReplaceKeepsOthers(t, pat, cls);
      } else {
        var r := ReplaceAll(s[1..], pat, "");
        assert ReplaceAll(s, pat, "") == [s[0]] + r;
        ReplaceKeepsOthers(s[1..], pat, cls);
        WithoutConcat([s[0]], r, cls);
        assert Without(s, cls) == Without([s[0]], cls) + Without(s[1..], cls) by {
          WithoutConcat([s[0]], s[1..], cls);
          assert s == [s[0]] + s[1..];
        }
      }
    }
  }

  /** A text made only of class characters vanishes. */
  lemma WithoutOfClassOnly(pat: string, cls: CharClass)
    requires forall i :: 0 <= i < |pat| ==> In(cls, pat[i])
    ensures Without(pat, cls) == []
  {
    if Without(pat, cls) != [] {
      var c := Without(pat, cls)[0];
      assert c in Without(pat, cls);
      WithoutSubset(pat, cls);
    }
  }

  lemma WithoutSubset(s: string, cls: CharClass)
    ensures forall c :: c in Without(s, cls) ==> c in s && !In(cls, c)
  {
    var r := Without(s, cls);
    forall c | c in r ensures c in s && !In(cls, c) {
      WithoutMember(s, cls, c);
    }
  }

  lemma {:induction false} WithoutMember(s: string, cls: CharClass, c: char)
    requires c in Without(s, cls)
    ensures c in s && !In(cls, c)
    decreases |s|
  {
    if s != [] && c != s[0] {
      WithoutMember(s[1..], cls, c);
    }
  }

  /**
   * Deleting runs of a class, value by value, never deletes a character
   * outside the class: the characters outside it are kept in order.
   */
  lemma {:induction false} RewriteRunsKeepsOthers(s: string, cls: CharClass)
    ensures Without(Rewrite(s, Plus(cls), ""), cls) == Without(s, cls)
  {
    var ms := Matches(Plus(cls), s);
    forall i | 0 <= i < |ms| ensures |ms[i]| > 0 {
      ShapeNonEmpty(Plus(cls), ms[i]);
    }
    ReplaceEachKeepsOthers(s, ms, cls);
  }

  lemma {:induction false} ReplaceEachKeepsOthers(s: string, values: seq<string>, cls: CharClass)
    requires forall i :: 0 <= i < |values| ==> Shape(Plus(cls), values[i])
    ensures forall i :: 0 <= i < |values| ==> |values[i]| > 0
    ensures Without(ReplaceEach(s, values, ""), cls) == Without(s, cls)
    decreases |values|
  {
    if values != [] {
      var front := values[..|values| - 1];
      ReplaceEachKeepsOthers(s, front, cls);
      ReplaceKeepsOthers(ReplaceEach(s, front, ""), values[|values| - 1], cls);
    }
  }

  // ---------------------------------------------------------------------
  // Matches of a greedy run: the maximal runs of the class, left to right
  // ---------------------------------------------------------------------

  lemma {:induction false} RunLengthOfRun(r: string, y: string, cls: CharClass)
    requires forall i :: 0 <= i < |r| ==> In(cls, r[i])
    requires y == [] || !In(cls, y[0])
    ensures RunLength(r + y, cls) == |r|
    decreases |r|
  {
    if r != [] {
      assert (r + y)[1..] == r[1..] + y;
      RunLengthOfRun(r[1..], y, cls);
    } else {
      assert r + y == y;
    }
  }

  /** Characters outside the class start no match. */
  lemma {:induction false} PlusSkips(x: string, y: string, cls: CharClass)
    requires forall i :: 0 <= i < |x| ==> !In(cls, x[i])
    ensures Matches(Plus(cls), x + y) == Matches(Plus(cls), y)
    decreases |x|
  {
    if x != [] {
      assert (x + y)[1..] == x[1..] + y;
      PlusSkips(x[1..], y, cls);
    } else {
      assert x + y == y;
    }
  }

  /** A whole run of the class is one match. */
  lemma PlusTakesRun(r: string, y: string, cls: CharClass)
    requires r != [] && forall i :: 0 <= i < |r| ==> In(cls, r[i])
    requires y == [] || !In(cls, y[0])
    ensures Matches(Plus(cls), r + y) == [r] + Matches(Plus(cls), y)
  {
    RunLengthOfRun(r, y, cls);
    assert (r + y)[..|r|] == r && (r + y)[|r|..] == y;
  }

  // ---------------------------------------------------------------------
  // Texts some patterns cannot match, or match once
  // ---------------------------------------------------------------------

  /** With no match, the rewrite leaves the text as it is. */
  lemma RewriteNone(s: string, re: Regex, rep: string)
    requires Matches(re, s) == []
    ensures Rewrite(s, re, rep) == s
  {
  }

  /** With one match value m, the rewrite is one ordinal replace of m. */
  lemma RewriteOne(s: string, re: Regex, rep: string, m: string)
    requires Matches(re, s) == [m]
    ensures |m| > 0 && Rewrite(s, re, rep) == ReplaceAll(s, m, rep)
  {
    var ms := Matches(re, s);
    assert ms[..0] == [] && ms[0] == m;
    ShapeNonEmpty(re, m);
    assert ReplaceEach(s, ms[..0], rep) == s;
  }

  /**
   * <[^>]+> needs a closing '>': a text without one has no tag match, so
   * a lone '<', as in "a < b", is kept.
   */
  lemma {:induction false} UnclosedTagKept(s: string)
    requires '>' !in s
    ensures Matches(Tag, s) == []
    ensures Rewrite(s, Tag, "") == s
    decreases |s|
  {
    if s != [] {
      assert forall i :: 0 <= i < |s[1..]| ==> s[1..][i] != '>';
      assert MatchLength(Tag, s) == 0;
      UnclosedTagKept(s[1..]);
    }
  }

  /** Characters outside the class start no one-character match. */
  lemma {:induction false} ClassSkips(x: string, y: string, cls: CharClass)
    requires forall i :: 0 <= i < |x| ==> !In(cls, x[i])
    ensures Matches(Class(cls), x + y) == Matches(Class(cls), y)
    decreases |x|
  {
    if x != [] {
      assert (x + y)[1..] == x[1..] + y;
      ClassSkips(x[1..], y, cls);
    } else {
      assert x + y == y;
    }
  }

  /** A text with no character of the class is left as it is by a one-character rewrite. */
  lemma ClassAbsentKept(s: string, cls: CharClass, rep: string)
    requires forall i :: 0 <= i < |s| ==> !In(cls, s[i])
    ensures Rewrite(s, Class(cls), rep) == s
  {
    ClassSkips(s, [], cls);
    assert s + [] == s;
  }

  /** A text without a line-break character has no line-break match. */
  lemma {:induction false} LineBreakAbsent(s: string)
    requires '\n' !in s && '\r' !in s
    ensures Matches(LineBreak, s) == []
    decreases |s|
  {
    if s != [] {
      assert MatchLength(LineBreak, s) == 0;
      LineBreakAbsent(s[1..]);
    }
  }

  /** Characters other than '.' start no repeated-stop match. */
  lemma {:induction false} RepeatedStopSkips(x: string, y: string)
    requires '.' !in x
    ensures Matches(RepeatedStop, x + y) == Matches(RepeatedStop, y)
    decreases |x|
  {
    if x != [] {
      assert (x + y)[1..] == x[1..] + y;
      RepeatedStopSkips(x[1..], y);
    } else {
      assert x + y == y;
    }
  }

  /**
   * In x + "." with no '.' in x and no space at the end of x, the only
   * padded-stop match is the final "." on its own.
   */
  lemma {:induction false} PaddedStopAtEnd(x: string)
    requires '.' !in x && (x == [] || x[|x| - 1] != ' ')
    ensures Matches(PaddedStop, x + ".") == ["."]
    decreases |x|
  {
    if x != [] {
      var s := x + ".";
      var k := RunLength(s, Space);
      assert s[|x| - 1] == x[|x| - 1];
      assert k < |x| && s[k] == x[k];
      assert MatchLength(PaddedStop, s) == 0;
      assert s[1..] == x[1..] + ".";
      PaddedStopAtEnd(x[1..]);
    } else {
      assert x + "." == ".";
      assert MatchLength(PaddedStop, ".") == 1;
      assert "."[..1] == "." && "."[1..] == [];
    }
  }

  // ---------------------------------------------------------------------
  // Regex.Split on a run of one class
  // ---------------------------------------------------------------------

  /** The number of maximal runs of characters of the class in s (counted at their last character). */
  function RunCount(s: string, cls: CharClass): (n: nat)
    ensures n <= |s|
  {
    if s == [] then 0
    else (if In(cls, s[0]) && (|s| == 1 || !In(cls, s[1])) then 1 else 0) + RunCount(s[1..], cls)
  }

  /**
   * Regex.Split(s, "[class]+"): the pieces between the maximal runs of the
   * class, with an empty first piece when s starts with a run and an empty
   * last piece when it ends with one.
   */
  function Split(s: string, cls: CharClass): (parts: seq<string>)
    ensures |parts| == RunCount(s, cls) + 1
    ensures parts[0] == [] <==> s == [] || In(cls, s[0])
    ensures forall i, j :: 0 <= i < |parts| && 0 <= j < |parts[i]| ==> !In(cls, parts[i][j])
    decreases |s|
  {
    if s == [] then [[]]
    else
      var rest := Split(s[1..], cls);
      if !In(cls, s[0]) then [[s[0]] + rest[0]] + rest[1..]
      else if |s| > 1 && In(cls, s[1]) then rest
      else [[]] + rest
  }

  /** The last piece is empty exactly when s is empty or ends with the class. */
  lemma {:induction false} SplitLastPiece(s: string, cls: CharClass)
    ensures Split(s, cls)[RunCount(s, cls)] == [] <==> s == [] || In(cls, s[|s| - 1])
    decreases |s|
  {
    if s != [] {
      var t := s[1..];
      var rest := Split(t, cls);
      SplitLastPiece(t, cls);
      var parts := Split(s, cls);
      if t == [] {
        assert rest == [[]];
      } else {
        assert t[|t| - 1] == s[|s| - 1];
        if !In(cls, s[0]) {
          LastPieceAfterLetter(s, cls);
        } else if In(cls, s[1]) {
          assert parts == rest;
        } else {
          assert parts == [[]] + rest;
        }
      }
    }
  }

  /** A first character outside the class joins the first piece and leaves the last one as it was. */
  lemma LastPieceAfterLetter(s: string, cls: CharClass)
    requires |s| > 1 && !In(cls, s[0])
    requires Split(s[1..], cls)[RunCount(s[1..], cls)] == [] <==> In(cls, s[|s| - 1])
    ensures Split(s, cls)[RunCount(s, cls)] == [] <==> In(cls, s[|s| - 1])
  {
    var t := s[1..];
    var k := RunCount(t, cls);
    LastPieceOfLetterStart(s, cls);
    if k == 0 {
      assert !In(cls, t[|t| - 1]) by {
        if In(cls, t[|t| - 1]) {
          RunCountOfClassEnd(t, cls);
        }
      }
    }
  }

  lemma LastPieceOfLetterStart(s: string, cls: CharClass)
    requires |s| > 1 && !In(cls, s[0])
    ensures RunCount(s, cls) == RunCount(s[1..], cls)
    ensures Split(s, cls)[RunCount(s, cls)]
         == if RunCount(s, cls) == 0 then [s[0]] + Split(s[1..], cls)[0] else Split(s[1..], cls)[RunCount(s, cls)]
  {
    var rest := Split(s[1..], cls);
    SplitOfLetterStart(s, cls);
    PieceAfterCons([s[0]] + rest[0], rest, RunCount(s, cls));
  }

  lemma SplitOfLetterStart(s: string, cls: CharClass)
    requires |s| > 1 && !In(cls, s[0])
    ensures Split(s, cls) == [[s[0]] + Split(s[1..], cls)[0]] + Split(s[1..], cls)[1..]
  {
  }

  lemma PieceAfterCons(x: string, rest: seq<string>, k: nat)
    requires k < |rest|
    ensures ([x] + rest[1..])[k] == if k == 0 then x else rest[k]
  {
  }

  /** Every piece strictly between the first and the last is non-empty. */
  lemma {:induction false} SplitInnerPieces(s: string, cls: CharClass)
    ensures forall i :: 0 < i < RunCount(s, cls) ==> Split(s, cls)[i] != []
    decreases |s|
  {
    if s != [] {
      var t := s[1..];
      var rest := Split(t, cls);
      SplitInnerPieces(t, cls);
      var parts := Split(s, cls);
      if !In(cls, s[0]) {
        assert parts == [[s[0]] + rest[0]] + rest[1..];
      } else if |s| > 1 && In(cls, s[1]) {
        assert parts == rest;
      } else {
        assert parts == [[]] + rest;
      }
    }
  }

  lemma {:induction false} RunCountOfClassEnd(s: string, cls: CharClass)
    requires s != [] && In(cls, s[|s| - 1])
    ensures RunCount(s, cls) >= 1
    decreases |s|
  {
    if |s| > 1 {
      assert s[1..][|s| - 2] == s[|s| - 1];
      RunCountOfClassEnd(s[1..], cls);
    }
  }

  /** A text that neither starts nor ends with the class splits into non-empty pieces only. */
  lemma SplitWithoutEmptyPieces(s: string, cls: CharClass)
    requires s != [] && !In(cls, s[0]) && !In(cls, s[|s| - 1])
    ensures forall i :: 0 <= i < |Split(s, cls)| ==> Split(s, cls)[i] != []
  {
    var parts := Split(s, cls);
    SplitLastPiece(s, cls);
    SplitInnerPieces(s, cls);
    forall i | 0 <= i < |parts|
      ensures parts[i] != []
    {
      if i == 0 {
        assert parts[0] != [];
      } else if i == RunCount(s, cls) {
        assert parts[RunCount(s, cls)] != [];
      }
    }
  }

  /** The number of non-empty pieces. */
  function NonEmptyCount(parts: seq<string>): nat {
    if parts == [] then 0 else (if parts[0] != [] then 1 else 0) + NonEmptyCount(parts[1..])
  }

  lemma NonEmptyCountOfPrefix(parts: seq<string>, i: nat)
    requires i < |parts|
    ensures NonEmptyCount(parts[..i + 1]) == NonEmptyCount(parts[..i]) + if parts[i] != [] then 1 else 0
  {
    if i > 0 {
      assert parts[..i + 1][1..] == parts[1..][..i];
      assert parts[..i][1..] == parts[1..][..i - 1];
      NonEmptyCountOfPrefix(parts[1..], i - 1);
    }
  }

  /**
   * Splitting on runs of non-vowels leaves one non-empty piece per maximal
   * run of vowels.
   */
  lemma {:induction false} SplitCountsVowelGroups(s: string)
    ensures NonEmptyCount(Split(s, NonVowel)) == RunCount(s, Vowel)
    decreases |s|
  {
    if s != [] {
      var rest := Split(s[1..], NonVowel);
      SplitCountsVowelGroups(s[1..]);
      if !In(NonVowel, s[0]) {
        var parts := [[s[0]] + rest[0]] + rest[1..];
        assert parts[1..] == rest[1..];
        assert rest == [rest[0]] + rest[1..];
      }
    }
  }
}
