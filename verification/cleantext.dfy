/**
 * CleanText: the ordered pipeline of ordinal replacements and regex
 * rewrites that turns marked-up text into plain sentences, each ending in a
 * full stop, with single spaces between words.
 */
module Normalizer {
  import opened Strings
  import opened Patterns

  /** The block tags whose closing tag ends a sentence, in the order they are replaced. */
  const BlockTags: seq<string> := ["li", "p", "h1", "h2", "h3", "h4", "h5", "h6", "dd"]

  function ClosingTag(tag: string): string {
    "</" + tag + ">"
  }

  /** text.Replace("</tag>", ".") for each tag in turn; the match is ordinal and case-sensitive. */
  function CloseTags(s: string, tags: seq<string>): string
    decreases |tags|
  {
    if tags == [] then s else CloseTags(ReplaceAll(s, ClosingTag(tags[0]), "."), tags[1..])
  }

  /** An ordered pattern-to-replacement dictionary. */
  type Table = seq<(Regex, string)>

  /** Strip tags, blank punctuation, unify terminators. */
  const Punctuate: Table := [(Tag, ""), (Class(Punctuation), " "), (Class(Terminator), ".")]

  /** Line breaks to spaces, repeated terminators to one, pad each terminator. */
  const Collapse: Table := [(LineBreak, " "), (RepeatedStop, "."), (PaddedStop, ". ")]

  /** Digit runs to a space, space runs to one space. */
  const Tidy: Table := [(Plus(Digit), " "), (Plus(Space), " ")]

  /** The rewrite idiom applied for each entry of the table, in order. */
  function RewriteAll(s: string, table: Table): string
    decreases |table|
  {
    if table == [] then s else RewriteAll(Rewrite(s, table[0].0, table[0].1), table[1..])
  }

  /** The whole pipeline, stage by stage. */
  function Clean(text: string): string {
    var tagged := CloseTags(text, BlockTags);
    var plain := RewriteAll(tagged, Punctuate);
    var stopped := Trim(plain) + ".";
    var collapsed := RewriteAll(stopped, Collapse);
    var tidied := RewriteAll(Trim(collapsed), Tidy);
    Trim(tidied)
  }

  // ---------------------------------------------------------------------
  // The implementation
  // ---------------------------------------------------------------------

  method ReplaceTable(text: string, table: Table) returns (r: string)
    ensures r == RewriteAll(text, table)
  {
    r := text;
    for i := 0 to |table|
      invariant RewriteAll(r, table[i..]) == RewriteAll(text, table)
    {
      assert table[i..][1..] == table[i + 1..];
      r := RewriteMatches(r, table[i].0, table[i].1);
    }
  }

  method CleanText(text: string) returns (r: string)
    ensures r == Clean(text)
    ensures IsCleaned(r)
  {
    r := text;
    for i := 0 to |BlockTags|
      invariant CloseTags(r, BlockTags[i..]) == CloseTags(text, BlockTags)
    {
      assert BlockTags[i..][1..] == BlockTags[i + 1..];
      r := ReplaceAll(r, ClosingTag(BlockTags[i]), ".");
    }
    r := ReplaceTable(r, Punctuate);
    r := Trim(r) + ".";
    r := ReplaceTable(r, Collapse);
    r := Trim(r);
    r := ReplaceTable(r, Tidy);
    r := Trim(r);
    CleanShape(text);
  }

  // ---------------------------------------------------------------------
  // What the pipeline guarantees
  // ---------------------------------------------------------------------

  /** No terminator other than '.' and none of the punctuation marks the pipeline blanks. */
  predicate Plain(s: string) {
    forall c :: c in s ==> c != '!' && c != '?' && !In(Punctuation, c)
  }

  /**
   * The shape of every cleaned text: non-empty, no leading or trailing
   * whitespace, a final '.', and no '!', '?' or blanked punctuation mark.
   */
  predicate IsCleaned(r: string) {
    LastIsStop(r) && !IsWhiteSpace(r[0]) && Plain(r)
  }

  /** After the first table no terminator other than '.' and no punctuation is left. */
  lemma PunctuateUnifies(s: string)
    ensures Plain(RewriteAll(s, Punctuate))
  {
    var a := Rewrite(s, Tag, "");
    var b := Rewrite(a, Class(Punctuation), " ");
    var c := Rewrite(b, Class(Terminator), ".");
    assert RewriteAll(s, Punctuate) == c by {
      assert Punctuate[1..][1..][1..] == [];
    }
    RewriteClassTranslates(a, Punctuation, ' ');
    RewriteClassTranslates(b, Terminator, '.');
    forall x | x in c ensures x != '!' && x != '?' && !In(Punctuation, x) {
      var i :| 0 <= i < |c| && c[i] == x;
      assert !In(Punctuation, b[i]);
    }
  }

  /** The second table keeps a text that ends in '.' ending, after trimming, in '.'. */
  lemma CollapseKeepsStop(s: string)
    requires LastIsStop(s)
    ensures EndsWithStop(RewriteAll(s, Collapse))
  {
    var a := Rewrite(s, LineBreak, " ");
    assert LastIsStop(a) by {
      LineBreakStep(s);
    }
    var b := Rewrite(a, RepeatedStop, ".");
    assert LastIsStop(b) by {
      RepeatedStopStep(a);
    }
    assert EndsWithStop(Rewrite(b, PaddedStop, ". ")) by {
      PaddedStopStep(b);
    }
    CollapseStages(s);
  }

  lemma PunctuateStages(s: string)
    ensures RewriteAll(s, Punctuate)
         == Rewrite(Rewrite(Rewrite(s, Tag, ""), Class(Punctuation), " "), Class(Terminator), ".")
  {
    assert Punctuate[1..][1..][1..] == [];
  }

  lemma TidyStages(s: string)
    ensures RewriteAll(s, Tidy) == Rewrite(Rewrite(s, Plus(Digit), " "), Plus(Space), " ")
  {
    assert Tidy[1..][1..] == [];
  }

  lemma CollapseStages(s: string)
    ensures RewriteAll(s, Collapse)
         == Rewrite(Rewrite(Rewrite(s, LineBreak, " "), RepeatedStop, "."), PaddedStop, ". ")
  {
    assert Collapse[1..][1..][1..] == [];
  }

  lemma LineBreakStep(s: string)
    requires LastIsStop(s)
    ensures LastIsStop(Rewrite(s, LineBreak, " "))
  {
    LineBreaksHoldNoStop();
    RewriteKeepsLast(s, LineBreak, " ");
  }

  lemma RepeatedStopStep(s: string)
    requires LastIsStop(s)
    ensures LastIsStop(Rewrite(s, RepeatedStop, "."))
  {
    RewriteKeepsLast(s, RepeatedStop, ".");
  }

  lemma PaddedStopStep(s: string)
    requires LastIsStop(s)
    ensures EndsWithStop(Rewrite(s, PaddedStop, ". "))
  {
    StopEndsWithStop(s);
    assert EndsWithStop(". ") by {
      assert TrimEnd(". ") == ".";
    }
    PaddedStopsAreNotBlank();
    RewriteKeepsEndsWithStop(s, PaddedStop, ". ");
  }

  lemma LineBreaksHoldNoStop()
    ensures forall m :: Shape(LineBreak, m) ==> '.' !in m
  {
    forall m | Shape(LineBreak, m) ensures '.' !in m {
      forall i | 0 <= i < |m| ensures m[i] != '.' {
        assert m[i] in " \r\n";
      }
    }
  }

  lemma PaddedStopsAreNotBlank()
    ensures forall m :: Shape(PaddedStop, m) ==> TrimEnd(m) != []
  {
    forall m | Shape(PaddedStop, m) ensures TrimEnd(m) != [] {
      BlankIffTrimEndEmpty(m);
    }
  }

  /** The third table keeps the final '.' of a text. */
  lemma TidyKeepsLast(s: string)
    requires LastIsStop(s)
    ensures LastIsStop(RewriteAll(s, Tidy))
  {
    var a := Rewrite(s, Plus(Digit), " ");
    assert RewriteAll(s, Tidy) == Rewrite(a, Plus(Space), " ") by {
      assert Tidy[1..][1..] == [];
    }
    RewriteKeepsLast(s, Plus(Digit), " ");
    RewriteKeepsLast(a, Plus(Space), " ");
  }

  /** The second and third tables bring in only spaces and full stops. */
  lemma LaterTablesKeepPlain(s: string)
    requires Plain(s)
    ensures Plain(RewriteAll(s, Collapse)) && Plain(RewriteAll(s, Tidy))
  {
    assert Collapse[1..][1..][1..] == [];
    assert Tidy[1..][1..] == [];
  }

  lemma TrimKeepsPlain(s: string)
    requires Plain(s)
    ensures Plain(Trim(s)) && Plain(Trim(s) + ".")
  {
  }

  /**
   * Whatever the input, the cleaned text is non-empty, starts with a
   * non-blank character, ends with '.', and holds neither '!' nor '?' nor
   * any of the blanked punctuation marks.
   */
  lemma CleanShape(text: string)
    ensures IsCleaned(Clean(text))
  {
    var plain := RewriteAll(CloseTags(text, BlockTags), Punctuate);
    assert Plain(plain) by {
      PunctuateUnifies(CloseTags(text, BlockTags));
    }
    var stopped := Trim(plain) + ".";
    assert Plain(stopped) by {
      TrimKeepsPlain(plain);
    }
    var collapsed := RewriteAll(stopped, Collapse);
    assert EndsWithStop(collapsed) && Plain(collapsed) by {
      CollapseKeepsStop(stopped);
      LaterTablesKeepPlain(stopped);
    }
    var trimmed := Trim(collapsed);
    assert LastIsStop(trimmed) && Plain(trimmed) by {
      TrimEndsWithStop(collapsed);
      TrimKeepsPlain(collapsed);
    }
    var tidied := RewriteAll(trimmed, Tidy);
    assert LastIsStop(tidied) by {
      TidyKeepsLast(trimmed);
    }
    assert Plain(tidied) by {
      LaterTablesKeepPlain(trimmed);
    }
    var r := Trim(tidied);
    assert LastIsStop(r) && Plain(r) by {
      TrimKeepsStop(tidied);
      TrimKeepsPlain(tidied);
    }
    assert IsCleaned(r);
  }

  // ---------------------------------------------------------------------
  // Closing tags are matched ordinally
  // ---------------------------------------------------------------------

  /** A pattern holding a character the text lacks does not occur in it. */
  lemma {:induction false} ReplaceAbsent(s: string, pat: string, rep: string, c: char)
    requires |pat| > 0 && c in pat && c !in s
    ensures ReplaceAll(s, pat, rep) == s
    decreases |s|
  {
    if |s| >= |pat| {
      assert s[..|pat|] != pat by {
        var i :| 0 <= i < |pat| && pat[i] == c;
        assert s[i] in s;
        assert s[..|pat|][i] == s[i];
      }
      ReplaceAbsent(s[1..], pat, rep, c);
      assert s == [s[0]] + s[1..];
    }
  }

  /**
   * The replacement is case-sensitive: a text with no lower-case letter,
   * such as "</P>" or "</LI>", keeps its closing tags.
   */
  lemma {:induction false} UpperCaseTagsKept(s: string, tags: seq<string>)
    requires forall i :: 0 <= i < |s| ==> !('a' <= s[i] <= 'z')
    requires forall k :: 0 <= k < |tags| ==> |tags[k]| > 0 && 'a' <= tags[k][0] <= 'z'
    ensures CloseTags(s, tags) == s
    decreases |tags|
  {
    if tags != [] {
      var t := ClosingTag(tags[0]);
      assert t[2] == tags[0][0];
      ReplaceAbsent(s, t, ".", tags[0][0]);
      UpperCaseTagsKept(s, tags[1..]);
    }
  }

  /** A text with no '<' is not touched by the tag step. */
  lemma {:induction false} TagFreeKept(s: string, tags: seq<string>)
    requires '<' !in s
    ensures CloseTags(s, tags) == s
    decreases |tags|
  {
    if tags != [] {
      var t := ClosingTag(tags[0]);
      assert t[0] == '<';
      ReplaceAbsent(s, t, ".", '<');
      TagFreeKept(s, tags[1..]);
    }
  }

  /** "</P>" is left alone, and so is every upper-case closing tag. */
  lemma UpperCaseParagraphKept()
    ensures CloseTags("</P>", BlockTags) == "</P>"
  {
    UpperCaseTagsKept("</P>", BlockTags);
  }

  /** "</p>" becomes ".". */
  lemma ParagraphClosed()
    ensures CloseTags("</p>", BlockTags) == "."
  {
    var tags := BlockTags;
    assert CloseTags("</p>", tags) == CloseTags(ReplaceAll("</p>", ClosingTag("li"), "."), tags[1..]);
    assert ReplaceAll("</p>", ClosingTag("li"), ".") == "</p>" by {
      ReplaceAbsent("</p>", ClosingTag("li"), ".", 'l');
    }
    assert ReplaceAll("</p>", ClosingTag("p"), ".") == ".";
    TagFreeKept(".", tags[2..]);
  }
  // ---------------------------------------------------------------------
  // The tag step as one left-to-right pass
  // ---------------------------------------------------------------------

  /** A tag name without '<', '>' or '.', as every name in BlockTags is. */
  predicate PlainName(tag: string) {
    '<' !in tag && '>' !in tag && '.' !in tag
  }

  predicate AllPlain(tags: seq<string>) {
    forall k :: 0 <= k < |tags| ==> PlainName(tags[k])
  }

  lemma BlockTagsPlain()
    ensures AllPlain(BlockTags)
  {
  }

  /** A closing tag of a plain name has '<' only first, '>' only last, and no '.'. */
  lemma ClosingTagShape(tag: string)
    requires PlainName(tag)
    ensures |ClosingTag(tag)| >= 3 && ClosingTag(tag)[0] == '<' && ClosingTag(tag)[|ClosingTag(tag)| - 1] == '>'
    ensures forall k :: 0 < k < |ClosingTag(tag)| ==> ClosingTag(tag)[k] != '<'
    ensures forall k :: 0 <= k < |ClosingTag(tag)| - 1 ==> ClosingTag(tag)[k] != '>'
    ensures forall k :: 0 <= k < |ClosingTag(tag)| ==> ClosingTag(tag)[k] != '.'
  {
    var c := ClosingTag(tag);
    forall k | 2 <= k < |c| - 1
      ensures c[k] == tag[k - 2]
    {
    }
  }

  /** The length of the first closing tag of tags that starts s, or 0 when none does. */
  function MatchedLength(s: string, tags: seq<string>): (n: nat)
    ensures n > 0 ==> n <= |s| && exists k :: 0 <= k < |tags| && ClosingTag(tags[k]) == s[..n]
    ensures n == 0 <==> forall k :: 0 <= k < |tags| ==> !(ClosingTag(tags[k]) <= s)
    decreases |tags|
  {
    if tags == [] then 0
    else if ClosingTag(tags[0]) <= s then |ClosingTag(tags[0])|
    else MatchedLength(s, tags[1..])
  }

  /**
   * The reference for the tag step: one scan from the left that turns each
   * closing tag of tags into "." and copies every other character.
   */
  function CloseAll(s: string, tags: seq<string>): string
    decreases |s|
  {
    if s == [] then []
    else
      var n := MatchedLength(s, tags);
      if n > 0 then "." + CloseAll(s[n..], tags) else [s[0]] + CloseAll(s[1..], tags)
  }

  /** With no tags, the scan copies the text. */
  lemma {:induction false} CloseNothing(s: string)
    ensures CloseAll(s, []) == s
    decreases |s|
  {
    if s != [] {
      CloseNothing(s[1..]);
      assert s == [s[0]] + s[1..];
    }
  }

  /** A tag longer than the text plays no part in the scan. */
  lemma {:induction false} ShortSkipsTag(s: string, t: string, rest: seq<string>)
    requires |s| < |ClosingTag(t)|
    ensures CloseAll(s, [t] + rest) == CloseAll(s, rest)
    decreases |s|
  {
    if s != [] {
      assert MatchedLength(s, [t] + rest) == MatchedLength(s, rest) by {
        assert ([t] + rest)[1..] == rest;
      }
      var n := MatchedLength(s, rest);
      if n > 0 {
        ShortSkipsTag(s[n..], t, rest);
      } else {
        ShortSkipsTag(s[1..], t, rest);
      }
    }
  }

  /** Whether a closing tag starts the text after a closing tag does not depend on what follows it. */
  lemma PrefixAfterTag(tag: string, other: string, x: string)
    requires PlainName(tag) && PlainName(other)
    ensures ClosingTag(other) <= ClosingTag(tag) + x <==> ClosingTag(other) <= ClosingTag(tag)
  {
    var c := ClosingTag(tag);
    var d := ClosingTag(other);
    ClosingTagShape(tag);
    ClosingTagShape(other);
    if |d| <= |c| {
      assert (c + x)[..|d|] == c[..|d|];
    } else {
      assert (c + x)[|c| - 1] == '>' != d[|c| - 1];
    }
  }

  lemma {:induction false} MatchedAfterTag(tag: string, x: string, y: string, tags: seq<string>)
    requires PlainName(tag) && AllPlain(tags)
    ensures MatchedLength(ClosingTag(tag) + x, tags) == MatchedLength(ClosingTag(tag) + y, tags)
    decreases |tags|
  {
    if tags != [] {
      PrefixAfterTag(tag, tags[0], x);
      PrefixAfterTag(tag, tags[0], y);
      MatchedAfterTag(tag, x, y, tags[1..]);
    }
  }

  /** Replacing one closing tag by "." creates no occurrence of another at the front. */
  lemma NoNewTag(s: string, tag: string, other: string)
    requires |s| > 0 && PlainName(tag) && PlainName(other)
    requires !(ClosingTag(tag) <= s) && !(ClosingTag(other) <= s)
    ensures !(ClosingTag(other) <= [s[0]] + ReplaceAll(s[1..], ClosingTag(tag), "."))
  {
    var i := IndexOf(s[1..], ClosingTag(tag));
    if i < 0 {
      ReplaceNone(s[1..], ClosingTag(tag), ".");
      assert [s[0]] + s[1..] == s;
    } else if i < |ClosingTag(other)| - 1 {
      NoNewTagEarly(s, tag, other, i);
    } else {
      NoNewTagLate(s, tag, other, i);
    }
  }

  /** A "." put in within the length of the other tag spoils it. */
  lemma NoNewTagEarly(s: string, tag: string, other: string, i: nat)
    requires |s| > 0 && PlainName(tag) && PlainName(other)
    requires i + |ClosingTag(tag)| <= |s[1..]| && ClosingTag(tag) <= s[1..][i..]
    requires forall j :: 0 <= j < i ==> !(ClosingTag(tag) <= s[1..][j..])
    requires i < |ClosingTag(other)| - 1
    ensures !(ClosingTag(other) <= [s[0]] + ReplaceAll(s[1..], ClosingTag(tag), "."))
  {
    var d := ClosingTag(other);
    ClosingTagShape(other);
    var y := ReplaceAll(s[1..], ClosingTag(tag), ".");
    ReplaceFirst(s[1..], ClosingTag(tag), ".", i);
    assert y[i] == '.';
    if i + 1 < |[s[0]] + y| {
      assert ([s[0]] + y)[i + 1] == '.' != d[i + 1];
    }
  }

  /** Past the length of the other tag, the text in front is untouched. */
  lemma NoNewTagLate(s: string, tag: string, other: string, i: nat)
    requires |s| > 0 && PlainName(other)
    requires |ClosingTag(tag)| > 0 && !(ClosingTag(other) <= s)
    requires |ClosingTag(other)| - 1 <= i <= |s[1..]|
    requires forall j :: 0 <= j < i ==> !(ClosingTag(tag) <= s[1..][j..])
    ensures !(ClosingTag(other) <= [s[0]] + ReplaceAll(s[1..], ClosingTag(tag), "."))
  {
    var d := ClosingTag(other);
    var u := s[1..];
    var m := |d| - 1;
    var y := ReplaceAll(u, ClosingTag(tag), ".");
    ReplaceSkip(u, ClosingTag(tag), ".", m);
    if |d| <= |[s[0]] + y| {
      assert ([s[0]] + y)[..|d|] == [s[0]] + u[..m] == s[..|d|];
    }
  }

  /** After a closing tag that starts the text, the replacement resumes behind it. */
  lemma ReplaceBehindTag(s: string, tag: string, other: string)
    requires PlainName(tag) && PlainName(other) && ClosingTag(other) <= s
    ensures [s[0]] + ReplaceAll(s[1..], ClosingTag(tag), ".")
            == ClosingTag(other) + ReplaceAll(s[|ClosingTag(other)|..], ClosingTag(tag), ".")
  {
    var ct := ClosingTag(tag);
    var d := ClosingTag(other);
    ClosingTagShape(tag);
    ClosingTagShape(other);
    var u := s[1..];
    var n := |d|;
    forall j | 0 <= j < n - 1
      ensures !(ct <= u[j..])
    {
      assert u[j] == d[j + 1];
    }
    ReplaceSkip(u, ct, ".", n - 1);
    assert u[n - 1..] == s[n..];
    assert [s[0]] + u[..n - 1] == d;
  }

  /** Replacing one more tag first and then scanning for the rest is scanning for all of them. */
  lemma {:induction false} ReplaceThenClose(s: string, t: string, rest: seq<string>)
    requires PlainName(t) && AllPlain(rest)
    ensures CloseAll(ReplaceAll(s, ClosingTag(t), "."), rest) == CloseAll(s, [t] + rest)
    decreases |s|
  {
    var ct := ClosingTag(t);
    ClosingTagShape(t);
    assert ([t] + rest)[0] == t && ([t] + rest)[1..] == rest;
    if |s| < |ct| {
      ShortSkipsTag(s, t, rest);
    } else if s[..|ct|] == ct {
      var r := ReplaceAll(s[|ct|..], ct, ".");
      assert ReplaceAll(s, ct, ".") == "." + r;
      assert MatchedLength("." + r, rest) == 0 by {
        forall k | 0 <= k < |rest|
          ensures !(ClosingTag(rest[k]) <= "." + r)
        {
          assert ClosingTag(rest[k])[0] == '<';
        }
      }
      assert ("." + r)[1..] == r;
      ReplaceThenClose(s[|ct|..], t, rest);
    } else {
      var y := ReplaceAll(s[1..], ct, ".");
      assert ReplaceAll(s, ct, ".") == [s[0]] + y;
      var n := MatchedLength(s, rest);
      assert MatchedLength(s, [t] + rest) == n;
      if n == 0 {
        assert MatchedLength([s[0]] + y, rest) == 0 by {
          forall k | 0 <= k < |rest|
            ensures !(ClosingTag(rest[k]) <= [s[0]] + y)
          {
            NoNewTag(s, t, rest[k]);
          }
        }
        assert ([s[0]] + y)[1..] == y;
        ReplaceThenClose(s[1..], t, rest);
      } else {
        var k :| 0 <= k < |rest| && ClosingTag(rest[k]) == s[..n];
        var r := ReplaceAll(s[n..], ct, ".");
        ReplaceBehindTag(s, t, rest[k]);
        assert s == ClosingTag(rest[k]) + s[n..];
        MatchedAfterTag(rest[k], r, s[n..], rest);
        assert (ClosingTag(rest[k]) + r)[n..] == r;
        ReplaceThenClose(s[n..], t, rest);
      }
    }
  }

  /**
   * The tag step, nine ordinal replacements in turn, is one scan from the
   * left that turns each closing tag into "." and leaves every other
   * character as it is.
   */
  lemma {:induction false} CloseTagsInOnePass(s: string, tags: seq<string>)
    requires AllPlain(tags)
    ensures CloseTags(s, tags) == CloseAll(s, tags)
    decreases |tags|
  {
    if tags == [] {
      CloseNothing(s);
    } else {
      CloseTagsInOnePass(ReplaceAll(s, ClosingTag(tags[0]), "."), tags[1..]);
      ReplaceThenClose(s, tags[0], tags[1..]);
      assert [tags[0]] + tags[1..] == tags;
    }
  }

  /** A prefix without '.' of the scanned text is a prefix of the text itself. */
  lemma {:induction false} DotFreePrefix(w: string, s: string, tags: seq<string>)
    requires '.' !in w && w <= CloseAll(s, tags)
    ensures w <= s
    decreases |s|
  {
    if w != [] && s != [] {
      var n := MatchedLength(s, tags);
      assert w[0] in w && w[0] == CloseAll(s, tags)[0];
      if n > 0 {
        assert false;
      } else {
        assert w[1..] <= CloseAll(s[1..], tags);
        DotFreePrefix(w[1..], s[1..], tags);
      }
    }
  }

  /** No closing tag is left anywhere in the scanned text. */
  lemma {:induction false} NoClosingTagLeft(s: string, tags: seq<string>, j: nat, k: nat)
    requires AllPlain(tags) && k < |tags| && j <= |CloseAll(s, tags)|
    ensures !(ClosingTag(tags[k]) <= CloseAll(s, tags)[j..])
    decreases |s|
  {
    var c := ClosingTag(tags[k]);
    ClosingTagShape(tags[k]);
    var r := CloseAll(s, tags);
    if s != [] {
      var n := MatchedLength(s, tags);
      var rest := if n > 0 then s[n..] else s[1..];
      assert r[1..] == CloseAll(rest, tags);
      if j > 0 {
        assert r[j..] == CloseAll(rest, tags)[j - 1..];
        NoClosingTagLeft(rest, tags, j - 1, k);
      } else if n == 0 && c <= r {
        assert c == [s[0]] + c[1..] && '.' !in c[1..];
        DotFreePrefix(c[1..], s[1..], tags);
      }
    }
  }

  /** So the tag step leaves no lower-case closing block tag in the text. */
  lemma ClosedTagsGone(s: string, j: nat, k: nat)
    requires k < |BlockTags| && j <= |CloseTags(s, BlockTags)|
    ensures !(ClosingTag(BlockTags[k]) <= CloseTags(s, BlockTags)[j..])
  {
    BlockTagsPlain();
    CloseTagsInOnePass(s, BlockTags);
    NoClosingTagLeft(s, BlockTags, j, k);
  }
  // ---------------------------------------------------------------------
  // What the pipeline does not promise
  // ---------------------------------------------------------------------

  /** Two runs of spaces, the shorter first, between words without spaces. */
  predicate TwoRuns(x: string, y: string, z: string) {
    x != [] && y != [] && z != [] && Spaceless(x) && Spaceless(y) && Spaceless(z)
  }

  lemma SpaceRunMatches(x: string, y: string, z: string)
    requires TwoRuns(x, y, z)
    ensures Matches(Plus(Space), x + "  " + y + "   " + z) == ["  ", "   "]
  {
    var t1 := "  " + (y + ("   " + z));
    SpaceRunTail(y, z);
    PlusSkips(x, t1, Space);
    assert x + "  " + y + "   " + z == x + t1;
  }

  lemma SpaceRunTail(y: string, z: string)
    requires y != [] && z != [] && Spaceless(y) && Spaceless(z)
    ensures Matches(Plus(Space), "  " + (y + ("   " + z))) == ["  ", "   "]
  {
    var t3 := "   " + z;
    assert Matches(Plus(Space), t3) == ["   "] by {
      PlusSkips(z, "", Space);
      assert z + "" == z;
      PlusTakesRun("   ", z, Space);
    }
    PlusSkips(y, t3, Space);
    PlusTakesRun("  ", y + t3, Space);
  }

  /** Replacing the two-space value halves both runs: the three-space run keeps two spaces. */
  lemma TwoSpacesHalved(x: string, y: string, z: string)
    requires TwoRuns(x, y, z)
    ensures ReplaceAll(x + "  " + y + "   " + z, "  ", " ") == x + " " + y + "  " + z
  {
    var u := " " + z;
    var t := y + ("  " + u);
    assert x + "  " + y + "   " + z == x + ("  " + t);
    ReplaceBehindSpaceless(x, "  ", " ", t);
    assert ReplaceAll(t, "  ", " ") == y + " " + u by {
      ReplaceBehindSpaceless(y, "  ", " ", u);
      LoneSpaceKept(z);
    }
  }

  lemma LoneSpaceKept(z: string)
    requires z != [] && Spaceless(z)
    ensures ReplaceAll(" " + z, "  ", " ") == " " + z
  {
    var u := " " + z;
    forall j | 0 <= j < |u| ensures !("  " <= u[j..]) {
      if j == 0 {
        assert u[j..][1] == z[0];
      } else {
        assert u[j..][0] == z[j - 1];
      }
    }
    ReplaceNone(u, "  ", " ");
  }

  /** After that, the three-space value no longer occurs. */
  lemma NoThreeSpaces(x: string, y: string, z: string)
    requires TwoRuns(x, y, z)
    ensures ReplaceAll(x + " " + y + "  " + z, "   ", " ") == x + " " + y + "  " + z
  {
    var s := x + " " + y + "  " + z;
    var a := |x|;
    var b := |x| + 1 + |y|;
    forall j | 0 <= j < |s| ensures !("   " <= s[j..]) {
      if j < a {
        assert s[j..][0] == x[j];
      } else if j == a {
        assert s[j + 1] == y[0];
      } else if j < b {
        assert s[j..][0] == y[j - a - 1];
      } else if j < b + 2 {
        assert |s[j..]| < 3 || s[j..][b + 2 - j] == z[0];
      } else {
        assert s[j..][0] == z[j - b - 2];
      }
    }
    ReplaceNone(s, "   ", " ");
  }

  /**
   * The space collapse replaces match values, not match positions: in
   * "a  b   c" the two-space value is replaced first, inside the
   * three-space run as well, and a double space survives.
   */
  lemma SpaceRunSurvives(x: string, y: string, z: string)
    requires TwoRuns(x, y, z)
    ensures Rewrite(x + "  " + y + "   " + z, Plus(Space), " ") == x + " " + y + "  " + z
  {
    var s := x + "  " + y + "   " + z;
    var ms := Matches(Plus(Space), s);
    SpaceRunMatches(x, y, z);
    assert ReplaceEach(s, ms[..1], " ") == ReplaceAll(s, "  ", " ") by {
      assert ms[..1] == ["  "] && ms[..1][..0] == [];
    }
    assert Rewrite(s, Plus(Space), " ") == ReplaceAll(ReplaceAll(s, "  ", " "), "   ", " ");
    TwoSpacesHalved(x, y, z);
    NoThreeSpaces(x, y, z);
  }

  /** A non-empty run of digits without the digit d. */
  predicate DigitsWithout(e: string, d: char) {
    e != [] && (forall i :: 0 <= i < |e| ==> In(Digit, e[i])) && d !in e
  }

  predicate NoDigits(y: string) {
    forall i :: 0 <= i < |y| ==> !In(Digit, y[i])
  }

  /** A run of digits followed only by non-digits is the one digit match. */
  lemma LastDigitRun(t: string, y: string)
    requires t != [] && (forall i :: 0 <= i < |t| ==> In(Digit, t[i])) && NoDigits(y)
    ensures Matches(Plus(Digit), t + y) == [t]
  {
    PlusSkips(y, [], Digit);
    assert y + [] == y;
    PlusTakesRun(t, y, Digit);
  }

  /** The two digit runs of [d] + [c] + [d] + e + y are [d] and [d] + e. */
  lemma DigitRunMatches(d: char, c: char, e: string, y: string)
    requires In(Digit, d) && !In(Digit, c) && DigitsWithout(e, d) && NoDigits(y)
    ensures Matches(Plus(Digit), [d] + [c] + [d] + e + y) == [[d], [d] + e]
  {
    var t := [d] + e;
    LastDigitRun(t, y);
    PlusSkips([c], t + y, Digit);
    PlusTakesRun([d], [c] + (t + y), Digit);
    assert [d] + [c] + [d] + e + y == [d] + ([c] + (t + y));
  }

  /** The digit d occurs nowhere in e + y. */
  lemma DigitAbsentAfter(d: char, e: string, y: string)
    requires In(Digit, d) && DigitsWithout(e, d) && NoDigits(y)
    ensures ReplaceAll(e + y, [d], " ") == e + y
  {
    var tail := e + y;
    forall j | 0 <= j < |tail| ensures !([d] <= tail[j..]) {
      assert tail[j..][0] == tail[j];
    }
    ReplaceNone(tail, [d], " ");
  }

  /** Behind the separator c, the second copy of d is blanked. */
  lemma SecondDigitBlanked(d: char, c: char, e: string, y: string)
    requires In(Digit, d) && !In(Digit, c) && DigitsWithout(e, d) && NoDigits(y)
    ensures ReplaceAll([c] + [d] + e + y, [d], " ") == [c] + " " + (e + y)
  {
    var rest := [c] + [d] + e + y;
    DigitAbsentAfter(d, e, y);
    assert !([d] <= rest[0..]) by {
      assert rest[0..][0] == c;
    }
    assert [d] <= rest[1..];
    ReplaceFirst(rest, [d], " ", 1);
    assert rest[..1] == [c] && rest[2..] == e + y;
  }

  /** Replacing the value [d] blanks both copies of d and nothing else. */
  lemma LoneDigitBlanked(d: char, c: char, e: string, y: string)
    requires In(Digit, d) && !In(Digit, c) && DigitsWithout(e, d) && NoDigits(y)
    ensures ReplaceAll([d] + [c] + [d] + e + y, [d], " ") == " " + [c] + " " + e + y
  {
    var s := [d] + [c] + [d] + e + y;
    SecondDigitBlanked(d, c, e, y);
    assert [d] <= s[0..];
    ReplaceFirst(s, [d], " ", 0);
    assert s[..0] == [] && s[1..] == [c] + [d] + e + y;
    assert " " + ([c] + " " + (e + y)) == " " + [c] + " " + e + y;
  }

  /** The longer value [d] + e no longer occurs once d is blanked. */
  lemma LongerRunGone(d: char, c: char, e: string, y: string)
    requires In(Digit, d) && !In(Digit, c) && DigitsWithout(e, d) && NoDigits(y)
    ensures ReplaceAll(" " + [c] + " " + e + y, [d] + e, " ") == " " + [c] + " " + e + y
  {
    var u := " " + [c] + " " + e + y;
    forall j | 0 <= j < |u| ensures !([d] + e <= u[j..]) {
      assert u[j..][0] == u[j];
    }
    ReplaceNone(u, [d] + e, " ");
  }

  /**
   * The digit step replaces match values, not match positions: in "1 12"
   * the value "1" is blanked first, inside "12" as well, and the value "12"
   * is then gone, so "   2" keeps a digit of a word made only of digits.
   */
  lemma DigitsSurvive(d: char, c: char, e: string, y: string)
    requires In(Digit, d) && !In(Digit, c) && DigitsWithout(e, d) && NoDigits(y)
    ensures Rewrite([d] + [c] + [d] + e + y, Plus(Digit), " ") == " " + [c] + " " + e + y
  {
    var s := [d] + [c] + [d] + e + y;
    var ms := Matches(Plus(Digit), s);
    DigitRunMatches(d, c, e, y);
    assert ReplaceEach(s, ms[..1], " ") == ReplaceAll(s, [d], " ") by {
      assert ms[..1] == [[d]] && ms[..1][..0] == [];
    }
    assert Rewrite(s, Plus(Digit), " ") == ReplaceAll(ReplaceAll(s, [d], " "), [d] + e, " ");
    LoneDigitBlanked(d, c, e, y);
    LongerRunGone(d, c, e, y);
  }

  // The whole pipeline on "1 12" and on what it leaves

  /** Clean, given the result of each of its stages. */
  lemma CleanFrom(text: string, plain: string, collapsed: string, tidied: string)
    requires RewriteAll(CloseTags(text, BlockTags), Punctuate) == plain
    requires RewriteAll(Trim(plain) + ".", Collapse) == collapsed
    requires RewriteAll(Trim(collapsed), Tidy) == tidied
    ensures Clean(text) == Trim(tidied)
  {
  }

  predicate DigitsOrSpaces(s: string) {
    forall i :: 0 <= i < |s| ==> In(Digit, s[i]) || s[i] == ' '
  }

  lemma DigitsOrSpacesHoldNoMarks(s: string)
    requires DigitsOrSpaces(s)
    ensures '<' !in s && '>' !in s && '.' !in s && '\n' !in s && '\r' !in s
    ensures forall i :: 0 <= i < |s| ==> !In(Punctuation, s[i]) && !In(Terminator, s[i])
  {
  }

  /** A text of digits and spaces passes the tag step and the first dictionary unchanged. */
  lemma DigitsAndSpacesPlain(s: string)
    requires DigitsOrSpaces(s)
    ensures CloseTags(s, BlockTags) == s
    ensures RewriteAll(s, Punctuate) == s
  {
    DigitsOrSpacesHoldNoMarks(s);
    TagFreeKept(s, BlockTags);
    UnclosedTagKept(s);
    ClassAbsentKept(s, Punctuation, " ");
    ClassAbsentKept(s, Terminator, ".");
    PunctuateStages(s);
  }

  /** The padded-stop rewrite puts a space after the one final stop. */
  lemma FinalStopPadded(x: string)
    requires '.' !in x && (x == [] || x[|x| - 1] != ' ')
    ensures Rewrite(x + ".", PaddedStop, ". ") == x + ". "
  {
    var s := x + ".";
    PaddedStopAtEnd(x);
    RewriteOne(s, PaddedStop, ". ", ".");
    forall j | 0 <= j < |x| ensures !("." <= s[j..]) {
      assert s[j..][0] == x[j];
    }
    ReplaceFirst(s, ".", ". ", |x|);
    assert s[..|x|] == x && s[|x| + 1..] == [];
  }

  /** Neither a line break nor a repeated stop occurs in x + "."; the final stop is padded. */
  lemma SingleStopCollapsed(x: string)
    requires '.' !in x && '\n' !in x && '\r' !in x && (x == [] || x[|x| - 1] != ' ')
    ensures RewriteAll(x + ".", Collapse) == x + ". "
  {
    var s := x + ".";
    assert Rewrite(s, LineBreak, " ") == s by {
      LineBreakAbsent(s);
    }
    assert Rewrite(s, RepeatedStop, ".") == s by {
      RepeatedStopSkips(x, ".");
      assert MatchLength(RepeatedStop, ".") == 0 && "."[1..] == [];
    }
    FinalStopPadded(x);
    CollapseStages(s);
  }

  /** The two words of "1 12", as [d] + " " + [d] + e. */
  function DigitWords(d: char, e: string): string {
    [d] + " " + [d] + e
  }

  lemma DigitWordsShape(d: char, e: string)
    requires In(Digit, d) && DigitsWithout(e, d)
    ensures DigitsOrSpaces(DigitWords(d, e))
  {
  }

  lemma DigitWordsTrimmed(d: char, e: string)
    requires In(Digit, d) && DigitsWithout(e, d)
    ensures Trim(DigitWords(d, e)) == DigitWords(d, e)
  {
    var s := DigitWords(d, e);
    assert s[|s| - 1] == e[|e| - 1];
    TrimExact(s, 0, |s|);
    assert s[0..|s|] == s;
  }

  lemma DigitWordsCollapsed(d: char, e: string)
    requires In(Digit, d) && DigitsWithout(e, d)
    ensures RewriteAll(DigitWords(d, e) + ".", Collapse) == DigitWords(d, e) + ". "
  {
    var s := DigitWords(d, e);
    assert s[|s| - 1] == e[|e| - 1];
    DigitWordsShape(d, e);
    DigitsOrSpacesHoldNoMarks(s);
    SingleStopCollapsed(s);
  }

  /** A run of digits followed by a stop holds no space. */
  lemma DigitsThenStopSpaceless(e: string)
    requires forall i :: 0 <= i < |e| ==> In(Digit, e[i])
    ensures Spaceless(e + ".")
  {
  }

  lemma LeadingSpacesMatch(t: string)
    requires t != [] && t[0] != ' ' && Spaceless(t)
    ensures Matches(Plus(Space), "   " + t) == ["   "]
  {
    PlusSkips(t, [], Space);
    assert t + [] == t;
    PlusTakesRun("   ", t, Space);
  }

  /** The space step turns the three spaces before e + "." into one. */
  lemma LeadingSpacesCollapsed(e: string)
    requires e != [] && forall i :: 0 <= i < |e| ==> In(Digit, e[i])
    ensures Rewrite("   " + e + ".", Plus(Space), " ") == " " + e + "."
  {
    var t := e + ".";
    var u := "   " + t;
    assert "   " + e + "." == u && " " + e + "." == " " + t;
    DigitsThenStopSpaceless(e);
    assert t[0] == e[0];
    LeadingSpacesMatch(t);
    RewriteOne(u, Plus(Space), " ", "   ");
    assert ReplaceAll(u, "   ", " ") == " " + t by {
      ReplaceBehindSpaceless([], "   ", " ", t);
      assert [] + ("   " + t) == u;
      SpacelessUnchanged(t, "   ", " ");
    }
  }

  lemma DigitWordsTidied(d: char, e: string)
    requires In(Digit, d) && DigitsWithout(e, d)
    ensures RewriteAll(DigitWords(d, e) + ".", Tidy) == " " + (e + ".")
  {
    var s := DigitWords(d, e) + ".";
    TidyStages(s);
    assert Rewrite(s, Plus(Digit), " ") == "   " + e + "." by {
      assert s == [d] + [' '] + [d] + e + ".";
      DigitsSurvive(d, ' ', e, ".");
    }
    LeadingSpacesCollapsed(e);
    assert " " + e + "." == " " + (e + ".");
  }

  lemma DigitWordsFirstStages(d: char, e: string)
    requires In(Digit, d) && DigitsWithout(e, d)
    ensures RewriteAll(CloseTags(DigitWords(d, e), BlockTags), Punctuate) == DigitWords(d, e)
  {
    DigitWordsShape(d, e);
    DigitsAndSpacesPlain(DigitWords(d, e));
  }

  lemma DigitWordsMiddleStages(d: char, e: string)
    requires In(Digit, d) && DigitsWithout(e, d)
    ensures RewriteAll(Trim(DigitWords(d, e)) + ".", Collapse) == DigitWords(d, e) + ". "
  {
    DigitWordsTrimmed(d, e);
    DigitWordsCollapsed(d, e);
  }

  lemma DigitWordsStopTrimmed(d: char, e: string)
    requires In(Digit, d) && DigitsWithout(e, d)
    ensures Trim(DigitWords(d, e) + ". ") == DigitWords(d, e) + "."
  {
    assert DigitWords(d, e)[0] == d;
    TrimPaddedStop(DigitWords(d, e));
  }

  lemma DigitStopTrimmed(e: string)
    requires e != [] && In(Digit, e[0])
    ensures Trim(" " + (e + ".")) == e + "."
  {
    assert (e + ".")[0] == e[0];
    TrimLeadingSpace(e + ".");
  }

  lemma DigitWordsLastStages(d: char, e: string)
    requires In(Digit, d) && DigitsWithout(e, d)
    ensures Trim(RewriteAll(Trim(DigitWords(d, e) + ". "), Tidy)) == e + "."
  {
    DigitWordsStopTrimmed(d, e);
    DigitWordsTidied(d, e);
    DigitStopTrimmed(e);
  }

  /** "1 12" cleans to "2.": the digit step keeps the 2. */
  lemma CleanDigitWords(d: char, e: string)
    requires In(Digit, d) && DigitsWithout(e, d)
    ensures Clean(DigitWords(d, e)) == e + "."
  {
    var s := DigitWords(d, e);
    DigitWordsFirstStages(d, e);
    DigitWordsMiddleStages(d, e);
    DigitWordsLastStages(d, e);
    CleanFrom(s, s, s + ". ", RewriteAll(Trim(s + ". "), Tidy));
  }

  // And "2." cleans to ".": a second cleaning removes the digit

  /** A stop after text without terminators is kept by the terminator rewrite. */
  lemma FinalStopKept(x: string)
    requires forall i :: 0 <= i < |x| ==> !In(Terminator, x[i])
    ensures Rewrite(x + ".", Class(Terminator), ".") == x + "."
  {
    var s := x + ".";
    assert Matches(Class(Terminator), s) == ["."] by {
      ClassSkips(x, ".", Terminator);
      assert MatchLength(Class(Terminator), ".") == 1 && "."[..1] == "." && "."[1..] == [];
    }
    RewriteOne(s, Class(Terminator), ".", ".");
    forall j | 0 <= j < |x| ensures !("." <= s[j..]) {
      assert s[j..][0] == x[j];
    }
    ReplaceFirst(s, ".", ".", |x|);
    assert s[..|x|] == x && s[|x| + 1..] == [];
  }

  /** A non-empty run of digits. */
  predicate DigitRun(e: string) {
    e != [] && forall i :: 0 <= i < |e| ==> In(Digit, e[i])
  }

  lemma DigitRunMarks(e: string)
    requires DigitRun(e)
    ensures '<' !in e + "." && '>' !in e + "." && '.' !in e && '\n' !in e && '\r' !in e
    ensures forall i :: 0 <= i < |e + "."| ==> !In(Punctuation, (e + ".")[i])
    ensures forall i :: 0 <= i < |e| ==> !In(Terminator, e[i])
    ensures e[|e| - 1] != ' ' && !IsWhiteSpace((e + ".")[0])
  {
  }

  lemma DigitWordPunctuated(e: string)
    requires DigitRun(e)
    ensures RewriteAll(e + ".", Punctuate) == e + "."
  {
    DigitRunMarks(e);
    UnclosedTagKept(e + ".");
    ClassAbsentKept(e + ".", Punctuation, " ");
    FinalStopKept(e);
    PunctuateStages(e + ".");
  }

  lemma DigitWordPlain(e: string)
    requires DigitRun(e)
    ensures RewriteAll(CloseTags(e + ".", BlockTags), Punctuate) == e + "."
  {
    DigitRunMarks(e);
    TagFreeKept(e + ".", BlockTags);
    DigitWordPunctuated(e);
  }

  /** The repeated-stop rewrite turns two final stops into one. */
  lemma DoubleStopJoined(x: string)
    requires '.' !in x
    ensures Rewrite(x + "..", RepeatedStop, ".") == x + "."
  {
    var s := x + "..";
    assert Matches(RepeatedStop, s) == [".."] by {
      RepeatedStopSkips(x, "..");
      assert RunLength(".", StopOrSpace) == 1;
      assert MatchLength(RepeatedStop, "..") == 2 && ".."[..2] == ".." && ".."[2..] == [];
    }
    RewriteOne(s, RepeatedStop, ".", "..");
    forall j | 0 <= j < |x| ensures !(".." <= s[j..]) {
      assert s[j..][0] == x[j];
    }
    ReplaceFirst(s, "..", ".", |x|);
    assert s[..|x|] == x && s[|x| + 2..] == [];
  }

  /** Two final stops are collapsed into one, which is then padded. */
  lemma DoubleStopCollapsed(x: string)
    requires '.' !in x && '\n' !in x && '\r' !in x && x != [] && x[|x| - 1] != ' '
    ensures RewriteAll(x + "..", Collapse) == x + ". "
  {
    LineBreakAbsent(x + "..");
    DoubleStopJoined(x);
    FinalStopPadded(x);
    CollapseStages(x + "..");
  }

  lemma DigitWordCollapsed(e: string)
    requires DigitRun(e)
    ensures RewriteAll(Trim(e + ".") + ".", Collapse) == e + ". "
  {
    DigitRunMarks(e);
    TrimUntouched(e + ".");
    assert e + "." + "." == e + "..";
    DoubleStopCollapsed(e);
  }

  /** A space before a spaceless text is left as it is by the space step. */
  lemma LoneSpaceRewritten(x: string)
    requires x != [] && x[0] != ' ' && Spaceless(x)
    ensures Rewrite(" " + x, Plus(Space), " ") == " " + x
  {
    assert Matches(Plus(Space), " " + x) == [" "] by {
      PlusSkips(x, [], Space);
      assert x + [] == x;
      PlusTakesRun(" ", x, Space);
    }
    RewriteOne(" " + x, Plus(Space), " ", " ");
    ReplaceBehindSpaceless([], " ", " ", x);
    assert [] + (" " + x) == " " + x;
    SpacelessUnchanged(x, " ", " ");
  }

  /** The digit step blanks a lone run of digits before a stop. */
  lemma DigitRunBlanked(e: string)
    requires DigitRun(e)
    ensures Rewrite(e + ".", Plus(Digit), " ") == " ."
  {
    var s := e + ".";
    assert Matches(Plus(Digit), s) == [e] by {
      PlusSkips(".", [], Digit);
      assert "." + [] == ".";
      PlusTakesRun(e, ".", Digit);
    }
    RewriteOne(s, Plus(Digit), " ", e);
    assert e <= s[0..];
    ReplaceFirst(s, e, " ", 0);
    assert s[..0] == [] && s[|e|..] == ".";
    assert ReplaceAll(".", e, " ") == "." by {
      assert !(e <= "."[0..]) by {
        assert "."[0..][0] == '.';
      }
      ReplaceNone(".", e, " ");
    }
  }

  lemma DigitWordTidied(e: string)
    requires DigitRun(e)
    ensures RewriteAll(e + ".", Tidy) == " ."
  {
    TidyStages(e + ".");
    DigitRunBlanked(e);
    LoneSpaceRewritten(".");
    assert " " + "." == " .";
  }

  lemma DigitWordLastStages(e: string)
    requires DigitRun(e)
    ensures Trim(RewriteAll(Trim(e + ". "), Tidy)) == "."
  {
    DigitRunMarks(e);
    TrimPaddedStop(e);
    DigitWordTidied(e);
    TrimLeadingSpace(".");
  }

  /** "2." cleans to ".": the digit run that survived the first cleaning goes. */
  lemma CleanDigitWord(e: string)
    requires DigitRun(e)
    ensures Clean(e + ".") == "."
  {
    DigitWordPlain(e);
    DigitWordCollapsed(e);
    DigitWordLastStages(e);
    CleanFrom(e + ".", e + ".", e + ". ", RewriteAll(Trim(e + ". "), Tidy));
  }

  /**
   * Cleaning is not idempotent: "1 12" cleans to "2.", and cleaning "2."
   * again gives ".". WordsWithThreeSyllables cleans twice.
   */
  lemma CleanTwiceDiffers(d: char, e: string)
    requires In(Digit, d) && DigitsWithout(e, d)
    ensures Clean(DigitWords(d, e)) == e + "."
    ensures Clean(Clean(DigitWords(d, e))) == "."
    ensures Clean(Clean(DigitWords(d, e))) != Clean(DigitWords(d, e))
  {
    CleanDigitWords(d, e);
    assert DigitRun(e);
    CleanDigitWord(e);
  }
}
