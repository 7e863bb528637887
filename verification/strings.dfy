/**
 * The .NET string primitives the statistics code is built from: the
 * whitespace test shared by String.Trim and the regex class \s, ASCII
 * letters and case, Trim, ordinal String.Replace and ordinal IndexOf.
 */
module Strings {

  datatype Option<T> = None | Some(value: T)

  /** char.IsWhiteSpace; the regex class \s matches exactly the same characters. */
  predicate IsWhiteSpace(c: char) {
    c == ' ' || ('\t' <= c <= '\r') || c == '\U{0085}' || c == '\U{00A0}' || c == '\U{1680}'
    || ('\U{2000}' <= c <= '\U{200A}') || c == '\U{2028}' || c == '\U{2029}'
    || c == '\U{202F}' || c == '\U{205F}' || c == '\U{3000}'
  }

  predicate IsAsciiLetter(c: char) {
    'a' <= c <= 'z' || 'A' <= c <= 'Z'
  }

  predicate IsAsciiUpper(c: char) {
    'A' <= c <= 'Z'
  }

  function ToLowerAscii(c: char): (d: char)
    ensures IsAsciiLetter(c) ==> 'a' <= d <= 'z'
    ensures !IsAsciiUpper(c) ==> d == c
  {
    if IsAsciiUpper(c) then (c as int + 32) as char else c
  }

  /** String.ToLower, restricted to the ASCII letters. */
  function Lower(s: string): (r: string)
    ensures |r| == |s|
    ensures forall i :: 0 <= i < |s| ==> r[i] == ToLowerAscii(s[i])
  {
    if s == [] then [] else [ToLowerAscii(s[0])] + Lower(s[1..])
  }

  /** Leading whitespace removed: the longest suffix that does not start with whitespace. */
  function TrimStart(s: string): (r: string)
    ensures |r| <= |s| && r == s[|s| - |r|..]
    ensures forall i :: 0 <= i < |s| - |r| ==> IsWhiteSpace(s[i])
    ensures r != [] ==> !IsWhiteSpace(r[0])
  {
    if s != [] && IsWhiteSpace(s[0]) then TrimStart(s[1..]) else s
  }

  /** Trailing whitespace removed: the shortest prefix after which only whitespace follows. */
  function TrimEnd(s: string): (r: string)
    ensures r <= s
    ensures forall i :: |r| <= i < |s| ==> IsWhiteSpace(s[i])
    ensures r != [] ==> !IsWhiteSpace(r[|r| - 1])
  {
    if s == [] then []
    else
      var rest := TrimEnd(s[1..]);
      if rest == [] && IsWhiteSpace(s[0]) then [] else [s[0]] + rest
  }

  /** String.Trim: whitespace removed from both ends. */
  function Trim(s: string): (r: string)
    ensures r != [] ==> !IsWhiteSpace(r[0]) && !IsWhiteSpace(r[|r| - 1])
    ensures forall c :: c in r ==> c in s
    ensures r == [] <==> forall i :: 0 <= i < |s| ==> IsWhiteSpace(s[i])
  {
    var e := TrimEnd(s);
    assert forall c :: c in e ==> c in s by {
      forall c | c in e ensures c in s {
        var i :| 0 <= i < |e| && e[i] == c;
        assert s[i] == c;
      }
    }
    TrimStart(e)
  }

  /**
   * Trim of a text that is whitespace before i and from j on, with no
   * whitespace at either end of s[i..j], is s[i..j].
   */
  lemma TrimExact(s: string, i: nat, j: nat)
    requires i < j <= |s|
    requires forall k :: 0 <= k < i ==> IsWhiteSpace(s[k])
    requires forall k :: j <= k < |s| ==> IsWhiteSpace(s[k])
    requires !IsWhiteSpace(s[i]) && !IsWhiteSpace(s[j - 1])
    ensures Trim(s) == s[i..j]
  {
    var e := TrimEnd(s);
    assert |e| == j by {
      assert |e| >= j;
      assert e[|e| - 1] == s[|e| - 1];
    }
    assert e == s[..j];
    var r := TrimStart(e);
    assert |e| - |r| == i by {
      assert |e| - |r| <= i;
      assert r[0] == e[|e| - |r|];
    }
    assert r == e[i..] == s[i..j];
  }
  /** A text with no whitespace at either end is its own Trim. */
  lemma TrimUntouched(s: string)
    requires s != [] && !IsWhiteSpace(s[0]) && !IsWhiteSpace(s[|s| - 1])
    ensures Trim(s) == s
  {
    TrimExact(s, 0, |s|);
    assert s[0..|s|] == s;
  }

  /** Trim of x + ". " is x + "." when x does not start with whitespace. */
  lemma TrimPaddedStop(x: string)
    requires x != [] && !IsWhiteSpace(x[0])
    ensures Trim(x + ". ") == x + "."
  {
    var s := x + ". ";
    assert s[0] == x[0];
    assert s[|x|] == '.';
    assert s[|x| + 1] == ' ';
    TrimExact(s, 0, |x| + 1);
    assert s[0..|x| + 1] == x + ".";
  }
  /** Trim drops one leading space before a text with no whitespace at its ends. */
  lemma TrimLeadingSpace(x: string)
    requires x != [] && !IsWhiteSpace(x[0]) && !IsWhiteSpace(x[|x| - 1])
    ensures Trim(" " + x) == x
  {
    var s := " " + x;
    assert s[1] == x[0];
    assert s[|x|] == x[|x| - 1];
    TrimExact(s, 1, |x| + 1);
    assert s[1..|x| + 1] == x;
  }



  /** s with no occurrence of the characters in cs. */
  function Drop(s: string, cs: set<char>): (r: string)
    ensures forall c :: c in r ==> c in s && c !in cs
  {
    if s == [] then []
    else if s[0] in cs then Drop(s[1..], cs)
    else [s[0]] + Drop(s[1..], cs)
  }

  /** s with every character in cs replaced by x. */
  function Substitute(s: string, cs: set<char>, x: char): (r: string)
    ensures |r| == |s|
    ensures forall i :: 0 <= i < |s| ==> r[i] == if s[i] in cs then x else s[i]
  {
    if s == [] then []
    else [if s[0] in cs then x else s[0]] + Substitute(s[1..], cs, x)
  }

  /**
   * Ordinal String.Replace(pat, rep): occurrences of pat are found from the
   * left, without overlap, and each is replaced by rep. The source calls it
   * only with a non-empty pat (an empty one throws).
   */
  function ReplaceAll(s: string, pat: string, rep: string): (r: string)
    requires |pat| > 0
    ensures forall c :: c in r ==> c in s || c in rep
    ensures |rep| <= |pat| ==> |r| <= |s|
    decreases |s|
  {
    if |s| < |pat| then s
    else if s[..|pat|] == pat then rep + ReplaceAll(s[|pat|..], pat, rep)
    else [s[0]] + ReplaceAll(s[1..], pat, rep)
  }

  /**
   * Ordinal String.IndexOf: the position of the first occurrence of w in s,
   * or -1 when there is none.
   */
  function IndexOf(s: string, w: string): (r: int)
    ensures -1 <= r <= |s|
    ensures r >= 0 ==> r + |w| <= |s| && w <= s[r..]
    ensures r >= 0 ==> forall k :: 0 <= k < r ==> !(w <= s[k..])
    ensures r < 0 ==> forall k :: 0 <= k <= |s| ==> !(w <= s[k..])
  {
    if w <= s then 0
    else if s == [] then -1
    else
      var k := IndexOf(s[1..], w);
      assert forall j :: 1 <= j <= |s| ==> s[j..] == s[1..][j - 1..];
      if k < 0 then -1 else k + 1
  }

  // ---------------------------------------------------------------------
  // Facts about ReplaceAll
  // ---------------------------------------------------------------------

  /** Before the first occurrence of pat, ReplaceAll copies the text. */
  lemma {:induction false} ReplaceSkip(s: string, pat: string, rep: string, m: nat)
    requires |pat| > 0 && m <= |s|
    requires forall j :: 0 <= j < m ==> !(pat <= s[j..])
    ensures ReplaceAll(s, pat, rep) == s[..m] + ReplaceAll(s[m..], pat, rep)
    decreases m
  {
    if m > 0 {
      if |s| >= |pat| {
        assert ReplaceAll(s, pat, rep) == [s[0]] + ReplaceAll(s[1..], pat, rep) by {
          assert !(pat <= s[0..]);
          assert s[0..] == s;
        }
        assert ReplaceAll(s[1..], pat, rep) == s[1..][..m - 1] + ReplaceAll(s[m..], pat, rep) by {
          forall j | 0 <= j < m - 1
            ensures !(pat <= s[1..][j..])
          {
            assert s[1..][j..] == s[j + 1..];
          }
          ReplaceSkip(s[1..], pat, rep, m - 1);
          assert s[1..][m - 1..] == s[m..];
        }
        assert s[..m] == [s[0]] + s[1..][..m - 1];
      } else {
        assert s == s[..m] + s[m..];
      }
    }
  }

  /** The first occurrence of pat, at i, is the first one replaced. */
  lemma {:induction false} ReplaceFirst(s: string, pat: string, rep: string, i: nat)
    requires |pat| > 0 && i + |pat| <= |s| && pat <= s[i..]
    requires forall j :: 0 <= j < i ==> !(pat <= s[j..])
    ensures ReplaceAll(s, pat, rep) == s[..i] + rep + ReplaceAll(s[i + |pat|..], pat, rep)
  {
    assert ReplaceAll(s, pat, rep) == s[..i] + ReplaceAll(s[i..], pat, rep) by {
      ReplaceSkip(s, pat, rep, i);
    }
    assert ReplaceAll(s[i..], pat, rep) == rep + ReplaceAll(s[i + |pat|..], pat, rep) by {
      var t := s[i..];
      assert t[..|pat|] == pat;
      assert t[|pat|..] == s[i + |pat|..];
    }
  }

  /** A text in which pat does not occur is left as it is. */
  lemma {:induction false} ReplaceNone(s: string, pat: string, rep: string)
    requires |pat| > 0
    requires forall j :: 0 <= j < |s| ==> !(pat <= s[j..])
    ensures ReplaceAll(s, pat, rep) == s
  {
    ReplaceSkip(s, pat, rep, |s|);
    assert s[..|s|] == s;
  }

  /** A text without a space. */
  predicate Spaceless(s: string) {
    forall i :: 0 <= i < |s| ==> s[i] != ' '
  }

  /** A pattern holding a space does not occur in a spaceless text. */
  lemma SpacelessUnchanged(s: string, pat: string, rep: string)
    requires Spaceless(s) && ' ' in pat
    ensures ReplaceAll(s, pat, rep) == s
  {
    var k :| 0 <= k < |pat| && pat[k] == ' ';
    forall j | 0 <= j < |s| ensures !(pat <= s[j..]) {
      if k < |s[j..]| {
        assert s[j..][k] == s[j + k];
      }
    }
    ReplaceNone(s, pat, rep);
  }

  /** Behind a spaceless stretch, the first occurrence of a pattern that starts with a space is replaced. */
  lemma ReplaceBehindSpaceless(x: string, pat: string, rep: string, t: string)
    requires |pat| > 0 && pat[0] == ' ' && Spaceless(x)
    ensures ReplaceAll(x + (pat + t), pat, rep) == x + rep + ReplaceAll(t, pat, rep)
  {
    var s := x + (pat + t);
    assert forall j :: 0 <= j < |x| ==> !(pat <= s[j..]) by {
      forall j | 0 <= j < |x| ensures !(pat <= s[j..]) {
        assert s[j..][0] == x[j];
      }
    }
    assert pat <= s[|x|..] by {
      assert s[|x|..] == pat + t;
    }
    ReplaceFirst(s, pat, rep, |x|);
    assert s[..|x|] == x && s[|x| + |pat|..] == t;
  }

  /** Removing a one-character pattern drops exactly that character. */
  lemma {:induction false} ReplaceCharByNothing(s: string, c: char)
    ensures ReplaceAll(s, [c], "") == Drop(s, {c})
    decreases |s|
  {
    if s != [] {
      ReplaceCharByNothing(s[1..], c);
      if s[..1] == [c] {
        assert s[0] == c;
      } else {
        assert s[0] != c;
      }
    }
  }

  /** Replacing a one-character pattern by one character maps that character. */
  lemma {:induction false} ReplaceCharByChar(s: string, c: char, x: char)
    ensures ReplaceAll(s, [c], [x]) == Substitute(s, {c}, x)
    decreases |s|
  {
    if s != [] {
      ReplaceCharByChar(s[1..], c, x);
      if s[..1] == [c] {
        assert s[0] == c;
      } else {
        assert s[0] != c;
      }
    }
  }

  lemma {:induction false} DropNothing(s: string)
    ensures Drop(s, {}) == s
    decreases |s|
  {
    if s != [] {
      DropNothing(s[1..]);
    }
  }

  lemma {:induction false} DropTwice(s: string, a: set<char>, b: set<char>)
    ensures Drop(Drop(s, a), b) == Drop(s, a + b)
    decreases |s|
  {
    if s != [] {
      DropTwice(s[1..], a, b);
    }
  }

  lemma SubstituteTwice(s: string, a: set<char>, b: set<char>, x: char)
    ensures Substitute(Substitute(s, a, x), b, x) == Substitute(s, a + b, x)
  {
  }

  /**
   * If s ends with c, so does the result, unless the last occurrence
   * replaced swallowed that c and the replacement does not end with c.
   */
  lemma {:induction false} ReplaceKeepsLast(s: string, pat: string, rep: string)
    requires |pat| > 0 && |s| > 0
    requires s[|s| - 1] !in pat || (|rep| > 0 && rep[|rep| - 1] == s[|s| - 1])
    ensures var r := ReplaceAll(s, pat, rep); |r| > 0 && r[|r| - 1] == s[|s| - 1]
    decreases |s|
  {
    var r := ReplaceAll(s, pat, rep);
    if |s| < |pat| {
    } else if s[..|pat|] == pat {
      if |s| == |pat| {
        assert s == pat;
        assert s[|s| - 1] in pat;
        assert r == rep + ReplaceAll([], pat, rep);
      } else {
        var t := s[|pat|..];
        assert t[|t| - 1] == s[|s| - 1];
        ReplaceKeepsLast(t, pat, rep);
      }
    } else if |s| == 1 {
      assert r == [s[0]] + ReplaceAll([], pat, rep);
    } else {
      var t := s[1..];
      assert t[|t| - 1] == s[|s| - 1];
      ReplaceKeepsLast(t, pat, rep);
    }
  }

  // ---------------------------------------------------------------------
  // "The last non-blank character is a full stop"
  // ---------------------------------------------------------------------

  /** s ends with '.'. */
  predicate LastIsStop(s: string) {
    s != [] && s[|s| - 1] == '.'
  }

  /** After trailing whitespace is trimmed, s ends with '.'. */
  predicate EndsWithStop(s: string) {
    LastIsStop(TrimEnd(s))
  }

  lemma BlankIffTrimEndEmpty(s: string)
    ensures TrimEnd(s) == [] <==> forall i :: 0 <= i < |s| ==> IsWhiteSpace(s[i])
  {
    var t := TrimEnd(s);
    if t != [] {
      assert s[|t| - 1] == t[|t| - 1];
    }
  }

  lemma {:induction false} TrimEndConcat(a: string, b: string)
    ensures TrimEnd(a + b) == if TrimEnd(b) == [] then TrimEnd(a) else a + TrimEnd(b)
    decreases |a|
  {
    if a != [] {
      assert (a + b)[1..] == a[1..] + b;
      TrimEndConcat(a[1..], b);
    } else {
      assert a + b == b;
    }
  }

  /** A pattern holding a non-blank character cannot occur in a blank string. */
  lemma {:induction false} ReplaceInBlank(s: string, pat: string, rep: string)
    requires |pat| > 0 && TrimEnd(pat) != []
    requires TrimEnd(s) == []
    ensures ReplaceAll(s, pat, rep) == s
    decreases |s|
  {
    BlankIffTrimEndEmpty(s);
    BlankIffTrimEndEmpty(pat);
    if |s| >= |pat| {
      BlankIffTrimEndEmpty(s[1..]);
      ReplaceInBlank(s[1..], pat, rep);
    }
  }

  lemma EndsWithStopConcat(a: string, b: string)
    ensures EndsWithStop(a + b) == if TrimEnd(b) == [] then EndsWithStop(a) else EndsWithStop(b)
  {
    TrimEndConcat(a, b);
  }

  /**
   * Replacing a pattern that holds a non-blank character by a replacement
   * whose last non-blank character is '.' keeps the last non-blank
   * character of the text a '.'.
   */
  lemma {:induction false} ReplaceKeepsEndsWithStop(s: string, pat: string, rep: string)
    requires |pat| > 0 && TrimEnd(pat) != []
    requires EndsWithStop(rep) && EndsWithStop(s)
    ensures EndsWithStop(ReplaceAll(s, pat, rep))
    decreases |s|
  {
    if |s| >= |pat| {
      if s[..|pat|] == pat {
        var t := s[|pat|..];
        assert s == pat + t;
        EndsWithStopConcat(pat, t);
        var rt := ReplaceAll(t, pat, rep);
        EndsWithStopConcat(rep, rt);
        if TrimEnd(t) == [] {
          ReplaceInBlank(t, pat, rep);
        } else {
          ReplaceKeepsEndsWithStop(t, pat, rep);
        }
      } else {
        var t := s[1..];
        assert s == [s[0]] + t;
        EndsWithStopConcat([s[0]], t);
        var rt := ReplaceAll(t, pat, rep);
        EndsWithStopConcat([s[0]], rt);
        if TrimEnd(t) == [] {
          ReplaceInBlank(t, pat, rep);
        } else {
          ReplaceKeepsEndsWithStop(t, pat, rep);
        }
      }
    }
  }

  lemma StopEndsWithStop(s: string)
    requires LastIsStop(s)
    ensures EndsWithStop(s)
  {
    assert TrimEnd(s) == s;
  }

  /** Trimming a text whose last non-blank character is '.' leaves a text ending in '.'. */
  lemma TrimEndsWithStop(s: string)
    requires EndsWithStop(s)
    ensures LastIsStop(Trim(s))
  {
    var e := TrimEnd(s);
    assert !IsWhiteSpace(e[|e| - 1]);
  }

  lemma TrimKeepsStop(s: string)
    requires LastIsStop(s)
    ensures LastIsStop(Trim(s))
  {
    assert TrimEnd(s) == s;
  }
}
