/** Whole-string rewrites of the cleaner: the regular-expression substitutions `DASHES_RE` and
    `WORD_SURROUNDED_BY_SINGLE_QUOTES_RE`, `str.split()` and `str.join`. */
module Rewrites {

  /** Length of the longest prefix of `s` whose characters all satisfy `p`; this is where a
      greedy `[...]+`/`[...]*` character class stops. */
  function PrefixRun(s: string, p: char -> bool): (n: nat)
    ensures n <= |s|
    ensures forall i :: 0 <= i < n ==> p(s[i])
    ensures n == |s| || !p(s[n])
  {
    if s == [] || !p(s[0]) then 0 else 1 + PrefixRun(s[1..], p)
  }

  /** The run stops exactly at the end of a prefix `a` all of whose characters satisfy `p`
      when what follows does not start with such a character. */
  lemma {:induction false} PrefixRunOfAppend(a: string, b: string, p: char -> bool)
    requires forall i :: 0 <= i < |a| ==> p(a[i])
    requires b == [] || !p(b[0])
    ensures PrefixRun(a + b, p) == |a|
  {
    if a == [] {
      assert a + b == b;
    } else {
      assert (a + b)[1..] == a[1..] + b;
      PrefixRunOfAppend(a[1..], b, p);
    }
  }

  /** A run that stops inside `a` stops at the same place in any extension of `a`. */
  lemma PrefixRunPrefix(a: string, b: string, p: char -> bool)
    requires PrefixRun(a, p) < |a|
    ensures PrefixRun(a + b, p) == PrefixRun(a, p)
  {
    var m := PrefixRun(a, p);
    assert a + b == a[..m] + (a[m..] + b);
    PrefixRunOfAppend(a[..m], a[m..] + b, p);
  }

  /** `sep.join(parts)`. */
  function Join(sep: string, parts: seq<string>): string {
    if |parts| == 0 then ""
    else if |parts| == 1 then parts[0]
    else parts[0] + sep + Join(sep, parts[1..])
  }

  /** The concatenation of `parts`, i.e. `"".join(parts)`. */
  function Concat(parts: seq<string>): string {
    if parts == [] then "" else parts[0] + Concat(parts[1..])
  }

  /** Every character of `s` for which `p` is false, in order. */
  function Without(s: string, p: char -> bool): string {
    if s == [] then "" else (if p(s[0]) then "" else [s[0]]) + Without(s[1..], p)
  }

  lemma {:induction false} WithoutAppend(a: string, b: string, p: char -> bool)
    ensures Without(a + b, p) == Without(a, p) + Without(b, p)
  {
    if a == [] {
      assert a + b == b;
    } else {
      assert (a + b)[1..] == a[1..] + b;
      WithoutAppend(a[1..], b, p);
    }
  }

  // ---------------------------------------------------------------------------------------
  // DASHES_RE = `-+`, substituted by "-"

  predicate IsDash(c: char) {
    c == '-'
  }

  /** No two neighbouring characters are both dashes. */
  predicate NoDoubleDash(s: string) {
    forall i :: 0 <= i < |s| - 1 ==> !(s[i] == '-' && s[i + 1] == '-')
  }

  /** `DASHES_RE.sub("-", s)`: every maximal run of dashes becomes one dash. */
  function CollapseDashes(s: string): string
    decreases |s|
  {
    if s == [] then ""
    else if s[0] == '-' then "-" + CollapseDashes(s[PrefixRun(s, IsDash)..])
    else [s[0]] + CollapseDashes(s[1..])
  }

  /** The collapse starts with the same character as its input. */
  lemma CollapseDashesHead(s: string)
    requires s != []
    ensures CollapseDashes(s) != [] && CollapseDashes(s)[0] == s[0]
  {
  }

  /** After the collapse no two adjacent characters are both dashes. */
  lemma {:induction false} CollapseDashesNoDoubleDash(s: string)
    ensures NoDoubleDash(CollapseDashes(s))
    decreases |s|
  {
    if s != [] {
      var r := CollapseDashes(s);
      if s[0] == '-' {
        var rest := s[PrefixRun(s, IsDash)..];
        CollapseDashesNoDoubleDash(rest);
        if rest != [] {
          CollapseDashesHead(rest);
        }
        assert r == "-" + CollapseDashes(rest);
        assert forall i :: 1 <= i < |r| ==> r[i] == CollapseDashes(rest)[i - 1];
      } else {
        CollapseDashesNoDoubleDash(s[1..]);
        assert forall i :: 1 <= i < |r| ==> r[i] == CollapseDashes(s[1..])[i - 1];
      }
    }
  }

  /** Deleting every dash gives the same string before and after the collapse. */
  lemma {:induction false} CollapseDashesKeepsNonDashes(s: string)
    ensures Without(CollapseDashes(s), IsDash) == Without(s, IsDash)
    decreases |s|
  {
    if s != [] {
      if s[0] == '-' {
        var n := PrefixRun(s, IsDash);
        var rest := s[n..];
        CollapseDashesKeepsNonDashes(rest);
        WithoutAppend("-", CollapseDashes(rest), IsDash);
        assert s == s[..n] + rest;
        WithoutAppend(s[..n], rest, IsDash);
        DashRunVanishes(s[..n]);
      } else {
        CollapseDashesKeepsNonDashes(s[1..]);
        WithoutAppend([s[0]], CollapseDashes(s[1..]), IsDash);
      }
    }
  }

  lemma {:induction false} DashRunVanishes(s: string)
    requires forall i :: 0 <= i < |s| ==> s[i] == '-'
    ensures Without(s, IsDash) == ""
  {
    if s != [] {
      DashRunVanishes(s[1..]);
    }
  }

  /** A string with no double dash is left as it is. */
  lemma {:induction false} CollapseDashesFixesNoDoubleDash(s: string)
    requires NoDoubleDash(s)
    ensures CollapseDashes(s) == s
    decreases |s|
  {
    if s != [] {
      assert NoDoubleDash(s[1..]) by {
        assert forall i :: 0 <= i < |s| - 1 ==> s[1..][i] == s[i + 1];
      }
      if s[0] == '-' {
        PrefixRunOfAppend("-", s[1..], IsDash);
        assert s == "-" + s[1..];
      }
      CollapseDashesFixesNoDoubleDash(s[1..]);
    }
  }

  lemma SliceOfAppend(a: string, b: string, n: nat)
    requires 0 < n <= |a|
    ensures (a + b)[0] == a[0] && (a + b)[..n] == a[..n] && (a + b)[n..] == a[n..] + b
  {
  }

  lemma Associate(x: string, y: string, z: string)
    ensures x + y + z == x + (y + z)
  {
  }

  /** The collapse of a leading run of dashes followed by a non-dash, in one step. */
  lemma CollapseDashesLeadingRun(d: string, b: string)
    requires |d| > 0 && forall i :: 0 <= i < |d| ==> d[i] == '-'
    requires b == [] || b[0] != '-'
    ensures CollapseDashes(d + b) == "-" + CollapseDashes(b)
  {
    PrefixRunOfAppend(d, b, IsDash);
    assert (d + b)[0] == '-';
    assert (d + b)[|d|..] == b;
  }

  /** The step of `CollapseDashesAppend` for a prefix that starts with a dash. */
  lemma CollapseDashesAppendDash(a: string, t: string)
    requires a != [] && a[0] == '-' && a[|a| - 1] != '-'
    requires PrefixRun(a, IsDash) < |a|
    requires CollapseDashes(a[PrefixRun(a, IsDash)..] + t)
          == CollapseDashes(a[PrefixRun(a, IsDash)..]) + CollapseDashes(t)
    ensures CollapseDashes(a + t) == CollapseDashes(a) + CollapseDashes(t)
  {
    var n := PrefixRun(a, IsDash);
    PrefixRunPrefix(a, t, IsDash);
    assert (a + t)[0] == '-';
    assert (a + t)[n..] == a[n..] + t;
    var x, y := CollapseDashes(a[n..]), CollapseDashes(t);
    assert CollapseDashes(a + t) == "-" + (x + y);
    assert CollapseDashes(a) == "-" + x;
    Associate("-", x, y);
  }

  /** The step of `CollapseDashesAppend` for a prefix that starts with another character. */
  lemma CollapseDashesAppendOther(a: string, t: string)
    requires a != [] && a[0] != '-'
    requires CollapseDashes(a[1..] + t) == CollapseDashes(a[1..]) + CollapseDashes(t)
    ensures CollapseDashes(a + t) == CollapseDashes(a) + CollapseDashes(t)
  {
    assert (a + t)[0] == a[0];
    assert (a + t)[1..] == a[1..] + t;
  }

  /** A prefix that does not end in a dash is collapsed on its own: no run crosses its end. */
  lemma {:induction false} CollapseDashesAppend(a: string, t: string)
    requires a != [] && a[|a| - 1] != '-'
    ensures CollapseDashes(a + t) == CollapseDashes(a) + CollapseDashes(t)
    decreases |a|
  {
    if a[0] == '-' {
      var n := PrefixRun(a, IsDash);
      CollapseDashesAppend(a[n..], t);
      CollapseDashesAppendDash(a, t);
    } else {
      if |a| == 1 {
        assert a[1..] + t == t;
        assert CollapseDashes(a[1..]) == [];
      } else {
        CollapseDashesAppend(a[1..], t);
      }
      CollapseDashesAppendOther(a, t);
    }
  }

  /** A maximal run of dashes between `a` and `b` becomes a single dash, and the two sides are
      collapsed independently. */
  lemma CollapseDashesRun(a: string, d: string, b: string)
    requires a == [] || a[|a| - 1] != '-'
    requires |d| > 0 && forall i :: 0 <= i < |d| ==> d[i] == '-'
    requires b == [] || b[0] != '-'
    ensures CollapseDashes(a + d + b) == CollapseDashes(a) + "-" + CollapseDashes(b)
  {
    CollapseDashesLeadingRun(d, b);
    Associate(a, d, b);
    var x, y := CollapseDashes(a), CollapseDashes(b);
    Associate(x, "-", y);
    if a != [] {
      CollapseDashesAppend(a, d + b);
    } else {
      assert a + (d + b) == d + b;
      assert x + ("-" + y) == "-" + y;
    }
  }

  /** The case `aa--bb` of the cleaner's dash handling. */
  lemma CollapseDashesExample(s: string)
    requires s == "aa--bb"
    ensures CollapseDashes(s) == "aa-bb"
  {
    assert s == "aa" + "--" + "bb";
    CollapseDashesRun("aa", "--", "bb");
    CollapseDashesFixesNoDoubleDash("aa");
    CollapseDashesFixesNoDoubleDash("bb");
  }

  /** The collapse leaves `s` alone exactly when `s` has no double dash; hence it is idempotent. */
  lemma CollapseDashesFixpoint(s: string)
    ensures CollapseDashes(s) == s <==> NoDoubleDash(s)
    ensures CollapseDashes(CollapseDashes(s)) == CollapseDashes(s)
  {
    CollapseDashesNoDoubleDash(s);
    if NoDoubleDash(s) {
      CollapseDashesFixesNoDoubleDash(s);
    }
    CollapseDashesFixesNoDoubleDash(CollapseDashes(s));
  }

  // ---------------------------------------------------------------------------------------
  // WORD_SURROUNDED_BY_SINGLE_QUOTES_RE = `'([\w\-]+)'`, substituted by `"\1"`

  /** The character class `[\w\-]`, given the Unicode word-character predicate `isWord`. */
  function WordClass(isWord: char -> bool): char -> bool {
    c => isWord(c) || c == '-'
  }

  /** `WORD_SURROUNDED_BY_SINGLE_QUOTES_RE.sub(r'"\1"', s)`, scanning left to right. When the
      class excludes the apostrophe, as `\w` does, the greedy class run is the only candidate
      for the group, so a match is decided without backtracking: an apostrophe, at least one
      class character, and an apostrophe right after the run. */
  function NormalizeSingleQuotes(s: string, isWord: char -> bool): string
    decreases |s|
  {
    if s == [] then ""
    else if s[0] == '\'' then
      var n := PrefixRun(s[1..], WordClass(isWord));
      if 0 < n && n + 1 < |s| && s[n + 1] == '\'' then
        "\"" + s[1..n + 1] + "\"" + NormalizeSingleQuotes(s[n + 2..], isWord)
      else
        "'" + NormalizeSingleQuotes(s[1..], isWord)
    else [s[0]] + NormalizeSingleQuotes(s[1..], isWord)
  }

  /** `r` is `s` with some apostrophes turned into double quotes. */
  predicate QuotesOnly(s: string, r: string) {
    |r| == |s| && forall i :: 0 <= i < |s| && r[i] != s[i] ==> s[i] == '\'' && r[i] == '"'
  }

  lemma QuotesOnlyAppend(s1: string, r1: string, s2: string, r2: string)
    requires QuotesOnly(s1, r1) && QuotesOnly(s2, r2)
    ensures QuotesOnly(s1 + s2, r1 + r2)
  {
    assert forall i :: |s1| <= i < |s1| + |s2| ==> (s1 + s2)[i] == s2[i - |s1|] && (r1 + r2)[i] == r2[i - |s1|];
  }

  /** Quoting a word swaps the two apostrophes around it for double quotes. */
  lemma QuotesOnlyQuotedWord(s: string, n: nat)
    requires 0 < n && n + 1 < |s| && s[0] == '\'' && s[n + 1] == '\''
    ensures QuotesOnly(s[..n + 2], "\"" + s[1..n + 1] + "\"")
  {
    var head := "\"" + s[1..n + 1] + "\"";
    assert forall i :: 1 <= i < n + 1 ==> head[i] == s[i];
  }

  lemma {:induction false} NormalizeSingleQuotesQuotesOnly(s: string, isWord: char -> bool)
    ensures QuotesOnly(s, NormalizeSingleQuotes(s, isWord))
    decreases |s|
  {
    if s != [] {
      var r := NormalizeSingleQuotes(s, isWord);
      var n := PrefixRun(s[1..], WordClass(isWord));
      if s[0] == '\'' && 0 < n && n + 1 < |s| && s[n + 1] == '\'' {
        var rest := s[n + 2..];
        var head := "\"" + s[1..n + 1] + "\"";
        assert r == head + NormalizeSingleQuotes(rest, isWord);
        NormalizeSingleQuotesQuotesOnly(rest, isWord);
        QuotesOnlyQuotedWord(s, n);
        QuotesOnlyAppend(s[..n + 2], head, rest, NormalizeSingleQuotes(rest, isWord));
        assert s == s[..n + 2] + rest;
      } else {
        assert r == [s[0]] + NormalizeSingleQuotes(s[1..], isWord);
        NormalizeSingleQuotesQuotesOnly(s[1..], isWord);
        QuotesOnlyAppend([s[0]], [s[0]], s[1..], NormalizeSingleQuotes(s[1..], isWord));
        assert s == [s[0]] + s[1..];
      }
    }
  }

  /** The rewrite keeps the length and changes nothing but apostrophes, each into `"`. */
  lemma NormalizeSingleQuotesChangesOnlyQuotes(s: string, isWord: char -> bool)
    ensures |NormalizeSingleQuotes(s, isWord)| == |s|
    ensures forall i :: 0 <= i < |s| && NormalizeSingleQuotes(s, isWord)[i] != s[i] ==>
      s[i] == '\'' && NormalizeSingleQuotes(s, isWord)[i] == '"'
  {
    NormalizeSingleQuotesQuotesOnly(s, isWord);
  }

  /** A string without apostrophes is left as it is. */
  lemma NormalizeSingleQuotesWithoutQuote(s: string, isWord: char -> bool)
    requires forall i :: 0 <= i < |s| ==> s[i] != '\''
    ensures NormalizeSingleQuotes(s, isWord) == s
  {
    NormalizeSingleQuotesChangesOnlyQuotes(s, isWord);
  }

  /** `'w'`, where `w` is one or more word or hyphen characters, becomes `"w"`, and the scan
      goes on right after the closing quote. */
  lemma NormalizeSingleQuotesWord(w: string, rest: string, isWord: char -> bool)
    requires !isWord('\'')
    requires |w| > 0 && forall i :: 0 <= i < |w| ==> isWord(w[i]) || w[i] == '-'
    ensures NormalizeSingleQuotes("'" + w + "'" + rest, isWord)
         == "\"" + w + "\"" + NormalizeSingleQuotes(rest, isWord)
  {
    var s := "'" + w + "'" + rest;
    assert s[1..] == w + ("'" + rest);
    PrefixRunOfAppend(w, "'" + rest, WordClass(isWord));
    assert s[|w| + 1] == '\'';
    assert s[1..|w| + 1] == w;
    assert s[|w| + 2..] == rest;
  }

  /** The pattern `'([\w\-]+)'` occurs in `s` from position `i` to position `j`. */
  predicate QuotedWordAt(s: string, i: nat, j: nat, isWord: char -> bool) {
    i + 1 < j < |s| && s[i] == '\'' && s[j] == '\''
    && forall k :: i < k < j ==> WordClass(isWord)(s[k])
  }

  /** The pattern occurs somewhere in `s`. */
  predicate HasQuotedWord(s: string, isWord: char -> bool) {
    exists i: nat, j: nat | i < j < |s| :: QuotedWordAt(s, i, j, isWord)
  }

  lemma NoQuotedWordInTail(s: string, isWord: char -> bool)
    requires s != [] && !HasQuotedWord(s, isWord)
    ensures !HasQuotedWord(s[1..], isWord)
  {
    forall i: nat, j: nat | QuotedWordAt(s[1..], i, j, isWord)
      ensures QuotedWordAt(s, i + 1, j + 1, isWord)
    {
      assert forall k :: i + 1 < k < j + 1 ==> s[k] == s[1..][k - 1];
    }
  }

  /** Where the pattern does not occur, the rewrite changes nothing: every apostrophe outside a
      `'w'` match, as in `what's`, `test'`, `''` or `'yeah`, stays as it is. */
  lemma {:induction false} NormalizeSingleQuotesUnmatched(s: string, isWord: char -> bool)
    requires !HasQuotedWord(s, isWord)
    ensures NormalizeSingleQuotes(s, isWord) == s
    decreases |s|
  {
    if s != [] {
      NoQuotedWordInTail(s, isWord);
      NormalizeSingleQuotesUnmatched(s[1..], isWord);
      if s[0] == '\'' {
        var n := PrefixRun(s[1..], WordClass(isWord));
        assert forall k :: 0 < k < n + 1 ==> s[k] == s[1..][k - 1];
        assert !QuotedWordAt(s, 0, n + 1, isWord);
        assert NormalizeSingleQuotes(s, isWord) == "'" + NormalizeSingleQuotes(s[1..], isWord);
      }
      assert s == [s[0]] + s[1..];
    }
  }

  /** A match at the very start is taken: its opening apostrophe becomes `"`. */
  lemma NormalizeSingleQuotesLeadingMatch(s: string, j: nat, isWord: char -> bool)
    requires !isWord('\'') && QuotedWordAt(s, 0, j, isWord)
    ensures NormalizeSingleQuotes(s, isWord) != [] && NormalizeSingleQuotes(s, isWord)[0] == '"'
  {
    assert s[1..] == s[1..j] + s[j..];
    assert forall k :: 0 <= k < |s[1..j]| ==> s[1..j][k] == s[k + 1];
    PrefixRunOfAppend(s[1..j], s[j..], WordClass(isWord));
  }

  /** Where the pattern occurs, the rewrite changes something. */
  lemma {:induction false} NormalizeSingleQuotesMatched(s: string, isWord: char -> bool)
    requires !isWord('\'') && HasQuotedWord(s, isWord)
    ensures NormalizeSingleQuotes(s, isWord) != s
    decreases |s|
  {
    var i: nat, j: nat :| i < j < |s| && QuotedWordAt(s, i, j, isWord);
    assert i + 1 < j && s[i] == '\'' && s[j] == '\'';
    NormalizeSingleQuotesQuotesOnly(s, isWord);
    if i == 0 {
      NormalizeSingleQuotesLeadingMatch(s, j, isWord);
    } else if NormalizeSingleQuotes(s, isWord)[0] == s[0] {
      assert QuotedWordAt(s[1..], i - 1, j - 1, isWord) by {
        assert forall k :: i - 1 < k < j - 1 ==> s[1..][k] == s[k + 1];
      }
      NormalizeSingleQuotesMatched(s[1..], isWord);
      NormalizeSingleQuotesHeadKept(s, isWord);
    }
  }

  /** When the first character survives, the rest of the text is rewritten on its own. */
  lemma NormalizeSingleQuotesHeadKept(s: string, isWord: char -> bool)
    requires s != [] && NormalizeSingleQuotes(s, isWord)[0] == s[0]
    ensures NormalizeSingleQuotes(s, isWord) == [s[0]] + NormalizeSingleQuotes(s[1..], isWord)
  {
  }

  /** The rewrite leaves `s` alone exactly when the pattern does not occur in it. */
  lemma NormalizeSingleQuotesFixpoint(s: string, isWord: char -> bool)
    requires !isWord('\'')
    ensures NormalizeSingleQuotes(s, isWord) == s <==> !HasQuotedWord(s, isWord)
  {
    if HasQuotedWord(s, isWord) {
      NormalizeSingleQuotesMatched(s, isWord);
    } else {
      NormalizeSingleQuotesUnmatched(s, isWord);
    }
  }

  /** A character that can neither open, continue nor close a match. */
  predicate Separates(c: char, isWord: char -> bool) {
    c != '\'' && !WordClass(isWord)(c)
  }

  /** In `a + b`, where `a` ends in a separator, the class run after a leading apostrophe stops
      inside `a`, at the same place as in `a` alone. */
  lemma QuoteRunInside(a: string, b: string, isWord: char -> bool)
    requires |a| > 1 && a[0] == '\'' && Separates(a[|a| - 1], isWord)
    ensures PrefixRun(a[1..], WordClass(isWord)) < |a| - 1
    ensures PrefixRun((a + b)[1..], WordClass(isWord)) == PrefixRun(a[1..], WordClass(isWord))
  {
    assert a[1..][|a| - 2] == a[|a| - 1];
    assert (a + b)[1..] == a[1..] + b;
    PrefixRunPrefix(a[1..], b, WordClass(isWord));
  }

  /** `a` starts with a match of the pattern: an apostrophe, a class run and an apostrophe. */
  predicate MatchesAtHead(a: string, isWord: char -> bool) {
    |a| > 1 && a[0] == '\'' &&
    var m := PrefixRun(a[1..], WordClass(isWord));
    0 < m && m + 1 < |a| && a[m + 1] == '\''
  }

  /** The step of `NormalizeSingleQuotesAppend` at a match that closes inside `a`. */
  lemma NormalizeSingleQuotesAppendMatch(a: string, b: string, isWord: char -> bool)
    requires |a| > 1 && a[0] == '\''
    requires var m := PrefixRun(a[1..], WordClass(isWord));
      m + 2 < |a| && m == PrefixRun((a + b)[1..], WordClass(isWord)) && 0 < m && a[m + 1] == '\''
      && NormalizeSingleQuotes(a[m + 2..] + b, isWord)
         == NormalizeSingleQuotes(a[m + 2..], isWord) + NormalizeSingleQuotes(b, isWord)
    ensures NormalizeSingleQuotes(a + b, isWord)
         == NormalizeSingleQuotes(a, isWord) + NormalizeSingleQuotes(b, isWord)
  {
    var m := PrefixRun(a[1..], WordClass(isWord));
    var head := "\"" + a[1..m + 1] + "\"";
    assert (a + b)[0] == '\'' && (a + b)[m + 1] == '\'';
    assert (a + b)[1..m + 1] == a[1..m + 1];
    assert (a + b)[m + 2..] == a[m + 2..] + b;
    assert NormalizeSingleQuotes(a + b, isWord) == head + NormalizeSingleQuotes(a[m + 2..] + b, isWord);
    assert NormalizeSingleQuotes(a, isWord) == head + NormalizeSingleQuotes(a[m + 2..], isWord);
    Associate(head, NormalizeSingleQuotes(a[m + 2..], isWord), NormalizeSingleQuotes(b, isWord));
  }

  /** The step of `NormalizeSingleQuotesAppend` where the first character is copied. */
  lemma NormalizeSingleQuotesAppendCopy(a: string, b: string, isWord: char -> bool)
    requires |a| > 1 && Separates(a[|a| - 1], isWord) && !MatchesAtHead(a, isWord)
    requires NormalizeSingleQuotes(a[1..] + b, isWord)
          == NormalizeSingleQuotes(a[1..], isWord) + NormalizeSingleQuotes(b, isWord)
    ensures NormalizeSingleQuotes(a + b, isWord)
         == NormalizeSingleQuotes(a, isWord) + NormalizeSingleQuotes(b, isWord)
  {
    SliceOfAppend(a, b, 1);
    if a[0] == '\'' {
      QuoteRunInside(a, b, isWord);
    }
    assert NormalizeSingleQuotes(a, isWord) == [a[0]] + NormalizeSingleQuotes(a[1..], isWord);
    assert NormalizeSingleQuotes(a + b, isWord) == [a[0]] + NormalizeSingleQuotes(a[1..] + b, isWord);
    Associate([a[0]], NormalizeSingleQuotes(a[1..], isWord), NormalizeSingleQuotes(b, isWord));
  }

  /** The step of `NormalizeSingleQuotesAppend` for a single separator. */
  lemma NormalizeSingleQuotesAppendLast(a: string, b: string, isWord: char -> bool)
    requires |a| == 1 && Separates(a[0], isWord)
    ensures NormalizeSingleQuotes(a + b, isWord)
         == NormalizeSingleQuotes(a, isWord) + NormalizeSingleQuotes(b, isWord)
  {
    assert (a + b)[0] == a[0] && (a + b)[1..] == b && a[1..] == [];
    assert NormalizeSingleQuotes(a + b, isWord) == [a[0]] + NormalizeSingleQuotes(b, isWord);
    assert NormalizeSingleQuotes(a, isWord) == [a[0]] + NormalizeSingleQuotes([], isWord);
  }

  /** No match crosses a separator, so a text that ends in one is rewritten on its own. */
  lemma {:induction false} NormalizeSingleQuotesAppend(a: string, b: string, isWord: char -> bool)
    requires a != [] && Separates(a[|a| - 1], isWord)
    ensures NormalizeSingleQuotes(a + b, isWord)
         == NormalizeSingleQuotes(a, isWord) + NormalizeSingleQuotes(b, isWord)
    decreases |a|
  {
    if |a| == 1 {
      NormalizeSingleQuotesAppendLast(a, b, isWord);
    } else if MatchesAtHead(a, isWord) {
      var m := PrefixRun(a[1..], WordClass(isWord));
      QuoteRunInside(a, b, isWord);
      assert m + 2 < |a| && a[m + 2..][|a| - m - 3] == a[|a| - 1];
      NormalizeSingleQuotesAppend(a[m + 2..], b, isWord);
      NormalizeSingleQuotesAppendMatch(a, b, isWord);
    } else {
      assert a[1..][|a| - 2] == a[|a| - 1];
      NormalizeSingleQuotesAppend(a[1..], b, isWord);
      NormalizeSingleQuotesAppendCopy(a, b, isWord);
    }
  }

  /** A prefix without apostrophes is copied. */
  lemma {:induction false} NormalizeSingleQuotesCopy(w: string, rest: string, isWord: char -> bool)
    requires forall i :: 0 <= i < |w| ==> w[i] != '\''
    ensures NormalizeSingleQuotes(w + rest, isWord) == w + NormalizeSingleQuotes(rest, isWord)
  {
    if w == [] {
      assert w + rest == rest;
    } else {
      assert (w + rest)[1..] == w[1..] + rest;
      NormalizeSingleQuotesCopy(w[1..], rest, isWord);
      Associate([w[0]], w[1..], NormalizeSingleQuotes(rest, isWord));
      assert [w[0]] + w[1..] == w;
    }
  }

  /** An apostrophe whose class run is empty, or is not closed by an apostrophe, is copied. */
  lemma NormalizeSingleQuotesOpenQuote(w: string, c: char, rest: string, isWord: char -> bool)
    requires forall i :: 0 <= i < |w| ==> WordClass(isWord)(w[i])
    requires !WordClass(isWord)(c) && (w == [] || c != '\'')
    ensures NormalizeSingleQuotes("'" + w + [c] + rest, isWord)
         == "'" + NormalizeSingleQuotes(w + [c] + rest, isWord)
  {
    var s := "'" + w + [c] + rest;
    assert s[1..] == w + ([c] + rest);
    PrefixRunOfAppend(w, [c] + rest, WordClass(isWord));
    assert s[|w| + 1] == c;
    assert w + ([c] + rest) == w + [c] + rest;
  }

  /** A text cut into pieces, each but the last ending in a separator, is rewritten piece by
      piece. */
  lemma {:induction false} NormalizeSingleQuotesConcat(parts: seq<string>, outs: seq<string>, isWord: char -> bool)
    requires |outs| == |parts|
    requires forall i :: 0 <= i < |parts| ==> NormalizeSingleQuotes(parts[i], isWord) == outs[i]
    requires forall i :: 0 <= i < |parts| - 1 ==> parts[i] != [] && Separates(parts[i][|parts[i]| - 1], isWord)
    ensures NormalizeSingleQuotes(Concat(parts), isWord) == Concat(outs)
    decreases |parts|
  {
    if parts != [] {
      NormalizeSingleQuotesConcat(parts[1..], outs[1..], isWord);
      if |parts| == 1 {
        assert Concat(parts) == parts[0] + "" == parts[0];
        assert Concat(outs) == outs[0] + "" == outs[0];
      } else {
        NormalizeSingleQuotesAppend(parts[0], Concat(parts[1..]), isWord);
      }
    }
  }

  lemma ConcatSeven(x1: string, x2: string, x3: string, x4: string, x5: string, x6: string, x7: string)
    ensures Concat([x1, x2, x3, x4, x5, x6, x7]) == x1 + x2 + x3 + x4 + x5 + x6 + x7
  {
    assert Concat([x7]) == x7 + Concat([]);
    assert Concat([x6, x7]) == x6 + Concat([x7]);
    assert Concat([x5, x6, x7]) == x5 + Concat([x6, x7]);
    assert Concat([x4, x5, x6, x7]) == x4 + Concat([x5, x6, x7]);
    assert Concat([x3, x4, x5, x6, x7]) == x3 + Concat([x4, x5, x6, x7]);
    assert Concat([x2, x3, x4, x5, x6, x7]) == x2 + Concat([x3, x4, x5, x6, x7]);
  }

  lemma NormalizeSingleQuotesSeven(p1: string, p2: string, p3: string, p4: string, p5: string, p6: string, p7: string,
                                   q1: string, q2: string, q3: string, q4: string, q5: string, q6: string, q7: string,
                                   isWord: char -> bool)
    requires p1 != [] && Separates(p1[|p1| - 1], isWord) && p2 != [] && Separates(p2[|p2| - 1], isWord)
    requires p3 != [] && Separates(p3[|p3| - 1], isWord) && p4 != [] && Separates(p4[|p4| - 1], isWord)
    requires p5 != [] && Separates(p5[|p5| - 1], isWord) && p6 != [] && Separates(p6[|p6| - 1], isWord)
    requires NormalizeSingleQuotes(p1, isWord) == q1 && NormalizeSingleQuotes(p2, isWord) == q2
    requires NormalizeSingleQuotes(p3, isWord) == q3 && NormalizeSingleQuotes(p4, isWord) == q4
    requires NormalizeSingleQuotes(p5, isWord) == q5 && NormalizeSingleQuotes(p6, isWord) == q6
    requires NormalizeSingleQuotes(p7, isWord) == q7
    ensures NormalizeSingleQuotes(p1 + p2 + p3 + p4 + p5 + p6 + p7, isWord) == q1 + q2 + q3 + q4 + q5 + q6 + q7
  {
    NormalizeSingleQuotesConcat([p1, p2, p3, p4, p5, p6, p7], [q1, q2, q3, q4, q5, q6, q7], isWord);
    ConcatSeven(p1, p2, p3, p4, p5, p6, p7);
    ConcatSeven(q1, q2, q3, q4, q5, q6, q7);
  }

  /** A non-empty string of word characters (`\w+`). */
  predicate WordChars(w: string, isWord: char -> bool) {
    |w| > 0 && forall i :: 0 <= i < |w| ==> isWord(w[i])
  }

  // The pieces of the quote scenario below, one lemma each.

  /** `a's `: an apostrophe inside a word is kept. */
  lemma QuoteScenarioInside(a: string, b: string, isWord: char -> bool)
    requires !isWord(' ') && !isWord('\'')
    requires WordChars(a, isWord) && WordChars(b, isWord)
    ensures NormalizeSingleQuotes(a + "'" + b + " ", isWord) == a + "'" + b + " "
  {
    NormalizeSingleQuotesWithoutQuote(b + " ", isWord);
    NormalizeSingleQuotesOpenQuote(b, ' ', "", isWord);
    assert "'" + b + [' '] + "" == "'" + b + " ";
    assert b + [' '] + "" == b + " ";
    NormalizeSingleQuotesCopy(a, "'" + b + " ", isWord);
    Associate(a, "'", b);
    Associate(a, "'" + b, " ");
    assert a + "'" + b + " " == a + ("'" + b + " ");
  }

  /** `c? `: a piece without apostrophes is kept. */
  lemma QuoteScenarioPlain(c: string, isWord: char -> bool)
    requires !isWord('\'')
    requires WordChars(c, isWord)
    ensures NormalizeSingleQuotes(c + "? ", isWord) == c + "? "
  {
    NormalizeSingleQuotesWithoutQuote(c + "? ", isWord);
  }

  /** `'d' `: a quoted word is double-quoted. */
  lemma QuoteScenarioQuoted(d: string, isWord: char -> bool)
    requires !isWord(' ') && !isWord('\'')
    requires WordChars(d, isWord)
    ensures NormalizeSingleQuotes("'" + d + "'" + " ", isWord) == "\"" + d + "\"" + " "
  {
    NormalizeSingleQuotesWord(d, " ", isWord);
    NormalizeSingleQuotesWithoutQuote(" ", isWord);
  }

  /** `e' `: a closing apostrophe without an opening one is kept. */
  lemma QuoteScenarioClosing(e: string, isWord: char -> bool)
    requires !isWord(' ') && !isWord('\'')
    requires WordChars(e, isWord)
    ensures NormalizeSingleQuotes(e + "' ", isWord) == e + "' "
  {
    NormalizeSingleQuotesOpenQuote("", ' ', "", isWord);
    assert "'" + "" + [' '] + "" == "' ";
    assert "" + [' '] + "" == " ";
    NormalizeSingleQuotesWithoutQuote(" ", isWord);
    NormalizeSingleQuotesCopy(e, "' ", isWord);
  }

  /** `'' `: two apostrophes with nothing between them are kept. */
  lemma QuoteScenarioEmpty(isWord: char -> bool)
    requires !isWord(' ') && !isWord('\'')
    ensures NormalizeSingleQuotes("'' ", isWord) == "'' "
  {
    NormalizeSingleQuotesOpenQuote("", ' ', "", isWord);
    assert "'" + "" + [' '] + "" == "' ";
    assert "" + [' '] + "" == " ";
    NormalizeSingleQuotesWithoutQuote(" ", isWord);
    NormalizeSingleQuotesOpenQuote("", '\'', " ", isWord);
    assert "'" + "" + ['\''] + " " == "'' ";
    assert "" + ['\''] + " " == "' ";
  }

  /** `'f `: an opening apostrophe without a closing one is kept. */
  lemma QuoteScenarioOpening(f: string, isWord: char -> bool)
    requires !isWord(' ') && !isWord('\'')
    requires WordChars(f, isWord)
    ensures NormalizeSingleQuotes("'" + f + " ", isWord) == "'" + f + " "
  {
    NormalizeSingleQuotesWithoutQuote(f + " ", isWord);
    NormalizeSingleQuotesOpenQuote(f, ' ', "", isWord);
    assert "'" + f + [' '] + "" == "'" + f + " ";
    assert f + [' '] + "" == f + " ";
  }

  /** `'g-h'`: a quoted hyphenated word is double-quoted. */
  lemma QuoteScenarioHyphenated(g: string, h: string, isWord: char -> bool)
    requires !isWord('\'')
    requires WordChars(g, isWord) && WordChars(h, isWord)
    ensures NormalizeSingleQuotes("'" + (g + "-" + h) + "'", isWord) == "\"" + (g + "-" + h) + "\""
  {
    var gh := g + "-" + h;
    forall i | 0 <= i < |gh| ensures isWord(gh[i]) || gh[i] == '-' {
      if i < |g| {
        assert gh[i] == g[i];
      } else if i > |g| {
        assert gh[i] == h[i - |g| - 1];
      }
    }
    NormalizeSingleQuotesWord(gh, "", isWord);
    assert "'" + gh + "'" + "" == "'" + gh + "'";
    assert "\"" + gh + "\"" + "" == "\"" + gh + "\"";
  }

  /** The cleaner's quote scenario, `what's that? 'woman' test' '' 'yeah 'test-test'`, with its
      words replaced by arbitrary word strings: only `'d'` and `'g-h'` become double-quoted. */
  lemma NormalizeSingleQuotesScenario(a: string, b: string, c: string, d: string, e: string, f: string,
                                      g: string, h: string, isWord: char -> bool)
    requires !isWord(' ') && !isWord('\'') && !isWord('?')
    requires WordChars(a, isWord) && WordChars(b, isWord) && WordChars(c, isWord) && WordChars(d, isWord)
    requires WordChars(e, isWord) && WordChars(f, isWord) && WordChars(g, isWord) && WordChars(h, isWord)
    ensures NormalizeSingleQuotes((a + "'" + b + " ") + (c + "? ") + ("'" + d + "'" + " ") + (e + "' ") + "'' "
                                  + ("'" + f + " ") + ("'" + (g + "-" + h) + "'"), isWord)
         == (a + "'" + b + " ") + (c + "? ") + ("\"" + d + "\"" + " ") + (e + "' ") + "'' "
            + ("'" + f + " ") + ("\"" + (g + "-" + h) + "\"")
  {
    QuoteScenarioInside(a, b, isWord);
    QuoteScenarioPlain(c, isWord);
    QuoteScenarioQuoted(d, isWord);
    QuoteScenarioClosing(e, isWord);
    QuoteScenarioEmpty(isWord);
    QuoteScenarioOpening(f, isWord);
    QuoteScenarioHyphenated(g, h, isWord);
    NormalizeSingleQuotesSeven(
      a + "'" + b + " ", c + "? ", "'" + d + "'" + " ", e + "' ", "'' ", "'" + f + " ", "'" + (g + "-" + h) + "'",
      a + "'" + b + " ", c + "? ", "\"" + d + "\"" + " ", e + "' ", "'' ", "'" + f + " ", "\"" + (g + "-" + h) + "\"",
      isWord);
  }

  /** The scenario with the cleaner's own words. */
  lemma NormalizeSingleQuotesExample(a: string, b: string, c: string, d: string, e: string, f: string,
                                     isWord: char -> bool)
    requires a == "what" && b == "s" && c == "that" && d == "woman" && e == "test" && f == "yeah"
    requires !isWord(' ') && !isWord('\'') && !isWord('?')
    requires forall ch :: 'a' <= ch <= 'z' ==> isWord(ch)
    ensures NormalizeSingleQuotes((a + "'" + b + " ") + (c + "? ") + ("'" + d + "'" + " ") + (e + "' ") + "'' "
                                  + ("'" + f + " ") + ("'" + (e + "-" + e) + "'"), isWord)
         == (a + "'" + b + " ") + (c + "? ") + ("\"" + d + "\"" + " ") + (e + "' ") + "'' "
            + ("'" + f + " ") + ("\"" + (e + "-" + e) + "\"")
  {
    NormalizeSingleQuotesScenario(a, b, c, d, e, f, e, e, isWord);
  }

  // ---------------------------------------------------------------------------------------
  // str.split() with no separator

  function NotSpace(isSpace: char -> bool): char -> bool {
    c => !isSpace(c)
  }

  /** `s.split()`: the maximal runs of non-space characters, in order. */
  function Split(s: string, isSpace: char -> bool): seq<string>
    decreases |s|
  {
    if s == [] then []
    else if isSpace(s[0]) then Split(s[1..], isSpace)
    else
      var n := PrefixRun(s, NotSpace(isSpace));
      [s[..n]] + Split(s[n..], isSpace)
  }

  /** A piece in the sense of `split`: non-empty and without space characters. */
  predicate IsPiece(w: string, isSpace: char -> bool) {
    |w| > 0 && forall i :: 0 <= i < |w| ==> !isSpace(w[i])
  }

  /** Every piece of `split` is non-empty and space-free, and the pieces hold exactly the
      non-space characters of the input, in order. */
  lemma {:induction false} SplitWords(s: string, isSpace: char -> bool)
    ensures forall j :: 0 <= j < |Split(s, isSpace)| ==> IsPiece(Split(s, isSpace)[j], isSpace)
    ensures Concat(Split(s, isSpace)) == Without(s, isSpace)
    decreases |s|
  {
    if s != [] {
      if isSpace(s[0]) {
        SplitWords(s[1..], isSpace);
        assert s == [s[0]] + s[1..];
        WithoutAppend([s[0]], s[1..], isSpace);
      } else {
        var n := PrefixRun(s, NotSpace(isSpace));
        SplitWords(s[n..], isSpace);
        assert s == s[..n] + s[n..];
        WithoutAppend(s[..n], s[n..], isSpace);
        NoSpaceKept(s[..n], isSpace);
      }
    }
  }

  lemma {:induction false} NoSpaceKept(w: string, isSpace: char -> bool)
    requires forall i :: 0 <= i < |w| ==> !isSpace(w[i])
    ensures Without(w, isSpace) == w
  {
    if w != [] {
      NoSpaceKept(w[1..], isSpace);
    }
  }

  /** Joining words with single spaces and splitting again gives the words back. */
  lemma {:induction false} SplitJoin(words: seq<string>, isSpace: char -> bool)
    requires isSpace(' ')
    requires forall j :: 0 <= j < |words| ==> IsPiece(words[j], isSpace)
    ensures Split(Join(" ", words), isSpace) == words
  {
    if |words| == 1 {
      var w := words[0];
      PrefixRunOfAppend(w, "", NotSpace(isSpace));
      assert w + "" == w;
      assert w[|w|..] == [];
    } else if |words| > 1 {
      var w := words[0];
      var tail := Join(" ", words[1..]);
      var s := w + (" " + tail);
      assert Join(" ", words) == s;
      PrefixRunOfAppend(w, " " + tail, NotSpace(isSpace));
      assert s[..|w|] == w;
      assert s[|w|..] == " " + tail;
      assert (" " + tail)[1..] == tail;
      SplitJoin(words[1..], isSpace);
    }
  }

  /** The step of `SplitAppend` at a word of `a`, of length `n`: the word ends inside `a`, or at
      its end, where `b` starts with a space. */
  lemma SplitAppendWord(a: string, b: string, n: nat, isSpace: char -> bool)
    requires a != [] && !isSpace(a[0]) && (b == [] || isSpace(b[0]))
    requires n == PrefixRun(a, NotSpace(isSpace))
    requires Split(a[n..] + b, isSpace) == Split(a[n..], isSpace) + Split(b, isSpace)
    ensures Split(a + b, isSpace) == Split(a, isSpace) + Split(b, isSpace)
  {
    WordRunOfAppend(a, b, isSpace);
    SliceOfAppend(a, b, n);
    SplitHeadWord(a + b, n, isSpace);
    SplitHeadWord(a, n, isSpace);
    AssociateWords([a[..n]], Split(a[n..], isSpace), Split(b, isSpace));
  }

  lemma AssociateWords(x: seq<string>, y: seq<string>, z: seq<string>)
    ensures x + y + z == x + (y + z)
  {
  }

  /** The first word of `a + b` is the first word of `a` when `b` starts with a space. */
  lemma WordRunOfAppend(a: string, b: string, isSpace: char -> bool)
    requires a != [] && (b == [] || isSpace(b[0]))
    ensures PrefixRun(a + b, NotSpace(isSpace)) == PrefixRun(a, NotSpace(isSpace))
  {
    if PrefixRun(a, NotSpace(isSpace)) < |a| {
      PrefixRunPrefix(a, b, NotSpace(isSpace));
    } else {
      PrefixRunOfAppend(a, b, NotSpace(isSpace));
    }
  }

  lemma SplitHeadWord(s: string, n: nat, isSpace: char -> bool)
    requires s != [] && !isSpace(s[0]) && n == PrefixRun(s, NotSpace(isSpace))
    ensures 0 < n && Split(s, isSpace) == [s[..n]] + Split(s[n..], isSpace)
  {
  }

  /** Where `b` starts with a space, or is empty, no piece crosses the border between `a` and
      `b`. */
  lemma {:induction false} SplitAppend(a: string, b: string, isSpace: char -> bool)
    requires b == [] || isSpace(b[0])
    ensures Split(a + b, isSpace) == Split(a, isSpace) + Split(b, isSpace)
    decreases |a|
  {
    if a == [] {
      assert a + b == b;
    } else if isSpace(a[0]) {
      assert (a + b)[1..] == a[1..] + b;
      SplitAppend(a[1..], b, isSpace);
    } else {
      var n := PrefixRun(a, NotSpace(isSpace));
      SplitAppend(a[n..], b, isSpace);
      SplitAppendWord(a, b, n, isSpace);
    }
  }

  /** A space character separates pieces: `split` cuts there and drops it. */
  lemma SplitAtSpace(a: string, c: char, b: string, isSpace: char -> bool)
    requires isSpace(c)
    ensures Split(a + [c] + b, isSpace) == Split(a, isSpace) + Split(b, isSpace)
  {
    assert a + [c] + b == a + ([c] + b);
    SplitAppend(a, [c] + b, isSpace);
    assert ([c] + b)[1..] == b;
  }

  /** A non-empty, space-free string is one piece, and the empty string has none: with `SplitAtSpace` this fixes the
      pieces of every string to its maximal non-space runs. */
  lemma SplitWord(w: string, isSpace: char -> bool)
    ensures Split("", isSpace) == []
    ensures IsPiece(w, isSpace) ==> Split(w, isSpace) == [w]
  {
    if IsPiece(w, isSpace) {
      PrefixRunOfAppend(w, "", NotSpace(isSpace));
      assert w + "" == w;
      assert w[|w|..] == [];
    }
  }

  /** Splitting is a normal form: re-joining its pieces with spaces and splitting again changes
      nothing. */
  lemma SplitIdempotent(s: string, isSpace: char -> bool)
    requires isSpace(' ')
    ensures Split(Join(" ", Split(s, isSpace)), isSpace) == Split(s, isSpace)
  {
    SplitWords(s, isSpace);
    SplitJoin(Split(s, isSpace), isSpace);
  }
}
