/** Token-stage maps and filters of the cleaner: the custom dictionary replacement, stripping
    quotes and dashes from token ends, `MENTION_RE`, and the number, stopword and empty filters. */
module TokenStages {
  import Rewrites

  // ---------------------------------------------------------------------------------------
  // Element-wise maps and order-keeping filters

  /** `map(f, words)`. */
  function MapSeq(f: string -> string, words: seq<string>): seq<string> {
    if words == [] then [] else [f(words[0])] + MapSeq(f, words[1..])
  }

  /** A map keeps the number of tokens and transforms each one in place. */
  lemma {:induction false} MapSeqAt(f: string -> string, words: seq<string>)
    ensures |MapSeq(f, words)| == |words|
    ensures forall i :: 0 <= i < |words| ==> MapSeq(f, words)[i] == f(words[i])
  {
    if words != [] {
      MapSeqAt(f, words[1..]);
      assert forall i :: 1 <= i < |words| ==> MapSeq(f, words)[i] == MapSeq(f, words[1..])[i - 1];
    }
  }

  /** `filter(keep, words)`. */
  function Filter(keep: string -> bool, words: seq<string>): seq<string> {
    if words == [] then [] else (if keep(words[0]) then [words[0]] else []) + Filter(keep, words[1..])
  }

  /** `xs` is obtained from `ys` by deleting elements, without reordering. */
  predicate IsSubsequence(xs: seq<string>, ys: seq<string>) {
    if ys == [] then xs == []
    else IsSubsequence(xs, ys[1..]) || (xs != [] && xs[0] == ys[0] && IsSubsequence(xs[1..], ys[1..]))
  }

  /** Number of occurrences of `w` in `words`. */
  function Count(w: string, words: seq<string>): nat {
    if words == [] then 0 else (if words[0] == w then 1 else 0) + Count(w, words[1..])
  }

  /** A filter only deletes: what it keeps is a subsequence of the input, every kept token
      passes the test, and every token that passes is kept as often as it occurs. */
  lemma {:induction false} FilterDeletesOnly(keep: string -> bool, words: seq<string>)
    ensures IsSubsequence(Filter(keep, words), words)
    ensures forall i :: 0 <= i < |Filter(keep, words)| ==> keep(Filter(keep, words)[i])
    ensures forall w :: Count(w, Filter(keep, words)) == if keep(w) then Count(w, words) else 0
  {
    if words != [] {
      var r := Filter(keep, words);
      var rest := Filter(keep, words[1..]);
      FilterDeletesOnly(keep, words[1..]);
      if keep(words[0]) {
        assert r == [words[0]] + rest;
        assert r[1..] == rest;
      } else {
        assert r == rest;
      }
    }
  }

  /** Every token a filter keeps passes the test and comes from the input. */
  lemma {:induction false} FilterMembers(keep: string -> bool, words: seq<string>)
    ensures forall i :: 0 <= i < |Filter(keep, words)| ==>
      keep(Filter(keep, words)[i]) && Filter(keep, words)[i] in words
  {
    if words != [] {
      FilterMembers(keep, words[1..]);
      var rest := Filter(keep, words[1..]);
      if keep(words[0]) {
        assert Filter(keep, words) == [words[0]] + rest;
      } else {
        assert Filter(keep, words) == rest;
      }
    }
  }

  /** A filter whose test accepts every token returns its input. */
  lemma {:induction false} FilterKeepsAll(keep: string -> bool, words: seq<string>)
    requires forall i :: 0 <= i < |words| ==> keep(words[i])
    ensures Filter(keep, words) == words
  {
    if words != [] {
      FilterKeepsAll(keep, words[1..]);
    }
  }

  // ---------------------------------------------------------------------------------------
  // custom_replace

  function Lookup(table: map<string, string>, w: string): string {
    if w in table then table[w] else w
  }

  /** `(custom_replace[w] if w in custom_replace else w for w in words)`. */
  function CustomReplace(table: map<string, string>, words: seq<string>): seq<string> {
    MapSeq(w => Lookup(table, w), words)
  }

  /** Replacement is token for token: a token that is a key becomes its value, others stay. */
  lemma CustomReplaceAt(table: map<string, string>, words: seq<string>)
    ensures |CustomReplace(table, words)| == |words|
    ensures forall i :: 0 <= i < |words| ==>
      CustomReplace(table, words)[i] == if words[i] in table then table[words[i]] else words[i]
  {
    MapSeqAt(w => Lookup(table, w), words);
  }

  // ---------------------------------------------------------------------------------------
  // str.strip(chars)

  /** `w.lstrip(chars)`. */
  function StripLeading(w: string, chars: set<char>): (r: string)
    ensures |r| <= |w| && r == w[|w| - |r|..]
    ensures forall i :: 0 <= i < |w| - |r| ==> w[i] in chars
    ensures r == [] || r[0] !in chars
  {
    if w == [] || w[0] !in chars then w else StripLeading(w[1..], chars)
  }

  /** `w.rstrip(chars)`. */
  function StripTrailing(w: string, chars: set<char>): (r: string)
    ensures |r| <= |w| && r == w[..|r|]
    ensures forall i :: |r| <= i < |w| ==> w[i] in chars
    ensures r == [] || r[|r| - 1] !in chars
  {
    if w == [] || w[|w| - 1] !in chars then w else StripTrailing(w[..|w| - 1], chars)
  }

  /** `w.strip(chars)`. */
  function Strip(w: string, chars: set<char>): string {
    StripTrailing(StripLeading(w, chars), chars)
  }

  /** A suffix `l` of `w` and a prefix `r` of `l` make `r` a slice of `w`; what `l` has after
      `r` is also what `w` has after that slice. */
  lemma SliceOfSuffix(w: string, l: string, r: string, chars: set<char>)
    requires |l| <= |w| && l == w[|w| - |l|..]
    requires |r| <= |l| && r == l[..|r|]
    requires forall k :: |r| <= k < |l| ==> l[k] in chars
    ensures var i := |w| - |l|; w[i..i + |r|] == r
    ensures forall k :: |w| - |l| + |r| <= k < |w| ==> w[k] in chars
  {
    var i := |w| - |l|;
    forall k | i + |r| <= k < |w|
      ensures w[k] in chars
    {
      assert w[k] == l[k - i];
    }
  }

  /** What `strip` keeps is a prefix of what `lstrip` keeps, which is a suffix of `w`. */
  lemma StripSlice(w: string, chars: set<char>)
    ensures |StripLeading(w, chars)| <= |w| && |Strip(w, chars)| <= |StripLeading(w, chars)|
    ensures Strip(w, chars) == w[|w| - |StripLeading(w, chars)|..][..|Strip(w, chars)|]
  {
    var l := StripLeading(w, chars);
    var r := StripTrailing(l, chars);
    assert Strip(w, chars) == r;
  }


  /** Everything after the slice `strip` keeps is one of `chars`. */
  lemma StripSuffixChars(w: string, chars: set<char>)
    ensures forall k :: |w| - |StripLeading(w, chars)| + |Strip(w, chars)| <= k < |w| ==> w[k] in chars
  {
    var l := StripLeading(w, chars);
    var r := StripTrailing(l, chars);
    assert Strip(w, chars) == r;
    SliceOfSuffix(w, l, r, chars);
  }

  /** What `strip` keeps neither starts nor ends with one of `chars`. */
  lemma StripEnds(w: string, chars: set<char>)
    ensures Strip(w, chars) == [] || (Strip(w, chars)[0] !in chars && Strip(w, chars)[|Strip(w, chars)| - 1] !in chars)
  {
    var l := StripLeading(w, chars);
    var r := StripTrailing(l, chars);
    assert Strip(w, chars) == r;
    assert r != [] ==> r[0] == l[0];
  }

  /** `strip` removes a prefix and a suffix made only of `chars` and keeps the middle untouched;
      what is left neither starts nor ends with one of `chars`. */
  lemma StripInfix(w: string, chars: set<char>)
    ensures |StripLeading(w, chars)| <= |w| && |Strip(w, chars)| <= |StripLeading(w, chars)|
    ensures Strip(w, chars) == w[|w| - |StripLeading(w, chars)|..][..|Strip(w, chars)|]
    ensures forall k :: 0 <= k < |w| - |StripLeading(w, chars)| ==> w[k] in chars
    ensures forall k :: |w| - |StripLeading(w, chars)| + |Strip(w, chars)| <= k < |w| ==> w[k] in chars
    ensures Strip(w, chars) == [] || (Strip(w, chars)[0] !in chars && Strip(w, chars)[|Strip(w, chars)| - 1] !in chars)
  {
    StripSlice(w, chars);
    StripSuffixChars(w, chars);
    StripEnds(w, chars);
  }




  /** Stripping twice is stripping once. */
  lemma StripIdempotent(w: string, chars: set<char>)
    ensures Strip(Strip(w, chars), chars) == Strip(w, chars)
  {
    var r := Strip(w, chars);
    StripInfix(w, chars);
    assert r == [] || r[0] !in chars;
    assert StripLeading(r, chars) == r;
  }

  /** The characters `w.strip("\"'“”")` removes. */
  const QuoteChars: set<char> := {'"', '\'', '\U{201C}', '\U{201D}'}

  /** The characters `w.strip("-")` removes. */
  const DashChars: set<char> := {'-'}

  /** `map(lambda w: w.strip("\"'“”"), words)`. */
  function StripQuotes(words: seq<string>): seq<string> {
    MapSeq(w => Strip(w, QuoteChars), words)
  }

  /** `map(lambda w: w.strip("-"), words)`. */
  function StripDashes(words: seq<string>): seq<string> {
    MapSeq(w => Strip(w, DashChars), words)
  }

  // ---------------------------------------------------------------------------------------
  // MENTION_RE = `^@[a-zA-Z0-9\-_.]+$`

  /** The class `[a-zA-Z0-9\-_.]`: ASCII letters and digits, hyphen, underscore and dot. */
  predicate MentionChar(c: char) {
    ('a' <= c <= 'z') || ('A' <= c <= 'Z') || ('0' <= c <= '9') || c == '-' || c == '_' || c == '.'
  }

  /** `MENTION_RE.match(w) is not None`, as the regular-expression engine decides it: an `@`,
      the greedy class run, then `$`, which holds at the end of the string or just before a
      final newline. Backtracking cannot help: a shorter run is followed by a class character. */
  predicate MatchesMention(w: string) {
    |w| > 0 && w[0] == '@' &&
    var n := Rewrites.PrefixRun(w[1..], MentionChar);
    n > 0 && (n + 1 == |w| || (n + 2 == |w| && w[n + 1] == '\n'))
  }

  /** One or more class characters: the handle after the `@`. */
  predicate IsHandle(h: string) {
    |h| > 0 && forall i :: 0 <= i < |h| ==> MentionChar(h[i])
  }

  /** A token matches exactly when it is `@` followed by a handle, optionally ending in one
      newline (which `$` lets through). */
  lemma MatchesMentionIff(w: string)
    ensures MatchesMention(w) <==>
      exists h :: IsHandle(h) && (w == "@" + h || w == "@" + h + "\n")
  {
    if MatchesMention(w) {
      var n := Rewrites.PrefixRun(w[1..], MentionChar);
      var h := w[1..n + 1];
      assert IsHandle(h);
      if n + 1 == |w| {
        assert w == "@" + h;
      } else {
        assert w == "@" + h + "\n";
      }
    }
    if exists h :: IsHandle(h) && (w == "@" + h || w == "@" + h + "\n") {
      var h :| IsHandle(h) && (w == "@" + h || w == "@" + h + "\n");
      if w == "@" + h {
        assert w[1..] == h + "";
        Rewrites.PrefixRunOfAppend(h, "", MentionChar);
      } else {
        assert w[1..] == h + "\n";
        Rewrites.PrefixRunOfAppend(h, "\n", MentionChar);
      }
    }
  }

  /** `[w if MENTION_RE.match(w) is None else replacement for w in words]`. */
  function ReplaceMentions(replacement: string, words: seq<string>): seq<string> {
    MapSeq(w => if MatchesMention(w) then replacement else w, words)
  }

  /** Mention replacement keeps the token count; exactly the matching tokens become the
      replacement and every other token passes through. */
  lemma ReplaceMentionsAt(replacement: string, words: seq<string>)
    ensures |ReplaceMentions(replacement, words)| == |words|
    ensures forall i :: 0 <= i < |words| ==>
      ReplaceMentions(replacement, words)[i] == if MatchesMention(words[i]) then replacement else words[i]
  {
    MapSeqAt(w => if MatchesMention(w) then replacement else w, words);
  }

  // ---------------------------------------------------------------------------------------
  // Numbers, stopwords and empty tokens

  /** `str.isnumeric()`: non-empty and every character numeric. */
  predicate IsNumeric(w: string, isNumericChar: char -> bool) {
    |w| > 0 && forall i :: 0 <= i < |w| ==> isNumericChar(w[i])
  }

  /** `filter(lambda w: not w.isnumeric(), words)`. */
  function RemoveNumbers(words: seq<string>, isNumericChar: char -> bool): seq<string> {
    Filter(w => !IsNumeric(w, isNumericChar), words)
  }

  /** Removing numbers keeps, in order, exactly the tokens with a non-numeric character or no
      character at all; a partly numeric token such as `hello1` survives. */
  lemma RemoveNumbersKeeps(words: seq<string>, isNumericChar: char -> bool)
    ensures IsSubsequence(RemoveNumbers(words, isNumericChar), words)
    ensures forall w :: Count(w, RemoveNumbers(words, isNumericChar))
                        == (if IsNumeric(w, isNumericChar) then 0 else Count(w, words))
  {
    FilterDeletesOnly(w => !IsNumeric(w, isNumericChar), words);
  }

  /** The literals added to the English stopword list. */
  const ExtraStopWords: set<string> := {"u", "&", "-", "--"}

  /** `filter(lambda w: w not in stop_words_en, words)`. */
  function RemoveStopWords(words: seq<string>, stopWords: set<string>): seq<string> {
    Filter(w => w !in stopWords, words)
  }

  /** Removing stopwords keeps, in order, exactly the tokens outside the stopword set. */
  lemma RemoveStopWordsKeeps(words: seq<string>, stopWords: set<string>)
    ensures IsSubsequence(RemoveStopWords(words, stopWords), words)
    ensures forall i :: 0 <= i < |RemoveStopWords(words, stopWords)| ==>
      RemoveStopWords(words, stopWords)[i] !in stopWords
    ensures forall w :: w !in stopWords ==> Count(w, RemoveStopWords(words, stopWords)) == Count(w, words)
  {
    FilterDeletesOnly(w => w !in stopWords, words);
  }

  /** `filter(lambda w: w != "", words)`. */
  function RemoveEmpty(words: seq<string>): seq<string> {
    Filter(w => w != "", words)
  }

  /** The final filter leaves no empty token and drops nothing else. */
  lemma RemoveEmptyKeeps(words: seq<string>)
    ensures IsSubsequence(RemoveEmpty(words), words)
    ensures forall i :: 0 <= i < |RemoveEmpty(words)| ==> RemoveEmpty(words)[i] != ""
    ensures forall w :: w != "" ==> Count(w, RemoveEmpty(words)) == Count(w, words)
  {
    FilterDeletesOnly(w => w != "", words);
  }
}
