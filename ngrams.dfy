/** N-gram fusion (`_transform_bigram`, `_transform_trigram`). The token list is padded with
    `"*"` sentinels and viewed as overlapping windows of `k` tokens; walking the windows left to
    right, a window in the target set becomes one `_`-joined token and the next `k - 1` windows
    are consumed with `next()`, while any other window emits its first token. The two source
    functions are this one algorithm for `k = 2` and `k = 3`, with tuples written as sequences. */
module NGrams {
  import opened Wrappers
  import Rewrites

  /** The padding token appended before the windows are formed. */
  const Sentinel: string := "*"

  function Padding(n: nat): (r: seq<string>)
    ensures |r| == n && forall i :: 0 <= i < n ==> r[i] == Sentinel
  {
    if n == 0 then [] else [Sentinel] + Padding(n - 1)
  }

  /** `chain(words, ("*",))` for bigrams, `chain(words, ("*", "*"))` for trigrams. */
  function Pad(words: seq<string>, k: nat): seq<string>
    requires k >= 1
  {
    words + Padding(k - 1)
  }

  /** The token a matched window becomes: `ngram[0] + "_" + ngram[1]`, or `"_".join(ngram)`. */
  function FusedToken(window: seq<string>): string {
    Rewrites.Join("_", window)
  }

  /** The fusion of the windows of `p`. `None` stands for the run-time error the source raises
      when a `next()` finds no window left to consume (a target holding the sentinel matched one
      of the last windows). */
  function Fuse(k: nat, targets: set<seq<string>>, p: seq<string>): Option<seq<string>>
    requires k >= 2
    decreases |p|
  {
    if |p| < k then Some([])
    else if p[..k] in targets then
      if |p| < 2 * k - 1 then None
      else Prepend([FusedToken(p[..k])], Fuse(k, targets, p[k..]))
    else Prepend([p[0]], Fuse(k, targets, p[1..]))
  }

  /** The loop of `_transform_bigram` (`k = 2`) and `_transform_trigram` (`k = 3`) over the
      padded windows, with the iterator's `next()` calls kept as a count of windows to skip. */
  method TransformNgrams(k: nat, targets: set<seq<string>>, words: seq<string>) returns (r: Option<seq<string>>)
    requires k >= 2
    ensures r == Fuse(k, targets, Pad(words, k))
  {
    var p := words + Padding(k - 1);
    var windows := |p| - k + 1;
    var out: seq<string> := [];
    var i, skip := 0, 0;
    assert p[0..] == p;
    PrependNil(Fuse(k, targets, p));
    while i < windows
      invariant windows == |words| && 0 <= i <= windows
      invariant 0 <= skip < k
      invariant Fuse(k, targets, p) ==
        if i + skip > windows then None else Prepend(out, Fuse(k, targets, p[i + skip..]))
    {
      if skip > 0 {
        // this window was consumed by next()
        skip := skip - 1;
      } else if p[i..i + k] in targets {
        FuseStepMatch(k, targets, p, out, i);
        out := out + [FusedToken(p[i..i + k])];
        skip := k - 1;
      } else {
        FuseStepKeep(k, targets, p, out, i);
        out := out + [p[i]];
      }
      i := i + 1;
    }
    if skip > 0 {
      r := None;
    } else {
      assert Fuse(k, targets, p[windows..]) == Some([]);
      assert out + [] == out;
      r := Some(out);
    }
  }

  /** One matching window of the loop in `TransformNgrams`: the fused token is emitted and
      the next `k - 1` windows are skipped, or the run fails when too few windows are left. */
  lemma FuseStepMatch(k: nat, targets: set<seq<string>>, p: seq<string>, out: seq<string>, i: nat)
    requires k >= 2 && i + k <= |p| && p[i..i + k] in targets
    requires Fuse(k, targets, p) == Prepend(out, Fuse(k, targets, p[i..]))
    ensures Fuse(k, targets, p) ==
      if i + k > |p| - k + 1 then None
      else Prepend(out + [FusedToken(p[i..i + k])], Fuse(k, targets, p[i + k..]))
  {
    FuseAt(k, targets, p, i);
    PrependTwice(out, [FusedToken(p[i..i + k])], Fuse(k, targets, p[i + k..]));
  }

  /** One non-matching window of the loop in `TransformNgrams`: its first word is emitted. */
  lemma FuseStepKeep(k: nat, targets: set<seq<string>>, p: seq<string>, out: seq<string>, i: nat)
    requires k >= 2 && i + k <= |p| && p[i..i + k] !in targets
    requires Fuse(k, targets, p) == Prepend(out, Fuse(k, targets, p[i..]))
    ensures Fuse(k, targets, p) == Prepend(out + [p[i]], Fuse(k, targets, p[i + 1..]))
  {
    FuseAt(k, targets, p, i);
    PrependTwice(out, [p[i]], Fuse(k, targets, p[i + 1..]));
  }

  /** `Fuse` unfolded once at position `i` of `p`. */
  lemma FuseAt(k: nat, targets: set<seq<string>>, p: seq<string>, i: nat)
    requires k >= 2 && i + k <= |p|
    ensures Fuse(k, targets, p[i..]) ==
      if p[i..i + k] in targets then
        if |p| - i < 2 * k - 1 then None else Prepend([FusedToken(p[i..i + k])], Fuse(k, targets, p[i + k..]))
      else Prepend([p[i]], Fuse(k, targets, p[i + 1..]))
  {
    assert p[i..][..k] == p[i..i + k];
    assert p[i..][k..] == p[i + k..];
    assert p[i..][1..] == p[i + 1..];
  }

  lemma PrependNil(o: Option<seq<string>>)
    ensures Prepend([], o) == o
  {
    if o.Some? {
      assert [] + o.value == o.value;
    }
  }

  lemma PrependTwice(xs: seq<string>, ys: seq<string>, o: Option<seq<string>>)
    ensures Prepend(xs, Prepend(ys, o)) == Prepend(xs + ys, o)
  {
    if o.Some? {
      assert xs + (ys + o.value) == (xs + ys) + o.value;
    }
  }

  // ---------------------------------------------------------------------------------------
  // Tuples of the source as target sequences

  function BigramTargets(bigrams: set<(string, string)>): set<seq<string>> {
    set b | b in bigrams :: [b.0, b.1]
  }

  function TrigramTargets(trigrams: set<(string, string, string)>): set<seq<string>> {
    set t | t in trigrams :: [t.0, t.1, t.2]
  }

  /** A window is in the converted set exactly when its tuple is in the source's set. */
  lemma TargetsMembership(bigrams: set<(string, string)>, trigrams: set<(string, string, string)>, w: seq<string>)
    ensures |w| == 2 ==> (w in BigramTargets(bigrams) <==> (w[0], w[1]) in bigrams)
    ensures |w| == 3 ==> (w in TrigramTargets(trigrams) <==> (w[0], w[1], w[2]) in trigrams)
  {
    if |w| == 2 && (w[0], w[1]) in bigrams {
      assert w == [(w[0], w[1]).0, (w[0], w[1]).1];
    }
    if |w| == 3 && (w[0], w[1], w[2]) in trigrams {
      assert w == [(w[0], w[1], w[2]).0, (w[0], w[1], w[2]).1, (w[0], w[1], w[2]).2];
    }
  }

  /** No target holds the sentinel: the condition under which the source never fails. */
  predicate NoSentinel(targets: set<seq<string>>) {
    forall t :: t in targets ==> Sentinel !in t
  }

  // ---------------------------------------------------------------------------------------
  // An independent description: the output is the unique greedy cover of the words

  function Flatten(groups: seq<seq<string>>): seq<string> {
    if groups == [] then [] else groups[0] + Flatten(groups[1..])
  }

  function JoinEach(groups: seq<seq<string>>): seq<string> {
    if groups == [] then [] else [FusedToken(groups[0])] + JoinEach(groups[1..])
  }

  /** Where group `j` starts among the words. */
  function Offset(groups: seq<seq<string>>, j: nat): nat
    requires j <= |groups|
  {
    |Flatten(groups[..j])|
  }

  /** A group starting at `off` is either a target window of `k` words, or one word whose
      window in the padded list is in range and not a target. */
  predicate GroupFits(k: nat, targets: set<seq<string>>, padded: seq<string>, g: seq<string>, off: nat) {
    (|g| == k && g in targets) || (|g| == 1 && off + k <= |padded| && padded[off..off + k] !in targets)
  }

  /** `groups` cuts `words`, in order, into pieces that each fit: the greedy, left-to-right,
      non-overlapping reading of the words. */
  ghost predicate IsGreedyCover(k: nat, targets: set<seq<string>>, words: seq<string>, groups: seq<seq<string>>)
    requires k >= 2
  {
    Flatten(groups) == words &&
    forall j :: 0 <= j < |groups| ==> GroupFits(k, targets, Pad(words, k), groups[j], Offset(groups, j))
  }

  /** The groups the fusion forms on the padded list `p`. */
  function Groups(k: nat, targets: set<seq<string>>, p: seq<string>): seq<seq<string>>
    requires k >= 2
    decreases |p|
  {
    if |p| < k then []
    else if p[..k] in targets then [p[..k]] + Groups(k, targets, p[k..])
    else [[p[0]]] + Groups(k, targets, p[1..])
  }

  lemma OffsetShift(groups: seq<seq<string>>, j: nat)
    requires groups != [] && j < |groups|
    ensures Offset(groups, j + 1) == |groups[0]| + Offset(groups[1..], j)
  {
    assert groups[..j + 1][1..] == groups[1..][..j];
  }

  lemma PadShift(words: seq<string>, m: nat, k: nat)
    requires k >= 1 && m <= |words|
    ensures Pad(words[m..], k) == Pad(words, k)[m..]
  {
  }

  /** Whether a group fits does not change when the words before it are dropped. */
  lemma GroupFitsShift(k: nat, targets: set<seq<string>>, words: seq<string>, m: nat, g: seq<string>, o: nat)
    requires k >= 1 && m <= |words|
    ensures GroupFits(k, targets, Pad(words, k), g, m + o) == GroupFits(k, targets, Pad(words[m..], k), g, o)
  {
    PadShift(words, m, k);
    if o + k <= |Pad(words[m..], k)| {
      assert Pad(words[m..], k)[o..o + k] == Pad(words, k)[m + o..m + o + k];
    }
  }

  /** Dropping the first group of a cover leaves a cover of the remaining words. */
  lemma CoverTail(k: nat, targets: set<seq<string>>, words: seq<string>, groups: seq<seq<string>>)
    requires k >= 2 && IsGreedyCover(k, targets, words, groups) && groups != []
    ensures |groups[0]| == 1 || |groups[0]| == k
    ensures |groups[0]| <= |words| && groups[0] == words[..|groups[0]|]
    ensures IsGreedyCover(k, targets, words[|groups[0]|..], groups[1..])
  {
    var m := |groups[0]|;
    var rest := groups[1..];
    assert GroupFits(k, targets, Pad(words, k), groups[0], Offset(groups, 0));
    assert words == groups[0] + Flatten(rest);
    assert words[m..] == Flatten(rest);
    forall j | 0 <= j < |rest|
      ensures GroupFits(k, targets, Pad(words[m..], k), rest[j], Offset(rest, j))
    {
      OffsetShift(groups, j);
      assert rest[j] == groups[j + 1];
      assert GroupFits(k, targets, Pad(words, k), groups[j + 1], Offset(groups, j + 1));
      GroupFitsShift(k, targets, words, m, rest[j], Offset(rest, j));
    }
  }

  /** A valid first group followed by a cover of the remaining words is a cover. */
  lemma CoverCons(k: nat, targets: set<seq<string>>, words: seq<string>, g: seq<string>, rest: seq<seq<string>>)
    requires k >= 2 && |g| <= |words| && g == words[..|g|]
    requires (|g| == k && g in targets) || (|g| == 1 && k <= |Pad(words, k)| && Pad(words, k)[..k] !in targets)
    requires IsGreedyCover(k, targets, words[|g|..], rest)
    ensures IsGreedyCover(k, targets, words, [g] + rest)
  {
    var groups := [g] + rest;
    var m := |g|;
    assert groups[1..] == rest;
    assert words == g + words[m..];
    forall j | 0 <= j < |groups|
      ensures GroupFits(k, targets, Pad(words, k), groups[j], Offset(groups, j))
    {
      if j == 0 {
        assert groups[..0] == [];
        assert Pad(words, k)[0..k] == Pad(words, k)[..k];
      } else {
        OffsetShift(groups, j - 1);
        assert groups[j] == rest[j - 1];
        assert GroupFits(k, targets, Pad(words[m..], k), rest[j - 1], Offset(rest, j - 1));
        GroupFitsShift(k, targets, words, m, rest[j - 1], Offset(rest, j - 1));
      }
    }
  }

  /** The first group of any greedy cover is forced: the first `k` words when they form a
      target, the first word alone otherwise. */
  lemma CoverFirstGroup(k: nat, targets: set<seq<string>>, words: seq<string>, groups: seq<seq<string>>)
    requires k >= 2 && IsGreedyCover(k, targets, words, groups) && groups != []
    ensures words != []
    ensures groups[0] == if |words| >= k && words[..k] in targets then words[..k] else [words[0]]
  {
    CoverTail(k, targets, words, groups);
    assert Offset(groups, 0) == 0 by { assert groups[..0] == []; }
    if |words| >= k {
      assert Pad(words, k)[..k] == words[..k];
    }
  }

  lemma CoverEmpty(k: nat, targets: set<seq<string>>, words: seq<string>, groups: seq<seq<string>>)
    requires k >= 2 && IsGreedyCover(k, targets, words, groups)
    ensures groups == [] <==> words == []
  {
    if groups != [] {
      CoverFirstGroup(k, targets, words, groups);
    }
  }

  /** There is at most one greedy cover of a word list. */
  lemma {:induction false} GreedyCoverUnique(k: nat, targets: set<seq<string>>, words: seq<string>,
                                             g1: seq<seq<string>>, g2: seq<seq<string>>)
    requires k >= 2
    requires IsGreedyCover(k, targets, words, g1) && IsGreedyCover(k, targets, words, g2)
    ensures g1 == g2
    decreases |words|
  {
    CoverEmpty(k, targets, words, g1);
    CoverEmpty(k, targets, words, g2);
    if words != [] {
      CoverFirstGroup(k, targets, words, g1);
      CoverFirstGroup(k, targets, words, g2);
      CoverTail(k, targets, words, g1);
      CoverTail(k, targets, words, g2);
      GreedyCoverUnique(k, targets, words[|g1[0]|..], g1[1..], g2[1..]);
      assert g1 == [g1[0]] + g1[1..] && g2 == [g2[0]] + g2[1..];
    }
  }

  /** With no sentinel in the targets the fusion never fails, and its output is the groups it
      forms, each joined, where the groups are a greedy cover of the words. */
  lemma {:induction false} FuseGroups(k: nat, targets: set<seq<string>>, words: seq<string>)
    requires k >= 2 && NoSentinel(targets)
    ensures Fuse(k, targets, Pad(words, k)) == Some(JoinEach(Groups(k, targets, Pad(words, k))))
    ensures IsGreedyCover(k, targets, words, Groups(k, targets, Pad(words, k)))
    decreases |words|
  {
    var p := Pad(words, k);
    if words == [] {
      assert Flatten([]) == [];
    } else if p[..k] in targets {
      if |words| < k {
        ShortWindowHoldsSentinel(words, k, 0);
        assert false;
      }
      assert p[..k] == words[..k];
      assert p[k..] == Pad(words[k..], k);
      FuseGroups(k, targets, words[k..]);
      CoverCons(k, targets, words, words[..k], Groups(k, targets, p[k..]));
    } else {
      assert p[1..] == Pad(words[1..], k);
      FuseGroups(k, targets, words[1..]);
      assert FusedToken([p[0]]) == p[0];
      assert [words[0]] == words[..1];
      CoverCons(k, targets, words, [words[0]], Groups(k, targets, p[1..]));
    }
  }

  /** Every window that starts inside the words but reaches past their end holds a sentinel. */
  lemma ShortWindowHoldsSentinel(words: seq<string>, k: nat, i: nat)
    requires k >= 2 && i < |words| && i + k > |words|
    ensures Sentinel in Window(Pad(words, k), i, k)
  {
    assert Window(Pad(words, k), i, k)[|words| - i] == Sentinel;
  }

  /** The fusion is the greedy reading: whenever the targets hold no sentinel, the output is
      the joined groups of THE greedy cover of the words. */
  lemma FuseIsGreedyCover(k: nat, targets: set<seq<string>>, words: seq<string>, groups: seq<seq<string>>)
    requires k >= 2 && NoSentinel(targets) && IsGreedyCover(k, targets, words, groups)
    ensures Fuse(k, targets, Pad(words, k)) == Some(JoinEach(groups))
  {
    FuseGroups(k, targets, words);
    GreedyCoverUnique(k, targets, words, groups, Groups(k, targets, Pad(words, k)));
  }

  /** Number of fused groups. */
  function Fusions(k: nat, groups: seq<seq<string>>): nat {
    if groups == [] then 0 else (if |groups[0]| == k then 1 else 0) + Fusions(k, groups[1..])
  }

  /** Every fusion removes `k - 1` tokens: the output is `|words| - (k - 1) * fusions` long. */
  lemma {:induction false} FuseLength(k: nat, targets: set<seq<string>>, words: seq<string>, groups: seq<seq<string>>)
    requires k >= 2 && IsGreedyCover(k, targets, words, groups)
    ensures |JoinEach(groups)| == |groups|
    ensures |words| == |groups| + (k - 1) * Fusions(k, groups)
    decreases |groups|
  {
    if groups != [] {
      CoverTail(k, targets, words, groups);
      var m := |groups[0]|;
      FuseLength(k, targets, words[m..], groups[1..]);
      Distribute(k - 1, Fusions(k, groups[1..]));
    }
  }

  lemma Distribute(a: nat, f: nat)
    ensures a * (1 + f) == a + a * f
  {
  }

  function Window(p: seq<string>, i: nat, k: nat): seq<string>
    requires i + k <= |p|
  {
    p[i..i + k]
  }

  /** When no window of the padded list is a target, the output is the input: every word is
      emitted once and no sentinel is. */
  lemma {:induction false} FuseNoMatch(k: nat, targets: set<seq<string>>, words: seq<string>)
    requires k >= 2
    requires forall i :: 0 <= i < |words| ==> Window(Pad(words, k), i, k) !in targets
    ensures Fuse(k, targets, Pad(words, k)) == Some(words)
    decreases |words|
  {
    var p := Pad(words, k);
    if words != [] {
      assert p[..k] == Window(p, 0, k);
      assert p[1..] == Pad(words[1..], k);
      forall i | 0 <= i < |words| - 1
        ensures Window(Pad(words[1..], k), i, k) !in targets
      {
        assert Window(Pad(words[1..], k), i, k) == Window(p, i + 1, k);
      }
      FuseNoMatch(k, targets, words[1..]);
      assert words == [words[0]] + words[1..];
    }
  }

  // ---------------------------------------------------------------------------------------
  // The behaviour the source's tests pin down

  /** `x a b c d e f g h` with the bigrams `(a, b)`, `(c, d)`, `(f, g)`. */
  lemma BigramExample(t: set<seq<string>>, words: seq<string>)
    requires t == {["a", "b"], ["c", "d"], ["f", "g"]}
    requires words == ["x", "a", "b", "c", "d", "e", "f", "g", "h"]
    ensures Fuse(2, t, Pad(words, 2)) == Some(["x", "a_b", "c_d", "e", "f_g", "h"])
  {
    var p := Pad(words, 2);
    assert p == ["x", "a", "b", "c", "d", "e", "f", "g", "h", "*"];
    BigramExampleFrom1(t, p);
    assert Fuse(2, t, p[0..]) == Some(["x", "a_b", "c_d", "e", "f_g", "h"]) by {
      FuseAt(2, t, p, 0);
      assert p[0..2] == ["x", "a"];
      assert ["x"] + ["a_b", "c_d", "e", "f_g", "h"] == ["x", "a_b", "c_d", "e", "f_g", "h"];
    }
    assert p[0..] == p;
  }

  /** The windows of the example above from position 1 on. */
  lemma BigramExampleFrom1(t: set<seq<string>>, p: seq<string>)
    requires t == {["a", "b"], ["c", "d"], ["f", "g"]}
    requires p == ["x", "a", "b", "c", "d", "e", "f", "g", "h", "*"]
    ensures Fuse(2, t, p[1..]) == Some(["a_b", "c_d", "e", "f_g", "h"])
  {
    BigramExampleFrom3(t, p);
    assert Fuse(2, t, p[1..]) == Some(["a_b", "c_d", "e", "f_g", "h"]) by {
      FuseAt(2, t, p, 1);
      assert p[1..3] == ["a", "b"];
      assert FusedToken(["a", "b"]) == "a_b";
      assert ["a_b"] + ["c_d", "e", "f_g", "h"] == ["a_b", "c_d", "e", "f_g", "h"];
    }
  }

  /** The windows of the example above from position 3 on. */
  lemma BigramExampleFrom3(t: set<seq<string>>, p: seq<string>)
    requires t == {["a", "b"], ["c", "d"], ["f", "g"]}
    requires p == ["x", "a", "b", "c", "d", "e", "f", "g", "h", "*"]
    ensures Fuse(2, t, p[3..]) == Some(["c_d", "e", "f_g", "h"])
  {
    BigramExampleFrom5(t, p);
    assert Fuse(2, t, p[3..]) == Some(["c_d", "e", "f_g", "h"]) by {
      FuseAt(2, t, p, 3);
      assert p[3..5] == ["c", "d"];
      assert FusedToken(["c", "d"]) == "c_d";
      assert ["c_d"] + ["e", "f_g", "h"] == ["c_d", "e", "f_g", "h"];
    }
  }

  /** The windows of the example above from position 5 on. */
  lemma BigramExampleFrom5(t: set<seq<string>>, p: seq<string>)
    requires t == {["a", "b"], ["c", "d"], ["f", "g"]}
    requires p == ["x", "a", "b", "c", "d", "e", "f", "g", "h", "*"]
    ensures Fuse(2, t, p[5..]) == Some(["e", "f_g", "h"])
  {
    assert Fuse(2, t, p[9..]) == Some([]);
    assert Fuse(2, t, p[8..]) == Some(["h"]) by {
      FuseAt(2, t, p, 8);
      assert p[8..10] == ["h", "*"];
      assert ["h"] + [] == ["h"];
    }
    assert Fuse(2, t, p[6..]) == Some(["f_g", "h"]) by {
      FuseAt(2, t, p, 6);
      assert p[6..8] == ["f", "g"];
      assert FusedToken(["f", "g"]) == "f_g";
      assert ["f_g"] + ["h"] == ["f_g", "h"];
    }
    assert Fuse(2, t, p[5..]) == Some(["e", "f_g", "h"]) by {
      FuseAt(2, t, p, 5);
      assert p[5..7] == ["e", "f"];
      assert ["e"] + ["f_g", "h"] == ["e", "f_g", "h"];
    }
  }

  /** `x a b c d e f g h` with the trigrams `(a, b, c)`, `(e, f, g)`. */
  lemma TrigramExample(t: set<seq<string>>, words: seq<string>)
    requires t == {["a", "b", "c"], ["e", "f", "g"]}
    requires words == ["x", "a", "b", "c", "d", "e", "f", "g", "h"]
    ensures Fuse(3, t, Pad(words, 3)) == Some(["x", "a_b_c", "d", "e_f_g", "h"])
  {
    var p := Pad(words, 3);
    assert p == ["x", "a", "b", "c", "d", "e", "f", "g", "h", "*", "*"];
    TrigramExampleFrom1(t, p);
    assert Fuse(3, t, p[0..]) == Some(["x", "a_b_c", "d", "e_f_g", "h"]) by {
      FuseAt(3, t, p, 0);
      assert p[0..3] == ["x", "a", "b"];
      assert ["x"] + ["a_b_c", "d", "e_f_g", "h"] == ["x", "a_b_c", "d", "e_f_g", "h"];
    }
    assert p[0..] == p;
  }

  /** The windows of the example above from position 1 on. */
  lemma TrigramExampleFrom1(t: set<seq<string>>, p: seq<string>)
    requires t == {["a", "b", "c"], ["e", "f", "g"]}
    requires p == ["x", "a", "b", "c", "d", "e", "f", "g", "h", "*", "*"]
    ensures Fuse(3, t, p[1..]) == Some(["a_b_c", "d", "e_f_g", "h"])
  {
    TrigramExampleFrom4(t, p);
    assert Fuse(3, t, p[1..]) == Some(["a_b_c", "d", "e_f_g", "h"]) by {
      FuseAt(3, t, p, 1);
      assert p[1..4] == ["a", "b", "c"];
      assert FusedToken(["a", "b", "c"]) == "a_b_c";
      assert ["a_b_c"] + ["d", "e_f_g", "h"] == ["a_b_c", "d", "e_f_g", "h"];
    }
  }

  /** The windows of the example above from position 4 on. */
  lemma TrigramExampleFrom4(t: set<seq<string>>, p: seq<string>)
    requires t == {["a", "b", "c"], ["e", "f", "g"]}
    requires p == ["x", "a", "b", "c", "d", "e", "f", "g", "h", "*", "*"]
    ensures Fuse(3, t, p[4..]) == Some(["d", "e_f_g", "h"])
  {
    TrigramExampleFrom5(t, p);
    assert Fuse(3, t, p[4..]) == Some(["d", "e_f_g", "h"]) by {
      FuseAt(3, t, p, 4);
      assert p[4..7] == ["d", "e", "f"];
      assert ["d"] + ["e_f_g", "h"] == ["d", "e_f_g", "h"];
    }
  }

  /** The windows of the example above from position 5 on. */
  lemma TrigramExampleFrom5(t: set<seq<string>>, p: seq<string>)
    requires t == {["a", "b", "c"], ["e", "f", "g"]}
    requires p == ["x", "a", "b", "c", "d", "e", "f", "g", "h", "*", "*"]
    ensures Fuse(3, t, p[5..]) == Some(["e_f_g", "h"])
  {
    assert Fuse(3, t, p[9..]) == Some([]);
    assert Fuse(3, t, p[8..]) == Some(["h"]) by {
      FuseAt(3, t, p, 8);
      assert p[8..11] == ["h", "*", "*"];
      assert ["h"] + [] == ["h"];
    }
    assert Fuse(3, t, p[5..]) == Some(["e_f_g", "h"]) by {
      FuseAt(3, t, p, 5);
      assert p[5..8] == ["e", "f", "g"];
      assert FusedToken(["e", "f", "g"]) == "e_f_g";
      assert ["e_f_g"] + ["h"] == ["e_f_g", "h"];
    }
  }

  /** The failure the sentinel precondition excludes is real: a bigram target ending in the
      sentinel matches the last window, whose `next()` finds nothing. */
  lemma SentinelTargetFails()
    ensures Fuse(2, {["a", "*"]}, Pad(["a"], 2)) == None
  {
    assert Pad(["a"], 2) == ["a", "*"];
    assert ["a", "*"][..2] == ["a", "*"];
  }

  /** The same target on the words `a b` is harmless: neither window `(a, b)` nor `(b, *)`
      matches, so the words come back unchanged. */
  lemma SentinelTargetUnreached()
    ensures Fuse(2, {["a", "*"]}, Pad(["a", "b"], 2)) == Some(["a", "b"])
  {
    var p := Pad(["a", "b"], 2);
    assert p == ["a", "b", "*"];
    forall i | 0 <= i < 2
      ensures Window(p, i, 2) !in {["a", "*"]}
    {
      if i == 0 {
        assert Window(p, i, 2)[1] == "b";
      } else {
        assert Window(p, i, 2)[0] == "b";
      }
    }
    FuseNoMatch(2, {["a", "*"]}, ["a", "b"]);
  }

  /** A run fails only at a matching window among the last `k - 1`, where too few windows
      are left for the `next()` calls. */
  lemma {:induction false} FuseFailsNearEnd(k: nat, targets: set<seq<string>>, p: seq<string>)
    requires k >= 2
    ensures Fuse(k, targets, p) == None ==>
      exists i :: 0 <= i && i + k <= |p| && |p| - i < 2 * k - 1 && Window(p, i, k) in targets
    decreases |p|
  {
    if |p| >= k {
      if p[..k] in targets {
        if |p| < 2 * k - 1 {
          assert Window(p, 0, k) == p[..k];
        } else if Fuse(k, targets, p) == None {
          var q := p[k..];
          assert Fuse(k, targets, q) == None;
          FuseFailsNearEnd(k, targets, q);
          var i :| 0 <= i && i + k <= |q| && |q| - i < 2 * k - 1 && Window(q, i, k) in targets;
          assert Window(p, k + i, k) == Window(q, i, k);
        }
      } else if Fuse(k, targets, p) == None {
        var q := p[1..];
        assert Fuse(k, targets, q) == None;
        FuseFailsNearEnd(k, targets, q);
        var i :| 0 <= i && i + k <= |q| && |q| - i < 2 * k - 1 && Window(q, i, k) in targets;
        assert Window(p, 1 + i, k) == Window(q, i, k);
      }
    }
  }

  /** On padded words, a failing fusion matched a target at a window `i` that reaches past
      the words (`i + k > |words|`), so that target contains the sentinel. */
  lemma FuseFailsOnlyPastWords(k: nat, targets: set<seq<string>>, words: seq<string>)
    requires k >= 2
    ensures Fuse(k, targets, Pad(words, k)) == None ==>
      exists i :: 0 <= i < |words| && i + k > |words| && Window(Pad(words, k), i, k) in targets
        && Sentinel in Window(Pad(words, k), i, k)
  {
    var p := Pad(words, k);
    FuseFailsNearEnd(k, targets, p);
    if Fuse(k, targets, p) == None {
      var i :| 0 <= i && i + k <= |p| && |p| - i < 2 * k - 1 && Window(p, i, k) in targets;
      assert Window(p, i, k)[|words| - i] == Sentinel;
    }
  }
}
