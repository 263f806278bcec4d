# textcleaning in Dafny

A model of `preprocess`, the one function of the `textcleaning` package, with proofs about it.
`preprocess` takes a string and a set of keyword options. It runs an ordered chain of text
stages, splits the text into tokens, then runs an ordered chain of token stages. Every stage
but the two marked "(always on)" below is gated by one option.

- Text stages: lowercase, emoji labels, single- and double-quote canonicalisation, quoted-word
  normalisation, dash canonicalisation (always on), dash-run collapse, link substitution, HTML
  text extraction, punctuation and special-punctuation blanking, ASCII folding.
- Token stages: custom dictionary replacement, quote and dash stripping, bigram and trigram
  fusion, mention replacement, number removal, lemmatisation, stopword removal, and the final
  empty-token filter (always on).

Modules group the stages of the source, the single file `textcleaning/__init__.py`:

- `Wrappers` (`wrappers.dfy`): an `Option` type and `Prepend`.
- `CharTables` (`chars.dfy`): the `str.translate` tables and their algebra.
- `Rewrites` (`rewrites.dfy`): whole-string rewrites. These are `DASHES_RE`, the
  quoted-word regular expression and `str.split()`.
- `TokenStages` (`tokens.dfy`): token maps and filters. These are `custom_replace`,
  `str.strip`, `MENTION_RE`, `isnumeric`, stopwords and the empty-token filter.
- `NGrams` (`ngrams.dfy`): `_transform_bigram` and `_transform_trigram` as one loop over
  windows of width `k`. The loop is proved equal to a recursive specification `Fuse`. When no
  target contains the sentinel `*`, `Fuse` is proved to be the unique greedy left-to-right
  cover of the words.
- `Pipeline` (`pipeline.dfy`): the options, the stage order and `preprocess` itself.

`preprocess` works by reassigning `text` and then `words` through a chain of `if` gates. The
model keeps that shape:

- `Pipeline.Preprocess` is a method that calls `CleanText` and `CleanTokens`.
- These call `ApplyTextStage` and `ApplyTokenStage`, one call per gate.
- The n-gram stages call the imperative `NGrams.TransformNgrams`.
- Each method is proved equal to a function: `RunText`, `RunTokens` or `PreprocessSpec`. The
  properties of the whole pipeline are lemmas about those functions.

Collaborators from other libraries that the source calls are fields of the datatype
`Pipeline.Env`. So is the link substitution: its two regular expressions are defined at
`textcleaning/__init__.py:12-13`, but the model abstracts them.

- `str.lower`, `emoji.demojize` and `unidecode`;
- the two link substitutions (`LINK_RE`, `LINK_RE2`);
- lxml's recovering parse plus the `//text()` query;
- `word_tokenize` and the WordNet lemmatizer;
- the Unicode classes `\w`, `str.isspace` and `str.isnumeric`;
- the NLTK English stopword list.

`Pipeline.ValidEnv` states the facts about them that the proofs rely on.

A run-time error of the n-gram stages is the result `None`.

## Model

| member | source | states |
|---|---|---|
| CharTables.Translate | textcleaning/__init__.py:56-71 | `str.translate` with a `maketrans` table. The five tables are the constants `SingleQuoteTable`, `DoubleQuoteTable`, `DashTable`, `SpecialPunctuationTable` and `PunctuationTable`. It has no `ensures` of its own; its contract is `TranslateAt`, `TranslateChangesOnlyDomain`, `TranslateLeavesNoDomainChar`, `TranslateFixesDomainFree`, `TranslateIdempotent`, `TranslateAppend` and `TranslateCommute`, and `SourceTablesWellFormed` covers the tables |
| CharTables.TranslateAt | textcleaning/__init__.py:56-71 | `str.translate` keeps the length and maps each position by the table alone |
| CharTables.TranslateChangesOnlyDomain | textcleaning/__init__.py:56-71 | only characters of the table's domain change, and each becomes the table's image |
| CharTables.TranslateLeavesNoDomainChar | textcleaning/__init__.py:56-71 | after translating with a table whose image is outside its domain, no domain character is left |
| CharTables.TranslateFixesDomainFree | textcleaning/__init__.py:56-71 | a string with no domain character is returned unchanged |
| CharTables.TranslateIdempotent | textcleaning/__init__.py:56-71 | quote, dash and punctuation canonicalisation applied twice equals applying it once |
| CharTables.TranslateAppend | textcleaning/__init__.py:56-71 | translation distributes over concatenation |
| CharTables.SourceTablesWellFormed | textcleaning/__init__.py:56-71 | each of the five tables sends its domain to a character outside that domain |
| CharTables.CanonicalTablesDisjoint | textcleaning/__init__.py:56-63 | the single-quote, double-quote and dash tables have pairwise disjoint domains, and no table's image is in another table's domain |
| CharTables.TranslateCommute | textcleaning/__init__.py:56-71 | two tables with disjoint domains, neither of whose images is in the other's domain, give the same result in either order |
| CharTables.CanonicalTablesCommute | textcleaning/__init__.py:56-63 | the single-quote, double-quote and dash canonicalisations give the same result in any order |
| Rewrites.PrefixRun | textcleaning/__init__.py:65 | the maximal run of characters that a regex class repetition consumes: all of its characters are in the class, and the next one is not |
| Rewrites.PrefixRunOfAppend | textcleaning/__init__.py:65 | a run stops exactly at the end of a prefix in the class when the next character is not in it |
| Rewrites.CollapseDashes | textcleaning/__init__.py:100-101 | `DASHES_RE.sub("-", text)`, with `DASHES_RE` from line 65. It has no `ensures` of its own; its contract is `CollapseDashesHead`, `CollapseDashesNoDoubleDash`, `CollapseDashesKeepsNonDashes`, `CollapseDashesFixpoint`, `CollapseDashesLeadingRun`, `CollapseDashesAppend` and `CollapseDashesRun` |
| Rewrites.CollapseDashesHead | textcleaning/__init__.py:65 | `DASHES_RE.sub("-", s)` starts with the same character as `s` |
| Rewrites.CollapseDashesNoDoubleDash | textcleaning/__init__.py:100-101 | after the collapse no two adjacent characters are both dashes |
| Rewrites.CollapseDashesKeepsNonDashes | textcleaning/__init__.py:100-101 | deleting every dash gives the same string before and after the collapse |
| Rewrites.DashRunVanishes | textcleaning/__init__.py:65 | deleting every dash from an all-dash string leaves the empty string |
| Rewrites.CollapseDashesFixesNoDoubleDash | textcleaning/__init__.py:100-101 | a string without a double dash is left unchanged |
| Rewrites.CollapseDashesFixpoint | textcleaning/__init__.py:100-101 | the collapse fixes `s` exactly when `s` has no double dash, so the collapse is idempotent |
| Rewrites.CollapseDashesLeadingRun | textcleaning/__init__.py:65 | a leading run of dashes followed by a non-dash becomes one dash followed by the collapse of the rest |
| Rewrites.CollapseDashesAppend | textcleaning/__init__.py:100-101 | no dash run crosses a non-dash: a prefix that ends in a non-dash is collapsed on its own |
| Rewrites.CollapseDashesRun | textcleaning/__init__.py:100-101 | a maximal run of dashes between `a` and `b` becomes exactly one dash, and `a` and `b` are collapsed independently |
| Rewrites.CollapseDashesExample | test/test.py:261-269 | the collapse turns `aa--bb` into `aa-bb` |
| Rewrites.NormalizeSingleQuotes | textcleaning/__init__.py:95-96 | `WORD_SURROUNDED_BY_SINGLE_QUOTES_RE.sub(r'"\1"', text)`, with the pattern from line 73, scanned left to right as `re.sub` does. It has no `ensures` of its own; its contract is `NormalizeSingleQuotesChangesOnlyQuotes`, `NormalizeSingleQuotesWithoutQuote`, `NormalizeSingleQuotesWord`, `NormalizeSingleQuotesOpenQuote`, `NormalizeSingleQuotesCopy`, `NormalizeSingleQuotesFixpoint` and `NormalizeSingleQuotesAppend` |
| Rewrites.QuotesOnlyQuotedWord | textcleaning/__init__.py:73 | replacing `'w'` by `"w"` changes only the two apostrophes |
| Rewrites.NormalizeSingleQuotesQuotesOnly | textcleaning/__init__.py:95-96 | the quoted-word substitution turns some apostrophes into `"` and changes nothing else |
| Rewrites.NormalizeSingleQuotesChangesOnlyQuotes | textcleaning/__init__.py:95-96 | the substitution keeps the length; every position it changes held `'` and now holds `"` |
| Rewrites.NormalizeSingleQuotesWithoutQuote | textcleaning/__init__.py:95-96 | text without an apostrophe is left unchanged |
| Rewrites.NormalizeSingleQuotesWord | textcleaning/__init__.py:73 | `'w' rest`, with `w` one or more word or hyphen characters, becomes `"w"` followed by the rewrite of `rest` |
| Rewrites.NormalizeSingleQuotesUnmatched | textcleaning/__init__.py:73 | when no two apostrophes enclose a non-empty `[\w\-]` run, the text is left unchanged |
| Rewrites.NormalizeSingleQuotesLeadingMatch | textcleaning/__init__.py:73 | when `\w` excludes the apostrophe, a text that starts with `'`, a non-empty `[\w\-]` run and `'` starts with `"` after the rewrite |
| Rewrites.NormalizeSingleQuotesMatched | textcleaning/__init__.py:73 | when `\w` excludes the apostrophe and two apostrophes enclose a non-empty `[\w\-]` run, the text changes |
| Rewrites.NormalizeSingleQuotesFixpoint | textcleaning/__init__.py:95-96 | when `\w` excludes the apostrophe, the substitution leaves the text unchanged exactly when no two apostrophes enclose a non-empty `[\w\-]` run |
| Rewrites.NormalizeSingleQuotesAppend | textcleaning/__init__.py:73 | no match crosses a character that is neither `'` nor in `[\w\-]`: a text ending in one is rewritten on its own |
| Rewrites.NormalizeSingleQuotesConcat | textcleaning/__init__.py:73 | a text cut into pieces that each end in such a character is rewritten piece by piece |
| Rewrites.NormalizeSingleQuotesCopy | textcleaning/__init__.py:73 | a prefix with no apostrophe is copied unchanged |
| Rewrites.NormalizeSingleQuotesOpenQuote | textcleaning/__init__.py:73 | an apostrophe followed by an empty `[\w\-]` run, or by a run that no apostrophe closes, is kept, and the scan continues after it |
| Rewrites.NormalizeSingleQuotesScenario | test/test.py:341-345 | in the test's sentence with any word strings in place of its words, only `'d'` and `'g-h'` become double-quoted; `a's`, `e'`, `''` and `'f` are kept |
| Rewrites.NormalizeSingleQuotesExample | test/test.py:341-345 | with the test's own words, `what's that? 'woman' test' '' 'yeah 'test-test'` becomes `what's that? "woman" test' '' 'yeah "test-test"` |
| Rewrites.Split | textcleaning/__init__.py:130 | `text.split()` with the white-space test as a parameter. It has no `ensures` of its own; its contract is `SplitWords`, `SplitAtSpace`, `SplitAppend`, `SplitWord`, `SplitJoin` and `SplitIdempotent` |
| Rewrites.SplitWords | textcleaning/__init__.py:130 | every piece of `text.split()` is non-empty and space-free, and the pieces concatenate to the non-space characters of the text |
| Rewrites.NoSpaceKept | textcleaning/__init__.py:130 | deleting spaces from a space-free word leaves it unchanged |
| Rewrites.SplitJoin | textcleaning/__init__.py:130 | splitting `" ".join(words)` gives back any list of non-empty, space-free words |
| Rewrites.SplitIdempotent | textcleaning/__init__.py:130 | re-joining the pieces of a split with spaces and splitting again gives the same pieces |
| Rewrites.SplitAppend | textcleaning/__init__.py:130 | a text cut just before a space character is split piece by piece |
| Rewrites.SplitAtSpace | textcleaning/__init__.py:130 | a space character separates pieces: `split` cuts there and drops it |
| Rewrites.SplitWord | textcleaning/__init__.py:130 | the empty text has no pieces, and a non-empty space-free word is its own only piece |
| TokenStages.MapSeqAt | textcleaning/__init__.py:136-139 | `map` keeps the token count and transforms each token in place |
| TokenStages.FilterDeletesOnly | textcleaning/__init__.py:154 | `filter` keeps a subsequence; every kept token passes the test; each token passing the test keeps its count and every other token has count zero |
| TokenStages.FilterMembers | textcleaning/__init__.py:160 | every token a filter keeps passes the test and occurs in the input |
| TokenStages.FilterKeepsAll | textcleaning/__init__.py:162 | a filter whose test accepts every token returns its input |
| TokenStages.CustomReplace | textcleaning/__init__.py:132-133 | the generator `custom_replace[w] if w in custom_replace else w`. It has no `ensures` of its own; its contract is `CustomReplaceAt` |
| TokenStages.CustomReplaceAt | textcleaning/__init__.py:132-133 | custom replacement is token for token: keys become their values, other tokens stay |
| TokenStages.Strip | textcleaning/__init__.py:135-139 | `w.strip(chars)` as `rstrip` after `lstrip`. It has no `ensures` of its own; its contract is `StripSlice`, `StripSuffixChars`, `StripEnds`, `StripInfix` and `StripIdempotent`, over `StripLeading` and `StripTrailing` |
| TokenStages.StripQuotes | textcleaning/__init__.py:135-136 | `map(lambda w: w.strip("\"'“”"), words)`, with the four characters as the constant `QuoteChars`. It has no `ensures` of its own; its contract is `MapSeqAt` with the `Strip` lemmas |
| TokenStages.StripDashes | textcleaning/__init__.py:138-139 | `map(lambda w: w.strip("-"), words)`, with `DashChars`. It has no `ensures` of its own; its contract is `MapSeqAt` with the `Strip` lemmas |
| TokenStages.StripLeading | textcleaning/__init__.py:135-136 | `lstrip` returns a suffix; everything it removed is in the strip set, and what is left does not start with a strip character |
| TokenStages.StripTrailing | textcleaning/__init__.py:135-136 | `rstrip` returns a prefix; everything it removed is in the strip set, and what is left does not end with a strip character |
| TokenStages.StripSlice | textcleaning/__init__.py:135-139 | `strip` keeps a prefix of what `lstrip` keeps, and `lstrip` keeps a suffix of the token |
| TokenStages.StripSuffixChars | textcleaning/__init__.py:135-139 | every character after the part `strip` keeps is in the strip set |
| TokenStages.StripEnds | textcleaning/__init__.py:135-139 | the stripped token is empty or neither starts nor ends with a strip character |
| TokenStages.StripInfix | textcleaning/__init__.py:135-139 | `strip` removes a leading and a trailing run of strip characters and keeps the middle untouched |
| TokenStages.StripIdempotent | textcleaning/__init__.py:135-139 | stripping twice equals stripping once |
| TokenStages.MatchesMention | textcleaning/__init__.py:15 | `MENTION_RE.match(w) is not None`. It has no `ensures` of its own; its contract is `MatchesMentionIff` |
| TokenStages.ReplaceMentions | textcleaning/__init__.py:147-151 | the list comprehension that replaces mention tokens. It has no `ensures` of its own; its contract is `ReplaceMentionsAt` |
| TokenStages.MatchesMentionIff | textcleaning/__init__.py:15 | a token matches `MENTION_RE` exactly when it is `@` plus one or more of `[a-zA-Z0-9\-_.]`, optionally followed by one final newline (Python's `$`) |
| TokenStages.ReplaceMentionsAt | textcleaning/__init__.py:147-151 | mention replacement keeps the token count; exactly the matching tokens become the replacement |
| TokenStages.IsNumeric | textcleaning/__init__.py:154 | `str.isnumeric()`: non-empty, and every character numeric by the parameter `isNumericChar`. It has no `ensures` of its own; `RemoveNumbersKeeps` uses it |
| TokenStages.RemoveNumbers | textcleaning/__init__.py:153-154 | `filter(lambda w: not w.isnumeric(), words)`. It has no `ensures` of its own; its contract is `RemoveNumbersKeeps` |
| TokenStages.RemoveNumbersKeeps | textcleaning/__init__.py:153-154 | number removal keeps, in order and with multiplicity, exactly the tokens that are not `isnumeric` (empty or with a non-numeric character) |
| TokenStages.RemoveStopWords | textcleaning/__init__.py:159-160 | `filter(lambda w: w not in stop_words_en, words)`. The four extra literals of lines 25-29 are the constant `ExtraStopWords`, and `Pipeline.ValidEnv` requires the stopword set to include them. It has no `ensures` of its own; its contract is `RemoveStopWordsKeeps`, `Pipeline.FinishTokensNoStopWord` and `Pipeline.PreprocessDropsStopWords` |
| TokenStages.RemoveStopWordsKeeps | textcleaning/__init__.py:159-160 | stopword removal keeps, in order, exactly the tokens outside the stopword set, and does not change their counts |
| TokenStages.RemoveEmpty | textcleaning/__init__.py:162 | `filter(lambda w: w != "", words)`. It has no `ensures` of its own; its contract is `RemoveEmptyKeeps`, `Pipeline.FinishTokensNoEmpty` and `Pipeline.PreprocessNoEmptyToken` |
| TokenStages.RemoveEmptyKeeps | textcleaning/__init__.py:162 | the last filter leaves no empty token and does not change the count of any non-empty token |
| NGrams.Pad | textcleaning/__init__.py:142-145 | `chain(words, ("*",) * (k - 1))`. It has no `ensures` of its own; its contract is `Padding`, `ShortWindowHoldsSentinel` and `FuseFailsOnlyPastWords` |
| NGrams.FusedToken | textcleaning/__init__.py:37-48 | `ngram[0] + "_" + ngram[1]` and `"_".join(ngram)`. It has no `ensures` of its own; `FuseStepMatch` and `FuseGroups` state the tokens it builds |
| NGrams.Fuse | textcleaning/__init__.py:34-53 | the recursive specification of `_transform_bigram` and `_transform_trigram`. It has no `ensures` of its own; its contract is `TransformNgrams`, `FuseAt`, `FuseGroups`, `FuseIsGreedyCover`, `FuseLength`, `FuseNoMatch`, `FuseFailsNearEnd` and `FuseFailsOnlyPastWords` |
| NGrams.Padding | textcleaning/__init__.py:142-145 | the padding is `n` copies of the sentinel `"*"` |
| NGrams.TransformNgrams | textcleaning/__init__.py:34-53 | the window loop, with its skip counter standing for `next(ngram_seq)`, yields exactly `Fuse` of the padded words, and fails exactly when `Fuse` does |
| NGrams.FuseStepMatch | textcleaning/__init__.py:36-39 | a target window yields its fused token and skips the next `k - 1` windows; the run fails if fewer windows are left |
| NGrams.FuseStepKeep | textcleaning/__init__.py:40-41 | any other window yields its first word |
| NGrams.FuseAt | textcleaning/__init__.py:34-53 | one step of the fusion at position `i` |
| NGrams.TargetsMembership | textcleaning/__init__.py:36 | a window is a target exactly when its tuple is in the caller's set |
| NGrams.CoverTail | textcleaning/__init__.py:34-53 | dropping the first group of a greedy cover leaves a greedy cover of the remaining words |
| NGrams.CoverCons | textcleaning/__init__.py:34-53 | a fitting first group followed by a greedy cover of the rest is a greedy cover |
| NGrams.CoverFirstGroup | textcleaning/__init__.py:34-53 | the first group of a greedy cover is forced: the first `k` words if they are a target, otherwise the first word |
| NGrams.CoverEmpty | textcleaning/__init__.py:34-53 | a greedy cover is empty exactly when the words are |
| NGrams.GreedyCoverUnique | textcleaning/__init__.py:34-53 | a word list has at most one greedy cover |
| NGrams.FuseGroups | textcleaning/__init__.py:34-53 | with no sentinel in the targets the fusion never fails; its output joins the groups it forms, and those groups are a greedy cover |
| NGrams.ShortWindowHoldsSentinel | textcleaning/__init__.py:142-145 | every window that starts inside the words and reaches past their end contains the sentinel |
| NGrams.FuseIsGreedyCover | textcleaning/__init__.py:34-53 | with no sentinel in the targets, the output is the join of the unique greedy cover, so consumed words never start a window |
| NGrams.FuseLength | textcleaning/__init__.py:34-53 | the output has one token per group, and each fusion removes `k - 1` tokens |
| NGrams.FuseNoMatch | textcleaning/__init__.py:34-53 | when no window is a target, the output is the input |
| NGrams.SentinelTargetFails | textcleaning/__init__.py:34-39 | with the bigram `(a, *)` and the single word `a`, the match is the last window, so `next` runs past it and the stage fails |
| NGrams.SentinelTargetUnreached | textcleaning/__init__.py:34-39 | the same bigram `(a, *)` on the words `a b` matches no window, so the words come back unchanged |
| NGrams.FuseFailsNearEnd | textcleaning/__init__.py:34-39 | a fusion fails only if a target matches one of the last `k - 1` windows, where too few windows remain for the `next()` calls |
| NGrams.FuseFailsOnlyPastWords | textcleaning/__init__.py:34-53 | on padded words, a failing fusion matched a target at a window `i` that reaches past the end of the words, and that window contains the sentinel |
| NGrams.BigramExample | test/test.py:211-224 | `x a b c d e f g h` with bigrams `(a,b)`, `(c,d)`, `(f,g)` becomes `x a_b c_d e f_g h` |
| NGrams.BigramExampleFrom1 | test/test.py:211-224 | the bigram example from the second window on |
| NGrams.BigramExampleFrom3 | test/test.py:211-224 | the bigram example from the fourth window on |
| NGrams.BigramExampleFrom5 | test/test.py:211-224 | the bigram example from the sixth window on |
| NGrams.TrigramExample | test/test.py:226-238 | `x a b c d e f g h` with trigrams `(a,b,c)` and `(e,f,g)` becomes `x a_b_c d e_f_g h` |
| NGrams.TrigramExampleFrom1 | test/test.py:226-238 | the trigram example from the second window on |
| NGrams.TrigramExampleFrom4 | test/test.py:226-238 | the trigram example from the fifth window on |
| NGrams.TrigramExampleFrom5 | test/test.py:226-238 | the trigram example from the sixth window on |
| Pipeline.CleanHtmlAsWritten | textcleaning/__init__.py:107-116 | the HTML stage as written, with the parser as the parameter `parseXml`. It has no `ensures` of its own; its contract is `CleanHtmlAsWrittenLeaksWrapper` and `CleanHtmlFailSoft` |
| Pipeline.CleanHtml | textcleaning/__init__.py:107-116 | the HTML stage as intended, keeping the text on a parse failure. It has no `ensures` of its own; its contract is `CleanHtmlFailSoft` and `PreprocessHtmlFailSoft` |
| Pipeline.CleanHtmlAsWrittenLeaksWrapper | textcleaning/__init__.py:107-116 | as written, when the parse fails the text keeps the synthetic `<root>…</root>` wrapper, so it differs from the input |
| Pipeline.CleanHtmlFailSoft | textcleaning/__init__.py:107-116 | the corrected HTML stage returns its input on a parse failure; otherwise it equals the written stage, the space-joined text nodes |
| Pipeline.TextStep | textcleaning/__init__.py:83-125 | one gated text stage. It has no `ensures` of its own; its contract is `ApplyTextStage`, `TextStepIgnoresHtmlFlag` and `DefaultTextStep` |
| Pipeline.RunText | textcleaning/__init__.py:83-125 | the text stages in source order. It has no `ensures` of its own; its contract is `CleanText`, `TextBeforeHtmlIgnoresHtmlFlag`, `TextAfterHtmlIgnoresHtmlFlag` and `RunTextDefaults` |
| Pipeline.TokenStep | textcleaning/__init__.py:132-162 | one gated token stage. It has no `ensures` of its own; its contract is `ApplyTokenStage`, `TokenStepIgnoresHtmlFlag` and `DefaultTokenStep` |
| Pipeline.RunTokens | textcleaning/__init__.py:132-162 | the token stages in source order, stopping at a failing fusion. It has no `ensures` of its own; its contract is `CleanTokens`, `RunTokensIgnoresHtmlFlag` and `RunTokensDefaults` |
| Pipeline.PreprocessSpec | textcleaning/__init__.py:76-162 | `preprocess` as a function. The defaults of lines 76-81 are the constant `Defaults`. It has no `ensures` of its own; its contract is `Preprocess`, `PreprocessFinishes`, `PreprocessNoEmptyToken`, `PreprocessDropsStopWords`, `PreprocessSucceedsWithoutSentinel`, `PreprocessHtmlFailSoft` and `PreprocessDefaults` |
| Pipeline.Preprocess | textcleaning/__init__.py:76-162 | `preprocess` yields `PreprocessSpec`: the text stages, then the split, then the token stages |
| Pipeline.ApplyTextStage | textcleaning/__init__.py:83-125 | one gated text stage computes `TextStep` |
| Pipeline.CleanText | textcleaning/__init__.py:83-125 | the text stages in source order compute `RunText` |
| Pipeline.ApplyTokenStage | textcleaning/__init__.py:132-162 | one gated token stage computes `TokenStep`; only the n-gram stages can fail |
| Pipeline.CleanTokens | textcleaning/__init__.py:132-162 | the token stages in source order compute `RunTokens`, and the run stops at a failing n-gram stage |
| Pipeline.FinishTokensNoEmpty | textcleaning/__init__.py:147-162 | no token after the last filter is empty |
| Pipeline.FinishTokensNoStopWord | textcleaning/__init__.py:159-162 | with `remove_stopwords_en`, no token after the last filter is a stopword |
| Pipeline.PreprocessFinishes | textcleaning/__init__.py:141-162 | the output is the stages after the fusion applied to the fused tokens, or a failure when the fusion fails |
| Pipeline.PreprocessNoEmptyToken | textcleaning/__init__.py:162 | for every input and every option set, no output token is the empty string |
| Pipeline.PreprocessDropsStopWords | textcleaning/__init__.py:23-29 | with `remove_stopwords_en`, no output token is an English stopword or one of `u & - --` |
| Pipeline.FreeTargets | textcleaning/__init__.py:141-145 | a tuple set that never contains `"*"` gives targets without the sentinel |
| Pipeline.PreprocessSucceedsWithoutSentinel | textcleaning/__init__.py:141-145 | when no bigram or trigram tuple contains `"*"`, `preprocess` never fails |
| Pipeline.TextStepIgnoresHtmlFlag | textcleaning/__init__.py:83-125 | `clean_html` gates no text stage except the HTML stage |
| Pipeline.TextBeforeHtmlIgnoresHtmlFlag | textcleaning/__init__.py:83-105 | the text that reaches the HTML stage does not depend on `clean_html` |
| Pipeline.TextAfterHtmlIgnoresHtmlFlag | textcleaning/__init__.py:118-125 | the text stages after the HTML stage do not depend on `clean_html` |
| Pipeline.TokenStepIgnoresHtmlFlag | textcleaning/__init__.py:132-162 | `clean_html` gates no token stage |
| Pipeline.PrepareTokensIgnoresHtmlFlag | textcleaning/__init__.py:132-139 | the token stages before the fusion do not depend on `clean_html` |
| Pipeline.FuseTokensIgnoresHtmlFlag | textcleaning/__init__.py:141-145 | the fusion stages do not depend on `clean_html` |
| Pipeline.FinishTokensIgnoresHtmlFlag | textcleaning/__init__.py:147-162 | the token stages after the fusion do not depend on `clean_html` |
| Pipeline.RunTokensIgnoresHtmlFlag | textcleaning/__init__.py:132-162 | the token stages do not depend on `clean_html` |
| Pipeline.PreprocessHtmlFailSoft | textcleaning/__init__.py:107-116 | when the parser rejects the wrapped text, `preprocess` with `clean_html` yields what it yields without it (corrected HTML stage) |
| Pipeline.DefaultTextStep | textcleaning/__init__.py:76-125 | at the defaults, only the dash canonicalisation changes the text |
| Pipeline.DefaultTokenStep | textcleaning/__init__.py:76-162 | at the defaults, only the empty-token filter changes the tokens |
| Pipeline.RunTextDefaults | textcleaning/__init__.py:83-125 | at the defaults the text stages amount to the dash canonicalisation |
| Pipeline.RunTokensDefaults | textcleaning/__init__.py:132-162 | at the defaults the token stages amount to dropping empty tokens |
| Pipeline.PreprocessDefaults | textcleaning/__init__.py:76-162 | with every option at its default, `preprocess` canonicalises dashes and splits on white space |

## Left out

- Link substitution (`LINK_RE`, `LINK_RE2`, lines 12-13 and 103-105) is the collaborator
  `Env.substituteLinks`. Only its gate and its place in the order are modelled. The two
  loose URL patterns are not.
- These collaborators are uninterpreted functions of `Env`: `str.lower`, `emoji.demojize`,
  `unidecode`, lxml's recovering parser with `//text()`, `word_tokenize` and the WordNet
  lemmatizer. Their code is not part of this model.
- The Unicode classes `\w`, `str.isspace` and the character test behind `str.isnumeric` are
  predicates of `Env`, not tables.
- Loading the stopword list and the `nltk.download` calls (lines 19-23) are I/O. The list is the
  set `Env.stopWords`. `ValidEnv` only demands that it contain the four extra literals.
- A callable `replace_urls` is a `Replacement.Rule` known only by an identifier. Python's truth
  test for it, an empty string, an empty set and an empty dict is modelled through `UrlsGiven`
  and `TokenEnabled`.
- Laziness: `preprocess` returns a lazy `filter` object over generators. The model returns the
  whole list.
- When an n-gram window runs past the end, `next` raises inside the generator. Python turns
  this into a `RuntimeError` once the consumer reaches that point. The model returns `None`.
  It does not model the tokens already yielded before the error.
- The quoted-word substitution is modelled for the regular expression `'([\w\-]+)'` only. It
  is not a general regular-expression engine.
- The test suite's concrete scenarios for quote stripping, dash stripping as a whole, number
  removal, HTML and ASCII folding have no example lemmas. The bigram, trigram, dash-collapse
  (`aa--bb`) and quoted-word tests do. The general lemmas above state the properties the other
  scenarios exercise.
- Rewrites.NormalizeSingleQuotesExample: is stated with the test's words as parameters fixed
  by `requires` (`a == "what"`, ...), not on the sentence as one string literal, and it covers
  the text stage only, not the split and join around it.
- The dash table follows the code. It lists the en dash twice, the two-em dash and the em
  dash. The horizontal bar (U+2015) is not in the table, so it is not mapped.
- `MENTION_RE` ends in `$`. In Python `$` also matches before a single trailing newline, so
  the model accepts `"@bob\n"` as a mention, as the code does.
- HTML extraction: only `Pipeline.CleanHtmlAsWritten` follows the code, which keeps the
  wrapped text on a parse failure. `Pipeline.Preprocess` and `Pipeline.PreprocessSpec` use the
  corrected `Pipeline.CleanHtml`, which keeps the original text. See the finding below.
- Rewrites.CollapseDashesKeepsNonDashes: alone it does not say where the dashes remain.
  `Rewrites.CollapseDashesRun` and `Rewrites.CollapseDashesAppend` complete that: each maximal
  run becomes exactly one dash in place.
- Rewrites.SplitWords: alone it does not say that the pieces are the maximal non-space runs.
  `Rewrites.SplitAtSpace`, `Rewrites.SplitAppend` and `Rewrites.SplitWord` complete that.
- Rewrites.NormalizeSingleQuotesQuotesOnly: alone it does not say which apostrophes change.
  `Rewrites.NormalizeSingleQuotesFixpoint` and `Rewrites.NormalizeSingleQuotesWord` complete
  that.
- Pipeline.PreprocessSucceedsWithoutSentinel: states only that a sentinel-free tuple set is
  enough for success, not that it is needed. A tuple containing `"*"` fails only when it
  matches a window that reaches past the words (`NGrams.FuseFailsOnlyPastWords`).
  `NGrams.SentinelTargetFails` and `NGrams.SentinelTargetUnreached` show both outcomes.

## Findings

| source | as written | input that shows it | evidently intended | confidence | as-written member | corrected member |
|---|---|---|---|---|---|---|
| textcleaning/__init__.py:107-116 | `text` is reassigned to `"<root>" + text + "</root>"` before `etree.fromstring`; when that call raises, the bare `except: pass` leaves the wrapped text in place | any text the parser rejects even in recovery mode, so that `fromstring` raises; the text then continues as `<root>…</root>` and the wrapper tags end up in the tokens | on a parse failure the HTML stage leaves the text as it was (fail-soft) | likely; not executed | Pipeline.CleanHtmlAsWritten (Pipeline.CleanHtmlAsWrittenLeaksWrapper) | Pipeline.CleanHtml (Pipeline.CleanHtmlFailSoft, Pipeline.PreprocessHtmlFailSoft) |
