/** `preprocess`: the fixed order of text stages, the split into tokens and the fixed order of
    token stages, each stage gated by one option. External collaborators (lower-casing, emoji
    labels, link substitution, XML parsing, ASCII folding, the linguistic tokenizer, the
    lemmatizer, the Unicode character classes and the stopword list) are fields of `Env`. */
module Pipeline {
  import opened Wrappers
  import CharTables
  import Rewrites
  import TokenStages
  import NGrams

  /** What `replace_urls` holds: a literal replacement, or a caller-supplied function of the
      match, known to the model only by an identifier. */
  datatype Replacement = Literal(text: string) | Rule(id: nat)

  /** The keyword arguments of `preprocess`. `None`, an empty set, an empty map and an empty
      string are all "not given", as Python's truth test makes them. */
  datatype Options = Options(
    lowercase: bool,
    cleanHtml: bool,
    removePunctuation: bool,
    removeSpecialPunctuation: bool,
    removeStopwordsEn: bool,
    lemmatize: bool,
    fixSingleQuotes: bool,
    fixDoubleQuotes: bool,
    normalizeSingleQuotes: bool,
    stripQuotes: bool,
    stripDashes: bool,
    replaceUrls: Option<Replacement>,
    bigrams: set<(string, string)>,
    trigrams: set<(string, string, string)>,
    removeNumbers: bool,
    useNltkTokenizer: bool,
    asciifold: bool,
    demojize: bool,
    replaceMentions: Option<string>,
    customReplace: map<string, string>)

  /** Every option at its default. */
  const Defaults: Options := Options(false, false, false, false, false, false, false, false, false,
                                     false, false, None, {}, {}, false, false, false, false, None, map[])

  /** The collaborators the pipeline calls. `parseXml` stands for `etree.fromstring` with a
      recovering parser followed by the `//text()` query; `None` is an exception. */
  datatype Env = Env(
    lower: string -> string,
    demojize: string -> string,
    substituteLinks: (Replacement, string) -> string,
    parseXml: string -> Option<seq<string>>,
    asciifold: string -> string,
    tokenize: string -> seq<string>,
    lemmatize: string -> string,
    isWordChar: char -> bool,
    isSpace: char -> bool,
    isNumericChar: char -> bool,
    stopWords: set<string>)

  /** What the pipeline relies on from its collaborators: the stopword set includes the extra
      literals, `\w` does not include the apostrophe, and the space is white space. */
  predicate ValidEnv(env: Env) {
    TokenStages.ExtraStopWords <= env.stopWords && !env.isWordChar('\'') && env.isSpace(' ')
  }

  // ---------------------------------------------------------------------------------------
  // HTML extraction

  function Wrap(text: string): string {
    "<root>" + text + "</root>"
  }

  /** The HTML stage as written: the text is wrapped before parsing, and on an exception the
      wrapped text is what remains. */
  function CleanHtmlAsWritten(env: Env, text: string): string {
    match env.parseXml(Wrap(text))
    case None => Wrap(text)
    case Some(fragments) => Rewrites.Join(" ", fragments)
  }

  /** The HTML stage as intended: the space-joined text nodes, or the text unchanged when
      parsing fails. */
  function CleanHtml(env: Env, text: string): string {
    match env.parseXml(Wrap(text))
    case None => text
    case Some(fragments) => Rewrites.Join(" ", fragments)
  }

  /** As written, a parse failure lets the synthetic root element into the text. */
  lemma CleanHtmlAsWrittenLeaksWrapper(env: Env, text: string)
    requires env.parseXml(Wrap(text)) == None
    ensures CleanHtmlAsWritten(env, text) == "<root>" + text + "</root>"
    ensures CleanHtmlAsWritten(env, text) != text
  {
    assert |CleanHtmlAsWritten(env, text)| == |text| + 13;
  }

  /** The intended stage is fail-soft, and agrees with the written one whenever parsing works. */
  lemma CleanHtmlFailSoft(env: Env, text: string)
    ensures env.parseXml(Wrap(text)) == None ==> CleanHtml(env, text) == text
    ensures env.parseXml(Wrap(text)).Some? ==>
      CleanHtml(env, text) == CleanHtmlAsWritten(env, text) == Rewrites.Join(" ", env.parseXml(Wrap(text)).value)
  {
  }

  // ---------------------------------------------------------------------------------------
  // Text stages

  datatype TextStage =
    | Lowercase | Demojize | FixSingleQuotes | FixDoubleQuotes | NormalizeSingleQuotes
    | CanonicalDashes | CollapseDashes | ReplaceUrls | CleanHtmlText | RemovePunctuation
    | RemoveSpecialPunctuation | AsciiFold

  /** `if replace_urls:` */
  predicate UrlsGiven(o: Options) {
    o.replaceUrls.Some? && (o.replaceUrls.value.Rule? || o.replaceUrls.value.text != "")
  }

  /** The option that gates each text stage; the dash canonicalisation always runs. */
  predicate TextEnabled(o: Options, st: TextStage) {
    match st
    case Lowercase => o.lowercase
    case Demojize => o.demojize
    case FixSingleQuotes => o.fixSingleQuotes
    case FixDoubleQuotes => o.fixDoubleQuotes
    case NormalizeSingleQuotes => o.normalizeSingleQuotes
    case CanonicalDashes => true
    case CollapseDashes => o.stripDashes
    case ReplaceUrls => UrlsGiven(o)
    case CleanHtmlText => o.cleanHtml
    case RemovePunctuation => o.removePunctuation
    case RemoveSpecialPunctuation => o.removeSpecialPunctuation
    case AsciiFold => o.asciifold
  }

  /** One text stage: its rewrite when enabled, the identity otherwise. */
  function TextStep(env: Env, o: Options, st: TextStage, text: string): string {
    if !TextEnabled(o, st) then text
    else match st
      case Lowercase => env.lower(text)
      case Demojize => env.demojize(text)
      case FixSingleQuotes => CharTables.Translate(CharTables.SingleQuoteTable, text)
      case FixDoubleQuotes => CharTables.Translate(CharTables.DoubleQuoteTable, text)
      case NormalizeSingleQuotes => Rewrites.NormalizeSingleQuotes(text, env.isWordChar)
      case CanonicalDashes => CharTables.Translate(CharTables.DashTable, text)
      case CollapseDashes => Rewrites.CollapseDashes(text)
      case ReplaceUrls => env.substituteLinks(o.replaceUrls.value, text)
      case CleanHtmlText => CleanHtml(env, text)
      case RemovePunctuation => CharTables.Translate(CharTables.PunctuationTable, text)
      case RemoveSpecialPunctuation => CharTables.Translate(CharTables.SpecialPunctuationTable, text)
      case AsciiFold => env.asciifold(text)
  }

  /** The text as the HTML stage receives it: the output of the first eight text stages. */
  function TextBeforeHtml(env: Env, o: Options, text: string): string {
    var t1 := TextStep(env, o, Lowercase, text);
    var t2 := TextStep(env, o, Demojize, t1);
    var t3 := TextStep(env, o, FixSingleQuotes, t2);
    var t4 := TextStep(env, o, FixDoubleQuotes, t3);
    var t5 := TextStep(env, o, NormalizeSingleQuotes, t4);
    var t6 := TextStep(env, o, CanonicalDashes, t5);
    var t7 := TextStep(env, o, CollapseDashes, t6);
    TextStep(env, o, ReplaceUrls, t7)
  }

  /** The text stages in the order `preprocess` runs them, each reading the previous output. */
  function RunText(env: Env, o: Options, text: string): string {
    var t9 := TextStep(env, o, CleanHtmlText, TextBeforeHtml(env, o, text));
    var t10 := TextStep(env, o, RemovePunctuation, t9);
    var t11 := TextStep(env, o, RemoveSpecialPunctuation, t10);
    TextStep(env, o, AsciiFold, t11)
  }

  // ---------------------------------------------------------------------------------------
  // Splitting

  /** `word_tokenize(text)` or `text.split()`. */
  function Tokens(env: Env, o: Options, text: string): seq<string> {
    if o.useNltkTokenizer then env.tokenize(text) else Rewrites.Split(text, env.isSpace)
  }

  // ---------------------------------------------------------------------------------------
  // Token stages

  datatype TokenStage =
    | CustomReplace | StripQuotes | StripDashes | Bigrams | Trigrams | ReplaceMentions
    | RemoveNumbers | Lemmatize | RemoveStopWords | DropEmpty

  /** The option that gates each token stage; the empty-token filter always runs. */
  predicate TokenEnabled(o: Options, st: TokenStage) {
    match st
    case CustomReplace => |o.customReplace| > 0
    case StripQuotes => o.stripQuotes
    case StripDashes => o.stripDashes
    case Bigrams => |o.bigrams| > 0
    case Trigrams => |o.trigrams| > 0
    case ReplaceMentions => o.replaceMentions.Some? && o.replaceMentions.value != ""
    case RemoveNumbers => o.removeNumbers
    case Lemmatize => o.lemmatize
    case RemoveStopWords => o.removeStopwordsEn
    case DropEmpty => true
  }

  /** One token stage; only the n-gram stages can fail. */
  function TokenStep(env: Env, o: Options, st: TokenStage, words: seq<string>): Option<seq<string>> {
    if !TokenEnabled(o, st) then Some(words)
    else match st
      case CustomReplace => Some(TokenStages.CustomReplace(o.customReplace, words))
      case StripQuotes => Some(TokenStages.StripQuotes(words))
      case StripDashes => Some(TokenStages.StripDashes(words))
      case Bigrams => NGrams.Fuse(2, NGrams.BigramTargets(o.bigrams), NGrams.Pad(words, 2))
      case Trigrams => NGrams.Fuse(3, NGrams.TrigramTargets(o.trigrams), NGrams.Pad(words, 3))
      case ReplaceMentions => Some(TokenStages.ReplaceMentions(o.replaceMentions.value, words))
      case RemoveNumbers => Some(TokenStages.RemoveNumbers(words, env.isNumericChar))
      case Lemmatize => Some(TokenStages.MapSeq(env.lemmatize, words))
      case RemoveStopWords => Some(TokenStages.RemoveStopWords(words, env.stopWords))
      case DropEmpty => Some(TokenStages.RemoveEmpty(words))
  }

  /** The token stages before the n-gram fusion; none of them can fail. */
  function PrepareTokens(env: Env, o: Options, words: seq<string>): seq<string> {
    var w1 := TokenStep(env, o, CustomReplace, words).value;
    var w2 := TokenStep(env, o, StripQuotes, w1).value;
    TokenStep(env, o, StripDashes, w2).value
  }

  /** The bigram and then the trigram fusion. */
  function FuseTokens(env: Env, o: Options, words: seq<string>): Option<seq<string>> {
    var w4 :- TokenStep(env, o, Bigrams, words);
    TokenStep(env, o, Trigrams, w4)
  }

  /** The token stages after the n-gram fusion; none of them can fail. */
  function FinishTokens(env: Env, o: Options, words: seq<string>): seq<string> {
    var w6 := TokenStep(env, o, ReplaceMentions, words).value;
    var w7 := TokenStep(env, o, RemoveNumbers, w6).value;
    var w8 := TokenStep(env, o, Lemmatize, w7).value;
    var w9 := TokenStep(env, o, RemoveStopWords, w8).value;
    TokenStep(env, o, DropEmpty, w9).value
  }

  /** The token stages in the order `preprocess` runs them; a failing stage ends the run. */
  function RunTokens(env: Env, o: Options, words: seq<string>): Option<seq<string>> {
    var fused :- FuseTokens(env, o, PrepareTokens(env, o, words));
    Some(FinishTokens(env, o, fused))
  }

  // ---------------------------------------------------------------------------------------
  // The whole pipeline

  /** What `preprocess(text, **options)` yields, `None` for the run-time error of the n-gram
      stages. */
  function PreprocessSpec(env: Env, o: Options, text: string): Option<seq<string>> {
    RunTokens(env, o, Tokens(env, o, RunText(env, o, text)))
  }

  /** `preprocess`: reassigns the text through its chain of gates, splits it, then reassigns
      the token list through its chain of gates. */
  method Preprocess(input: string, o: Options, env: Env) returns (result: Option<seq<string>>)
    ensures result == PreprocessSpec(env, o, input)
  {
    var text := CleanText(input, o, env);
    var words: seq<string>;
    if o.useNltkTokenizer {
      words := env.tokenize(text);
    } else {
      words := Rewrites.Split(text, env.isSpace);
    }
    result := CleanTokens(words, o, env);
  }

  /** One gate of `preprocess`'s text half: `if option: text = rewrite(text)`. */
  method ApplyTextStage(st: TextStage, o: Options, env: Env, input: string) returns (text: string)
    ensures text == TextStep(env, o, st, input)
  {
    text := input;
    match st
    case Lowercase =>
      if o.lowercase {
        text := env.lower(text);
      }
    case Demojize =>
      if o.demojize {
        text := env.demojize(text);
      }
    case FixSingleQuotes =>
      if o.fixSingleQuotes {
        text := CharTables.Translate(CharTables.SingleQuoteTable, text);
      }
    case FixDoubleQuotes =>
      if o.fixDoubleQuotes {
        text := CharTables.Translate(CharTables.DoubleQuoteTable, text);
      }
    case NormalizeSingleQuotes =>
      if o.normalizeSingleQuotes {
        text := Rewrites.NormalizeSingleQuotes(text, env.isWordChar);
      }
    case CanonicalDashes =>
      text := CharTables.Translate(CharTables.DashTable, text);
    case CollapseDashes =>
      if o.stripDashes {
        text := Rewrites.CollapseDashes(text);
      }
    case ReplaceUrls =>
      if UrlsGiven(o) {
        text := env.substituteLinks(o.replaceUrls.value, text);
      }
    case CleanHtmlText =>
      if o.cleanHtml {
        var fragments := env.parseXml(Wrap(text));
        if fragments.Some? {
          text := Rewrites.Join(" ", fragments.value);
        }
      }
    case RemovePunctuation =>
      if o.removePunctuation {
        text := CharTables.Translate(CharTables.PunctuationTable, text);
      }
    case RemoveSpecialPunctuation =>
      if o.removeSpecialPunctuation {
        text := CharTables.Translate(CharTables.SpecialPunctuationTable, text);
      }
    case AsciiFold =>
      if o.asciifold {
        text := env.asciifold(text);
      }
  }

  /** The text half of `preprocess`, up to the split: every gate, in order. */
  method CleanText(input: string, o: Options, env: Env) returns (text: string)
    ensures text == RunText(env, o, input)
  {
    text := ApplyTextStage(Lowercase, o, env, input);
    text := ApplyTextStage(Demojize, o, env, text);
    text := ApplyTextStage(FixSingleQuotes, o, env, text);
    text := ApplyTextStage(FixDoubleQuotes, o, env, text);
    text := ApplyTextStage(NormalizeSingleQuotes, o, env, text);
    text := ApplyTextStage(CanonicalDashes, o, env, text);
    text := ApplyTextStage(CollapseDashes, o, env, text);
    text := ApplyTextStage(ReplaceUrls, o, env, text);
    text := ApplyTextStage(CleanHtmlText, o, env, text);
    text := ApplyTextStage(RemovePunctuation, o, env, text);
    text := ApplyTextStage(RemoveSpecialPunctuation, o, env, text);
    text := ApplyTextStage(AsciiFold, o, env, text);
  }

  /** One gate of `preprocess`'s token half; the n-gram gates fail when fusion runs past the
      end of the padded list. */
  method ApplyTokenStage(st: TokenStage, o: Options, env: Env, input: seq<string>)
    returns (result: Option<seq<string>>)
    ensures result == TokenStep(env, o, st, input)
    ensures st != Bigrams && st != Trigrams ==> result.Some?
  {
    var words := input;
    match st {
    case CustomReplace =>
      if |o.customReplace| > 0 {
        words := TokenStages.CustomReplace(o.customReplace, words);
      }
    case StripQuotes =>
      if o.stripQuotes {
        words := TokenStages.StripQuotes(words);
      }
    case StripDashes =>
      if o.stripDashes {
        words := TokenStages.StripDashes(words);
      }
    case Bigrams =>
      if |o.bigrams| > 0 {
        result := NGrams.TransformNgrams(2, NGrams.BigramTargets(o.bigrams), words);
        return;
      }
    case Trigrams =>
      if |o.trigrams| > 0 {
        result := NGrams.TransformNgrams(3, NGrams.TrigramTargets(o.trigrams), words);
        return;
      }
    case ReplaceMentions =>
      if o.replaceMentions.Some? && o.replaceMentions.value != "" {
        words := TokenStages.ReplaceMentions(o.replaceMentions.value, words);
      }
    case RemoveNumbers =>
      if o.removeNumbers {
        words := TokenStages.RemoveNumbers(words, env.isNumericChar);
      }
    case Lemmatize =>
      if o.lemmatize {
        words := TokenStages.MapSeq(env.lemmatize, words);
      }
    case RemoveStopWords =>
      if o.removeStopwordsEn {
        words := TokenStages.RemoveStopWords(words, env.stopWords);
      }
    case DropEmpty =>
      words := TokenStages.RemoveEmpty(words);
    }
    result := Some(words);
  }

  /** The token half of `preprocess`, after the split: every gate, in order, stopping at the
      first failure. */
  method CleanTokens(tokens: seq<string>, o: Options, env: Env) returns (result: Option<seq<string>>)
    ensures result == RunTokens(env, o, tokens)
  {
    var r1 := ApplyTokenStage(CustomReplace, o, env, tokens);
    var w1 := r1.value;
    var r2 := ApplyTokenStage(StripQuotes, o, env, w1);
    var w2 := r2.value;
    var r3 := ApplyTokenStage(StripDashes, o, env, w2);
    var w3 := r3.value;
    assert w3 == PrepareTokens(env, o, tokens);
    var w4 :- ApplyTokenStage(Bigrams, o, env, w3);
    var w5 :- ApplyTokenStage(Trigrams, o, env, w4);
    assert FuseTokens(env, o, w3) == Some(w5);
    var r6 := ApplyTokenStage(ReplaceMentions, o, env, w5);
    var w6 := r6.value;
    var r7 := ApplyTokenStage(RemoveNumbers, o, env, w6);
    var w7 := r7.value;
    var r8 := ApplyTokenStage(Lemmatize, o, env, w7);
    var w8 := r8.value;
    var r9 := ApplyTokenStage(RemoveStopWords, o, env, w8);
    var w9 := r9.value;
    result := ApplyTokenStage(DropEmpty, o, env, w9);
  }

  // ---------------------------------------------------------------------------------------
  // Properties of the whole pipeline

  /** The empty-token filter runs last and always: no token it returns is empty... */
  lemma FinishTokensNoEmpty(env: Env, o: Options, words: seq<string>)
    ensures forall i :: 0 <= i < |FinishTokens(env, o, words)| ==> FinishTokens(env, o, words)[i] != ""
  {
    var w6 := TokenStep(env, o, ReplaceMentions, words).value;
    var w7 := TokenStep(env, o, RemoveNumbers, w6).value;
    var w8 := TokenStep(env, o, Lemmatize, w7).value;
    var w9 := TokenStep(env, o, RemoveStopWords, w8).value;
    assert FinishTokens(env, o, words) == TokenStages.RemoveEmpty(w9);
    TokenStages.FilterMembers(w => w != "", w9);
  }

  /** ...and with `remove_stopwords_en` no token that reaches it is a stopword. */
  lemma FinishTokensNoStopWord(env: Env, o: Options, words: seq<string>)
    requires o.removeStopwordsEn
    ensures forall i :: 0 <= i < |FinishTokens(env, o, words)| ==> FinishTokens(env, o, words)[i] !in env.stopWords
  {
    var w6 := TokenStep(env, o, ReplaceMentions, words).value;
    var w7 := TokenStep(env, o, RemoveNumbers, w6).value;
    var w8 := TokenStep(env, o, Lemmatize, w7).value;
    var w9 := TokenStages.RemoveStopWords(w8, env.stopWords);
    assert FinishTokens(env, o, words) == TokenStages.RemoveEmpty(w9);
    TokenStages.FilterMembers(w => w !in env.stopWords, w8);
    TokenStages.FilterMembers(w => w != "", w9);
  }

  /** What `preprocess` yields, when it yields, is what the stages after the fusion make of
      the fused tokens. */
  lemma PreprocessFinishes(env: Env, o: Options, text: string)
    ensures var fused := FuseTokens(env, o, PrepareTokens(env, o, Tokens(env, o, RunText(env, o, text))));
      PreprocessSpec(env, o, text) == if fused.None? then None else Some(FinishTokens(env, o, fused.value))
  {
  }

  /** No output token is empty. */
  lemma PreprocessNoEmptyToken(env: Env, o: Options, text: string)
    ensures var r := PreprocessSpec(env, o, text);
      r.Some? ==> forall i :: 0 <= i < |r.value| ==> r.value[i] != ""
  {
    PreprocessFinishes(env, o, text);
    var fused := FuseTokens(env, o, PrepareTokens(env, o, Tokens(env, o, RunText(env, o, text))));
    if fused.Some? {
      FinishTokensNoEmpty(env, o, fused.value);
    }
  }

  /** With `remove_stopwords_en`, no output token is a stopword; under `ValidEnv` that
      includes the four extra literals. */
  lemma PreprocessDropsStopWords(env: Env, o: Options, text: string)
    requires o.removeStopwordsEn
    ensures var r := PreprocessSpec(env, o, text);
      r.Some? ==> forall i :: 0 <= i < |r.value| ==> r.value[i] !in env.stopWords
    ensures var r := PreprocessSpec(env, o, text);
      r.Some? && ValidEnv(env) ==> forall i :: 0 <= i < |r.value| ==> r.value[i] !in TokenStages.ExtraStopWords
  {
    PreprocessFinishes(env, o, text);
    var fused := FuseTokens(env, o, PrepareTokens(env, o, Tokens(env, o, RunText(env, o, text))));
    if fused.Some? {
      FinishTokensNoStopWord(env, o, fused.value);
    }
  }

  /** Tuples that do not contain the padding sentinel. */
  predicate BigramsFree(bigrams: set<(string, string)>) {
    forall b :: b in bigrams ==> b.0 != NGrams.Sentinel && b.1 != NGrams.Sentinel
  }

  predicate TrigramsFree(trigrams: set<(string, string, string)>) {
    forall t :: t in trigrams ==> t.0 != NGrams.Sentinel && t.1 != NGrams.Sentinel && t.2 != NGrams.Sentinel
  }

  lemma FreeTargets(bigrams: set<(string, string)>, trigrams: set<(string, string, string)>)
    ensures BigramsFree(bigrams) ==> NGrams.NoSentinel(NGrams.BigramTargets(bigrams))
    ensures TrigramsFree(trigrams) ==> NGrams.NoSentinel(NGrams.TrigramTargets(trigrams))
  {
  }

  /** The n-gram stages fail only on a target that contains the padding sentinel: without one,
      `preprocess` always yields its token list. */
  lemma PreprocessSucceedsWithoutSentinel(env: Env, o: Options, text: string)
    requires BigramsFree(o.bigrams) && TrigramsFree(o.trigrams)
    ensures PreprocessSpec(env, o, text).Some?
  {
    FreeTargets(o.bigrams, o.trigrams);
    var w3 := PrepareTokens(env, o, Tokens(env, o, RunText(env, o, text)));
    if |o.bigrams| > 0 {
      NGrams.FuseGroups(2, NGrams.BigramTargets(o.bigrams), w3);
    }
    var w4 := TokenStep(env, o, Bigrams, w3).value;
    if |o.trigrams| > 0 {
      NGrams.FuseGroups(3, NGrams.TrigramTargets(o.trigrams), w4);
    }
  }

  /** `clean_html` gates the HTML stage and no other text stage... */
  lemma TextStepIgnoresHtmlFlag(env: Env, o: Options, st: TextStage, text: string)
    requires st != CleanHtmlText
    ensures TextStep(env, o, st, text) == TextStep(env, o.(cleanHtml := false), st, text)
  {
  }

  lemma TextBeforeHtmlIgnoresHtmlFlag(env: Env, o: Options, text: string)
    ensures TextBeforeHtml(env, o, text) == TextBeforeHtml(env, o.(cleanHtml := false), text)
  {
    var t1 := TextStep(env, o, Lowercase, text);
    var t2 := TextStep(env, o, Demojize, t1);
    var t3 := TextStep(env, o, FixSingleQuotes, t2);
    var t4 := TextStep(env, o, FixDoubleQuotes, t3);
    var t5 := TextStep(env, o, NormalizeSingleQuotes, t4);
    var t6 := TextStep(env, o, CanonicalDashes, t5);
    var t7 := TextStep(env, o, CollapseDashes, t6);
    TextStepIgnoresHtmlFlag(env, o, Lowercase, text);
    TextStepIgnoresHtmlFlag(env, o, Demojize, t1);
    TextStepIgnoresHtmlFlag(env, o, FixSingleQuotes, t2);
    TextStepIgnoresHtmlFlag(env, o, FixDoubleQuotes, t3);
    TextStepIgnoresHtmlFlag(env, o, NormalizeSingleQuotes, t4);
    TextStepIgnoresHtmlFlag(env, o, CanonicalDashes, t5);
    TextStepIgnoresHtmlFlag(env, o, CollapseDashes, t6);
    TextStepIgnoresHtmlFlag(env, o, ReplaceUrls, t7);
  }

  lemma TextAfterHtmlIgnoresHtmlFlag(env: Env, o: Options, t9: string)
    ensures var o' := o.(cleanHtml := false);
      TextStep(env, o, AsciiFold, TextStep(env, o, RemoveSpecialPunctuation, TextStep(env, o, RemovePunctuation, t9)))
      == TextStep(env, o', AsciiFold, TextStep(env, o', RemoveSpecialPunctuation, TextStep(env, o', RemovePunctuation, t9)))
  {
    var t10 := TextStep(env, o, RemovePunctuation, t9);
    var t11 := TextStep(env, o, RemoveSpecialPunctuation, t10);
    TextStepIgnoresHtmlFlag(env, o, RemovePunctuation, t9);
    TextStepIgnoresHtmlFlag(env, o, RemoveSpecialPunctuation, t10);
    TextStepIgnoresHtmlFlag(env, o, AsciiFold, t11);
  }

  /** ...and every token stage. */
  lemma TokenStepIgnoresHtmlFlag(env: Env, o: Options, st: TokenStage, words: seq<string>)
    ensures TokenStep(env, o, st, words) == TokenStep(env, o.(cleanHtml := false), st, words)
  {
  }

  lemma PrepareTokensIgnoresHtmlFlag(env: Env, o: Options, words: seq<string>)
    ensures PrepareTokens(env, o, words) == PrepareTokens(env, o.(cleanHtml := false), words)
  {
    var w1 := TokenStep(env, o, CustomReplace, words).value;
    var w2 := TokenStep(env, o, StripQuotes, w1).value;
    TokenStepIgnoresHtmlFlag(env, o, CustomReplace, words);
    TokenStepIgnoresHtmlFlag(env, o, StripQuotes, w1);
    TokenStepIgnoresHtmlFlag(env, o, StripDashes, w2);
  }

  lemma FuseTokensIgnoresHtmlFlag(env: Env, o: Options, words: seq<string>)
    ensures FuseTokens(env, o, words) == FuseTokens(env, o.(cleanHtml := false), words)
  {
    TokenStepIgnoresHtmlFlag(env, o, Bigrams, words);
    var w4 := TokenStep(env, o, Bigrams, words);
    if w4.Some? {
      TokenStepIgnoresHtmlFlag(env, o, Trigrams, w4.value);
    }
  }

  lemma FinishTokensIgnoresHtmlFlag(env: Env, o: Options, words: seq<string>)
    ensures FinishTokens(env, o, words) == FinishTokens(env, o.(cleanHtml := false), words)
  {
    var w6 := TokenStep(env, o, ReplaceMentions, words).value;
    var w7 := TokenStep(env, o, RemoveNumbers, w6).value;
    var w8 := TokenStep(env, o, Lemmatize, w7).value;
    var w9 := TokenStep(env, o, RemoveStopWords, w8).value;
    TokenStepIgnoresHtmlFlag(env, o, ReplaceMentions, words);
    TokenStepIgnoresHtmlFlag(env, o, RemoveNumbers, w6);
    TokenStepIgnoresHtmlFlag(env, o, Lemmatize, w7);
    TokenStepIgnoresHtmlFlag(env, o, RemoveStopWords, w8);
    TokenStepIgnoresHtmlFlag(env, o, DropEmpty, w9);
  }

  lemma RunTokensIgnoresHtmlFlag(env: Env, o: Options, words: seq<string>)
    ensures RunTokens(env, o, words) == RunTokens(env, o.(cleanHtml := false), words)
  {
    PrepareTokensIgnoresHtmlFlag(env, o, words);
    var fused := FuseTokens(env, o, PrepareTokens(env, o, words));
    FuseTokensIgnoresHtmlFlag(env, o, PrepareTokens(env, o, words));
    if fused.Some? {
      FinishTokensIgnoresHtmlFlag(env, o, fused.value);
    }
  }

  /** The HTML stage is fail-soft: when the parser rejects the wrapped text, the result is
      what it would have been without `clean_html`. */
  lemma PreprocessHtmlFailSoft(env: Env, o: Options, text: string)
    requires env.parseXml(Wrap(TextBeforeHtml(env, o, text))) == None
    ensures PreprocessSpec(env, o, text) == PreprocessSpec(env, o.(cleanHtml := false), text)
  {
    var o' := o.(cleanHtml := false);
    var t8 := TextBeforeHtml(env, o, text);
    TextBeforeHtmlIgnoresHtmlFlag(env, o, text);
    assert TextStep(env, o, CleanHtmlText, t8) == t8 == TextStep(env, o', CleanHtmlText, t8);
    TextAfterHtmlIgnoresHtmlFlag(env, o, t8);
    assert RunText(env, o, text) == RunText(env, o', text);
    RunTokensIgnoresHtmlFlag(env, o, Tokens(env, o, RunText(env, o, text)));
  }

  /** At the defaults only the dash canonicalisation changes the text... */
  lemma DefaultTextStep(env: Env, st: TextStage, text: string)
    ensures TextStep(env, Defaults, st, text)
         == if st == CanonicalDashes then CharTables.Translate(CharTables.DashTable, text) else text
  {
  }

  /** ...and only the empty-token filter changes the tokens. */
  lemma DefaultTokenStep(env: Env, st: TokenStage, words: seq<string>)
    ensures TokenStep(env, Defaults, st, words)
         == Some(if st == DropEmpty then TokenStages.RemoveEmpty(words) else words)
  {
  }

  lemma RunTextDefaults(env: Env, text: string)
    ensures RunText(env, Defaults, text) == CharTables.Translate(CharTables.DashTable, text)
  {
    var dashed := CharTables.Translate(CharTables.DashTable, text);
    DefaultTextStep(env, Lowercase, text);
    DefaultTextStep(env, Demojize, text);
    DefaultTextStep(env, FixSingleQuotes, text);
    DefaultTextStep(env, FixDoubleQuotes, text);
    DefaultTextStep(env, NormalizeSingleQuotes, text);
    DefaultTextStep(env, CanonicalDashes, text);
    DefaultTextStep(env, CollapseDashes, dashed);
    DefaultTextStep(env, ReplaceUrls, dashed);
    assert TextBeforeHtml(env, Defaults, text) == dashed;
    DefaultTextStep(env, CleanHtmlText, dashed);
    DefaultTextStep(env, RemovePunctuation, dashed);
    DefaultTextStep(env, RemoveSpecialPunctuation, dashed);
    DefaultTextStep(env, AsciiFold, dashed);
  }

  lemma RunTokensDefaults(env: Env, words: seq<string>)
    ensures RunTokens(env, Defaults, words) == Some(TokenStages.RemoveEmpty(words))
  {
    DefaultTokenStep(env, CustomReplace, words);
    DefaultTokenStep(env, StripQuotes, words);
    DefaultTokenStep(env, StripDashes, words);
    assert PrepareTokens(env, Defaults, words) == words;
    DefaultTokenStep(env, Bigrams, words);
    DefaultTokenStep(env, Trigrams, words);
    assert FuseTokens(env, Defaults, words) == Some(words);
    DefaultTokenStep(env, ReplaceMentions, words);
    DefaultTokenStep(env, RemoveNumbers, words);
    DefaultTokenStep(env, Lemmatize, words);
    DefaultTokenStep(env, RemoveStopWords, words);
    DefaultTokenStep(env, DropEmpty, words);
  }

  /** With every option at its default, `preprocess` canonicalises the dashes and splits on
      white space, and nothing else. */
  lemma PreprocessDefaults(env: Env, text: string)
    ensures PreprocessSpec(env, Defaults, text)
         == Some(Rewrites.Split(CharTables.Translate(CharTables.DashTable, text), env.isSpace))
  {
    var dashed := CharTables.Translate(CharTables.DashTable, text);
    var words := Rewrites.Split(dashed, env.isSpace);
    RunTextDefaults(env, text);
    RunTokensDefaults(env, words);
    Rewrites.SplitWords(dashed, env.isSpace);
    TokenStages.FilterKeepsAll(w => w != "", words);
  }
}
