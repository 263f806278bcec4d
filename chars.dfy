/** The single-character translation tables of the cleaner (`str.translate` over a table built
    with `str.maketrans`). Every table of the source sends each character of a fixed domain to
    one canonical character and leaves every other character alone. */
module CharTables {

  /** Every character of `domain` becomes `image`; all others are kept. */
  datatype Table = Table(domain: set<char>, image: char)

  /** A table whose image is outside its domain; all tables of the source are of this kind. */
  predicate WellFormed(t: Table) {
    t.image !in t.domain
  }

  function MapChar(t: Table, c: char): char {
    if c in t.domain then t.image else c
  }

  /** `str.translate`: maps one character at a time, left to right. */
  function Translate(t: Table, s: string): string {
    if s == [] then [] else [MapChar(t, s[0])] + Translate(t, s[1..])
  }

  /** Curly and back-tick single quotes (U+2019, U+0060, U+2018) become an apostrophe. */
  const SingleQuoteTable := Table({'\U{2019}', '`', '\U{2018}'}, '\'')

  /** Curly, low and angle double quotes (U+201D, U+201C, U+00AB, U+00BB, U+201E) become `"`. */
  const DoubleQuoteTable := Table({'\U{201D}', '\U{201C}', '\U{00AB}', '\U{00BB}', '\U{201E}'}, '"')

  /** En dash (listed twice in the source), two-em dash and em dash become `-`. */
  const DashTable := Table({'\U{2013}', '\U{2E3A}', '\U{2014}'}, '-')

  /** The "special" punctuation `;:"/()|*=>` becomes a space. */
  const SpecialPunctuationTable := Table({';', ':', '"', '/', '(', ')', '|', '*', '=', '>'}, ' ')

  /** The basic punctuation `.,!?` becomes a space. */
  const PunctuationTable := Table({'.', ',', '!', '?'}, ' ')

  /** Translation is pointwise: it keeps the length and maps position `i` by the table alone. */
  lemma {:induction false} TranslateAt(t: Table, s: string)
    ensures |Translate(t, s)| == |s|
    ensures forall i :: 0 <= i < |s| ==> Translate(t, s)[i] == MapChar(t, s[i])
  {
    if s != [] {
      TranslateAt(t, s[1..]);
      assert forall i :: 1 <= i < |s| ==> Translate(t, s)[i] == Translate(t, s[1..])[i - 1];
    }
  }

  /** Only characters of the domain change, and each changed one becomes the image. */
  lemma TranslateChangesOnlyDomain(t: Table, s: string)
    ensures |Translate(t, s)| == |s|
    ensures forall i :: 0 <= i < |s| && Translate(t, s)[i] != s[i] ==>
      s[i] in t.domain && Translate(t, s)[i] == t.image
  {
    TranslateAt(t, s);
  }

  /** After translating with a well-formed table no domain character is left. */
  lemma TranslateLeavesNoDomainChar(t: Table, s: string)
    requires WellFormed(t)
    ensures forall i :: 0 <= i < |Translate(t, s)| ==> Translate(t, s)[i] !in t.domain
  {
    TranslateAt(t, s);
  }

  /** A string without domain characters is a fixed point of the translation. */
  lemma {:induction false} TranslateFixesDomainFree(t: Table, s: string)
    requires forall i :: 0 <= i < |s| ==> s[i] !in t.domain
    ensures Translate(t, s) == s
  {
    if s != [] {
      TranslateFixesDomainFree(t, s[1..]);
    }
  }

  /** Translating twice with a well-formed table is translating once. */
  lemma TranslateIdempotent(t: Table, s: string)
    requires WellFormed(t)
    ensures Translate(t, Translate(t, s)) == Translate(t, s)
  {
    TranslateLeavesNoDomainChar(t, s);
    TranslateFixesDomainFree(t, Translate(t, s));
  }

  /** Translation distributes over concatenation, so it can be applied piecewise. */
  lemma {:induction false} TranslateAppend(t: Table, a: string, b: string)
    ensures Translate(t, a + b) == Translate(t, a) + Translate(t, b)
  {
    if a == [] {
      assert a + b == b;
    } else {
      assert (a + b)[1..] == a[1..] + b;
      TranslateAppend(t, a[1..], b);
    }
  }

  /** The five tables of the source are well formed, hence each is idempotent. */
  lemma SourceTablesWellFormed()
    ensures WellFormed(SingleQuoteTable) && WellFormed(DoubleQuoteTable) && WellFormed(DashTable)
    ensures WellFormed(SpecialPunctuationTable) && WellFormed(PunctuationTable)
  {
  }

  /** Two tables with disjoint domains, neither of whose images is in the other's domain,
      can be applied in either order. */
  lemma {:induction false} TranslateCommute(t: Table, u: Table, s: string)
    requires t.domain !! u.domain && t.image !in u.domain && u.image !in t.domain
    ensures Translate(t, Translate(u, s)) == Translate(u, Translate(t, s))
  {
    if s != [] {
      TranslateCommute(t, u, s[1..]);
      var tu := [MapChar(u, s[0])] + Translate(u, s[1..]);
      var ut := [MapChar(t, s[0])] + Translate(t, s[1..]);
      assert tu[0] == MapChar(u, s[0]) && tu[1..] == Translate(u, s[1..]);
      assert ut[0] == MapChar(t, s[0]) && ut[1..] == Translate(t, s[1..]);
    }
  }

  /** The quote and dash tables have pairwise disjoint domains, and no image is in another
      table's domain. */
  lemma CanonicalTablesDisjoint()
    ensures SingleQuoteTable.domain !! DoubleQuoteTable.domain
    ensures SingleQuoteTable.domain !! DashTable.domain
    ensures DoubleQuoteTable.domain !! DashTable.domain
    ensures SingleQuoteTable.image !in DoubleQuoteTable.domain + DashTable.domain
    ensures DoubleQuoteTable.image !in SingleQuoteTable.domain + DashTable.domain
    ensures DashTable.image !in SingleQuoteTable.domain + DoubleQuoteTable.domain
  {
  }

  /** Hence the three canonicalisations can be applied in any order. */
  lemma CanonicalTablesCommute(s: string)
    ensures Translate(SingleQuoteTable, Translate(DoubleQuoteTable, s))
         == Translate(DoubleQuoteTable, Translate(SingleQuoteTable, s))
    ensures Translate(SingleQuoteTable, Translate(DashTable, s))
         == Translate(DashTable, Translate(SingleQuoteTable, s))
    ensures Translate(DoubleQuoteTable, Translate(DashTable, s))
         == Translate(DashTable, Translate(DoubleQuoteTable, s))
  {
    CanonicalTablesDisjoint();
    TranslateCommute(SingleQuoteTable, DoubleQuoteTable, s);
    TranslateCommute(SingleQuoteTable, DashTable, s);
    TranslateCommute(DoubleQuoteTable, DashTable, s);
  }
}
