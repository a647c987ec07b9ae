/** Tokenising, lemmatising and term ranking of letter text (router/text_processing.py).
    The morphological analyzer is a parameter: `None` when none could be loaded, else
    the function giving a token's first parse's normal form. */
module TextProcessing {
  import opened Opt
  import opened Text
  import opened Seqs
  import StableSort

  /** The characters the split pattern keeps: `\w` (letters, digits, `_`) together with
      а-я and ё, for ASCII and the Cyrillic block. */
  predicate IsWordChar(c: char) {
    IsAsciiLetter(c) || IsDigit(c) || c == '_' || IsCyrillicLetter(c)
  }

  /** `[a-zа-яё]` under IGNORECASE. */
  predicate IsTokenLetter(c: char) {
    IsAsciiLetter(c) || ('а' <= c <= 'я') || ('А' <= c <= 'Я') || c == 'ё' || c == 'Ё'
  }

  predicate HasLetter(token: string) {
    exists i :: 0 <= i < |token| && IsTokenLetter(token[i])
  }

  /** `len(set(token)) == 1` */
  predicate OneRepeatedChar(token: string) {
    token != [] && forall i :: 0 <= i < |token| ==> token[i] == token[0]
  }

  /** `re.fullmatch(r"[\d_]+", token)` */
  predicate DigitsOrUnderscores(token: string) {
    token != [] && forall i :: 0 <= i < |token| ==> IsDigit(token[i]) || token[i] == '_'
  }

  /** The four filters of `tokenize`, in their order. */
  predicate KeepToken(token: string) {
    |token| > 2 && HasLetter(token) && !OneRepeatedChar(token) && !DigitsOrUnderscores(token)
  }

  /** The pieces of `cleaned.split()`. Every run of characters outside the word class is
      replaced by one space, and no word character is whitespace, so the pieces are the
      maximal runs of word characters of the lowered text. */
  function Pieces(text: string): seq<string> {
    Runs(Lower(text), IsWordChar)
  }

  /** What `tokenize` returns. */
  function Tokens(text: string): seq<string> {
    Filter(Pieces(text), KeepToken)
  }

  /** `tokenize` */
  method Tokenize(text: string) returns (tokens: seq<string>)
    ensures tokens == Tokens(text)
  {
    var lowered := Lower(text);
    var pieces := Runs(lowered, IsWordChar);
    tokens := [];
    for i := 0 to |pieces|
      invariant tokens == Filter(pieces[..i], KeepToken)
    {
      var token := pieces[i];
      assert pieces[..i + 1][..i] == pieces[..i];
      if |token| <= 2 {
        continue;
      }
      if !HasLetter(token) {
        continue;
      }
      if OneRepeatedChar(token) {
        continue;
      }
      if DigitsOrUnderscores(token) {
        continue;
      }
      tokens := tokens + [token];
    }
    assert pieces[..|pieces|] == pieces;
  }

  /** Every piece is made of lower-cased word characters. */
  lemma PiecesLowered(text: string)
    ensures forall k, i :: 0 <= k < |Pieces(text)| && 0 <= i < |Pieces(text)[k]| ==>
      IsWordChar(Pieces(text)[k][i]) && LowerChar(Pieces(text)[k][i]) == Pieces(text)[k][i]
  {
    var lowered := Lower(text);
    RunsChars(lowered, IsWordChar);
    forall c | c in lowered ensures LowerChar(c) == c {
      var j :| 0 <= j < |lowered| && lowered[j] == c;
    }
  }

  /** The tokens are, in text order, exactly the pieces that pass every filter: each is
      lower-cased, longer than two characters, holds a letter, and is neither one repeated
      character nor only digits and underscores. */
  lemma TokensSpec(text: string)
    ensures forall k :: 0 <= k < |Tokens(text)| ==>
      && IsLowered(Tokens(text)[k])
      && |Tokens(text)[k]| > 2
      && HasLetter(Tokens(text)[k])
      && !OneRepeatedChar(Tokens(text)[k])
      && !DigitsOrUnderscores(Tokens(text)[k])
      && Tokens(text)[k] in Pieces(text)
    ensures forall k :: 0 <= k < |Pieces(text)| && KeepToken(Pieces(text)[k]) ==> Pieces(text)[k] in Tokens(text)
    ensures IsSubseq(Tokens(text), Pieces(text))
  {
    FilterMembers(Pieces(text), KeepToken);
    FilterIsSubseq(Pieces(text), KeepToken);
    PiecesLowered(text);
  }

  /** The digits-and-underscores filter never drops a token the letter filter kept. */
  lemma DigitFilterRedundant(token: string)
    requires HasLetter(token)
    ensures !DigitsOrUnderscores(token)
  {
    var i :| 0 <= i < |token| && IsTokenLetter(token[i]);
    assert !IsDigit(token[i]) && token[i] != '_';
  }

  /** `lemmatize_tokens`: with an analyzer, each token's normal form; without one, the
      tokens themselves. */
  function LemmatizeTokens(tokens: seq<string>, morph: Option<string -> string>): (r: seq<string>)
    ensures |r| == |tokens|
    ensures morph.None? ==> r == tokens
    ensures morph.Some? ==> forall i :: 0 <= i < |r| ==> r[i] == morph.value(tokens[i])
  {
    match morph
    case None => tokens
    case Some(normalForm) => seq(|tokens|, i requires 0 <= i < |tokens| => normalForm(tokens[i]))
  }

  /** Lemmatising two token lists one after the other is lemmatising their concatenation. */
  lemma LemmatizeAppend(a: seq<string>, b: seq<string>, morph: Option<string -> string>)
    ensures LemmatizeTokens(a + b, morph) == LemmatizeTokens(a, morph) + LemmatizeTokens(b, morph)
  {
  }

  datatype NormalizedText = NormalizedText(lemmaList: seq<string>, lemmaSet: set<string>, lemmaString: string)

  /** `normalize_text`: the lemmas of the tokens, their set, and their space-joined string. */
  function NormalizeText(text: string, morph: Option<string -> string>): (r: NormalizedText)
    ensures r.lemmaList == LemmatizeTokens(Tokens(text), morph)
    ensures forall x :: x in r.lemmaSet <==> x in r.lemmaList
  {
    var lemmas := LemmatizeTokens(Tokens(text), morph);
    NormalizedText(lemmas, (set x | x in lemmas), Join(" ", lemmas))
  }

  /** The lemma string splits back into the lemma list whenever every lemma is non-empty
      and free of whitespace. */
  lemma LemmaStringSplits(text: string, morph: Option<string -> string>)
    requires forall k :: 0 <= k < |NormalizeText(text, morph).lemmaList| ==> NormalizeText(text, morph).lemmaList[k] != []
    requires forall k, i :: 0 <= k < |NormalizeText(text, morph).lemmaList| && 0 <= i < |NormalizeText(text, morph).lemmaList[k]| ==>
      NotSpace(NormalizeText(text, morph).lemmaList[k][i])
    ensures Words(NormalizeText(text, morph).lemmaString) == NormalizeText(text, morph).lemmaList
  {
    WordsOfJoin(NormalizeText(text, morph).lemmaList);
  }

  /** Without an analyzer the lemma list is the token list, and the lemma string splits
      back into it. */
  lemma UnanalyzedRoundTrip(text: string)
    ensures NormalizeText(text, None).lemmaList == Tokens(text)
    ensures Words(NormalizeText(text, None).lemmaString) == Tokens(text)
  {
    var tokens := Tokens(text);
    FilterMembers(Pieces(text), KeepToken);
    PiecesLowered(text);
    forall k, i | 0 <= k < |tokens| && 0 <= i < |tokens[k]| ensures NotSpace(tokens[k][i]) {
      var j :| 0 <= j < |Pieces(text)| && Pieces(text)[j] == tokens[k];
      assert IsWordChar(Pieces(text)[j][i]);
    }
    WordsOfJoin(tokens);
  }

  /** The tokens of all texts, one text after the other. */
  function AllTokens(texts: seq<string>): seq<string> {
    if texts == [] then [] else AllTokens(texts[..|texts| - 1]) + Tokens(texts[|texts| - 1])
  }

  /** The filter that drops stopwords. */
  function NotStopword(stopwords: set<string>): string -> bool {
    x => x !in stopwords
  }

  function Count(items: seq<string>, x: string): nat {
    multiset(items)[x]
  }

  /** The `Counter` count of each item, as a sort key. */
  function CountKey(items: seq<string>): string -> int {
    x => Count(items, x)
  }

  /** The keys of `Counter(items)`, in first-seen order. */
  function Distinct(items: seq<string>): seq<string> {
    AppendNew([], items)
  }

  /** The keys sorted by count, non-increasing; equal counts keep first-seen order. */
  function Ranked(items: seq<string>): seq<string> {
    StableSort.SortDesc(Distinct(items), CountKey(items))
  }

  function Min(a: int, b: int): int { if a <= b then a else b }

  /** `Counter(items).most_common(n)`, keys only: the `n` first ranked keys, none when `n`
      is not positive. */
  function MostCommon(items: seq<string>, n: int): seq<string> {
    if n <= 0 then [] else Ranked(items)[..Min(n, |Ranked(items)|)]
  }

  /** What `top_terms` returns. */
  function TopTermsOf(texts: seq<string>, maxTerms: int, stopwords: set<string>, morph: Option<string -> string>): seq<string> {
    MostCommon(Filter(LemmatizeTokens(AllTokens(texts), morph), NotStopword(stopwords)), maxTerms)
  }

  /** The ranked keys are the distinct items, each once. */
  lemma RankedSpec(items: seq<string>)
    ensures NoDup(Ranked(items))
    ensures |Ranked(items)| == |Distinct(items)|
    ensures forall x :: x in Ranked(items) <==> x in items
  {
    var distinct := Distinct(items);
    NoDupPermutation(distinct, Ranked(items));
    AppendNewMembers([], items);
    assert forall x :: x in Ranked(items) <==> x in multiset(distinct);
  }

  /** `most_common(n)` returns at most `n` distinct items of the list, all of them when
      `n` is at least the number of distinct items. */
  lemma MostCommonMembers(items: seq<string>, n: int)
    ensures |MostCommon(items, n)| == if n <= 0 then 0 else Min(n, |Distinct(items)|)
    ensures NoDup(MostCommon(items, n))
    ensures forall i :: 0 <= i < |MostCommon(items, n)| ==> MostCommon(items, n)[i] in items
  {
    RankedSpec(items);
  }

  /** The result is non-increasing by count, and items with equal counts appear in the
      order in which they were first seen. */
  lemma MostCommonOrder(items: seq<string>, n: int)
    ensures StableSort.SortedDesc(MostCommon(items, n), CountKey(items))
    ensures FirstSeenOrder(Distinct(items), items)
    ensures forall k :: StableSort.KeyClass(MostCommon(items, n), CountKey(items), k) <= StableSort.KeyClass(Distinct(items), CountKey(items), k)
  {
    var ranked := Ranked(items);
    var key := CountKey(items);
    assert FirstSeenOrder(Distinct(items), items) by {
      AppendNewFirstSeen(items);
    }
    forall k ensures StableSort.KeyClass(MostCommon(items, n), key, k) <= StableSort.KeyClass(Distinct(items), key, k) {
      if n > 0 {
        StableSort.KeyClassOfPrefix(ranked, Min(n, |ranked|), key, k);
      }
    }
  }

  /** An item left out is counted no more often than the last item kept, and it is left
      out only once `n` items are taken. */
  lemma MostCommonComplete(items: seq<string>, n: int, x: string)
    requires x in items && x !in MostCommon(items, n)
    ensures n <= 0 || (|MostCommon(items, n)| == n && Count(items, x) <= Count(items, MostCommon(items, n)[n - 1]))
  {
    if n > 0 {
      var ranked := Ranked(items);
      RankedSpec(items);
      var p :| 0 <= p < |ranked| && ranked[p] == x;
      assert p >= Min(n, |ranked|);
      assert CountKey(items)(ranked[n - 1]) >= CountKey(items)(ranked[p]);
    }
  }

  /** `top_terms`: the tokens of every text in turn, lemmatised, without stopwords, and
      ranked by count. */
  method TopTerms(texts: seq<string>, maxTerms: int, stopwords: set<string>, morph: Option<string -> string>)
    returns (terms: seq<string>)
    ensures terms == TopTermsOf(texts, maxTerms, stopwords, morph)
  {
    var tokens: seq<string> := [];
    for i := 0 to |texts|
      invariant tokens == AllTokens(texts[..i])
    {
      assert texts[..i + 1][..i] == texts[..i];
      var more := Tokenize(texts[i]);
      tokens := tokens + more;
    }
    assert texts[..|texts|] == texts;
    var lemmas := LemmatizeTokens(tokens, morph);
    var filtered := Filter(lemmas, NotStopword(stopwords));
    terms := MostCommon(filtered, maxTerms);
  }

  /** `top_terms` returns at most `max_terms` distinct terms, none of them a stopword. */
  lemma TopTermsSpec(texts: seq<string>, maxTerms: int, stopwords: set<string>, morph: Option<string -> string>)
    ensures maxTerms >= 0 ==> |TopTermsOf(texts, maxTerms, stopwords, morph)| <= maxTerms
    ensures NoDup(TopTermsOf(texts, maxTerms, stopwords, morph))
    ensures forall i :: 0 <= i < |TopTermsOf(texts, maxTerms, stopwords, morph)| ==>
      TopTermsOf(texts, maxTerms, stopwords, morph)[i] !in stopwords
  {
    var filtered := Filter(LemmatizeTokens(AllTokens(texts), morph), NotStopword(stopwords));
    MostCommonMembers(filtered, maxTerms);
    FilterMembers(LemmatizeTokens(AllTokens(texts), morph), NotStopword(stopwords));
  }
}
