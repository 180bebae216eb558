/** The keyword mini-language of the search box (FileGatherPro.matches_keyword).

    A keyword is evaluated against a text in two stages. First every double-quoted segment
    is an exact phrase that must occur in the text; each one is then deleted, quotes and all,
    from the keyword. What is left is split on whitespace: a token `+x` requires x, a token
    `-x` forbids x, and every other token (split on `|` when it contains one) joins a single
    any-of group of which at least one member must occur. Every test is a case-insensitive
    substring test. The empty keyword matches everything. */
module Keyword {
  import opened Text

  /** The three term lists the tokens are sorted into. */
  datatype Terms = Terms(mustInclude: seq<string>, mustExclude: seq<string>, anyInclude: seq<string>)

  /** [t.lower() for t in ts] */
  function LowerAll(ts: seq<string>): (r: seq<string>)
    ensures |r| == |ts| && forall k :: 0 <= k < |ts| ==> r[k] == Lower(ts[k])
  {
    if ts == [] then [] else [Lower(ts[0])] + LowerAll(ts[1..])
  }

  /** How one token extends the term lists. */
  function AddToken(t: Terms, token: string): Terms
  {
    if token == [] then t
    else if token[0] == '+' then t.(mustInclude := t.mustInclude + [Lower(token[1..])])
    else if token[0] == '-' then t.(mustExclude := t.mustExclude + [Lower(token[1..])])
    else if '|' in token then t.(anyInclude := t.anyInclude + LowerAll(SplitOn(token, '|')))
    else t.(anyInclude := t.anyInclude + [Lower(token)])
  }

  /** The term lists built from a token sequence, token by token from the left. */
  function Classify(tokens: seq<string>): Terms
  {
    if tokens == [] then Terms([], [], [])
    else AddToken(Classify(tokens[..|tokens| - 1]), tokens[|tokens| - 1])
  }

  function Quote(phrase: string): string
  {
    "\"" + phrase + "\""
  }

  /** The keyword after each phrase in turn has been deleted, with its quotes, wherever it occurs. */
  function RemovePhrases(keyword: string, phrases: seq<string>): string
    decreases |phrases|
  {
    if phrases == [] then keyword
    else RemovePhrases(RemoveAll(keyword, Quote(phrases[0])), phrases[1..])
  }

  predicate AllIn(terms: seq<string>, lowText: string)
  {
    forall k :: 0 <= k < |terms| ==> Contains(lowText, terms[k])
  }

  predicate NoneIn(terms: seq<string>, lowText: string)
  {
    forall k :: 0 <= k < |terms| ==> !Contains(lowText, terms[k])
  }

  predicate SomeIn(terms: seq<string>, lowText: string)
  {
    exists k :: 0 <= k < |terms| && Contains(lowText, terms[k])
  }

  /** The verdict of the three term lists on an already lower-cased text. */
  predicate Satisfies(t: Terms, lowText: string)
  {
    AllIn(t.mustInclude, lowText) && NoneIn(t.mustExclude, lowText)
    && (t.anyInclude == [] || SomeIn(t.anyInclude, lowText))
  }

  /** Whether the quote-free remainder of a keyword accepts an already lower-cased text. */
  predicate TermsMatch(rest: string, lowText: string)
  {
    Satisfies(Classify(Words(rest)), lowText)
  }

  /** The meaning of matches_keyword(text, keyword). */
  predicate Matches(text: string, keyword: string)
  {
    keyword == [] ||
    (AllIn(LowerAll(FindQuoted(keyword)), Lower(text))
     && TermsMatch(RemovePhrases(keyword, FindQuoted(keyword)), Lower(text)))
  }

  /** matches_keyword: the phrase loop, then the token loop and the three scans with their early returns. */
  method MatchesKeyword(text: string, keyword: string) returns (found: bool)
    ensures found == Matches(text, keyword)
  {
    if keyword == [] {
      return true;
    }
    var lowText := Lower(text);
    var ok, kw := CheckPhrases(keyword, lowText);
    if !ok {
      return false;
    }
    var mustInclude, mustExclude, anyInclude := SortTokens(Words(kw));
    found := CheckTerms(mustInclude, mustExclude, anyInclude, lowText);
  }

  /** The phrase loop of matches_keyword: each quoted phrase must occur, and is then deleted from the keyword. */
  method CheckPhrases(keyword: string, lowText: string) returns (ok: bool, kw: string)
    ensures ok == AllIn(LowerAll(FindQuoted(keyword)), lowText)
    ensures ok ==> kw == RemovePhrases(keyword, FindQuoted(keyword))
  {
    var exact := FindQuoted(keyword);
    kw := keyword;
    var i := 0;
    while i < |exact|
      invariant 0 <= i <= |exact|
      invariant forall k :: 0 <= k < i ==> Contains(lowText, Lower(exact[k]))
      invariant RemovePhrases(kw, exact[i..]) == RemovePhrases(keyword, exact)
    {
      if !Contains(lowText, Lower(exact[i])) {
        assert LowerAll(exact)[i] == Lower(exact[i]);
        return false, kw;
      }
      RemovePhrasesStep(kw, exact, i);
      kw := RemoveAll(kw, Quote(exact[i]));
      i := i + 1;
    }
    assert exact[i..] == [];
    ok := true;
  }

  lemma RemovePhrasesStep(kw: string, phrases: seq<string>, i: nat)
    requires i < |phrases|
    ensures RemovePhrases(kw, phrases[i..]) == RemovePhrases(RemoveAll(kw, Quote(phrases[i])), phrases[i + 1..])
  {
    assert phrases[i..][1..] == phrases[i + 1..];
  }

  /** The token loop of matches_keyword: sorts each token into the required, excluded or any-of list. */
  method SortTokens(tokens: seq<string>) returns (mustInclude: seq<string>, mustExclude: seq<string>, anyInclude: seq<string>)
    ensures Terms(mustInclude, mustExclude, anyInclude) == Classify(tokens)
  {
    mustInclude, mustExclude, anyInclude := [], [], [];
    var j := 0;
    while j < |tokens|
      invariant 0 <= j <= |tokens|
      invariant Terms(mustInclude, mustExclude, anyInclude) == Classify(tokens[..j])
    {
      var token := tokens[j];
      assert tokens[..j + 1][..j] == tokens[..j];
      if token != [] {
        if token[0] == '+' {
          mustInclude := mustInclude + [Lower(token[1..])];
        } else if token[0] == '-' {
          mustExclude := mustExclude + [Lower(token[1..])];
        } else if '|' in token {
          anyInclude := anyInclude + LowerAll(SplitOn(token, '|'));
        } else {
          anyInclude := anyInclude + [Lower(token)];
        }
      }
      j := j + 1;
    }
    assert tokens[..j] == tokens;
  }

  /** The three scans of matches_keyword over the term lists, each returning False at the first failure. */
  method CheckTerms(mustInclude: seq<string>, mustExclude: seq<string>, anyInclude: seq<string>, lowText: string)
    returns (ok: bool)
    ensures ok == Satisfies(Terms(mustInclude, mustExclude, anyInclude), lowText)
  {
    var k := 0;
    while k < |mustInclude|
      invariant 0 <= k <= |mustInclude|
      invariant AllIn(mustInclude[..k], lowText)
    {
      if !Contains(lowText, mustInclude[k]) {
        return false;
      }
      k := k + 1;
    }
    assert mustInclude[..k] == mustInclude;

    k := 0;
    while k < |mustExclude|
      invariant 0 <= k <= |mustExclude|
      invariant NoneIn(mustExclude[..k], lowText)
    {
      if Contains(lowText, mustExclude[k]) {
        return false;
      }
      k := k + 1;
    }
    assert mustExclude[..k] == mustExclude;

    if anyInclude != [] {
      var found := false;
      k := 0;
      while k < |anyInclude|
        invariant 0 <= k <= |anyInclude|
        invariant !found ==> !SomeIn(anyInclude[..k], lowText)
        invariant found ==> SomeIn(anyInclude, lowText)
      {
        if Contains(lowText, anyInclude[k]) {
          found := true;
          break;
        }
        assert anyInclude[..k + 1] == anyInclude[..k] + [anyInclude[k]];
        k := k + 1;
      }
      if !found {
        assert anyInclude[..k] == anyInclude;
        return false;
      }
    }
    return true;
  }

  // ---------------------------------------------------------------------------------------
  // An independent, per-token reading of the quote-free part of the language.

  predicate IsRequired(token: string)
  {
    token != [] && token[0] == '+'
  }

  predicate IsExcluded(token: string)
  {
    token != [] && token[0] == '-'
  }

  /** A token that joins the any-of group: neither `+x` nor `-x`. */
  predicate IsAlternative(token: string)
  {
    token != [] && token[0] != '+' && token[0] != '-'
  }

  /** The any-of members an alternative token contributes. */
  function Pieces(token: string): seq<string>
  {
    if '|' in token then SplitOn(token, '|') else [token]
  }

  predicate RequiredHold(tokens: seq<string>, lowText: string)
  {
    forall i :: 0 <= i < |tokens| && IsRequired(tokens[i]) ==> Contains(lowText, Lower(tokens[i][1..]))
  }

  predicate ExcludedHold(tokens: seq<string>, lowText: string)
  {
    forall i :: 0 <= i < |tokens| && IsExcluded(tokens[i]) ==> !Contains(lowText, Lower(tokens[i][1..]))
  }

  predicate NoAlternative(tokens: seq<string>)
  {
    forall i :: 0 <= i < |tokens| ==> !IsAlternative(tokens[i])
  }

  predicate PieceOccurs(token: string, lowText: string)
  {
    exists j :: 0 <= j < |Pieces(token)| && Contains(lowText, Lower(Pieces(token)[j]))
  }

  predicate SomeAlternativeHolds(tokens: seq<string>, lowText: string)
  {
    exists i :: 0 <= i < |tokens| && IsAlternative(tokens[i]) && PieceOccurs(tokens[i], lowText)
  }

  /** Every `+` term is present, no `-` term is, and the any-of group is empty or has a present member. */
  predicate TokenSemantics(tokens: seq<string>, lowText: string)
  {
    RequiredHold(tokens, lowText) && ExcludedHold(tokens, lowText)
    && (NoAlternative(tokens) || SomeAlternativeHolds(tokens, lowText))
  }

  lemma {:induction false} ClassifyRequired(tokens: seq<string>, lowText: string)
    ensures AllIn(Classify(tokens).mustInclude, lowText) <==> RequiredHold(tokens, lowText)
  {
    if tokens != [] {
      var init, last := tokens[..|tokens| - 1], tokens[|tokens| - 1];
      ClassifyRequired(init, lowText);
      assert forall i :: 0 <= i < |init| ==> init[i] == tokens[i];
      assert RequiredHold(tokens, lowText) <==>
        RequiredHold(init, lowText) && (IsRequired(last) ==> Contains(lowText, Lower(last[1..]))) by {
        if RequiredHold(init, lowText) && (IsRequired(last) ==> Contains(lowText, Lower(last[1..]))) {
          forall i | 0 <= i < |tokens| && IsRequired(tokens[i]) ensures Contains(lowText, Lower(tokens[i][1..])) {
            if i < |init| { assert tokens[i] == init[i]; }
          }
        }
      }
      if IsRequired(last) {
        var m := Classify(init).mustInclude;
        assert Classify(tokens).mustInclude == m + [Lower(last[1..])];
        AllInAppend(m, [Lower(last[1..])], lowText);
        assert AllIn([Lower(last[1..])], lowText) <==> Contains(lowText, [Lower(last[1..])][0]);
      } else {
        assert Classify(tokens).mustInclude == Classify(init).mustInclude;
      }
    }
  }

  lemma {:induction false} ClassifyExcluded(tokens: seq<string>, lowText: string)
    ensures NoneIn(Classify(tokens).mustExclude, lowText) <==> ExcludedHold(tokens, lowText)
  {
    if tokens != [] {
      var init, last := tokens[..|tokens| - 1], tokens[|tokens| - 1];
      ClassifyExcluded(init, lowText);
      assert forall i :: 0 <= i < |init| ==> init[i] == tokens[i];
      assert ExcludedHold(tokens, lowText) <==>
        ExcludedHold(init, lowText) && (IsExcluded(last) ==> !Contains(lowText, Lower(last[1..]))) by {
        if ExcludedHold(init, lowText) && (IsExcluded(last) ==> !Contains(lowText, Lower(last[1..]))) {
          forall i | 0 <= i < |tokens| && IsExcluded(tokens[i]) ensures !Contains(lowText, Lower(tokens[i][1..])) {
            if i < |init| { assert tokens[i] == init[i]; }
          }
        }
      }
      if IsExcluded(last) {
        var m := Classify(init).mustExclude;
        assert Classify(tokens).mustExclude == m + [Lower(last[1..])];
        NoneInAppend(m, [Lower(last[1..])], lowText);
        assert NoneIn([Lower(last[1..])], lowText) <==> !Contains(lowText, [Lower(last[1..])][0]);
      } else {
        assert Classify(tokens).mustExclude == Classify(init).mustExclude;
      }
    }
  }

  /** The any-of list of a token sequence is the concatenation of its alternatives' lowered pieces. */
  lemma {:induction false} ClassifyAlternatives(tokens: seq<string>, lowText: string)
    ensures Classify(tokens).anyInclude == [] <==> NoAlternative(tokens)
    ensures SomeIn(Classify(tokens).anyInclude, lowText) <==> SomeAlternativeHolds(tokens, lowText)
  {
    if tokens != [] {
      var init, last := tokens[..|tokens| - 1], tokens[|tokens| - 1];
      ClassifyAlternatives(init, lowText);
      AnyIncludeSnoc(tokens);
      AlternativesSnoc(tokens, lowText);
      var a := Classify(init).anyInclude;
      if IsAlternative(last) {
        var added := LowerAll(Pieces(last));
        PiecesMeaning(last, lowText);
        SomeInAppend(a, added, lowText);
      }
    }
  }

  /** The last token extends the any-of list by its lowered pieces when it is an alternative. */
  lemma AnyIncludeSnoc(tokens: seq<string>)
    requires tokens != []
    ensures var last := tokens[|tokens| - 1];
      Classify(tokens).anyInclude
        == Classify(tokens[..|tokens| - 1]).anyInclude + (if IsAlternative(last) then LowerAll(Pieces(last)) else [])
  {
  }

  /** An alternative contributes at least one piece, and one of them occurs iff the token's pieces occur. */
  lemma PiecesMeaning(token: string, lowText: string)
    ensures |LowerAll(Pieces(token))| >= 1
    ensures SomeIn(LowerAll(Pieces(token)), lowText) <==> PieceOccurs(token, lowText)
  {
  }

  /** The per-token alternative reading of a sequence splits into its initial part and its last token. */
  lemma AlternativesSnoc(tokens: seq<string>, lowText: string)
    requires tokens != []
    ensures var init, last := tokens[..|tokens| - 1], tokens[|tokens| - 1];
      (NoAlternative(tokens) <==> NoAlternative(init) && !IsAlternative(last))
      && (SomeAlternativeHolds(tokens, lowText)
          <==> SomeAlternativeHolds(init, lowText) || (IsAlternative(last) && PieceOccurs(last, lowText)))
  {
    var init, last := tokens[..|tokens| - 1], tokens[|tokens| - 1];
    assert forall i :: 0 <= i < |init| ==> init[i] == tokens[i];
    if SomeAlternativeHolds(tokens, lowText) {
      var i :| 0 <= i < |tokens| && IsAlternative(tokens[i]) && PieceOccurs(tokens[i], lowText);
      if i < |init| {
        assert IsAlternative(init[i]) && PieceOccurs(init[i], lowText);
      }
    }
    if SomeAlternativeHolds(init, lowText) {
      var i :| 0 <= i < |init| && IsAlternative(init[i]) && PieceOccurs(init[i], lowText);
      assert IsAlternative(tokens[i]) && PieceOccurs(tokens[i], lowText);
    }
  }

  lemma SomeInAppend(a: seq<string>, b: seq<string>, lowText: string)
    ensures SomeIn(a + b, lowText) <==> SomeIn(a, lowText) || SomeIn(b, lowText)
  {
    if SomeIn(a + b, lowText) {
      var k :| 0 <= k < |a + b| && Contains(lowText, (a + b)[k]);
      if k >= |a| {
        assert b[k - |a|] == (a + b)[k];
      } else {
        assert a[k] == (a + b)[k];
      }
    }
    if SomeIn(a, lowText) {
      var k :| 0 <= k < |a| && Contains(lowText, a[k]);
      assert (a + b)[k] == a[k];
      assert Contains(lowText, (a + b)[k]);
    }
    if SomeIn(b, lowText) {
      var k :| 0 <= k < |b| && Contains(lowText, b[k]);
      assert (a + b)[|a| + k] == b[k];
      assert Contains(lowText, (a + b)[|a| + k]);
    }
  }

  lemma AllInAppend(a: seq<string>, b: seq<string>, lowText: string)
    ensures AllIn(a + b, lowText) <==> AllIn(a, lowText) && AllIn(b, lowText)
  {
    assert forall k :: 0 <= k < |a| ==> (a + b)[k] == a[k];
    assert forall k :: 0 <= k < |b| ==> (a + b)[|a| + k] == b[k];
  }

  lemma NoneInAppend(a: seq<string>, b: seq<string>, lowText: string)
    ensures NoneIn(a + b, lowText) <==> NoneIn(a, lowText) && NoneIn(b, lowText)
  {
    assert forall k :: 0 <= k < |a| ==> (a + b)[k] == a[k];
    assert forall k :: 0 <= k < |b| ==> (a + b)[|a| + k] == b[k];
  }

  /** The term lists and the per-token reading agree on every token sequence. */
  lemma ClassifyMeaning(tokens: seq<string>, lowText: string)
    ensures Satisfies(Classify(tokens), lowText) <==> TokenSemantics(tokens, lowText)
  {
    ClassifyRequired(tokens, lowText);
    ClassifyExcluded(tokens, lowText);
    ClassifyAlternatives(tokens, lowText);
  }

  /** For a non-empty keyword without quotes the verdict is the per-token reading of its whitespace tokens. */
  lemma QuoteFreeMeaning(text: string, keyword: string)
    requires keyword != [] && '"' !in keyword
    ensures Matches(text, keyword) <==> TokenSemantics(Words(keyword), Lower(text))
  {
    assert FindQuoted(keyword) == [];
    ClassifyMeaning(Words(keyword), Lower(text));
  }

  /** A quoted phrase that the text lacks rejects, whatever the rest of the keyword says. */
  lemma MissingPhraseRejects(text: string, keyword: string, k: nat)
    requires k < |FindQuoted(keyword)|
    requires !Contains(Lower(text), Lower(FindQuoted(keyword)[k]))
    ensures !Matches(text, keyword)
  {
    assert LowerAll(FindQuoted(keyword))[k] == Lower(FindQuoted(keyword)[k]);
  }

  lemma EmptyKeywordMatches(text: string)
    ensures Matches(text, "")
  {
  }

  lemma NoSpaceAppend(a: string, b: string)
    ensures NoSpace(a + b) <==> NoSpace(a) && NoSpace(b)
  {
    assert forall i :: 0 <= i < |a| ==> (a + b)[i] == a[i];
    assert forall i :: 0 <= i < |b| ==> (a + b)[|a| + i] == b[i];
  }

  /** Without quotes in the keyword there are no phrases and nothing is removed. */
  lemma QuoteFreeTerms(text: string, keyword: string)
    requires keyword != [] && '"' !in keyword
    ensures Matches(text, keyword) == TermsMatch(keyword, Lower(text))
  {
    assert FindQuoted(keyword) == [];
  }

  /** `+a -b` matches exactly the texts that contain a and do not contain b. */
  lemma RequireAndExclude(text: string, a: string, b: string)
    requires NoSpace(a) && NoSpace(b) && '"' !in a && '"' !in b
    ensures Matches(text, "+" + a + " -" + b) <==>
      Contains(Lower(text), Lower(a)) && !Contains(Lower(text), Lower(b))
  {
    var plus, minus := "+" + a, "-" + b;
    var keyword := plus + " " + minus;
    assert keyword == "+" + a + " -" + b;
    RequireAndExcludeTerms(text, a, b, keyword);
  }

  lemma RequireAndExcludeTerms(text: string, a: string, b: string, keyword: string)
    requires NoSpace(a) && NoSpace(b) && '"' !in a && '"' !in b
    requires keyword == ("+" + a) + " " + ("-" + b)
    ensures Matches(text, keyword) <==>
      Contains(Lower(text), Lower(a)) && !Contains(Lower(text), Lower(b))
  {
    var plus, minus := "+" + a, "-" + b;
    assert '"' !in keyword by {
      assert '"' !in plus && '"' !in minus;
    }
    QuoteFreeTerms(text, keyword);
    PlusMinusWords(a, b);
    ClassifyPlusMinus(a, b);
    PlusMinusIn(Lower(a), Lower(b), Lower(text));
  }

  lemma PlusMinusWords(a: string, b: string)
    requires NoSpace(a) && NoSpace(b)
    ensures Words(("+" + a) + " " + ("-" + b)) == ["+" + a, "-" + b]
  {
    NoSpaceAppend("+", a);
    NoSpaceAppend("-", b);
    WordsTwo("+" + a, "-" + b);
  }

  lemma PlusMinusIn(x: string, y: string, lowText: string)
    ensures Satisfies(Terms([x], [y], []), lowText) <==> Contains(lowText, x) && !Contains(lowText, y)
  {
    assert [x][0] == x && [y][0] == y;
  }

  lemma ClassifyPlusMinus(a: string, b: string)
    ensures Classify(["+" + a, "-" + b]) == Terms([Lower(a)], [Lower(b)], [])
  {
    var plus, minus := "+" + a, "-" + b;
    var tokens := [plus, minus];
    assert tokens[..1] == [plus];
    var first: seq<string> := [plus];
    assert first[..0] == [];
    assert plus[1..] == a && minus[1..] == b;
    assert Classify(tokens[..1]) == Terms([Lower(a)], [], []);
  }

  /** `a|b` matches exactly the texts that contain a or b. */
  lemma EitherAlternative(text: string, a: string, b: string)
    requires NoSpace(a) && NoSpace(b) && '"' !in a && '"' !in b && '|' !in a && '|' !in b
    requires a == [] || (a[0] != '+' && a[0] != '-')
    ensures Matches(text, a + "|" + b) <==>
      Contains(Lower(text), Lower(a)) || Contains(Lower(text), Lower(b))
  {
    var keyword := a + "|" + b;
    assert '"' !in keyword;
    QuoteFreeTerms(text, keyword);
    BarWords(a, b);
    ClassifyBar(a, b);
    EitherIn(Lower(a), Lower(b), Lower(text));
  }

  /** `a|b` without whitespace is a single token. */
  lemma BarWords(a: string, b: string)
    requires NoSpace(a) && NoSpace(b)
    ensures Words(a + "|" + b) == [a + "|" + b]
  {
    var keyword := a + ['|'] + b;
    assert keyword == a + "|" + b;
    NoSpaceAppend(a, ['|']);
    NoSpaceAppend(a + ['|'], b);
    WordsOne(keyword);
  }

  /** The single token `a|b` contributes the two lowered pieces to the any-of group. */
  lemma ClassifyBar(a: string, b: string)
    requires '|' !in a && '|' !in b
    requires a == [] || (a[0] != '+' && a[0] != '-')
    ensures Classify([a + "|" + b]) == Terms([], [], [Lower(a), Lower(b)])
  {
    var keyword := a + ['|'] + b;
    assert keyword == a + "|" + b;
    assert keyword[|a|] == '|';
    SplitTwo(a, b, '|');
    assert [keyword][..0] == [];
    assert LowerAll([a, b]) == [Lower(a), Lower(b)];
  }

  lemma EitherIn(x: string, y: string, lowText: string)
    ensures Satisfies(Terms([], [], [x, y]), lowText) <==> Contains(lowText, x) || Contains(lowText, y)
  {
    var any := [x, y];
    if Contains(lowText, x) { assert Contains(lowText, any[0]); }
    if Contains(lowText, y) { assert Contains(lowText, any[1]); }
  }

  /** A keyword that is one quoted phrase matches exactly the texts that contain the phrase. */
  lemma ExactPhrase(text: string, phrase: string)
    requires '"' !in phrase
    ensures Matches(text, Quote(phrase)) <==> Contains(Lower(text), Lower(phrase))
  {
    var keyword := Quote(phrase);
    var rest := keyword[1..];
    assert rest == phrase + "\"";
    assert IndexOf(keyword, '"') == Some(0);
    assert rest[|phrase|] == '"' && rest[..|phrase|] == phrase;
    assert IndexOf(rest, '"') == Some(|phrase|);
    assert rest[|phrase| + 1..] == [];
    assert FindQuoted(keyword) == [phrase];
    RemoveAllSelf(keyword);
    assert RemovePhrases(keyword, [phrase]) == RemovePhrases("", []);
    assert Words("") == [];
    assert TermsMatch("", Lower(text));
    assert LowerAll([phrase]) == [Lower(phrase)];
  }

  /** A lone `+` requires the empty term, which every text contains. */
  lemma LonePlusMatches(text: string)
    ensures Matches(text, "+")
  {
    WordsOne("+");
    assert ["+"][..0] == [];
    assert Classify(["+"]) == Terms([""], [], []);
    ContainsEmpty(Lower(text));
  }

  /** A lone `-` forbids the empty term, so it rejects every text. */
  lemma LoneMinusRejects(text: string)
    ensures !Matches(text, "-")
  {
    WordsOne("-");
    QuoteFreeTerms(text, "-");
    assert ["-"][..0] == [];
    assert Classify(["-"]) == Terms([], [""], []);
    ContainsEmpty(Lower(text));
    assert Contains(Lower(text), Classify(["-"]).mustExclude[0]);
  }

  /** `a|` puts the empty term into the any-of group, so it matches every text. */
  lemma TrailingBarMatches(text: string, a: string)
    requires NoSpace(a) && '"' !in a && '|' !in a
    requires a == [] || (a[0] != '+' && a[0] != '-')
    ensures Matches(text, a + "|")
  {
    EitherAlternative(text, a, "");
    ContainsEmpty(Lower(text));
    assert a + "|" + "" == a + "|";
  }
}
