/**
 * parse_query's grouping of lexemes into bare words and quoted phrases, the
 * syntax errors it reports, and the message those errors carry.
 */
module SearchQuery {
  import opened Wrappers
  import opened SearchText

  /** Bare words searched separately, and phrases searched as consecutive words. */
  datatype Query = Query(separate: seq<string>, exact: seq<seq<string>>)

  /** The syntax error parse_query throws: a message and the query it is about. */
  datatype BadQuery = BadQuery(message: string, query: string)

  const ErrorPrefix: string := "Search query syntax error: "
  const QuerySeparator: string := " || Query: "

  /** BadQuery::what(). */
  function What(e: BadQuery): string
  {
    ErrorPrefix + e.message + QuerySeparator + e.query
  }

  /** For a given query the text of what() determines the error: both framing strings have fixed lengths. */
  lemma WhatIdentifiesError(a: BadQuery, b: BadQuery)
    requires a.query == b.query && What(a) == What(b)
    ensures a == b
  {
    var n := |ErrorPrefix|;
    var m := |a.message|;
    assert |b.message| == m;
    assert a.message == What(a)[n..n + m];
    assert b.message == What(b)[n..n + m];
  }

  // ------------------------------------------------------------ grouping

  /** The first position at or after k holding a Quote, or |lex| when there is none. */
  function PhraseEnd(lex: seq<string>, k: nat): (j: nat)
    requires k <= |lex|
    ensures k <= j <= |lex|
    ensures forall m :: k <= m < j ==> lex[m] != Quote
    ensures j < |lex| ==> lex[j] == Quote
    decreases |lex| - k
  {
    if k == |lex| || lex[k] == Quote then k else PhraseEnd(lex, k + 1)
  }

  /**
   * The grouping loop of parse_query from position i: a Quote opens a phrase that runs to the
   * next Quote (or to the end), anything else is a bare word.
   */
  function GroupFrom(lex: seq<string>, i: nat): Query
    requires i <= |lex| + 1
    decreases |lex| + 1 - i
  {
    if i >= |lex| then Query([], [])
    else if lex[i] == Quote then
      var j := PhraseEnd(lex, i + 1);
      var q := GroupFrom(lex, j + 1);
      Query(q.separate, [lex[i + 1..j]] + q.exact)
    else
      var q := GroupFrom(lex, i + 1);
      Query([lex[i]] + q.separate, q.exact)
  }

  function Group(lex: seq<string>): Query
  {
    GroupFrom(lex, 0)
  }

  /** parse_query: a syntax error for a query without lexemes or with an odd number of '"', else the grouping. */
  function ParsedQuery(line: string): Result<Query, BadQuery>
  {
    var lex := QueryLexemes(line);
    if lex == [] then Failure(BadQuery("Empty query", line))
    else if QuoteCount(lex) % 2 == 1 then Failure(BadQuery("Expected closing quote", line))
    else Success(Group(lex))
  }

  // ------------------------------------------------------------ reference

  /** The number of Quote lexemes before position k. */
  function QuotesBefore(lex: seq<string>, k: nat): nat
    requires k <= |lex|
  {
    if k == 0 then 0 else QuotesBefore(lex, k - 1) + (if lex[k - 1] == Quote then 1 else 0)
  }

  /** The number of Quote lexemes at position i or later. */
  function QuotesFrom(lex: seq<string>, i: nat): nat
    decreases |lex| - i
  {
    if i >= |lex| then 0 else (if lex[i] == Quote then 1 else 0) + QuotesFrom(lex, i + 1)
  }

  /** The lexemes from position i on that are no Quote and have an even number of Quotes before them. */
  function Outside(lex: seq<string>, i: nat): seq<string>
    decreases |lex| - i
  {
    if i >= |lex| then []
    else (if lex[i] != Quote && QuotesBefore(lex, i) % 2 == 0 then [lex[i]] else []) + Outside(lex, i + 1)
  }

  /** The lexemes from position i on that are no Quote and have an odd number of Quotes before them. */
  function Inside(lex: seq<string>, i: nat): seq<string>
    decreases |lex| - i
  {
    if i >= |lex| then []
    else (if lex[i] != Quote && QuotesBefore(lex, i) % 2 == 1 then [lex[i]] else []) + Inside(lex, i + 1)
  }

  /** The lexemes from position i on that are no Quote and have exactly n Quotes before them. */
  function Between(lex: seq<string>, i: nat, n: nat): seq<string>
    decreases |lex| - i
  {
    if i >= |lex| then []
    else (if lex[i] != Quote && QuotesBefore(lex, i) == n then [lex[i]] else []) + Between(lex, i + 1, n)
  }

  /** Once more than n Quotes lie behind, no lexeme has exactly n Quotes before it. */
  lemma {:induction false} BetweenPast(lex: seq<string>, a: nat, n: nat)
    requires a > |lex| || QuotesBefore(lex, a) > n
    ensures Between(lex, a, n) == []
    decreases |lex| - a
  {
    if a < |lex| {
      BetweenPast(lex, a + 1, n);
    }
  }

  function Concat(ps: seq<seq<string>>): seq<string>
  {
    if ps == [] then [] else ps[0] + Concat(ps[1..])
  }

  /** Inside a phrase every position has one Quote more before it than the opening Quote has. */
  lemma {:induction false} PhraseParity(lex: seq<string>, i: nat, k: nat)
    requires i < |lex| && lex[i] == Quote && i < k <= PhraseEnd(lex, i + 1)
    ensures QuotesBefore(lex, k) == QuotesBefore(lex, i) + 1
    decreases k
  {
    if k > i + 1 {
      PhraseParity(lex, i, k - 1);
    }
  }

  /** Walking through the words of a phrase adds them to Inside and nothing to Outside. */
  lemma {:induction false} PhraseWalk(lex: seq<string>, i: nat, a: nat)
    requires i < |lex| && lex[i] == Quote && QuotesBefore(lex, i) % 2 == 0
    requires i < a <= PhraseEnd(lex, i + 1)
    ensures var j := PhraseEnd(lex, i + 1);
      Inside(lex, a) == lex[a..j] + Inside(lex, j) && Outside(lex, a) == Outside(lex, j) &&
      QuotesFrom(lex, a) == QuotesFrom(lex, j)
    decreases PhraseEnd(lex, i + 1) - a
  {
    var j := PhraseEnd(lex, i + 1);
    if a < j {
      PhraseParity(lex, i, a);
      PhraseWord(lex, a);
      PhraseWalk(lex, i, a + 1);
      Prepend(lex, a, j);
      Regroup([lex[a]], lex[a + 1..j], Inside(lex, j));
    } else {
      assert lex[a..j] == [];
    }
  }

  /** Walking through the words of a phrase, each of them has one Quote more before it than the opening Quote. */
  lemma {:induction false} PhraseBetween(lex: seq<string>, i: nat, a: nat, n: nat)
    requires i < |lex| && lex[i] == Quote
    requires i < a <= PhraseEnd(lex, i + 1)
    ensures var j := PhraseEnd(lex, i + 1);
      Between(lex, a, n) == (if n == QuotesBefore(lex, i) + 1 then lex[a..j] else []) + Between(lex, j, n)
    decreases PhraseEnd(lex, i + 1) - a
  {
    var j := PhraseEnd(lex, i + 1);
    if a < j {
      PhraseParity(lex, i, a);
      PhraseBetween(lex, i, a + 1, n);
      Prepend(lex, a, j);
    } else {
      assert lex[a..j] == [];
    }
  }

  /** A whole phrase, from its opening Quote to past its closing one, holds the lexemes with one Quote more before them. */
  lemma PhraseStepBetween(lex: seq<string>, i: nat, j: nat, n: nat)
    requires i < |lex| && lex[i] == Quote && j == PhraseEnd(lex, i + 1)
    ensures Between(lex, i, n) == (if n == QuotesBefore(lex, i) + 1 then lex[i + 1..j] else []) + Between(lex, j + 1, n)
  {
    assert Between(lex, i, n) == [] + Between(lex, i + 1, n);
    PhraseBetween(lex, i, i + 1, n);
    if j < |lex| {
      assert Between(lex, j, n) == [] + Between(lex, j + 1, n);
    }
  }

  /**
   * Phrase m of the grouping from position j holds exactly the lexemes from j on that have
   * 2m + 1 Quotes more before them than j has.
   */
  ghost predicate PhrasesFrom(lex: seq<string>, j: nat)
    requires j <= |lex| + 1
  {
    j <= |lex| ==> forall m :: 0 <= m < |GroupFrom(lex, j).exact| ==>
      GroupFrom(lex, j).exact[m] == Between(lex, j, QuotesBefore(lex, j) + 2 * m + 1)
  }

  /** From an opening Quote the first phrase is the lexemes with one Quote more before them, the others follow on. */
  lemma PhrasesAfterQuote(lex: seq<string>, i: nat)
    requires i < |lex| && lex[i] == Quote && PhrasesFrom(lex, PhraseEnd(lex, i + 1) + 1)
    ensures PhrasesFrom(lex, i)
  {
    forall m | 0 <= m < |GroupFrom(lex, i).exact|
      ensures GroupFrom(lex, i).exact[m] == Between(lex, i, QuotesBefore(lex, i) + 2 * m + 1)
    {
      QuotePhrase(lex, i, m);
    }
  }

  /** Phrase m grouped from an opening Quote. */
  lemma QuotePhrase(lex: seq<string>, i: nat, m: nat)
    requires i < |lex| && lex[i] == Quote && PhrasesFrom(lex, PhraseEnd(lex, i + 1) + 1)
    requires m < |GroupFrom(lex, i).exact|
    ensures GroupFrom(lex, i).exact[m] == Between(lex, i, QuotesBefore(lex, i) + 2 * m + 1)
  {
    var j := PhraseEnd(lex, i + 1);
    GroupFromPhrase(lex, i);
    if m == 0 {
      FirstPhrase(lex, i, j, GroupFrom(lex, i).exact[0]);
    } else {
      LaterPhrase(lex, i, j, m - 1);
    }
  }

  /** The phrase opened at a Quote holds the lexemes with one Quote more before them. */
  lemma FirstPhrase(lex: seq<string>, i: nat, j: nat, p: seq<string>)
    requires i < |lex| && lex[i] == Quote && j == PhraseEnd(lex, i + 1) && p == lex[i + 1..j]
    ensures p == Between(lex, i, QuotesBefore(lex, i) + 1)
  {
    var t := QuotesBefore(lex, i);
    if j < |lex| {
      PhraseParity(lex, i, j);
      PastClosingQuote(lex, j);
    }
    PhraseStepBetween(lex, i, j, t + 1);
    BetweenPast(lex, j + 1, t + 1);
  }

  /** A phrase after the one opened at a Quote sits past that phrase's closing Quote. */
  lemma LaterPhrase(lex: seq<string>, i: nat, j: nat, m: nat)
    requires i < |lex| && lex[i] == Quote && j == PhraseEnd(lex, i + 1) && PhrasesFrom(lex, j + 1)
    requires m + 1 < |GroupFrom(lex, i).exact|
    ensures GroupFrom(lex, i).exact[m + 1] == Between(lex, i, QuotesBefore(lex, i) + 2 * (m + 1) + 1)
  {
    GroupFromPhrase(lex, i);
    var rest := GroupFrom(lex, j + 1).exact;
    assert GroupFrom(lex, i).exact[m + 1] == rest[m];
    assert j < |lex|;
    var p := rest[m];
    assert p == Between(lex, j + 1, QuotesBefore(lex, j + 1) + 2 * m + 1);
    PhraseParity(lex, i, j);
    PastClosingQuote(lex, j);
    PhraseStepBetween(lex, i, j, QuotesBefore(lex, i) + 2 * (m + 1) + 1);
  }

  /** A bare word adds no phrase and no lexeme to any phrase. */
  lemma PhrasesAfterWord(lex: seq<string>, i: nat)
    requires i < |lex| && lex[i] != Quote && QuotesBefore(lex, i) % 2 == 0 && PhrasesFrom(lex, i + 1)
    ensures PhrasesFrom(lex, i)
  {
    GroupFromWord(lex, i);
    var t := QuotesBefore(lex, i);
    var exact := GroupFrom(lex, i).exact;
    forall m | 0 <= m < |exact| ensures exact[m] == Between(lex, i, t + 2 * m + 1) {
      assert Between(lex, i, t + 2 * m + 1) == Between(lex, i + 1, t + 2 * m + 1);
    }
  }

  /** A word with an odd number of Quotes before it goes to Inside and adds nothing else. */
  lemma PhraseWord(lex: seq<string>, a: nat)
    requires a < |lex| && lex[a] != Quote && QuotesBefore(lex, a) % 2 == 1
    ensures Inside(lex, a) == [lex[a]] + Inside(lex, a + 1)
    ensures Outside(lex, a) == Outside(lex, a + 1) && QuotesFrom(lex, a) == QuotesFrom(lex, a + 1)
  {
  }

  lemma Prepend<T>(s: seq<T>, a: nat, j: nat)
    requires a < j <= |s|
    ensures s[a..j] == [s[a]] + s[a + 1..j]
  {
  }

  /** A whole phrase, from its opening Quote to past its closing one, in terms of the reference. */
  lemma PhraseStep(lex: seq<string>, i: nat, j: nat)
    requires i < |lex| && lex[i] == Quote && QuotesBefore(lex, i) % 2 == 0 && j == PhraseEnd(lex, i + 1)
    ensures Outside(lex, i) == Outside(lex, j + 1)
    ensures Inside(lex, i) == lex[i + 1..j] + Inside(lex, j + 1)
    ensures QuotesFrom(lex, i) == (if j < |lex| then 2 else 1) + QuotesFrom(lex, j + 1)
    ensures j < |lex| ==> QuotesBefore(lex, j + 1) % 2 == 0
  {
    PastClosingQuote(lex, i);
    PhraseWalk(lex, i, i + 1);
    if j < |lex| {
      PhraseParity(lex, i, j);
      PastClosingQuote(lex, j);
    } else {
      PastTheEnd(lex, j);
    }
  }

  /** From the end on there is nothing left to group. */
  lemma PastTheEnd(lex: seq<string>, j: nat)
    requires j >= |lex|
    ensures Outside(lex, j) == [] == Outside(lex, j + 1) && Inside(lex, j) == [] == Inside(lex, j + 1)
    ensures QuotesFrom(lex, j) == 0 == QuotesFrom(lex, j + 1)
  {
  }

  /** Past a Quote nothing is added to Outside or Inside. */
  lemma PastClosingQuote(lex: seq<string>, j: nat)
    requires j < |lex| && lex[j] == Quote
    ensures Outside(lex, j) == Outside(lex, j + 1) && Inside(lex, j) == Inside(lex, j + 1)
    ensures QuotesFrom(lex, j) == 1 + QuotesFrom(lex, j + 1) && QuotesBefore(lex, j + 1) == QuotesBefore(lex, j) + 1
  {
  }

  /** The grouping from a position outside any phrase means exactly the parity reference. */
  lemma {:induction false} GroupFromMeaning(lex: seq<string>, i: nat)
    requires i <= |lex| + 1 && (i <= |lex| ==> QuotesBefore(lex, i) % 2 == 0)
    ensures GroupFrom(lex, i).separate == Outside(lex, i)
    ensures Concat(GroupFrom(lex, i).exact) == Inside(lex, i)
    ensures |GroupFrom(lex, i).exact| == (QuotesFrom(lex, i) + 1) / 2
    ensures PhrasesFrom(lex, i)
    decreases |lex| + 1 - i
  {
    if i < |lex| {
      if lex[i] == Quote {
        var j := PhraseEnd(lex, i + 1);
        PhraseStep(lex, i, j);
        GroupFromMeaning(lex, j + 1);
        GroupFromPhrase(lex, i);
        ConcatCons(lex[i + 1..j], GroupFrom(lex, j + 1).exact);
        PhrasesAfterQuote(lex, i);
      } else {
        GroupFromMeaning(lex, i + 1);
        GroupFromWord(lex, i);
        OutsideWord(lex, i);
        PhrasesAfterWord(lex, i);
      }
    }
  }

  lemma ConcatCons(p: seq<string>, ps: seq<seq<string>>)
    ensures Concat([p] + ps) == p + Concat(ps)
  {
    assert ([p] + ps)[1..] == ps;
  }

  /** A word with an even number of Quotes before it goes to Outside and adds nothing else. */
  lemma OutsideWord(lex: seq<string>, a: nat)
    requires a < |lex| && lex[a] != Quote && QuotesBefore(lex, a) % 2 == 0
    ensures Outside(lex, a) == [lex[a]] + Outside(lex, a + 1)
    ensures Inside(lex, a) == Inside(lex, a + 1) && QuotesFrom(lex, a) == QuotesFrom(lex, a + 1)
    ensures QuotesBefore(lex, a + 1) == QuotesBefore(lex, a)
  {
  }

  /** Every lexeme is a Quote, a bare word or a phrase word: the grouping loses nothing. */
  lemma {:induction false} Partition(lex: seq<string>, i: nat)
    requires i <= |lex|
    ensures |Outside(lex, i)| + |Inside(lex, i)| + QuotesFrom(lex, i) == |lex| - i
    decreases |lex| - i
  {
    if i < |lex| {
      Partition(lex, i + 1);
    }
  }

  lemma {:induction false} QuotesFromCounts(lex: seq<string>, i: nat)
    requires i <= |lex|
    ensures QuotesFrom(lex, i) == QuoteCount(lex[i..])
    decreases |lex| - i
  {
    if i < |lex| {
      assert lex[i..][1..] == lex[i + 1..];
      QuotesFromCounts(lex, i + 1);
    }
  }

  /**
   * What parse_query returns: an error exactly for an empty lexeme list or an odd number of '"';
   * otherwise the bare words are the lexemes outside quote pairs, the phrases hold, in order, the
   * lexemes inside them, there is one phrase per pair, phrase m holds exactly the lexemes that
   * have 2m + 1 Quotes before them (those between the (2m)-th and the (2m+1)-th '"'), and no
   * lexeme is lost.
   */
  lemma ParsedQueryMeaning(line: string)
    ensures var lex, r := QueryLexemes(line), ParsedQuery(line);
      (r.Failure? <==> lex == [] || multiset(line)['"'] % 2 == 1) &&
      (r.Failure? && lex == [] ==> r.error == BadQuery("Empty query", line)) &&
      (r.Failure? && lex != [] ==> r.error == BadQuery("Expected closing quote", line)) &&
      (r.Success? ==>
        r.value.separate == Outside(lex, 0) &&
        Concat(r.value.exact) == Inside(lex, 0) &&
        |r.value.exact| == multiset(line)['"'] / 2 &&
        (forall m :: 0 <= m < |r.value.exact| ==> r.value.exact[m] == Between(lex, 0, 2 * m + 1)) &&
        |r.value.separate| + |Concat(r.value.exact)| + multiset(line)['"'] == |lex|)
  {
    var lex := QueryLexemes(line);
    QuoteLexemesCountQuotes(line);
    QuotesFromCounts(lex, 0);
    assert lex[0..] == lex;
    GroupFromMeaning(lex, 0);
    Partition(lex, 0);
  }

  /** A query with no '"' and no character outside separators and '_' is exactly the empty one. */
  lemma {:induction false} EmptyLexemes(s: string, p: nat)
    requires p <= |s|
    ensures LexemesFrom(s, p) == [] <==> forall k :: p <= k < |s| ==> s[k] != '"' && (IsSeparator(s[k]) || s[k] == '_')
    decreases |s| - p
  {
    if p < |s| {
      if IsSeparator(s[p]) {
        EmptyLexemes(s, p + 1);
      } else {
        var e := RunEnd(s, p);
        EmptyLexemes(s, e);
        var run := s[p..e];
        assert forall k :: p <= k < e ==> s[k] == run[k - p];
        if HasNonUnderscore(run) {
          var k :| 0 <= k < |run| && run[k] != '_';
          assert s[p + k] == run[k];
        }
      }
    }
  }

  /** parse_query reports "Empty query" exactly when the query has no '"' and nothing but separators and '_'. */
  lemma EmptyQueryIff(line: string)
    ensures ParsedQuery(line) == Failure(BadQuery("Empty query", line)) <==>
      forall k :: 0 <= k < |line| ==> line[k] != '"' && (IsSeparator(line[k]) || line[k] == '_')
  {
    EmptyLexemes(line, 0);
  }

  /** A query made of one word is that bare word and no phrase. */
  lemma SingleWordQuery(w: string)
    requires IsWord(w)
    ensures ParsedQuery(w) == Success(Query([w], []))
  {
    SingleWordLexemes(w);
    WordIsNotQuote(w);
    assert [w][1..] == [];
    assert QuoteCount([w]) == 0;
    assert GroupFrom([w], 1) == Query([], []);
    assert Group([w]) == Query([w] + [], []);
  }

  // ------------------------------------------------------------ the loops

  /** parse_query's grouping loop. */
  method GroupLexemes(lex: seq<string>) returns (q: Query)
    ensures q == Group(lex)
  {
    var separate: seq<string> := [];
    var exact: seq<seq<string>> := [];
    var i := 0;
    while i < |lex|
      invariant i <= |lex| + 1
      invariant separate + GroupFrom(lex, i).separate == Group(lex).separate
      invariant exact + GroupFrom(lex, i).exact == Group(lex).exact
      decreases |lex| + 1 - i
    {
      if lex[i] == Quote {
        var inner, j := ReadPhrase(lex, i + 1);
        GroupFromPhrase(lex, i);
        Regroup(exact, [inner], GroupFrom(lex, j + 1).exact);
        exact := exact + [inner];
        i := j + 1;
        continue;
      }
      GroupFromWord(lex, i);
      Regroup(separate, [lex[i]], GroupFrom(lex, i + 1).separate);
      separate := separate + [lex[i]];
      i := i + 1;
    }
    q := Query(separate, exact);
  }

  /** The inner loop of parse_query: the words of a phrase, up to the next Quote or the end. */
  method ReadPhrase(lex: seq<string>, start: nat) returns (inner: seq<string>, j: nat)
    requires start <= |lex|
    ensures j == PhraseEnd(lex, start) && inner == lex[start..j]
  {
    inner := [];
    j := start;
    while j < |lex| && lex[j] != Quote
      invariant start <= j <= |lex| && inner == lex[start..j]
      invariant PhraseEnd(lex, j) == PhraseEnd(lex, start)
    {
      inner := inner + [lex[j]];
      j := j + 1;
    }
  }

  lemma GroupFromPhrase(lex: seq<string>, i: nat)
    requires i < |lex| && lex[i] == Quote
    ensures var j := PhraseEnd(lex, i + 1);
      GroupFrom(lex, i).separate == GroupFrom(lex, j + 1).separate &&
      GroupFrom(lex, i).exact == [lex[i + 1..j]] + GroupFrom(lex, j + 1).exact
  {
  }

  lemma GroupFromWord(lex: seq<string>, i: nat)
    requires i < |lex| && lex[i] != Quote
    ensures GroupFrom(lex, i).separate == [lex[i]] + GroupFrom(lex, i + 1).separate
    ensures GroupFrom(lex, i).exact == GroupFrom(lex, i + 1).exact
  {
  }

  /** parse_query. */
  method ParseQuery(line: string) returns (r: Result<Query, BadQuery>)
    ensures r == ParsedQuery(line)
  {
    var lexemes, countQuotes := LexQuery(line);
    if |lexemes| == 0 {
      return Failure(BadQuery("Empty query", line));
    }
    if countQuotes % 2 == 1 {
      return Failure(BadQuery("Expected closing quote", line));
    }
    var q := GroupLexemes(lexemes);
    return Success(q);
  }
}
