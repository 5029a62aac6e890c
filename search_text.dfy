/**
 * The searcher's character classes and scanners: documents are split into
 * maximal runs of non-separator characters, runs made only of underscores
 * are dropped, and a query additionally keeps each double quote it meets
 * as a lexeme of its own.
 */
module SearchText {
  /** std::isspace in the "C" locale: space, tab, newline, vertical tab, form feed, carriage return. */
  predicate IsSpace(c: char)
  {
    c == ' ' || '\t' <= c <= '\r'
  }

  /** std::ispunct in the "C" locale: printable ASCII that is neither a letter, a digit nor space. */
  predicate IsPunct(c: char)
  {
    ('!' <= c <= '/') || (':' <= c <= '@') || ('[' <= c <= '`') || ('{' <= c <= '~')
  }

  /** is_separator: white space, or punctuation other than the underscore. */
  predicate IsSeparator(c: char)
  {
    IsSpace(c) || (IsPunct(c) && c != '_')
  }

  /** A run take_word keeps: some character is not an underscore. */
  predicate HasNonUnderscore(s: string)
  {
    exists k :: 0 <= k < |s| && s[k] != '_'
  }

  predicate NoSeparator(s: string)
  {
    forall k :: 0 <= k < |s| ==> !IsSeparator(s[k])
  }

  /** What the scanners can produce as a word: a non-empty run free of separators, not all underscores. */
  predicate IsWord(w: string)
  {
    NoSeparator(w) && HasNonUnderscore(w)
  }

  /** The end of the run of non-separator characters that starts at p. */
  function RunEnd(s: string, p: nat): (e: nat)
    requires p <= |s|
    ensures p <= e <= |s|
    ensures forall k :: p <= k < e ==> !IsSeparator(s[k])
    ensures e < |s| ==> IsSeparator(s[e])
    decreases |s| - p
  {
    if p == |s| || IsSeparator(s[p]) then p else RunEnd(s, p + 1)
  }

  /** The run, as a list of zero or one words. */
  function Kept(run: string): seq<string>
  {
    if HasNonUnderscore(run) then [run] else []
  }

  /** parse_document from position p on: the runs between separators, in order, without the all-underscore ones. */
  function TokensFrom(s: string, p: nat): seq<string>
    requires p <= |s|
    decreases |s| - p
  {
    if p == |s| then []
    else if IsSeparator(s[p]) then TokensFrom(s, p + 1)
    else
      var e := RunEnd(s, p);
      Kept(s[p..e]) + TokensFrom(s, e)
  }

  function Tokens(s: string): seq<string>
  {
    TokensFrom(s, 0)
  }

  const Quote: string := "\""

  /** The lexemes parse_query collects from position p on: the runs as in a document, and a Quote for each '"' in between. */
  function LexemesFrom(s: string, p: nat): seq<string>
    requires p <= |s|
    decreases |s| - p
  {
    if p == |s| then []
    else if IsSeparator(s[p]) then (if s[p] == '"' then [Quote] else []) + LexemesFrom(s, p + 1)
    else
      var e := RunEnd(s, p);
      Kept(s[p..e]) + LexemesFrom(s, e)
  }

  function QueryLexemes(s: string): seq<string>
  {
    LexemesFrom(s, 0)
  }

  /** The number of '"' characters in s from position p on. */
  function QuoteCharsFrom(s: string, p: nat): nat
    requires p <= |s|
    decreases |s| - p
  {
    if p == |s| then 0 else (if s[p] == '"' then 1 else 0) + QuoteCharsFrom(s, p + 1)
  }

  /** The number of Quote lexemes in a list. */
  function QuoteCount(lex: seq<string>): nat
  {
    if lex == [] then 0 else (if lex[0] == Quote then 1 else 0) + QuoteCount(lex[1..])
  }

  // ------------------------------------------------------------ properties

  lemma RunHasNoSeparator(s: string, p: nat)
    requires p <= |s|
    ensures NoSeparator(s[p..RunEnd(s, p)])
  {
    var e := RunEnd(s, p);
    assert forall k :: 0 <= k < e - p ==> s[p..e][k] == s[p + k];
  }

  lemma {:induction false} TokensFromAreWords(s: string, p: nat)
    requires p <= |s|
    ensures forall w :: w in TokensFrom(s, p) ==> IsWord(w)
    decreases |s| - p
  {
    if p < |s| {
      if IsSeparator(s[p]) {
        TokensFromAreWords(s, p + 1);
      } else {
        RunHasNoSeparator(s, p);
        TokensFromAreWords(s, RunEnd(s, p));
      }
    }
  }

  /** Every word parse_document yields is a non-empty separator-free run with a character other than '_'. */
  lemma TokensAreWords(s: string)
    ensures forall w :: w in Tokens(s) ==> IsWord(w)
  {
    TokensFromAreWords(s, 0);
  }

  lemma {:induction false} LexemesFromAreWordsOrQuotes(s: string, p: nat)
    requires p <= |s|
    ensures forall w :: w in LexemesFrom(s, p) ==> w == Quote || IsWord(w)
    decreases |s| - p
  {
    if p < |s| {
      if IsSeparator(s[p]) {
        LexemesFromAreWordsOrQuotes(s, p + 1);
      } else {
        RunHasNoSeparator(s, p);
        LexemesFromAreWordsOrQuotes(s, RunEnd(s, p));
      }
    }
  }

  /** Each lexeme of a query is a Quote or a word as in a document. */
  lemma QueryLexemesAreWordsOrQuotes(s: string)
    ensures forall w :: w in QueryLexemes(s) ==> w == Quote || IsWord(w)
  {
    LexemesFromAreWordsOrQuotes(s, 0);
  }

  /** A word is never the Quote lexeme: '"' is a separator. */
  lemma WordIsNotQuote(w: string)
    requires IsWord(w)
    ensures w != Quote
  {
    assert !NoSeparator(Quote) by {
      assert IsSeparator(Quote[0]);
    }
  }

  lemma {:induction false} QuoteCountAppend(a: seq<string>, b: seq<string>)
    ensures QuoteCount(a + b) == QuoteCount(a) + QuoteCount(b)
    decreases |a|
  {
    if a == [] {
      assert a + b == b;
    } else {
      assert (a + b)[1..] == a[1..] + b;
      QuoteCountAppend(a[1..], b);
    }
  }

  /** A run holds no '"', since '"' is a separator. */
  lemma {:induction false} RunHasNoQuotes(s: string, p: nat, e: nat)
    requires p <= e <= |s| && forall k :: p <= k < e ==> !IsSeparator(s[k])
    ensures QuoteCharsFrom(s, p) == QuoteCharsFrom(s, e)
    decreases e - p
  {
    if p < e {
      RunHasNoQuotes(s, p + 1, e);
    }
  }

  lemma {:induction false} LexemeQuotesFrom(s: string, p: nat)
    requires p <= |s|
    ensures QuoteCount(LexemesFrom(s, p)) == QuoteCharsFrom(s, p)
    decreases |s| - p
  {
    if p < |s| {
      if IsSeparator(s[p]) {
        LexemeQuotesFrom(s, p + 1);
        QuoteCountAppend(if s[p] == '"' then [Quote] else [], LexemesFrom(s, p + 1));
      } else {
        var e := RunEnd(s, p);
        LexemeQuotesFrom(s, e);
        QuoteCountAppend(Kept(s[p..e]), LexemesFrom(s, e));
        RunHasNoQuotes(s, p, e);
        if HasNonUnderscore(s[p..e]) {
          RunHasNoSeparator(s, p);
          WordIsNotQuote(s[p..e]);
        }
      }
    }
  }

  lemma {:induction false} QuoteCharsCountsQuotes(s: string, p: nat)
    requires p <= |s|
    ensures QuoteCharsFrom(s, p) == multiset(s[p..])['"']
    decreases |s| - p
  {
    if p < |s| {
      assert s[p..] == [s[p]] + s[p + 1..];
      QuoteCharsCountsQuotes(s, p + 1);
    }
  }

  /** parse_query's count_quotes, the number of Quote lexemes, is the number of '"' characters in the query. */
  lemma QuoteLexemesCountQuotes(s: string)
    ensures QuoteCount(QueryLexemes(s)) == multiset(s)['"']
  {
    LexemeQuotesFrom(s, 0);
    QuoteCharsCountsQuotes(s, 0);
    assert s[0..] == s;
  }

  /** A run of non-separators from p to e that ends at a separator or at the end is what RunEnd finds. */
  lemma {:induction false} RunEndIs(s: string, p: nat, e: nat)
    requires p <= e <= |s| && (forall k :: p <= k < e ==> !IsSeparator(s[k]))
    requires e == |s| || IsSeparator(s[e])
    ensures RunEnd(s, p) == e
    decreases e - p
  {
    if p < e {
      RunEndIs(s, p + 1, e);
    }
  }

  /** The run at |a| + p of a + b is the run at p of b, moved by |a|. */
  lemma RunShift(a: string, b: string, p: nat)
    requires p < |b| && !IsSeparator(b[p])
    ensures RunEnd(a + b, |a| + p) == |a| + RunEnd(b, p)
    ensures (a + b)[|a| + p..|a| + RunEnd(b, p)] == b[p..RunEnd(b, p)]
  {
    var s, e := a + b, RunEnd(b, p);
    forall k | |a| + p <= k < |a| + e ensures !IsSeparator(s[k]) {
      assert s[k] == b[k - |a|];
    }
    if e < |b| {
      assert s[|a| + e] == b[e];
    }
    RunEndIs(s, |a| + p, |a| + e);
    assert s[|a| + p..|a| + e] == b[p..e];
  }

  /** Scanning the second half of a + b is scanning b. */
  lemma {:induction false} TokensFromShift(a: string, b: string, p: nat)
    requires p <= |b|
    ensures TokensFrom(a + b, |a| + p) == TokensFrom(b, p)
    decreases |b| - p
  {
    if p < |b| {
      assert (a + b)[|a| + p] == b[p];
      if IsSeparator(b[p]) {
        TokensAtSeparator(a + b, |a| + p);
        TokensAtSeparator(b, p);
        TokensFromShift(a, b, p + 1);
      } else {
        RunShift(a, b, p);
        TokensAtRun(a + b, |a| + p);
        TokensAtRun(b, p);
        TokensFromShift(a, b, RunEnd(b, p));
      }
    }
  }

  lemma TokensAtSeparator(s: string, p: nat)
    requires p < |s| && IsSeparator(s[p])
    ensures TokensFrom(s, p) == TokensFrom(s, p + 1)
  {
  }

  lemma TokensAtRun(s: string, p: nat)
    requires p < |s| && !IsSeparator(s[p])
    ensures TokensFrom(s, p) == Kept(s[p..RunEnd(s, p)]) + TokensFrom(s, RunEnd(s, p))
  {
  }

  /** The words joined by single spaces. */
  function Joined(ws: seq<string>): string
  {
    if ws == [] then [] else ws[0] + " " + Joined(ws[1..])
  }

  /** parse_document is a left inverse of joining words with spaces. */
  lemma {:induction false} TokensOfJoined(ws: seq<string>)
    requires forall w :: w in ws ==> IsWord(w)
    ensures Tokens(Joined(ws)) == ws
    decreases |ws|
  {
    if ws != [] {
      var w := ws[0];
      assert w in ws;
      var tail := [' '] + Joined(ws[1..]);
      var s := w + tail;
      assert s == Joined(ws);
      assert |w| > 0 && !IsSeparator(s[0]) by {
        var k :| 0 <= k < |w| && w[k] != '_';
        assert s[0] == w[0];
      }
      forall k | 0 <= k < |w| ensures !IsSeparator(s[k]) {
        assert s[k] == w[k];
      }
      assert s[|w|] == ' ';
      RunEndIs(s, 0, |w|);
      assert s[0..|w|] == w;
      TokensFromShift(w, tail, 0);
      TokensFromShift([' '], Joined(ws[1..]), 0);
      assert TokensFrom(tail, 0) == TokensFrom(tail, 1);
      TokensOfJoined(ws[1..]);
    }
  }

  /** A query that is a single word has exactly that word as its lexemes. */
  lemma SingleWordLexemes(w: string)
    requires IsWord(w)
    ensures QueryLexemes(w) == [w] && Tokens(w) == [w]
  {
    var k :| 0 <= k < |w| && w[k] != '_';
    assert !IsSeparator(w[0]);
    RunEndIs(w, 0, |w|);
    assert w[0..|w|] == w;
    assert Kept(w) == [w];
    assert LexemesFrom(w, 0) == Kept(w[0..|w|]) + LexemesFrom(w, |w|);
    assert TokensFrom(w, 0) == Kept(w[0..|w|]) + TokensFrom(w, |w|);
  }

  // ------------------------------------------------------------ scanners

  lemma KeepsNonUnderscore(line: string, start: nat, p: nat)
    requires start <= p < |line|
    ensures HasNonUnderscore(line[start..p + 1]) <==> HasNonUnderscore(line[start..p]) || line[p] != '_'
  {
    var run := line[start..p + 1];
    assert run == line[start..p] + [line[p]];
    if HasNonUnderscore(run) {
      var k :| 0 <= k < |run| && run[k] != '_';
      if k < p - start {
        assert line[start..p][k] == run[k];
      }
    }
    if HasNonUnderscore(line[start..p]) {
      var k :| 0 <= k < p - start && line[start..p][k] != '_';
      assert run[k] == line[start..p][k];
    }
    if line[p] != '_' {
      assert run[p - start] == line[p];
    }
  }

  /** The step of parse_document's loop that takes a word keeps what remains to be scanned in step. */
  lemma TokensTake(line: string, p: nat, before: seq<string>, all: seq<string>)
    requires p < |line| && !IsSeparator(line[p]) && before + TokensFrom(line, p) == all
    ensures var e := RunEnd(line, p); (before + Kept(line[p..e])) + TokensFrom(line, e) == all
  {
    var e := RunEnd(line, p);
    var kept, after := Kept(line[p..e]), TokensFrom(line, e);
    assert TokensFrom(line, p) == kept + after;
    assert (before + kept) + after == before + (kept + after);
  }

  /** The same for parse_query's loop; the kept run is never a Quote, so count_quotes stays. */
  lemma LexemesTake(line: string, p: nat, before: seq<string>, all: seq<string>)
    requires p < |line| && !IsSeparator(line[p]) && before + LexemesFrom(line, p) == all
    ensures var e := RunEnd(line, p); (before + Kept(line[p..e])) + LexemesFrom(line, e) == all
    ensures var e := RunEnd(line, p); QuoteCount(before + Kept(line[p..e])) == QuoteCount(before)
  {
    var e := RunEnd(line, p);
    var kept, after := Kept(line[p..e]), LexemesFrom(line, e);
    LexemesFromRun(line, p);
    Regroup(before, kept, after);
    QuoteCountAppend(before, kept);
    RunNoQuote(line, p);
  }

  /** Concatenation regrouped. */
  lemma Regroup<T>(a: seq<T>, b: seq<T>, c: seq<T>)
    ensures a + (b + c) == (a + b) + c
  {
  }

  /** Unfolding LexemesFrom at the start of a run. */
  lemma LexemesFromRun(line: string, p: nat)
    requires p < |line| && !IsSeparator(line[p])
    ensures LexemesFrom(line, p) == Kept(line[p..RunEnd(line, p)]) + LexemesFrom(line, RunEnd(line, p))
  {
  }

  /** A kept run is a word, never a Quote. */
  lemma RunNoQuote(line: string, p: nat)
    requires p <= |line|
    ensures QuoteCount(Kept(line[p..RunEnd(line, p)])) == 0
  {
    var e := RunEnd(line, p);
    if HasNonUnderscore(line[p..e]) {
      RunHasNoSeparator(line, p);
      WordIsNotQuote(line[p..e]);
      assert Kept(line[p..e]) == [line[p..e]];
      assert Kept(line[p..e])[1..] == [];
    }
  }

  /** take_word at a non-separator position: advance to the end of the run and keep it unless it is all underscores. */
  method TakeWord(words: seq<string>, line: string, position: nat) returns (words': seq<string>, position': nat)
    requires position < |line| && !IsSeparator(line[position])
    ensures position' == RunEnd(line, position)
    ensures words' == words + Kept(line[position..position'])
  {
    var start := position;
    var p := position;
    var wasChar := false;
    while p < |line| && !IsSeparator(line[p])
      invariant start <= p <= |line| && RunEnd(line, p) == RunEnd(line, start)
      invariant wasChar <==> HasNonUnderscore(line[start..p])
    {
      KeepsNonUnderscore(line, start, p);
      wasChar := wasChar || line[p] != '_';
      p := p + 1;
    }
    position' := p;
    if wasChar {
      words' := words + [line[start..p]];
    } else {
      words' := words;
    }
  }

  /** parse_document. */
  method ParseDocument(line: string) returns (words: seq<string>)
    ensures words == Tokens(line)
  {
    words := [];
    var position := 0;
    while position < |line|
      invariant position <= |line| && words + TokensFrom(line, position) == Tokens(line)
      decreases |line| - position
    {
      while position < |line| && IsSeparator(line[position])
        invariant position <= |line| && words + TokensFrom(line, position) == Tokens(line)
      {
        position := position + 1;
      }
      if position >= |line| {
        break;
      }
      TokensTake(line, position, words, Tokens(line));
      words, position := TakeWord(words, line, position);
    }
  }

  /** parse_query's inner loop over separators: a Quote lexeme for every '"', counted in count_quotes. */
  method SkipSeparators(line: string, lexemes: seq<string>, countQuotes: nat, position: nat)
    returns (lexemes': seq<string>, countQuotes': nat, position': nat)
    requires position <= |line| && lexemes + LexemesFrom(line, position) == QueryLexemes(line)
    requires countQuotes == QuoteCount(lexemes)
    ensures position <= position' <= |line| && lexemes' + LexemesFrom(line, position') == QueryLexemes(line)
    ensures countQuotes' == QuoteCount(lexemes')
    ensures position' == |line| || !IsSeparator(line[position'])
  {
    lexemes', countQuotes', position' := lexemes, countQuotes, position;
    while position' < |line| && IsSeparator(line[position'])
      invariant position <= position' <= |line| && lexemes' + LexemesFrom(line, position') == QueryLexemes(line)
      invariant countQuotes' == QuoteCount(lexemes')
    {
      SeparatorStep(line, lexemes', position');
      if line[position'] == '"' {
        lexemes' := lexemes' + [Quote];
        countQuotes' := countQuotes' + 1;
      }
      position' := position' + 1;
    }
  }

  /** Unfolding LexemesFrom at a separator. */
  lemma SeparatorStep(line: string, lexemes: seq<string>, p: nat)
    requires p < |line| && IsSeparator(line[p])
    ensures line[p] == '"' ==> lexemes + LexemesFrom(line, p) == (lexemes + [Quote]) + LexemesFrom(line, p + 1)
    ensures line[p] == '"' ==> QuoteCount(lexemes + [Quote]) == QuoteCount(lexemes) + 1
    ensures line[p] != '"' ==> LexemesFrom(line, p) == LexemesFrom(line, p + 1)
  {
    var q := if line[p] == '"' then [Quote] else [];
    assert LexemesFrom(line, p) == q + LexemesFrom(line, p + 1);
    Regroup(lexemes, q, LexemesFrom(line, p + 1));
    QuoteCountAppend(lexemes, [Quote]);
    assert [Quote][1..] == [];
  }

  /** The lexing loop of parse_query: the lexemes in order and count_quotes, the number of Quote lexemes. */
  method LexQuery(line: string) returns (lexemes: seq<string>, countQuotes: nat)
    ensures lexemes == QueryLexemes(line)
    ensures countQuotes == QuoteCount(lexemes)
  {
    lexemes := [];
    countQuotes := 0;
    var position := 0;
    while position < |line|
      invariant position <= |line| && lexemes + LexemesFrom(line, position) == QueryLexemes(line)
      invariant countQuotes == QuoteCount(lexemes)
      decreases |line| - position
    {
      lexemes, countQuotes, position := SkipSeparators(line, lexemes, countQuotes, position);
      if position >= |line| {
        break;
      }
      LexemesTake(line, position, lexemes, QueryLexemes(line));
      lexemes, position := TakeWord(lexemes, line, position);
    }
  }
}
