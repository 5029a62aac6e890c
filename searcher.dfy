/**
 * The searcher: documents are indexed word by word at consecutive positions,
 * queries are answered from the index, and a result is walked by a pair of
 * iterators over a sorted snapshot of the matching file names.
 */
module InvertedIndex {
  import opened Wrappers
  import opened Lex
  import opened SearchText
  import opened SearchQuery
  import opened SearchIndex

  // ------------------------------------------------------------ documents

  /** The words of a document, line after line. */
  function DocWords(lines: seq<string>): seq<string>
  {
    if lines == [] then [] else DocWords(lines[..|lines| - 1]) + Tokens(lines[|lines| - 1])
  }

  /** The index after inserting the words ws for file f at positions 0, 1, ... */
  function AddWords(idx: Postings, f: string, ws: seq<string>): Postings
  {
    if ws == [] then idx else Inserted(AddWords(idx, f, ws[..|ws| - 1]), ws[|ws| - 1], f, |ws| - 1)
  }

  /** Adding ws gives f exactly the postings (ws[p], p) on top of what was there. */
  lemma {:induction false} AddWordsMeaning(idx: Postings, f: string, ws: seq<string>)
    ensures forall w, g, p :: Posting(AddWords(idx, f, ws), w, g, p) <==> Posting(idx, w, g, p) || (g == f && 0 <= p < |ws| && ws[p] == w)
    decreases |ws|
  {
    if ws != [] {
      var n := |ws| - 1;
      AddWordsMeaning(idx, f, ws[..n]);
      InsertedMeaning(AddWords(idx, f, ws[..n]), ws[n], f, n);
      forall w, g, p ensures Posting(AddWords(idx, f, ws), w, g, p) <==> Posting(idx, w, g, p) || (g == f && 0 <= p < |ws| && ws[p] == w) {
        if 0 <= p < n {
          assert ws[..n][p] == ws[p];
        }
      }
    }
  }

  lemma DocWordsStep(lines: seq<string>, l: nat)
    requires l < |lines|
    ensures DocWords(lines[..l + 1]) == DocWords(lines[..l]) + Tokens(lines[l])
  {
    assert lines[..l + 1][..l] == lines[..l];
  }

  lemma AddWordsStep(idx: Postings, f: string, done: seq<string>, words: seq<string>, k: nat)
    requires k < |words|
    ensures AddWords(idx, f, done + words[..k + 1]) == Inserted(AddWords(idx, f, done + words[..k]), words[k], f, |done| + k)
  {
    var ws := done + words[..k + 1];
    assert ws[..|ws| - 1] == done + words[..k];
  }

  /**
   * Every file that has a posting is recorded as indexed: the invariant the intended design
   * keeps (with SearchIndex.Index.RecordingInsert); the source as written never records a file.
   */
  ghost predicate Recorded(idx: Postings, files: set<string>)
  {
    forall w, g, p :: Posting(idx, w, g, p) ==> g in files
  }

  /** add_document on the index: remove f when it is recorded, then add the document's words. */
  function Replaced(idx: Postings, files: set<string>, f: string, lines: seq<string>): Postings
  {
    AddWords(if f in files then Removed(idx, f) else idx, f, DocWords(lines))
  }

  /**
   * The recorded files after the intended add_document: f is dropped, and recorded again when
   * the document has words.
   */
  function ReplacedFiles(files: set<string>, f: string, lines: seq<string>): set<string>
  {
    (files - {f}) + (if DocWords(lines) == [] then {} else {f})
  }

  /**
   * The intended add_document replaces a document: afterwards f has exactly the document's words
   * at their positions, every other file keeps its postings, and every file with a posting stays
   * recorded.
   */
  lemma ReplacedMeaning(idx: Postings, files: set<string>, f: string, lines: seq<string>)
    requires Recorded(idx, files)
    ensures var r, ws := Replaced(idx, files, f, lines), DocWords(lines);
      (forall w, p :: Posting(r, w, f, p) <==> 0 <= p < |ws| && ws[p] == w) &&
      (forall w, g, p :: g != f ==> (Posting(r, w, g, p) <==> Posting(idx, w, g, p))) &&
      Recorded(r, ReplacedFiles(files, f, lines))
  {
    var base := if f in files then Removed(idx, f) else idx;
    RemovedMeaning(idx, f);
    AddWordsMeaning(base, f, DocWords(lines));
    assert forall w, p :: !Posting(base, w, f, p);
    assert forall w, g, p :: g != f ==> (Posting(base, w, g, p) <==> Posting(idx, w, g, p));
  }

  /**
   * add_document as written, on the index and the recorded files: f is removed first when it is
   * recorded, its words are added, and insert records nothing, so files only loses f.
   */
  function AsWrittenAdd(idx: Postings, files: set<string>, f: string, lines: seq<string>): (Postings, set<string>)
  {
    (Replaced(idx, files, f, lines), files - {f})
  }

  /**
   * Since no file is ever recorded, add_document as written only adds: f gains the document's
   * words at their positions on top of the postings it already had, and files stays empty.
   */
  lemma AsWrittenAddMeaning(idx: Postings, f: string, lines: seq<string>)
    ensures var r, ws := AsWrittenAdd(idx, {}, f, lines), DocWords(lines);
      r.1 == {} &&
      forall w, g, p :: Posting(r.0, w, g, p) <==> Posting(idx, w, g, p) || (g == f && 0 <= p < |ws| && ws[p] == w)
  {
    AddWordsMeaning(idx, f, DocWords(lines));
  }

  // ------------------------------------------------------------ searches

  /** The files matching every phrase of a non-empty list (the loop of search over exact queries). */
  function AllPhrases(idx: Postings, ps: seq<seq<string>>): set<string>
    requires |ps| >= 1
  {
    if |ps| == 1 then Phrase(idx, ps[0]) else AllPhrases(idx, ps[..|ps| - 1]) * Phrase(idx, ps[|ps| - 1])
  }

  lemma {:induction false} AllPhrasesMeaning(idx: Postings, ps: seq<seq<string>>, f: string)
    requires |ps| >= 1
    ensures f in AllPhrases(idx, ps) <==> forall m :: 0 <= m < |ps| ==> f in Phrase(idx, ps[m])
    decreases |ps|
  {
    if |ps| > 1 {
      var n := |ps| - 1;
      AllPhrasesMeaning(idx, ps[..n], f);
      assert forall m :: 0 <= m < n ==> ps[..n][m] == ps[m];
    }
  }

  /**
   * search: a syntax error as parse_query reports it; otherwise with no phrase the bare-word files,
   * and with phrases the files matching them all, narrowed by the bare-word files when there are any.
   */
  function SearchResult(idx: Postings, query: string): Result<set<string>, BadQuery>
  {
    var parsed := ParsedQuery(query);
    if parsed.Failure? then Failure(parsed.error)
    else
      var q := parsed.value;
      var separate := Common(FoundAll(idx, q.separate));
      if q.exact == [] then Success(separate)
      else
        var exact := AllPhrases(idx, q.exact);
        Success(if separate != {} then exact * separate else exact)
  }

  /**
   * What a well-formed query finds, file by file: with no phrase, the files that have every known
   * bare word (and none when no bare word is known); with phrases, the files matching every phrase
   * and, if some file has all known bare words, having them too.
   */
  lemma SearchMeaning(idx: Postings, query: string, f: string)
    requires ParsedQuery(query).Success?
    ensures var q, r := ParsedQuery(query).value, SearchResult(idx, query);
      r.Success? &&
      (q.exact == [] ==> (f in r.value <==> BareMatch(idx, q.separate, f))) &&
      (q.exact != [] ==> (f in r.value <==>
        (forall m :: 0 <= m < |q.exact| ==> PhraseMatch(idx, q.exact[m], f)) &&
        ((exists g :: BareMatch(idx, q.separate, g)) ==> BareMatch(idx, q.separate, f))))
  {
    var q := ParsedQuery(query).value;
    var separate := Common(FoundAll(idx, q.separate));
    BareMeaning(idx, q.separate, f);
    if q.exact != [] {
      AllPhrasesMeaning(idx, q.exact, f);
      forall m | 0 <= m < |q.exact| ensures f in Phrase(idx, q.exact[m]) <==> PhraseMatch(idx, q.exact[m], f) {
        PhraseMeaning(idx, q.exact[m], f);
      }
      if separate != {} {
        var g :| g in separate;
        BareMeaning(idx, q.separate, g);
      }
      if exists g :: BareMatch(idx, q.separate, g) {
        var g :| BareMatch(idx, q.separate, g);
        BareMeaning(idx, q.separate, g);
      }
    }
  }

  /** A one-word query finds exactly the files the word occurs in. */
  lemma SearchSingleWord(idx: Postings, w: string)
    requires IsWord(w)
    ensures SearchResult(idx, w) == Success(Lookup(idx, w).Keys)
  {
    SingleWordQuery(w);
    assert [w][..0] == [];
    var found := Lookup(idx, w);
    if found != map[] {
      assert FoundAll(idx, [w]) == [found];
      assert Common([found]) == found.Keys;
    } else {
      assert FoundAll(idx, [w]) == [];
      assert found.Keys == {};
    }
  }

  // ------------------------------------------------------------ the result order

  /** Strictly ascending under std::string's operator<, hence without repeats. */
  predicate Ascending(r: seq<string>)
  {
    forall a, b :: 0 <= a < b < |r| ==> StrLess(r[a], r[b])
  }

  /** r lists the set s in ascending order, as iterating a std::set<std::string> does. */
  predicate IsListing(r: seq<string>, s: set<string>)
  {
    Ascending(r) && (forall x :: x in r ==> x in s) && (forall x :: x in s ==> x in r)
  }

  function InsertSorted(r: seq<string>, x: string): seq<string>
  {
    if r == [] then [x] else if StrLess(x, r[0]) then [x] + r else [r[0]] + InsertSorted(r[1..], x)
  }

  lemma AscendingTail(r: seq<string>)
    requires Ascending(r) && r != []
    ensures Ascending(r[1..]) && r[0] !in r[1..]
  {
    assert forall a :: 0 <= a < |r| - 1 ==> r[1..][a] == r[a + 1];
    if r[0] in r[1..] {
      var k :| 0 <= k < |r| - 1 && r[1..][k] == r[0];
      assert StrLess(r[0], r[k + 1]);
      assert IsStrictTotalOrder(CharLess);
      LexIrreflexive(CharLess, r[0]);
    }
  }

  /** Inserting a new name keeps a listing ascending and adds exactly that name. */
  lemma {:induction false} InsertSortedListing(r: seq<string>, x: string)
    requires Ascending(r) && x !in r
    ensures Ascending(InsertSorted(r, x)) && forall y :: y in InsertSorted(r, x) <==> y in r || y == x
    decreases |r|
  {
    assert IsStrictTotalOrder(CharLess);
    if r != [] {
      if StrLess(x, r[0]) {
        var s := [x] + r;
        forall a, b | 0 <= a < b < |s| ensures StrLess(s[a], s[b]) {
          if a == 0 && b > 1 {
            LexTransitive(CharLess, x, r[0], r[b - 1]);
          }
        }
      } else {
        LexTotal(CharLess, x, r[0]);
        AscendingTail(r);
        InsertSortedListing(r[1..], x);
        var t := InsertSorted(r[1..], x);
        var s := [r[0]] + t;
        forall a, b | 0 <= a < b < |s| ensures StrLess(s[a], s[b]) {
          if a == 0 {
            assert s[b] in t;
            if s[b] != x {
              var k :| 0 <= k < |r| - 1 && r[1..][k] == s[b];
              assert r[k + 1] == s[b];
            }
          } else {
            assert s[a] == t[a - 1] && s[b] == t[b - 1];
          }
        }
      }
    }
  }

  /** The names of a result set in the order its iterators visit them. */
  method SortedListing(s: set<string>) returns (r: seq<string>)
    ensures IsListing(r, s)
  {
    r := [];
    var pending := s;
    while pending != {}
      invariant pending <= s && Ascending(r)
      invariant forall x :: x in r <==> x in s - pending
      decreases pending
    {
      var x :| x in pending;
      InsertSortedListing(r, x);
      r := InsertSorted(r, x);
      pending := pending - {x};
    }
  }

  /** A listing has one entry per name: std::distance(begin, end) is the size of the result. */
  lemma {:induction false} ListingSize(r: seq<string>, s: set<string>)
    requires IsListing(r, s)
    ensures |r| == |s|
    decreases |r|
  {
    if r == [] {
      assert forall x :: x !in s;
      assert s == {};
    } else {
      AscendingTail(r);
      var rest := s - {r[0]};
      assert forall x :: x in r[1..] <==> x in rest by {
        assert forall x :: x in r <==> x == r[0] || x in r[1..] by {
          assert r == [r[0]] + r[1..];
        }
      }
      ListingSize(r[1..], rest);
      assert r[0] in s;
    }
  }

  // ------------------------------------------------------------ iterators

  /** Searcher::DocIterator: a position in a result snapshot shared with its partner iterator. */
  class DocIterator {
    /** The result names in ascending order; later changes to the index do not reach them. */
    const files: seq<string>
    var ptr: int

    constructor(files: seq<string>, ptr: int)
      ensures this.files == files && this.ptr == ptr
    {
      this.files := files;
      this.ptr := ptr;
    }

    /** operator==, comparing positions: over one listing, equal exactly when both are at the end or both show the same name. */
    predicate Equals(other: DocIterator)
      reads this, other
      ensures files == other.files && Ascending(files) && 0 <= ptr <= |files| && 0 <= other.ptr <= |files| ==>
        (Equals(other) <==>
          (ptr == |files| && other.ptr == |files|) ||
          (ptr < |files| && other.ptr < |files| && files[ptr] == files[other.ptr]))
    {
      if files == other.files && Ascending(files) && 0 <= ptr < |files| && 0 <= other.ptr < |files| && ptr != other.ptr then
        assert IsStrictTotalOrder(CharLess);
        var (a, b) := if ptr < other.ptr then (ptr, other.ptr) else (other.ptr, ptr);
        assert StrLess(files[a], files[b]);
        LexIrreflexive(CharLess, files[a]);
        false
      else
        ptr == other.ptr
    }

    /** operator*: the name at the current position. */
    function Deref(): (r: string)
      reads this
      requires 0 <= ptr < |files|
      ensures r in files
    {
      files[ptr]
    }

    /** Prefix ++: the next name. */
    method Next()
      modifies this
      requires 0 <= ptr < |files|
      ensures ptr == old(ptr) + 1
    {
      ptr := ptr + 1;
    }

    /** Postfix ++: a copy at the old position, and this one moves on. */
    method PostNext() returns (prior: DocIterator)
      modifies this
      requires 0 <= ptr < |files|
      ensures fresh(prior) && prior.files == files && prior.ptr == old(ptr) && ptr == old(ptr) + 1
    {
      prior := new DocIterator(files, ptr);
      ptr := ptr + 1;
    }

    /** Prefix --: the previous name. */
    method Prev()
      modifies this
      requires 0 < ptr <= |files|
      ensures ptr == old(ptr) - 1
    {
      ptr := ptr - 1;
    }

    /** Postfix --: a copy at the old position, and this one moves back. */
    method PostPrev() returns (prior: DocIterator)
      modifies this
      requires 0 < ptr <= |files|
      ensures fresh(prior) && prior.files == files && prior.ptr == old(ptr) && ptr == old(ptr) - 1
    {
      prior := new DocIterator(files, ptr);
      ptr := ptr - 1;
    }
  }

  // ------------------------------------------------------------ the searcher

  class Searcher {
    const idx: Index

    /** insert never records a file and remove only erases one, so the recorded files stay empty. */
    ghost predicate Valid()
      reads this, idx
    {
      idx.files == {}
    }

    constructor()
      ensures fresh(idx) && idx.index == map[] && idx.files == {} && Valid()
    {
      idx := new Index();
    }

    /**
     * add_document over a stream given as its lines, as written: a recorded filename is removed
     * first and its words are then inserted; since no file is ever recorded, from a valid state
     * nothing is removed and the words are added to whatever filename already had.
     */
    method AddDocument(filename: string, lines: seq<string>)
      modifies idx
      ensures (idx.index, idx.files) == AsWrittenAdd(old(idx.index), old(idx.files), filename, lines)
      ensures old(Valid()) ==> Valid() && idx.index == AddWords(old(idx.index), filename, DocWords(lines))
    {
      if idx.ContainsFile(filename) {
        idx.Remove(filename);
      }
      ghost var base := idx.index;
      var position := 0;
      var l := 0;
      while l < |lines|
        invariant l <= |lines| && position == |DocWords(lines[..l])|
        invariant idx.index == AddWords(base, filename, DocWords(lines[..l]))
        invariant idx.files == old(idx.files) - {filename}
      {
        var words := ParseDocument(lines[l]);
        InsertWords(filename, words, position, base, DocWords(lines[..l]));
        position := position + |words|;
        DocWordsStep(lines, l);
        l := l + 1;
      }
      assert lines[..l] == lines;
    }

    /** The inner loop of add_document: one line's words at the positions that follow. */
    method InsertWords(filename: string, words: seq<string>, position: int, ghost base: Postings, ghost done: seq<string>)
      requires idx.index == AddWords(base, filename, done) && position == |done|
      modifies idx
      ensures idx.index == AddWords(base, filename, done + words)
      ensures idx.files == old(idx.files)
    {
      var k := 0;
      var p := position;
      assert done + words[..0] == done;
      while k < |words|
        invariant k <= |words| && p == |done| + k
        invariant idx.index == AddWords(base, filename, done + words[..k])
        invariant idx.files == old(idx.files)
      {
        AddWordsStep(base, filename, done, words, k);
        idx.Insert(words[k], filename, p);
        p := p + 1;
        k := k + 1;
      }
      assert words[..k] == words;
    }

    /** remove_document. */
    method RemoveDocument(filename: string)
      modifies idx
      ensures idx.index == Removed(old(idx.index), filename)
      ensures idx.files == old(idx.files) - {filename}
      ensures old(Valid()) ==> Valid()
    {
      idx.Remove(filename);
    }

    /** The candidate loop of search_phrase for one file. */
    static method FileCandidates(infos: seq<Info>, file: string) returns (candidates: Entries)
      requires |infos| >= 1
      ensures candidates == Candidates(infos, file, |infos|)
    {
      candidates := Increment(EntriesOf(infos[0], file));
      var i := 1;
      while i < |infos|
        invariant 1 <= i <= |infos| && candidates == Candidates(infos, file, i)
      {
        candidates := Increment(candidates * EntriesOf(infos[i], file));
        i := i + 1;
      }
    }

    /** search_phrase. */
    method SearchPhrase(query: seq<string>) returns (r: set<string>)
      ensures r == Phrase(idx.index, query)
    {
      var wordsInfo := idx.FindAll(query);
      if |wordsInfo| != |query| {
        return {};
      }
      var files := Intersection(wordsInfo);
      if files == {} {
        assert PhraseFiles(wordsInfo) == {};
        return {};
      }
      assert |wordsInfo| >= 1;
      r := {};
      var pending := files;
      while pending != {}
        invariant pending <= files
        invariant forall g :: g in r <==> g in files - pending && Candidates(wordsInfo, g, |wordsInfo|) != {}
        decreases pending
      {
        var file :| file in pending;
        var candidates := FileCandidates(wordsInfo, file);
        if candidates != {} {
          r := r + {file};
        }
        pending := pending - {file};
      }
      assert forall g :: g in r <==> g in PhraseFiles(wordsInfo);
    }

    /** search, up to building the iterators: the set of matching files or the syntax error. */
    method SearchFiles(query: string) returns (r: Result<set<string>, BadQuery>)
      ensures r == SearchResult(idx.index, query)
    {
      var parsed := ParseQuery(query);
      if parsed.Failure? {
        return Failure(parsed.error);
      }
      var q := parsed.value;
      var found := idx.FindAll(q.separate);
      var separateFiles := Intersection(found);
      if |q.exact| == 0 {
        return Success(separateFiles);
      }
      var exactFiles := SearchPhrase(q.exact[0]);
      var i := 1;
      while i < |q.exact|
        invariant 1 <= i <= |q.exact| && exactFiles == AllPhrases(idx.index, q.exact[..i])
      {
        assert q.exact[..i + 1][..i] == q.exact[..i];
        var more := SearchPhrase(q.exact[i]);
        exactFiles := exactFiles * more;
        i := i + 1;
      }
      assert q.exact[..i] == q.exact;
      if separateFiles != {} {
        exactFiles := exactFiles * separateFiles;
      }
      return Success(exactFiles);
    }

    /** search: begin and end iterators over a fresh snapshot of the result, names in ascending order. */
    method Search(query: string) returns (r: Result<(DocIterator, DocIterator), BadQuery>)
      ensures var s := SearchResult(idx.index, query);
        (s.Failure? ==> r == Failure(s.error)) &&
        (s.Success? ==>
          r.Success? && fresh(r.value.0) && fresh(r.value.1) &&
          r.value.0.files == r.value.1.files && IsListing(r.value.0.files, s.value) &&
          r.value.0.ptr == 0 && r.value.1.ptr == |r.value.0.files|)
    {
      var found := SearchFiles(query);
      if found.Failure? {
        return Failure(found.error);
      }
      var listing := SortedListing(found.value);
      var begin := new DocIterator(listing, 0);
      var end := new DocIterator(listing, |listing|);
      return Success((begin, end));
    }
  }

  // ------------------------------------------------------------ scenarios

  /** A one-line document of one word is that word. */
  lemma OneWordDocument(w: string)
    requires IsWord(w)
    ensures DocWords([w]) == [w]
  {
    SingleWordLexemes(w);
    assert [w][..0] == [];
  }

  /** Indexing the one word w for f in an index gives f the posting (w, 0) and nothing else changes. */
  lemma OneWordAdded(idx: Postings, f: string, w: string)
    ensures AddWords(idx, f, [w]) == Inserted(idx, w, f, 0)
  {
    assert [w][..0] == [];
  }

  /** A fresh index of one word maps it to the one file at position 0. */
  lemma FreshOneWord(f: string, w: string)
    ensures Inserted(map[], w, f, 0) == map[w := map[f := {0}]]
  {
    assert Lookup(map[], w) == map[];
    assert EntriesOf(map[], f) + {0} == {0};
    var info: Info := map[];
    assert info[f := {0}] == map[f := {0}];
    var idx: Postings := map[];
    assert idx[w := map[f := {0}]] == map[w := map[f := {0}]];
  }

  /**
   * As written, indexing file f with the text x and then again with the text y leaves the posting
   * of x behind, so a search for x still finds f: insert never records the file, so files stays
   * empty and add_document never removes the old text.
   */
  lemma AsWrittenKeepsStalePostings(f: string, x: string, y: string)
    requires IsWord(x) && IsWord(y)
    ensures var first := AsWrittenAdd(map[], {}, f, [x]);
      var second := AsWrittenAdd(first.0, first.1, f, [y]);
      second.1 == {} && SearchResult(second.0, x).Success? && f in SearchResult(second.0, x).value
  {
    OneWordDocument(x);
    OneWordDocument(y);
    var i1 := AddWords(map[], f, [x]);
    var i2 := AddWords(i1, f, [y]);
    AddWordsMeaning(map[], f, [x]);
    AddWordsMeaning(i1, f, [y]);
    assert Posting(i2, x, f, 0);
    SearchSingleWord(i2, x);
  }

  /**
   * With the intended recording insert, indexing f with x and then with y replaces x: a search
   * for x finds nothing.
   */
  lemma ReplacingForgetsOldWords(f: string, x: string, y: string)
    requires IsWord(x) && IsWord(y) && x != y
    ensures var i1 := Replaced(map[], {}, f, [x]);
      SearchResult(Replaced(i1, ReplacedFiles({}, f, [x]), f, [y]), x) == Success({})
  {
    OneWordDocument(x);
    OneWordDocument(y);
    var i1 := Replaced(map[], {}, f, [x]);
    OneWordAdded(map[], f, x);
    FreshOneWord(f, x);
    assert i1 == map[x := map[f := {0}]];
    assert ReplacedFiles({}, f, [x]) == {f};
    var i2 := Inserted(Removed(i1, f), y, f, 0);
    OneWordAdded(Removed(i1, f), f, y);
    assert Replaced(i1, {f}, f, [y]) == i2;
    assert Removed(i1, f)[x] == map[];
    InsertedMeaning(Removed(i1, f), y, f, 0);
    assert Lookup(i2, x).Keys == {};
    SearchSingleWord(i2, x);
  }

  /** Searching a freshly indexed one-word document for that word finds exactly the document. */
  lemma OneWordFound(f: string, w: string)
    requires IsWord(w)
    ensures SearchResult(AddWords(map[], f, DocWords([w])), w) == Success({f})
  {
    OneWordDocument(w);
    var i1 := AddWords(map[], f, DocWords([w]));
    OneWordAdded(map[], f, w);
    FreshOneWord(f, w);
    assert i1 == map[w := map[f := {0}]];
    assert Lookup(i1, w).Keys == {f};
    SearchSingleWord(i1, w);
  }

  lemma SingletonWord()
    ensures IsWord("a_single_word")
  {
    var w := "a_single_word";
    assert w[0] != '_';
    forall k | 0 <= k < |w| ensures !IsSeparator(w[k]) {
      assert w[k] == '_' || 'a' <= w[k] <= 'z';
    }
  }

  /** The first half of main.cpp: index file f holding the one word w, then search for that word. */
  method SingletonSearch(f: string, w: string) returns (s: Searcher, begin: DocIterator, end: DocIterator)
    requires IsWord(w)
    ensures fresh(s) && fresh(s.idx) && fresh(begin) && fresh(end) && s.Valid()
    ensures begin.files == end.files == [f] && begin.ptr == 0 && end.ptr == 1
  {
    s := new Searcher();
    s.AddDocument(f, [w]);
    OneWordFound(f, w);
    var r := s.Search(w);
    begin, end := r.value.0, r.value.1;
    ListingSize(begin.files, {f});
    assert begin.files[0] in {f};
  }

  /**
   * The program in main.cpp: searching for the single word of a.txt and re-adding a.txt at every
   * step of the iteration still shows exactly a.txt, one name in all, since the iterators hold
   * their own copy of the listing.
   */
  method SingletonScenario() returns (shown: seq<string>, distance: int)
    ensures shown == ["a.txt"] && distance == 1
  {
    SingletonWord();
    var s, begin, end := SingletonSearch("a.txt", "a_single_word");
    var begin2 := new DocIterator(begin.files, begin.ptr);
    assert Ascending(begin.files);
    shown := [];
    while !begin.Equals(end)
      invariant begin.files == end.files == ["a.txt"] && Ascending(begin.files)
      invariant 0 <= begin.ptr <= 1 && end.ptr == 1 && begin2.ptr == 0
      invariant shown == ["a.txt"][..begin.ptr]
      invariant s.Valid()
      decreases 1 - begin.ptr
    {
      s.AddDocument("a.txt", []);
      shown := shown + [begin.Deref()];
      var _ := begin.PostNext();
    }
    distance := end.ptr - begin2.ptr;
    s.AddDocument("a.txt", []);
  }
}
