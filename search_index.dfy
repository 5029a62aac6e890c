/**
 * The searcher's positional index: for every word, the files it occurs in and
 * the positions it occupies in each; and the set operations searches are made of.
 */
module SearchIndex {
  /** Positions of one word in one file (std::set<long long>). */
  type Entries = set<int>
  /** Files a word occurs in, with its positions there (std::map<Filename, Entries>). */
  type Info = map<string, Entries>
  /** The whole index: word to Info. */
  type Postings = map<string, Info>

  /** Word w occurs at position p of file f. */
  predicate Posting(idx: Postings, w: string, f: string, p: int)
  {
    w in idx && f in idx[w] && p in idx[w][f]
  }

  /** Index::find: a copy of the word's Info, or an empty one for an unknown word. */
  function Lookup(idx: Postings, w: string): (r: Info)
    ensures forall f, p :: f in r && p in r[f] <==> Posting(idx, w, f, p)
    ensures w !in idx ==> r == map[]
  {
    if w in idx then idx[w] else map[]
  }

  /** The entries of f in an Info, empty when f is absent (what std::map::operator[] reads). */
  function EntriesOf(info: Info, f: string): Entries
  {
    if f in info then info[f] else {}
  }

  /** index[word][filename].insert(position), with both levels created on demand. */
  function Inserted(idx: Postings, w: string, f: string, p: int): Postings
  {
    var info := Lookup(idx, w);
    idx[w := info[f := EntriesOf(info, f) + {p}]]
  }

  /** Inserting adds exactly the one posting, creates at most the one word, and leaves other words alone. */
  lemma InsertedMeaning(idx: Postings, w: string, f: string, p: int)
    ensures forall w', f', p' :: Posting(Inserted(idx, w, f, p), w', f', p') <==> Posting(idx, w', f', p') || (w', f', p') == (w, f, p)
    ensures Inserted(idx, w, f, p).Keys == idx.Keys + {w}
    ensures forall w' :: w' in idx && w' != w ==> Inserted(idx, w, f, p)[w'] == idx[w']
  {
    var r := Inserted(idx, w, f, p);
    forall w', f', p' ensures Posting(r, w', f', p') <==> Posting(idx, w', f', p') || (w', f', p') == (w, f, p) {
      if w' == w && f' == f {
        assert r[w][f] == EntriesOf(Lookup(idx, w), f) + {p};
      }
    }
  }

  /** The index with file f erased from every word's Info; the words themselves stay. */
  function Removed(idx: Postings, f: string): Postings
  {
    map w | w in idx :: idx[w] - {f}
  }

  /** Erasing a file removes exactly its postings and keeps every word as a key. */
  lemma RemovedMeaning(idx: Postings, f: string)
    ensures forall w, g, p :: Posting(Removed(idx, f), w, g, p) <==> Posting(idx, w, g, p) && g != f
    ensures Removed(idx, f).Keys == idx.Keys
  {
  }

  /** Index::find_all's result: the Info of each query word in order, leaving out the words with none. */
  function FoundAll(idx: Postings, qs: seq<string>): seq<Info>
  {
    if qs == [] then []
    else
      var found := Lookup(idx, qs[|qs| - 1]);
      FoundAll(idx, qs[..|qs| - 1]) + (if found != map[] then [found] else [])
  }

  /**
   * Every Info find_all returns is non-empty and belongs to one of the words, and it returns one
   * per word, in order, exactly when every word is known.
   */
  lemma FoundAllMeaning(idx: Postings, qs: seq<string>)
    ensures var r := FoundAll(idx, qs);
      |r| <= |qs| &&
      (forall k :: 0 <= k < |r| ==> r[k] != map[] && exists i :: 0 <= i < |qs| && r[k] == Lookup(idx, qs[i])) &&
      (|r| == |qs| <==> forall i :: 0 <= i < |qs| ==> Lookup(idx, qs[i]) != map[]) &&
      (|r| == |qs| ==> forall i :: 0 <= i < |qs| ==> r[i] == Lookup(idx, qs[i]))
  {
    FoundAllAmong(idx, qs);
    FoundAllFull(idx, qs);
    FoundAllKnownFull(idx, qs);
  }

  /** One step of find_all: the Info of the last word, if it has one, comes last. */
  lemma FoundAllLast(idx: Postings, qs: seq<string>)
    requires qs != []
    ensures var n := |qs| - 1; var found := Lookup(idx, qs[n]);
      FoundAll(idx, qs) == FoundAll(idx, qs[..n]) + (if found != map[] then [found] else [])
  {
  }

  /** Every Info find_all returns is non-empty and is the Info of one of the words. */
  lemma {:induction false} FoundAllAmong(idx: Postings, qs: seq<string>)
    ensures var r := FoundAll(idx, qs);
      |r| <= |qs| &&
      forall k :: 0 <= k < |r| ==> r[k] != map[] && exists i :: 0 <= i < |qs| && r[k] == Lookup(idx, qs[i])
    decreases |qs|
  {
    if qs != [] {
      var n := |qs| - 1;
      var front := qs[..n];
      FoundAllAmong(idx, front);
      FoundAllLast(idx, qs);
      var r := FoundAll(idx, qs);
      var r0 := FoundAll(idx, front);
      forall k | 0 <= k < |r| ensures r[k] != map[] && exists i :: 0 <= i < |qs| && r[k] == Lookup(idx, qs[i]) {
        if k < |r0| {
          var i :| 0 <= i < |front| && r0[k] == Lookup(idx, front[i]);
          assert r[k] == r0[k] && front[i] == qs[i];
        } else {
          assert r[k] == Lookup(idx, qs[n]);
        }
      }
    }
  }

  /** When find_all returns one Info per word, each is that word's, so every word is known. */
  lemma {:induction false} FoundAllFull(idx: Postings, qs: seq<string>)
    ensures var r := FoundAll(idx, qs);
      |r| == |qs| ==> forall i :: 0 <= i < |qs| ==> r[i] == Lookup(idx, qs[i]) && r[i] != map[]
    decreases |qs|
  {
    var r := FoundAll(idx, qs);
    if qs != [] && |r| == |qs| {
      var n := |qs| - 1;
      var front := qs[..n];
      var r0 := FoundAll(idx, front);
      FoundAllFull(idx, front);
      FoundAllAmong(idx, front);
      FoundAllLast(idx, qs);
      assert |r0| == n && r == r0 + [Lookup(idx, qs[n])];
      forall i | 0 <= i < |qs| ensures r[i] == Lookup(idx, qs[i]) && r[i] != map[] {
        if i < n {
          assert front[i] == qs[i] && r[i] == r0[i];
        }
      }
    }
  }

  /** When every word is known, find_all returns one Info per word. */
  lemma {:induction false} FoundAllKnownFull(idx: Postings, qs: seq<string>)
    ensures (forall i :: 0 <= i < |qs| ==> Lookup(idx, qs[i]) != map[]) ==> |FoundAll(idx, qs)| == |qs|
    decreases |qs|
  {
    if qs != [] && forall i :: 0 <= i < |qs| ==> Lookup(idx, qs[i]) != map[] {
      var n := |qs| - 1;
      var front := qs[..n];
      assert forall i :: 0 <= i < |front| ==> Lookup(idx, front[i]) != map[] by {
        forall i | 0 <= i < |front| ensures Lookup(idx, front[i]) != map[] {
          assert front[i] == qs[i];
        }
      }
      FoundAllKnownFull(idx, front);
      FoundAllLast(idx, qs);
      assert Lookup(idx, qs[n]) != map[];
    }
  }

  /** Every known word's Info is among those find_all returns. */
  lemma {:induction false} FoundAllKnown(idx: Postings, qs: seq<string>)
    ensures forall i :: 0 <= i < |qs| && Lookup(idx, qs[i]) != map[] ==> Lookup(idx, qs[i]) in FoundAll(idx, qs)
    decreases |qs|
  {
    if qs != [] {
      var n := |qs| - 1;
      FoundAllKnown(idx, qs[..n]);
      forall i | 0 <= i < |qs| && Lookup(idx, qs[i]) != map[] ensures Lookup(idx, qs[i]) in FoundAll(idx, qs) {
        if i < n {
          assert qs[..n][i] == qs[i];
        }
      }
    }
  }

  /** The positional index (Searcher::Index). */
  class Index {
    var index: Postings
    /** The files recorded as indexed, which add_document consults to replace a document. */
    var files: set<string>

    constructor()
      ensures index == map[] && files == {}
    {
      index := map[];
      files := {};
    }

    /**
     * Records that word occurs at position of filename. As in the source, files is left
     * untouched, so no file is ever recorded as indexed (see InvertedIndex.AsWrittenKeepsStalePostings).
     */
    method Insert(word: string, filename: string, position: int)
      modifies this
      ensures index == Inserted(old(index), word, filename, position)
      ensures files == old(files)
    {
      var info := if word in index then index[word] else map[];
      var entries := if filename in info then info[filename] else {};
      index := index[word := info[filename := entries + {position}]];
    }

    /**
     * The evidently intended insert: records the posting and records filename as indexed,
     * so that add_document can find and replace an earlier document of that name.
     */
    method RecordingInsert(word: string, filename: string, position: int)
      modifies this
      ensures index == Inserted(old(index), word, filename, position)
      ensures files == old(files) + {filename}
    {
      Insert(word, filename, position);
      files := files + {filename};
    }

    /** Erases filename from every word's Info (one word at a time) and from files. */
    method Remove(filename: string)
      modifies this
      ensures index == Removed(old(index), filename)
      ensures files == old(files) - {filename}
    {
      ghost var original := index;
      var pending := index.Keys;
      while pending != {}
        invariant pending <= original.Keys && index.Keys == original.Keys && files == old(files)
        invariant forall w :: w in index ==> index[w] == if w in pending then original[w] else original[w] - {filename}
        decreases pending
      {
        var w :| w in pending;
        index := index[w := index[w] - {filename}];
        pending := pending - {w};
      }
      files := files - {filename};
    }

    function Find(word: string): (r: Info)
      reads this
      ensures forall f, p :: f in r && p in r[f] <==> Posting(index, word, f, p)
    {
      Lookup(index, word)
    }

    function ContainsFile(filename: string): (r: bool)
      reads this
      ensures r <==> filename in files
    {
      filename in files
    }

    /** find_all: the non-empty Infos of the query words, in query order. */
    method FindAll(queries: seq<string>) returns (r: seq<Info>)
      ensures r == FoundAll(index, queries)
    {
      r := [];
      var i := 0;
      while i < |queries|
        invariant i <= |queries| && r == FoundAll(index, queries[..i])
      {
        var found := Find(queries[i]);
        assert queries[..i + 1][..i] == queries[..i];
        if found != map[] {
          r := r + [found];
        }
        i := i + 1;
      }
      assert queries[..|queries|] == queries;
    }
  }

  // ------------------------------------------------------------ set operations

  /** intersection: empty for no Infos, else the files present in every one. */
  function Common(infos: seq<Info>): set<string>
  {
    if |infos| == 0 then {}
    else if |infos| == 1 then infos[0].Keys
    else Common(infos[..|infos| - 1]) * infos[|infos| - 1].Keys
  }

  lemma {:induction false} CommonMeaning(infos: seq<Info>)
    ensures forall f :: f in Common(infos) <==> |infos| > 0 && forall i :: 0 <= i < |infos| ==> f in infos[i]
    decreases |infos|
  {
    if |infos| > 1 {
      var front := infos[..|infos| - 1];
      CommonMeaning(front);
      assert forall i :: 0 <= i < |front| ==> front[i] == infos[i];
    }
  }

  /** to_filename_set: the file names of an Info. */
  method ToFilenameSet(info: Info) returns (r: set<string>)
    ensures r == info.Keys
  {
    r := {};
    var pending := info.Keys;
    while pending != {}
      invariant pending <= info.Keys && r == info.Keys - pending
      decreases pending
    {
      var f :| f in pending;
      r := r + {f};
      pending := pending - {f};
    }
  }

  /** intersection. */
  method Intersection(infos: seq<Info>) returns (r: set<string>)
    ensures r == Common(infos)
  {
    if |infos| == 0 {
      return {};
    }
    r := ToFilenameSet(infos[0]);
    var i := 1;
    while i < |infos|
      invariant 1 <= i <= |infos| && r == Common(infos[..i])
    {
      var next := ToFilenameSet(infos[i]);
      assert infos[..i + 1][..i] == infos[..i];
      r := r * next;
      i := i + 1;
    }
    assert infos[..|infos|] == infos;
  }

  /** Every position moved one place on. */
  function Shift(entries: Entries): (r: Entries)
    ensures forall q :: q in r <==> q - 1 in entries
  {
    set e | e in entries :: e + 1
  }

  /** increment. */
  method Increment(entries: Entries) returns (r: Entries)
    ensures r == Shift(entries)
  {
    r := {};
    var pending := entries;
    while pending != {}
      invariant pending <= entries
      invariant forall q :: q in r <==> q - 1 in entries - pending
      decreases pending
    {
      var e :| e in pending;
      r := r + {e + 1};
      pending := pending - {e};
    }
  }

  // ------------------------------------------------------------ phrases

  /**
   * search_phrase's candidate positions after the first k words in file f: each position one
   * past a run where word i sits at its i-th place.
   */
  function Candidates(infos: seq<Info>, f: string, k: nat): Entries
    requires 1 <= k <= |infos|
  {
    if k == 1 then Shift(EntriesOf(infos[0], f))
    else Shift(Candidates(infos, f, k - 1) * EntriesOf(infos[k - 1], f))
  }

  /** Word i of the first k sits at start + i of file f. */
  predicate RunFrom(infos: seq<Info>, f: string, k: nat, start: int)
    requires k <= |infos|
  {
    forall i :: 0 <= i < k ==> start + i in EntriesOf(infos[i], f)
  }

  /** q survives k words exactly when the k words sit at consecutive positions ending just before q. */
  lemma {:induction false} CandidatesMeaning(infos: seq<Info>, f: string, k: nat, q: int)
    requires 1 <= k <= |infos|
    ensures q in Candidates(infos, f, k) <==> RunFrom(infos, f, k, q - k)
  {
    var s := q - k;
    if k > 1 {
      CandidatesMeaning(infos, f, k - 1, q - 1);
      assert q in Candidates(infos, f, k) <==> q - 1 in Candidates(infos, f, k - 1) && q - 1 in EntriesOf(infos[k - 1], f);
      assert RunFrom(infos, f, k, s) <==> RunFrom(infos, f, k - 1, s) && s + (k - 1) in EntriesOf(infos[k - 1], f);
    } else {
      assert RunFrom(infos, f, 1, s) <==> s + 0 in EntriesOf(infos[0], f);
    }
  }

  /** The loop over the common files of search_phrase: the files with a surviving candidate. */
  function PhraseFiles(infos: seq<Info>): set<string>
  {
    if |infos| == 0 then {}
    else set f | f in Common(infos) && Candidates(infos, f, |infos|) != {}
  }

  /** search_phrase, on the index: no files when a word is unknown, else PhraseFiles. */
  function Phrase(idx: Postings, ws: seq<string>): set<string>
  {
    var infos := FoundAll(idx, ws);
    if |infos| != |ws| then {} else PhraseFiles(infos)
  }

  /** The words of ws sit at positions p, p + 1, ... of file f. */
  predicate PhraseAt(idx: Postings, ws: seq<string>, f: string, p: int)
  {
    forall i :: 0 <= i < |ws| ==> Posting(idx, ws[i], f, p + i)
  }

  lemma PhraseFound(idx: Postings, ws: seq<string>, f: string)
    requires f in Phrase(idx, ws)
    ensures |ws| > 0 && exists p :: PhraseAt(idx, ws, f, p)
  {
    var infos := FoundAll(idx, ws);
    FoundAllMeaning(idx, ws);
    assert |infos| == |ws| && |ws| > 0;
    var q :| q in Candidates(infos, f, |ws|);
    var p := q - |ws|;
    CandidatesMeaning(infos, f, |ws|, q);
    forall i | 0 <= i < |ws| ensures Posting(idx, ws[i], f, p + i) {
      assert p + i in EntriesOf(infos[i], f);
      assert infos[i] == Lookup(idx, ws[i]);
    }
    assert PhraseAt(idx, ws, f, p);
  }

  lemma PhraseMatched(idx: Postings, ws: seq<string>, f: string, p: int)
    requires |ws| > 0 && PhraseAt(idx, ws, f, p)
    ensures f in Phrase(idx, ws)
  {
    var infos := FoundAll(idx, ws);
    FoundAllMeaning(idx, ws);
    assert forall i :: 0 <= i < |ws| ==> Lookup(idx, ws[i]) != map[] by {
      forall i | 0 <= i < |ws| ensures f in Lookup(idx, ws[i]) {
        assert Posting(idx, ws[i], f, p + i);
      }
    }
    assert |infos| == |ws|;
    assert RunFrom(infos, f, |ws|, p) by {
      forall i | 0 <= i < |ws| ensures p + i in EntriesOf(infos[i], f) {
        assert infos[i] == Lookup(idx, ws[i]);
        assert Posting(idx, ws[i], f, p + i);
      }
    }
    assert f in Common(infos) by {
      CommonMeaning(infos);
      forall i | 0 <= i < |infos| ensures f in infos[i] {
        assert p + i in EntriesOf(infos[i], f);
      }
    }
    CandidatesMeaning(infos, f, |ws|, p + |ws|);
    assert p + |ws| - |ws| == p;
  }

  /** search_phrase finds exactly the files in which the phrase's words sit at consecutive positions. */
  lemma PhraseMeaning(idx: Postings, ws: seq<string>, f: string)
    ensures f in Phrase(idx, ws) <==> PhraseMatch(idx, ws, f)
  {
    if f in Phrase(idx, ws) {
      PhraseFound(idx, ws, f);
    }
    if |ws| > 0 && exists p :: PhraseAt(idx, ws, f, p) {
      var p :| PhraseAt(idx, ws, f, p);
      PhraseMatched(idx, ws, f, p);
    }
  }

  /** A word the index has an Info for (a non-empty one). */
  predicate Known(idx: Postings, w: string)
  {
    Lookup(idx, w) != map[]
  }

  /** File f matches the bare words: some word is known, and f has every known word. */
  predicate BareMatch(idx: Postings, ws: seq<string>, f: string)
  {
    (exists i :: 0 <= i < |ws| && Known(idx, ws[i])) &&
    forall i :: 0 <= i < |ws| && Known(idx, ws[i]) ==> f in Lookup(idx, ws[i])
  }

  /**
   * intersection(find_all(ws)): the files holding every known word; unknown words are skipped,
   * and when no word is known there are no files.
   */
  lemma BareMeaning(idx: Postings, ws: seq<string>, f: string)
    ensures f in Common(FoundAll(idx, ws)) <==> BareMatch(idx, ws, f)
  {
    var r := FoundAll(idx, ws);
    FoundAllMeaning(idx, ws);
    FoundAllKnown(idx, ws);
    CommonMeaning(r);
    if f in Common(r) {
      var i :| 0 <= i < |ws| && r[0] == Lookup(idx, ws[i]);
      assert Known(idx, ws[i]);
      forall i | 0 <= i < |ws| && Known(idx, ws[i]) ensures f in Lookup(idx, ws[i]) {
        var k :| 0 <= k < |r| && r[k] == Lookup(idx, ws[i]);
      }
    }
    if BareMatch(idx, ws, f) {
      var i :| 0 <= i < |ws| && Known(idx, ws[i]);
      assert Lookup(idx, ws[i]) in r;
      forall k | 0 <= k < |r| ensures f in r[k] {
        var j :| 0 <= j < |ws| && r[k] == Lookup(idx, ws[j]);
        assert Known(idx, ws[j]);
      }
    }
  }

  /** File f matches a phrase: the phrase has words and they sit at consecutive positions of f. */
  ghost predicate PhraseMatch(idx: Postings, ws: seq<string>, f: string)
  {
    |ws| > 0 && exists p :: PhraseAt(idx, ws, f, p)
  }
}
