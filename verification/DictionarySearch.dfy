/** A search over a list of sound dictionaries from end to end: find the words, then fetch their articles. */
module DictionarySearch {
  import opened Bytes
  import opened CFiles
  import opened IndexRecords
  import opened IndexSearch
  import opened ChunkFile
  import opened GzipHeader
  import opened FlatText
  import opened Articles
  import opened TinyDict
  import opened DictionaryLists
  import Crc

  // ---- what a search is meant to find ----

  /** For each dictionary with a matching record, in order: which dictionary, and all matching records of its index. */
  function PlainSearch(cs: seq<DictionaryContent>, prefix: seq<byte>, exact: bool): seq<(nat, seq<Word>)> {
    if cs == [] then []
    else
      var n := |cs| - 1;
      var words := Filter(Records(cs[n].index, 0, 0), prefix, exact);
      PlainSearch(cs[..n], prefix, exact) + if words != [] then [(n, words)] else []
  }

  /** The answers are, in the order of the dictionaries, one for each of them with a record whose word fits, and an answer's
      words are exactly those records, in the order of the file. */
  ghost predicate FindsAll(cs: seq<DictionaryContent>, answers: seq<(nat, seq<Word>)>, fits: seq<byte> -> bool) {
    && (forall j, k :: 0 <= j < k < |answers| ==> answers[j].0 < answers[k].0)
    && (forall k :: 0 <= k < |answers| ==>
          && answers[k].0 < |cs| && answers[k].1 != [] && InOrder(answers[k].1)
          && forall w :: w in answers[k].1 <==> w in Records(cs[answers[k].0].index, 0, 0) && fits(w.word))
    && (forall i, w :: 0 <= i < |cs| && w in Records(cs[i].index, 0, 0) && fits(w.word) ==> HasAnswer(answers, i))
  }

  ghost predicate HasAnswer(answers: seq<(nat, seq<Word>)>, i: nat) {
    exists k :: 0 <= k < |answers| && answers[k].0 == i
  }

  /** A plain search finds all words that are the key, or that start with it. */
  lemma {:induction false} PlainFindsAll(cs: seq<DictionaryContent>, key: seq<byte>, exact: bool,
                                         fits: seq<byte> -> bool)
    requires forall word :: fits(word) <==> if exact then word == key else StartsWith(word, key)
    ensures FindsAll(cs, PlainSearch(cs, key, exact), fits)
    decreases |cs|
  {
    hide Records, Filter, InOrder, StartsWith;
    if cs != [] {
      var n := |cs| - 1;
      var ws := Records(cs[n].index, 0, 0);
      PlainFindsAll(cs[..n], key, exact, fits);
      RecordsInOrder(cs[n].index);
      FilterKeeps(ws, key, exact);
      OneMore(cs, n, PlainSearch(cs[..n], key, exact), Filter(ws, key, exact), fits);
    }
  }

  lemma RecordsInOrder(data: seq<byte>)
    ensures InOrder(Records(data, 0, 0))
  {
    hide Records;
    var ws := Records(data, 0, 0);
    forall i | 0 <= i < |ws| ensures ws[i].index == i {
      RecordPlaces(data, 0, 0, i);
    }
  }

  lemma OneMore(cs: seq<DictionaryContent>, n: nat, front: seq<(nat, seq<Word>)>, words: seq<Word>,
                fits: seq<byte> -> bool)
    requires n + 1 == |cs| && FindsAll(cs[..n], front, fits) && InOrder(words)
    requires forall w :: w in words <==> w in Records(cs[n].index, 0, 0) && fits(w.word)
    ensures FindsAll(cs, front + if words != [] then [(n, words)] else [], fits)
  {
    hide Records, InOrder;
    var answers := front + if words != [] then [(n, words)] else [];
    forall i, w | 0 <= i < |cs| && w in Records(cs[i].index, 0, 0) && fits(w.word) ensures HasAnswer(answers, i) {
      if i < n {
        assert cs[..n][i] == cs[i] && HasAnswer(front, i);
        var k :| 0 <= k < |front| && front[k].0 == i;
        assert answers[k].0 == i;
      } else {
        assert w in words && answers[|front|].0 == i;
      }
    }
  }

  /** Well-formed dictionaries: each index is strictly increasing and has proper numbers. */
  predicate Increasing(cs: seq<DictionaryContent>) {
    forall i :: 0 <= i < |cs| ==> StrictlyIncreasing(Records(cs[i].index, 0, 0)) && !EndsUndefined(cs[i].index, 0)
  }

  predicate OverrunsAt(cs: seq<DictionaryContent>, prefix: seq<byte>, i: nat)
    requires i < |cs|
  {
    KeyOverruns(Samples(Records(cs[i].index, 0, 0)), prefix)
  }

  /** The key leaves the sample array of some index. */
  predicate SomeOverrun(cs: seq<DictionaryContent>, prefix: seq<byte>) {
    exists i :: 0 <= i < |cs| && OverrunsAt(cs, prefix, i)
  }

  /** What one lookup comes to in a well-formed dictionary. */
  function Outcome(index: seq<byte>, prefix: seq<byte>, exact: bool): Lookup {
    var ws := Records(index, 0, 0);
    if ws == [] then Failed
    else if KeyOverruns(Samples(ws), prefix) then OutOfArray
    else Found(Filter(ws, prefix, exact))
  }

  lemma {:induction false} AnswersArePlain(ls: seq<Lookup>, cs: seq<DictionaryContent>, prefix: seq<byte>, exact: bool)
    requires |ls| == |cs| && forall i :: 0 <= i < |cs| ==> ls[i] == Outcome(cs[i].index, prefix, exact)
    requires !SomeOverrun(cs, prefix)
    ensures Answers(ls) == PlainSearch(cs, prefix, exact)
    decreases |ls|
  {
    hide Records, Filter, Samples, KeyOverruns;
    if ls != [] {
      var n := |ls| - 1;
      forall i | 0 <= i < n ensures !OverrunsAt(cs[..n], prefix, i) {
        assert !OverrunsAt(cs, prefix, i);
      }
      AnswersArePlain(ls[..n], cs[..n], prefix, exact);
      assert !OverrunsAt(cs, prefix, n);
      EmptyFilter(prefix, exact);
    }
  }

  /** In a sound list of well-formed dictionaries, the lookups leave an array exactly when the key overruns some samples;
      otherwise the answers are those of the plain search of all index files. */
  lemma ListFinds(dicts: TinyDictionaryList, prefix: seq<byte>, options: nat)
    requires dicts.Sound() && Increasing(dicts.Contents())
    ensures dicts.Valid()
    ensures var ls, cs := dicts.LookupsOf(prefix, options), dicts.Contents();
            && ((exists i :: 0 <= i < |dicts.list| && ls[i].OutOfArray?) <==> SomeOverrun(cs, prefix))
            && (!SomeOverrun(cs, prefix) ==> Answers(ls) == PlainSearch(cs, prefix, IsExact(options)))
  {
    hide Answers, PlainSearch, Records, Filter, Samples, KeyOverruns, EndsUndefined, StrictlyIncreasing;
    dicts.SoundIsValid();
    var ls, cs := dicts.LookupsOf(prefix, options), dicts.Contents();
    forall i | 0 <= i < |cs|
      ensures ls[i] == Outcome(cs[i].index, prefix, IsExact(options))
      ensures ls[i].OutOfArray? <==> OverrunsAt(cs, prefix, i)
    {
      var d := dicts.list[i];
      assert d.Sound() && cs[i] == d.Content();
      DictionaryFinds(d, cs[i].index, prefix, options);
      NoOverrunOfNothing(cs, prefix, i);
    }
    if !SomeOverrun(cs, prefix) {
      AnswersArePlain(ls, cs, prefix, IsExact(options));
    }
  }

  lemma NoOverrunOfNothing(cs: seq<DictionaryContent>, prefix: seq<byte>, i: nat)
    requires i < |cs|
    ensures Records(cs[i].index, 0, 0) == [] ==> !OverrunsAt(cs, prefix, i)
  {
  }

  // ---- fetching the articles ----

  /** The articles of some words, one for each of them. */
  predicate ArticlesOf(articles: seq<Article>, c: DictionaryContent, ws: seq<Word>) {
    |articles| == |ws| && forall i :: 0 <= i < |ws| ==> ArticleOf(articles[i], c.text, c.layout, ws[i])
  }

  /** Fetches the articles of all words found in one dictionary. */
  method FetchAll(dicts: TinyDictionaryList, words: TinyDictWordList, ghost n: nat) returns (articles: seq<Article>)
    requires dicts.Sound() && n < |dicts.list| && words.dict == dicts.list[n]
    modifies dicts.Footprints()
    ensures dicts.list == old(dicts.list) && dicts.Sound() && dicts.Contents() == old(dicts.Contents())
    ensures fresh(dicts.Footprints() - old(dicts.Footprints()))
    ensures ArticlesOf(articles, old(dicts.Contents())[n], old(words.list))
  {
    hide TinyDictionaryList.Sound, TinyDictionaryList.Contents, TinyDictionaryList.Footprints, TinyDictionaryList.Memory;
    dicts.Untouched();
    ghost var cs, list, ws, first := dicts.Contents(), dicts.list, words.list, dicts.Footprints();
    articles := [];
    var i := 0;
    while i < |words.list|
      invariant words.list == ws && words.dict == list[n] && dicts.list == list
      invariant dicts.Sound() && dicts.Contents() == cs
      invariant forall o: object? :: o in dicts.Footprints() ==> o in first || fresh(o)
      invariant i <= |ws| && ArticlesOf(articles, cs[n], ws[..i])
    {
      ghost var before := dicts.Footprints();
      label Fetching:
      var a := FetchOne(dicts, words, i, n);
      forall o: object? | o in dicts.Footprints() ensures o in first || fresh(o) {
        if o !in before {
          assert o in dicts.Footprints() - before && !old@Fetching(allocated(o));
        }
      }
      articles := articles + [a];
      i := i + 1;
    }
    assert ws[..|ws|] == ws;
  }

  method FetchOne(dicts: TinyDictionaryList, words: TinyDictWordList, i: nat, ghost n: nat) returns (a: Article)
    requires dicts.Sound() && n < |dicts.list| && words.dict == dicts.list[n] && i < |words.list|
    modifies dicts.Footprints()
    ensures dicts.list == old(dicts.list) && words.list == old(words.list) && words.dict == old(words.dict)
    ensures dicts.Sound() && dicts.Contents() == old(dicts.Contents())
    ensures fresh(dicts.Footprints() - old(dicts.Footprints()))
    ensures var c := old(dicts.Contents())[n]; ArticleOf(a, c.text, c.layout, old(words.list)[i])
  {
    hide TinyDictDataFile.Owned, TinyDictDataFile.Footprint, TinyDictDataFile.Sound, TinyDictDataFile.Valid,
      TinyDictDataFile.WholeText, ChunkedArticle, PlainArticle, ArticleOf;
    ghost var d := dicts.list[n];
    dicts.Untouched();
    FootprintIsOwned(d.data);
    assert dicts.Contents()[n] == d.Content();
    a := words.GetArticle(i);
    dicts.FetchKeeps(d);
  }

  // ---- the whole search ----

  /** The results and the articles are those of the plain search: for each answer the dictionary it comes from, the words
      found, and for each word the article or none. */
  ghost predicate Shows(dicts: TinyDictionaryList, results: TinyDictResultList, articles: seq<seq<Article>>,
                        answers: seq<(nat, seq<Word>)>, cs: seq<DictionaryContent>)
    reads dicts, results, set ws | ws in results.list
  {
    && dicts.Holds(results, answers) && |articles| == |answers|
    && forall k :: 0 <= k < |answers| ==>
         answers[k].0 < |cs| && ArticlesOf(articles[k], cs[answers[k].0], answers[k].1)
  }

  /** Fetches the articles of all words of all results. */
  method FetchEach(dicts: TinyDictionaryList, results: TinyDictResultList, ghost answers: seq<(nat, seq<Word>)>)
    returns (articles: seq<seq<Article>>)
    requires dicts.Sound() && dicts.Holds(results, answers)
    modifies dicts.Footprints()
    ensures dicts.list == old(dicts.list) && dicts.Sound() && dicts.Contents() == old(dicts.Contents())
    ensures Shows(dicts, results, articles, answers, old(dicts.Contents()))
  {
    hide TinyDictionaryList.Sound, TinyDictionaryList.Contents, TinyDictionaryList.Footprints, TinyDictionaryList.Memory,
      ArticlesOf;
    ghost var cs := dicts.Contents();
    ghost var list, found, first := dicts.list, results.list, dicts.Footprints();
    articles := [];
    var k := 0;
    while k < |results.list|
      invariant 0 <= k <= |results.list| && |articles| == k && dicts.list == list && results.list == found
      invariant dicts.Sound() && dicts.Contents() == cs
      invariant forall o: object? :: o in dicts.Footprints() ==> o in first || fresh(o)
      invariant dicts.Holds(results, answers)
      invariant forall j :: 0 <= j < k ==>
                  answers[j].0 < |cs| && ArticlesOf(articles[j], cs[answers[j].0], answers[j].1)
    {
      dicts.Untouched();
      ghost var before := dicts.Footprints();
      label Fetching:
      var fetched := FetchAll(dicts, results.list[k], answers[k].0);
      forall o: object? | o in dicts.Footprints() ensures o in first || fresh(o) {
        if o !in before {
          assert o in dicts.Footprints() - before && !old@Fetching(allocated(o));
        }
      }
      articles := articles + [fetched];
      k := k + 1;
    }
  }

  /** The documented use of the engine: search all dictionaries, then fetch the article of each word found. From a sound
      list of well-formed dictionaries, unless the key overruns the samples of some index, the results are exactly the
      matching records of each index file, dictionary by dictionary in the order of registration, and each article that is
      fetched is the slice of the dictionary's text that its record names. The list stays sound with the same contents. */
  method SearchAndFetch(dicts: TinyDictionaryList, results: TinyDictResultList, prefix: seq<byte>, options: nat)
    returns (found: bool, articles: seq<seq<Article>>, undefined: bool)
    requires dicts.Sound() && Increasing(dicts.Contents())
    modifies results, dicts.IndexFiles(), dicts.Footprints()
    ensures dicts.Sound() && dicts.Contents() == old(dicts.Contents())
    ensures undefined <==> SomeOverrun(dicts.Contents(), prefix)
    ensures !undefined ==>
              var cs := dicts.Contents();
              var answers := PlainSearch(cs, prefix, IsExact(options));
              && found == (answers != []) && Shows(dicts, results, articles, answers, cs)
              && (options % 2 == 0 ==> FindsAll(cs, answers, word => word == prefix))
              && (options % 2 == 1 ==> FindsAll(cs, answers, word => StartsWith(word, prefix)))
  {
    hide TinyDictionaryList.Sound, TinyDictionaryList.Contents, TinyDictionaryList.LookupsOf, TinyDictionaryList.Holds,
      TinyDictionaryList.Footprints, Shows, Answers, PlainSearch, SomeOverrun, Increasing, FindsAll;
    ghost var cs := dicts.Contents();
    OptionsMean(cs, prefix, options);
    ListFinds(dicts, prefix, options);
    dicts.Untouched();
    articles := [];
    found, undefined := dicts.Find(results, prefix, options);
    if !undefined {
      articles := FetchEach(dicts, results, PlainSearch(cs, prefix, IsExact(options)));
    }
  }

  /** Options with the lowest bit clear ask for the key itself, others for what starts with it. */
  lemma OptionsMean(cs: seq<DictionaryContent>, prefix: seq<byte>, options: nat)
    ensures options % 2 == 0 ==> FindsAll(cs, PlainSearch(cs, prefix, IsExact(options)), word => word == prefix)
    ensures options % 2 == 1 ==> FindsAll(cs, PlainSearch(cs, prefix, IsExact(options)), word => StartsWith(word, prefix))
  {
    hide FindsAll, PlainSearch, StartsWith;
    if options % 2 == 0 {
      PlainFindsAll(cs, prefix, true, word => word == prefix);
    } else {
      PlainFindsAll(cs, prefix, false, word => StartsWith(word, prefix));
    }
  }

  // ---- from the files on ----

  /** The files of a dictionary; null when one cannot be opened. */
  datatype Files = Files(index: CFile?, data: CFile?)

  predicate Opens(inflate: Inflater, f: Files) {
    f.index != null && !EndsUndefined(f.index.data, 0) && f.data != null && DataOpens(f.data.data, inflate)
  }

  /** No compressed file has a chunk that does not load. */
  predicate AllLoad(inflate: Inflater, files: seq<Files>) {
    forall i :: 0 <= i < |files| && Opens(inflate, files[i]) ==> DataLoads(files[i].data.data, inflate)
  }

  /** What the dictionaries hold whose files open, in the order of the files. */
  function ContentsOf(inflate: Inflater, files: seq<Files>): seq<DictionaryContent>
    requires AllLoad(inflate, files)
  {
    if files == [] then []
    else
      var n, f := |files| - 1, files[|files| - 1];
      ContentsOf(inflate, files[..n])
      + if Opens(inflate, f) then [FilesContent(f.index.data, f.data.data, inflate)] else []
  }

  lemma ContentsStep(inflate: Inflater, files: seq<Files>, n: nat)
    requires n < |files| && AllLoad(inflate, files)
    ensures AllLoad(inflate, files[..n]) && AllLoad(inflate, files[..n + 1])
    ensures ContentsOf(inflate, files[..n + 1])
            == ContentsOf(inflate, files[..n])
               + if Opens(inflate, files[n])
                 then [FilesContent(files[n].index.data, files[n].data.data, inflate)] else []
  {
    assert files[..n + 1][..n] == files[..n];
  }

  lemma NoContents(inflate: Inflater, files: seq<Files>)
    ensures AllLoad(inflate, files[..0]) && ContentsOf(inflate, files[..0]) == []
  {
  }

  /** Written dictionaries are well-formed: the printed form of any strictly increasing list of valid entries is an index,
      and a dictzip file with a right header checksum, or none, a data file, from which the packed text comes back. */
  lemma WrittenDictionary(file: Files, inflate: Inflater, es: seq<IndexEntry>, f: Fields, crc16: u16,
                          pieces: seq<seq<byte>>, trailer: seq<byte>, texts: seq<seq<byte>>)
    requires (forall i :: 0 <= i < |es| ==> ValidEntry(es[i])) && IncreasingEntries(es)
    requires ValidFields(f) && |trailer| >= 4
    requires forall n :: 0 <= n < |pieces| ==> |pieces[n]| < 0x1_0000
    requires f.chunks == Sizes(pieces) && Unpacks(inflate, f.chunkLength, pieces, texts)
    requires Regular(texts, f.chunkLength)
    requires file.index != null && file.index.data == PrintIndex(es)
    requires file.data != null && file.data.data == PutFile(f, crc16, pieces, trailer)
    ensures Opens(inflate, file) <==> f.headerCrc ==> crc16 == Crc.Low16(Crc.Update(0, PutCovered(f)))
    ensures Opens(inflate, file) ==>
              && AllLoad(inflate, [file])
              && ContentsOf(inflate, [file]) == [DictionaryContent(PrintIndex(es), Join(texts), Chunks(f.chunkLength, |pieces|))]
    ensures Increasing([DictionaryContent(PrintIndex(es), Join(texts), Chunks(f.chunkLength, |pieces|))])
    ensures Records(PrintIndex(es), 0, 0) == AsWords(es, 0)
  {
    hide ValidEntry, Records, EndsUndefined, PrintIndex, AsWords, DataOpens, DataLoads, DataText, PutFile, Sizes, Unpacks,
      Regular, ValidFields, IncreasingEntries, Join, Crc.Low16, Crc.Update, PutCovered, StrictlyIncreasing,
      AllLoad, ContentsOf;
    EmptyIndex(es);
    RecordsOfPrinted(es, 0);
    IncreasingWords(es);
    WrittenFileOpens(f, crc16, pieces, trailer, inflate, texts);
    OneContent(inflate, file);
  }

  lemma OneContent(inflate: Inflater, file: Files)
    requires Opens(inflate, file) ==> DataLoads(file.data.data, inflate)
    ensures AllLoad(inflate, [file])
    ensures Opens(inflate, file) ==>
              ContentsOf(inflate, [file]) == [FilesContent(file.index.data, file.data.data, inflate)]
  {
    NoContents(inflate, [file]);
    ContentsStep(inflate, [file], 0);
    assert [file][..1] == [file];
  }

  function IndexesOf(files: seq<Files>): set<object?> { set f | f in files :: f.index }

  function DatasOf(files: seq<Files>): set<object?> { set f | f in files :: f.data }

  /** Registers dictionaries one after the other, starting with none. */
  method OpenAll(inflate: Inflater, files: seq<Files>) returns (dicts: TinyDictionaryList)
    requires AllLoad(inflate, files)
    modifies IndexesOf(files), DatasOf(files)
    ensures fresh(dicts) && dicts.Sound() && dicts.Contents() == ContentsOf(inflate, files)
    ensures dicts.IndexFiles() <= IndexesOf(files)
    ensures forall o: object? :: o in dicts.Footprints() ==> o == null || o in DatasOf(files) || fresh(o)
  {
    hide TinyDictionaryList.Sound, TinyDictionaryList.Contents, TinyDictionaryList.Footprints, TinyDictionaryList.IndexFiles,
      TinyDictionary.OpenedOn, DataOpens, EndsUndefined, DataLoads, DataText, ContentsOf;
    dicts := new TinyDictionaryList();
    dicts.NoFiles();
    NoContents(inflate, files);
    var i := 0;
    while i < |files|
      invariant 0 <= i <= |files| && AllLoad(inflate, files[..i])
      invariant fresh(dicts) && dicts.Sound() && dicts.Contents() == ContentsOf(inflate, files[..i])
      invariant dicts.IndexFiles() <= IndexesOf(files)
      invariant forall o: object? :: o in dicts.Footprints() ==> o == null || o in DatasOf(files) || fresh(o)
    {
      ContentsStep(inflate, files, i);
      var ok, undefined := dicts.Add(inflate, files[i].index, files[i].data);
      i := i + 1;
    }
    assert files[..|files|] == files;
  }

  /** The engine as a whole: whatever files are registered, provided that no compressed one has a chunk that does not load
      and that the indexes are well-formed, a search finds the matching records of each index file, dictionary by
      dictionary, and the articles are slices of the texts packed in the data files. */
  method OpenAndSearch(inflate: Inflater, files: seq<Files>, prefix: seq<byte>, options: nat)
    returns (found: bool, dicts: TinyDictionaryList, results: TinyDictResultList, articles: seq<seq<Article>>,
             undefined: bool)
    requires AllLoad(inflate, files) && Increasing(ContentsOf(inflate, files))
    modifies IndexesOf(files), DatasOf(files)
    ensures undefined <==> SomeOverrun(ContentsOf(inflate, files), prefix)
    ensures !undefined ==>
              var cs := ContentsOf(inflate, files);
              var answers := PlainSearch(cs, prefix, IsExact(options));
              && found == (answers != []) && Shows(dicts, results, articles, answers, cs)
              && (options % 2 == 0 ==> FindsAll(cs, answers, word => word == prefix))
              && (options % 2 == 1 ==> FindsAll(cs, answers, word => StartsWith(word, prefix)))
  {
    hide TinyDictionaryList.Sound, TinyDictionaryList.Contents, TinyDictionaryList.Footprints, TinyDictionaryList.IndexFiles,
      ContentsOf, PlainSearch, SomeOverrun, Increasing, Shows, FindsAll;
    results := new TinyDictResultList();
    dicts := OpenAll(inflate, files);
    found, articles, undefined := SearchAndFetch(dicts, results, prefix, options);
  }
}
