/** Lists of dictionaries, and the search over all of them. */
module DictionaryLists {
  import opened Bytes
  import opened CFiles
  import opened IndexRecords
  import opened IndexSearch
  import opened ChunkFile
  import opened Articles
  import opened TinyDict

  /** Of the lookups of some dictionaries, those that found a word: which dictionary, and what it found. */
  function Answers(ls: seq<Lookup>): (r: seq<(nat, seq<Word>)>)
    ensures |r| <= |ls| && forall k :: 0 <= k < |r| ==> r[k].0 < |ls|
  {
    if ls == [] then []
    else
      var n, l := |ls| - 1, ls[|ls| - 1];
      Answers(ls[..n]) + if l.Found? && l.words != [] then [(n, l.words)] else []
  }

  lemma AnswersStep(ls: seq<Lookup>, n: nat)
    requires n < |ls|
    ensures Answers(ls[..0]) == []
    ensures Answers(ls[..n + 1]) == Answers(ls[..n]) + if ls[n].Found? && ls[n].words != [] then [(n, ls[n].words)] else []
  {
    assert ls[..n + 1][..n] == ls[..n];
  }

  /** There is one answer for each dictionary with a match and no other, in the order of the dictionaries. */
  lemma {:induction false} AnswersInOrder(ls: seq<Lookup>)
    ensures forall j, k :: 0 <= j < k < |Answers(ls)| ==> Answers(ls)[j].0 < Answers(ls)[k].0
    ensures forall k :: 0 <= k < |Answers(ls)| ==>
              var (i, words) := Answers(ls)[k]; i < |ls| && ls[i] == Found(words) && words != []
    ensures forall i :: 0 <= i < |ls| && ls[i].Found? && ls[i].words != [] ==> (i, ls[i].words) in Answers(ls)
  {
    if ls != [] {
      var n := |ls| - 1;
      AnswersInOrder(ls[..n]);
      assert forall i :: 0 <= i < n ==> ls[..n][i] == ls[i];
    }
  }

  class TinyDictResultList {
    var list: seq<TinyDictWordList>

    constructor ()
      ensures list == []
    {
      list := [];
    }

    method Clear()
      modifies this
      ensures list == []
    {
      list := [];
    }

    method Add(p: TinyDictWordList)
      modifies this
      ensures list == old(list) + [p]
    {
      list := list + [p];
    }
  }

  class TinyDictionaryList {
    var list: seq<TinyDictionary>

    constructor ()
      ensures list == [] && Sound() && Contents() == []
    {
      list := [];
    }

    ghost predicate Valid()
      reads this, set d | d in list :: d.index, set d | d in list :: d.index.list
    {
      forall d :: d in list ==> d.index.Valid()
    }

    /** All objects that the dictionaries' soundness and texts depend on. */
    ghost function Memory(): set<object>
      reads this, set d | d in list :: d.data, set d | d in list :: d.data.zstream
    {
      set d, o | d in list && o in d.Parts() :: o
    }

    /** All objects that fetching articles may change. */
    ghost function Footprints(): set<object?>
      reads this, set d | d in list :: d.data, set d | d in list :: d.data.zstream
    {
      set d, o | d in list && o in d.data.Footprint() :: o
    }

    /** All dictionaries are sound, and share none of the objects that they depend on. */
    ghost predicate Sound()
      reads this, set d | d in list :: d.data, set d | d in list :: d.data.zstream, Memory()
    {
      && (forall i :: 0 <= i < |list| ==> list[i].Sound())
      && (forall i, j :: 0 <= i < j < |list| ==> list[i].data.Owned() !! list[j].data.Owned())
    }

    /** What the dictionaries hold. */
    ghost function Contents(): (cs: seq<DictionaryContent>)
      requires Sound()
      reads this, set d | d in list :: d.data, set d | d in list :: d.data.zstream, Memory()
      ensures |cs| == |list| && forall i :: 0 <= i < |list| ==> cs[i] == list[i].Content()
    {
      seq(|list|, i requires 0 <= i < |list| && Sound()
                    reads this, set d | d in list :: d.data, set d | d in list :: d.data.zstream, Memory()
                    => list[i].Content())
    }

    /** What finding `prefix` comes to in each dictionary. */
    ghost function LookupsOf(prefix: seq<byte>, options: nat): (ls: seq<Lookup>)
      requires Valid()
      reads this, set d | d in list :: d.index, set d | d in list :: d.index.list
      ensures |ls| == |list| && forall i :: 0 <= i < |list| ==> ls[i] == list[i].LookupOf(prefix, options)
    {
      seq(|list|, i requires 0 <= i < |list| && Valid()
                    reads this, set d | d in list :: d.index, set d | d in list :: d.index.list
                    => list[i].LookupOf(prefix, options))
    }

    /** The index files that a search moves about in. */
    ghost function IndexFiles(): set<object?>
      reads this, set d | d in list :: d.index
    {
      set d | d in list :: d.index.f
    }

    /** The objects that a dictionary's data depend on are old ones, but no C files, lists or index files. */
    lemma Untouched()
      ensures forall d, o: object :: d in list && o in d.data.Owned() ==>
                && allocated(o) && !(o is CFile) && !(o is TinyDictionaryList) && !(o is TinyDictResultList)
                && !(o is TinyDictWordList) && !(o is TinyDictIndexFile)
      ensures forall o: object? :: o in IndexFiles() ==> o == null || o is CFile
      ensures forall o: object? :: o in Footprints() ==>
                && !(o is TinyDictionaryList) && !(o is TinyDictResultList)
                && !(o is TinyDictWordList) && !(o is TinyDictIndexFile)
    {
      forall o: object? | o in Footprints()
        ensures && !(o is TinyDictionaryList) && !(o is TinyDictResultList)
                && !(o is TinyDictWordList) && !(o is TinyDictIndexFile)
      {
        var d :| d in list && o in d.data.Footprint();
        FootprintIsOwned(d.data);
      }
    }

    /** The files and the footprints depend on the dictionaries' data and index alone. */
    twostate lemma FilesGrow(new added: seq<TinyDictionary>)
      requires list == old(list) + added
      requires forall d :: d in old(list) ==> unchanged(d.index) && unchanged(d.data)
      requires forall d :: d in old(list) && d.data.zstream != null ==> unchanged(d.data.zstream)
      ensures IndexFiles() == old(IndexFiles()) + set d | d in added :: d.index.f
      ensures forall o: object? :: o in Footprints() ==>
                o in old(Footprints()) || exists d :: d in added && o in d.data.Footprint()
    {
    }

    lemma NoFiles()
      requires list == []
      ensures IndexFiles() == {} && Footprints() == {}
    {
    }

    lemma SoundIsValid()
      requires Sound()
      ensures Valid()
    {
      forall d | d in list ensures d.index.Valid() {
        SoundIndex(d);
      }
    }

    /** A sound list stays so, with the same contents, when nothing that its dictionaries depend on changes. */
    twostate lemma ListStays()
      requires list == old(list)
      requires forall d :: d in list ==> unchanged(d.index) && unchanged(d.index.list)
      requires forall d :: d in list ==> forall o: object :: o in old(d.data.Owned()) ==> unchanged(o)
      requires old(Sound())
      ensures Sound() && Contents() == old(Contents())
    {
      forall i | 0 <= i < |list|
        ensures list[i].Sound() && list[i].Content() == old(list[i].Content())
        ensures list[i].data.Owned() == old(list[i].data.Owned())
      {
        DictionaryStays(list[i]);
      }
    }

    /** Fetching an article from one dictionary of a sound list keeps the list sound and its contents as they are. */
    twostate lemma FetchKeeps(d: TinyDictionary)
      requires list == old(list) && d in list
      requires forall e :: e in list ==> unchanged(e.index) && unchanged(e.index.list)
      requires forall e :: e in list && e != d ==> forall o: object :: o in old(e.data.Owned()) ==> unchanged(o)
      requires old(Sound())
      requires d.data.Valid() && d.data.Sound() && d.data.WholeText() == old(d.data.WholeText())
      requires d.data.Stored() == old(d.data.Stored())
      requires fresh(d.data.Owned() - old(d.data.Owned()))
      requires fresh(d.data.Footprint() - old(d.data.Footprint()))
      ensures Sound() && Contents() == old(Contents())
      ensures fresh(Footprints() - old(Footprints()))
    {
      hide TinyDictDataFile.Owned, TinyDictDataFile.Footprint, TinyDictDataFile.Sound, TinyDictDataFile.Valid,
        TinyDictDataFile.WholeText;
      forall e | e in list && e != d
        ensures e.Sound() && e.Content() == old(e.Content())
        ensures e.data.Owned() == old(e.data.Owned()) && e.data.Footprint() == old(e.data.Footprint())
        ensures forall o: object :: o in e.data.Owned() ==> old(allocated(o))
      {
        DictionaryStays(e);
      }
      OwnsItself(d.data);
    }

    /** It also stays sound when a sound dictionary is appended that shares none of these objects. */
    twostate lemma ListGrows(new p: TinyDictionary)
      requires forall d :: d in old(list) ==> unchanged(d.index) && unchanged(d.index.list)
      requires forall d :: d in old(list) ==> forall o: object :: o in old(d.data.Owned()) ==> unchanged(o)
      requires old(Sound()) && list == old(list) + [p]
      requires p.Sound() && fresh(p.data.Owned())
      ensures Sound() && Contents() == old(Contents()) + [p.Content()]
    {
      hide TinyDictionary.Sound, TinyDictionary.Content, TinyDictDataFile.Owned, Contents;
      ghost var n := |old(list)|;
      forall i | 0 <= i < n
        ensures list[i].Sound() && list[i].Content() == old(list[i].Content())
        ensures list[i].data.Owned() == old(list[i].data.Owned()) && list[i].data.Owned() !! p.data.Owned()
      {
        DictionaryStays(list[i]);
      }
    }

    /** Opens a new dictionary; null when that fails. */
    static method OpenNew(inflate: Inflater, indexFile: CFile?, dataFile: CFile?)
      returns (p: TinyDictionary?, undefined: bool)
      modifies indexFile, dataFile
      ensures indexFile != null ==> undefined == EndsUndefined(indexFile.data, 0)
      ensures p != null <==> && indexFile != null && !EndsUndefined(indexFile.data, 0)
                             && dataFile != null && DataOpens(dataFile.data, inflate)
      ensures p != null ==> fresh(p) && fresh(p.data.Owned()) && p.index.Valid() && p.OpenedOn(inflate, indexFile, dataFile)
      ensures p != null && DataLoads(dataFile.data, inflate) ==>
                p.Sound() && p.Content() == FilesContent(indexFile.data, dataFile.data, inflate)
    {
      hide TinyDictDataFile.OpenedOn, TinyDictDataFile.Valid, TinyDictDataFile.Sound, TinyDictDataFile.WholeText,
        TinyDictDataFile.Owned, TinyDictionary.OpenedOn, TinyDictionary.Sound, TinyDictionary.Content, DataOpens, DataLoads,
        FilesContent;
      var d := new TinyDictionary(inflate);
      NewOwnsItself(d.data);
      var ok;
      label Opening:
      ok, undefined := d.Open(indexFile, dataFile);
      forall o: object | ok && o in d.data.Owned() ensures fresh(o) {
        if o != d.data {
          assert fresh@Opening(d.data.Owned() - {d.data});
          assert o in d.data.Owned() - {d.data};
          assert !old@Opening(allocated(o));
        }
      }
      p := if ok then d else null;
    }

    /** Opens a dictionary and appends it when that succeeds. A sound list stays sound, and holds the new dictionary's
        content in addition, if the data file is plain or all its chunks load. */
    method Add(inflate: Inflater, indexFile: CFile?, dataFile: CFile?) returns (ok: bool, undefined: bool)
      modifies this, indexFile, dataFile
      ensures ok <==> && indexFile != null && !EndsUndefined(indexFile.data, 0)
                      && dataFile != null && DataOpens(dataFile.data, inflate)
      ensures !ok ==> list == old(list)
      ensures ok ==>
                var n := |old(list)|;
                && |list| == n + 1 && list[..n] == old(list)
                && fresh(list[n]) && fresh(list[n].data.Owned()) && list[n].OpenedOn(inflate, indexFile, dataFile)
      ensures old(Valid()) ==> Valid()
      ensures IndexFiles() == old(IndexFiles()) + if ok then {indexFile} else {}
      ensures forall o: object? :: o in Footprints() ==>
                o == null || o in old(Footprints()) || (ok && o == dataFile) || fresh(o)
      ensures old(Sound()) && !ok ==> Sound() && Contents() == old(Contents())
      ensures old(Sound()) && ok && DataLoads(dataFile.data, inflate) ==>
                Sound()
                && Contents()
                   == old(Contents()) + [FilesContent(indexFile.data, dataFile.data, inflate)]
    {
      hide TinyDictDataFile.OpenedOn, TinyDictDataFile.Valid, TinyDictDataFile.Sound, TinyDictDataFile.WholeText,
        TinyDictDataFile.Owned, TinyDictionary.Sound, TinyDictionary.Content, TinyDictionary.OpenedOn, Sound, Contents,
        Footprints, IndexFiles, DataOpens, DataLoads, FilesContent;
      Untouched();
      var p, bad := OpenNew(inflate, indexFile, dataFile);
      ok, undefined := p != null, bad;
      if p != null {
        assert this !in p.Parts();
        list := list + [p];
        OpenedFiles(p, inflate, indexFile, dataFile);
        FilesGrow([p]);
      } else {
        FilesGrow([]);
      }
      if old(Sound()) {
        if p == null {
          ListStays();
        } else if DataLoads(dataFile.data, inflate) {
          ListGrows(p);
        }
      }
    }

    /** The loop of the search: adds one result for each dictionary with a match, in their order. */
    method SearchEach(result: TinyDictResultList, prefix: seq<byte>, options: nat) returns (undefined: bool)
      requires Valid() && result.list == []
      modifies result, IndexFiles()
      ensures Valid() && list == old(list) && LookupsOf(prefix, options) == old(LookupsOf(prefix, options))
      ensures undefined <==> exists i :: 0 <= i < |list| && LookupsOf(prefix, options)[i].OutOfArray?
      ensures !undefined ==> Holds(result, Answers(LookupsOf(prefix, options)))
      ensures !undefined ==> forall k :: 0 <= k < |result.list| ==> fresh(result.list[k])
    {
      hide TinyDictIndexFile.LookupOf, TinyDictIndexFile.Valid, TinyDictionary.LookupOf, LookupsOf, Answers;
      undefined := false;
      ghost var ls, dicts := LookupsOf(prefix, options), list;
      var i := 0;
      while i < |list|
        invariant 0 <= i <= |list| && list == dicts && Valid() && LookupsOf(prefix, options) == ls
        invariant IndexFiles() == old(IndexFiles())
        invariant forall j :: 0 <= j < i ==> !ls[j].OutOfArray?
        invariant |result.list| == |Answers(ls[..i])|
        invariant forall k :: 0 <= k < |result.list| ==>
                    fresh(result.list[k]) && result.list[k].dict == list[Answers(ls[..i])[k].0]
                    && result.list[k].list == Answers(ls[..i])[k].1
      {
        AnswersStep(ls, i);
        assert list[i].LookupOf(prefix, options) == ls[i];
        var p, bad := list[i].Find(prefix, options);
        if bad {
          return true;
        }
        if p != null {
          result.Add(p);
        }
        i := i + 1;
      }
      assert ls[..|list|] == ls;
    }

    /** The result list consists of these answers: which dictionary, and the words found in it. */
    ghost predicate Holds(result: TinyDictResultList, answers: seq<(nat, seq<Word>)>)
      reads this, result, set ws | ws in result.list
    {
      && |result.list| == |answers|
      && forall k :: 0 <= k < |answers| ==>
           && answers[k].0 < |list| && result.list[k].dict == list[answers[k].0]
           && result.list[k].list == answers[k].1
    }

    /** Searches all dictionaries: one result for each dictionary with a match, in their order. A sound list stays so. */
    method Find(result: TinyDictResultList, prefix: seq<byte>, options: nat) returns (found: bool, undefined: bool)
      requires Valid()
      modifies result, IndexFiles()
      ensures Valid() && list == old(list) && LookupsOf(prefix, options) == old(LookupsOf(prefix, options))
      ensures undefined <==> exists i :: 0 <= i < |list| && LookupsOf(prefix, options)[i].OutOfArray?
      ensures !undefined ==>
                var answers := Answers(LookupsOf(prefix, options));
                Holds(result, answers) && found == (answers != [])
      ensures !undefined ==> forall k :: 0 <= k < |result.list| ==> fresh(result.list[k])
      ensures old(Sound()) ==> Sound() && Contents() == old(Contents())
    {
      hide LookupsOf, Answers, Sound, Contents, TinyDictDataFile.Owned;
      Untouched();
      result.Clear();
      undefined := SearchEach(result, prefix, options);
      found := !undefined && |result.list| > 0;
      if old(Sound()) {
        ListStays();
      }
    }
  }

  lemma OwnsItself(d: TinyDictDataFile)
    ensures d in d.Owned()
  {
  }

  lemma OpenedFiles(p: TinyDictionary, inflate: Inflater, indexFile: CFile, dataFile: CFile)
    requires p.OpenedOn(inflate, indexFile, dataFile)
    ensures p.index.f == indexFile
    ensures forall o: object? :: o in p.data.Footprint() ==> o == null || o == dataFile || o in p.data.Owned()
  {
  }

  lemma NewOwnsItself(d: TinyDictDataFile)
    requires d.buf == null && d.zstream == null
    ensures d.Owned() == {d}
  {
  }

  lemma SoundIndex(d: TinyDictionary)
    requires d.Sound()
    ensures d.index.Valid()
  {
    SamplesInFile(d.index.f.data);
  }
}
