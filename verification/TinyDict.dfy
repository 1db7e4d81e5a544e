/** The dictionary engine: word lists, index files, data files, dictionaries and lists of dictionaries. */
module TinyDict {
  import opened Bytes
  import opened CFiles
  import opened IndexRecords
  import opened IndexSearch
  import opened ChunkFile
  import opened GzipHeader
  import opened Articles
  import opened ZStreams
  import ChunkCache

  // ---- word lists ----

  class TinyDictWordList {
    var dict: TinyDictionary?
    var list: seq<Word>

    constructor ()
      ensures dict == null && list == []
    {
      dict, list := null, [];
    }

    method SetDict(p: TinyDictionary)
      modifies this`dict
      ensures dict == p
    {
      dict := p;
    }

    method Add(word: Word)
      modifies this`list
      ensures list == old(list) + [word]
    {
      list := list + [word];
    }

    method Clear()
      modifies this`list
      ensures list == []
    {
      list := [];
    }

    /** The binary search of the list: the position to scan from. */
    method Find(prefix: seq<byte>) returns (r: Position)
      ensures r == FindSample(list, prefix)
    {
      if |list| == 0 {
        return Empty;
      }
      ghost var signs := Signs(list, prefix);
      var a, b := 0, |list|;
      while a < b - 1
        invariant a <= b <= |signs| && Probe(signs, a, b) == Probe(signs, 0, |signs|)
      {
        var c := (a + b) / 2;
        var res := Strcmp(list[c].word, prefix);
        if res == 0 {
          return At(c);
        }
        if res < 0 {
          a := c + 1;
        } else {
          b := c;
        }
      }
      if a == 0 {
        return At(0);
      }
      if a == |list| {
        return PastEnd;
      }
      r := if Strcmp(list[a].word, prefix) < 0 then At(a) else At(a - 1);
    }

    /** The article of the word at `index`: from any data file what reading it comes to, and from a sound one the slice of
        the text that the record names, or none where none may come. The file stays sound, and owns no object that was there
        before and not its own. */
    method GetArticle(index: int) returns (r: Article)
      requires dict != null ==> dict.data.Valid()
      modifies if dict == null then {} else dict.data.Footprint()
      ensures dict == old(dict) && list == old(list)
      ensures dict == null || !(0 <= index < |list|) ==> r == NoArticle
      ensures dict != null ==>
                var d := dict.data;
                && d.Valid() && d.f == old(d.f) && d.zstream == old(d.zstream) && d.compressed == old(d.compressed)
                && fresh(d.Footprint() - old(d.Footprint())) && fresh(d.Owned() - old(d.Owned()))
      ensures dict != null && 0 <= index < |list| ==>
                var d := dict.data;
                && r == old(d.Fetches(list[index]))
                && (d.f != null && d.compressed ==> d.zstream.OpenTable() == old(d.zstream.OpenTable()))
      ensures dict != null && old(dict.data.Sound()) ==>
                var d := dict.data;
                && d.Sound() && d.WholeText() == old(d.WholeText()) && d.Stored() == old(d.Stored())
                && (0 <= index < |list| ==> ArticleOf(r, d.WholeText(), d.Stored(), list[index]))
    {
      hide ChunkCache.Coherent, ChunkCache.Healthy, ChunkCache.Flat, PlainArticle, ChunkedArticle, TableOf, ArticleOf;
      if dict == null || index < 0 || index >= |list| {
        return NoArticle;
      }
      r := dict.data.ReadSound(list[index]);
    }
  }

  // ---- index files ----

  class TinyDictIndexFile {
    var f: CFile?
    var count: nat
    const list: TinyDictWordList

    constructor ()
      ensures f == null && fresh(list) && list.list == []
    {
      f, count := null, 0;
      list := new TinyDictWordList();
    }

    /** The samples point into the file. */
    ghost predicate Valid()
      reads this`f, list`list
    {
      list.list != [] ==> f != null && InFile(f.data, list.list)
    }

    /** What a lookup in this index comes to. */
    ghost function LookupOf(key: seq<byte>, exact: bool): Lookup
      requires Valid()
      reads this`f, list`list
    {
      if list.list == [] then Failed else LookupIn(f.data, list.list, key, exact)
    }

    /** Opens a file (`null` when there is none) and keeps every 16th record. `Undefined` numbers stop it. */
    method Open(file: CFile?) returns (ok: bool, undefined: bool)
      modifies this, list, file
      ensures file == null ==> !ok && !undefined
      ensures file != null ==> f == file && undefined == EndsUndefined(file.data, 0) && ok == !undefined
      ensures file != null ==> count == |Records(file.data, 0, 0)|
      ensures file != null ==> list.list == old(list.list) + Samples(Records(file.data, 0, 0))
    {
      f := file;
      if f == null {
        return false, false;
      }
      f.Seek(0);
      count := 0;
      ok, undefined := ReadAll(f, Records(f.data, 0, 0), EndsUndefined(f.data, 0));
    }

    /** Counts the records of the file and adds every 16th one to the list. */
    method ReadAll(f: CFile, ghost all: seq<Word>, ghost bad: bool) returns (ok: bool, undefined: bool)
      requires Reading(f.data, f.pos, 0, all, bad) && !f.eof && count == 0
      modifies this`count, list, f
      ensures ok == !undefined && undefined == bad && count == |all| && list.list == old(list.list) + Samples(all)
    {
      AllKept(all);
      hide Reading;
      ghost var rest := all;
      while true
        invariant f.eof ==> f.pos == |f.data|
        invariant Reading(f.data, f.pos, count, rest, bad)
        invariant count + |rest| == |all|
        invariant list.list + Kept(rest, count) == old(list.list) + Kept(all, 0)
        decreases |rest|
      {
        var p := ReadNext(f, count, rest, bad);
        if !p.Entry? {
          return !p.Undefined?, p.Undefined?;
        }
        if count % 16 == 0 {
          list.Add(p.w);
        }
        rest := rest[1..];
        count := count + 1;
      }
    }

    /** Finds all words that match, and counts the records read. */
    method Find(prefix: seq<byte>, exactMatch: bool, words: TinyDictWordList)
      returns (r: bool, undefined: bool, ghost calls: nat)
      requires Valid() && words != list
      modifies words`list, f
      ensures var l := LookupOf(prefix, exactMatch);
              && r == l.Found? && undefined == l.OutOfArray?
              && (r ==> words.list == l.words)
      ensures r ==> var w := list.list[FindSample(list.list, prefix).n];
                    calls == Reads(Records(f.data, w.indexPos, w.index), prefix, exactMatch)
      ensures r && list.list == Samples(Records(f.data, 0, 0)) && StrictlyIncreasing(Records(f.data, 0, 0)) ==>
                calls <= 17 + |Filter(Records(f.data, 0, 0), prefix, exactMatch)|
    {
      if f != null && StrictlyIncreasing(Records(f.data, 0, 0)) {
        FileScanCost(f.data, prefix, exactMatch);
      }
      words.Clear();
      calls := 0;
      var n := list.Find(prefix);
      if n.Empty? {
        return false, false, calls;
      }
      if n.PastEnd? {
        return false, true, calls;
      }
      r, undefined, calls := ScanFile(list.list[n.n], prefix, exactMatch, words);
    }

    method ScanFile(p: Word, prefix: seq<byte>, exactMatch: bool, words: TinyDictWordList)
      returns (r: bool, undefined: bool, ghost calls: nat)
      requires f != null && p.indexPos <= |f.data| && words.list == []
      modifies words`list, f
      ensures var l := LookupFrom(f.data, p, prefix, exactMatch);
              r == l.Found? && undefined == l.OutOfArray? && (r ==> words.list == l.words)
      ensures calls == Reads(Records(f.data, p.indexPos, p.index), prefix, exactMatch)
    {
      f.Seek(p.indexPos);
      ghost var all, bad := Records(f.data, p.indexPos, p.index), EndsUndefined(f.data, p.indexPos);
      r, undefined, calls := Scan(f, p.index, prefix, exactMatch, words, all, bad);
    }

    /** The scan loop: collects matches until a record above the prefix does not match. */
    method Scan(f: CFile, start: nat, prefix: seq<byte>, exactMatch: bool, words: TinyDictWordList, ghost all: seq<Word>,
                ghost bad: bool)
      returns (r: bool, undefined: bool, ghost calls: nat)
      requires Reading(f.data, f.pos, start, all, bad) && !f.eof && words.list == []
      modifies words`list, f
      ensures undefined == (RunsOff(all, prefix, exactMatch) && bad) && r == !undefined
      ensures r ==> words.list == IndexSearch.Scan(all, prefix, exactMatch)
      ensures calls == Reads(all, prefix, exactMatch)
    {
      hide Reading;
      var index := start;
      calls := 0;
      ghost var rest := all;
      while true
        invariant f.eof ==> f.pos == |f.data|
        invariant Reading(f.data, f.pos, index, rest, bad)
        invariant words.list + IndexSearch.Scan(rest, prefix, exactMatch) == IndexSearch.Scan(all, prefix, exactMatch)
        invariant calls + Reads(rest, prefix, exactMatch) == Reads(all, prefix, exactMatch)
        invariant RunsOff(all, prefix, exactMatch) == RunsOff(rest, prefix, exactMatch)
        decreases |rest|
      {
        var q := ReadNext(f, index, rest, bad);
        index := index + 1;
        calls := calls + 1;
        if !q.Entry? {
          return !q.Undefined?, q.Undefined?, calls;
        }
        var res := Strcmp(q.w.word, prefix);
        if Matches(q.w, prefix, exactMatch) {
          words.Add(q.w);
        } else if res > 0 {
          return true, false, calls;
        }
        rest := rest[1..];
      }
    }
  }

  // ---- data files ----

  /** A stream right after it opened `file`: an empty cache, and the table and size that the header gives. */
  ghost predicate JustOpened(z: ZStream, file: CFile)
    reads z, z.chunks, z.offsets, z.unpBuffer
  {
    && z.Valid() && z.unpBuffer == null && z.f == file && z.State() == ChunkCache.FRESH
    && ReadHeader(file.data).Parsed?
    && z.OpenTable() == HeaderTable(file.data, z.inflate, ReadHeader(file.data).h)
    && z.size == TextSize(z.OpenTable())
  }

  ghost function NonNull(o: object?): set<object> {
    if o == null then {} else {o}
  }

  lemma OpensPlain(data: seq<byte>, inflate: Inflater)
    ensures !IsGzip(data) ==> (DataOpens(data, inflate) <==> |data| >= 10)
    ensures |data| < 10 ==> !DataOpens(data, inflate)
  {
  }

  class TinyDictDataFile {
    const inflate: Inflater
    var f: CFile?
    var size: nat
    var compressed: bool
    var buf: array?<byte>
    var zstream: ZStream?

    constructor (inflate: Inflater)
      ensures Valid() && this.inflate == inflate && f == null && zstream == null && buf == null
    {
      this.inflate := inflate;
      f, size, compressed, buf, zstream := null, 0, false, null, null;
    }

    /** The objects that fetching an article may change. */
    ghost function Footprint(): set<object?>
      reads this, zstream
    {
      {this, f, buf, zstream} + if zstream == null then {} else {zstream.f, zstream.unpBuffer}
    }

    /** The objects that soundness and the text depend on, and the article buffer. */
    ghost function Owned(): set<object>
      reads this, zstream
    {
      {this} + NonNull(buf) + NonNull(zstream)
      + if zstream == null then {} else NonNull(zstream.chunks) + NonNull(zstream.offsets) + NonNull(zstream.unpBuffer)
    }

    ghost predicate Valid()
      reads this, zstream, if zstream == null then {} else {zstream.unpBuffer}
    {
      && (zstream != null ==> zstream.Valid() && (buf != null ==> zstream.Apart(buf)))
      && Room() < 0x8000_0000
      && (f != null && compressed ==> zstream != null)
      && (f != null && !compressed ==> size == |f.data|)
    }

    /** How many bytes the article buffer holds. */
    ghost function Room(): nat
      reads this`buf
    {
      if buf == null then 0 else buf.Length
    }

    /** What fetching the article of `w` comes to. */
    ghost function Fetches(w: Word): Article
      requires Valid()
      reads this, zstream, if zstream == null then {} else {zstream.unpBuffer as object?, zstream.chunks, zstream.offsets}
    {
      if f == null then NoArticle
      else if !compressed then PlainArticle(f.data, w, RoomFor(Room(), w.size))
      else ChunkedArticle(zstream.OpenTable(), zstream.State(), size, w, RoomFor(Room(), w.size)).0
    }

    /** How the file stores its text. */
    ghost function Stored(): Layout
      requires Valid() && f != null
      reads this, zstream, if zstream == null then {} else {zstream.unpBuffer}
    {
      if compressed then Chunks(zstream.chunkLength, zstream.chunks.Length) else Plain
    }

    /** An open file that is plain, or compressed with every chunk loading and the cache coherent. */
    ghost predicate Sound()
      requires Valid()
      reads this, zstream, if zstream == null then {} else {zstream.unpBuffer as object?, zstream.chunks, zstream.offsets}
    {
      && f != null
      && (compressed ==>
            var t := zstream.OpenTable();
            ChunkCache.Healthy(t) && ChunkCache.Coherent(t, zstream.State()) && size == |ChunkCache.Flat(t)|)
    }

    /** The whole text of a sound data file. */
    ghost function WholeText(): seq<byte>
      requires Valid() && Sound()
      reads this, zstream, if zstream == null then {} else {zstream.unpBuffer as object?, zstream.chunks, zstream.offsets}
    {
      if compressed then ChunkCache.Flat(zstream.OpenTable()) else f.data
    }

    /** The state right after opening `file`. */
    ghost predicate OpenedOn(file: CFile)
      reads this, zstream, Owned()
    {
      && Valid() && f == file && compressed == IsGzip(file.data) && (compressed <==> zstream != null)
      && (compressed ==> zstream.inflate == inflate && JustOpened(zstream, file) && size == zstream.size)
    }

    /** Opens a plain file, or a compressed one through a stream of its own; false when there is no file, it is shorter
        than ten bytes, or its header or last chunk cannot be read. */
    method Open(file: CFile?) returns (ok: bool)
      requires Valid() && zstream == null
      modifies this, file
      ensures Valid()
      ensures ok <==> file != null && DataOpens(file.data, inflate)
      ensures f == if ok then file else null
      ensures ok ==> OpenedOn(file) && buf == old(buf) && fresh(Owned() - old(Owned()))
    {
      hide DataOpens, JustOpened, HeaderTable, OpensFully, TextSize, TableOf, ReadHeader;
      f, size := file, 0;
      if f == null {
        return false;
      }
      OpensPlain(f.data, inflate);
      size := |f.data|;
      f.Seek(0);
      var header := f.Fread(10);
      if |header| != 10 {
        f, size := null, 0;
        return false;
      }
      if header[0] != 0x1f || header[1] != 0x8b {
        compressed := false;
        return true;
      }
      ok := OpenCompressed(f);
    }

    method OpenCompressed(file: CFile) returns (ok: bool)
      requires f == file && zstream == null && IsGzip(file.data) && Room() < 0x8000_0000
      modifies this`f, this`size, this`compressed, this`zstream, file
      ensures Valid() && ok == DataOpens(file.data, inflate) && f == (if ok then file else null) && compressed
      ensures ok ==> OpenedOn(file) && fresh(Owned() - old(Owned()))
    {
      hide DataOpens, JustOpened, HeaderTable, OpensFully, TextSize, TableOf, ReadHeader;
      compressed := true;
      zstream := OpenStream(inflate, file);
      if zstream == null {
        f, size := null, 0;
        return false;
      }
      size := zstream.size;
      ok := true;
    }

    static method OpenStream(inflate: Inflater, file: CFile) returns (z: ZStream?)
      requires IsGzip(file.data)
      modifies file
      ensures z != null <==> DataOpens(file.data, inflate)
      ensures z != null ==>
                fresh(z) && fresh(z.chunks) && fresh(z.offsets) && z.unpBuffer == null && z.Valid() && JustOpened(z, file)
                && z.inflate == inflate
    {
      var stream := new ZStream(inflate, file);
      var ok := stream.Open();
      hide GzipHeader.ReadFields, HeaderTable, TextSize, OpensFully;
      z := if ok then stream else null;
    }

    /** Gives the buffers back; a sound file stays sound, with the same text. */
    method Compact()
      requires Valid()
      modifies this`buf, zstream
      ensures Valid() && buf == null
      ensures zstream != null ==>
                && zstream.OpenTable() == old(zstream.OpenTable())
                && zstream.State() == ChunkCache.Compact(old(zstream.State()))
      ensures old(Sound()) ==>
                Sound() && WholeText() == old(WholeText()) && Stored() == old(Stored())
    {
      hide ChunkCache.Healthy, ChunkCache.Flat, TableOf;
      if zstream != null {
        zstream.Drop();
      }
      buf := null;
    }

    /** Makes the buffer large enough; a count that is not positive, as that of a large article, changes nothing. */
    method Reserve(sz: int)
      requires Valid() && sz < 0x8000_0000
      modifies this`buf
      ensures Valid() && Room() == (if old(Room()) < sz then sz else old(Room())) && (buf == old(buf) || fresh(buf))
    {
      if (buf == null && 0 < sz) || (buf != null && buf.Length < sz) {
        buf := new byte[sz];
      }
    }

    /** The article buffer starts with the text and has room for a terminator. */
    ghost predicate InBuffer(text: seq<byte>)
      reads this`buf, buf
    {
      buf != null && |text| < buf.Length && buf[..|text|] == text
    }

    /** The article of a word: NULL when it is out of range or cannot be fetched. In the buffer a zero byte follows it. */
    method Read(w: Word) returns (r: Article)
      requires Valid()
      modifies Footprint()
      ensures Valid() && f == old(f) && compressed == old(compressed) && size == old(size) && zstream == old(zstream)
      ensures fresh(Footprint() - old(Footprint())) && fresh(Owned() - old(Owned()))
      ensures r == old(Fetches(w))
      ensures f != null && compressed ==>
                zstream.OpenTable() == old(zstream.OpenTable())
                && zstream.State()
                   == ChunkedArticle(zstream.OpenTable(), old(zstream.State()), size, w, RoomFor(old(Room()), w.size)).1
      ensures r.Text? ==> InBuffer(r.text) && |r.text| == w.size && buf[w.size] == 0
    {
      hide TableOf, ChunkCache.ReadInto, Reserved;
      if f == null || (w.start + w.size) % U32 > size {
        return NoArticle;
      }
      Reserve(Reserved(w.size));
      r := Fill(w);
    }

    /** Fills the buffer with the article of a word that passed the range check. */
    method Fill(w: Word) returns (r: Article)
      requires Valid() && f != null && InRange(w, size)
      modifies buf, f, zstream, if zstream == null then {} else {zstream.f, zstream.unpBuffer}
      ensures Valid()
      ensures zstream != null ==>
                && zstream.f == old(zstream.f)
                && zstream.chunks == old(zstream.chunks) && zstream.offsets == old(zstream.offsets)
                && (zstream.unpBuffer == old(zstream.unpBuffer) || fresh(zstream.unpBuffer))
      ensures !compressed ==> r == PlainArticle(f.data, w, Room())
      ensures compressed ==>
                && zstream.OpenTable() == old(zstream.OpenTable())
                && (r, zstream.State()) == ChunkedArticle(zstream.OpenTable(), old(zstream.State()), size, w, Room())
      ensures r.Text? ==> InBuffer(r.text) && |r.text| == w.size && buf[w.size] == 0
    {
      hide TableOf, PlainArticle, ChunkedArticle;
      if !compressed {
        r := ReadPlain(w);
      } else {
        r := ReadChunked(w);
      }
      if r.Text? {
        buf[w.size] := NUL;
      }
    }

    /** Reading from any file, and from a sound one. */
    method ReadSound(w: Word) returns (r: Article)
      requires Valid()
      modifies Footprint()
      ensures Valid() && f == old(f) && compressed == old(compressed) && size == old(size) && zstream == old(zstream)
      ensures fresh(Footprint() - old(Footprint())) && fresh(Owned() - old(Owned()))
      ensures r == old(Fetches(w))
      ensures f != null && compressed ==> zstream.OpenTable() == old(zstream.OpenTable())
      ensures old(Sound()) ==>
                && Sound() && WholeText() == old(WholeText()) && Stored() == old(Stored())
                && ArticleOf(r, WholeText(), Stored(), w)
    {
      hide ChunkCache.Coherent, ChunkCache.Healthy, ChunkCache.Flat, ChunkCache.Copied, PlainArticle, ChunkedArticle,
        ArticleOf, RoomFor;
      if Sound() {
        if compressed {
          ChunkedIsSlice(zstream.OpenTable(), zstream.State(), w, Room());
          ChunkedIsArticle(zstream.OpenTable(), zstream.State(), w, Room());
        } else {
          PlainIsArticle(f.data, w, Room());
        }
      }
      r := Read(w);
    }

    /** Fills the buffer from a plain file; a buffer that is too small for what is read, or for the terminator, overflows. */
    method ReadPlain(w: Word) returns (r: Article)
      requires f != null && InRange(w, |f.data|)
      modifies buf, f
      ensures r == PlainArticle(f.data, w, Room()) && (r.Text? ==> InBuffer(r.text) && |r.text| == w.size)
    {
      f.Seek(w.start);
      var bytes := f.Fread(w.size);
      if |bytes| > 0 {
        if buf == null || |bytes| > buf.Length {
          return Garbled;
        }
        forall i | 0 <= i < |bytes| {
          buf[i] := bytes[i];
        }
      }
      if |bytes| != w.size {
        return NoArticle;
      }
      if buf == null || w.size >= buf.Length {
        return Garbled;
      }
      assert buf[..w.size] == bytes;
      r := Text(buf[..w.size]);
    }

    /** Fills the buffer from a compressed file; no buffer is one that holds nothing. */
    method ReadChunked(w: Word) returns (r: Article)
      requires zstream != null && zstream.Valid() && (buf != null ==> zstream.Apart(buf)) && InRange(w, size)
      modifies buf, zstream, zstream.f, zstream.unpBuffer
      ensures zstream.Valid() && (buf != null ==> zstream.Apart(buf)) && zstream.OpenTable() == old(zstream.OpenTable())
      ensures zstream.unpBuffer == old(zstream.unpBuffer) || fresh(zstream.unpBuffer)
      ensures zstream.chunks == old(zstream.chunks) && zstream.offsets == old(zstream.offsets)
      ensures zstream.f == old(zstream.f)
      ensures (r, zstream.State()) == ChunkedArticle(zstream.OpenTable(), old(zstream.State()), size, w, Room())
      ensures r.Text? ==> InBuffer(r.text) && |r.text| == w.size
    {
      hide TableOf, ChunkCache.Read;
      ChunkCache.IntoLength(zstream.OpenTable(), zstream.State(), w.start, w.size, Room());
      var dst := new byte[0];
      if buf != null {
        dst := buf;
      }
      var status := zstream.Read(dst, w.start, w.size);
      match status {
        case Done => r := if w.size < dst.Length then Text(dst[..w.size]) else Garbled;
        case Short => r := NoArticle;
        case Undefined => r := Garbled;
      }
    }
  }

  // ---- dictionaries ----

  /** The bytes of the index file, the whole text, and how it is stored. */
  datatype DictionaryContent = DictionaryContent(index: seq<byte>, text: seq<byte>, layout: Layout)

  /** What a dictionary holds that is opened on files with these bytes. */
  function FilesContent(index: seq<byte>, data: seq<byte>, inflate: Inflater): DictionaryContent
    requires DataLoads(data, inflate)
  {
    DictionaryContent(index, DataText(data, inflate), DataLayout(data))
  }

  class TinyDictionary {
    const data: TinyDictDataFile
    const index: TinyDictIndexFile

    constructor (inflate: Inflater)
      ensures fresh(data) && fresh(index) && fresh(index.list) && data.inflate == inflate
      ensures data.Valid() && data.f == null && data.zstream == null && data.buf == null
      ensures index.f == null && index.list.list == []
    {
      data := new TinyDictDataFile(inflate);
      index := new TinyDictIndexFile();
    }

    /** The state right after opening these files. */
    ghost predicate OpenedOn(inflate: Inflater, indexFile: CFile, dataFile: CFile)
      reads index`f, index.list`list, data, data.zstream, data.Owned()
    {
      && index.f == indexFile && IndexOf(indexFile.data) && index.Valid()
      && data.inflate == inflate && data.OpenedOn(dataFile)
    }

    /** Opens the index, then the data; `null` stands for a file that cannot be opened. */
    method Open(indexFile: CFile?, dataFile: CFile?) returns (ok: bool, undefined: bool)
      requires data.Valid() && data.zstream == null && index.list.list == []
      modifies data, index, index.list, indexFile, dataFile
      ensures indexFile != null ==> undefined == EndsUndefined(indexFile.data, 0)
      ensures ok <==> && indexFile != null && !EndsUndefined(indexFile.data, 0)
                      && dataFile != null && DataOpens(dataFile.data, data.inflate)
      ensures ok ==> index.Valid() && OpenedOn(data.inflate, indexFile, dataFile) && fresh(data.Owned() - old(data.Owned()))
      ensures ok && DataLoads(dataFile.data, data.inflate) ==>
                Sound() && Content() == FilesContent(indexFile.data, dataFile.data, data.inflate)
    {
      hide DataOpens, Records, EndsUndefined, Samples, InFile, DataLoads, DataText, TinyDictDataFile.Valid,
        TinyDictDataFile.Sound, TinyDictDataFile.WholeText, TinyDictDataFile.OpenedOn;
      ok, undefined := index.Open(indexFile);
      if !ok {
        return false, undefined;
      }
      SamplesInFile(indexFile.data);
      assert data.Owned() == old(data.Owned());
      ok := data.Open(dataFile);
      assert ok ==> IndexOf(indexFile.data) && index.Valid();
      if ok && DataLoads(dataFile.data, data.inflate) {
        OpenedIsSound(data, dataFile);
      }
    }

    /** The index has nothing to give back. */
    method Compact()
      requires data.Valid()
      modifies data`buf, data.zstream
      ensures data.Valid() && data.buf == null
      ensures old(data.Sound()) ==>
                && data.Sound() && data.WholeText() == old(data.WholeText())
                && data.Stored() == old(data.Stored())
    {
      data.Compact();
    }

    /** The index is open on a file with these bytes, and holds every 16th record. */
    ghost predicate IndexOf(bytes: seq<byte>)
      reads index`f, index.list`list
    {
      index.f != null && index.f.data == bytes && index.list.list == Samples(Records(bytes, 0, 0))
    }

    /** The objects that soundness and the content depend on. */
    ghost function Parts(): set<object>
      reads data, data.zstream
    {
      {index, index.list} + data.Owned()
    }

    /** The index is open and holds its samples, and the data file is sound. */
    ghost predicate Sound()
      reads data, data.zstream, Parts()
    {
      index.f != null && IndexOf(index.f.data) && data.Valid() && data.Sound()
    }

    /** What a sound dictionary holds. */
    ghost function Content(): DictionaryContent
      requires Sound()
      reads data, data.zstream, Parts()
    {
      DictionaryContent(index.f.data, data.WholeText(), data.Stored())
    }

    /** What finding `prefix` comes to. */
    ghost function LookupOf(prefix: seq<byte>, options: nat): Lookup
      requires index.Valid()
      reads index`f, index.list`list
    {
      index.LookupOf(prefix, IsExact(options))
    }

    /** The words that match, or NULL when there are none. */
    method Find(prefix: seq<byte>, options: nat) returns (words: TinyDictWordList?, undefined: bool)
      requires index.Valid()
      modifies index.f
      ensures var l := LookupOf(prefix, options);
              && undefined == l.OutOfArray?
              && (words != null <==> l.Found? && l.words != [])
              && (words != null ==> fresh(words) && words.dict == this && words.list == l.words)
    {
      var list := new TinyDictWordList();
      list.SetDict(this);
      var r, bad, calls := index.Find(prefix, IsExact(options), list);
      undefined := bad;
      words := if r && |list.list| > 0 then list else null;
    }
  }

  const TINY_DICT_OPTION_STARTS_WITH: nat := 1

  /** No "starts with" bit among the options. */
  predicate IsExact(options: nat) {
    options % 2 != TINY_DICT_OPTION_STARTS_WITH
  }

  // ---- well-formed dictionaries ----

  /** A dictionary opened on a strictly increasing index finds exactly the matching records of the whole index file,
      except for keys that leave the sample array. */
  lemma DictionaryFinds(d: TinyDictionary, bytes: seq<byte>, prefix: seq<byte>, options: nat)
    requires d.IndexOf(bytes) && StrictlyIncreasing(Records(bytes, 0, 0)) && !EndsUndefined(bytes, 0)
    ensures d.index.Valid()
    ensures var ws := Records(bytes, 0, 0);
            d.LookupOf(prefix, options)
            == if ws == [] then Failed
               else if KeyOverruns(Samples(ws), prefix) then OutOfArray
               else Found(Filter(ws, prefix, IsExact(options)))
  {
    hide Records, Filter, KeyOverruns, EndsUndefined, StrictlyIncreasing;
    LookupIsFilter(bytes, prefix, IsExact(options));
  }

  /** A data file just opened on a plain file, or on a dictzip file whose chunks all load, is sound, and its text is the
      file itself or the unpacked text. */
  lemma OpenedIsSound(d: TinyDictDataFile, file: CFile)
    requires d.OpenedOn(file) && DataLoads(file.data, d.inflate)
    ensures d.Valid() && d.Sound() && d.WholeText() == DataText(file.data, d.inflate)
    ensures d.Stored() == DataLayout(file.data)
  {
    hide ChunkCache.Healthy, ChunkCache.Flat, TextSize, TableOf, HeaderTable, ReadHeader;
    if d.compressed {
      SizeIsFlatLength(d.zstream.OpenTable());
      StreamLayout(d.zstream);
      HeaderLayout(file.data, d.inflate, ReadHeader(file.data).h);
    }
  }

  // ---- what other operations leave alone ----

  /** A sound dictionary stays so, with the same content, as long as nothing that it depends on changes. */
  twostate lemma DictionaryStays(d: TinyDictionary)
    requires old(d.Sound())
    requires unchanged(d.index) && unchanged(d.index.list)
    requires forall o: object :: o in old(d.data.Owned()) ==> unchanged(o)
    ensures d.Sound() && d.Content() == old(d.Content())
    ensures d.data.Owned() == old(d.data.Owned()) && d.data.Footprint() == old(d.data.Footprint())
    ensures forall o: object :: o in d.data.Owned() ==> old(allocated(o))
  {
    hide TinyDictDataFile.Sound, TinyDictDataFile.Valid, TinyDictDataFile.WholeText, TinyDictDataFile.Stored;
    assert d.data in old(d.data.Owned());
    assert old(d.data.zstream) != null ==> old(d.data.zstream) in old(d.data.Owned());
  }

  /** Of what fetching an article may change, the file owns all but the C files. */
  lemma FootprintIsOwned(d: TinyDictDataFile)
    ensures forall o: object? :: o in d.Footprint() ==> o == null || o is CFile || o in d.Owned()
    ensures forall o: object :: o in d.Owned() ==>
              !(o is CFile) && !(o is TinyDictWordList) && !(o is TinyDictIndexFile)
  {
  }

  lemma StreamLayout(z: ZStream)
    requires z.Valid()
    ensures TableLayout(z.OpenTable()) == Chunks(z.chunkLength, z.chunks.Length)
  {
  }

  lemma HeaderLayout(data: seq<byte>, inflate: Inflater, h: Header)
    ensures TableLayout(HeaderTable(data, inflate, h)) == Chunks(h.chunkLength, |h.chunks|)
  {
  }
}
