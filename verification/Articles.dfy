/** Articles: slices of a dictionary's text, fetched from a plain or a chunked data file. */
module Articles {
  import opened Bytes
  import opened IndexRecords
  import opened ChunkCache
  import opened ChunkFile
  import opened GzipHeader
  import opened FlatText
  import opened CFiles
  import opened Division
  import Crc

  /** `NoArticle` is NULL; `Garbled` is an answer that the code does not define. */
  datatype Article = NoArticle | Garbled | Text(text: seq<byte>)

  /** The range check of a data file adds two 32-bit numbers, which may wrap around. */
  predicate InRange(w: Word, size: nat) {
    (w.start + w.size) % U32 <= size
  }

  predicate IsSlice(text: seq<byte>, whole: seq<byte>, start: nat, size: nat) {
    start + size <= |whole| && text == whole[start..start + size]
  }

  /** The two magic bytes of a gzip file. */
  predicate IsGzip(data: seq<byte>) {
    |data| >= 10 && data[0] == 0x1f && data[1] == 0x8b
  }

  /** When a data file opens: at least ten bytes and, if it is a gzip file, a readable header and last chunk. */
  predicate DataOpens(data: seq<byte>, inflate: Inflater) {
    |data| >= 10
    && (IsGzip(data) ==>
          var r := ReadHeader(data);
          r.Parsed? && OpensFully(HeaderTable(data, inflate, r.h), r.h.cursor.error))
  }

  /** A data file that opens and, if it is compressed, whose chunks all load. */
  predicate DataLoads(data: seq<byte>, inflate: Inflater) {
    DataOpens(data, inflate) && (IsGzip(data) ==> Healthy(HeaderTable(data, inflate, ReadHeader(data).h)))
  }

  /** The whole text of such a file. */
  function DataText(data: seq<byte>, inflate: Inflater): seq<byte>
    requires DataLoads(data, inflate)
  {
    if IsGzip(data) then Flat(HeaderTable(data, inflate, ReadHeader(data).h)) else data
  }

  /** How a file stores its text: as it is, or in chunks. */
  datatype Layout = Plain | Chunks(length: nat, count: nat)

  function DataLayout(data: seq<byte>): Layout {
    if IsGzip(data) && ReadHeader(data).Parsed?
    then Chunks(ReadHeader(data).h.chunkLength, |ReadHeader(data).h.chunks|)
    else Plain
  }

  function TableLayout(t: Table): Layout { Chunks(t.chunkLength, Count(t)) }

  /** Writing and opening a dictzip file: it opens exactly when its header checksum, if any, is right, and then every
      chunk loads and the text is the text that was packed. */
  lemma WrittenFileOpens(f: Fields, crc16: u16, pieces: seq<seq<byte>>, trailer: seq<byte>, inflate: Inflater,
                         texts: seq<seq<byte>>)
    requires ValidFields(f) && |trailer| >= 4
    requires forall n :: 0 <= n < |pieces| ==> |pieces[n]| < 0x1_0000
    requires f.chunks == Sizes(pieces) && Unpacks(inflate, f.chunkLength, pieces, texts)
    requires Regular(texts, f.chunkLength)
    ensures var data := PutFile(f, crc16, pieces, trailer);
            && IsGzip(data)
            && (DataOpens(data, inflate) <==> f.headerCrc ==> crc16 == Crc.Low16(Crc.Update(0, PutCovered(f))))
            && (DataOpens(data, inflate) ==> DataLoads(data, inflate) && DataText(data, inflate) == Join(texts))
            && DataLayout(data) == Chunks(f.chunkLength, |pieces|)
  {
    hide HeaderTable, Healthy, Flat, Unpacks, Regular, OpensFully;
    var data := PutFile(f, crc16, pieces, trailer);
    WrittenFile(f, crc16, pieces, trailer, inflate, texts);
    HeaderRoundTrip(f, crc16, Join(pieces) + trailer);
    assert IsGzip(data) by { FixedRoundTrip(data, f, crc16); }
    HealthyOpens(HeaderTable(data, inflate, ReadHeader(data).h), ReadHeader(data).h.cursor.error);
  }

  lemma HealthyOpens(t: Table, error: bool)
    requires Healthy(t)
    ensures OpensFully(t, error) == !error
  {
  }

  // ---- the article buffer ----

  /** What is reserved for an article: one byte more than its size, as a signed 32-bit number. */
  function Reserved(size: u32): (n: int)
    ensures n < 0x8000_0000 && (n > size <==> size < 0x7FFF_FFFF)
  {
    var n := (size + 1) % U32;
    if n < 0x8000_0000 then n else n - U32
  }

  /** What the buffer holds after reserving; it never shrinks. */
  function RoomFor(room: nat, size: u32): (n: nat)
    ensures n >= room && n >= Reserved(size) && (n == room || n == Reserved(size))
  {
    if room < Reserved(size) then Reserved(size) else room
  }

  /** Whether fetching an article of `size` bytes, of which `copied` bytes are there, writes beyond a buffer for `room`
      bytes: nothing is reserved for 2^31-1 bytes or more. */
  predicate Overflows(size: u32, copied: nat, room: nat) {
    size >= 0x7FFF_FFFF && (copied == size || copied > room)
  }

  // ---- plain files ----

  /** The article in a file that is not compressed, read into a buffer for `room` bytes. */
  function PlainArticle(data: seq<byte>, w: Word, room: nat): Article {
    if !InRange(w, |data|) then NoArticle
    else
      var bytes := Slice(data, w.start, w.size);
      if |bytes| > room then Garbled
      else if |bytes| != w.size then NoArticle
      else if w.size >= room then Garbled
      else Text(bytes)
  }

  /** From a plain file, exactly the articles within it of less than 2^31-1 bytes are given, and exactly those that overflow
      the buffer are undefined. */
  lemma PlainExactly(data: seq<byte>, w: Word, room: nat)
    requires |data| < U32 && room < 0x8000_0000
    ensures var a := PlainArticle(data, w, RoomFor(room, w.size));
            && (a.Text? <==> w.start + w.size <= |data| && w.size < 0x7FFF_FFFF)
            && (a.Text? ==> IsSlice(a.text, data, w.start, w.size))
            && (a.Garbled? <==> InRange(w, |data|) && Overflows(w.size, |Slice(data, w.start, w.size)|, room))
  {
    var bytes := Slice(data, w.start, w.size);
    assert |bytes| == w.size ==> w.size == 0 || w.start + w.size <= |data|;
    if w.start + w.size <= |data| {
      assert bytes == data[w.start..w.start + w.size];
    }
  }

  // ---- compressed files ----

  /** The article in a compressed file, read into a buffer for `room` bytes, and the cache that fetching it leaves. */
  function ChunkedArticle(t: Table, c: Cache, size: nat, w: Word, room: nat): (Article, Cache) {
    if !InRange(w, size) then (NoArticle, c)
    else
      var r := ReadInto(t, c, w.start, w.size, room);
      match r.status
      case Done => (if w.size < room then Text(r.out) else Garbled, r.cache)
      case Short => (NoArticle, r.cache)
      case Undefined => (Garbled, r.cache)
  }

  /** The start lies behind the text, but in the last chunk. */
  predicate StartsBehind(t: Table, w: Word)
    requires Healthy(t)
  {
    w.size > 0 && w.start > |Flat(t)| && ChunkOf(t, w.start) < Count(t)
  }

  /** Of an article of less than 2^31-1 bytes, fetching it is reading it. */
  lemma SmallArticle(t: Table, c: Cache, size: nat, w: Word, room: nat)
    requires w.size < 0x7FFF_FFFF && InRange(w, size)
    ensures var (a, d), r := ChunkedArticle(t, c, size, w, RoomFor(room, w.size)), Read(t, c, w.start, w.size);
            && d == r.cache
            && a == if r.status.Done? then Text(r.out) else if r.status.Short? then NoArticle else Garbled
  {
    hide Read, ReadInto;
    RoomEnough(t, c, w.start, w.size, RoomFor(room, w.size));
  }

  /** A larger one is never given: either nothing is, or the buffer overflows. */
  lemma LargeArticle(t: Table, c: Cache, w: Word, room: nat)
    requires Healthy(t) && Coherent(t, c) && room < 0x8000_0000
    requires w.size >= 0x7FFF_FFFF && InRange(w, |Flat(t)|)
    ensures var (a, d) := ChunkedArticle(t, c, |Flat(t)|, w, RoomFor(room, w.size));
            && !a.Text? && (d == c || d == Read(t, c, w.start, w.size).cache)
            && (a.Garbled? <==> StartsBehind(t, w) || Overflows(w.size, Copied(t, c, w.start, w.size), room))
  {
    hide Read, Healthy, Coherent, Flat, Copied;
    HealthyLength(t);
    ReadCopies(t, c, w.start, w.size);
    HeadFirst(t, c, w.start, w.size);
    ReadUndefined(t, c, w.start, w.size);
  }

  /** The exact condition for an answer that the code does not define, from a healthy compressed file: the article passes
      the range check and either starts behind the text, which takes a sum that wraps around, or overflows the buffer. */
  lemma GarbledExactly(t: Table, c: Cache, w: Word, room: nat)
    requires Healthy(t) && Coherent(t, c) && room < 0x8000_0000
    ensures ChunkedArticle(t, c, |Flat(t)|, w, RoomFor(room, w.size)).0.Garbled?
            <==> InRange(w, |Flat(t)|)
                 && (StartsBehind(t, w) || Overflows(w.size, Copied(t, c, w.start, w.size), room))
  {
    if InRange(w, |Flat(t)|) {
      hide Read, Healthy, Coherent, Flat, Copied, ChunkedArticle;
      if w.size < 0x7FFF_FFFF {
        HealthyLength(t);
        SmallArticle(t, c, |Flat(t)|, w, room);
        ReadUndefined(t, c, w.start, w.size);
      } else {
        LargeArticle(t, c, w, room);
      }
    }
  }

  /** A fetch from a healthy compressed file keeps the cache coherent, and an article is the slice of the text that its
      record names. */
  lemma ChunkedIsSlice(t: Table, c: Cache, w: Word, room: nat)
    requires Healthy(t) && Coherent(t, c) && room < 0x8000_0000
    ensures var (a, d) := ChunkedArticle(t, c, |Flat(t)|, w, RoomFor(room, w.size));
            && Coherent(t, d)
            && (a.Text? ==> IsSlice(a.text, Flat(t), w.start, w.size))
            && (a.Garbled? <==> InRange(w, |Flat(t)|)
                                && (StartsBehind(t, w) || Overflows(w.size, Copied(t, c, w.start, w.size), room)))
  {
    hide Read, Healthy, Coherent, Flat, Copied, ChunkedArticle, Overflows, StartsBehind;
    GarbledExactly(t, c, w, room);
    HealthyIsHarmless(t);
    ReadCoherent(t, c, w.start, w.size);
    if !InRange(w, |Flat(t)|) {
      OutOfRange(t, c, |Flat(t)|, w, RoomFor(room, w.size));
    } else if w.size < 0x7FFF_FFFF {
      SmallArticle(t, c, |Flat(t)|, w, room);
      ReadLength(t, c, w.start, w.size);
      if Read(t, c, w.start, w.size).status.Done? && w.size > 0 {
        DeliversSlice(t, w.start, Read(t, c, w.start, w.size).out);
      }
    } else {
      LargeArticle(t, c, w, room);
    }
  }

  lemma OutOfRange(t: Table, c: Cache, size: nat, w: Word, room: nat)
    requires !InRange(w, size)
    ensures ChunkedArticle(t, c, size, w, room) == (NoArticle, c)
  {
  }

  /** The range check passes an article that is not within the text exactly when the sum wraps around to a small one. */
  lemma RangeCheckExactly(w: Word, size: nat)
    requires size < U32
    ensures InRange(w, size) <==> w.start + w.size <= size || U32 <= w.start + w.size <= size + U32
  {
  }

  /** The longest text that a chunk table can describe with nothing in its last chunk. */
  function LargeTable(): (t: Table)
    ensures t.chunkLength == Count(t) == 65535
    ensures forall n :: 0 <= n < 65535 ==> t.chunks[n] == LargeChunk(n)
  {
    var chunks := seq(65535, i requires 0 <= i < 65535 => LargeChunk(i));
    assert forall n :: 0 <= n < |chunks| ==> chunks[n] == LargeChunk(n);
    Table(65535, chunks)
  }

  function LargeChunk(n: nat): (a: Attempt)
    ensures a.Inflated? && |a.out| <= 65535
  {
    Inflated(if n < 65534 then Zeros(65535) else [])
  }

  function Zeros(n: nat): (s: seq<byte>)
    ensures |s| == n
  {
    seq(n, _ => 0)
  }

  lemma LargeTableText()
    ensures Healthy(LargeTable()) && |Flat(LargeTable())| == 65534 * 65535
  {
    var t := LargeTable();
    assert Count(t) == 65535 && t.chunks[65534] == Inflated([]);
    forall n | 0 <= n < Count(t) ensures ChunkText(t, n) == Some(if n < 65534 then Zeros(65535) else []) {
    }
    JoinLength(Texts(t), 65535);
    MultipleIsProduct(65534, 65535);
  }

  /** For instance: of a text of 65534 times 65535 bytes, an article that starts behind its end, in the empty last chunk, and
      has 196605 bytes passes the check, because the sum wraps around to zero. */
  lemma WrapIsGarbled(room: nat)
    requires room < 0x8000_0000
    ensures var t, w := LargeTable(), Word(0, 0, 65534 * 65535 + 1, 196605, []);
            && Healthy(t) && |Flat(t)| < w.start < w.start + w.size
            && ChunkedArticle(t, FRESH, |Flat(t)|, w, RoomFor(room, w.size)).0 == Garbled
  {
    hide ChunkedArticle, LargeTable, Healthy, Flat, Copied;
    var t, w := LargeTable(), Word(0, 0, 65534 * 65535 + 1, 196605, []);
    LargeTableText();
    LastChunk(t, w.start);
    GarbledExactly(t, FRESH, w, room);
  }

  lemma LastChunk(t: Table, p: nat)
    requires t == LargeTable() && p == 65534 * 65535 + 1
    ensures t.chunkLength == 65535 && ChunkOf(t, p) == 65534 < Count(t)
  {
    MultipleIsProduct(65534, 65535);
    QuotientUnique(p, 65535, 65534);
  }

  /** For instance: of a file of three bytes, plain or compressed, an article that starts at 2 and has 2^32-2 bytes passes
      the check. Nothing is reserved, and one byte is copied into a buffer for none. */
  lemma UnreservedIsGarbled()
    ensures var t, w := Table(10, [Inflated([1, 2, 3])]), Word(0, 0, 2, 0xFFFF_FFFE, []);
            && Healthy(t) && Flat(t) == [1, 2, 3] && RoomFor(0, w.size) == 0
            && ChunkedArticle(t, FRESH, 3, w, 0).0 == Garbled && PlainArticle([1, 2, 3], w, 0) == Garbled
  {
    hide ChunkedArticle;
    var t, w := Table(10, [Inflated([1, 2, 3])]), Word(0, 0, 2, 0xFFFF_FFFE, []);
    ThreeBytes(t);
    assert Left(t, 2) == 1;
    assert Copied(t, FRESH, 2, w.size) == 1;
    GarbledExactly(t, FRESH, w, 0);
    PlainExactly([1, 2, 3], w, 0);
    assert |Slice([1, 2, 3], 2, w.size)| == 1;
  }

  lemma ThreeBytes(t: Table)
    requires t == Table(10, [Inflated([1, 2, 3])])
    ensures Healthy(t) && Flat(t) == [1, 2, 3]
  {
    assert ChunkText(t, 0) == Some([1, 2, 3]);
    assert Texts(t) == [[1, 2, 3]];
    assert Join([[1, 2, 3]]) == [1, 2, 3] + Join([]);
  }

  // ---- which articles are given ----

  /** A plain and a compressed file with the same text never give different articles. */
  lemma FilesAgree(data: seq<byte>, t: Table, c: Cache, w: Word, plainRoom: nat, chunkedRoom: nat)
    requires Healthy(t) && Coherent(t, c) && Flat(t) == data && |data| < U32
    requires plainRoom < 0x8000_0000 && chunkedRoom < 0x8000_0000
    ensures var plain := PlainArticle(data, w, RoomFor(plainRoom, w.size));
            var chunked := ChunkedArticle(t, c, |data|, w, RoomFor(chunkedRoom, w.size)).0;
            plain.Text? && chunked.Text? ==> plain == chunked
  {
    hide PlainArticle, ChunkedArticle, Copied, Healthy, Coherent, Flat;
    ChunkedIsSlice(t, c, w, chunkedRoom);
    PlainExactly(data, w, plainRoom);
  }

  /** Which articles within the text a compressed file gives on the first or the second attempt: of less than 2^31-1 bytes,
      exactly those that span at most two chunks and, if they are empty, start in a chunk that there is. (With chunks of
      16-bit length, larger ones span more.) */
  lemma ArticleWithinTwoAttempts(t: Table, c: Cache, w: Word, room: nat)
    requires Healthy(t) && Coherent(t, c) && w.start + w.size <= |Flat(t)| < U32
    requires room < 0x8000_0000
    ensures var size, n := |Flat(t)|, RoomFor(room, w.size);
            var (first, d) := ChunkedArticle(t, c, size, w, n);
            var (second, _) := ChunkedArticle(t, d, size, w, RoomFor(n, w.size));
            first.Text? || second.Text?
            <==> w.size < 0x7FFF_FFFF
                 && if w.size == 0 then ChunkOf(t, w.start) < Count(t)
                    else ChunkOf(t, w.start + w.size - 1) <= ChunkOf(t, w.start) + 1
  {
    hide Read, Healthy, Coherent, Flat, ChunkedArticle;
    HealthyLength(t);
    assert InRange(w, |Flat(t)|);
    var n := RoomFor(room, w.size);
    var d := ChunkedArticle(t, c, |Flat(t)|, w, n).1;
    ChunkedIsSlice(t, c, w, room);
    if w.size < 0x7FFF_FFFF {
      SmallArticle(t, c, |Flat(t)|, w, room);
      SmallArticle(t, d, |Flat(t)|, w, n);
      if w.size == 0 {
        EmptyRead(t, c, w.start);
        EmptyRead(t, d, w.start);
      } else {
        TwoAttempts(t, c, w.start, w.size);
      }
    } else {
      LargeArticle(t, c, w, room);
      LargeArticle(t, d, w, n);
    }
  }

  /** With chunks of 16-bit length, 2^31-1 bytes span more than two of them. */
  lemma LargeIsLong(t: Table, start: nat, len: nat)
    requires 0 < t.chunkLength < 0x1_0000 && len >= 0x7FFF_FFFF
    ensures ChunkOf(t, start + len - 1) > ChunkOf(t, start) + 1
  {
    var n, cl := ChunkOf(t, start), t.chunkLength;
    assert Multiple(n + 1, cl) == Multiple(n, cl) + cl;
    if ChunkOf(t, start + len - 1) <= n + 1 {
      MultipleMono(ChunkOf(t, start + len - 1), n + 1, cl);
    }
  }

  /** An article that comes at once: within the text, of less than 2^31-1 bytes and, in a compressed file, within one chunk
      or, if it is empty, at a position in a chunk that there is. */
  predicate ComesAtOnce(text: seq<byte>, layout: Layout, w: Word)
    requires layout.Chunks? ==> layout.length > 0
  {
    && w.start + w.size <= |text| && w.size < 0x7FFF_FFFF
    && (layout.Chunks? ==>
          if w.size == 0 then Quotient(w.start, layout.length) < layout.count
          else Quotient(w.start, layout.length) == Quotient(w.start + w.size - 1, layout.length))
  }

  /** One that never comes: beyond the text, too large, across more than two chunks, or empty behind the last chunk. */
  predicate NeverComes(text: seq<byte>, layout: Layout, w: Word)
    requires layout.Chunks? ==> layout.length > 0
  {
    || w.start + w.size > |text| || w.size >= 0x7FFF_FFFF
    || (layout.Chunks? &&
          if w.size == 0 then Quotient(w.start, layout.length) >= layout.count
          else Quotient(w.start + w.size - 1, layout.length) > Quotient(w.start, layout.length) + 1)
  }

  /** What fetching the article of `w` may give, whatever was fetched before. */
  predicate ArticleOf(a: Article, text: seq<byte>, layout: Layout, w: Word) {
    && (layout.Chunks? ==> layout.length > 0)
    && (ComesAtOnce(text, layout, w) ==> a.Text?)
    && (NeverComes(text, layout, w) ==> !a.Text?)
    && (a.Text? ==> IsSlice(a.text, text, w.start, w.size))
    && (a.Garbled? ==> w.start + w.size >= U32 || w.size >= 0x7FFF_FFFF)
  }

  lemma PlainIsArticle(data: seq<byte>, w: Word, room: nat)
    requires |data| < U32 && room < 0x8000_0000
    ensures ArticleOf(PlainArticle(data, w, RoomFor(room, w.size)), data, Plain, w)
  {
    hide PlainArticle;
    PlainExactly(data, w, room);
  }

  lemma ChunkedIsArticle(t: Table, c: Cache, w: Word, room: nat)
    requires Healthy(t) && Coherent(t, c) && room < 0x8000_0000
    ensures ArticleOf(ChunkedArticle(t, c, |Flat(t)|, w, RoomFor(room, w.size)).0, Flat(t), TableLayout(t), w)
  {
    hide Read, Healthy, Coherent, Flat, Copied, ChunkedArticle;
    HealthyLength(t);
    ChunkedIsSlice(t, c, w, room);
    if InRange(w, |Flat(t)|) {
      if w.size >= 0x7FFF_FFFF {
        LargeArticle(t, c, w, room);
      } else if w.start + w.size <= |Flat(t)| {
        SmallArticle(t, c, |Flat(t)|, w, room);
        SmallComes(t, c, w.start, w.size);
      }
    } else {
      OutOfRange(t, c, |Flat(t)|, w, RoomFor(room, w.size));
    }
  }

  /** Which reads within the text succeed, whatever the cache holds, and which ones fail. */
  lemma SmallComes(t: Table, c: Cache, start: nat, len: nat)
    requires Healthy(t) && Coherent(t, c) && start + len <= |Flat(t)|
    ensures t.chunkLength > 0
    ensures len == 0 ==> (Read(t, c, start, len).status.Done? <==> ChunkOf(t, start) < Count(t))
    ensures len > 0 && ChunkOf(t, start) == ChunkOf(t, start + len - 1) ==> Read(t, c, start, len).status.Done?
    ensures len > 0 && ChunkOf(t, start + len - 1) > ChunkOf(t, start) + 1 ==> !Read(t, c, start, len).status.Done?
  {
    hide Read, Healthy, Coherent, Flat;
    HealthyLength(t);
    if len == 0 {
      EmptyRead(t, c, start);
    } else {
      ReadSucceeds(t, c, start, len);
      OneChunkRest(t, c, start, len);
      if ChunkOf(t, start + len - 1) > ChunkOf(t, start) + 1 {
        LongReadFails(t, c, start, len);
      }
    }
  }

  lemma OneChunkRest(t: Table, c: Cache, start: nat, len: nat)
    requires t.chunkLength > 0 && len > 0
    ensures ChunkOf(t, start) == ChunkOf(t, start + len - 1) ==> RestInOneChunk(t, c, start, len)
  {
    var k := Cached(c, start, len);
    if k < len {
      QuotientMono(start, start + k, t.chunkLength);
      QuotientMono(start + k, start + len - 1, t.chunkLength);
    }
  }
}
