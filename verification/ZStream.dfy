/** `TinyDictZStream`: reading a dictzip file through a buffer that holds one inflated chunk. */
module ZStreams {
  import opened Bytes
  import opened CFiles
  import opened Division
  import opened GzipHeader
  import opened ChunkCache
  import opened ChunkFile
  import Crc

  method Memcpy(dst: array<byte>, at: nat, src: array<byte>, from: nat, n: nat)
    requires dst != src && at + n <= dst.Length && from + n <= src.Length
    modifies dst
    ensures dst[..at + n] == old(dst[..at]) + old(src[from..from + n])
  {
    forall i | 0 <= i < n {
      dst[at + i] := src[from + i];
    }
  }

  lemma WordsStep(data: seq<byte>, c: Cursor, n: nat)
    ensures Words(data, c, 0) == ([], c)
    ensures var (front, d) := Words(data, c, n);
            var (w, e) := U16(data, d);
            Words(data, c, n + 1) == (front + [w], e)
  {
  }

  lemma SubSlice(a: array<byte>, n: nat, i: nat, j: nat)
    requires i <= j <= n <= a.Length
    ensures a[..n][i..j] == a[i..j]
  {
  }

  /** The rest of a read in terms of the unsigned count of ready bytes, which is huge when there are none. */
  lemma FinishReady(head: seq<byte>, d: Cache, pos: nat, left: u32, ready: nat)
    requires d.start <= pos && pos - d.start < 0x1_0000 && |d.text| < 0x1_0000
    requires ready == Min((|d.text| - (pos - d.start)) % U32, left)
    ensures var from := pos - d.start;
            Finish(head, d, pos, left)
            == if ready == 0 then ReadResult(if left == 0 then Done else Short, head, d)
               else if from + ready > |d.text| then ReadResult(Undefined, head, d)
               else ReadResult(if ready == left then Done else Short, head + d.text[from..from + ready], d)
  {
    var from := pos - d.start;
    if from <= |d.text| {
      assert (|d.text| - from) % U32 == |d.text| - from;
      assert head + d.text[from..from] == head;
    } else {
      assert (|d.text| - from) % U32 == |d.text| - from + U32;
    }
  }

  class ZStream {
    const inflate: Inflater
    var f: CFile
    var crc: nat
    var size: nat
    var error: bool
    var chunks: array<u16>
    var offsets: array<nat>
    var chunkLength: u16
    var unpBuffer: array?<byte>
    var unpBufferStart: nat
    var unpBufferLen: nat

    /** The chunk table and the unpacked buffer are consistent. */
    ghost predicate Valid()
      reads this, unpBuffer
    {
      && chunks.Length == offsets.Length < 0x1_0000
      && unpBuffer as object? != chunks && unpBuffer as object? != offsets && chunks as object != offsets
      && (unpBuffer == null ==> unpBufferStart == unpBufferLen == 0)
      && (unpBuffer != null ==> unpBuffer.Length == chunkLength && unpBufferLen <= chunkLength)
    }

    /** The abstract state of the buffer. */
    ghost function State(): Cache
      requires Valid()
      reads this, unpBuffer
    {
      Cache(error, unpBufferStart, if unpBuffer == null then [] else unpBuffer[..unpBufferLen])
    }

    /** What the chunks of the open file come to. */
    ghost function OpenTable(): Table
      requires chunks.Length == offsets.Length
      reads this`f, this`chunkLength, this`chunks, this`offsets, chunks, offsets
    {
      TableOf(f.data, inflate, chunkLength, offsets[..], chunks[..])
    }

    ghost function Cur(): Cursor
      reads this, f
    {
      Cursor(f.pos, error, crc)
    }

    constructor (inflate: Inflater, file: CFile)
      ensures Valid() && this.inflate == inflate && f == file && unpBuffer == null && fresh(chunks) && fresh(offsets)
    {
      this.inflate := inflate;
      f, crc, size, error := file, 0, 0, false;
      chunks := new u16[0];
      offsets := new nat[0];
      chunkLength := 0;
      unpBuffer, unpBufferStart, unpBufferLen := null, 0, 0;
    }

    /** Exactly `n` bytes, or the error flag. */
    method ReadExactly(n: nat) returns (bytes: seq<byte>)
      modifies this`error, this`crc, f
      ensures (bytes, Cur()) == Take(f.data, old(Cur()), n)
    {
      if error {
        return [];
      }
      bytes := f.Fread(n);
      if |bytes| == n {
        crc := Crc.Update(crc, bytes);
      } else {
        error := true;
        bytes := [];
      }
    }

    method ReadU8() returns (b: byte)
      modifies this`error, this`crc, f
      ensures (b, Cur()) == U8(f.data, old(Cur()))
    {
      var bytes := ReadExactly(1);
      b := if |bytes| == 1 then bytes[0] else 0;
    }

    method ReadU16() returns (n: u16)
      modifies this`error, this`crc, f
      ensures (n, Cur()) == U16(f.data, old(Cur()))
    {
      var bytes := ReadExactly(2);
      n := if |bytes| == 2 then bytes[0] as int + 256 * bytes[1] as int else 0;
    }

    /** The header fields up to the chunk count; false when the file ended before it. */
    method ReadChunkHead() returns (extraLength: u16, chunkCount: u16, ok: bool)
      modifies this`error, this`crc, this`chunkLength, f
      ensures var (length, c1) := ReadExtraHead(f.data, old(Cur()));
              var (_, c2) := U16(f.data, c1);
              var (cl, c3) := U16(f.data, c2);
              var (count, c4) := U16(f.data, c3);
              extraLength == length && chunkLength == cl && chunkCount == count && Cur() == c4 && ok == !c4.error
    {
      extraLength := ReadU16();
      var id1 := ReadU8();
      var id2 := ReadU8();
      var subLength := ReadU16();
      var version := ReadU16();
      chunkLength := ReadU16();
      chunkCount := ReadU16();
      ok := !error;
    }

    method ReadChunkSizes(chunkCount: u16)
      modifies this`error, this`crc, this`chunks, f
      ensures fresh(chunks) && (chunks[..], Cur()) == Words(f.data, old(Cur()), chunkCount)
    {
      hide U16, Words;
      ghost var start := Cur();
      WordsStep(f.data, start, 0);
      chunks := new u16[chunkCount];
      var i := 0;
      while i < chunkCount
        invariant 0 <= i <= chunkCount && fresh(chunks) && chunks.Length == chunkCount
        invariant (chunks[..i], Cur()) == Words(f.data, start, i)
      {
        WordsStep(f.data, start, i);
        var w := ReadU16();
        chunks[i] := w;
        assert chunks[..i + 1] == chunks[..i] + [w];
        i := i + 1;
      }
      assert chunks[..chunkCount] == chunks[..];
    }

    /** Skips an optional zero-terminated field and says how many bytes it takes. */
    method SkipField(present: bool) returns (n: nat)
      modifies this`error, this`crc, f
      ensures (n, Cur()) == SkipOptional(f.data, old(Cur()), present)
    {
      n := 0;
      if present {
        var b := ReadU8();
        while b != 0
          invariant var (m, c) := SkipString(f.data, old(Cur()));
                    if b == 0 then m == n && c == Cur()
                    else m == n + 1 + SkipString(f.data, Cur()).0 && c == SkipString(f.data, Cur()).1
          invariant b != 0 ==> f.pos <= |f.data|
          decreases b != 0, |f.data| - f.pos
        {
          n := n + 1;
          b := ReadU8();
        }
        n := n + 1;
      }
    }

    method CheckHeaderCrc(present: bool) returns (n: nat)
      modifies this`error, this`crc, f
      ensures (n, Cur()) == CheckCrc(f.data, old(Cur()), present)
    {
      n := 0;
      if present {
        var v := Crc.Low16(crc);
        var stored := ReadU16();
        if stored != v {
          error := true;
        }
        n := 2;
      }
    }

    /** `offsets` as prefix sums from the end of the header on; `size` as the sum of the packed sizes. */
    method FillOffsets(headerLength: nat)
      modifies this`offsets, this`size
      ensures fresh(offsets) && offsets[..] == Offsets(headerLength, chunks[..])
    {
      hide OffsetOf;
      offsets := new nat[chunks.Length];
      ghost var sizes := chunks[..];
      if chunks.Length > 0 {
        FirstOffset(headerLength, sizes);
        offsets[0] := headerLength;
        size := chunks[0];
        var i := 1;
        while i < chunks.Length
          invariant 1 <= i <= chunks.Length && fresh(offsets) && offsets.Length == chunks.Length
          invariant sizes == chunks[..]
          invariant forall k :: 0 <= k < i ==> offsets[k] == OffsetOf(headerLength, sizes, k)
        {
          OffsetStep(headerLength, sizes, i - 1);
          offsets[i] := offsets[i - 1] + chunks[i - 1];
          size := size + chunks[i];
          i := i + 1;
        }
      }
    }

    /** Inflates one packed chunk into the buffer. */
    method InflateInto(packed: seq<byte>) returns (r: InflateResult)
      requires Valid() && unpBuffer != null
      modifies unpBuffer
      ensures Valid() && r == Inflate(inflate, packed, chunkLength)
      ensures unpBuffer[..] == r.out + old(unpBuffer[..])[|r.out|..]
    {
      r := Inflate(inflate, packed, chunkLength);
      forall i | 0 <= i < |r.out| {
        unpBuffer[i] := r.out[i];
      }
    }

    /** Unpacks chunk `n`: all of the input must be used up, and a chunk before the last must come out at full length. */
    method Unpack(packed: seq<byte>, n: nat) returns (ok: bool)
      requires Valid() && unpBuffer != null && n < chunks.Length
      modifies this`unpBufferLen, unpBuffer
      ensures Valid()
      ensures var r := Inflate(inflate, packed, chunkLength);
              var text, before := unpBuffer[..unpBufferLen], old(unpBuffer[..unpBufferLen]);
              if r.ok && r.rest == 0
              then text == r.out && ok == (n == chunks.Length - 1 || |r.out| == chunkLength)
              else text == Overlay(r.out, before) && !ok
    {
      var r := InflateInto(packed);
      if !r.ok {
        return false;
      }
      if r.rest > 0 {
        return false;
      }
      unpBufferLen := |r.out|;
      ok := n == chunks.Length - 1 || unpBufferLen == chunkLength;
    }

    /** The packed bytes of one chunk and the four bytes after them, which are read as its checksum. */
    method ReadPacked(offset: nat, packedSize: u16) returns (packed: seq<byte>, ok: bool)
      modifies this`error, this`crc, f
      ensures ok == (!old(error) && offset + packedSize + 4 <= |f.data|)
      ensures error == !ok
      ensures ok ==> packed == f.data[offset..offset + packedSize]
    {
      f.Seek(offset);
      crc := 0;
      packed := [];
      if !error {
        packed := f.Fread(packedSize);
        crc := Crc.Update(crc, packed);
      }
      var trailer := ReadExactly(4);
      ok := |packed| == packedSize && !error;
    }

    /** `readChunk`. A checksum that differs from the four bytes after the chunk is reported but not acted on. */
    method ReadChunk(n: nat) returns (ok: bool)
      requires Valid()
      modifies this`error, this`crc, this`unpBuffer, this`unpBufferStart, this`unpBufferLen, f, unpBuffer
      ensures Valid() && (unpBuffer == old(unpBuffer) || fresh(unpBuffer))
      ensures OpenTable() == old(OpenTable()) && (ok ==> unpBuffer != null)
      ensures (ok, State()) == Load(OpenTable(), old(State()), n)
    {
      if n >= chunks.Length {
        return false;
      }
      if unpBuffer == null {
        unpBuffer := new byte[chunkLength];
      }
      ghost var t := OpenTable();
      assert t.chunks[n] == AttemptAt(f.data, inflate, chunkLength, offsets[n], chunks[n]);
      ok := LoadChunk(n, State(), t.chunks[n]);
    }

    method LoadChunk(n: nat, ghost c: Cache, ghost a: Attempt) returns (ok: bool)
      requires Valid() && unpBuffer != null && n < chunks.Length && c == State()
      requires a == AttemptAt(f.data, inflate, chunkLength, offsets[n], chunks[n])
      modifies this`error, this`crc, this`unpBufferStart, this`unpBufferLen, f, unpBuffer
      ensures Valid()
      ensures (ok, State()) == LoadAttempt(c, Multiple(n, chunkLength), a, n == chunks.Length - 1, chunkLength)
    {
      MultipleIsProduct(n, chunkLength);
      unpBufferStart := n * chunkLength;
      var packed, loaded := ReadPacked(offsets[n], chunks[n]);
      if !loaded {
        return false;
      }
      ok := Unpack(packed, n);
    }

    /** `compact`. */
    method Drop()
      requires Valid()
      modifies this`unpBuffer, this`unpBufferStart, this`unpBufferLen
      ensures Valid() && unpBuffer == null && OpenTable() == old(OpenTable())
      ensures State() == Compact(old(State()))
    {
      if unpBuffer != null {
        unpBufferStart, unpBufferLen := 0, 0;
        unpBuffer := null;
      }
    }

    /** Nothing that a caller's buffer could share memory with. */
    ghost predicate Apart(buf: array<byte>)
      reads this
    {
      buf != unpBuffer && buf as object != chunks && buf as object != offsets
    }

    /** Copies what the buffer holds from `pos` on; the count of ready bytes is an unsigned difference. */
    method CopyReady(buf: array<byte>, ghost head: seq<byte>, at: nat, pos: nat, left: u32) returns (status: Status)
      requires Valid() && Apart(buf) && unpBuffer != null && at <= buf.Length && buf[..at] == head
      requires unpBufferStart <= pos && pos - unpBufferStart < 0x1_0000
      modifies buf
      ensures Valid() && State() == old(State())
      ensures var r := Bounded(Finish(head, State(), pos, left), head, buf.Length);
              status == r.status && |r.out| <= buf.Length && buf[..|r.out|] == r.out
    {
      hide TableOf, Finish;
      var from := pos - unpBufferStart;
      var ready := (unpBufferLen - from) % U32;
      if ready > left {
        ready := left;
      }
      FinishReady(head, State(), pos, left, ready);
      if ready > 0 {
        if from + ready > unpBufferLen || at + ready > buf.Length {
          return Undefined;
        }
        SubSlice(unpBuffer, unpBufferLen, from, from + ready);
        Memcpy(buf, at, unpBuffer, from, ready);
      }
      status := if ready == left then Done else Short;
    }

    /** Loads the chunk of `pos` and copies from it. */
    method FetchChunk(buf: array<byte>, ghost head: seq<byte>, at: nat, pos: nat, left: u32, ghost t: Table, ghost c: Cache,
                      ghost r: ReadResult)
      returns (status: Status)
      requires Valid() && Apart(buf) && chunkLength > 0 && at <= buf.Length && buf[..at] == head
      requires t == OpenTable() && c == State() && r == Fetch(t, c, head, pos, left)
      modifies this`error, this`crc, this`unpBuffer, this`unpBufferStart, this`unpBufferLen, f, unpBuffer, buf
      ensures Valid() && Apart(buf) && (unpBuffer == old(unpBuffer) || fresh(unpBuffer))
      ensures OpenTable() == old(OpenTable()) && Answers(buf, Bounded(r, head, buf.Length), status)
    {
      QuotientIsDiv(pos, chunkLength);
      var ok := ReadChunk(pos / chunkLength);
      if !ok {
        return Short;
      }
      status := CopyReady(buf, head, at, pos, left);
    }

    /** The buffer, the status and the stream's state are those of the result `r`. */
    ghost predicate Answers(buf: array<byte>, r: ReadResult, status: Status)
      requires Valid()
      reads this, unpBuffer, buf
    {
      status == r.status && State() == r.cache && |r.out| <= buf.Length && buf[..|r.out|] == r.out
    }

    /** `TinyDictZStream::read`. Copying more than the caller's buffer holds is undefined. */
    method Read(buf: array<byte>, start: u32, len: u32) returns (status: Status)
      requires Valid() && Apart(buf)
      modifies this`error, this`crc, this`unpBuffer, this`unpBufferStart, this`unpBufferLen, f, unpBuffer, buf
      ensures Valid() && Apart(buf) && (unpBuffer == old(unpBuffer) || fresh(unpBuffer))
      ensures OpenTable() == old(OpenTable())
      ensures Answers(buf, ReadInto(old(OpenTable()), old(State()), start, len, buf.Length), status)
    {
      hide Fetch, ChunkCache.Read;
      ghost var t, c, head := OpenTable(), State(), CachedPart(State(), start, len);
      ghost var r := ChunkCache.Read(t, c, start, len);
      if (Hits(c, start) && |head| == len) || t.chunkLength == 0 {
        ReadStops(t, c, start, len, head);
      } else {
        ReadFetches(t, c, start, len, head);
      }
      var ready, ok := CopyCached(buf, start, len);
      if !ok {
        return Undefined;
      }
      status := ReadFrom(buf, start, len, ready, t, c, head, r);
    }

    /** The rest of a read after the cached part, of `ready` bytes, was copied. */
    method ReadFrom(buf: array<byte>, start: u32, len: u32, ready: nat, ghost t: Table, ghost c: Cache,
                    ghost head: seq<byte>, ghost r: ReadResult)
      returns (status: Status)
      requires Valid() && Apart(buf) && t == OpenTable() && c == State() && head == CachedPart(c, start, len)
      requires ready == |head| <= buf.Length && buf[..ready] == head
      requires Hits(c, start) && |head| == len ==> r == ReadResult(Done, head, c)
      requires !(Hits(c, start) && |head| == len) && chunkLength == 0 ==> r == ReadResult(Undefined, head, c)
      requires !(Hits(c, start) && |head| == len) && chunkLength > 0
               ==> r == Fetch(t, c, head, start + |head|, len - |head|)
      modifies this`error, this`crc, this`unpBuffer, this`unpBufferStart, this`unpBufferLen, f, unpBuffer, buf
      ensures Valid() && Apart(buf) && (unpBuffer == old(unpBuffer) || fresh(unpBuffer))
      ensures OpenTable() == old(OpenTable()) && Answers(buf, Bounded(r, head, buf.Length), status)
    {
      hide Fetch, TableOf;
      if unpBufferStart <= start < unpBufferStart + unpBufferLen && ready == len {
        return Done;
      }
      if chunkLength == 0 {
        return Undefined;
      }
      status := FetchChunk(buf, head, ready, start + ready, len - ready, t, c, r);
    }

    /** Copies the part of a request that the buffer already holds, if there is room for it. */
    method CopyCached(buf: array<byte>, start: u32, len: u32) returns (ready: nat, ok: bool)
      requires Valid() && Apart(buf)
      modifies buf
      ensures Valid() && State() == old(State()) && OpenTable() == old(OpenTable())
      ensures ready == Cached(State(), start, len) && ok == (ready <= buf.Length)
      ensures ok ==> buf[..ready] == CachedPart(State(), start, len)
    {
      hide TableOf;
      ready, ok := 0, true;
      if unpBufferStart <= start < unpBufferStart + unpBufferLen {
        var from := start - unpBufferStart;
        ready := unpBufferLen - from;
        if ready > len {
          ready := len;
        }
        if ready > buf.Length {
          return ready, false;
        }
        SubSlice(unpBuffer, unpBufferLen, from, from + ready);
        Memcpy(buf, 0, unpBuffer, from, ready);
        assert buf[..ready] == buf[..0 + ready] == State().text[from..from + ready];
      }
    }

    /** The optional fields after the extra field. */
    method SkipRest(flg: byte) returns (n: nat)
      modifies this`error, this`crc, f
      ensures (n, Cur()) == ReadRest(f.data, old(Cur()), flg)
    {
      var name := SkipField(Flag(flg, FNAME));
      var comment := SkipField(Flag(flg, FCOMMENT));
      var check := CheckHeaderCrc(Flag(flg, FHCRC));
      n := name + comment + check;
    }

    /** The fields after the fixed part of the header, up to the first byte of packed data. */
    method ReadHeaderFields(flg: byte) returns (headerLength: nat, ok: bool)
      requires unpBuffer == null && f.pos == 10
      modifies this`error, this`crc, this`chunkLength, this`chunks, f
      ensures var r := ReadFields(f.data, old(Cur()), flg);
              && ok == r.Parsed?
              && (ok ==> fresh(chunks) && chunks.Length < 0x1_0000
                         && r.h == Header(chunkLength, chunks[..], headerLength, Cur()))
    {
      headerLength := 10;
      var extraLength, chunkCount, readable := ReadChunkHead();
      if !readable {
        return headerLength, false;
      }
      headerLength := headerLength + extraLength + 2;
      ReadChunkSizes(chunkCount);
      var rest := SkipRest(flg);
      headerLength := headerLength + rest;
      ok := true;
    }

    /** The trial load of the last chunk, which gives the size. With no chunks the number wraps around. */
    method LoadLast(headerLength: nat) returns (ok: bool)
      requires Valid() && unpBuffer == null
      modifies this`error, this`crc, this`size, this`unpBuffer, this`unpBufferStart, this`unpBufferLen, f
      ensures Valid() && unpBuffer == null && OpenTable() == old(OpenTable())
      ensures ok <==> OpensFully(OpenTable(), old(error))
      ensures ok ==> State() == FRESH && size == TextSize(OpenTable())
    {
      f.Seek(headerLength);
      var last := if chunks.Length == 0 then U32 - 1 else chunks.Length - 1;
      ghost var t, c := OpenTable(), State();
      ok := ReadChunk(last);
      LoadLastExactly(t, c, last);
      if ok {
        size := unpBufferStart + unpBufferLen;
        assert State().start + |State().text| == size;
      }
      Drop();
    }

    method OpenChunks(flg: byte) returns (ok: bool)
      requires Valid() && unpBuffer == null && f.pos == 10
      modifies this, f
      ensures f == old(f)
      ensures ok ==> Valid() && unpBuffer == null && fresh(chunks) && fresh(offsets)
      ensures match ReadFields(f.data, old(Cur()), flg)
              case Parsed(h) => Opened(h, ok)
              case _ => !ok
    {
      var headerLength, read := ReadHeaderFields(flg);
      if !read {
        return false;
      }
      ok := OpenTableAt(headerLength, Header(chunkLength, chunks[..], headerLength, Cur()));
    }

    method OpenTableAt(headerLength: nat, ghost h: Header) returns (ok: bool)
      requires unpBuffer == null && unpBufferStart == unpBufferLen == 0 && chunks.Length < 0x1_0000
      requires h.chunkLength == chunkLength && h.chunks == chunks[..] && h.length == headerLength
      requires h.cursor.error == error
      modifies this`error, this`crc, this`size, this`offsets, this`unpBuffer, this`unpBufferStart, this`unpBufferLen, f
      ensures Valid() && unpBuffer == null && fresh(offsets) && Opened(h, ok)
    {
      FillOffsets(headerLength);
      assert OpenTable() == HeaderTable(f.data, inflate, h);
      ok := LoadLast(headerLength);
    }

    /** What opening a gzip file with this header comes to. */
    ghost predicate Opened(h: Header, ok: bool)
      reads this, unpBuffer, chunks, offsets
    {
      var t := HeaderTable(f.data, inflate, h);
      && (ok <==> OpensFully(t, h.cursor.error))
      && (ok ==> Valid() && OpenTable() == t && State() == FRESH && size == TextSize(t))
    }

    /** `open`: the header, the chunk table, and a trial load of the last chunk. */
    method Open() returns (ok: bool)
      requires Valid() && unpBuffer == null
      modifies this, f
      ensures f == old(f)
      ensures ok && !ReadHeader(f.data).NotGzip? ==> Valid() && unpBuffer == null && fresh(chunks) && fresh(offsets)
      ensures match ReadHeader(f.data)
              case NotGzip => ok
              case Refused => !ok
              case Parsed(h) => Opened(h, ok)
    {
      f.Seek(0);
      error := false;
      var header := f.Fread(10);
      if |header| != 10 {
        return false;
      }
      crc := Crc.Update(0, header);
      assert header == f.data[..10];
      if header[0] != 0x1f || header[1] != 0x8b {
        return true;
      }
      if header[2] != 8 {
        return false;
      }
      if !Flag(header[3], FEXTRA) {
        return false;
      }
      ok := OpenChunks(header[3]);
    }
  }

  lemma LoadLastExactly(t: Table, c: Cache, last: nat)
    requires last == if Count(t) == 0 then U32 - 1 else Count(t) - 1
    ensures var (ok, d) := Load(t, c, last);
            && (ok <==> OpensFully(t, c.error))
            && (ok ==> d.start + |d.text| == TextSize(t) && !d.error)
  {
  }
}
