/** What the chunk table of a dictzip file says about its packed chunks. */
module ChunkFile {
  import opened Bytes
  import opened CFiles
  import opened GzipHeader
  import Crc
  import opened ChunkCache
  import opened FlatText
  import opened Division

  /** One call of `inflate` on a whole chunk: whether it said Z_OK, how many input bytes it left, and what it wrote. */
  datatype InflateResult = InflateResult(ok: bool, rest: nat, out: seq<byte>)

  /** Inflating itself is not modelled: it is any function of the packed bytes and the room for output. */
  type Inflater = (seq<byte>, nat) -> InflateResult

  function Inflate(inflate: Inflater, packed: seq<byte>, room: nat): (r: InflateResult)
    ensures |r.out| <= room
  {
    var r := inflate(packed, room);
    if |r.out| <= room then r else r.(out := r.out[..room])
  }

  /** Loading `size` packed bytes at `offset`; the loader also reads the four bytes after them. */
  function AttemptAt(data: seq<byte>, inflate: Inflater, cl: nat, offset: nat, size: nat): (a: Attempt)
    ensures a.Inflated? ==> |a.out| <= cl
  {
    if offset + size + 4 > |data| then Truncated
    else
      var r := Inflate(inflate, data[offset..offset + size], cl);
      if r.ok && r.rest == 0 then Inflated(r.out) else Broken(r.out)
  }

  /** The checksum has no say: of the file, a load depends on its length and the packed bytes alone, so the four bytes after
      them can be any. */
  lemma ChecksumIgnored(data: seq<byte>, other: seq<byte>, inflate: Inflater, cl: nat, offset: nat, size: nat)
    requires |data| == |other|
    requires offset + size <= |data| ==> data[offset..offset + size] == other[offset..offset + size]
    ensures AttemptAt(data, inflate, cl, offset, size) == AttemptAt(other, inflate, cl, offset, size)
  {
  }

  /** Packed chunks follow each other from the end of the header on. */
  function OffsetOf(length: nat, chunks: seq<u16>, n: nat): nat
    requires n <= |chunks|
  {
    if n == 0 then length else OffsetOf(length, chunks, n - 1) + chunks[n - 1]
  }

  function Attempts(data: seq<byte>, inflate: Inflater, cl: nat, offsets: seq<nat>, chunks: seq<u16>): (s: seq<Attempt>)
    requires |offsets| == |chunks|
    ensures |s| == |chunks|
    ensures forall n :: 0 <= n < |s| ==> s[n] == AttemptAt(data, inflate, cl, offsets[n], chunks[n])
  {
    seq(|chunks|, n requires 0 <= n < |chunks| => AttemptAt(data, inflate, cl, offsets[n], chunks[n]))
  }

  function TableOf(data: seq<byte>, inflate: Inflater, cl: nat, offsets: seq<nat>, chunks: seq<u16>): (t: Table)
    requires |offsets| == |chunks|
  {
    Table(cl, Attempts(data, inflate, cl, offsets, chunks))
  }

  function Offsets(length: nat, chunks: seq<u16>): (offsets: seq<nat>)
    ensures |offsets| == |chunks|
    ensures forall n :: 0 <= n < |offsets| ==> offsets[n] == OffsetOf(length, chunks, n)
  {
    seq(|chunks|, n requires 0 <= n < |chunks| => OffsetOf(length, chunks, n))
  }

  /** The table of a file whose header was parsed. */
  function HeaderTable(data: seq<byte>, inflate: Inflater, h: Header): Table {
    TableOf(data, inflate, h.chunkLength, Offsets(h.length, h.chunks), h.chunks)
  }

  // ---- opening ----

  /** The size the stream reports: the start of the last chunk plus its length. */
  function TextSize(t: Table): nat {
    if Count(t) > 0 && ChunkText(t, Count(t) - 1).Some?
    then Multiple(Count(t) - 1, t.chunkLength) + |ChunkText(t, Count(t) - 1).value|
    else 0
  }

  /** Opening succeeds when the header left no error and the last chunk loads. */
  predicate OpensFully(t: Table, error: bool) {
    Count(t) > 0 && !error && ChunkText(t, Count(t) - 1).Some?
  }

  /** For a healthy file the reported size is the length of the whole text. */
  lemma {:induction false} SizeIsFlatLength(t: Table)
    requires Healthy(t)
    ensures TextSize(t) == |Flat(t)|
  {
    JoinLength(Texts(t), t.chunkLength);
  }

  // ---- written files ----

  function Sizes(pieces: seq<seq<byte>>): (sizes: seq<u16>)
    requires forall n :: 0 <= n < |pieces| ==> |pieces[n]| < 0x1_0000
    ensures |sizes| == |pieces| && forall n :: 0 <= n < |sizes| ==> sizes[n] == |pieces[n]|
  {
    seq(|pieces|, n requires 0 <= n < |pieces| => |pieces[n]|)
  }

  /** A dictzip file: header, packed pieces, and whatever comes after them (at least the gzip trailer). */
  function PutFile(f: Fields, crc16: u16, pieces: seq<seq<byte>>, trailer: seq<byte>): seq<byte>
    requires ValidFields(f)
  {
    PutHeader(f, crc16) + (Join(pieces) + trailer)
  }

  /** Each packed piece stands where the offsets say. */
  lemma {:induction false} OffsetsTile(before: seq<byte>, pieces: seq<seq<byte>>, after: seq<byte>, n: nat)
    requires forall k :: 0 <= k < |pieces| ==> |pieces[k]| < 0x1_0000
    requires n <= |pieces|
    ensures var o := OffsetOf(|before|, Sizes(pieces), n);
            before + Join(pieces) + after == before + Join(pieces[..n]) + (Join(pieces[n..]) + after)
            && o == |before| + |Join(pieces[..n])|
  {
    if n == 0 {
      assert pieces[0..] == pieces && Join(pieces[..0]) == [];
      assert before + Join(pieces) + after == before + [] + (Join(pieces) + after);
    } else {
      OffsetsTile(before, pieces, after, n - 1);
      JoinSnoc(pieces[..n - 1], pieces[n - 1]);
      assert pieces[..n] == pieces[..n - 1] + [pieces[n - 1]];
      assert pieces[n - 1..][1..] == pieces[n..];
      Regroup(before, Join(pieces[..n - 1]), pieces[n - 1], Join(pieces[n..]), after);
    }
  }

  lemma Regroup(a: seq<byte>, b: seq<byte>, c: seq<byte>, d: seq<byte>, e: seq<byte>)
    ensures a + b + ((c + d) + e) == a + (b + c) + (d + e)
  {
  }

  lemma {:induction false} JoinSnoc(texts: seq<seq<byte>>, last: seq<byte>)
    ensures Join(texts + [last]) == Join(texts) + last
  {
    if texts == [] {
      assert [] + [last] == [last] && [last][1..] == [];
      assert Join([last]) == last + Join([]);
    } else {
      JoinSnoc(texts[1..], last);
      assert (texts + [last])[1..] == texts[1..] + [last];
    }
  }

  lemma PieceAt(before: seq<byte>, pieces: seq<seq<byte>>, after: seq<byte>, n: nat)
    requires forall k :: 0 <= k < |pieces| ==> |pieces[k]| < 0x1_0000
    requires n < |pieces| && |after| >= 4
    ensures var data := before + Join(pieces) + after;
            var o := OffsetOf(|before|, Sizes(pieces), n);
            o + |pieces[n]| + 4 <= |data| && data[o..o + |pieces[n]|] == pieces[n]
  {
    OffsetsTile(before, pieces, after, n);
    var front := before + Join(pieces[..n]);
    assert Join(pieces[n..]) == pieces[n] + Join(pieces[n + 1..]) by {
      assert pieces[n..][1..] == pieces[n + 1..];
    }
    SliceMiddle(front, pieces[n], Join(pieces[n + 1..]), after);
  }

  lemma SliceMiddle(a: seq<byte>, b: seq<byte>, c: seq<byte>, d: seq<byte>)
    ensures (a + ((b + c) + d))[|a|..|a| + |b|] == b
  {
  }

  /** The inflater undoes the packing of every piece. */
  predicate Unpacks(inflate: Inflater, cl: nat, pieces: seq<seq<byte>>, texts: seq<seq<byte>>)
  {
    |pieces| == |texts| && forall n :: 0 <= n < |pieces| ==> inflate(pieces[n], cl) == InflateResult(true, 0, texts[n])
  }

  /** Writing and opening: the header read back gives a table under which every chunk loads and the flat text is
      the text that was packed. */
  lemma WrittenFile(f: Fields, crc16: u16, pieces: seq<seq<byte>>, trailer: seq<byte>, inflate: Inflater,
                    texts: seq<seq<byte>>)
    requires ValidFields(f) && |trailer| >= 4
    requires forall n :: 0 <= n < |pieces| ==> |pieces[n]| < 0x1_0000
    requires f.chunks == Sizes(pieces) && Unpacks(inflate, f.chunkLength, pieces, texts)
    requires Regular(texts, f.chunkLength)
    ensures var data := PutFile(f, crc16, pieces, trailer);
            var r := ReadHeader(data);
            && r.Parsed?
            && (r.h.cursor.error <==> f.headerCrc && crc16 != Crc.Low16(Crc.Update(0, PutCovered(f))))
            && Healthy(HeaderTable(data, inflate, r.h))
            && Flat(HeaderTable(data, inflate, r.h)) == Join(texts)
  {
    HeaderRoundTrip(f, crc16, Join(pieces) + trailer);
    var h := ReadHeader(PutFile(f, crc16, pieces, trailer)).h;
    PiecesOfFile(f, crc16, pieces, trailer);
    WrittenTable(PutFile(f, crc16, pieces, trailer), pieces, inflate, texts, h);
  }

  lemma PieceLoads(data: seq<byte>, offset: nat, piece: seq<byte>, inflate: Inflater, cl: nat, text: seq<byte>)
    requires offset + |piece| + 4 <= |data| && data[offset..offset + |piece|] == piece
    requires |text| <= cl && inflate(piece, cl) == InflateResult(true, 0, text)
    ensures AttemptAt(data, inflate, cl, offset, |piece|) == Inflated(text)
  {
  }

  /** The pieces stand in the file where the offsets say, with four more bytes after each. */
  predicate PiecesAt(data: seq<byte>, length: nat, pieces: seq<seq<byte>>)
    requires forall k :: 0 <= k < |pieces| ==> |pieces[k]| < 0x1_0000
  {
    forall n :: 0 <= n < |pieces| ==>
      var o := OffsetOf(length, Sizes(pieces), n);
      o + |pieces[n]| + 4 <= |data| && data[o..o + |pieces[n]|] == pieces[n]
  }

  lemma PiecesOfFile(f: Fields, crc16: u16, pieces: seq<seq<byte>>, trailer: seq<byte>)
    requires ValidFields(f) && |trailer| >= 4
    requires forall n :: 0 <= n < |pieces| ==> |pieces[n]| < 0x1_0000
    ensures PiecesAt(PutFile(f, crc16, pieces, trailer), |PutHeader(f, crc16)|, pieces)
  {
    var header := PutHeader(f, crc16);
    assert PutFile(f, crc16, pieces, trailer) == header + Join(pieces) + trailer;
    forall n | 0 <= n < |pieces| {
      PieceAt(header, pieces, trailer, n);
    }
  }

  lemma WrittenAttempt(data: seq<byte>, offsets: seq<nat>, pieces: seq<seq<byte>>,
                       inflate: Inflater, cl: nat, texts: seq<seq<byte>>, n: nat)
    requires n < |pieces| == |offsets| && Unpacks(inflate, cl, pieces, texts) && |texts[n]| <= cl
    requires offsets[n] + |pieces[n]| + 4 <= |data| && data[offsets[n]..offsets[n] + |pieces[n]|] == pieces[n]
    ensures AttemptAt(data, inflate, cl, offsets[n], |pieces[n]|) == Inflated(texts[n])
  {
    PieceLoads(data, offsets[n], pieces[n], inflate, cl, texts[n]);
  }

  lemma WrittenTable(data: seq<byte>, pieces: seq<seq<byte>>, inflate: Inflater, texts: seq<seq<byte>>, h: Header)
    requires forall n :: 0 <= n < |pieces| ==> |pieces[n]| < 0x1_0000
    requires PiecesAt(data, h.length, pieces) && h.chunks == Sizes(pieces)
    requires Unpacks(inflate, h.chunkLength, pieces, texts) && Regular(texts, h.chunkLength)
    ensures var t := HeaderTable(data, inflate, h);
            Healthy(t) && Flat(t) == Join(texts)
  {
    hide Healthy, Regular, AttemptAt, OffsetOf;
    RegularFits(texts, h.chunkLength);
    var offsets := Offsets(h.length, h.chunks);
    forall n | 0 <= n < |texts|
      ensures AttemptAt(data, inflate, h.chunkLength, offsets[n], h.chunks[n]) == Inflated(texts[n])
    {
      WrittenAttempt(data, offsets, pieces, inflate, h.chunkLength, texts, n);
    }
    TextsOfTable(HeaderTable(data, inflate, h), texts);
  }

  lemma TextsOfTable(t: Table, texts: seq<seq<byte>>)
    requires Regular(texts, t.chunkLength) && |texts| == Count(t)
    requires forall n :: 0 <= n < |texts| ==> t.chunks[n] == Inflated(texts[n])
    ensures Healthy(t) && Texts(t) == texts
  {
    forall n | 0 <= n < |texts| ensures ChunkText(t, n) == Some(texts[n]) {
    }
  }

  // ---- when a chunk loads ----

  /** Which chunks of a file load, and what they come to: their packed bytes and four more are there, inflating them says Z_OK
      and uses up all of them, and all but the last one come out at full length. */
  lemma LoadsExactly(data: seq<byte>, inflate: Inflater, h: Header, n: nat)
    requires n < |h.chunks| && forall s: seq<byte> :: |inflate(s, h.chunkLength).out| <= h.chunkLength
    ensures var text := ChunkText(HeaderTable(data, inflate, h), n);
            var o, size := OffsetOf(h.length, h.chunks, n), h.chunks[n];
            && (text.Some? <==>
                  && o + size + 4 <= |data|
                  && inflate(data[o..o + size], h.chunkLength).ok && inflate(data[o..o + size], h.chunkLength).rest == 0
                  && (n < |h.chunks| - 1 ==> |inflate(data[o..o + size], h.chunkLength).out| == h.chunkLength))
            && (text.Some? ==> text.value == inflate(data[o..o + size], h.chunkLength).out)
  {
    hide OffsetOf;
  }

  /** Opening takes a chunk table, no error in the header, and a last chunk that loads. */
  lemma OpensExactly(data: seq<byte>, inflate: Inflater, h: Header)
    ensures var t := HeaderTable(data, inflate, h);
            OpensFully(t, h.cursor.error)
            <==> |h.chunks| > 0 && !h.cursor.error && ChunkText(t, |h.chunks| - 1).Some?
  {
    hide AttemptAt, OffsetOf, ChunkText;
  }

  /** Without four bytes after its last chunk a written file does not open, although the packed text is all there. */
  lemma TrailerNeeded(f: Fields, crc16: u16, pieces: seq<seq<byte>>, trailer: seq<byte>, inflate: Inflater)
    requires ValidFields(f) && |trailer| < 4 && pieces != []
    requires forall n :: 0 <= n < |pieces| ==> |pieces[n]| < 0x1_0000
    requires f.chunks == Sizes(pieces)
    ensures var r := ReadHeader(PutFile(f, crc16, pieces, trailer));
            r.Parsed? && !OpensFully(HeaderTable(PutFile(f, crc16, pieces, trailer), inflate, r.h), r.h.cursor.error)
  {
    hide OffsetOf, Sizes, HeaderTable, OpensFully, ReadHeader, PutHeader;
    HeaderRoundTrip(f, crc16, Join(pieces) + trailer);
    var data := PutFile(f, crc16, pieces, trailer);
    var h, last := ReadHeader(data).h, |pieces| - 1;
    OffsetsTile(PutHeader(f, crc16), pieces, trailer, |pieces|);
    assert pieces[..|pieces|] == pieces;
    OffsetStep(h.length, h.chunks, last);
    LastTruncated(data, inflate, h);
  }

  lemma LastTruncated(data: seq<byte>, inflate: Inflater, h: Header)
    requires h.chunks != []
    requires var last := |h.chunks| - 1;
             OffsetOf(h.length, h.chunks, last) + h.chunks[last] + 4 > |data|
    ensures !OpensFully(HeaderTable(data, inflate, h), h.cursor.error)
  {
    hide OffsetOf;
    assert HeaderTable(data, inflate, h).chunks[|h.chunks| - 1].Truncated?;
  }

  lemma OffsetStep(length: nat, chunks: seq<u16>, n: nat)
    requires n < |chunks|
    ensures OffsetOf(length, chunks, n + 1) == OffsetOf(length, chunks, n) + chunks[n]
  {
  }

  lemma FirstOffset(length: nat, chunks: seq<u16>)
    ensures OffsetOf(length, chunks, 0) == length
  {
  }
}
