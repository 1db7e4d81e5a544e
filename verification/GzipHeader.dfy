/** The gzip header of a dictzip file (section 2.3 of RFC 1952), with the chunk table in its extra field. */
module GzipHeader {
  import opened Bytes
  import opened CFiles
  import Crc

  type u16 = n: int | 0 <= n < 0x1_0000

  const FHCRC: nat := 2
  const FEXTRA: nat := 4
  const FNAME: nat := 8
  const FCOMMENT: nat := 16

  /** Where the reader stands: file position, sticky error flag, and the checksum of the bytes read. */
  datatype Cursor = Cursor(pos: nat, error: bool, crc: nat)

  /** `n` bytes from the cursor, or none of them and the error flag. */
  function Take(data: seq<byte>, c: Cursor, n: nat): (r: (seq<byte>, Cursor))
    ensures |r.0| == n || (r.0 == [] && r.1.error)
    ensures c.error ==> r == ([], c)
    ensures c.pos <= |data| ==> c.pos <= r.1.pos <= |data|
  {
    if c.error then ([], c)
    else
      var bytes := Slice(data, c.pos, n);
      if |bytes| == n then (bytes, Cursor(c.pos + n, false, Crc.Update(c.crc, bytes)))
      else ([], Cursor(c.pos + |bytes|, true, c.crc))
  }

  function U8(data: seq<byte>, c: Cursor): (r: (byte, Cursor))
    ensures r.1.error ==> r.0 == 0
    ensures r.0 != 0 ==> c.pos < r.1.pos <= |data|
  {
    var (bytes, d) := Take(data, c, 1);
    (if |bytes| == 1 then bytes[0] else 0, d)
  }

  /** Little-endian, like the 32-bit words. */
  function U16(data: seq<byte>, c: Cursor): (r: (u16, Cursor))
    ensures r.1.error ==> r.0 == 0
  {
    var (bytes, d) := Take(data, c, 2);
    (if |bytes| == 2 then bytes[0] as int + 256 * bytes[1] as int else 0, d)
  }

  /** A zero-terminated string: how many bytes come before the zero. The error flag also ends it. */
  function SkipString(data: seq<byte>, c: Cursor): (r: (nat, Cursor))
    decreases |data| - c.pos
  {
    var (b, d) := U8(data, c);
    if b == 0 then (0, d)
    else
      var (n, e) := SkipString(data, d);
      (n + 1, e)
  }

  /** `count` 16-bit words. */
  function Words(data: seq<byte>, c: Cursor, count: nat): (r: (seq<u16>, Cursor))
    ensures |r.0| == count
    decreases count
  {
    if count == 0 then ([], c)
    else
      var (front, d) := Words(data, c, count - 1);
      var (w, e) := U16(data, d);
      (front + [w], e)
  }

  predicate Flag(flg: byte, bit: nat)
    requires bit > 0
  {
    flg / bit % 2 == 1
  }

  datatype Header = Header(chunkLength: u16, chunks: seq<u16>, length: nat, cursor: Cursor)

  /** `NotGzip` is accepted as plain text; `Refused` makes `open` return false before the chunk table is in use. */
  datatype HeaderResult = NotGzip | Refused | Parsed(h: Header)

  /** The extra field's length, and the subfield head, which is not looked at. */
  function ReadExtraHead(data: seq<byte>, c0: Cursor): (u16, Cursor) {
    var (extraLength, c1) := U16(data, c0);
    var (_, c2) := U8(data, c1);
    var (_, c3) := U8(data, c2);
    var (_, c4) := U16(data, c3);
    (extraLength, c4)
  }

  /** The dictzip subfield: version, chunk length and chunk table; no table once the error flag is set. */
  function ReadChunkTable(data: seq<byte>, c0: Cursor): (Option<(u16, seq<u16>)>, Cursor) {
    var (_, c1) := U16(data, c0);
    var (chunkLength, c2) := U16(data, c1);
    var (chunkCount, c3) := U16(data, c2);
    if c3.error then (None, c3)
    else
      var (chunks, c4) := Words(data, c3, chunkCount);
      (Some((chunkLength, chunks)), c4)
  }

  /** An optional zero-terminated string and the bytes it takes. */
  function SkipOptional(data: seq<byte>, c: Cursor, present: bool): (nat, Cursor) {
    if present then
      var (n, d) := SkipString(data, c);
      (n + 1, d)
    else (0, c)
  }

  /** The optional header checksum: a wrong one sets the error flag. */
  function CheckCrc(data: seq<byte>, c: Cursor, present: bool): (nat, Cursor) {
    if present then
      var (v, d) := U16(data, c);
      (2, if v != Crc.Low16(c.crc) then d.(error := true) else d)
    else (0, c)
  }

  /** The optional fields after the extra field, and the bytes they take. */
  function ReadRest(data: seq<byte>, c0: Cursor, flg: byte): (nat, Cursor) {
    var (n, c1) := SkipOptional(data, c0, Flag(flg, FNAME));
    var (m, c2) := SkipOptional(data, c1, Flag(flg, FCOMMENT));
    var (k, c3) := CheckCrc(data, c2, Flag(flg, FHCRC));
    (n + m + k, c3)
  }

  /** The header after its fixed ten bytes. */
  function ReadFields(data: seq<byte>, c0: Cursor, flg: byte): (r: HeaderResult)
    ensures !r.NotGzip?
  {
    var (extraLength, c1) := ReadExtraHead(data, c0);
    var (table, c2) := ReadChunkTable(data, c1);
    if table.None? then Refused
    else
      var (rest, c3) := ReadRest(data, c2, flg);
      Parsed(Header(table.value.0, table.value.1, 10 + extraLength + 2 + rest, c3))
  }

  function ReadHeader(data: seq<byte>): HeaderResult {
    if |data| < 10 then Refused
    else if data[0] != 0x1f || data[1] != 0x8b then NotGzip
    else if data[2] != 8 || !Flag(data[3], FEXTRA) then Refused
    else ReadFields(data, Cursor(10, false, Crc.Update(0, data[..10])), data[3])
  }

  // ---- the printed form ----

  /** What a dictzip writer puts in a header; `fixed` is the modification time, extra flags and system. */
  datatype Fields = Fields(text: bool, reserved: nat, fixed: seq<byte>, id1: byte, id2: byte,
                           subLength: u16, version: u16, chunkLength: u16, chunks: seq<u16>,
                           name: Option<seq<byte>>, comment: Option<seq<byte>>, headerCrc: bool)

  predicate ValidString(s: Option<seq<byte>>) {
    s.Some? ==> forall i :: 0 <= i < |s.value| ==> s.value[i] != NUL
  }

  predicate ValidFields(f: Fields) {
    && f.reserved < 8 && |f.fixed| == 6
    && 10 + 2 * |f.chunks| < 0x1_0000
    && ValidString(f.name) && ValidString(f.comment)
  }

  function Put16(n: u16): (s: seq<byte>)
    ensures |s| == 2
  {
    [n % 256, n / 256]
  }

  function PutWords(ws: seq<u16>): (s: seq<byte>)
    ensures |s| == 2 * |ws|
  {
    if ws == [] then [] else PutWords(ws[..|ws| - 1]) + Put16(ws[|ws| - 1])
  }

  function PutString(s: Option<seq<byte>>): seq<byte> {
    if s.Some? then s.value + [NUL] else []
  }

  function Bit(b: bool, value: nat): nat { if b then value else 0 }

  function FlagByte(f: Fields): byte
    requires f.reserved < 8
  {
    Bit(f.text, 1) + Bit(f.headerCrc, FHCRC) + FEXTRA + Bit(f.name.Some?, FNAME) + Bit(f.comment.Some?, FCOMMENT)
    + 32 * f.reserved
  }

  function PutFixed(f: Fields): (s: seq<byte>)
    requires ValidFields(f)
    ensures |s| == 10
  {
    [0x1f, 0x8b, 8, FlagByte(f)] + f.fixed
  }

  function PutExtraHead(f: Fields): (s: seq<byte>)
    requires ValidFields(f)
    ensures |s| == 6
  {
    Put16(10 + 2 * |f.chunks|) + [f.id1] + [f.id2] + Put16(f.subLength)
  }

  function PutChunkTable(f: Fields): (s: seq<byte>)
    requires ValidFields(f)
    ensures |s| == 6 + 2 * |f.chunks|
  {
    Put16(f.version) + Put16(f.chunkLength) + Put16(|f.chunks|) + PutWords(f.chunks)
  }

  /** Everything the header checksum covers. */
  function PutCovered(f: Fields): seq<byte>
    requires ValidFields(f)
  {
    PutFixed(f) + PutExtraHead(f) + PutChunkTable(f) + PutString(f.name) + PutString(f.comment)
  }

  function PutHeader(f: Fields, crc16: u16): seq<byte>
    requires ValidFields(f)
  {
    PutCovered(f) + if f.headerCrc then Put16(crc16) else []
  }

  // ---- reading back what was put ----

  lemma NextRest(data: seq<byte>, f: Fields, crc16: u16)
    requires ValidFields(f) && PutHeader(f, crc16) <= data
    ensures var before := PutFixed(f) + PutExtraHead(f) + PutChunkTable(f);
            var (n, c) := ReadRest(data, After(before), FlagByte(f));
            && c.pos == |PutHeader(f, crc16)| == |before| + n
            && (c.error <==> f.headerCrc && crc16 != Crc.Low16(Crc.Update(0, PutCovered(f))))
  {
    var before := PutFixed(f) + PutExtraHead(f) + PutChunkTable(f);
    var p1 := before + PutString(f.name);
    var p2 := p1 + PutString(f.comment);
    assert p2 == PutCovered(f);
    FlagsRoundTrip(f);
    NextOptional(data, before, f.name);
    NextOptional(data, p1, f.comment);
    if f.headerCrc {
      assert p2 + Put16(crc16) == PutHeader(f, crc16);
      NextU16(data, p2, crc16);
    }
  }

  /** The cursor after reading all of `before`, with no error so far. */
  function After(before: seq<byte>): Cursor {
    Cursor(|before|, false, Crc.Update(0, before))
  }

  /** The bytes `s` stand in the file right after `before`. */
  predicate Follows(data: seq<byte>, before: seq<byte>, s: seq<byte>) {
    before + s <= data
  }

  lemma SliceNext(data: seq<byte>, before: seq<byte>, s: seq<byte>)
    requires Follows(data, before, s)
    ensures Slice(data, |before|, |s|) == s
  {
    var t := Slice(data, |before|, |s|);
    assert forall i :: 0 <= i < |s| ==> t[i] == data[|before| + i] == (before + s)[|before| + i];
  }

  lemma TakeNext(data: seq<byte>, before: seq<byte>, s: seq<byte>)
    requires Follows(data, before, s)
    ensures Take(data, After(before), |s|) == (s, After(before + s))
  {
    SliceNext(data, before, s);
    Crc.UpdateConcat(0, before, s);
  }

  lemma NextU8(data: seq<byte>, before: seq<byte>, b: byte)
    requires Follows(data, before, [b])
    ensures U8(data, After(before)) == (b, After(before + [b]))
  {
    TakeNext(data, before, [b]);
  }

  lemma NextU16(data: seq<byte>, before: seq<byte>, n: u16)
    requires Follows(data, before, Put16(n))
    ensures U16(data, After(before)) == (n, After(before + Put16(n)))
  {
    var s := Put16(n);
    TakeNext(data, before, s);
  }

  lemma {:induction false} NextString(data: seq<byte>, before: seq<byte>, s: seq<byte>)
    requires Follows(data, before, s + [NUL]) && ValidString(Some(s))
    ensures SkipString(data, After(before)) == (|s|, After(before + s + [NUL]))
    decreases |s|
  {
    if s == [] {
      assert s + [NUL] == [NUL] && before + s == before;
      NextU8(data, before, NUL);
    } else {
      var before', s' := before + [s[0]], s[1..];
      assert before + (s + [NUL]) == before' + (s' + [NUL]);
      assert before' + s' == before + s;
      NextU8(data, before, s[0]);
      NextString(data, before', s');
      assert SkipString(data, After(before)).0 == 1 + SkipString(data, After(before')).0;
    }
  }

  lemma NextOptional(data: seq<byte>, before: seq<byte>, s: Option<seq<byte>>)
    requires Follows(data, before, PutString(s)) && ValidString(s)
    ensures SkipOptional(data, After(before), s.Some?) == (|PutString(s)|, After(before + PutString(s)))
  {
    if s.Some? {
      NextString(data, before, s.value);
      assert before + s.value + [NUL] == before + PutString(s);
    } else {
      assert before + [] == before;
    }
  }

  lemma {:induction false} NextWords(data: seq<byte>, before: seq<byte>, ws: seq<u16>)
    requires Follows(data, before, PutWords(ws))
    ensures Words(data, After(before), |ws|) == (ws, After(before + PutWords(ws)))
    decreases |ws|
  {
    if ws == [] {
      assert before + [] == before;
    } else {
      var front, w := ws[..|ws| - 1], ws[|ws| - 1];
      assert before + PutWords(ws) == before + PutWords(front) + Put16(w);
      NextWords(data, before, front);
      NextU16(data, before + PutWords(front), w);
      assert front + [w] == ws;
    }
  }

  lemma NextExtraHead(data: seq<byte>, before: seq<byte>, f: Fields)
    requires ValidFields(f) && Follows(data, before, PutExtraHead(f))
    ensures ReadExtraHead(data, After(before)) == (10 + 2 * |f.chunks|, After(before + PutExtraHead(f)))
  {
    var p1 := before + Put16(10 + 2 * |f.chunks|);
    var p2 := p1 + [f.id1];
    var p3 := p2 + [f.id2];
    var p4 := p3 + Put16(f.subLength);
    assert p4 == before + PutExtraHead(f);
    NextU16(data, before, 10 + 2 * |f.chunks|);
    NextU8(data, p1, f.id1);
    NextU8(data, p2, f.id2);
    NextU16(data, p3, f.subLength);
  }

  lemma NextChunkTable(data: seq<byte>, before: seq<byte>, f: Fields)
    requires ValidFields(f) && Follows(data, before, PutChunkTable(f))
    ensures ReadChunkTable(data, After(before))
            == (Some((f.chunkLength, f.chunks)), After(before + PutChunkTable(f)))
  {
    var p1 := before + Put16(f.version);
    var p2 := p1 + Put16(f.chunkLength);
    var p3 := p2 + Put16(|f.chunks|);
    var p4 := p3 + PutWords(f.chunks);
    assert p4 == before + PutChunkTable(f);
    NextU16(data, before, f.version);
    NextU16(data, p1, f.chunkLength);
    NextU16(data, p2, |f.chunks|);
    NextWords(data, p3, f.chunks);
  }

  lemma FlagsRoundTrip(f: Fields)
    requires ValidFields(f)
    ensures Flag(FlagByte(f), FEXTRA)
    ensures Flag(FlagByte(f), FNAME) == f.name.Some?
    ensures Flag(FlagByte(f), FCOMMENT) == f.comment.Some?
    ensures Flag(FlagByte(f), FHCRC) == f.headerCrc
  {
  }

  lemma FixedRoundTrip(data: seq<byte>, f: Fields, crc16: u16)
    requires ValidFields(f) && PutHeader(f, crc16) <= data
    ensures |data| >= 10 && data[0] == 0x1f && data[1] == 0x8b && data[2] == 8 && data[3] == FlagByte(f)
    ensures Cursor(10, false, Crc.Update(0, data[..10])) == After(PutFixed(f))
  {
    assert PutFixed(f) <= PutCovered(f) <= data;
    assert data[..10] == PutFixed(f);
  }

  lemma ExtraRoundTrip(data: seq<byte>, f: Fields, crc16: u16)
    requires ValidFields(f) && PutHeader(f, crc16) <= data
    ensures ReadExtraHead(data, After(PutFixed(f)))
            == (10 + 2 * |f.chunks|, After(PutFixed(f) + PutExtraHead(f)))
    ensures ReadChunkTable(data, After(PutFixed(f) + PutExtraHead(f)))
            == (Some((f.chunkLength, f.chunks)), After(PutFixed(f) + PutExtraHead(f) + PutChunkTable(f)))
  {
    assert PutFixed(f) + PutExtraHead(f) + PutChunkTable(f) <= PutCovered(f) <= data;
    NextExtraHead(data, PutFixed(f), f);
    NextChunkTable(data, PutFixed(f) + PutExtraHead(f), f);
  }

  /** Header round trip, for every mix of flags: the chunk length and table come back, the header length is the
      offset of the first byte after it, and the error flag is set exactly when a header checksum is present
      and wrong. */
  lemma HeaderRoundTrip(f: Fields, crc16: u16, body: seq<byte>)
    requires ValidFields(f)
    ensures var header := PutHeader(f, crc16);
            var r := ReadHeader(header + body);
            && r.Parsed?
            && r.h.chunkLength == f.chunkLength && r.h.chunks == f.chunks
            && r.h.length == |header| == r.h.cursor.pos
            && (r.h.cursor.error <==> f.headerCrc && crc16 != Crc.Low16(Crc.Update(0, PutCovered(f))))
  {
    var data := PutHeader(f, crc16) + body;
    FixedRoundTrip(data, f, crc16);
    FlagsRoundTrip(f);
    ExtraRoundTrip(data, f, crc16);
    NextRest(data, f, crc16);
  }

  // ---- where the fields stand ----

  /** A word at a position of the file, its low byte first. */
  function WordAt(data: seq<byte>, p: nat): nat
    requires p + 2 <= |data|
  {
    data[p] as int + 256 * data[p + 1] as int
  }

  /** A cursor without an error stands within the file, and its checksum covers all bytes before it. */
  predicate Covers(data: seq<byte>, c: Cursor) {
    !c.error ==> c.pos <= |data| && c.crc == Crc.Update(0, data[..c.pos])
  }

  lemma TakeRead(data: seq<byte>, c: Cursor, n: nat)
    requires Covers(data, c)
    ensures var (bytes, d) := Take(data, c, n);
            && Covers(data, d)
            && (d.error <==> c.error || c.pos + n > |data|)
            && (!d.error ==> d.pos == c.pos + n && bytes == data[c.pos..d.pos])
  {
    hide Crc.Update, Covers;
    CoversAt(data, c);
    if !c.error && c.pos + n <= |data| {
      assert Slice(data, c.pos, n) == data[c.pos..c.pos + n];
      Crc.UpdateConcat(0, data[..c.pos], data[c.pos..c.pos + n]);
      assert data[..c.pos] + data[c.pos..c.pos + n] == data[..c.pos + n];
    }
    CoversAt(data, Take(data, c, n).1);
  }

  lemma CoversAt(data: seq<byte>, c: Cursor)
    ensures Covers(data, c) <==> (!c.error ==> c.pos <= |data| && c.crc == Crc.Update(0, data[..c.pos]))
  {
  }

  /** A word is read from two bytes, the low one first. */
  lemma U16Read(data: seq<byte>, c: Cursor)
    requires Covers(data, c)
    ensures var (w, d) := U16(data, c);
            && Covers(data, d)
            && (d.error <==> c.error || c.pos + 2 > |data|)
            && (!d.error ==> d.pos == c.pos + 2 && w == WordAt(data, c.pos))
  {
    TakeRead(data, c, 2);
  }

  lemma U8Read(data: seq<byte>, c: Cursor)
    requires Covers(data, c)
    ensures var (b, d) := U8(data, c);
            && Covers(data, d)
            && (d.error <==> c.error || c.pos + 1 > |data|)
            && (!d.error ==> d.pos == c.pos + 1 && b == data[c.pos])
  {
    TakeRead(data, c, 1);
  }

  lemma {:induction false} WordsRead(data: seq<byte>, c: Cursor, count: nat)
    requires Covers(data, c)
    ensures var (ws, d) := Words(data, c, count);
            && Covers(data, d)
            && (!d.error ==>
                  && !c.error && d.pos == c.pos + 2 * count <= |data|
                  && forall i :: 0 <= i < count ==> ws[i] == WordAt(data, c.pos + 2 * i))
    decreases count
  {
    hide U16, Covers, Crc.Update;
    CoversAt(data, c);
    if count > 0 {
      var (front, d) := Words(data, c, count - 1);
      WordsRead(data, c, count - 1);
      U16Read(data, d);
      var (ws, e) := Words(data, c, count);
      assert ws == front + [U16(data, d).0] && e == U16(data, d).1;
    }
  }

  /** Of the bytes from `p` to `q`, only the last one is zero. */
  predicate IsStringAt(data: seq<byte>, p: nat, q: nat) {
    p < q <= |data| && data[q - 1] == 0 && forall i :: p <= i < q - 1 ==> data[i] != 0
  }

  lemma {:induction false} StringRead(data: seq<byte>, c: Cursor)
    requires Covers(data, c)
    ensures var (n, d) := SkipString(data, c);
            Covers(data, d) && (!d.error ==> !c.error && d.pos == c.pos + n + 1 && IsStringAt(data, c.pos, d.pos))
    decreases |data| - c.pos
  {
    hide U8, Covers, Crc.Update;
    CoversAt(data, c);
    U8Read(data, c);
    if U8(data, c).0 != 0 {
      StringRead(data, U8(data, c).1);
    }
  }

  /** The fixed part of a dictzip header: the magic bytes, deflate, the bit for an extra field, and the length of a header up
      to the chunk table. */
  predicate IsDictzip(data: seq<byte>) {
    |data| >= 22 && data[0] == 0x1f && data[1] == 0x8b && data[2] == 8 && data[3] / 4 % 2 == 1
  }

  /** Which files are taken for plain ones and which ones have a header that can be read. */
  lemma HeaderKinds(data: seq<byte>)
    ensures ReadHeader(data).NotGzip? <==> |data| >= 10 && (data[0] != 0x1f || data[1] != 0x8b)
    ensures ReadHeader(data).Parsed? <==> IsDictzip(data)
  {
    hide ReadFields;
    if |data| >= 10 {
      var c := Cursor(10, false, Crc.Update(0, data[..10]));
      FieldsKind(data, c, data[3]);
    }
  }

  lemma FieldsKind(data: seq<byte>, c: Cursor, flg: byte)
    requires Covers(data, c) && !c.error
    ensures ReadFields(data, c, flg).Parsed? <==> c.pos + 12 <= |data|
  {
    hide ReadExtraHead, ReadChunkTable, ReadRest, Words;
    ExtraRead(data, c);
    var c1 := ReadExtraHead(data, c).1;
    TableRead(data, c1);
    var table := ReadChunkTable(data, c1).0;
    assert table.Some? <==> c.pos + 12 <= |data|;
    assert table.None? ==> ReadFields(data, c, flg).Refused?;
    assert table.Some? ==> ReadFields(data, c, flg).Parsed?;
  }

  lemma ExtraRead(data: seq<byte>, c: Cursor)
    requires Covers(data, c) && !c.error
    ensures var (length, d) := ReadExtraHead(data, c);
            && Covers(data, d) && (d.error <==> c.pos + 6 > |data|)
            && (!d.error ==> d.pos == c.pos + 6 && length == WordAt(data, c.pos))
  {
    hide U16, U8;
    var c1 := U16(data, c).1;
    var c2 := U8(data, c1).1;
    var c3 := U8(data, c2).1;
    U16Read(data, c);
    U8Read(data, c1);
    U8Read(data, c2);
    U16Read(data, c3);
  }

  lemma TableRead(data: seq<byte>, c: Cursor)
    requires Covers(data, c)
    ensures var (table, d) := ReadChunkTable(data, c);
            && Covers(data, d)
            && (table.Some? <==> !c.error && c.pos + 6 <= |data|)
            && (table.Some? ==> table.value.0 == WordAt(data, c.pos + 2) && |table.value.1| == WordAt(data, c.pos + 4))
            && (!d.error ==>
                  && table.Some? && d.pos == c.pos + 6 + 2 * |table.value.1| <= |data|
                  && forall i :: 0 <= i < |table.value.1| ==> table.value.1[i] == WordAt(data, c.pos + 6 + 2 * i))
  {
    hide U16, Words;
    var c1 := U16(data, c).1;
    var c2 := U16(data, c1).1;
    var (count, c3) := U16(data, c2);
    U16Read(data, c);
    U16Read(data, c1);
    U16Read(data, c2);
    if !c3.error {
      WordsRead(data, c3, count);
    }
  }

  /** Where the fields of a header stand that is read without an error: the chunk length at 18, the number of chunks at 20,
      the table from 22 on; then a name if bit 3 of the flags is set, a comment if bit 4 is; then, if bit 1 is, the low half
      of the checksum of all bytes before it. The length counts what the extra field says it holds. */
  lemma HeaderFields(data: seq<byte>) returns (p: nat, q: nat, r: nat)
    requires ReadHeader(data).Parsed? && !ReadHeader(data).h.cursor.error
    ensures var h := ReadHeader(data).h;
            && IsDictzip(data) && h.chunkLength == WordAt(data, 18) && |h.chunks| == WordAt(data, 20)
            && p == 22 + 2 * |h.chunks| <= |data|
            && (forall i :: 0 <= i < |h.chunks| ==> h.chunks[i] == WordAt(data, 22 + 2 * i))
            && (if data[3] / 8 % 2 == 1 then IsStringAt(data, p, q) else q == p)
            && (if data[3] / 16 % 2 == 1 then IsStringAt(data, q, r) else r == q)
            && r <= |data|
            && (data[3] / 2 % 2 == 1 ==> r + 2 <= |data| && WordAt(data, r) == Crc.Low16(Crc.Update(0, data[..r])))
            && h.length == 12 + WordAt(data, 10) + (r - p) + if data[3] / 2 % 2 == 1 then 2 else 0
  {
    hide ReadExtraHead, ReadChunkTable, U16, SkipString;
    HeaderKinds(data);
    var flg := data[3];
    var c0 := Cursor(10, false, Crc.Update(0, data[..10]));
    var c1 := ReadExtraHead(data, c0).1;
    var c2 := ReadChunkTable(data, c1).1;
    ExtraRead(data, c0);
    TableRead(data, c1);
    var c3 := SkipOptional(data, c2, Flag(flg, FNAME)).1;
    var c4 := SkipOptional(data, c3, Flag(flg, FCOMMENT)).1;
    StringRead(data, c2);
    StringRead(data, c3);
    U16Read(data, c4);
    p, q, r := c2.pos, c3.pos, c4.pos;
  }
}
