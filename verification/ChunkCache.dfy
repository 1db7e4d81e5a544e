/** Random access into a chunked compressed file through a cache of one inflated chunk. */
module ChunkCache {
  import opened Bytes
  import opened Division
  import opened FlatText

  /** What loading a chunk with no error pending comes to: the file ends too early, `inflate` refuses the chunk after
      writing `out`, or it inflates all of it to `out`. */
  datatype Attempt = Truncated | Broken(out: seq<byte>) | Inflated(out: seq<byte>)

  /** An opened file, reduced to what each of its chunks comes to. */
  datatype AnyTable = Table(chunkLength: nat, chunks: seq<Attempt>)

  /** `inflate` is given room for one chunk length. */
  predicate OutputFits(t: AnyTable) {
    forall n :: 0 <= n < |t.chunks| ==> t.chunks[n].Inflated? ==> |t.chunks[n].out| <= t.chunkLength
  }

  type Table = t: AnyTable | OutputFits(t) witness Table(0, [])

  function Count(t: Table): nat { |t.chunks| }

  /** The text of chunk `n`, when it loads: all but the last chunk must have full length. */
  function ChunkText(t: Table, n: nat): (r: Option<seq<byte>>)
    requires n < Count(t)
    ensures r.Some? ==> |r.value| <= t.chunkLength && (n < Count(t) - 1 ==> |r.value| == t.chunkLength)
  {
    if t.chunks[n].Inflated? && (n == Count(t) - 1 || |t.chunks[n].out| == t.chunkLength)
    then Some(t.chunks[n].out)
    else None
  }

  // ---- the cache ----

  /** The stream's state: the sticky error flag, and the bytes held, said to be the text at `start`. */
  datatype Cache = Cache(error: bool, start: nat, text: seq<byte>)

  /** The front of `text` after `out` was written over it. */
  function Overlay(out: seq<byte>, text: seq<byte>): (r: seq<byte>)
    ensures |r| == |text|
  {
    if |out| >= |text| then out[..|text|] else out + text[|out|..]
  }

  /** Loading a chunk that comes to `a`: the cache start moves before anything is known about the chunk. */
  function LoadAttempt(c: Cache, start: nat, a: Attempt, last: bool, cl: nat): (r: (bool, Cache)) {
    if c.error then (false, Cache(true, start, c.text))
    else
      match a
      case Truncated => (false, Cache(true, start, c.text))
      case Broken(out) => (false, Cache(false, start, Overlay(out, c.text)))
      case Inflated(out) => (last || |out| == cl, Cache(false, start, out))
  }

  /** `readChunk`. */
  function Load(t: Table, c: Cache, n: nat): (r: (bool, Cache))
    ensures r.0 ==> n < Count(t) && !r.1.error && ChunkText(t, n) == Some(r.1.text)
                    && r.1.start == Multiple(n, t.chunkLength)
  {
    if n >= Count(t) then (false, c)
    else LoadAttempt(c, Multiple(n, t.chunkLength), t.chunks[n], n == Count(t) - 1, t.chunkLength)
  }

  /** `Done` and `Short` are the stream's true and false. `Undefined` stands for a division by a zero chunk length
      and for a copy from beyond the text of the chunk. */
  datatype Status = Done | Short | Undefined

  datatype ReadResult = ReadResult(status: Status, out: seq<byte>, cache: Cache)

  predicate Hits(c: Cache, start: nat) {
    c.start <= start < c.start + |c.text|
  }

  /** How much of a request the cache can serve. */
  function Cached(c: Cache, start: nat, len: nat): (k: nat)
    ensures k <= len
  {
    if Hits(c, start) then Min(c.start + |c.text| - start, len) else 0
  }

  function CachedPart(c: Cache, start: nat, len: nat): (head: seq<byte>)
    ensures |head| == Cached(c, start, len)
  {
    if Hits(c, start) then c.text[start - c.start..start - c.start + Cached(c, start, len)] else []
  }

  /** `TinyDictZStream::read`: the cached part, then at most one more chunk. */
  function Read(t: Table, c: Cache, start: nat, len: nat): (r: ReadResult)
  {
    var k := Cached(c, start, len);
    var head := CachedPart(c, start, len);
    if Hits(c, start) && k == len then ReadResult(Done, head, c)
    else if t.chunkLength == 0 then ReadResult(Undefined, head, c)
    else Fetch(t, c, head, start + k, len - k)
  }

  /** The part of a read that the cache could not serve. */
  function Fetch(t: Table, c: Cache, head: seq<byte>, start: nat, len: nat): (r: ReadResult)
    requires t.chunkLength > 0
  {
    var (ok, d) := Load(t, c, Quotient(start, t.chunkLength));
    if ok then Finish(head, d, start, len) else ReadResult(Short, head, d)
  }

  /** A read that the cache cannot finish fetches the rest. */
  lemma ReadFetches(t: Table, c: Cache, start: nat, len: nat, head: seq<byte>)
    requires head == CachedPart(c, start, len) && !(Hits(c, start) && |head| == len) && t.chunkLength > 0
    ensures Read(t, c, start, len) == Fetch(t, c, head, start + |head|, len - |head|)
  {
  }

  lemma ReadStops(t: Table, c: Cache, start: nat, len: nat, head: seq<byte>)
    requires head == CachedPart(c, start, len) && ((Hits(c, start) && |head| == len) || t.chunkLength == 0)
    ensures Read(t, c, start, len) == ReadResult(if Hits(c, start) && |head| == len then Done else Undefined, head, c)
  {
  }

  lemma ReadLength(t: Table, c: Cache, start: nat, len: nat)
    ensures var r := Read(t, c, start, len);
            |r.out| <= len && (r.status.Done? ==> |r.out| == len)
  {
  }

  /** The part of a read after its chunk was loaded. */
  function Finish(head: seq<byte>, d: Cache, start: nat, len: nat): (r: ReadResult)
    ensures |r.out| <= |head| + len && (r.status.Done? ==> |r.out| == |head| + len)
  {
    if start < d.start || start > d.start + |d.text| then ReadResult(if len == 0 then Done else Undefined, head, d)
    else
      var from := start - d.start;
      var ready := Min(|d.text| - from, len);
      ReadResult(if ready == len then Done else Short, head + d.text[from..from + ready], d)
  }

  /** `compact` drops the cached chunk. */
  function Compact(c: Cache): Cache {
    Cache(c.error, 0, [])
  }

  // ---- what the bytes of the file are ----

  /** The text has a byte at position `i`: its chunk loads and is long enough. */
  predicate HasByte(t: Table, i: nat)
  {
    t.chunkLength > 0
    && var n := Quotient(i, t.chunkLength);
       n < Count(t) && ChunkText(t, n).Some? && Remainder(i, t.chunkLength) < |ChunkText(t, n).value|
  }

  function ByteAt(t: Table, i: nat): byte
    requires HasByte(t, i)
  {
    ChunkText(t, Quotient(i, t.chunkLength)).value[Remainder(i, t.chunkLength)]
  }

  /** `out` is exactly the text from `start` on. */
  predicate Delivers(t: Table, start: nat, out: seq<byte>)
  {
    forall j :: start <= j < start + |out| ==> HasByte(t, j) && out[j - start] == ByteAt(t, j)
  }

  /** A chunk the loader can be asked for without spoiling the cache: it loads, or it inflates to nothing. */
  predicate Harmless(t: Table, n: nat)
    requires n < Count(t)
  {
    ChunkText(t, n).Some? || t.chunks[n] == Inflated([])
  }

  predicate AllHarmless(t: Table)
  {
    forall n :: 0 <= n < Count(t) ==> Harmless(t, n)
  }

  /** Every chunk loads. */
  predicate Healthy(t: Table)
  {
    Count(t) > 0 && t.chunkLength > 0 && forall n :: 0 <= n < Count(t) ==> ChunkText(t, n).Some?
  }

  /** Cache coherence: no error so far, and the cached bytes are the text of the chunk at the cache start. */
  predicate Coherent(t: Table, c: Cache)
  {
    !c.error
    && (c.text == []
        || exists n :: 0 <= n < Count(t) && c.start == Multiple(n, t.chunkLength) && ChunkText(t, n) == Some(c.text))
  }

  /** Position `from` of the text of chunk `n`. */
  lemma ByteOfChunk(t: Table, n: nat, from: nat)
    requires n < Count(t) && from < t.chunkLength
    ensures HasByte(t, Multiple(n, t.chunkLength) + from) <==> ChunkText(t, n).Some? && from < |ChunkText(t, n).value|
    ensures HasByte(t, Multiple(n, t.chunkLength) + from)
            ==> ByteAt(t, Multiple(n, t.chunkLength) + from) == ChunkText(t, n).value[from]
  {
    Coordinates(n, from, t.chunkLength);
  }

  /** A stretch of a chunk's text is the text at the chunk's position. */
  lemma ChunkDelivers(t: Table, n: nat, from: nat, k: nat)
    requires n < Count(t) && ChunkText(t, n).Some? && from + k <= |ChunkText(t, n).value|
    ensures Delivers(t, Multiple(n, t.chunkLength) + from, ChunkText(t, n).value[from..from + k])
  {
    var base := Multiple(n, t.chunkLength);
    var out := ChunkText(t, n).value[from..from + k];
    forall j | base + from <= j < base + from + |out| ensures HasByte(t, j) && out[j - (base + from)] == ByteAt(t, j) {
      ByteOfChunk(t, n, j - base);
    }
  }

  lemma DeliversConcat(t: Table, start: nat, a: seq<byte>, b: seq<byte>)
    requires Delivers(t, start, a) && Delivers(t, start + |a|, b)
    ensures Delivers(t, start, a + b)
  {
    var out := a + b;
    forall j | start <= j < start + |out| ensures HasByte(t, j) && out[j - start] == ByteAt(t, j) {
      if j < start + |a| {
        assert out[j - start] == a[j - start];
      } else {
        assert out[j - start] == b[j - (start + |a|)];
      }
    }
  }

  lemma LoadCoherent(t: Table, c: Cache, n: nat)
    requires AllHarmless(t) && Coherent(t, c)
    ensures Coherent(t, Load(t, c, n).1)
    ensures Load(t, c, n).0 <==> n < Count(t) && ChunkText(t, n).Some?
  {
    if n < Count(t) {
      assert Harmless(t, n);
    }
  }

  lemma CachedDelivers(t: Table, c: Cache, start: nat, len: nat)
    requires Coherent(t, c)
    ensures Delivers(t, start, CachedPart(c, start, len))
  {
    if Hits(c, start) {
      var n :| 0 <= n < Count(t) && c.start == Multiple(n, t.chunkLength) && ChunkText(t, n) == Some(c.text);
      ChunkDelivers(t, n, start - c.start, Cached(c, start, len));
    }
  }

  lemma FinishDelivers(t: Table, head: seq<byte>, n: nat, d: Cache, base: nat, len: nat)
    requires n < Count(t) && d.start == Multiple(n, t.chunkLength) && ChunkText(t, n) == Some(d.text)
    requires Delivers(t, base, head)
    ensures Delivers(t, base, Finish(head, d, base + |head|, len).out)
  {
    var start := base + |head|;
    if d.start <= start <= d.start + |d.text| {
      var from := start - d.start;
      var ready := Min(|d.text| - from, len);
      ChunkDelivers(t, n, from, ready);
      DeliversConcat(t, base, head, d.text[from..from + ready]);
    }
  }

  /** The cache a read leaves is coherent, and everything the read copied is the text asked for. */
  predicate Sound(t: Table, start: nat, r: ReadResult) {
    Coherent(t, r.cache) && Delivers(t, start, r.out)
  }

  /** One read from a coherent cache: the cache stays coherent, and everything copied is the text asked for. */
  lemma ReadCoherent(t: Table, c: Cache, start: nat, len: nat)
    requires AllHarmless(t) && Coherent(t, c)
    ensures Sound(t, start, Read(t, c, start, len))
  {
    var head := CachedPart(c, start, len);
    CachedDelivers(t, c, start, len);
    if (Hits(c, start) && |head| == len) || t.chunkLength == 0 {
      ReadStops(t, c, start, len, head);
    } else {
      ReadFetches(t, c, start, len, head);
      FetchCoherent(t, c, head, start, len - |head|);
    }
  }

  lemma FetchCoherent(t: Table, c: Cache, head: seq<byte>, base: nat, len: nat)
    requires AllHarmless(t) && Coherent(t, c) && t.chunkLength > 0 && Delivers(t, base, head)
    ensures Sound(t, base, Fetch(t, c, head, base + |head|, len))
  {
    var n := Quotient(base + |head|, t.chunkLength);
    var loaded := Load(t, c, n);
    LoadCoherent(t, c, n);
    if loaded.0 {
      FinishDelivers(t, head, n, loaded.1, base, len);
      assert Finish(head, loaded.1, base + |head|, len).cache == loaded.1;
    }
  }

  // ---- runs ----

  datatype Operation = ReadAt(start: nat, len: nat) | Drop

  function Step(t: Table, c: Cache, op: Operation): Cache
  {
    match op
    case ReadAt(start, len) => Read(t, c, start, len).cache
    case Drop => Compact(c)
  }

  function Run(t: Table, c: Cache, ops: seq<Operation>): Cache
    decreases |ops|
  {
    if ops == [] then c else Run(t, Step(t, c, ops[0]), ops[1..])
  }

  /** The state right after `open`. */
  const FRESH: Cache := Cache(false, 0, [])

  lemma {:induction false} RunCoherent(t: Table, c: Cache, ops: seq<Operation>)
    requires AllHarmless(t) && Coherent(t, c)
    ensures Coherent(t, Run(t, c, ops))
    decreases |ops|
  {
    if ops != [] {
      if ops[0].ReadAt? {
        ReadCoherent(t, c, ops[0].start, ops[0].len);
      }
      RunCoherent(t, Step(t, c, ops[0]), ops[1..]);
    }
  }

  /** After any run, a read that reports success delivers the text it was asked for. */
  ghost predicate Faithful(t: Table)
  {
    forall ops: seq<Operation>, start: nat, len: nat ::
      var r := Read(t, Run(t, FRESH, ops), start, len);
      r.status.Done? ==> Delivers(t, start, r.out)
  }

  lemma {:induction false} HarmlessIsFaithful(t: Table)
    requires AllHarmless(t)
    ensures Faithful(t)
  {
    forall ops: seq<Operation>, start: nat, len: nat
      ensures var r := Read(t, Run(t, FRESH, ops), start, len);
              r.status.Done? ==> Delivers(t, start, r.out)
    {
      RunCoherent(t, FRESH, ops);
      ReadCoherent(t, Run(t, FRESH, ops), start, len);
    }
  }

  /** After chunk `n` failed to load, the cache answers for it with bytes that are not its text. */
  lemma FailedLoadStale(t: Table, c: Cache, n: nat)
    requires t.chunkLength > 0 && n < Count(t) && !Harmless(t, n)
    requires !c.error && c.text != [] && !Hits(c, Multiple(n, t.chunkLength))
    ensures var at := Multiple(n, t.chunkLength);
            var d := Read(t, c, at, 1).cache;
            Read(t, d, at, 1).status.Done? && !Delivers(t, at, Read(t, d, at, 1).out)
  {
    hide Read, Load, Harmless, Hits, HasByte, Delivers;
    var at := Multiple(n, t.chunkLength);
    LoadFails(t, c, n);
    MissReads(t, c, n);
    var d := Load(t, c, n).1;
    HitReads(t, d);
    NotDelivered(t, n, Read(t, d, at, 1).out);
  }

  lemma LoadFails(t: Table, c: Cache, n: nat)
    requires n < Count(t) && !Harmless(t, n) && !c.error && c.text != []
    ensures var (ok, d) := Load(t, c, n);
            !ok && d.start == Multiple(n, t.chunkLength) && d.text != [] && ChunkText(t, n).None?
  {
  }

  lemma MissReads(t: Table, c: Cache, n: nat)
    requires t.chunkLength > 0 && !Hits(c, Multiple(n, t.chunkLength)) && !Load(t, c, n).0
    ensures Read(t, c, Multiple(n, t.chunkLength), 1).cache == Load(t, c, n).1
  {
    hide Load, Hits;
    QuotientUnique(Multiple(n, t.chunkLength), t.chunkLength, n);
  }

  lemma HitReads(t: Table, d: Cache)
    requires d.text != []
    ensures Read(t, d, d.start, 1).status.Done? && |Read(t, d, d.start, 1).out| == 1
  {
    hide Fetch;
  }

  lemma NotDelivered(t: Table, n: nat, out: seq<byte>)
    requires t.chunkLength > 0 && n < Count(t) && ChunkText(t, n).None? && out != []
    ensures !Delivers(t, Multiple(n, t.chunkLength), out)
  {
    ByteOfChunk(t, n, 0);
  }

  /** What the cache holds when the load of a chunk has failed: it says it is the chunk's text, but it is what the chunk
      inflated to, if that is only too short; or the old bytes, the first ones overwritten by what was inflated before
      the chunk was refused; or, when the file ended too early, or had before, all the old bytes, and the error flag. */
  lemma FailedLoadHolds(t: Table, c: Cache, n: nat)
    requires t.chunkLength > 0 && n < Count(t) && (c.error || ChunkText(t, n).None?)
    requires !Hits(c, Multiple(n, t.chunkLength))
    ensures var at, a := Multiple(n, t.chunkLength), t.chunks[n];
            var r := Read(t, c, at, 1);
            && r.status.Short? && r.cache.start == at && r.cache.error == (c.error || a.Truncated?)
            && (!c.error && a.Inflated? ==> r.cache.text == a.out)
            && (c.error || a.Truncated? ==> r.cache.text == c.text)
            && (!c.error && a.Broken? ==>
                  |r.cache.text| == |c.text|
                  && forall i :: 0 <= i < |c.text| ==> r.cache.text[i] == if i < |a.out| then a.out[i] else c.text[i])
  {
    hide Read, Fetch, Load, Hits;
    var at := Multiple(n, t.chunkLength);
    MissCopiesNothing(c, at, 1);
    ReadFetches(t, c, at, 1, []);
    FailedLoad(t, c, n);
    FailedFetch(t, c, n);
  }

  lemma FailedFetch(t: Table, c: Cache, n: nat)
    requires t.chunkLength > 0 && !Load(t, c, n).0
    ensures Fetch(t, c, [], Multiple(n, t.chunkLength), 1) == ReadResult(Short, [], Load(t, c, n).1)
  {
    hide Load;
    QuotientUnique(Multiple(n, t.chunkLength), t.chunkLength, n);
  }

  lemma FailedLoad(t: Table, c: Cache, n: nat)
    requires n < Count(t) && (c.error || ChunkText(t, n).None?)
    ensures var (ok, d), a := Load(t, c, n), t.chunks[n];
            && !ok && d.start == Multiple(n, t.chunkLength) && d.error == (c.error || a.Truncated?)
            && (!c.error && a.Inflated? ==> d.text == a.out)
            && (c.error || a.Truncated? ==> d.text == c.text)
            && (!c.error && a.Broken? ==>
                  |d.text| == |c.text|
                  && forall i :: 0 <= i < |c.text| ==> d.text[i] == if i < |a.out| then a.out[i] else c.text[i])
  {
  }

  /** The error flag is sticky: once it is set, over any run, only what the cache holds in full is served. */
  lemma {:induction false} ErrorSticks(t: Table, c: Cache, ops: seq<Operation>, start: nat, len: nat)
    requires c.error
    ensures var d := Run(t, c, ops);
            d.error && (Read(t, d, start, len).status.Done? <==> Hits(d, start) && Cached(d, start, len) == len)
    decreases |ops|
  {
    if ops != [] {
      ErrorSticks(t, Step(t, c, ops[0]), ops[1..], start, len);
    }
  }

  /** When what remains of a request lies beyond the chunk table, the cached part is copied and the cache stays. */
  lemma BeyondTable(t: Table, c: Cache, start: nat, len: nat)
    requires t.chunkLength > 0 && Quotient(start + Cached(c, start, len), t.chunkLength) >= Count(t)
    requires !Hits(c, start) || Cached(c, start, len) < len
    ensures Read(t, c, start, len) == ReadResult(Short, CachedPart(c, start, len), c)
  {
  }

  /** With chunks of length zero every read from a fresh cache divides by zero. */
  lemma ZeroChunkLength(t: Table, c: Cache, start: nat, len: nat)
    requires t.chunkLength == 0 && c.text == []
    ensures Read(t, c, start, len).status.Undefined?
  {
  }

  /** No chunk inflates to any text. */
  predicate AllEmpty(t: Table)
  {
    forall n :: 0 <= n < Count(t) ==> t.chunks[n].Inflated? ==> t.chunks[n].out == []
  }

  /** Success can be trusted over every run exactly when no chunk is able to spoil the cache, or there is no text that it
      could be spoiled with. */
  lemma FaithfulExactly(t: Table)
    ensures Faithful(t) <==> AllHarmless(t) || AllEmpty(t)
  {
    hide Faithful, Harmless;
    if AllHarmless(t) {
      HarmlessIsFaithful(t);
    } else if AllEmpty(t) {
      EmptyIsFaithful(t);
    } else {
      var n :| 0 <= n < Count(t) && !Harmless(t, n);
      var m :| 0 <= m < Count(t) && t.chunks[m].Inflated? && t.chunks[m].out != [];
      if ChunkText(t, m).None? {
        ShortChunkRun(t, m);
      } else {
        HarmfulRun(t, n, m);
      }
    }
  }

  lemma ReadStaysEmpty(t: Table, c: Cache, start: nat, len: nat)
    requires AllEmpty(t) && c.text == []
    ensures var r := Read(t, c, start, len);
            r.cache.text == [] && r.out == []
  {
  }

  lemma {:induction false} RunStaysEmpty(t: Table, c: Cache, ops: seq<Operation>)
    requires AllEmpty(t) && c.text == []
    ensures Run(t, c, ops).text == []
    decreases |ops|
  {
    hide Read, AllEmpty;
    if ops != [] {
      if ops[0].ReadAt? {
        ReadStaysEmpty(t, c, ops[0].start, ops[0].len);
      }
      RunStaysEmpty(t, Step(t, c, ops[0]), ops[1..]);
    }
  }

  lemma EmptyIsFaithful(t: Table)
    requires AllEmpty(t)
    ensures Faithful(t)
  {
    hide Read, Run, AllEmpty;
    forall ops: seq<Operation>, start: nat, len: nat
      ensures var r := Read(t, Run(t, FRESH, ops), start, len);
              r.status.Done? ==> Delivers(t, start, r.out)
    {
      RunStaysEmpty(t, FRESH, ops);
      ReadStaysEmpty(t, Run(t, FRESH, ops), start, len);
    }
  }

  /** A run after which a successful read delivers something else is one that refutes faithfulness. */
  lemma Unfaithful(t: Table, ops: seq<Operation>, start: nat, len: nat)
    requires var r := Read(t, Run(t, FRESH, ops), start, len);
             r.status.Done? && !Delivers(t, start, r.out)
    ensures !Faithful(t)
  {
    hide Read, Run, Delivers;
  }

  /** A chunk that is too short, and not the last one, does not load, but stays in the cache. */
  lemma ShortChunkRun(t: Table, m: nat)
    requires m < Count(t) && t.chunks[m].Inflated? && t.chunks[m].out != [] && ChunkText(t, m).None?
    ensures !Faithful(t)
  {
    hide Read, Run, Delivers, Faithful;
    var at := Multiple(m, t.chunkLength);
    var c := Load(t, FRESH, m).1;
    MissReads(t, FRESH, m);
    RunOne(t, FRESH, ReadAt(at, 1));
    HitReads(t, c);
    NotDelivered(t, m, Read(t, c, at, 1).out);
    Unfaithful(t, [ReadAt(at, 1)], at, 1);
  }

  lemma HarmfulRun(t: Table, n: nat, m: nat)
    requires n < Count(t) && !Harmless(t, n)
    requires m < Count(t) && ChunkText(t, m).Some? && ChunkText(t, m).value != []
    ensures !Faithful(t)
  {
    hide Read, Run, Delivers, Faithful, Harmless, Hits;
    var at, load := Multiple(n, t.chunkLength), ReadAt(Multiple(m, t.chunkLength), 1);
    var c := Load(t, FRESH, m).1;
    LoadsText(t, n, m);
    assert Step(t, FRESH, load) == c;
    FailedLoadStale(t, c, n);
    RunTwo(t, FRESH, load, ReadAt(at, 1));
    Unfaithful(t, [load, ReadAt(at, 1)], at, 1);
  }

  /** Loading chunk `m` into a fresh cache, which then does not hold the start of another chunk. */
  lemma LoadsText(t: Table, n: nat, m: nat)
    requires n < Count(t) && !Harmless(t, n)
    requires m < Count(t) && ChunkText(t, m).Some? && ChunkText(t, m).value != []
    ensures t.chunkLength > 0
    ensures var at, c := Multiple(m, t.chunkLength), Load(t, FRESH, m).1;
            && Step(t, FRESH, ReadAt(at, 1)) == c
            && !c.error && c.text != [] && !Hits(c, Multiple(n, t.chunkLength))
  {
    var at, cl := Multiple(m, t.chunkLength), t.chunkLength;
    QuotientUnique(at, cl, m);
    if n < m {
      MultipleMono(n, m, cl);
    } else if m < n {
      MultipleMono(m, n, cl);
    }
  }

  lemma RunOne(t: Table, c: Cache, a: Operation)
    ensures Run(t, c, [a]) == Step(t, c, a)
  {
    assert [a][1..] == [];
    assert Run(t, Step(t, c, a), []) == Step(t, c, a);
  }

  lemma RunTwo(t: Table, c: Cache, a: Operation, b: Operation)
    ensures Run(t, c, [a, b]) == Step(t, Step(t, c, a), b)
  {
    assert [a, b][1..] == [b] && [b][1..] == [];
    assert Run(t, c, [a, b]) == Run(t, Step(t, c, a), [b]);
    assert Run(t, Step(t, c, a), [b]) == Run(t, Step(t, Step(t, c, a), b), []);
  }

  // ---- healthy files: the flat text ----

  /** The texts of the chunks, in order. */
  function Texts(t: Table): (texts: seq<seq<byte>>)
    requires Healthy(t)
    ensures |texts| == Count(t) && forall n :: 0 <= n < |texts| ==> ChunkText(t, n) == Some(texts[n])
    ensures Regular(texts, t.chunkLength)
  {
    var texts := seq(Count(t), n requires 0 <= n < Count(t) => ChunkText(t, n).value);
    assert forall n :: 0 <= n < |texts| ==> ChunkText(t, n) == Some(texts[n]);
    texts
  }

  /** The whole text. */
  function Flat(t: Table): seq<byte>
    requires Healthy(t)
  {
    Join(Texts(t))
  }

  lemma FlatAt(t: Table, i: nat)
    requires Healthy(t)
    ensures i < |Flat(t)| <==> HasByte(t, i)
    ensures i < |Flat(t)| ==> Flat(t)[i] == ByteAt(t, i)
  {
    JoinAt(Texts(t), t.chunkLength, i);
    InsideHasByte(t, Texts(t), i);
  }

  lemma InsideHasByte(t: Table, texts: seq<seq<byte>>, i: nat)
    requires t.chunkLength > 0
    requires |texts| == Count(t) && forall n :: 0 <= n < |texts| ==> ChunkText(t, n) == Some(texts[n])
    ensures Inside(texts, t.chunkLength, i) <==> HasByte(t, i)
    ensures HasByte(t, i) ==> texts[Quotient(i, t.chunkLength)][Remainder(i, t.chunkLength)] == ByteAt(t, i)
  {
  }

  /** On a healthy file, delivering is copying a slice of the flat text. */
  lemma DeliversSlice(t: Table, start: nat, out: seq<byte>)
    requires Healthy(t) && out != []
    ensures Delivers(t, start, out) <==> start + |out| <= |Flat(t)| && out == Flat(t)[start..start + |out|]
  {
    var flat := Flat(t);
    var end := start + |out|;
    if Delivers(t, start, out) {
      FlatAt(t, end - 1);
      assert HasByte(t, end - 1);
      forall i | 0 <= i < |out| ensures out[i] == flat[start..end][i] {
        FlatAt(t, start + i);
        assert HasByte(t, start + i);
      }
    }
    if end <= |flat| && out == flat[start..end] {
      SliceDelivers(t, start, out);
    }
  }

  lemma SliceDelivers(t: Table, start: nat, out: seq<byte>)
    requires Healthy(t) && start + |out| <= |Flat(t)| && out == Flat(t)[start..start + |out|]
    ensures Delivers(t, start, out)
  {
    forall j | start <= j < start + |out| ensures HasByte(t, j) && out[j - start] == ByteAt(t, j) {
      FlatAt(t, j);
    }
  }

  lemma HealthyIsHarmless(t: Table)
    requires Healthy(t)
    ensures AllHarmless(t)
  {
  }

  /** Main result: on a healthy file, after any run of reads and compactions, a nonempty read that reports success
      has delivered exactly the flat text from `start` to `start + len`. */
  lemma ReadsAreFlat(t: Table, ops: seq<Operation>, start: nat, len: nat)
    requires Healthy(t) && len > 0
    ensures var r := Read(t, Run(t, FRESH, ops), start, len);
            r.status.Done? ==> start + len <= |Flat(t)| && r.out == Flat(t)[start..start + len]
  {
    RunCoherent(t, FRESH, ops);
    var c := Run(t, FRESH, ops);
    ReadCoherent(t, c, start, len);
    ReadLength(t, c, start, len);
    if Read(t, c, start, len).status.Done? {
      DeliversSlice(t, start, Read(t, c, start, len).out);
    }
  }

  // ---- which reads succeed ----

  /** The chunk that holds position `i`. */
  function ChunkOf(t: Table, i: nat): nat
    requires t.chunkLength > 0
  {
    Quotient(i, t.chunkLength)
  }

  /** What remains of the request after the cached part is empty, or lies in one chunk. */
  predicate RestInOneChunk(t: Table, c: Cache, start: nat, len: nat)
    requires t.chunkLength > 0
  {
    var k := Cached(c, start, len);
    k == len || ChunkOf(t, start + k) == ChunkOf(t, start + len - 1)
  }

  lemma FinishLength(d: Cache, head: seq<byte>, p: nat, len: nat)
    requires len > 0 && d.start <= p < d.start + |d.text|
    ensures var r := Finish(head, d, p, len);
            (r.status.Done? <==> p + len <= d.start + |d.text|) && !r.status.Undefined?
  {
  }

  /** A request from `p` on fits into the chunk of `p` exactly when its last byte is in that chunk. */
  lemma FitsChunk(t: Table, p: nat, len: nat)
    requires Healthy(t) && len > 0 && p + len <= |Flat(t)|
    ensures var n := ChunkOf(t, p);
            && n < Count(t)
            && (p + len <= Multiple(n, t.chunkLength) + |ChunkText(t, n).value| <==> ChunkOf(t, p + len - 1) == n)
            && p < Multiple(n, t.chunkLength) + |ChunkText(t, n).value|
  {
    FlatAt(t, p);
    FlatAt(t, p + len - 1);
    var n := ChunkOf(t, p);
    if p + len <= Multiple(n, t.chunkLength) + |ChunkText(t, n).value| {
      QuotientUnique(p + len - 1, t.chunkLength, n);
    }
  }

  /** Exact success condition of a nonempty read within the text, from any coherent cache. */
  lemma ReadSucceeds(t: Table, c: Cache, start: nat, len: nat)
    requires Healthy(t) && Coherent(t, c)
    requires len > 0 && start + len <= |Flat(t)|
    ensures var r := Read(t, c, start, len);
            (r.status.Done? <==> RestInOneChunk(t, c, start, len)) && !r.status.Undefined?
  {
    hide Fetch, Coherent, Healthy, Flat;
    var k, head := Cached(c, start, len), CachedPart(c, start, len);
    HealthyLength(t);
    if k < len {
      ReadFetches(t, c, start, len, head);
      FetchSucceeds(t, c, head, start + k, len - k);
    } else {
      ReadStops(t, c, start, len, head);
    }
  }

  lemma FetchSucceeds(t: Table, c: Cache, head: seq<byte>, p: nat, len: nat)
    requires Healthy(t) && Coherent(t, c)
    requires len > 0 && p + len <= |Flat(t)|
    ensures var r := Fetch(t, c, head, p, len);
            (r.status.Done? <==> ChunkOf(t, p) == ChunkOf(t, p + len - 1)) && !r.status.Undefined?
  {
    var n := ChunkOf(t, p);
    HealthyIsHarmless(t);
    FitsChunk(t, p, len);
    LoadCoherent(t, c, n);
    FinishLength(Load(t, c, n).1, head, p, len);
  }

  /** Exactly which nonempty reads copy from beyond the text of a chunk: those that start behind the text, but in a chunk
      that there is, whatever the cache holds. */
  lemma ReadUndefined(t: Table, c: Cache, start: nat, len: nat)
    requires Healthy(t) && Coherent(t, c)
    ensures Read(t, c, start, len).status.Undefined?
            <==> len > 0 && start > |Flat(t)| && ChunkOf(t, start) < Count(t)
  {
    hide Fetch, Healthy, Coherent, Flat, Hits, Finish;
    var k, head := Cached(c, start, len), CachedPart(c, start, len);
    HealthyLength(t);
    if Hits(c, start) {
      HitInside(t, c, start, len);
      if k == len {
        ReadStops(t, c, start, len, head);
      } else {
        ReadFetches(t, c, start, len, head);
        FetchUndefined(t, c, head, start + k, len - k);
      }
    } else {
      assert k == 0 && head == [] by { MissCopiesNothing(c, start, len); }
      ReadFetches(t, c, start, len, head);
      FetchUndefined(t, c, head, start, len);
    }
  }

  lemma MissCopiesNothing(c: Cache, start: nat, len: nat)
    requires !Hits(c, start)
    ensures Cached(c, start, len) == 0 && CachedPart(c, start, len) == []
  {
  }

  /** The cached part of a request lies within the text. */
  lemma HitInside(t: Table, c: Cache, start: nat, len: nat)
    requires Healthy(t) && Coherent(t, c) && Hits(c, start)
    ensures start < |Flat(t)| && start + Cached(c, start, len) <= |Flat(t)|
  {
    var n :| 0 <= n < Count(t) && c.start == Multiple(n, t.chunkLength) && ChunkText(t, n) == Some(c.text);
    var last := |c.text| - 1;
    ByteOfChunk(t, n, last);
    FlatAt(t, Multiple(n, t.chunkLength) + last);
  }

  lemma FetchUndefined(t: Table, c: Cache, head: seq<byte>, p: nat, len: nat)
    requires Healthy(t) && Coherent(t, c)
    ensures Fetch(t, c, head, p, len).status.Undefined?
            <==> len > 0 && p > |Flat(t)| && ChunkOf(t, p) < Count(t)
  {
    hide Flat, Coherent;
    HealthyIsHarmless(t);
    var n := ChunkOf(t, p);
    LoadCoherent(t, c, n);
    if n < Count(t) {
      BehindText(t, p);
    }
  }

  /** Behind the text, but in a chunk that there is: behind that chunk's text. */
  lemma BehindText(t: Table, p: nat)
    requires Healthy(t) && ChunkOf(t, p) < Count(t)
    ensures var n := ChunkOf(t, p);
            p > |Flat(t)| <==> p > Multiple(n, t.chunkLength) + |ChunkText(t, n).value|
  {
    JoinLength(Texts(t), t.chunkLength);
    MultipleMono(ChunkOf(t, p), Count(t) - 1, t.chunkLength);
  }

  /** How many bytes the chunk of position `p` has from there on. */
  function Left(t: Table, p: nat): nat
    requires Healthy(t) && p < |Flat(t)|
  {
    FitsChunk(t, p, 1);
    Multiple(ChunkOf(t, p), t.chunkLength) + |ChunkText(t, ChunkOf(t, p)).value| - p
  }

  /** How many bytes a read from a healthy file copies: the cached part, and what the chunk after it still has. */
  function Copied(t: Table, c: Cache, start: nat, len: nat): (n: nat)
    requires Healthy(t)
  {
    var k := Cached(c, start, len);
    if k == len || start + k >= |Flat(t)| then k
    else k + Min(len - k, Left(t, start + k))
  }

  /** A nonempty read succeeds exactly when it copies all that was asked for. */
  lemma ReadCopies(t: Table, c: Cache, start: nat, len: nat)
    requires Healthy(t) && Coherent(t, c) && len > 0
    ensures var r := Read(t, c, start, len);
            |r.out| == Copied(t, c, start, len) && (r.status.Done? <==> |r.out| == len)
  {
    hide Fetch, Healthy, Coherent, Flat, Hits, Finish;
    var k, head := Cached(c, start, len), CachedPart(c, start, len);
    HealthyLength(t);
    if k == len {
      FullyCached(c, start, len);
      ReadStops(t, c, start, len, head);
    } else {
      ReadFetches(t, c, start, len, head);
      FetchCopies(t, c, head, start + k, len - k);
    }
  }

  lemma FullyCached(c: Cache, start: nat, len: nat)
    requires len > 0 && Cached(c, start, len) == len
    ensures Hits(c, start)
  {
  }

  lemma FetchCopies(t: Table, c: Cache, head: seq<byte>, p: nat, len: nat)
    requires Healthy(t) && Coherent(t, c) && len > 0
    ensures var r := Fetch(t, c, head, p, len);
            && (p >= |Flat(t)| ==> |r.out| == |head|)
            && (p < |Flat(t)| ==> |r.out| == |head| + Min(len, Left(t, p)))
            && (r.status.Done? <==> |r.out| == |head| + len)
  {
    hide Flat, Coherent;
    HealthyIsHarmless(t);
    var n := ChunkOf(t, p);
    LoadCoherent(t, c, n);
    if p < |Flat(t)| {
      FitsChunk(t, p, 1);
    } else if n < Count(t) {
      BehindText(t, p);
      EndOfText(t, p);
    }
  }

  /** At the end of the text or behind it, nothing of the chunk is left. */
  lemma EndOfText(t: Table, p: nat)
    requires Healthy(t) && p >= |Flat(t)| && ChunkOf(t, p) < Count(t)
    ensures p >= Multiple(ChunkOf(t, p), t.chunkLength) + |ChunkText(t, ChunkOf(t, p)).value|
  {
    JoinLength(Texts(t), t.chunkLength);
    MultipleMono(ChunkOf(t, p), Count(t) - 1, t.chunkLength);
  }

  /** An empty read copies nothing, and succeeds exactly when its position lies in a chunk that there is, even if the text
      ends before it has a byte there. */
  lemma EmptyRead(t: Table, c: Cache, start: nat)
    requires Healthy(t) && Coherent(t, c)
    ensures var r := Read(t, c, start, 0);
            r.out == [] && (r.status.Done? <==> ChunkOf(t, start) < Count(t)) && !r.status.Undefined?
  {
    hide Fetch, Healthy, Coherent, Flat, Finish;
    HealthyLength(t);
    ReadLength(t, c, start, 0);
    if Hits(c, start) {
      HitInside(t, c, start, 0);
      FitsChunk(t, start, 1);
      ReadStops(t, c, start, 0, []);
    } else {
      ReadFetches(t, c, start, 0, []);
      EmptyFetch(t, c, start);
    }
  }

  lemma EmptyFetch(t: Table, c: Cache, start: nat)
    requires Healthy(t) && Coherent(t, c)
    ensures var r := Fetch(t, c, [], start, 0);
            (r.status.Done? <==> ChunkOf(t, start) < Count(t)) && !r.status.Undefined?
  {
    hide Coherent;
    HealthyIsHarmless(t);
    LoadCoherent(t, c, ChunkOf(t, start));
  }

  // ---- reads into a buffer ----

  /** A read that has copied `head` so far, into a buffer that holds `room` bytes: copying more is undefined. */
  function Bounded(r: ReadResult, head: seq<byte>, room: nat): (b: ReadResult)
    requires |head| <= room
    ensures |b.out| <= room && b.cache == r.cache
  {
    if |r.out| > room then ReadResult(Undefined, head, r.cache) else r
  }

  function ReadInto(t: Table, c: Cache, start: nat, len: nat, room: nat): (r: ReadResult)
    ensures |r.out| <= room
  {
    var head := CachedPart(c, start, len);
    if |head| > room then ReadResult(Undefined, [], c) else Bounded(Read(t, c, start, len), head, room)
  }

  /** In a buffer that holds what was asked for, nothing is out of bounds. */
  lemma RoomEnough(t: Table, c: Cache, start: nat, len: nat, room: nat)
    requires len <= room
    ensures ReadInto(t, c, start, len, room) == Read(t, c, start, len)
  {
    hide Read;
    ReadLength(t, c, start, len);
  }

  lemma IntoLength(t: Table, c: Cache, start: nat, len: nat, room: nat)
    ensures var r := ReadInto(t, c, start, len, room);
            r.status.Done? ==> |r.out| == len
  {
    hide Read;
    ReadLength(t, c, start, len);
  }

  /** The part of a read that was copied first is part of all that is copied. */
  lemma HeadFirst(t: Table, c: Cache, start: nat, len: nat)
    ensures CachedPart(c, start, len) <= Read(t, c, start, len).out
  {
  }

  /** Where the cached part of a request ends: still in the chunk of `start`, or right after it. */
  lemma CachedEnd(t: Table, c: Cache, start: nat, len: nat)
    requires Healthy(t) && Coherent(t, c)
    ensures ChunkOf(t, start + Cached(c, start, len)) <= ChunkOf(t, start) + 1
  {
    if Hits(c, start) {
      var n :| 0 <= n < Count(t) && c.start == Multiple(n, t.chunkLength) && ChunkText(t, n) == Some(c.text);
      QuotientUnique(start, t.chunkLength, n);
      assert Multiple(n + 1, t.chunkLength) == c.start + t.chunkLength;
      QuotientMono(start + Cached(c, start, len), Multiple(n + 1, t.chunkLength), t.chunkLength);
      QuotientUnique(Multiple(n + 1, t.chunkLength), t.chunkLength, n + 1);
    }
  }

  /** No read that spans three or more chunks succeeds, whatever the cache holds. */
  lemma LongReadFails(t: Table, c: Cache, start: nat, len: nat)
    requires Healthy(t) && Coherent(t, c) && len > 0 && start + len <= |Flat(t)|
    requires ChunkOf(t, start + len - 1) > ChunkOf(t, start) + 1
    ensures Read(t, c, start, len).status == Short
  {
    ReadSucceeds(t, c, start, len);
    CachedEnd(t, c, start, len);
    if Cached(c, start, len) == len {
      QuotientMono(start + len - 1, start + len, t.chunkLength);
    }
  }

  /** The cache holds the whole text of chunk `n`. */
  predicate Holds(t: Table, d: Cache, n: nat) {
    n < Count(t) && d.start == Multiple(n, t.chunkLength) && ChunkText(t, n) == Some(d.text)
  }

  /** A read that goes on in the chunk of `start` leaves that chunk in the cache. */
  lemma FailureCachesChunk(t: Table, c: Cache, start: nat, len: nat)
    requires Healthy(t) && Coherent(t, c) && len > 0 && start + len <= |Flat(t)|
    requires Cached(c, start, len) < len && ChunkOf(t, start + Cached(c, start, len)) == ChunkOf(t, start)
    ensures Holds(t, Read(t, c, start, len).cache, ChunkOf(t, start))
  {
    hide Read, Fetch, Load, Coherent, Healthy, Holds, Flat;
    var head, n := CachedPart(c, start, len), ChunkOf(t, start);
    assert t.chunkLength > 0 by { HealthyLength(t); }
    ReadFetches(t, c, start, len, head);
    FetchCache(t, c, head, start + |head|, len - |head|);
    FitsChunk(t, start, len);
    LoadHolds(t, c, n);
  }

  lemma HealthyLength(t: Table)
    requires Healthy(t)
    ensures t.chunkLength > 0
  {
  }

  lemma LoadHolds(t: Table, c: Cache, n: nat)
    requires Healthy(t) && Coherent(t, c) && n < Count(t)
    ensures Holds(t, Load(t, c, n).1, n)
  {
    HealthyIsHarmless(t);
    LoadCoherent(t, c, n);
  }

  lemma FetchCache(t: Table, c: Cache, head: seq<byte>, p: nat, len: nat)
    requires t.chunkLength > 0
    ensures Fetch(t, c, head, p, len).cache == Load(t, c, ChunkOf(t, p)).1
  {
  }

  /** With the chunk of `start` in the cache, the cached part reaches to the end of that chunk, or of the request. */
  lemma HeldPart(t: Table, d: Cache, start: nat, len: nat)
    requires Healthy(t) && Holds(t, d, ChunkOf(t, start)) && len > 0 && start + len <= |Flat(t)|
    ensures var n, k := ChunkOf(t, start), Cached(d, start, len);
            k < len ==> n + 1 < Count(t) && start + k == Multiple(n + 1, t.chunkLength)
  {
    var n, k, last := ChunkOf(t, start), Cached(d, start, len), start + len - 1;
    FitsChunk(t, start, len);
    FlatAt(t, last);
    QuotientMono(start, last, t.chunkLength);
  }

  /** With the chunk of `start` in the cache, a request that ends in that chunk or the next one succeeds. */
  lemma SecondHalf(t: Table, d: Cache, start: nat, len: nat)
    requires Healthy(t) && Coherent(t, d) && len > 0 && start + len <= |Flat(t)|
    requires Holds(t, d, ChunkOf(t, start))
    requires ChunkOf(t, start + len - 1) <= ChunkOf(t, start) + 1
    ensures Read(t, d, start, len).status.Done?
  {
    var n, k := ChunkOf(t, start), Cached(d, start, len);
    ReadSucceeds(t, d, start, len);
    HeldPart(t, d, start, len);
    if k < len {
      NextChunkStart(t, n, start + k, start + len - 1);
    }
  }

  lemma NextChunkStart(t: Table, n: nat, p: nat, last: nat)
    requires t.chunkLength > 0 && p == Multiple(n + 1, t.chunkLength) <= last
    requires ChunkOf(t, last) <= n + 1
    ensures ChunkOf(t, p) == ChunkOf(t, last)
  {
    QuotientUnique(p, t.chunkLength, n + 1);
    QuotientMono(p, last, t.chunkLength);
  }

  /** Main result: a nonempty request within the text is served by the first or the second identical attempt exactly
      when it spans at most two chunks, whatever the cache held before. */
  lemma TwoAttempts(t: Table, c: Cache, start: nat, len: nat)
    requires Healthy(t) && Coherent(t, c) && len > 0 && start + len <= |Flat(t)|
    ensures var first := Read(t, c, start, len);
            var second := Read(t, first.cache, start, len);
            first.status.Done? || second.status.Done?
            <==> ChunkOf(t, start + len - 1) <= ChunkOf(t, start) + 1
  {
    hide Read, Coherent, Healthy, Flat, AllHarmless;
    var first := Read(t, c, start, len);
    HealthyIsHarmless(t);
    HealthyLength(t);
    ReadCoherent(t, c, start, len);
    if ChunkOf(t, start + len - 1) > ChunkOf(t, start) + 1 {
      LongReadFails(t, c, start, len);
      LongReadFails(t, first.cache, start, len);
    } else if !first.status.Done? {
      var k := Cached(c, start, len);
      ReadSucceeds(t, c, start, len);
      QuotientMono(start, start + k, t.chunkLength);
      QuotientMono(start + k, start + len - 1, t.chunkLength);
      FailureCachesChunk(t, c, start, len);
      SecondHalf(t, first.cache, start, len);
    }
  }
}
