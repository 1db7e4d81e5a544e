/** Records of a text index: one `word TAB start TAB size` line each, the numbers in base 64. */
module IndexRecords {
  import opened Bytes
  import opened CFiles
  import Base64

  /** One record: its number, the byte offset of its line, and the article it names. */
  datatype Word = Word(index: nat, indexPos: nat, start: u32, size: u32, word: seq<byte>)

  /** `Undefined` stands for the read outside the base-64 table. */
  datatype LineResult = NoWord | Entry(w: Word) | Undefined

  const LINE_LIMIT: nat := 1023

  // ---- one line, as my_fgets delivers it ----

  predicate EndsLine(data: seq<byte>, pos: nat) {
    pos >= |data| || data[pos] == NEWLINE || data[pos] == NUL
  }

  /** How many bytes `my_fgets` stores: up to a newline, a NUL byte, the end of file or the size limit. */
  function LineLength(data: seq<byte>, pos: nat, size: nat): (n: nat)
    ensures n <= size && (pos <= |data| ==> pos + n <= |data|)
    decreases size
  {
    if size == 0 || EndsLine(data, pos) then 0 else 1 + LineLength(data, pos + 1, size - 1)
  }

  lemma {:induction false} LineLengthUnique(data: seq<byte>, pos: nat, size: nat, n: nat)
    requires n <= size && (n < size ==> EndsLine(data, pos + n))
    requires forall i :: pos <= i < pos + n ==> !EndsLine(data, i)
    ensures n == LineLength(data, pos, size)
    decreases n
  {
    if n > 0 {
      assert !EndsLine(data, pos);
      LineLengthUnique(data, pos + 1, size - 1, n - 1);
    }
  }

  /** Where the next line starts: the terminator is consumed, except when the size limit was hit. */
  function NextLine(data: seq<byte>, pos: nat): (next: nat)
    ensures next >= pos
    ensures LineLength(data, pos, LINE_LIMIT) > 0 ==> next > pos
    ensures pos <= |data| ==> next <= |data|
  {
    var n := LineLength(data, pos, LINE_LIMIT);
    if n == LINE_LIMIT || pos + n >= |data| then pos + n else pos + n + 1
  }

  function Line(data: seq<byte>, pos: nat): (line: seq<byte>)
    requires pos <= |data|
    ensures |line| == LineLength(data, pos, LINE_LIMIT)
  {
    data[pos..pos + LineLength(data, pos, LINE_LIMIT)]
  }

  method MyFgets(buf: array<byte>, size: nat, f: CFile) returns (n: nat)
    requires size < buf.Length && f.pos <= |f.data|
    requires buf as object != f
    modifies buf, f
    ensures n == LineLength(f.data, old(f.pos), size)
    ensures buf[..n] == f.data[old(f.pos)..old(f.pos) + n] && buf[n] == NUL
    ensures forall i :: 0 <= i < n ==> buf[i] != 10 && buf[i] != 0
    ensures n < size && old(f.pos) + n < |f.data| ==> f.data[old(f.pos) + n] == 10 || f.data[old(f.pos) + n] == 0
    ensures n == size ==> f.pos == old(f.pos) + n && f.eof == old(f.eof)
    ensures n < size && old(f.pos) + n < |f.data| ==> f.pos == old(f.pos) + n + 1 && f.eof == old(f.eof)
    ensures n < size && old(f.pos) + n >= |f.data| ==> f.pos == |f.data| && f.eof
  {
    ghost var start := f.pos;
    n := 0;
    while n < size
      invariant n <= size && f.pos == start + n <= |f.data| && f.eof == old(f.eof)
      invariant forall i :: 0 <= i < n ==> buf[i] == f.data[start + i] && buf[i] != 10 && buf[i] != 0
    {
      var ch := f.Fgetc();
      if ch == 10 {
        break;
      }
      if ch > 0 {
        buf[n] := ch;
      } else {
        break;
      }
      n := n + 1;
    }
    forall i | start <= i < start + n ensures !EndsLine(f.data, i) {
      assert buf[i - start] == f.data[start + (i - start)];
    }
    LineLengthUnique(f.data, start, size, n);
    buf[n] := NUL;
    assert buf[..n] == f.data[start..start + n];
  }

  // ---- one record ----

  /** The first tab of `line` at or after `from`, or the end of the line. */
  function TabAt(line: seq<byte>, from: nat): (t: nat)
    requires from <= |line|
    ensures from <= t <= |line|
    decreases |line| - from
  {
    if from == |line| || line[from] == TAB then from else TabAt(line, from + 1)
  }

  /** The record a line holds: the first two tabs separate the word and the two numbers. */
  function ParseLine(line: seq<byte>, index: nat, pos: nat): LineResult {
    var t0 := TabAt(line, 0);
    if t0 == |line| then NoWord else
    var t1 := TabAt(line, t0 + 1);
    if t1 == |line| then NoWord else
    var start, size := Base64.Parse(line[t0 + 1..t1]), Base64.Parse(line[t1 + 1..]);
    if start.OutsideTable? || size.OutsideTable? then Undefined
    else if start.n == Base64.NOT_A_NUMBER || size.n == Base64.NOT_A_NUMBER then NoWord
    else Entry(Word(index, pos, start.n, size.n, line[..t0]))
  }

  function RecordAt(data: seq<byte>, pos: nat, index: nat): (r: LineResult)
    ensures r.Entry? ==> r.w.index == index && r.w.indexPos == pos && pos < NextLine(data, pos)
    ensures r.Entry? && pos <= |data| ==> NextLine(data, pos) <= |data|
  {
    if pos >= |data| || LineLength(data, pos, LINE_LIMIT) == 0 then NoWord
    else ParseLine(Line(data, pos), index, pos)
  }

  lemma {:induction false} TabAtUnique(line: seq<byte>, from: nat, t: nat)
    requires from <= t <= |line| && (t < |line| ==> line[t] == TAB)
    requires forall i :: from <= i < t ==> line[i] != TAB
    ensures TabAt(line, from) == t
    decreases t - from
  {
    if from < t {
      TabAtUnique(line, from + 1, t);
    }
  }

  /** The record of a line with two tabs at least: reading a number outside the table is undefined, and without two numbers
      there is no record. */
  lemma FieldsOfLine(word: seq<byte>, start: seq<byte>, size: seq<byte>, index: nat, pos: nat)
    requires 9 !in word && 9 !in start
    ensures ParseLine(word + [9] + start + [9] + size, index, pos)
            == match (Base64.Parse(start), Base64.Parse(size))
               case (Number(m), Number(n)) =>
                 if m == 0xFFFF_FFFF || n == 0xFFFF_FFFF then NoWord else Entry(Word(index, pos, m, n, word))
               case _ => Undefined
  {
    var line, t0, t1 := word + [9] + start + [9] + size, |word|, |word| + 1 + |start|;
    assert forall i :: 0 <= i < t0 ==> line[i] == word[i];
    assert forall i :: t0 < i < t1 ==> line[i] == start[i - t0 - 1];
    TabAtUnique(line, 0, t0);
    TabAtUnique(line, t0 + 1, t1);
    assert line[..t0] == word && line[t0 + 1..t1] == start && line[t1 + 1..] == size;
  }

  /** A line with fewer than two tabs holds no record. */
  lemma NoFields(word: seq<byte>, start: seq<byte>, index: nat, pos: nat)
    requires 9 !in word && 9 !in start
    ensures ParseLine(word, index, pos) == NoWord && ParseLine(word + [9] + start, index, pos) == NoWord
  {
    var line, t0 := word + [9] + start, |word|;
    TabAtUnique(word, 0, |word|);
    assert forall i :: 0 <= i < t0 ==> line[i] == word[i];
    assert forall i :: t0 < i < |line| ==> line[i] == start[i - t0 - 1];
    TabAtUnique(line, 0, t0);
    TabAtUnique(line, t0 + 1, |line|);
  }

  method FindTabs(line: seq<byte>) returns (tabc: nat, t0: nat, t1: nat)
    ensures tabc <= 2
    ensures tabc == 0 <==> TabAt(line, 0) == |line|
    ensures tabc > 0 ==> t0 == TabAt(line, 0) < |line| && (tabc == 1 <==> TabAt(line, t0 + 1) == |line|)
    ensures tabc == 2 ==> t1 == TabAt(line, t0 + 1) < |line|
  {
    tabc, t0, t1 := 0, 0, 0;
    for i := 0 to |line|
      invariant tabc <= 2
      invariant tabc == 0 ==> forall j :: 0 <= j < i ==> line[j] != TAB
      invariant tabc > 0 ==> t0 < i && t0 == TabAt(line, 0)
      invariant tabc == 1 ==> forall j :: t0 < j < i ==> line[j] != TAB
      invariant tabc == 2 ==> t1 < i && t1 == TabAt(line, t0 + 1)
    {
      if line[i] == TAB && tabc < 2 {
        if tabc == 0 {
          t0 := i;
          TabAtUnique(line, 0, i);
        } else {
          t1 := i;
          TabAtUnique(line, t0 + 1, i);
        }
        tabc := tabc + 1;
      }
    }
    if tabc == 0 {
      TabAtUnique(line, 0, |line|);
    } else if tabc == 1 {
      TabAtUnique(line, t0 + 1, |line|);
    }
  }

  /** The fields of one line, split at its first two tabs. */
  method ReadFields(line: seq<byte>, index: nat, indexPos: nat) returns (r: LineResult)
    ensures r == ParseLine(line, index, indexPos)
  {
    var tabc, t0, t1 := FindTabs(line);
    if tabc != 2 {
      return NoWord;
    }
    var start := Base64.ParseBase64(line[t0 + 1..t1]);
    var size := Base64.ParseBase64(line[t1 + 1..]);
    if start.OutsideTable? || size.OutsideTable? {
      return Undefined;
    }
    if start.n == Base64.NOT_A_NUMBER || size.n == Base64.NOT_A_NUMBER {
      return NoWord;
    }
    r := Entry(Word(index, indexPos, start.n, size.n, line[..t0]));
  }

  method ReadLine(f: CFile) returns (line: seq<byte>)
    requires f.pos <= |f.data| && !f.eof
    modifies f
    ensures line == Line(f.data, old(f.pos))
    ensures f.pos == NextLine(f.data, old(f.pos)) <= |f.data| && (f.eof ==> f.pos == |f.data|)
  {
    var buf := new byte[1024];
    var sz := MyFgets(buf, LINE_LIMIT, f);
    line := buf[..sz];
  }

  /** `TinyDictWord::read`: the record at the file cursor, which moves to the next line. */
  method ReadWord(f: CFile, index: nat) returns (r: LineResult)
    requires f.pos <= |f.data| && (f.eof ==> f.pos == |f.data|)
    modifies f
    ensures r == RecordAt(f.data, old(f.pos), index)
    ensures f.pos <= |f.data| && (f.eof ==> f.pos == |f.data|)
    ensures f.pos == NextLine(f.data, old(f.pos))
  {
    if f.eof {
      return NoWord;
    }
    var indexPos := f.pos;
    var line := ReadLine(f);
    if |line| == 0 {
      return NoWord;
    }
    r := ReadFields(line, index, indexPos);
  }

  // ---- all records of a file ----

  /** Every record from `pos` on, up to the first line that is not one. */
  function Records(data: seq<byte>, pos: nat, index: nat): (ws: seq<Word>)
    requires pos <= |data|
    decreases |data| - pos
  {
    var r := RecordAt(data, pos, index);
    if r.Entry? then [r.w] + Records(data, NextLine(data, pos), index + 1) else []
  }

  /** Records are numbered from `index` on, and lie within the file. */
  lemma {:induction false} RecordPlaces(data: seq<byte>, pos: nat, index: nat, k: nat)
    requires pos <= |data| && k < |Records(data, pos, index)|
    ensures var w := Records(data, pos, index)[k];
            w.index == index + k && pos <= w.indexPos < |data|
    decreases k
  {
    hide RecordAt, NextLine;
    RecordsStep(data, pos, index);
    if k > 0 {
      RecordPlaces(data, NextLine(data, pos), index + 1, k - 1);
    }
  }

  /** Whether reading records from `pos` on ends in the read outside the base-64 table. */
  predicate EndsUndefined(data: seq<byte>, pos: nat)
    requires pos <= |data|
    decreases |data| - pos
  {
    match RecordAt(data, pos, 0)
    case NoWord => false
    case Undefined => true
    case Entry(_) => EndsUndefined(data, NextLine(data, pos))
  }

  lemma RecordShape(data: seq<byte>, pos: nat, i: nat, j: nat)
    ensures RecordAt(data, pos, i).Entry? <==> RecordAt(data, pos, j).Entry?
    ensures RecordAt(data, pos, i).Undefined? <==> RecordAt(data, pos, j).Undefined?
  {
  }

  /** One step of reading records. */
  lemma RecordsStep(data: seq<byte>, pos: nat, index: nat)
    requires pos <= |data|
    ensures var r := RecordAt(data, pos, index);
            if r.Entry?
            then NextLine(data, pos) <= |data|
                 && Records(data, pos, index) != [] && Records(data, pos, index)[0] == r.w
                 && Records(data, pos, index)[1..] == Records(data, NextLine(data, pos), index + 1)
                 && EndsUndefined(data, pos) == EndsUndefined(data, NextLine(data, pos))
            else Records(data, pos, index) == [] && EndsUndefined(data, pos) == r.Undefined?
  {
    RecordShape(data, pos, 0, index);
  }

  /** At `pos`, the records still to be read are `rest`, and reading them ends in `Undefined` or not. */
  ghost predicate Reading(data: seq<byte>, pos: nat, index: nat, rest: seq<Word>, undefined: bool) {
    pos <= |data| && rest == Records(data, pos, index) && undefined == EndsUndefined(data, pos)
  }

  /** Reads the next of the records still to be read. */
  method ReadNext(f: CFile, index: nat, ghost rest: seq<Word>, ghost undefined: bool) returns (r: LineResult)
    requires Reading(f.data, f.pos, index, rest, undefined) && (f.eof ==> f.pos == |f.data|)
    modifies f
    ensures f.eof ==> f.pos == |f.data|
    ensures r.Entry? ==> rest != [] && r.w == rest[0] && Reading(f.data, f.pos, index + 1, rest[1..], undefined)
    ensures !r.Entry? ==> rest == [] && undefined == r.Undefined?
  {
    RecordsStep(f.data, f.pos, index);
    ghost var next := NextLine(f.data, f.pos);
    r := ReadWord(f, index);
    assert f.pos == next;
  }

  /** Reading on from the offset of any record reproduces the suffix of the full parse, and ends alike. */
  lemma {:induction false} SuffixFromRecord(data: seq<byte>, pos: nat, index: nat, k: nat)
    requires pos <= |data| && k < |Records(data, pos, index)|
    ensures var w := Records(data, pos, index)[k];
            w.indexPos <= |data|
            && Records(data, w.indexPos, w.index) == Records(data, pos, index)[k..]
            && (EndsUndefined(data, w.indexPos) <==> EndsUndefined(data, pos))
    decreases k
  {
    var ws := Records(data, pos, index);
    if k > 0 {
      RecordShape(data, pos, 0, index);
      var rest := Records(data, NextLine(data, pos), index + 1);
      SuffixFromRecord(data, NextLine(data, pos), index + 1, k - 1);
      assert ws[k] == rest[k - 1];
      assert ws[k..] == rest[k - 1..];
    } else {
      assert ws[0..] == ws;
    }
  }

  // ---- the printed form ----

  datatype IndexEntry = IndexEntry(word: seq<byte>, start: u32, size: u32)

  function PrintEntry(e: IndexEntry): seq<byte> {
    e.word + [9] + Base64.Print(e.start) + [9] + Base64.Print(e.size)
  }

  /** No separator in the word. */
  predicate PlainWord(e: IndexEntry) {
    forall i :: 0 <= i < |e.word| ==> e.word[i] != TAB && e.word[i] != NEWLINE && e.word[i] != NUL
  }

  /** Numbers below 2^32-1. */
  predicate ReadableNumbers(e: IndexEntry) {
    e.start != 0xFFFF_FFFF && e.size != 0xFFFF_FFFF
  }

  /** An entry the format can carry anywhere: its line has at most 1022 bytes. */
  predicate ValidEntry(e: IndexEntry) {
    PlainWord(e) && ReadableNumbers(e) && |PrintEntry(e)| <= 1022
  }

  /** An entry the format can carry at the end: the reader sees 1023 bytes of its line, which may lack the digit zero. */
  predicate ValidLast(e: IndexEntry) {
    ReadableNumbers(e) && (|PrintEntry(e)| <= 1023 || (|PrintEntry(e)| == 1024 && e.size == 0))
  }

  function PrintIndex(es: seq<IndexEntry>): (data: seq<byte>)
    ensures es != [] ==> |data| > 0
  {
    if es == [] then [] else PrintEntry(es[0]) + [10] + PrintIndex(es[1..])
  }

  /** The record a printed entry stands for, given the offset of its line. */
  function AsWord(es: seq<IndexEntry>, k: nat): Word
    requires k < |es|
  {
    Word(k, |PrintIndex(es[..k])|, es[k].start, es[k].size, es[k].word)
  }

  lemma DigitsAreNotSeparators(n: nat)
    ensures forall i :: 0 <= i < |Base64.Print(n)| ==>
              var c := Base64.Print(n)[i]; c != TAB && c != NEWLINE && c != NUL
  {
    assert Base64.AllDigits(Base64.Print(n));
  }

  /** A line that holds exactly the printed entry parses back to it. */
  lemma {:induction false} ParsePrintedLine(e: IndexEntry, index: nat, pos: nat)
    requires ValidEntry(e)
    ensures ParseLine(PrintEntry(e), index, pos) == Entry(Word(index, pos, e.start, e.size, e.word))
  {
    var line := PrintEntry(e);
    var a, b := Base64.Print(e.start), Base64.Print(e.size);
    var t0 := |e.word|;
    var t1 := t0 + 1 + |a|;
    DigitsAreNotSeparators(e.start);
    TabAtUnique(line, 0, t0);
    assert forall i :: t0 < i < t1 ==> line[i] == a[i - t0 - 1];
    TabAtUnique(line, t0 + 1, t1);
    assert line[t0 + 1..t1] == a && line[t1 + 1..] == b && line[..t0] == e.word;
    Base64.ParsePrint(e.start);
    Base64.ParsePrint(e.size);
  }

  /** The record read at the start of a printed entry, wherever it lies in the file. */
  lemma {:induction false} ReadPrintedLine(before: seq<byte>, e: IndexEntry, after: seq<byte>, index: nat)
    requires ValidEntry(e)
    ensures var data := before + PrintEntry(e) + [NEWLINE] + after;
            RecordAt(data, |before|, index) == Entry(Word(index, |before|, e.start, e.size, e.word))
            && NextLine(data, |before|) == |before| + |PrintEntry(e)| + 1
  {
    var line := PrintEntry(e);
    var data := before + line + [NEWLINE] + after;
    var p := |before|;
    DigitsAreNotSeparators(e.start);
    DigitsAreNotSeparators(e.size);
    assert forall i :: 0 <= i < |line| ==> line[i] != NEWLINE && line[i] != NUL;
    assert forall i :: p <= i < p + |line| ==> data[i] == line[i - p];
    LineLengthUnique(data, p, LINE_LIMIT, |line|);
    assert Line(data, p) == line;
    ParsePrintedLine(e, index, p);
  }

  /** A NUL byte ends a line as a newline does, and so does the end of the file: then nothing follows. */
  lemma {:induction false} ReadOtherEnds(before: seq<byte>, e: IndexEntry, after: seq<byte>, index: nat)
    requires ValidEntry(e)
    ensures var data := before + PrintEntry(e) + [0] + after;
            RecordAt(data, |before|, index) == Entry(Word(index, |before|, e.start, e.size, e.word))
            && NextLine(data, |before|) == |before| + |PrintEntry(e)| + 1
    ensures var data := before + PrintEntry(e);
            RecordAt(data, |before|, index) == Entry(Word(index, |before|, e.start, e.size, e.word))
            && NextLine(data, |before|) == |data| && RecordAt(data, |data|, index + 1) == NoWord
  {
    hide ParseLine, PrintEntry;
    EndedLine(before, e, [0] + after, index);
    assert before + PrintEntry(e) + ([0] + after) == before + PrintEntry(e) + [0] + after;
    EndedLine(before, e, [], index);
    assert before + PrintEntry(e) + [] == before + PrintEntry(e);
  }

  lemma EndedLine(before: seq<byte>, e: IndexEntry, rest: seq<byte>, index: nat)
    requires ValidEntry(e) && (rest == [] || rest[0] == 0)
    ensures var data := before + PrintEntry(e) + rest;
            RecordAt(data, |before|, index) == Entry(Word(index, |before|, e.start, e.size, e.word))
            && NextLine(data, |before|) == |before| + |PrintEntry(e)| + if rest == [] then 0 else 1
  {
    hide ParseLine;
    var line, p := PrintEntry(e), |before|;
    var data := before + line + rest;
    assert forall i :: p <= i < p + |line| ==> data[i] == line[i - p];
    EntryTabs(e);
    LineLengthUnique(data, p, LINE_LIMIT, |line|);
    assert Line(data, p) == line;
    ParsePrintedLine(e, index, p);
  }

  /** A printed index splits at any entry. */
  lemma {:induction false} PrintIndexSplit(es: seq<IndexEntry>, k: nat)
    requires k <= |es|
    ensures PrintIndex(es) == PrintIndex(es[..k]) + PrintIndex(es[k..])
  {
    if k == 0 {
      assert es[0..] == es;
    } else {
      PrintIndexSplit(es[1..], k - 1);
      assert es[..k][1..] == es[1..][..k - 1] && es[1..][k - 1..] == es[k..];
      SplitShape(PrintEntry(es[0]) + [NEWLINE], PrintIndex(es[1..][..k - 1]), PrintIndex(es[k..]));
    }
  }

  lemma SplitShape(a: seq<byte>, b: seq<byte>, c: seq<byte>)
    ensures a + (b + c) == a + b + c
  {
  }

  /** Entry `k` of a printed index lies between the entries before and after it. */
  lemma PrintIndexAround(es: seq<IndexEntry>, k: nat)
    requires k < |es|
    ensures PrintIndex(es) == PrintIndex(es[..k]) + PrintEntry(es[k]) + [NEWLINE] + PrintIndex(es[k + 1..])
    ensures PrintIndex(es[..k + 1]) == PrintIndex(es[..k]) + PrintEntry(es[k]) + [NEWLINE]
  {
    hide PrintEntry;
    var before, line, after := PrintIndex(es[..k]), PrintEntry(es[k]) + [NEWLINE], PrintIndex(es[k + 1..]);
    PrintIndexSplit(es, k);
    assert es[k..][1..] == es[k + 1..];
    SplitShape(before, line, after);
    PrintIndexSplit(es[..k + 1], k);
    assert es[..k + 1][..k] == es[..k] && es[..k + 1][k..] == [es[k]];
    assert PrintIndex([es[k]]) == line;
    SplitShape(before, PrintEntry(es[k]), [NEWLINE]);
  }

  /** The record read where entry `k` of a printed index starts. */
  lemma ReadPrintedEntry(es: seq<IndexEntry>, k: nat, index: nat)
    requires k < |es| && ValidEntry(es[k])
    ensures var data, pos := PrintIndex(es), |PrintIndex(es[..k])|;
            RecordAt(data, pos, index) == Entry(AsWord(es, k).(index := index))
            && NextLine(data, pos) == |PrintIndex(es[..k + 1])| <= |data|
  {
    PrintIndexAround(es, k);
    ReadPrintedLine(PrintIndex(es[..k]), es[k], PrintIndex(es[k + 1..]), index);
  }

  function AsWords(es: seq<IndexEntry>, from: nat): (ws: seq<Word>)
    requires from <= |es|
    ensures |ws| == |es| - from
    ensures forall i :: 0 <= i < |ws| ==> ws[i] == AsWord(es, from + i)
    decreases |es| - from
  {
    if from == |es| then [] else [AsWord(es, from)] + AsWords(es, from + 1)
  }

  /** Round trip: the records of a printed index are its entries, in order, each with the offset of its line. */
  lemma {:induction false} RecordsOfPrinted(es: seq<IndexEntry>, k: nat)
    requires k <= |es| && forall i :: 0 <= i < |es| ==> ValidEntry(es[i])
    ensures |PrintIndex(es[..k])| <= |PrintIndex(es)|
    ensures var data, pos := PrintIndex(es), |PrintIndex(es[..k])|;
            Records(data, pos, k) == AsWords(es, k) && !EndsUndefined(data, pos)
    decreases |es| - k
  {
    if k == |es| {
      assert es[..k] == es;
    } else {
      ReadPrintedEntry(es, k, k);
      ReadPrintedEntry(es, k, 0);
      RecordsOfPrinted(es, k + 1);
    }
  }

  // ---- lines that are too long ----

  lemma {:induction false} LineEndsBy(data: seq<byte>, pos: nat, size: nat, m: nat)
    requires EndsLine(data, pos + m)
    ensures LineLength(data, pos, size) <= m
    decreases size
  {
    if size > 0 && !EndsLine(data, pos) {
      LineEndsBy(data, pos + 1, size - 1, m - 1);
    }
  }

  /** A line without a tab holds no record. */
  lemma NoTabNoWord(data: seq<byte>, pos: nat, index: nat, m: nat)
    requires pos + m <= |data| && EndsLine(data, pos + m)
    requires forall i :: pos <= i < pos + m ==> data[i] != TAB
    ensures RecordAt(data, pos, index) == NoWord
  {
    LineEndsBy(data, pos, LINE_LIMIT, m);
    var line := Line(data, pos);
    TabAtUnique(line, 0, |line|);
  }

  lemma EntryTabs(e: IndexEntry)
    requires PlainWord(e)
    ensures var line, t0 := PrintEntry(e), |e.word|;
            var t1 := t0 + 1 + |Base64.Print(e.start)|;
            && t1 < |line|
            && forall i :: 0 <= i < |line| ==>
                 line[i] != NEWLINE && line[i] != NUL && (line[i] == TAB <==> i == t0 || i == t1)
  {
    DigitsAreNotSeparators(e.start);
    DigitsAreNotSeparators(e.size);
  }

  /** What the front of a printed line parses to: nothing before the second tab, and the entry exactly when the digits that
      are left of the size read as the size. */
  lemma ParseFrontOfLine(e: IndexEntry, n: nat, index: nat, pos: nat)
    requires PlainWord(e) && n <= |PrintEntry(e)|
    ensures var r, t1 := ParseLine(PrintEntry(e)[..n], index, pos), |e.word| + 1 + |Base64.Print(e.start)|;
            && (n <= t1 || (n == |PrintEntry(e)| && !ReadableNumbers(e)) ==> r == NoWord)
            && (r == Entry(Word(index, pos, e.start, e.size, e.word))
                <==> n > t1 && ReadableNumbers(e) && (n == |PrintEntry(e)| || e.size == 0))
  {
    hide PrintEntry, ParseLine, TabAt, PlainWord;
    var front, t0 := PrintEntry(e)[..n], |e.word|;
    var t1 := t0 + 1 + |Base64.Print(e.start)|;
    EntryTabs(e);
    if n <= t0 {
      TabAtUnique(front, 0, n);
      TooFewTabs(front, index, pos);
    } else if n <= t1 {
      TabAtUnique(front, 0, t0);
      TabAtUnique(front, t0 + 1, n);
      TooFewTabs(front, index, pos);
    } else {
      FrontBeyondTabs(e, n, index, pos);
    }
  }

  lemma FrontBeyondTabs(e: IndexEntry, n: nat, index: nat, pos: nat)
    requires PlainWord(e) && |e.word| + 1 + |Base64.Print(e.start)| < n <= |PrintEntry(e)|
    ensures var r := ParseLine(PrintEntry(e)[..n], index, pos);
            && (n == |PrintEntry(e)| && !ReadableNumbers(e) ==> r == NoWord)
            && (r == Entry(Word(index, pos, e.start, e.size, e.word))
                <==> ReadableNumbers(e) && (n == |PrintEntry(e)| || e.size == 0))
  {
    hide PrintEntry, ParseLine, TabAt, PlainWord;
    var front, t0 := PrintEntry(e)[..n], |e.word|;
    var t1 := t0 + 1 + |Base64.Print(e.start)|;
    EntryTabs(e);
    TabAtUnique(front, 0, t0);
    TabAtUnique(front, t0 + 1, t1);
    FrontFields(e, n);
    Base64.ParsePrint(e.start);
    Base64.ParseFront(e.size, n - t1 - 1);
    SplitAtTabs(front, index, pos, t0, t1);
  }

  lemma TooFewTabs(line: seq<byte>, index: nat, pos: nat)
    requires TabAt(line, 0) == |line| || TabAt(line, TabAt(line, 0) + 1) == |line|
    ensures ParseLine(line, index, pos) == NoWord
  {
  }

  lemma SplitAtTabs(line: seq<byte>, index: nat, pos: nat, t0: nat, t1: nat)
    requires t0 < t1 < |line| && TabAt(line, 0) == t0 && TabAt(line, t0 + 1) == t1
    requires Base64.Parse(line[t0 + 1..t1]).Number? && Base64.Parse(line[t1 + 1..]).Number?
    ensures var start, size := Base64.Parse(line[t0 + 1..t1]).n, Base64.Parse(line[t1 + 1..]).n;
            ParseLine(line, index, pos)
            == if start == Base64.NOT_A_NUMBER || size == Base64.NOT_A_NUMBER then NoWord
               else Entry(Word(index, pos, start, size, line[..t0]))
  {
  }

  /** The fields of a front that reaches beyond the second tab. */
  lemma FrontFields(e: IndexEntry, n: nat)
    requires var t1 := |e.word| + 1 + |Base64.Print(e.start)|; t1 < n <= |PrintEntry(e)|
    ensures var front, t0 := PrintEntry(e)[..n], |e.word|;
            var t1 := t0 + 1 + |Base64.Print(e.start)|;
            && |PrintEntry(e)| == t1 + 1 + |Base64.Print(e.size)|
            && front[..t0] == e.word && front[t0 + 1..t1] == Base64.Print(e.start)
            && front[t1 + 1..] == Base64.Print(e.size)[..n - t1 - 1]
  {
  }

  lemma NoTabLater(e: IndexEntry, n: nat, index: nat, pos: nat)
    requires PlainWord(e) && n <= |PrintEntry(e)| && ParseLine(PrintEntry(e)[..n], index, pos).Entry?
    ensures forall i :: n <= i < |PrintEntry(e)| ==> PrintEntry(e)[i] != TAB
  {
    hide ParseLine, PrintEntry;
    EntryTabs(e);
    ParseFrontOfLine(e, n, index, pos);
  }

  /** How much of a printed line the reader sees. */
  function Seen(e: IndexEntry): (n: nat)
    ensures n <= |PrintEntry(e)|
  {
    if |PrintEntry(e)| < LINE_LIMIT then |PrintEntry(e)| else LINE_LIMIT
  }

  /** The record read where a printed entry starts, valid or not, and what follows it. The newline of a line that fills the
      buffer is not consumed. */
  lemma ReadAnyLine(before: seq<byte>, e: IndexEntry, after: seq<byte>, index: nat)
    requires PlainWord(e)
    ensures var data, p := before + PrintEntry(e) + [NEWLINE] + after, |before|;
            && RecordAt(data, p, index) == ParseLine(PrintEntry(e)[..Seen(e)], index, p)
            && NextLine(data, p) == p + Seen(e) + if |PrintEntry(e)| < LINE_LIMIT then 1 else 0
  {
    hide ParseLine;
    var line, p := PrintEntry(e), |before|;
    var data := before + line + [NEWLINE] + after;
    assert forall i :: p <= i < p + |line| ==> data[i] == line[i - p];
    EntryTabs(e);
    LineLengthUnique(data, p, LINE_LIMIT, Seen(e));
    assert Line(data, p) == line[..Seen(e)];
  }

  /** A line that is too long, or holds a number that is none, is the last one that can give a record. */
  lemma BadLine(before: seq<byte>, e: IndexEntry, after: seq<byte>, index: nat)
    requires PlainWord(e) && !ValidEntry(e)
    ensures |Records(before + PrintEntry(e) + [NEWLINE] + after, |before|, index)| <= 1
  {
    hide Records, EndsUndefined, ParseLine, RecordAt, NextLine;
    var line, p, n := PrintEntry(e), |before|, Seen(e);
    var data := before + line + [NEWLINE] + after;
    ReadAnyLine(before, e, after, index);
    RecordsStep(data, p, index);
    if ParseLine(line[..n], index, p).Entry? {
      if |line| < LINE_LIMIT {
        assert line[..n] == line;
        UnreadableLine(e, index, p);
      } else {
        NoTabLater(e, n, index, p);
        EntryTabs(e);
        assert forall i :: p <= i < p + |line| ==> data[i] == line[i - p];
        NoTabNoWord(data, p + n, index + 1, |line| - n);
        RecordsStep(data, p + n, index + 1);
      }
    }
  }

  lemma UnreadableLine(e: IndexEntry, index: nat, pos: nat)
    requires PlainWord(e) && !ReadableNumbers(e)
    ensures ParseLine(PrintEntry(e), index, pos) == NoWord
  {
    hide PrintEntry, ParseLine, PlainWord, ReadableNumbers;
    var line := PrintEntry(e);
    assert line[..|line|] == line;
    ParseFrontOfLine(e, |line|, index, pos);
  }

  lemma {:induction false} BadLineStops(es: seq<IndexEntry>, j: nat, k: nat)
    requires j <= k < |es| && forall i :: j <= i < k ==> ValidEntry(es[i])
    requires PlainWord(es[k]) && !ValidEntry(es[k])
    ensures |PrintIndex(es[..j])| <= |PrintIndex(es)|
    ensures |Records(PrintIndex(es), |PrintIndex(es[..j])|, j)| <= k - j + 1
    decreases k - j
  {
    hide ValidEntry, PlainWord;
    if j == k {
      PrintIndexAround(es, k);
      BadLine(PrintIndex(es[..k]), es[k], PrintIndex(es[k + 1..]), k);
    } else {
      ReadPrintedEntry(es, j, j);
      BadLineStops(es, j + 1, k);
      RecordsStep(PrintIndex(es), |PrintIndex(es[..j])|, j);
    }
  }

  lemma EmptyIndex(es: seq<IndexEntry>)
    ensures es[..0] == [] && PrintIndex([]) == []
  {
  }

  lemma {:induction false} FirstBad(es: seq<IndexEntry>, n: nat) returns (k: nat)
    requires n < |es| && !ValidEntry(es[n])
    ensures k <= n && !ValidEntry(es[k]) && forall i :: 0 <= i < k ==> ValidEntry(es[i])
  {
    k := n;
    if exists i :: 0 <= i < n && !ValidEntry(es[i]) {
      var i :| 0 <= i < n && !ValidEntry(es[i]);
      k := FirstBad(es, i);
    }
  }

  /** The records from entry `j` of a printed index on are its entries. */
  ghost predicate ReadsBack(es: seq<IndexEntry>, j: nat)
    requires j <= |es|
  {
    |PrintIndex(es[..j])| <= |PrintIndex(es)| && Records(PrintIndex(es), |PrintIndex(es[..j])|, j) == AsWords(es, j)
  }

  /** Valid entries in front do not matter. */
  lemma {:induction false} ReadsBackFrom(es: seq<IndexEntry>, j: nat, k: nat)
    requires j <= k <= |es| && forall i :: j <= i < k ==> ValidEntry(es[i])
    ensures ReadsBack(es, j) <==> ReadsBack(es, k)
    decreases k - j
  {
    if j < k {
      ReadsBackStep(es, j);
      ReadsBackFrom(es, j + 1, k);
    }
  }

  lemma ReadsBackStep(es: seq<IndexEntry>, j: nat)
    requires j < |es| && ValidEntry(es[j])
    ensures ReadsBack(es, j) <==> ReadsBack(es, j + 1)
  {
    hide ValidEntry, PrintIndex, Records, EndsUndefined, RecordAt, NextLine;
    ReadPrintedEntry(es, j, j);
    var data, pos := PrintIndex(es), |PrintIndex(es[..j])|;
    RecordsStep(data, pos, j);
    assert AsWord(es, j).(index := j) == AsWord(es, j);
    var rest, words := Records(data, NextLine(data, pos), j + 1), AsWords(es, j + 1);
    assert Records(data, pos, j) == [AsWord(es, j)] + rest && AsWords(es, j) == [AsWord(es, j)] + words;
    Behead(AsWord(es, j), rest, words);
  }

  lemma Behead(w: Word, a: seq<Word>, b: seq<Word>)
    ensures [w] + a == [w] + b <==> a == b
  {
    if [w] + a == [w] + b {
      assert a == ([w] + a)[1..] && b == ([w] + b)[1..];
    }
  }

  /** The last entry reads back exactly when it is a valid last one. */
  lemma LastReadsBack(es: seq<IndexEntry>)
    requires es != [] && PlainWord(es[|es| - 1])
    ensures ReadsBack(es, |es| - 1) <==> ValidLast(es[|es| - 1])
  {
    hide PrintIndex, Records, EndsUndefined, RecordAt, NextLine, ParseLine, AsWords, PlainWord, ReadableNumbers, PrintEntry;
    var k := |es| - 1;
    var e, before := es[k], PrintIndex(es[..k]);
    var data, p := PrintIndex(es), |before|;
    assert es[k + 1..] == [];
    PrintIndexAround(es, k);
    EmptyIndex(es);
    ReadAnyLine(before, e, PrintIndex([]), k);
    RecordsStep(data, p, k);
    ParseFrontOfLine(e, Seen(e), k, p);
    SeenIsEnough(e);
    OneWord(es, k);
    if RecordAt(data, p, k) == Entry(AsWord(es, k)) {
      var next := NextLine(data, p);
      if |PrintEntry(e)| < LINE_LIMIT {
        RecordsStep(data, next, k + 1);
        NothingAtEnd(data, k + 1);
      } else {
        BadLine(before, e, PrintIndex([]), k);
      }
    }
  }

  lemma OneWord(es: seq<IndexEntry>, k: nat)
    requires k + 1 == |es|
    ensures AsWords(es, k) == [AsWord(es, k)]
  {
    assert AsWords(es, k + 1) == [];
  }

  lemma NothingAtEnd(data: seq<byte>, index: nat)
    ensures RecordAt(data, |data|, index) == NoWord
  {
  }

  /** The reader sees enough of a line exactly when it sees all of it, or all but the digit zero. */
  lemma SeenIsEnough(e: IndexEntry)
    ensures var n, t1 := Seen(e), |e.word| + 1 + |Base64.Print(e.start)|;
            n > t1 && ReadableNumbers(e) && (n == |PrintEntry(e)| || e.size == 0) <==> ValidLast(e)
  {
  }

  /** Exactly which indexes read back as their entries, for words without separators: all lines but the last have at most
      1022 bytes, the last one has 1023, or 1024 if its size is zero, and no number is 2^32-1. Any other line hides all
      entries after it. */
  lemma RoundTripExactly(es: seq<IndexEntry>)
    requires es != [] && forall i :: 0 <= i < |es| ==> PlainWord(es[i])
    ensures Records(PrintIndex(es), 0, 0) == AsWords(es, 0)
            <==> (forall i :: 0 <= i < |es| - 1 ==> ValidEntry(es[i])) && ValidLast(es[|es| - 1])
  {
    hide ValidEntry, ValidLast, PlainWord, Records, PrintIndex, AsWords;
    EmptyIndex(es);
    if forall i :: 0 <= i < |es| - 1 ==> ValidEntry(es[i]) {
      ReadsBackFrom(es, 0, |es| - 1);
      LastReadsBack(es);
    } else {
      var n :| 0 <= n < |es| - 1 && !ValidEntry(es[n]);
      var k := FirstBad(es, n);
      BadLineStops(es, 0, k);
    }
  }
}
