/** Lookup in a text index: binary search over every 16th record, then a scan of the file. */
module IndexSearch {
  import opened Bytes
  import opened IndexRecords

  // ---- what a lookup is meant to return ----

  predicate Matches(w: Word, key: seq<byte>, exact: bool) {
    if exact then w.word == key else key <= w.word
  }

  /** All matching records, in file order. */
  function Filter(ws: seq<Word>, key: seq<byte>, exact: bool): (found: seq<Word>)
    ensures |found| <= |ws|
  {
    if ws == [] then []
    else (if Matches(ws[0], key, exact) then [ws[0]] else []) + Filter(ws[1..], key, exact)
  }

  /** What a filter keeps: the records that match, in their order. */
  lemma {:induction false} FilterKeeps(ws: seq<Word>, key: seq<byte>, exact: bool)
    ensures var found := Filter(ws, key, exact);
            && (forall w :: w in found <==> w in ws && if exact then w.word == key else StartsWith(w.word, key))
            && (InOrder(ws) ==> InOrder(found))
  {
    if ws != [] {
      FilterKeeps(ws[1..], key, exact);
      var found, rest := Filter(ws, key, exact), Filter(ws[1..], key, exact);
      assert forall w :: w in ws <==> w == ws[0] || w in ws[1..];
      assert Matches(ws[0], key, exact) <==> if exact then ws[0].word == key else StartsWith(ws[0].word, key);
      if InOrder(ws) {
        assert forall i :: 0 <= i < |rest| ==> rest[i] in ws[1..];
      }
    }
  }

  /** The word is the key and possibly more. */
  predicate StartsWith(word: seq<byte>, key: seq<byte>) {
    |word| >= |key| && forall i :: 0 <= i < |key| ==> word[i] == key[i]
  }

  /** Records by increasing number. */
  predicate InOrder(ws: seq<Word>) {
    forall i, j :: 0 <= i < j < |ws| ==> ws[i].index < ws[j].index
  }

  /** All matching records of `ws` were found, in order, and nothing else. */
  predicate Complete(found: seq<Word>, ws: seq<Word>, key: seq<byte>, exact: bool) {
    found == Filter(ws, key, exact)
  }

  predicate Below(a: Word, b: Word) { ComesBefore(a.word, b.word) }

  predicate StrictlyIncreasing(ws: seq<Word>) {
    forall i, j :: 0 <= i < j < |ws| ==> Below(ws[i], ws[j])
  }

  predicate NonDecreasing(ws: seq<Word>) {
    forall i, j :: 0 <= i <= j < |ws| ==> Strcmp(ws[i].word, ws[j].word) <= 0
  }

  // ---- the sparse samples: every 16th record, as the index file's `factor` says ----

  /** Every 16th record. */
  function Samples(ws: seq<Word>): (list: seq<Word>)
    ensures |list| == (|ws| + 15) / 16
    ensures forall k :: 0 <= k < |list| ==> 16 * k < |ws| && list[k] == ws[16 * k]
  {
    if ws == [] then []
    else
      var front := Samples(ws[..|ws| - 1]);
      if (|ws| - 1) % 16 == 0 then front + [ws[|ws| - 1]] else front
  }

  lemma SamplesStep(ws: seq<Word>, n: nat)
    requires n < |ws|
    ensures Samples(ws[..n + 1]) == Samples(ws[..n]) + if n % 16 == 0 then [ws[n]] else []
  {
    assert ws[..n + 1][..n] == ws[..n];
  }

  /** What reading on keeps, from record number `n` on. */
  function Kept(rest: seq<Word>, n: nat): seq<Word> {
    if rest == [] then [] else (if n % 16 == 0 then [rest[0]] else []) + Kept(rest[1..], n + 1)
  }

  lemma {:induction false} KeptIsSamples(ws: seq<Word>, n: nat)
    requires n <= |ws|
    ensures Samples(ws[..n]) + Kept(ws[n..], n) == Samples(ws)
    decreases |ws| - n
  {
    hide Samples, Kept;
    if n == |ws| {
      assert ws[..n] == ws && ws[n..] == [];
      NoneKept(n);
    } else {
      var front, tail := Samples(ws[..n]), Kept(ws[n + 1..], n + 1);
      var kept := if n % 16 == 0 then [ws[n]] else [];
      KeptStep(ws, n);
      SamplesStep(ws, n);
      KeptIsSamples(ws, n + 1);
      Associate(front, kept, tail);
    }
  }

  lemma NoneKept(n: nat)
    ensures Kept([], n) == []
  {
  }

  lemma KeptStep(ws: seq<Word>, n: nat)
    requires n < |ws|
    ensures Kept(ws[n..], n) == (if n % 16 == 0 then [ws[n]] else []) + Kept(ws[n + 1..], n + 1)
  {
    assert ws[n..][1..] == ws[n + 1..];
  }

  lemma AllKept(ws: seq<Word>)
    ensures Kept(ws, 0) == Samples(ws)
  {
    KeptIsSamples(ws, 0);
    assert ws[..0] == [] && ws[0..] == ws;
  }

  /** Where the search of the samples ends. `PastEnd` stands for comparing the unset slot after the last one. */
  datatype Position = Empty | At(n: nat) | PastEnd

  /** How each record compares with the key: -1 below it, 0 equal, 1 above it. */
  function Signs(ws: seq<Word>, key: seq<byte>): (signs: seq<int>)
    ensures |signs| == |ws| && forall i :: 0 <= i < |ws| ==> signs[i] == Strcmp(ws[i].word, key)
  {
    seq(|ws|, i requires 0 <= i < |ws| => Strcmp(ws[i].word, key))
  }

  predicate Rising(signs: seq<int>) {
    forall i, j :: 0 <= i <= j < |signs| ==> signs[i] <= signs[j]
  }

  /** The binary search between `a` and `b`, and the choice after it. */
  function Probe(signs: seq<int>, a: nat, b: nat): (r: Position)
    requires a <= b <= |signs| && signs != []
    ensures !r.Empty? && (r.At? ==> r.n < |signs|)
    decreases b - a
  {
    if b - a >= 2 then
      var c := (a + b) / 2;
      if signs[c] == 0 then At(c) else if signs[c] < 0 then Probe(signs, c + 1, b) else Probe(signs, a, c)
    else if a == 0 then At(0)
    else if a == |signs| then PastEnd
    else if signs[a] < 0 then At(a)
    else At(a - 1)
  }

  function FindSample(list: seq<Word>, key: seq<byte>): (r: Position)
    ensures r.Empty? <==> list == []
    ensures r.At? ==> r.n < |list|
  {
    if list == [] then Empty else Probe(Signs(list, key), 0, |list|)
  }

  /** Scanning from sample `n` cannot miss a record above the key, and skips at most one block below it. */
  predicate GoodStart(signs: seq<int>, n: nat) {
    n < |signs| && (n > 0 ==> signs[n] <= 0) && (forall k :: n < k < |signs| ==> signs[k] >= 0)
  }

  /** Whether a key above all of `s` samples drives the search past the last one. */
  predicate Overruns(s: nat) {
    if s <= 1 then s == 0 else Overruns(s - s / 2 - 1)
  }

  function Pow2(k: nat): (p: nat)
    ensures p > 0
  {
    if k == 0 then 1 else 2 * Pow2(k - 1)
  }

  /** The binary form of `x` starts with two ones. */
  predicate StartsWithTwoOnes(x: nat) {
    exists k: nat :: k <= x && 3 * Pow2(k) <= x < 4 * Pow2(k)
  }

  lemma {:induction false} Pow2Bound(k: nat)
    ensures k < Pow2(k)
  {
    if k > 0 {
      Pow2Bound(k - 1);
    }
  }

  lemma {:induction false} TwoOnesHalve(x: nat)
    requires x >= 4
    ensures StartsWithTwoOnes(x) <==> StartsWithTwoOnes(x / 2)
  {
    if StartsWithTwoOnes(x) {
      var k: nat :| k <= x && 3 * Pow2(k) <= x < 4 * Pow2(k);
      assert k > 0;
      Pow2Bound(k - 1);
      assert 3 * Pow2(k - 1) <= x / 2 < 4 * Pow2(k - 1);
    }
    if StartsWithTwoOnes(x / 2) {
      var k: nat :| k <= x / 2 && 3 * Pow2(k) <= x / 2 < 4 * Pow2(k);
      assert 3 * Pow2(k + 1) <= x < 4 * Pow2(k + 1);
    }
  }

  /** Exactly the sample counts 2, 5-6, 11-14, 23-30, ...: those whose successor starts with two ones. */
  lemma {:induction false} OverrunCounts(s: nat)
    requires s > 0
    ensures Overruns(s) <==> StartsWithTwoOnes(s + 1)
  {
    if s == 1 {
    } else if s == 2 {
      assert 3 * Pow2(0) <= 3 < 4 * Pow2(0);
    } else {
      OverrunCounts(s - s / 2 - 1);
      TwoOnesHalve(s + 1);
      assert (s + 1) / 2 == s - s / 2 - 1 + 1;
    }
  }

  /** On a sorted list the search ends at a good start, or past the end in exactly one case. */
  lemma {:induction false} ProbeSound(signs: seq<int>, a: nat, b: nat)
    requires a <= b <= |signs| && 0 < b && Rising(signs)
    requires a > 0 ==> signs[a - 1] < 0
    requires b < |signs| ==> signs[b] > 0
    ensures var r := Probe(signs, a, b);
            && (r.At? ==> GoodStart(signs, r.n))
            && (r.PastEnd? <==> b == |signs| && signs[|signs| - 1] < 0 && Overruns(b - a))
    decreases b - a
  {
    hide Rising, GoodStart, Probe, Overruns;
    if b - a < 2 {
      ProbeEnds(signs, a, b);
    } else {
      var c := (a + b) / 2;
      ProbeStep(signs, a, b);
      if signs[c] == 0 {
        ProbeHit(signs, c);
      } else if signs[c] < 0 {
        ProbeSound(signs, c + 1, b);
      } else {
        ProbeInside(signs, c, b);
        ProbeSound(signs, a, c);
      }
    }
  }

  lemma ProbeStep(signs: seq<int>, a: nat, b: nat)
    requires a + 2 <= b <= |signs|
    ensures var c := (a + b) / 2;
            && Probe(signs, a, b)
               == (if signs[c] == 0 then At(c) else if signs[c] < 0 then Probe(signs, c + 1, b) else Probe(signs, a, c))
            && Overruns(b - a) == Overruns(b - (c + 1))
  {
    assert (b - a) - (b - a) / 2 - 1 == b - ((a + b) / 2 + 1);
  }

  lemma ProbeHit(signs: seq<int>, c: nat)
    requires Rising(signs) && c < |signs| && signs[c] == 0
    ensures GoodStart(signs, c) && signs[|signs| - 1] >= 0
  {
  }

  lemma ProbeInside(signs: seq<int>, c: nat, b: nat)
    requires Rising(signs) && c < b <= |signs| && signs[c] >= 0
    ensures b == |signs| ==> signs[b - 1] >= 0
  {
  }

  lemma ProbeEnds(signs: seq<int>, a: nat, b: nat)
    requires a <= b <= |signs| && 0 < b && Rising(signs) && b - a < 2
    requires a > 0 ==> signs[a - 1] < 0
    requires b < |signs| ==> signs[b] > 0
    ensures var r := Probe(signs, a, b);
            && (r.At? ==> GoodStart(signs, r.n))
            && (r.PastEnd? <==> b == |signs| && signs[|signs| - 1] < 0 && Overruns(b - a))
  {
  }

  /** Comparing a sorted list with any key gives a rising row of signs. */
  lemma SortedSigns(ws: seq<Word>, key: seq<byte>)
    requires NonDecreasing(ws)
    ensures Rising(Signs(ws, key))
  {
    forall i, j | 0 <= i <= j < |ws| ensures Strcmp(ws[i].word, key) <= Strcmp(ws[j].word, key) {
      CompareMonotone(ws[i].word, ws[j].word, key);
    }
  }

  lemma CompareMonotone(a: seq<byte>, b: seq<byte>, key: seq<byte>)
    requires Strcmp(a, b) <= 0
    ensures Strcmp(a, key) <= Strcmp(b, key)
  {
    StrcmpAntisymmetric(a, key);
    StrcmpAntisymmetric(b, key);
    if Strcmp(a, key) >= 0 {
      StrcmpTransitive(key, a, b);
    }
  }

  // ---- the scan ----

  /** The records the scan collects from `ws` before it stops. */
  function Scan(ws: seq<Word>, key: seq<byte>, exact: bool): seq<Word> {
    if ws == [] then []
    else if Matches(ws[0], key, exact) then [ws[0]] + Scan(ws[1..], key, exact)
    else if Strcmp(ws[0].word, key) > 0 then []
    else Scan(ws[1..], key, exact)
  }

  /** How many times the scan calls the record reader; the last call may find no record. */
  function Reads(ws: seq<Word>, key: seq<byte>, exact: bool): nat {
    if ws == [] then 1
    else if !Matches(ws[0], key, exact) && Strcmp(ws[0].word, key) > 0 then 1
    else 1 + Reads(ws[1..], key, exact)
  }

  /** Whether the scan reads beyond the last record. */
  predicate RunsOff(ws: seq<Word>, key: seq<byte>, exact: bool) {
    ws == []
    || ((Matches(ws[0], key, exact) || Strcmp(ws[0].word, key) <= 0) && RunsOff(ws[1..], key, exact))
  }

  /** `Failed` is the lookup's `false`. `OutOfArray` is a read of the unset slot after the last sample, or outside the table
      of base-64 digits. */
  datatype Lookup = Failed | OutOfArray | Found(words: seq<Word>)

  function LookupFrom(data: seq<byte>, w: Word, key: seq<byte>, exact: bool): Lookup
    requires w.indexPos <= |data|
  {
    var ws := Records(data, w.indexPos, w.index);
    if RunsOff(ws, key, exact) && EndsUndefined(data, w.indexPos) then OutOfArray else Found(Scan(ws, key, exact))
  }

  predicate InFile(data: seq<byte>, list: seq<Word>) {
    forall k :: 0 <= k < |list| ==> list[k].indexPos <= |data|
  }

  /** What `TinyDictIndexFile::find` does on any sample list. */
  function LookupIn(data: seq<byte>, list: seq<Word>, key: seq<byte>, exact: bool): Lookup
    requires InFile(data, list)
  {
    match FindSample(list, key)
    case Empty => Failed
    case PastEnd => OutOfArray
    case At(n) => LookupFrom(data, list[n], key, exact)
  }

  lemma {:induction false} ScanIsFilter(ws: seq<Word>, key: seq<byte>, exact: bool)
    requires NonDecreasing(ws)
    ensures Scan(ws, key, exact) == Filter(ws, key, exact)
  {
    if ws != [] {
      if !Matches(ws[0], key, exact) && Strcmp(ws[0].word, key) > 0 {
        NoneMatches(ws, key, exact);
      } else {
        ScanIsFilter(ws[1..], key, exact);
      }
    }
  }

  lemma NoneMatches(ws: seq<Word>, key: seq<byte>, exact: bool)
    requires NonDecreasing(ws) && ws != [] && !Matches(ws[0], key, exact) && Strcmp(ws[0].word, key) > 0
    ensures Filter(ws, key, exact) == []
  {
    forall j | 0 <= j < |ws| ensures !Matches(ws[j], key, exact) {
      assert Strcmp(ws[0].word, ws[j].word) <= 0;
      if exact {
        StrcmpZero(ws[j].word, key);
        CompareMonotone(ws[0].word, ws[j].word, key);
      } else {
        PrefixContiguous(key, ws[0].word, ws[j].word);
      }
    }
    FilterNone(ws, key, exact);
  }

  lemma {:induction false} FilterNone(ws: seq<Word>, key: seq<byte>, exact: bool)
    requires forall j :: 0 <= j < |ws| ==> !Matches(ws[j], key, exact)
    ensures Filter(ws, key, exact) == []
  {
    if ws != [] {
      FilterNone(ws[1..], key, exact);
    }
  }

  lemma {:induction false} FilterSplit(ws: seq<Word>, n: nat, key: seq<byte>, exact: bool)
    requires n <= |ws|
    ensures Filter(ws, key, exact) == Filter(ws[..n], key, exact) + Filter(ws[n..], key, exact)
  {
    hide Matches, Filter;
    if n == 0 {
      EmptyFilter(key, exact);
      assert ws[0..] == ws && ws[..0] == [];
    } else {
      FilterSplit(ws[1..], n - 1, key, exact);
      assert ws[..n][1..] == ws[1..][..n - 1] && ws[1..][n - 1..] == ws[n..];
      FilterStep(ws, key, exact);
      FilterStep(ws[..n], key, exact);
      var head := if Matches(ws[0], key, exact) then [ws[0]] else [];
      Associate(head, Filter(ws[1..][..n - 1], key, exact), Filter(ws[n..], key, exact));
    }
  }

  lemma EmptyFilter(key: seq<byte>, exact: bool)
    ensures Filter([], key, exact) == []
  {
  }

  lemma FilterStep(ws: seq<Word>, key: seq<byte>, exact: bool)
    requires ws != []
    ensures Filter(ws, key, exact) == (if Matches(ws[0], key, exact) then [ws[0]] else []) + Filter(ws[1..], key, exact)
  {
  }

  lemma Associate(a: seq<Word>, b: seq<Word>, c: seq<Word>)
    ensures a + (b + c) == (a + b) + c
  {
  }

  /** A record is found only if it is at least the key. */
  lemma MatchNotBelow(w: Word, key: seq<byte>, exact: bool)
    requires Matches(w, key, exact)
    ensures Strcmp(w.word, key) >= 0
  {
    StrcmpZero(w.word, key);
    if !exact {
      PrefixNotBelow(key, w.word);
    }
  }

  /** Of the records up to one that is not above the key, only copies of the key can match. */
  lemma OnlyCopiesMatch(ws: seq<Word>, m: nat, key: seq<byte>, exact: bool)
    requires NonDecreasing(ws) && 0 < m <= |ws| && Strcmp(ws[m - 1].word, key) <= 0
    ensures Filter(ws[..m], key, exact) == [] <==> ws[m - 1].word != key
  {
    StrcmpZero(ws[m - 1].word, key);
    if ws[m - 1].word == key {
      FilterSplit(ws[..m], m - 1, key, exact);
      assert ws[..m][m - 1..] == [ws[m - 1]];
      assert Matches(ws[m - 1], key, exact);
      assert Filter([ws[m - 1]], key, exact) == [ws[m - 1]];
    } else {
      forall j | 0 <= j < m ensures !Matches(ws[..m][j], key, exact) {
        CompareMonotone(ws[j].word, ws[m - 1].word, key);
        if Matches(ws[j], key, exact) {
          MatchNotBelow(ws[j], key, exact);
        }
      }
      FilterNone(ws[..m], key, exact);
    }
  }

  /** Starting at record `m` loses exactly the matching records before it. */
  lemma ScanFrom(ws: seq<Word>, m: nat, key: seq<byte>, exact: bool)
    requires NonDecreasing(ws) && m < |ws| && (m > 0 ==> Strcmp(ws[m].word, key) <= 0)
    ensures Complete(Scan(ws[m..], key, exact), ws, key, exact) <==> m == 0 || ws[m - 1].word != key
  {
    ScanIsFilter(ws[m..], key, exact);
    FilterSplit(ws, m, key, exact);
    var lost := Filter(ws[..m], key, exact);
    assert Filter(ws, key, exact) == Filter(ws[m..], key, exact) <==> |lost| == 0;
    if m > 0 {
      CompareMonotone(ws[m - 1].word, ws[m].word, key);
      OnlyCopiesMatch(ws, m, key, exact);
    }
  }

  /** A copy of the key stands right before the chosen sample. */
  predicate CopyBefore(ws: seq<Word>, p: Position, key: seq<byte>) {
    p.At? && 0 < 16 * p.n <= |ws| && ws[16 * p.n - 1].word == key
  }

  lemma ScanFromSample(ws: seq<Word>, n: nat, key: seq<byte>, exact: bool)
    requires NonDecreasing(ws) && GoodStart(Signs(Samples(ws), key), n)
    ensures Complete(Scan(ws[16 * n..], key, exact), ws, key, exact) <==> !CopyBefore(ws, At(n), key)
  {
    assert Signs(Samples(ws), key)[n] == Strcmp(ws[16 * n].word, key);
    ScanFrom(ws, 16 * n, key, exact);
  }

  lemma SamplesSorted(ws: seq<Word>)
    requires NonDecreasing(ws)
    ensures NonDecreasing(Samples(ws))
  {
    var list := Samples(ws);
    forall i, j | 0 <= i <= j < |list| ensures Strcmp(list[i].word, list[j].word) <= 0 {
      assert list[i] == ws[16 * i] && list[j] == ws[16 * j];
    }
  }

  /** Whether this key drives the search of these samples past the last one. */
  predicate KeyOverruns(list: seq<Word>, key: seq<byte>) {
    list != [] && StartsWithTwoOnes(|list| + 1) && Strcmp(list[|list| - 1].word, key) < 0
  }

  /** The search of the samples of a sorted index. */
  lemma SearchSamples(ws: seq<Word>, key: seq<byte>)
    requires NonDecreasing(ws) && ws != []
    ensures var p := FindSample(Samples(ws), key);
            && (p.PastEnd? <==> KeyOverruns(Samples(ws), key))
            && (p.At? ==> GoodStart(Signs(Samples(ws), key), p.n))
  {
    hide Samples, Probe, GoodStart, Overruns, StartsWithTwoOnes, Rising, NonDecreasing;
    var list := Samples(ws);
    SamplesSorted(ws);
    SortedSigns(list, key);
    ProbeSound(Signs(list, key), 0, |list|);
    OverrunCounts(|list|);
  }

  /** The lookup, on the records alone. */
  function SparseLookup(ws: seq<Word>, key: seq<byte>, exact: bool): Lookup {
    match FindSample(Samples(ws), key)
    case Empty => Failed
    case PastEnd => OutOfArray
    case At(n) => Found(Scan(ws[16 * n..], key, exact))
  }

  lemma SamplesInFile(data: seq<byte>)
    ensures InFile(data, Samples(Records(data, 0, 0)))
  {
    var list := Samples(Records(data, 0, 0));
    forall k | 0 <= k < |list| ensures list[k].indexPos <= |data| {
      RecordPlaces(data, 0, 0, 16 * k);
    }
  }

  /** Looking up in the file, through its own samples, is the lookup on its records. */
  lemma LookupOnRecords(data: seq<byte>, key: seq<byte>, exact: bool)
    requires !EndsUndefined(data, 0)
    ensures InFile(data, Samples(Records(data, 0, 0)))
    ensures LookupIn(data, Samples(Records(data, 0, 0)), key, exact) == SparseLookup(Records(data, 0, 0), key, exact)
  {
    var list := Samples(Records(data, 0, 0));
    SamplesInFile(data);
    var p := FindSample(list, key);
    if p.At? {
      SuffixFromRecord(data, 0, 0, 16 * p.n);
    }
  }

  /** Lookup in a sorted index, duplicates allowed. It leaves the sample array for exactly the keys above the
      last sample when the number of samples, plus one, starts with two binary ones; otherwise it returns every
      match exactly when no copy of the key stands right before the chosen sample. */
  lemma LookupSorted(ws: seq<Word>, key: seq<byte>, exact: bool)
    requires NonDecreasing(ws)
    ensures var r := SparseLookup(ws, key, exact);
            && (r.Failed? <==> ws == [])
            && (r.OutOfArray? <==> KeyOverruns(Samples(ws), key))
            && (r.Found? ==> (Complete(r.words, ws, key, exact) <==> !CopyBefore(ws, FindSample(Samples(ws), key), key)))
  {
    if ws != [] {
      SearchSamples(ws, key);
      var p := FindSample(Samples(ws), key);
      if p.At? {
        ScanFromSample(ws, p.n, key, exact);
      }
    }
  }

  /** The same for an index file. */
  lemma LookupSortedFile(data: seq<byte>, key: seq<byte>, exact: bool)
    requires NonDecreasing(Records(data, 0, 0)) && !EndsUndefined(data, 0)
    ensures InFile(data, Samples(Records(data, 0, 0)))
    ensures var ws := Records(data, 0, 0);
            var r := LookupIn(data, Samples(ws), key, exact);
            && (r.Failed? <==> ws == [])
            && (r.OutOfArray? <==> KeyOverruns(Samples(ws), key))
            && (r.Found? ==> (Complete(r.words, ws, key, exact) <==> !CopyBefore(ws, FindSample(Samples(ws), key), key)))
  {
    hide Records, LookupIn, SparseLookup, NonDecreasing, EndsUndefined, KeyOverruns, Complete, CopyBefore;
    LookupOnRecords(data, key, exact);
    LookupSorted(Records(data, 0, 0), key, exact);
  }

  lemma StrictIsSorted(ws: seq<Word>)
    requires StrictlyIncreasing(ws)
    ensures NonDecreasing(ws)
  {
    forall i, j | 0 <= i <= j < |ws| ensures Strcmp(ws[i].word, ws[j].word) <= 0 {
      if i == j {
        StrcmpZero(ws[i].word, ws[j].word);
      } else {
        assert Below(ws[i], ws[j]);
        StrcmpIsOrder(ws[i].word, ws[j].word);
      }
    }
  }

  lemma StrictLookup(ws: seq<Word>, key: seq<byte>, exact: bool)
    requires StrictlyIncreasing(ws)
    ensures SparseLookup(ws, key, exact)
            == if ws == [] then Failed
               else if KeyOverruns(Samples(ws), key) then OutOfArray
               else Found(Filter(ws, key, exact))
  {
    hide StrictlyIncreasing, NonDecreasing, Filter, Scan, KeyOverruns;
    StrictIsSorted(ws);
    LookupSorted(ws, key, exact);
    if ws != [] {
      SearchSamples(ws, key);
      var p := FindSample(Samples(ws), key);
      if p.At? && p.n > 0 {
        assert Samples(ws)[p.n] == ws[16 * p.n];
        NoCopyBefore(ws, 16 * p.n, key);
      }
    }
  }

  /** Main result: on a strictly increasing index, sparse search plus scan is a plain filter of the whole file,
      for every key and both match modes, except where the search leaves the sample array. */
  lemma LookupIsFilter(data: seq<byte>, key: seq<byte>, exact: bool)
    requires StrictlyIncreasing(Records(data, 0, 0)) && !EndsUndefined(data, 0)
    ensures InFile(data, Samples(Records(data, 0, 0)))
    ensures var ws := Records(data, 0, 0);
            LookupIn(data, Samples(ws), key, exact)
            == if ws == [] then Failed
               else if KeyOverruns(Samples(ws), key) then OutOfArray
               else Found(Filter(ws, key, exact))
  {
    LookupOnRecords(data, key, exact);
    StrictLookup(Records(data, 0, 0), key, exact);
  }

  /** Index round trip: sample `k` of the printed form of any list of valid entries is entry 16`k`, with the offset of its
      line, and reading on from that offset gives the entries from there on. */
  lemma SamplesOfPrinted(es: seq<IndexEntry>, k: nat)
    requires 16 * k < |es| && forall i :: 0 <= i < |es| ==> ValidEntry(es[i])
    ensures var data, list := PrintIndex(es), Samples(Records(PrintIndex(es), 0, 0));
            && |Records(data, 0, 0)| == |es| && |list| == (|es| + 15) / 16
            && list[k] == AsWord(es, 16 * k)
            && list[k].indexPos <= |data| && Records(data, list[k].indexPos, list[k].index) == AsWords(es, 16 * k)
  {
    hide PrintIndex, ValidEntry, Records, Samples, EndsUndefined;
    RecordsOfPrinted(es, 0);
    RecordsOfPrinted(es, 16 * k);
    EmptyIndex(es);
  }

  /** Words of a list of entries, strictly increasing by unsigned bytes. */
  predicate IncreasingEntries(es: seq<IndexEntry>) {
    forall i, j :: 0 <= i < j < |es| ==> ComesBefore(es[i].word, es[j].word)
  }

  /** The scan of a sorted index runs off its end exactly when the last record is not above the key, or matches. */
  lemma {:induction false} RunsOffExactly(ws: seq<Word>, key: seq<byte>, exact: bool)
    requires NonDecreasing(ws) && ws != []
    ensures var last := ws[|ws| - 1];
            RunsOff(ws, key, exact) <==> Strcmp(last.word, key) <= 0 || Matches(last, key, exact)
  {
    if |ws| > 1 {
      RunsOffExactly(ws[1..], key, exact);
      if !Matches(ws[0], key, exact) && Strcmp(ws[0].word, key) > 0 {
        StopsBefore(ws, key, exact);
      }
    }
  }

  lemma StopsBefore(ws: seq<Word>, key: seq<byte>, exact: bool)
    requires NonDecreasing(ws) && ws != [] && !Matches(ws[0], key, exact) && Strcmp(ws[0].word, key) > 0
    ensures var last := ws[|ws| - 1];
            Strcmp(last.word, key) > 0 && !Matches(last, key, exact)
  {
    var last := ws[|ws| - 1];
    CompareMonotone(ws[0].word, last.word, key);
    StrcmpZero(last.word, key);
    if !exact {
      PrefixContiguous(key, ws[0].word, last.word);
    }
  }

  /** In a file whose records end in a number outside the table, a lookup is undefined exactly when the search leaves the
      samples or the scan does not stop before. */
  lemma LookupUndefined(data: seq<byte>, key: seq<byte>, exact: bool)
    requires NonDecreasing(Records(data, 0, 0)) && Records(data, 0, 0) != [] && EndsUndefined(data, 0)
    ensures InFile(data, Samples(Records(data, 0, 0)))
    ensures var ws := Records(data, 0, 0);
            LookupIn(data, Samples(ws), key, exact) == OutOfArray
            <==> KeyOverruns(Samples(ws), key)
                 || Strcmp(ws[|ws| - 1].word, key) <= 0 || Matches(ws[|ws| - 1], key, exact)
  {
    hide Records, EndsUndefined, Samples, NonDecreasing, KeyOverruns, Matches, RunsOff, GoodStart;
    var ws := Records(data, 0, 0);
    SamplesInFile(data);
    SearchSamples(ws, key);
    var p := FindSample(Samples(ws), key);
    if p.At? {
      SuffixFromRecord(data, 0, 0, 16 * p.n);
      SuffixSorted(ws, 16 * p.n);
      RunsOffExactly(ws[16 * p.n..], key, exact);
    }
  }

  lemma SuffixSorted(ws: seq<Word>, n: nat)
    requires NonDecreasing(ws) && n <= |ws|
    ensures NonDecreasing(ws[n..])
  {
  }

  /** The same for the printed form of any strictly increasing list of valid entries. */
  lemma LookupPrinted(es: seq<IndexEntry>, key: seq<byte>, exact: bool)
    requires (forall i :: 0 <= i < |es| ==> ValidEntry(es[i])) && IncreasingEntries(es)
    ensures var data, ws := PrintIndex(es), AsWords(es, 0);
            && Records(data, 0, 0) == ws && !EndsUndefined(data, 0) && InFile(data, Samples(ws))
            && LookupIn(data, Samples(ws), key, exact)
               == if ws == [] then Failed
                  else if KeyOverruns(Samples(ws), key) then OutOfArray
                  else Found(Filter(ws, key, exact))
  {
    hide LookupIn, KeyOverruns, Filter, Samples, PrintIndex, ValidEntry, EndsUndefined;
    RecordsOfPrinted(es, 0);
    assert es[..0] == [] && PrintIndex([]) == [] by { EmptyIndex(es); }
    IncreasingWords(es);
    LookupIsFilter(PrintIndex(es), key, exact);
  }

  /** For instance, the printed form of 17 to 32 entries has two samples: every key above the second one, that is above
      entry 16, drives the search past it, although smaller keys are found. */
  lemma OverrunOfPrinted(es: seq<IndexEntry>, key: seq<byte>, exact: bool)
    requires (forall i :: 0 <= i < |es| ==> ValidEntry(es[i])) && IncreasingEntries(es)
    requires 17 <= |es| <= 32 && Strcmp(es[16].word, key) < 0
    ensures var data := PrintIndex(es);
            && InFile(data, Samples(Records(data, 0, 0)))
            && LookupIn(data, Samples(Records(data, 0, 0)), key, exact) == OutOfArray
  {
    hide LookupIn, PrintIndex, ValidEntry, Records, EndsUndefined, Filter;
    LookupPrinted(es, key, exact);
    TwoSamplesOverrun(AsWords(es, 0), key);
  }

  lemma TwoSamplesOverrun(ws: seq<Word>, key: seq<byte>)
    requires 17 <= |ws| <= 32 && Strcmp(ws[16].word, key) < 0
    ensures KeyOverruns(Samples(ws), key)
  {
    assert 3 * Pow2(0) <= 3 < 4 * Pow2(0);
    assert |Samples(ws)| == 2 && Samples(ws)[1] == ws[16 * 1];
  }

  lemma IncreasingWords(es: seq<IndexEntry>)
    requires IncreasingEntries(es)
    ensures StrictlyIncreasing(AsWords(es, 0))
  {
    var ws := AsWords(es, 0);
    forall i, j | 0 <= i < j < |ws| ensures Below(ws[i], ws[j]) {
      assert ws[i] == AsWord(es, 0 + i) && ws[j] == AsWord(es, 0 + j);
    }
  }

  lemma NoCopyBefore(ws: seq<Word>, m: nat, key: seq<byte>)
    requires StrictlyIncreasing(ws) && 0 < m < |ws| && Strcmp(ws[m].word, key) <= 0
    ensures ws[m - 1].word != key
  {
    assert Below(ws[m - 1], ws[m]);
    StrcmpIsOrder(ws[m - 1].word, ws[m].word);
    StrcmpTransitive(ws[m - 1].word, ws[m].word, key);
    StrcmpZero(ws[m - 1].word, key);
  }

  /** With duplicates the result can be incomplete: in an index of 17 to 32 records whose second sample and
      the record before it both hold the key, the lookup misses the earlier copy, in both modes. */
  lemma DuplicateMissed(ws: seq<Word>, key: seq<byte>, exact: bool)
    requires NonDecreasing(ws) && 17 <= |ws| <= 32
    requires ws[15].word == key == ws[16].word
    ensures var r := SparseLookup(ws, key, exact);
            r.Found? && !Complete(r.words, ws, key, exact)
  {
    var signs := Signs(Samples(ws), key);
    LookupSorted(ws, key, exact);
    assert |signs| == 2 && Samples(ws)[1] == ws[16];
    StrcmpZero(ws[16].word, key);
    assert Probe(signs, 0, 2) == At(1);
  }

  /** Words of a list of entries in order, copies allowed. */
  predicate OrderedEntries(es: seq<IndexEntry>) {
    forall i, j :: 0 <= i <= j < |es| ==> Strcmp(es[i].word, es[j].word) <= 0
  }

  /** For instance, in the printed form of 17 to 32 entries with the key at entries 15 and 16. */
  lemma DuplicateOfPrinted(es: seq<IndexEntry>, key: seq<byte>, exact: bool)
    requires (forall i :: 0 <= i < |es| ==> ValidEntry(es[i])) && OrderedEntries(es)
    requires 17 <= |es| <= 32 && es[15].word == key == es[16].word
    ensures var data, ws := PrintIndex(es), AsWords(es, 0);
            && Records(data, 0, 0) == ws && InFile(data, Samples(ws))
            && var r := LookupIn(data, Samples(ws), key, exact);
               r.Found? && !Complete(r.words, ws, key, exact)
  {
    hide LookupIn, SparseLookup, Samples, PrintIndex, ValidEntry, Records, EndsUndefined, Complete;
    RecordsOfPrinted(es, 0);
    EmptyIndex(es);
    OrderedWords(es);
    LookupOnRecords(PrintIndex(es), key, exact);
    DuplicateMissed(AsWords(es, 0), key, exact);
  }

  lemma OrderedWords(es: seq<IndexEntry>)
    requires OrderedEntries(es)
    ensures NonDecreasing(AsWords(es, 0))
  {
    var ws := AsWords(es, 0);
    forall i, j | 0 <= i <= j < |ws| ensures Strcmp(ws[i].word, ws[j].word) <= 0 {
      assert ws[i] == AsWord(es, 0 + i) && ws[j] == AsWord(es, 0 + j);
    }
  }

  // ---- the cost of a lookup ----

  /** The scan of a sorted index reads the records below the key, then the matches, then exactly once more. */
  lemma {:induction false} ReadsExactly(ws: seq<Word>, small: nat, key: seq<byte>, exact: bool)
    requires NonDecreasing(ws) && small <= |ws|
    requires forall j :: 0 <= j < small ==> Strcmp(ws[j].word, key) < 0
    requires forall j :: small <= j < |ws| ==> Strcmp(ws[j].word, key) >= 0
    ensures Reads(ws, key, exact) == small + |Filter(ws, key, exact)| + 1
  {
    if ws != [] {
      StrcmpZero(ws[0].word, key);
      if small > 0 {
        ReadsExactly(ws[1..], small - 1, key, exact);
        if Matches(ws[0], key, exact) {
          MatchNotBelow(ws[0], key, exact);
        }
      } else if Matches(ws[0], key, exact) {
        ReadsExactly(ws[1..], 0, key, exact);
      } else {
        assert ws[0].word != key;
        NoneMatches(ws, key, exact);
      }
    }
  }

  /** The scan reads no more than the records below the key, the matches, and one record. */
  lemma {:induction false} ReadsBound(ws: seq<Word>, small: nat, key: seq<byte>, exact: bool)
    requires NonDecreasing(ws) && small <= |ws|
    requires forall j :: small <= j < |ws| ==> Strcmp(ws[j].word, key) >= 0
    ensures Reads(ws, key, exact) <= small + |Filter(ws, key, exact)| + 1
  {
    if ws != [] && (Matches(ws[0], key, exact) || Strcmp(ws[0].word, key) <= 0) {
      if small > 0 {
        ReadsBound(ws[1..], small - 1, key, exact);
      } else {
        StrcmpZero(ws[0].word, key);
        if !exact && ws[0].word == key {
          assert key <= ws[0].word;
        }
        assert Matches(ws[0], key, exact);
        ReadsBound(ws[1..], 0, key, exact);
      }
    }
  }

  /** The cost bound: at most one block of 16 smaller words, the matches, and one record more. */
  lemma ScanCost(ws: seq<Word>, key: seq<byte>, exact: bool)
    requires StrictlyIncreasing(ws)
    ensures var p := FindSample(Samples(ws), key);
            p.At? ==> Reads(ws[16 * p.n..], key, exact) <= 16 + |Filter(ws, key, exact)| + 1
  {
    var p := FindSample(Samples(ws), key);
    if p.At? {
      StrictIsSorted(ws);
      SearchSamples(ws, key);
      ScanFromSampleCost(ws, p.n, key, exact);
      StrictLookup(ws, key, exact);
      ScanIsFilter(ws[16 * p.n..], key, exact);
    }
  }

  lemma ScanFromSampleCost(ws: seq<Word>, n: nat, key: seq<byte>, exact: bool)
    requires NonDecreasing(ws) && GoodStart(Signs(Samples(ws), key), n)
    ensures var rest := ws[16 * n..];
            Reads(rest, key, exact) <= 16 + |Filter(rest, key, exact)| + 1
  {
    var rest := ws[16 * n..];
    var small := if |rest| < 16 then |rest| else 16;
    if |rest| > 16 {
      assert Samples(ws)[n + 1] == rest[16];
      assert Signs(Samples(ws), key)[n + 1] >= 0;
      forall j | 16 <= j < |rest| ensures Strcmp(rest[j].word, key) >= 0 {
        CompareMonotone(rest[16].word, rest[j].word, key);
      }
    }
    ReadsBound(rest, small, key, exact);
  }

  /** The cost bound for an index file: the scan from the chosen sample's offset makes at most 17 reads, and one for each
      match in the file. */
  lemma FileScanCost(data: seq<byte>, key: seq<byte>, exact: bool)
    requires StrictlyIncreasing(Records(data, 0, 0))
    ensures var ws := Records(data, 0, 0);
            var p := FindSample(Samples(ws), key);
            p.At? ==>
              var w := Samples(ws)[p.n];
              w.indexPos <= |data|
              && Reads(Records(data, w.indexPos, w.index), key, exact) <= 17 + |Filter(ws, key, exact)|
  {
    hide Records, Filter, Reads, EndsUndefined, StrictlyIncreasing;
    var ws := Records(data, 0, 0);
    var p := FindSample(Samples(ws), key);
    if p.At? {
      SuffixFromRecord(data, 0, 0, 16 * p.n);
      ScanCost(ws, key, exact);
    }
  }
}
