/** The words of a page, grouped by their lower-case form. */
module T9Words {
  import opened T9Encoding

  const DICT_MIN_WORD_LENGTH: nat := 3

  /** One group: the first spelling, its lower-case form, its code, and the occurrences on the page. */
  datatype WordWithRanges = WordWithRanges(word: Text, wordLower: Text, encoded: seq<Char>, ranges: seq<nat>)

  /** The first group from number `j` on with this lower-case form, or the number of groups. */
  function IndexFrom(words: seq<WordWithRanges>, j: nat, low: Text): (r: nat)
    requires j <= |words|
    ensures j <= r <= |words| && (r < |words| ==> words[r].wordLower == low)
    ensures forall k :: j <= k < r ==> words[k].wordLower != low
    decreases |words| - j
  {
    if j == |words| || words[j].wordLower == low then j else IndexFrom(words, j + 1, low)
  }

  /** The groups after one more occurrence. */
  function Insert(words: seq<WordWithRanges>, w: Text, low: Text, encoded: seq<Char>, occurrence: nat): seq<WordWithRanges> {
    if |w| < DICT_MIN_WORD_LENGTH then words
    else
      var index := IndexFrom(words, 0, low);
      if index < |words| then words[index := words[index].(ranges := words[index].ranges + [occurrence])]
      else words + [WordWithRanges(w, low, encoded, [occurrence])]
  }

  /** The groups of the first `n` words of a page. */
  function Groups(lower: Char -> Char, keytable: seq<Text>, page: seq<Text>, n: nat): seq<WordWithRanges>
    requires n <= |page|
  {
    if n == 0 then []
    else
      var w := page[n - 1];
      Insert(Groups(lower, keytable, page, n - 1), w, Lowercase(lower, w), Code(lower, keytable, w), n - 1)
  }

  class WordList {
    const encoding: TEncoding
    const lower: Char -> Char
    var words: seq<WordWithRanges>

    constructor (encoding: TEncoding, lower: Char -> Char)
      ensures this.encoding == encoding && this.lower == lower && words == []
    {
      this.encoding := encoding;
      this.lower := lower;
      words := [];
    }

    /** `init`: groups the words of the page anew. */
    method Init(page: seq<Text>)
      modifies this
      ensures words == Groups(lower, encoding.keytable, page, |page|)
    {
      words := [];
      for i := 0 to |page|
        invariant words == Groups(lower, encoding.keytable, page, i)
      {
        var w := page[i];
        var encoded := encoding.EncodeString(lower, w);
        if |w| >= DICT_MIN_WORD_LENGTH {
          var low := Lowercase(lower, w);
          var index := FindGroup(low);
          if index < |words| {
            words := words[index := words[index].(ranges := words[index].ranges + [i])];
          } else {
            words := words + [WordWithRanges(w, low, encoded, [i])];
          }
        }
      }
    }

    method FindGroup(low: Text) returns (index: nat)
      ensures index == IndexFrom(words, 0, low)
    {
      for j := 0 to |words|
        invariant IndexFrom(words, j, low) == IndexFrom(words, 0, low)
      {
        if words[j].wordLower == low {
          return j;
        }
      }
      return |words|;
    }

    /** `match`: the groups whose code starts with the prefix; none for the empty prefix. */
    method Match(prefix: seq<Char>) returns (result: seq<nat>)
      ensures result == Matching(words, prefix, |words|)
    {
      result := [];
      for i := 0 to |words|
        invariant result == Matching(words, prefix, i)
      {
        if prefix != [] && prefix <= words[i].encoded {
          result := result + [i];
        }
      }
    }
  }

  /** Of the first `n` groups, those whose code starts with a nonempty prefix, in page order. */
  function Matching(words: seq<WordWithRanges>, prefix: seq<Char>, n: nat): seq<nat>
    requires n <= |words|
  {
    if n == 0 then []
    else
      Matching(words, prefix, n - 1) + if prefix != [] && prefix <= words[n - 1].encoded then [n - 1] else []
  }

  /** The matching groups are exactly those whose code starts with the prefix, each once, in page order. */
  lemma {:induction false} MatchingIsFilter(words: seq<WordWithRanges>, prefix: seq<Char>, n: nat)
    requires n <= |words|
    ensures var r := Matching(words, prefix, n);
            && (forall c :: c in r <==> 0 <= c < n && prefix != [] && prefix <= words[c].encoded)
            && (forall i, j :: 0 <= i < j < |r| ==> r[i] < r[j])
  {
    if n > 0 {
      MatchingIsFilter(words, prefix, n - 1);
      var front := Matching(words, prefix, n - 1);
      assert forall i :: 0 <= i < |front| ==> front[i] in front;
    }
  }

  // ---- what the grouping is ----

  /** Occurrence `i` belongs to the group with lower-case form `low`. */
  ghost predicate Belongs(lower: Char -> Char, page: seq<Text>, n: nat, i: int, low: Text)
    requires n <= |page|
  {
    0 <= i < n && |page[i]| >= 3 && Lowercase(lower, page[i]) == low
  }

  /** Group `g` holds exactly the occurrences that belong to it, in page order, starts with the first spelling, and has
      the code of each of its occurrences. */
  ghost predicate GroupOf(lower: Char -> Char, keytable: seq<Text>, page: seq<Text>, n: nat, g: WordWithRanges)
    requires n <= |page|
  {
    && (forall i :: i in g.ranges <==> Belongs(lower, page, n, i, g.wordLower))
    && (forall i, j :: 0 <= i < j < |g.ranges| ==> g.ranges[i] < g.ranges[j])
    && g.ranges != [] && g.ranges[0] < n && g.word == page[g.ranges[0]]
    && (forall i :: Belongs(lower, page, n, i, g.wordLower) ==> Code(lower, keytable, page[i]) == g.encoded)
  }

  predicate Distinct(words: seq<WordWithRanges>) {
    forall a, b :: 0 <= a < b < |words| ==> words[a].wordLower != words[b].wordLower
  }

  lemma GroupUnchanged(lower: Char -> Char, keytable: seq<Text>, page: seq<Text>, n: nat, g: WordWithRanges)
    requires n < |page| && GroupOf(lower, keytable, page, n, g) && !Belongs(lower, page, n + 1, n, g.wordLower)
    ensures GroupOf(lower, keytable, page, n + 1, g)
  {
    forall i ensures Belongs(lower, page, n + 1, i, g.wordLower) <==> Belongs(lower, page, n, i, g.wordLower) {
    }
  }

  lemma GroupGrows(lower: Char -> Char, keytable: seq<Text>, page: seq<Text>, n: nat, g: WordWithRanges)
    requires n < |page| && GroupOf(lower, keytable, page, n, g) && Belongs(lower, page, n + 1, n, g.wordLower)
    ensures GroupOf(lower, keytable, page, n + 1, g.(ranges := g.ranges + [n]))
  {
    var h := g.(ranges := g.ranges + [n]);
    forall i ensures i in h.ranges <==> Belongs(lower, page, n + 1, i, h.wordLower) {
      assert i in h.ranges <==> i in g.ranges || i == n;
      assert i != n ==> (Belongs(lower, page, n + 1, i, h.wordLower) <==> Belongs(lower, page, n, i, g.wordLower));
    }
    forall i, j | 0 <= i < j < |h.ranges| ensures h.ranges[i] < h.ranges[j] {
      assert h.ranges[i] in g.ranges;
      assert Belongs(lower, page, n, h.ranges[i], g.wordLower);
    }
    var first := g.ranges[0];
    assert first in g.ranges && Belongs(lower, page, n, first, g.wordLower);
    SameCode(lower, keytable, page[first], page[n]);
    forall i | Belongs(lower, page, n + 1, i, h.wordLower) ensures Code(lower, keytable, page[i]) == h.encoded {
      if i != n {
        assert Belongs(lower, page, n, i, g.wordLower);
      }
    }
  }

  lemma GroupStarts(lower: Char -> Char, keytable: seq<Text>, page: seq<Text>, n: nat)
    requires n < |page| && |page[n]| >= DICT_MIN_WORD_LENGTH
    requires forall i :: !Belongs(lower, page, n, i, Lowercase(lower, page[n]))
    ensures var low := Lowercase(lower, page[n]);
            GroupOf(lower, keytable, page, n + 1, WordWithRanges(page[n], low, Code(lower, keytable, page[n]), [n]))
  {
    var low := Lowercase(lower, page[n]);
    forall i ensures i in [n] <==> Belongs(lower, page, n + 1, i, low) {
      assert i != n ==> (Belongs(lower, page, n + 1, i, low) <==> Belongs(lower, page, n, i, low));
    }
  }

  /** Groups stand in the order in which their first occurrences stand on the page. */
  predicate InPageOrder(words: seq<WordWithRanges>) {
    && (forall a :: 0 <= a < |words| ==> words[a].ranges != [])
    && (forall a, b :: 0 <= a < b < |words| ==> words[a].ranges[0] < words[b].ranges[0])
  }

  /** All groups are groups of the page, no two for the same lower-case form, in page order, and every long enough
      occurrence is in one. */
  ghost predicate Partition(lower: Char -> Char, keytable: seq<Text>, page: seq<Text>, n: nat, words: seq<WordWithRanges>)
    requires n <= |page|
  {
    && (forall k :: 0 <= k < |words| ==> GroupOf(lower, keytable, page, n, words[k]))
    && Distinct(words) && InPageOrder(words)
    && (forall i :: 0 <= i < n && |page[i]| >= 3 ==>
          exists k :: 0 <= k < |words| && words[k].wordLower == Lowercase(lower, page[i]))
  }

  /** Grouping puts each occurrence of length three or more into exactly one group, whose code is its own code. */
  lemma {:induction false} GroupsPartition(lower: Char -> Char, keytable: seq<Text>, page: seq<Text>, n: nat)
    requires n <= |page|
    ensures Partition(lower, keytable, page, n, Groups(lower, keytable, page, n))
  {
    hide Partition, Insert;
    if n == 0 {
      NoGroups(lower, keytable, page);
    } else {
      GroupsPartition(lower, keytable, page, n - 1);
      InsertPartition(lower, keytable, page, n - 1, Groups(lower, keytable, page, n - 1));
    }
  }

  lemma NoGroups(lower: Char -> Char, keytable: seq<Text>, page: seq<Text>)
    ensures Partition(lower, keytable, page, 0, [])
  {
  }

  lemma InsertPartition(lower: Char -> Char, keytable: seq<Text>, page: seq<Text>, n: nat, words: seq<WordWithRanges>)
    requires n < |page| && Partition(lower, keytable, page, n, words)
    ensures var w := page[n];
            Partition(lower, keytable, page, n + 1, Insert(words, w, Lowercase(lower, w), Code(lower, keytable, w), n))
  {
    hide GroupOf, Code;
    var w, low := page[n], Lowercase(lower, page[n]);
    var words' := Insert(words, w, low, Code(lower, keytable, w), n);
    var index := IndexFrom(words, 0, low);
    forall k | 0 <= k < |words'| ensures GroupOf(lower, keytable, page, n + 1, words'[k]) {
      InsertGroup(lower, keytable, page, n, words, k);
    }
    assert InPageOrder(words') by { InsertOrder(lower, keytable, page, n, words); }
    forall i | 0 <= i < n + 1 && |page[i]| >= 3
      ensures exists k :: 0 <= k < |words'| && words'[k].wordLower == Lowercase(lower, page[i])
    {
      if i < n {
        var k :| 0 <= k < |words| && words[k].wordLower == Lowercase(lower, page[i]);
        assert words'[k].wordLower == words[k].wordLower;
      } else {
        assert words'[index].wordLower == low;
      }
    }
  }

  lemma InsertOrder(lower: Char -> Char, keytable: seq<Text>, page: seq<Text>, n: nat, words: seq<WordWithRanges>)
    requires n < |page| && Partition(lower, keytable, page, n, words)
    ensures InPageOrder(Insert(words, page[n], Lowercase(lower, page[n]), Code(lower, keytable, page[n]), n))
  {
    hide Code, Lowercase;
    assert forall k :: 0 <= k < |words| ==> GroupOf(lower, keytable, page, n, words[k]) && words[k].ranges[0] < n;
  }

  lemma InsertGroup(lower: Char -> Char, keytable: seq<Text>, page: seq<Text>, n: nat, words: seq<WordWithRanges>, k: nat)
    requires n < |page| && Partition(lower, keytable, page, n, words)
    requires k < |Insert(words, page[n], Lowercase(lower, page[n]), Code(lower, keytable, page[n]), n)|
    ensures GroupOf(lower, keytable, page, n + 1,
                    Insert(words, page[n], Lowercase(lower, page[n]), Code(lower, keytable, page[n]), n)[k])
  {
    hide GroupOf, Code;
    var low := Lowercase(lower, page[n]);
    var index := IndexFrom(words, 0, low);
    if |page[n]| < DICT_MIN_WORD_LENGTH {
      GroupUnchanged(lower, keytable, page, n, words[k]);
    } else if k == index < |words| {
      GroupGrows(lower, keytable, page, n, words[k]);
    } else if k < |words| {
      assert words[k].wordLower != low;
      GroupUnchanged(lower, keytable, page, n, words[k]);
    } else {
      assert forall i :: !Belongs(lower, page, n, i, low);
      GroupStarts(lower, keytable, page, n);
    }
  }
}
