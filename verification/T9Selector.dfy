/** The word selector: digits narrow down the words of a page, and can be taken back. */
module T9Selector {
  import opened T9Encoding
  import opened T9Words

  /** The selector's fields; candidates are group numbers, and `shown` is the group highlighted last. */
  datatype State = State(prefix: seq<Char>, level: int, candidates: seq<nat>, current: int, shown: int)

  function Matches(words: seq<WordWithRanges>, prefix: seq<Char>): seq<nat> {
    Matching(words, prefix, |words|)
  }

  /** `update_candidates`: without a match only the current position is reset. */
  function Update(words: seq<WordWithRanges>, s: State): (bool, State) {
    var found := Matches(words, s.prefix);
    if found == [] then (false, s.(current := 0))
    else (true, s.(candidates := found, current := 0, shown := found[0]))
  }

  /** `push_button`. */
  function Push(words: seq<WordWithRanges>, s: State, key: Char): (bool, State) {
    var (ok, t) := Update(words, s.(prefix := s.prefix + [key]));
    if ok then (true, t.(level := s.level + 1)) else (false, t.(prefix := s.prefix))
  }

  /** `pop`: true means there was nothing to take back. */
  function Pop(words: seq<WordWithRanges>, s: State): (bool, State) {
    if s.level == 0 then (true, s)
    else
      var shorter := if s.prefix == [] then [] else s.prefix[..|s.prefix| - 1];
      (false, Update(words, s.(prefix := shorter, level := s.level - 1)).1)
  }

  /** The position after a move by `delta`, which wraps around at both ends. */
  function Moved(current: int, delta: int, n: nat): int {
    var a := current + delta;
    var b := if a < 0 then n - 1 else a;
    var c := if b >= n then 0 else b;
    if c < 0 then 0 else c
  }

  function MoveBy(s: State, delta: int): State {
    var c := Moved(s.current, delta, |s.candidates|);
    if s.candidates == [] then s.(current := c)
    else if 0 <= c < |s.candidates| then s.(current := c, shown := s.candidates[c])
    else s
  }

  /** Taking back digits until there is none left. */
  function PopAll(words: seq<WordWithRanges>, s: State): State
    requires s.level >= 0
    decreases s.level
  {
    if s.level == 0 then s else PopAll(words, Pop(words, s).1)
  }

  predicate Increasing(a: seq<nat>) {
    forall i, j :: 0 <= i < j < |a| ==> a[i] < a[j]
  }

  /** What holds in every reachable state: the level counts the digits; under a nonempty prefix the candidates are the
      matching groups, and there are some; candidates are in page order, each once; and the current position is one of
      theirs. */
  predicate Inv(words: seq<WordWithRanges>, s: State) {
    && s.level == |s.prefix|
    && (s.prefix != [] ==> s.candidates == Matches(words, s.prefix) && s.candidates != [])
    && (forall i :: 0 <= i < |s.candidates| ==> s.candidates[i] < |words|)
    && Increasing(s.candidates)
    && (s.candidates != [] ==> 0 <= s.current < |s.candidates|)
  }

  /** The current candidate is the one highlighted. */
  predicate InSync(s: State) {
    s.candidates != [] ==> 0 <= s.current < |s.candidates| && s.shown == s.candidates[s.current]
  }

  class Selector {
    const words: WordList
    var prefix: seq<Char>
    var level: int
    var candidates: seq<nat>
    var current: int
    var shown: int

    ghost function Abs(): State
      reads this
    {
      State(prefix, level, candidates, current, shown)
    }

    ghost predicate Valid()
      reads this, words
    {
      Inv(words.words, Abs())
    }

    constructor (words: WordList)
      ensures this.words == words && prefix == [] && level == 0 && candidates == [] && current == 0 && Valid()
    {
      this.words := words;
      prefix, level, candidates, current, shown := [], 0, [], 0, -1;
      new;
      EmptyPrefixMatchesNothing(words.words, |words.words|);
      var found := UpdateCandidates();
    }

    method UpdateCandidates() returns (ok: bool)
      modifies this
      ensures (ok, Abs()) == Update(words.words, old(Abs()))
    {
      var found := words.Match(prefix);
      current := 0;
      if |found| == 0 {
        return false;
      }
      candidates := found;
      shown := candidates[current];
      return true;
    }

    method PushButton(key: Char) returns (ok: bool)
      requires Valid()
      modifies this
      ensures Valid() && (ok, Abs()) == Push(words.words, old(Abs()), key)
      ensures ok ==> prefix == old(prefix) + [key] && ShowsFirst(words.words, Abs())
    {
      hide ShowsFirst;
      PushInv(words.words, Abs(), key);
      FirstIsShown(words.words, Abs(), key);
      var oldPrefix := prefix;
      prefix := prefix + [key];
      ok := UpdateCandidates();
      if ok {
        level := level + 1;
        return true;
      }
      prefix := oldPrefix;
    }

    method PopDigit() returns (nothing: bool)
      requires Valid()
      modifies this
      ensures Valid() && (nothing, Abs()) == Pop(words.words, old(Abs()))
      ensures !nothing && prefix != [] ==> ShowsFirst(words.words, Abs())
    {
      hide ShowsFirst, Matches, Update;
      PopInv(words.words, Abs());
      FirstIsShown(words.words, Abs(), 0);
      if level == 0 {
        return true;
      }
      prefix := if prefix == [] then [] else prefix[..|prefix| - 1];
      level := level - 1;
      var refreshed := UpdateCandidates();
      return false;
    }

    method Move(delta: int)
      requires Valid()
      modifies this
      ensures Valid() && Abs() == MoveBy(old(Abs()), delta)
    {
      current := current + delta;
      if current < 0 {
        current := |candidates| - 1;
      }
      if current >= |candidates| {
        current := 0;
      }
      if current < 0 {
        current := 0;
      }
      if |candidates| > 0 {
        shown := candidates[current];
      }
    }

    /** The current word, or the empty one. */
    method Get() returns (word: Text)
      requires Valid()
      ensures candidates == [] ==> word == []
      ensures candidates != [] ==> word == words.words[candidates[current]].word
      ensures ShowsFirst(words.words, Abs()) ==>
                IsFirstMatch(words.words, prefix, shown) && word == words.words[shown].word
    {
      if 0 <= current < |candidates| {
        return words.words[candidates[current]].word;
      }
      return [];
    }

    /** `setLayout`: takes back all digits, then groups the page's words anew, under a new key table if there is one. */
    method SetLayout(hasLayout: bool, layout: seq<Text>, defaultLayout: seq<Text>, page: seq<Text>)
      requires Valid() && words.encoding as object != this
      modifies this, words, words.encoding
      ensures Valid()
      ensures Abs() == PopAll(old(words.words), old(Abs())).(candidates := []) && prefix == [] && level == 0
      ensures var chosen := if hasLayout then layout else old(words.encoding.keytable);
              words.encoding.keytable == if chosen == [] then defaultLayout else chosen
      ensures words.words == Groups(words.lower, words.encoding.keytable, page, |page|)
    {
      PopAllEmpties(words.words, Abs());
      var nothing := PopDigit();
      while !nothing
        invariant Valid() && words.words == old(words.words) && words.encoding.keytable == old(words.encoding.keytable)
        invariant PopAll(words.words, Abs()) == PopAll(words.words, old(Abs()))
        invariant nothing ==> level == 0
        decreases !nothing, level
      {
        nothing := PopDigit();
      }
      if hasLayout {
        words.encoding.Set(layout);
      }
      if |words.encoding.keytable| == 0 {
        words.encoding.Init(defaultLayout);
      }
      words.Init(page);
      candidates := [];
    }
  }

  // ---- every reachable state ----

  lemma {:induction false} EmptyPrefixMatchesNothing(words: seq<WordWithRanges>, n: nat)
    requires n <= |words|
    ensures Matching(words, [], n) == []
  {
    if n > 0 {
      EmptyPrefixMatchesNothing(words, n - 1);
    }
  }

  lemma UpdateInv(words: seq<WordWithRanges>, s: State)
    requires (forall i :: 0 <= i < |s.candidates| ==> s.candidates[i] < |words|) && Increasing(s.candidates)
    ensures var t := Update(words, s).1;
            && t.prefix == s.prefix && t.level == s.level
            && (forall i :: 0 <= i < |t.candidates| ==> t.candidates[i] < |words|) && Increasing(t.candidates)
            && t.current == 0
  {
    MatchingIsFilter(words, s.prefix, |words|);
    var found := Matches(words, s.prefix);
    forall i | 0 <= i < |found| ensures found[i] < |words| {
      assert found[i] in found;
    }
    var t := Update(words, s).1;
    assert t.candidates == if found == [] then s.candidates else found;
  }

  lemma PushInv(words: seq<WordWithRanges>, s: State, key: Char)
    requires Inv(words, s)
    ensures var (ok, t) := Push(words, s, key);
            && Inv(words, t)
            && (ok <==> Matches(words, s.prefix + [key]) != [])
            && (ok ==> t.prefix == s.prefix + [key])
            && (!ok ==> t == s.(current := 0))
  {
    UpdateInv(words, s.(prefix := s.prefix + [key]));
  }

  /** Match sets only grow as the prefix shrinks, as long as it is not empty. */
  lemma ShorterMatchesMore(words: seq<WordWithRanges>, prefix: seq<Char>, shorter: seq<Char>)
    requires shorter <= prefix && shorter != []
    ensures forall c :: c in Matches(words, prefix) ==> c in Matches(words, shorter)
  {
    MatchingIsFilter(words, prefix, |words|);
    MatchingIsFilter(words, shorter, |words|);
  }

  /** Taking back a digit keeps the invariant. As long as a digit is left the candidates are always refreshed; without
      one the old candidates stay. */
  lemma PopInv(words: seq<WordWithRanges>, s: State)
    requires Inv(words, s)
    ensures var (nothing, t) := Pop(words, s);
            && Inv(words, t)
            && (nothing <==> s.prefix == [])
            && (nothing ==> t == s)
            && (!nothing ==> t.prefix == s.prefix[..|s.prefix| - 1])
            && (|s.prefix| > 1 ==> t.candidates == Matches(words, t.prefix) != [])
            && (|s.prefix| == 1 ==> t.candidates == s.candidates)
  {
    if s.level > 0 {
      var shorter := s.prefix[..|s.prefix| - 1];
      UpdateInv(words, s.(prefix := shorter, level := s.level - 1));
      if shorter == [] {
        EmptyPrefixMatchesNothing(words, |words|);
      } else {
        ShorterMatchesMore(words, s.prefix, shorter);
        assert s.candidates[0] in Matches(words, s.prefix);
      }
    }
  }

  /** Of the groups whose code starts with the prefix, the first one on the page. */
  predicate IsFirstMatch(words: seq<WordWithRanges>, prefix: seq<Char>, g: int) {
    0 <= g < |words| && prefix <= words[g].encoded && forall k :: 0 <= k < g ==> !(prefix <= words[k].encoded)
  }

  /** The first candidate is current and highlighted, and it is the first group that matches. */
  predicate ShowsFirst(words: seq<WordWithRanges>, t: State) {
    && t.current == 0 && t.candidates != [] && t.shown == t.candidates[0]
    && IsFirstMatch(words, t.prefix, t.shown)
  }

  lemma UpdateShowsFirst(words: seq<WordWithRanges>, s: State)
    ensures var (ok, t) := Update(words, s);
            ok ==> ShowsFirst(words, t)
  {
    MatchingIsFilter(words, s.prefix, |words|);
    var found := Matches(words, s.prefix);
    if found != [] {
      assert found[0] in found;
      assert forall k :: 0 <= k < |words| && s.prefix <= words[k].encoded ==> k in found;
    }
  }

  /** After a press that succeeds, and after a digit is taken back while one is left, the first matching group of the page is
      current and highlighted. */
  lemma FirstIsShown(words: seq<WordWithRanges>, s: State, key: Char)
    requires Inv(words, s)
    ensures Push(words, s, key).0 ==> ShowsFirst(words, Push(words, s, key).1)
    ensures |s.prefix| > 1 ==> ShowsFirst(words, Pop(words, s).1)
  {
    hide Matches, ShowsFirst;
    UpdateShowsFirst(words, s.(prefix := s.prefix + [key]));
    KeepsShown(words, s, key);
    if |s.prefix| > 1 {
      PopInv(words, s);
      UpdateShowsFirst(words, s.(prefix := s.prefix[..|s.prefix| - 1], level := s.level - 1));
    }
  }

  lemma KeepsShown(words: seq<WordWithRanges>, s: State, key: Char)
    ensures var (ok, t) := Update(words, s.(prefix := s.prefix + [key]));
            ok && ShowsFirst(words, t) ==> ShowsFirst(words, Push(words, s, key).1)
  {
    hide Update;
  }

  /** That group holds the first occurrence on the page of a word whose code starts with the prefix. */
  lemma FirstOnPage(lower: Char -> Char, keytable: seq<Text>, page: seq<Text>, prefix: seq<Char>, g: nat)
    requires IsFirstMatch(Groups(lower, keytable, page, |page|), prefix, g)
    ensures var first := Groups(lower, keytable, page, |page|)[g].ranges;
            && first != [] && first[0] < |page| && prefix <= Code(lower, keytable, page[first[0]])
            && forall i :: 0 <= i < first[0] && |page[i]| >= 3 ==> !(prefix <= Code(lower, keytable, page[i]))
  {
    hide Groups, Code;
    var words := Groups(lower, keytable, page, |page|);
    GroupsPartition(lower, keytable, page, |page|);
    assert GroupOf(lower, keytable, page, |page|, words[g]);
    var first := words[g].ranges[0];
    assert first in words[g].ranges && Belongs(lower, page, |page|, first, words[g].wordLower);
    forall i | 0 <= i < first && |page[i]| >= 3 ensures !(prefix <= Code(lower, keytable, page[i])) {
      var k := GroupOfOccurrence(lower, keytable, page, i);
      assert GroupOf(lower, keytable, page, |page|, words[k]);
      assert i in words[k].ranges && words[k].ranges[0] <= i by { FirstIsLeast(lower, keytable, page, words[k], i); }
      if k >= g {
        LaterStarts(words, g, k);
      }
    }
  }

  lemma FirstIsLeast(lower: Char -> Char, keytable: seq<Text>, page: seq<Text>, g: WordWithRanges, i: nat)
    requires GroupOf(lower, keytable, page, |page|, g) && i in g.ranges
    ensures g.ranges[0] <= i
  {
    var j :| 0 <= j < |g.ranges| && g.ranges[j] == i;
  }

  lemma LaterStarts(words: seq<WordWithRanges>, g: nat, k: nat)
    requires InPageOrder(words) && g <= k < |words|
    ensures words[g].ranges[0] <= words[k].ranges[0]
  {
  }

  /** A move goes to the position asked for, to the last one when that is before the first, and to the first one when it is
      behind the last; the word there is highlighted. */
  lemma MoveExactly(words: seq<WordWithRanges>, s: State, delta: int)
    requires Inv(words, s)
    ensures var t, n, p := MoveBy(s, delta), |s.candidates|, s.current + delta;
            && t.prefix == s.prefix && t.level == s.level && t.candidates == s.candidates
            && t.current == (if n == 0 then 0 else if p < 0 then n - 1 else if p >= n then 0 else p)
            && t.shown == if n == 0 then s.shown else s.candidates[t.current]
  {
  }

  /** Taking back all digits leaves none. */
  lemma {:induction false} PopAllEmpties(words: seq<WordWithRanges>, s: State)
    requires Inv(words, s)
    ensures var t := PopAll(words, s);
            Inv(words, t) && t.prefix == [] && t.level == 0
    decreases s.level
  {
    hide Matches, Update;
    if s.level > 0 {
      PopInv(words, s);
      PopAllEmpties(words, Pop(words, s).1);
    }
  }

  /** Moving one up or down goes around in a circle, highlights the word it ends on, and can be taken back. */
  lemma StepIsCircular(words: seq<WordWithRanges>, s: State, delta: int)
    requires Inv(words, s) && s.candidates != [] && (delta == 1 || delta == -1)
    ensures var t := MoveBy(s, delta);
            && t.current == (s.current + delta) % |s.candidates|
            && InSync(t) && MoveBy(t, -delta).current == s.current
  {
    hide Matches;
    Around(s.current + delta, |s.candidates|);
  }

  lemma Around(a: int, n: nat)
    requires -1 <= a <= n && n > 0
    ensures a % n == if a < 0 then n - 1 else if a == n then 0 else a
  {
  }

  datatype Action = Press(key: Char) | Back | Step(delta: int)

  function Act(words: seq<WordWithRanges>, s: State, a: Action): State {
    match a
    case Press(key) => Push(words, s, key).1
    case Back => Pop(words, s).1
    case Step(delta) => MoveBy(s, delta)
  }

  function Run(words: seq<WordWithRanges>, s: State, actions: seq<Action>): State
    decreases |actions|
  {
    if actions == [] then s else Run(words, Act(words, s, actions[0]), actions[1..])
  }

  /** The invariant holds after any run of presses, moves and take-backs. */
  lemma {:induction false} RunInv(words: seq<WordWithRanges>, s: State, actions: seq<Action>)
    requires Inv(words, s)
    ensures Inv(words, Run(words, s, actions))
    decreases |actions|
  {
    if actions != [] {
      var a := actions[0];
      match a {
        case Press(key) => PushInv(words, s, key);
        case Back => PopInv(words, s);
        case Step(delta) =>
      }
      RunInv(words, Act(words, s, a), actions[1..]);
    }
  }

  // ---- completeness ----

  function Presses(code: seq<Char>): (actions: seq<Action>)
    ensures |actions| == |code| && forall i :: 0 <= i < |code| ==> actions[i] == Press(code[i])
  {
    if code == [] then [] else [Press(code[0])] + Presses(code[1..])
  }

  /** Typing the code of a group digit by digit, after a part of it was typed: every press succeeds, and in the end the
      group is among the candidates. */
  lemma {:induction false} TypingFinds(words: seq<WordWithRanges>, s: State, g: nat, rest: seq<Char>)
    requires Inv(words, s) && g < |words| && s.prefix + rest == words[g].encoded && words[g].encoded != []
    ensures forall k :: 0 <= k < |rest| ==> Push(words, Run(words, s, Presses(rest[..k])), rest[k]).0
    ensures var t := Run(words, s, Presses(rest));
            && t.prefix == words[g].encoded && g in t.candidates && t.candidates == Matches(words, t.prefix)
            && (rest != [] ==> ShowsFirst(words, t))
    decreases |rest|
  {
    hide Matching, Push, Update, ShowsFirst;
    if rest == [] {
      MatchingIsFilter(words, words[g].encoded, |words|);
      assert s.prefix == words[g].encoded;
    } else {
      PressFinds(words, s, g, rest);
      FirstIsShown(words, s, rest[0]);
      var t := Push(words, s, rest[0]).1;
      TypingFinds(words, t, g, rest[1..]);
      assert Presses(rest)[1..] == Presses(rest[1..]);
      forall k | 0 <= k < |rest| ensures Push(words, Run(words, s, Presses(rest[..k])), rest[k]).0 {
        if k > 0 {
          assert rest[..k][1..] == rest[1..][..k - 1];
          assert Presses(rest[..k])[1..] == Presses(rest[1..][..k - 1]);
          assert rest[1..][k - 1] == rest[k];
        }
      }
    }
  }

  lemma PressFinds(words: seq<WordWithRanges>, s: State, g: nat, rest: seq<Char>)
    requires Inv(words, s) && g < |words| && s.prefix + rest == words[g].encoded && rest != []
    ensures var (ok, t) := Push(words, s, rest[0]);
            ok && Inv(words, t) && t.prefix + rest[1..] == words[g].encoded
  {
    hide Push, Update;
    var p := s.prefix + [rest[0]];
    MatchingIsFilter(words, p, |words|);
    assert p + rest[1..] == s.prefix + rest;
    PushInv(words, s, rest[0]);
    assert g in Matches(words, p);
  }

  /** Every word of three or more letters on the page can be reached by typing its own code from the start. */
  lemma EveryWordIsFound(lower: Char -> Char, keytable: seq<Text>, page: seq<Text>, i: nat, s: State)
    requires i < |page| && |page[i]| >= 3
    requires var words := Groups(lower, keytable, page, |page|); Inv(words, s) && s.prefix == []
    ensures var words, code := Groups(lower, keytable, page, |page|), Code(lower, keytable, page[i]);
            && (forall k :: 0 <= k < |code| ==> Push(words, Run(words, s, Presses(code[..k])), code[k]).0)
            && var t := Run(words, s, Presses(code));
               && (exists g :: g in t.candidates && g < |words| && i in words[g].ranges)
               && ShowsFirst(words, t) && t.prefix == code
  {
    hide Groups, Code, Push, Run, Matches, Inv, ShowsFirst;
    var words, code := Groups(lower, keytable, page, |page|), Code(lower, keytable, page[i]);
    var g := GroupOfOccurrence(lower, keytable, page, i);
    assert s.prefix + code == words[g].encoded;
    TypingFinds(words, s, g, code);
  }

  lemma GroupOfOccurrence(lower: Char -> Char, keytable: seq<Text>, page: seq<Text>, i: nat) returns (g: nat)
    requires i < |page| && |page[i]| >= 3
    ensures var words := Groups(lower, keytable, page, |page|);
            g < |words| && i in words[g].ranges && words[g].encoded == Code(lower, keytable, page[i])
            && words[g].encoded != []
  {
    hide Code;
    var words := Groups(lower, keytable, page, |page|);
    GroupsPartition(lower, keytable, page, |page|);
    g :| 0 <= g < |words| && words[g].wordLower == Lowercase(lower, page[i]);
    assert GroupOf(lower, keytable, page, |page|, words[g]);
    assert Belongs(lower, page, |page|, i, words[g].wordLower);
  }

  // ---- the highlighted word ----

  /** In every reachable state whose highlight is on the current word, a press keeps it there exactly when it succeeds,
      there are no candidates, or the first one was current. */
  lemma PressKeepsSync(words: seq<WordWithRanges>, s: State, key: Char)
    requires Inv(words, s) && InSync(s)
    ensures var (ok, t) := Push(words, s, key);
            InSync(t) <==> ok || s.candidates == [] || s.current == 0
  {
    PushInv(words, s, key);
  }

  /** Likewise, taking back a digit keeps it exactly when it was not the last one, or the first candidate was current. */
  lemma BackKeepsSync(words: seq<WordWithRanges>, s: State)
    requires Inv(words, s) && InSync(s)
    ensures InSync(Pop(words, s).1) <==> |s.prefix| != 1 || s.current == 0
  {
    PopInv(words, s);
    EmptyPrefixMatchesNothing(words, |words|);
  }

  /** For instance: with two candidates and the second one current, a digit without a match leaves the second one
      highlighted, while the first one would be taken. */
  lemma HighlightLost(words: seq<WordWithRanges>, s: State, key: Char)
    requires Inv(words, s) && s.prefix != [] && InSync(s) && |s.candidates| == 2 && s.current == 1
    requires Matches(words, s.prefix + [key]) == []
    ensures var t := Push(words, s, key).1;
            t.candidates == s.candidates && t.current == 0 && t.shown == s.candidates[1] != s.candidates[0]
  {
    PressKeepsSync(words, s, key);
    MatchingIsFilter(words, s.prefix, |words|);
  }
}
