/** The key table of a telephone-style keyboard, and the codes it gives to words. */
module T9Encoding {

  /** UTF-16 code units. */
  type Char = nat

  type Text = seq<Char>

  const DIGIT_ZERO: Char := 48

  /** The first key from number `i` on whose characters include `ch`, or key 0. */
  function KeyFrom(keytable: seq<Text>, i: nat, ch: Char): nat
    requires i <= |keytable|
    decreases |keytable| - i
  {
    if i == |keytable| then 0 else if ch in keytable[i] then i else KeyFrom(keytable, i + 1, ch)
  }

  function Encode(keytable: seq<Text>, ch: Char): nat {
    KeyFrom(keytable, 0, ch)
  }

  /** Lower case, letter by letter; which letters have one is up to the text library. */
  function Lowercase(lower: Char -> Char, s: Text): (r: Text)
    ensures |r| == |s| && forall i :: 0 <= i < |s| ==> r[i] == lower(s[i])
  {
    if s == [] then [] else Lowercase(lower, s[..|s| - 1]) + [lower(s[|s| - 1])]
  }

  /** The code of a word: one digit for each letter of its lower-case form. */
  function Code(lower: Char -> Char, keytable: seq<Text>, s: Text): (r: seq<Char>)
    ensures |r| == |s| && forall i :: 0 <= i < |s| ==> r[i] == 48 + Encode(keytable, lower(s[i]))
  {
    if s == [] then []
    else Code(lower, keytable, s[..|s| - 1]) + [DIGIT_ZERO + Encode(keytable, lower(s[|s| - 1]))]
  }

  /** Words that differ in case only have the same code. */
  lemma SameCode(lower: Char -> Char, keytable: seq<Text>, a: Text, b: Text)
    requires Lowercase(lower, a) == Lowercase(lower, b)
    ensures Code(lower, keytable, a) == Code(lower, keytable, b)
  {
    var x, y := Lowercase(lower, a), Lowercase(lower, b);
    forall i | 0 <= i < |a| ensures Code(lower, keytable, a)[i] == Code(lower, keytable, b)[i] {
      assert x[i] == lower(a[i]) && y[i] == lower(b[i]);
    }
  }

  /** The key a character is on: the table holds it there and on no key before. */
  lemma {:induction false} KeyIsFirst(keytable: seq<Text>, i: nat, ch: Char)
    requires i <= |keytable|
    ensures var k := KeyFrom(keytable, i, ch);
            if exists j :: i <= j < |keytable| && ch in keytable[j]
            then i <= k < |keytable| && ch in keytable[k] && forall j :: i <= j < k ==> ch !in keytable[j]
            else k == 0
    decreases |keytable| - i
  {
    if i < |keytable| && ch !in keytable[i] {
      KeyIsFirst(keytable, i + 1, ch);
    }
  }

  class TEncoding {
    var keytable: seq<Text>

    constructor (defs: seq<Text>)
      ensures keytable == defs
    {
      keytable := defs;
    }

    method Set(items: seq<Text>)
      modifies this
      ensures keytable == items
    {
      keytable := items;
    }

    /** `init`: the strings of a table, one key after the other. */
    method Init(defs: seq<Text>)
      modifies this
      ensures keytable == defs
    {
      keytable := [];
      for i := 0 to |defs|
        invariant keytable == defs[..i]
      {
        keytable := keytable + [defs[i]];
      }
    }

    method EncodeChar(ch: Char) returns (key: nat)
      ensures key == Encode(keytable, ch)
    {
      for i := 0 to |keytable|
        invariant KeyFrom(keytable, i, ch) == KeyFrom(keytable, 0, ch)
      {
        var ref := keytable[i];
        for j := 0 to |ref|
          invariant ch !in ref[..j]
        {
          if ref[j] == ch {
            return i;
          }
        }
        assert ref[..|ref|] == ref;
      }
      return 0;
    }

    method EncodeString(lower: Char -> Char, s: Text) returns (result: seq<Char>)
      ensures result == Code(lower, keytable, s)
    {
      result := [];
      for i := 0 to |s|
        invariant result == Code(lower, keytable, s[..i])
      {
        var key := EncodeChar(lower(s[i]));
        assert s[..i + 1][..i] == s[..i];
        result := result + [DIGIT_ZERO + key];
      }
      assert s[..|s|] == s;
    }
  }
}
