/** Bytes, 32-bit words and C strings, as the rest of the project uses them. */
module Bytes {

  type byte = b: int | 0 <= b < 256

  const U32: nat := 0x1_0000_0000

  type u32 = n: int | 0 <= n < 0x1_0000_0000

  datatype Option<+T> = None | Some(value: T)

  const NUL: byte := 0
  const TAB: byte := 9
  const NEWLINE: byte := 10

  /** The sign of `strcmp`: C strings are ordered by unsigned bytes, and a proper prefix comes first. */
  function Strcmp(a: seq<byte>, b: seq<byte>): (sign: int)
    ensures -1 <= sign <= 1
  {
    if a == [] && b == [] then 0
    else if a == [] then -1
    else if b == [] then 1
    else if a[0] < b[0] then -1
    else if a[0] > b[0] then 1
    else Strcmp(a[1..], b[1..])
  }

  lemma {:induction false} StrcmpZero(a: seq<byte>, b: seq<byte>)
    ensures Strcmp(a, b) == 0 <==> a == b
  {
    if a != [] && b != [] {
      StrcmpZero(a[1..], b[1..]);
      assert a == [a[0]] + a[1..] && b == [b[0]] + b[1..];
    }
  }

  lemma {:induction false} StrcmpAntisymmetric(a: seq<byte>, b: seq<byte>)
    ensures Strcmp(a, b) == -Strcmp(b, a)
  {
    if a != [] && b != [] {
      StrcmpAntisymmetric(a[1..], b[1..]);
    }
  }

  lemma {:induction false} StrcmpTransitive(a: seq<byte>, b: seq<byte>, c: seq<byte>)
    requires Strcmp(a, b) <= 0 && Strcmp(b, c) <= 0
    ensures Strcmp(a, c) <= 0
    ensures Strcmp(a, b) < 0 || Strcmp(b, c) < 0 ==> Strcmp(a, c) < 0
  {
    if a != [] && b != [] && c != [] && a[0] == b[0] == c[0] {
      StrcmpTransitive(a[1..], b[1..], c[1..]);
    }
  }

  /** The order of C strings, position by position: a proper prefix comes first, otherwise the first byte that differs
      decides. */
  predicate ComesBefore(a: seq<byte>, b: seq<byte>) {
    || (|a| < |b| && b[..|a|] == a)
    || exists i :: 0 <= i < |a| && i < |b| && a[..i] == b[..i] && a[i] < b[i]
  }

  /** `strcmp` is negative exactly for words in that order. */
  lemma {:induction false} StrcmpIsOrder(a: seq<byte>, b: seq<byte>)
    ensures Strcmp(a, b) < 0 <==> ComesBefore(a, b)
  {
    if a != [] && b != [] {
      if a[0] == b[0] {
        StrcmpIsOrder(a[1..], b[1..]);
        BeforeTails(a, b);
      } else {
        BeforeHeads(a, b);
      }
    }
  }

  lemma BeforeHeads(a: seq<byte>, b: seq<byte>)
    requires a != [] && b != [] && a[0] != b[0]
    ensures ComesBefore(a, b) <==> a[0] < b[0]
  {
    if a[0] < b[0] {
      assert a[..0] == b[..0];
    }
    assert |a| < |b| ==> b[..|a|][0] == b[0];
    forall i | 0 < i < |a| && i < |b| ensures a[..i] != b[..i] {
      assert a[..i][0] == a[0] && b[..i][0] == b[0];
    }
  }

  lemma BeforeTails(a: seq<byte>, b: seq<byte>)
    requires a != [] && b != [] && a[0] == b[0]
    ensures ComesBefore(a, b) <==> ComesBefore(a[1..], b[1..])
  {
    var x, y := a[1..], b[1..];
    assert a == [a[0]] + x && b == [a[0]] + y;
    if |x| < |y| && y[..|x|] == x {
      assert b[..|a|] == [a[0]] + y[..|x|];
    }
    if |a| < |b| && b[..|a|] == a {
      assert y[..|x|] == b[..|a|][1..] == x;
    }
    forall i | 0 <= i < |x| && i < |y| && x[..i] == y[..i] && x[i] < y[i] ensures ComesBefore(a, b) {
      assert a[..i + 1] == [a[0]] + x[..i] == b[..i + 1];
      assert a[i + 1] < b[i + 1];
    }
    forall i | 0 <= i < |a| && i < |b| && a[..i] == b[..i] && a[i] < b[i] ensures ComesBefore(x, y) {
      assert i > 0 && x[..i - 1] == a[..i][1..] == b[..i][1..] == y[..i - 1];
      assert x[i - 1] < y[i - 1];
    }
  }

  /** A word that starts with `p` is never below `p`. */
  lemma {:induction false} PrefixNotBelow(p: seq<byte>, w: seq<byte>)
    requires p <= w
    ensures Strcmp(w, p) >= 0
  {
    if p != [] {
      assert p[1..] <= w[1..];
      PrefixNotBelow(p[1..], w[1..]);
    }
  }

  /** Words with a common prefix are contiguous: once a word above `p` does not start with `p`,
      no later word does. */
  lemma {:induction false} PrefixContiguous(p: seq<byte>, w: seq<byte>, later: seq<byte>)
    requires Strcmp(w, p) > 0 && !(p <= w)
    requires Strcmp(w, later) <= 0
    ensures !(p <= later)
  {
    if p <= later {
      assert w != [] && p != [] && later != [];
      if w[0] == p[0] {
        assert later[0] == p[0] && p[1..] <= later[1..];
        PrefixContiguous(p[1..], w[1..], later[1..]);
      }
    }
  }
}
