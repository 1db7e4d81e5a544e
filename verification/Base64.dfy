/** Base-64 numbers of a dictionary index (alphabet of section 4 of RFC 4648, used as digits). */
module Base64 {
  import opened Bytes

  /** `parseBase64` yields a 32-bit word; a byte of 128 or more indexes outside its 128-entry table. */
  datatype Parsed = Number(n: u32) | OutsideTable

  /** What the parser returns for text that is not a number; a number with this value looks the same. */
  const NOT_A_NUMBER: u32 := 0xFFFF_FFFF

  /** The alphabet, position by position. */
  function DigitChar(d: nat): (c: byte)
    requires d < 64
    ensures c < 128
  {
    if d < 26 then 65 + d
    else if d < 52 then 97 + d - 26
    else if d < 62 then 48 + d - 52
    else if d == 62 then 43
    else 47
  }

  predicate IsDigit(c: byte) {
    65 <= c <= 90 || 97 <= c <= 122 || 48 <= c <= 57 || c == 43 || c == 47
  }

  function Code(c: byte): (d: nat)
    requires IsDigit(c)
    ensures d < 64 && DigitChar(d) == c
  {
    if 65 <= c <= 90 then c - 65
    else if 97 <= c <= 122 then c - 97 + 26
    else if 48 <= c <= 57 then c - 48 + 52
    else if c == 43 then 62
    else 63
  }

  predicate AllDigits(s: seq<byte>) {
    forall i :: 0 <= i < |s| ==> IsDigit(s[i])
  }

  /** The positional base-64 value, unbounded. */
  function Value(s: seq<byte>): nat
    requires AllDigits(s)
  {
    if s == [] then 0 else 64 * Value(s[..|s| - 1]) + Code(s[|s| - 1])
  }

  /** Reading digits from the left: the value so far, or the first character that is not a digit. */
  datatype Reading = Digits(n: nat) | NonDigit(c: byte)

  function Read(s: seq<byte>): Reading {
    if s == [] then Digits(0)
    else
      match Read(s[..|s| - 1])
      case NonDigit(c) => NonDigit(c)
      case Digits(n) =>
        var c := s[|s| - 1];
        if IsDigit(c) then Digits(64 * n + Code(c)) else NonDigit(c)
  }

  /** What the characters of a number field mean to the reader. */
  function Parse(s: seq<byte>): Parsed {
    match Read(s)
    case Digits(n) => Number(n % U32)
    case NonDigit(c) => if c < 128 then Number(NOT_A_NUMBER) else OutsideTable
  }

  predicate Decodes(table: seq<int>) {
    |table| == 128 && forall c: byte {:trigger table[c]} :: c < 128 ==> table[c] == if IsDigit(c) then Code(c) else -1
  }

  /** The lookup table: -1 everywhere, then one entry for each character of the alphabet. */
  method BuildTable() returns (table: array<int>)
    ensures fresh(table) && Decodes(table[..])
  {
    table := new int[128];
    for i := 0 to 128
      invariant forall c :: 0 <= c < i ==> table[c] == -1
    {
      table[i] := -1;
    }
    for i := 0 to 64
      invariant forall c: byte :: c < 128 ==> table[c] == if IsDigit(c) && Code(c) < i then Code(c) else -1
    {
      table[DigitChar(i)] := i;
    }
  }

  method ParseBase64(str: seq<byte>) returns (r: Parsed)
    ensures r == Parse(str)
  {
    var table := BuildTable();
    var n: u32 := 0;
    for k := 0 to |str|
      invariant table.Length == 128 && Decodes(table[..])
      invariant Read(str[..k]).Digits? && n == Read(str[..k]).n % U32
    {
      if str[k] >= 128 {
        ReadStops(str, k);
        return OutsideTable;
      }
      var code := table[str[k]];
      assert code == table[..][str[k]];
      if code < 0 {
        ReadStops(str, k);
        return Number(NOT_A_NUMBER);
      }
      assert str[..k + 1][..k] == str[..k];
      ShiftIn(Read(str[..k]).n, code);
      n := (n * 64 % U32 + code) % U32;
    }
    assert str[..|str|] == str;
    r := Number(n);
  }

  /** The first character that is not a digit decides the outcome. */
  lemma {:induction false} ReadStops(s: seq<byte>, k: nat)
    requires k < |s| && Read(s[..k]).Digits? && !IsDigit(s[k])
    ensures Read(s) == NonDigit(s[k])
  {
    if |s| == k + 1 {
      assert s[..|s| - 1] == s[..k];
    } else {
      var front := s[..|s| - 1];
      assert front[..k] == s[..k];
      ReadStops(front, k);
    }
  }

  /** Every string of digits is read as its positional value. */
  lemma {:induction false} ReadDigits(s: seq<byte>)
    requires AllDigits(s)
    ensures Read(s) == Digits(Value(s))
  {
    if s != [] {
      ReadDigits(s[..|s| - 1]);
    }
  }

  lemma ShiftIn(v: nat, code: nat)
    requires code < 64
    ensures (v % U32 * 64 % U32 + code) % U32 == (64 * v + code) % U32
  {
    var q, m := v / U32, v % U32;
    assert 64 * v + code == 64 * m + code + U32 * (64 * q);
    var q', m' := 64 * m / U32, 64 * m % U32;
    assert 64 * m == U32 * q' + m';
    assert 64 * v + code == m' + code + U32 * (64 * q + q');
  }

  /** The alphabet of section 4 of RFC 4648. */
  const ALPHABET: string := "ABCDEFGHIJKLMNOPQRSTUVWXYZ" + "abcdefghijklmnopqrstuvwxyz" + "0123456789" + "+/"

  /** A digit is the character at its position in the alphabet, and no other character is a digit. */
  lemma DigitIsPosition(c: byte)
    ensures |ALPHABET| == 64 && forall d :: 0 <= d < 64 ==> DigitChar(d) == ALPHABET[d] as int
    ensures IsDigit(c) <==> exists d :: 0 <= d < 64 && ALPHABET[d] as int == c
    ensures IsDigit(c) ==> ALPHABET[Code(c)] as int == c
  {
    forall d | 0 <= d < 64 ensures DigitChar(d) == ALPHABET[d] as int && IsDigit(DigitChar(d)) {
      DigitAt(d);
    }
    if IsDigit(c) {
      DigitAt(Code(c));
    }
  }

  lemma DigitAt(d: nat)
    requires d < 64
    ensures DigitChar(d) == ALPHABET[d] as int
  {
    if d < 26 {
      assert ALPHABET[d] == "ABCDEFGHIJKLMNOPQRSTUVWXYZ"[d];
    } else if d < 52 {
      assert ALPHABET[d] == "abcdefghijklmnopqrstuvwxyz"[d - 26];
    } else if d < 62 {
      assert ALPHABET[d] == "0123456789"[d - 52];
    } else {
      assert ALPHABET[d] == "+/"[d - 62];
    }
  }

  /** The canonical printer: no leading zero digit, and one zero digit for zero. */
  function Print(n: nat): (s: seq<byte>)
    ensures s != [] && AllDigits(s)
  {
    if n < 64 then [DigitChar(n)] else Print(n / 64) + [DigitChar(n % 64)]
  }

  /** The parser inverts the printer on every 32-bit value; the largest one reads as "not a number". */
  lemma {:induction false} ParsePrint(n: u32)
    ensures Parse(Print(n)) == Number(n)
    ensures Parse(Print(n)) == Number(NOT_A_NUMBER) <==> n == U32 - 1
  {
    ValuePrint(n);
    ReadDigits(Print(n));
  }

  lemma {:induction false} ValuePrint(n: nat)
    ensures Value(Print(n)) == n
  {
    var s := Print(n);
    if n >= 64 {
      ValuePrint(n / 64);
      assert s[..|s| - 1] == Print(n / 64);
    }
  }

  /** A proper prefix of a printed number has a smaller value, except that the empty prefix of zero has its value. */
  lemma {:induction false} PrefixOfPrint(n: nat, m: nat)
    requires m < |Print(n)|
    ensures AllDigits(Print(n)[..m])
    ensures if n == 0 then m == 0 && Value(Print(n)[..m]) == 0 else Value(Print(n)[..m]) < n
    decreases n
  {
    var s := Print(n);
    if n < 64 {
      assert s[..m] == [];
    } else {
      var front := Print(n / 64);
      assert s == front + [DigitChar(n % 64)];
      assert s[..m] == front[..m];
      if m == |front| {
        assert front[..m] == front;
        ValuePrint(n / 64);
      } else {
        PrefixOfPrint(n / 64, m);
      }
    }
  }

  /** The front of a printed 32-bit number reads as that number exactly when it is all of it, or the number is zero. */
  lemma ParseFront(n: u32, m: nat)
    requires m <= |Print(n)|
    ensures Parse(Print(n)[..m]).Number?
    ensures Parse(Print(n)[..m]) == Number(n) <==> m == |Print(n)| || n == 0
  {
    hide Parse, Print, Value;
    if m == |Print(n)| {
      assert Print(n)[..m] == Print(n);
      ParsePrint(n);
    } else {
      PrefixOfPrint(n, m);
      ParseDigits(Print(n)[..m]);
    }
  }

  lemma ParseDigits(s: seq<byte>)
    requires AllDigits(s) && Value(s) < U32
    ensures Parse(s) == Number(Value(s))
  {
    ReadDigits(s);
  }

  /** Text that consists of digits up to position `k` but not there: any ASCII character is rejected with the value
      that means "not a number". */
  lemma RejectsNonDigit(s: seq<byte>, k: nat)
    requires k < |s| && AllDigits(s[..k]) && !IsDigit(s[k])
    ensures Parse(s) == if s[k] < 128 then Number(NOT_A_NUMBER) else OutsideTable
  {
    ReadDigits(s[..k]);
    ReadStops(s, k);
  }

  /** The parser yields the positional value modulo 2^32, and leading zero digits do not count. */
  lemma {:induction false} ParseValue(zeros: seq<byte>, s: seq<byte>)
    requires AllDigits(s) && forall i :: 0 <= i < |zeros| ==> zeros[i] == DigitChar(0)
    ensures Parse(zeros + s) == Number(Value(s) % U32)
  {
    LeadingZeros(zeros, s);
    ReadDigits(zeros + s);
  }

  lemma {:induction false} LeadingZeros(zeros: seq<byte>, s: seq<byte>)
    requires AllDigits(s) && forall i :: 0 <= i < |zeros| ==> zeros[i] == DigitChar(0)
    ensures AllDigits(zeros + s) && Value(zeros + s) == Value(s)
    decreases |zeros| + |s|
  {
    var t := zeros + s;
    if s != [] {
      LeadingZeros(zeros, s[..|s| - 1]);
      assert t[..|t| - 1] == zeros + s[..|s| - 1];
    } else if zeros != [] {
      LeadingZeros(zeros[..|zeros| - 1], s);
      assert t == zeros && zeros[..|zeros| - 1] + s == t[..|t| - 1];
    } else {
      assert t == [];
    }
  }
}
