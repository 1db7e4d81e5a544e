/** Multiples and quotients of a variable divisor, by recursion, so that proofs about them stay linear. */
module Division {

  function Min(a: nat, b: nat): nat { if a < b then a else b }

  /** `n * d`. */
  function Multiple(n: nat, d: nat): nat {
    if n == 0 then 0 else Multiple(n - 1, d) + d
  }

  /** `i / d`. */
  function Quotient(i: nat, d: nat): (q: nat)
    requires d > 0
    ensures Multiple(q, d) <= i < Multiple(q, d) + d
  {
    if i < d then 0 else 1 + Quotient(i - d, d)
  }

  /** `i % d`. */
  function Remainder(i: nat, d: nat): (r: nat)
    requires d > 0
    ensures r < d
  {
    i - Multiple(Quotient(i, d), d)
  }

  lemma {:induction false} MultipleIsProduct(n: nat, d: nat)
    ensures Multiple(n, d) == n * d
  {
    if n > 0 {
      MultipleIsProduct(n - 1, d);
    }
  }

  lemma MulMono(a: int, b: int, c: nat)
    requires a <= b
    ensures a * c <= b * c
  {
  }

  lemma {:induction false} MultipleMono(a: nat, b: nat, d: nat)
    requires a <= b
    ensures Multiple(a, d) <= Multiple(b, d)
    ensures a < b ==> Multiple(a, d) + d <= Multiple(b, d)
    decreases b
  {
    if a < b {
      MultipleMono(a, b - 1, d);
    }
  }

  /** The quotient is determined by its bounds. */
  lemma QuotientUnique(i: nat, d: nat, q: nat)
    requires d > 0 && Multiple(q, d) <= i < Multiple(q, d) + d
    ensures Quotient(i, d) == q
  {
    var p := Quotient(i, d);
    if p < q {
      MultipleMono(p, q, d);
    } else if q < p {
      MultipleMono(q, p, d);
    }
  }

  lemma Coordinates(n: nat, r: nat, d: nat)
    requires r < d
    ensures Quotient(Multiple(n, d) + r, d) == n && Remainder(Multiple(n, d) + r, d) == r
  {
    QuotientUnique(Multiple(n, d) + r, d, n);
  }

  lemma QuotientMono(a: nat, b: nat, d: nat)
    requires d > 0 && a <= b
    ensures Quotient(a, d) <= Quotient(b, d)
  {
    if Quotient(b, d) < Quotient(a, d) {
      MultipleMono(Quotient(b, d), Quotient(a, d), d);
    }
  }

  /** These are the quotient and the remainder of the division operators. */
  lemma QuotientIsDiv(i: nat, d: nat)
    requires d > 0
    ensures Quotient(i, d) == i / d && Remainder(i, d) == i % d
  {
    var q := i / d;
    MultipleIsProduct(q, d);
    assert i == q * d + i % d;
    QuotientUnique(i, d, q);
  }
}
