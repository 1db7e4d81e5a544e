/** Finding a link near a point: square rings of probes, five pixels apart, from the inside out. */
module LinkSearch {

  /** The link at a point of the page, empty when there is none; looking it up is up to the document view. */
  type Oracle = (int, int) -> string

  // ---- the probes of a ring, in units of the step of 5 pixels ----

  /** The first `m` columns of the top and bottom rows of ring `n`, top and bottom in turn. */
  function Rows(n: int, m: nat): (r: seq<(int, int)>)
    ensures |r| == 2 * m
  {
    if m == 0 then [] else Rows(n, m - 1) + [(m - 1 - n, -n), (m - 1 - n, n)]
  }

  /** The first `m` rows of the right and left columns between them, right and left in turn. */
  function Columns(n: int, m: nat): (r: seq<(int, int)>)
    ensures |r| == 2 * m
  {
    if m == 0 then [] else Columns(n, m - 1) + [(n, m - n), (-n, m - n)]
  }

  lemma {:induction false} RowsAt(n: int, m: nat, t: nat)
    requires t < m
    ensures Rows(n, m)[2 * t] == (t - n, -n) && Rows(n, m)[2 * t + 1] == (t - n, n)
  {
    if t < m - 1 {
      RowsAt(n, m - 1, t);
    }
  }

  lemma {:induction false} ColumnsAt(n: int, m: nat, t: nat)
    requires t < m
    ensures Columns(n, m)[2 * t] == (n, t + 1 - n) && Columns(n, m)[2 * t + 1] == (-n, t + 1 - n)
  {
    if t < m - 1 {
      ColumnsAt(n, m - 1, t);
    }
  }

  lemma {:induction false} RowsExtend(n: int, m: nat, k: nat)
    requires m <= k
    ensures Rows(n, m) <= Rows(n, k)
  {
    if m < k {
      RowsExtend(n, m, k - 1);
    }
  }

  lemma {:induction false} ColumnsExtend(n: int, m: nat, k: nat)
    requires m <= k
    ensures Columns(n, m) <= Columns(n, k)
  {
    if m < k {
      ColumnsExtend(n, m, k - 1);
    }
  }

  /** Ring `n`. */
  function Ring(n: nat): seq<(int, int)> {
    if n == 0 then [(0, 0)] else Rows(n, 2 * n + 1) + Columns(n, 2 * n - 1)
  }

  function Abs(a: int): nat { if a < 0 then -a else a }

  /** Chebyshev distance from the middle. */
  function Distance(p: (int, int)): nat {
    if Abs(p.0) < Abs(p.1) then Abs(p.1) else Abs(p.0)
  }

  /** Where a lattice point of the ring `n` stands in the row of probes. */
  function Place(n: int, p: (int, int)): nat
    requires Distance(p) == n > 0
  {
    if p.1 == -n then 2 * (p.0 + n)
    else if p.1 == n then 2 * (p.0 + n) + 1
    else if p.0 == n then 2 * (2 * n + 1) + 2 * (p.1 + n - 1)
    else 2 * (2 * n + 1) + 2 * (p.1 + n - 1) + 1
  }

  lemma RingPlace(n: int, p: (int, int))
    requires Distance(p) == n > 0
    ensures Place(n, p) < |Ring(n)| && Ring(n)[Place(n, p)] == p
  {
    if p.1 == -n || p.1 == n {
      RowsAt(n, 2 * n + 1, p.0 + n);
    } else {
      ColumnsAt(n, 2 * n - 1, p.1 + n - 1);
    }
  }

  lemma RingAt(n: int, k: nat)
    requires n > 0 && k < |Ring(n)|
    ensures Distance(Ring(n)[k]) == n && Place(n, Ring(n)[k]) == k
  {
    var rows, columns := Rows(n, 2 * n + 1), Columns(n, 2 * n - 1);
    if k < |rows| {
      RowsAt(n, 2 * n + 1, k / 2);
      assert Ring(n)[k] == rows[k];
    } else {
      ColumnsAt(n, 2 * n - 1, (k - |rows|) / 2);
      assert Ring(n)[k] == columns[k - |rows|];
    }
  }

  /** The probes of ring `n` are exactly the lattice points at distance `n`, each once: 8n of them, or one. */
  lemma RingIsSquare(n: nat)
    ensures |Ring(n)| == if n == 0 then 1 else 8 * n
    ensures forall p: (int, int) :: p in Ring(n) <==> Distance(p) == n
    ensures forall a, b :: 0 <= a < b < |Ring(n)| ==> Ring(n)[a] != Ring(n)[b]
  {
    if n > 0 {
      forall p: (int, int) ensures p in Ring(n) <==> Distance(p) == n {
        if Distance(p) == n {
          RingPlace(n, p);
        }
        if p in Ring(n) {
          var k :| 0 <= k < |Ring(n)| && Ring(n)[k] == p;
          RingAt(n, k);
        }
      }
      forall a, b | 0 <= a < b < |Ring(n)| ensures Ring(n)[a] != Ring(n)[b] {
        RingAt(n, a);
        RingAt(n, b);
      }
    }
  }

  // ---- the search ----

  function At(link: Oracle, x: int, y: int, p: (int, int)): string {
    link(x + 5 * p.0, y + 5 * p.1)
  }

  /** The first link along a row of probes. */
  function First(link: Oracle, x: int, y: int, probes: seq<(int, int)>): string {
    if probes == [] then ""
    else if At(link, x, y, probes[0]) != "" then At(link, x, y, probes[0])
    else First(link, x, y, probes[1..])
  }

  lemma {:induction false} FirstConcat(link: Oracle, x: int, y: int, a: seq<(int, int)>, b: seq<(int, int)>)
    ensures First(link, x, y, a + b) == if First(link, x, y, a) != "" then First(link, x, y, a) else First(link, x, y, b)
  {
    if a == [] {
      assert a + b == b;
    } else {
      FirstConcat(link, x, y, a[1..], b);
      assert (a + b)[1..] == a[1..] + b;
    }
  }

  lemma NoProbes(link: Oracle, x: int, y: int)
    ensures First(link, x, y, []) == ""
  {
  }

  lemma NextPair(link: Oracle, x: int, y: int, probes: seq<(int, int)>, p: (int, int), q: (int, int))
    ensures First(link, x, y, probes + [p, q])
            == if First(link, x, y, probes) != "" then First(link, x, y, probes)
               else if At(link, x, y, p) != "" then At(link, x, y, p) else At(link, x, y, q)
  {
    FirstConcat(link, x, y, probes, [p, q]);
    assert [p, q][1..] == [q] && [q][1..] == [];
    assert First(link, x, y, []) == "";
    assert First(link, x, y, [q]) == At(link, x, y, q);
  }

  /** Without a link on any probe there is no first one; otherwise the first one is the link of some probe. */
  lemma {:induction false} FirstFinds(link: Oracle, x: int, y: int, probes: seq<(int, int)>)
    ensures First(link, x, y, probes) == "" <==> forall p :: p in probes ==> At(link, x, y, p) == ""
    ensures First(link, x, y, probes) != "" ==> exists p :: p in probes && At(link, x, y, p) == First(link, x, y, probes)
  {
    if probes != [] {
      FirstFinds(link, x, y, probes[1..]);
      assert forall p :: p in probes <==> p == probes[0] || p in probes[1..];
    }
  }

  /** The number of the ring for radius `r`: C division, which truncates towards zero. */
  function RingNumber(r: int): int {
    if r >= 0 then r / 5 else -((-r) / 5)
  }

  /** `getLink` with a radius; a radius of -5 or less has no ring. */
  function RingLink(link: Oracle, x: int, y: int, r: int): string {
    var n := RingNumber(r);
    if n < 0 then "" else First(link, x, y, Ring(n))
  }

  /** The point of the page where probe `k` of ring `n` lands: along the top and the bottom, left to right and in turn, then
      along the right and the left, without the corners, downwards and in turn. */
  function PagePoint(x: int, y: int, n: nat, k: nat): (int, int) {
    if k < 4 * n + 2 then (x + 5 * (k / 2 - n), if k % 2 == 0 then y - 5 * n else y + 5 * n)
    else
      var j := k - (4 * n + 2);
      (if j % 2 == 0 then x + 5 * n else x - 5 * n, y + 5 * (j / 2 + 1 - n))
  }

  /** The link at a point of the page. */
  function LinkAt(link: Oracle, p: (int, int)): string { link(p.0, p.1) }

  /** `found` is the link of the first point along ring `n` that has one. */
  ghost predicate FirstAlong(link: Oracle, x: int, y: int, n: nat, found: string) {
    && (found == "" <==> forall k :: 0 <= k < 8 * n ==> LinkAt(link, PagePoint(x, y, n, k)) == "")
    && (found != "" ==> exists k :: 0 <= k < 8 * n && LinkAt(link, PagePoint(x, y, n, k)) == found
                          && forall j :: 0 <= j < k ==> LinkAt(link, PagePoint(x, y, n, j)) == "")
  }

  lemma ProbeLands(link: Oracle, x: int, y: int, n: nat, k: nat)
    requires 0 < n && k < 8 * n
    ensures |Ring(n)| == 8 * n && At(link, x, y, Ring(n)[k]) == LinkAt(link, PagePoint(x, y, n, k))
  {
    hide Rows, Columns;
    if k < 4 * n + 2 {
      RowsAt(n, 2 * n + 1, k / 2);
      assert Ring(n)[k] == Rows(n, 2 * n + 1)[k];
      assert k == 2 * (k / 2) + k % 2;
    } else {
      var j := k - (4 * n + 2);
      ColumnsAt(n, 2 * n - 1, j / 2);
      assert Ring(n)[k] == Columns(n, 2 * n - 1)[j];
      assert j == 2 * (j / 2) + j % 2;
    }
  }

  lemma {:induction false} FirstIndex(link: Oracle, x: int, y: int, probes: seq<(int, int)>) returns (k: nat)
    ensures k <= |probes| && forall j :: 0 <= j < k ==> At(link, x, y, probes[j]) == ""
    ensures if k == |probes| then First(link, x, y, probes) == ""
            else First(link, x, y, probes) == At(link, x, y, probes[k]) != ""
  {
    k := 0;
    if probes != [] && At(link, x, y, probes[0]) == "" {
      var i := FirstIndex(link, x, y, probes[1..]);
      k := i + 1;
      assert forall j :: 0 < j < |probes| ==> probes[j] == probes[1..][j - 1];
    }
  }

  lemma RingOnPage(link: Oracle, x: int, y: int, n: nat)
    requires n > 0
    ensures FirstAlong(link, x, y, n, First(link, x, y, Ring(n)))
  {
    hide At, PagePoint, LinkAt, Ring, First;
    RingIsSquare(n);
    var k := FirstIndex(link, x, y, Ring(n));
    forall j | 0 <= j < 8 * n ensures At(link, x, y, Ring(n)[j]) == LinkAt(link, PagePoint(x, y, n, j)) {
      ProbeLands(link, x, y, n, j);
    }
  }

  method GetLink(link: Oracle, x: int, y: int, radius: int) returns (found: string)
    ensures found == RingLink(link, x, y, radius)
    ensures radius >= 5 ==> FirstAlong(link, x, y, radius / 5, found)
    ensures -5 < radius < 5 ==> found == link(x, y)
    ensures radius <= -5 ==> found == ""
  {
    hide FirstAlong;
    if radius >= 5 {
      RingOnPage(link, x, y, radius / 5);
    }
    var n := RingNumber(radius);
    var r := n * 5;
    if r == 0 {
      assert [(0, 0)][1..] == [] && First(link, x, y, []) == "";
      return link(x, y);
    }
    if n > 0 {
      FirstConcat(link, x, y, Rows(n, 2 * n + 1), Columns(n, 2 * n - 1));
    }
    found := ProbeRows(link, x, y, n, r);
    if found == "" {
      found := ProbeColumns(link, x, y, n, r);
    }
  }

  /** The first loop: along the top and the bottom. */
  method ProbeRows(link: Oracle, x: int, y: int, n: int, r: int) returns (found: string)
    requires r == 5 * n
    ensures found == if n < 0 then "" else First(link, x, y, Rows(n, 2 * n + 1))
  {
    hide First;
    assert First(link, x, y, Rows(n, 0)) == "" by { NoProbes(link, x, y); }
    var xx := -r;
    ghost var m := 0;
    while xx <= r
      invariant n >= 0 ==> xx == -r + 5 * m && m <= 2 * n + 1 && First(link, x, y, Rows(n, m)) == ""
      invariant n < 0 ==> xx == -r && m == 0
      decreases r - xx
    {
      NextPair(link, x, y, Rows(n, m), (m - n, -n), (m - n, n));
      found := link(x + xx, y - r);
      if found == "" {
        found := link(x + xx, y + r);
      }
      if found != "" {
        RowsExtend(n, m + 1, 2 * n + 1);
        FirstSettled(link, x, y, Rows(n, m + 1), Rows(n, 2 * n + 1));
        return;
      }
      m := m + 1;
      xx := xx + 5;
    }
    return "";
  }

  /** The second loop: along the right and the left, without the corners. */
  method ProbeColumns(link: Oracle, x: int, y: int, n: int, r: int) returns (found: string)
    requires r == 5 * n && n != 0
    ensures found == if n < 0 then "" else First(link, x, y, Columns(n, 2 * n - 1))
  {
    hide First;
    assert First(link, x, y, Columns(n, 0)) == "" by { NoProbes(link, x, y); }
    var yy := -r + 5;
    ghost var m := 0;
    while yy <= r - 5
      invariant n > 0 ==> yy == -r + 5 + 5 * m && m <= 2 * n - 1 && First(link, x, y, Columns(n, m)) == ""
      invariant n < 0 ==> yy == -r + 5 && m == 0
      decreases r - yy
    {
      NextPair(link, x, y, Columns(n, m), (n, m + 1 - n), (-n, m + 1 - n));
      found := link(x + r, y + yy);
      if found == "" {
        found := link(x - r, y + yy);
      }
      if found != "" {
        ColumnsExtend(n, m + 1, 2 * n - 1);
        FirstSettled(link, x, y, Columns(n, m + 1), Columns(n, 2 * n - 1));
        return;
      }
      m := m + 1;
      yy := yy + 5;
    }
    return "";
  }

  /** Once a link is found, further probes do not matter. */
  lemma FirstSettled(link: Oracle, x: int, y: int, a: seq<(int, int)>, all: seq<(int, int)>)
    requires a <= all && First(link, x, y, a) != ""
    ensures First(link, x, y, all) == First(link, x, y, a)
  {
    assert all == a + all[|a|..];
    FirstConcat(link, x, y, a, all[|a|..]);
  }

  /** The link of the nearest of the rings `n` to `last` that has one. */
  function Nearest(link: Oracle, x: int, y: int, n: nat, last: int): string
    decreases last - n
  {
    if n > last then ""
    else if First(link, x, y, Ring(n)) != "" then First(link, x, y, Ring(n))
    else Nearest(link, x, y, n + 1, last)
  }

  /** `checkLinkInternal`: rings at radius 0, 5, 10, ... up to `delta`. */
  method CheckLink(link: Oracle, x: int, y: int, delta: int) returns (found: string)
    ensures found == Nearest(link, x, y, 0, if delta < 0 then -1 else delta / 5)
    ensures NearestOnPage(link, x, y, 5 * (delta / 5), found)
  {
    hide First, Ring, FirstAlong, NearestOnPage;
    SearchOnPage(link, x, y, delta);
    var r := 0;
    ghost var n, last := 0, if delta < 0 then -1 else delta / 5;
    while r <= delta
      invariant r == 5 * n && 0 <= n <= last + 1
      invariant Nearest(link, x, y, n, last) == Nearest(link, x, y, 0, last)
      decreases delta - r
    {
      found := GetLink(link, x, y, r);
      if found != "" {
        return;
      }
      n := n + 1;
      r := r + 5;
    }
    return "";
  }

  /** What a search finds: nothing exactly when no point of the square grid has a link; otherwise the link of a point
      such that no nearer point has one. */
  ghost predicate NearestLink(link: Oracle, x: int, y: int, n: nat, last: int, found: string) {
    && (found == "" <==> forall p: (int, int) :: n <= Distance(p) <= last ==> At(link, x, y, p) == "")
    && (found != "" ==> exists p: (int, int) :: n <= Distance(p) <= last && At(link, x, y, p) == found
                          && forall q: (int, int) :: n <= Distance(q) < Distance(p) ==> At(link, x, y, q) == "")
  }

  lemma NearerRing(link: Oracle, x: int, y: int, n: nat, last: int, found: string)
    requires n <= last && NearestLink(link, x, y, n + 1, last, found)
    requires forall p: (int, int) :: Distance(p) == n ==> At(link, x, y, p) == ""
    ensures NearestLink(link, x, y, n, last, found)
  {
    hide Distance, At;
    if found != "" {
      var p: (int, int) :| n + 1 <= Distance(p) <= last && At(link, x, y, p) == found
                           && forall q: (int, int) :: n + 1 <= Distance(q) < Distance(p) ==> At(link, x, y, q) == "";
      assert forall q: (int, int) :: n <= Distance(q) < Distance(p) ==> At(link, x, y, q) == "";
    }
  }

  /** Main result: the search covers the whole grid of (2N+1) by (2N+1) points, nearest rings first. */
  lemma {:induction false} SearchIsNearest(link: Oracle, x: int, y: int, n: nat, last: int)
    ensures NearestLink(link, x, y, n, last, Nearest(link, x, y, n, last))
    decreases last - n
  {
    hide First, Ring, Distance, At;
    if n <= last {
      var ring := First(link, x, y, Ring(n));
      RingIsSquare(n);
      FirstFinds(link, x, y, Ring(n));
      if ring == "" {
        SearchIsNearest(link, x, y, n + 1, last);
        assert forall p: (int, int) :: Distance(p) == n ==> p in Ring(n);
        NearerRing(link, x, y, n, last, Nearest(link, x, y, n + 1, last));
      } else {
        var p :| p in Ring(n) && At(link, x, y, p) == ring;
        assert Distance(p) == n;
      }
    }
  }

  // ---- on the page ----

  /** A point of the page at multiples of five pixels from the middle. */
  predicate OnGrid(x: int, y: int, u: int, v: int) {
    (u - x) % 5 == 0 && (v - y) % 5 == 0
  }

  function PageDistance(x: int, y: int, u: int, v: int): nat {
    if Abs(u - x) < Abs(v - y) then Abs(v - y) else Abs(u - x)
  }

  /** What a search up to `reach` pixels away finds: nothing exactly when no point of the grid has a link; otherwise the link
      of a point such that no nearer one has any. */
  ghost predicate NearestOnPage(link: Oracle, x: int, y: int, reach: int, found: string) {
    && (found == "" <==> forall u, v :: OnGrid(x, y, u, v) && PageDistance(x, y, u, v) <= reach ==> link(u, v) == "")
    && (found != "" ==>
          exists u, v ::
            && OnGrid(x, y, u, v) && PageDistance(x, y, u, v) <= reach && link(u, v) == found
            && forall p, q :: OnGrid(x, y, p, q) && PageDistance(x, y, p, q) < PageDistance(x, y, u, v) ==> link(p, q) == "")
  }

  /** A lattice point as a point of the page, and back. */
  lemma ToPage(link: Oracle, x: int, y: int, p: (int, int))
    ensures var u, v := x + 5 * p.0, y + 5 * p.1;
            OnGrid(x, y, u, v) && PageDistance(x, y, u, v) == 5 * Distance(p) && link(u, v) == At(link, x, y, p)
  {
  }

  lemma FromPage(link: Oracle, x: int, y: int, u: int, v: int)
    requires OnGrid(x, y, u, v)
    ensures var p := ((u - x) / 5, (v - y) / 5);
            x + 5 * p.0 == u && y + 5 * p.1 == v && 5 * Distance(p) == PageDistance(x, y, u, v)
            && At(link, x, y, p) == link(u, v)
  {
  }

  lemma SearchOnPage(link: Oracle, x: int, y: int, delta: int)
    ensures NearestOnPage(link, x, y, 5 * (delta / 5), Nearest(link, x, y, 0, if delta < 0 then -1 else delta / 5))
  {
    hide At, Distance, OnGrid, PageDistance, Nearest;
    var last := if delta < 0 then -1 else delta / 5;
    var found := Nearest(link, x, y, 0, last);
    SearchIsNearest(link, x, y, 0, last);
    forall u, v | OnGrid(x, y, u, v)
      ensures exists p: (int, int) :: 5 * Distance(p) == PageDistance(x, y, u, v) && At(link, x, y, p) == link(u, v)
    {
      FromPage(link, x, y, u, v);
    }
    if found == "" {
      forall u, v | OnGrid(x, y, u, v) && PageDistance(x, y, u, v) <= 5 * (delta / 5) ensures link(u, v) == "" {
        FromPage(link, x, y, u, v);
        assert At(link, x, y, ((u - x) / 5, (v - y) / 5)) == "";
      }
    } else {
      var p: (int, int) :| 0 <= Distance(p) <= last && At(link, x, y, p) == found
                           && forall q: (int, int) :: 0 <= Distance(q) < Distance(p) ==> At(link, x, y, q) == "";
      ToPage(link, x, y, p);
      var u, v := x + 5 * p.0, y + 5 * p.1;
      assert link(u, v) == found;
      forall s, t | OnGrid(x, y, s, t) && PageDistance(x, y, s, t) < PageDistance(x, y, u, v) ensures link(s, t) == "" {
        FromPage(link, x, y, s, t);
        assert At(link, x, y, ((s - x) / 5, (t - y) / 5)) == "";
      }
    }
  }
}
