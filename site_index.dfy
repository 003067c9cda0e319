/** The numbering of the sites of an n-by-n grid: site (row, col), both
    counted from 1, is kept in slot (row - 1) * n + (col - 1) of an array of
    n * n slots, and a slot number s is turned back into the site
    (s / n + 1, s % n + 1). */
module SiteIndex {

  /** (row, col) is a site of the n-by-n grid. */
  predicate InGrid(n: int, row: int, col: int) {
    1 <= row <= n && 1 <= col <= n
  }

  /** Euclidean division is unique: q * n + m with 0 <= m < n divides into q and m. */
  lemma DivModUnique(n: int, q: int, m: int)
    requires n > 0 && 0 <= m < n
    ensures (q * n + m) / n == q && (q * n + m) % n == m
  {
    var a := q * n + m;
    var d := a / n - q;
    assert n * d == m - a % n;
  }

  lemma MulBelow(n: int, q: int)
    requires 0 <= q < n
    ensures 0 <= q * n <= n * n - n
  {
    var d := n - 1 - q;
    MulNonNegative(q, n);
    MulNonNegative(d, n);
    assert n * n - n == q * n + d * n;
  }

  lemma MulNonNegative(a: int, b: int)
    requires a >= 0 && b >= 0
    ensures a * b >= 0
  {
  }

  /** The slot of site (row, col). */
  function Index(n: int, row: int, col: int): (i: int)
    requires InGrid(n, row, col)
    ensures 0 <= i < n * n
  {
    MulBelow(n, row - 1);
    (row - 1) * n + (col - 1)
  }

  /** The site that slot `site` stands for. */
  function Decode(n: int, site: int): (rc: (int, int))
    requires n > 0
    ensures 0 <= site < n * n ==> InGrid(n, rc.0, rc.1) && Index(n, rc.0, rc.1) == site
  {
    if 0 <= site < n * n then
      DecodeInRange(n, site);
      (site / n + 1, site % n + 1)
    else
      (site / n + 1, site % n + 1)
  }

  lemma DecodeInRange(n: int, site: int)
    requires n > 0 && 0 <= site < n * n
    ensures 0 <= site / n < n && 0 <= site % n < n
    ensures (site / n) * n + site % n == site
  {
    var q := site / n;
    assert site == n * q + site % n;
  }

  /** Decoding the slot of a site gives the site back: together with the
      ensures of Decode, the numbering is a bijection between the sites and
      the slots [0, n * n). */
  lemma DecodeIndex(n: int, row: int, col: int)
    requires InGrid(n, row, col)
    ensures Decode(n, Index(n, row, col)) == (row, col)
  {
    DivModUnique(n, row - 1, col - 1);
  }

  /** Two different sites never share a slot. */
  lemma IndexInjective(n: int, r1: int, c1: int, r2: int, c2: int)
    requires InGrid(n, r1, c1) && InGrid(n, r2, c2)
    ensures Index(n, r1, c1) == Index(n, r2, c2) <==> (r1, c1) == (r2, c2)
  {
    DecodeIndex(n, r1, c1);
    DecodeIndex(n, r2, c2);
  }

  /** The slots of the 4-neighbours of a site. */
  lemma NeighbourIndex(n: int, row: int, col: int)
    requires InGrid(n, row, col)
    ensures col > 1 ==> Index(n, row, col - 1) == Index(n, row, col) - 1
    ensures col < n ==> Index(n, row, col + 1) == Index(n, row, col) + 1
    ensures row < n ==> Index(n, row + 1, col) == Index(n, row, col) + n
    ensures row > 1 ==> Index(n, row - 1, col) == Index(n, row, col) - n
  {
  }
}
