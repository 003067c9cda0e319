/** The test client of the percolation grid: a 10-by-10 grid in which site
    (2, 2) is opened twice and then the whole column 3, row by row. */
module PercolationClient {
  import opened Outcomes
  import opened OpenGraph
  import Grid = Percolation

  /** The sites (1, c) .. (r, c) of column c. */
  ghost function ColumnSites(c: int, r: nat): set<(int, int)> {
    if r == 0 then {} else ColumnSites(c, r - 1) + {(r, c)}
  }

  lemma {:induction false} ColumnSitesMembers(c: int, r: nat, rc: (int, int))
    ensures rc in ColumnSites(c, r) <==> rc.1 == c && 1 <= rc.0 <= r
  {
    if r > 0 {
      ColumnSitesMembers(c, r - 1, rc);
    }
  }

  /** With the sites (1, c) .. (r, c) of a column open, the virtual top
      reaches (r, c) down the column. */
  lemma {:induction false} ColumnReachesTop(n: int, sites: set<(int, int)>, c: int, r: int)
    requires 1 <= r <= n && forall i :: 1 <= i <= r ==> (i, c) in sites
    ensures Reachable(n, sites, Top, Site(r, c))
    decreases r
  {
    if r == 1 {
      EdgeReachable(n, sites, Top, Site(1, c));
    } else {
      ColumnReachesTop(n, sites, c, r - 1);
      EdgeReachable(n, sites, Site(r - 1, c), Site(r, c));
      ReachableTransitive(n, sites, Top, Site(r - 1, c), Site(r, c));
    }
  }

  /** A grid whose column c is open from top to bottom percolates. */
  lemma OpenColumnPercolates(n: int, sites: set<(int, int)>, c: int)
    requires n >= 1 && forall i :: 1 <= i <= n ==> (i, c) in sites
    ensures Reachable(n, sites, Top, Bottom)
  {
    ColumnReachesTop(n, sites, c, n);
    EdgeReachable(n, sites, Site(n, c), Bottom);
    ReachableTransitive(n, sites, Top, Site(n, c), Bottom);
  }

  /** The client's grid: (2, 2) opened twice, then column 3 row by row.
      Site (3, 1) is asked about before the column is opened. */
  method OpenSites() returns (p: Grid.Percolation, open31: Result<bool>)
    ensures fresh(p) && fresh(p.grid) && fresh(p.uf) && p.Valid() && p.n == 10
    ensures p.openSites == {(2, 2)} + ColumnSites(3, 10)
    ensures open31 == Ok(false)
  {
    p := new Grid.Percolation(10);
    var _ := p.Open(2, 2);
    var _ := p.Open(2, 2);
    open31 := p.IsOpen(3, 1);
    for row := 1 to 11
      invariant fresh(p) && fresh(p.grid) && fresh(p.uf) && p.Valid() && p.n == 10
      invariant p.openSites == {(2, 2)} + ColumnSites(3, row - 1)
    {
      var _ := p.Open(row, 3);
    }
  }

  /** In the client's grid the top reaches the bottom down column 3,
      (5, 3) reaches the top, and so does (2, 2) through (2, 3); (1, 1)
      stays blocked. */
  lemma ClientGraph(sites: set<(int, int)>)
    requires sites == {(2, 2)} + ColumnSites(3, 10)
    ensures (2, 2) in sites && (1, 1) !in sites
    ensures Reachable(10, sites, Top, Bottom)
    ensures Reachable(10, sites, Site(5, 3), Top) && Reachable(10, sites, Site(2, 2), Top)
  {
    forall rc
      ensures rc in sites <==> rc == (2, 2) || (rc.1 == 3 && 1 <= rc.0 <= 10)
    {
      ColumnSitesMembers(3, 10, rc);
    }
    OpenColumnPercolates(10, sites, 3);
    ColumnReachesTop(10, sites, 3, 5);
    ReachableSymmetric(10, sites, Top, Site(5, 3));
    ColumnReachesTop(10, sites, 3, 2);
    EdgeReachable(10, sites, Site(2, 2), Site(2, 3));
    ReachableSymmetric(10, sites, Top, Site(2, 3));
    ReachableTransitive(10, sites, Site(2, 2), Site(2, 3), Top);
  }

  /** The answers the client prints: (3, 1) is blocked before the column is
      opened; then the grid percolates, (5, 3) is full, (2, 2) is open and
      full through its right neighbour, and (1, 1) is neither open nor full. */
  method TestClient() returns (open31: Result<bool>, percolates: bool, full53: Result<bool>,
                               open22: Result<bool>, full22: Result<bool>,
                               open11: Result<bool>, full11: Result<bool>)
    ensures open31 == Ok(false) && percolates && full53 == Ok(true)
    ensures open22 == Ok(true) && full22 == Ok(true) && open11 == Ok(false) && full11 == Ok(false)
  {
    var p;
    p, open31 := OpenSites();
    ClientGraph(p.openSites);
    percolates := p.Percolates();
    full53 := p.IsFull(5, 3);
    open22 := p.IsOpen(2, 2);
    full22 := p.IsFull(2, 2);
    open11 := p.IsOpen(1, 1);
    full11 := p.IsFull(1, 1);
  }
}
