/** The graph whose connectivity the percolation grid tracks. Its vertices
    are the sites of the n-by-n grid and two virtual nodes, `Top` and
    `Bottom`. Two open sites are joined when they are 4-neighbours, every
    open site of row 1 is joined to `Top` and every open site of row n to
    `Bottom`. Blocked sites have no edges. */
module OpenGraph {
  import opened SiteIndex

  datatype Node = Site(row: int, col: int) | Top | Bottom

  /** u is a vertex of the graph of the n-by-n grid. */
  ghost predicate IsNode(n: int, u: Node) {
    u.Site? ==> InGrid(n, u.row, u.col)
  }

  /** Every open site lies in the grid. */
  ghost predicate WithinGrid(n: int, sites: set<(int, int)>) {
    forall rc :: rc in sites ==> InGrid(n, rc.0, rc.1)
  }

  /** The slots of a set of sites of the grid. */
  ghost function Slots(n: int, sites: set<(int, int)>): set<int>
    requires WithinGrid(n, sites)
  {
    set rc | rc in sites :: Index(n, rc.0, rc.1)
  }

  lemma {:induction false} SlotsCard(n: int, sites: set<(int, int)>)
    requires WithinGrid(n, sites)
    ensures |Slots(n, sites)| == |sites|
    decreases sites
  {
    if sites != {} {
      var rc :| rc in sites;
      var rest := sites - {rc};
      SlotsCard(n, rest);
      assert Slots(n, sites) == Slots(n, rest) + {Index(n, rc.0, rc.1)};
      if Index(n, rc.0, rc.1) in Slots(n, rest) {
        var other :| other in rest && Index(n, other.0, other.1) == Index(n, rc.0, rc.1);
        IndexInjective(n, other.0, other.1, rc.0, rc.1);
        assert false;
      }
    }
  }

  lemma SubsetCard(a: set<int>, b: set<int>)
    requires a <= b
    ensures |a| <= |b|
  {
    assert b * a == a;
    assert |b - a| == |b| - |b * a|;
  }

  /** The slots 0 .. m-1. */
  ghost function Range(m: nat): set<int> {
    if m == 0 then {} else Range(m - 1) + {m - 1}
  }

  lemma {:induction false} RangeFacts(m: nat)
    ensures |Range(m)| == m
    ensures forall i :: i in Range(m) <==> 0 <= i < m
  {
    if m > 0 {
      RangeFacts(m - 1);
    }
  }

  /** An n-by-n grid has at most n * n open sites. */
  lemma WithinGridBound(n: int, sites: set<(int, int)>)
    requires n > 0 && WithinGrid(n, sites)
    ensures |sites| <= n * n
  {
    SlotsCard(n, sites);
    RangeFacts(n * n);
    SubsetCard(Slots(n, sites), Range(n * n));
  }

  /** (r1, c1) and (r2, c2) are 4-neighbours. */
  predicate Adjacent(r1: int, c1: int, r2: int, c2: int) {
    (r1 == r2 && (c1 == c2 + 1 || c2 == c1 + 1)) || (c1 == c2 && (r1 == r2 + 1 || r2 == r1 + 1))
  }

  ghost predicate IsOpenSite(sites: set<(int, int)>, u: Node) {
    u.Site? && (u.row, u.col) in sites
  }

  /** The edges of the graph when `sites` are the open sites. */
  ghost predicate Edge(n: int, sites: set<(int, int)>, u: Node, v: Node) {
    (IsOpenSite(sites, u) && IsOpenSite(sites, v) && Adjacent(u.row, u.col, v.row, v.col))
    || (u == Top && IsOpenSite(sites, v) && v.row == 1)
    || (v == Top && IsOpenSite(sites, u) && u.row == 1)
    || (u == Bottom && IsOpenSite(sites, v) && v.row == n)
    || (v == Bottom && IsOpenSite(sites, u) && u.row == n)
  }

  ghost predicate IsPath(n: int, sites: set<(int, int)>, p: seq<Node>) {
    |p| > 0 && forall i :: 0 <= i < |p| - 1 ==> Edge(n, sites, p[i], p[i + 1])
  }

  /** v can be reached from u along edges of the graph. */
  ghost predicate Reachable(n: int, sites: set<(int, int)>, u: Node, v: Node) {
    exists p :: IsPath(n, sites, p) && p[0] == u && p[|p| - 1] == v
  }

  lemma FirstEdge(n: int, sites: set<(int, int)>, p: seq<Node>)
    requires IsPath(n, sites, p) && |p| > 1
    ensures Edge(n, sites, p[0], p[1])
  {
  }

  lemma ReachableRefl(n: int, sites: set<(int, int)>, u: Node)
    ensures Reachable(n, sites, u, u)
  {
    assert IsPath(n, sites, [u]);
  }

  lemma EdgeReachable(n: int, sites: set<(int, int)>, u: Node, v: Node)
    requires Edge(n, sites, u, v)
    ensures Reachable(n, sites, u, v)
  {
    assert IsPath(n, sites, [u, v]);
  }

  lemma ReachableSymmetric(n: int, sites: set<(int, int)>, u: Node, v: Node)
    requires Reachable(n, sites, u, v)
    ensures Reachable(n, sites, v, u)
  {
    var p :| IsPath(n, sites, p) && p[0] == u && p[|p| - 1] == v;
    var q := seq(|p|, i requires 0 <= i < |p| => p[|p| - 1 - i]);
    forall i | 0 <= i < |q| - 1
      ensures Edge(n, sites, q[i], q[i + 1])
    {
      assert Edge(n, sites, p[|p| - 2 - i], p[|p| - 1 - i]);
    }
    assert IsPath(n, sites, q) && q[0] == v && q[|q| - 1] == u;
  }

  lemma ReachableTransitive(n: int, sites: set<(int, int)>, u: Node, v: Node, w: Node)
    requires Reachable(n, sites, u, v) && Reachable(n, sites, v, w)
    ensures Reachable(n, sites, u, w)
  {
    var p :| IsPath(n, sites, p) && p[0] == u && p[|p| - 1] == v;
    var q :| IsPath(n, sites, q) && q[0] == v && q[|q| - 1] == w;
    var pq := p + q[1..];
    forall i | 0 <= i < |pq| - 1
      ensures Edge(n, sites, pq[i], pq[i + 1])
    {
      if i < |p| - 1 {
        assert pq[i] == p[i] && pq[i + 1] == p[i + 1];
      } else {
        assert pq[i] == q[i - |p| + 1] && pq[i + 1] == q[i - |p| + 2];
      }
    }
    assert IsPath(n, sites, pq) && pq[0] == u && pq[|pq| - 1] == w;
  }

  /** Opening more sites never disconnects anything: the graph only gains edges. */
  lemma ReachableMonotone(n: int, sites: set<(int, int)>, more: set<(int, int)>, u: Node, v: Node)
    requires sites <= more && Reachable(n, sites, u, v)
    ensures Reachable(n, more, u, v)
  {
    var p :| IsPath(n, sites, p) && p[0] == u && p[|p| - 1] == v;
    forall i | 0 <= i < |p| - 1
      ensures Edge(n, more, p[i], p[i + 1])
    {
      assert Edge(n, sites, p[i], p[i + 1]);
    }
    assert IsPath(n, more, p);
  }

  /** A blocked site reaches nothing but itself. */
  lemma BlockedSiteIsolated(n: int, sites: set<(int, int)>, r: int, c: int, v: Node)
    requires (r, c) !in sites && Reachable(n, sites, Site(r, c), v)
    ensures v == Site(r, c)
  {
    var p :| IsPath(n, sites, p) && p[0] == Site(r, c) && p[|p| - 1] == v;
    if |p| > 1 {
      FirstEdge(n, sites, p);
      assert false;
    }
  }

  /** The nodes that a newly opened site (r, c) gets an edge to: `Top` in
      row 1, `Bottom` in row n, and its open 4-neighbours. */
  ghost function Neighbours(n: int, sites: set<(int, int)>, r: int, c: int): seq<Node> {
    var virtual := AddIf(AddIf([], r == 1, Top), r == n, Bottom);
    var left := AddIf(virtual, c > 1 && (r, c - 1) in sites, Site(r, c - 1));
    var right := AddIf(left, c < n && (r, c + 1) in sites, Site(r, c + 1));
    var below := AddIf(right, r < n && (r + 1, c) in sites, Site(r + 1, c));
    AddIf(below, r > 1 && (r - 1, c) in sites, Site(r - 1, c))
  }

  /** J, followed by a when cond holds. */
  ghost function AddIf(J: seq<Node>, cond: bool, a: Node): seq<Node> {
    if cond then J + [a] else J
  }

  /** a is a node the site (r, c) is joined to once it is open: `Top` in
      row 1, `Bottom` in row n, and every open 4-neighbour. */
  ghost predicate NeighbourOf(n: int, sites: set<(int, int)>, r: int, c: int, a: Node) {
    (a == Top && r == 1) || (a == Bottom && r == n) || (IsOpenSite(sites, a) && Adjacent(r, c, a.row, a.col))
  }

  /** Neighbours lists exactly the nodes NeighbourOf describes. */
  lemma NeighboursMembers(n: int, sites: set<(int, int)>, r: int, c: int, a: Node)
    requires WithinGrid(n, sites) && InGrid(n, r, c)
    ensures a in Neighbours(n, sites, r, c) <==> NeighbourOf(n, sites, r, c, a)
  {
    if IsOpenSite(sites, a) {
      assert InGrid(n, a.row, a.col);
    }
  }

  /** After opening the blocked site (r, c), its edges go exactly to its Neighbours. */
  lemma NewSiteEdges(n: int, sites: set<(int, int)>, r: int, c: int, a: Node)
    requires WithinGrid(n, sites) && InGrid(n, r, c) && (r, c) !in sites
    ensures Edge(n, sites + {(r, c)}, Site(r, c), a) <==> a in Neighbours(n, sites, r, c)
    ensures Edge(n, sites + {(r, c)}, a, Site(r, c)) <==> a in Neighbours(n, sites, r, c)
  {
    NeighboursMembers(n, sites, r, c, a);
  }

  /** An edge that does not touch the newly opened site was there before. */
  lemma OldEdge(n: int, sites: set<(int, int)>, r: int, c: int, u: Node, v: Node)
    requires Edge(n, sites + {(r, c)}, u, v) && u != Site(r, c) && v != Site(r, c)
    ensures Edge(n, sites, u, v)
  {
  }

  /** x is the site `cell` itself or reaches one of the nodes in J. */
  ghost predicate Joined(n: int, sites: set<(int, int)>, cell: Node, J: seq<Node>, x: Node) {
    x == cell || exists a :: a in J && Reachable(n, sites, x, a)
  }

  lemma JoinedReachesNewSite(n: int, sites: set<(int, int)>, r: int, c: int, x: Node)
    requires WithinGrid(n, sites) && InGrid(n, r, c) && (r, c) !in sites
    requires Joined(n, sites, Site(r, c), Neighbours(n, sites, r, c), x)
    ensures Reachable(n, sites + {(r, c)}, x, Site(r, c))
  {
    var more := sites + {(r, c)};
    if x == Site(r, c) {
      ReachableRefl(n, more, x);
    } else {
      var a :| a in Neighbours(n, sites, r, c) && Reachable(n, sites, x, a);
      ReachableMonotone(n, sites, more, x, a);
      NewSiteEdges(n, sites, r, c, a);
      EdgeReachable(n, more, a, Site(r, c));
      ReachableTransitive(n, more, x, a, Site(r, c));
    }
  }

  /** A path of the graph after opening (r, c) either is a connection of
      the graph before, or both of its ends are joined to the new site. */
  lemma {:induction false} PathAfterOpening(n: int, sites: set<(int, int)>, r: int, c: int, p: seq<Node>)
    requires WithinGrid(n, sites) && InGrid(n, r, c) && (r, c) !in sites
    requires IsPath(n, sites + {(r, c)}, p)
    ensures Reachable(n, sites, p[0], p[|p| - 1])
            || (Joined(n, sites, Site(r, c), Neighbours(n, sites, r, c), p[0])
                && Joined(n, sites, Site(r, c), Neighbours(n, sites, r, c), p[|p| - 1]))
    decreases |p|
  {
    var more := sites + {(r, c)};
    var cell := Site(r, c);
    var nb := Neighbours(n, sites, r, c);
    if |p| == 1 {
      ReachableRefl(n, sites, p[0]);
    } else {
      var rest := p[1..];
      assert IsPath(n, more, rest) by {
        forall i | 0 <= i < |rest| - 1
          ensures Edge(n, more, rest[i], rest[i + 1])
        {
          assert Edge(n, more, p[i + 1], p[i + 2]);
        }
      }
      PathAfterOpening(n, sites, r, c, rest);
      var x, z, y := p[0], p[1], p[|p| - 1];
      assert rest[0] == z && rest[|rest| - 1] == y;
      assert Edge(n, more, x, z);
      if x == cell {
        NewSiteEdges(n, sites, r, c, z);
        if Reachable(n, sites, z, y) {
          ReachableSymmetric(n, sites, z, y);
          assert z in nb && Reachable(n, sites, y, z);
        }
      } else if z == cell {
        NewSiteEdges(n, sites, r, c, x);
        ReachableRefl(n, sites, x);
        assert x in nb && Reachable(n, sites, x, x);
        if Reachable(n, sites, z, y) {
          BlockedSiteIsolated(n, sites, r, c, y);
        }
      } else {
        OldEdge(n, sites, r, c, x, z);
        EdgeReachable(n, sites, x, z);
        if Reachable(n, sites, z, y) {
          ReachableTransitive(n, sites, x, z, y);
        } else {
          var a :| a in nb && Reachable(n, sites, z, a);
          ReachableTransitive(n, sites, x, z, a);
        }
      }
    }
  }

  /** Opening the blocked site (r, c) connects exactly what was connected
      before, plus every pair of nodes joined to the new site through its
      Neighbours. */
  lemma ReachableAfterOpening(n: int, sites: set<(int, int)>, r: int, c: int, x: Node, y: Node)
    requires WithinGrid(n, sites) && InGrid(n, r, c) && (r, c) !in sites
    ensures Reachable(n, sites + {(r, c)}, x, y) <==>
              Reachable(n, sites, x, y)
              || (Joined(n, sites, Site(r, c), Neighbours(n, sites, r, c), x)
                  && Joined(n, sites, Site(r, c), Neighbours(n, sites, r, c), y))
  {
    var more := sites + {(r, c)};
    var nb := Neighbours(n, sites, r, c);
    if Reachable(n, more, x, y) {
      var p :| IsPath(n, more, p) && p[0] == x && p[|p| - 1] == y;
      PathAfterOpening(n, sites, r, c, p);
    }
    if Reachable(n, sites, x, y) {
      ReachableMonotone(n, sites, more, x, y);
    }
    if Joined(n, sites, Site(r, c), nb, x) && Joined(n, sites, Site(r, c), nb, y) {
      JoinedReachesNewSite(n, sites, r, c, x);
      JoinedReachesNewSite(n, sites, r, c, y);
      ReachableSymmetric(n, more, y, Site(r, c));
      ReachableTransitive(n, more, x, Site(r, c), y);
    }
  }

  /** With nothing open, every node reaches only itself. */
  lemma NothingOpen(n: int, u: Node, v: Node)
    ensures Reachable(n, {}, u, v) <==> u == v
  {
    if Reachable(n, {}, u, v) {
      var p :| IsPath(n, {}, p) && p[0] == u && p[|p| - 1] == v;
      if |p| > 1 {
        FirstEdge(n, {}, p);
        assert false;
      }
    }
    if u == v {
      ReachableRefl(n, {}, u);
    }
  }

  /** A grid can only percolate once some site is open. */
  lemma PercolationNeedsOpenSite(n: int, sites: set<(int, int)>)
    requires Reachable(n, sites, Top, Bottom)
    ensures |sites| >= 1
  {
    var p: seq<Node> :| IsPath(n, sites, p) && p[0] == Top && p[|p| - 1] == Bottom;
    FirstEdge(n, sites, p);
    assert (p[1].row, p[1].col) in sites;
  }

  /** Backwash: once the grid percolates, every open site of the bottom row
      reaches `Top` (through `Bottom`), whether or not an open path of
      sites leads from it to the top row. */
  lemma BottomRowReachesTop(n: int, sites: set<(int, int)>, col: int)
    requires Reachable(n, sites, Top, Bottom) && (n, col) in sites
    ensures Reachable(n, sites, Site(n, col), Top)
  {
    EdgeReachable(n, sites, Site(n, col), Bottom);
    ReachableSymmetric(n, sites, Top, Bottom);
    ReachableTransitive(n, sites, Site(n, col), Bottom, Top);
  }
}
