/** The percolation grid: an n-by-n grid of blocked or open sites, with the
    connectivity of the open sites tracked by a union-find over the n * n
    slots and two virtual nodes, `top` (slot n * n, joined to every open
    site of row 1) and `bottom` (slot n * n + 1, joined to every open site
    of row n). */
module Percolation {
  import opened Outcomes
  import opened SiteIndex
  import opened OpenGraph
  import UnionFind

  const RangeMessage := "Check your col or/and row"

  /** The union-find slot of a node of the graph. */
  function NodeIndex(n: int, u: Node): (i: int)
    requires n > 0 && IsNode(n, u)
    ensures 0 <= i < n * n + 2
  {
    match u
    case Site(r, c) => Index(n, r, c)
    case Top => n * n
    case Bottom => n * n + 1
  }

  /** Different nodes have different slots. */
  lemma NodeIndexInjective(n: int, u: Node, v: Node)
    requires n > 0 && IsNode(n, u) && IsNode(n, v)
    ensures NodeIndex(n, u) == NodeIndex(n, v) <==> u == v
  {
    if u.Site? && v.Site? {
      IndexInjective(n, u.row, u.col, v.row, v.col);
    }
  }

  /** The number of open slots. */
  function CountOpen(s: seq<bool>): (k: nat)
    ensures k <= |s|
  {
    if s == [] then 0 else (if s[0] then 1 else 0) + CountOpen(s[1..])
  }

  lemma {:induction false} CountOpenNone(s: seq<bool>)
    requires forall i :: 0 <= i < |s| ==> !s[i]
    ensures CountOpen(s) == 0
  {
    if s != [] {
      CountOpenNone(s[1..]);
    }
  }

  /** Opening one blocked slot raises the count by exactly one. */
  lemma {:induction false} CountOpenSet(s: seq<bool>, k: int)
    requires 0 <= k < |s| && !s[k]
    ensures CountOpen(s[k := true]) == CountOpen(s) + 1
  {
    if k > 0 {
      assert s[k := true][1..] == s[1..][k - 1 := true];
      CountOpenSet(s[1..], k - 1);
    } else {
      assert s[k := true][1..] == s[1..];
    }
  }

  /** The union-find labels `id` connect two nodes exactly when the graph
      over the open sites `sites` connects them. */
  ghost predicate Agrees(n: int, sites: set<(int, int)>, id: seq<nat>) {
    n > 0 && |id| == n * n + 2 &&
    forall u, v {:trigger UnionFind.SameLabel(id, NodeIndex(n, u), NodeIndex(n, v))} :: IsNode(n, u) && IsNode(n, v) ==>
      (UnionFind.SameLabel(id, NodeIndex(n, u), NodeIndex(n, v)) <==> Reachable(n, sites, u, v))
  }

  /** x reaches one of the nodes of J. */
  ghost predicate ReachesSome(n: int, sites: set<(int, int)>, x: Node, J: seq<Node>)
    decreases |J|
  {
    |J| > 0 && (ReachesSome(n, sites, x, J[..|J| - 1]) || Reachable(n, sites, x, J[|J| - 1]))
  }

  lemma {:induction false} ReachesSomeJoined(n: int, sites: set<(int, int)>, cell: Node, J: seq<Node>, x: Node)
    ensures Joined(n, sites, cell, J, x) <==> x == cell || ReachesSome(n, sites, x, J)
    decreases |J|
  {
    if |J| > 0 {
      var init := J[..|J| - 1];
      ReachesSomeJoined(n, sites, cell, init, x);
      if Joined(n, sites, cell, J, x) && x != cell {
        var a :| a in J && Reachable(n, sites, x, a);
        if a in init {
          assert Joined(n, sites, cell, init, x);
        } else {
          assert a == J[|J| - 1];
        }
      }
      if ReachesSome(n, sites, x, init) && x != cell {
        var a :| a in init && Reachable(n, sites, x, a);
        assert a in J;
      }
      if Reachable(n, sites, x, J[|J| - 1]) {
        assert J[|J| - 1] in J;
      }
    }
  }

  /** The state half-way through opening `cell`: the labels connect what the
      graph over `sites` connects, plus all nodes that are `cell` or reach a node of J. */
  ghost predicate AgreesJoining(n: int, sites: set<(int, int)>, id: seq<nat>, cell: Node, J: seq<Node>) {
    n > 0 && |id| == n * n + 2 &&
    forall u, v {:trigger UnionFind.SameLabel(id, NodeIndex(n, u), NodeIndex(n, v))} :: IsNode(n, u) && IsNode(n, v) ==>
      (UnionFind.SameLabel(id, NodeIndex(n, u), NodeIndex(n, v)) <==>
         Reachable(n, sites, u, v)
         || ((u == cell || ReachesSome(n, sites, u, J)) && (v == cell || ReachesSome(n, sites, v, J))))
  }

  lemma AgreesAt(n: int, sites: set<(int, int)>, id: seq<nat>, u: Node, v: Node)
    requires Agrees(n, sites, id) && IsNode(n, u) && IsNode(n, v)
    ensures UnionFind.SameLabel(id, NodeIndex(n, u), NodeIndex(n, v)) <==> Reachable(n, sites, u, v)
  {
  }

  /** A fresh union-find, each slot on its own, agrees with the graph of a
      grid with every site blocked. */
  lemma InitialAgrees(n: int, id: seq<nat>)
    requires n > 0 && |id| == n * n + 2
    requires forall p, q :: UnionFind.SameLabel(id, p, q) <==> 0 <= p < |id| && p == q
    ensures Agrees(n, {}, id)
  {
    forall u, v | IsNode(n, u) && IsNode(n, v)
      ensures UnionFind.SameLabel(id, NodeIndex(n, u), NodeIndex(n, v)) <==> Reachable(n, {}, u, v)
    {
      NodeIndexInjective(n, u, v);
      NothingOpen(n, u, v);
    }
  }

  /** Before any union for the blocked site `cell`, nothing is joined but the site itself. */
  lemma StartJoining(n: int, sites: set<(int, int)>, id: seq<nat>, r: int, c: int)
    requires Agrees(n, sites, id)
    ensures AgreesJoining(n, sites, id, Site(r, c), [])
  {
    forall u, v | IsNode(n, u) && IsNode(n, v)
      ensures UnionFind.SameLabel(id, NodeIndex(n, u), NodeIndex(n, v)) <==>
                Reachable(n, sites, u, v)
                || ((u == Site(r, c) || ReachesSome(n, sites, u, [])) && (v == Site(r, c) || ReachesSome(n, sites, v, [])))
    {
      if u == Site(r, c) && v == Site(r, c) {
        ReachableRefl(n, sites, u);
      }
    }
  }

  /** One union of the blocked site (r, c) with the node a extends the joined nodes by a. */
  lemma {:induction false} JoinStep(n: int, sites: set<(int, int)>, before: seq<nat>, after: seq<nat>,
                                    r: int, c: int, J: seq<Node>, a: Node)
    requires InGrid(n, r, c) && (r, c) !in sites && IsNode(n, a)
    requires AgreesJoining(n, sites, before, Site(r, c), J)
    requires UnionFind.Merged(before, after, NodeIndex(n, Site(r, c)), NodeIndex(n, a))
    ensures AgreesJoining(n, sites, after, Site(r, c), J + [a])
  {
    var cell := Site(r, c);
    var ic, ia := NodeIndex(n, cell), NodeIndex(n, a);
    var J' := J + [a];
    assert J'[..|J'| - 1] == J;
    forall u, v | IsNode(n, u) && IsNode(n, v)
      ensures UnionFind.SameLabel(after, NodeIndex(n, u), NodeIndex(n, v)) <==>
                Reachable(n, sites, u, v)
                || ((u == cell || ReachesSome(n, sites, u, J')) && (v == cell || ReachesSome(n, sites, v, J')))
    {
      var iu, iv := NodeIndex(n, u), NodeIndex(n, v);
      var ju, jv := u == cell || ReachesSome(n, sites, u, J), v == cell || ReachesSome(n, sites, v, J);
      var ja := a == cell || ReachesSome(n, sites, a, J);
      // the old relation, at the four pairs the merge looks at
      assert UnionFind.SameLabel(before, iu, ic) <==> ju by {
        if Reachable(n, sites, u, cell) {
          ReachableSymmetric(n, sites, u, cell);
          BlockedSiteIsolated(n, sites, r, c, u);
        }
      }
      assert UnionFind.SameLabel(before, iv, ic) <==> jv by {
        if Reachable(n, sites, v, cell) {
          ReachableSymmetric(n, sites, v, cell);
          BlockedSiteIsolated(n, sites, r, c, v);
        }
      }
      assert UnionFind.SameLabel(before, iu, ia) <==> Reachable(n, sites, u, a) || (ju && ja);
      assert UnionFind.SameLabel(before, iv, ia) <==> Reachable(n, sites, v, a) || (jv && ja);
      if Reachable(n, sites, u, a) && Reachable(n, sites, v, a) {
        ReachableSymmetric(n, sites, v, a);
        ReachableTransitive(n, sites, u, a, v);
      }
    }
  }

  /** Once the blocked site (r, c) is joined to all its Neighbours, the labels
      agree with the graph in which (r, c) is open. */
  lemma FinishJoining(n: int, sites: set<(int, int)>, id: seq<nat>, r: int, c: int)
    requires WithinGrid(n, sites) && InGrid(n, r, c) && (r, c) !in sites
    requires AgreesJoining(n, sites, id, Site(r, c), Neighbours(n, sites, r, c))
    ensures Agrees(n, sites + {(r, c)}, id)
  {
    forall u, v | IsNode(n, u) && IsNode(n, v)
      ensures UnionFind.SameLabel(id, NodeIndex(n, u), NodeIndex(n, v)) <==> Reachable(n, sites + {(r, c)}, u, v)
    {
      FinishJoiningAt(n, sites, id, r, c, u, v);
    }
  }

  lemma FinishJoiningAt(n: int, sites: set<(int, int)>, id: seq<nat>, r: int, c: int, u: Node, v: Node)
    requires WithinGrid(n, sites) && InGrid(n, r, c) && (r, c) !in sites && IsNode(n, u) && IsNode(n, v)
    requires AgreesJoining(n, sites, id, Site(r, c), Neighbours(n, sites, r, c))
    ensures n > 0 && (UnionFind.SameLabel(id, NodeIndex(n, u), NodeIndex(n, v)) <==> Reachable(n, sites + {(r, c)}, u, v))
  {
    var cell, nb := Site(r, c), Neighbours(n, sites, r, c);
    var ju := u == cell || ReachesSome(n, sites, u, nb);
    var jv := v == cell || ReachesSome(n, sites, v, nb);
    assert UnionFind.SameLabel(id, NodeIndex(n, u), NodeIndex(n, v)) <==> Reachable(n, sites, u, v) || (ju && jv);
    ReachesSomeJoined(n, sites, cell, nb, u);
    ReachesSomeJoined(n, sites, cell, nb, v);
    ReachableAfterOpening(n, sites, r, c, u, v);
  }

  class Percolation {
    const n: int
    const top: int
    const bottom: int
    /** grid[Index(n, row, col)] tells whether site (row, col) is open. */
    const grid: array<bool>
    const uf: UnionFind.UnionFind
    var numberOfOpenSites: int
    /** The sites opened so far. */
    ghost var openSites: set<(int, int)>

    /** The grid, the open-site counter and openSites agree. */
    ghost predicate SitesValid()
      reads this, grid
    {
      n > 0 && top == n * n && bottom == n * n + 1 && grid.Length == n * n &&
      WithinGrid(n, openSites) &&
      (forall r, c :: InGrid(n, r, c) ==> (grid[Index(n, r, c)] <==> (r, c) in openSites)) &&
      numberOfOpenSites == |openSites| == CountOpen(grid[..])
    }

    /** ... and the union-find connects two nodes exactly when the graph over the open sites does. */
    ghost predicate Valid()
      reads this, grid, uf
    {
      SitesValid() && uf.Valid() && Agrees(n, openSites, uf.id)
    }

    /** An n-by-n grid with every site blocked. */
    constructor (n: int)
      requires n > 0
      ensures Valid() && fresh(grid) && fresh(uf)
      ensures this.n == n && openSites == {} && numberOfOpenSites == 0
    {
      this.n := n;
      top := n * n;
      bottom := n * n + 1;
      uf := new UnionFind.UnionFind(n * n + 2);
      grid := new bool[n * n](_ => false);
      numberOfOpenSites := 0;
      openSites := {};
      new;
      CountOpenNone(grid[..]);
      forall p, q
        ensures UnionFind.SameLabel(uf.id, p, q) <==> 0 <= p < |uf.id| && p == q
      {
        assert uf.Connected(p, q) <==> 0 <= p < |uf.id| && p == q;
      }
      InitialAgrees(n, uf.id);
    }

    /** Opens site (row, col) if it is not open already; rejects a site outside the grid. */
    method Open(row: int, col: int) returns (r: Outcome)
      requires Valid()
      modifies this, grid, uf
      ensures Valid()
      ensures r == if InGrid(n, row, col) then Pass else Fail(IllegalArgument(RangeMessage))
      ensures openSites == if r.Pass? then old(openSites) + {(row, col)} else old(openSites)
      ensures numberOfOpenSites == old(numberOfOpenSites) + if r.Pass? && (row, col) !in old(openSites) then 1 else 0
      ensures r.Fail? || (row, col) in old(openSites) ==> unchanged(grid) && unchanged(uf)
      ensures old(Reachable(n, openSites, Top, Bottom)) ==> Reachable(n, openSites, Top, Bottom)
    {
      if row < 1 || row > n || col < 1 || col > n {
        return Fail(IllegalArgument(RangeMessage));
      }
      r := Pass;
      var index := Index(n, row, col);
      if !grid[index] {
        ghost var before := openSites;
        ghost var cell := Site(row, col);
        CountOpenSet(grid[..], index);
        grid[index] := true;
        numberOfOpenSites := numberOfOpenSites + 1;
        openSites := openSites + {(row, col)};
        assert (row, col) !in before;
        assert SitesValid() by {
          forall r', c' | InGrid(n, r', c')
            ensures grid[Index(n, r', c')] <==> (r', c') in openSites
          {
            IndexInjective(n, r', c', row, col);
          }
        }

        StartJoining(n, before, uf.id, row, col);
        Connect(before, row, col, index);
        if old(Reachable(n, openSites, Top, Bottom)) {
          ReachableMonotone(n, before, openSites, Top, Bottom);
        }
        assert openSites == before + {(row, col)};
      } else {
        assert (row, col) in openSites;
        assert openSites + {(row, col)} == openSites;
      }
    }

    /** The unions Open performs for the newly opened site (row, col) at `index`:
        with the virtual top in row 1, the virtual bottom in row n, and each open
        4-neighbour, left, right, below and above, in this order. Afterwards the
        labels agree with the graph over the open sites. */
    method Connect(ghost before: set<(int, int)>, row: int, col: int, index: int)
      requires SitesValid() && uf.Valid() && InGrid(n, row, col) && (row, col) !in before
      requires openSites == before + {(row, col)} && index == Index(n, row, col)
      requires AgreesJoining(n, before, uf.id, Site(row, col), [])
      modifies uf
      ensures SitesValid() && uf.Valid() && Agrees(n, openSites, uf.id)
    {
      ghost var j: seq<Node> := [];
      JoinIf(row == 1, before, j, row, col, index, Top, top);
      j := AddIf(j, row == 1, Top);
      JoinIf(row == n, before, j, row, col, index, Bottom, bottom);
      j := AddIf(j, row == n, Bottom);
      ConnectRow(before, j, row, col, index);
      j := AddIf(AddIf(j, col > 1 && (row, col - 1) in before, Site(row, col - 1)),
                 col < n && (row, col + 1) in before, Site(row, col + 1));
      ConnectColumn(before, j, row, col, index);
      j := AddIf(AddIf(j, row < n && (row + 1, col) in before, Site(row + 1, col)),
                 row > 1 && (row - 1, col) in before, Site(row - 1, col));
      FinishJoining(n, before, uf.id, row, col);
    }

    /** The unions with the open left and right neighbours. */
    method ConnectRow(ghost before: set<(int, int)>, ghost j: seq<Node>, row: int, col: int, index: int)
      requires SitesValid() && uf.Valid() && InGrid(n, row, col) && (row, col) !in before
      requires openSites == before + {(row, col)} && index == Index(n, row, col)
      requires AgreesJoining(n, before, uf.id, Site(row, col), j)
      modifies uf
      ensures uf.Valid()
      ensures AgreesJoining(n, before, uf.id, Site(row, col),
                AddIf(AddIf(j, col > 1 && (row, col - 1) in before, Site(row, col - 1)),
                      col < n && (row, col + 1) in before, Site(row, col + 1)))
    {
      NeighbourIndex(n, row, col);
      var left := col > 1 && IsOpen(row, col - 1) == Ok(true);
      assert left == (col > 1 && (row, col - 1) in before);
      JoinIf(left, before, j, row, col, index, Site(row, col - 1), index - 1);
      var right := col < n && IsOpen(row, col + 1) == Ok(true);
      assert right == (col < n && (row, col + 1) in before);
      JoinIf(right, before, AddIf(j, left, Site(row, col - 1)), row, col, index, Site(row, col + 1), index + 1);
    }

    /** The unions with the open neighbours below and above. */
    method ConnectColumn(ghost before: set<(int, int)>, ghost j: seq<Node>, row: int, col: int, index: int)
      requires SitesValid() && uf.Valid() && InGrid(n, row, col) && (row, col) !in before
      requires openSites == before + {(row, col)} && index == Index(n, row, col)
      requires AgreesJoining(n, before, uf.id, Site(row, col), j)
      modifies uf
      ensures uf.Valid()
      ensures AgreesJoining(n, before, uf.id, Site(row, col),
                AddIf(AddIf(j, row < n && (row + 1, col) in before, Site(row + 1, col)),
                      row > 1 && (row - 1, col) in before, Site(row - 1, col)))
    {
      NeighbourIndex(n, row, col);
      var below := row < n && IsOpen(row + 1, col) == Ok(true);
      assert below == (row < n && (row + 1, col) in before);
      JoinIf(below, before, j, row, col, index, Site(row + 1, col), index + n);
      var above := row > 1 && IsOpen(row - 1, col) == Ok(true);
      assert above == (row > 1 && (row - 1, col) in before);
      JoinIf(above, before, AddIf(j, below, Site(row + 1, col)), row, col, index, Site(row - 1, col), index - n);
    }

    /** `if (link) uf.union(index, other)` for the site being opened at `index` and
        the node `a` in slot `other`: when link holds, the site is now also joined to a. */
    method JoinIf(link: bool, ghost sites: set<(int, int)>, ghost J: seq<Node>, ghost row: int, ghost col: int,
                  index: int, a: Node, other: int)
      requires uf.Valid() && InGrid(n, row, col) && (row, col) !in sites
      requires index == Index(n, row, col) && (link ==> IsNode(n, a) && other == NodeIndex(n, a))
      requires AgreesJoining(n, sites, uf.id, Site(row, col), J)
      modifies uf
      ensures uf.Valid()
      ensures AgreesJoining(n, sites, uf.id, Site(row, col), AddIf(J, link, a))
    {
      if link {
        ghost var id0 := uf.id;
        uf.Union(index, other);
        JoinStep(n, sites, id0, uf.id, row, col, J, a);
      }
    }

    /** Is site (row, col) open? Rejects a site outside the grid. */
    function IsOpen(row: int, col: int): (r: Result<bool>)
      requires SitesValid()
      reads this, grid
      ensures r.Err? <==> !InGrid(n, row, col)
      ensures r.Err? ==> r.error == IllegalArgument(RangeMessage)
      ensures r.Ok? ==> (r.value <==> (row, col) in openSites)
    {
      if row < 1 || row > n || col < 1 || col > n then
        Err(IllegalArgument(RangeMessage))
      else
        Ok(grid[Index(n, row, col)])
    }

    /** Is site (row, col) full, i.e. open and connected to the virtual top
        node? Since the bottom node shares the union-find, the connection may
        pass through `Bottom` (backwash). Rejects a site outside the grid. */
    function IsFull(row: int, col: int): (r: Result<bool>)
      requires Valid()
      reads this, grid, uf
      ensures r.Err? <==> !InGrid(n, row, col)
      ensures r.Err? ==> r.error == IllegalArgument(RangeMessage)
      ensures r.Ok? ==> (r.value <==> (row, col) in openSites && Reachable(n, openSites, Site(row, col), Top))
    {
      if row < 1 || row > n || col < 1 || col > n then
        Err(IllegalArgument(RangeMessage))
      else
        AgreesAt(n, openSites, uf.id, Site(row, col), Top);
        Ok(IsOpen(row, col) == Ok(true) && uf.Find(Index(n, row, col)) == uf.Find(top))
    }

    /** The number of open sites. */
    function NumberOfOpenSites(): (k: int)
      requires SitesValid()
      reads this, grid
      ensures k == |openSites| && k == CountOpen(grid[..])
      ensures 0 <= k <= n * n
    {
      numberOfOpenSites
    }

    /** Does the system percolate, i.e. is `Top` connected to `Bottom`? */
    function Percolates(): (r: bool)
      requires Valid()
      reads this, grid, uf
      ensures r <==> Reachable(n, openSites, Top, Bottom)
    {
      AgreesAt(n, openSites, uf.id, Top, Bottom);
      uf.Find(top) == uf.Find(bottom)
    }
  }

  /** `new Percolation(n)`: rejects n <= 0, else an n-by-n grid with every site blocked. */
  method Create(n: int) returns (r: Result<Percolation>)
    ensures r.Err? <==> n <= 0
    ensures r.Err? ==> r.error == IllegalArgument("n must be > 0")
    ensures r.Ok? ==> fresh(r.value) && fresh(r.value.grid) && fresh(r.value.uf) && r.value.Valid()
    ensures r.Ok? ==> r.value.n == n && r.value.openSites == {} && r.value.numberOfOpenSites == 0
  {
    if n <= 0 {
      return Err(IllegalArgument("n must be > 0"));
    }
    var p := new Percolation(n);
    return Ok(p);
  }
}
