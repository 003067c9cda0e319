# Percolation and birth-death simulations in Dafny

This project models three pieces of a small collection of probability
simulations and proves properties of the models.

- **Percolation** (`percolation.dfy`, with `site_index.dfy`,
  `union_find.dfy`, `open_graph.dfy`). An n-by-n grid of sites starts with
  every site blocked. Sites are opened one at a time. The system
  percolates when the virtual top node is connected to the virtual bottom
  node through open 4-neighbour sites. The class `Percolation` keeps the
  `grid` array of open flags, the counter of open sites and a union-find
  over the n * n sites plus the two virtual nodes. Its invariant `Valid`
  ties the counter to the grid and ties the union-find to reachability in
  the graph of open sites (`OpenGraph.Reachable`). `IsOpen` and
  `NumberOfOpenSites` are specified over the set of open sites, and
  `IsFull` and `Percolates` are specified in terms of that graph.
- **Percolation trials** (`percolation_stats.dfy`). The constructor of
  `PercolationStats` checks its arguments and runs `trials` experiments.
  Each experiment opens random sites of a fresh grid until the grid
  percolates and records the fraction of open sites. The random site
  numbers are a parameter `draws`. The ghost functions `Trial` and
  `Trials` say what one experiment and a series of them compute, and the
  methods `RunTrial` and `Thresholds` are proved to compute exactly that.
- **Percolation test client** (`percolation_client.dfy`). The `main` of
  `Percolation` opens (2, 2) twice and column 3 of a 10-by-10 grid and asks
  a fixed list of questions. `TestClient` returns the answers, and its
  contract states what each of them is.
- **Birth-death process** (`birth_death.dfy`). `simulate_birth_death_process`
  runs a continuous-time jump process on the states 0 .. N. A birth comes
  at rate (N - s) * lambd and a death at rate s * mu. The loop records a
  (time, state) point after every event until the horizon T. The random
  numbers are parameters: `exps` holds standard exponential variates and
  `us` holds uniform variates. The method `SimulateBirthDeathProcess` is
  proved equal to the function `Simulate`. The lemmas then give the
  properties of `Simulate`, including a characterisation that does not
  mention the loop (`SimulateIff`).

Exceptions become values. An operation that can throw returns a
`Result` or an `Outcome` from `outcomes.dfy`, with
`IllegalArgument(message)` for `IllegalArgumentException` and the same
message text as the source. `OutOfDraws` is the error of a run that needs
more injected random numbers than it was given. The programs themselves
draw fresh random numbers forever, so this error has no counterpart in
them.

Three facts of the code that the properties depend on:

- The birth-death loop stops whenever the total rate is not positive
  (`if total_rate > 0 … else break`), so a negative rate from
  negative parameters also ends it.
- Event times strictly increase only when every exponential draw is
  positive. A standard exponential variate may be 0.0, and then two
  points share a time. `SimulateTimesIncrease` therefore requires
  positive draws.
- The population stays in [0, N] only when the initial state is in
  [0, N]; the code does not check it. `SimulateInRange` requires it.

## Model

| member | source | states |
|---|---|---|
| SiteIndex.Index | Percolation/Percolation.java:32 | the slot (row - 1) * n + (col - 1) of a site of the grid lies in [0, n * n), so it never equals top = n * n or bottom = n * n + 1 |
| SiteIndex.Decode | Percolation/PercolationStats.java:27-29 | a slot s in [0, n * n) decodes to the site (s / n + 1, s % n + 1), which lies in the grid and has slot s |
| SiteIndex.DecodeIndex | Percolation/PercolationStats.java:27-29 | decoding the slot of any site of the grid gives that site back, so the numbering is a bijection between the sites and [0, n * n) |
| SiteIndex.IndexInjective | Percolation/Percolation.java:32 | two sites of the grid have the same slot iff they are the same site |
| SiteIndex.NeighbourIndex | Percolation/Percolation.java:46-56 | the left, right, lower and upper neighbours of a site sit at index - 1, index + 1, index + n and index - n |
| UnionFind.UnionFind.constructor | Percolation/Percolation.java:21 | count elements, each in a component of its own |
| UnionFind.UnionFind.Find | Percolation/Percolation.java:94 | returns a representative of p's component, connected to p |
| UnionFind.UnionFind.Union | Percolation/Percolation.java:38 | afterwards x and y are connected iff they were connected before or one was connected to p and the other to q |
| Percolation.Percolation.constructor | Percolation/Percolation.java:14-24 | for n > 0: an n-by-n grid with no open site, counter 0, and a union-find in which every node is connected only to itself |
| Percolation.Create | Percolation/Percolation.java:14-17 | fails with IllegalArgument("n must be > 0") exactly when n <= 0, otherwise returns a fresh valid grid with no open site |
| Percolation.Percolation.Open | Percolation/Percolation.java:27-62 | fails with IllegalArgument("Check your col or/and row") exactly when (row, col) is outside the grid, changing nothing; otherwise the open sites become the old ones plus (row, col), the counter rises by 1 iff the site was blocked, an already open site leaves grid and union-find unchanged, a percolating grid keeps percolating, and the invariant (union-find = reachability over open sites) is kept |
| Percolation.Percolation.Connect | Percolation/Percolation.java:36-57 | the unions with the virtual top (row 1), the virtual bottom (row n) and each open 4-neighbour make the union-find agree with reachability over the open sites including the new one |
| Percolation.Percolation.ConnectRow | Percolation/Percolation.java:46-51 | joins the new site with its open left and right neighbours, the order the source tests them in |
| Percolation.Percolation.ConnectColumn | Percolation/Percolation.java:52-57 | joins the new site with its open lower and upper neighbours |
| Percolation.Percolation.IsOpen | Percolation/Percolation.java:65-73 | error exactly when (row, col) is outside the grid, otherwise true iff the site is open |
| Percolation.Percolation.IsFull | Percolation/Percolation.java:77-85 | error exactly when (row, col) is outside the grid, otherwise true iff the site is open and reaches the virtual top in the graph of open sites, where a path may pass through the virtual bottom (backwash); so full implies open |
| Percolation.Percolation.NumberOfOpenSites | Percolation/Percolation.java:88-90 | equals the number of open sites and the number of true cells of the grid, and lies in [0, n * n] |
| Percolation.Percolation.Percolates | Percolation/Percolation.java:93-95 | true iff the virtual top reaches the virtual bottom through open 4-neighbour sites |
| OpenGraph.ReachableMonotone | Percolation/Percolation.java:37-56 | opening more sites never disconnects two nodes |
| OpenGraph.NothingOpen | Percolation/Percolation.java:21-22 | with no open site, each node reaches only itself |
| OpenGraph.PercolationNeedsOpenSite | Percolation/Percolation.java:93-95 | a grid that percolates has at least one open site |
| OpenGraph.BottomRowReachesTop | Percolation/Percolation.java:82 | backwash: in a percolating grid every open site of the bottom row counts as connected to the top |
| OpenGraph.WithinGridBound | Percolation/Percolation.java:22 | a set of sites of the grid has at most n * n elements |
| PercolationClient.OpenSites | Percolation/Percolation.java:100-109 | the test client's grid: 10 by 10, with (2, 2) opened twice and then column 3 from row 1 to row 10, so the open sites are exactly (2, 2) and that column; (3, 1) is reported blocked before the column is opened |
| PercolationClient.OpenColumnPercolates | Percolation/Percolation.java:106-111 | a grid with one column open from the top row to the bottom row percolates |
| PercolationClient.ColumnReachesTop | Percolation/Percolation.java:106-113 | with rows 1 .. r of a column open, the virtual top reaches row r of that column |
| PercolationClient.TestClient | Percolation/Percolation.java:99-118 | the client's answers: (3, 1) not open, the grid percolates, (5, 3) full, (2, 2) open and full through its open neighbour (2, 3), (1, 1) neither open nor full |
| PercolationStats.Thresholds | Percolation/PercolationStats.java:17-35 | fails with IllegalArgument("n and trials must be > 0") when n <= 0 or trials <= 0; otherwise fills a fresh array with exactly the thresholds of `trials` successive trials, each starting at the first draw its predecessor did not use |
| PercolationStats.RunTrial | Percolation/PercolationStats.java:25-34 | returns the number of open sites and the next unused draw, as the trial function says, with 1 <= open sites <= n * n; `open` is called only on blocked sites, so a draw of an already open site opens nothing (a loop invariant counts one open site per call) |
| PercolationStats.TrialContinues | Percolation/PercolationStats.java:27-32 | a trial that does not percolate yet opens the site of its next draw and continues from the following draw |
| PercolationStats.TrialEnds | Percolation/PercolationStats.java:26 | a completed trial ends with a percolating grid that still has the sites open at its start |
| PercolationStats.TrialOpensDrawnSites | Percolation/PercolationStats.java:27-32 | a site is open at the end of a trial iff it was open at the start or one of the draws the trial used decodes to it |
| PercolationStats.TrialDrawBound | Percolation/PercolationStats.java:27-32 | each draw a trial uses opens at most one site: the open sites at the end number at most those at the start plus the draws used |
| PercolationStats.TrialOpenCount | Percolation/PercolationStats.java:34 | a trial from an empty grid ends with between 1 and n * n open sites, so its threshold lies in (0, 1] |
| PercolationStats.ThresholdBounds | Percolation/PercolationStats.java:34 | open / (n * n) lies in (0, 1] when 1 <= open <= n * n |
| PercolationStats.TrialsThresholds | Percolation/PercolationStats.java:23-24 | completed trials record exactly `trials` thresholds, each in (0, 1] |
| BirthDeath.SimulateBirthDeathProcess | birth_death_process/birth_death_process_web_app.py:7-40 | the loop returns what `Simulate` defines, including its error when the draws run out |
| BirthDeath.SimulateFollows | birth_death_process/birth_death_process_web_app.py:9-35 | the table starts at (0, initial_state), both columns have the same length, and the k-th event uses the k-th exponential and the k-th uniform draw, so the number of events is the length minus 1 |
| BirthDeath.SimulateEnds | birth_death_process/birth_death_process_web_app.py:14-38 | the last point is one where the loop stops: time not below T, total rate not positive, or the next event after T |
| BirthDeath.SimulateIff | birth_death_process/birth_death_process_web_app.py:7-40 | a table is the result iff it starts at (0, initial_state), is made of events drawn in order and ends where the loop stops |
| BirthDeath.StepInRange | birth_death_process/birth_death_process_web_app.py:15-31 | from a state in [0, N] with a uniform draw in [0, 1) an event leads to a state in [0, N], because the birth rate is 0 at N and the death rate is 0 at 0 |
| BirthDeath.SimulateInRange | birth_death_process/birth_death_process_web_app.py:15-31 | with initial_state in [0, N] and uniform draws in [0, 1), every recorded state is in [0, N] |
| BirthDeath.SimulateSteps | birth_death_process/birth_death_process_web_app.py:17-31 | consecutive states differ by exactly 1, and every state but the last has a positive total rate |
| BirthDeath.SimulateTimesBounded | birth_death_process/birth_death_process_web_app.py:22-25 | every recorded time after the first is at most T and every time but the last is below T |
| BirthDeath.SimulateTimesIncrease | birth_death_process/birth_death_process_web_app.py:21-22 | with positive exponential draws the recorded times strictly increase |
| BirthDeath.StuckAtStart | birth_death_process/birth_death_process_web_app.py:14-38 | when T <= 0 or the initial total rate is not positive, the table holds only (0, initial_state) |
| BirthDeath.SingleBirthScenario | birth_death_process/birth_death_process_web_app.py:7-40 | with N = 1, initial state 0, lambd = 1, mu = 0 and T = 100 the table has at most 2 points, and with 2 points the states are [0, 1] |

## Left out

- The internals of `WeightedQuickUnionUF` are not part of this model. The union-find is a component label per element. Weights, tree shapes and path lengths are not modelled, only the connectivity that `union` and `find` provide.
- Java `int` overflow is not modelled. `n * n` and `n * n + 2` are unbounded integers, so grids with n above 46340 behave differently in the source.
- `StdStats.mean`, `StdStats.stddev`, `confidenceLo`, `confidenceHi` and the accessors `mean()` and `stddev()` of `PercolationStats` are left out. They are library calls and floating-point square roots.
- `StdRandom.uniformInt`, `np.random.exponential` and `np.random.rand` are replaced by the parameters `draws`, `exps` and `us`. The generators and their distributions are not modelled. `OutOfDraws` exists only because a parameter sequence is finite.
- BirthDeath.WaitingTime: `np.random.exponential(1 / total_rate)` is modelled as a standard exponential draw times 1 / total_rate, the way NumPy scales it.
- Floating point is not modelled. Thresholds and all birth-death quantities are exact reals, so rounding, NaN and infinities are absent.
- Percolation.Percolation.IsFull: the source's backwash is kept, not corrected. A full site is one connected to the top possibly through the virtual bottom (see `OpenGraph.BottomRowReachesTop`).
- The `main` test client of `Percolation` is modelled without its printing: `PercolationClient.TestClient` returns the answers it prints. The `main` of `PercolationStats` is left out; it parses arguments and prints.
- The Streamlit interface, plotting, CSV download, the Monte-Carlo aggregation and `theoretical_expected_value` of the birth-death web app are left out. They are presentation, I/O and floating-point numerics.
