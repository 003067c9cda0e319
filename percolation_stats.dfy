/** The trials of the percolation experiment: each trial opens uniformly
    drawn sites of a fresh n-by-n grid until it percolates, and records the
    fraction of open sites. The random site numbers are given as a sequence
    `draws` instead of being drawn, each in [0, n * n) as the generator
    promises; a trial that needs a draw after the last one fails with
    `OutOfDraws`. */
module PercolationStats {
  import opened Outcomes
  import opened SiteIndex
  import opened OpenGraph
  import Grid = Percolation

  const ArgumentMessage := "n and trials must be > 0"

  /** Every draw is a slot of the n-by-n grid. */
  predicate AllSlots(n: int, draws: seq<int>) {
    forall i :: 0 <= i < |draws| ==> 0 <= draws[i] < n * n
  }

  /** One trial, continued from draw k with the sites `sites` open: the index
      of the first draw not used and the open sites once the grid percolates. */
  ghost function Trial(n: int, draws: seq<int>, k: nat, sites: set<(int, int)>): Result<(nat, set<(int, int)>)>
    requires n > 0 && AllSlots(n, draws) && k <= |draws| && WithinGrid(n, sites)
    decreases |draws| - k
  {
    if Reachable(n, sites, Top, Bottom) then Ok((k, sites))
    else if k == |draws| then Err(OutOfDraws)
    else
      var rc := Decode(n, draws[k]);
      Trial(n, draws, k + 1, sites + {rc})
  }

  /** A completed trial ends percolating, with the sites it started with
      still open, all of them in the grid, and having used draws k .. used-1. */
  lemma {:induction false} TrialEnds(n: int, draws: seq<int>, k: nat, sites: set<(int, int)>)
    requires n > 0 && AllSlots(n, draws) && k <= |draws| && WithinGrid(n, sites)
    requires Trial(n, draws, k, sites).Ok?
    ensures var (used, open) := Trial(n, draws, k, sites).value;
            k <= used <= |draws| && sites <= open && WithinGrid(n, open) && Reachable(n, open, Top, Bottom)
    decreases |draws| - k
  {
    if !Reachable(n, sites, Top, Bottom) {
      TrialEnds(n, draws, k + 1, sites + {Decode(n, draws[k])});
    }
  }

  /** The sites a trial opens are exactly the decoded draws it uses: a site
      is open at the end of a trial iff it was open at the start or some
      draw in [k, used) decodes to it. */
  lemma {:induction false} TrialOpensDrawnSites(n: int, draws: seq<int>, k: nat, sites: set<(int, int)>, rc: (int, int))
    requires n > 0 && AllSlots(n, draws) && k <= |draws| && WithinGrid(n, sites)
    requires Trial(n, draws, k, sites).Ok?
    ensures var (used, open) := Trial(n, draws, k, sites).value;
            rc in open <==> rc in sites || exists i :: k <= i < used && i < |draws| && Decode(n, draws[i]) == rc
    decreases |draws| - k
  {
    var (used, open) := Trial(n, draws, k, sites).value;
    if !Reachable(n, sites, Top, Bottom) {
      var next := sites + {Decode(n, draws[k])};
      TrialOpensDrawnSites(n, draws, k + 1, next, rc);
      if rc == Decode(n, draws[k]) {
        TrialEnds(n, draws, k + 1, next);
        assert k < used;
      }
      if exists i :: k <= i < used && i < |draws| && Decode(n, draws[i]) == rc {
        var i :| k <= i < used && i < |draws| && Decode(n, draws[i]) == rc;
        if i > k {
          assert k + 1 <= i < used && i < |draws| && Decode(n, draws[i]) == rc;
        }
      }
    } else {
      assert used == k;
    }
  }

  /** Each draw a trial uses opens at most one site: the open sites at the
      end number at most those at the start plus the draws used. */
  lemma {:induction false} TrialDrawBound(n: int, draws: seq<int>, k: nat, sites: set<(int, int)>)
    requires n > 0 && AllSlots(n, draws) && k <= |draws| && WithinGrid(n, sites)
    requires Trial(n, draws, k, sites).Ok?
    ensures |Trial(n, draws, k, sites).value.1| <= |sites| + Trial(n, draws, k, sites).value.0 - k
    decreases |draws| - k
  {
    if !Reachable(n, sites, Top, Bottom) {
      var next := sites + {Decode(n, draws[k])};
      assert |next| <= |sites| + 1;
      TrialDrawBound(n, draws, k + 1, next);
    }
  }

  /** A trial started on a grid with every site blocked ends with between 1
      and n * n open sites, so its threshold lies in (0, 1]. */
  lemma TrialOpenCount(n: int, draws: seq<int>, k: nat)
    requires n > 0 && AllSlots(n, draws) && k <= |draws|
    requires Trial(n, draws, k, {}).Ok?
    ensures 1 <= |Trial(n, draws, k, {}).value.1| <= n * n
    ensures 0.0 < Threshold(n, |Trial(n, draws, k, {}).value.1|) <= 1.0
  {
    var open := Trial(n, draws, k, {}).value.1;
    TrialEnds(n, draws, k, {});
    PercolationNeedsOpenSite(n, open);
    WithinGridBound(n, open);
    ThresholdBounds(n, |open|);
  }

  /** The fraction of open sites, `(double) open / (n * n)`, as an exact real. */
  function Threshold(n: int, open: int): real
    requires n > 0
  {
    open as real / (n * n) as real
  }

  lemma ThresholdBounds(n: int, open: int)
    requires n > 0 && 1 <= open <= n * n
    ensures 0.0 < Threshold(n, open) <= 1.0
  {
    var d := (n * n) as real;
    assert d >= 1.0;
    assert open as real <= d;
  }

  /** `count` trials, each on a fresh grid, the first starting at draw k and
      each next one at the first draw its predecessor did not use. */
  ghost function Trials(n: int, count: nat, draws: seq<int>, k: nat): (r: Result<seq<real>>)
    requires n > 0 && AllSlots(n, draws) && k <= |draws|
    decreases count
  {
    if count == 0 then Ok([])
    else
      match Trial(n, draws, k, {})
      case Err(e) => Err(e)
      case Ok((used, open)) =>
        TrialEnds(n, draws, k, {});
        match Trials(n, count - 1, draws, used)
        case Err(e) => Err(e)
        case Ok(rest) => Ok([Threshold(n, |open|)] + rest)
  }

  /** Thresholds in (0, 1], one per trial. */
  predicate ThresholdsIn(ts: seq<real>, count: nat) {
    |ts| == count && forall i :: 0 <= i < |ts| ==> 0.0 < ts[i] <= 1.0
  }

  lemma PrependThreshold(t: real, r: Result<seq<real>>, count: nat)
    requires 0.0 < t <= 1.0 && r.Ok? && ThresholdsIn(r.value, count)
    ensures Prepend([t], r).Ok? && ThresholdsIn(Prepend([t], r).value, count + 1)
  {
    var ts := [t] + r.value;
    assert forall i :: 1 <= i < |ts| ==> ts[i] == r.value[i - 1];
  }

  /** The first of `count` completed trials: it completes, its threshold
      lies in (0, 1] and comes before those of the completed others. */
  lemma TrialsFirst(n: int, count: nat, draws: seq<int>, k: nat)
    requires n > 0 && AllSlots(n, draws) && k <= |draws| && count > 0
    requires Trials(n, count, draws, k).Ok?
    ensures Trial(n, draws, k, {}).Ok?
    ensures var used := Trial(n, draws, k, {}).value.0;
            var open := Trial(n, draws, k, {}).value.1;
            used <= |draws| && 0.0 < Threshold(n, |open|) <= 1.0
            && Trials(n, count - 1, draws, used).Ok?
            && Trials(n, count, draws, k) == Prepend([Threshold(n, |open|)], Trials(n, count - 1, draws, used))
  {
    TrialEnds(n, draws, k, {});
    TrialOpenCount(n, draws, k);
  }

  /** Completed trials record exactly one threshold each, and every one lies in (0, 1]. */
  lemma {:induction false} TrialsThresholds(n: int, count: nat, draws: seq<int>, k: nat)
    requires n > 0 && AllSlots(n, draws) && k <= |draws|
    requires Trials(n, count, draws, k).Ok?
    ensures ThresholdsIn(Trials(n, count, draws, k).value, count)
    decreases count
  {
    if count > 0 {
      TrialsFirst(n, count, draws, k);
      var used := Trial(n, draws, k, {}).value.0;
      var open := Trial(n, draws, k, {}).value.1;
      TrialsThresholds(n, count - 1, draws, used);
      PrependThreshold(Threshold(n, |open|), Trials(n, count - 1, draws, used), count - 1);
    }
  }

  /** A trial that does not percolate yet opens the site of the next draw
      and goes on from the draw after it. */
  lemma TrialContinues(n: int, draws: seq<int>, start: nat, k: nat, before: set<(int, int)>, after: set<(int, int)>)
    requires n > 0 && AllSlots(n, draws) && start <= k < |draws| && WithinGrid(n, before)
    requires !Reachable(n, before, Top, Bottom) && Trial(n, draws, k, before) == Trial(n, draws, start, {})
    requires after == before + {Decode(n, draws[k])}
    ensures WithinGrid(n, after) && Trial(n, draws, k + 1, after) == Trial(n, draws, start, {})
  {
  }

  /** Decode's formula as a fact the trial loop can use without unfolding
      Decode inside its large verification context. */
  lemma DecodeIs(n: int, site: int)
    requires n > 0
    ensures Decode(n, site) == (site / n + 1, site % n + 1)
  {
  }

  /** The body of the `for` loop of the constructor: open drawn sites of a
      fresh grid until it percolates. Returns the number of open sites and
      the index of the first draw not used. */
  method RunTrial(n: int, draws: seq<int>, start: nat) returns (r: Result<(nat, nat)>)
    requires n > 0 && AllSlots(n, draws) && start <= |draws|
    ensures r.Err? <==> Trial(n, draws, start, {}).Err?
    ensures r.Err? ==> r.error == OutOfDraws
    ensures r.Ok? ==> r.value == (|Trial(n, draws, start, {}).value.1|, Trial(n, draws, start, {}).value.0)
    ensures r.Ok? ==> 1 <= r.value.0 <= n * n && start <= r.value.1 <= |draws|
  {
    var percolation := new Grid.Percolation(n);
    var k := start;
    ghost var openCalls := 0;
    while !percolation.Percolates()
      invariant fresh(percolation) && fresh(percolation.grid) && fresh(percolation.uf)
      invariant percolation.Valid() && percolation.n == n
      invariant start <= k <= |draws|
      invariant Trial(n, draws, k, percolation.openSites) == Trial(n, draws, start, {})
      invariant percolation.numberOfOpenSites == openCalls
      decreases |draws| - k
    {
      if k == |draws| {
        return Err(OutOfDraws);
      }
      ghost var before := percolation.openSites;
      var site := draws[k];
      k := k + 1;
      var col := site % n + 1;
      var row := site / n + 1;
      DecodeIs(n, site);
      if percolation.IsOpen(row, col) != Ok(true) {
        // only a blocked site is opened, so each call adds exactly one open site
        var _ := percolation.Open(row, col);
        openCalls := openCalls + 1;
      } else {
        assert before + {(row, col)} == before;
      }
      assert percolation.openSites == before + {(row, col)};
      TrialContinues(n, draws, start, k - 1, before, percolation.openSites);
    }
    PercolationNeedsOpenSite(n, percolation.openSites);
    r := Ok((percolation.NumberOfOpenSites(), k));
  }

  /** `prefix` followed by the thresholds of r, or r's error. This is the
      same "prepend to a result" shape as `BirthDeath.Prefix`, over a
      sequence of thresholds instead of a table of points. */
  function Prepend(prefix: seq<real>, r: Result<seq<real>>): Result<seq<real>> {
    match r
    case Ok(rest) => Ok(prefix + rest)
    case Err(e) => Err(e)
  }

  lemma PrependNothing(r: Result<seq<real>>)
    ensures Prepend([], r) == r
  {
    match r
    case Ok(rest) => assert [] + rest == rest;
    case Err(_) =>
  }

  lemma PrependTwice(a: seq<real>, b: seq<real>, r: Result<seq<real>>)
    ensures Prepend(a, Prepend(b, r)) == Prepend(a + b, r)
  {
    match r
    case Ok(rest) => assert a + (b + rest) == (a + b) + rest;
    case Err(_) =>
  }

  /** One step of Trials: a trial that ends at draw `used` with `open` open
      sites contributes its threshold before the remaining trials. */
  lemma TrialsStep(n: int, count: nat, draws: seq<int>, k: nat, open: nat, used: nat)
    requires n > 0 && AllSlots(n, draws) && k <= |draws| && count > 0
    requires Trial(n, draws, k, {}).Ok?
    requires (open, used) == (|Trial(n, draws, k, {}).value.1|, Trial(n, draws, k, {}).value.0)
    requires used <= |draws|
    ensures Trials(n, count, draws, k) == Prepend([Threshold(n, open)], Trials(n, count - 1, draws, used))
  {
  }

  /** The constructor of PercolationStats up to the statistics: rejects
      n <= 0 or trials <= 0, otherwise runs `trials` trials one after the
      other on the draws and fills an array with their thresholds. */
  method Thresholds(n: int, trials: int, draws: seq<int>) returns (r: Result<array<real>>)
    requires n > 0 ==> AllSlots(n, draws)
    ensures (n <= 0 || trials <= 0) ==> r == Err(IllegalArgument(ArgumentMessage))
    ensures n > 0 && trials > 0 ==> (r.Ok? <==> Trials(n, trials, draws, 0).Ok?)
    ensures n > 0 && r.Err? && trials > 0 ==> r.error == OutOfDraws
    ensures r.Ok? ==> n > 0 && fresh(r.value) && r.value[..] == Trials(n, trials, draws, 0).value
  {
    if n <= 0 || trials <= 0 {
      return Err(IllegalArgument(ArgumentMessage));
    }
    var thresholds := new real[trials];
    var k := 0;
    PrependNothing(Trials(n, trials, draws, 0));
    for i := 0 to trials
      invariant k <= |draws|
      invariant Trials(n, trials, draws, 0) == Prepend(thresholds[..i], Trials(n, trials - i, draws, k))
    {
      var trial := RunTrial(n, draws, k);
      if trial.Err? {
        return Err(trial.error);
      }
      var (open, next) := trial.value;
      TrialsStep(n, trials - i, draws, k, open, next);
      ghost var done := thresholds[..i];
      thresholds[i] := Threshold(n, open);
      assert thresholds[..i + 1] == done + [Threshold(n, open)];
      PrependTwice(done, [Threshold(n, open)], Trials(n, trials - i - 1, draws, next));
      k := next;
    }
    assert thresholds[..trials] == thresholds[..];
    r := Ok(thresholds);
  }
}
