/** Simulation of a birth-death process on the states 0 .. N: from state s
    a birth happens at rate (N - s) * lambd and a death at rate s * mu. The
    simulation records the time and state after every event up to the
    horizon T. The random numbers are given instead of drawn: `exps` holds
    standard exponential variates (a waiting time with rate r is e * (1 / r))
    and `us` uniform variates in [0, 1) that choose the kind of event. A run
    that needs a draw after the last one fails with `OutOfDraws`. */
module BirthDeath {
  import opened Outcomes

  /** The parameters of `simulate_birth_death_process` besides the initial state. */
  datatype Params = Params(N: int, lambd: real, mu: real, T: real)

  /** The two columns of the returned table, in recording order. */
  datatype Trajectory = Trajectory(times: seq<real>, states: seq<int>)

  function BirthRate(p: Params, s: int): real {
    (p.N - s) as real * p.lambd
  }

  function DeathRate(p: Params, s: int): real {
    s as real * p.mu
  }

  function TotalRate(p: Params, s: int): real {
    BirthRate(p, s) + DeathRate(p, s)
  }

  /** The waiting time until the next event when events happen at the
      given rate, drawn with the standard exponential variate e: an
      exponential variate with scale 1 / rate. */
  function WaitingTime(rate: real, e: real): real
    requires rate > 0.0
  {
    e * (1.0 / rate)
  }

  /** The time of the event after time t in state s. */
  function NextTime(p: Params, s: int, t: real, e: real): real
    requires TotalRate(p, s) > 0.0
  {
    t + WaitingTime(TotalRate(p, s), e)
  }

  /** The state after the event chosen by the uniform variate u in state s:
      a birth when u < birth rate / total rate, a death otherwise. */
  function NextState(p: Params, s: int, u: real): int
    requires TotalRate(p, s) > 0.0
  {
    if u < BirthRate(p, s) / TotalRate(p, s) then s + 1 else s - 1
  }

  /** The points the loop appends when it is in state s at time t, the k-th
      event being drawn with exps[k] and us[k]. */
  function Events(p: Params, s: int, t: real, exps: seq<real>, us: seq<real>, k: nat): Result<Trajectory>
    decreases |exps| - k
  {
    if !(t < p.T) || TotalRate(p, s) <= 0.0 then Ok(Trajectory([], []))
    else if k >= |exps| then Err(OutOfDraws)
    else
      var t' := NextTime(p, s, t, exps[k]);
      if t' > p.T then Ok(Trajectory([], []))
      else if k >= |us| then Err(OutOfDraws)
      else
        var s' := NextState(p, s, us[k]);
        Prefix([t'], [s'], Events(p, s', t', exps, us, k + 1))
  }

  /** Points (ts, ss) followed by those of r, or r's error. This is the
      same "prepend to a result" shape as `PercolationStats.Prepend`, over a
      table of (time, state) points instead of thresholds. */
  function Prefix(ts: seq<real>, ss: seq<int>, r: Result<Trajectory>): Result<Trajectory> {
    match r
    case Ok(rest) => Ok(Trajectory(ts + rest.times, ss + rest.states))
    case Err(e) => Err(e)
  }

  /** The whole table: the starting point (0, initial) and the events after it. */
  function Simulate(p: Params, initial: int, exps: seq<real>, us: seq<real>): Result<Trajectory> {
    Prefix([0.0], [initial], Events(p, initial, 0.0, exps, us, 0))
  }

  /** `simulate_birth_death_process`: the event loop, appending to the two
      columns until the time passes T or no event can happen. */
  method SimulateBirthDeathProcess(N: int, lambd: real, mu: real, initialState: int, T: real,
                                   exps: seq<real>, us: seq<real>) returns (r: Result<Trajectory>)
    ensures r == Simulate(Params(N, lambd, mu, T), initialState, exps, us)
  {
    var p := Params(N, lambd, mu, T);
    var currentState := initialState;
    var currentTime := 0.0;
    var times := [currentTime];
    var states := [currentState];
    var k := 0;
    PrefixNothing(Events(p, initialState, 0.0, exps, us, 0));
    while currentTime < T
      invariant Simulate(p, initialState, exps, us) == Prefix(times, states, Events(p, currentState, currentTime, exps, us, k))
      decreases |exps| - k
    {
      var birthRate := BirthRate(p, currentState);
      var totalRate := TotalRate(p, currentState);
      if totalRate > 0.0 {
        if k >= |exps| {
          assert Simulate(p, initialState, exps, us) == Err(OutOfDraws);
          return Err(OutOfDraws);
        }
        ghost var before := (times, states, currentState, currentTime);
        var timeToNextEvent := WaitingTime(totalRate, exps[k]);
        currentTime := currentTime + timeToNextEvent;
        if currentTime > T {
          assert Simulate(p, initialState, exps, us) == Ok(Trajectory(times, states)) by {
            assert Events(p, before.2, before.3, exps, us, k) == Ok(Trajectory([], []));
            PrefixNone(times, states);
          }
          break;
        }
        if k >= |us| {
          assert Simulate(p, initialState, exps, us) == Err(OutOfDraws);
          return Err(OutOfDraws);
        }
        if us[k] < birthRate / totalRate {
          currentState := currentState + 1;
        } else {
          currentState := currentState - 1;
        }
        assert Simulate(p, initialState, exps, us)
               == Prefix(before.0 + [currentTime], before.1 + [currentState], Events(p, currentState, currentTime, exps, us, k + 1)) by {
          EventsStep(p, before.2, before.3, exps, us, k);
          assert currentTime == NextTime(p, before.2, before.3, exps[k]);
          assert currentState == NextState(p, before.2, us[k]);
          PrefixTwice(before.0, before.1, [currentTime], [currentState], Events(p, currentState, currentTime, exps, us, k + 1));
        }
        k := k + 1;
        times := times + [currentTime];
        states := states + [currentState];
      } else {
        assert Simulate(p, initialState, exps, us) == Ok(Trajectory(times, states)) by {
          PrefixNone(times, states);
        }
        break;
      }
    }
    assert Simulate(p, initialState, exps, us) == Ok(Trajectory(times, states)) by {
      if !(currentTime < T) {
        PrefixNone(times, states);
      }
    }
    r := Ok(Trajectory(times, states));
  }

  /** An event recorded from state s at time t. */
  lemma EventsStep(p: Params, s: int, t: real, exps: seq<real>, us: seq<real>, k: nat)
    requires t < p.T && TotalRate(p, s) > 0.0 && k < |exps| && k < |us|
    requires NextTime(p, s, t, exps[k]) <= p.T
    ensures Events(p, s, t, exps, us, k)
            == Prefix([NextTime(p, s, t, exps[k])], [NextState(p, s, us[k])],
                      Events(p, NextState(p, s, us[k]), NextTime(p, s, t, exps[k]), exps, us, k + 1))
  {
  }

  lemma PrefixNothing(r: Result<Trajectory>)
    ensures Prefix([], [], r) == r
  {
    match r
    case Ok(rest) => assert [] + rest.times == rest.times && [] + rest.states == rest.states;
    case Err(_) =>
  }

  lemma PrefixNone(ts: seq<real>, ss: seq<int>)
    ensures Prefix(ts, ss, Ok(Trajectory([], []))) == Ok(Trajectory(ts, ss))
  {
    assert ts + [] == ts && ss + [] == ss;
  }

  lemma PrefixTwice(ts: seq<real>, ss: seq<int>, ts': seq<real>, ss': seq<int>, r: Result<Trajectory>)
    ensures Prefix(ts, ss, Prefix(ts', ss', r)) == Prefix(ts + ts', ss + ss', r)
  {
    match r
    case Ok(rest) =>
      assert ts + (ts' + rest.times) == (ts + ts') + rest.times;
      assert ss + (ss' + rest.states) == (ss + ss') + rest.states;
    case Err(_) =>
  }

  /** One recorded event: from (t, s) with the draws e and u the process
      moves to (t', s'); an event needs a time before T and a positive total rate, comes e over
      the total rate after t, is recorded only up to T, and is a birth
      exactly when u is below the share of the birth rate. */
  ghost predicate Step(p: Params, t: real, s: int, e: real, u: real, t': real, s': int) {
    t < p.T && TotalRate(p, s) > 0.0
    && t' == t + WaitingTime(TotalRate(p, s), e) && t' <= p.T
    && (s' == s + 1 <==> u < BirthRate(p, s) / TotalRate(p, s))
    && (s' == s + 1 || s' == s - 1)
  }

  /** The table (times, states) is made of events, the k-th using the
      exponential draw exps[k] and the uniform draw us[k]. */
  ghost predicate Follows(p: Params, tr: Trajectory, exps: seq<real>, us: seq<real>) {
    |tr.times| == |tr.states| > 0
    && |tr.states| - 1 <= |exps| && |tr.states| - 1 <= |us|
    && forall k :: 0 <= k < |tr.states| - 1 ==>
         Step(p, tr.times[k], tr.states[k], exps[k], us[k], tr.times[k + 1], tr.states[k + 1])
  }

  /** The events from (t, s), with draws from i on, follow each other step by step. */
  lemma {:induction false} EventsFollow(p: Params, s: int, t: real, exps: seq<real>, us: seq<real>, i: nat)
    requires Events(p, s, t, exps, us, i).Ok?
    ensures var rest := Events(p, s, t, exps, us, i).value;
            |rest.states| == |rest.times|
            && (|rest.states| > 0 ==> i + |rest.states| <= |exps| && i + |rest.states| <= |us|)
            && var tr := Trajectory([t] + rest.times, [s] + rest.states);
               forall k :: 0 <= k < |rest.states| ==>
                 Step(p, tr.times[k], tr.states[k], exps[i + k], us[i + k], tr.times[k + 1], tr.states[k + 1])
    decreases |exps| - i
  {
    var rest := Events(p, s, t, exps, us, i).value;
    if rest.states != [] {
      var t' := NextTime(p, s, t, exps[i]);
      var s' := NextState(p, s, us[i]);
      var later := Events(p, s', t', exps, us, i + 1);
      EventsFollow(p, s', t', exps, us, i + 1);
      assert rest == Trajectory([t'] + later.value.times, [s'] + later.value.states);
      var tr := Trajectory([t] + rest.times, [s] + rest.states);
      var tr' := Trajectory([t'] + later.value.times, [s'] + later.value.states);
      forall k | 0 <= k < |rest.states|
        ensures Step(p, tr.times[k], tr.states[k], exps[i + k], us[i + k], tr.times[k + 1], tr.states[k + 1])
      {
        if k > 0 {
          assert tr.times[k] == tr'.times[k - 1] && tr.times[k + 1] == tr'.times[k];
          assert tr.states[k] == tr'.states[k - 1] && tr.states[k + 1] == tr'.states[k];
        }
      }
    }
  }

  /** A completed run starts at (0, initial), has columns of equal length
      and is made of events drawn one after the other. */
  lemma SimulateFollows(p: Params, initial: int, exps: seq<real>, us: seq<real>)
    requires Simulate(p, initial, exps, us).Ok?
    ensures var tr := Simulate(p, initial, exps, us).value;
            tr.times[0] == 0.0 && tr.states[0] == initial && Follows(p, tr, exps, us)
  {
    EventsFollow(p, initial, 0.0, exps, us, 0);
  }

  /** The run stopped at time t in state s with the exponential draws from
      k on: the time reached T, no event can happen, or the next event
      would come after T. */
  ghost predicate Stopped(p: Params, t: real, s: int, exps: seq<real>, k: nat) {
    !(t < p.T) || TotalRate(p, s) <= 0.0 || (k < |exps| && NextTime(p, s, t, exps[k]) > p.T)
  }

  /** The last point of the table is one where the run stops. */
  ghost predicate Complete(p: Params, tr: Trajectory, exps: seq<real>)
    requires |tr.times| == |tr.states| > 0
  {
    var last := |tr.states| - 1;
    Stopped(p, tr.times[last], tr.states[last], exps, last)
  }

  /** The events from (t, s) end where the run stops. */
  lemma {:induction false} EventsEnd(p: Params, s: int, t: real, exps: seq<real>, us: seq<real>, i: nat)
    requires Events(p, s, t, exps, us, i).Ok?
    ensures var rest := Events(p, s, t, exps, us, i).value;
            |rest.states| == |rest.times|
            && var tr := Trajectory([t] + rest.times, [s] + rest.states);
               Stopped(p, tr.times[|rest.states|], tr.states[|rest.states|], exps, i + |rest.states|)
    decreases |exps| - i
  {
    var rest := Events(p, s, t, exps, us, i).value;
    if rest.states != [] {
      var t' := NextTime(p, s, t, exps[i]);
      var s' := NextState(p, s, us[i]);
      var later := Events(p, s', t', exps, us, i + 1).value;
      EventsEnd(p, s', t', exps, us, i + 1);
      assert rest == Trajectory([t'] + later.times, [s'] + later.states);
      assert ([t] + rest.times)[|rest.states|] == ([t'] + later.times)[|later.states|];
      assert ([s] + rest.states)[|rest.states|] == ([s'] + later.states)[|later.states|];
    }
  }

  /** A completed run ends where the loop stops. */
  lemma SimulateEnds(p: Params, initial: int, exps: seq<real>, us: seq<real>)
    requires Simulate(p, initial, exps, us).Ok?
    ensures var tr := Simulate(p, initial, exps, us).value;
            |tr.times| == |tr.states| > 0 && Complete(p, tr, exps)
  {
    EventsEnd(p, initial, 0.0, exps, us, 0);
  }

  /** A table that is made of events and ends where the run stops is, from
      each of its points on, what the loop appends from there. */
  lemma {:induction false} EventsOfComplete(p: Params, tr: Trajectory, exps: seq<real>, us: seq<real>, k: nat)
    requires Follows(p, tr, exps, us) && Complete(p, tr, exps) && k < |tr.states|
    ensures Events(p, tr.states[k], tr.times[k], exps, us, k) == Ok(Trajectory(tr.times[k + 1..], tr.states[k + 1..]))
    decreases |tr.states| - k
  {
    if k < |tr.states| - 1 {
      var t, s := tr.times[k], tr.states[k];
      assert Step(p, t, s, exps[k], us[k], tr.times[k + 1], tr.states[k + 1]);
      assert tr.times[k + 1] == NextTime(p, s, t, exps[k]);
      assert tr.states[k + 1] == NextState(p, s, us[k]);
      EventsStep(p, s, t, exps, us, k);
      EventsOfComplete(p, tr, exps, us, k + 1);
      assert [tr.times[k + 1]] + tr.times[k + 2..] == tr.times[k + 1..];
      assert [tr.states[k + 1]] + tr.states[k + 2..] == tr.states[k + 1..];
    } else {
      assert tr.times[k + 1..] == [] && tr.states[k + 1..] == [];
    }
  }

  /** The table a run returns is characterised without the loop: it is the
      one starting at (0, initial), made of events drawn in order, and
      ending where the run stops. */
  lemma SimulateIff(p: Params, initial: int, exps: seq<real>, us: seq<real>, tr: Trajectory)
    ensures Simulate(p, initial, exps, us) == Ok(tr)
            <==> Follows(p, tr, exps, us) && tr.times[0] == 0.0 && tr.states[0] == initial && Complete(p, tr, exps)
  {
    if Simulate(p, initial, exps, us) == Ok(tr) {
      SimulateFollows(p, initial, exps, us);
      SimulateEnds(p, initial, exps, us);
    }
    if Follows(p, tr, exps, us) && tr.times[0] == 0.0 && tr.states[0] == initial && Complete(p, tr, exps) {
      EventsOfComplete(p, tr, exps, us, 0);
      assert [0.0] + tr.times[1..] == tr.times;
      assert [initial] + tr.states[1..] == tr.states;
    }
  }

  /** In state 0 only a birth and in state N only a death can happen, so a
      step from a state in [0, N] with a uniform draw in [0, 1) stays in [0, N]. */
  lemma StepInRange(p: Params, t: real, s: int, e: real, u: real, t': real, s': int)
    requires 0 <= s <= p.N && 0.0 <= u < 1.0
    requires Step(p, t, s, e, u, t', s')
    ensures 0 <= s' <= p.N
  {
    if s == 0 {
      assert DeathRate(p, s) == 0.0;
      assert BirthRate(p, s) / TotalRate(p, s) == 1.0;
    }
    if s == p.N {
      assert BirthRate(p, s) == 0.0;
      assert BirthRate(p, s) / TotalRate(p, s) == 0.0;
    }
  }

  /** Uniform draws in [0, 1). */
  predicate Uniforms(us: seq<real>) {
    forall k :: 0 <= k < |us| ==> 0.0 <= us[k] < 1.0
  }

  lemma {:induction false} FollowsInRange(p: Params, tr: Trajectory, exps: seq<real>, us: seq<real>, k: nat)
    requires Follows(p, tr, exps, us) && Uniforms(us) && 0 <= tr.states[0] <= p.N && k < |tr.states|
    ensures 0 <= tr.states[k] <= p.N
  {
    if k > 0 {
      FollowsInRange(p, tr, exps, us, k - 1);
      StepInRange(p, tr.times[k - 1], tr.states[k - 1], exps[k - 1], us[k - 1], tr.times[k], tr.states[k]);
    }
  }

  /** Started in [0, N] with uniform draws in [0, 1), the population stays in [0, N]. */
  lemma SimulateInRange(p: Params, initial: int, exps: seq<real>, us: seq<real>)
    requires Simulate(p, initial, exps, us).Ok? && 0 <= initial <= p.N && Uniforms(us)
    ensures var tr := Simulate(p, initial, exps, us).value;
            forall k :: 0 <= k < |tr.states| ==> 0 <= tr.states[k] <= p.N
  {
    var tr := Simulate(p, initial, exps, us).value;
    SimulateFollows(p, initial, exps, us);
    forall k | 0 <= k < |tr.states|
      ensures 0 <= tr.states[k] <= p.N
    {
      FollowsInRange(p, tr, exps, us, k);
    }
  }

  /** The table starts at (0, initial), every recorded event moves the
      population by one, and every point but the last is in a state where
      some event can happen. */
  lemma SimulateSteps(p: Params, initial: int, exps: seq<real>, us: seq<real>)
    requires Simulate(p, initial, exps, us).Ok?
    ensures var tr := Simulate(p, initial, exps, us).value;
            |tr.times| == |tr.states| > 0 && tr.times[0] == 0.0 && tr.states[0] == initial
            && (forall k :: 0 <= k < |tr.states| - 1 ==> tr.states[k + 1] == tr.states[k] + 1 || tr.states[k + 1] == tr.states[k] - 1)
            && (forall k :: 0 <= k < |tr.states| - 1 ==> TotalRate(p, tr.states[k]) > 0.0)
  {
    var tr := Simulate(p, initial, exps, us).value;
    SimulateFollows(p, initial, exps, us);
    forall k | 0 <= k < |tr.states| - 1
      ensures TotalRate(p, tr.states[k]) > 0.0
    {
      assert Step(p, tr.times[k], tr.states[k], exps[k], us[k], tr.times[k + 1], tr.states[k + 1]);
    }
  }

  /** Every point but the first is recorded no later than T, and every
      point but the last is before T. */
  lemma SimulateTimesBounded(p: Params, initial: int, exps: seq<real>, us: seq<real>)
    requires Simulate(p, initial, exps, us).Ok?
    ensures var tr := Simulate(p, initial, exps, us).value;
            |tr.times| == |tr.states|
            && (forall k :: 1 <= k < |tr.times| ==> tr.times[k] <= p.T)
            && (forall k :: 0 <= k < |tr.times| - 1 ==> tr.times[k] < p.T)
  {
    var tr := Simulate(p, initial, exps, us).value;
    SimulateFollows(p, initial, exps, us);
    forall k | 0 <= k < |tr.times| - 1
      ensures tr.times[k] < p.T
    {
      assert Step(p, tr.times[k], tr.states[k], exps[k], us[k], tr.times[k + 1], tr.states[k + 1]);
    }
    forall k | 1 <= k < |tr.times|
      ensures tr.times[k] <= p.T
    {
      assert Step(p, tr.times[k - 1], tr.states[k - 1], exps[k - 1], us[k - 1], tr.times[k], tr.states[k]);
    }
  }

  lemma WaitingTimePositive(rate: real, e: real)
    requires rate > 0.0 && e > 0.0
    ensures WaitingTime(rate, e) > 0.0
  {
    assert 1.0 / rate > 0.0;
  }

  /** Positive exponential draws. */
  predicate Positive(exps: seq<real>) {
    forall k :: 0 <= k < |exps| ==> exps[k] > 0.0
  }

  lemma {:induction false} FollowsIncreasing(p: Params, tr: Trajectory, exps: seq<real>, us: seq<real>, i: nat, j: nat)
    requires Follows(p, tr, exps, us) && Positive(exps) && i < j < |tr.times|
    ensures tr.times[i] < tr.times[j]
    decreases j - i
  {
    var s := tr.states[i];
    assert Step(p, tr.times[i], s, exps[i], us[i], tr.times[i + 1], tr.states[i + 1]);
    WaitingTimePositive(TotalRate(p, s), exps[i]);
    if i + 1 < j {
      FollowsIncreasing(p, tr, exps, us, i + 1, j);
    }
  }

  /** With positive waiting-time draws the recorded times strictly increase. */
  lemma SimulateTimesIncrease(p: Params, initial: int, exps: seq<real>, us: seq<real>)
    requires Simulate(p, initial, exps, us).Ok? && Positive(exps)
    ensures var tr := Simulate(p, initial, exps, us).value;
            forall i, j :: 0 <= i < j < |tr.times| ==> tr.times[i] < tr.times[j]
  {
    var tr := Simulate(p, initial, exps, us).value;
    SimulateFollows(p, initial, exps, us);
    forall i, j | 0 <= i < j < |tr.times|
      ensures tr.times[i] < tr.times[j]
    {
      FollowsIncreasing(p, tr, exps, us, i, j);
    }
  }

  /** With no time before T or no possible event at the start, the table
      holds the starting point alone. */
  lemma StuckAtStart(p: Params, initial: int, exps: seq<real>, us: seq<real>)
    requires !(0.0 < p.T) || TotalRate(p, initial) <= 0.0
    ensures Simulate(p, initial, exps, us) == Ok(Trajectory([0.0], [initial]))
  {
    PrefixNone([0.0], [initial]);
  }

  /** A population of one, born at rate 1 and never dying, over the horizon
      100, started empty: at most one event happens, and it is the birth. */
  lemma SingleBirthScenario(p: Params, exps: seq<real>, us: seq<real>)
    requires p.N == 1 && p.lambd == 1.0 && p.mu == 0.0 && p.T == 100.0 && Uniforms(us)
    requires Simulate(p, 0, exps, us).Ok?
    ensures var tr := Simulate(p, 0, exps, us).value;
            |tr.states| <= 2 && (|tr.states| == 2 ==> tr.states == [0, 1])
  {
    var tr := Simulate(p, 0, exps, us).value;
    SimulateSteps(p, 0, exps, us);
    SimulateInRange(p, 0, exps, us);
    if |tr.states| >= 2 {
      assert tr.states[1] == 1;
      assert TotalRate(p, tr.states[1]) == 0.0;
    }
  }
}
