/** Route requests: train a table towards the goal and walk it greedily from
    the start (route), and join two such routes through a waypoint
    (best_route). The random draws of each training run are parameters. */
module Routing {
  import opened Graph
  import opened QTable
  import opened Trainer
  import opened Extractor

  /** The draws of a route request towards goal are in range and there is
      one per training iteration. An unknown goal fails before any draw. */
  ghost predicate RouteDraws(goal: Location, draws: seq<Draw>)
  {
    goal in LocationToState ==>
      |draws| == TrainingIterations && ValidDraws(GoalRewards(LocationToState[goal]), draws)
  }

  /** The table that training towards a known goal produces. */
  function TrainedFor(goal: Location, draws: seq<Draw>): (t: seq<seq<real>>)
    requires goal in LocationToState && RouteDraws(goal, draws)
    ensures IsTable(t)
  {
    Trained(GoalRewards(LocationToState[goal]), draws)
  }

  /** What route(start, goal) returns: the goal lookup fails on an unknown
      letter, otherwise the greedy path over the table trained towards it. */
  function RouteOf(start: Location, goal: Location, draws: seq<Draw>): Result<seq<Location>>
    requires RouteDraws(goal, draws)
  {
    if goal !in LocationToState then Failure(InvalidLocation)
    else Path(TrainedFor(goal, draws), start, goal, MaxHops)
  }

  /** route: copy R with the goal bonus, train Q in place, then extract the
      greedy path. */
  method Route(start: Location, goal: Location, draws: seq<Draw>) returns (r: Result<seq<Location>>)
    requires RouteDraws(goal, draws)
    ensures r == RouteOf(start, goal, draws)
  {
    if goal !in LocationToState {
      return Failure(InvalidLocation);
    }
    var g := LocationToState[goal];
    var rNew := CopyRewards(g);
    forall i, j | 0 <= i < N && 0 <= j < N
      ensures rNew[i, j] == GoalRewards(g)[i][j]
    {
      GoalRewardsAt(g, i, j);
    }
    var Q := Train(GoalRewards(g), rNew, draws);
    r := GreedyWalk(Q, TrainedFor(goal, draws), start, goal, MaxHops);
  }

  /** A found route starts at the start and ends at the goal, which it
      reaches only at its end; each later location is the greedy move of the
      trained table from the one before. */
  lemma RouteShape(start: Location, goal: Location, draws: seq<Draw>, p: seq<Location>)
    requires RouteDraws(goal, draws) && RouteOf(start, goal, draws) == Success(p)
    ensures goal in LocationToState
    ensures 1 <= |p| <= MaxHops + 1
    ensures p[0] == start && p[|p| - 1] == goal
    ensures forall i :: 0 <= i < |p| - 1 ==> p[i] != goal
    ensures forall i :: 0 <= i < |p| - 1 ==>
      p[i] in LocationToState &&
      p[i + 1] == LocationOf(Greedy(TrainedFor(goal, draws), LocationToState[p[i]]))
  {
    PathShape(TrainedFor(goal, draws), start, goal, MaxHops, p);
  }

  /** How a route request ends: an unknown goal, or an unknown start other
      than the goal, fails the lookup; a route to itself is the one-element
      path; between known locations NoPathFound is reported exactly when no
      number of greedy moves would ever reach the goal, that is, exactly when
      the unbounded loop of the original would not stop. */
  lemma RouteOutcome(start: Location, goal: Location, draws: seq<Draw>)
    requires RouteDraws(goal, draws)
    ensures RouteOf(start, goal, draws) == Failure(InvalidLocation) <==>
      goal !in LocationToState || (start !in LocationToState && start != goal)
    ensures goal in LocationToState ==> RouteOf(goal, goal, draws) == Success([goal])
    ensures start in LocationToState && goal in LocationToState ==>
      (RouteOf(start, goal, draws) == Failure(NoPathFound) <==>
       forall k: nat :: Hop(TrainedFor(goal, draws), LocationToState[start], k) != LocationToState[goal])
  {
    if goal in LocationToState {
      var t := TrainedFor(goal, draws);
      PathInvalidOnlyAtStart(t, start, goal, MaxHops);
      if start in LocationToState {
        NoPathFoundIsForever(t, start, goal, MaxHops);
      }
    }
  }

  /** A draw sampled state s. */
  ghost predicate Sampled(draws: seq<Draw>, s: State)
  {
    exists k :: 0 <= k < |draws| && draws[k].state == s
  }

  /** After training over rw, the greedy move from a sampled state follows
      a positive reward of rw: the sampled row has a positive entry, so its
      maximum is positive, and positive entries only sit on rewarded cells. */
  lemma GreedyFollowsRewards(rw: seq<seq<int>>, draws: seq<Draw>, s: State)
    requires IsSquare(rw) && ValidDraws(rw, draws) && Sampled(draws, s)
    ensures rw[s][Greedy(Trained(rw, draws), s)] > 0
  {
    var t := Trained(rw, draws);
    var k :| 0 <= k < |draws| && draws[k].state == s;
    var n := NextState(rw, draws[k]);
    TrainedSupport(rw, draws, s, n);
    assert Visited(rw, draws, s, n);
    ArgmaxIsFirstMax(t[s]);
    TrainedSupport(rw, draws, s, Greedy(t, s));
  }

  /** A move of a found route leaves along an edge of R whenever training
      sampled the state it leaves from. */
  lemma RouteFollowsEdges(start: Location, goal: Location, draws: seq<Draw>, p: seq<Location>, i: nat)
    requires RouteDraws(goal, draws) && RouteOf(start, goal, draws) == Success(p)
    requires i < |p| - 1 && p[i] in LocationToState && Sampled(draws, LocationToState[p[i]])
    ensures p[i + 1] in LocationToState
    ensures Reward(LocationToState[p[i]], LocationToState[p[i + 1]]) > 0
  {
    RouteShape(start, goal, draws, p);
    var g := LocationToState[goal];
    var s := LocationToState[p[i]];
    var a := Greedy(TrainedFor(goal, draws), s);
    GreedyFollowsRewards(GoalRewards(g), draws, s);
    GoalRewardsAt(g, s, a);
    assert s != g;
  }

  /** A row that no draw sampled stays all zero, so the greedy move from it
      goes to state 0, location A, whether or not A is a neighbour. */
  lemma UnsampledRowLeadsToA(goal: Location, draws: seq<Draw>, s: State)
    requires goal in LocationToState && RouteDraws(goal, draws) && !Sampled(draws, s)
    ensures Greedy(TrainedFor(goal, draws), s) == 0 && LocationOf(0) == 'A'
  {
    var rw := GoalRewards(LocationToState[goal]);
    var t := TrainedFor(goal, draws);
    TrainedNonNegative(rw, draws);
    forall j | 0 <= j < N
      ensures t[s][j] == 0.0
    {
      TrainedSupport(rw, draws, s, j);
      assert !Visited(rw, draws, s, j);
    }
    ArgmaxOfFlatRow(t[s]);
    StateToLocationTotal(0);
  }

  /** Greedy walks over the all-zero table of a run without iterations:
      every move goes to A, so from a start other than the goal the walk is
      [start, A] when the goal is A and runs out of hops otherwise. */
  lemma ZeroTableWalk(start: Location, goal: Location, fuel: nat)
    requires start in LocationToState && goal in LocationToState && start != goal && fuel >= 1
    ensures Path(Zeros(), start, goal, fuel) ==
      if goal == 'A' then Success([start, 'A']) else Failure(NoPathFound)
  {
    var t := Zeros();
    forall s: State
      ensures Greedy(t, s) == 0
    {
      ArgmaxOfFlatRow(t[s]);
    }
    StateToLocationTotal(0);
    assert LocationOf(0) == 'A';
    var s := LocationToState[start];
    assert LocationOf(s) == start;
    if goal == 'A' {
      assert Greedy(t, s) == 0;
      assert Path(t, start, goal, fuel) == Prepend([start], Path(t, 'A', goal, fuel - 1));
      assert Path(t, 'A', goal, fuel - 1) == Success(['A']);
      assert [start] + ['A'] == [start, 'A'];
    } else {
      forall k | 0 <= k <= fuel
        ensures LocationOf(Hop(t, s, k)) != goal
      {
        if k > 0 {
          assert Hop(t, s, k) == 0;
        }
      }
      MissedMeansNotFound(t, s, goal, fuel);
    }
  }

  /** best_route(start, via, goal): the route to via followed by the route
      from via to goal without its first location; either request's failure
      fails the whole, the first one checked first. */
  function BestRoute(start: Location, via: Location, goal: Location,
                     toVia: seq<Draw>, toGoal: seq<Draw>): Result<seq<Location>>
    requires RouteDraws(via, toVia) && RouteDraws(goal, toGoal)
  {
    match RouteOf(start, via, toVia)
    case Failure(e) => Failure(e)
    case Success(first) =>
      match RouteOf(via, goal, toGoal)
      case Failure(e) => Failure(e)
      case Success(second) =>
        RouteShape(via, goal, toGoal, second);
        Success(first + second[1..])
  }

  /** Joining a path that ends at via with one that starts at via, the
      second without its first element. */
  lemma Splice(first: seq<Location>, second: seq<Location>, via: Location)
    requires |first| > 0 && |second| > 0 && first[|first| - 1] == via && second[0] == via
    ensures var p := first + second[1..];
      |p| == |first| + |second| - 1 &&
      p[..|first|] == first && p[|first| - 1..] == second &&
      p[0] == first[0] && p[|p| - 1] == second[|second| - 1] && via in p
  {
    var p := first + second[1..];
    assert p[..|first|] == first;
    assert p[|first| - 1..] == [via] + second[1..];
    assert second == [via] + second[1..];
    assert p[|first| - 1] == via;
  }

  /** A composed route is the two routes spliced at via: it starts at start,
      passes through via at the end of the first route, ends at goal, and
      has one location fewer than the two routes together. */
  lemma BestRouteShape(start: Location, via: Location, goal: Location,
                       toVia: seq<Draw>, toGoal: seq<Draw>, p: seq<Location>)
    requires RouteDraws(via, toVia) && RouteDraws(goal, toGoal)
    requires BestRoute(start, via, goal, toVia, toGoal) == Success(p)
    ensures RouteOf(start, via, toVia).Success? && RouteOf(via, goal, toGoal).Success?
    ensures var first, second := RouteOf(start, via, toVia).value, RouteOf(via, goal, toGoal).value;
      |p| == |first| + |second| - 1 &&
      p[..|first|] == first && p[|first| - 1..] == second
    ensures p[0] == start && p[|p| - 1] == goal
    ensures via in p
  {
    var first := RouteOf(start, via, toVia).value;
    var second := RouteOf(via, goal, toGoal).value;
    RouteShape(start, via, toVia, first);
    RouteShape(via, goal, toGoal, second);
    Splice(first, second, via);
  }

  /** A composed request fails exactly when one of its two routes fails,
      with the error of the first failing one: the first route's error when
      it fails, otherwise the second route's. */
  lemma BestRouteFails(start: Location, via: Location, goal: Location,
                       toVia: seq<Draw>, toGoal: seq<Draw>)
    requires RouteDraws(via, toVia) && RouteDraws(goal, toGoal)
    ensures BestRoute(start, via, goal, toVia, toGoal).Failure? <==>
      RouteOf(start, via, toVia).Failure? || RouteOf(via, goal, toGoal).Failure?
    ensures RouteOf(start, via, toVia).Failure? ==>
      BestRoute(start, via, goal, toVia, toGoal) == RouteOf(start, via, toVia)
    ensures RouteOf(start, via, toVia).Success? && RouteOf(via, goal, toGoal).Failure? ==>
      BestRoute(start, via, goal, toVia, toGoal) == RouteOf(via, goal, toGoal)
  {
  }
}
