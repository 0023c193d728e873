/** The greedy path extractor: from a trained table, walk from the start
    location, each time moving to the argmax of the current state's row,
    until the goal is reached. The walk is bounded by MaxHops hops; a
    pigeonhole argument shows that a walk which has not arrived after N hops
    never arrives, so the bound only turns an endless loop into NoPathFound. */
module Extractor {
  import opened Graph
  import opened QTable

  /** Why a route request fails: an unknown location letter, or a greedy walk
      that never reaches the goal. */
  datatype Error = InvalidLocation | NoPathFound

  datatype Result<T> = Success(value: T) | Failure(error: Error)

  /** Hop bound of the greedy walk. */
  const MaxHops: nat := N

  /** The greedy action of state s: the first best entry of its row. */
  function Greedy(t: seq<seq<real>>, s: State): (a: State)
    requires IsTable(t)
    ensures t[s][a] == Max(t[s])
    ensures forall j :: 0 <= j < a ==> t[s][j] < t[s][a]
  {
    ArgmaxIsFirstMax(t[s]);
    Argmax(t[s])
  }

  /** The state reached from s after k greedy moves. */
  function Hop(t: seq<seq<real>>, s: State, k: nat): State
    requires IsTable(t)
  {
    if k == 0 then s else Greedy(t, Hop(t, s, k - 1))
  }

  /** Puts prefix in front of a successful path; failures pass through. */
  function Prepend(prefix: seq<Location>, r: Result<seq<Location>>): Result<seq<Location>>
  {
    match r
    case Success(p) => Success(prefix + p)
    case Failure(e) => Failure(e)
  }

  /** The path the extraction loop builds from cur, with at most fuel hops
      left: the current location is always on it, the walk stops on
      reaching the goal, an unknown letter fails the lookup of its row, and
      running out of hops fails with NoPathFound. */
  function Path(t: seq<seq<real>>, cur: Location, goal: Location, fuel: nat): Result<seq<Location>>
    requires IsTable(t)
    decreases fuel
  {
    if cur == goal then Success([cur])
    else if cur !in LocationToState then Failure(InvalidLocation)
    else if fuel == 0 then Failure(NoPathFound)
    else Prepend([cur], Path(t, LocationOf(Greedy(t, LocationToState[cur])), goal, fuel - 1))
  }

  /** A successful path starts at the start, ends at the goal and visits the
      goal nowhere before its end, has at most fuel hops, and each later
      location is the greedy move from the one before it. */
  lemma {:induction false} PathShape(t: seq<seq<real>>, cur: Location, goal: Location, fuel: nat, p: seq<Location>)
    requires IsTable(t) && Path(t, cur, goal, fuel) == Success(p)
    ensures 1 <= |p| <= fuel + 1
    ensures p[0] == cur && p[|p| - 1] == goal
    ensures forall i :: 0 <= i < |p| - 1 ==> p[i] != goal
    ensures forall i :: 0 <= i < |p| - 1 ==>
      p[i] in LocationToState && p[i + 1] == LocationOf(Greedy(t, LocationToState[p[i]]))
    decreases fuel
  {
    if cur != goal {
      var next := LocationOf(Greedy(t, LocationToState[cur]));
      var rest := Path(t, next, goal, fuel - 1);
      PathShape(t, next, goal, fuel - 1, rest.value);
      assert p == [cur] + rest.value;
      forall i | 1 <= i < |p| - 1
        ensures p[i] != goal && p[i] in LocationToState && p[i + 1] == LocationOf(Greedy(t, LocationToState[p[i]]))
      {
        assert p[i] == rest.value[i - 1] && p[i + 1] == rest.value[i];
      }
    }
  }

  /** A walk starting from a known location never fails a lookup: the path
      fails with InvalidLocation exactly when the start is unknown and is not
      the goal. */
  lemma {:induction false} PathInvalidOnlyAtStart(t: seq<seq<real>>, cur: Location, goal: Location, fuel: nat)
    requires IsTable(t)
    ensures Path(t, cur, goal, fuel) == Failure(InvalidLocation) <==> cur != goal && cur !in LocationToState
    decreases fuel
  {
    if cur != goal && cur in LocationToState && fuel > 0 {
      PathInvalidOnlyAtStart(t, LocationOf(Greedy(t, LocationToState[cur])), goal, fuel - 1);
    }
  }

  /** k + m greedy moves are k moves followed by m moves. */
  lemma {:induction false} HopAdd(t: seq<seq<real>>, s: State, k: nat, m: nat)
    requires IsTable(t)
    ensures Hop(t, s, k + m) == Hop(t, Hop(t, s, k), m)
    decreases m
  {
    if m > 0 {
      HopAdd(t, s, k, m - 1);
    }
  }

  /** From a known start, a walk that reaches the goal within fuel greedy
      moves does not run out of hops. */
  lemma {:induction false} ReachedMeansFound(t: seq<seq<real>>, s: State, goal: Location, fuel: nat, k: nat)
    requires IsTable(t) && k <= fuel && LocationOf(Hop(t, s, k)) == goal
    ensures Path(t, LocationOf(s), goal, fuel) != Failure(NoPathFound)
    decreases fuel
  {
    var cur := LocationOf(s);
    assert LocationToState[cur] == s;
    if cur != goal {
      assert k != 0;
      var n := Greedy(t, s);
      HopAdd(t, s, 1, k - 1);
      ReachedMeansFound(t, n, goal, fuel - 1, k - 1);
      assert Path(t, cur, goal, fuel) == Prepend([cur], Path(t, LocationOf(n), goal, fuel - 1));
    }
  }

  /** From a known start, a walk whose first fuel + 1 locations all miss
      the goal runs out of hops. */
  lemma {:induction false} MissedMeansNotFound(t: seq<seq<real>>, s: State, goal: Location, fuel: nat)
    requires IsTable(t)
    requires forall k :: 0 <= k <= fuel ==> LocationOf(Hop(t, s, k)) != goal
    ensures Path(t, LocationOf(s), goal, fuel) == Failure(NoPathFound)
    decreases fuel
  {
    var cur := LocationOf(s);
    assert LocationToState[cur] == s;
    assert Hop(t, s, 0) == s;
    if fuel > 0 {
      var n := Greedy(t, s);
      forall k | 0 <= k <= fuel - 1
        ensures LocationOf(Hop(t, n, k)) != goal
      {
        HopAdd(t, s, 1, k);
        assert Hop(t, s, 1) == n;
        assert Hop(t, s, k + 1) == Hop(t, n, k);
      }
      MissedMeansNotFound(t, n, goal, fuel - 1);
      assert Path(t, cur, goal, fuel) == Prepend([cur], Path(t, LocationOf(n), goal, fuel - 1));
    }
  }

  /** The distinct elements of a duplicate-free sequence number its length. */
  lemma {:induction false} DistinctCard(q: seq<int>)
    requires forall i, j :: 0 <= i < j < |q| ==> q[i] != q[j]
    ensures |set x | x in q| == |q|
  {
    if |q| > 0 {
      var front := q[..|q| - 1];
      DistinctCard(front);
      var last := q[|q| - 1];
      assert q == front + [last];
      var seen: set<int> := set x | x in front;
      assert (set x | x in q) == seen + {last};
      assert last !in seen;
    }
  }

  /** A subset has no more elements than its superset. */
  lemma {:induction false} SubsetCard(a: set<int>, b: set<int>)
    requires a <= b
    ensures |a| <= |b|
  {
    assert b == a + (b - a);
    assert a * (b - a) == {};
  }

  /** The first n naturals. */
  function Range(n: nat): (r: set<int>)
    ensures forall x :: x in r <==> 0 <= x < n
    ensures |r| == n
  {
    if n == 0 then {} else Range(n - 1) + {n - 1}
  }

  /** Any N + 1 states contain a repetition. */
  lemma Pigeonhole(q: seq<State>)
    requires |q| > N
    ensures exists i, j :: 0 <= i < j < |q| && q[i] == q[j]
  {
    if forall i, j :: 0 <= i < j < |q| ==> q[i] != q[j] {
      DistinctCard(q);
      var seen: set<int> := set x | x in q;
      SubsetCard(seen, Range(N));
      assert false;
    }
  }

  /** Once the walk repeats a state it repeats forever with the same period,
      so every state after the first N moves was already seen among them. */
  lemma {:induction false} HopFolds(t: seq<seq<real>>, s: State, i: nat, j: nat, k: nat)
    requires IsTable(t) && i < j <= N && Hop(t, s, i) == Hop(t, s, j)
    ensures exists m :: 0 <= m <= N && Hop(t, s, k) == Hop(t, s, m)
    decreases k
  {
    if k > N {
      var m := k - (j - i);
      HopAdd(t, s, j, m - i);
      HopAdd(t, s, i, m - i);
      assert Hop(t, s, k) == Hop(t, s, m);
      HopFolds(t, s, i, j, m);
    }
  }

  /** A deterministic walk over N states that misses the goal during its
      first N moves misses it forever. */
  lemma NeverArrives(t: seq<seq<real>>, s: State, g: State)
    requires IsTable(t)
    requires forall k :: 0 <= k <= N ==> Hop(t, s, k) != g
    ensures forall k: nat :: Hop(t, s, k) != g
  {
    var q := seq(N + 1, k requires 0 <= k <= N => Hop(t, s, k));
    Pigeonhole(q);
    var i, j :| 0 <= i < j < |q| && q[i] == q[j];
    forall k: nat
      ensures Hop(t, s, k) != g
    {
      HopFolds(t, s, i, j, k);
    }
  }

  /** With at least N hops of fuel, NoPathFound means exactly that the
      unbounded extraction loop would never stop: no number of greedy moves
      from the start reaches the goal. */
  lemma NoPathFoundIsForever(t: seq<seq<real>>, start: Location, goal: Location, fuel: nat)
    requires IsTable(t) && start in LocationToState && goal in LocationToState && fuel >= N
    ensures Path(t, start, goal, fuel) == Failure(NoPathFound) <==>
      forall k: nat :: Hop(t, LocationToState[start], k) != LocationToState[goal]
  {
    var s, g := LocationToState[start], LocationToState[goal];
    assert LocationOf(s) == start;
    if Path(t, start, goal, fuel) == Failure(NoPathFound) {
      forall k | 0 <= k <= N
        ensures Hop(t, s, k) != g
      {
        if Hop(t, s, k) == g {
          ReachedMeansFound(t, s, goal, fuel, k);
        }
      }
      NeverArrives(t, s, g);
    } else {
      if forall k :: 0 <= k <= fuel ==> LocationOf(Hop(t, s, k)) != goal {
        MissedMeansNotFound(t, s, goal, fuel);
      }
      var k :| 0 <= k <= fuel && LocationOf(Hop(t, s, k)) == goal;
      assert Hop(t, s, k) == g;
    }
  }

  /** Prepending twice is prepending the concatenation. */
  lemma PrependTwice(a: seq<Location>, b: seq<Location>, r: Result<seq<Location>>)
    ensures Prepend(a, Prepend(b, r)) == Prepend(a + b, r)
  {
    if r.Success? {
      assert a + (b + r.value) == (a + b) + r.value;
    }
  }

  /** One move of the extraction loop: the location of the argmax of the
      current location's row of Q. */
  method GreedyMove(Q: array2<real>, ghost t: seq<seq<real>>, current: Location) returns (next: Location)
    requires Holds(Q, t) && current in LocationToState
    ensures next == LocationOf(Greedy(t, LocationToState[current]))
  {
    var s := LocationToState[current];
    var best := ArgmaxRow(Q, s);
    assert forall j :: 0 <= j < N ==> Q[s, j] == t[s][j];
    ArgmaxUnique(t[s], best);
    next := LocationOf(best);
  }

  /** Prepending nothing leaves a result as it is. */
  lemma PrependNothing(r: Result<seq<Location>>)
    ensures Prepend([], r) == r
  {
    if r.Success? {
      assert [] + r.value == r.value;
    }
  }

  /** The extraction loop: starting from start, append the location of the
      argmax of the current row until the goal is reached, failing on an
      unknown letter and after maxHops hops. */
  method GreedyWalk(Q: array2<real>, ghost t: seq<seq<real>>, start: Location, goal: Location, maxHops: nat)
    returns (r: Result<seq<Location>>)
    requires Holds(Q, t)
    ensures r == Path(t, start, goal, maxHops)
  {
    var path := [start];
    var current := start;
    var hops := 0;
    ghost var whole := Path(t, start, goal, maxHops);
    PrependNothing(whole);
    assert path[..0] == [];
    while current != goal
      invariant hops <= maxHops && |path| == hops + 1 && path[hops] == current
      invariant whole == Prepend(path[..hops], Path(t, current, goal, maxHops - hops))
      decreases maxHops - hops
    {
      if current !in LocationToState {
        return Failure(InvalidLocation);
      }
      if hops == maxHops {
        return Failure(NoPathFound);
      }
      var next := GreedyMove(Q, t, current);
      ghost var fuel := maxHops - hops;
      assert Path(t, current, goal, fuel) == Prepend([current], Path(t, next, goal, fuel - 1));
      PrependTwice(path[..hops], [current], Path(t, next, goal, fuel - 1));
      assert path[..hops] + [current] == path;
      current := next;
      path := path + [current];
      hops := hops + 1;
      assert path[..hops] == path[..hops - 1] + [path[hops - 1]];
    }
    r := Success(path);
    assert path == path[..hops] + [current];
  }
}
