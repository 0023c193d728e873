/** The Q-table trainer: the goal-augmented copy of the reward matrix, the
    list of playable actions of a state, the temporal-difference update of
    one cell, and the training loop that applies it once per random draw. */
module Trainer {
  import opened Graph
  import opened QTable

  /** Discount factor of future value. */
  const Gamma: real := 0.75
  /** Learning rate. */
  const Alpha: real := 0.9
  /** Reward given to the goal's self-loop, so that value flows towards it. */
  const GoalBonus: int := 1000
  /** Number of training iterations of one route request. */
  const TrainingIterations: nat := 1000

  /** One iteration's random draws: the sampled current state, and the
      position of the chosen action within that state's playable actions. */
  datatype Draw = Draw(state: State, choice: nat)

  /** The reward matrix of a training run towards goal g: R with the goal's
      self-reward raised to GoalBonus. */
  function GoalRewards(g: State): (rw: seq<seq<int>>)
    ensures IsSquare(rw)
  {
    RewardShape();
    R[g := R[g][g := GoalBonus]]
  }

  /** The goal-augmented matrix equals R everywhere except at the goal's
      self-loop, which holds GoalBonus. */
  lemma GoalRewardsAt(g: State, i: State, j: State)
    ensures GoalRewards(g)[i][j] == if i == g && j == g then GoalBonus else Reward(i, j)
  {
  }

  /** Copies R into a new array and sets the goal's self-reward; R itself is
      a constant and stays as it was. */
  method CopyRewards(g: State) returns (rNew: array2<int>)
    ensures fresh(rNew)
    ensures rNew.Length0 == N && rNew.Length1 == N
    ensures forall i, j :: 0 <= i < N && 0 <= j < N ==>
      rNew[i, j] == if i == g && j == g then GoalBonus else Reward(i, j)
  {
    rNew := new int[N, N]((i, j) requires 0 <= i < N && 0 <= j < N => Reward(i, j));
    rNew[g, g] := GoalBonus;
  }

  /** The actions among the first n columns of a reward row that carry a
      positive reward, in ascending order. */
  function Playable(row: seq<int>, n: nat): seq<State>
    requires n <= |row| == N
  {
    if n == 0 then []
    else Playable(row, n - 1) + (if row[n - 1] > 0 then [n - 1] else [])
  }

  /** Playable(row, n) lists, in strictly ascending order, exactly the
      columns below n whose reward is positive. */
  lemma {:induction false} PlayableIsFilter(row: seq<int>, n: nat)
    requires n <= |row| == N
    ensures forall j :: 0 <= j < N ==> (j in Playable(row, n) <==> j < n && row[j] > 0)
    ensures forall a, b :: 0 <= a < b < |Playable(row, n)| ==> Playable(row, n)[a] < Playable(row, n)[b]
    ensures forall a :: 0 <= a < |Playable(row, n)| ==> Playable(row, n)[a] < n
  {
    if n > 0 {
      PlayableIsFilter(row, n - 1);
    }
  }

  /** The playable actions of a reward row: every column with a positive
      reward. */
  function PlayableActions(row: seq<int>): seq<State>
    requires |row| == N
  {
    Playable(row, N)
  }

  /** No state of a goal-augmented matrix is a dead end, so the random choice
      among its playable actions is always defined. */
  lemma PlayableNeverEmpty(g: State, s: State)
    ensures |PlayableActions(GoalRewards(g)[s])| > 0
  {
    EveryRowHasEdge(s);
    var j := SomeNeighbour[s];
    PlayableIsFilter(GoalRewards(g)[s], N);
    assert j in PlayableActions(GoalRewards(g)[s]);
  }

  /** Builds the playable actions of state s by scanning row s of rNew. */
  method PlayableActionsOf(rNew: array2<int>, s: State, ghost row: seq<int>) returns (acts: seq<State>)
    requires rNew.Length0 == N && rNew.Length1 == N && |row| == N
    requires forall j :: 0 <= j < N ==> rNew[s, j] == row[j]
    ensures acts == PlayableActions(row)
  {
    acts := [];
    for j := 0 to N
      invariant acts == Playable(row, j)
    {
      if rNew[s, j] > 0 {
        acts := acts + [j];
      }
      assert acts == Playable(row, j + 1);
    }
  }

  /** The draws of a training run over reward matrix rw are in range: each
      choice picks one of the sampled state's playable actions. */
  ghost predicate ValidDraws(rw: seq<seq<int>>, draws: seq<Draw>)
    requires IsSquare(rw)
  {
    forall i :: 0 <= i < |draws| ==>
      draws[i].choice < |PlayableActions(rw[draws[i].state])|
  }

  /** The action (next state) that a valid draw chooses. */
  function NextState(rw: seq<seq<int>>, d: Draw): (n: State)
    requires IsSquare(rw)
    requires d.choice < |PlayableActions(rw[d.state])|
    ensures rw[d.state][n] > 0
  {
    PlayableIsFilter(rw[d.state], N);
    PlayableActions(rw[d.state])[d.choice]
  }

  /** The temporal-difference update of cell (c, n): the bootstrap value is
      the entry of row n at its argmax. */
  function TdStep(rw: seq<seq<int>>, t: seq<seq<real>>, c: State, n: State): (u: seq<seq<real>>)
    requires IsSquare(rw) && IsTable(t)
    ensures IsTable(u)
  {
    var td := rw[c][n] as real + Gamma * t[n][Argmax(t[n])] - t[c][n];
    t[c := t[c][n := t[c][n] + Alpha * td]]
  }

  /** One update changes cell (c, n) only, moving it by Alpha times the
      temporal difference towards reward plus discounted best value of n. */
  lemma TdStepUpdatesOneCell(rw: seq<seq<int>>, t: seq<seq<real>>, c: State, n: State)
    requires IsSquare(rw) && IsTable(t)
    ensures TdStep(rw, t, c, n)[c][n] ==
      t[c][n] + Alpha * (rw[c][n] as real + Gamma * Max(t[n]) - t[c][n])
    ensures forall i, j :: 0 <= i < N && 0 <= j < N && (i != c || j != n) ==>
      TdStep(rw, t, c, n)[i][j] == t[i][j]
  {
    ArgmaxIsFirstMax(t[n]);
  }

  /** A prefix of valid draws is valid. */
  lemma ValidDrawsPrefix(rw: seq<seq<int>>, draws: seq<Draw>, k: nat)
    requires IsSquare(rw) && ValidDraws(rw, draws) && k <= |draws|
    ensures ValidDraws(rw, draws[..k])
  {
    assert forall i :: 0 <= i < k ==> draws[..k][i] == draws[i];
  }

  /** The table after applying, in order, the updates chosen by draws to the
      all-zero table. */
  function Trained(rw: seq<seq<int>>, draws: seq<Draw>): (t: seq<seq<real>>)
    requires IsSquare(rw) && ValidDraws(rw, draws)
    ensures IsTable(t)
    decreases |draws|
  {
    if |draws| == 0 then Zeros()
    else
      var d := draws[|draws| - 1];
      ValidDrawsPrefix(rw, draws, |draws| - 1);
      TdStep(rw, Trained(rw, draws[..|draws| - 1]), d.state, NextState(rw, d))
  }

  /** Cell (i, j) is the target of some draw's update. */
  ghost predicate Visited(rw: seq<seq<int>>, draws: seq<Draw>, i: State, j: State)
    requires IsSquare(rw) && ValidDraws(rw, draws)
  {
    exists k :: 0 <= k < |draws| && draws[k].state == i && NextState(rw, draws[k]) == j
  }

  /** An update of a non-negative table along a rewarded move makes the
      updated cell positive. */
  lemma TdStepPositive(rw: seq<seq<int>>, t: seq<seq<real>>, c: State, n: State)
    requires IsSquare(rw) && IsTable(t) && rw[c][n] > 0
    requires forall i, j :: 0 <= i < N && 0 <= j < N ==> t[i][j] >= 0.0
    ensures TdStep(rw, t, c, n)[c][n] > 0.0
  {
    TdStepUpdatesOneCell(rw, t, c, n);
    MaxIsAttained(t[n]);
  }

  /** Training keeps every entry of the table non-negative. */
  lemma {:induction false} TrainedNonNegative(rw: seq<seq<int>>, draws: seq<Draw>)
    requires IsSquare(rw) && ValidDraws(rw, draws)
    ensures forall i, j :: 0 <= i < N && 0 <= j < N ==> Trained(rw, draws)[i][j] >= 0.0
    decreases |draws|
  {
    if |draws| > 0 {
      var d := draws[|draws| - 1];
      var front := draws[..|draws| - 1];
      ValidDrawsPrefix(rw, draws, |draws| - 1);
      var t := Trained(rw, front);
      TrainedNonNegative(rw, front);
      TdStepUpdatesOneCell(rw, t, d.state, NextState(rw, d));
      TdStepPositive(rw, t, d.state, NextState(rw, d));
    }
  }

  /** A cell visited by a prefix of the draws is visited by all of them. */
  lemma VisitedByPrefix(rw: seq<seq<int>>, draws: seq<Draw>, m: nat, i: State, j: State)
    requires IsSquare(rw) && ValidDraws(rw, draws) && m <= |draws|
    requires ValidDraws(rw, draws[..m]) && Visited(rw, draws[..m], i, j)
    ensures Visited(rw, draws, i, j)
  {
    var k :| 0 <= k < m && draws[..m][k].state == i && NextState(rw, draws[..m][k]) == j;
    assert draws[k] == draws[..m][k];
  }

  /** A cell visited by the draws is visited by all but the last of them,
      or is the cell of the last one. */
  lemma VisitedSplitsAtLast(rw: seq<seq<int>>, draws: seq<Draw>, i: State, j: State)
    requires IsSquare(rw) && ValidDraws(rw, draws) && |draws| > 0
    requires ValidDraws(rw, draws[..|draws| - 1]) && Visited(rw, draws, i, j)
    ensures Visited(rw, draws[..|draws| - 1], i, j) ||
      (draws[|draws| - 1].state == i && NextState(rw, draws[|draws| - 1]) == j)
  {
    var front := draws[..|draws| - 1];
    var k :| 0 <= k < |draws| && draws[k].state == i && NextState(rw, draws[k]) == j;
    if k < |front| {
      assert front[k] == draws[k];
    }
  }

  /** The cells the draws visit are those the earlier draws visit plus the
      cell of the last draw. */
  lemma VisitedGrows(rw: seq<seq<int>>, draws: seq<Draw>, i: State, j: State)
    requires IsSquare(rw) && ValidDraws(rw, draws) && |draws| > 0
    ensures ValidDraws(rw, draws[..|draws| - 1])
    ensures Visited(rw, draws, i, j) <==>
      Visited(rw, draws[..|draws| - 1], i, j) ||
      (draws[|draws| - 1].state == i && NextState(rw, draws[|draws| - 1]) == j)
  {
    ValidDrawsPrefix(rw, draws, |draws| - 1);
    if Visited(rw, draws, i, j) {
      VisitedSplitsAtLast(rw, draws, i, j);
    }
    if Visited(rw, draws[..|draws| - 1], i, j) {
      VisitedByPrefix(rw, draws, |draws| - 1, i, j);
    }
    var last := draws[|draws| - 1];
    if last.state == i && NextState(rw, last) == j {
      assert Visited(rw, draws, i, j);
    }
  }

  /** Only rewarded cells are ever visited. */
  lemma VisitedIsRewarded(rw: seq<seq<int>>, draws: seq<Draw>, i: State, j: State)
    requires IsSquare(rw) && ValidDraws(rw, draws) && Visited(rw, draws, i, j)
    ensures rw[i][j] > 0
  {
    var k :| 0 <= k < |draws| && draws[k].state == i && NextState(rw, draws[k]) == j;
  }

  /** The support invariant of training: an entry is positive exactly when
      some draw updated it, and then its reward is positive. */
  lemma {:induction false} TrainedSupport(rw: seq<seq<int>>, draws: seq<Draw>, i: State, j: State)
    requires IsSquare(rw) && ValidDraws(rw, draws)
    ensures Trained(rw, draws)[i][j] > 0.0 <==> Visited(rw, draws, i, j)
    ensures Trained(rw, draws)[i][j] > 0.0 ==> rw[i][j] > 0
    decreases |draws|
  {
    if |draws| > 0 {
      var d := draws[|draws| - 1];
      var front := draws[..|draws| - 1];
      VisitedGrows(rw, draws, i, j);
      var t := Trained(rw, front);
      var c, n := d.state, NextState(rw, d);
      TdStepUpdatesOneCell(rw, t, c, n);
      TrainedSupport(rw, front, i, j);
      if i == c && j == n {
        TrainedNonNegative(rw, front);
        TdStepPositive(rw, t, c, n);
      }
    }
    if Visited(rw, draws, i, j) {
      VisitedIsRewarded(rw, draws, i, j);
    }
  }

  /** One temporal-difference update of Q, in place: only cell
      (current, next) changes, and it becomes the TdStep value of the table Q
      held before. */
  method UpdateCell(Q: array2<real>, rNew: array2<int>, ghost rw: seq<seq<int>>,
                    ghost t: seq<seq<real>>, current: State, next: State)
    requires IsSquare(rw) && Holds(Q, t)
    requires rNew.Length0 == N && rNew.Length1 == N
    requires forall i, j :: 0 <= i < N && 0 <= j < N ==> rNew[i, j] == rw[i][j]
    modifies Q
    ensures Holds(Q, TdStep(rw, t, current, next))
    ensures Q[current, next] ==
      old(Q[current, next]) + Alpha * (rNew[current, next] as real + Gamma * Max(t[next]) - old(Q[current, next]))
    ensures forall i, j :: 0 <= i < N && 0 <= j < N && (i != current || j != next) ==>
      Q[i, j] == old(Q[i, j])
  {
    var best := ArgmaxRow(Q, next);
    assert forall j :: 0 <= j < N ==> Q[next, j] == t[next][j];
    ArgmaxUnique(t[next], best);
    ghost var u := TdStep(rw, t, current, next);
    TdStepUpdatesOneCell(rw, t, current, next);
    var td := rNew[current, next] as real + Gamma * Q[next, best] - Q[current, next];
    Q[current, next] := Q[current, next] + Alpha * td;
    forall a, b | 0 <= a < N && 0 <= b < N
      ensures Q[a, b] == u[a][b]
    {
      if a != current || b != next {
        assert Q[a, b] == t[a][b];
      }
    }
    ArgmaxIsFirstMax(t[next]);
  }

  /** The training loop: zero-initialises Q and applies one update per draw,
      in place, to the single cell the draw selects. rNew holds the reward
      matrix rw of the run. */
  method Train(ghost rw: seq<seq<int>>, rNew: array2<int>, draws: seq<Draw>) returns (Q: array2<real>)
    requires IsSquare(rw) && rNew.Length0 == N && rNew.Length1 == N
    requires forall i, j :: 0 <= i < N && 0 <= j < N ==> rNew[i, j] == rw[i][j]
    requires ValidDraws(rw, draws)
    ensures fresh(Q)
    ensures Holds(Q, Trained(rw, draws))
  {
    Q := new real[N, N]((i, j) => 0.0);
    assert Holds(Q, Zeros());
    assert draws[..0] == [];
    var i := 0;
    while i < |draws|
      invariant 0 <= i <= |draws|
      invariant ValidDraws(rw, draws[..i])
      invariant Holds(Q, Trained(rw, draws[..i]))
    {
      var current := draws[i].state;
      var playable := PlayableActionsOf(rNew, current, rw[current]);
      var next := playable[draws[i].choice];
      UpdateCell(Q, rNew, rw, Trained(rw, draws[..i]), current, next);
      ValidDrawsPrefix(rw, draws, i + 1);
      assert draws[..i + 1][..i] == draws[..i];
      i := i + 1;
    }
    assert draws[..i] == draws;
  }
}
