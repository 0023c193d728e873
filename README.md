# Warehouse route planning with tabular Q-learning, in Dafny

This project models the routing core of `Q-Learning.py`. The warehouse has
twelve locations, named by the letters `A` to `L`. A constant 12×12 matrix
`R` rewards each move between neighbouring locations with 1.

A route request `route(start, goal)` works in four steps:

1. It copies `R` and puts a bonus of 1000 on the goal's self-loop.
2. It zeroes a Q-table.
3. It trains the table for 1000 iterations. Each iteration samples a state,
   samples one of that state's playable actions, and applies a
   temporal-difference update to that one cell, with γ = 0.75 and α = 0.9.
4. It walks greedily from the start, always moving to the first maximum of
   the current row, until it reaches the goal.

`best_route(start, via, goal)` joins the route to `via` with the route from
`via` to `goal`, dropping the duplicated `via`.

The project has five modules:

- `Graph` (`graph.dfy`): the location↔state dictionaries and the reward
  matrix.
- `QTable` (`qtable.dfy`): the row maximum and the first-maximum argmax,
  plus the argmax scan over a row of an `array2`.
- `Trainer` (`trainer.dfy`): the goal-augmented copy of `R`, the playable
  actions and the TD update. The training loop is a method that updates an
  `array2<real>` in place. It is proved to leave the table equal to the
  fold `Trained` of the updates over the draws. Properties of training are
  proved about `Trained`.
- `Extractor` (`extractor.dfy`): the greedy walk. It is a `while` loop
  bounded by `MaxHops = 12` and proved equal to the recursive `Path`.
- `Routing` (`routing.dfy`): `route`, `best_route` and the lemmas about
  them.

The random numbers are parameters. A training run takes a sequence of
`Draw(state, choice)` values. `state` stands for `np.random.randint(0,12)`.
`choice` is the index that `np.random.choice` picks in the playable-action
list. `ValidDraws` requires every index to be in range. `PlayableNeverEmpty`
shows that this can always be met, because no row of the goal-augmented
matrix is empty.

The original walk loop is unbounded. The model bounds it by `N` hops.
`NoPathFoundIsForever` is a pigeonhole argument: a deterministic greedy walk
that has not met the goal within `N` hops never meets it. So `NoPathFound`
is reported exactly when the original loop would run forever, and the bound
changes no terminating result.

Three behaviours of the code are easy to miss:

- A row of the Q-table that training never updated stays all zero. The
  argmax of such a row is 0, so the walk moves from it to location `A`,
  whether or not `A` is a neighbour (`UnsampledRowLeadsToA`). With zero
  iterations the whole table is zero. From a known start other than the
  goal, the walk then ends at `[start, A]` when the goal is `A` and runs
  forever otherwise (`ZeroTableWalk`).
- From a sampled state, a greedy move follows an edge of `R`
  (`RouteFollowsEdges`). From an unsampled state it goes to `A`.
- An unknown goal fails its lookup before training (`InvalidLocation`). The
  walk's own lookup fails only for an unknown start, and only when that
  start differs from the goal, because for a known `X`, `route(X, X)`
  returns `[X]` without entering the loop (`PathInvalidOnlyAtStart`).

## Model

| member | source | states |
|---|---|---|
| Graph.Invert | Q-Learning.py:74-75 | inverting an injective dictionary gives a map that undoes it in both directions |
| Graph.LocationsAreLetters | Q-Learning.py:19-30 | the known locations are exactly 'A'..'L', and each one maps to its alphabet position |
| Graph.StateToLocationTotal | Q-Learning.py:74-75 | every state 0..11 has a location, which is its letter |
| Graph.LocationToStateInvertsStateToLocation | Q-Learning.py:19-30 | the two dictionaries are mutually inverse bijections between A..L and 0..11 |
| Graph.LocationOf | Q-Learning.py:120 | state_to_location lookup is total and its result maps back to the state |
| Graph.RewardShape | Q-Learning.py:42-53 | R is 12×12 with entries 0 or 1 |
| Graph.EveryRowHasEdge | Q-Learning.py:42-53 | every row of R has a positive entry, so no location is a dead end |
| Trainer.GoalRewardsAt | Q-Learning.py:89-91 | the goal-augmented matrix equals R except for 1000 at (goal, goal) |
| Trainer.GoalRewards | Q-Learning.py:89-91 | defines the goal-augmented copy of R as a 12×12 matrix; GoalRewardsAt gives its entries |
| Trainer.CopyRewards | Q-Learning.py:89-91 | the fresh array holds R with the goal's self-loop set to 1000 |
| Trainer.PlayableIsFilter | Q-Learning.py:97-100 | the playable list holds exactly the columns with positive reward, in ascending order |
| Trainer.Playable | Q-Learning.py:97-100 | defines the list built by the column scan, up to column n; PlayableIsFilter characterises it |
| Trainer.PlayableActions | Q-Learning.py:97-100 | defines the playable list of a whole row; PlayableIsFilter and PlayableNeverEmpty characterise it |
| Trainer.PlayableNeverEmpty | Q-Learning.py:97-101 | every state of a goal-augmented matrix has a playable action, so the random choice is defined |
| Trainer.PlayableActionsOf | Q-Learning.py:97-100 | the column scan of R_new returns the playable list of that row |
| Trainer.NextState | Q-Learning.py:101 | the chosen next state is a move with positive reward |
| Trainer.TdStepUpdatesOneCell | Q-Learning.py:105-108 | one update sets Q[c,n] to Q[c,n] + α(R[c,n] + γ·max Q[n] − Q[c,n]) and leaves every other cell unchanged |
| Trainer.TdStep | Q-Learning.py:105-108 | defines one temporal-difference update of a 12×12 table; TdStepUpdatesOneCell gives its effect |
| Trainer.TdStepPositive | Q-Learning.py:105-108 | updating a non-negative table along a rewarded move makes that cell positive |
| Trainer.UpdateCell | Q-Learning.py:105-108 | the in-place update writes the TD value into one cell of Q and no other |
| Trainer.TrainedNonNegative | Q-Learning.py:92-108 | training keeps every Q entry non-negative |
| Trainer.VisitedGrows | Q-Learning.py:95-108 | the cells updated by the draws are those of the earlier draws plus the last draw's cell |
| Trainer.VisitedIsRewarded | Q-Learning.py:97-101 | an updated cell always carries a positive reward |
| Trainer.TrainedSupport | Q-Learning.py:92-108 | after training, Q[i,j] > 0 exactly when some iteration updated (i,j), and then R_new[i,j] > 0 |
| Trainer.Trained | Q-Learning.py:92-108 | defines the 12×12 table left by applying the updates of the draws, in order, to zeros; TrainedNonNegative and TrainedSupport characterise it |
| Trainer.Train | Q-Learning.py:92-108 | the in-place loop over zeroed Q leaves Q equal to the updates of the draws applied in order |
| QTable.Zeros | Q-Learning.py:92 | the initial table is 12×12 and zero everywhere |
| QTable.Max | Q-Learning.py:105-106 | defines the row maximum used by the update; MaxIsAttained characterises it |
| QTable.Argmax | Q-Learning.py:106 | defines np.argmax on a row, an index within the row; ArgmaxIsFirstMax characterises it |
| QTable.MaxIsAttained | Q-Learning.py:105-106 | the row maximum bounds every entry and is attained |
| QTable.ArgmaxIsFirstMax | Q-Learning.py:106 | np.argmax returns a maximal entry, and every entry before it is strictly smaller |
| QTable.ArgmaxUnique | Q-Learning.py:119 | the first-maximum property determines the argmax |
| QTable.ArgmaxOfFlatRow | Q-Learning.py:119 | a row with all entries equal has argmax 0 |
| QTable.ArgmaxRow | Q-Learning.py:106 | the scan over row s of Q returns its first maximum |
| Extractor.PathShape | Q-Learning.py:109-125 | a found path starts at the start, ends at the goal, meets the goal only at its end, and each step is the greedy move |
| Extractor.Path | Q-Learning.py:109-125 | defines the result of the extraction loop with a hop budget; PathShape, ReachedMeansFound, MissedMeansNotFound and NoPathFoundIsForever characterise it |
| Extractor.Greedy | Q-Learning.py:118-120 | the greedy action of a state is a maximal entry of its row with every entry before it strictly smaller |
| Extractor.Hop | Q-Learning.py:118-124 | defines the state reached after k greedy moves; HopAdd, HopFolds and NoPathFoundIsForever reason about it |
| Extractor.PathInvalidOnlyAtStart | Q-Learning.py:112-120 | the walk fails the lookup exactly when the start is unknown and not the goal |
| Extractor.ReachedMeansFound | Q-Learning.py:112-124 | if some greedy hop within the bound meets the goal, the walk succeeds |
| Extractor.MissedMeansNotFound | Q-Learning.py:112-124 | if no hop within the bound meets the goal, the walk reports NoPathFound |
| Extractor.Pigeonhole | Q-Learning.py:112-124 | any N+1 states contain a repetition, so a walk of N+1 greedy positions revisits a state |
| Extractor.NoPathFoundIsForever | Q-Learning.py:112-124 | with at least N hops, NoPathFound holds exactly when no number of greedy hops ever reaches the goal |
| Extractor.GreedyMove | Q-Learning.py:118-120 | one step of the loop moves to the location of the row's argmax |
| Extractor.GreedyWalk | Q-Learning.py:109-125 | the while loop builds exactly the path Path describes |
| Routing.Route | Q-Learning.py:88-125 | route returns the greedy path over the table trained towards the goal, or the lookup error |
| Routing.RouteOf | Q-Learning.py:88-125 | defines the result of route: InvalidLocation for an unknown goal, otherwise Path over the trained table; RouteShape and RouteOutcome characterise it |
| Routing.RouteShape | Q-Learning.py:109-125 | a found route runs from start to goal, meets the goal only at its end, and follows greedy moves |
| Routing.RouteOutcome | Q-Learning.py:88-125 | InvalidLocation exactly for an unknown goal or an unknown start other than the goal; route(X, X) == [X]; NoPathFound exactly when the original loop never stops |
| Routing.GreedyFollowsRewards | Q-Learning.py:95-119 | the greedy move from a sampled state follows a positive reward |
| Routing.RouteFollowsEdges | Q-Learning.py:95-121 | a route step leaving a sampled state follows an edge of R |
| Routing.UnsampledRowLeadsToA | Q-Learning.py:119-120 | from a state that training never sampled, the greedy move goes to A |
| Routing.ZeroTableWalk | Q-Learning.py:109-124 | over the all-zero table, the walk from another start is [start, A] when the goal is A, and NoPathFound otherwise |
| Routing.BestRouteShape | Q-Learning.py:132-134 | best_route is the first route followed by the second without its first location: it starts at start, passes via, ends at goal |
| Routing.BestRoute | Q-Learning.py:132-134 | defines best_route as the two routes joined at via; BestRouteShape and BestRouteFails characterise it |
| Routing.BestRouteFails | Q-Learning.py:132-134 | best_route fails exactly when one of the two routes fails; it reports the first route's error when that route fails, and otherwise the second route's error |

## Left out

- Random number generation: `np.random.randint` and `np.random.choice`
  become the injected `Draw` sequence, so the model says nothing about the
  distribution of draws.
- Floating point: Q-values are modelled as exact reals. Rounding in
  `numpy` float64 arithmetic is not modelled, so two entries that tie in
  the model could differ in the last bit in the original, and the reverse.
- Convergence or optimality of the learned policy is not stated. It depends
  on the draws, and the model proves facts that hold for every sequence of
  draws.
- Routing.Route: an unbounded `while` loop becomes a walk of at most `N` hops.
  `RouteOutcome` shows that it reports `NoPathFound` exactly when the
  original loop would never end.
- The errors the original raises (`KeyError` on an unknown letter) are
  modelled as `InvalidLocation`. A non-terminating loop is modelled as
  `NoPathFound`.
- The `print` call and the demo call `best_route('E', 'F', 'G')`
  (Q-Learning.py:139-140) are I/O and are left out.
- The unused `actions` list (Q-Learning.py:35) is left out, because actions
  are identified with states.
- A location is one character (`Location = char`). The original accepts
  any Python value as a key; a longer string or a non-string fails the
  dictionary lookups at Q-Learning.py:90 and 118 exactly as an unknown
  letter does, so it behaves as an unknown location here.
- The commented-out reward alternatives (Q-Learning.py:57-66) are not code
  and are left out.
