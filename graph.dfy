/** The warehouse graph: twelve locations named by the letters A to L, the
    bijection between locations and state indices, and the constant reward
    matrix whose column index is the destination state of an action. */
module Graph {

  /** Number of locations, and therefore of states and of actions. */
  const N: nat := 12

  /** A state index. An action is identified with the state it leads to. */
  type State = s: int | 0 <= s < N

  /** A location is named by a single letter. */
  type Location = char

  /** The forward dictionary from location letters to state indices. */
  const LocationToState: map<Location, State> :=
    map['A' := 0, 'B' := 1, 'C' := 2, 'D' := 3, 'E' := 4, 'F' := 5,
        'G' := 6, 'H' := 7, 'I' := 8, 'J' := 9, 'K' := 10, 'L' := 11]

  /** The inverse dictionary, built by swapping every key/value pair of
      LocationToState. */
  const StateToLocation: map<State, Location> := Invert(LocationToState)

  /** No two keys of m share a value. */
  predicate Injective(m: map<Location, State>)
  {
    forall c, d :: c in m && d in m && m[c] == m[d] ==> c == d
  }

  /** Swaps keys and values of an injective map. */
  function Invert(m: map<Location, State>): (inv: map<State, Location>)
    requires Injective(m)
    ensures forall c :: c in m ==> m[c] in inv && inv[m[c]] == c
    ensures forall k :: k in inv ==> inv[k] in m && m[inv[k]] == k
  {
    map c | c in m :: m[c] := c
  }

  /** The reward matrix: R[s][a] is 1 when location a is next to location s,
      0 otherwise. Row 6 (location G) already rewards staying put. */
  const R: seq<seq<int>> :=
    [[0,1,0,0,0,0,0,0,0,0,0,0],
     [1,0,1,0,0,1,0,0,0,0,0,0],
     [0,1,0,0,0,0,1,0,0,0,0,0],
     [0,0,0,0,0,0,0,1,0,0,0,0],
     [0,0,0,0,0,0,0,0,1,0,0,0],
     [0,1,0,0,0,0,0,0,0,1,0,0],
     [0,0,1,0,0,0,1,1,0,0,0,0],
     [0,0,0,1,0,0,1,0,0,0,0,1],
     [0,0,0,0,1,0,0,0,0,1,0,0],
     [0,0,0,0,0,1,0,0,1,0,1,0],
     [0,0,0,0,0,0,0,0,0,1,0,1],
     [0,0,0,0,0,0,0,1,0,0,1,0]]

  /** An N-by-N matrix of integers. */
  ghost predicate IsSquare(m: seq<seq<int>>)
  {
    |m| == N && forall i :: 0 <= i < N ==> |m[i]| == N
  }

  /** The known locations are exactly the letters A to L, and each one is
      numbered by its position in the alphabet. */
  lemma LocationsAreLetters(c: Location)
    ensures c in LocationToState <==> 'A' <= c <= 'L'
    ensures c in LocationToState ==> LocationToState[c] == c as int - 'A' as int
  {
  }

  /** Every state has a location, and that location is the state's letter. */
  lemma {:induction false} StateToLocationTotal(s: State)
    ensures s in StateToLocation
    ensures StateToLocation[s] == (s + 'A' as int) as char
  {
    var c := (s + 'A' as int) as char;
    LocationsAreLetters(c);
  }

  /** LocationToState undoes StateToLocation (the converse is Invert's
      contract), so the two are mutually inverse bijections between the
      letters A..L and the states 0..11. */
  lemma {:induction false} LocationToStateInvertsStateToLocation(s: State)
    ensures s in StateToLocation
    ensures StateToLocation[s] in LocationToState
    ensures LocationToState[StateToLocation[s]] == s
  {
    StateToLocationTotal(s);
    LocationsAreLetters(StateToLocation[s]);
  }

  /** The location of a state: a lookup in StateToLocation, which holds
      every state. */
  function LocationOf(s: State): (c: Location)
    ensures c in LocationToState && LocationToState[c] == s
  {
    LocationToStateInvertsStateToLocation(s);
    StateToLocation[s]
  }

  /** R is 12 by 12 and every entry is 0 or 1. */
  lemma RewardShape()
    ensures IsSquare(R)
    ensures forall i, j :: 0 <= i < N && 0 <= j < N ==> R[i][j] == 0 || R[i][j] == 1
  {
  }

  /** The entry of R in row s and column a. */
  function Reward(s: State, a: State): int
  {
    RewardShape();
    R[s][a]
  }

  /** A neighbour of every location, witnessing that no row of R is all zero. */
  const SomeNeighbour: seq<State> := [1, 0, 1, 7, 8, 1, 2, 3, 4, 5, 9, 7]

  /** Every location has at least one rewarded move. */
  lemma {:induction false} EveryRowHasEdge(s: State)
    ensures |SomeNeighbour| == N && R[s][SomeNeighbour[s]] > 0
  {
  }
}
