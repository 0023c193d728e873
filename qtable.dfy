/** The Q-table: an N-by-N table of reals indexed by (state, action), its
    row maximum and the argmax that both the training update and the path
    extraction use. */
module QTable {
  import opened Graph

  /** The abstract value of a Q-table: N rows of N reals. */
  ghost predicate IsTable(t: seq<seq<real>>)
  {
    |t| == N && forall i :: 0 <= i < N ==> |t[i]| == N
  }

  /** The freshly initialised table, zero everywhere. */
  function Zeros(): (t: seq<seq<real>>)
    ensures IsTable(t)
    ensures forall i, j :: 0 <= i < N && 0 <= j < N ==> t[i][j] == 0.0
  {
    seq(N, i => seq(N, j => 0.0))
  }

  /** The array Q holds the table t. */
  ghost predicate Holds(Q: array2<real>, t: seq<seq<real>>)
    reads Q
  {
    Q.Length0 == N && Q.Length1 == N && IsTable(t) &&
    forall i, j :: 0 <= i < N && 0 <= j < N ==> Q[i, j] == t[i][j]
  }

  /** The largest entry of a non-empty row. */
  function Max(row: seq<real>): real
    requires |row| > 0
  {
    if |row| == 1 then row[0]
    else
      var rest := Max(row[1..]);
      if row[0] >= rest then row[0] else rest
  }

  /** The index of the first largest entry of a non-empty row, scanning from
      the left and moving only on a strictly larger entry. */
  function Argmax(row: seq<real>): (k: nat)
    requires |row| > 0
    ensures k < |row|
  {
    if |row| == 1 then 0
    else
      var k := Argmax(row[..|row| - 1]);
      if row[|row| - 1] > row[k] then |row| - 1 else k
  }

  /** Max is an upper bound that the row attains. */
  lemma {:induction false} MaxIsAttained(row: seq<real>)
    requires |row| > 0
    ensures forall j :: 0 <= j < |row| ==> row[j] <= Max(row)
    ensures exists j :: 0 <= j < |row| && row[j] == Max(row)
  {
    if |row| > 1 {
      MaxIsAttained(row[1..]);
      var j :| 0 <= j < |row[1..]| && row[1..][j] == Max(row[1..]);
      assert row[j + 1] == row[1..][j];
      if row[0] >= Max(row[1..]) {
        assert row[0] == Max(row);
      } else {
        assert row[j + 1] == Max(row);
      }
      forall i | 0 <= i < |row| ensures row[i] <= Max(row) {
        if i > 0 {
          assert row[i] == row[1..][i - 1];
        }
      }
    } else {
      assert row[0] == Max(row);
    }
  }

  /** Argmax picks an entry equal to the row maximum, and every entry to its
      left is strictly smaller: it is the lowest index among the maxima. */
  lemma {:induction false} ArgmaxIsFirstMax(row: seq<real>)
    requires |row| > 0
    ensures row[Argmax(row)] == Max(row)
    ensures forall j :: 0 <= j < |row| ==> row[j] <= row[Argmax(row)]
    ensures forall j :: 0 <= j < Argmax(row) ==> row[j] < row[Argmax(row)]
  {
    if |row| > 1 {
      var front := row[..|row| - 1];
      ArgmaxIsFirstMax(front);
      assert forall j :: 0 <= j < |front| ==> front[j] == row[j];
    }
    MaxIsAttained(row);
  }

  /** The first-maximum property determines the index: any k with it is
      Argmax(row). */
  lemma ArgmaxUnique(row: seq<real>, k: nat)
    requires k < |row|
    requires forall j :: 0 <= j < |row| ==> row[j] <= row[k]
    requires forall j :: 0 <= j < k ==> row[j] < row[k]
    ensures k == Argmax(row)
  {
    ArgmaxIsFirstMax(row);
  }

  /** In a row whose entries are all equal, such as a row never updated
      from zero, the argmax is the first index. */
  lemma ArgmaxOfFlatRow(row: seq<real>)
    requires |row| > 0
    requires forall j :: 0 <= j < |row| ==> row[j] == row[0]
    ensures Argmax(row) == 0
  {
    ArgmaxIsFirstMax(row);
  }

  /** The argmax of row s of Q, computed by a left-to-right scan. */
  method ArgmaxRow(Q: array2<real>, s: State) returns (k: State)
    requires Q.Length0 == N && Q.Length1 == N
    ensures forall j :: 0 <= j < N ==> Q[s, j] <= Q[s, k]
    ensures forall j :: 0 <= j < k ==> Q[s, j] < Q[s, k]
  {
    k := 0;
    var j := 1;
    while j < N
      invariant 1 <= j <= N
      invariant k < j
      invariant forall i :: 0 <= i < j ==> Q[s, i] <= Q[s, k]
      invariant forall i :: 0 <= i < k ==> Q[s, i] < Q[s, k]
    {
      if Q[s, j] > Q[s, k] {
        k := j;
      }
      j := j + 1;
    }
  }
}
