/** The convergence scalar: the `Max` macro, the `MPI_MAX` reduction onto
    rank 0 and the broadcast that hands the result back to every rank. */
module Reduce {

  /** The macro `Max(a, b)`, `a > b ? a : b`. */
  function Max(a: real, b: real): (m: real)
    ensures m >= a && m >= b
    ensures m == a || m == b
  {
    if a > b then a else b
  }

  /** `MPI_Reduce` with `MPI_MAX` over one value per rank. */
  function ReduceMax(xs: seq<real>): (m: real)
    requires |xs| >= 1
    ensures forall r | 0 <= r < |xs| :: xs[r] <= m
    ensures exists r | 0 <= r < |xs| :: xs[r] == m
  {
    if |xs| == 1 then xs[0]
    else
      var rest := ReduceMax(xs[1..]);
      assert forall r | 1 <= r < |xs| :: xs[r] == xs[1..][r - 1];
      Max(xs[0], rest)
  }

  /** `MPI_Bcast` from rank 0: the value every rank holds afterwards. */
  function Broadcast(v: real, nproc: nat): (seen: seq<real>)
    ensures |seen| == nproc
    ensures forall r | 0 <= r < nproc :: seen[r] == v
  {
    seq(nproc, _ => v)
  }

  /** After the reduction and the broadcast, every rank holds the same
      value, and it is the largest of the per-rank values. */
  lemma AllRanksSeeGlobalMax(xs: seq<real>)
    requires |xs| >= 1
    ensures forall r, s | 0 <= r < |xs| && 0 <= s < |xs| :: Broadcast(ReduceMax(xs), |xs|)[r] == Broadcast(ReduceMax(xs), |xs|)[s]
    ensures forall r, s | 0 <= r < |xs| && 0 <= s < |xs| :: xs[s] <= Broadcast(ReduceMax(xs), |xs|)[r]
  {
  }
}
