/** The red-black colouring of `relax`: the first sweep visits the owned
    interior cells whose index sum `i + j + k` is odd, the second those
    whose sum is even. */
module Colouring {

  /** `Red` is the colour of the first sweep, `Black` of the second. */
  datatype Colour = Red | Black

  /** The parity of `i + j + k` of the cells of colour `c`. */
  function Parity(c: Colour): int
  {
    match c
    case Red => 1
    case Black => 0
  }

  /** The first `k` of the innermost loop of each sweep. */
  function KStart(c: Colour, i: int, j: int): (k: int)
    requires i + j >= 0
    ensures k == 1 || k == 2
    ensures (i + j + k) % 2 == Parity(c)
  {
    match c
    case Red => 1 + (i + j) % 2
    case Black => 1 + (i + j + 1) % 2
  }

  /** `(i, j, k)` is an interior cell of the slab `[lo, hi)`. */
  predicate InSlabInterior(n: int, lo: int, hi: int, i: int, j: int, k: int)
  {
    lo <= i < hi && 1 <= j <= n - 2 && 1 <= k <= n - 2
  }

  /** `(i, j, k)` is updated by the sweep of colour `c` over the slab `[lo, hi)`. */
  predicate Selected(n: int, lo: int, hi: int, c: Colour, i: int, j: int, k: int)
  {
    InSlabInterior(n, lo, hi, i, j, k) && (i + j + k) % 2 == Parity(c)
  }

  /** The innermost loop, `k = KStart; k <= N - 2; k += 2`, visits exactly
      the selected cells of row `i`, column `j`. */
  lemma KLoopVisits(n: int, lo: int, hi: int, c: Colour, i: int, j: int, k: int)
    requires lo <= i < hi && 1 <= j <= n - 2 && i >= 0
    ensures (KStart(c, i, j) <= k <= n - 2 && (k - KStart(c, i, j)) % 2 == 0) <==> Selected(n, lo, hi, c, i, j, k)
  {
    var s := KStart(c, i, j);
    if Selected(n, lo, hi, c, i, j, k) {
      assert (k - s) % 2 == ((i + j + k) - (i + j + s)) % 2;
    }
  }

  /** The two sweeps split the owned interior: every owned interior cell has
      exactly one colour. */
  lemma ColoursSplitSlab(n: int, lo: int, hi: int, i: int, j: int, k: int)
    ensures InSlabInterior(n, lo, hi, i, j, k) <==> Selected(n, lo, hi, Red, i, j, k) || Selected(n, lo, hi, Black, i, j, k)
    ensures !(Selected(n, lo, hi, Red, i, j, k) && Selected(n, lo, hi, Black, i, j, k))
  {
  }

  /** No face neighbour of a selected cell is selected in the same sweep. */
  lemma NoAdjacentSelected(n: int, lo: int, hi: int, c: Colour, i: int, j: int, k: int)
    requires Selected(n, lo, hi, c, i, j, k)
    ensures !Selected(n, lo, hi, c, i - 1, j, k) && !Selected(n, lo, hi, c, i + 1, j, k)
    ensures !Selected(n, lo, hi, c, i, j - 1, k) && !Selected(n, lo, hi, c, i, j + 1, k)
    ensures !Selected(n, lo, hi, c, i, j, k - 1) && !Selected(n, lo, hi, c, i, j, k + 1)
  {
  }
}
