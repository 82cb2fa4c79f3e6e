/** The row partition of redb_3d.c: every rank owns the rows
    `[start_row, end_row)` of the first axis, `nrow` of them. */
module Partition {

  /** One rank's slab: the half-open row range `[start, end)` and its size. */
  datatype Slab = Slab(start: int, end: int, nrow: int)

  /** A grid extent and a process count the program can run with. */
  predicate ValidLayout(n: int, nproc: int)
  {
    n >= 3 && nproc >= 1
  }

  /** `rank` is a rank of a valid layout. */
  predicate ValidRank(n: int, nproc: int, rank: int)
  {
    ValidLayout(n, nproc) && 0 <= rank < nproc
  }

  lemma MulMono(q: nat, a: int, b: int)
    requires a <= b
    ensures q * a <= q * b
  {
    assert q * b - q * a == q * (b - a);
  }

  /** `(N - 2) / nproc`. Both operands are non-negative, so the truncating
      division of C and the Euclidean division of Dafny agree here. */
  function RowsPerRank(n: int, nproc: int): (q: nat)
    requires ValidLayout(n, nproc)
    ensures q * nproc <= n - 2 < q * nproc + nproc
  {
    (n - 2) / nproc
  }

  /** The slab of `rank` as computed at the top of `main`. */
  function SlabOf(n: int, nproc: int, rank: int): (s: Slab)
    requires ValidRank(n, nproc, rank)
    ensures s.nrow == s.end - s.start == RowsPerRank(n, nproc)
    ensures 1 <= s.start <= s.end <= n - 1
  {
    var q := RowsPerRank(n, nproc);
    MulMono(q, rank + 1, nproc);
    var start := q * rank + 1;
    var end := q * (rank + 1) + 1;
    Slab(start, end, end - start)
  }

  /** `row` lies in the slab of `r`. */
  predicate InSlab(n: int, nproc: int, r: int, row: int)
    requires ValidRank(n, nproc, r)
  {
    SlabOf(n, nproc, r).start <= row < SlabOf(n, nproc, r).end
  }

  lemma DivBounds(d: nat, q: nat)
    requires q >= 1
    ensures q * (d / q) <= d < q * (d / q) + q
  {
  }

  /** One past the last row owned by any rank: `q * nproc + 1`. */
  function CoveredLimit(n: int, nproc: int): int
    requires ValidLayout(n, nproc)
  {
    RowsPerRank(n, nproc) * nproc + 1
  }

  /** The slabs follow each other without gap or overlap: the first starts
      at row 1, each ends where the next starts, and the last ends at
      `CoveredLimit`. */
  lemma SlabsContiguous(n: int, nproc: int)
    requires ValidLayout(n, nproc)
    ensures SlabOf(n, nproc, 0).start == 1
    ensures forall r | 0 <= r < nproc - 1 :: SlabOf(n, nproc, r).end == SlabOf(n, nproc, r + 1).start
    ensures SlabOf(n, nproc, nproc - 1).end == CoveredLimit(n, nproc)
  {
  }

  /** The rows owned by some rank are exactly `[1, CoveredLimit)`. */
  lemma OwnedRows(n: int, nproc: int, row: int)
    requires ValidLayout(n, nproc)
    ensures (exists r | 0 <= r < nproc :: InSlab(n, nproc, r, row)) <==> 1 <= row < CoveredLimit(n, nproc)
  {
    var q := RowsPerRank(n, nproc);
    if 1 <= row < CoveredLimit(n, nproc) {
      var r := Owner(n, nproc, row);
    }
    if r :| 0 <= r < nproc && InSlab(n, nproc, r, row) {
      MulMono(q, r + 1, nproc);
    }
  }

  /** The rank whose slab holds `row`, for a row below `CoveredLimit`. */
  function Owner(n: int, nproc: int, row: int): (r: int)
    requires ValidLayout(n, nproc) && 1 <= row < CoveredLimit(n, nproc)
    ensures 0 <= r < nproc
    ensures InSlab(n, nproc, r, row)
  {
    var q := RowsPerRank(n, nproc);
    QuotientBelow(row - 1, q, nproc);
    DivBounds(row - 1, q);
    assert q * ((row - 1) / q + 1) == q * ((row - 1) / q) + q;
    (row - 1) / q
  }

  /** No two ranks own the same row. */
  lemma SlabsDisjoint(n: int, nproc: int, r1: int, r2: int, row: int)
    requires ValidRank(n, nproc, r1) && ValidRank(n, nproc, r2)
    requires InSlab(n, nproc, r1, row) && InSlab(n, nproc, r2, row)
    ensures r1 == r2
  {
    var q := RowsPerRank(n, nproc);
    if r1 < r2 {
      MulMono(q, r1 + 1, r2);
    } else if r2 < r1 {
      MulMono(q, r2 + 1, r1);
    }
  }

  /** Every interior row `[1, N-1)` is owned iff `nproc` divides `N - 2`;
      otherwise rows `[CoveredLimit, N-1)` are never initialised or
      relaxed by anyone. */
  lemma Coverage(n: int, nproc: int)
    requires ValidLayout(n, nproc)
    ensures CoveredLimit(n, nproc) == n - 1 <==> (n - 2) % nproc == 0
    ensures CoveredLimit(n, nproc) <= n - 1
  {
  }

  /** The gather at the end of `main` receives `nrow` rows from each rank
      at `A[1]`, in rank order: rank `r`'s block lands at row
      `1 + r * nrow`, which is the row its slab starts at. */
  lemma GatherPlacement(n: int, nproc: int, r: int)
    requires ValidRank(n, nproc, r)
    ensures 1 + r * SlabOf(n, nproc, r).nrow == SlabOf(n, nproc, r).start
  {
  }

  /** A quotient of a number below `q * m` is below `m`. */
  lemma QuotientBelow(d: nat, q: nat, m: int)
    requires d < q * m && m >= 0
    ensures q >= 1 && d / q < m
  {
    DivBounds(d, q);
    if m <= d / q {
      MulMono(q, m, d / q);
    }
  }

  /** Where row `a` of rank 0's `A` comes from after the gather: the rank
      `r` whose block of `nrow` rows, received at `A[1 + r * nrow]`,
      holds row `a`, and the offset of row `a` in that block. */
  function GatherSource(n: int, nproc: int, a: int): (src: (int, int))
    requires ValidLayout(n, nproc) && 1 <= a < CoveredLimit(n, nproc)
    ensures 0 <= src.0 < nproc && 0 <= src.1 < RowsPerRank(n, nproc)
    ensures 1 + src.0 * RowsPerRank(n, nproc) + src.1 == a
  {
    var q := RowsPerRank(n, nproc);
    QuotientBelow(a - 1, q, nproc);
    ((a - 1) / q, (a - 1) % q)
  }

  /** The block that holds row `a` after the gather was sent from the
      same row of the rank that owns it. */
  lemma GatherSourceOwns(n: int, nproc: int, a: int)
    requires ValidLayout(n, nproc) && 1 <= a < CoveredLimit(n, nproc)
    ensures var src := GatherSource(n, nproc, a);
            SlabOf(n, nproc, src.0).start + src.1 == a && InSlab(n, nproc, src.0, a)
  {
    GatherPlacement(n, nproc, GatherSource(n, nproc, a).0);
  }

  /** With `N = 10` and five ranks every slab has one row, and rows 6, 7 and
      8 belong to no rank. */
  lemma FiveRanksOnTen()
    ensures RowsPerRank(10, 5) == 1 && CoveredLimit(10, 5) == 6
    ensures forall row, r | 6 <= row <= 8 && 0 <= r < 5 :: !InSlab(10, 5, r, row)
  {
    forall row, r | 6 <= row <= 8 && 0 <= r < 5
      ensures !InSlab(10, 5, r, row)
    {
      OwnedRows(10, 5, row);
    }
  }
}
