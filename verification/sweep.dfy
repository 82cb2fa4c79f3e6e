/** What one coloured sweep of `relax` computes, stated without its loop
    nest: every cell of the colour in the slab gets the stencil applied to
    the values from before the sweep, and the sweep's `eps` is the largest
    magnitude of those corrections.

    The floating-point update `A + w * (mean - A)` and `fabs(b)` are kept
    abstract as a `Stencil`, so everything here holds for every update
    rule. */
module Sweep {
  import opened Grid
  import opened Colouring
  import opened Reduce

  /** The per-cell work of lines 124-126 and 137-138: the new value of a
      cell and the magnitude `fabs(b)` of its correction, both functions of
      the cell's neighbourhood. */
  datatype Stencil<!V> = Stencil(update: Nbhd<V> -> V, magnitude: Nbhd<V> -> real)

  /** Slab bounds a sweep can run with: the ghost rows `lo - 1` and `hi`
      exist. */
  predicate SweepBounds(n: int, lo: int, hi: int)
  {
    1 <= lo <= hi <= n - 1
  }

  /** The cells of colour `c` in the slab `[lo, hi)`, all updated at once
      from the values before the sweep. */
  function Simultaneous<V>(g: Grid<V>, n: nat, lo: int, hi: int, c: Colour, st: Stencil<V>): (h: Grid<V>)
    requires IsCube(g, n) && SweepBounds(n, lo, hi)
    ensures IsCube(h, n)
  {
    seq(n, i requires 0 <= i < n =>
      seq(n, j requires 0 <= j < n =>
        seq(n, k requires 0 <= k < n =>
          if Selected(n, lo, hi, c, i, j, k) then st.update(Neighbourhood(g, n, i, j, k)) else g[i][j][k])))
  }

  /** `fabs(b)` for the cell `(i, j, k)` of the field `g`. */
  function Correction<V>(st: Stencil<V>, g: Grid<V>, n: nat, i: int, j: int, k: int): real
    requires IsCube(g, n) && Interior(n, i, j, k)
  {
    st.magnitude(Neighbourhood(g, n, i, j, k))
  }

  /** `eps` is what `private_eps = Max(fabs(b), private_eps)`, started at
      zero, ends with: no smaller than zero and than the correction of
      every cell of the sweep, and either zero or one of those
      corrections. */
  ghost predicate IsMaxCorrection<V>(g: Grid<V>, n: nat, lo: int, hi: int, c: Colour, st: Stencil<V>, eps: real)
    requires IsCube(g, n) && SweepBounds(n, lo, hi)
  {
    eps >= 0.0 &&
    (forall a, b, d {:trigger Correction(st, g, n, a, b, d)} | Selected(n, lo, hi, c, a, b, d) ::
       Correction(st, g, n, a, b, d) <= eps) &&
    (eps == 0.0 || exists a, b, d {:trigger Correction(st, g, n, a, b, d)} | Selected(n, lo, hi, c, a, b, d) ::
       Correction(st, g, n, a, b, d) == eps)
  }

  /** `(a, b, d)` comes before `(i, j, k)` in the row-major order of the
      loop nest. */
  predicate Visited(a: int, b: int, d: int, i: int, j: int, k: int)
  {
    a < i || (a == i && (b < j || (b == j && d < k)))
  }

  /** The largest correction of the selected cells from the cursor
      `(i, j, k)` on, or zero if there is none. */
  function MaxFrom<V>(g: Grid<V>, n: nat, lo: int, hi: int, c: Colour, st: Stencil<V>, i: int, j: int, k: int): (m: real)
    requires IsCube(g, n) && SweepBounds(n, lo, hi)
    requires 0 <= j <= n && 0 <= k <= n
    decreases hi - i, n - j, n - k
    ensures m >= 0.0
    ensures forall a, b, d {:trigger Correction(st, g, n, a, b, d)} | Selected(n, lo, hi, c, a, b, d) && !Visited(a, b, d, i, j, k) ::
              Correction(st, g, n, a, b, d) <= m
    ensures m == 0.0 || exists a, b, d {:trigger Correction(st, g, n, a, b, d)} | Selected(n, lo, hi, c, a, b, d) && !Visited(a, b, d, i, j, k) ::
              Correction(st, g, n, a, b, d) == m
  {
    if i >= hi then 0.0
    else if j == n then MaxFrom(g, n, lo, hi, c, st, i + 1, 0, 0)
    else if k == n then MaxFrom(g, n, lo, hi, c, st, i, j + 1, 0)
    else if Selected(n, lo, hi, c, i, j, k) then Max(Correction(st, g, n, i, j, k), MaxFrom(g, n, lo, hi, c, st, i, j, k + 1))
    else MaxFrom(g, n, lo, hi, c, st, i, j, k + 1)
  }

  /** The reference value of a sweep's `eps`. */
  function MaxCorrection<V>(g: Grid<V>, n: nat, lo: int, hi: int, c: Colour, st: Stencil<V>): real
    requires IsCube(g, n) && SweepBounds(n, lo, hi)
  {
    MaxFrom(g, n, lo, hi, c, st, lo, 0, 0)
  }

  /** `MaxCorrection` is the largest correction of the sweep. */
  lemma MaxCorrectionIsMax<V>(g: Grid<V>, n: nat, lo: int, hi: int, c: Colour, st: Stencil<V>)
    requires IsCube(g, n) && SweepBounds(n, lo, hi)
    ensures IsMaxCorrection(g, n, lo, hi, c, st, MaxCorrection(g, n, lo, hi, c, st))
  {
    var m := MaxCorrection(g, n, lo, hi, c, st);
    if m != 0.0 {
      var a, b, d :| Selected(n, lo, hi, c, a, b, d) && !Visited(a, b, d, lo, 0, 0) && Correction(st, g, n, a, b, d) == m;
    }
  }

  /** The largest correction is unique: a sweep's `eps` is determined by
      the field it starts from. */
  lemma MaxCorrectionUnique<V>(g: Grid<V>, n: nat, lo: int, hi: int, c: Colour, st: Stencil<V>, e1: real, e2: real)
    requires IsCube(g, n) && SweepBounds(n, lo, hi)
    requires IsMaxCorrection(g, n, lo, hi, c, st, e1)
    requires IsMaxCorrection(g, n, lo, hi, c, st, e2)
    ensures e1 == e2
  {
    if e1 != 0.0 {
      var a, b, d :| Selected(n, lo, hi, c, a, b, d) && Correction(st, g, n, a, b, d) == e1;
    }
    if e2 != 0.0 {
      var a, b, d :| Selected(n, lo, hi, c, a, b, d) && Correction(st, g, n, a, b, d) == e2;
    }
  }

  /** The sweep writes only the cells of its colour in the slab's
      interior: faces, ghost rows and the other colour keep their values. */
  lemma WritesConfined<V>(g: Grid<V>, n: nat, lo: int, hi: int, c: Colour, st: Stencil<V>)
    requires IsCube(g, n) && SweepBounds(n, lo, hi)
    ensures forall a, b, d | InCube(n, a, b, d) && !Selected(n, lo, hi, c, a, b, d) ::
              Simultaneous(g, n, lo, hi, c, st)[a][b][d] == g[a][b][d]
  {
    var s := Simultaneous(g, n, lo, hi, c, st);
    forall a, b, d | InCube(n, a, b, d) && !Selected(n, lo, hi, c, a, b, d)
      ensures s[a][b][d] == g[a][b][d]
    {
    }
  }

  /** Rows outside the slab come out of the sweep unchanged. */
  lemma RowOutsideSlab<V>(g: Grid<V>, n: nat, lo: int, hi: int, c: Colour, st: Stencil<V>, a: int)
    requires IsCube(g, n) && SweepBounds(n, lo, hi)
    requires 0 <= a < n && !(lo <= a < hi)
    ensures Simultaneous(g, n, lo, hi, c, st)[a] == g[a]
  {
    var s := Simultaneous(g, n, lo, hi, c, st);
    forall b, d | 0 <= b < n && 0 <= d < n
      ensures s[a][b][d] == g[a][b][d]
    {
      assert !Selected(n, lo, hi, c, a, b, d);
    }
    PlaneExt(s[a], g[a], n);
  }

  /** Row `a` of the slab after the sweep depends only on rows `a - 1`,
      `a` and `a + 1` before it, and not on where the slab's other rows
      begin or end: two fields that agree on those three rows, swept over
      any two slabs that both hold `a`, give the same row `a` and the same
      corrections in it. */
  lemma RowReadsNeighbours<V>(g: Grid<V>, g': Grid<V>, n: nat, lo: int, hi: int, lo': int, hi': int,
                              c: Colour, st: Stencil<V>, a: int)
    requires IsCube(g, n) && IsCube(g', n) && SweepBounds(n, lo, hi) && SweepBounds(n, lo', hi')
    requires lo <= a < hi && lo' <= a < hi'
    requires g[a - 1] == g'[a - 1] && g[a] == g'[a] && g[a + 1] == g'[a + 1]
    ensures Simultaneous(g, n, lo, hi, c, st)[a] == Simultaneous(g', n, lo', hi', c, st)[a]
    ensures forall b, d | Selected(n, lo, hi, c, a, b, d) :: Correction(st, g, n, a, b, d) == Correction(st, g', n, a, b, d)
  {
    var s := Simultaneous(g, n, lo, hi, c, st);
    var s' := Simultaneous(g', n, lo', hi', c, st);
    forall b, d | 0 <= b < n && 0 <= d < n
      ensures s[a][b][d] == s'[a][b][d]
    {
      assert Selected(n, lo, hi, c, a, b, d) == Selected(n, lo', hi', c, a, b, d);
      if Selected(n, lo, hi, c, a, b, d) {
        NeighbourhoodRows(g, g', n, a, b, d);
        assert s[a][b][d] == st.update(Neighbourhood(g, n, a, b, d));
        assert s'[a][b][d] == st.update(Neighbourhood(g', n, a, b, d));
      } else {
        assert s[a][b][d] == g[a][b][d];
        assert s'[a][b][d] == g'[a][b][d];
      }
    }
    PlaneExt(s[a], s'[a], n);
    forall b, d | Selected(n, lo, hi, c, a, b, d)
      ensures Correction(st, g, n, a, b, d) == Correction(st, g', n, a, b, d)
    {
      NeighbourhoodRows(g, g', n, a, b, d);
    }
  }
}
