/** The in-place loop nest of one coloured sweep, lines 120-127 for red
    and 133-139 for black, and the proof that it computes the simultaneous
    update of its colour.

    The loop writes `A` in place while later cells read it. The proof
    follows a cursor `(i, j, k)` through the loop nest: at every point the
    working field is the pre-sweep field with exactly the selected cells
    before the cursor updated, and the running `eps` is the largest of
    their corrections. No cell reads a value written earlier in the same
    sweep, because no face neighbour of a selected cell is selected. */
module InPlace {
  import opened Grid
  import opened Colouring
  import opened Reduce
  import opened Sweep

  /** The field after the loop nest has reached `(i, j, k)`: the selected
      cells visited so far hold their update from the pre-sweep values, and
      every other cell is untouched. */
  ghost function SweptUpTo<V>(g: Grid<V>, n: nat, lo: int, hi: int, c: Colour, st: Stencil<V>, i: int, j: int, k: int): (h: Grid<V>)
    requires IsCube(g, n) && SweepBounds(n, lo, hi)
    ensures IsCube(h, n)
  {
    seq(n, a requires 0 <= a < n =>
      seq(n, b requires 0 <= b < n =>
        seq(n, d requires 0 <= d < n =>
          if Selected(n, lo, hi, c, a, b, d) && Visited(a, b, d, i, j, k)
          then st.update(Neighbourhood(g, n, a, b, d)) else g[a][b][d])))
  }

  lemma SweptCell<V>(g: Grid<V>, n: nat, lo: int, hi: int, c: Colour, st: Stencil<V>, i: int, j: int, k: int, a: int, b: int, d: int)
    requires IsCube(g, n) && SweepBounds(n, lo, hi) && InCube(n, a, b, d)
    ensures SweptUpTo(g, n, lo, hi, c, st, i, j, k)[a][b][d] ==
            if Selected(n, lo, hi, c, a, b, d) && Visited(a, b, d, i, j, k)
            then st.update(Neighbourhood(g, n, a, b, d)) else g[a][b][d]
  {
  }

  /** `eps` bounds every correction made before `(i, j, k)`. */
  ghost predicate BoundsUpTo<V>(g: Grid<V>, n: nat, lo: int, hi: int, c: Colour, st: Stencil<V>, i: int, j: int, k: int, eps: real)
    requires IsCube(g, n) && SweepBounds(n, lo, hi)
  {
    eps >= 0.0 &&
    forall a, b, d {:trigger Correction(st, g, n, a, b, d)} | Selected(n, lo, hi, c, a, b, d) && Visited(a, b, d, i, j, k) ::
      Correction(st, g, n, a, b, d) <= eps
  }

  /** `eps` is zero or the correction of the cell `w`, visited before `(i, j, k)`. */
  ghost predicate AttainedBy<V>(g: Grid<V>, n: nat, lo: int, hi: int, c: Colour, st: Stencil<V>, i: int, j: int, k: int, eps: real, w: Cell)
    requires IsCube(g, n) && SweepBounds(n, lo, hi)
  {
    eps == 0.0 ||
    (Selected(n, lo, hi, c, w.i, w.j, w.k) && Visited(w.i, w.j, w.k, i, j, k) &&
     Correction(st, g, n, w.i, w.j, w.k) == eps)
  }

  /** The loop facts at cursor `(i, j, k)`: the working field `h` is the
      field swept so far, and `eps` is the largest correction so far,
      attained at `w`. */
  ghost predicate SweepState<V>(g: Grid<V>, n: nat, lo: int, hi: int, c: Colour, st: Stencil<V>,
                                h: Grid<V>, i: int, j: int, k: int, eps: real, w: Cell)
    requires IsCube(g, n) && SweepBounds(n, lo, hi)
  {
    h == SweptUpTo(g, n, lo, hi, c, st, i, j, k) &&
    BoundsUpTo(g, n, lo, hi, c, st, i, j, k, eps) &&
    AttainedBy(g, n, lo, hi, c, st, i, j, k, eps, w)
  }

  /** Moving the cursor over cells that are not selected changes none of
      the loop facts. */
  lemma Reindex<V>(g: Grid<V>, n: nat, lo: int, hi: int, c: Colour, st: Stencil<V>, h: Grid<V>,
                   i: int, j: int, k: int, i': int, j': int, k': int, eps: real, w: Cell)
    requires IsCube(g, n) && SweepBounds(n, lo, hi)
    requires SweepState(g, n, lo, hi, c, st, h, i, j, k, eps, w)
    requires forall a, b, d | Selected(n, lo, hi, c, a, b, d) :: Visited(a, b, d, i, j, k) <==> Visited(a, b, d, i', j', k')
    ensures SweepState(g, n, lo, hi, c, st, h, i', j', k', eps, w)
  {
    forall a, b, d | InCube(n, a, b, d)
      ensures h[a][b][d] == SweptUpTo(g, n, lo, hi, c, st, i', j', k')[a][b][d]
    {
      SweptCell(g, n, lo, hi, c, st, i, j, k, a, b, d);
      SweptCell(g, n, lo, hi, c, st, i', j', k', a, b, d);
    }
    CubeExt(h, SweptUpTo(g, n, lo, hi, c, st, i', j', k'), n);
  }

  /** Before the loop nest starts, nothing has been swept and the largest
      correction is zero. */
  lemma Start<V>(g: Grid<V>, n: nat, lo: int, hi: int, c: Colour, st: Stencil<V>)
    requires IsCube(g, n) && SweepBounds(n, lo, hi)
    ensures SweepState(g, n, lo, hi, c, st, g, lo, 0, 0, 0.0, Cell(0, 0, 0))
  {
    forall a, b, d | InCube(n, a, b, d)
      ensures g[a][b][d] == SweptUpTo(g, n, lo, hi, c, st, lo, 0, 0)[a][b][d]
    {
      SweptCell(g, n, lo, hi, c, st, lo, 0, 0, a, b, d);
    }
    CubeExt(g, SweptUpTo(g, n, lo, hi, c, st, lo, 0, 0), n);
  }

  /** The selected cell `(i, j, k)` still reads pre-sweep values: neither it
      nor any face neighbour has been written yet. */
  lemma ReadsPreSweep<V>(g: Grid<V>, n: nat, lo: int, hi: int, c: Colour, st: Stencil<V>, i: int, j: int, k: int)
    requires IsCube(g, n) && SweepBounds(n, lo, hi)
    requires Selected(n, lo, hi, c, i, j, k)
    ensures Neighbourhood(SweptUpTo(g, n, lo, hi, c, st, i, j, k), n, i, j, k) == Neighbourhood(g, n, i, j, k)
  {
    NoAdjacentSelected(n, lo, hi, c, i, j, k);
    SweptCell(g, n, lo, hi, c, st, i, j, k, i, j, k);
    SweptCell(g, n, lo, hi, c, st, i, j, k, i - 1, j, k);
    SweptCell(g, n, lo, hi, c, st, i, j, k, i + 1, j, k);
    SweptCell(g, n, lo, hi, c, st, i, j, k, i, j - 1, k);
    SweptCell(g, n, lo, hi, c, st, i, j, k, i, j + 1, k);
    SweptCell(g, n, lo, hi, c, st, i, j, k, i, j, k - 1);
    SweptCell(g, n, lo, hi, c, st, i, j, k, i, j, k + 1);
  }

  /** Cell by cell, the cursor moving from `k` to `k + 2` over a selected
      cell adds exactly that cell's update. */
  lemma StepCellAt<V>(g: Grid<V>, n: nat, lo: int, hi: int, c: Colour, st: Stencil<V>, i: int, j: int, k: int, a: int, b: int, d: int)
    requires IsCube(g, n) && SweepBounds(n, lo, hi)
    requires Selected(n, lo, hi, c, i, j, k) && InCube(n, a, b, d)
    ensures SweptUpTo(g, n, lo, hi, c, st, i, j, k + 2)[a][b][d] ==
            if a == i && b == j && d == k then st.update(Neighbourhood(g, n, i, j, k))
            else SweptUpTo(g, n, lo, hi, c, st, i, j, k)[a][b][d]
  {
    SweptCell(g, n, lo, hi, c, st, i, j, k, a, b, d);
    SweptCell(g, n, lo, hi, c, st, i, j, k + 2, a, b, d);
    if a == i && b == j && d == k + 1 {
      NoAdjacentSelected(n, lo, hi, c, i, j, k);
    }
  }

  /** Updating the selected cell `(i, j, k)` in place and stepping `k` by
      two gives the field swept up to `k + 2`. */
  lemma StepCell<V>(g: Grid<V>, n: nat, lo: int, hi: int, c: Colour, st: Stencil<V>, h: Grid<V>, i: int, j: int, k: int)
    requires IsCube(g, n) && SweepBounds(n, lo, hi)
    requires Selected(n, lo, hi, c, i, j, k)
    requires h == SweptUpTo(g, n, lo, hi, c, st, i, j, k)
    ensures IsCube(h, n)
    ensures h[i := h[i][j := h[i][j][k := st.update(Neighbourhood(h, n, i, j, k))]]]
              == SweptUpTo(g, n, lo, hi, c, st, i, j, k + 2)
  {
    ReadsPreSweep(g, n, lo, hi, c, st, i, j, k);
    var h' := Put(h, n, i, j, k, st.update(Neighbourhood(g, n, i, j, k)));
    var h2 := SweptUpTo(g, n, lo, hi, c, st, i, j, k + 2);
    forall a, b, d | InCube(n, a, b, d)
      ensures h'[a][b][d] == h2[a][b][d]
    {
      StepCellAt(g, n, lo, hi, c, st, i, j, k, a, b, d);
    }
    CubeExt(h', h2, n);
  }

  /** Folding the correction of the selected cell `(i, j, k)` into `eps`
      keeps `eps` the largest correction so far. */
  lemma StepEps<V>(g: Grid<V>, n: nat, lo: int, hi: int, c: Colour, st: Stencil<V>,
                   i: int, j: int, k: int, eps: real, w: Cell)
    requires IsCube(g, n) && SweepBounds(n, lo, hi)
    requires Selected(n, lo, hi, c, i, j, k)
    requires BoundsUpTo(g, n, lo, hi, c, st, i, j, k, eps)
    requires AttainedBy(g, n, lo, hi, c, st, i, j, k, eps, w)
    ensures var b := Correction(st, g, n, i, j, k);
            var w' := if b > eps then Cell(i, j, k) else w;
            BoundsUpTo(g, n, lo, hi, c, st, i, j, k + 2, Max(b, eps)) &&
            AttainedBy(g, n, lo, hi, c, st, i, j, k + 2, Max(b, eps), w')
  {
    NoAdjacentSelected(n, lo, hi, c, i, j, k);
  }

  /** The cells of the pencil `(i, j, _)` before `KStart` are not
      selected, so starting the innermost loop there keeps the loop facts. */
  lemma EnterPencil<V>(g: Grid<V>, n: nat, lo: int, hi: int, c: Colour, st: Stencil<V>, h: Grid<V>,
                       i: int, j: int, eps: real, w: Cell)
    requires IsCube(g, n) && SweepBounds(n, lo, hi)
    requires SweepState(g, n, lo, hi, c, st, h, i, j, 0, eps, w)
    requires lo <= i < hi && 1 <= j <= n - 2
    ensures SweepState(g, n, lo, hi, c, st, h, i, j, KStart(c, i, j), eps, w)
  {
    forall a, b, d | Selected(n, lo, hi, c, a, b, d) && a == i && b == j
      ensures d >= KStart(c, i, j)
    {
      KLoopVisits(n, lo, hi, c, i, j, d);
    }
    Reindex(g, n, lo, hi, c, st, h, i, j, 0, i, j, KStart(c, i, j), eps, w);
  }

  /** The `t`-th cell the innermost loop visits is selected. */
  lemma PencilCellSelected(n: nat, lo: int, hi: int, c: Colour, i: int, j: int, t: nat)
    requires lo <= i < hi && 1 <= j <= n - 2 && i >= 0
    requires KStart(c, i, j) + 2 * t <= n - 2
    ensures Selected(n, lo, hi, c, i, j, KStart(c, i, j) + 2 * t)
  {
    KLoopVisits(n, lo, hi, c, i, j, KStart(c, i, j) + 2 * t);
  }

  /** One iteration of the innermost loop keeps its invariant. */
  lemma StepPencil<V>(g: Grid<V>, n: nat, lo: int, hi: int, c: Colour, st: Stencil<V>, h: Grid<V>,
                      i: int, j: int, k: int, t: nat, eps: real, w: Cell)
    requires IsCube(g, n) && SweepBounds(n, lo, hi)
    requires SweepState(g, n, lo, hi, c, st, h, i, j, k, eps, w)
    requires lo <= i < hi && 1 <= j <= n - 2
    requires k == KStart(c, i, j) + 2 * t && k <= n - 2
    ensures IsCube(h, n) && Interior(n, i, j, k)
    ensures var b := st.magnitude(Neighbourhood(h, n, i, j, k));
            var w' := if b > eps then Cell(i, j, k) else w;
            SweepState(g, n, lo, hi, c, st, h[i := h[i][j := h[i][j][k := st.update(Neighbourhood(h, n, i, j, k))]]],
                       i, j, k + 2, Max(b, eps), w')
  {
    PencilCellSelected(n, lo, hi, c, i, j, t);
    ReadsPreSweep(g, n, lo, hi, c, st, i, j, k);
    StepCell(g, n, lo, hi, c, st, h, i, j, k);
    StepEps(g, n, lo, hi, c, st, i, j, k, eps, w);
  }

  /** Once the cursor has passed the slab, the loop facts are the contract
      of the whole sweep. */
  lemma Finish<V>(g: Grid<V>, n: nat, lo: int, hi: int, c: Colour, st: Stencil<V>, h: Grid<V>, eps: real, w: Cell)
    requires IsCube(g, n) && SweepBounds(n, lo, hi)
    requires SweepState(g, n, lo, hi, c, st, h, hi, 0, 0, eps, w)
    ensures h == Simultaneous(g, n, lo, hi, c, st)
    ensures IsMaxCorrection(g, n, lo, hi, c, st, eps)
  {
    var s := Simultaneous(g, n, lo, hi, c, st);
    forall a, b, d | InCube(n, a, b, d)
      ensures h[a][b][d] == s[a][b][d]
    {
      SweptCell(g, n, lo, hi, c, st, hi, 0, 0, a, b, d);
    }
    CubeExt(h, s, n);
    if eps != 0.0 {
      var w := w;
      assert Selected(n, lo, hi, c, w.i, w.j, w.k) && Correction(st, g, n, w.i, w.j, w.k) == eps;
    }
  }

  /** The body of the innermost loop, lines 124-126: compute the correction
      of `(i, j, k)` from its neighbourhood, fold its magnitude into `eps`
      and write the new value in place. */
  method UpdateCell<V>(g: Grid<V>, n: nat, lo: int, hi: int, c: Colour, st: Stencil<V>, h0: Grid<V>,
                       i: int, j: int, k: int, ghost t: nat, eps0: real, ghost w0: Cell)
    returns (h: Grid<V>, eps: real, ghost w: Cell, next: int)
    requires IsCube(g, n) && SweepBounds(n, lo, hi)
    requires SweepState(g, n, lo, hi, c, st, h0, i, j, k, eps0, w0)
    requires lo <= i < hi && 1 <= j <= n - 2
    requires k == KStart(c, i, j) + 2 * t && k <= n - 2
    ensures next == k + 2
    ensures SweepState(g, n, lo, hi, c, st, h, i, j, next, eps, w)
  {
    StepPencil(g, n, lo, hi, c, st, h0, i, j, k, t, eps0, w0);
    var b := st.magnitude(Neighbourhood(h0, n, i, j, k));
    w := if b > eps0 then Cell(i, j, k) else w0;
    eps := Max(b, eps0);
    h := h0[i := h0[i][j := h0[i][j][k := st.update(Neighbourhood(h0, n, i, j, k))]]];
    next := k + 2;
  }

  /** The innermost loop of a sweep: `k` runs from `KStart` to `N - 2` in
      steps of two along row `i`, column `j`. */
  method SweepPencil<V>(g: Grid<V>, n: nat, lo: int, hi: int, c: Colour, st: Stencil<V>, h0: Grid<V>,
                        i: int, j: int, eps0: real, ghost w0: Cell)
    returns (h: Grid<V>, eps: real, ghost w: Cell, next: int)
    requires IsCube(g, n) && SweepBounds(n, lo, hi)
    requires SweepState(g, n, lo, hi, c, st, h0, i, j, 0, eps0, w0)
    requires lo <= i < hi && 1 <= j <= n - 2
    ensures next == j + 1
    ensures SweepState(g, n, lo, hi, c, st, h, i, next, 0, eps, w)
  {
    h, eps, w := h0, eps0, w0;
    var k := KStart(c, i, j);
    EnterPencil(g, n, lo, hi, c, st, h, i, j, eps, w);
    ghost var t: nat := 0;
    while k <= n - 2
      invariant 1 <= k <= n
      invariant k == KStart(c, i, j) + 2 * t
      invariant SweepState(g, n, lo, hi, c, st, h, i, j, k, eps, w)
    {
      h, eps, w, k := UpdateCell(g, n, lo, hi, c, st, h, i, j, k, t, eps, w);
      t := t + 1;
    }
    next := j + 1;
    Reindex(g, n, lo, hi, c, st, h, i, j, k, i, next, 0, eps, w);
  }

  /** The middle loop of a sweep: `j` runs over `[1, N - 2]` in row `i`. */
  method SweepPlane<V>(g: Grid<V>, n: nat, lo: int, hi: int, c: Colour, st: Stencil<V>, h0: Grid<V>,
                       i: int, eps0: real, ghost w0: Cell)
    returns (h: Grid<V>, eps: real, ghost w: Cell, next: int)
    requires IsCube(g, n) && SweepBounds(n, lo, hi)
    requires SweepState(g, n, lo, hi, c, st, h0, i, 0, 0, eps0, w0)
    requires lo <= i < hi
    ensures next == i + 1
    ensures SweepState(g, n, lo, hi, c, st, h, next, 0, 0, eps, w)
  {
    h, eps, w := h0, eps0, w0;
    var j := 1;
    Reindex(g, n, lo, hi, c, st, h, i, 0, 0, i, j, 0, eps, w);
    while j <= n - 2
      invariant 1 <= j <= n - 1
      invariant SweepState(g, n, lo, hi, c, st, h, i, j, 0, eps, w)
    {
      h, eps, w, j := SweepPencil(g, n, lo, hi, c, st, h, i, j, eps, w);
    }
    next := i + 1;
    Reindex(g, n, lo, hi, c, st, h, i, j, 0, next, 0, 0, eps, w);
  }

  /** The whole loop nest of one colour, lines 120-127 for red and 133-139
      for black: the in-place sweep ends with the simultaneous update of
      the colour, leaves every other cell alone, and returns the largest
      correction it made. The black sweep of `relax` does not fold its
      corrections into `private_eps`; its caller drops this `eps`. */
  method SweepColour<V>(g: Grid<V>, n: nat, lo: int, hi: int, c: Colour, st: Stencil<V>) returns (h: Grid<V>, eps: real)
    requires IsCube(g, n) && SweepBounds(n, lo, hi)
    ensures h == Simultaneous(g, n, lo, hi, c, st)
    ensures forall a, b, d | InCube(n, a, b, d) && !Selected(n, lo, hi, c, a, b, d) :: h[a][b][d] == g[a][b][d]
    ensures IsMaxCorrection(g, n, lo, hi, c, st, eps)
    ensures eps == MaxCorrection(g, n, lo, hi, c, st)
  {
    h, eps := g, 0.0;
    ghost var w := Cell(0, 0, 0);
    Start(g, n, lo, hi, c, st);
    var i := lo;
    while i < hi
      invariant lo <= i <= hi
      invariant SweepState(g, n, lo, hi, c, st, h, i, 0, 0, eps, w)
    {
      h, eps, w, i := SweepPlane(g, n, lo, hi, c, st, h, i, eps, w);
    }
    Finish(g, n, lo, hi, c, st, h, eps, w);
    WritesConfined(g, n, lo, hi, c, st);
    MaxCorrectionIsMax(g, n, lo, hi, c, st);
    MaxCorrectionUnique(g, n, lo, hi, c, st, eps, MaxCorrection(g, n, lo, hi, c, st));
  }
}
