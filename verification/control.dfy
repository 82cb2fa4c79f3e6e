/** `main`, lines 26-62: partition, `init` on every rank, at most
    `itmax` calls of `relax` that stop early once `eps < maxeps`, and the
    gather onto rank 0.

    The main result: the field rank 0 gathers is the initial field after
    as many serial red-black relaxations as the loop made, and the loop
    stopped exactly where the serial `eps` first fell below `maxeps`, or
    after `itmax` calls. */
module Control {
  import opened Grid
  import opened Partition
  import opened Colouring
  import opened Sweep
  import opened Init
  import opened Relax

  /** `G` after `t` serial relaxations. */
  function Relaxed<V>(G: Grid<V>, n: nat, nproc: int, st: Stencil<V>, t: nat): (h: Grid<V>)
    requires ValidLayout(n, nproc) && IsCube(G, n)
    ensures IsCube(h, n)
  {
    if t == 0 then G else SerialRelax(Relaxed(G, n, nproc, st, t - 1), n, nproc, st)
  }

  /** The `eps` of relaxation number `t + 1`: the serial red sweep's
      largest correction on `G` after `t` relaxations. */
  function EpsOf<V>(G: Grid<V>, n: nat, nproc: int, st: Stencil<V>, t: nat): real
    requires ValidLayout(n, nproc) && IsCube(G, n)
  {
    SerialEps(Relaxed(G, n, nproc, st, t), n, nproc, Red, st)
  }

  /** `itmax` clipped at zero: the number of iterations `for (it = 1; it
      <= itmax; it++)` makes when it never breaks. */
  function Budget(itmax: int): (b: nat)
    ensures b >= itmax
    ensures b == 0 || b == itmax
  {
    if itmax < 0 then 0 else itmax
  }

  /** `EpsOf` for a fixed initial field, as a function of `t` alone. */
  function EpsFn<V>(G: Grid<V>, n: nat, nproc: int, st: Stencil<V>): (e: nat -> real)
    requires ValidLayout(n, nproc) && IsCube(G, n)
  {
    (t: nat) => EpsOf(G, n, nproc, st, t)
  }

  /** The first `k` values of a sequence `e` of `eps` values, in order. */
  function Trace(e: nat -> real, k: nat): (tr: seq<real>)
    ensures |tr| == k
  {
    if k == 0 then [] else Trace(e, k - 1) + [e(k - 1)]
  }

  /** Entry `t` of a trace is `e(t)`, however long the trace. */
  lemma {:induction false} TraceAt(e: nat -> real, k: nat, t: nat)
    requires t < k
    ensures Trace(e, k)[t] == e(t)
  {
    if t < k - 1 {
      TraceAt(e, k - 1, t);
    }
  }

  /** Every one of the first `calls` calls of `relax` but the last gave an
      `eps` of at least `maxeps`, so the loop went on after it. */
  ghost predicate KeptGoing(e: nat -> real, maxeps: real, calls: nat)
  {
    forall t | 0 <= t < calls - 1 :: Trace(e, calls)[t] >= maxeps
  }

  /** `KeptGoing` read entry by entry: the loop went on after call `t + 1`
      exactly when that call's `eps`, `e(t)`, was at least `maxeps`, for
      every call but the last. */
  lemma KeptGoingMeans(e: nat -> real, maxeps: real, calls: nat)
    ensures KeptGoing(e, maxeps, calls) <==> forall t: nat | t < calls - 1 :: e(t) >= maxeps
  {
    forall t: nat | t < calls
      ensures Trace(e, calls)[t] == e(t)
    {
      TraceAt(e, calls, t);
    }
  }

  /** After `calls` calls of `relax` whose `eps` values are `e(0)`,
      `e(1)`, ...: every call but the last gave an `eps` of at least
      `maxeps`, and `eps` is the last call's (or the initial `0.` when there
      was none). */
  ghost predicate History(e: nat -> real, maxeps: real, calls: nat, eps: real)
  {
    KeptGoing(e, maxeps, calls) &&
    (if calls == 0 then eps == 0.0 else eps == Trace(e, calls)[calls - 1])
  }

  /** The facts the iteration loop keeps after `calls` calls of `relax`:
      every rank is in step with `G` relaxed `calls` times, and the `eps`
      history is as `History` says. */
  ghost predicate LoopState<V>(G: Grid<V>, n: nat, nproc: int, st: Stencil<V>, maxeps: real,
                               out: seq<Grid<V>>, calls: nat, eps: real)
    requires ValidLayout(n, nproc) && IsCube(G, n)
  {
    WellFormed(out, n, nproc) && Agree(out, Relaxed(G, n, nproc, st, calls), n, nproc) &&
    History(EpsFn(G, n, nproc, st), maxeps, calls, eps)
  }

  /** A call of `relax` that returned the next `eps` extends a history
      whose last `eps` did not stop the loop. */
  lemma HistoryStep(e: nat -> real, maxeps: real, calls0: nat, eps0: real, eps: real)
    requires History(e, maxeps, calls0, eps0)
    requires calls0 >= 1 ==> eps0 >= maxeps
    requires eps == e(calls0)
    ensures History(e, maxeps, calls0 + 1, eps)
  {
    var tr, tr' := Trace(e, calls0), Trace(e, calls0 + 1);
    assert tr' == tr + [eps];
    assert forall t | 0 <= t < calls0 :: tr'[t] == tr[t];
  }

  /** A call of `relax` that kept the ranks in step with the serial
      relaxation keeps them in step with `G` relaxed once more. */
  lemma AgreeStep<V>(G: Grid<V>, n: nat, nproc: int, st: Stencil<V>, calls0: nat, out: seq<Grid<V>>)
    requires ValidLayout(n, nproc) && IsCube(G, n) && WellFormed(out, n, nproc)
    requires Agree(out, SerialRelax(Relaxed(G, n, nproc, st, calls0), n, nproc, st), n, nproc)
    ensures Agree(out, Relaxed(G, n, nproc, st, calls0 + 1), n, nproc)
  {
  }

  /** One pass of the loop body, lines 44-45: `eps = 0.; relax();`. The
      reset of `eps` is left out: the broadcast at the end of `relax`
      overwrites it on every rank. */
  method Step<V>(ghost G: Grid<V>, n: nat, nproc: int, st: Stencil<V>, maxeps: real,
                 out0: seq<Grid<V>>, calls0: nat, eps0: real)
    returns (out: seq<Grid<V>>, calls: nat, eps: real)
    requires ValidLayout(n, nproc) && IsCube(G, n)
    requires LoopState(G, n, nproc, st, maxeps, out0, calls0, eps0)
    requires calls0 >= 1 ==> eps0 >= maxeps
    ensures calls == calls0 + 1
    ensures LoopState(G, n, nproc, st, maxeps, out, calls, eps)
  {
    var seen;
    out, eps, seen := RelaxRanks(out0, n, nproc, st);
    RelaxAdvances(G, n, nproc, st, maxeps, out0, calls0, eps0);
    calls := calls0 + 1;
  }

  /** The loop state after one more distributed `relax`. */
  lemma RelaxAdvances<V>(G: Grid<V>, n: nat, nproc: int, st: Stencil<V>, maxeps: real,
                         out0: seq<Grid<V>>, calls0: nat, eps0: real)
    requires ValidLayout(n, nproc) && IsCube(G, n)
    requires LoopState(G, n, nproc, st, maxeps, out0, calls0, eps0)
    requires calls0 >= 1 ==> eps0 >= maxeps
    ensures LoopState(G, n, nproc, st, maxeps, DistRelax(out0, n, nproc, st).states, calls0 + 1,
                      DistRelax(out0, n, nproc, st).eps)
  {
    var d := DistRelax(out0, n, nproc, st);
    RelaxIsSerial(out0, Relaxed(G, n, nproc, st, calls0), n, nproc, st);
    AgreeStep(G, n, nproc, st, calls0, d.states);
    assert d.eps == EpsFn(G, n, nproc, st)(calls0);
    HistoryStep(EpsFn(G, n, nproc, st), maxeps, calls0, eps0, d.eps);
  }

  /** The iteration loop, lines 42-49, on every rank at once. `calls` is
      the number of times `relax` ran, `eps` the value it last broadcast
      (the global `eps` keeps its initial `0.` when there was no call),
      and `converged` whether the loop left through the `break`. */
  method Iterate<V>(states: seq<Grid<V>>, n: nat, nproc: int, st: Stencil<V>, itmax: int, maxeps: real, ghost G: Grid<V>)
    returns (out: seq<Grid<V>>, calls: nat, eps: real, converged: bool)
    requires ValidLayout(n, nproc) && WellFormed(states, n, nproc) && IsCube(G, n)
    requires Agree(states, G, n, nproc)
    ensures WellFormed(out, n, nproc) && Agree(out, Relaxed(G, n, nproc, st, calls), n, nproc)
    ensures calls <= Budget(itmax)
    ensures KeptGoing(EpsFn(G, n, nproc, st), maxeps, calls)
    ensures converged <==> calls >= 1 && Trace(EpsFn(G, n, nproc, st), calls)[calls - 1] < maxeps
    ensures !converged ==> calls == Budget(itmax)
    ensures calls >= 1 ==> eps == Trace(EpsFn(G, n, nproc, st), calls)[calls - 1]
    ensures calls == 0 ==> eps == 0.0
  {
    out, calls, eps, converged := states, 0, 0.0, false;
    var it := 1;
    while it <= itmax
      invariant calls == it - 1 && calls <= Budget(itmax)
      invariant LoopState(G, n, nproc, st, maxeps, out, calls, eps)
      invariant calls >= 1 ==> eps >= maxeps
      decreases itmax - it
    {
      out, calls, eps := Step(G, n, nproc, st, maxeps, out, calls, eps);
      if eps < maxeps {
        converged := true;
        break;
      }
      it := it + 1;
    }
  }

  /** The last entry of the trace of `calls` serial relaxations is the
      `eps` of relaxation number `calls`. */
  lemma LastEps<V>(G: Grid<V>, n: nat, nproc: int, st: Stencil<V>, calls: nat)
    requires ValidLayout(n, nproc) && IsCube(G, n) && calls >= 1
    ensures Trace(EpsFn(G, n, nproc, st), calls)[calls - 1] == EpsOf(G, n, nproc, st, calls - 1)
  {
    TraceAt(EpsFn(G, n, nproc, st), calls, calls - 1);
  }

  /** The iteration loop and the gather onto rank 0, from ranks in step
      with the field `F`. */
  method IterateAndGather<V>(states: seq<Grid<V>>, n: nat, nproc: int, st: Stencil<V>, itmax: int, maxeps: real, ghost F: Grid<V>)
    returns (A: Grid<V>, calls: nat, converged: bool)
    requires ValidLayout(n, nproc) && WellFormed(states, n, nproc) && IsCube(F, n)
    requires Agree(states, F, n, nproc)
    ensures calls <= Budget(itmax)
    ensures A == Relaxed(F, n, nproc, st, calls)
    ensures KeptGoing(EpsFn(F, n, nproc, st), maxeps, calls)
    ensures converged <==> calls >= 1 && EpsOf(F, n, nproc, st, calls - 1) < maxeps
    ensures !converged ==> calls == Budget(itmax)
  {
    var out, eps;
    out, calls, eps, converged := Iterate(states, n, nproc, st, itmax, maxeps, F);
    A := Gather(out, n, nproc);
    GatherIsGlobal(out, Relaxed(F, n, nproc, st, calls), n, nproc);
    if calls >= 1 {
      LastEps(F, n, nproc, st, calls);
    }
  }

  /** The whole program: `init` on every rank, the iteration loop, and the
      gather onto rank 0. Returns rank 0's `A` after the gather, the
      number of `relax` calls and whether the loop converged. */
  method Solve<V>(n: nat, nproc: int, st: Stencil<V>, ofInt: int -> V, itmax: int, maxeps: real)
    returns (A: Grid<V>, calls: nat, converged: bool)
    requires ValidLayout(n, nproc)
    ensures calls <= Budget(itmax)
    ensures A == Relaxed(InitialField(n, nproc, ofInt), n, nproc, st, calls)
    ensures KeptGoing(EpsFn(InitialField(n, nproc, ofInt), n, nproc, st), maxeps, calls)
    ensures converged <==> calls >= 1 && EpsOf(InitialField(n, nproc, ofInt), n, nproc, st, calls - 1) < maxeps
    ensures !converged ==> calls == Budget(itmax)
  {
    var states := InitRanks(n, nproc, ofInt);
    InitialAgree(n, nproc, ofInt);
    A, calls, converged := IterateAndGather(states, n, nproc, st, itmax, maxeps, InitialField(n, nproc, ofInt));
  }

  /** The field every rank starts from after `init`, as one global field:
      the rows `[1, CoveredLimit)` initialised, the others zero. */
  function InitialField<V>(n: nat, nproc: int, ofInt: int -> V): (G: Grid<V>)
    requires ValidLayout(n, nproc)
    ensures IsCube(G, n)
  {
    Initialised(Zeros(n, ofInt(0)), n, 1, CoveredLimit(n, nproc), ofInt)
  }

  /** Every rank's copy of `A` after its own `init`. */
  function InitialStates<V>(n: nat, nproc: int, ofInt: int -> V): (states: seq<Grid<V>>)
    requires ValidLayout(n, nproc)
    ensures WellFormed(states, n, nproc)
  {
    seq(nproc, r requires 0 <= r < nproc =>
      Initialised(Zeros(n, ofInt(0)), n, SlabOf(n, nproc, r).start, SlabOf(n, nproc, r).end, ofInt))
  }

  /** After `init`, every rank is in step with the initial field. */
  lemma InitialAgree<V>(n: nat, nproc: int, ofInt: int -> V)
    requires ValidLayout(n, nproc)
    ensures Agree(InitialStates(n, nproc, ofInt), InitialField(n, nproc, ofInt), n, nproc)
  {
    var states := InitialStates(n, nproc, ofInt);
    var G := InitialField(n, nproc, ofInt);
    forall r, a | 0 <= r < nproc && 0 <= a < n && Tracked(n, nproc, r, a)
      ensures states[r][a] == G[a]
    {
      if InSlab(n, nproc, r, a) {
        OwnedRows(n, nproc, a);
      }
    }
  }

  /** `init` run on every rank. */
  method InitRanks<V>(n: nat, nproc: int, ofInt: int -> V) returns (states: seq<Grid<V>>)
    requires ValidLayout(n, nproc)
    ensures states == InitialStates(n, nproc, ofInt)
  {
    ghost var all := InitialStates(n, nproc, ofInt);
    var zero := Zeros(n, ofInt(0));
    states := [];
    for r := 0 to nproc
      invariant states == all[..r]
    {
      var s := SlabOf(n, nproc, r);
      var g := InitSlab(zero, n, s.start, s.end, ofInt);
      assert all[..r + 1] == all[..r] + [g];
      states := states + [g];
    }
    assert all[..nproc] == all;
  }

  /** When `nproc` divides `N - 2` the ranks own every interior row, and
      each serial sweep is the sweep of the whole interior. */
  lemma DividedLayoutSweepsAll<V>(G: Grid<V>, n: nat, nproc: int, c: Colour, st: Stencil<V>)
    requires ValidLayout(n, nproc) && IsCube(G, n) && (n - 2) % nproc == 0
    ensures Serial(G, n, nproc, c, st) == Simultaneous(G, n, 1, n - 1, c, st)
  {
    Coverage(n, nproc);
  }

  /** Two layouts whose ranks own the same rows relax a field alike: the
      serial relaxation sees the layout only through `CoveredLimit`. */
  lemma {:induction false} SameRowsSameRun<V>(G: Grid<V>, n: nat, p: int, q: int, st: Stencil<V>, t: nat)
    requires ValidLayout(n, p) && ValidLayout(n, q) && IsCube(G, n)
    requires CoveredLimit(n, p) == CoveredLimit(n, q)
    ensures Relaxed(G, n, p, st, t) == Relaxed(G, n, q, st, t)
    ensures EpsOf(G, n, p, st, t) == EpsOf(G, n, q, st, t)
  {
    if t > 0 {
      SameRowsSameRun(G, n, p, q, st, t - 1);
    }
  }

  /** When `nproc` divides `N - 2`, a run on `nproc` ranks is the run on
      one rank: the same initial field, the same field after every call of
      `relax` and the same `eps` from every call. */
  lemma DividedLayoutIsSingleRank<V>(n: nat, nproc: int, st: Stencil<V>, ofInt: int -> V, t: nat)
    requires ValidLayout(n, nproc) && (n - 2) % nproc == 0
    ensures InitialField(n, nproc, ofInt) == InitialField(n, 1, ofInt)
    ensures Relaxed(InitialField(n, nproc, ofInt), n, nproc, st, t) == Relaxed(InitialField(n, 1, ofInt), n, 1, st, t)
    ensures EpsOf(InitialField(n, nproc, ofInt), n, nproc, st, t) == EpsOf(InitialField(n, 1, ofInt), n, 1, st, t)
  {
    Coverage(n, nproc);
    Coverage(n, 1);
    SameRowsSameRun(InitialField(n, nproc, ofInt), n, nproc, 1, st, t);
  }

  /** ... and so the same history of `eps` values. */
  lemma {:induction false} SameRowsSameTrace<V>(G: Grid<V>, n: nat, p: int, q: int, st: Stencil<V>, k: nat)
    requires ValidLayout(n, p) && ValidLayout(n, q) && IsCube(G, n)
    requires CoveredLimit(n, p) == CoveredLimit(n, q)
    ensures Trace(EpsFn(G, n, p, st), k) == Trace(EpsFn(G, n, q, st), k)
  {
    if k > 0 {
      SameRowsSameTrace(G, n, p, q, st, k - 1);
      SameRowsSameRun(G, n, p, q, st, k - 1);
    }
  }

  /** When `nproc` divides `N - 2`, the loop tests the same `eps` history
      on `nproc` ranks as on one, so it makes the same calls and stops at
      the same one. */
  lemma DividedLayoutSameTrace<V>(n: nat, nproc: int, st: Stencil<V>, ofInt: int -> V, k: nat)
    requires ValidLayout(n, nproc) && (n - 2) % nproc == 0
    ensures Trace(EpsFn(InitialField(n, nproc, ofInt), n, nproc, st), k)
         == Trace(EpsFn(InitialField(n, 1, ofInt), n, 1, st), k)
  {
    Coverage(n, nproc);
    Coverage(n, 1);
    SameRowsSameTrace(InitialField(n, nproc, ofInt), n, nproc, 1, st, k);
  }

  /** A cell no sweep writes: on a face of the cube, or in a row no rank
      owns. */
  predicate Frozen(n: int, nproc: int, a: int, b: int, d: int)
    requires ValidLayout(n, nproc)
  {
    InCube(n, a, b, d) && !InSlabInterior(n, 1, CoveredLimit(n, nproc), a, b, d)
  }

  /** A relaxation leaves every frozen cell as it was. */
  lemma RelaxKeepsFrozen<V>(G: Grid<V>, n: nat, nproc: int, st: Stencil<V>)
    requires ValidLayout(n, nproc) && IsCube(G, n)
    ensures forall a, b, d | Frozen(n, nproc, a, b, d) :: SerialRelax(G, n, nproc, st)[a][b][d] == G[a][b][d]
  {
    CoveredBounds(n, nproc);
    WritesConfined(G, n, 1, CoveredLimit(n, nproc), Red, st);
    WritesConfined(Serial(G, n, nproc, Red, st), n, 1, CoveredLimit(n, nproc), Black, st);
  }

  /** The faces of the cube, and the rows no rank owns, hold `0.` after
      `init` and after every call of `relax`. */
  lemma {:induction false} FrozenStayZero<V>(n: nat, nproc: int, st: Stencil<V>, ofInt: int -> V, t: nat)
    requires ValidLayout(n, nproc)
    ensures forall a, b, d | Frozen(n, nproc, a, b, d) ::
              Relaxed(InitialField(n, nproc, ofInt), n, nproc, st, t)[a][b][d] == ofInt(0)
  {
    if t == 0 {
      InitialisedCells(Zeros(n, ofInt(0)), n, 1, CoveredLimit(n, nproc), ofInt);
    } else {
      FrozenStayZero(n, nproc, st, ofInt, t - 1);
      RelaxKeepsFrozen(Relaxed(InitialField(n, nproc, ofInt), n, nproc, st, t - 1), n, nproc, st);
    }
  }
}
