/** One call of `relax` on every rank at once, lines 111-144: exchange
    the ghost rows, sweep red, exchange again, sweep black, and reduce the
    red sweep's `eps` to its maximum over the ranks.

    Every rank holds its own copy of `A`; the model keeps them as one
    sequence indexed by rank. The main result is that the ranks together
    compute the serial red-black relaxation of the rows they own: if every
    rank agrees with one global field on the rows it owns and on the rows
    nobody owns, then after `relax` every rank agrees in the same way with
    the serially relaxed field, and the reduced `eps` is the serial one. */
module Relax {
  import opened Grid
  import opened Partition
  import opened Colouring
  import opened Reduce
  import opened Sweep
  import opened Halo
  import InPlace

  /** One `n`-cube per rank. */
  predicate WellFormed<V>(states: seq<Grid<V>>, n: nat, nproc: int)
  {
    |states| == nproc && forall r | 0 <= r < nproc :: IsCube(states[r], n)
  }

  /** The effect of one request on the copy `g` of `A` that rank `me`
      posted it on, once `MPI_Waitall` has completed it. A receive from
      `peer` into row `row` leaves there the row of the peer's copy that
      the peer's matching send reads (`Halo.MatchingSend`); a send changes
      nothing. A receive lands only when its slot lies in the window
      `MPI_Waitall` waits on (`Halo.WaitWindow`); one outside it is never
      completed, and `Halo.WaitMatchesPosted` shows that every posted slot
      is waited on. A receive with no matching send would block
      `MPI_Waitall` for ever; it leaves `g` as it is here, and
      `Halo.ReceiveMeetsSend` shows that it does not occur. */
  function Complete<V>(g: Grid<V>, x: Request, me: int, states: seq<Grid<V>>, n: nat, nproc: int): Grid<V>
    requires ValidLayout(n, nproc)
  {
    if x.kind == Recv && Waits(WaitWindow(nproc, me), x.slot) &&
       0 <= x.peer < nproc && x.peer < |states| && 0 <= x.row < |g| then
      match MatchingSend(Posted(n, nproc, x.peer), me, x.tag)
      case SendOf(s) => if 0 <= s.row < |states[x.peer]| then g[x.row := states[x.peer][s.row]] else g
      case NoSend => g
    else g
  }

  /** Completing a list of requests in order. */
  function CompleteAll<V>(g: Grid<V>, xs: seq<Request>, me: int, states: seq<Grid<V>>, n: nat, nproc: int): Grid<V>
    requires ValidLayout(n, nproc)
    decreases |xs|
  {
    if xs == [] then g else CompleteAll(Complete(g, xs[0], me, states, n, nproc), xs[1..], me, states, n, nproc)
  }

  lemma CompleteAllAppend<V>(g: Grid<V>, xs: seq<Request>, ys: seq<Request>, me: int, states: seq<Grid<V>>, n: nat, nproc: int)
    requires ValidLayout(n, nproc)
    ensures CompleteAll(g, xs + ys, me, states, n, nproc) ==
            CompleteAll(CompleteAll(g, xs, me, states, n, nproc), ys, me, states, n, nproc)
    decreases |xs|
  {
    if xs == [] {
      assert xs + ys == ys;
    } else {
      assert (xs + ys)[1..] == xs[1..] + ys;
      CompleteAllAppend(Complete(g, xs[0], me, states, n, nproc), xs[1..], ys, me, states, n, nproc);
    }
  }

  lemma CompleteOne<V>(g: Grid<V>, x: Request, me: int, states: seq<Grid<V>>, n: nat, nproc: int)
    requires ValidLayout(n, nproc)
    ensures CompleteAll(g, [x], me, states, n, nproc) == Complete(g, x, me, states, n, nproc)
  {
    assert [x][1..] == [];
  }

  /** `share_end_row(); share_start_row(); waitall();` on every rank. */
  function Exchange<V>(states: seq<Grid<V>>, n: nat, nproc: int): seq<Grid<V>>
    requires ValidLayout(n, nproc) && |states| == nproc
  {
    seq(nproc, r requires 0 <= r < nproc => CompleteAll(states[r], Posted(n, nproc, r), r, states, n, nproc))
  }

  /** Row `a` of `g` replaced by row `a` of `src`. */
  function FillRow<V>(g: Grid<V>, a: int, src: Grid<V>): Grid<V>
    requires 0 <= a < |g| && a < |src|
  {
    g[a := src[a]]
  }

  /** Rank `r`'s copy `g` of `A` once the receive `share_end_row` posts
      has completed: the ghost row `start_row - 1` comes from rank `r - 1`. */
  function EndRowFilled<V>(states: seq<Grid<V>>, n: nat, nproc: int, r: int, g: Grid<V>): Grid<V>
    requires ValidRank(n, nproc, r) && WellFormed(states, n, nproc) && IsCube(g, n)
  {
    if r != 0 then FillRow(g, SlabOf(n, nproc, r).start - 1, states[r - 1]) else g
  }

  /** Rank `r`'s copy `g` of `A` once the receive `share_start_row` posts
      has completed: the ghost row `end_row` comes from rank `r + 1`. */
  function StartRowFilled<V>(states: seq<Grid<V>>, n: nat, nproc: int, r: int, g: Grid<V>): Grid<V>
    requires ValidRank(n, nproc, r) && WellFormed(states, n, nproc) && IsCube(g, n)
  {
    if r != nproc - 1 then FillRow(g, SlabOf(n, nproc, r).end, states[r + 1]) else g
  }

  lemma FillRowCube<V>(g: Grid<V>, a: int, src: Grid<V>, n: nat)
    requires IsCube(g, n) && IsCube(src, n) && 0 <= a < n
    ensures IsCube(FillRow(g, a, src), n)
  {
  }

  /** A posted receive is waited on by `waitall`, and once completed it
      fills its row with the peer's row of the same index, which is the row
      the peer's matching send reads. */
  lemma ReceiveFills<V>(states: seq<Grid<V>>, n: nat, nproc: int, r: int, g: Grid<V>, m: Request)
    requires ValidRank(n, nproc, r) && WellFormed(states, n, nproc) && IsCube(g, n)
    requires m in Posted(n, nproc, r) && m.kind == Recv
    ensures Waits(WaitWindow(nproc, r), m.slot)
    ensures 0 <= m.peer < nproc && 0 <= m.row < n
    ensures Complete(g, m, r, states, n, nproc) == FillRow(g, m.row, states[m.peer])
  {
    ReceiveMeetsSend(n, nproc, r, m);
    RowsInBounds(n, nproc, r);
    WaitMatchesPosted(n, nproc, r);
    assert m.slot in Slots(Posted(n, nproc, r));
  }

  /** Completing a send leaves the sender's copy as it was. */
  lemma SendCompletes<V>(g: Grid<V>, x: Request, me: int, states: seq<Grid<V>>, n: nat, nproc: int)
    requires ValidLayout(n, nproc) && x.kind == Send
    ensures CompleteAll(g, [x], me, states, n, nproc) == g
  {
    CompleteOne(g, x, me, states, n, nproc);
  }

  /** Completing one posted receive on its own fills its row. */
  lemma ReceiveCompletes<V>(states: seq<Grid<V>>, n: nat, nproc: int, r: int, g: Grid<V>, m: Request)
    requires ValidRank(n, nproc, r) && WellFormed(states, n, nproc) && IsCube(g, n)
    requires m in Posted(n, nproc, r) && m.kind == Recv
    ensures 0 <= m.peer < nproc && 0 <= m.row < n
    ensures CompleteAll(g, [m], r, states, n, nproc) == FillRow(g, m.row, states[m.peer])
    ensures IsCube(FillRow(g, m.row, states[m.peer]), n)
  {
    ReceiveFills(states, n, nproc, r, g, m);
    CompleteOne(g, m, r, states, n, nproc);
    FillRowCube(g, m.row, states[m.peer], n);
  }

  lemma EndRowCompletes<V>(states: seq<Grid<V>>, n: nat, nproc: int, r: int, g: Grid<V>)
    requires ValidRank(n, nproc, r) && WellFormed(states, n, nproc) && IsCube(g, n)
    ensures CompleteAll(g, ShareEndRow(n, nproc, r), r, states, n, nproc) == EndRowFilled(states, n, nproc, r, g)
    ensures IsCube(EndRowFilled(states, n, nproc, r, g), n)
  {
    var s := SlabOf(n, nproc, r);
    var down := Request(0, Recv, r - 1, EndRowTag, s.start - 1);
    var send := Request(2, Send, r + 1, EndRowTag, s.end - 1);
    if r != 0 {
      PostedExactly(n, nproc, r);
      ReceiveCompletes(states, n, nproc, r, g, down);
      var g1 := FillRow(g, s.start - 1, states[r - 1]);
      if r != nproc - 1 {
        assert ShareEndRow(n, nproc, r) == [down] + [send];
        CompleteAllAppend(g, [down], [send], r, states, n, nproc);
        SendCompletes(g1, send, r, states, n, nproc);
      } else {
        assert ShareEndRow(n, nproc, r) == [down];
      }
    } else if r != nproc - 1 {
      assert ShareEndRow(n, nproc, r) == [send];
      SendCompletes(g, send, r, states, n, nproc);
    } else {
      assert ShareEndRow(n, nproc, r) == [];
    }
  }

  lemma StartRowCompletes<V>(states: seq<Grid<V>>, n: nat, nproc: int, r: int, g: Grid<V>)
    requires ValidRank(n, nproc, r) && WellFormed(states, n, nproc) && IsCube(g, n)
    ensures CompleteAll(g, ShareStartRow(n, nproc, r), r, states, n, nproc) == StartRowFilled(states, n, nproc, r, g)
    ensures IsCube(StartRowFilled(states, n, nproc, r, g), n)
  {
    var s := SlabOf(n, nproc, r);
    var up := Request(3, Recv, r + 1, StartRowTag, s.end);
    var send := Request(1, Send, r - 1, StartRowTag, s.start);
    if r != nproc - 1 {
      PostedExactly(n, nproc, r);
      ReceiveCompletes(states, n, nproc, r, g, up);
      var g1 := FillRow(g, s.end, states[r + 1]);
      if r != 0 {
        assert ShareStartRow(n, nproc, r) == [up] + [send];
        CompleteAllAppend(g, [up], [send], r, states, n, nproc);
        SendCompletes(g1, send, r, states, n, nproc);
      } else {
        assert ShareStartRow(n, nproc, r) == [up];
      }
    } else if r != 0 {
      assert ShareStartRow(n, nproc, r) == [send];
      SendCompletes(g, send, r, states, n, nproc);
    } else {
      assert ShareStartRow(n, nproc, r) == [];
    }
  }

  /** Rank `r`'s copy of `A` once its exchange has completed. */
  function Exchanged<V>(states: seq<Grid<V>>, n: nat, nproc: int, r: int): Grid<V>
    requires ValidRank(n, nproc, r) && WellFormed(states, n, nproc)
  {
    EndRowCompletes(states, n, nproc, r, states[r]);
    StartRowFilled(states, n, nproc, r, EndRowFilled(states, n, nproc, r, states[r]))
  }

  /** Completing the requests `share_end_row` and `share_start_row` post
      fills exactly the two ghost rows. */
  lemma PostedCompletes<V>(states: seq<Grid<V>>, n: nat, nproc: int, r: int)
    requires ValidRank(n, nproc, r) && WellFormed(states, n, nproc)
    ensures CompleteAll(states[r], Posted(n, nproc, r), r, states, n, nproc) == Exchanged(states, n, nproc, r)
    ensures IsCube(Exchanged(states, n, nproc, r), n)
  {
    var g := states[r];
    CompleteAllAppend(g, ShareEndRow(n, nproc, r), ShareStartRow(n, nproc, r), r, states, n, nproc);
    EndRowCompletes(states, n, nproc, r, g);
    StartRowCompletes(states, n, nproc, r, EndRowFilled(states, n, nproc, r, g));
  }

  /** After the exchange, rank `r` holds in its ghost row `start_row - 1`
      the row of the same index of rank `r - 1`, and in its ghost row
      `end_row` the row of the same index of rank `r + 1`, where those
      neighbours exist; every other row is its own. */
  lemma ExchangeRows<V>(states: seq<Grid<V>>, n: nat, nproc: int, r: int)
    requires ValidRank(n, nproc, r) && WellFormed(states, n, nproc)
    ensures IsCube(Exchange(states, n, nproc)[r], n)
    ensures var s := SlabOf(n, nproc, r);
            var e := Exchange(states, n, nproc)[r];
            (forall a | 0 <= a < n && a != s.start - 1 && a != s.end :: e[a] == states[r][a]) &&
            e[s.start - 1] == (if r != 0 then states[r - 1] else states[r])[s.start - 1] &&
            e[s.end] == (if r != nproc - 1 then states[r + 1] else states[r])[s.end]
  {
    PostedCompletes(states, n, nproc, r);
  }

  lemma ExchangeWellFormed<V>(states: seq<Grid<V>>, n: nat, nproc: int)
    requires ValidLayout(n, nproc) && WellFormed(states, n, nproc)
    ensures WellFormed(Exchange(states, n, nproc), n, nproc)
  {
    forall r | 0 <= r < nproc
      ensures IsCube(Exchange(states, n, nproc)[r], n)
    {
      ExchangeRows(states, n, nproc, r);
    }
  }

  /** The rows of rank `r`'s copy that the program keeps in step with the
      global field: the rows `r` owns, and the rows no rank owns (the
      boundary rows `0` and `N - 1`, and the rows from `CoveredLimit` on,
      which every rank leaves at their initial value). */
  predicate Tracked(n: int, nproc: int, r: int, a: int)
    requires ValidRank(n, nproc, r)
  {
    InSlab(n, nproc, r, a) || !(1 <= a < CoveredLimit(n, nproc))
  }

  /** Every rank's copy of `A` equals the global field `G` on its tracked
      rows. */
  ghost predicate Agree<V>(states: seq<Grid<V>>, G: Grid<V>, n: nat, nproc: int)
    requires ValidLayout(n, nproc) && WellFormed(states, n, nproc) && IsCube(G, n)
  {
    forall r, a | 0 <= r < nproc && 0 <= a < n && Tracked(n, nproc, r, a) :: states[r][a] == G[a]
  }

  /** Every rank's copy of `A` equals `G` on its slab and on both ghost
      rows around it: all the rows its sweep reads. */
  ghost predicate HaloAgree<V>(states: seq<Grid<V>>, G: Grid<V>, n: nat, nproc: int)
    requires ValidLayout(n, nproc) && WellFormed(states, n, nproc) && IsCube(G, n)
  {
    forall r, a | 0 <= r < nproc && SlabOf(n, nproc, r).start - 1 <= a <= SlabOf(n, nproc, r).end :: states[r][a] == G[a]
  }

  /** The ghost rows a rank receives are tracked by the neighbour that
      sends them, and a ghost row with no neighbour behind it is tracked by
      the rank itself. */
  lemma GhostRowsTracked(n: int, nproc: int, r: int)
    requires ValidRank(n, nproc, r)
    ensures r != 0 ==> Tracked(n, nproc, r - 1, SlabOf(n, nproc, r).start - 1)
    ensures r == 0 ==> Tracked(n, nproc, r, SlabOf(n, nproc, r).start - 1)
    ensures r != nproc - 1 ==> Tracked(n, nproc, r + 1, SlabOf(n, nproc, r).end)
    ensures r == nproc - 1 ==> Tracked(n, nproc, r, SlabOf(n, nproc, r).end)
  {
    SlabsContiguous(n, nproc);
  }

  /** The exchange of one rank, row by row. */
  lemma ExchangeAgreesAt<V>(states: seq<Grid<V>>, G: Grid<V>, n: nat, nproc: int, r: int)
    requires ValidRank(n, nproc, r) && WellFormed(states, n, nproc) && IsCube(G, n)
    requires Agree(states, G, n, nproc)
    ensures IsCube(Exchange(states, n, nproc)[r], n)
    ensures forall a | 0 <= a < n && Tracked(n, nproc, r, a) :: Exchange(states, n, nproc)[r][a] == G[a]
    ensures forall a | SlabOf(n, nproc, r).start - 1 <= a <= SlabOf(n, nproc, r).end :: Exchange(states, n, nproc)[r][a] == G[a]
  {
    ExchangeRows(states, n, nproc, r);
    FilledAgrees(states, G, n, nproc, r, Exchange(states, n, nproc)[r]);
  }

  /** A copy of rank `r` whose ghost rows were filled from its neighbours
      and whose other rows are its own agrees with `G` on its tracked rows
      and on its ghost rows. */
  lemma FilledAgrees<V>(states: seq<Grid<V>>, G: Grid<V>, n: nat, nproc: int, r: int, e: Grid<V>)
    requires ValidRank(n, nproc, r) && WellFormed(states, n, nproc) && IsCube(G, n)
    requires Agree(states, G, n, nproc) && IsCube(e, n)
    requires var s := SlabOf(n, nproc, r);
             (forall a | 0 <= a < n && a != s.start - 1 && a != s.end :: e[a] == states[r][a]) &&
             e[s.start - 1] == (if r != 0 then states[r - 1] else states[r])[s.start - 1] &&
             e[s.end] == (if r != nproc - 1 then states[r + 1] else states[r])[s.end]
    ensures forall a | 0 <= a < n && Tracked(n, nproc, r, a) :: e[a] == G[a]
    ensures forall a | SlabOf(n, nproc, r).start - 1 <= a <= SlabOf(n, nproc, r).end :: e[a] == G[a]
  {
    var s := SlabOf(n, nproc, r);
    GhostRowsTracked(n, nproc, r);
    assert e[s.start - 1] == G[s.start - 1];
    assert e[s.end] == G[s.end];
    forall a | 0 <= a < n && Tracked(n, nproc, r, a)
      ensures e[a] == G[a]
    {
    }
    forall a | s.start - 1 <= a <= s.end
      ensures e[a] == G[a]
    {
      if s.start <= a < s.end {
        assert Tracked(n, nproc, r, a);
      }
    }
  }

  /** The exchange keeps every rank in step with `G` and fills its ghost
      rows with the rows of `G`. */
  lemma ExchangeAgrees<V>(states: seq<Grid<V>>, G: Grid<V>, n: nat, nproc: int)
    requires ValidLayout(n, nproc) && WellFormed(states, n, nproc) && IsCube(G, n)
    requires Agree(states, G, n, nproc)
    ensures WellFormed(Exchange(states, n, nproc), n, nproc)
    ensures Agree(Exchange(states, n, nproc), G, n, nproc)
    ensures HaloAgree(Exchange(states, n, nproc), G, n, nproc)
  {
    ExchangeWellFormed(states, n, nproc);
    forall r | 0 <= r < nproc
      ensures forall a | 0 <= a < n && Tracked(n, nproc, r, a) :: Exchange(states, n, nproc)[r][a] == G[a]
      ensures forall a | SlabOf(n, nproc, r).start - 1 <= a <= SlabOf(n, nproc, r).end :: Exchange(states, n, nproc)[r][a] == G[a]
    {
      ExchangeAgreesAt(states, G, n, nproc, r);
    }
  }

  /** The rows `[1, CoveredLimit)` are a slab a serial sweep can run over. */
  lemma CoveredBounds(n: int, nproc: int)
    requires ValidLayout(n, nproc)
    ensures SweepBounds(n, 1, CoveredLimit(n, nproc))
  {
    Coverage(n, nproc);
  }

  /** Every rank's slab is a slab a sweep can run over. */
  lemma SlabBounds(n: int, nproc: int, r: int)
    requires ValidRank(n, nproc, r)
    ensures SweepBounds(n, SlabOf(n, nproc, r).start, SlabOf(n, nproc, r).end)
  {
  }

  /** One coloured sweep of the rows every rank owns, done serially on the
      global field. */
  function Serial<V>(G: Grid<V>, n: nat, nproc: int, c: Colour, st: Stencil<V>): (h: Grid<V>)
    requires ValidLayout(n, nproc) && IsCube(G, n)
    ensures IsCube(h, n)
  {
    CoveredBounds(n, nproc);
    Simultaneous(G, n, 1, CoveredLimit(n, nproc), c, st)
  }

  /** The serial `eps` of that sweep. */
  function SerialEps<V>(G: Grid<V>, n: nat, nproc: int, c: Colour, st: Stencil<V>): real
    requires ValidLayout(n, nproc) && IsCube(G, n)
  {
    CoveredBounds(n, nproc);
    MaxCorrection(G, n, 1, CoveredLimit(n, nproc), c, st)
  }

  /** Every rank sweeps colour `c` over its own slab. */
  function SweepRanks<V>(states: seq<Grid<V>>, n: nat, nproc: int, c: Colour, st: Stencil<V>): seq<Grid<V>>
    requires ValidLayout(n, nproc) && WellFormed(states, n, nproc)
  {
    seq(nproc, r requires 0 <= r < nproc =>
      SlabBounds(n, nproc, r);
      Simultaneous(states[r], n, SlabOf(n, nproc, r).start, SlabOf(n, nproc, r).end, c, st))
  }

  /** The `private_eps` every rank ends its sweep of colour `c` with. */
  function RankEps<V>(states: seq<Grid<V>>, n: nat, nproc: int, c: Colour, st: Stencil<V>): seq<real>
    requires ValidLayout(n, nproc) && WellFormed(states, n, nproc)
  {
    seq(nproc, r requires 0 <= r < nproc =>
      SlabBounds(n, nproc, r);
      MaxCorrection(states[r], n, SlabOf(n, nproc, r).start, SlabOf(n, nproc, r).end, c, st))
  }

  /** Row `a` of rank `r` after its sweep, for a tracked row. */
  lemma SweepAgreesAt<V>(states: seq<Grid<V>>, G: Grid<V>, n: nat, nproc: int, c: Colour, st: Stencil<V>, r: int, a: int)
    requires ValidRank(n, nproc, r) && WellFormed(states, n, nproc) && IsCube(G, n)
    requires Agree(states, G, n, nproc) && HaloAgree(states, G, n, nproc)
    requires 0 <= a < n && Tracked(n, nproc, r, a)
    ensures SweepRanks(states, n, nproc, c, st)[r][a] == Serial(G, n, nproc, c, st)[a]
  {
    var s := SlabOf(n, nproc, r);
    var cl := CoveredLimit(n, nproc);
    CoveredBounds(n, nproc);
    if InSlab(n, nproc, r, a) {
      OwnedRows(n, nproc, a);
      RowReadsNeighbours(states[r], G, n, s.start, s.end, 1, cl, c, st, a);
    } else {
      RowOutsideSlab(states[r], n, s.start, s.end, c, st, a);
      RowOutsideSlab(G, n, 1, cl, c, st, a);
    }
  }

  /** With every rank in step with `G` on its tracked and ghost rows, the
      ranks' sweeps of colour `c` leave them in step with the serial sweep
      of `G`. */
  lemma SweepAgrees<V>(states: seq<Grid<V>>, G: Grid<V>, n: nat, nproc: int, c: Colour, st: Stencil<V>)
    requires ValidLayout(n, nproc) && WellFormed(states, n, nproc) && IsCube(G, n)
    requires Agree(states, G, n, nproc) && HaloAgree(states, G, n, nproc)
    ensures WellFormed(SweepRanks(states, n, nproc, c, st), n, nproc)
    ensures Agree(SweepRanks(states, n, nproc, c, st), Serial(G, n, nproc, c, st), n, nproc)
  {
    forall r, a | 0 <= r < nproc && 0 <= a < n && Tracked(n, nproc, r, a)
      ensures SweepRanks(states, n, nproc, c, st)[r][a] == Serial(G, n, nproc, c, st)[a]
    {
      SweepAgreesAt(states, G, n, nproc, c, st, r, a);
    }
  }

  /** A correction of rank `r`'s sweep is the serial correction of the
      same cell. */
  lemma CorrectionAgrees<V>(states: seq<Grid<V>>, G: Grid<V>, n: nat, nproc: int, c: Colour, st: Stencil<V>,
                            r: int, a: int, b: int, d: int)
    requires ValidRank(n, nproc, r) && WellFormed(states, n, nproc) && IsCube(G, n)
    requires HaloAgree(states, G, n, nproc)
    requires Selected(n, SlabOf(n, nproc, r).start, SlabOf(n, nproc, r).end, c, a, b, d)
    ensures Selected(n, 1, CoveredLimit(n, nproc), c, a, b, d)
    ensures Correction(st, states[r], n, a, b, d) == Correction(st, G, n, a, b, d)
  {
    var s := SlabOf(n, nproc, r);
    CoveredBounds(n, nproc);
    OwnedRows(n, nproc, a);
    assert InSlab(n, nproc, r, a);
    RowReadsNeighbours(states[r], G, n, s.start, s.end, 1, CoveredLimit(n, nproc), c, st, a);
  }

  /** Each rank's `private_eps` is the largest correction of its own sweep. */
  lemma RankEpsMax<V>(states: seq<Grid<V>>, n: nat, nproc: int, c: Colour, st: Stencil<V>)
    requires ValidLayout(n, nproc) && WellFormed(states, n, nproc)
    ensures forall r | 0 <= r < nproc ::
              SweepBounds(n, SlabOf(n, nproc, r).start, SlabOf(n, nproc, r).end) &&
              IsMaxCorrection(states[r], n, SlabOf(n, nproc, r).start, SlabOf(n, nproc, r).end, c, st, RankEps(states, n, nproc, c, st)[r])
  {
    forall r | 0 <= r < nproc
      ensures SweepBounds(n, SlabOf(n, nproc, r).start, SlabOf(n, nproc, r).end)
      ensures IsMaxCorrection(states[r], n, SlabOf(n, nproc, r).start, SlabOf(n, nproc, r).end, c, st, RankEps(states, n, nproc, c, st)[r])
    {
      SlabBounds(n, nproc, r);
      MaxCorrectionIsMax(states[r], n, SlabOf(n, nproc, r).start, SlabOf(n, nproc, r).end, c, st);
    }
  }

  /** The reduced `eps` bounds every correction of the serial sweep. */
  lemma ReducedBounds<V>(states: seq<Grid<V>>, G: Grid<V>, n: nat, nproc: int, c: Colour, st: Stencil<V>)
    requires ValidLayout(n, nproc) && WellFormed(states, n, nproc) && IsCube(G, n)
    requires HaloAgree(states, G, n, nproc)
    ensures ReduceMax(RankEps(states, n, nproc, c, st)) >= 0.0
    ensures forall a, b, d {:trigger Correction(st, G, n, a, b, d)} | Selected(n, 1, CoveredLimit(n, nproc), c, a, b, d) ::
              Correction(st, G, n, a, b, d) <= ReduceMax(RankEps(states, n, nproc, c, st))
  {
    var xs := RankEps(states, n, nproc, c, st);
    RankEpsMax(states, n, nproc, c, st);
    assert xs[0] <= ReduceMax(xs);
    forall a, b, d | Selected(n, 1, CoveredLimit(n, nproc), c, a, b, d)
      ensures Correction(st, G, n, a, b, d) <= ReduceMax(xs)
    {
      OwnedRows(n, nproc, a);
      var r := Owner(n, nproc, a);
      CorrectionAgrees(states, G, n, nproc, c, st, r, a, b, d);
      assert xs[r] <= ReduceMax(xs);
    }
  }

  /** The reduced `eps` is zero or the correction of some cell of the
      serial sweep. */
  lemma ReducedAttained<V>(states: seq<Grid<V>>, G: Grid<V>, n: nat, nproc: int, c: Colour, st: Stencil<V>)
    requires ValidLayout(n, nproc) && WellFormed(states, n, nproc) && IsCube(G, n)
    requires HaloAgree(states, G, n, nproc)
    ensures var m := ReduceMax(RankEps(states, n, nproc, c, st));
            m == 0.0 || exists a, b, d {:trigger Correction(st, G, n, a, b, d)} | Selected(n, 1, CoveredLimit(n, nproc), c, a, b, d) ::
              Correction(st, G, n, a, b, d) == m
  {
    var xs := RankEps(states, n, nproc, c, st);
    var m := ReduceMax(xs);
    if m != 0.0 {
      RankEpsMax(states, n, nproc, c, st);
      var r :| 0 <= r < nproc && xs[r] == m;
      var s := SlabOf(n, nproc, r);
      var a, b, d :| Selected(n, s.start, s.end, c, a, b, d) && Correction(st, states[r], n, a, b, d) == m;
      CorrectionAgrees(states, G, n, nproc, c, st, r, a, b, d);
    }
  }

  /** The maximum over the ranks of their `private_eps` is the serial
      `eps`. */
  lemma EpsAgrees<V>(states: seq<Grid<V>>, G: Grid<V>, n: nat, nproc: int, c: Colour, st: Stencil<V>)
    requires ValidLayout(n, nproc) && WellFormed(states, n, nproc) && IsCube(G, n)
    requires HaloAgree(states, G, n, nproc)
    ensures ReduceMax(RankEps(states, n, nproc, c, st)) == SerialEps(G, n, nproc, c, st)
  {
    var cl := CoveredLimit(n, nproc);
    CoveredBounds(n, nproc);
    var m := ReduceMax(RankEps(states, n, nproc, c, st));
    ReducedBounds(states, G, n, nproc, c, st);
    ReducedAttained(states, G, n, nproc, c, st);
    assert IsMaxCorrection(G, n, 1, cl, c, st, m);
    MaxCorrectionIsMax(G, n, 1, cl, c, st);
    MaxCorrectionUnique(G, n, 1, cl, c, st, m, SerialEps(G, n, nproc, c, st));
  }

  /** What one call of `relax` leaves: every rank's copy of `A`, and the
      `eps` every rank holds after the broadcast. */
  datatype Outcome<V> = Outcome(states: seq<Grid<V>>, eps: real)

  /** `relax` on every rank: exchange, red sweep, exchange, black sweep;
      `eps` is the maximum of the red sweep's `private_eps`. The black
      sweep computes no `eps`. */
  function DistRelax<V>(states: seq<Grid<V>>, n: nat, nproc: int, st: Stencil<V>): (o: Outcome<V>)
    requires ValidLayout(n, nproc) && WellFormed(states, n, nproc)
    ensures WellFormed(o.states, n, nproc)
  {
    ExchangeWellFormed(states, n, nproc);
    var e1 := Exchange(states, n, nproc);
    SweepRanksWellFormed(e1, n, nproc, Red, st);
    var s1 := SweepRanks(e1, n, nproc, Red, st);
    ExchangeWellFormed(s1, n, nproc);
    var e2 := Exchange(s1, n, nproc);
    SweepRanksWellFormed(e2, n, nproc, Black, st);
    Outcome(SweepRanks(e2, n, nproc, Black, st), ReduceMax(RankEps(e1, n, nproc, Red, st)))
  }

  lemma SweepRanksWellFormed<V>(states: seq<Grid<V>>, n: nat, nproc: int, c: Colour, st: Stencil<V>)
    requires ValidLayout(n, nproc) && WellFormed(states, n, nproc)
    ensures WellFormed(SweepRanks(states, n, nproc, c, st), n, nproc)
  {
  }

  /** The serial red-black relaxation of the rows `[1, CoveredLimit)`. */
  function SerialRelax<V>(G: Grid<V>, n: nat, nproc: int, st: Stencil<V>): (h: Grid<V>)
    requires ValidLayout(n, nproc) && IsCube(G, n)
    ensures IsCube(h, n)
  {
    Serial(Serial(G, n, nproc, Red, st), n, nproc, Black, st)
  }

  /** The ranks together compute the serial relaxation: a call of `relax`
      that starts with every rank in step with `G` ends with every rank in
      step with the serially relaxed `G`, and with the serial red sweep's
      `eps`. */
  lemma RelaxIsSerial<V>(states: seq<Grid<V>>, G: Grid<V>, n: nat, nproc: int, st: Stencil<V>)
    requires ValidLayout(n, nproc) && WellFormed(states, n, nproc) && IsCube(G, n)
    requires Agree(states, G, n, nproc)
    ensures Agree(DistRelax(states, n, nproc, st).states, SerialRelax(G, n, nproc, st), n, nproc)
    ensures DistRelax(states, n, nproc, st).eps == SerialEps(G, n, nproc, Red, st)
  {
    ExchangeAgrees(states, G, n, nproc);
    var e1 := Exchange(states, n, nproc);
    SweepAgrees(e1, G, n, nproc, Red, st);
    EpsAgrees(e1, G, n, nproc, Red, st);
    var s1 := SweepRanks(e1, n, nproc, Red, st);
    var g1 := Serial(G, n, nproc, Red, st);
    ExchangeAgrees(s1, g1, n, nproc);
    SweepAgrees(Exchange(s1, n, nproc), g1, n, nproc, Black, st);
  }

  /** `relax` as the ranks run it: the exchanges, then on every rank the
      in-place loop nest of each colour, then the reduction and the
      broadcast. Returns every rank's copy of `A`, the reduced `eps`, and
      the value each rank holds after `MPI_Bcast`. */
  method RelaxRanks<V>(states: seq<Grid<V>>, n: nat, nproc: int, st: Stencil<V>)
    returns (out: seq<Grid<V>>, eps: real, seen: seq<real>)
    requires ValidLayout(n, nproc) && WellFormed(states, n, nproc)
    ensures out == DistRelax(states, n, nproc, st).states
    ensures eps == DistRelax(states, n, nproc, st).eps
    ensures |seen| == nproc && forall r | 0 <= r < nproc :: seen[r] == eps
  {
    ExchangeWellFormed(states, n, nproc);
    var e1 := Exchange(states, n, nproc);
    var s1, priv := SweepEach(e1, n, nproc, Red, st);
    ExchangeWellFormed(s1, n, nproc);
    var e2 := Exchange(s1, n, nproc);
    var unused;
    out, unused := SweepEach(e2, n, nproc, Black, st);
    eps := ReduceMax(priv);
    seen := Broadcast(eps, nproc);
  }

  /** The loop nest of colour `c` on rank `r`'s own copy. */
  method SweepRank<V>(states: seq<Grid<V>>, n: nat, nproc: int, c: Colour, st: Stencil<V>, r: int)
    returns (h: Grid<V>, e: real)
    requires ValidRank(n, nproc, r) && WellFormed(states, n, nproc)
    ensures h == SweepRanks(states, n, nproc, c, st)[r]
    ensures e == RankEps(states, n, nproc, c, st)[r]
  {
    var s := SlabOf(n, nproc, r);
    SlabBounds(n, nproc, r);
    h, e := InPlace.SweepColour(states[r], n, s.start, s.end, c, st);
  }

  /** The loop nest of colour `c` run on every rank's own copy, with the
      `private_eps` each rank ends with. */
  method SweepEach<V>(states: seq<Grid<V>>, n: nat, nproc: int, c: Colour, st: Stencil<V>)
    returns (out: seq<Grid<V>>, priv: seq<real>)
    requires ValidLayout(n, nproc) && WellFormed(states, n, nproc)
    ensures out == SweepRanks(states, n, nproc, c, st)
    ensures priv == RankEps(states, n, nproc, c, st)
  {
    ghost var all := SweepRanks(states, n, nproc, c, st);
    ghost var eps := RankEps(states, n, nproc, c, st);
    out, priv := [], [];
    for r := 0 to nproc
      invariant out == all[..r] && priv == eps[..r]
    {
      var h, e := SweepRank(states, n, nproc, c, st, r);
      assert all[..r + 1] == all[..r] + [h];
      assert eps[..r + 1] == eps[..r] + [e];
      out, priv := out + [h], priv + [e];
    }
    assert all[..nproc] == all;
    assert eps[..nproc] == eps;
  }

  /** `MPI_Gather` onto rank 0, line 52: rank `r` sends its `nrow` rows
      from `A[start_row]` on, and rank 0 stores them in rank order from
      `A[1]`, so the `j`-th row of rank `r`'s block lands at
      `A[1 + r * nrow + j]` (`Partition.GatherSource` inverts that offset).
      Rank 0 keeps its own copy of every row outside `1 .. nproc * nrow`. */
  function Gather<V>(states: seq<Grid<V>>, n: nat, nproc: int): (A: Grid<V>)
    requires ValidLayout(n, nproc) && WellFormed(states, n, nproc)
  {
    seq(n, a requires 0 <= a < n =>
      if 1 <= a < CoveredLimit(n, nproc) then
        var src := GatherSource(n, nproc, a);
        GatherSourceOwns(n, nproc, a);
        states[src.0][SlabOf(n, nproc, src.0).start + src.1]
      else states[0][a])
  }

  /** Once every rank is in step with `G`, the gathered field is `G`. */
  lemma GatherIsGlobal<V>(states: seq<Grid<V>>, G: Grid<V>, n: nat, nproc: int)
    requires ValidLayout(n, nproc) && WellFormed(states, n, nproc) && IsCube(G, n)
    requires Agree(states, G, n, nproc)
    ensures Gather(states, n, nproc) == G
  {
    var A := Gather(states, n, nproc);
    forall a | 0 <= a < n
      ensures A[a] == G[a]
    {
      if 1 <= a < CoveredLimit(n, nproc) {
        var src := GatherSource(n, nproc, a);
        GatherSourceOwns(n, nproc, a);
        assert Tracked(n, nproc, src.0, a);
      } else {
        assert Tracked(n, nproc, 0, a);
      }
    }
  }
}
