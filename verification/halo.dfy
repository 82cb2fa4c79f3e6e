/** The halo exchange of `relax`, lines 77-109: which nonblocking requests
    each rank posts into the four slots of `requests`, and which window of
    them `waitall` waits on.

    The transport itself is left out; a request is kept as the facts that
    decide whether the exchange is well formed: its slot, its direction,
    the peer rank, the tag and the row of `A` used as its buffer. */
module Halo {
  import opened Partition

  /** `MPI_Isend` or `MPI_Irecv`. */
  datatype Kind = Send | Recv

  /** One posted request: `requests[slot]` moves row `row` of `A` to or
      from rank `peer` under `tag`. */
  datatype Request = Request(slot: int, kind: Kind, peer: int, tag: int, row: int)

  /** The tag of the messages that carry a slab's last row to `rank + 1`. */
  const EndRowTag := 315

  /** The tag of the messages that carry a slab's first row to `rank - 1`. */
  const StartRowTag := 316

  /** The number of slots in `requests`. */
  const SlotCount := 4

  /** `share_end_row`, lines 77-84, in posting order. */
  function ShareEndRow(n: int, nproc: int, rank: int): seq<Request>
    requires ValidRank(n, nproc, rank)
  {
    var s := SlabOf(n, nproc, rank);
    (if rank != 0 then [Request(0, Recv, rank - 1, EndRowTag, s.start - 1)] else []) +
    (if rank != nproc - 1 then [Request(2, Send, rank + 1, EndRowTag, s.end - 1)] else [])
  }

  /** `share_start_row`, lines 86-94, in posting order. */
  function ShareStartRow(n: int, nproc: int, rank: int): seq<Request>
    requires ValidRank(n, nproc, rank)
  {
    var s := SlabOf(n, nproc, rank);
    (if rank != nproc - 1 then [Request(3, Recv, rank + 1, StartRowTag, s.end)] else []) +
    (if rank != 0 then [Request(1, Send, rank - 1, StartRowTag, s.start)] else [])
  }

  /** Everything one call of `share_end_row(); share_start_row();` posts. */
  function Posted(n: int, nproc: int, rank: int): seq<Request>
    requires ValidRank(n, nproc, rank)
  {
    ShareEndRow(n, nproc, rank) + ShareStartRow(n, nproc, rank)
  }

  /** The slots a list of requests occupies. */
  function Slots(rs: seq<Request>): set<int>
  {
    set x | x in rs :: x.slot
  }

  /** The window `requests[shift .. shift + count)` passed to `MPI_Waitall`. */
  datatype Window = Window(shift: int, count: int)

  /** `waitall`, lines 96-109: start from all four slots, drop the two
      slots facing `rank - 1` (0 and 1) on rank 0 and the two slots facing
      `rank + 1` (2 and 3) on the last rank. */
  function WaitWindow(nproc: int, rank: int): Window
  {
    var all := Window(0, SlotCount);
    var w := if rank == 0 then Window(2, all.count - 2) else all;
    if rank == nproc - 1 then w.(count := w.count - 2) else w
  }

  /** `MPI_Waitall` waits on slot `x`. */
  predicate Waits(w: Window, x: int)
  {
    w.shift <= x < w.shift + w.count
  }

  /** Where a rank sits in the chain of slabs. */
  datatype Position = Only | First | Middle | Last

  function PositionOf(nproc: int, rank: int): Position
  {
    if nproc == 1 then Only
    else if rank == 0 then First
    else if rank == nproc - 1 then Last
    else Middle
  }

  /** The posted slots and the waited window, case by case over the
      position of the rank. */
  lemma SlotsByPosition(n: int, nproc: int, rank: int)
    requires ValidRank(n, nproc, rank)
    ensures PositionOf(nproc, rank) == Only ==> Slots(Posted(n, nproc, rank)) == {} && WaitWindow(nproc, rank) == Window(2, 0)
    ensures PositionOf(nproc, rank) == First ==> Slots(Posted(n, nproc, rank)) == {2, 3} && WaitWindow(nproc, rank) == Window(2, 2)
    ensures PositionOf(nproc, rank) == Middle ==> Slots(Posted(n, nproc, rank)) == {0, 1, 2, 3} && WaitWindow(nproc, rank) == Window(0, 4)
    ensures PositionOf(nproc, rank) == Last ==> Slots(Posted(n, nproc, rank)) == {0, 1} && WaitWindow(nproc, rank) == Window(0, 2)
  {
  }

  /** `waitall` waits on exactly the slots the two share calls posted, and
      its window lies inside `requests`: no request is left pending and no
      unposted slot is waited on. */
  lemma WaitMatchesPosted(n: int, nproc: int, rank: int)
    requires ValidRank(n, nproc, rank)
    ensures var w := WaitWindow(nproc, rank);
            0 <= w.count && 0 <= w.shift && w.shift + w.count <= SlotCount &&
            forall x :: x in Slots(Posted(n, nproc, rank)) <==> Waits(w, x)
  {
    SlotsByPosition(n, nproc, rank);
  }

  /** No slot is posted twice in one exchange. */
  lemma SlotsDistinct(n: int, nproc: int, rank: int)
    requires ValidRank(n, nproc, rank)
    ensures forall p, q | 0 <= p < q < |Posted(n, nproc, rank)| :: Posted(n, nproc, rank)[p].slot != Posted(n, nproc, rank)[q].slot
  {
  }

  /** A single process posts nothing and waits on an empty window. */
  lemma SingleProcess(n: int)
    requires n >= 3
    ensures Posted(n, 1, 0) == []
    ensures WaitWindow(1, 0).count == 0 && forall x :: !Waits(WaitWindow(1, 0), x)
  {
  }

  /** The send `s` posted by rank `from` and the receive `m` posted by rank
      `to` are the two ends of one message. */
  predicate Matches(s: Request, from: int, m: Request, to: int)
  {
    s.kind == Send && m.kind == Recv && s.peer == to && m.peer == from && s.tag == m.tag
  }

  /** The four requests a rank may post, each guarded by whether the rank
      has the neighbour it talks to. */
  predicate PostedBy(n: int, nproc: int, rank: int, x: Request)
    requires ValidRank(n, nproc, rank)
  {
    var s := SlabOf(n, nproc, rank);
    (rank != 0 && x == Request(0, Recv, rank - 1, EndRowTag, s.start - 1)) ||
    (rank != 0 && x == Request(1, Send, rank - 1, StartRowTag, s.start)) ||
    (rank != nproc - 1 && x == Request(2, Send, rank + 1, EndRowTag, s.end - 1)) ||
    (rank != nproc - 1 && x == Request(3, Recv, rank + 1, StartRowTag, s.end))
  }

  /** The requests posted are exactly those `PostedBy` lists. */
  lemma PostedExactly(n: int, nproc: int, rank: int)
    requires ValidRank(n, nproc, rank)
    ensures forall x :: x in Posted(n, nproc, rank) <==> PostedBy(n, nproc, rank, x)
  {
  }

  /** The receive that meets a send posted by `rank`. */
  lemma SendMatched(n: int, nproc: int, rank: int, s: Request)
    requires ValidRank(n, nproc, rank) && PostedBy(n, nproc, rank, s) && s.kind == Send
    ensures 0 <= s.peer < nproc
    ensures exists m | m in Posted(n, nproc, s.peer) :: Matches(s, rank, m, s.peer) && m.row == s.row
  {
    SlabsContiguous(n, nproc);
    PostedExactly(n, nproc, s.peer);
    if s.tag == EndRowTag {
      assert SlabOf(n, nproc, rank).end == SlabOf(n, nproc, rank + 1).start;
      assert PostedBy(n, nproc, rank + 1, Request(0, Recv, rank, EndRowTag, s.row));
    } else {
      assert SlabOf(n, nproc, rank - 1).end == SlabOf(n, nproc, rank).start;
      assert PostedBy(n, nproc, rank - 1, Request(3, Recv, rank, StartRowTag, s.row));
    }
  }

  /** The send that meets a receive posted by `rank`. */
  lemma RecvMatched(n: int, nproc: int, rank: int, m: Request)
    requires ValidRank(n, nproc, rank) && PostedBy(n, nproc, rank, m) && m.kind == Recv
    ensures 0 <= m.peer < nproc
    ensures exists s | s in Posted(n, nproc, m.peer) :: Matches(s, m.peer, m, rank) && s.row == m.row
  {
    SlabsContiguous(n, nproc);
    PostedExactly(n, nproc, m.peer);
    if m.tag == EndRowTag {
      assert SlabOf(n, nproc, rank - 1).end == SlabOf(n, nproc, rank).start;
      assert PostedBy(n, nproc, rank - 1, Request(2, Send, rank, EndRowTag, m.row));
    } else {
      assert SlabOf(n, nproc, rank).end == SlabOf(n, nproc, rank + 1).start;
      assert PostedBy(n, nproc, rank + 1, Request(1, Send, rank, StartRowTag, m.row));
    }
  }

  /** `x` is a send to rank `to` under `tag`. */
  predicate SendTo(x: Request, to: int, tag: int)
  {
    x.kind == Send && x.peer == to && x.tag == tag
  }

  /** What a posted receive is matched with: a send, or nothing. */
  datatype Match = NoSend | SendOf(send: Request)

  /** The send among `rs`, one rank's requests in posting order, that a
      receive from that rank under `tag`, posted by rank `to`, is matched
      with: MPI matches a receive by source and tag, and sends of one
      source match in the order they were posted. */
  function MatchingSend(rs: seq<Request>, to: int, tag: int): (o: Match)
    ensures o.SendOf? ==> o.send in rs && SendTo(o.send, to, tag)
    ensures o.SendOf? ==> exists i | 0 <= i < |rs| :: rs[i] == o.send && forall j | 0 <= j < i :: !SendTo(rs[j], to, tag)
    ensures o.NoSend? ==> forall x | x in rs :: !SendTo(x, to, tag)
    decreases |rs|
  {
    if rs == [] then NoSend
    else if SendTo(rs[0], to, tag) then SendOf(rs[0])
    else
      var o := MatchingSend(rs[1..], to, tag);
      if o.SendOf? then
        var i :| 0 <= i < |rs| - 1 && rs[1..][i] == o.send && forall j | 0 <= j < i :: !SendTo(rs[1..][j], to, tag);
        assert rs[i + 1] == o.send && forall j | 0 <= j < i + 1 :: !SendTo(rs[j], to, tag);
        o
      else o
  }

  /** Every receive a rank posts is matched with a send its peer posts,
      and that send reads the row of the same index as the receive
      fills: the row rank `rank - 1` sends under tag 315 is its
      `end_row - 1`, which is the receiver's `start_row - 1`, and the row
      rank `rank + 1` sends under tag 316 is its `start_row`, the
      receiver's `end_row`. */
  lemma ReceiveMeetsSend(n: int, nproc: int, rank: int, m: Request)
    requires ValidRank(n, nproc, rank) && m in Posted(n, nproc, rank) && m.kind == Recv
    ensures 0 <= m.peer < nproc
    ensures var o := MatchingSend(Posted(n, nproc, m.peer), rank, m.tag);
            o.SendOf? && o.send.row == m.row
  {
    PostedExactly(n, nproc, rank);
    RecvMatched(n, nproc, rank, m);
    PostedExactly(n, nproc, m.peer);
    var o := MatchingSend(Posted(n, nproc, m.peer), rank, m.tag);
    assert o.SendOf?;
    assert PostedBy(n, nproc, m.peer, o.send);
    if m.tag == EndRowTag {
      assert SlabOf(n, nproc, rank - 1).end == SlabOf(n, nproc, rank).start by {
        SlabsContiguous(n, nproc);
      }
      assert o.send == Request(2, Send, rank, EndRowTag, m.row);
    } else {
      assert SlabOf(n, nproc, rank).end == SlabOf(n, nproc, rank + 1).start by {
        SlabsContiguous(n, nproc);
      }
      assert o.send == Request(1, Send, rank, StartRowTag, m.row);
    }
  }

  /** Every send meets a receive of the same tag on its peer, and every
      receive meets a send of the same tag on its peer; in both directions
      the two ends use the same row index, so the row a rank sends lands in
      the same row of its neighbour's copy of `A`. */
  lemma MessagesMatch(n: int, nproc: int, rank: int)
    requires ValidRank(n, nproc, rank)
    ensures forall s | s in Posted(n, nproc, rank) && s.kind == Send ::
              0 <= s.peer < nproc &&
              exists m | m in Posted(n, nproc, s.peer) :: Matches(s, rank, m, s.peer) && m.row == s.row
    ensures forall m | m in Posted(n, nproc, rank) && m.kind == Recv ::
              0 <= m.peer < nproc &&
              exists s | s in Posted(n, nproc, m.peer) :: Matches(s, m.peer, m, rank) && s.row == m.row
  {
    PostedExactly(n, nproc, rank);
    forall s | s in Posted(n, nproc, rank) && s.kind == Send
      ensures 0 <= s.peer < nproc
      ensures exists m | m in Posted(n, nproc, s.peer) :: Matches(s, rank, m, s.peer) && m.row == s.row
    {
      SendMatched(n, nproc, rank, s);
    }
    forall m | m in Posted(n, nproc, rank) && m.kind == Recv
      ensures 0 <= m.peer < nproc
      ensures exists s | s in Posted(n, nproc, m.peer) :: Matches(s, m.peer, m, rank) && s.row == m.row
    {
      RecvMatched(n, nproc, rank, m);
    }
  }

  /** Every buffer row lies in `A`: receives fill the ghost rows
      `start_row - 1` and `end_row`, sends read the rows `end_row - 1` and
      `start_row`, all in `[0, N - 1]`. */
  lemma RowsInBounds(n: int, nproc: int, rank: int)
    requires ValidRank(n, nproc, rank)
    ensures forall x | x in Posted(n, nproc, rank) :: 0 <= x.row <= n - 1
    ensures forall x | x in Posted(n, nproc, rank) && x.kind == Recv ::
              x.row == SlabOf(n, nproc, rank).start - 1 || x.row == SlabOf(n, nproc, rank).end
    ensures forall x | x in Posted(n, nproc, rank) && x.kind == Send ::
              x.row == SlabOf(n, nproc, rank).end - 1 || x.row == SlabOf(n, nproc, rank).start
  {
  }

  /** With at least one row per rank, a rank never receives into a row it
      sends from, and it sends only rows it owns. */
  lemma BuffersApart(n: int, nproc: int, rank: int)
    requires ValidRank(n, nproc, rank) && RowsPerRank(n, nproc) >= 1
    ensures forall s, m | s in Posted(n, nproc, rank) && m in Posted(n, nproc, rank) && s.kind == Send && m.kind == Recv :: s.row != m.row
    ensures forall s | s in Posted(n, nproc, rank) && s.kind == Send :: InSlab(n, nproc, rank, s.row)
  {
  }

  /** Rank 0 and the last rank never receive into a row they send from,
      whatever the slab sizes: each posts at most one send and one receive,
      on rows `end_row - 1` and `end_row`, or `start_row` and
      `start_row - 1`. */
  lemma EndRanksApart(n: int, nproc: int, rank: int)
    requires ValidRank(n, nproc, rank) && (rank == 0 || rank == nproc - 1)
    ensures forall s, m | s in Posted(n, nproc, rank) && m in Posted(n, nproc, rank) && s.kind == Send && m.kind == Recv :: s.row != m.row
  {
    PostedExactly(n, nproc, rank);
  }

  /** With more ranks than interior rows every slab is empty, and a middle
      rank posts a receive into row 0 while its send from row 0 is still
      pending. */
  lemma EmptySlabsShareBuffers()
    ensures RowsPerRank(4, 3) == 0
    ensures Request(0, Recv, 0, EndRowTag, 0) in Posted(4, 3, 1)
    ensures Request(2, Send, 2, EndRowTag, 0) in Posted(4, 3, 1)
  {
    assert Posted(4, 3, 1)[0] == Request(0, Recv, 0, EndRowTag, 0);
    assert Posted(4, 3, 1)[1] == Request(2, Send, 2, EndRowTag, 0);
  }
}
