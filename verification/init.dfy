/** `init`, lines 64-75: every rank fills its own slab of `A`; the faces
    `j` or `k` in `{0, N - 1}` get `0.` and every other cell `4. + i + j + k`.
    Rows outside the slab keep the zero `A` starts with as a static array.

    Both values are small integers converted to `double`, so the model
    takes the conversion as a parameter `ofInt: int -> V`. */
module Init {
  import opened Grid

  /** The integer whose conversion `init` stores in cell `(i, j, k)`. */
  function InitValue(n: int, i: int, j: int, k: int): int
  {
    if j == 0 || j == n - 1 || k == 0 || k == n - 1 then 0 else 4 + i + j + k
  }

  /** The field with every cell `z`: `A` before `init`, `z` being `0.`. */
  function Zeros<V>(n: nat, z: V): (g: Grid<V>)
    ensures IsCube(g, n)
  {
    seq(n, _ => seq(n, _ => seq(n, _ => z)))
  }

  /** Row `i` as `init` leaves it. */
  function InitRow<V>(n: nat, i: int, ofInt: int -> V): seq<seq<V>>
  {
    seq(n, j => seq(n, k => ofInt(InitValue(n, i, j, k))))
  }

  /** `g` after `init` on the rank owning `[lo, hi)`. */
  function Initialised<V>(g: Grid<V>, n: nat, lo: int, hi: int, ofInt: int -> V): (h: Grid<V>)
    requires IsCube(g, n)
    ensures IsCube(h, n)
  {
    seq(n, a requires 0 <= a < n => if lo <= a < hi then InitRow(n, a, ofInt) else g[a])
  }

  /** What `init` leaves in each cell: the faces of an owned row hold
      `0.`, its other cells `4. + i + j + k`, and rows outside the slab are
      untouched. */
  lemma InitialisedCells<V>(g: Grid<V>, n: nat, lo: int, hi: int, ofInt: int -> V)
    requires IsCube(g, n)
    ensures forall a, b, d | InCube(n, a, b, d) && !(lo <= a < hi) :: Initialised(g, n, lo, hi, ofInt)[a][b][d] == g[a][b][d]
    ensures forall a, b, d | InCube(n, a, b, d) && lo <= a < hi && (b == 0 || b == n - 1 || d == 0 || d == n - 1) ::
              Initialised(g, n, lo, hi, ofInt)[a][b][d] == ofInt(0)
    ensures forall a, b, d | lo <= a < hi && 0 <= a < n && Interior(n, a, b, d) ::
              Initialised(g, n, lo, hi, ofInt)[a][b][d] == ofInt(4 + a + b + d)
  {
    var h := Initialised(g, n, lo, hi, ofInt);
    forall a, b, d | InCube(n, a, b, d) && lo <= a < hi
      ensures h[a][b][d] == ofInt(InitValue(n, a, b, d))
    {
      assert h[a] == InitRow(n, a, ofInt);
    }
  }

  /** Initialising two adjacent row ranges one after the other, in either
      order, is initialising their union: the step by which the `i` loop of
      `InitSlab` grows the initialised range `[start_row, i)` by one row. */
  lemma InitialisedAdjacent<V>(g: Grid<V>, n: nat, lo: int, mid: int, hi: int, ofInt: int -> V)
    requires IsCube(g, n) && lo <= mid <= hi
    ensures Initialised(Initialised(g, n, lo, mid, ofInt), n, mid, hi, ofInt) == Initialised(g, n, lo, hi, ofInt)
    ensures Initialised(Initialised(g, n, mid, hi, ofInt), n, lo, mid, ofInt) == Initialised(g, n, lo, hi, ofInt)
  {
  }

  /** The innermost loop of `init`: column `j` of row `i`. */
  method InitLine<V>(n: nat, i: int, j: int, ofInt: int -> V) returns (line: seq<V>)
    ensures |line| == n && forall k | 0 <= k < n :: line[k] == ofInt(InitValue(n, i, j, k))
  {
    line := [];
    for k := 0 to n
      invariant |line| == k
      invariant forall d | 0 <= d < k :: line[d] == ofInt(InitValue(n, i, j, d))
    {
      line := line + [ofInt(InitValue(n, i, j, k))];
    }
  }

  /** The two inner loops of `init`: row `i`. */
  method InitPlane<V>(n: nat, i: int, ofInt: int -> V) returns (p: seq<seq<V>>)
    ensures p == InitRow(n, i, ofInt)
  {
    p := [];
    for j := 0 to n
      invariant |p| == j
      invariant forall b | 0 <= b < j :: p[b] == InitRow(n, i, ofInt)[b]
    {
      var line := InitLine(n, i, j, ofInt);
      p := p + [line];
    }
  }

  /** `init` on the rank owning `[lo, hi)`. */
  method InitSlab<V>(g: Grid<V>, n: nat, lo: int, hi: int, ofInt: int -> V) returns (h: Grid<V>)
    requires IsCube(g, n) && 0 <= lo <= hi <= n
    ensures h == Initialised(g, n, lo, hi, ofInt)
  {
    h := g;
    for i := lo to hi
      invariant h == Initialised(g, n, lo, i, ofInt)
    {
      var p := InitPlane(n, i, ofInt);
      InitialisedAdjacent(g, n, lo, i, i + 1, ofInt);
      h := h[i := p];
    }
  }
}
