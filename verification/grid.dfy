/** The field `double A[N][N][N]` of redb_3d.c, over an abstract value type.

    The model keeps the field as nested sequences and the cell values
    abstract: nothing about floating point is assumed. */
module Grid {

  /** A three-dimensional field, indexed `g[i][j][k]` like `A[i][j][k]`. */
  type Grid<V> = seq<seq<seq<V>>>

  /** A cell coordinate `(i, j, k)`. */
  datatype Cell = Cell(i: int, j: int, k: int)

  /** `g` has extent `n` on every axis. */
  predicate IsCube<V>(g: Grid<V>, n: nat)
  {
    |g| == n &&
    forall i | 0 <= i < n :: |g[i]| == n && forall j | 0 <= j < n :: |g[i][j]| == n
  }

  /** `(i, j, k)` indexes a cell of an `n`-cube. */
  predicate InCube(n: int, i: int, j: int, k: int)
  {
    0 <= i < n && 0 <= j < n && 0 <= k < n
  }

  /** `(i, j, k)` is an interior cell: all six face neighbours exist. */
  predicate Interior(n: int, i: int, j: int, k: int)
  {
    1 <= i <= n - 2 && 1 <= j <= n - 2 && 1 <= k <= n - 2
  }

  /** The in-place assignment `A[i][j][k] = v`. */
  function Put<V>(g: Grid<V>, n: nat, i: int, j: int, k: int, v: V): (h: Grid<V>)
    requires IsCube(g, n) && InCube(n, i, j, k)
    ensures IsCube(h, n)
    ensures h[i][j][k] == v
    ensures forall a, b, c {:trigger h[a][b][c]} | InCube(n, a, b, c) && !(a == i && b == j && c == k) :: h[a][b][c] == g[a][b][c]
  {
    g[i := g[i][j := g[i][j][k := v]]]
  }

  /** Two cubes that agree on every cell are equal. */
  lemma CubeExt<V>(g: Grid<V>, h: Grid<V>, n: nat)
    requires IsCube(g, n) && IsCube(h, n)
    requires forall a, b, c {:trigger g[a][b][c]} | InCube(n, a, b, c) :: g[a][b][c] == h[a][b][c]
    ensures g == h
  {
    forall a | 0 <= a < n
      ensures g[a] == h[a]
    {
      forall b | 0 <= b < n
        ensures g[a][b] == h[a][b]
      {
        assert forall c | 0 <= c < n :: g[a][b][c] == h[a][b][c];
      }
    }
  }

  /** Two `n`-by-`n` planes that agree on every cell are equal. */
  lemma PlaneExt<V>(p: seq<seq<V>>, q: seq<seq<V>>, n: nat)
    requires |p| == n && |q| == n
    requires forall b | 0 <= b < n :: |p[b]| == n && |q[b]| == n
    requires forall b, c {:trigger p[b][c]} | 0 <= b < n && 0 <= c < n :: p[b][c] == q[b][c]
    ensures p == q
  {
    forall b | 0 <= b < n
      ensures p[b] == q[b]
    {
      assert forall c | 0 <= c < n :: p[b][c] == q[b][c];
    }
  }

  /** The centre value and the six face neighbours read by the stencil at
      lines 124 and 137. */
  datatype Nbhd<V> = Nbhd(centre: V, iLo: V, iHi: V, jLo: V, jHi: V, kLo: V, kHi: V)

  /** The seven values the update of cell `(i, j, k)` reads. */
  function Neighbourhood<V>(g: Grid<V>, n: nat, i: int, j: int, k: int): Nbhd<V>
    requires IsCube(g, n) && Interior(n, i, j, k)
  {
    Nbhd(g[i][j][k], g[i - 1][j][k], g[i + 1][j][k], g[i][j - 1][k], g[i][j + 1][k], g[i][j][k - 1], g[i][j][k + 1])
  }

  /** The stencil at `(i, j, k)` reads rows `i - 1`, `i` and `i + 1` only:
      two fields that agree on those rows give the same neighbourhood. */
  lemma NeighbourhoodRows<V>(g: Grid<V>, h: Grid<V>, n: nat, i: int, j: int, k: int)
    requires IsCube(g, n) && IsCube(h, n) && Interior(n, i, j, k)
    requires g[i - 1] == h[i - 1] && g[i] == h[i] && g[i + 1] == h[i + 1]
    ensures Neighbourhood(g, n, i, j, k) == Neighbourhood(h, n, i, j, k)
  {
  }
}
