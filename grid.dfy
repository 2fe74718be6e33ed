/**
 * Row-major square grids: the integer square root that stands for
 * `(int) sqrt(n)`, cell ids `row * dim + col` and their coordinates, and the
 * one-dimensional chain both meshes fall back to inside a multi-dimensional
 * topology.
 */
module Grid {
  import opened BasicTopology
  import Arith

  /** d * d, as the sum of the first d odd numbers. */
  function Square(d: nat): nat {
    if d == 0 then 0 else Square(d - 1) + 2 * d - 1
  }

  lemma {:induction false} SquareIsProduct(d: nat)
    ensures Square(d) == d * d
  {
    if d > 0 {
      SquareIsProduct(d - 1);
    }
  }

  lemma {:induction false} SquareMonotone(a: nat, b: nat)
    requires a < b
    ensures Square(a) < Square(b)
    decreases b
  {
    if a < b - 1 {
      SquareMonotone(a, b - 1);
    }
  }

  /** The largest r with r * r <= n: the value of `(int) sqrt(n)`. */
  function ISqrt(n: nat): (r: nat)
    ensures Square(r) <= n < Square(r + 1)
  {
    if n == 0 then 0
    else
      var s := ISqrt(n - 1);
      if Square(s + 1) <= n then s + 1 else s
  }

  /** n is the number of cells of a square grid. */
  predicate IsSquare(n: nat) {
    Square(ISqrt(n)) == n
  }

  /** The square root of a square is its side, and squares are exactly the values IsSquare accepts. */
  lemma ISqrtOfSquare(d: nat)
    ensures ISqrt(d * d) == d && IsSquare(d * d)
  {
    SquareIsProduct(d);
    var r := ISqrt(d * d);
    if r < d {
      SquareMonotone(r, d);
      if r + 1 < d {
        SquareMonotone(r + 1, d);
      }
    } else if r > d {
      SquareMonotone(d, r);
    }
  }

  /** A square number of cells is dim * dim for its root dim. */
  lemma SquareSide(n: nat)
    requires IsSquare(n)
    ensures ISqrt(n) * ISqrt(n) == n
  {
    SquareIsProduct(ISqrt(n));
  }

  /** The id of the cell at (row, col): `row * dim + col`, built one row at a time. */
  function Id(dim: nat, row: nat, col: int): int {
    if row == 0 then col else Id(dim, row - 1, col) + dim
  }

  /** The row of a non-negative id, `a / dim`; negative ids are no cell and get 0. */
  function Row(dim: nat, a: int): nat
    requires dim > 0
    decreases a
  {
    if a < dim then 0 else 1 + Row(dim, a - dim)
  }

  /** The column of a non-negative id, `a % dim`; negative ids are no cell and get 0. */
  function Col(dim: nat, a: int): nat
    requires dim > 0
    decreases a
  {
    if a < 0 then 0 else if a < dim then a else Col(dim, a - dim)
  }

  /** Id is the row-major formula. */
  lemma {:induction false} IdIsRowMajor(dim: nat, row: nat, col: int)
    ensures Id(dim, row, col) == row * dim + col
  {
    if row > 0 {
      IdIsRowMajor(dim, row - 1, col);
      Arith.MulSucc(row - 1, dim);
    }
  }

  /** Moving d columns within a row moves the id by d. */
  lemma {:induction false} IdColumnShift(dim: nat, row: nat, col: int, d: int)
    ensures Id(dim, row, col + d) == Id(dim, row, col) + d
  {
    if row > 0 {
      IdColumnShift(dim, row - 1, col, d);
    }
  }

  /** A cell of one of the first k rows has an id below the first id of row k. */
  lemma {:induction false} IdBelowRow(dim: nat, row: nat, col: nat, k: nat)
    requires row < k && col < dim
    ensures Id(dim, row, col) < Id(dim, k, 0)
  {
    if row < k - 1 {
      IdBelowRow(dim, row, col, k - 1);
    } else {
      IdColumnShift(dim, row, 0, col);
    }
  }

  /** Row and Col are Euclidean division and remainder by dim. */
  lemma {:induction false} RowColDivMod(dim: nat, a: nat)
    requires dim > 0
    ensures Row(dim, a) == a / dim && Col(dim, a) == a % dim
    decreases a
  {
    if a >= dim {
      RowColDivMod(dim, a - dim);
      DivMod(a, Row(dim, a - dim) + 1, Col(dim, a - dim), dim);
    } else {
      DivMod(a, 0, a, dim);
    }
  }

  /** Euclidean division recovers quotient and remainder. */
  lemma DivMod(a: int, q: int, r: int, d: nat)
    requires d > 0 && 0 <= r < d && a == q * d + r
    ensures a / d == q && a % d == r
  {
    var q' := a / d;
    var r' := a % d;
    if q' < q {
      Arith.MulLeInt(q' + 1, q, d);
    } else if q' > q {
      Arith.MulLeInt(q + 1, q', d);
    }
  }

  /** A cell's id gives back its row and column, and the cells of the first m rows have ids below m * dim. */
  lemma {:induction false} CellIn(dim: nat, m: nat, row: nat, col: int)
    requires row < m && 0 <= col < dim
    ensures 0 <= Id(dim, row, col) < m * dim
    ensures Row(dim, Id(dim, row, col)) == row && Col(dim, Id(dim, row, col)) == col
  {
    Arith.MulSucc(m - 1, dim);
    if row > 0 {
      CellIn(dim, m - 1, row - 1, col);
    }
  }

  /** A cell of the grid has an id below dim * dim, and its id gives back its row and column. */
  lemma Cell(dim: nat, row: nat, col: int)
    requires row < dim && 0 <= col < dim
    ensures 0 <= Id(dim, row, col) < dim * dim
    ensures Row(dim, Id(dim, row, col)) == row && Col(dim, Id(dim, row, col)) == col
  {
    CellIn(dim, dim, row, col);
  }

  /** An id below m * dim is the cell at its row, below m, and its column. */
  lemma {:induction false} CoordsIn(dim: nat, m: nat, a: int)
    requires dim > 0 && 0 <= a < m * dim
    ensures Row(dim, a) < m && a == Id(dim, Row(dim, a), Col(dim, a)) && Col(dim, a) < dim
    decreases a
  {
    Arith.MulSucc(m - 1, dim);
    if a >= dim {
      CoordsIn(dim, m - 1, a - dim);
    }
  }

  /** Every id below dim * dim is a cell of the grid. */
  lemma Coords(dim: nat, a: int)
    requires dim > 0 && 0 <= a < dim * dim
    ensures Row(dim, a) < dim && Col(dim, a) < dim && a == Id(dim, Row(dim, a), Col(dim, a))
  {
    CoordsIn(dim, dim, a);
  }

  /** The column `a % dim` and the row `a / dim` of id a. */
  method CoordinatesOf(dim: nat, a: int) returns (x: int, y: int)
    requires dim > 0 && a >= 0
    ensures x == Col(dim, a) && y == Row(dim, a) && a == y * dim + x
  {
    RowColDivMod(dim, a);
    x := a % dim;
    y := a / dim;
  }

  /** The id `row * dim + col` of a cell. */
  method CellId(dim: nat, row: int, col: int) returns (id: int)
    requires row >= 0
    ensures id == row * dim + col
  {
    id := row * dim + col;
  }

  function Abs(x: int): nat {
    if x < 0 then -x else x
  }

  /** -1, 0 or +1, as the sign of x: the step toward a coordinate x ahead. */
  function Sign(x: int): int {
    if x == 0 then 0 else if x > 0 then 1 else -1
  }

  function Max(a: int, b: int): int {
    if a >= b then a else b
  }

  function Min(a: int, b: int): int {
    if a <= b then a else b
  }

  /** The coordinate reached from s after k unit steps toward t, stopping at t. */
  function Toward(s: int, t: int, k: nat): int {
    if k >= Abs(t - s) then t else if t > s then s + k else s - k
  }

  /**
   * After k steps toward t the coordinate stays between s and t, is
   * min(k, |t - s|) away from s, and reaches t exactly from step |t - s| on.
   */
  lemma TowardBetween(s: int, t: int, k: nat)
    ensures Min(s, t) <= Toward(s, t, k) <= Max(s, t)
    ensures Abs(Toward(s, t, k) - s) == Min(k, Abs(t - s)) && Abs(t - Toward(s, t, k)) == Abs(t - s) - Min(k, Abs(t - s))
    ensures Toward(s, t, k) == t <==> k >= Abs(t - s)
  {
  }

  /** Each step before t is reached moves one unit in the direction of t; after that nothing moves. */
  lemma TowardStep(s: int, t: int, k: nat)
    ensures k < Abs(t - s) ==> Toward(s, t, k + 1) == Toward(s, t, k) + Sign(t - s)
    ensures k >= Abs(t - s) ==> Toward(s, t, k + 1) == t
    ensures Toward(s, t, 0) == s
  {
  }

  /** The pairs (i, i + 1) for i = 0 .. k-1: a chain through ids 0 .. k. */
  function ChainPairs(k: nat): seq<ConnectionPolicy> {
    if k == 0 then [] else ChainPairs(k - 1) + [ConnectionPolicy(k - 1, k)]
  }

  /** The chain has k pairs, the i-th joining i to i + 1. */
  lemma {:induction false} ChainPairsAt(k: nat)
    ensures |ChainPairs(k)| == k
    ensures forall i :: 0 <= i < k ==> ChainPairs(k)[i] == ConnectionPolicy(i, i + 1)
  {
    if k > 0 {
      ChainPairsAt(k - 1);
    }
  }

  /** Connecting the chain records k links, the i-th joining i to i + 1. */
  lemma ChainLinksAt(k: nat, bandwidth: real, latency: real, bidirectional: bool)
    ensures |WireAll(ChainPairs(k), bandwidth, latency, bidirectional)| == k
    ensures forall i :: 0 <= i < k ==>
      WireAll(ChainPairs(k), bandwidth, latency, bidirectional)[i] == Link(i, i + 1, bandwidth, latency, bidirectional)
  {
    ChainPairsAt(k);
    WireAllAt(ChainPairs(k), bandwidth, latency, bidirectional);
  }

  lemma ChainPairsNext(k: nat)
    ensures ChainPairs(k + 1) == ChainPairs(k) + [ConnectionPolicy(k, k + 1)]
  {
  }

  /**
   * The multi-dimensional fallback of both meshes: connects each endpoint
   * 0 .. count-2 to the next one.
   */
  method ConnectChain(registry: Registry, count: int, bandwidth: real, latency: real, bidirectional: bool)
    requires 1 <= count <= registry.devicesCount
    modifies registry
    ensures registry.links == old(registry.links) + WireAll(ChainPairs(count - 1), bandwidth, latency, bidirectional)
  {
    ghost var before := registry.links;
    var i: int := 0;
    while i < count - 1
      invariant 0 <= i <= count - 1
      invariant registry.links == before + WireAll(ChainPairs(i), bandwidth, latency, bidirectional)
    {
      registry.Connect(i, i + 1, bandwidth, latency, bidirectional);
      WireAllAppend(ChainPairs(i), [ConnectionPolicy(i, i + 1)], bandwidth, latency, bidirectional);
      AppendAssoc(before, WireAll(ChainPairs(i), bandwidth, latency, bidirectional), WireAll([ConnectionPolicy(i, i + 1)], bandwidth, latency, bidirectional));
      ChainPairsNext(i);
      i := i + 1;
    }
  }
}
