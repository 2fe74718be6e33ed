/**
 * A two-dimensional "king" mesh of dim x dim endpoints in row-major order:
 * like the plain mesh, but each cell is also wired to the cells diagonally
 * below it, so that every cell neighbours the up to eight cells a chess king
 * can reach. Routes step diagonally while both coordinates still differ.
 * Inside a multi-dimensional topology the endpoints form a chain instead.
 */
module KingMesh2D {
  import opened BasicTopology
  import opened Grid
  import Arith

  /** a and b are distinct cells of the grid whose rows differ by at most one and whose columns differ by at most one. */
  predicate KingNeighbours(dim: nat, a: int, b: int) {
    dim > 0 && 0 <= a < dim * dim && 0 <= b < dim * dim && a != b
      && Abs(Row(dim, a) - Row(dim, b)) <= 1 && Abs(Col(dim, a) - Col(dim, b)) <= 1
  }

  lemma KingNeighboursSymmetric(dim: nat, a: int, b: int)
    requires KingNeighbours(dim, a, b)
    ensures KingNeighbours(dim, b, a)
  {
  }

  // ---------------------------------------------------------------------------
  // The links: right, then down, down-right and down-left, cell by cell

  /** The rows down of the k-th direction a cell is wired in: right, down, down-right, down-left. */
  function LinkRows(k: nat): nat {
    if k == 0 then 0 else 1
  }

  /** The columns across of the k-th direction a cell is wired in: right, down, down-right, down-left. */
  function LinkCols(k: nat): int {
    if k == 0 || k == 2 then 1 else if k == 1 then 0 else -1
  }

  /** The link from cell (row, col) to the cell dy rows down and dx columns across, when that cell exists. */
  function OffsetLink(dim: nat, row: nat, col: nat, dy: nat, dx: int): seq<ConnectionPolicy> {
    if row + dy < dim && 0 <= col + dx < dim then [ConnectionPolicy(Id(dim, row, col), Id(dim, row + dy, col + dx))] else []
  }

  /** The links of a cell in its first k directions. */
  function CellLinks(dim: nat, row: nat, col: nat, k: nat): seq<ConnectionPolicy> {
    if k == 0 then [] else CellLinks(dim, row, col, k - 1) + OffsetLink(dim, row, col, LinkRows(k - 1), LinkCols(k - 1))
  }

  /** The links out of one cell: right, down, down-right and down-left, each only where that neighbour exists. */
  function CellLinkPairs(dim: nat, row: nat, col: nat): seq<ConnectionPolicy> {
    CellLinks(dim, row, col, 4)
  }

  /** The links of cells 0 .. k-1 of a row. */
  function RowLinkPairs(dim: nat, row: nat, k: nat): seq<ConnectionPolicy> {
    if k == 0 then [] else RowLinkPairs(dim, row, k - 1) + CellLinkPairs(dim, row, k - 1)
  }

  /** The links of rows 0 .. k-1. */
  function GridLinkPairs(dim: nat, k: nat): seq<ConnectionPolicy> {
    if k == 0 then [] else GridLinkPairs(dim, k - 1) + RowLinkPairs(dim, k - 1, dim)
  }

  /** Every link of the grid, in the order the constructor records them. */
  function LinkPairs(dim: nat): seq<ConnectionPolicy> {
    GridLinkPairs(dim, dim)
  }

  lemma RowLinkPairsNext(dim: nat, row: nat, k: nat)
    ensures RowLinkPairs(dim, row, k + 1) == RowLinkPairs(dim, row, k) + CellLinkPairs(dim, row, k)
  {
  }

  lemma GridLinkPairsNext(dim: nat, k: nat)
    ensures GridLinkPairs(dim, k + 1) == GridLinkPairs(dim, k) + RowLinkPairs(dim, k, dim)
  {
  }

  // ---------------------------------------------------------------------------
  // The policies: the 8-neighbourhood of every cell

  /** The pair from cell (row, col) to the cell dy rows and dx columns away, when that is another cell of the grid. */
  function OffsetPair(dim: nat, row: nat, col: nat, dy: int, dx: int): seq<ConnectionPolicy> {
    if dx == 0 && dy == 0 then []
    else if 0 <= row + dy < dim && 0 <= col + dx < dim then [ConnectionPolicy(Id(dim, row, col), Id(dim, row + dy, col + dx))]
    else []
  }

  /** The pairs toward the cells dy rows away, for dx = -1 .. k-2. */
  function OffsetRowPairs(dim: nat, row: nat, col: nat, dy: int, k: nat): seq<ConnectionPolicy> {
    if k == 0 then [] else OffsetRowPairs(dim, row, col, dy, k - 1) + OffsetPair(dim, row, col, dy, k - 2)
  }

  /** The pairs toward the cells dy rows away, for dy = -1 .. k-2 and dx = -1 .. 1. */
  function OffsetPairs(dim: nat, row: nat, col: nat, k: nat): seq<ConnectionPolicy> {
    if k == 0 then [] else OffsetPairs(dim, row, col, k - 1) + OffsetRowPairs(dim, row, col, k - 2, 3)
  }

  /** The pairs from a cell to its neighbours, ordered by dy and then dx from -1 to 1. */
  function CellNeighbourPairs(dim: nat, row: nat, col: nat): seq<ConnectionPolicy> {
    OffsetPairs(dim, row, col, 3)
  }

  /** The neighbour pairs of cells 0 .. k-1 of a row. */
  function RowNeighbourPairs(dim: nat, row: nat, k: nat): seq<ConnectionPolicy> {
    if k == 0 then [] else RowNeighbourPairs(dim, row, k - 1) + CellNeighbourPairs(dim, row, k - 1)
  }

  /** The neighbour pairs of rows 0 .. k-1. */
  function GridNeighbourPairs(dim: nat, k: nat): seq<ConnectionPolicy> {
    if k == 0 then [] else GridNeighbourPairs(dim, k - 1) + RowNeighbourPairs(dim, k - 1, dim)
  }

  /** The neighbour pairs of every cell, in row-major order. */
  function NeighbourPairs(dim: nat): seq<ConnectionPolicy> {
    GridNeighbourPairs(dim, dim)
  }

  /** The policies: every cell's neighbour pairs, followed by all of them reversed when bidirectional. */
  function KingPolicies(dim: nat, bidirectional: bool): seq<ConnectionPolicy> {
    NeighbourPairs(dim) + (if bidirectional then ReversedAll(NeighbourPairs(dim)) else [])
  }

  lemma OffsetRowPairsNext(dim: nat, row: nat, col: nat, dy: int, k: nat)
    ensures OffsetRowPairs(dim, row, col, dy, k + 1) == OffsetRowPairs(dim, row, col, dy, k) + OffsetPair(dim, row, col, dy, k - 1)
  {
  }

  lemma OffsetPairsNext(dim: nat, row: nat, col: nat, k: nat)
    ensures OffsetPairs(dim, row, col, k + 1) == OffsetPairs(dim, row, col, k) + OffsetRowPairs(dim, row, col, k - 1, 3)
  {
  }

  lemma RowNeighbourPairsNext(dim: nat, row: nat, k: nat)
    ensures RowNeighbourPairs(dim, row, k + 1) == RowNeighbourPairs(dim, row, k) + CellNeighbourPairs(dim, row, k)
  {
  }

  lemma GridNeighbourPairsNext(dim: nat, k: nat)
    ensures GridNeighbourPairs(dim, k + 1) == GridNeighbourPairs(dim, k) + RowNeighbourPairs(dim, k, dim)
  {
  }

  // ---------------------------------------------------------------------------
  // What the links are

  /** The link to the right neighbour goes from a cell to the next id. */
  lemma RightLinkSound(dim: nat, row: nat, col: nat)
    requires row < dim && col + 1 < dim
    ensures KingNeighbours(dim, Id(dim, row, col), Id(dim, row, col + 1)) && Id(dim, row, col) < Id(dim, row, col + 1)
  {
    Cell(dim, row, col);
    Cell(dim, row, col + 1);
    IdColumnShift(dim, row, col, 1);
  }

  /** A link to a cell of the next row, one column away at most, goes to a higher id. */
  lemma LowerLinkSound(dim: nat, row: nat, col: nat, dx: int)
    requires row + 1 < dim && 0 <= col + dx < dim && -1 <= dx <= 1 && col < dim
    ensures KingNeighbours(dim, Id(dim, row, col), Id(dim, row + 1, col + dx)) && Id(dim, row, col) < Id(dim, row + 1, col + dx)
  {
    Cell(dim, row, col);
    Cell(dim, row + 1, col + dx);
    IdColumnShift(dim, row, col, dx);
    assert Id(dim, row + 1, col + dx) == Id(dim, row, col + dx) + dim;
  }

  /** Each of the four directions leads to a neighbour with a higher id. */
  lemma OffsetLinkSound(dim: nat, row: nat, col: nat, m: nat, p: ConnectionPolicy)
    requires row < dim && col < dim && m < 4 && p in OffsetLink(dim, row, col, LinkRows(m), LinkCols(m))
    ensures KingNeighbours(dim, p.src, p.dst) && p.src < p.dst
  {
    if m == 0 {
      RightLinkSound(dim, row, col);
    } else {
      LowerLinkSound(dim, row, col, LinkCols(m));
    }
  }

  lemma {:induction false} CellLinksSound(dim: nat, row: nat, col: nat, k: nat, p: ConnectionPolicy)
    requires row < dim && col < dim && k <= 4 && p in CellLinks(dim, row, col, k)
    ensures KingNeighbours(dim, p.src, p.dst) && p.src < p.dst
  {
    if k > 0 {
      var a, b := CellLinks(dim, row, col, k - 1), OffsetLink(dim, row, col, LinkRows(k - 1), LinkCols(k - 1));
      InConcat(p, a, b);
      if p in a {
        CellLinksSound(dim, row, col, k - 1, p);
      } else {
        OffsetLinkSound(dim, row, col, k - 1, p);
      }
    }
  }

  lemma {:induction false} CellLinksHave(dim: nat, row: nat, col: nat, k: nat, m: nat, p: ConnectionPolicy)
    requires m < k && p in OffsetLink(dim, row, col, LinkRows(m), LinkCols(m))
    ensures p in CellLinks(dim, row, col, k)
  {
    if k > 0 {
      var a, b := CellLinks(dim, row, col, k - 1), OffsetLink(dim, row, col, LinkRows(k - 1), LinkCols(k - 1));
      if m < k - 1 {
        CellLinksHave(dim, row, col, k - 1, m, p);
        InLeft(p, a, b);
      } else {
        InRight(p, a, b);
      }
    }
  }

  /** The i-th of the links of a row's first k cells is the j-th link of one of those cells. */
  lemma {:induction false} RowLinkOrigin(dim: nat, row: nat, k: nat, i: nat) returns (col: nat, j: nat)
    requires i < |RowLinkPairs(dim, row, k)|
    ensures col < k && j < |CellLinkPairs(dim, row, col)| && RowLinkPairs(dim, row, k)[i] == CellLinkPairs(dim, row, col)[j]
  {
    if k > 0 {
      var a := RowLinkPairs(dim, row, k - 1);
      RowLinkPairsNext(dim, row, k - 1);
      AppendIndex(a, CellLinkPairs(dim, row, k - 1), i);
      if i < |a| {
        col, j := RowLinkOrigin(dim, row, k - 1, i);
      } else {
        col, j := k - 1, i - |a|;
      }
    }
  }

  /** The i-th of the links of the first k rows is the j-th link of one of their cells. */
  lemma {:induction false} GridLinkOrigin(dim: nat, k: nat, i: nat) returns (row: nat, col: nat, j: nat)
    requires i < |GridLinkPairs(dim, k)|
    ensures row < k && col < dim && j < |CellLinkPairs(dim, row, col)| && GridLinkPairs(dim, k)[i] == CellLinkPairs(dim, row, col)[j]
  {
    if k > 0 {
      var a := GridLinkPairs(dim, k - 1);
      GridLinkPairsNext(dim, k - 1);
      AppendIndex(a, RowLinkPairs(dim, k - 1, dim), i);
      if i < |a| {
        row, col, j := GridLinkOrigin(dim, k - 1, i);
      } else {
        row := k - 1;
        col, j := RowLinkOrigin(dim, k - 1, dim, i - |a|);
      }
    }
  }

  lemma {:induction false} RowLinkPairsHave(dim: nat, row: nat, k: nat, col: nat, p: ConnectionPolicy)
    requires col < k && p in CellLinkPairs(dim, row, col)
    ensures p in RowLinkPairs(dim, row, k)
  {
    if k > 0 {
      var a := RowLinkPairs(dim, row, k - 1);
      var b := CellLinkPairs(dim, row, k - 1);
      if col < k - 1 {
        RowLinkPairsHave(dim, row, k - 1, col, p);
        InLeft(p, a, b);
      } else {
        InRight(p, a, b);
      }
    }
  }

  lemma {:induction false} GridLinkPairsHave(dim: nat, k: nat, row: nat, p: ConnectionPolicy)
    requires row < k && p in RowLinkPairs(dim, row, dim)
    ensures p in GridLinkPairs(dim, k)
  {
    if k > 0 {
      var a := GridLinkPairs(dim, k - 1);
      var b := RowLinkPairs(dim, k - 1, dim);
      if row < k - 1 {
        GridLinkPairsHave(dim, k - 1, row, p);
        InLeft(p, a, b);
      } else {
        InRight(p, a, b);
      }
    }
  }

  /** A link of a cell of the grid is among the links of the grid. */
  lemma CellLinkInGrid(dim: nat, row: nat, col: nat, p: ConnectionPolicy)
    requires row < dim && col < dim && p in CellLinkPairs(dim, row, col)
    ensures p in LinkPairs(dim)
  {
    RowLinkPairsHave(dim, row, dim, col, p);
    GridLinkPairsHave(dim, dim, row, p);
  }

  /** A neighbour in the row above has a lower id. */
  lemma AboveIsLower(dim: nat, row: nat, col: nat, col': nat)
    requires 0 < row < dim && col < dim && col' < dim
    ensures Id(dim, row - 1, col') < Id(dim, row, col)
  {
    var dx: int := col' as int - col;
    IdColumnShift(dim, row - 1, col, dx);
  }

  /** With a lower id than its neighbour b, cell a records the link to b. */
  lemma NeighbourLinked(dim: nat, p: ConnectionPolicy)
    requires KingNeighbours(dim, p.src, p.dst) && p.src < p.dst
    ensures p in LinkPairs(dim)
  {
    Coords(dim, p.src);
    Coords(dim, p.dst);
    var row, col := Row(dim, p.src), Col(dim, p.src);
    var row', col' := Row(dim, p.dst), Col(dim, p.dst);
    var dx: int := col' as int - col;
    if row' + 1 == row {
      AboveIsLower(dim, row, col, col');
      assert false;
    } else if row' == row {
      IdColumnShift(dim, row, col, dx);
      assert p in OffsetLink(dim, row, col, LinkRows(0), LinkCols(0));
      CellLinksHave(dim, row, col, 4, 0, p);
      CellLinkInGrid(dim, row, col, p);
    } else {
      var m := if dx == 0 then 1 else if dx == 1 then 2 else 3;
      assert p in OffsetLink(dim, row, col, LinkRows(m), LinkCols(m));
      CellLinksHave(dim, row, col, 4, m, p);
      CellLinkInGrid(dim, row, col, p);
    }
  }

  /** The links join exactly the neighbour pairs, from the lower id to the higher id. */
  lemma LinkPairsExact(dim: nat)
    ensures forall p :: p in LinkPairs(dim) <==> KingNeighbours(dim, p.src, p.dst) && p.src < p.dst
  {
    forall p | p in LinkPairs(dim)
      ensures KingNeighbours(dim, p.src, p.dst) && p.src < p.dst
    {
      var i :| 0 <= i < |LinkPairs(dim)| && LinkPairs(dim)[i] == p;
      var row, col, j := GridLinkOrigin(dim, dim, i);
      CellLinksSound(dim, row, col, 4, p);
    }
    forall p: ConnectionPolicy | KingNeighbours(dim, p.src, p.dst) && p.src < p.dst
      ensures p in LinkPairs(dim)
    {
      NeighbourLinked(dim, p);
    }
  }

  // ---------------------------------------------------------------------------
  // No link twice

  /** Each link of a cell goes in one of the directions tried. */
  lemma {:induction false} CellLinkOrigin(dim: nat, row: nat, col: nat, k: nat, p: ConnectionPolicy) returns (m: nat)
    requires p in CellLinks(dim, row, col, k)
    ensures m < k && p in OffsetLink(dim, row, col, LinkRows(m), LinkCols(m))
  {
    if k > 0 {
      var a, b := CellLinks(dim, row, col, k - 1), OffsetLink(dim, row, col, LinkRows(k - 1), LinkCols(k - 1));
      InConcat(p, a, b);
      if p in a {
        m := CellLinkOrigin(dim, row, col, k - 1, p);
      } else {
        m := k - 1;
      }
    }
  }

  /** Links of one cell in two different directions reach two different cells. */
  lemma DirectionsApart(dim: nat, row: nat, col: nat, m: nat, n: nat, p: ConnectionPolicy, q: ConnectionPolicy)
    requires m < n < 4
    requires p in OffsetLink(dim, row, col, LinkRows(m), LinkCols(m))
    requires q in OffsetLink(dim, row, col, LinkRows(n), LinkCols(n))
    ensures p.dst != q.dst
  {
    Cell(dim, row + LinkRows(m), col + LinkCols(m));
    Cell(dim, row + LinkRows(n), col + LinkCols(n));
  }

  lemma {:induction false} CellLinksDistinct(dim: nat, row: nat, col: nat, k: nat)
    requires k <= 4
    ensures Distinct(CellLinks(dim, row, col, k))
  {
    if k > 0 {
      var a, b := CellLinks(dim, row, col, k - 1), OffsetLink(dim, row, col, LinkRows(k - 1), LinkCols(k - 1));
      CellLinksDistinct(dim, row, col, k - 1);
      forall p, q | p in a && q in b
        ensures p != q
      {
        var m := CellLinkOrigin(dim, row, col, k - 1, p);
        DirectionsApart(dim, row, col, m, k - 1, p, q);
      }
      DistinctAppend(a, b);
    }
  }

  /** The links of a cell leave that cell. */
  lemma CellLinksFrom(dim: nat, row: nat, col: nat, k: nat, p: ConnectionPolicy)
    requires p in CellLinks(dim, row, col, k)
    ensures p.src == Id(dim, row, col)
  {
    var m := CellLinkOrigin(dim, row, col, k, p);
  }

  /** The links of a row's first k cells leave the ids of those cells. */
  lemma {:induction false} RowLinkFrom(dim: nat, row: nat, k: nat, p: ConnectionPolicy)
    requires p in RowLinkPairs(dim, row, k)
    ensures Id(dim, row, 0) <= p.src < Id(dim, row, 0) + k
  {
    if k > 0 {
      var a, b := RowLinkPairs(dim, row, k - 1), CellLinkPairs(dim, row, k - 1);
      InConcat(p, a, b);
      if p in a {
        RowLinkFrom(dim, row, k - 1, p);
      } else {
        CellLinksFrom(dim, row, k - 1, 4, p);
        IdColumnShift(dim, row, 0, k - 1);
      }
    }
  }

  /** A link of a row's first k cells and a link of cell k leave different cells. */
  lemma LinkCellApart(dim: nat, row: nat, k: nat, p: ConnectionPolicy, q: ConnectionPolicy)
    requires p in RowLinkPairs(dim, row, k) && q in CellLinkPairs(dim, row, k)
    ensures p.src != q.src
  {
    IdColumnShift(dim, row, 0, k);
    var first := Id(dim, row, 0);
    RowLinkFrom(dim, row, k, p);
    assert p.src < first + k;
    CellLinksFrom(dim, row, k, 4, q);
    assert q.src == first + k;
  }

  /** The links of a row's first k cells and of cell k, one after the other, hold no link twice. */
  lemma LinkCellsApart(dim: nat, row: nat, k: nat)
    requires Distinct(RowLinkPairs(dim, row, k)) && Distinct(CellLinkPairs(dim, row, k))
    ensures Distinct(RowLinkPairs(dim, row, k) + CellLinkPairs(dim, row, k))
  {
    var a, b := RowLinkPairs(dim, row, k), CellLinkPairs(dim, row, k);
    forall p, q | p in a && q in b
      ensures p != q
    {
      LinkCellApart(dim, row, k, p, q);
    }
    DistinctAppend(a, b);
  }

  lemma {:induction false} RowLinkPairsDistinct(dim: nat, row: nat, k: nat)
    ensures Distinct(RowLinkPairs(dim, row, k))
  {
    if k > 0 {
      RowLinkPairsDistinct(dim, row, k - 1);
      CellLinksDistinct(dim, row, k - 1, 4);
      LinkCellsApart(dim, row, k - 1);
      RowLinkPairsNext(dim, row, k - 1);
    }
  }

  /** The links of the first k rows leave ids below the first id of row k. */
  lemma GridLinkFrom(dim: nat, k: nat, p: ConnectionPolicy)
    requires p in GridLinkPairs(dim, k)
    ensures p.src < Id(dim, k, 0)
  {
    var i :| 0 <= i < |GridLinkPairs(dim, k)| && GridLinkPairs(dim, k)[i] == p;
    var row, col, j := GridLinkOrigin(dim, k, i);
    CellLinksFrom(dim, row, col, 4, p);
    IdBelowRow(dim, row, col, k);
  }

  /** The links of the first k rows and of row k, one after the other, hold no link twice. */
  lemma LinkRowsApart(dim: nat, k: nat)
    requires Distinct(GridLinkPairs(dim, k)) && Distinct(RowLinkPairs(dim, k, dim))
    ensures Distinct(GridLinkPairs(dim, k) + RowLinkPairs(dim, k, dim))
  {
    var a, b := GridLinkPairs(dim, k), RowLinkPairs(dim, k, dim);
    forall p, q | p in a && q in b
      ensures p != q
    {
      GridLinkFrom(dim, k, p);
      RowLinkFrom(dim, k, dim, q);
    }
    DistinctAppend(a, b);
  }

  lemma {:induction false} GridLinkPairsDistinct(dim: nat, k: nat)
    ensures Distinct(GridLinkPairs(dim, k))
  {
    if k > 0 {
      GridLinkPairsDistinct(dim, k - 1);
      RowLinkPairsDistinct(dim, k - 1, dim);
      LinkRowsApart(dim, k - 1);
      GridLinkPairsNext(dim, k - 1);
    }
  }

  /** No link is recorded twice: each neighbour pair is connected exactly once, from its lower id. */
  lemma LinkPairsOnce(dim: nat)
    ensures forall i, j :: 0 <= i < j < |LinkPairs(dim)| ==> LinkPairs(dim)[i] != LinkPairs(dim)[j]
    ensures forall p: ConnectionPolicy :: KingNeighbours(dim, p.src, p.dst) && p.src < p.dst ==> multiset(LinkPairs(dim))[p] == 1
  {
    GridLinkPairsDistinct(dim, dim);
    LinkPairsExact(dim);
    forall p: ConnectionPolicy | KingNeighbours(dim, p.src, p.dst) && p.src < p.dst
      ensures multiset(LinkPairs(dim))[p] == 1
    {
      DistinctOnce(LinkPairs(dim), p);
    }
  }

  // ---------------------------------------------------------------------------
  // Link counts

  /** A cell has a right link unless it is in the last column, and three or two lower links unless it is in the last row. */
  lemma CellLinkPairsCount(dim: nat, row: nat, col: nat)
    requires row < dim && col < dim
    ensures |CellLinkPairs(dim, row, col)|
      == (if col + 1 < dim then 1 else 0)
       + (if row + 1 < dim then 1 + (if col + 1 < dim then 1 else 0) + (if col > 0 then 1 else 0) else 0)
  {
    assert |CellLinks(dim, row, col, 1)| == if col + 1 < dim then 1 else 0;
    assert |CellLinks(dim, row, col, 2)| == |CellLinks(dim, row, col, 1)| + if row + 1 < dim then 1 else 0;
    assert |CellLinks(dim, row, col, 3)| == |CellLinks(dim, row, col, 2)| + if row + 1 < dim && col + 1 < dim then 1 else 0;
    assert |CellLinks(dim, row, col, 4)| == |CellLinks(dim, row, col, 3)| + if row + 1 < dim && col > 0 then 1 else 0;
  }

  lemma {:induction false} RowLinkPairsCount(dim: nat, row: nat, k: nat)
    requires row < dim && k <= dim
    ensures |RowLinkPairs(dim, row, k)|
      == Min(k, dim - 1) + (if row + 1 < dim then k + Min(k, dim - 1) + (if k == 0 then 0 else k - 1) else 0)
  {
    if k > 0 {
      RowLinkPairsCount(dim, row, k - 1);
      CellLinkPairsCount(dim, row, k - 1);
    }
  }

  lemma {:induction false} GridLinkPairsCount(dim: nat, k: nat)
    requires 1 <= dim && k <= dim
    ensures |GridLinkPairs(dim, k)| == k * (dim - 1) + Min(k, dim - 1) * (3 * dim - 2)
  {
    if k > 0 {
      GridLinkPairsCount(dim, k - 1);
      RowLinkPairsCount(dim, k - 1, dim);
      Arith.MulSucc(k - 1, dim - 1);
      Arith.MulSucc(Min(k - 1, dim - 1), 3 * dim - 2);
    }
  }

  /** The grid has dim * (dim - 1) links along rows, as many along columns, and (dim - 1)^2 along each diagonal direction. */
  lemma LinkPairsCount(dim: nat)
    requires dim >= 1
    ensures |LinkPairs(dim)| == 2 * (dim * (dim - 1)) + 2 * ((dim - 1) * (dim - 1))
  {
    GridLinkPairsCount(dim, dim);
    assert Min(dim, dim - 1) == dim - 1;
    LinkCountAlgebra(dim);
  }

  /** The count of the grid loop regrouped by direction. */
  lemma LinkCountAlgebra(dim: nat)
    requires dim >= 1
    ensures dim * (dim - 1) + (dim - 1) * (3 * dim - 2) == 2 * (dim * (dim - 1)) + 2 * ((dim - 1) * (dim - 1))
  {
    var m := dim - 1;
    assert m * (3 * dim - 2) == m * dim + 2 * (m * m) by {
      assert 3 * dim - 2 == dim + 2 * m;
    }
    assert m * dim == dim * m;
  }

  // ---------------------------------------------------------------------------
  // What the policies are

  /** The pair toward an offset of at most one row and one column joins two neighbours. */
  lemma OffsetPairSound(dim: nat, row: nat, col: nat, dy: int, dx: int, p: ConnectionPolicy)
    requires row < dim && col < dim && -1 <= dy <= 1 && -1 <= dx <= 1 && p in OffsetPair(dim, row, col, dy, dx)
    ensures KingNeighbours(dim, p.src, p.dst)
  {
    Cell(dim, row, col);
    Cell(dim, row + dy, col + dx);
  }

  lemma {:induction false} OffsetRowPairsSound(dim: nat, row: nat, col: nat, dy: int, k: nat, p: ConnectionPolicy)
    requires row < dim && col < dim && -1 <= dy <= 1 && k <= 3 && p in OffsetRowPairs(dim, row, col, dy, k)
    ensures KingNeighbours(dim, p.src, p.dst)
  {
    if k > 0 {
      var a, b := OffsetRowPairs(dim, row, col, dy, k - 1), OffsetPair(dim, row, col, dy, k - 2);
      InConcat(p, a, b);
      if p in a {
        OffsetRowPairsSound(dim, row, col, dy, k - 1, p);
      } else {
        OffsetPairSound(dim, row, col, dy, k - 2, p);
      }
    }
  }

  lemma {:induction false} OffsetPairsSound(dim: nat, row: nat, col: nat, k: nat, p: ConnectionPolicy)
    requires row < dim && col < dim && k <= 3 && p in OffsetPairs(dim, row, col, k)
    ensures KingNeighbours(dim, p.src, p.dst)
  {
    if k > 0 {
      var a, b := OffsetPairs(dim, row, col, k - 1), OffsetRowPairs(dim, row, col, k - 2, 3);
      InConcat(p, a, b);
      if p in a {
        OffsetPairsSound(dim, row, col, k - 1, p);
      } else {
        OffsetRowPairsSound(dim, row, col, k - 2, 3, p);
      }
    }
  }

  /** The i-th of the neighbour pairs of a row's first k cells is the j-th pair of one of those cells. */
  lemma {:induction false} RowNeighbourOrigin(dim: nat, row: nat, k: nat, i: nat) returns (col: nat, j: nat)
    requires i < |RowNeighbourPairs(dim, row, k)|
    ensures col < k && j < |CellNeighbourPairs(dim, row, col)| && RowNeighbourPairs(dim, row, k)[i] == CellNeighbourPairs(dim, row, col)[j]
  {
    if k > 0 {
      var a := RowNeighbourPairs(dim, row, k - 1);
      RowNeighbourPairsNext(dim, row, k - 1);
      AppendIndex(a, CellNeighbourPairs(dim, row, k - 1), i);
      if i < |a| {
        col, j := RowNeighbourOrigin(dim, row, k - 1, i);
      } else {
        col, j := k - 1, i - |a|;
      }
    }
  }

  /** The i-th of the neighbour pairs of the first k rows is the j-th pair of one of their cells. */
  lemma {:induction false} GridNeighbourOrigin(dim: nat, k: nat, i: nat) returns (row: nat, col: nat, j: nat)
    requires i < |GridNeighbourPairs(dim, k)|
    ensures row < k && col < dim && j < |CellNeighbourPairs(dim, row, col)|
    ensures GridNeighbourPairs(dim, k)[i] == CellNeighbourPairs(dim, row, col)[j]
  {
    if k > 0 {
      var a := GridNeighbourPairs(dim, k - 1);
      GridNeighbourPairsNext(dim, k - 1);
      AppendIndex(a, RowNeighbourPairs(dim, k - 1, dim), i);
      if i < |a| {
        row, col, j := GridNeighbourOrigin(dim, k - 1, i);
      } else {
        row := k - 1;
        col, j := RowNeighbourOrigin(dim, k - 1, dim, i - |a|);
      }
    }
  }

  lemma {:induction false} OffsetRowPairsHave(dim: nat, row: nat, col: nat, dy: int, k: nat, dx: int, p: ConnectionPolicy)
    requires -1 <= dx && dx + 2 <= k && p in OffsetPair(dim, row, col, dy, dx)
    ensures p in OffsetRowPairs(dim, row, col, dy, k)
  {
    if k > 0 {
      var a, b := OffsetRowPairs(dim, row, col, dy, k - 1), OffsetPair(dim, row, col, dy, k - 2);
      if dx + 2 < k {
        OffsetRowPairsHave(dim, row, col, dy, k - 1, dx, p);
        InLeft(p, a, b);
      } else {
        InRight(p, a, b);
      }
    }
  }

  lemma {:induction false} OffsetPairsHave(dim: nat, row: nat, col: nat, k: nat, dy: int, p: ConnectionPolicy)
    requires -1 <= dy && dy + 2 <= k && p in OffsetRowPairs(dim, row, col, dy, 3)
    ensures p in OffsetPairs(dim, row, col, k)
  {
    if k > 0 {
      var a, b := OffsetPairs(dim, row, col, k - 1), OffsetRowPairs(dim, row, col, k - 2, 3);
      if dy + 2 < k {
        OffsetPairsHave(dim, row, col, k - 1, dy, p);
        InLeft(p, a, b);
      } else {
        InRight(p, a, b);
      }
    }
  }

  lemma {:induction false} RowNeighbourPairsHave(dim: nat, row: nat, k: nat, col: nat, p: ConnectionPolicy)
    requires col < k && p in CellNeighbourPairs(dim, row, col)
    ensures p in RowNeighbourPairs(dim, row, k)
  {
    if k > 0 {
      var a := RowNeighbourPairs(dim, row, k - 1);
      var b := CellNeighbourPairs(dim, row, k - 1);
      if col < k - 1 {
        RowNeighbourPairsHave(dim, row, k - 1, col, p);
        InLeft(p, a, b);
      } else {
        InRight(p, a, b);
      }
    }
  }

  lemma {:induction false} GridNeighbourPairsHave(dim: nat, k: nat, row: nat, p: ConnectionPolicy)
    requires row < k && p in RowNeighbourPairs(dim, row, dim)
    ensures p in GridNeighbourPairs(dim, k)
  {
    if k > 0 {
      var a := GridNeighbourPairs(dim, k - 1);
      var b := RowNeighbourPairs(dim, k - 1, dim);
      if row < k - 1 {
        GridNeighbourPairsHave(dim, k - 1, row, p);
        InLeft(p, a, b);
      } else {
        InRight(p, a, b);
      }
    }
  }

  /** The pair toward another cell of the grid at most one row and one column away is among the neighbour pairs. */
  lemma OffsetInNeighbourPairs(dim: nat, row: nat, col: nat, dy: int, dx: int)
    requires row < dim && col < dim && -1 <= dy <= 1 && -1 <= dx <= 1 && !(dy == 0 && dx == 0)
    requires 0 <= row + dy < dim && 0 <= col + dx < dim
    ensures ConnectionPolicy(Id(dim, row, col), Id(dim, row + dy, col + dx)) in NeighbourPairs(dim)
  {
    var p := ConnectionPolicy(Id(dim, row, col), Id(dim, row + dy, col + dx));
    assert p in OffsetPair(dim, row, col, dy, dx);
    OffsetRowPairsHave(dim, row, col, dy, 3, dx, p);
    OffsetPairsHave(dim, row, col, 3, dy, p);
    RowNeighbourPairsHave(dim, row, dim, col, p);
    GridNeighbourPairsHave(dim, dim, row, p);
  }

  /** Every pair of neighbours is among the neighbour pairs. */
  lemma NeighbourListed(dim: nat, p: ConnectionPolicy)
    requires KingNeighbours(dim, p.src, p.dst)
    ensures p in NeighbourPairs(dim)
  {
    Coords(dim, p.src);
    Coords(dim, p.dst);
    var row, col := Row(dim, p.src), Col(dim, p.src);
    var dy, dx := Row(dim, p.dst) - row, Col(dim, p.dst) - col;
    assert p == ConnectionPolicy(Id(dim, row, col), Id(dim, row + dy, col + dx));
    OffsetInNeighbourPairs(dim, row, col, dy, dx);
  }

  /** The neighbour pairs are exactly the ordered pairs of neighbouring cells. */
  lemma NeighbourPairsExact(dim: nat)
    ensures forall p :: p in NeighbourPairs(dim) <==> KingNeighbours(dim, p.src, p.dst)
  {
    forall p | p in NeighbourPairs(dim)
      ensures KingNeighbours(dim, p.src, p.dst)
    {
      var i :| 0 <= i < |NeighbourPairs(dim)| && NeighbourPairs(dim)[i] == p;
      var row, col, j := GridNeighbourOrigin(dim, dim, i);
      OffsetPairsSound(dim, row, col, 3, p);
    }
    forall p: ConnectionPolicy | KingNeighbours(dim, p.src, p.dst)
      ensures p in NeighbourPairs(dim)
    {
      NeighbourListed(dim, p);
    }
  }

  // ---------------------------------------------------------------------------
  // No neighbour pair twice

  /** Each pair toward the row dy away goes in one of the columns tried. */
  lemma {:induction false} OffsetRowPairOrigin(dim: nat, row: nat, col: nat, dy: int, k: nat, p: ConnectionPolicy) returns (dx: int)
    requires p in OffsetRowPairs(dim, row, col, dy, k)
    ensures -1 <= dx < k - 1 && p in OffsetPair(dim, row, col, dy, dx)
  {
    if k > 0 {
      var a, b := OffsetRowPairs(dim, row, col, dy, k - 1), OffsetPair(dim, row, col, dy, k - 2);
      InConcat(p, a, b);
      if p in a {
        dx := OffsetRowPairOrigin(dim, row, col, dy, k - 1, p);
      } else {
        dx := k - 2;
      }
    }
  }

  /** Each pair of a cell goes toward one of the offsets tried. */
  lemma {:induction false} OffsetPairOrigin(dim: nat, row: nat, col: nat, k: nat, p: ConnectionPolicy) returns (dy: int, dx: int)
    requires p in OffsetPairs(dim, row, col, k)
    ensures -1 <= dy < k - 1 && -1 <= dx <= 1 && p in OffsetPair(dim, row, col, dy, dx)
  {
    if k > 0 {
      if p in OffsetPairs(dim, row, col, k - 1) {
        dy, dx := OffsetPairOrigin(dim, row, col, k - 1, p);
      } else {
        dy, dx := LastOffsetRowOrigin(dim, row, col, k, p);
      }
    }
  }

  /** A pair of a cell that is not toward the first k - 1 offset rows is toward row k - 2. */
  lemma LastOffsetRowOrigin(dim: nat, row: nat, col: nat, k: nat, p: ConnectionPolicy) returns (dy: int, dx: int)
    requires k > 0 && p in OffsetPairs(dim, row, col, k) && p !in OffsetPairs(dim, row, col, k - 1)
    ensures dy == k - 2 && -1 <= dx <= 1 && p in OffsetPair(dim, row, col, dy, dx)
  {
    OffsetPairsNext(dim, row, col, k - 1);
    dy := k - 2;
    dx := OffsetRowPairOrigin(dim, row, col, k - 2, 3, p);
  }

  /** Pairs of one cell toward two different offsets reach two different cells. */
  lemma OffsetsApart(dim: nat, row: nat, col: nat, dy: int, dx: int, dy': int, dx': int, p: ConnectionPolicy, q: ConnectionPolicy)
    requires dy != dy' || dx != dx'
    requires p in OffsetPair(dim, row, col, dy, dx) && q in OffsetPair(dim, row, col, dy', dx')
    ensures p.dst != q.dst
  {
    Cell(dim, row + dy, col + dx);
    Cell(dim, row + dy', col + dx');
  }

  lemma {:induction false} OffsetRowPairsDistinct(dim: nat, row: nat, col: nat, dy: int, k: nat)
    ensures Distinct(OffsetRowPairs(dim, row, col, dy, k))
  {
    if k > 0 {
      var a, b := OffsetRowPairs(dim, row, col, dy, k - 1), OffsetPair(dim, row, col, dy, k - 2);
      OffsetRowPairsDistinct(dim, row, col, dy, k - 1);
      forall p, q | p in a && q in b
        ensures p != q
      {
        var dx := OffsetRowPairOrigin(dim, row, col, dy, k - 1, p);
        OffsetsApart(dim, row, col, dy, dx, dy, k - 2, p, q);
      }
      DistinctAppend(a, b);
    }
  }

  lemma {:induction false} OffsetPairsDistinct(dim: nat, row: nat, col: nat, k: nat)
    ensures Distinct(OffsetPairs(dim, row, col, k))
  {
    if k > 0 {
      var a, b := OffsetPairs(dim, row, col, k - 1), OffsetRowPairs(dim, row, col, k - 2, 3);
      OffsetPairsDistinct(dim, row, col, k - 1);
      OffsetRowPairsDistinct(dim, row, col, k - 2, 3);
      forall p, q | p in a && q in b
        ensures p != q
      {
        var dy, dx := OffsetPairOrigin(dim, row, col, k - 1, p);
        var dx' := OffsetRowPairOrigin(dim, row, col, k - 2, 3, q);
        OffsetsApart(dim, row, col, dy, dx, k - 2, dx', p, q);
      }
      DistinctAppend(a, b);
    }
  }

  /** The pairs of a cell start at that cell. */
  lemma OffsetPairsFrom(dim: nat, row: nat, col: nat, k: nat, p: ConnectionPolicy)
    requires p in OffsetPairs(dim, row, col, k)
    ensures p.src == Id(dim, row, col)
  {
    var dy, dx := OffsetPairOrigin(dim, row, col, k, p);
  }

  /** The pairs of a row's first k cells start at the ids of those cells. */
  lemma {:induction false} RowNeighbourFrom(dim: nat, row: nat, k: nat, p: ConnectionPolicy)
    requires p in RowNeighbourPairs(dim, row, k)
    ensures Id(dim, row, 0) <= p.src < Id(dim, row, 0) + k
  {
    if k > 0 {
      var a, b := RowNeighbourPairs(dim, row, k - 1), CellNeighbourPairs(dim, row, k - 1);
      InConcat(p, a, b);
      if p in a {
        RowNeighbourFrom(dim, row, k - 1, p);
      } else {
        OffsetPairsFrom(dim, row, k - 1, 3, p);
        IdColumnShift(dim, row, 0, k - 1);
      }
    }
  }

  /** A pair of a row's first k cells and a pair of cell k start at different cells. */
  lemma CellApart(dim: nat, row: nat, k: nat, p: ConnectionPolicy, q: ConnectionPolicy)
    requires p in RowNeighbourPairs(dim, row, k) && q in CellNeighbourPairs(dim, row, k)
    ensures p.src != q.src
  {
    IdColumnShift(dim, row, 0, k);
    var first := Id(dim, row, 0);
    RowNeighbourFrom(dim, row, k, p);
    assert p.src < first + k;
    OffsetPairsFrom(dim, row, k, 3, q);
    assert q.src == first + k;
  }

  /** The pairs of a row's first k cells and of cell k, one after the other, hold no pair twice. */
  lemma CellsApart(dim: nat, row: nat, k: nat)
    requires Distinct(RowNeighbourPairs(dim, row, k)) && Distinct(CellNeighbourPairs(dim, row, k))
    ensures Distinct(RowNeighbourPairs(dim, row, k) + CellNeighbourPairs(dim, row, k))
  {
    var a, b := RowNeighbourPairs(dim, row, k), CellNeighbourPairs(dim, row, k);
    forall p, q | p in a && q in b
      ensures p != q
    {
      CellApart(dim, row, k, p, q);
    }
    DistinctAppend(a, b);
  }

  lemma {:induction false} RowNeighbourPairsDistinct(dim: nat, row: nat, k: nat)
    ensures Distinct(RowNeighbourPairs(dim, row, k))
  {
    if k > 0 {
      RowNeighbourPairsDistinct(dim, row, k - 1);
      OffsetPairsDistinct(dim, row, k - 1, 3);
      CellsApart(dim, row, k - 1);
      RowNeighbourPairsNext(dim, row, k - 1);
    }
  }

  /** The pairs of the first k rows start at ids below the first id of row k. */
  lemma GridNeighbourFrom(dim: nat, k: nat, p: ConnectionPolicy)
    requires p in GridNeighbourPairs(dim, k)
    ensures p.src < Id(dim, k, 0)
  {
    var i :| 0 <= i < |GridNeighbourPairs(dim, k)| && GridNeighbourPairs(dim, k)[i] == p;
    var row, col, j := GridNeighbourOrigin(dim, k, i);
    OffsetPairsFrom(dim, row, col, 3, p);
    IdBelowRow(dim, row, col, k);
  }

  /** The pairs of the first k rows and of row k, one after the other, hold no pair twice. */
  lemma NeighbourRowsApart(dim: nat, k: nat)
    requires Distinct(GridNeighbourPairs(dim, k)) && Distinct(RowNeighbourPairs(dim, k, dim))
    ensures Distinct(GridNeighbourPairs(dim, k) + RowNeighbourPairs(dim, k, dim))
  {
    var a, b := GridNeighbourPairs(dim, k), RowNeighbourPairs(dim, k, dim);
    forall p, q | p in a && q in b
      ensures p != q
    {
      GridNeighbourFrom(dim, k, p);
      RowNeighbourFrom(dim, k, dim, q);
    }
    DistinctAppend(a, b);
  }

  lemma {:induction false} GridNeighbourPairsDistinct(dim: nat, k: nat)
    ensures Distinct(GridNeighbourPairs(dim, k))
  {
    if k > 0 {
      GridNeighbourPairsDistinct(dim, k - 1);
      RowNeighbourPairsDistinct(dim, k - 1, dim);
      NeighbourRowsApart(dim, k - 1);
      GridNeighbourPairsNext(dim, k - 1);
    }
  }

  /** No neighbour pair is listed twice: each ordered pair of neighbouring cells appears exactly once. */
  lemma NeighbourPairsOnce(dim: nat)
    ensures forall i, j :: 0 <= i < j < |NeighbourPairs(dim)| ==> NeighbourPairs(dim)[i] != NeighbourPairs(dim)[j]
    ensures forall p: ConnectionPolicy :: KingNeighbours(dim, p.src, p.dst) ==> multiset(NeighbourPairs(dim))[p] == 1
  {
    GridNeighbourPairsDistinct(dim, dim);
    NeighbourPairsExact(dim);
    forall p: ConnectionPolicy | KingNeighbours(dim, p.src, p.dst)
      ensures multiset(NeighbourPairs(dim))[p] == 1
    {
      DistinctOnce(NeighbourPairs(dim), p);
    }
  }

  /** Each ordered pair of neighbouring cells is requested once, and a second time from the mirrored half when bidirectional. */
  lemma KingPoliciesTwice(dim: nat, bidirectional: bool)
    ensures forall p: ConnectionPolicy :: KingNeighbours(dim, p.src, p.dst) ==>
      multiset(KingPolicies(dim, bidirectional))[p] == if bidirectional then 2 else 1
  {
    var fwd := NeighbourPairs(dim);
    var back := if bidirectional then ReversedAll(fwd) else [];
    NeighbourPairsOnce(dim);
    GridNeighbourPairsDistinct(dim, dim);
    ReversedAllDistinct(fwd);
    forall p: ConnectionPolicy | KingNeighbours(dim, p.src, p.dst)
      ensures multiset(KingPolicies(dim, bidirectional))[p] == if bidirectional then 2 else 1
    {
      assert multiset(fwd + back) == multiset(fwd) + multiset(back);
      if bidirectional {
        KingNeighboursSymmetric(dim, p.src, p.dst);
        var i :| 0 <= i < |fwd| && fwd[i] == Reversed(p);
        assert back[i] == p;
        DistinctOnce(back, p);
      }
    }
  }

  /**
   * With or without the mirrored half, the policies hold exactly the ordered
   * pairs of neighbouring cells; when bidirectional the list is twice as
   * long and its second half reverses its first, element by element.
   */
  lemma KingPoliciesExact(dim: nat, bidirectional: bool)
    ensures forall p :: p in KingPolicies(dim, bidirectional) <==> KingNeighbours(dim, p.src, p.dst)
    ensures |KingPolicies(dim, bidirectional)| == (if bidirectional then 2 else 1) * |NeighbourPairs(dim)|
    ensures bidirectional ==> forall i :: 0 <= i < |NeighbourPairs(dim)| ==>
      KingPolicies(dim, bidirectional)[|NeighbourPairs(dim)| + i] == Reversed(NeighbourPairs(dim)[i])
  {
    var fwd := NeighbourPairs(dim);
    NeighbourPairsExact(dim);
    forall p | p in KingPolicies(dim, bidirectional)
      ensures KingNeighbours(dim, p.src, p.dst)
    {
      InConcat(p, fwd, if bidirectional then ReversedAll(fwd) else []);
      if bidirectional && p in ReversedAll(fwd) {
        var i :| 0 <= i < |ReversedAll(fwd)| && ReversedAll(fwd)[i] == p;
        assert Reversed(p) == fwd[i];
        KingNeighboursSymmetric(dim, p.dst, p.src);
      }
    }
  }

  /** Over bidirectional links every policy is carried by a recorded link. */
  lemma KingPoliciesLinked(dim: nat, bidirectional: bool, bandwidth: real, latency: real)
    ensures forall p :: p in KingPolicies(dim, bidirectional) ==> Linked(WireAll(LinkPairs(dim), bandwidth, latency, true), p.src, p.dst)
  {
    KingPoliciesExact(dim, bidirectional);
    forall p | p in KingPolicies(dim, bidirectional)
      ensures Linked(WireAll(LinkPairs(dim), bandwidth, latency, true), p.src, p.dst)
    {
      NeighboursLinked(dim, bandwidth, latency, p.src, p.dst);
    }
  }

  /** Over bidirectional links, any two neighbours are linked. */
  lemma NeighboursLinked(dim: nat, bandwidth: real, latency: real, a: int, b: int)
    requires KingNeighbours(dim, a, b)
    ensures Linked(WireAll(LinkPairs(dim), bandwidth, latency, true), a, b)
  {
    if a < b {
      NeighbourLinked(dim, ConnectionPolicy(a, b));
      WiredPairLinked(LinkPairs(dim), bandwidth, latency, true, a, b);
    } else {
      NeighbourLinked(dim, ConnectionPolicy(b, a));
      WiredPairLinked(LinkPairs(dim), bandwidth, latency, true, b, a);
    }
  }

  // ---------------------------------------------------------------------------
  // Routing

  /** Hop k written from the coordinates (sx, sy) of the source and (tx, ty) of the destination: each moves toward its target. */
  function KingHop(dim: nat, sx: int, sy: int, tx: int, ty: int, k: nat): int {
    Toward(sy, ty, k) * dim + Toward(sx, tx, k)
  }

  /** Hops 0 .. n-1, in order. */
  function KingHops(dim: nat, sx: int, sy: int, tx: int, ty: int, n: nat): (r: Route)
    ensures |r| == n
  {
    if n == 0 then [] else KingHops(dim, sx, sy, tx, ty, n - 1) + [KingHop(dim, sx, sy, tx, ty, n - 1)]
  }

  /** The Chebyshev distance between two cells: the larger of the column and row distances. */
  function Chebyshev(dim: nat, a: int, b: int): nat
    requires dim > 0
  {
    Max(Abs(Col(dim, b) - Col(dim, a)), Abs(Row(dim, b) - Row(dim, a)))
  }

  /** The route: from the coordinates of src, both coordinates step toward those of dest, one cell per hop. */
  function KingRoute(dim: nat, src: int, dest: int): Route
    requires dim > 0
  {
    KingHops(dim, Col(dim, src), Row(dim, src), Col(dim, dest), Row(dim, dest), Chebyshev(dim, src, dest) + 1)
  }

  lemma {:induction false} KingHopsAt(dim: nat, sx: int, sy: int, tx: int, ty: int, n: nat, k: nat)
    requires k < n
    ensures KingHops(dim, sx, sy, tx, ty, n)[k] == KingHop(dim, sx, sy, tx, ty, k)
  {
    if k < n - 1 {
      KingHopsAt(dim, sx, sy, tx, ty, n - 1, k);
    }
  }

  lemma KingHopsNext(dim: nat, sx: int, sy: int, tx: int, ty: int, route: Route, idx: int)
    requires route == KingHops(dim, sx, sy, tx, ty, |route|)
    requires idx == KingHop(dim, sx, sy, tx, ty, |route|)
    ensures route + [idx] == KingHops(dim, sx, sy, tx, ty, |route| + 1)
  {
  }

  /** Every hop is a cell of the grid, at the row and column the closed form gives. */
  lemma KingHopCell(dim: nat, src: int, dest: int, k: nat)
    requires dim > 0 && 0 <= src < dim * dim && 0 <= dest < dim * dim && k <= Chebyshev(dim, src, dest)
    ensures 0 <= KingRoute(dim, src, dest)[k] < dim * dim
    ensures Row(dim, KingRoute(dim, src, dest)[k]) == Toward(Row(dim, src), Row(dim, dest), k)
    ensures Col(dim, KingRoute(dim, src, dest)[k]) == Toward(Col(dim, src), Col(dim, dest), k)
  {
    var sx, sy, tx, ty := Col(dim, src), Row(dim, src), Col(dim, dest), Row(dim, dest);
    KingHopsAt(dim, sx, sy, tx, ty, Chebyshev(dim, src, dest) + 1, k);
    Coords(dim, src);
    Coords(dim, dest);
    TowardBetween(sx, tx, k);
    TowardBetween(sy, ty, k);
    var row, col := Toward(sy, ty, k), Toward(sx, tx, k);
    IdIsRowMajor(dim, row, col);
    Cell(dim, row, col);
  }

  /** A cell of the grid is the one at its own row and column. */
  lemma SameCell(dim: nat, a: int, b: int)
    requires dim > 0 && 0 <= a < dim * dim && 0 <= b < dim * dim
    requires Row(dim, a) == Row(dim, b) && Col(dim, a) == Col(dim, b)
    ensures a == b
  {
    Coords(dim, a);
    Coords(dim, b);
  }

  /**
   * The route starts at src, ends at dest, has max(|dx|, |dy|) + 1 hops (so
   * it is [src] when src == dest) and stays inside the grid.
   */
  lemma KingRouteEnds(dim: nat, src: int, dest: int)
    requires dim > 0 && 0 <= src < dim * dim && 0 <= dest < dim * dim
    ensures |KingRoute(dim, src, dest)| == Chebyshev(dim, src, dest) + 1
    ensures KingRoute(dim, src, dest)[0] == src
    ensures KingRoute(dim, src, dest)[|KingRoute(dim, src, dest)| - 1] == dest
    ensures src == dest ==> KingRoute(dim, src, dest) == [src]
    ensures HopsWithin(KingRoute(dim, src, dest), dim * dim)
  {
    var r := KingRoute(dim, src, dest);
    var n := Chebyshev(dim, src, dest);
    forall k | 0 <= k < |r|
      ensures 0 <= r[k] < dim * dim
    {
      KingHopCell(dim, src, dest, k);
    }
    KingHopCell(dim, src, dest, 0);
    TowardStep(Col(dim, src), Col(dim, dest), 0);
    TowardStep(Row(dim, src), Row(dim, dest), 0);
    SameCell(dim, r[0], src);
    KingHopCell(dim, src, dest, n);
    TowardBetween(Col(dim, src), Col(dim, dest), n);
    TowardBetween(Row(dim, src), Row(dim, dest), n);
    SameCell(dim, r[n], dest);
    if src == dest {
      assert |r| == 1;
    }
  }

  /**
   * Step k moves each coordinate one unit toward its target while it has not
   * reached it, and leaves it alone afterwards.
   */
  lemma KingRouteStep(dim: nat, src: int, dest: int, k: nat)
    requires dim > 0 && 0 <= src < dim * dim && 0 <= dest < dim * dim && k < Chebyshev(dim, src, dest)
    ensures Col(dim, KingRoute(dim, src, dest)[k + 1])
      == Col(dim, KingRoute(dim, src, dest)[k]) + (if k < Abs(Col(dim, dest) - Col(dim, src)) then Sign(Col(dim, dest) - Col(dim, src)) else 0)
    ensures Row(dim, KingRoute(dim, src, dest)[k + 1])
      == Row(dim, KingRoute(dim, src, dest)[k]) + (if k < Abs(Row(dim, dest) - Row(dim, src)) then Sign(Row(dim, dest) - Row(dim, src)) else 0)
  {
    KingHopCell(dim, src, dest, k);
    KingHopCell(dim, src, dest, k + 1);
    TowardStep(Col(dim, src), Col(dim, dest), k);
    TowardStep(Row(dim, src), Row(dim, dest), k);
    TowardBetween(Col(dim, src), Col(dim, dest), k);
    TowardBetween(Row(dim, src), Row(dim, dest), k);
  }

  /** Consecutive hops are neighbours: distinct, and at most one row and one column apart. */
  lemma KingRouteAdjacent(dim: nat, src: int, dest: int)
    requires dim > 0 && 0 <= src < dim * dim && 0 <= dest < dim * dim
    ensures forall k :: 0 <= k < |KingRoute(dim, src, dest)| - 1 ==>
      KingNeighbours(dim, KingRoute(dim, src, dest)[k], KingRoute(dim, src, dest)[k + 1])
  {
    var r := KingRoute(dim, src, dest);
    forall k | 0 <= k < |r| - 1
      ensures KingNeighbours(dim, r[k], r[k + 1])
    {
      KingHopNeighbours(dim, src, dest, k);
    }
  }

  lemma KingHopNeighbours(dim: nat, src: int, dest: int, k: nat)
    requires dim > 0 && 0 <= src < dim * dim && 0 <= dest < dim * dim && k < Chebyshev(dim, src, dest)
    ensures KingNeighbours(dim, KingRoute(dim, src, dest)[k], KingRoute(dim, src, dest)[k + 1])
  {
    var r := KingRoute(dim, src, dest);
    KingHopCell(dim, src, dest, k);
    KingHopCell(dim, src, dest, k + 1);
    KingRouteStep(dim, src, dest, k);
    if r[k] == r[k + 1] {
      assert false;
    }
  }

  /** With bidirectional links every hop of a route is carried by a recorded link. */
  lemma KingRouteFollowsLinks(dim: nat, bandwidth: real, latency: real, src: int, dest: int)
    requires dim > 0 && 0 <= src < dim * dim && 0 <= dest < dim * dim
    ensures FollowsLinks(WireAll(LinkPairs(dim), bandwidth, latency, true), KingRoute(dim, src, dest))
  {
    var r := KingRoute(dim, src, dest);
    KingRouteAdjacent(dim, src, dest);
    forall k | 0 <= k < |r| - 1
      ensures Linked(WireAll(LinkPairs(dim), bandwidth, latency, true), r[k], r[k + 1])
    {
      NeighboursLinked(dim, bandwidth, latency, r[k], r[k + 1]);
    }
  }

  /** The route from the walk's coordinates is the route between the ids. */
  lemma KingRouteByCoords(dim: nat, src: int, dest: int, sx: int, sy: int, tx: int, ty: int)
    requires dim > 0
    requires sx == Col(dim, src) && sy == Row(dim, src) && tx == Col(dim, dest) && ty == Row(dim, dest)
    ensures KingRoute(dim, src, dest) == KingHops(dim, sx, sy, tx, ty, Max(Abs(tx - sx), Abs(ty - sy)) + 1)
  {
  }

  // ---------------------------------------------------------------------------
  // The loops

  /** One connection of the constructor's grid loop: from cell (row, col) to the cell dy rows down and dx columns across, if it exists. */
  method ConnectOffset(registry: Registry, dim: nat, row: nat, col: nat, current: int, dy: nat, dx: int,
                       bandwidth: real, latency: real, bidirectional: bool)
    requires row < dim && col < dim && current == row * dim + col && registry.devicesCount == Square(dim)
    modifies registry
    ensures registry.links == old(registry.links) + WireAll(OffsetLink(dim, row, col, dy, dx), bandwidth, latency, bidirectional)
  {
    if row + dy < dim && 0 <= col + dx < dim {
      var neighbour := (row + dy) * dim + (col + dx);
      SquareIsProduct(dim);
      Cell(dim, row, col);
      Cell(dim, row + dy, col + dx);
      IdIsRowMajor(dim, row, col);
      IdIsRowMajor(dim, row + dy, col + dx);
      registry.Connect(current, neighbour, bandwidth, latency, bidirectional);
    }
  }

  /** Wiring one more direction of a cell appends that direction's link. */
  lemma CellLinksNext(before: seq<Link>, mid: seq<Link>, dim: nat, row: nat, col: nat, k: nat,
                      bandwidth: real, latency: real, bidirectional: bool)
    requires mid == before + WireAll(CellLinks(dim, row, col, k), bandwidth, latency, bidirectional)
    ensures mid + WireAll(OffsetLink(dim, row, col, LinkRows(k), LinkCols(k)), bandwidth, latency, bidirectional)
      == before + WireAll(CellLinks(dim, row, col, k + 1), bandwidth, latency, bidirectional)
  {
    WireAllAppend(CellLinks(dim, row, col, k), OffsetLink(dim, row, col, LinkRows(k), LinkCols(k)), bandwidth, latency, bidirectional);
    AppendAssoc(before, WireAll(CellLinks(dim, row, col, k), bandwidth, latency, bidirectional),
                WireAll(OffsetLink(dim, row, col, LinkRows(k), LinkCols(k)), bandwidth, latency, bidirectional));
  }

  /** A cell of the last row has at most its right link. */
  lemma LastRowLinks(dim: nat, row: nat, col: nat)
    requires row + 1 >= dim
    ensures CellLinkPairs(dim, row, col) == CellLinks(dim, row, col, 1)
  {
    assert CellLinks(dim, row, col, 2) == CellLinks(dim, row, col, 1) + [];
    assert CellLinks(dim, row, col, 3) == CellLinks(dim, row, col, 2) + [];
    assert CellLinks(dim, row, col, 4) == CellLinks(dim, row, col, 3) + [];
  }

  /** The body of the constructor's grid loop: connects cell (row, col) right, down, down-right and down-left, where those exist. */
  method ConnectCell(registry: Registry, dim: nat, row: nat, col: nat, bandwidth: real, latency: real, bidirectional: bool)
    requires row < dim && col < dim && registry.devicesCount == Square(dim)
    modifies registry
    ensures registry.links == old(registry.links) + WireAll(CellLinkPairs(dim, row, col), bandwidth, latency, bidirectional)
  {
    ghost var before := registry.links;
    AppendEmpty(before);
    var current := row * dim + col;
    ConnectOffset(registry, dim, row, col, current, 0, 1, bandwidth, latency, bidirectional);
    CellLinksNext(before, before, dim, row, col, 0, bandwidth, latency, bidirectional);
    if row + 1 < dim {
      ghost var mid := registry.links;
      ConnectOffset(registry, dim, row, col, current, 1, 0, bandwidth, latency, bidirectional);
      CellLinksNext(before, mid, dim, row, col, 1, bandwidth, latency, bidirectional);
      mid := registry.links;
      ConnectOffset(registry, dim, row, col, current, 1, 1, bandwidth, latency, bidirectional);
      CellLinksNext(before, mid, dim, row, col, 2, bandwidth, latency, bidirectional);
      mid := registry.links;
      ConnectOffset(registry, dim, row, col, current, 1, -1, bandwidth, latency, bidirectional);
      CellLinksNext(before, mid, dim, row, col, 3, bandwidth, latency, bidirectional);
    } else {
      LastRowLinks(dim, row, col);
    }
  }

  /** The constructor's grid loop over the cells of one row. */
  method ConnectRow(registry: Registry, dim: nat, row: nat, bandwidth: real, latency: real, bidirectional: bool)
    requires row < dim && registry.devicesCount == Square(dim)
    modifies registry
    ensures registry.links == old(registry.links) + WireAll(RowLinkPairs(dim, row, dim), bandwidth, latency, bidirectional)
  {
    ghost var before := registry.links;
    var col: nat := 0;
    while col < dim
      invariant col <= dim
      invariant registry.links == before + WireAll(RowLinkPairs(dim, row, col), bandwidth, latency, bidirectional)
    {
      ConnectCell(registry, dim, row, col, bandwidth, latency, bidirectional);
      RowLinksNext(before, dim, row, col, bandwidth, latency, bidirectional);
      col := col + 1;
    }
  }

  /** Wiring one more cell appends that cell's links. */
  lemma RowLinksNext(before: seq<Link>, dim: nat, row: nat, col: nat, bandwidth: real, latency: real, bidirectional: bool)
    ensures before + WireAll(RowLinkPairs(dim, row, col + 1), bandwidth, latency, bidirectional)
      == before + WireAll(RowLinkPairs(dim, row, col), bandwidth, latency, bidirectional) + WireAll(CellLinkPairs(dim, row, col), bandwidth, latency, bidirectional)
  {
    AppendAssoc(before, WireAll(RowLinkPairs(dim, row, col), bandwidth, latency, bidirectional), WireAll(CellLinkPairs(dim, row, col), bandwidth, latency, bidirectional));
    WireAllAppend(RowLinkPairs(dim, row, col), CellLinkPairs(dim, row, col), bandwidth, latency, bidirectional);
    RowLinkPairsNext(dim, row, col);
  }

  /** Wiring one more row appends that row's links. */
  lemma GridLinksNext(before: seq<Link>, dim: nat, row: nat, bandwidth: real, latency: real, bidirectional: bool)
    ensures before + WireAll(GridLinkPairs(dim, row + 1), bandwidth, latency, bidirectional)
      == before + WireAll(GridLinkPairs(dim, row), bandwidth, latency, bidirectional) + WireAll(RowLinkPairs(dim, row, dim), bandwidth, latency, bidirectional)
  {
    AppendAssoc(before, WireAll(GridLinkPairs(dim, row), bandwidth, latency, bidirectional), WireAll(RowLinkPairs(dim, row, dim), bandwidth, latency, bidirectional));
    WireAllAppend(GridLinkPairs(dim, row), RowLinkPairs(dim, row, dim), bandwidth, latency, bidirectional);
    GridLinkPairsNext(dim, row);
  }

  /** The constructor's grid loop: connects every cell to the neighbours right of and below it, row by row. */
  method ConnectGrid(registry: Registry, dim: nat, bandwidth: real, latency: real, bidirectional: bool)
    requires registry.devicesCount == Square(dim)
    modifies registry
    ensures registry.links == old(registry.links) + WireAll(LinkPairs(dim), bandwidth, latency, bidirectional)
  {
    ghost var before := registry.links;
    var row: nat := 0;
    while row < dim
      invariant row <= dim
      invariant registry.links == before + WireAll(GridLinkPairs(dim, row), bandwidth, latency, bidirectional)
    {
      ConnectRow(registry, dim, row, bandwidth, latency, bidirectional);
      GridLinksNext(before, dim, row, bandwidth, latency, bidirectional);
      row := row + 1;
    }
  }

  /** The body of the innermost policy loop: skips the cell itself and offsets that leave the grid. */
  method AppendOffset(dim: nat, row: nat, col: nat, current: int, dy: int, dx: int, policies: seq<ConnectionPolicy>)
    returns (extended: seq<ConnectionPolicy>)
    requires current == row * dim + col
    ensures extended == policies + OffsetPair(dim, row, col, dy, dx)
  {
    extended := policies;
    if dx == 0 && dy == 0 {
      return;
    }
    var newRow := row + dy;
    var newCol := col + dx;
    if newRow >= 0 && newRow < dim && newCol >= 0 && newCol < dim {
      var neighbor := newRow * dim + newCol;
      IdIsRowMajor(dim, row, col);
      IdIsRowMajor(dim, newRow, newCol);
      extended := extended + [ConnectionPolicy(current, neighbor)];
    }
  }

  /** The dx loop: the pairs toward the cells dy rows away, for dx from -1 to 1. */
  method AppendOffsetRow(dim: nat, row: nat, col: nat, current: int, dy: int, policies: seq<ConnectionPolicy>)
    returns (extended: seq<ConnectionPolicy>)
    requires current == row * dim + col
    ensures extended == policies + OffsetRowPairs(dim, row, col, dy, 3)
  {
    extended := policies;
    var dx := -1;
    while dx <= 1
      invariant -1 <= dx <= 2
      invariant extended == policies + OffsetRowPairs(dim, row, col, dy, dx + 1)
    {
      AppendAssoc(policies, OffsetRowPairs(dim, row, col, dy, dx + 1), OffsetPair(dim, row, col, dy, dx));
      extended := AppendOffset(dim, row, col, current, dy, dx, extended);
      OffsetRowPairsNext(dim, row, col, dy, dx + 1);
      dx := dx + 1;
    }
  }

  /** The dy loop: the pairs from cell (row, col) to each of its neighbours. */
  method AppendCellNeighbours(dim: nat, row: nat, col: nat, policies: seq<ConnectionPolicy>) returns (extended: seq<ConnectionPolicy>)
    ensures extended == policies + CellNeighbourPairs(dim, row, col)
  {
    var current := row * dim + col;
    extended := policies;
    var dy := -1;
    while dy <= 1
      invariant -1 <= dy <= 2
      invariant extended == policies + OffsetPairs(dim, row, col, dy + 1)
    {
      AppendAssoc(policies, OffsetPairs(dim, row, col, dy + 1), OffsetRowPairs(dim, row, col, dy, 3));
      extended := AppendOffsetRow(dim, row, col, current, dy, extended);
      OffsetPairsNext(dim, row, col, dy + 1);
      dy := dy + 1;
    }
  }

  /** The col loop: the neighbour pairs of every cell of one row. */
  method AppendRowNeighbours(dim: nat, row: nat, policies: seq<ConnectionPolicy>) returns (extended: seq<ConnectionPolicy>)
    ensures extended == policies + RowNeighbourPairs(dim, row, dim)
  {
    extended := policies;
    var col: nat := 0;
    while col < dim
      invariant col <= dim
      invariant extended == policies + RowNeighbourPairs(dim, row, col)
    {
      AppendAssoc(policies, RowNeighbourPairs(dim, row, col), CellNeighbourPairs(dim, row, col));
      extended := AppendCellNeighbours(dim, row, col, extended);
      RowNeighbourPairsNext(dim, row, col);
      col := col + 1;
    }
  }

  /** The row loop: the neighbour pairs of every cell, row by row. */
  method AppendNeighbourPass(dim: nat, policies: seq<ConnectionPolicy>) returns (extended: seq<ConnectionPolicy>)
    ensures extended == policies + NeighbourPairs(dim)
  {
    extended := policies;
    var row: nat := 0;
    while row < dim
      invariant row <= dim
      invariant extended == policies + GridNeighbourPairs(dim, row)
    {
      AppendAssoc(policies, GridNeighbourPairs(dim, row), RowNeighbourPairs(dim, row, dim));
      extended := AppendRowNeighbours(dim, row, extended);
      GridNeighbourPairsNext(dim, row);
      row := row + 1;
    }
  }

  /** The mirroring loop: every pair of `policies`, reversed, in the same order. */
  method ReversedCopy(policies: seq<ConnectionPolicy>) returns (reversed: seq<ConnectionPolicy>)
    ensures reversed == ReversedAll(policies)
  {
    reversed := [];
    var i := 0;
    while i < |policies|
      invariant 0 <= i <= |policies|
      invariant |reversed| == i && forall j :: 0 <= j < i ==> reversed[j] == Reversed(policies[j])
    {
      var p := policies[i];
      reversed := reversed + [ConnectionPolicy(p.dst, p.src)];
      i := i + 1;
    }
  }

  /** The step of the route loop along one axis: +1, -1 or 0, toward the target coordinate. */
  method StepToward(cur: int, dest: int) returns (step: int)
    ensures step == Sign(dest - cur)
  {
    step := 0;
    if cur < dest {
      step := 1;
    } else if cur > dest {
      step := -1;
    }
  }

  /** The clamp of the route loop: a coordinate below 0 becomes 0, one at dim or above becomes dim - 1, any other is kept. */
  method Clamp(dim: nat, v: int) returns (c: int)
    requires dim > 0
    ensures 0 <= c < dim
    ensures v < 0 ==> c == 0
    ensures v >= dim ==> c == dim - 1
    ensures 0 <= v < dim ==> c == v
  {
    c := v;
    if c < 0 {
      c := 0;
    } else if c >= dim {
      c := dim - 1;
    }
  }

  /**
   * The route loop: while either coordinate differs from the destination's,
   * moves each one a unit toward it (diagonally while both differ), clamps
   * to the grid and appends the cell reached. The clamps never fire, since
   * each coordinate stays between its start and its target.
   */
  method KingWalk(dim: nat, src: int, srcX: int, srcY: int, destX: int, destY: int) returns (route: Route)
    requires 0 <= srcX < dim && 0 <= srcY < dim && 0 <= destX < dim && 0 <= destY < dim
    requires src == srcY * dim + srcX
    ensures route == KingHops(dim, srcX, srcY, destX, destY, Max(Abs(destX - srcX), Abs(destY - srcY)) + 1)
  {
    ghost var n := Max(Abs(destX - srcX), Abs(destY - srcY));
    var curX := srcX;
    var curY := srcY;
    route := [src];
    while curX != destX || curY != destY
      invariant 1 <= |route| <= n + 1
      invariant curX == Toward(srcX, destX, |route| - 1) && curY == Toward(srcY, destY, |route| - 1)
      invariant route == KingHops(dim, srcX, srcY, destX, destY, |route|)
      decreases n + 1 - |route|
    {
      ghost var k := |route| - 1;
      WalkAxis(dim, srcX, destX, k);
      WalkAxis(dim, srcY, destY, k);
      var stepX := StepToward(curX, destX);
      var stepY := StepToward(curY, destY);
      curX := curX + stepX;
      curY := curY + stepY;
      curX := Clamp(dim, curX);
      curY := Clamp(dim, curY);
      assert curX == Toward(srcX, destX, k + 1) && curY == Toward(srcY, destY, k + 1);
      var idx := CellId(dim, curY, curX);
      KingHopsNext(dim, srcX, srcY, destX, destY, route, idx);
      route := route + [idx];
    }
    TowardBetween(srcX, destX, |route| - 1);
    TowardBetween(srcY, destY, |route| - 1);
  }

  /**
   * Along one axis, the coordinate after step k of the walk is the one
   * after step k moved a unit toward the target, inside the grid; a
   * coordinate that has not reached its target has had fewer than
   * max(|dx|, |dy|) steps.
   */
  lemma WalkAxis(dim: nat, s: int, t: int, k: nat)
    requires 0 <= s < dim && 0 <= t < dim
    ensures Toward(s, t, k + 1) == Toward(s, t, k) + Sign(t - Toward(s, t, k))
    ensures 0 <= Toward(s, t, k + 1) < dim
    ensures Toward(s, t, k) != t ==> k < Abs(t - s)
  {
    TowardBetween(s, t, k);
    TowardBetween(s, t, k + 1);
    TowardStep(s, t, k);
  }

  // ---------------------------------------------------------------------------
  // The topology

  /** A dim x dim king mesh of `npusCount` endpoints, no extra devices. */
  class KingMesh2D {
    const npusCount: int
    const bidirectional: bool
    const base: Registry

    /** The endpoints are the devices, and the registry was sized for them. */
    ghost predicate Valid() {
      npusCount > 0 && base.npusCount == npusCount && base.devicesCount == npusCount
    }

    /**
     * Outside a multi-dimensional topology, connects every cell to its right
     * neighbour and the three cells below it and requires a square number of
     * endpoints; inside one, connects each endpoint to the next.
     */
    constructor (npusCount: int, bandwidth: real, latency: real, bidirectional: bool, isMultiDim: bool)
      requires npusCount > 0 && bandwidth > 0.0 && latency >= 0.0
      requires !isMultiDim ==> IsSquare(npusCount)
      ensures Valid() && this.npusCount == npusCount && this.bidirectional == bidirectional
      ensures fresh(base) && base.npusCount == npusCount && base.devicesCount == npusCount
      ensures base.bandwidth == bandwidth && base.latency == latency && base.isMultiDim == isMultiDim
      ensures base.links == WireAll(if isMultiDim then ChainPairs(npusCount - 1) else LinkPairs(ISqrt(npusCount)),
                                    bandwidth, latency, bidirectional)
    {
      this.npusCount := npusCount;
      this.bidirectional := bidirectional;
      base := new Registry(npusCount, npusCount, bandwidth, latency, isMultiDim);
      new;
      if !isMultiDim {
        ConnectGrid(base, ISqrt(npusCount), bandwidth, latency, bidirectional);
      } else {
        ConnectChain(base, npusCount, bandwidth, latency, bidirectional);
      }
    }

    /** Steps both coordinates toward the destination's until both agree. */
    method Route(src: DeviceId, dest: DeviceId) returns (route: Route)
      requires Valid() && 0 <= src < npusCount && 0 <= dest < npusCount
      requires IsSquare(npusCount)
      ensures route == KingRoute(ISqrt(npusCount), src, dest)
    {
      var dim := ISqrt(npusCount);
      SquareSide(npusCount);
      Coords(dim, src);
      Coords(dim, dest);
      var srcX, srcY := CoordinatesOf(dim, src);
      var destX, destY := CoordinatesOf(dim, dest);
      route := KingWalk(dim, src, srcX, srcY, destX, destY);
      KingRouteByCoords(dim, src, dest, srcX, srcY, destX, destY);
    }

    /** The neighbour pairs of every cell, followed by all of them reversed when bidirectional. */
    method GetConnectionPolicies() returns (policies: seq<ConnectionPolicy>)
      requires Valid() && IsSquare(npusCount)
      ensures policies == KingPolicies(ISqrt(npusCount), bidirectional)
    {
      var dim := ISqrt(npusCount);
      policies := CollectPolicies(dim);
    }

    /** The loops of GetConnectionPolicies over a dim x dim grid. */
    method CollectPolicies(dim: nat) returns (policies: seq<ConnectionPolicy>)
      ensures policies == KingPolicies(dim, bidirectional)
    {
      policies := AppendNeighbourPass(dim, []);
      AppendEmpty(NeighbourPairs(dim));
      if bidirectional {
        var reversed := ReversedCopy(policies);
        policies := policies + reversed;
      }
    }
  }
}
