/**
 * A two-dimensional mesh of dim x dim endpoints in row-major order, without
 * wrap-around: each cell is wired to its right and down neighbours, and
 * routes go along the row first, then along the column. Inside a
 * multi-dimensional topology the endpoints form a chain instead.
 */
module Mesh2D {
  import opened BasicTopology
  import opened Grid
  import Arith

  /** b is the right neighbour of cell a. */
  predicate RightStep(dim: nat, a: int, b: int) {
    dim > 0 && a >= 0 && Col(dim, a) + 1 < dim && b == a + 1
  }

  /** b is the neighbour below cell a. */
  predicate DownStep(dim: nat, a: int, b: int) {
    dim > 0 && a >= 0 && Row(dim, a) + 1 < dim && b == a + dim
  }

  /** a and b are cells whose columns and rows differ by one in total. */
  predicate GridNeighbours(dim: nat, a: int, b: int) {
    dim > 0 && 0 <= a < dim * dim && 0 <= b < dim * dim && Abs(Col(dim, a) - Col(dim, b)) + Abs(Row(dim, a) - Row(dim, b)) == 1
  }

  /** p is the right or the down step out of a cell of the grid. */
  predicate ForwardStep(dim: nat, p: ConnectionPolicy) {
    0 <= p.src < dim * dim && (RightStep(dim, p.src, p.dst) || DownStep(dim, p.src, p.dst))
  }

  /** p is a forward step taken backwards: a left or an up step into a cell of the grid. */
  predicate BackwardStep(dim: nat, p: ConnectionPolicy) {
    ForwardStep(dim, Reversed(p))
  }

  // ---------------------------------------------------------------------------
  // The forward pass: right, then down, cell by cell in row-major order

  /** The pair to the right neighbour of a cell, if it has one. */
  function RightPair(dim: nat, row: nat, col: int): seq<ConnectionPolicy> {
    if col + 1 < dim then [ConnectionPolicy(Id(dim, row, col), Id(dim, row, col + 1))] else []
  }

  /** The pair to the neighbour below a cell, if it has one. */
  function DownPair(dim: nat, row: nat, col: int): seq<ConnectionPolicy> {
    if row + 1 < dim then [ConnectionPolicy(Id(dim, row, col), Id(dim, row + 1, col))] else []
  }

  /** The pairs out of one cell: right, then down. */
  function CellPairs(dim: nat, row: nat, col: int): seq<ConnectionPolicy> {
    RightPair(dim, row, col) + DownPair(dim, row, col)
  }

  /** The pairs of cells 0 .. k-1 of a row. */
  function RowPairs(dim: nat, row: nat, k: nat): seq<ConnectionPolicy> {
    if k == 0 then [] else RowPairs(dim, row, k - 1) + CellPairs(dim, row, k - 1)
  }

  /** The pairs of rows 0 .. k-1. */
  function GridPairs(dim: nat, k: nat): seq<ConnectionPolicy> {
    if k == 0 then [] else GridPairs(dim, k - 1) + RowPairs(dim, k - 1, dim)
  }

  /** Every right and every down pair of the grid, in row-major order. */
  function ForwardPairs(dim: nat): seq<ConnectionPolicy> {
    GridPairs(dim, dim)
  }

  // ---------------------------------------------------------------------------
  // The backward pass: left, then up, cell by cell in row-major order

  /** The pair to the left neighbour of a cell, if it has one. */
  function LeftPair(dim: nat, row: nat, col: int): seq<ConnectionPolicy> {
    if col - 1 >= 0 then [ConnectionPolicy(Id(dim, row, col), Id(dim, row, col - 1))] else []
  }

  /** The pair to the neighbour above a cell, if it has one. */
  function UpPair(dim: nat, row: nat, col: int): seq<ConnectionPolicy> {
    if row - 1 >= 0 then [ConnectionPolicy(Id(dim, row, col), Id(dim, row - 1, col))] else []
  }

  /** The pairs into a cell's left and upper neighbours, in that order. */
  function BackCellPairs(dim: nat, row: nat, col: int): seq<ConnectionPolicy> {
    LeftPair(dim, row, col) + UpPair(dim, row, col)
  }

  function BackRowPairs(dim: nat, row: nat, k: nat): seq<ConnectionPolicy> {
    if k == 0 then [] else BackRowPairs(dim, row, k - 1) + BackCellPairs(dim, row, k - 1)
  }

  function BackGridPairs(dim: nat, k: nat): seq<ConnectionPolicy> {
    if k == 0 then [] else BackGridPairs(dim, k - 1) + BackRowPairs(dim, k - 1, dim)
  }

  function BackwardPairs(dim: nat): seq<ConnectionPolicy> {
    BackGridPairs(dim, dim)
  }

  lemma GridPairsNext(dim: nat, k: nat)
    ensures GridPairs(dim, k + 1) == GridPairs(dim, k) + RowPairs(dim, k, dim)
  {
  }

  lemma BackGridPairsNext(dim: nat, k: nat)
    ensures BackGridPairs(dim, k + 1) == BackGridPairs(dim, k) + BackRowPairs(dim, k, dim)
  {
  }

  lemma RowPairsNext(dim: nat, row: nat, k: nat)
    ensures RowPairs(dim, row, k + 1) == RowPairs(dim, row, k) + CellPairs(dim, row, k)
  {
  }

  lemma BackRowPairsNext(dim: nat, row: nat, k: nat)
    ensures BackRowPairs(dim, row, k + 1) == BackRowPairs(dim, row, k) + BackCellPairs(dim, row, k)
  {
  }

  /** The policies: the forward pass, followed by the backward pass when bidirectional. */
  function MeshPolicies(dim: nat, bidirectional: bool): seq<ConnectionPolicy> {
    ForwardPairs(dim) + (if bidirectional then BackwardPairs(dim) else [])
  }

  // ---------------------------------------------------------------------------
  // Counts

  lemma {:induction false} RowPairsCount(dim: nat, row: nat, k: nat)
    requires 1 <= dim && k <= dim
    ensures |RowPairs(dim, row, k)| == Min(k, dim - 1) + (if row + 1 < dim then k else 0)
  {
    if k > 0 {
      RowPairsCount(dim, row, k - 1);
    }
  }

  lemma {:induction false} GridPairsCount(dim: nat, k: nat)
    requires 1 <= dim && k <= dim
    ensures |GridPairs(dim, k)| == k * (dim - 1) + Min(k, dim - 1) * dim
  {
    if k > 0 {
      GridPairsCount(dim, k - 1);
      RowPairsCount(dim, k - 1, dim);
      Arith.MulSucc(k - 1, dim - 1);
      Arith.MulSucc(k - 1, dim);
    }
  }

  lemma {:induction false} BackRowPairsCount(dim: nat, row: nat, k: nat)
    requires k <= dim
    ensures |BackRowPairs(dim, row, k)| == (if k == 0 then 0 else k - 1) + (if row >= 1 then k else 0)
  {
    if k > 0 {
      BackRowPairsCount(dim, row, k - 1);
    }
  }

  lemma {:induction false} BackGridPairsCount(dim: nat, k: nat)
    requires 1 <= dim && k <= dim
    ensures |BackGridPairs(dim, k)| == k * (dim - 1) + (if k == 0 then 0 else k - 1) * dim
  {
    if k > 0 {
      BackGridPairsCount(dim, k - 1);
      BackRowPairsCount(dim, k - 1, dim);
      Arith.MulSucc(k - 1, dim - 1);
      Arith.MulSucc(k - 2, dim);
    }
  }

  /** The forward pass has 2 * dim * (dim - 1) pairs: dim - 1 per row and dim - 1 per column. */
  lemma ForwardPairsCount(dim: nat)
    requires dim >= 1
    ensures |ForwardPairs(dim)| == 2 * (dim * (dim - 1))
  {
    GridPairsCount(dim, dim);
    assert Min(dim, dim - 1) == dim - 1;
    assert (dim - 1) * dim == dim * (dim - 1);
  }

  /** So does the backward pass. */
  lemma BackwardPairsCount(dim: nat)
    requires dim >= 1
    ensures |BackwardPairs(dim)| == 2 * (dim * (dim - 1))
  {
    BackGridPairsCount(dim, dim);
    assert (dim - 1) * dim == dim * (dim - 1);
  }

  /** In all, 2 * dim * (dim - 1) pairs, twice that when bidirectional. */
  lemma MeshPoliciesCount(dim: nat, bidirectional: bool)
    requires dim >= 1
    ensures |MeshPolicies(dim, bidirectional)| == (if bidirectional then 4 else 2) * (dim * (dim - 1))
  {
    ForwardPairsCount(dim);
    if bidirectional {
      BackwardPairsCount(dim);
    }
  }

  // ---------------------------------------------------------------------------
  // What the passes contain

  /** The right and down pairs of a cell of the grid are forward steps. */
  lemma CellPairForward(dim: nat, row: nat, col: int, p: ConnectionPolicy)
    requires row < dim && 0 <= col < dim && p in CellPairs(dim, row, col)
    ensures ForwardStep(dim, p)
  {
    Cell(dim, row, col);
    InConcat(p, RightPair(dim, row, col), DownPair(dim, row, col));
    if p in RightPair(dim, row, col) {
      IdColumnShift(dim, row, col, 1);
    } else {
      assert Id(dim, row + 1, col) == Id(dim, row, col) + dim;
    }
  }

  /** The left and up pairs of a cell of the grid are backward steps. */
  lemma CellPairBackward(dim: nat, row: nat, col: int, p: ConnectionPolicy)
    requires row < dim && 0 <= col < dim && p in BackCellPairs(dim, row, col)
    ensures BackwardStep(dim, p)
  {
    InConcat(p, LeftPair(dim, row, col), UpPair(dim, row, col));
    if p in LeftPair(dim, row, col) {
      Cell(dim, row, col - 1);
      IdColumnShift(dim, row, col - 1, 1);
    } else {
      Cell(dim, row - 1, col);
      assert Id(dim, row, col) == Id(dim, row - 1, col) + dim;
    }
  }

  /** The i-th of the pairs of a row's first k cells is the j-th pair of one of those cells. */
  lemma {:induction false} RowPairOrigin(dim: nat, row: nat, k: nat, i: nat) returns (col: nat, j: nat)
    requires i < |RowPairs(dim, row, k)|
    ensures col < k && j < |CellPairs(dim, row, col)| && RowPairs(dim, row, k)[i] == CellPairs(dim, row, col)[j]
  {
    var a := RowPairs(dim, row, k - 1);
    RowPairsNext(dim, row, k - 1);
    if i < |a| {
      col, j := RowPairOrigin(dim, row, k - 1, i);
    } else {
      col, j := k - 1, i - |a|;
    }
  }

  lemma {:induction false} BackRowPairOrigin(dim: nat, row: nat, k: nat, i: nat) returns (col: nat, j: nat)
    requires i < |BackRowPairs(dim, row, k)|
    ensures col < k && j < |BackCellPairs(dim, row, col)| && BackRowPairs(dim, row, k)[i] == BackCellPairs(dim, row, col)[j]
  {
    var a := BackRowPairs(dim, row, k - 1);
    BackRowPairsNext(dim, row, k - 1);
    if i < |a| {
      col, j := BackRowPairOrigin(dim, row, k - 1, i);
    } else {
      col, j := k - 1, i - |a|;
    }
  }

  /** The i-th of the pairs of the first k rows is the j-th pair of one of their cells. */
  lemma {:induction false} GridPairOrigin(dim: nat, k: nat, i: nat) returns (row: nat, col: nat, j: nat)
    requires i < |GridPairs(dim, k)|
    ensures row < k && col < dim && j < |CellPairs(dim, row, col)| && GridPairs(dim, k)[i] == CellPairs(dim, row, col)[j]
  {
    var a := GridPairs(dim, k - 1);
    GridPairsNext(dim, k - 1);
    if i < |a| {
      row, col, j := GridPairOrigin(dim, k - 1, i);
    } else {
      row := k - 1;
      col, j := RowPairOrigin(dim, k - 1, dim, i - |a|);
    }
  }

  lemma {:induction false} BackGridPairOrigin(dim: nat, k: nat, i: nat) returns (row: nat, col: nat, j: nat)
    requires i < |BackGridPairs(dim, k)|
    ensures row < k && col < dim && j < |BackCellPairs(dim, row, col)| && BackGridPairs(dim, k)[i] == BackCellPairs(dim, row, col)[j]
  {
    var a := BackGridPairs(dim, k - 1);
    BackGridPairsNext(dim, k - 1);
    if i < |a| {
      row, col, j := BackGridPairOrigin(dim, k - 1, i);
    } else {
      row := k - 1;
      col, j := BackRowPairOrigin(dim, k - 1, dim, i - |a|);
    }
  }

  /** A pair of cell col is among the pairs of the row's first k cells once col < k. */
  lemma {:induction false} RowPairsHave(dim: nat, row: nat, k: nat, col: nat, p: ConnectionPolicy)
    requires col < k && p in CellPairs(dim, row, col)
    ensures p in RowPairs(dim, row, k)
  {
    var a := RowPairs(dim, row, k - 1);
    var b := CellPairs(dim, row, k - 1);
    if col < k - 1 {
      RowPairsHave(dim, row, k - 1, col, p);
      InLeft(p, a, b);
    } else {
      InRight(p, a, b);
    }
  }

  lemma {:induction false} BackRowPairsHave(dim: nat, row: nat, k: nat, col: nat, p: ConnectionPolicy)
    requires col < k && p in BackCellPairs(dim, row, col)
    ensures p in BackRowPairs(dim, row, k)
  {
    var a := BackRowPairs(dim, row, k - 1);
    var b := BackCellPairs(dim, row, k - 1);
    if col < k - 1 {
      BackRowPairsHave(dim, row, k - 1, col, p);
      InLeft(p, a, b);
    } else {
      InRight(p, a, b);
    }
  }

  /** A pair of row `row` is among the pairs of the first k rows once row < k. */
  lemma {:induction false} GridPairsHave(dim: nat, k: nat, row: nat, p: ConnectionPolicy)
    requires row < k && p in RowPairs(dim, row, dim)
    ensures p in GridPairs(dim, k)
  {
    var a := GridPairs(dim, k - 1);
    var b := RowPairs(dim, k - 1, dim);
    if row < k - 1 {
      GridPairsHave(dim, k - 1, row, p);
      InLeft(p, a, b);
    } else {
      InRight(p, a, b);
    }
  }

  lemma {:induction false} BackGridPairsHave(dim: nat, k: nat, row: nat, p: ConnectionPolicy)
    requires row < k && p in BackRowPairs(dim, row, dim)
    ensures p in BackGridPairs(dim, k)
  {
    var a := BackGridPairs(dim, k - 1);
    var b := BackRowPairs(dim, k - 1, dim);
    if row < k - 1 {
      BackGridPairsHave(dim, k - 1, row, p);
      InLeft(p, a, b);
    } else {
      InRight(p, a, b);
    }
  }

  /** A pair out of a cell of the grid is in the forward pass. */
  lemma CellPairInForward(dim: nat, row: nat, col: nat, p: ConnectionPolicy)
    requires row < dim && col < dim && p in CellPairs(dim, row, col)
    ensures p in ForwardPairs(dim)
  {
    RowPairsHave(dim, row, dim, col, p);
    GridPairsHave(dim, dim, row, p);
  }

  /** A pair into the left or upper neighbour of a cell of the grid is in the backward pass. */
  lemma CellPairInBackward(dim: nat, row: nat, col: nat, p: ConnectionPolicy)
    requires row < dim && col < dim && p in BackCellPairs(dim, row, col)
    ensures p in BackwardPairs(dim)
  {
    BackRowPairsHave(dim, row, dim, col, p);
    BackGridPairsHave(dim, dim, row, p);
  }

  lemma RightPairMember(dim: nat, row: nat, col: nat)
    requires col + 1 < dim
    ensures ConnectionPolicy(Id(dim, row, col), Id(dim, row, col + 1)) in CellPairs(dim, row, col)
  {
    InLeft(ConnectionPolicy(Id(dim, row, col), Id(dim, row, col + 1)), RightPair(dim, row, col), DownPair(dim, row, col));
  }

  lemma DownPairMember(dim: nat, row: nat, col: nat)
    requires row + 1 < dim
    ensures ConnectionPolicy(Id(dim, row, col), Id(dim, row + 1, col)) in CellPairs(dim, row, col)
  {
    InRight(ConnectionPolicy(Id(dim, row, col), Id(dim, row + 1, col)), RightPair(dim, row, col), DownPair(dim, row, col));
  }

  lemma LeftPairMember(dim: nat, row: nat, col: nat)
    ensures ConnectionPolicy(Id(dim, row, col + 1), Id(dim, row, col)) in BackCellPairs(dim, row, col + 1)
  {
    InLeft(ConnectionPolicy(Id(dim, row, col + 1), Id(dim, row, col)), LeftPair(dim, row, col + 1), UpPair(dim, row, col + 1));
  }

  lemma UpPairMember(dim: nat, row: nat, col: nat)
    ensures ConnectionPolicy(Id(dim, row + 1, col), Id(dim, row, col)) in BackCellPairs(dim, row + 1, col)
  {
    InRight(ConnectionPolicy(Id(dim, row + 1, col), Id(dim, row, col)), LeftPair(dim, row + 1, col), UpPair(dim, row + 1, col));
  }

  /** The right step out of cell (row, col) is in the forward pass. */
  lemma RightStepForward(dim: nat, row: nat, col: nat)
    requires row < dim && col + 1 < dim
    ensures ConnectionPolicy(Id(dim, row, col), Id(dim, row, col + 1)) in ForwardPairs(dim)
  {
    RightPairMember(dim, row, col);
    CellPairInForward(dim, row, col, ConnectionPolicy(Id(dim, row, col), Id(dim, row, col + 1)));
  }

  /** The right step out of cell (row, col), taken backwards, is in the backward pass. */
  lemma RightStepBackward(dim: nat, row: nat, col: nat)
    requires row < dim && col + 1 < dim
    ensures ConnectionPolicy(Id(dim, row, col + 1), Id(dim, row, col)) in BackwardPairs(dim)
  {
    LeftPairMember(dim, row, col);
    CellPairInBackward(dim, row, col + 1, ConnectionPolicy(Id(dim, row, col + 1), Id(dim, row, col)));
  }

  /** The down step out of cell (row, col) is in the forward pass. */
  lemma DownStepForward(dim: nat, row: nat, col: nat)
    requires row + 1 < dim && col < dim
    ensures ConnectionPolicy(Id(dim, row, col), Id(dim, row + 1, col)) in ForwardPairs(dim)
  {
    DownPairMember(dim, row, col);
    CellPairInForward(dim, row, col, ConnectionPolicy(Id(dim, row, col), Id(dim, row + 1, col)));
  }

  /** The down step out of cell (row, col), taken backwards, is in the backward pass. */
  lemma DownStepBackward(dim: nat, row: nat, col: nat)
    requires row + 1 < dim && col < dim
    ensures ConnectionPolicy(Id(dim, row + 1, col), Id(dim, row, col)) in BackwardPairs(dim)
  {
    UpPairMember(dim, row, col);
    CellPairInBackward(dim, row + 1, col, ConnectionPolicy(Id(dim, row + 1, col), Id(dim, row, col)));
  }

  /** A right or down step of the grid is in the forward pass. */
  lemma ForwardStepIn(dim: nat, p: ConnectionPolicy)
    requires ForwardStep(dim, p)
    ensures p in ForwardPairs(dim)
  {
    Coords(dim, p.src);
    var row, col := Row(dim, p.src), Col(dim, p.src);
    if RightStep(dim, p.src, p.dst) {
      IdColumnShift(dim, row, col, 1);
      assert p == ConnectionPolicy(Id(dim, row, col), Id(dim, row, col + 1));
      RightStepForward(dim, row, col);
    } else {
      assert p == ConnectionPolicy(Id(dim, row, col), Id(dim, row + 1, col));
      DownStepForward(dim, row, col);
    }
  }

  /** A right or down step of the grid, taken backwards, is in the backward pass. */
  lemma ForwardStepReversedIn(dim: nat, p: ConnectionPolicy)
    requires ForwardStep(dim, p)
    ensures Reversed(p) in BackwardPairs(dim)
  {
    Coords(dim, p.src);
    var row, col := Row(dim, p.src), Col(dim, p.src);
    if RightStep(dim, p.src, p.dst) {
      IdColumnShift(dim, row, col, 1);
      assert Reversed(p) == ConnectionPolicy(Id(dim, row, col + 1), Id(dim, row, col));
      RightStepBackward(dim, row, col);
    } else {
      assert Reversed(p) == ConnectionPolicy(Id(dim, row + 1, col), Id(dim, row, col));
      DownStepBackward(dim, row, col);
    }
  }

  /**
   * The forward pass holds exactly the right and down steps of the grid, and
   * the backward pass exactly their reversals.
   */
  lemma MeshPassesExact(dim: nat)
    ensures forall p :: p in ForwardPairs(dim) <==> ForwardStep(dim, p)
    ensures forall p :: p in BackwardPairs(dim) <==> BackwardStep(dim, p)
  {
    forall p | p in ForwardPairs(dim)
      ensures ForwardStep(dim, p)
    {
      var i :| 0 <= i < |ForwardPairs(dim)| && ForwardPairs(dim)[i] == p;
      var row, col, j := GridPairOrigin(dim, dim, i);
      CellPairForward(dim, row, col, p);
    }
    forall p | p in BackwardPairs(dim)
      ensures BackwardStep(dim, p)
    {
      var i :| 0 <= i < |BackwardPairs(dim)| && BackwardPairs(dim)[i] == p;
      var row, col, j := BackGridPairOrigin(dim, dim, i);
      CellPairBackward(dim, row, col, p);
    }
    forall p | ForwardStep(dim, p)
      ensures p in ForwardPairs(dim)
    {
      ForwardStepIn(dim, p);
    }
    forall p | BackwardStep(dim, p)
      ensures p in BackwardPairs(dim)
    {
      ForwardStepReversedIn(dim, Reversed(p));
    }
  }

  /** As sets, the backward pass is the forward pass with every pair reversed. */
  lemma MeshPassesMirror(dim: nat)
    ensures forall p :: p in BackwardPairs(dim) <==> Reversed(p) in ForwardPairs(dim)
  {
    MeshPassesExact(dim);
  }

  /** A right or down step joins two grid neighbours, distinct, in either order. */
  lemma StepNeighbours(dim: nat, a: int, b: int)
    requires 0 <= a < dim * dim && (RightStep(dim, a, b) || DownStep(dim, a, b))
    ensures GridNeighbours(dim, a, b) && GridNeighbours(dim, b, a) && a != b
  {
    Coords(dim, a);
    Cell(dim, Row(dim, a), Col(dim, a));
    if RightStep(dim, a, b) {
      IdColumnShift(dim, Row(dim, a), Col(dim, a), 1);
      Cell(dim, Row(dim, a), Col(dim, a) + 1);
    } else {
      Cell(dim, Row(dim, a) + 1, Col(dim, a));
    }
  }

  /** Every policy joins two distinct, orthogonally adjacent cells of the grid. */
  lemma MeshPoliciesAdjacent(dim: nat, bidirectional: bool)
    ensures forall p :: p in MeshPolicies(dim, bidirectional) ==> GridNeighbours(dim, p.src, p.dst) && p.src != p.dst
  {
    MeshPassesExact(dim);
    forall p | p in MeshPolicies(dim, bidirectional)
      ensures GridNeighbours(dim, p.src, p.dst) && p.src != p.dst
    {
      if p in ForwardPairs(dim) {
        StepNeighbours(dim, p.src, p.dst);
      } else {
        StepNeighbours(dim, p.dst, p.src);
      }
    }
  }

  // ---------------------------------------------------------------------------
  // Routing

  /** The column of hop k: from the source column toward the destination column, one unit per step. */
  function MeshHopCol(dim: nat, src: nat, dest: nat, k: nat): nat
    requires dim > 0
  {
    Toward(Col(dim, src), Col(dim, dest), k)
  }

  /** The row of hop k: the source row until the destination column is reached, then toward the destination row. */
  function MeshHopRow(dim: nat, src: nat, dest: nat, k: nat): nat
    requires dim > 0
  {
    var adx := Abs(Col(dim, dest) - Col(dim, src));
    if k <= adx then Row(dim, src) else Toward(Row(dim, src), Row(dim, dest), k - adx)
  }

  /** The number of hops is the Manhattan distance plus one. */
  function MeshRouteLength(dim: nat, src: nat, dest: nat): nat
    requires dim > 0
  {
    Abs(Col(dim, dest) - Col(dim, src)) + Abs(Row(dim, dest) - Row(dim, src)) + 1
  }

  /** Hop k: the cell at the closed-form row and column. */
  function MeshHop(dim: nat, src: nat, dest: nat, k: nat): int
    requires dim > 0
  {
    Id(dim, MeshHopRow(dim, src, dest, k), MeshHopCol(dim, src, dest, k))
  }

  /** Hops 0 .. n-1, in order. */
  function MeshHops(dim: nat, src: nat, dest: nat, n: nat): (r: Route)
    requires dim > 0
    ensures |r| == n
  {
    if n == 0 then [] else MeshHops(dim, src, dest, n - 1) + [MeshHop(dim, src, dest, n - 1)]
  }

  /** Along the source row first, then along the destination column. */
  function MeshRoute(dim: nat, src: nat, dest: nat): Route
    requires dim > 0
  {
    MeshHops(dim, src, dest, MeshRouteLength(dim, src, dest))
  }

  /** The k-th of the first n hops is hop k. */
  lemma {:induction false} MeshHopsAt(dim: nat, src: nat, dest: nat, n: nat, k: nat)
    requires dim > 0 && k < n
    ensures MeshHops(dim, src, dest, n)[k] == MeshHop(dim, src, dest, k)
  {
    if k < n - 1 {
      MeshHopsAt(dim, src, dest, n - 1, k);
    }
  }

  /** Every hop is a cell of the grid, at the coordinates of the closed form. */
  lemma MeshHopCell(dim: nat, src: nat, dest: nat, k: nat)
    requires dim > 0 && src < dim * dim && dest < dim * dim && k < MeshRouteLength(dim, src, dest)
    ensures MeshRoute(dim, src, dest)[k] == MeshHop(dim, src, dest, k)
    ensures 0 <= MeshRoute(dim, src, dest)[k] < dim * dim
    ensures Row(dim, MeshRoute(dim, src, dest)[k]) == MeshHopRow(dim, src, dest, k)
    ensures Col(dim, MeshRoute(dim, src, dest)[k]) == MeshHopCol(dim, src, dest, k)
  {
    MeshHopsAt(dim, src, dest, MeshRouteLength(dim, src, dest), k);
    Coords(dim, src);
    Coords(dim, dest);
    TowardBetween(Col(dim, src), Col(dim, dest), k);
    if k > Abs(Col(dim, dest) - Col(dim, src)) {
      TowardBetween(Row(dim, src), Row(dim, dest), k - Abs(Col(dim, dest) - Col(dim, src)));
    }
    Cell(dim, MeshHopRow(dim, src, dest, k), MeshHopCol(dim, src, dest, k));
  }

  /** Hop k written from the coordinates (sx, sy) of the source and (tx, ty) of the destination, as `row * dim + col`. */
  function CoordHop(dim: nat, sx: int, sy: int, tx: int, ty: int, k: nat): int {
    var adx := Abs(tx - sx);
    (if k <= adx then sy else Toward(sy, ty, k - adx)) * dim + Toward(sx, tx, k)
  }

  /** Hops 0 .. n-1 written from the coordinates of the source and the destination. */
  function CoordHops(dim: nat, sx: int, sy: int, tx: int, ty: int, n: nat): (r: Route)
    ensures |r| == n
  {
    if n == 0 then [] else CoordHops(dim, sx, sy, tx, ty, n - 1) + [CoordHop(dim, sx, sy, tx, ty, n - 1)]
  }

  /** Appending the next hop to the first hops gives one hop more. */
  lemma CoordHopsNext(dim: nat, sx: int, sy: int, tx: int, ty: int, route: Route, idx: int)
    requires route == CoordHops(dim, sx, sy, tx, ty, |route|)
    requires idx == CoordHop(dim, sx, sy, tx, ty, |route|)
    ensures route + [idx] == CoordHops(dim, sx, sy, tx, ty, |route| + 1)
  {
  }

  /** The hops from the coordinates are the hops of the closed form. */
  lemma {:induction false} MeshHopsByCoords(dim: nat, src: nat, dest: nat, n: nat)
    requires dim > 0
    ensures MeshHops(dim, src, dest, n) == CoordHops(dim, Col(dim, src), Row(dim, src), Col(dim, dest), Row(dim, dest), n)
  {
    if n > 0 {
      MeshHopsByCoords(dim, src, dest, n - 1);
      IdIsRowMajor(dim, MeshHopRow(dim, src, dest, n - 1), MeshHopCol(dim, src, dest, n - 1));
    }
  }

  /** The route is the hops from the coordinates, as many as the Manhattan distance plus one. */
  lemma MeshRouteByCoords(dim: nat, src: nat, dest: nat, sx: int, sy: int, tx: int, ty: int)
    requires dim > 0
    requires sx == Col(dim, src) && sy == Row(dim, src) && tx == Col(dim, dest) && ty == Row(dim, dest)
    ensures MeshRoute(dim, src, dest) == CoordHops(dim, sx, sy, tx, ty, Abs(tx - sx) + Abs(ty - sy) + 1)
  {
    MeshHopsByCoords(dim, src, dest, MeshRouteLength(dim, src, dest));
  }

  /**
   * The route starts at src, ends at dest, has |dx| + |dy| + 1 hops (so it is
   * [src] when src == dest) and stays inside the grid.
   */
  lemma MeshRouteEnds(dim: nat, src: nat, dest: nat)
    requires dim > 0 && src < dim * dim && dest < dim * dim
    ensures |MeshRoute(dim, src, dest)| == Abs(Col(dim, dest) - Col(dim, src)) + Abs(Row(dim, dest) - Row(dim, src)) + 1
    ensures MeshRoute(dim, src, dest)[0] == src
    ensures MeshRoute(dim, src, dest)[|MeshRoute(dim, src, dest)| - 1] == dest
    ensures src == dest ==> MeshRoute(dim, src, dest) == [src]
    ensures HopsWithin(MeshRoute(dim, src, dest), dim * dim)
  {
    var r := MeshRoute(dim, src, dest);
    Coords(dim, src);
    Coords(dim, dest);
    forall k | 0 <= k < |r|
      ensures 0 <= r[k] < dim * dim
    {
      MeshHopCell(dim, src, dest, k);
    }
    MeshHopCell(dim, src, dest, 0);
    MeshHopCell(dim, src, dest, |r| - 1);
    if src == dest {
      assert |r| == 1;
    }
  }

  /** Step k, within the first |dx|, moves one column toward the destination (id +-1) and keeps the row. */
  lemma MeshColumnStep(dim: nat, src: nat, dest: nat, k: nat)
    requires dim > 0 && src < dim * dim && dest < dim * dim
    requires k < Abs(Col(dim, dest) - Col(dim, src))
    ensures Row(dim, MeshRoute(dim, src, dest)[k + 1]) == Row(dim, MeshRoute(dim, src, dest)[k])
    ensures Col(dim, MeshRoute(dim, src, dest)[k + 1]) == Col(dim, MeshRoute(dim, src, dest)[k]) + Sign(Col(dim, dest) - Col(dim, src))
    ensures MeshRoute(dim, src, dest)[k + 1] == MeshRoute(dim, src, dest)[k] + Sign(Col(dim, dest) - Col(dim, src))
  {
    TowardStep(Col(dim, src), Col(dim, dest), k);
    MeshHopCell(dim, src, dest, k);
    MeshHopCell(dim, src, dest, k + 1);
    IdColumnShift(dim, Row(dim, src), MeshHopCol(dim, src, dest, k), Sign(Col(dim, dest) - Col(dim, src)));
  }

  /** Step k, after the first |dx|, moves one row toward the destination (id +-dim) and keeps the column. */
  lemma MeshRowStep(dim: nat, src: nat, dest: nat, k: nat)
    requires dim > 0 && src < dim * dim && dest < dim * dim
    requires Abs(Col(dim, dest) - Col(dim, src)) <= k < MeshRouteLength(dim, src, dest) - 1
    ensures Col(dim, MeshRoute(dim, src, dest)[k + 1]) == Col(dim, MeshRoute(dim, src, dest)[k])
    ensures Row(dim, MeshRoute(dim, src, dest)[k + 1]) == Row(dim, MeshRoute(dim, src, dest)[k]) + Sign(Row(dim, dest) - Row(dim, src))
    ensures MeshRoute(dim, src, dest)[k + 1]
      == if Row(dim, dest) > Row(dim, src) then MeshRoute(dim, src, dest)[k] + dim else MeshRoute(dim, src, dest)[k] - dim
  {
    var adx := Abs(Col(dim, dest) - Col(dim, src));
    TowardStep(Row(dim, src), Row(dim, dest), k - adx);
    MeshHopCell(dim, src, dest, k);
    MeshHopCell(dim, src, dest, k + 1);
    var row := MeshHopRow(dim, src, dest, k);
    var col := MeshHopCol(dim, src, dest, k);
    assert MeshHopCol(dim, src, dest, k + 1) == col;
    assert MeshRoute(dim, src, dest)[k] == Id(dim, row, col);
    if Row(dim, dest) > Row(dim, src) {
      assert MeshRoute(dim, src, dest)[k + 1] == Id(dim, row + 1, col);
    } else {
      assert MeshRoute(dim, src, dest)[k] == Id(dim, row - 1 + 1, col);
    }
  }

  /** The first |dx| steps move along the source row toward the destination column. */
  lemma MeshRouteColumnSteps(dim: nat, src: nat, dest: nat)
    requires dim > 0 && src < dim * dim && dest < dim * dim
    ensures forall k :: 0 <= k < Abs(Col(dim, dest) - Col(dim, src)) ==>
      Row(dim, MeshRoute(dim, src, dest)[k + 1]) == Row(dim, MeshRoute(dim, src, dest)[k])
      && MeshRoute(dim, src, dest)[k + 1] == MeshRoute(dim, src, dest)[k] + Sign(Col(dim, dest) - Col(dim, src))
  {
    forall k | 0 <= k < Abs(Col(dim, dest) - Col(dim, src))
      ensures Row(dim, MeshRoute(dim, src, dest)[k + 1]) == Row(dim, MeshRoute(dim, src, dest)[k])
      ensures MeshRoute(dim, src, dest)[k + 1] == MeshRoute(dim, src, dest)[k] + Sign(Col(dim, dest) - Col(dim, src))
    {
      MeshColumnStep(dim, src, dest, k);
    }
  }

  /** The remaining |dy| steps move along the destination column toward the destination row. */
  lemma MeshRouteRowSteps(dim: nat, src: nat, dest: nat)
    requires dim > 0 && src < dim * dim && dest < dim * dim
    ensures forall k :: Abs(Col(dim, dest) - Col(dim, src)) <= k < |MeshRoute(dim, src, dest)| - 1 ==>
      Col(dim, MeshRoute(dim, src, dest)[k + 1]) == Col(dim, MeshRoute(dim, src, dest)[k])
      && Row(dim, MeshRoute(dim, src, dest)[k + 1]) == Row(dim, MeshRoute(dim, src, dest)[k]) + Sign(Row(dim, dest) - Row(dim, src))
  {
    forall k | Abs(Col(dim, dest) - Col(dim, src)) <= k < |MeshRoute(dim, src, dest)| - 1
      ensures Col(dim, MeshRoute(dim, src, dest)[k + 1]) == Col(dim, MeshRoute(dim, src, dest)[k])
      ensures Row(dim, MeshRoute(dim, src, dest)[k + 1]) == Row(dim, MeshRoute(dim, src, dest)[k]) + Sign(Row(dim, dest) - Row(dim, src))
    {
      MeshRowStep(dim, src, dest, k);
    }
  }

  /** Within the first |dx| steps, hops k and k + 1 are a right step, one way round or the other. */
  lemma MeshColumnHopStep(dim: nat, src: nat, dest: nat, k: nat)
    requires dim > 0 && src < dim * dim && dest < dim * dim
    requires k < Abs(Col(dim, dest) - Col(dim, src))
    ensures RightStep(dim, MeshRoute(dim, src, dest)[k], MeshRoute(dim, src, dest)[k + 1])
         || RightStep(dim, MeshRoute(dim, src, dest)[k + 1], MeshRoute(dim, src, dest)[k])
  {
    Coords(dim, src);
    Coords(dim, dest);
    MeshHopCell(dim, src, dest, k);
    MeshHopCell(dim, src, dest, k + 1);
    MeshColumnStep(dim, src, dest, k);
  }

  /** After the first |dx| steps, hops k and k + 1 are a down step, one way round or the other. */
  lemma MeshRowHopStep(dim: nat, src: nat, dest: nat, k: nat)
    requires dim > 0 && src < dim * dim && dest < dim * dim
    requires Abs(Col(dim, dest) - Col(dim, src)) <= k < MeshRouteLength(dim, src, dest) - 1
    ensures DownStep(dim, MeshRoute(dim, src, dest)[k], MeshRoute(dim, src, dest)[k + 1])
         || DownStep(dim, MeshRoute(dim, src, dest)[k + 1], MeshRoute(dim, src, dest)[k])
  {
    Coords(dim, src);
    Coords(dim, dest);
    MeshHopCell(dim, src, dest, k);
    MeshHopCell(dim, src, dest, k + 1);
    MeshRowStep(dim, src, dest, k);
  }

  /** Hops k and k + 1 are a right or down step of the grid, one way round or the other. */
  lemma MeshHopStep(dim: nat, src: nat, dest: nat, k: nat)
    requires dim > 0 && src < dim * dim && dest < dim * dim
    requires k < MeshRouteLength(dim, src, dest) - 1
    ensures ForwardStep(dim, ConnectionPolicy(MeshRoute(dim, src, dest)[k], MeshRoute(dim, src, dest)[k + 1]))
         || ForwardStep(dim, ConnectionPolicy(MeshRoute(dim, src, dest)[k + 1], MeshRoute(dim, src, dest)[k]))
  {
    MeshHopCell(dim, src, dest, k);
    MeshHopCell(dim, src, dest, k + 1);
    if k < Abs(Col(dim, dest) - Col(dim, src)) {
      MeshColumnHopStep(dim, src, dest, k);
    } else {
      MeshRowHopStep(dim, src, dest, k);
    }
  }

  /** Consecutive hops are grid neighbours. */
  lemma MeshRouteAdjacent(dim: nat, src: nat, dest: nat)
    requires dim > 0 && src < dim * dim && dest < dim * dim
    ensures forall k :: 0 <= k < |MeshRoute(dim, src, dest)| - 1 ==>
      GridNeighbours(dim, MeshRoute(dim, src, dest)[k], MeshRoute(dim, src, dest)[k + 1])
  {
    var r := MeshRoute(dim, src, dest);
    forall k | 0 <= k < |r| - 1
      ensures GridNeighbours(dim, r[k], r[k + 1])
    {
      MeshHopStep(dim, src, dest, k);
      if ForwardStep(dim, ConnectionPolicy(r[k], r[k + 1])) {
        StepNeighbours(dim, r[k], r[k + 1]);
      } else {
        StepNeighbours(dim, r[k + 1], r[k]);
      }
    }
  }

  /** With bidirectional links every hop of a route is carried by a recorded link. */
  lemma MeshRouteFollowsLinks(dim: nat, bandwidth: real, latency: real, src: nat, dest: nat)
    requires dim > 0 && src < dim * dim && dest < dim * dim
    ensures FollowsLinks(WireAll(ForwardPairs(dim), bandwidth, latency, true), MeshRoute(dim, src, dest))
  {
    var r := MeshRoute(dim, src, dest);
    var fwd := ForwardPairs(dim);
    forall k | 0 <= k < |r| - 1
      ensures Linked(WireAll(fwd, bandwidth, latency, true), r[k], r[k + 1])
    {
      MeshHopStep(dim, src, dest, k);
      if ForwardStep(dim, ConnectionPolicy(r[k], r[k + 1])) {
        ForwardStepIn(dim, ConnectionPolicy(r[k], r[k + 1]));
        WiredPairLinked(fwd, bandwidth, latency, true, r[k], r[k + 1]);
      } else {
        ForwardStepIn(dim, ConnectionPolicy(r[k + 1], r[k]));
        WiredPairLinked(fwd, bandwidth, latency, true, r[k + 1], r[k]);
      }
    }
  }

  /** The pairs out of a cell, with ids written as `row * dim + col`, and those ids inside the grid. */
  lemma CellPairsFormula(dim: nat, row: nat, col: nat)
    requires row < dim && col < dim
    ensures 0 <= row * dim + col < Square(dim)
    ensures col + 1 < dim ==> row * dim + (col + 1) < Square(dim)
    ensures row + 1 < dim ==> (row + 1) * dim + col < Square(dim)
    ensures RightPair(dim, row, col) == if col + 1 < dim then [ConnectionPolicy(row * dim + col, row * dim + (col + 1))] else []
    ensures DownPair(dim, row, col) == if row + 1 < dim then [ConnectionPolicy(row * dim + col, (row + 1) * dim + col)] else []
  {
    SquareIsProduct(dim);
    IdIsRowMajor(dim, row, col);
    Cell(dim, row, col);
    if col + 1 < dim {
      IdIsRowMajor(dim, row, col + 1);
      Cell(dim, row, col + 1);
    }
    if row + 1 < dim {
      IdIsRowMajor(dim, row + 1, col);
      Cell(dim, row + 1, col);
    }
  }

  /** The pairs into a cell's left and upper neighbours, with ids written as `row * dim + col`. */
  lemma BackCellPairsFormula(dim: nat, row: nat, col: nat)
    ensures LeftPair(dim, row, col) == if col - 1 >= 0 then [ConnectionPolicy(row * dim + col, row * dim + (col - 1))] else []
    ensures UpPair(dim, row, col) == if row - 1 >= 0 then [ConnectionPolicy(row * dim + col, (row - 1) * dim + col)] else []
  {
    IdIsRowMajor(dim, row, col);
    if col - 1 >= 0 {
      IdIsRowMajor(dim, row, col - 1);
    }
    if row - 1 >= 0 {
      IdIsRowMajor(dim, row - 1, col);
    }
  }

  /** The X loop of the route: from hop 0, step along the source row until the destination column is reached. */
  method MoveAlongRow(dim: nat, srcX: nat, srcY: nat, destX: nat, destY: nat, start: Route) returns (route: Route)
    requires start == CoordHops(dim, srcX, srcY, destX, destY, 1)
    ensures route == CoordHops(dim, srcX, srcY, destX, destY, Abs(destX - srcX) + 1)
  {
    var dx := destX - srcX;
    var stepX := if dx == 0 then 0 else if dx > 0 then 1 else -1;
    var curX: int := srcX;
    route := start;
    while curX != destX
      invariant 1 <= |route| <= Abs(dx) + 1
      invariant curX == Toward(srcX, destX, |route| - 1)
      invariant route == CoordHops(dim, srcX, srcY, destX, destY, |route|)
      decreases Abs(dx) + 1 - |route|
    {
      assert curX + stepX == Toward(srcX, destX, |route|) by {
        TowardStep(srcX, destX, |route| - 1);
      }
      curX := curX + stepX;
      var idx := CellId(dim, srcY, curX);
      assert route + [idx] == CoordHops(dim, srcX, srcY, destX, destY, |route| + 1) by {
        CoordHopsNext(dim, srcX, srcY, destX, destY, route, idx);
      }
      route := route + [idx];
    }
    assert |route| == Abs(dx) + 1 by {
      TowardBetween(srcX, destX, |route| - 1);
    }
  }

  /** The Y loop of the route: from the destination column, step along it until the destination row is reached. */
  method MoveAlongColumn(dim: nat, srcX: nat, srcY: nat, destX: nat, destY: nat, start: Route) returns (route: Route)
    requires start == CoordHops(dim, srcX, srcY, destX, destY, Abs(destX - srcX) + 1)
    ensures route == CoordHops(dim, srcX, srcY, destX, destY, Abs(destX - srcX) + Abs(destY - srcY) + 1)
  {
    var dy := destY - srcY;
    var stepY := if dy == 0 then 0 else if dy > 0 then 1 else -1;
    var curY: int := srcY;
    ghost var adx := Abs(destX - srcX);
    route := start;
    while curY != destY
      invariant adx + 1 <= |route| <= adx + Abs(dy) + 1
      invariant curY == Toward(srcY, destY, |route| - 1 - adx)
      invariant route == CoordHops(dim, srcX, srcY, destX, destY, |route|)
      decreases adx + Abs(dy) + 1 - |route|
    {
      assert curY + stepY == Toward(srcY, destY, |route| - adx) >= 0 by {
        TowardStep(srcY, destY, |route| - 1 - adx);
        TowardBetween(srcY, destY, |route| - adx);
      }
      curY := curY + stepY;
      var idx := CellId(dim, curY, destX);
      assert route + [idx] == CoordHops(dim, srcX, srcY, destX, destY, |route| + 1) by {
        CoordHopsNext(dim, srcX, srcY, destX, destY, route, idx);
      }
      route := route + [idx];
    }
    assert |route| == adx + Abs(dy) + 1 by {
      TowardBetween(srcY, destY, |route| - 1 - adx);
    }
  }

  /** The body of the forward policy loop: appends the right and the down pair of cell (row, col). */
  method AppendForwardCell(dim: nat, row: int, col: int, policies: seq<ConnectionPolicy>) returns (extended: seq<ConnectionPolicy>)
    requires 0 <= row < dim && 0 <= col < dim
    ensures extended == policies + CellPairs(dim, row, col)
  {
    CellPairsFormula(dim, row, col);
    extended := policies;
    var current := row * dim + col;
    if col + 1 < dim {
      var right := row * dim + (col + 1);
      extended := extended + [ConnectionPolicy(current, right)];
    }
    if row + 1 < dim {
      var down := (row + 1) * dim + col;
      extended := extended + [ConnectionPolicy(current, down)];
    }
  }

  /** The body of the backward policy loop: appends the left and the up pair of cell (row, col). */
  method AppendBackwardCell(dim: nat, row: int, col: int, policies: seq<ConnectionPolicy>) returns (extended: seq<ConnectionPolicy>)
    requires 0 <= row < dim && 0 <= col < dim
    ensures extended == policies + BackCellPairs(dim, row, col)
  {
    BackCellPairsFormula(dim, row, col);
    extended := policies;
    var current := row * dim + col;
    if col - 1 >= 0 {
      var left := row * dim + (col - 1);
      extended := extended + [ConnectionPolicy(current, left)];
    }
    if row - 1 >= 0 {
      var up := (row - 1) * dim + col;
      extended := extended + [ConnectionPolicy(current, up)];
    }
  }

  /** The body of the constructor's grid loop: connects cell (row, col) to its right and its down neighbour. */
  method ConnectCell(registry: Registry, dim: nat, row: int, col: int, bandwidth: real, latency: real, bidirectional: bool)
    requires 0 <= row < dim && 0 <= col < dim && registry.devicesCount == Square(dim)
    modifies registry
    ensures registry.links == old(registry.links) + WireAll(CellPairs(dim, row, col), bandwidth, latency, bidirectional)
  {
    CellPairsFormula(dim, row, col);
    var current := row * dim + col;
    if col + 1 < dim {
      var right := row * dim + (col + 1);
      registry.Connect(current, right, bandwidth, latency, bidirectional);
    }
    if row + 1 < dim {
      var down := (row + 1) * dim + col;
      registry.Connect(current, down, bandwidth, latency, bidirectional);
    }
    WireAllAt(CellPairs(dim, row, col), bandwidth, latency, bidirectional);
  }

  /** The forward policy loop over the cells of one row. */
  method AppendForwardRow(dim: nat, row: int, policies: seq<ConnectionPolicy>) returns (extended: seq<ConnectionPolicy>)
    requires 0 <= row < dim
    ensures extended == policies + RowPairs(dim, row, dim)
  {
    extended := policies;
    var col: nat := 0;
    while col < dim
      invariant 0 <= col <= dim
      invariant extended == policies + RowPairs(dim, row, col)
    {
      AppendAssoc(policies, RowPairs(dim, row, col), CellPairs(dim, row, col));
      extended := AppendForwardCell(dim, row, col, extended);
      RowPairsNext(dim, row, col);
      col := col + 1;
    }
  }

  /** The backward policy loop over the cells of one row. */
  method AppendBackwardRow(dim: nat, row: int, policies: seq<ConnectionPolicy>) returns (extended: seq<ConnectionPolicy>)
    requires 0 <= row < dim
    ensures extended == policies + BackRowPairs(dim, row, dim)
  {
    extended := policies;
    var col: nat := 0;
    while col < dim
      invariant 0 <= col <= dim
      invariant extended == policies + BackRowPairs(dim, row, col)
    {
      AppendAssoc(policies, BackRowPairs(dim, row, col), BackCellPairs(dim, row, col));
      extended := AppendBackwardCell(dim, row, col, extended);
      BackRowPairsNext(dim, row, col);
      col := col + 1;
    }
  }

  /** The constructor's grid loop over the cells of one row. */
  method ConnectRow(registry: Registry, dim: nat, row: int, bandwidth: real, latency: real, bidirectional: bool)
    requires 0 <= row < dim && registry.devicesCount == Square(dim)
    modifies registry
    ensures registry.links == old(registry.links) + WireAll(RowPairs(dim, row, dim), bandwidth, latency, bidirectional)
  {
    ghost var before := registry.links;
    var col: nat := 0;
    while col < dim
      invariant 0 <= col <= dim
      invariant registry.links == before + WireAll(RowPairs(dim, row, col), bandwidth, latency, bidirectional)
    {
      ConnectCell(registry, dim, row, col, bandwidth, latency, bidirectional);
      WireAllAppend(RowPairs(dim, row, col), CellPairs(dim, row, col), bandwidth, latency, bidirectional);
      AppendAssoc(before, WireAll(RowPairs(dim, row, col), bandwidth, latency, bidirectional), WireAll(CellPairs(dim, row, col), bandwidth, latency, bidirectional));
      RowPairsNext(dim, row, col);
      col := col + 1;
    }
  }

  /** The forward policy loop: the right and down pairs of every cell, row by row. */
  method AppendForwardPass(dim: nat, policies: seq<ConnectionPolicy>) returns (extended: seq<ConnectionPolicy>)
    ensures extended == policies + ForwardPairs(dim)
  {
    extended := policies;
    var row: nat := 0;
    while row < dim
      invariant 0 <= row <= dim
      invariant extended == policies + GridPairs(dim, row)
    {
      extended := AppendForwardRow(dim, row, extended);
      AppendAssoc(policies, GridPairs(dim, row), RowPairs(dim, row, dim));
      GridPairsNext(dim, row);
      row := row + 1;
    }
  }

  /** The backward policy loop: the left and up pairs of every cell, row by row. */
  method AppendBackwardPass(dim: nat, policies: seq<ConnectionPolicy>) returns (extended: seq<ConnectionPolicy>)
    ensures extended == policies + BackwardPairs(dim)
  {
    extended := policies;
    var row: nat := 0;
    while row < dim
      invariant 0 <= row <= dim
      invariant extended == policies + BackGridPairs(dim, row)
    {
      extended := AppendBackwardRow(dim, row, extended);
      AppendAssoc(policies, BackGridPairs(dim, row), BackRowPairs(dim, row, dim));
      BackGridPairsNext(dim, row);
      row := row + 1;
    }
  }

  /** Wiring one more row appends that row's links. */
  lemma GridLinksNext(before: seq<Link>, dim: nat, row: nat, bandwidth: real, latency: real, bidirectional: bool)
    ensures before + WireAll(GridPairs(dim, row + 1), bandwidth, latency, bidirectional)
      == before + WireAll(GridPairs(dim, row), bandwidth, latency, bidirectional) + WireAll(RowPairs(dim, row, dim), bandwidth, latency, bidirectional)
  {
    AppendAssoc(before, WireAll(GridPairs(dim, row), bandwidth, latency, bidirectional), WireAll(RowPairs(dim, row, dim), bandwidth, latency, bidirectional));
    WireAllAppend(GridPairs(dim, row), RowPairs(dim, row, dim), bandwidth, latency, bidirectional);
    GridPairsNext(dim, row);
  }

  /** The constructor's grid loop: connects every cell to its right and down neighbours, row by row. */
  method ConnectGrid(registry: Registry, dim: nat, bandwidth: real, latency: real, bidirectional: bool)
    requires registry.devicesCount == Square(dim)
    modifies registry
    ensures registry.links == old(registry.links) + WireAll(ForwardPairs(dim), bandwidth, latency, bidirectional)
  {
    ghost var before := registry.links;
    var row: nat := 0;
    while row < dim
      invariant 0 <= row <= dim
      invariant registry.links == before + WireAll(GridPairs(dim, row), bandwidth, latency, bidirectional)
    {
      ConnectRow(registry, dim, row, bandwidth, latency, bidirectional);
      GridLinksNext(before, dim, row, bandwidth, latency, bidirectional);
      row := row + 1;
    }
  }

  // ---------------------------------------------------------------------------
  // The topology

  /** A dim x dim mesh of `npusCount` endpoints, no extra devices. */
  class Mesh2D {
    const npusCount: int
    const bidirectional: bool
    const base: Registry

    /** The endpoints are the devices, and the registry was sized for them. */
    ghost predicate Valid() {
      npusCount > 0 && base.npusCount == npusCount && base.devicesCount == npusCount
    }

    /**
     * Outside a multi-dimensional topology, connects every cell to its right
     * and down neighbours and requires a square number of endpoints; inside
     * one, connects each endpoint to the next.
     */
    constructor (npusCount: int, bandwidth: real, latency: real, bidirectional: bool, isMultiDim: bool)
      requires npusCount > 0 && bandwidth > 0.0 && latency >= 0.0
      requires !isMultiDim ==> IsSquare(npusCount)
      ensures Valid() && this.npusCount == npusCount && this.bidirectional == bidirectional
      ensures fresh(base) && base.npusCount == npusCount && base.devicesCount == npusCount
      ensures base.bandwidth == bandwidth && base.latency == latency && base.isMultiDim == isMultiDim
      ensures base.links == WireAll(if isMultiDim then ChainPairs(npusCount - 1) else ForwardPairs(ISqrt(npusCount)),
                                    bandwidth, latency, bidirectional)
    {
      this.npusCount := npusCount;
      this.bidirectional := bidirectional;
      base := new Registry(npusCount, npusCount, bandwidth, latency, isMultiDim);
      new;
      if !isMultiDim {
        ConnectGrid(base, ISqrt(npusCount), bandwidth, latency, bidirectional);
      } else {
        ConnectChain(base, npusCount, bandwidth, latency, bidirectional);
      }
    }

    /** Along the source row to the destination column, then along that column to the destination row. */
    method Route(src: DeviceId, dest: DeviceId) returns (route: Route)
      requires Valid() && 0 <= src < npusCount && 0 <= dest < npusCount
      requires IsSquare(npusCount)
      ensures route == MeshRoute(ISqrt(npusCount), src, dest)
    {
      var dim := ISqrt(npusCount);
      var srcX, srcY := CoordinatesOf(dim, src);
      var destX, destY := CoordinatesOf(dim, dest);
      route := [src];
      route := MoveAlongRow(dim, srcX, srcY, destX, destY, route);
      route := MoveAlongColumn(dim, srcX, srcY, destX, destY, route);
      MeshRouteByCoords(dim, src, dest, srcX, srcY, destX, destY);
    }

    /** The right and down pair of every cell, then, when bidirectional, the left and up pair of every cell. */
    method GetConnectionPolicies() returns (policies: seq<ConnectionPolicy>)
      requires Valid() && IsSquare(npusCount)
      ensures policies == MeshPolicies(ISqrt(npusCount), bidirectional)
    {
      var dim := ISqrt(npusCount);
      policies := CollectPolicies(dim);
    }

    /** The two passes of GetConnectionPolicies over a dim x dim grid. */
    method CollectPolicies(dim: nat) returns (policies: seq<ConnectionPolicy>)
      ensures policies == MeshPolicies(dim, bidirectional)
    {
      policies := AppendForwardPass(dim, []);
      AppendEmpty(ForwardPairs(dim));
      if bidirectional {
        policies := AppendBackwardPass(dim, policies);
      }
    }
  }
}
