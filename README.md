# Basic topologies of the congestion-aware analytical backend

This project models the four basic topology shapes of the congestion-aware
analytical network backend. Each shape is a class holding its configuration
and a link registry.

Each shape does three things:
- Its constructor wires the links by calling `connect`.
- `route` returns the devices a message visits, from source to destination.
- `get_connection_policies` lists the directed `(src, dst)` pairs the topology needs.

The shapes are:
- **Bus** (`bus.dfy`): every endpoint is joined to one hub device, whose id is `npusCount`.
- **HyperCube** (`hypercube.dfy`, with bit arithmetic in `bits.dfy`):
  - Endpoints whose ids differ in one bit are linked.
  - A link's bandwidth is doubled, then derated by a list of faulty links.
  - Routes fix the differing bits lowest first.
- **Mesh2D** (`mesh2d.dfy`):
  - The endpoints form a `dim × dim` grid with links to the right and down.
  - Routes go along the row first, then along the column.
  - Inside a multi-dimensional topology the shape falls back to a 1-D chain.
- **KingMesh2D** (`king_mesh2d.dfy`):
  - The grid also has the two downward diagonals.
  - Routes step diagonally while both coordinates still differ.
  - Policies list the whole 8-neighbourhood of every cell, plus a mirrored copy when bidirectional.

The shared parts live in two modules:
- `basic_topology.dfy` holds the link registry. `Connect` records one link.
- `grid.dfy` holds the grid helpers: the integer square root, row-major ids and the 1-D chain.

How the methods are proved:
- Every loop in the source is a `while` loop in the model.
- Each loop is proved equal to a recursive function that builds the same sequence in the same order.
  - For a constructor, that sequence is the list of recorded links.
  - For `route`, it is the list of hops.
  - For the policies, it is the list of pairs.
- The properties the code promises are then proved about those functions as lemmas.
- An `assert` in the source becomes a `requires` of the model.

## Model

| member | source | states |
|---|---|---|
| BasicTopology.Registry.Connect | congestion_aware/basic-topology/Bus.cpp:27 | connecting two existing devices records exactly that one link after the links recorded before |
| Bus.Bus.constructor | congestion_aware/basic-topology/Bus.cpp:11-29 | the bus has npusCount+1 devices and the hub is device npusCount; the recorded links are exactly the npusCount endpoint-to-hub links, in endpoint order |
| Bus.BusLinksAt | congestion_aware/basic-topology/Bus.cpp:26-28 | there are exactly npusCount links; the i-th joins endpoint i to the hub, bidirectionally, with the nominal bandwidth and latency |
| Bus.Bus.Route | congestion_aware/basic-topology/Bus.cpp:31-45 | for endpoints in range the route is exactly [src, hub, dest], also when src == dest |
| Bus.BusRouteFollowsLinks | congestion_aware/basic-topology/Bus.cpp:40-42 | both hops of every bus route are carried by a link the constructor recorded |
| Bus.Bus.GetConnectionPolicies | congestion_aware/basic-topology/Bus.cpp:47-56 | the policies are the endpoint-by-endpoint list built from the two pairs of each endpoint |
| Bus.BusPoliciesAt | congestion_aware/basic-topology/Bus.cpp:50-53 | there are 2*npusCount policies: (i, hub) at index 2i, immediately followed by (hub, i) |
| Bus.BusPoliciesStar | congestion_aware/basic-topology/Bus.cpp:51-52 | every policy has the hub at exactly one end and an endpoint at the other; the reverse of every policy is a policy |
| Bits.CeilLog2 | congestion_aware/basic-topology/HyperCube.cpp:34 | the result is the least k with n <= 2^k, which is the value of ceil(log2 n) |
| Bits.FloorLog2 | congestion_aware/basic-topology/HyperCube.cpp:103 | the result is the k with 2^k <= n < 2^(k+1), which is the value of (int) log2 n |
| Bits.XorComm | congestion_aware/basic-topology/HyperCube.cpp:76 | exclusive or is commutative |
| Bits.XorZeroIff | congestion_aware/basic-topology/HyperCube.cpp:74-76 | a xor b is 0 exactly when a == b, so the route loop stops exactly at dest |
| Bits.FlipIsOneBit | congestion_aware/basic-topology/HyperCube.cpp:38 | flipping bit k yields a different id at Hamming distance 1 |
| Bits.ClearLowest | congestion_aware/basic-topology/HyperCube.cpp:79-83 | flipping the lowest set bit of x, found by ctz, subtracts that bit from x |
| HyperCube.HyperCube.FaultDerate | congestion_aware/basic-topology/HyperCube.cpp:121-132 | the scan returns the health of the first entry naming {src, dst} in either orientation, or 1.0 when no entry names the pair |
| HyperCube.DerateFirstMatch | congestion_aware/basic-topology/HyperCube.cpp:122-131 | the lookup returns 1.0 when no entry matches, and otherwise the health of the first matching entry |
| HyperCube.DerateSymmetric | congestion_aware/basic-topology/HyperCube.cpp:127 | the lookup gives the same factor for (a, b) and (b, a) |
| HyperCube.CubeLinkBandwidth | congestion_aware/basic-topology/HyperCube.cpp:32-45 | a pair absent from the fault list gets 2*bandwidth; a first match of health h gets 2*bandwidth*h, or 2*bandwidth when h is 0 |
| HyperCube.HyperCube.constructor | congestion_aware/basic-topology/HyperCube.cpp:13-60 | the cube has npusCount devices; a multi-dimensional cube records no link; otherwise the links are exactly those of the u, d loops, with d < ceil(log2 n) |
| HyperCube.HyperCube.ConnectNode | congestion_aware/basic-topology/HyperCube.cpp:37-52 | the inner loop over bits appends exactly the links of node u whose flipped neighbour is an endpoint |
| HyperCube.HyperCube.ConnectAcross | congestion_aware/basic-topology/HyperCube.cpp:38-51 | one bit position: the link to u xor 2^d is appended exactly when that neighbour is below npusCount |
| HyperCube.NodeLinksSound | congestion_aware/basic-topology/HyperCube.cpp:37-52 | every link recorded for node u leaves u, reaches an endpoint one bit away and carries the derated parameters |
| HyperCube.CubeLinksSound | congestion_aware/basic-topology/HyperCube.cpp:36-53 | every recorded link joins two endpoints that differ in exactly one bit, with the derated parameters |
| HyperCube.NodeLinkPresent | congestion_aware/basic-topology/HyperCube.cpp:37-52 | node u records a link across every bit e below the bound whose neighbour is an endpoint |
| HyperCube.CubeLinkPresent | congestion_aware/basic-topology/HyperCube.cpp:36-53 | for every node u and bit e in range, the link to the neighbour across e is recorded when that neighbour is an endpoint |
| HyperCube.CubeNeighboursLinked | congestion_aware/basic-topology/HyperCube.cpp:36-53 | every pair of endpoints one bit apart is connected twice, once from each side: the link in each orientation occurs exactly once in the recorded list, and both links have the same bandwidth |
| HyperCube.CubeLinksDistinct | congestion_aware/basic-topology/HyperCube.cpp:36-53 | no link is recorded twice: links of different endpoints leave different ids, and one endpoint's links cross different bits |
| HyperCube.NodeLinksCountPow2 | congestion_aware/basic-topology/HyperCube.cpp:37-52 | for a power-of-two cube every node records one link per bit tried |
| HyperCube.CubeLinksCountPow2 | congestion_aware/basic-topology/HyperCube.cpp:36-53 | a cube of 2^k endpoints records exactly 2^k * k links |
| HyperCube.NextHopCloser | congestion_aware/basic-topology/HyperCube.cpp:76-83 | the next hop flips the lowest differing bit; it is one bit away from the current node and one bit closer to dest, and later flips are at higher bits |
| HyperCube.FlipBitAcross | congestion_aware/basic-topology/HyperCube.cpp:83 | flipping bit e moves to a different node with e as the flipped bit, and flipping it again returns to the start |
| HyperCube.HyperCube.Route | congestion_aware/basic-topology/HyperCube.cpp:62-96 | the while loop produces exactly the lowest-bit-first bit-fixing path from src to dest |
| HyperCube.BitFixRouteEnds | congestion_aware/basic-topology/HyperCube.cpp:68-95 | the route starts at src, ends at dest and has Hamming(src, dest) + 1 hops |
| HyperCube.BitFixRouteOneBit | congestion_aware/basic-topology/HyperCube.cpp:79-83 | consecutive hops differ in exactly one bit |
| HyperCube.BitFixRouteRising | congestion_aware/basic-topology/HyperCube.cpp:79-83 | the flipped bit positions strictly increase along the route, starting at the lowest differing bit |
| HyperCube.BitFixRouteBelow | congestion_aware/basic-topology/HyperCube.cpp:86 | when both ends are below 2^k every hop is below 2^k, so for a power-of-two cube the asserted safety check always holds |
| HyperCube.IrregularCubeRouteLeaves | congestion_aware/basic-topology/HyperCube.cpp:86 | with 3 endpoints the route from 2 to 1 is [2, 3, 1]; it visits 3, which is not an endpoint, so the assertion can fail |
| HyperCube.CubeRouteFollowsLinks | congestion_aware/basic-topology/HyperCube.cpp:36-93 | every hop of an in-range route is carried by a link the constructor recorded |
| HyperCube.HyperCube.GetConnectionPolicies | congestion_aware/basic-topology/HyperCube.cpp:99-118 | the nested loops produce exactly the node-by-node, bit-by-bit list over floor(log2 n) bits |
| HyperCube.HyperCube.CollectPolicies | congestion_aware/basic-topology/HyperCube.cpp:105-115 | the outer loop over nodes builds the policies of nodes 0 .. n-1 in order |
| HyperCube.HyperCube.AppendNodePolicies | congestion_aware/basic-topology/HyperCube.cpp:106-114 | the inner loop over bits appends node i's pairs for bits 0 .. dims-1 in order |
| HyperCube.HyperCube.AppendNeighbourPolicies | congestion_aware/basic-topology/HyperCube.cpp:108-113 | one bit: the pair to the neighbour is appended, followed by its reverse when bidirectional |
| HyperCube.NodePoliciesAt | congestion_aware/basic-topology/HyperCube.cpp:106-114 | node i has dims pairs, or 2*dims when bidirectional; the pair for bit e sits at its position in order, with its reverse right after it |
| HyperCube.CubePoliciesCount | congestion_aware/basic-topology/HyperCube.cpp:103-115 | there are exactly n * dims * (2 if bidirectional else 1) policies |
| HyperCube.CubePolicyPresent | congestion_aware/basic-topology/HyperCube.cpp:105-115 | for every node and bit, the pair to its neighbour is listed, and so is the reverse when bidirectional |
| HyperCube.CubePolicyShape | congestion_aware/basic-topology/HyperCube.cpp:105-115 | every listed policy is (i, i xor 2^e) for some node i and bit e, or the reverse of one when bidirectional |
| HyperCube.CubePolicyOrigin | congestion_aware/basic-topology/HyperCube.cpp:105-115 | every position of the list belongs to one node's block of pairs |
| HyperCube.CubePoliciesSound | congestion_aware/basic-topology/HyperCube.cpp:105-115 | every policy joins a node to, or from, its neighbour across one of the dims bits |
| HyperCube.CubePoliciesPaired | congestion_aware/basic-topology/HyperCube.cpp:109-113 | when bidirectional, the pair at every odd index is the reverse of the pair just before it |
| HyperCube.CubePoliciesOneBit | congestion_aware/basic-topology/HyperCube.cpp:108-109 | every policy joins two ids that differ in exactly one bit |
| HyperCube.CubePoliciesWithin | congestion_aware/basic-topology/HyperCube.cpp:103-115 | for a power-of-two cube both ends of every policy are endpoints |
| HyperCube.CubePoliciesLinked | congestion_aware/basic-topology/HyperCube.cpp:36-115 | for a power-of-two cube every policy is carried by a link the constructor recorded |
| Grid.ISqrt | congestion_aware/basic-topology/Mesh2D.cpp:28 | the result r satisfies r*r <= n < (r+1)*(r+1), which is the value of (int) sqrt(n) |
| Grid.ISqrtOfSquare | congestion_aware/basic-topology/Mesh2D.cpp:28-29 | the root of dim*dim is dim, so the squareness assertion accepts exactly the square sizes |
| Grid.RowColDivMod | congestion_aware/basic-topology/Mesh2D.cpp:74-77 | the row and column of an id are its quotient and remainder by dim |
| Grid.Cell | congestion_aware/basic-topology/Mesh2D.cpp:33 | the id row*dim+col of a grid cell is below dim*dim and gives back the same row and column |
| Grid.Coords | congestion_aware/basic-topology/Mesh2D.cpp:74-77 | every id below dim*dim is the cell at its row and column |
| Grid.CoordinatesOf | congestion_aware/basic-topology/Mesh2D.cpp:74-77 | it returns the column and row of an id, and row*dim+col gives the id back |
| Grid.TowardBetween | congestion_aware/basic-topology/KingMesh2D.cpp:96-104 | after k steps toward t a coordinate stays between s and t, at distance min(k, \|t-s\|) from s, and it equals t exactly from step \|t-s\| on |
| Grid.TowardStep | congestion_aware/basic-topology/KingMesh2D.cpp:96-104 | each step before t moves the coordinate one unit toward t; after that it stays at t |
| Grid.ChainPairsAt | congestion_aware/basic-topology/Mesh2D.cpp:50-52 | the chain has exactly n-1 pairs; the i-th joins i to i+1 |
| Grid.ChainLinksAt | congestion_aware/basic-topology/Mesh2D.cpp:50-52 | the fallback records exactly n-1 links; the i-th joins i to i+1 with the nominal parameters |
| Grid.ConnectChain | congestion_aware/basic-topology/KingMesh2D.cpp:56-62 | the fallback loop appends exactly the chain links (i, i+1) for i < n-1; Mesh2D.cpp:50-52 is the same loop |
| Mesh2D.Mesh2D.constructor | congestion_aware/basic-topology/Mesh2D.cpp:13-61 | a multi-dimensional mesh records exactly the chain links; otherwise a square mesh records exactly the right and down links, cell by cell in row-major order |
| Mesh2D.ConnectGrid | congestion_aware/basic-topology/Mesh2D.cpp:31-47 | the row loop appends exactly the forward pairs of every row, wired with the nominal parameters |
| Mesh2D.ConnectRow | congestion_aware/basic-topology/Mesh2D.cpp:32-46 | the column loop appends exactly the right and down links of each cell of the row |
| Mesh2D.ConnectCell | congestion_aware/basic-topology/Mesh2D.cpp:33-45 | a cell records its right link when col+1 < dim and its down link when row+1 < dim, in that order |
| Mesh2D.ForwardPairsCount | congestion_aware/basic-topology/Mesh2D.cpp:31-47 | a dim×dim grid has exactly 2*dim*(dim-1) right and down pairs, so the constructor records that many links |
| Mesh2D.BackwardPairsCount | congestion_aware/basic-topology/Mesh2D.cpp:137-155 | the left and up pass also has exactly 2*dim*(dim-1) pairs |
| Mesh2D.MeshPoliciesCount | congestion_aware/basic-topology/Mesh2D.cpp:118-155 | there are 2*dim*(dim-1) policies, or 4*dim*(dim-1) when bidirectional |
| Mesh2D.MeshPassesExact | congestion_aware/basic-topology/Mesh2D.cpp:118-155 | a pair is in the forward pass exactly when it is a right or down step inside the grid; it is in the backward pass exactly when it is a left or up step |
| Mesh2D.MeshPassesMirror | congestion_aware/basic-topology/Mesh2D.cpp:137-155 | a pair is in the backward pass exactly when its reverse is in the forward pass |
| Mesh2D.MeshPoliciesAdjacent | congestion_aware/basic-topology/Mesh2D.cpp:123-151 | every policy joins two orthogonally adjacent cells and is never a self-pair |
| Mesh2D.Mesh2D.GetConnectionPolicies | congestion_aware/basic-topology/Mesh2D.cpp:111-158 | the result is the row-major forward pass, followed by the backward pass when bidirectional |
| Mesh2D.Mesh2D.CollectPolicies | congestion_aware/basic-topology/Mesh2D.cpp:118-155 | the two appending passes give the forward pairs, followed by the backward pairs when bidirectional |
| Mesh2D.AppendForwardPass | congestion_aware/basic-topology/Mesh2D.cpp:118-134 | the first pass's row loop appends exactly the right and down pairs of all rows |
| Mesh2D.AppendForwardRow | congestion_aware/basic-topology/Mesh2D.cpp:119-133 | one row of the first pass appends each cell's right pair, then its down pair |
| Mesh2D.AppendForwardCell | congestion_aware/basic-topology/Mesh2D.cpp:122-132 | a cell emits its right pair when col+1 < dim and its down pair when row+1 < dim |
| Mesh2D.AppendBackwardPass | congestion_aware/basic-topology/Mesh2D.cpp:137-155 | the second pass's row loop appends exactly the left and up pairs of all rows |
| Mesh2D.AppendBackwardRow | congestion_aware/basic-topology/Mesh2D.cpp:138-154 | one row of the second pass appends each cell's left pair, then its up pair |
| Mesh2D.AppendBackwardCell | congestion_aware/basic-topology/Mesh2D.cpp:141-152 | a cell emits its left pair when col-1 >= 0 and its up pair when row-1 >= 0 |
| Mesh2D.Mesh2D.Route | congestion_aware/basic-topology/Mesh2D.cpp:63-109 | the two while loops produce exactly the X-then-Y route of the grid |
| Mesh2D.MoveAlongRow | congestion_aware/basic-topology/Mesh2D.cpp:94-98 | the X loop extends the route by \|Δx\| hops along the source row |
| Mesh2D.MoveAlongColumn | congestion_aware/basic-topology/Mesh2D.cpp:101-105 | the Y loop extends the route by \|Δy\| hops along the destination column |
| Mesh2D.MeshRouteByCoords | congestion_aware/basic-topology/Mesh2D.cpp:74-105 | the route is the coordinate walk: first all column steps, then all row steps |
| Mesh2D.MeshRouteEnds | congestion_aware/basic-topology/Mesh2D.cpp:88-105 | the route starts at src, ends at dest, has \|Δx\|+\|Δy\|+1 hops, is [src] when src == dest, and stays inside the grid |
| Mesh2D.MeshRouteColumnSteps | congestion_aware/basic-topology/Mesh2D.cpp:94-98 | each of the first \|Δx\| steps keeps the row and moves the id by the sign of Δx |
| Mesh2D.MeshRouteRowSteps | congestion_aware/basic-topology/Mesh2D.cpp:101-105 | each of the remaining steps keeps the column and moves the row by the sign of Δy |
| Mesh2D.MeshRouteAdjacent | congestion_aware/basic-topology/Mesh2D.cpp:94-105 | consecutive hops are orthogonal grid neighbours |
| Mesh2D.MeshRouteFollowsLinks | congestion_aware/basic-topology/Mesh2D.cpp:94-105 | every hop of a route is carried by a bidirectional right or down link the constructor records |
| KingMesh2D.KingNeighboursSymmetric | congestion_aware/basic-topology/KingMesh2D.cpp:133-142 | the king-move neighbourhood is symmetric |
| KingMesh2D.KingMesh2D.constructor | congestion_aware/basic-topology/KingMesh2D.cpp:13-69 | a multi-dimensional mesh records exactly the chain links; otherwise a square mesh records, cell by cell, the right, down, down-right and down-left links that exist |
| KingMesh2D.ConnectGrid | congestion_aware/basic-topology/KingMesh2D.cpp:31-55 | the row loop appends exactly the links of every row in row-major order |
| KingMesh2D.ConnectRow | congestion_aware/basic-topology/KingMesh2D.cpp:32-54 | the column loop appends exactly the links of each cell of the row |
| KingMesh2D.ConnectCell | congestion_aware/basic-topology/KingMesh2D.cpp:33-53 | a cell records its right link, and when row+1 < dim its down, down-right and down-left links whose column is on the grid, in that order |
| KingMesh2D.ConnectOffset | congestion_aware/basic-topology/KingMesh2D.cpp:36-52 | one direction: the link to (row+dy, col+dx) is appended exactly when that cell is on the grid |
| KingMesh2D.LinkPairsExact | congestion_aware/basic-topology/KingMesh2D.cpp:31-55 | a pair is linked exactly when its two ids are king neighbours with src < dst: every neighbour pair is connected from its upper or left cell |
| KingMesh2D.LinkPairsOnce | congestion_aware/basic-topology/KingMesh2D.cpp:31-55 | no two recorded links are the same pair, so every neighbour pair with src < dst occurs exactly once among the links |
| KingMesh2D.LinkPairsCount | congestion_aware/basic-topology/KingMesh2D.cpp:31-55 | the grid construction records exactly 2*dim*(dim-1) + 2*(dim-1)^2 links |
| KingMesh2D.GridLinkPairsCount | congestion_aware/basic-topology/KingMesh2D.cpp:31-55 | after the first k rows there are k*(dim-1) + min(k, dim-1)*(3*dim-2) links |
| KingMesh2D.KingMesh2D.GetConnectionPolicies | congestion_aware/basic-topology/KingMesh2D.cpp:121-165 | the result is the row-major 8-neighbourhood list, followed by its reversed copy when bidirectional |
| KingMesh2D.KingMesh2D.CollectPolicies | congestion_aware/basic-topology/KingMesh2D.cpp:128-162 | the forward pass, then the reversed copy appended when bidirectional |
| KingMesh2D.AppendNeighbourPass | congestion_aware/basic-topology/KingMesh2D.cpp:128-149 | the row loop appends exactly the neighbour pairs of all cells in row-major order |
| KingMesh2D.AppendRowNeighbours | congestion_aware/basic-topology/KingMesh2D.cpp:129-148 | the column loop appends the neighbour pairs of each cell of the row |
| KingMesh2D.AppendCellNeighbours | congestion_aware/basic-topology/KingMesh2D.cpp:130-147 | the dy loop over -1, 0, 1 appends the rows of the cell's neighbourhood in order |
| KingMesh2D.AppendOffsetRow | congestion_aware/basic-topology/KingMesh2D.cpp:134-146 | the dx loop over -1, 0, 1 appends the pairs of one row of the neighbourhood in order |
| KingMesh2D.AppendOffset | congestion_aware/basic-topology/KingMesh2D.cpp:136-145 | one offset: the cell itself is skipped, and the pair is appended exactly when the cell at that offset is on the grid |
| KingMesh2D.ReversedCopy | congestion_aware/basic-topology/KingMesh2D.cpp:155-158 | the copy holds every forward pair reversed, in the same order |
| KingMesh2D.NeighbourPairsExact | congestion_aware/basic-topology/KingMesh2D.cpp:128-149 | a pair is in the forward list exactly when its ids are distinct cells of the grid at most one row and one column apart |
| KingMesh2D.NeighbourPairsOnce | congestion_aware/basic-topology/KingMesh2D.cpp:128-149 | no pair occurs twice in the forward list, so every ordered pair of king neighbours occurs in it exactly once |
| KingMesh2D.KingPoliciesExact | congestion_aware/basic-topology/KingMesh2D.cpp:128-162 | policy membership is exactly king adjacency; bidirectional doubles the length, and element i of the appended half is the reverse of forward element i |
| KingMesh2D.KingPoliciesTwice | congestion_aware/basic-topology/KingMesh2D.cpp:128-162 | every ordered pair of king neighbours occurs exactly twice among the policies when bidirectional, and exactly once otherwise |
| KingMesh2D.KingPoliciesLinked | congestion_aware/basic-topology/KingMesh2D.cpp:128-162 | every policy is carried by a bidirectional link the grid constructor records |
| KingMesh2D.NeighboursLinked | congestion_aware/basic-topology/KingMesh2D.cpp:31-55 | every pair of king neighbours is carried by a recorded bidirectional link, in either direction |
| KingMesh2D.KingMesh2D.Route | congestion_aware/basic-topology/KingMesh2D.cpp:71-118 | the while loop produces exactly the diagonal-greedy route of the grid |
| KingMesh2D.KingWalk | congestion_aware/basic-topology/KingMesh2D.cpp:87-115 | the loop produces Chebyshev-distance-plus-one hops; hop k is at Toward(x, k), Toward(y, k), so the clamping never changes a coordinate |
| KingMesh2D.StepToward | congestion_aware/basic-topology/KingMesh2D.cpp:96-100 | the step is the sign of the remaining distance: +1, 0 or -1 |
| KingMesh2D.Clamp | congestion_aware/basic-topology/KingMesh2D.cpp:107-111 | the result is on the grid: a negative coordinate becomes 0, one at dim or above becomes dim - 1, and one already on the grid is kept |
| KingMesh2D.WalkAxis | congestion_aware/basic-topology/KingMesh2D.cpp:96-111 | one loop step moves a coordinate by the sign of its remaining distance and keeps it on the grid, so the clamp is a no-op |
| KingMesh2D.KingHopCell | congestion_aware/basic-topology/KingMesh2D.cpp:93-115 | hop k is on the grid, and its row and column are k steps from the source toward the destination |
| KingMesh2D.KingRouteEnds | congestion_aware/basic-topology/KingMesh2D.cpp:90-115 | the route starts at src, ends at dest, has max(\|Δx\|, \|Δy\|)+1 hops, is [src] when src == dest, and stays inside the grid |
| KingMesh2D.KingRouteStep | congestion_aware/basic-topology/KingMesh2D.cpp:94-104 | each step moves each coordinate by the sign of its delta while that axis still differs, and after that leaves it fixed: each axis moves monotonically toward dest |
| KingMesh2D.KingRouteAdjacent | congestion_aware/basic-topology/KingMesh2D.cpp:94-104 | consecutive hops are king neighbours, at Chebyshev distance exactly 1 |
| KingMesh2D.KingRouteFollowsLinks | congestion_aware/basic-topology/KingMesh2D.cpp:93-115 | every hop of a route is carried by a link the grid constructor records |

## Left out

- `BasicTopology::connect` and the `devices` store are not part of this model.
  - `Registry.Connect` only records the call.
  - A route holds device ids instead of device objects.
- `basic_topology_type`: the shape tag the constructors set selects nothing in these files, so it is not modelled.
- The `std::cout` trace for a derated link in the HyperCube constructor is output only and is left out.
- The convenience HyperCube constructor that delegates to the full one is not modelled. The full constructor keeps the default arguments `bidirectional = true`, `is_multi_dim = false` and `non_recursive_topo = 1`.
- `non_recursive_topo` is stored by the HyperCube and never read.
- `Helper.h` (`construct_topology`, the address-pair and free-combination generators) is not part of this model. Its bodies are not available, and it depends on the network configuration parser.
- Floating point is not modelled:
  - `sqrt` is the integer square root `ISqrt`.
  - `ceil(log2 n)` is `CeilLog2` and `(int) log2 n` is `FloorLog2`.
  - These are exact for every positive count, so rounding of the floating-point library is not modelled.
  - Bandwidth and latency are real numbers.
- Ids are unbounded integers, so 32-bit overflow of `int` in `1 << d` and `row * dim + col` is not modelled. It only arises for counts far beyond 2^31 devices.
- `HyperCube.HyperCube.Route`: the source asserts before every hop that the next hop is an endpoint. That assertion becomes the precondition that the whole bit-fixing path stays below `npusCount`.
  - `BitFixRouteBelow` proves the condition for every power-of-two cube.
  - `IrregularCubeRouteLeaves` shows it can fail for other sizes.
- `HyperCube.CubePoliciesWithin`: for counts that are not powers of two, the source's policies can name ids at or above `npusCount`. That case is modelled as written, and the in-range property is proved for powers of two only.
- `Mesh2D.Mesh2D.Route`, `Mesh2D.Mesh2D.GetConnectionPolicies`, `KingMesh2D.KingMesh2D.Route` and `KingMesh2D.KingMesh2D.GetConnectionPolicies` require a square count. This mirrors the source's squareness assertion, which runs even when a multi-dimensional instance was built as a chain.
- `KingMesh2D.ConnectOffset` checks the target cell with one uniform guard, `row+dy < dim && 0 <= col+dx < dim`. The source nests the diagonal checks under the down check. For cells of the grid the two give the same links, and the order is the same, so `ConnectCell` keeps the source's sequence.
- Some loop bodies are extracted into helper methods, each proved against the same functions as the loop:
  - HyperCube: `ConnectNode`, `ConnectAcross`, `AppendNodePolicies`, `AppendNeighbourPolicies`.
  - Meshes: `ConnectRow`, `ConnectCell`, `AppendForwardRow` and others.
  - King route: `StepToward` and `Clamp`.

  The source writes these bodies inline.
- `HyperCube.LinkBandwidth`: a derate of exactly 0 counts as no fault, and the link gets `2*bandwidth`.
  - A health of 0 would naturally mean a fully degraded link.
  - The model follows the code; `CubeLinkBandwidth` states both cases.
