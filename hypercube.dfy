/**
 * A hypercube: endpoints whose ids differ in exactly one bit are neighbours.
 * Links may be derated by a list of faulty links; routes fix the differing
 * bits lowest first.
 */
module HyperCube {
  import opened Bits
  import opened BasicTopology
  import Arith

  /** An entry of the faulty-link list: the pair (a, b) and its health factor. */
  datatype FaultyLink = FaultyLink(a: int, b: int, health: real)

  /** The parameters the constructor wires every link with. */
  datatype Wiring = Wiring(npusCount: nat, bandwidth: real, latency: real, bidirectional: bool, faultyLinks: seq<FaultyLink>)

  /** The entry names the pair {x, y}, in either orientation. */
  predicate Names(f: FaultyLink, x: int, y: int) {
    (f.a == x && f.b == y) || (f.a == y && f.b == x)
  }

  /** Entry i is the first entry of `faults` that names {x, y}. */
  predicate FirstNaming(faults: seq<FaultyLink>, i: int, x: int, y: int) {
    0 <= i < |faults| && Names(faults[i], x, y) && forall j :: 0 <= j < i ==> !Names(faults[j], x, y)
  }

  /** No entry of `faults` names {x, y}. */
  predicate NoneNaming(faults: seq<FaultyLink>, x: int, y: int) {
    forall i :: 0 <= i < |faults| ==> !Names(faults[i], x, y)
  }

  /** The health of the first entry naming {x, y}; 1 when no entry does. */
  function Derate(faults: seq<FaultyLink>, x: int, y: int): real {
    if faults == [] then 1.0
    else if Names(faults[0], x, y) then faults[0].health
    else Derate(faults[1..], x, y)
  }

  /** Every hypercube link carries twice the nominal bandwidth before derating. */
  const ScaleFactor: real := 2.0

  /** The bandwidth of a link of nominal `bandwidth` under `derate`; a derate of 0 counts as no fault. */
  function LinkBandwidth(bandwidth: real, derate: real): real {
    if derate == 0.0 then bandwidth * ScaleFactor else bandwidth * derate * ScaleFactor
  }

  /** The link the constructor records from u to its neighbour v. */
  function CubeLink(w: Wiring, u: nat, v: nat): Link {
    Link(u, v, LinkBandwidth(w.bandwidth, Derate(w.faultyLinks, u, v)), w.latency, w.bidirectional)
  }

  /** The links recorded for node u while trying bits 0 .. d-1. */
  function NodeLinks(w: Wiring, u: nat, d: nat): seq<Link> {
    if d == 0 then [] else NodeLinks(w, u, d - 1) + NodeLink(w, u, d - 1)
  }

  /** The link recorded for node u across bit e: none when the neighbour is not an endpoint. */
  function NodeLink(w: Wiring, u: nat, e: nat): seq<Link> {
    var v := Xor(u, Pow2(e));
    if v < w.npusCount then [CubeLink(w, u, v)] else []
  }

  /** The links recorded for nodes 0 .. m-1, each trying bits 0 .. bits-1. */
  function CubeLinks(w: Wiring, bits: nat, m: nat): seq<Link> {
    if m == 0 then [] else CubeLinks(w, bits, m - 1) + NodeLinks(w, m - 1, bits)
  }

  /** The policies of node i for bits 0 .. d-1, each forward pair followed by its reverse when bidirectional. */
  function NodePolicies(bidirectional: bool, i: nat, d: nat): seq<ConnectionPolicy> {
    if d == 0 then [] else NodePolicies(bidirectional, i, d - 1) + NeighbourPolicies(bidirectional, i, d - 1)
  }

  /** The pair from node i to its neighbour across bit e, followed by its reverse when bidirectional. */
  function NeighbourPolicies(bidirectional: bool, i: nat, e: nat): seq<ConnectionPolicy> {
    var neighbor := Xor(i, Pow2(e));
    [ConnectionPolicy(i, neighbor)] + (if bidirectional then [ConnectionPolicy(neighbor, i)] else [])
  }

  /** The policies of nodes 0 .. m-1 over `dims` bits. */
  function CubePolicies(dims: nat, bidirectional: bool, m: nat): seq<ConnectionPolicy> {
    if m == 0 then [] else CubePolicies(dims, bidirectional, m - 1) + NodePolicies(bidirectional, m - 1, dims)
  }

  lemma CubePoliciesNext(dims: nat, bidirectional: bool, m: nat)
    ensures CubePolicies(dims, bidirectional, m + 1) == CubePolicies(dims, bidirectional, m) + NodePolicies(bidirectional, m, dims)
  {
  }

  /** The hop after `cur` on the way to `dest`: flip the lowest bit in which they differ. */
  function NextHop(cur: nat, dest: nat): nat
    requires cur != dest
  {
    XorZeroIff(cur, dest);
    Xor(cur, Pow2(Ctz(Xor(cur, dest))))
  }

  /** The bit-fixing route from `cur` to `dest`, both included. */
  function BitFixRoute(cur: nat, dest: nat): seq<nat>
    decreases Hamming(cur, dest)
  {
    if cur == dest then [cur]
    else
      NextHopCloser(cur, dest);
      [cur] + BitFixRoute(NextHop(cur, dest), dest)
  }

  /** The bit in which two distinct ids differ lowest. */
  function FlipBit(a: nat, b: nat): nat
    requires a != b
  {
    XorZeroIff(a, b);
    Ctz(Xor(a, b))
  }

  /** Flipping bit e of a gives a neighbour that differs from a in bit e alone, seen from either side. */
  lemma FlipBitAcross(a: nat, e: nat)
    ensures Xor(a, Pow2(e)) != a
    ensures FlipBit(a, Xor(a, Pow2(e))) == e && FlipBit(Xor(a, Pow2(e)), a) == e
    ensures Xor(Xor(a, Pow2(e)), Pow2(e)) == a
  {
    var b := Xor(a, Pow2(e));
    FlipIsOneBit(a, e);
    XorCancel(Pow2(e), a);
    XorCancel(a, Pow2(e));
    XorComm(b, a);
    CtzPow2(e);
  }

  // ---------------------------------------------------------------------------
  // Fault derating

  /** Derate finds the first entry that names the pair, and defaults to 1. */
  lemma {:induction false} DerateFirstMatch(faults: seq<FaultyLink>, x: int, y: int)
    ensures NoneNaming(faults, x, y) ==> Derate(faults, x, y) == 1.0
    ensures forall i :: FirstNaming(faults, i, x, y) ==> Derate(faults, x, y) == faults[i].health
  {
    if faults != [] {
      DerateFirstMatch(faults[1..], x, y);
      if NoneNaming(faults, x, y) {
        assert !Names(faults[0], x, y);
        assert forall i :: 0 <= i < |faults| - 1 ==> faults[1..][i] == faults[i + 1];
      }
      forall i | FirstNaming(faults, i, x, y)
        ensures Derate(faults, x, y) == faults[i].health
      {
        if i > 0 {
          assert !Names(faults[0], x, y);
          assert faults[1..][i - 1] == faults[i];
          assert forall j :: 0 <= j < i - 1 ==> faults[1..][j] == faults[j + 1];
          assert FirstNaming(faults[1..], i - 1, x, y);
        }
      }
    }
  }

  /** The derating of a pair does not depend on its orientation. */
  lemma {:induction false} DerateSymmetric(faults: seq<FaultyLink>, x: int, y: int)
    ensures Derate(faults, x, y) == Derate(faults, y, x)
  {
    if faults != [] {
      DerateSymmetric(faults[1..], x, y);
    }
  }

  /**
   * A pair no entry names gets twice the nominal bandwidth; a pair whose
   * first entry has health h gets twice the nominal bandwidth times h, except
   * that a health of 0 counts as no fault.
   */
  lemma CubeLinkBandwidth(w: Wiring, u: nat, v: nat)
    ensures NoneNaming(w.faultyLinks, u, v) ==> CubeLink(w, u, v).bandwidth == 2.0 * w.bandwidth
    ensures forall i :: FirstNaming(w.faultyLinks, i, u, v) ==>
      CubeLink(w, u, v).bandwidth
        == if w.faultyLinks[i].health == 0.0 then 2.0 * w.bandwidth else 2.0 * w.bandwidth * w.faultyLinks[i].health
  {
    DerateFirstMatch(w.faultyLinks, u, v);
  }

  // ---------------------------------------------------------------------------
  // Construction

  /** Every link the construction records joins two endpoints one bit apart, with the derated parameters. */
  lemma {:induction false} NodeLinksSound(w: Wiring, u: nat, d: nat)
    requires u < w.npusCount
    ensures forall l :: l in NodeLinks(w, u, d) ==>
      l.src == u && 0 <= l.dst < w.npusCount && Hamming(l.src, l.dst) == 1 && l == CubeLink(w, l.src, l.dst)
  {
    if d > 0 {
      NodeLinksSound(w, u, d - 1);
      FlipIsOneBit(u, d - 1);
    }
  }

  lemma {:induction false} CubeLinksSound(w: Wiring, bits: nat, m: nat)
    requires m <= w.npusCount
    ensures forall l :: l in CubeLinks(w, bits, m) ==>
      0 <= l.src < m && 0 <= l.dst < w.npusCount && Hamming(l.src, l.dst) == 1 && l == CubeLink(w, l.src, l.dst)
  {
    if m > 0 {
      CubeLinksSound(w, bits, m - 1);
      NodeLinksSound(w, m - 1, bits);
      var prefix, node := CubeLinks(w, bits, m - 1), NodeLinks(w, m - 1, bits);
      forall l: Link | l in prefix + node
        ensures 0 <= l.src < m && 0 <= l.dst < w.npusCount && Hamming(l.src, l.dst) == 1 && l == CubeLink(w, l.src, l.dst)
      {
        InConcat(l, prefix, node);
      }
    }
  }

  /** Node u records the link across bit e, for every e below d whose flip stays below npusCount. */
  lemma {:induction false} NodeLinkPresent(w: Wiring, u: nat, d: nat, e: nat)
    requires e < d && Xor(u, Pow2(e)) < w.npusCount
    ensures CubeLink(w, u, Xor(u, Pow2(e))) in NodeLinks(w, u, d)
  {
    if d > 0 {
      var prefix, last := NodeLinks(w, u, d - 1), NodeLink(w, u, d - 1);
      if e < d - 1 {
        NodeLinkPresent(w, u, d - 1, e);
        InLeft(CubeLink(w, u, Xor(u, Pow2(e))), prefix, last);
      } else {
        assert last == [CubeLink(w, u, Xor(u, Pow2(e)))];
        InRight(CubeLink(w, u, Xor(u, Pow2(e))), prefix, last);
      }
    }
  }

  /** Every node u below m records the link across every bit e below bits whose flip stays below npusCount. */
  lemma {:induction false} CubeLinkPresent(w: Wiring, bits: nat, m: nat, u: nat, e: nat)
    requires u < m && e < bits && Xor(u, Pow2(e)) < w.npusCount
    ensures CubeLink(w, u, Xor(u, Pow2(e))) in CubeLinks(w, bits, m)
  {
    if m > 0 {
      var prefix, node := CubeLinks(w, bits, m - 1), NodeLinks(w, m - 1, bits);
      if u < m - 1 {
        CubeLinkPresent(w, bits, m - 1, u, e);
        InLeft(CubeLink(w, u, Xor(u, Pow2(e))), prefix, node);
      } else {
        NodeLinkPresent(w, u, bits, e);
        InRight(CubeLink(w, u, Xor(u, Pow2(e))), prefix, node);
      }
    }
  }

  /** Flipping two different bits of the same id gives two different ids. */
  lemma FlipInjective(u: nat, e: nat, e': nat)
    requires e != e'
    ensures Xor(u, Pow2(e)) != Xor(u, Pow2(e'))
  {
    FlipBitAcross(u, e);
    FlipBitAcross(u, e');
  }

  /** Every link recorded for node u while trying bits 0 .. d-1 goes across one of those bits. */
  lemma {:induction false} NodeLinkOrigin(w: Wiring, u: nat, d: nat, l: Link) returns (e: nat)
    requires l in NodeLinks(w, u, d)
    ensures e < d && l == CubeLink(w, u, Xor(u, Pow2(e)))
  {
    if d > 0 {
      var a, b := NodeLinks(w, u, d - 1), NodeLink(w, u, d - 1);
      InConcat(l, a, b);
      if l in a {
        e := NodeLinkOrigin(w, u, d - 1, l);
      } else {
        e := d - 1;
      }
    }
  }

  /** Node u records at most one link per neighbour. */
  lemma {:induction false} NodeLinksDistinct(w: Wiring, u: nat, d: nat)
    ensures Distinct(NodeLinks(w, u, d))
  {
    if d > 0 {
      var a, b := NodeLinks(w, u, d - 1), NodeLink(w, u, d - 1);
      NodeLinksDistinct(w, u, d - 1);
      forall l, l' | l in a && l' in b
        ensures l != l'
      {
        var e := NodeLinkOrigin(w, u, d - 1, l);
        FlipInjective(u, e, d - 1);
      }
      DistinctAppend(a, b);
    }
  }

  /** The links of nodes 0 .. m-1 and of node m, one after the other, hold no link twice. */
  lemma NodesApart(w: Wiring, bits: nat, m: nat)
    requires m < w.npusCount
    requires Distinct(CubeLinks(w, bits, m)) && Distinct(NodeLinks(w, m, bits))
    ensures Distinct(CubeLinks(w, bits, m) + NodeLinks(w, m, bits))
  {
    var a, b := CubeLinks(w, bits, m), NodeLinks(w, m, bits);
    forall l, l' | l in a && l' in b
      ensures l != l'
    {
      CubeLinksSound(w, bits, m);
      NodeLinksSound(w, m, bits);
    }
    DistinctAppend(a, b);
  }

  /** No link is recorded twice: links of different nodes leave different ids. */
  lemma {:induction false} CubeLinksDistinct(w: Wiring, bits: nat, m: nat)
    requires m <= w.npusCount
    ensures Distinct(CubeLinks(w, bits, m))
  {
    if m > 0 {
      CubeLinksDistinct(w, bits, m - 1);
      NodeLinksDistinct(w, m - 1, bits);
      NodesApart(w, bits, m - 1);
    }
  }

  /**
   * With ceil(log2 n) bits tried, every ordered pair of endpoints one bit apart
   * gets exactly one link of its own, so each neighbour pair is connected
   * twice, once from each side, both times with the same bandwidth.
   */
  lemma CubeNeighboursLinked(w: Wiring, u: nat, v: nat)
    requires u < w.npusCount && v < w.npusCount && Hamming(u, v) == 1
    ensures CubeLink(w, u, v) in CubeLinks(w, CeilLog2(w.npusCount), w.npusCount)
    ensures CubeLink(w, v, u) in CubeLinks(w, CeilLog2(w.npusCount), w.npusCount)
    ensures multiset(CubeLinks(w, CeilLog2(w.npusCount), w.npusCount))[CubeLink(w, u, v)] == 1
    ensures multiset(CubeLinks(w, CeilLog2(w.npusCount), w.npusCount))[CubeLink(w, v, u)] == 1
    ensures CubeLink(w, u, v).bandwidth == CubeLink(w, v, u).bandwidth
  {
    var bits := CeilLog2(w.npusCount);
    var x := Xor(u, v);
    PopcountOne(x);
    var e := Ctz(x);
    XorBelow(u, v, bits);
    Pow2Less(e, bits);
    XorCancel(v, u);
    XorComm(u, v);
    assert Xor(u, Pow2(e)) == v;
    assert Xor(v, Pow2(e)) == u by {
      XorCancel(u, v);
    }
    CubeLinkPresent(w, bits, w.npusCount, u, e);
    CubeLinkPresent(w, bits, w.npusCount, v, e);
    CubeLinksDistinct(w, bits, w.npusCount);
    DistinctOnce(CubeLinks(w, bits, w.npusCount), CubeLink(w, u, v));
    DistinctOnce(CubeLinks(w, bits, w.npusCount), CubeLink(w, v, u));
    DerateSymmetric(w.faultyLinks, u, v);
  }

  /** Endpoints below 2^k have all k neighbours: a cube of 2^k endpoints records k links per endpoint. */
  lemma {:induction false} NodeLinksCountPow2(w: Wiring, k: nat, u: nat, d: nat)
    requires w.npusCount == Pow2(k) && u < w.npusCount && d <= k
    ensures |NodeLinks(w, u, d)| == d
  {
    if d > 0 {
      NodeLinksCountPow2(w, k, u, d - 1);
      Pow2Monotone(d, k);
      XorBelow(u, Pow2(d - 1), k);
    }
  }

  lemma {:induction false} CubeLinksCountPow2(w: Wiring, k: nat, m: nat)
    requires w.npusCount == Pow2(k) && m <= w.npusCount
    ensures |CubeLinks(w, k, m)| == m * k
  {
    if m > 0 {
      CubeLinksCountPow2(w, k, m - 1);
      NodeLinksCountPow2(w, k, m - 1, k);
      assert (m - 1) * k + k == m * k;
    }
  }

  // ---------------------------------------------------------------------------
  // Routing

  /** The next hop flips the lowest differing bit, leaving one differing bit fewer, all of them higher. */
  lemma NextHopCloser(cur: nat, dest: nat)
    requires cur != dest
    ensures Xor(cur, dest) > 0
    ensures Xor(NextHop(cur, dest), dest) == Xor(Xor(cur, dest), Pow2(Ctz(Xor(cur, dest))))
    ensures Hamming(NextHop(cur, dest), dest) == Hamming(cur, dest) - 1
    ensures NextHop(cur, dest) != dest ==> FlipBit(NextHop(cur, dest), dest) > Ctz(Xor(cur, dest))
    ensures NextHop(cur, dest) != cur && FlipBit(cur, NextHop(cur, dest)) == Ctz(Xor(cur, dest))
    ensures Hamming(cur, NextHop(cur, dest)) == 1
  {
    XorZeroIff(cur, dest);
    var x := Xor(cur, dest);
    var c := Ctz(x);
    var next := Xor(cur, Pow2(c));
    XorAssoc(cur, Pow2(c), dest);
    XorComm(Pow2(c), dest);
    XorAssoc(cur, dest, Pow2(c));
    assert Xor(next, dest) == Xor(x, Pow2(c));
    ClearLowest(x);
    XorZeroIff(next, dest);
    FlipIsOneBit(cur, c);
    XorCancel(Pow2(c), cur);
    CtzPow2(c);
  }

  /** The route starts at src, ends at dest and has Hamming(src, dest) + 1 hops. */
  lemma {:induction false} BitFixRouteEnds(src: nat, dest: nat)
    ensures |BitFixRoute(src, dest)| == Hamming(src, dest) + 1
    ensures BitFixRoute(src, dest)[0] == src && BitFixRoute(src, dest)[|BitFixRoute(src, dest)| - 1] == dest
    decreases Hamming(src, dest)
  {
    if src == dest {
      XorZeroIff(src, dest);
    } else {
      NextHopCloser(src, dest);
      BitFixRouteEnds(NextHop(src, dest), dest);
    }
  }

  /** Consecutive hops are distinct and one bit apart. */
  predicate OneBitSteps(r: seq<nat>) {
    forall i :: 0 <= i < |r| - 1 ==> r[i] != r[i + 1] && Hamming(r[i], r[i + 1]) == 1
  }

  /** The bits flipped along `r` strictly increase from each step to the next. */
  predicate RisingFlips(r: seq<nat>)
    requires OneBitSteps(r)
  {
    forall i :: 0 <= i < |r| - 2 ==> FlipBit(r[i], r[i + 1]) < FlipBit(r[i + 1], r[i + 2])
  }

  /** Consecutive hops of the route are one bit apart. */
  lemma {:induction false} BitFixRouteOneBit(src: nat, dest: nat)
    ensures OneBitSteps(BitFixRoute(src, dest))
    decreases Hamming(src, dest)
  {
    if src != dest {
      NextHopCloser(src, dest);
      var next := NextHop(src, dest);
      var rest := BitFixRoute(next, dest);
      BitFixRouteOneBit(next, dest);
      BitFixRouteEnds(next, dest);
      var r := BitFixRoute(src, dest);
      assert r == [src] + rest;
      forall i | 0 <= i < |r| - 1
        ensures r[i] != r[i + 1] && Hamming(r[i], r[i + 1]) == 1
      {
        if i > 0 {
          assert r[i] == rest[i - 1] && r[i + 1] == rest[i];
        }
      }
    }
  }

  /**
   * The bits flipped along the route strictly increase, starting at the
   * lowest bit in which src and dest differ.
   */
  lemma {:induction false} BitFixRouteRising(src: nat, dest: nat)
    ensures OneBitSteps(BitFixRoute(src, dest))
    ensures RisingFlips(BitFixRoute(src, dest))
    ensures src != dest ==>
      (|BitFixRoute(src, dest)| >= 2 && FlipBit(BitFixRoute(src, dest)[0], BitFixRoute(src, dest)[1]) == FlipBit(src, dest))
    decreases Hamming(src, dest)
  {
    BitFixRouteOneBit(src, dest);
    if src != dest {
      NextHopCloser(src, dest);
      var next := NextHop(src, dest);
      var rest := BitFixRoute(next, dest);
      BitFixRouteRising(next, dest);
      BitFixRouteEnds(next, dest);
      var r := BitFixRoute(src, dest);
      assert r == [src] + rest;
      assert r[1] == next;
      forall i | 0 <= i < |r| - 2
        ensures FlipBit(r[i], r[i + 1]) < FlipBit(r[i + 1], r[i + 2])
      {
        assert r[i + 1] == rest[i] && r[i + 2] == rest[i + 1];
        if i > 0 {
          assert r[i] == rest[i - 1];
        }
      }
    }
  }

  /** Between endpoints below 2^k every hop stays below 2^k. */
  lemma {:induction false} BitFixRouteBelow(src: nat, dest: nat, k: nat)
    requires src < Pow2(k) && dest < Pow2(k)
    ensures HopsWithin(BitFixRoute(src, dest), Pow2(k))
    decreases Hamming(src, dest)
  {
    if src != dest {
      NextHopCloser(src, dest);
      var x := Xor(src, dest);
      XorBelow(src, dest, k);
      ClearLowest(x);
      Pow2Less(Ctz(x), k);
      Pow2Monotone(Ctz(x), k);
      XorBelow(src, Pow2(Ctz(x)), k);
      BitFixRouteBelow(NextHop(src, dest), dest, k);
      assert BitFixRoute(src, dest) == [src] + BitFixRoute(NextHop(src, dest), dest);
    }
  }

  /** Outside powers of two a route can leave the endpoints: with 3 endpoints, 2 to 1 passes through 3. */
  lemma IrregularCubeRouteLeaves()
    ensures BitFixRoute(2, 1) == [2, 3, 1] && !HopsWithin(BitFixRoute(2, 1), 3)
  {
    assert Xor(2, 1) == 3 by {
      assert Xor(1, 0) == 1 && Xor(0, 0) == 0;
    }
    assert Ctz(3) == 0;
    assert Xor(2, Pow2(0)) == 3;
    assert Xor(3, 1) == 2 by {
      assert Xor(1, 0) == 1;
    }
    assert Ctz(2) == 1 by {
      assert Ctz(1) == 0;
    }
    assert Xor(3, Pow2(1)) == 1 by {
      assert Xor(1, 1) == 0;
    }
    assert BitFixRoute(1, 1) == [1];
    assert BitFixRoute(3, 1) == [3] + BitFixRoute(1, 1);
    assert BitFixRoute(2, 1)[1] == 3;
  }

  /** A route whose hops stay among the endpoints only uses links the constructor recorded. */
  lemma CubeRouteFollowsLinks(w: Wiring, src: nat, dest: nat)
    requires w.npusCount >= 1 && HopsWithin(BitFixRoute(src, dest), w.npusCount)
    ensures FollowsLinks(CubeLinks(w, CeilLog2(w.npusCount), w.npusCount), BitFixRoute(src, dest))
  {
    var r := BitFixRoute(src, dest);
    var links := CubeLinks(w, CeilLog2(w.npusCount), w.npusCount);
    BitFixRouteOneBit(src, dest);
    forall i | 0 <= i < |r| - 1
      ensures Linked(links, r[i], r[i + 1])
    {
      CubeNeighboursLinked(w, r[i], r[i + 1]);
      assert CubeLink(w, r[i], r[i + 1]) in links;
    }
  }

  // ---------------------------------------------------------------------------
  // Connection policies

  lemma {:induction false} NodePoliciesAt(bidirectional: bool, i: nat, d: nat)
    ensures |NodePolicies(bidirectional, i, d)| == d * (if bidirectional then 2 else 1)
    ensures forall e :: 0 <= e < d ==>
      NodePolicies(bidirectional, i, d)[e * (if bidirectional then 2 else 1)] == ConnectionPolicy(i, Xor(i, Pow2(e)))
    ensures bidirectional ==> forall e :: 0 <= e < d ==>
      NodePolicies(bidirectional, i, d)[e * 2 + 1] == ConnectionPolicy(Xor(i, Pow2(e)), i)
  {
    if d > 0 {
      NodePoliciesAt(bidirectional, i, d - 1);
    }
  }

  /** In all there are m * dims pairs, twice that when bidirectional. */
  lemma {:induction false} CubePoliciesCount(dims: nat, bidirectional: bool, m: nat)
    ensures |CubePolicies(dims, bidirectional, m)| == m * (dims * (if bidirectional then 2 else 1))
  {
    if m > 0 {
      CubePoliciesCount(dims, bidirectional, m - 1);
      NodePoliciesAt(bidirectional, m - 1, dims);
      Arith.MulSucc(m - 1, dims * (if bidirectional then 2 else 1));
    }
  }

  /** Node i asks for the link to its neighbour across each bit e below d, and, when bidirectional, for the reverse one. */
  lemma {:induction false} NodePolicyPresent(bidirectional: bool, i: nat, d: nat, e: nat)
    requires e < d
    ensures ConnectionPolicy(i, Xor(i, Pow2(e))) in NodePolicies(bidirectional, i, d)
    ensures bidirectional ==> ConnectionPolicy(Xor(i, Pow2(e)), i) in NodePolicies(bidirectional, i, d)
  {
    if d > 0 {
      var prefix, pairs := NodePolicies(bidirectional, i, d - 1), NeighbourPolicies(bidirectional, i, d - 1);
      var nb := Xor(i, Pow2(d - 1));
      if e < d - 1 {
        NodePolicyPresent(bidirectional, i, d - 1, e);
        InLeft(ConnectionPolicy(i, Xor(i, Pow2(e))), prefix, pairs);
        if bidirectional {
          InLeft(ConnectionPolicy(Xor(i, Pow2(e)), i), prefix, pairs);
        }
      } else {
        InRight(ConnectionPolicy(i, nb), prefix, pairs);
        if bidirectional {
          InRight(ConnectionPolicy(nb, i), prefix, pairs);
        }
      }
    }
  }

  /**
   * Every node i below m asks for the link to its neighbour across each bit
   * e below dims, and, when bidirectional, for the reverse link too.
   */
  lemma {:induction false} CubePolicyPresent(dims: nat, bidirectional: bool, m: nat, i: nat, e: nat)
    requires i < m && e < dims
    ensures ConnectionPolicy(i, Xor(i, Pow2(e))) in CubePolicies(dims, bidirectional, m)
    ensures bidirectional ==> ConnectionPolicy(Xor(i, Pow2(e)), i) in CubePolicies(dims, bidirectional, m)
  {
    if m > 0 {
      var prefix, node := CubePolicies(dims, bidirectional, m - 1), NodePolicies(bidirectional, m - 1, dims);
      var nb := Xor(i, Pow2(e));
      if i < m - 1 {
        CubePolicyPresent(dims, bidirectional, m - 1, i, e);
        InLeft(ConnectionPolicy(i, nb), prefix, node);
        if bidirectional {
          InLeft(ConnectionPolicy(nb, i), prefix, node);
        }
      } else {
        NodePolicyPresent(bidirectional, i, dims, e);
        InRight(ConnectionPolicy(i, nb), prefix, node);
        if bidirectional {
          InRight(ConnectionPolicy(nb, i), prefix, node);
        }
      }
    }
  }

  /** The j-th of node i's first d pairs is toward, or only when bidirectional from, its neighbour across a bit below d. */
  lemma {:induction false} NodePolicyOrigin(bidirectional: bool, i: nat, d: nat, j: nat) returns (e: nat)
    requires j < |NodePolicies(bidirectional, i, d)|
    ensures e < d
    ensures NodePolicies(bidirectional, i, d)[j] == ConnectionPolicy(i, Xor(i, Pow2(e)))
         || (bidirectional && NodePolicies(bidirectional, i, d)[j] == ConnectionPolicy(Xor(i, Pow2(e)), i))
  {
    if d > 0 {
      var a := NodePolicies(bidirectional, i, d - 1);
      if j < |a| {
        e := NodePolicyOrigin(bidirectional, i, d - 1, j);
      } else {
        e := d - 1;
      }
    }
  }

  /** The j-th pair of the first m nodes is the jj-th pair of one of them. */
  lemma {:induction false} CubePolicyOrigin(dims: nat, bidirectional: bool, m: nat, j: nat) returns (i: nat, jj: nat)
    requires j < |CubePolicies(dims, bidirectional, m)|
    ensures i < m && jj < |NodePolicies(bidirectional, i, dims)|
    ensures CubePolicies(dims, bidirectional, m)[j] == NodePolicies(bidirectional, i, dims)[jj]
  {
    if m > 0 {
      var a := CubePolicies(dims, bidirectional, m - 1);
      if j < |a| {
        i, jj := CubePolicyOrigin(dims, bidirectional, m - 1, j);
      } else {
        i, jj := m - 1, j - |a|;
      }
    }
  }

  /**
   * Every pair is a node i below m and its neighbour across a bit e below
   * dims, in that order, or, only when bidirectional, in the reverse order.
   */
  lemma CubePolicyShape(dims: nat, bidirectional: bool, m: nat, p: ConnectionPolicy) returns (i: nat, e: nat)
    requires p in CubePolicies(dims, bidirectional, m)
    ensures i < m && e < dims
    ensures p == ConnectionPolicy(i, Xor(i, Pow2(e))) || (bidirectional && p == ConnectionPolicy(Xor(i, Pow2(e)), i))
  {
    var j :| 0 <= j < |CubePolicies(dims, bidirectional, m)| && CubePolicies(dims, bidirectional, m)[j] == p;
    var jj;
    i, jj := CubePolicyOrigin(dims, bidirectional, m, j);
    e := NodePolicyOrigin(bidirectional, i, dims, jj);
  }

  /**
   * Every pair joins two distinct ids that differ in one bit below dims, the
   * one FlipBit names, and its source is a node below m or, only when
   * bidirectional, its destination is.
   */
  lemma CubePoliciesSound(dims: nat, bidirectional: bool, m: nat)
    ensures forall p :: p in CubePolicies(dims, bidirectional, m) ==>
      p.src >= 0 && p.dst >= 0 && p.src != p.dst && FlipBit(p.src, p.dst) < dims
        && Xor(p.src, Pow2(FlipBit(p.src, p.dst))) == p.dst
        && (p.src < m || (bidirectional && p.dst < m))
  {
    forall p | p in CubePolicies(dims, bidirectional, m)
      ensures p.src >= 0 && p.dst >= 0 && p.src != p.dst && FlipBit(p.src, p.dst) < dims
        && Xor(p.src, Pow2(FlipBit(p.src, p.dst))) == p.dst
        && (p.src < m || (bidirectional && p.dst < m))
    {
      var i, e := CubePolicyShape(dims, bidirectional, m, p);
      FlipBitAcross(i, e);
    }
  }

  /** ps comes two by two: each pair at an even position is immediately followed by its reverse. */
  predicate Paired(ps: seq<ConnectionPolicy>) {
    |ps| % 2 == 0 && forall j :: 0 <= j < |ps| / 2 ==> ps[2 * j + 1] == Reversed(ps[2 * j])
  }

  lemma PairedAppend(a: seq<ConnectionPolicy>, b: seq<ConnectionPolicy>)
    requires Paired(a) && Paired(b)
    ensures Paired(a + b)
  {
    var h := |a| / 2;
    forall j | 0 <= j < |a + b| / 2
      ensures (a + b)[2 * j + 1] == Reversed((a + b)[2 * j])
    {
      if j >= h {
        assert (a + b)[2 * j] == b[2 * (j - h)] && (a + b)[2 * j + 1] == b[2 * (j - h) + 1];
      }
    }
  }

  /** When bidirectional, each of a node's pairs is immediately followed by its reverse. */
  lemma {:induction false} NodePoliciesPaired(i: nat, d: nat)
    ensures Paired(NodePolicies(true, i, d))
  {
    if d > 0 {
      NodePoliciesPaired(i, d - 1);
      assert Paired(NeighbourPolicies(true, i, d - 1));
      PairedAppend(NodePolicies(true, i, d - 1), NeighbourPolicies(true, i, d - 1));
    }
  }

  /** When bidirectional, the pairs come two by two: each forward pair is immediately followed by its reverse. */
  lemma {:induction false} CubePoliciesPaired(dims: nat, m: nat)
    ensures Paired(CubePolicies(dims, true, m))
  {
    if m > 0 {
      CubePoliciesPaired(dims, m - 1);
      NodePoliciesPaired(m - 1, dims);
      PairedAppend(CubePolicies(dims, true, m - 1), NodePolicies(true, m - 1, dims));
    }
  }

  /** Every policy pairs two ids one bit apart. */
  lemma CubePoliciesOneBit(dims: nat, bidirectional: bool, m: nat)
    ensures forall p :: p in CubePolicies(dims, bidirectional, m) ==>
      p.src >= 0 && p.dst >= 0 && Hamming(p.src, p.dst) == 1
  {
    forall p | p in CubePolicies(dims, bidirectional, m)
      ensures p.src >= 0 && p.dst >= 0 && Hamming(p.src, p.dst) == 1
    {
      var i, e := CubePolicyShape(dims, bidirectional, m, p);
      FlipIsOneBit(i, e);
      XorComm(i, Xor(i, Pow2(e)));
    }
  }

  /** With 2^k endpoints and k dimensions every policy joins two endpoints. */
  lemma CubePoliciesWithin(k: nat, bidirectional: bool, m: nat)
    requires m <= Pow2(k)
    ensures forall p :: p in CubePolicies(k, bidirectional, m) ==> 0 <= p.src < Pow2(k) && 0 <= p.dst < Pow2(k)
  {
    forall p | p in CubePolicies(k, bidirectional, m)
      ensures 0 <= p.src < Pow2(k) && 0 <= p.dst < Pow2(k)
    {
      var i, e := CubePolicyShape(k, bidirectional, m, p);
      Pow2Monotone(e + 1, k);
      XorBelow(i, Pow2(e), k);
    }
  }

  /** For a power-of-two cube every policy is carried by a link the constructor recorded. */
  lemma CubePoliciesLinked(w: Wiring, k: nat)
    requires w.npusCount == Pow2(k)
    ensures forall p :: p in CubePolicies(FloorLog2(w.npusCount), w.bidirectional, w.npusCount) ==>
      Linked(CubeLinks(w, CeilLog2(w.npusCount), w.npusCount), p.src, p.dst)
  {
    FloorLog2Pow2(k);
    var ps := CubePolicies(k, w.bidirectional, w.npusCount);
    CubePoliciesOneBit(k, w.bidirectional, w.npusCount);
    CubePoliciesWithin(k, w.bidirectional, w.npusCount);
    forall p | p in ps
      ensures Linked(CubeLinks(w, CeilLog2(w.npusCount), w.npusCount), p.src, p.dst)
    {
      CubeNeighboursLinked(w, p.src, p.dst);
    }
  }

  // ---------------------------------------------------------------------------
  // The topology

  /** A hypercube of `npusCount` endpoints, no extra devices. */
  class HyperCube {
    const npusCount: int
    const bidirectional: bool
    const faultyLinks: seq<FaultyLink>
    const nonRecursiveTopo: int
    const base: Registry

    /** The endpoints are the devices, and the registry was sized for them. */
    ghost predicate Valid() {
      npusCount > 0 && base.npusCount == npusCount && base.devicesCount == npusCount
    }

    /** The parameters this cube was built with. */
    ghost function Wired(): Wiring
      requires Valid()
    {
      Wiring(npusCount, base.bandwidth, base.latency, bidirectional, faultyLinks)
    }

    /**
     * Outside a multi-dimensional topology, connects every endpoint u to
     * u xor 2^d for each d below ceil(log2 npusCount) that stays below
     * npusCount, with the derated bandwidth; inside one, records no link.
     */
    constructor (npusCount: int, bandwidth: real, latency: real, bidirectional: bool := true, isMultiDim: bool := false,
                 nonRecursiveTopo: int := 1, faultyLinks: seq<FaultyLink> := [])
      requires npusCount > 0 && bandwidth > 0.0 && latency >= 0.0
      ensures Valid() && this.npusCount == npusCount && this.bidirectional == bidirectional
      ensures this.faultyLinks == faultyLinks && this.nonRecursiveTopo == nonRecursiveTopo
      ensures fresh(base) && base.npusCount == npusCount && base.devicesCount == npusCount
      ensures base.bandwidth == bandwidth && base.latency == latency && base.isMultiDim == isMultiDim
      ensures base.links == if isMultiDim then [] else CubeLinks(Wired(), CeilLog2(npusCount), npusCount)
    {
      this.npusCount := npusCount;
      this.bidirectional := bidirectional;
      this.faultyLinks := faultyLinks;
      this.nonRecursiveTopo := nonRecursiveTopo;
      base := new Registry(npusCount, npusCount, bandwidth, latency, isMultiDim);
      new;
      if !isMultiDim {
        var numBits := CeilLog2(npusCount);
        ghost var w := Wired();
        var u := 0;
        while u < npusCount
          invariant 0 <= u <= npusCount
          invariant base.links == CubeLinks(w, numBits, u)
        {
          ConnectNode(u, numBits);
          u := u + 1;
        }
      }
    }

    /** The constructor's inner loop: connects u to its neighbour across each of the first `bits` bits that is an endpoint. */
    method ConnectNode(u: nat, bits: nat)
      requires Valid() && u < npusCount && base.devicesCount == npusCount
      modifies base
      ensures base.links == old(base.links) + NodeLinks(Wired(), u, bits)
    {
      ghost var before := base.links;
      var d := 0;
      while d < bits
        invariant 0 <= d <= bits
        invariant base.links == before + NodeLinks(Wired(), u, d)
      {
        ConnectAcross(u, d);
        AppendAssoc(before, NodeLinks(Wired(), u, d), NodeLink(Wired(), u, d));
        d := d + 1;
      }
    }

    /** The body of the constructor's inner loop: connects u to its neighbour across bit d when that is an endpoint. */
    method ConnectAcross(u: nat, d: nat)
      requires Valid() && u < npusCount && base.devicesCount == npusCount
      modifies base
      ensures base.links == old(base.links) + NodeLink(Wired(), u, d)
    {
      var v := Xor(u, Pow2(d));
      if v < npusCount {
        var derate := FaultDerate(u, v);
        var bw := LinkBandwidth(base.bandwidth, derate);
        base.Connect(u, v, bw, base.latency, bidirectional);
      }
    }

    /** The inner policy loop: the pairs of i toward its neighbours across the first `dims` bits. */
    method AppendNodePolicies(i: nat, dims: nat, policies: seq<ConnectionPolicy>) returns (extended: seq<ConnectionPolicy>)
      ensures extended == policies + NodePolicies(bidirectional, i, dims)
    {
      extended := policies;
      var d := 0;
      while d < dims
        invariant 0 <= d <= dims
        invariant extended == policies + NodePolicies(bidirectional, i, d)
      {
        extended := AppendNeighbourPolicies(i, d, extended);
        AppendAssoc(policies, NodePolicies(bidirectional, i, d), NeighbourPolicies(bidirectional, i, d));
        d := d + 1;
      }
    }

    /** The body of the inner policy loop: the pair toward the neighbour of i across bit d, then its reverse when bidirectional. */
    method AppendNeighbourPolicies(i: nat, d: nat, policies: seq<ConnectionPolicy>) returns (extended: seq<ConnectionPolicy>)
      ensures extended == policies + NeighbourPolicies(bidirectional, i, d)
    {
      var neighbor := Xor(i, Pow2(d));
      extended := policies + [ConnectionPolicy(i, neighbor)];
      if bidirectional {
        extended := extended + [ConnectionPolicy(neighbor, i)];
      }
    }

    /** The health of the first faulty-link entry naming {src, dst} in either orientation, else 1. */
    method FaultDerate(src: int, dst: int) returns (health: real)
      ensures health == Derate(faultyLinks, src, dst)
      ensures NoneNaming(faultyLinks, src, dst) ==> health == 1.0
      ensures forall i :: FirstNaming(faultyLinks, i, src, dst) ==> health == faultyLinks[i].health
    {
      DerateFirstMatch(faultyLinks, src, dst);
      var i := 0;
      while i < |faultyLinks|
        invariant 0 <= i <= |faultyLinks|
        invariant Derate(faultyLinks[i..], src, dst) == Derate(faultyLinks, src, dst)
      {
        var link := faultyLinks[i];
        if (link.a == src && link.b == dst) || (link.a == dst && link.b == src) {
          return link.health;
        }
        assert faultyLinks[i..][1..] == faultyLinks[i + 1..];
        i := i + 1;
      }
      return 1.0;
    }

    /**
     * Flips the lowest bit in which the current hop and `dest` differ until
     * they agree. The source asserts that every hop is an endpoint, which
     * holds whenever npusCount is a power of two (BitFixRouteBelow).
     */
    method Route(src: DeviceId, dest: DeviceId) returns (route: Route)
      requires Valid() && 0 <= src < npusCount && 0 <= dest < npusCount
      requires HopsWithin(BitFixRoute(src, dest), npusCount)
      ensures route == BitFixRoute(src, dest)
    {
      var current: nat := src;
      route := [current];
      while current != dest
        invariant |route| >= 1 && route[|route| - 1] == current
        invariant route + BitFixRoute(current, dest)[1..] == BitFixRoute(src, dest)
        decreases Hamming(current, dest)
      {
        var diff := Xor(current, dest);
        XorZeroIff(current, dest);
        var bitToFlip := Ctz(diff);
        var next := Xor(current, Pow2(bitToFlip));
        NextHopCloser(current, dest);
        ghost var rest := BitFixRoute(next, dest);
        assert BitFixRoute(current, dest) == [current] + rest;
        assert next == rest[0] == BitFixRoute(src, dest)[|route|];
        assert 0 <= next < npusCount;
        assert BitFixRoute(current, dest)[1..] == rest == [next] + rest[1..];
        route := route + [next];
        assert route + rest[1..] == BitFixRoute(src, dest);
        current := next;
      }
    }

    /** For every endpoint and each of floor(log2 npusCount) bits: the pair toward the neighbour, then its reverse when bidirectional. */
    method GetConnectionPolicies() returns (policies: seq<ConnectionPolicy>)
      requires Valid()
      ensures policies == CubePolicies(FloorLog2(npusCount), bidirectional, npusCount)
    {
      var dims := FloorLog2(npusCount);
      policies := CollectPolicies(dims);
    }

    /** The loop of GetConnectionPolicies: the pairs of every endpoint in turn, across the first `dims` bits. */
    method CollectPolicies(dims: nat) returns (policies: seq<ConnectionPolicy>)
      requires Valid()
      ensures policies == CubePolicies(dims, bidirectional, npusCount)
    {
      policies := [];
      var i := 0;
      while i < npusCount
        invariant 0 <= i <= npusCount
        invariant policies == CubePolicies(dims, bidirectional, i)
      {
        policies := AppendNodePolicies(i, dims, policies);
        CubePoliciesNext(dims, bidirectional, i);
        i := i + 1;
      }
    }
  }
}
