/**
 * The state every basic topology shares: the endpoint and device counts,
 * the nominal link parameters, and the registry of links that a shape's
 * constructor builds by calling `Connect`.
 */
module BasicTopology {

  /** Devices are named by dense integer ids; endpoints are 0 .. npusCount-1. */
  type DeviceId = int

  /** The devices a message visits, source and destination included. */
  type Route = seq<DeviceId>

  /** One recorded call of `connect`. */
  datatype Link = Link(src: DeviceId, dst: DeviceId, bandwidth: real, latency: real, bidirectional: bool)

  /** A requirement that a link from `src` to `dst` exists. */
  datatype ConnectionPolicy = ConnectionPolicy(src: DeviceId, dst: DeviceId)

  /** The same pair, the other way round. */
  function Reversed(p: ConnectionPolicy): ConnectionPolicy {
    ConnectionPolicy(p.dst, p.src)
  }

  /** Every pair of `ps`, reversed, in the same order. */
  function ReversedAll(ps: seq<ConnectionPolicy>): (r: seq<ConnectionPolicy>)
    ensures |r| == |ps|
    ensures forall i :: 0 <= i < |ps| ==> r[i] == Reversed(ps[i])
  {
    if ps == [] then [] else [Reversed(ps[0])] + ReversedAll(ps[1..])
  }

  /** The links recorded by connecting each pair of `ps` in turn with the same parameters. */
  function WireAll(ps: seq<ConnectionPolicy>, bandwidth: real, latency: real, bidirectional: bool): (r: seq<Link>)
    ensures |r| == |ps|
  {
    if ps == [] then [] else [Link(ps[0].src, ps[0].dst, bandwidth, latency, bidirectional)] + WireAll(ps[1..], bandwidth, latency, bidirectional)
  }

  /** The i-th link recorded is the i-th pair with the common parameters. */
  lemma {:induction false} WireAllAt(ps: seq<ConnectionPolicy>, bandwidth: real, latency: real, bidirectional: bool)
    ensures forall i :: 0 <= i < |ps| ==>
      WireAll(ps, bandwidth, latency, bidirectional)[i] == Link(ps[i].src, ps[i].dst, bandwidth, latency, bidirectional)
  {
    if ps != [] {
      WireAllAt(ps[1..], bandwidth, latency, bidirectional);
    }
  }

  /** Wiring two lists one after the other records the two wirings one after the other. */
  lemma WireAllAppend(a: seq<ConnectionPolicy>, b: seq<ConnectionPolicy>, bandwidth: real, latency: real, bidirectional: bool)
    ensures WireAll(a + b, bandwidth, latency, bidirectional)
      == WireAll(a, bandwidth, latency, bidirectional) + WireAll(b, bandwidth, latency, bidirectional)
  {
    var l := WireAll(a + b, bandwidth, latency, bidirectional);
    var r := WireAll(a, bandwidth, latency, bidirectional) + WireAll(b, bandwidth, latency, bidirectional);
    WireAllAt(a + b, bandwidth, latency, bidirectional);
    WireAllAt(a, bandwidth, latency, bidirectional);
    WireAllAt(b, bandwidth, latency, bidirectional);
    assert |l| == |r|;
    forall i | 0 <= i < |l|
      ensures l[i] == r[i]
    {
      if i >= |a| {
        assert (a + b)[i] == b[i - |a|];
      }
    }
  }

  /** A wired pair is linked in its own direction, and in the reverse one when the links are bidirectional. */
  lemma WiredPairLinked(ps: seq<ConnectionPolicy>, bandwidth: real, latency: real, bidirectional: bool, a: DeviceId, b: DeviceId)
    requires ConnectionPolicy(a, b) in ps
    ensures Linked(WireAll(ps, bandwidth, latency, bidirectional), a, b)
    ensures bidirectional ==> Linked(WireAll(ps, bandwidth, latency, bidirectional), b, a)
  {
    var i :| 0 <= i < |ps| && ps[i] == ConnectionPolicy(a, b);
    var links := WireAll(ps, bandwidth, latency, bidirectional);
    WireAllAt(ps, bandwidth, latency, bidirectional);
    assert links[i] in links;
  }

  lemma InLeft<T>(x: T, a: seq<T>, b: seq<T>)
    requires x in a
    ensures x in a + b
  {
  }

  lemma InRight<T>(x: T, a: seq<T>, b: seq<T>)
    requires x in b
    ensures x in a + b
  {
  }

  lemma InConcat<T>(x: T, a: seq<T>, b: seq<T>)
    requires x in a + b
    ensures x in a || x in b
  {
  }

  lemma AppendIndex<T>(a: seq<T>, b: seq<T>, i: int)
    requires 0 <= i < |a| + |b|
    ensures (a + b)[i] == if i < |a| then a[i] else b[i - |a|]
  {
  }

  lemma AppendEmpty<T>(s: seq<T>)
    ensures [] + s == s && s + [] == s
  {
  }

  lemma AppendAssoc<T>(a: seq<T>, b: seq<T>, c: seq<T>)
    ensures a + b + c == a + (b + c)
  {
  }

  /** No element of `s` occurs twice. */
  ghost predicate Distinct<T>(s: seq<T>) {
    forall i, j :: 0 <= i < j < |s| ==> s[i] != s[j]
  }

  /** Two lists without repeats and without a common element join into a list without repeats. */
  lemma DistinctAppend<T>(a: seq<T>, b: seq<T>)
    requires Distinct(a) && Distinct(b)
    requires forall x, y :: x in a && y in b ==> x != y
    ensures Distinct(a + b)
  {
    forall i, j | 0 <= i < j < |a + b|
      ensures (a + b)[i] != (a + b)[j]
    {
      AppendIndex(a, b, i);
      AppendIndex(a, b, j);
      if i < |a| && j >= |a| {
        assert a[i] in a && b[j - |a|] in b;
      }
    }
  }

  /** An element of a list without repeats occurs in it exactly once. */
  lemma {:induction false} DistinctOnce<T>(s: seq<T>, x: T)
    requires Distinct(s) && x in s
    ensures multiset(s)[x] == 1
  {
    assert s == [s[0]] + s[1..];
    var rest := s[1..];
    assert Distinct(rest) by {
      forall i, j | 0 <= i < j < |rest|
        ensures rest[i] != rest[j]
      {
        assert rest[i] == s[i + 1] && rest[j] == s[j + 1];
      }
    }
    if s[0] == x {
      assert x !in rest by {
        forall i | 0 <= i < |rest|
          ensures rest[i] != x
        {
          assert rest[i] == s[i + 1];
        }
      }
    } else {
      DistinctOnce(rest, x);
    }
  }

  /** Reversing every pair keeps a list free of repeats. */
  lemma ReversedAllDistinct(ps: seq<ConnectionPolicy>)
    requires Distinct(ps)
    ensures Distinct(ReversedAll(ps))
  {
  }

  /** Some recorded link carries traffic from `a` to `b`. */
  predicate Linked(links: seq<Link>, a: DeviceId, b: DeviceId) {
    exists l :: l in links && ((l.src == a && l.dst == b) || (l.bidirectional && l.src == b && l.dst == a))
  }

  /** Every hop of `route` is a device id below `n`. */
  predicate HopsWithin(route: Route, n: int) {
    forall i :: 0 <= i < |route| ==> 0 <= route[i] < n
  }

  /** Every pair of consecutive hops of `route` is carried by a recorded link. */
  predicate FollowsLinks(links: seq<Link>, route: Route) {
    forall i :: 0 <= i < |route| - 1 ==> Linked(links, route[i], route[i + 1])
  }

  /**
   * The part of a topology that every shape inherits: sizes, nominal link
   * parameters and the links recorded so far.
   */
  class Registry {
    const npusCount: int
    const devicesCount: int
    const bandwidth: real
    const latency: real
    const isMultiDim: bool
    var links: seq<Link>

    constructor (npusCount: int, devicesCount: int, bandwidth: real, latency: real, isMultiDim: bool)
      ensures this.npusCount == npusCount && this.devicesCount == devicesCount
      ensures this.bandwidth == bandwidth && this.latency == latency && this.isMultiDim == isMultiDim
      ensures links == []
    {
      this.npusCount := npusCount;
      this.devicesCount := devicesCount;
      this.bandwidth := bandwidth;
      this.latency := latency;
      this.isMultiDim := isMultiDim;
      links := [];
    }

    /**
     * Records one link between two existing devices. What the registry does
     * with a link beyond recording it is not part of this model.
     */
    method Connect(src: DeviceId, dst: DeviceId, bandwidth: real, latency: real, bidirectional: bool)
      requires 0 <= src < devicesCount && 0 <= dst < devicesCount
      modifies this
      ensures links == old(links) + [Link(src, dst, bandwidth, latency, bidirectional)]
    {
      links := links + [Link(src, dst, bandwidth, latency, bidirectional)];
    }
  }
}
