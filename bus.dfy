/**
 * A bus: every endpoint is wired to one extra switch device, the hub, whose
 * id is `npusCount`, and every route goes through it.
 */
module Bus {
  import opened BasicTopology

  /** The links the constructor records after wiring endpoints 0 .. k-1 to the hub. */
  function BusLinks(hub: DeviceId, k: nat, bandwidth: real, latency: real): seq<Link> {
    if k == 0 then [] else BusLinks(hub, k - 1, bandwidth, latency) + [Link(k - 1, hub, bandwidth, latency, true)]
  }

  /** The policies emitted for endpoints 0 .. k-1. */
  function BusPolicies(hub: DeviceId, k: nat): seq<ConnectionPolicy> {
    if k == 0 then [] else BusPolicies(hub, k - 1) + [ConnectionPolicy(k - 1, hub), ConnectionPolicy(hub, k - 1)]
  }

  /** The i-th link joins endpoint i to the hub, in both directions, with the nominal parameters. */
  lemma {:induction false} BusLinksAt(hub: DeviceId, k: nat, bandwidth: real, latency: real)
    ensures |BusLinks(hub, k, bandwidth, latency)| == k
    ensures forall i :: 0 <= i < k ==> BusLinks(hub, k, bandwidth, latency)[i] == Link(i, hub, bandwidth, latency, true)
  {
    if k > 0 {
      BusLinksAt(hub, k - 1, bandwidth, latency);
    }
  }

  /** Endpoint i gets the pair (i, hub) at index 2i and (hub, i) right after it. */
  lemma {:induction false} BusPoliciesAt(hub: DeviceId, k: nat)
    ensures |BusPolicies(hub, k)| == 2 * k
    ensures forall i :: 0 <= i < k ==>
      BusPolicies(hub, k)[2 * i] == ConnectionPolicy(i, hub) && BusPolicies(hub, k)[2 * i + 1] == ConnectionPolicy(hub, i)
  {
    if k > 0 {
      BusPoliciesAt(hub, k - 1);
    }
  }

  /**
   * When the hub is not an endpoint, each policy has the hub at exactly one
   * end, its other end is an endpoint, and the reversed pair is a policy too.
   */
  lemma BusPoliciesStar(hub: DeviceId, k: nat)
    requires hub >= k
    ensures forall p :: p in BusPolicies(hub, k) ==>
      (p.src == hub) != (p.dst == hub) && (0 <= p.src < k || 0 <= p.dst < k)
    ensures forall p :: p in BusPolicies(hub, k) ==> Reversed(p) in BusPolicies(hub, k)
  {
    var ps := BusPolicies(hub, k);
    BusPoliciesAt(hub, k);
    forall p | p in ps
      ensures (p.src == hub) != (p.dst == hub) && (0 <= p.src < k || 0 <= p.dst < k)
      ensures Reversed(p) in ps
    {
      var j :| 0 <= j < |ps| && ps[j] == p;
      var i := j / 2;
      if j % 2 == 0 {
        assert j == 2 * i && ps[2 * i + 1] == Reversed(p);
      } else {
        assert j == 2 * i + 1 && ps[2 * i] == Reversed(p);
      }
    }
  }

  /** A bus of `npusCount` endpoints and one hub. */
  class Bus {
    const npusCount: int
    const hub: DeviceId
    const base: Registry

    /** The hub is the device right after the last endpoint, and the registry was sized for the endpoints and the hub. */
    ghost predicate Valid() {
      npusCount > 0 && hub == npusCount && base.npusCount == npusCount && base.devicesCount == npusCount + 1
    }

    /** Wires every endpoint to the hub with a bidirectional link of the nominal parameters. */
    constructor (npusCount: int, bandwidth: real, latency: real)
      requires npusCount > 0 && bandwidth > 0.0 && latency >= 0.0
      ensures Valid() && this.npusCount == npusCount && fresh(base)
      ensures base.npusCount == npusCount && base.devicesCount == npusCount + 1
      ensures base.bandwidth == bandwidth && base.latency == latency && !base.isMultiDim
      ensures base.links == BusLinks(hub, npusCount, bandwidth, latency)
    {
      this.npusCount := npusCount;
      hub := npusCount;
      base := new Registry(npusCount, npusCount + 1, bandwidth, latency, false);
      new;
      var i := 0;
      while i < npusCount
        invariant 0 <= i <= npusCount
        invariant base.links == BusLinks(hub, i, bandwidth, latency)
      {
        base.Connect(i, hub, bandwidth, latency, true);
        i := i + 1;
      }
    }

    /** Source to hub to destination, also when source and destination coincide. */
    method Route(src: DeviceId, dest: DeviceId) returns (route: Route)
      requires Valid() && 0 <= src < npusCount && 0 <= dest < npusCount
      ensures route == [src, npusCount, dest]
    {
      route := [src];
      route := route + [hub];
      route := route + [dest];
    }

    /** Both directions of every endpoint-to-hub pair, endpoint by endpoint. */
    method GetConnectionPolicies() returns (policies: seq<ConnectionPolicy>)
      requires Valid()
      ensures policies == BusPolicies(npusCount, npusCount)
    {
      policies := [];
      var i := 0;
      while i < npusCount
        invariant 0 <= i <= npusCount
        invariant policies == BusPolicies(hub, i)
      {
        policies := policies + [ConnectionPolicy(i, hub)];
        policies := policies + [ConnectionPolicy(hub, i)];
        i := i + 1;
      }
    }
  }

  /** Both hops of every bus route are carried by a link the constructor recorded. */
  lemma BusRouteFollowsLinks(hub: DeviceId, n: nat, bandwidth: real, latency: real, src: DeviceId, dest: DeviceId)
    requires 0 <= src < n && 0 <= dest < n
    ensures FollowsLinks(BusLinks(hub, n, bandwidth, latency), [src, hub, dest])
  {
    var links := BusLinks(hub, n, bandwidth, latency);
    BusLinksAt(hub, n, bandwidth, latency);
    assert links[src] in links && links[dest] in links;
    assert Linked(links, src, hub) && Linked(links, hub, dest);
  }
}
