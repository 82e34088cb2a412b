/** Which endpoints hold a cluster: the dense index used by the ember clusters, and the iterator over
    enabled endpoints. */
module EndpointIndex {
  import opened Basics
  import opened LinkedLists
  import opened DataModel
  import opened TreeSteps
  import opened Lookup
  import opened Teardown

  ghost predicate Holds(g: Shape, e: Ptr, clusterId: nat) {
    FindId(g, ClustersOf(e), clusterId) != NULL
  }

  ghost predicate EnabledAndHolds(g: Shape, e: Ptr, clusterId: nat) {
    Holds(g, e, clusterId) && e in g.data && g.data[e].EndpointS? && g.data[e].enabled
  }

  /** The endpoints of `es` that hold the cluster, in order; with `enabled`, only the enabled ones. */
  ghost function Holding(g: Shape, es: seq<Ptr>, clusterId: nat, enabled: bool): seq<Ptr> {
    if es == [] then []
    else if (if enabled then EnabledAndHolds(g, es[0], clusterId) else Holds(g, es[0], clusterId))
    then [es[0]] + Holding(g, es[1..], clusterId, enabled)
    else Holding(g, es[1..], clusterId, enabled)
  }

  /** The filtered list has exactly the right members, none twice. */
  lemma {:induction false} HoldingExact(g: Shape, es: seq<Ptr>, clusterId: nat, enabled: bool)
    requires Distinct(es)
    ensures Distinct(Holding(g, es, clusterId, enabled))
    ensures forall e :: e in Holding(g, es, clusterId, enabled) <==>
              e in es && if enabled then EnabledAndHolds(g, e, clusterId) else Holds(g, e, clusterId)
  {
    if es != [] {
      assert es == [es[0]] + es[1..];
      HoldingExact(g, es[1..], clusterId, enabled);
    }
  }

  lemma {:induction false} HoldingConcat(g: Shape, s: seq<Ptr>, t: seq<Ptr>, clusterId: nat, enabled: bool)
    ensures Holding(g, s + t, clusterId, enabled)
         == Holding(g, s, clusterId, enabled) + Holding(g, t, clusterId, enabled)
  {
    if s == [] {
      assert s + t == t;
    } else {
      assert (s + t)[1..] == s[1..] + t;
      HoldingConcat(g, s[1..], t, clusterId, enabled);
    }
  }

  /** `cluster::get(ep, id)` as a test. */
  method HasCluster(m: Mem, e: Ptr, clusterId: nat, ghost b: Book) returns (has: bool)
    requires TreeOk(ShapeOf(m, b)) && e in m.data && e in b.lists[NodeList]
    ensures has <==> Holds(ShapeOf(m, b), e, clusterId)
  {
    ghost var g := ShapeOf(m, b);
    EndpointSublist(g, e);
    HeadCluster(g, e);
    ghost var k;
    var c;
    c, k := Find(m.data, m.next, m.heads[ClustersOf(e)], (d: Struct) => d.id == clusterId, b.lists[ClustersOf(e)]);
    FindIdGot(g, ClustersOf(e), clusterId, c);
    has := c != NULL;
  }

  /** `emberAfGetClusterServerEndpointIndex`: the position of the endpoint among those that hold the
      cluster, 0xFFFF if it does not. */
  method ServerEndpointIndex(m: Mem, endpointId: nat, clusterId: nat, ghost b: Book) returns (index: nat)
    requires TreeOk(ShapeOf(m, b))
    ensures ClusterAt(ShapeOf(m, b), endpointId, clusterId) == NULL ==> index == 0xFFFF
    ensures ClusterAt(ShapeOf(m, b), endpointId, clusterId) != NULL ==>
      var holding := Holding(ShapeOf(m, b), b.lists[NodeList], clusterId, false);
      index < |holding| && holding[index] == EndpointAt(ShapeOf(m, b), endpointId)
  {
    ghost var g := ShapeOf(m, b);
    ghost var es := b.lists[NodeList];
    assert ListOk(g, NodeList) && SiblingsOk(g, NodeList);
    ghost var k;
    var target;
    target, k := Find(m.data, m.next, m.heads[NodeList], (d: Struct) => d.id == endpointId, es);
    FindIdGot(g, NodeList, endpointId, target);
    if target == NULL {
      return 0xFFFF;
    }
    var has := HasCluster(m, target, clusterId, b);
    if !has {
      return 0xFFFF;
    }
    index := CountBefore(m, endpointId, clusterId, b, k);
    PositionOf(g, es, k, clusterId);
  }

  /** How many endpoints before the one with this id, at position `k`, hold the cluster. */
  method CountBefore(m: Mem, endpointId: nat, clusterId: nat, ghost b: Book, ghost k: nat) returns (count: nat)
    requires TreeOk(ShapeOf(m, b)) && k < |b.lists[NodeList]|
    requires forall i | 0 <= i <= k :: b.lists[NodeList][i] in m.data
    requires forall i | 0 <= i <= k :: m.data[b.lists[NodeList][i]].id == endpointId <==> i == k
    ensures count == |Holding(ShapeOf(m, b), b.lists[NodeList][..k], clusterId, false)|
  {
    ghost var g := ShapeOf(m, b);
    ghost var es := b.lists[NodeList];
    assert ListOk(g, NodeList);
    var e := m.heads[NodeList];
    ghost var i := 0;
    count := 0;
    while e != NULL && m.data[e].id != endpointId
      invariant i <= k && e == es[i]
      invariant count == |Holding(g, es[..i], clusterId, false)|
      decreases |es| - i
    {
      var has := HasCluster(m, e, clusterId, b);
      if has {
        count := count + 1;
      }
      HoldingNext(g, es, i, clusterId);
      e := m.next[e];
      i := i + 1;
    }
  }

  lemma HoldingNext(g: Shape, es: seq<Ptr>, i: nat, clusterId: nat)
    requires i < |es|
    ensures |Holding(g, es[..i + 1], clusterId, false)|
         == |Holding(g, es[..i], clusterId, false)| + if Holds(g, es[i], clusterId) then 1 else 0
  {
    assert es[..i + 1] == es[..i] + [es[i]];
    HoldingConcat(g, es[..i], [es[i]], clusterId, false);
  }

  lemma PositionOf(g: Shape, es: seq<Ptr>, k: nat, clusterId: nat)
    requires k < |es| && Holds(g, es[k], clusterId)
    ensures var i := |Holding(g, es[..k], clusterId, false)|;
            i < |Holding(g, es, clusterId, false)| && Holding(g, es, clusterId, false)[i] == es[k]
  {
    assert es == es[..k] + es[k..];
    HoldingConcat(g, es[..k], es[k..], clusterId, false);
  }

  /** The filtered list keeps the order: whoever comes earlier in it comes earlier in the list. */
  lemma {:induction false} HoldingOrdered(
    g: Shape, es: seq<Ptr>, clusterId: nat, enabled: bool, i: nat, j: nat, x: nat, y: nat)
    requires Distinct(es) && i < j < |Holding(g, es, clusterId, enabled)| && x < |es| && y < |es|
    requires es[x] == Holding(g, es, clusterId, enabled)[i] && es[y] == Holding(g, es, clusterId, enabled)[j]
    ensures x < y
  {
    var holding, rest := Holding(g, es, clusterId, enabled), Holding(g, es[1..], clusterId, enabled);
    HoldingExact(g, es[1..], clusterId, enabled);
    if holding == rest {
      assert es[x] in rest && es[y] in rest;
      HoldingOrdered(g, es[1..], clusterId, enabled, i, j, x - 1, y - 1);
    } else {
      assert holding == [es[0]] + rest && holding[j] == rest[j - 1] && es[y] in rest;
      if i > 0 {
        assert holding[i] == rest[i - 1] && es[x] in rest;
        HoldingOrdered(g, es[1..], clusterId, enabled, i - 1, j - 1, x - 1, y - 1);
      }
    }
  }

  /** The index is a bijection from the endpoints holding the cluster onto 0..n-1, in list order. */
  lemma IndexBijection(g: Shape, clusterId: nat)
    requires TreeOk(g)
    ensures var holding, es := Holding(g, g.lists[NodeList], clusterId, false), g.lists[NodeList];
            && Distinct(holding)
            && (forall e :: e in holding <==> e in es && Holds(g, e, clusterId))
            && (forall i, j, x, y | 0 <= i < j < |holding| && 0 <= x < |es| && 0 <= y < |es| ::
                  holding[i] == es[x] && holding[j] == es[y] ==> x < y)
  {
    assert ListOk(g, NodeList);
    var es := g.lists[NodeList];
    HoldingExact(g, es, clusterId, false);
    var holding := Holding(g, es, clusterId, false);
    forall i, j, x, y |
      0 <= i < j < |holding| && 0 <= x < |es| && 0 <= y < |es| && holding[i] == es[x] && holding[j] == es[y]
      ensures x < y
    {
      HoldingOrdered(g, es, clusterId, false, i, j, x, y);
    }
  }

  /** `get_endpoint_at_index`. */
  method EndpointAtIndex(m: Mem, index: nat, ghost b: Book) returns (e: Ptr)
    requires TreeOk(ShapeOf(m, b))
    ensures e == At(b.lists[NodeList], index)
  {
    assert ListOk(ShapeOf(m, b), NodeList);
    var i := 0;
    e := m.heads[NodeList];
    while i < index && e != NULL
      invariant i <= index && i <= |b.lists[NodeList]|
      invariant e == At(b.lists[NodeList], i)
    {
      e := m.next[e];
      i := i + 1;
    }
  }

  /** `EnabledEndpointsWithServerCluster` over a tree that does not change meanwhile. */
  class EnabledEndpoints {
    const m: Mem
    const clusterId: nat
    const count: nat
    ghost const b: Book
    var index: nat

    ghost predicate Valid()
      reads this
    {
      TreeOk(ShapeOf(m, b)) && count == |b.lists[NodeList]| && index <= count
    }

    /** The endpoints still to be visited. */
    ghost function Remaining(): seq<Ptr>
      requires Valid()
      reads this
    {
      Holding(ShapeOf(m, b), b.lists[NodeList][index..], clusterId, true)
    }

    ghost predicate AtMatch()
      requires Valid()
      reads this
    {
      index < count ==> EnabledAndHolds(ShapeOf(m, b), b.lists[NodeList][index], clusterId)
    }

    constructor (m: Mem, clusterId: nat, count: nat, ghost b: Book)
      requires TreeOk(ShapeOf(m, b)) && count == |b.lists[NodeList]|
      ensures Valid() && AtMatch() && this.m == m && this.b == b && this.clusterId == clusterId
      ensures Remaining() == Holding(ShapeOf(m, b), b.lists[NodeList], clusterId, true)
    {
      this.m, this.clusterId, this.count, this.b := m, clusterId, count, b;
      index := 0;
      new;
      assert b.lists[NodeList][0..] == b.lists[NodeList];
      EnsureMatchingEndpoint();
    }

    method EnsureMatchingEndpoint()
      requires Valid()
      modifies this
      ensures Valid() && AtMatch() && Remaining() == old(Remaining())
    {
      ghost var es := b.lists[NodeList];
      while index < count
        invariant Valid() && Remaining() == old(Remaining())
      {
        var e := EndpointAtIndex(m, index, b);
        assert SiblingsOk(ShapeOf(m, b), NodeList);
        EndpointSublist(ShapeOf(m, b), e);
        assert es[index..][1..] == es[index + 1..];
        if m.data[e].enabled {
          var has := HasCluster(m, e, clusterId, b);
          if has {
            break;
          }
        }
        index := index + 1;
      }
    }

    /** `operator*`: the invalid id past the end. */
    method Current() returns (id: nat)
      requires Valid() && AtMatch()
      ensures Remaining() == [] ==> id == INVALID_ENDPOINT
      ensures Remaining() != [] ==> Remaining()[0] in m.data && id == m.data[Remaining()[0]].id
    {
      var e := EndpointAtIndex(m, index, b);
      assert SiblingsOk(ShapeOf(m, b), NodeList) && ListOk(ShapeOf(m, b), NodeList);
      id := if e == NULL then INVALID_ENDPOINT else m.data[e].id;
    }

    /** `operator++`. */
    method Advance()
      requires Valid() && AtMatch() && index < count
      modifies this
      ensures Valid() && AtMatch() && old(Remaining()) != [] && Remaining() == old(Remaining())[1..]
    {
      assert b.lists[NodeList][index..][1..] == b.lists[NodeList][index + 1..];
      index := index + 1;
      EnsureMatchingEndpoint();
    }
  }

  /** A loop over the iterator visits exactly the enabled endpoints that hold the cluster, in order. */
  method VisitAll(m: Mem, clusterId: nat, count: nat, ghost b: Book) returns (ids: seq<nat>)
    requires TreeOk(ShapeOf(m, b)) && count == |b.lists[NodeList]|
    ensures var holding := Holding(ShapeOf(m, b), b.lists[NodeList], clusterId, true);
            && |ids| == |holding|
            && forall i | 0 <= i < |ids| :: holding[i] in m.data && ids[i] == m.data[holding[i]].id
  {
    var it := new EnabledEndpoints(m, clusterId, count, b);
    ghost var holding := it.Remaining();
    ids := [];
    while it.index < it.count
      invariant fresh(it) && it.Valid() && it.AtMatch() && it.m == m && it.b == b && it.clusterId == clusterId
      invariant |ids| <= |holding| && it.Remaining() == holding[|ids|..]
      invariant forall i | 0 <= i < |ids| :: holding[i] in m.data && ids[i] == m.data[holding[i]].id
      decreases |holding| - |ids|
    {
      var id := it.Current();
      ids := ids + [id];
      it.Advance();
    }
  }
}
