/** Destruction frees every struct exactly once: the logged order repeats no address and lists
    exactly what was allocated. */
module FreeOrder {
  import opened LinkedLists
  import opened DataModel
  import opened TreeSteps
  import opened Teardown

  /** The cluster a struct is or belongs to. */
  ghost function ClusterOf(g: Shape, p: Ptr): Ptr {
    if p !in g.owner || g.owner[p] == NodeList then NULL
    else if g.owner[p].ClustersOf? then p
    else g.owner[p].parent
  }

  /** The endpoint a struct is or belongs to. */
  ghost function EndpointOf(g: Shape, p: Ptr): Ptr {
    if p !in g.owner then NULL
    else if g.owner[p] == NodeList then p
    else if g.owner[p].ClustersOf? then g.owner[p].parent
    else if g.owner[p].parent in g.owner && g.owner[g.owner[p].parent].ClustersOf? then
      g.owner[g.owner[p].parent].parent
    else NULL
  }

  lemma DistinctConcat(s: seq<Ptr>, t: seq<Ptr>)
    requires Distinct(s) && Distinct(t) && forall x | x in s :: x !in t
    ensures Distinct(s + t)
  {
    forall i, j | 0 <= i < j < |s + t| ensures (s + t)[i] != (s + t)[j] {
      if i < |s| && j >= |s| { assert (s + t)[i] == s[i] && s[i] in s && (s + t)[j] in t; }
    }
  }

  lemma ClusterOrderExact(g: Shape, c: Ptr)
    requires TreeOk(g) && c in g.data && g.data[c].ClusterS?
    ensures Distinct(ClusterOrder(g.lists, c))
    ensures forall q :: q in ClusterOrder(g.lists, c) <==> q in g.data && ClusterOf(g, q) == c
  {
    assert StructOk(g, c);
    var cs, at, ev := CommandsOf(c), AttributesOf(c), EventsOf(c);
    AllOnList(g, cs);
    AllOnList(g, at);
    AllOnList(g, ev);
    assert ListOk(g, cs) && ListOk(g, at) && ListOk(g, ev);
    DistinctConcat(g.lists[cs], g.lists[at]);
    DistinctConcat(g.lists[cs] + g.lists[at], g.lists[ev]);
    DistinctConcat(g.lists[cs] + g.lists[at] + g.lists[ev], [c]);
    forall q | q in g.data && ClusterOf(g, q) == c ensures q in ClusterOrder(g.lists, c) {
      assert StructOk(g, q) && SiblingsOk(g, g.owner[q]);
      ClusterNotNull(g, c);
    }
  }

  lemma ClusterNotNull(g: Shape, c: Ptr)
    requires TreeOk(g) && c in g.data
    ensures c != NULL
  {
    assert StructOk(g, c) && ListOk(g, g.owner[c]);
  }

  lemma {:induction false} ClustersOrderExact(g: Shape, cs: seq<Ptr>)
    requires TreeOk(g) && Distinct(cs) && forall c | c in cs :: c in g.data && g.data[c].ClusterS?
    ensures Distinct(ClustersOrder(g.lists, cs))
    ensures forall q :: q in ClustersOrder(g.lists, cs) <==> q in g.data && ClusterOf(g, q) in cs
  {
    if cs != [] {
      assert cs[0] in cs && cs == [cs[0]] + cs[1..];
      ClusterOrderExact(g, cs[0]);
      ClustersOrderExact(g, cs[1..]);
      DistinctConcat(ClusterOrder(g.lists, cs[0]), ClustersOrder(g.lists, cs[1..]));
    }
  }

  lemma EndpointOrderExact(g: Shape, e: Ptr)
    requires TreeOk(g) && e in g.data && g.data[e].EndpointS?
    ensures Distinct(EndpointOrder(g.lists, e))
    ensures forall q :: q in EndpointOrder(g.lists, e) <==> q in g.data && EndpointOf(g, q) == e
  {
    EndpointHandle(g, e);
    HeadCluster(g, e);
    var cs := g.lists[ClustersOf(e)];
    ClustersOrderExact(g, cs);
    forall q | q in g.data ensures ClusterOf(g, q) in cs <==> q != e && EndpointOf(g, q) == e {
      InEndpoint(g, e, q);
    }
    DistinctConcat(ClustersOrder(g.lists, cs), [e]);
  }

  lemma InEndpoint(g: Shape, e: Ptr, q: Ptr)
    requires TreeOk(g) && e in g.data && g.data[e].EndpointS? && q in g.data && ClustersOf(e) in g.lists
    ensures ClusterOf(g, q) in g.lists[ClustersOf(e)] <==> q != e && EndpointOf(g, q) == e
  {
    AllOnList(g, ClustersOf(e));
    assert StructOk(g, q) && StructOk(g, e) && SiblingsOk(g, g.owner[q]);
    ClusterNotNull(g, e);
    assert ListOk(g, ClustersOf(e));
    if g.owner[q] != NodeList && !g.owner[q].ClustersOf? { assert StructOk(g, g.owner[q].parent); }
  }

  lemma {:induction false} NodeOrderMembers(g: Shape, es: seq<Ptr>)
    requires TreeOk(g) && Distinct(es) && forall e | e in es :: e in g.data && g.data[e].EndpointS?
    ensures Distinct(NodeOrder(g.lists, es))
    ensures forall q :: q in NodeOrder(g.lists, es) <==> q in g.data && EndpointOf(g, q) in es
  {
    if es != [] {
      assert es[0] in es && es == [es[0]] + es[1..];
      EndpointOrderExact(g, es[0]);
      NodeOrderMembers(g, es[1..]);
      DistinctConcat(EndpointOrder(g.lists, es[0]), NodeOrder(g.lists, es[1..]));
    }
  }

  /** What `node::destroy` frees is everything, each struct once. */
  lemma NodeOrderExact(g: Shape)
    requires TreeOk(g)
    ensures Distinct(NodeOrder(g.lists, g.lists[NodeList]))
    ensures Elements(NodeOrder(g.lists, g.lists[NodeList])) == g.data.Keys
  {
    var es := g.lists[NodeList];
    assert ListOk(g, NodeList) && SiblingsOk(g, NodeList);
    forall e | e in es ensures g.data[e].EndpointS? { EndpointSublist(g, e); }
    NodeOrderMembers(g, es);
    forall q | q in g.data ensures EndpointOf(g, q) in es { EndpointOfIn(g, q); }
  }

  lemma EndpointOfIn(g: Shape, q: Ptr)
    requires TreeOk(g) && q in g.data
    ensures EndpointOf(g, q) in g.lists[NodeList]
  {
    InNode(g, q);
    assert StructOk(g, q) && ListOk(g, NodeList);
  }
}
