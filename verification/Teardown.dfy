/** Reporting to the parents, and tearing endpoints and the node down. */
module Teardown {
  import opened Basics
  import opened LinkedLists
  import opened DataModel
  import opened TreeSteps
  import opened Lookup
  import opened Parents

  // ----- the parent walk -----

  /** The endpoints whose parts list is reported: the ancestors of an endpoint, then endpoint 0. */
  ghost predicate IsReport(up: nat -> nat, parent: nat, reported: seq<nat>) {
    exists n :: Stops(up, parent, n) && reported == Trail(up, parent, n) + [0]
  }

  /** `report_parts_list_change_internal`. The walk may only be entered when it ends. */
  method ReportPartsList(m: Mem, e: Ptr, ghost b: Book) returns (reported: seq<nat>)
    requires TreeOk(ShapeOf(m, b)) && e in m.data && m.data[e].EndpointS?
    requires Terminates(UpOf(ShapeOf(m, b)), m.data[e].parent)
    ensures IsReport(UpOf(ShapeOf(m, b)), m.data[e].parent, reported)
  {
    ghost var up := UpOf(ShapeOf(m, b));
    ghost var n0: nat :| Stops(up, m.data[e].parent, n0);
    ghost var n: nat := n0;
    var parent := m.data[e].parent;
    reported := [];
    while parent != INVALID_ENDPOINT
      invariant Stops(up, parent, n)
      invariant reported + Trail(up, parent, n) == Trail(up, m.data[e].parent, n0)
      decreases n
    {
      reported := reported + [parent];
      var next := ParentOf(m, parent, b);
      assert Trail(up, parent, n) == [parent] + Trail(up, next, n - 1);
      parent := next;
      n := n - 1;
    }
    reported := reported + [0];
  }

  /** `get_parent_endpoint_id(get(id))`; no endpoint gives the invalid id. */
  method ParentOf(m: Mem, id: nat, ghost b: Book) returns (parent: nat)
    requires TreeOk(ShapeOf(m, b))
    ensures parent == UpOf(ShapeOf(m, b))(id)
  {
    ghost var g := ShapeOf(m, b);
    assert ListOk(g, NodeList) && SiblingsOk(g, NodeList);
    ghost var k;
    var p;
    p, k := Find(m.data, m.next, m.heads[NodeList], (d: Struct) => d.id == id, b.lists[NodeList]);
    FindIdGot(g, NodeList, id, p);
    if p == NULL {
      return INVALID_ENDPOINT;
    }
    assert StructOk(g, p);
    return m.data[p].parent;
  }

  // ----- links after a change -----

  lemma UpIdDestroyed(g: Shape, g': Shape, i: nat, e: Ptr, id: nat)
    requires TreeOk(g) && TreeOk(g') && EndpointGone(g, g', i) && e == g.lists[NodeList][i] && e in g.data
    ensures UpId(g', id) == if id == g.data[e].id then INVALID_ENDPOINT else UpId(g, id)
  {
    EndpointDestroyedPaths(g, g', i, e, EndpointPath(id));
    assert Resolve(g, EndpointPath(id)) == EndpointAt(g, id) && Resolve(g', EndpointPath(id)) == EndpointAt(g', id);
  }

  lemma UpIdCreated(g: Shape, g': Shape, n: Ptr, d: Struct, id: nat)
    requires TreeOk(g) && TreeOk(g') && Grew(g, g', NodeList, n, d) && d.EndpointS?
    ensures UpId(g', id) == if id == d.id then d.parent else UpId(g, id)
  {
    CreatedPaths(g, g', NodeList, n, d, EndpointPath(id));
    assert Resolve(g, EndpointPath(id)) == EndpointAt(g, id) && Resolve(g', EndpointPath(id)) == EndpointAt(g', id);
  }

  /** Destroying an endpoint makes its id a dead end for the walks. */
  lemma UpDestroyed(g: Shape, g': Shape, i: nat, e: Ptr)
    requires TreeOk(g) && TreeOk(g') && EndpointGone(g, g', i) && e == g.lists[NodeList][i] && e in g.data
    ensures Changed(UpOf(g), UpOf(g'), g.data[e].id, INVALID_ENDPOINT)
  {
    forall id ensures UpId(g', id) == if id == g.data[e].id then INVALID_ENDPOINT else UpId(g, id) {
      UpIdDestroyed(g, g', i, e, id);
    }
  }

  /** Creating or resuming an endpoint with this parent. */
  lemma UpCreated(g: Shape, g': Shape, n: Ptr, d: Struct)
    requires TreeOk(g) && TreeOk(g') && Grew(g, g', NodeList, n, d) && d.EndpointS?
    ensures Changed(UpOf(g), UpOf(g'), d.id, d.parent)
  {
    forall id ensures UpId(g', id) == if id == d.id then d.parent else UpId(g, id) {
      UpIdCreated(g, g', n, d, id);
    }
  }

  /** Walks stay finite when an endpoint, possibly an ancestor of others, is destroyed. */
  lemma DestroyKeepsAcyclic(g: Shape, g': Shape, i: nat, e: Ptr)
    requires TreeOk(g) && TreeOk(g') && EndpointGone(g, g', i) && e == g.lists[NodeList][i] && e in g.data
    requires Acyclic(UpOf(g)) && g.data[e].id != INVALID_ENDPOINT
    ensures Acyclic(UpOf(g'))
  {
    UpDestroyed(g, g', i, e);
    DeadEnd(UpOf(g), g.data[e].id);
    AcyclicIff(UpOf(g), UpOf(g'), g.data[e].id, INVALID_ENDPOINT);
  }

  /** Walks stay finite when an endpoint is created or resumed exactly when the walk from its parent
      link does not pass the new id. `endpoint::resume` leaves the link at 0. */
  lemma CreateKeepsAcyclicIff(g: Shape, g': Shape, n: Ptr, d: Struct)
    requires TreeOk(g) && TreeOk(g') && Grew(g, g', NodeList, n, d) && d.EndpointS?
    requires Acyclic(UpOf(g)) && d.id != INVALID_ENDPOINT
    ensures Acyclic(UpOf(g')) <==> !Passes(UpOf(g), d.parent, d.id)
  {
    UpCreated(g, g', n, d);
    AcyclicIff(UpOf(g), UpOf(g'), d.id, d.parent);
  }

  /** A resumed endpoint 0 would be its own parent: the walk from it never ends. */
  lemma ResumedRootLoops(g: Shape, g': Shape, n: Ptr, d: Struct)
    requires TreeOk(g) && TreeOk(g') && Grew(g, g', NodeList, n, d) && d.EndpointS? && d.id == 0 && d.parent == 0
    requires Acyclic(UpOf(g))
    ensures !Terminates(UpOf(g'), 0)
  {
    UpCreated(g, g', n, d);
    assert Terminates(UpOf(g), 0);
    var k :| Stops(UpOf(g), 0, k);
    assert Trail(UpOf(g), 0, k)[0] == 0;
    LoopsForever(UpOf(g), UpOf(g'), 0, 0);
  }

  // ----- endpoint::destroy and node::destroy -----

  /** Everything an endpoint needs for its destruction: flags and links that let it through. */
  method DisableAndFree(m: Mem, e: Ptr, ghost b: Book)
    returns (m': Mem, ghost b': Book, reported: seq<nat>, ghost log: seq<Ptr>, ghost k: nat)
    requires TreeOk(ShapeOf(m, b)) && e in m.data && m.data[e].EndpointS?
    requires Terminates(UpOf(ShapeOf(m, b)), m.data[e].parent)
    ensures TreeOk(ShapeOf(m', b')) && EndpointGone(ShapeOf(m, b), ShapeOf(m', b'), k) && b.lists[NodeList][k] == e
    ensures IsReport(UpOf(ShapeOf(m, b)), m.data[e].parent, reported)
    ensures log == EndpointOrder(b.lists, e)
  {
    var d := m.data[e].(enabled := false);
    var m1 := Mem(m.data[e := d], m.next, m.heads);
    UpdateOk(ShapeOf(m, b), ShapeOf(m1, b), e, d);
    UpUpdated(ShapeOf(m, b), ShapeOf(m1, b), e, d);
    SameReports(UpOf(ShapeOf(m, b)), UpOf(ShapeOf(m1, b)), d.parent);
    reported := ReportPartsList(m1, e, b);
    m', b', log, k := FreeEndpoint(m1, e, b);
    GoneAfterUpdate(ShapeOf(m, b), ShapeOf(m1, b), ShapeOf(m', b'), e, d, k);
  }

  lemma SameReports(up: nat -> nat, up': nat -> nat, parent: nat)
    requires (forall i :: up'(i) == up(i)) && Terminates(up, parent)
    ensures Terminates(up', parent)
    ensures forall r | IsReport(up', parent, r) :: IsReport(up, parent, r)
  {
    var n: nat :| Stops(up, parent, n);
    SameLinks(up, up', parent, n);
    forall r | IsReport(up', parent, r) ensures IsReport(up, parent, r) {
      var m: nat :| Stops(up', parent, m) && r == Trail(up', parent, m) + [0];
      SameLinks(up', up, parent, m);
    }
  }

  lemma GoneAfterUpdate(g: Shape, g1: Shape, g': Shape, e: Ptr, d: Struct, k: nat)
    requires e in g.data && g1 == g.(data := g.data[e := d]) && EndpointGone(g1, g', k) && g.lists[NodeList][k] == e
    ensures EndpointGone(g, g', k)
  {
  }

  /** Updating an endpoint in place changes at most its own parent link. */
  lemma UpUpdated(g: Shape, g': Shape, e: Ptr, d: Struct)
    requires TreeOk(g) && TreeOk(g') && e in g.data && g.data[e].EndpointS? && d.EndpointS? && d.id == g.data[e].id
    requires g' == g.(data := g.data[e := d])
    ensures Changed(UpOf(g), UpOf(g'), d.id, d.parent)
    ensures d.parent == g.data[e].parent ==> forall id :: UpOf(g')(id) == UpOf(g)(id)
  {
    assert StructOk(g, e);
    FindIdIs(g, NodeList, e);
    forall id ensures UpId(g', id) == if id == d.id then d.parent else UpId(g, id) {
      SurvivorPaths(g, g', EndpointPath(id));
      assert Resolve(g, EndpointPath(id)) == EndpointAt(g, id) && Resolve(g', EndpointPath(id)) == EndpointAt(g', id);
    }
  }

  /** The order in which `node::destroy` frees the endpoints `es` with everything below them. */
  function NodeOrder(lists: Lists, es: seq<Ptr>): seq<Ptr> {
    if es == [] then [] else EndpointOrder(lists, es[0]) + NodeOrder(lists, es[1..])
  }

  lemma {:induction false} NodeOrderFrame(lists: Lists, lists': Lists, es: seq<Ptr>)
    requires forall e | e in es :: EndpointOrder(lists, e) == EndpointOrder(lists', e)
    ensures NodeOrder(lists, es) == NodeOrder(lists', es)
  {
    if es != [] {
      assert es[0] in es;
      NodeOrderFrame(lists, lists', es[1..]);
    }
  }

  /** Destroying one endpoint does not change the order below another. */
  lemma OtherEndpointOrder(g: Shape, g': Shape, k: nat, e: Ptr)
    requires TreeOk(g) && EndpointGone(g, g', k) && e in g.lists[NodeList] && e != g.lists[NodeList][k] && e in g.data
    ensures EndpointOrder(g.lists, e) == EndpointOrder(g'.lists, e)
  {
    var gone := g.lists[NodeList][k];
    EndpointSublist(g, e);
    HeadCluster(g, e);
    assert ListAt(g'.lists, ClustersOf(e)) == ListAt(g.lists, ClustersOf(e));
    forall c | c in g.lists[ClustersOf(e)] ensures ClusterOrder(g.lists, c) == ClusterOrder(g'.lists, c) {
      forall l | l in {CommandsOf(c), AttributesOf(c), EventsOf(c)} ensures ListAt(g'.lists, l) == ListAt(g.lists, l) {
        assert !LeafListUnder(g.owner, gone, l);
      }
    }
    ClustersOrderFrame(g.lists, g'.lists, g.lists[ClustersOf(e)]);
  }

  lemma EndpointSublist(g: Shape, e: Ptr)
    requires TreeOk(g) && e in g.data && e in g.lists[NodeList]
    ensures g.data[e].EndpointS? && ClustersOf(e) in g.lists
  {
    assert StructOk(g, e) && ListOk(g, NodeList);
  }

  ghost predicate Destructible(g: Shape) {
    && TreeOk(g) && Acyclic(UpOf(g))
    && forall e | e in g.lists[NodeList] :: e in g.data && g.data[e].id != INVALID_ENDPOINT
  }

  lemma FirstEndpointGone(g: Shape, g': Shape, k: nat, e: Ptr)
    requires Destructible(g) && TreeOk(g') && EndpointGone(g, g', k)
    requires e == g.lists[NodeList][k] == g.lists[NodeList][0]
    ensures Destructible(g') && |g'.lists[NodeList]| == |g.lists[NodeList]| - 1
    ensures e in g.next && g.next[e] == At(g'.lists[NodeList], 0)
    ensures EndpointOrder(g.lists, e) + NodeOrder(g'.lists, g'.lists[NodeList]) == NodeOrder(g.lists, g.lists[NodeList])
  {
    var s := g.lists[NodeList];
    assert ListOk(g, NodeList) && e in s;
    UnlinkedHead(g.next, s);
    assert k == 0 && Without(s, 0) == s[1..];
    DestroyKeepsAcyclic(g, g', k, e);
    WithoutDistinct(s, 0);
    assert SiblingsOk(g', NodeList);
    forall e' | e' in s[1..] ensures EndpointOrder(g.lists, e') == EndpointOrder(g'.lists, e') {
      OtherEndpointOrder(g, g', k, e');
    }
    NodeOrderFrame(g.lists, g'.lists, s[1..]);
  }

  lemma EmptyTree(g: Shape)
    requires TreeOk(g) && g.lists[NodeList] == []
    ensures g.data == map[]
  {
    forall p | p in g.data ensures false { InNode(g, p); }
  }

  /** Every struct lies below an endpoint of the node. */
  lemma InNode(g: Shape, p: Ptr)
    requires TreeOk(g) && p in g.data
    ensures exists e :: e in g.lists[NodeList] && (p == e || Below(g.owner, e, p))
  {
    assert StructOk(g, p) && SiblingsOk(g, g.owner[p]);
    if g.owner[p] != NodeList {
      var q := g.owner[p].parent;
      assert StructOk(g, q) && SiblingsOk(g, g.owner[q]);
      if g.owner[q] != NodeList {
        var e := g.owner[q].parent;
        assert StructOk(g, e);
        assert e in g.lists[NodeList] && Below(g.owner, e, p);
      } else {
        assert q in g.lists[NodeList] && Below(g.owner, q, p);
      }
    }
  }

  lemma HeadEndpoint(g: Shape)
    requires TreeOk(g)
    ensures NodeList in g.heads && g.heads[NodeList] == At(g.lists[NodeList], 0) && NULL !in g.lists[NodeList]
  {
    assert ListOk(g, NodeList);
  }

  /** The loop of `node::destroy`: every endpoint is made destroyable and destroyed. */
  method FreeAll(m: Mem, ghost b: Book) returns (m': Mem, ghost b': Book, ghost log: seq<Ptr>)
    requires Destructible(ShapeOf(m, b))
    ensures m'.data == map[]
    ensures TreeOk(ShapeOf(m', b')) && b'.lists[NodeList] == [] && b'.owner == b.owner
    ensures log == NodeOrder(b.lists, b.lists[NodeList])
  {
    m', b', log := m, b, [];
    HeadEndpoint(ShapeOf(m, b));
    var e := m.heads[NodeList];
    while e != NULL
      invariant Destructible(ShapeOf(m', b')) && b'.owner == b.owner && e == At(b'.lists[NodeList], 0)
      invariant log + NodeOrder(b'.lists, b'.lists[NodeList]) == NodeOrder(b.lists, b.lists[NodeList])
      decreases |b'.lists[NodeList]|
    {
      ghost var freed;
      ghost var rest := NodeOrder(b'.lists, b'.lists[NodeList]);
      m', b', e, freed := FreeFirstEndpoint(m', e, b');
      LogGrows(log, freed, rest, NodeOrder(b'.lists, b'.lists[NodeList]));
      log := log + freed;
    }
    HeadEndpoint(ShapeOf(m', b'));
    EmptyTree(ShapeOf(m', b'));
  }

  method FreeFirstEndpoint(m: Mem, e: Ptr, ghost b: Book)
    returns (m': Mem, ghost b': Book, e': Ptr, ghost freed: seq<Ptr>)
    requires Destructible(ShapeOf(m, b)) && e == At(b.lists[NodeList], 0) && e != NULL
    ensures Destructible(ShapeOf(m', b')) && b'.owner == b.owner && e' == At(b'.lists[NodeList], 0)
    ensures |b'.lists[NodeList]| == |b.lists[NodeList]| - 1
    ensures freed + NodeOrder(b'.lists, b'.lists[NodeList]) == NodeOrder(b.lists, b.lists[NodeList])
  {
    ghost var g := ShapeOf(m, b);
    assert e in b.lists[NodeList];
    EndpointSublist(g, e);
    assert StructOk(g, e);
    e' := m.next[e];
    var was := m.data[e];
    var d := EndpointS(was.id, was.flags | ENDPOINT_FLAG_DESTROYABLE, was.enabled, was.parent);
    var m1 := Mem(m.data[e := d], m.next, m.heads);
    UpdateOk(g, ShapeOf(m1, b), e, d);
    UpUpdated(g, ShapeOf(m1, b), e, d);
    assert Terminates(UpOf(g), d.parent);
    SameReports(UpOf(g), UpOf(ShapeOf(m1, b)), d.parent);
    var reported;
    ghost var k;
    m', b', reported, freed, k := DisableAndFree(m1, e, b);
    GoneAfterUpdate(g, ShapeOf(m1, b), ShapeOf(m', b'), e, d, k);
    assert ListOk(g, NodeList);
    FirstEndpointGone(g, ShapeOf(m', b'), k, e);
  }
}
