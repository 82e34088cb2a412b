/** The endpoints as the bridge sees them, by id, are the endpoints of the tree: each operation on the tree is
    the operation of the bridge on its map. */
module TreeBridge {
  import opened Basics
  import opened LinkedLists
  import opened DataModel
  import opened TreeSteps
  import opened Lookup
  import opened Teardown
  import opened BridgeProtocol

  /** The ids of the endpoints on the node. */
  ghost function LiveIds(g: Shape): set<nat>
    requires NodeList in g.lists
  {
    set p | p in g.lists[NodeList] && p in g.data :: g.data[p].id
  }

  lemma LiveIff(g: Shape, id: nat)
    requires TreeOk(g)
    ensures id in LiveIds(g) <==> EndpointAt(g, id) != NULL
  {
    assert ListOk(g, NodeList);
    if id in LiveIds(g) {
      var p :| p in g.lists[NodeList] && p in g.data && g.data[p].id == id;
      FindIdIs(g, NodeList, p);
    }
  }

  /** The map of the bridge, as far as the tree knows it: the parent link of each live endpoint. */
  ghost predicate Agrees(g: Shape, counter: nat, r: Ram)
    requires NodeList in g.lists
  {
    && counter == r.counter && LiveIds(g) == r.endpoints.Keys
    && forall id | id in r.endpoints :: UpId(g, id) == r.endpoints[id].parent
  }

  lemma LiveCreated(g: Shape, g': Shape, n: Ptr, d: Struct)
    requires TreeOk(g) && TreeOk(g') && Grew(g, g', NodeList, n, d) && d.EndpointS?
    ensures LiveIds(g') == LiveIds(g) + {d.id}
  {
    forall id ensures id in LiveIds(g') <==> id in LiveIds(g) || id == d.id {
      LiveIff(g, id);
      LiveIff(g', id);
      CreatedPaths(g, g', NodeList, n, d, EndpointPath(id));
      assert Resolve(g, EndpointPath(id)) == EndpointAt(g, id) && Resolve(g', EndpointPath(id)) == EndpointAt(g', id);
    }
  }

  lemma AgreesCreated(g: Shape, g': Shape, n: Ptr, d: Struct, counter: nat, r: Ram, r': Ram)
    requires TreeOk(g) && TreeOk(g') && Grew(g, g', NodeList, n, d) && d.EndpointS? && Agrees(g, counter, r)
    requires exists aggregator :: r'.endpoints == r.endpoints[d.id := Endpoint(d.parent, aggregator)]
    ensures Agrees(g', r'.counter, r')
  {
    LiveCreated(g, g', n, d);
    forall id | id in r'.endpoints ensures UpId(g', id) == r'.endpoints[id].parent { UpIdCreated(g, g', n, d, id); }
  }

  /** `endpoint::create`: the step of the tree is the step of the bridge. */
  lemma CreateCommutes(g: Shape, g': Shape, n: Ptr, flags: bv16, s: State, aggregator: bool)
    requires TreeOk(g) && TreeOk(g') && Agrees(g, s.ram.counter, s.ram)
    requires Grew(g, g', NodeList, n, EndpointS(s.ram.counter, flags, true, INVALID_ENDPOINT))
    ensures Agrees(g', s.ram.counter + 1, CreateEndpoint(s, aggregator).s.ram)
  {
    var d := EndpointS(s.ram.counter, flags, true, INVALID_ENDPOINT);
    AgreesCreated(g, g', n, d, s.ram.counter, s.ram, CreateEndpoint(s, aggregator).s.ram);
  }

  /** `endpoint::resume`: the checks of the tree are those of the bridge, and so is the step. */
  lemma ResumeCommutes(g: Shape, s: State, id: nat)
    requires TreeOk(g) && Agrees(g, s.ram.counter, s.ram)
    ensures CanResume(s.ram, id) <==> Resolve(g, EndpointPath(id)) == NULL && id < s.ram.counter
    ensures forall g', n, flags, aggregator |
      TreeOk(g') && Grew(g, g', NodeList, n, EndpointS(id, flags, false, 0)) && CanResume(s.ram, id) ::
      Agrees(g', s.ram.counter, ResumeEndpoint(s, id, aggregator).s.ram)
  {
    LiveIff(g, id);
    forall g', n, flags: bv16, aggregator |
      TreeOk(g') && Grew(g, g', NodeList, n, EndpointS(id, flags, false, 0)) && CanResume(s.ram, id)
      ensures Agrees(g', s.ram.counter, ResumeEndpoint(s, id, aggregator).s.ram)
    {
      var r' := ResumeEndpoint(s, id, aggregator).s.ram;
      assert r'.endpoints == s.ram.endpoints[id := Endpoint(0, aggregator)];
      AgreesCreated(g, g', n, EndpointS(id, flags, false, 0), s.ram.counter, s.ram, r');
    }
  }

  /** `endpoint::set_parent_endpoint`. */
  lemma SetParentCommutes(g: Shape, g': Shape, e: Ptr, d: Struct, r: Ram)
    requires TreeOk(g) && TreeOk(g') && e in g.data && g.data[e].EndpointS? && d.EndpointS? && d.id == g.data[e].id
    requires g' == g.(data := g.data[e := d]) && Agrees(g, r.counter, r) && d.id in r.endpoints
    ensures Agrees(g', r.counter, r.(endpoints := r.endpoints[d.id := r.endpoints[d.id].(parent := d.parent)]))
  {
    UpUpdated(g, g', e, d);
    var r' := r.(endpoints := r.endpoints[d.id := r.endpoints[d.id].(parent := d.parent)]);
    forall id ensures id in LiveIds(g') <==> id in LiveIds(g) {
      LiveIff(g, id);
      LiveIff(g', id);
      SurvivorPaths(g, g', EndpointPath(id));
      assert Resolve(g, EndpointPath(id)) == EndpointAt(g, id) && Resolve(g', EndpointPath(id)) == EndpointAt(g', id);
    }
    forall id | id in r'.endpoints ensures UpId(g', id) == r'.endpoints[id].parent {
      assert UpOf(g')(id) == UpId(g', id) && UpOf(g)(id) == UpId(g, id);
    }
  }

  /** `endpoint::destroy`. */
  lemma DestroyCommutes(g: Shape, g': Shape, i: nat, e: Ptr, r: Ram)
    requires TreeOk(g) && TreeOk(g') && EndpointGone(g, g', i) && e == g.lists[NodeList][i] && e in g.data
    requires Agrees(g, r.counter, r)
    ensures Agrees(g', r.counter, r.(endpoints := r.endpoints - {g.data[e].id}))
  {
    forall id ensures id in LiveIds(g') <==> id in LiveIds(g) && id != g.data[e].id {
      LiveIff(g, id);
      LiveIff(g', id);
      EndpointDestroyedPaths(g, g', i, e, EndpointPath(id));
      assert Resolve(g, EndpointPath(id)) == EndpointAt(g, id) && Resolve(g', EndpointPath(id)) == EndpointAt(g', id);
    }
    forall id | id in r.endpoints && id != g.data[e].id ensures UpId(g', id) == r.endpoints[id].parent {
      UpIdDestroyed(g, g', i, e, id);
    }
  }
}
