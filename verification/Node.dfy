/** The data model's operations: the `node`, `endpoint`, `cluster`, `attribute`, `command` and `event`
    functions on the node's memory. Handles are addresses. */
module NodeTree {
  import opened Basics
  import opened LinkedLists
  import opened DataModel
  import opened TreeSteps
  import opened Lookup
  import opened Parents
  import opened Teardown

  datatype EspErr = ESP_OK | ESP_FAIL | ESP_ERR_INVALID_ARG | ESP_ERR_NOT_FOUND

  ghost predicate Inv(m: Mem, b: Book, nextAddress: Ptr, minUnused: nat) {
    && TreeOk(ShapeOf(m, b))
    && 0 < nextAddress && (forall p | p in b.owner :: p < nextAddress)
    && minUnused <= INVALID_ENDPOINT
    && forall p | p in b.lists[NodeList] :: p in m.data && m.data[p].id < minUnused
  }

  /** Nothing was created, and the endpoints that are left were there before. */
  ghost predicate Narrowed(g: Shape, g': Shape) {
    && g'.owner == g.owner && NodeList in g.lists && NodeList in g'.lists
    && (forall p | p in g'.data :: p in g.data && g'.data[p].id == g.data[p].id)
    && (forall p | p in g'.lists[NodeList] :: p in g.lists[NodeList])
  }

  class Node {
    var mem: Mem
    var minUnusedEndpointId: nat
    var nextAddress: Ptr
    const maxEndpoints: nat

    ghost var book: Book
    ghost var freed: seq<Ptr>

    ghost function S(): Shape
      reads this
    {
      ShapeOf(mem, book)
    }

    ghost predicate Valid()
      reads this
    {
      Inv(mem, book, nextAddress, minUnusedEndpointId)
    }

    /** `node::create_raw`. */
    constructor (maxEndpoints: nat)
      ensures Valid() && mem.data == map[] && book.lists == map[NodeList := []]
      ensures minUnusedEndpointId == 0 && freed == [] && this.maxEndpoints == maxEndpoints
    {
      mem := Mem(map[], map[], map[NodeList := NULL]);
      minUnusedEndpointId, nextAddress := 0, 1;
      this.maxEndpoints := maxEndpoints;
      book, freed := Book(map[NodeList := []], map[]), [];
    }

    // ----- get -----

    /** Walk list `l` for the first struct that satisfies `want`. */
    method Get(l: ListId, want: Struct -> bool) returns (p: Ptr, ghost k: nat)
      requires Valid() && l in book.lists
      ensures k <= |book.lists[l]| && p == At(book.lists[l], k)
      ensures forall q | q in book.lists[l] :: q != NULL && q in mem.data
      ensures k < |book.lists[l]| ==> want(mem.data[p])
      ensures forall i | 0 <= i < k :: !want(mem.data[book.lists[l][i]])
      ensures p == NULL ==> forall q | q in book.lists[l] :: !want(mem.data[q])
      ensures p != NULL ==> p in book.lists[l] && want(mem.data[p])
    {
      assert ListOk(S(), l) && SiblingsOk(S(), l);
      p, k := Find(mem.data, mem.next, mem.heads[l], want, book.lists[l]);
    }

    method GetById(l: ListId, id: nat) returns (p: Ptr)
      requires Valid() && l in book.lists && !l.CommandsOf?
      ensures p == FindId(S(), l, id)
    {
      ghost var k;
      p, k := Get(l, (d: Struct) => d.id == id);
      FindIdGot(S(), l, id, p);
    }

    /** `endpoint::get`. */
    method GetEndpoint(id: nat) returns (p: Ptr)
      requires Valid()
      ensures p == Resolve(S(), EndpointPath(id))
    {
      p := GetById(NodeList, id);
    }

    /** `cluster::get` by path; a missing endpoint gives null. */
    method GetCluster(endpointId: nat, id: nat) returns (p: Ptr)
      requires Valid()
      ensures p == Resolve(S(), ClusterPath(endpointId, id))
    {
      var e := GetEndpoint(endpointId);
      if e == NULL {
        return NULL;
      }
      EndpointSublist(S(), e);
      p := GetById(ClustersOf(e), id);
    }

    /** `attribute::get` by path. */
    method GetAttribute(endpointId: nat, clusterId: nat, id: nat) returns (p: Ptr)
      requires Valid()
      ensures p == Resolve(S(), AttributePath(endpointId, clusterId, id))
    {
      var c := GetCluster(endpointId, clusterId);
      if c == NULL {
        return NULL;
      }
      ClusterFound(S(), endpointId, clusterId);
      ClusterSublists(S(), c);
      p := GetById(AttributesOf(c), id);
    }

    /** `command::get` with flags: the first command with the id and a common flag. */
    method GetCommand(c: Ptr, id: nat, flags: bv16) returns (p: Ptr, ghost k: nat)
      requires Valid() && c in mem.data && mem.data[c].ClusterS?
      ensures CommandsOf(c) in book.lists && k <= |book.lists[CommandsOf(c)]| && p == At(book.lists[CommandsOf(c)], k)
      ensures k < |book.lists[CommandsOf(c)]| ==> p != NULL && p in mem.data && IsCommand(mem.data[p], id, flags)
      ensures forall i | 0 <= i < k :: book.lists[CommandsOf(c)][i] in mem.data
      ensures forall i | 0 <= i < k :: !IsCommand(mem.data[book.lists[CommandsOf(c)][i]], id, flags)
      ensures p != NULL <==> HasCommand(S(), c, id, flags)
      ensures p != NULL ==> p in book.lists[CommandsOf(c)] && p in mem.data && IsCommand(mem.data[p], id, flags)
    {
      ClusterSublists(S(), c);
      p, k := Get(CommandsOf(c), (d: Struct) => IsCommand(d, id, flags));
    }

    /** `get_path_from_attribute_handle`: a full attribute stores its ids; for one managed internally
        the whole tree is searched for the handle. */
    method GetPath(a: Ptr) returns (endpointId: nat, clusterId: nat, attributeId: nat)
      requires Valid() && a in mem.data && (mem.data[a].AttributeS? || mem.data[a].AttributeBaseS?)
      ensures Resolve(S(), AttributePath(endpointId, clusterId, attributeId)) == a
    {
      ghost var g := S();
      assert StructOk(g, a) && SiblingsOk(g, g.owner[a]);
      HandleToPath(g, a);
      attributeId := mem.data[a].id;
      if mem.data[a].flags & ATTRIBUTE_FLAG_MANAGED_INTERNALLY != 0 {
        endpointId, clusterId := FindInTree(mem, a, book);
      } else {
        endpointId, clusterId := mem.data[a].endpointId, mem.data[a].clusterId;
      }
    }

    // ----- create -----

    method Link(l: ListId, d: Struct) returns (n: Ptr)
      requires Valid() && Fits(S(), l, d)
      requires l == NodeList ==> d.id < minUnusedEndpointId
      modifies this
      ensures Valid() && minUnusedEndpointId == old(minUnusedEndpointId) && freed == old(freed)
      ensures Grew(old(S()), S(), l, n, d)
    {
      n := nextAddress;
      nextAddress := nextAddress + 1;
      assert n in mem.data ==> StructOk(S(), n);
      mem, book := LinkNew(mem, l, n, d, book);
      InvLink(old(mem), old(book), mem, book, l, n, d, minUnusedEndpointId);
    }

    /** `endpoint::create`. The counter only moves when an endpoint is made. */
    method CreateEndpoint(flags: bv16) returns (e: Ptr)
      requires Valid() && minUnusedEndpointId < INVALID_ENDPOINT
      modifies this
      ensures Valid() && freed == old(freed)
      ensures e == NULL <==> |old(book.lists[NodeList])| >= maxEndpoints
      ensures e == NULL ==> S() == old(S()) && minUnusedEndpointId == old(minUnusedEndpointId)
      ensures e != NULL ==> minUnusedEndpointId == old(minUnusedEndpointId) + 1
      ensures e != NULL ==>
        Grew(old(S()), S(), NodeList, e, EndpointS(old(minUnusedEndpointId), flags, true, INVALID_ENDPOINT))
    {
      assert ListOk(S(), NodeList);
      var count := Count(mem.next, mem.heads[NodeList], book.lists[NodeList]);
      if count >= maxEndpoints {
        return NULL;
      }
      var id := minUnusedEndpointId;
      minUnusedEndpointId := minUnusedEndpointId + 1;
      e := Link(NodeList, EndpointS(id, flags, true, INVALID_ENDPOINT));
    }

    /** `endpoint::resume`: the struct comes from `calloc`, so the parent link is 0 and the endpoint is
        not enabled. No limit on the number of endpoints is checked. */
    method ResumeEndpoint(id: nat, flags: bv16) returns (e: Ptr)
      requires Valid()
      modifies this
      ensures Valid() && minUnusedEndpointId == old(minUnusedEndpointId) && freed == old(freed)
      ensures e != NULL <==> old(Resolve(S(), EndpointPath(id))) == NULL && id < minUnusedEndpointId
      ensures e == NULL ==> S() == old(S())
      ensures e != NULL ==> Grew(old(S()), S(), NodeList, e, EndpointS(id, flags, false, 0))
    {
      var existing := GetEndpoint(id);
      if existing != NULL || id >= minUnusedEndpointId {
        return NULL;
      }
      NoClash(S(), NodeList, EndpointS(id, flags, false, 0));
      e := Link(NodeList, EndpointS(id, flags, false, 0));
    }

    /** The flags of an existing cluster: none is lost, the given ones are added, and nothing else changes. */
    method GainFlags(c: Ptr, flags: bv16)
      requires Valid() && c in mem.data && mem.data[c].ClusterS?
      modifies this
      ensures Valid() && minUnusedEndpointId == old(minUnusedEndpointId) && freed == old(freed)
      ensures S() == old(S()).(data := old(mem.data)[c := AddFlags(old(mem.data[c]), flags)])
      ensures c in mem.data && Gained(old(mem.data[c]), flags, mem.data[c])
    {
      MergedFlags(mem.data[c].flags, flags);
      Update(c, AddFlags(mem.data[c], flags));
    }

    /** `cluster::create`: an existing cluster gains the flags. */
    method CreateCluster(e: Ptr, id: nat, flags: bv16, version: nat) returns (c: Ptr)
      requires Valid() && (e == NULL || (e in mem.data && mem.data[e].EndpointS?))
      modifies this
      ensures Valid() && minUnusedEndpointId == old(minUnusedEndpointId) && freed == old(freed)
      ensures c == NULL <==> e == NULL || flags & (CLUSTER_FLAG_SERVER | CLUSTER_FLAG_CLIENT) == 0
      ensures c == NULL ==> S() == old(S())
      ensures c != NULL && old(FindId(S(), ClustersOf(e), id)) != NULL ==>
        && c == old(FindId(S(), ClustersOf(e), id)) && c in old(mem.data) && old(mem.data[c]).ClusterS?
        && S() == old(S()).(data := old(mem.data)[c := AddFlags(old(mem.data[c]), flags)])
        && c in mem.data && Gained(old(mem.data[c]), flags, mem.data[c])
      ensures c != NULL && old(FindId(S(), ClustersOf(e), id)) == NULL ==>
        Grew(old(S()), S(), ClustersOf(e), c, ClusterS(id, flags, old(mem.data[e].id), version))
    {
      if e == NULL || (flags & CLUSTER_FLAG_SERVER == 0 && flags & CLUSTER_FLAG_CLIENT == 0) {
        return NULL;
      }
      EndpointHandle(S(), e);
      c := GetById(ClustersOf(e), id);
      if c != NULL {
        FoundOn(S(), ClustersOf(e), id);
        GainFlags(c, flags);
        return;
      }
      NoClash(S(), ClustersOf(e), ClusterS(id, flags, mem.data[e].id, version));
      c := Link(ClustersOf(e), ClusterS(id, flags, mem.data[e].id, version));
    }

    /** `attribute::create` as far as the tree goes: insert if absent. */
    method CreateAttribute(c: Ptr, id: nat, flags: bv16) returns (a: Ptr)
      requires Valid() && (c == NULL || (c in mem.data && mem.data[c].ClusterS?))
      modifies this
      ensures Valid() && minUnusedEndpointId == old(minUnusedEndpointId) && freed == old(freed)
      ensures a == NULL <==> c == NULL
      ensures c == NULL ==> S() == old(S())
      ensures c != NULL && old(FindId(S(), AttributesOf(c), id)) != NULL ==>
        a == old(FindId(S(), AttributesOf(c), id)) && S() == old(S())
      ensures c != NULL && old(FindId(S(), AttributesOf(c), id)) == NULL ==>
        && Grew(old(S()), S(), AttributesOf(c), a, NewAttribute(old(mem.data[c]), id, flags))
        && mem.data[a].id == id && mem.data[a].flags == flags
        && (mem.data[a].AttributeBaseS? <==> flags & ATTRIBUTE_FLAG_MANAGED_INTERNALLY != 0)
        && (mem.data[a].AttributeS? ==>
              mem.data[a].endpointId == old(mem.data[c].endpointId) && mem.data[a].clusterId == old(mem.data[c].id))
    {
      if c == NULL {
        return NULL;
      }
      ClusterSublists(S(), c);
      a := GetById(AttributesOf(c), id);
      if a != NULL {
        return;
      }
      NoClash(S(), AttributesOf(c), NewAttribute(mem.data[c], id, flags));
      a := Link(AttributesOf(c), NewAttribute(mem.data[c], id, flags));
    }

    /** `event::create`: insert if absent. */
    method CreateEvent(c: Ptr, id: nat) returns (v: Ptr)
      requires Valid() && (c == NULL || (c in mem.data && mem.data[c].ClusterS?))
      modifies this
      ensures Valid() && minUnusedEndpointId == old(minUnusedEndpointId) && freed == old(freed)
      ensures v == NULL <==> c == NULL
      ensures c == NULL ==> S() == old(S())
      ensures c != NULL && old(FindId(S(), EventsOf(c), id)) != NULL ==>
        v == old(FindId(S(), EventsOf(c), id)) && S() == old(S())
      ensures c != NULL && old(FindId(S(), EventsOf(c), id)) == NULL ==>
        Grew(old(S()), S(), EventsOf(c), v, EventS(id))
    {
      if c == NULL {
        return NULL;
      }
      ClusterSublists(S(), c);
      v := GetById(EventsOf(c), id);
      if v != NULL {
        return;
      }
      NoClash(S(), EventsOf(c), EventS(id));
      v := Link(EventsOf(c), EventS(id));
    }

    /** `command::create`: insert unless a command with this id shares a flag. */
    method CreateCommand(c: Ptr, id: nat, flags: bv16) returns (p: Ptr)
      requires Valid() && (c == NULL || (c in mem.data && mem.data[c].ClusterS?))
      modifies this
      ensures Valid() && minUnusedEndpointId == old(minUnusedEndpointId) && freed == old(freed)
      ensures p == NULL <==> c == NULL
      ensures c == NULL ==> S() == old(S())
      ensures c != NULL && old(HasCommand(S(), c, id, flags)) ==>
        S() == old(S()) && p in mem.data && p in book.lists[CommandsOf(c)] && IsCommand(mem.data[p], id, flags)
      ensures c != NULL && !old(HasCommand(S(), c, id, flags)) ==>
        Grew(old(S()), S(), CommandsOf(c), p, CommandS(id, flags))
    {
      if c == NULL {
        return NULL;
      }
      ghost var k;
      p, k := GetCommand(c, id, flags);
      if p != NULL {
        return;
      }
      NoCommandClash(S(), c, id, flags);
      p := Link(CommandsOf(c), CommandS(id, flags));
    }

    /** The part of `start` that reads the stored counter. When the live ids are the first ones, the node stays
        valid exactly when the stored counter is not below them. */
    method LoadCounter(stored: Option<nat>)
      requires Valid() && (stored.Some? ==> stored.value <= INVALID_ENDPOINT)
      modifies this`minUnusedEndpointId
      ensures minUnusedEndpointId == if stored.Some? then stored.value else old(minUnusedEndpointId)
      ensures (forall id | 0 <= id < old(minUnusedEndpointId) :: Resolve(S(), EndpointPath(id)) != NULL) ==>
        (Valid() <==> stored.None? || old(minUnusedEndpointId) <= stored.value)
    {
      if stored.Some? {
        minUnusedEndpointId := stored.value;
        CounterBelowLive(mem, book, nextAddress, old(minUnusedEndpointId), stored.value);
        assert Resolve(S(), EndpointPath(stored.value)) == EndpointAt(S(), stored.value);
      }
    }

    // ----- update -----

    method Update(p: Ptr, d: Struct)
      requires Valid() && p in mem.data && SameKey(mem.data[p], d)
      modifies this
      ensures Valid() && minUnusedEndpointId == old(minUnusedEndpointId) && freed == old(freed)
      ensures S() == old(S()).(data := old(mem.data)[p := d])
    {
      UpdateOk(S(), S().(data := mem.data[p := d]), p, d);
      mem := Mem(mem.data[p := d], mem.next, mem.heads);
    }

    /** `endpoint::set_parent_endpoint`. */
    method SetParent(e: Ptr, parent: Ptr) returns (err: EspErr)
      requires Valid() && (e == NULL || (e in mem.data && mem.data[e].EndpointS?))
      requires parent == NULL || (parent in mem.data && mem.data[parent].EndpointS?)
      modifies this
      ensures Valid() && minUnusedEndpointId == old(minUnusedEndpointId) && freed == old(freed)
      ensures err == if e == NULL || parent == NULL then ESP_ERR_INVALID_ARG else ESP_OK
      ensures err != ESP_OK ==> S() == old(S())
      ensures err == ESP_OK ==> Changed(old(UpOf(S())), UpOf(S()), old(mem.data[e].id), old(mem.data[parent].id))
      ensures err == ESP_OK ==> mem.data.Keys == old(mem.data).Keys && book == old(book)
      ensures err == ESP_OK ==> forall p | p in mem.data && p != e :: mem.data[p] == old(mem.data)[p]
    {
      if e == NULL || parent == NULL {
        return ESP_ERR_INVALID_ARG;
      }
      ghost var g := S();
      var d := mem.data[e].(parent := mem.data[parent].id);
      Update(e, d);
      UpUpdated(g, S(), e, d);
      return ESP_OK;
    }

    // ----- destroy -----

    method Remove(l: ListId, p: Ptr) returns (found: bool, ghost k: nat)
      requires Valid() && l in book.lists && p != NULL && (l.AttributesOf? || l.CommandsOf? || l.EventsOf?)
      modifies this
      ensures Valid() && minUnusedEndpointId == old(minUnusedEndpointId)
      ensures found <==> p in old(book.lists[l])
      ensures !found ==> S() == old(S()) && freed == old(freed)
      ensures found ==> DropStep(old(S()), S(), l, k) && old(book.lists[l])[k] == p && freed == old(freed) + [p]
    {
      ghost var g := S();
      mem, book, found, k := RemoveLeaf(mem, l, p, book);
      if found {
        freed := freed + [p];
        DropNarrows(g, S(), l, k);
        InvNarrowed(old(mem), old(book), mem, book, nextAddress, minUnusedEndpointId);
      }
    }

    /** `attribute::destroy`: the handle must be on this cluster's list. */
    method DestroyAttribute(c: Ptr, a: Ptr) returns (err: EspErr, ghost k: nat)
      requires Valid() && (c == NULL || (c in mem.data && mem.data[c].ClusterS?))
      modifies this
      ensures Valid() && minUnusedEndpointId == old(minUnusedEndpointId)
      ensures err == if c == NULL || a == NULL then ESP_ERR_INVALID_ARG
                     else if a !in old(ListAt(book.lists, AttributesOf(c))) then ESP_ERR_NOT_FOUND
                     else ESP_OK
      ensures err != ESP_OK ==> S() == old(S()) && freed == old(freed)
      ensures err == ESP_OK ==> DropStep(old(S()), S(), AttributesOf(c), k) && old(S()).lists[AttributesOf(c)][k] == a
      ensures err == ESP_OK ==> freed == old(freed) + [a]
    {
      if c == NULL || a == NULL {
        return ESP_ERR_INVALID_ARG, 0;
      }
      ClusterSublists(S(), c);
      var found;
      found, k := Remove(AttributesOf(c), a);
      err := if found then ESP_OK else ESP_ERR_NOT_FOUND;
    }

    /** `command::destroy`: the list template expects the handle on the list. */
    method DestroyCommand(c: Ptr, p: Ptr) returns (err: EspErr, ghost k: nat)
      requires Valid() && (c == NULL || (c in mem.data && mem.data[c].ClusterS?))
      requires c != NULL && p != NULL ==> p in ListAt(book.lists, CommandsOf(c))
      modifies this
      ensures Valid() && minUnusedEndpointId == old(minUnusedEndpointId)
      ensures err == if c == NULL || p == NULL then ESP_ERR_INVALID_ARG else ESP_OK
      ensures err != ESP_OK ==> S() == old(S()) && freed == old(freed)
      ensures err == ESP_OK ==> DropStep(old(S()), S(), CommandsOf(c), k) && old(S()).lists[CommandsOf(c)][k] == p
      ensures err == ESP_OK ==> freed == old(freed) + [p]
    {
      if c == NULL || p == NULL {
        return ESP_ERR_INVALID_ARG, 0;
      }
      ClusterSublists(S(), c);
      var found;
      found, k := Remove(CommandsOf(c), p);
      err := ESP_OK;
    }

    /** `event::destroy`. */
    method DestroyEvent(c: Ptr, v: Ptr) returns (err: EspErr, ghost k: nat)
      requires Valid() && (c == NULL || (c in mem.data && mem.data[c].ClusterS?))
      requires c != NULL && v != NULL ==> v in ListAt(book.lists, EventsOf(c))
      modifies this
      ensures Valid() && minUnusedEndpointId == old(minUnusedEndpointId)
      ensures err == if c == NULL || v == NULL then ESP_ERR_INVALID_ARG else ESP_OK
      ensures err != ESP_OK ==> S() == old(S()) && freed == old(freed)
      ensures err == ESP_OK ==> DropStep(old(S()), S(), EventsOf(c), k) && old(S()).lists[EventsOf(c)][k] == v
      ensures err == ESP_OK ==> freed == old(freed) + [v]
    {
      if c == NULL || v == NULL {
        return ESP_ERR_INVALID_ARG, 0;
      }
      ClusterSublists(S(), c);
      var found;
      found, k := Remove(EventsOf(c), v);
      err := ESP_OK;
    }

    /** `cluster::destroy`: everything on the cluster is freed, then the cluster, each once. */
    method DestroyCluster(c: Ptr) returns (err: EspErr, ghost l: ListId, ghost k: nat)
      requires Valid() && (c == NULL || (c in mem.data && mem.data[c].ClusterS?))
      modifies this
      ensures Valid() && minUnusedEndpointId == old(minUnusedEndpointId)
      ensures err == if c == NULL then ESP_ERR_INVALID_ARG else ESP_OK
      ensures err != ESP_OK ==> S() == old(S()) && freed == old(freed)
      ensures err == ESP_OK ==> DropStep(old(S()), S(), l, k) && old(S()).lists[l][k] == c
      ensures err == ESP_OK ==> freed == old(freed) + ClusterOrder(old(book.lists), c)
    {
      if c == NULL {
        return ESP_ERR_INVALID_ARG, NodeList, 0;
      }
      ghost var g := S();
      ghost var log;
      assert StructOk(g, c);
      l := book.owner[c];
      mem, book, log, k := FreeCluster(mem, c, book);
      freed := freed + log;
      DropNarrows(g, S(), l, k);
      InvNarrowed(old(mem), old(book), mem, book, nextAddress, minUnusedEndpointId);
      err := ESP_OK;
    }

    /** `endpoint::disable`, reporting to the parents that can be reached. */
    method Disable(e: Ptr) returns (err: EspErr, reported: seq<nat>)
      requires Valid() && (e == NULL || (e in mem.data && mem.data[e].EndpointS?))
      requires e != NULL ==> Terminates(UpOf(S()), mem.data[e].parent)
      modifies this
      ensures Valid() && minUnusedEndpointId == old(minUnusedEndpointId) && freed == old(freed)
      ensures err == if e == NULL then ESP_ERR_INVALID_ARG else ESP_OK
      ensures e == NULL ==> S() == old(S()) && reported == []
      ensures e != NULL ==> S() == old(S()).(data := old(mem.data)[e := old(mem.data[e]).(enabled := false)])
      ensures e != NULL ==> IsReport(old(UpOf(S())), old(mem.data[e].parent), reported)
    {
      if e == NULL {
        return ESP_ERR_INVALID_ARG, [];
      }
      ghost var g := S();
      var d := mem.data[e].(enabled := false);
      Update(e, d);
      UpUpdated(g, S(), e, d);
      SameReports(UpOf(g), UpOf(S()), d.parent);
      reported := ReportPartsList(mem, e, book);
      err := ESP_OK;
    }

    /** `endpoint::destroy`: only a destroyable endpoint goes, with everything below it. */
    method DestroyEndpoint(e: Ptr) returns (err: EspErr, reported: seq<nat>, ghost k: nat)
      requires Valid() && (e == NULL || (e in mem.data && mem.data[e].EndpointS?))
      requires e != NULL && mem.data[e].flags & ENDPOINT_FLAG_DESTROYABLE != 0 ==>
        Terminates(UpOf(S()), mem.data[e].parent)
      modifies this
      ensures Valid() && minUnusedEndpointId == old(minUnusedEndpointId)
      ensures err == if e == NULL then ESP_ERR_INVALID_ARG
                     else if old(mem.data[e].flags) & ENDPOINT_FLAG_DESTROYABLE == 0 then ESP_FAIL
                     else ESP_OK
      ensures err != ESP_OK ==> S() == old(S()) && freed == old(freed)
      ensures err == ESP_OK ==> EndpointGone(old(S()), S(), k) && old(S()).lists[NodeList][k] == e
      ensures err == ESP_OK ==> freed == old(freed) + EndpointOrder(old(book.lists), e)
      ensures err == ESP_OK ==> IsReport(old(UpOf(S())), old(mem.data[e].parent), reported)
    {
      if e == NULL {
        return ESP_ERR_INVALID_ARG, [], 0;
      }
      if mem.data[e].flags & ENDPOINT_FLAG_DESTROYABLE == 0 {
        return ESP_FAIL, [], 0;
      }
      ghost var g := S();
      ghost var log;
      mem, book, reported, log, k := DisableAndFree(mem, e, book);
      freed := freed + log;
      GoneNarrows(g, S(), k);
      InvNarrowed(old(mem), old(book), mem, book, nextAddress, minUnusedEndpointId);
      err := ESP_OK;
    }

    /** `node::destroy` up to the node itself: nothing stays allocated, and everything that was is
        freed exactly once. */
    method DestroyAll()
      requires Valid() && Acyclic(UpOf(S()))
      modifies this
      ensures Valid() && minUnusedEndpointId == old(minUnusedEndpointId) && mem.data == map[]
      ensures freed == old(freed) + NodeOrder(old(book.lists), old(book.lists[NodeList]))
    {
      ghost var log;
      mem, book, log := FreeAll(mem, book);
      freed := freed + log;
    }
  }

  predicate IsCommand(d: Struct, id: nat, flags: bv16) {
    d.CommandS? && d.id == id && d.flags & flags != 0
  }

  lemma ClusterSublists(g: Shape, c: Ptr)
    requires TreeOk(g) && c in g.data && g.data[c].ClusterS?
    ensures AttributesOf(c) in g.lists && CommandsOf(c) in g.lists && EventsOf(c) in g.lists
  {
    assert StructOk(g, c);
  }

  lemma InvLink(m: Mem, b: Book, m': Mem, b': Book, l: ListId, n: Ptr, d: Struct, minUnused: nat)
    requires Inv(m, b, n, minUnused) && Grew(ShapeOf(m, b), ShapeOf(m', b'), l, n, d) && TreeOk(ShapeOf(m', b'))
    requires l == NodeList ==> d.id < minUnused
    ensures Inv(m', b', n + 1, minUnused)
  {
    FreshNodeList(n, d);
  }

  lemma InvNarrowed(m: Mem, b: Book, m': Mem, b': Book, nextAddress: Ptr, minUnused: nat)
    requires Inv(m, b, nextAddress, minUnused) && TreeOk(ShapeOf(m', b')) && Narrowed(ShapeOf(m, b), ShapeOf(m', b'))
    ensures Inv(m', b', nextAddress, minUnused)
  {
    assert SiblingsOk(ShapeOf(m', b'), NodeList);
  }

  lemma DropNarrows(g: Shape, g': Shape, l: ListId, k: nat)
    requires TreeOk(g) && DropStep(g, g', l, k)
    ensures Narrowed(g, g')
  {
    assert ListOk(g, l);
    WithoutDistinct(g.lists[l], k);
    DropNodeList(g, g', l, k);
  }

  lemma GoneNarrows(g: Shape, g': Shape, k: nat)
    requires TreeOk(g) && EndpointGone(g, g', k)
    ensures Narrowed(g, g')
  {
    assert ListOk(g, NodeList);
    WithoutDistinct(g.lists[NodeList], k);
  }

  lemma CounterBelowLive(m: Mem, b: Book, nextAddress: Ptr, minUnused: nat, stored: nat)
    requires Inv(m, b, nextAddress, minUnused) && stored <= INVALID_ENDPOINT
    ensures minUnused <= stored ==> Inv(m, b, nextAddress, stored)
    ensures stored < minUnused && EndpointAt(ShapeOf(m, b), stored) != NULL ==> !Inv(m, b, nextAddress, stored)
  {
  }

  lemma FreshNodeList(n: Ptr, d: Struct)
    ensures NodeList !in Sublists(n, d)
  {
  }

  /** An id that is not found may be used. */
  lemma NoClash(g: Shape, l: ListId, d: Struct)
    requires TreeOk(g) && l in g.lists && !l.CommandsOf? && FindId(g, l, d.id) == NULL
    requires KindOk(l, d) && BackIdsOk(g.data, l, d)
    ensures Fits(g, l, d)
  {
    assert SiblingsOk(g, l) && ListOk(g, l);
  }

  ghost predicate HasCommand(g: Shape, c: Ptr, id: nat, flags: bv16) {
    exists p :: p in ListAt(g.lists, CommandsOf(c)) && p in g.data && IsCommand(g.data[p], id, flags)
  }

  lemma NoCommandClash(g: Shape, c: Ptr, id: nat, flags: bv16)
    requires TreeOk(g) && CommandsOf(c) in g.lists && !HasCommand(g, c, id, flags)
    ensures Fits(g, CommandsOf(c), CommandS(id, flags))
  {
    assert SiblingsOk(g, CommandsOf(c)) && ListOk(g, CommandsOf(c));
    forall p | p in g.lists[CommandsOf(c)] ensures !Clash(g.data[p], CommandS(id, flags)) {
      assert StructOk(g, p) && !IsCommand(g.data[p], id, flags);
    }
  }

  predicate HasFlag(flags: bv16, bit: bv16) {
    flags & bit != 0
  }

  function AddFlags(d: Struct, flags: bv16): Struct
    requires d.ClusterS?
  {
    ClusterS(d.id, d.flags | flags, d.endpointId, d.version)
  }

  ghost predicate Merged(x: bv16, y: bv16, z: bv16) {
    forall bit :: HasFlag(z, bit) <==> HasFlag(x, bit) || HasFlag(y, bit)
  }

  /** The cluster has every flag that it had and every flag that was added, no other, and is the same otherwise. */
  ghost predicate Gained(d: Struct, flags: bv16, d': Struct) {
    && d.ClusterS? && d'.ClusterS? && d'.id == d.id && d'.endpointId == d.endpointId && d'.version == d.version
    && Merged(d.flags, flags, d'.flags)
  }

  lemma MergedFlags(x: bv16, y: bv16)
    ensures Merged(x, y, x | y)
  {
    forall bit ensures HasFlag(x | y, bit) <==> HasFlag(x, bit) || HasFlag(y, bit) { MergedFlag(x, y, bit); }
  }

  lemma MergedFlag(x: bv16, y: bv16, bit: bv16)
    ensures HasFlag(x | y, bit) <==> HasFlag(x, bit) || HasFlag(y, bit)
  {
    assert (x | y) & bit == (x & bit) | (y & bit);
  }

  /** An attribute managed internally gets the small struct without ids. */
  function NewAttribute(cluster: Struct, id: nat, flags: bv16): Struct
    requires cluster.ClusterS?
  {
    if flags & ATTRIBUTE_FLAG_MANAGED_INTERNALLY != 0 then AttributeBaseS(id, flags)
    else AttributeS(id, flags, cluster.endpointId, cluster.id)
  }

  // ----- searching the whole tree for a handle -----

  /** The three nested loops of the search for an attribute managed internally. */
  method FindInTree(m: Mem, a: Ptr, ghost b: Book) returns (endpointId: nat, clusterId: nat)
    requires TreeOk(ShapeOf(m, b)) && a in m.data && (m.data[a].AttributeS? || m.data[a].AttributeBaseS?)
    ensures Resolve(ShapeOf(m, b), AttributePath(endpointId, clusterId, m.data[a].id)) == a
  {
    ghost var g := ShapeOf(m, b);
    ghost var es := b.lists[NodeList];
    assert ListOk(g, NodeList) && SiblingsOk(g, NodeList);
    InNode(g, a);
    assert StructOk(g, a);
    var e := m.heads[NodeList];
    ghost var k := 0;
    while e != NULL
      invariant k <= |es| && e == At(es, k)
      invariant forall i | 0 <= i < k :: !Below(b.owner, es[i], a)
      decreases |es| - k
    {
      EndpointSublist(g, e);
      var c := FindInEndpoint(m, e, a, b);
      if c != NULL {
        HandleToPath(g, a);
        return m.data[e].id, m.data[c].id;
      }
      e := m.next[e];
      k := k + 1;
    }
    assert false;
  }

  /** The cluster of the endpoint whose attribute list holds the handle. */
  method FindInEndpoint(m: Mem, e: Ptr, a: Ptr, ghost b: Book) returns (c: Ptr)
    requires TreeOk(ShapeOf(m, b)) && e in m.data && e in b.lists[NodeList] && a in m.data
    requires m.data[a].AttributeS? || m.data[a].AttributeBaseS?
    ensures c == NULL ==> !Below(b.owner, e, a)
    ensures c != NULL ==> c in m.data && m.data[c].ClusterS? && m.data[e].EndpointS? && a in b.owner
    ensures c != NULL ==> b.owner[a] == AttributesOf(c) && m.data[c].endpointId == m.data[e].id
  {
    ghost var g := ShapeOf(m, b);
    EndpointSublist(g, e);
    HeadCluster(g, e);
    ghost var cs := b.lists[ClustersOf(e)];
    c := m.heads[ClustersOf(e)];
    ghost var k := 0;
    while c != NULL
      invariant k <= |cs| && c == At(cs, k)
      invariant forall i | 0 <= i < k :: cs[i] in m.data && a !in ListAt(b.lists, AttributesOf(cs[i]))
      decreases |cs| - k
    {
      ClusterSublists(g, c);
      assert ListOk(g, AttributesOf(c)) && SiblingsOk(g, AttributesOf(c)) && StructOk(g, c);
      var p;
      ghost var j;
      p, j := FindHandle(m.next, m.heads[AttributesOf(c)], a, b.lists[AttributesOf(c)]);
      if p != NULL {
        return c;
      }
      c := m.next[c];
      k := k + 1;
    }
    assert StructOk(g, a) && SiblingsOk(g, b.owner[a]);
    assert StructOk(g, b.owner[a].parent);
  }

  method FindHandle(next: Links, head: Ptr, a: Ptr, ghost s: seq<Ptr>) returns (p: Ptr, ghost k: nat)
    requires Linked(next, s) && head == At(s, 0)
    ensures p != NULL <==> a in s
  {
    p, k := head, 0;
    while p != NULL && p != a
      invariant k <= |s| && p == At(s, k)
      invariant forall i | 0 <= i < k :: s[i] != a
      decreases |s| - k
    {
      p := next[p];
      k := k + 1;
    }
  }

  /** `endpoint::get_count`. */
  method Count(next: Links, head: Ptr, ghost s: seq<Ptr>) returns (count: nat)
    requires Linked(next, s) && head == At(s, 0)
    ensures count == |s|
  {
    var p := head;
    count := 0;
    while p != NULL
      invariant count <= |s| && p == At(s, count)
      decreases |s| - count
    {
      count := count + 1;
      p := next[p];
    }
  }
}
