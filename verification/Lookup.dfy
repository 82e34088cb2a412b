/** The tree as nested finite maps: what an id, or a path of ids, leads to. */
module Lookup {
  import opened Basics
  import opened LinkedLists
  import opened DataModel
  import opened TreeSteps

  /** The element of list `l` with this id, or null: the list read as a finite map. */
  ghost function FindId(g: Shape, l: ListId, id: nat): (p: Ptr)
    ensures p != NULL ==> l in g.lists && p in g.lists[l] && p in g.data && g.data[p].id == id
  {
    if l in g.lists && exists p :: p in g.lists[l] && p != NULL && p in g.data && g.data[p].id == id then
      var p :| p in g.lists[l] && p != NULL && p in g.data && g.data[p].id == id; p
    else NULL
  }

  lemma FindIdIs(g: Shape, l: ListId, p: Ptr)
    requires TreeOk(g) && l in g.lists && p in g.lists[l] && p in g.data && !l.CommandsOf?
    ensures FindId(g, l, g.data[p].id) == p && p != NULL
  {
    assert ListOk(g, l);
    SameSibling(g, l, p, FindId(g, l, g.data[p].id));
  }

  lemma FindIdNone(g: Shape, l: ListId, id: nat)
    requires l in g.lists
    requires forall p | p in g.lists[l] && p in g.data :: g.data[p].id != id
    ensures FindId(g, l, id) == NULL
  {
  }

  /** Whatever `Get` found, given what it promises. */
  lemma FindIdGot(g: Shape, l: ListId, id: nat, p: Ptr)
    requires TreeOk(g) && l in g.lists && !l.CommandsOf?
    requires p == NULL ==> forall q | q in g.lists[l] :: q in g.data && g.data[q].id != id
    requires p != NULL ==> p in g.lists[l] && p in g.data && g.data[p].id == id
    ensures p == FindId(g, l, id)
  {
    if p == NULL { FindIdNone(g, l, id); } else { FindIdIs(g, l, p); }
  }

  /** Where a struct is, by ids. Commands have no path: their ids may repeat. */
  datatype Path =
    | NoPath
    | EndpointPath(endpoint: nat)
    | ClusterPath(endpoint: nat, cluster: nat)
    | AttributePath(endpoint: nat, cluster: nat, attribute: nat)
    | EventPath(endpoint: nat, cluster: nat, event: nat)

  ghost function EndpointAt(g: Shape, e: nat): Ptr {
    FindId(g, NodeList, e)
  }

  ghost function ClusterAt(g: Shape, e: nat, c: nat): Ptr {
    var p := EndpointAt(g, e);
    if p == NULL then NULL else FindId(g, ClustersOf(p), c)
  }

  /** The tree read as nested finite maps. */
  ghost function Resolve(g: Shape, path: Path): Ptr {
    match path
    case NoPath => NULL
    case EndpointPath(e) => EndpointAt(g, e)
    case ClusterPath(e, c) => ClusterAt(g, e, c)
    case AttributePath(e, c, a) =>
      var p := ClusterAt(g, e, c);
      if p == NULL then NULL else FindId(g, AttributesOf(p), a)
    case EventPath(e, c, v) =>
      var p := ClusterAt(g, e, c);
      if p == NULL then NULL else FindId(g, EventsOf(p), v)
  }

  /** The path of a struct `d` on list `l`. */
  ghost function PathOn(data: map<Ptr, Struct>, l: ListId, d: Struct): Path {
    match l
    case NodeList => EndpointPath(d.id)
    case ClustersOf(e) => if e in data then ClusterPath(data[e].id, d.id) else NoPath
    case AttributesOf(c) =>
      if c in data && data[c].ClusterS? then AttributePath(data[c].endpointId, data[c].id, d.id) else NoPath
    case EventsOf(c) =>
      if c in data && data[c].ClusterS? then EventPath(data[c].endpointId, data[c].id, d.id) else NoPath
    case CommandsOf(_) => NoPath
  }

  ghost function PathOf(g: Shape, p: Ptr): Path
    requires p in g.data && p in g.owner
  {
    PathOn(g.data, g.owner[p], g.data[p])
  }

  // ----- paths and handles -----

  lemma FoundOn(g: Shape, l: ListId, id: nat)
    requires TreeOk(g) && FindId(g, l, id) != NULL
    ensures var p := FindId(g, l, id); StructOk(g, p) && g.owner[p] == l && SiblingsOk(g, l)
  {
    assert ListOk(g, l) && SiblingsOk(g, l) && StructOk(g, FindId(g, l, id));
  }

  lemma ClusterFound(g: Shape, e: nat, c: nat)
    requires TreeOk(g) && ClusterAt(g, e, c) != NULL
    ensures ClusterAt(g, e, c) in g.data && g.data[ClusterAt(g, e, c)].ClusterS?
  {
    FoundOn(g, ClustersOf(EndpointAt(g, e)), c);
  }

  lemma ClusterAtPath(g: Shape, c: Ptr, e: nat, id: nat)
    requires TreeOk(g) && c in g.data && g.data[c].ClusterS?
    ensures ClusterAt(g, e, id) == c <==> e == g.data[c].endpointId && id == g.data[c].id
    ensures c != NULL
  {
    assert StructOk(g, c) && SiblingsOk(g, g.owner[c]) && ListOk(g, g.owner[c]);
    var p := EndpointAt(g, e);
    if p != NULL && FindId(g, ClustersOf(p), id) != NULL { FoundOn(g, ClustersOf(p), id); }
    if e == g.data[c].endpointId && id == g.data[c].id {
      var p0 := g.owner[c].parent;
      assert StructOk(g, p0);
      FindIdIs(g, NodeList, p0);
      FindIdIs(g, ClustersOf(p0), c);
    }
  }

  /** Every struct but a command is found again from its path. */
  lemma HandleToPath(g: Shape, p: Ptr)
    requires TreeOk(g) && p in g.data && p in g.owner && !g.owner[p].CommandsOf?
    ensures Resolve(g, PathOf(g, p)) == p && p != NULL
  {
    assert StructOk(g, p) && ListOk(g, g.owner[p]) && SiblingsOk(g, g.owner[p]);
    FindIdIs(g, g.owner[p], p);
    match g.owner[p]
    case NodeList =>
    case ClustersOf(e) => ClusterAtPath(g, p, g.data[p].endpointId, g.data[p].id);
    case AttributesOf(c) => ClusterAtPath(g, c, g.data[c].endpointId, g.data[c].id);
    case EventsOf(c) => ClusterAtPath(g, c, g.data[c].endpointId, g.data[c].id);
  }

  /** A path that leads somewhere is the path of what it leads to. */
  lemma PathToHandle(g: Shape, path: Path)
    requires TreeOk(g) && Resolve(g, path) != NULL
    ensures var p := Resolve(g, path); p in g.data && p in g.owner && PathOf(g, p) == path
  {
    match path
    case NoPath =>
    case EndpointPath(e) => FoundOn(g, NodeList, e);
    case ClusterPath(e, c) =>
      FoundOn(g, NodeList, e);
      FoundOn(g, ClustersOf(EndpointAt(g, e)), c);
    case AttributePath(e, c, a) =>
      FoundOn(g, ClustersOf(EndpointAt(g, e)), c);
      FoundOn(g, AttributesOf(ClusterAt(g, e, c)), a);
      ClusterAtPath(g, ClusterAt(g, e, c), e, c);
    case EventPath(e, c, v) =>
      FoundOn(g, ClustersOf(EndpointAt(g, e)), c);
      FoundOn(g, EventsOf(ClusterAt(g, e, c)), v);
      ClusterAtPath(g, ClusterAt(g, e, c), e, c);
  }

  /** The id to which the parent walk goes from endpoint `id`. */
  ghost function UpId(g: Shape, id: nat): nat {
    var p := EndpointAt(g, id);
    if p != NULL && g.data[p].EndpointS? then g.data[p].parent else INVALID_ENDPOINT
  }

  ghost function UpOf(g: Shape): nat -> nat {
    id => UpId(g, id)
  }

  // ----- creating -----

  /** List `l` grew by the struct `d` at address `n`; nothing else changed. */
  ghost predicate Grew(g: Shape, g': Shape, l: ListId, n: Ptr, d: Struct) {
    && n != NULL && n !in g.owner && n !in g.data && g'.data == g.data[n := d] && g'.owner == g.owner[n := l]
    && InsertLists(g.lists, g'.lists, l, n, Sublists(n, d))
  }

  /** The structs that were there keep their paths. */
  lemma CreatedOld(g: Shape, g': Shape, l: ListId, n: Ptr, d: Struct, p: Ptr)
    requires TreeOk(g) && TreeOk(g') && Grew(g, g', l, n, d) && p in g'.data && p != n
    ensures p in g.data && p in g.owner && p in g'.owner && PathOf(g', p) == PathOf(g, p)
    ensures !g.owner[p].CommandsOf? ==> Resolve(g, PathOf(g, p)) == p == Resolve(g', PathOf(g, p))
  {
    assert StructOk(g', p) && StructOk(g, p) && SiblingsOk(g, g.owner[p]);
    if !g.owner[p].CommandsOf? {
      HandleToPath(g, p);
      HandleToPath(g', p);
    }
  }

  lemma CreatedNew(g: Shape, g': Shape, l: ListId, n: Ptr, d: Struct)
    requires TreeOk(g) && TreeOk(g') && Grew(g, g', l, n, d)
    ensures PathOf(g', n) == PathOn(g.data, l, d)
    ensures !l.CommandsOf? ==> Resolve(g', PathOn(g.data, l, d)) == n
  {
    assert StructOk(g', n) && SiblingsOk(g, l);
    if !l.CommandsOf? { HandleToPath(g', n); }
  }

  lemma CreatedForward(g: Shape, g': Shape, l: ListId, n: Ptr, d: Struct, path: Path)
    requires TreeOk(g) && TreeOk(g') && Grew(g, g', l, n, d) && Resolve(g', path) != NULL
    ensures if Resolve(g', path) == n then path == PathOn(g.data, l, d) else Resolve(g, path) == Resolve(g', path)
  {
    var q := Resolve(g', path);
    PathToHandle(g', path);
    if q == n { CreatedNew(g, g', l, n, d); } else { CreatedOld(g, g', l, n, d, q); }
  }

  lemma CreatedBackward(g: Shape, g': Shape, l: ListId, n: Ptr, d: Struct, path: Path)
    requires TreeOk(g) && TreeOk(g') && Grew(g, g', l, n, d) && Resolve(g, path) != NULL
    ensures Resolve(g', path) == Resolve(g, path) && Resolve(g, path) != n
  {
    PathToHandle(g, path);
    CreatedOld(g, g', l, n, d, Resolve(g, path));
  }

  /** Creating a struct adds its path to the map and touches no other path. */
  lemma CreatedPaths(g: Shape, g': Shape, l: ListId, n: Ptr, d: Struct, path: Path)
    requires TreeOk(g) && TreeOk(g') && Grew(g, g', l, n, d)
    ensures Resolve(g', path) == if path != NoPath && path == PathOn(g.data, l, d) then n else Resolve(g, path)
  {
    CreatedNew(g, g', l, n, d);
    if Resolve(g', path) != NULL {
      CreatedForward(g, g', l, n, d, path);
    } else if Resolve(g, path) != NULL {
      CreatedBackward(g, g', l, n, d, path);
    }
  }

  // ----- destroying and updating -----

  ghost predicate SameIds(d: Struct, d': Struct) {
    && d'.id == d.id && (d.ClusterS? <==> d'.ClusterS?) && (d.ClusterS? ==> d'.endpointId == d.endpointId)
  }

  /** Structs may have gone or been updated, but none was created, moved or renamed. */
  ghost predicate Survivors(g: Shape, g': Shape) {
    && g'.owner == g.owner
    && forall p | p in g'.data :: p in g.data && SameIds(g.data[p], g'.data[p])
  }

  lemma SurvivorSamePath(g: Shape, g': Shape, p: Ptr)
    requires TreeOk(g) && TreeOk(g') && Survivors(g, g') && p in g'.data
    ensures p in g.owner && PathOf(g', p) == PathOf(g, p)
    ensures !g.owner[p].CommandsOf? ==> Resolve(g, PathOf(g, p)) == p == Resolve(g', PathOf(g, p))
  {
    assert StructOk(g', p) && StructOk(g, p) && SiblingsOk(g', g.owner[p]);
    if !g.owner[p].CommandsOf? {
      HandleToPath(g, p);
      HandleToPath(g', p);
    }
  }

  /** A path leads where it led before, unless that struct has gone. */
  lemma SurvivorPaths(g: Shape, g': Shape, path: Path)
    requires TreeOk(g) && TreeOk(g') && Survivors(g, g')
    ensures Resolve(g', path) == if Resolve(g, path) in g'.data then Resolve(g, path) else NULL
  {
    if Resolve(g', path) != NULL {
      PathToHandle(g', path);
      SurvivorSamePath(g, g', Resolve(g', path));
    }
    if Resolve(g, path) != NULL && Resolve(g, path) in g'.data {
      PathToHandle(g, path);
      SurvivorSamePath(g, g', Resolve(g, path));
    }
    assert NULL in g.data ==> StructOk(g, NULL) && ListOk(g, g.owner[NULL]);
  }

  /** `path` is `top` or lies below it. */
  ghost predicate Extends(path: Path, top: Path) {
    match top
    case NoPath => false
    case EndpointPath(e) => path != NoPath && path.endpoint == e
    case ClusterPath(e, c) =>
      path != NoPath && !path.EndpointPath? && path.endpoint == e && path.cluster == c
    case _ => path == top
  }

  /** A cluster and its path prefix. */
  lemma UnderCluster(g: Shape, c: Ptr, q: Ptr)
    requires TreeOk(g) && c in g.data && g.data[c].ClusterS? && q in g.data && q in g.owner && c in g.owner
    requires !g.owner[q].CommandsOf?
    ensures Gone(g, c, q) <==> Extends(PathOf(g, q), PathOf(g, c))
  {
    assert StructOk(g, c) && StructOk(g, q) && SiblingsOk(g, g.owner[q]) && SiblingsOk(g, g.owner[c]);
    ClusterAtPath(g, c, g.data[c].endpointId, g.data[c].id);
    if g.data[q].ClusterS? {
      ClusterAtPath(g, q, g.data[q].endpointId, g.data[q].id);
    } else if g.owner[q] != NodeList {
      var c' := g.owner[q].parent;
      ClusterAtPath(g, c', g.data[c'].endpointId, g.data[c'].id);
    }
  }

  lemma GoneByPath(g: Shape, l: ListId, p: Ptr, q: Ptr)
    requires TreeOk(g) && StructOk(g, p) && StructOk(g, q) && g.owner[p] == l && l != NodeList
    requires !g.owner[q].CommandsOf?
    ensures Gone(g, p, q) <==> Extends(PathOf(g, q), PathOf(g, p))
  {
    if g.data[p].ClusterS? {
      UnderCluster(g, p, q);
    } else {
      HandleToPath(g, q);
      if !l.CommandsOf? { HandleToPath(g, p); }
    }
  }

  /** Destroying an attribute, event or cluster removes its path and those below it, and no other. */
  lemma DestroyedPaths(g: Shape, g': Shape, l: ListId, i: nat, p: Ptr, path: Path)
    requires TreeOk(g) && TreeOk(g') && DropStep(g, g', l, i) && p == g.lists[l][i] && l != NodeList && p in g.owner
    ensures Resolve(g', path) == if Extends(path, PathOf(g, p)) then NULL else Resolve(g, path)
  {
    assert Survivors(g, g');
    SurvivorPaths(g, g', path);
    var q := Resolve(g, path);
    if q != NULL {
      PathToHandle(g, path);
      assert ListOk(g, l) && StructOk(g, p) && StructOk(g, q);
      GoneByPath(g, l, p, q);
    }
  }

  /** Destroying an endpoint removes exactly the paths that start with its id. */
  lemma EndpointDestroyedPaths(g: Shape, g': Shape, i: nat, e: Ptr, path: Path)
    requires TreeOk(g) && TreeOk(g') && EndpointGone(g, g', i) && e == g.lists[NodeList][i] && e in g.data
    ensures Resolve(g', path) == if Extends(path, EndpointPath(g.data[e].id)) then NULL else Resolve(g, path)
  {
    SurvivorPaths(g, g', path);
    var q := Resolve(g, path);
    if q != NULL {
      PathToHandle(g, path);
      UnderEndpoint(g, e, q);
    }
  }

  lemma UnderEndpoint(g: Shape, e: Ptr, q: Ptr)
    requires TreeOk(g) && e in g.data && e in g.lists[NodeList] && q in g.data && q in g.owner
    requires !g.owner[q].CommandsOf?
    ensures q == e || Below(g.owner, e, q) <==> Extends(PathOf(g, q), EndpointPath(g.data[e].id))
  {
    assert StructOk(g, e) && StructOk(g, q) && SiblingsOk(g, g.owner[q]) && ListOk(g, NodeList);
    match g.owner[q]
    case NodeList => if g.data[q].id == g.data[e].id { SameSibling(g, NodeList, q, e); }
    case ClustersOf(e') =>
      assert StructOk(g, e');
      if g.data[e'].id == g.data[e].id { SameSibling(g, NodeList, e', e); }
    case AttributesOf(c) => UnderEndpointLeaf(g, e, q, c);
    case EventsOf(c) => UnderEndpointLeaf(g, e, q, c);
  }

  lemma UnderEndpointLeaf(g: Shape, e: Ptr, q: Ptr, c: Ptr)
    requires TreeOk(g) && e in g.data && e in g.lists[NodeList] && StructOk(g, q)
    requires g.owner[q] == AttributesOf(c) || g.owner[q] == EventsOf(c)
    ensures Below(g.owner, e, q) <==> Extends(PathOf(g, q), EndpointPath(g.data[e].id))
  {
    assert SiblingsOk(g, g.owner[q]);
    assert StructOk(g, c) && SiblingsOk(g, g.owner[c]);
    var e' := g.owner[c].parent;
    assert StructOk(g, e');
    if g.data[e'].id == g.data[e].id { SameSibling(g, NodeList, e', e); }
  }
}
