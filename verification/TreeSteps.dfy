/** The steps of the data model that relink and free, on memories as values: inserting a struct,
    unlinking one, and the loops of `cluster::destroy` and `endpoint::destroy`. */
module TreeSteps {
  import opened LinkedLists
  import opened DataModel

  // ----- steps on a memory -----

  /** `calloc`, fill in, `append`. */
  method LinkNew(m: Mem, l: ListId, n: Ptr, d: Struct, ghost b: Book) returns (m': Mem, ghost b': Book)
    requires TreeOk(ShapeOf(m, b)) && Fits(ShapeOf(m, b), l, d)
    requires n != NULL && n !in b.owner
    ensures TreeOk(ShapeOf(m', b'))
    ensures m'.data == m.data[n := d]
    ensures InsertLists(b.lists, b'.lists, l, n, Sublists(n, d)) && b'.owner == b.owner[n := l]
  {
    FreshLists(ShapeOf(m, b), l, n, d);
    var links, head := Append(m.next[n := NULL], m.heads[l], n, b.lists[l]);
    m' := Mem(m.data[n := d], links, AddAll(m.heads, Sublists(n, d), NULL)[l := head]);
    b' := Book(AddAll(b.lists[l := b.lists[l] + [n]], Sublists(n, d), []), b.owner[n := l]);
    LinkOk(ShapeOf(m, b), ShapeOf(m', b'), l, n, d);
  }

  /** The memory when everything below `p` has been freed and `p` itself not yet. */
  ghost predicate Emptied(g: Shape, m: Mem, p: Ptr)
    requires p in g.data
  {
    && (forall q :: q in m.data <==> q in g.data && (q == p || !Gone(g, p, q)))
    && (forall q | q in m.data :: m.data[q] == g.data[q])
    && m.next.Keys == m.data.Keys && (forall q | q in m.next && q in g.next :: m.next[q] == g.next[q])
    && m.heads.Keys == g.heads.Keys
    && (forall l | l in g.heads && l !in Sublists(p, g.data[p]) :: m.heads[l] == g.heads[l])
  }

  /** Unlink the struct at `p` from its list and free it together with its head pointers. */
  method UnlinkAndFree(m: Mem, l: ListId, p: Ptr, ghost b: Book, ghost g: Shape)
    returns (m': Mem, ghost b': Book, ghost k: nat)
    requires TreeOk(g) && l in g.lists && p in g.lists[l] && p in g.data && Emptied(g, m, p)
    requires b == Book(g.lists, g.owner)
    requires ClustersOf(p) in g.lists ==> g.lists[ClustersOf(p)] == []
    ensures k < |g.lists[l]| && g.lists[l][k] == p && DropStep(g, ShapeOf(m', b'), l, k)
    ensures TreeOk(ShapeOf(m', b'))
  {
    EmptiedLinked(g, m, l, p);
    var links, head, found;
    links, head, found, k := Unlink(m.next, m.heads[l], p, g.lists[l]);
    m', b' := FreeUnlinked(m, l, p, links, head, b, g, k);
  }

  /** Free the struct at `p`, already unlinked, together with its head pointers. */
  method FreeUnlinked(m: Mem, l: ListId, p: Ptr, links: Links, head: Ptr, ghost b: Book, ghost g: Shape, ghost k: nat)
    returns (m': Mem, ghost b': Book)
    requires TreeOk(g) && l in g.lists && p in g.data && Emptied(g, m, p) && b == Book(g.lists, g.owner)
    requires k < |g.lists[l]| && g.lists[l][k] == p && l !in Sublists(p, g.data[p])
    requires Relinked(m.next, links, g.lists[l]) && Linked(links, Without(g.lists[l], k))
    requires head == At(Without(g.lists[l], k), 0)
    requires ClustersOf(p) in g.lists ==> g.lists[ClustersOf(p)] == []
    ensures DropStep(g, ShapeOf(m', b'), l, k) && TreeOk(ShapeOf(m', b'))
  {
    m' := Mem(m.data - {p}, links - {p}, m.heads[l := head] - Sublists(p, m.data[p]));
    b' := Book(b.lists[l := Without(b.lists[l], k)] - Sublists(p, m.data[p]), b.owner);
    UnlinkedDrop(g, m, l, p, k, links, head, ShapeOf(m', b'));
    DropOk(g, ShapeOf(m', b'), l, k);
  }

  /** `attribute::destroy`, and `SinglyLinkedList::remove` for commands and events: unlink from list
      `l` and free, if the struct is there. */
  method RemoveLeaf(m: Mem, l: ListId, p: Ptr, ghost b: Book)
    returns (m': Mem, ghost b': Book, found: bool, ghost k: nat)
    requires TreeOk(ShapeOf(m, b)) && l in b.lists && p != NULL && (l.AttributesOf? || l.CommandsOf? || l.EventsOf?)
    ensures found <==> p in b.lists[l]
    ensures !found ==> m' == m && b' == b
    ensures found ==> k < |b.lists[l]| && b.lists[l][k] == p
    ensures found ==> DropStep(ShapeOf(m, b), ShapeOf(m', b'), l, k) && TreeOk(ShapeOf(m', b'))
  {
    ghost var g := ShapeOf(m, b);
    assert ListOk(g, l);
    var links, head;
    links, head, found, k := Unlink(m.next, m.heads[l], p, b.lists[l]);
    m', b' := m, b;
    if found {
      LeafEmptied(g, m, l, p);
      m', b' := FreeUnlinked(m, l, p, links, head, b, g, k);
    }
  }

  lemma LeafEmptied(g: Shape, m: Mem, l: ListId, p: Ptr)
    requires TreeOk(g) && l in g.lists && p in g.lists[l] && (l.AttributesOf? || l.CommandsOf? || l.EventsOf?)
    requires g.data == m.data && g.next == m.next && g.heads == m.heads
    ensures p in g.data && Sublists(p, g.data[p]) == {} && Emptied(g, m, p) && ClustersOf(p) !in g.lists
  {
    assert ListOk(g, l) && SiblingsOk(g, l) && StructOk(g, p);
    EmptyEmptied(g, m, p);
    OnlyOwnSublists(g, p, ClustersOf(p));
  }

  lemma EmptiedLinked(g: Shape, m: Mem, l: ListId, p: Ptr)
    requires TreeOk(g) && l in g.lists && p in g.lists[l] && p in g.data && Emptied(g, m, p)
    ensures Linked(m.next, g.lists[l]) && l !in Sublists(p, g.data[p])
    ensures l in m.heads && m.heads[l] == At(g.lists[l], 0) && p != NULL
  {
    assert ListOk(g, l) && SiblingsOk(g, l) && StructOk(g, p);
    if l in Sublists(p, g.data[p]) {
      SublistsOwn(p, g.data[p], l);
      KindNotOwn(p, l, g.data[p]);
    }
    forall q | q in g.lists[l] ensures q in m.next && m.next[q] == g.next[q] {}
    LinkedFrame(g.next, m.next, g.lists[l]);
  }

  /** A struct is never an element of one of its own sublists. */
  lemma KindNotOwn(p: Ptr, l: ListId, d: Struct)
    requires KindOk(l, d)
    ensures l !in Sublists(p, d)
  {
  }

  lemma UnlinkedData(g: Shape, m: Mem, l: ListId, p: Ptr, links: Links, g': Shape)
    requires TreeOk(g) && l in g.lists && p in g.data && Emptied(g, m, p) && Relinked(m.next, links, g.lists[l])
    requires g'.data == m.data - {p} && g'.next == links - {p} && g'.owner == g.owner
    ensures DropData(g, g', p)
    ensures forall q | q in g'.next && q !in g.lists[l] :: q in g.next && g'.next[q] == g.next[q]
  {
  }

  lemma UnlinkedDrop(g: Shape, m: Mem, l: ListId, p: Ptr, k: nat, links: Links, head: Ptr, g': Shape)
    requires TreeOk(g) && l in g.lists && p in g.data && Emptied(g, m, p) && l !in Sublists(p, g.data[p])
    requires k < |g.lists[l]| && g.lists[l][k] == p
    requires Relinked(m.next, links, g.lists[l]) && Linked(links, Without(g.lists[l], k))
    requires head == At(Without(g.lists[l], k), 0)
    requires g'.data == m.data - {p} && g'.next == links - {p}
    requires g'.heads == m.heads[l := head] - Sublists(p, g.data[p])
    requires g'.lists == g.lists[l := Without(g.lists[l], k)] - Sublists(p, g.data[p])
    requires g'.owner == g.owner
    ensures DropStep(g, g', l, k)
  {
    assert ListOk(g, l);
    WithoutDistinct(g.lists[l], k);
    LinkedFrame(links, g'.next, Without(g.lists[l], k));
    UnlinkedData(g, m, l, p, links, g');
    UnlinkedLists(g, m, l, p, k, head, g');
  }

  lemma UnlinkedLists(g: Shape, m: Mem, l: ListId, p: Ptr, k: nat, head: Ptr, g': Shape)
    requires TreeOk(g) && l in g.lists && p in g.data && Emptied(g, m, p) && l !in Sublists(p, g.data[p])
    requires k < |g.lists[l]| && g.lists[l][k] == p
    requires g'.heads == m.heads[l := head] - Sublists(p, g.data[p])
    requires g'.lists == g.lists[l := Without(g.lists[l], k)] - Sublists(p, g.data[p])
    ensures g'.lists.Keys == g.lists.Keys - Sublists(p, g.data[p]) && g'.heads.Keys == g'.lists.Keys
    ensures l in g'.lists && g'.lists[l] == Without(g.lists[l], k) && g'.heads[l] == head
    ensures forall m | m in g'.lists && m != l :: g'.lists[m] == g.lists[m] && m in g.heads && g'.heads[m] == g.heads[m]
  {
  }

  // ----- destroying a cluster -----

  /** The order in which `cluster::destroy` frees: commands, attributes, events, the cluster. */
  function ClusterOrder(lists: Lists, c: Ptr): seq<Ptr> {
    ListAt(lists, CommandsOf(c)) + ListAt(lists, AttributesOf(c)) + ListAt(lists, EventsOf(c)) + [c]
  }

  function ListAt(lists: Lists, l: ListId): seq<Ptr> {
    if l in lists then lists[l] else []
  }

  /** Freeing other lists leaves a list as it was. */
  lemma StillLinked(g: Shape, next: Links, l: ListId, gone: set<Ptr>)
    requires TreeOk(g) && l in g.lists && next == g.next - gone
    requires forall p | p in gone :: p in g.owner && g.owner[p] != l
    ensures Linked(next, g.lists[l]) && l in g.heads && g.heads[l] == At(g.lists[l], 0)
    ensures forall p | p in g.lists[l] :: p in g.data && p !in gone && p in next
  {
    assert ListOk(g, l) && SiblingsOk(g, l);
    LinkedFrame(g.next, next, g.lists[l]);
  }

  lemma OwnedBy(g: Shape, l: ListId)
    requires TreeOk(g) && l in g.lists
    ensures forall p | p in Elements(g.lists[l]) :: p in g.owner && g.owner[p] == l
  {
    assert ListOk(g, l);
  }

  /** What is allocated for a list is on it. */
  lemma AllOnList(g: Shape, l: ListId)
    requires TreeOk(g) && l in g.lists
    ensures forall p :: p in g.data && p in g.owner && g.owner[p] == l <==> p in g.lists[l]
  {
    assert ListOk(g, l) && SiblingsOk(g, l);
    forall p | p in g.data && p in g.owner && g.owner[p] == l ensures p in g.lists[l] { assert StructOk(g, p); }
  }

  /** The parent found by id is the endpoint whose list holds the cluster. */
  lemma ParentById(g: Shape, c: Ptr, e: Ptr)
    requires TreeOk(g) && c in g.data && g.data[c].ClusterS?
    requires e == NULL ==> forall q | q in g.lists[NodeList] :: q in g.data && g.data[q].id != g.data[c].endpointId
    requires e != NULL ==> e in g.lists[NodeList] && e in g.data && g.data[e].id == g.data[c].endpointId
    ensures e != NULL && c in g.owner && g.owner[c] == ClustersOf(e)
    ensures ClustersOf(e) in g.lists && c in g.lists[ClustersOf(e)]
  {
    assert StructOk(g, c) && SiblingsOk(g, g.owner[c]);
    var e0 := g.owner[c].parent;
    assert StructOk(g, e0);
    assert e0 in g.lists[NodeList];
    if e != NULL && e != e0 { SameSibling(g, NodeList, e, e0); }
  }

  /** Siblings with one id are one struct. */
  lemma SameSibling(g: Shape, l: ListId, p: Ptr, q: Ptr)
    requires TreeOk(g) && l in g.lists && p in g.lists[l] && q in g.lists[l] && !l.CommandsOf?
    requires p in g.data && q in g.data && g.data[p].id == g.data[q].id
    ensures p == q
  {
    assert SiblingsOk(g, l) && StructOk(g, p) && StructOk(g, q) && ListOk(g, l);
    var i :| 0 <= i < |g.lists[l]| && g.lists[l][i] == p;
    var j :| 0 <= j < |g.lists[l]| && g.lists[l][j] == q;
    assert i < j ==> !Clash(g.data[p], g.data[q]);
    assert j < i ==> !Clash(g.data[q], g.data[p]);
  }

  lemma ClusterEmptied(g: Shape, m: Mem, c: Ptr)
    requires TreeOk(g) && c in g.data && g.data[c].ClusterS?
    requires {AttributesOf(c), CommandsOf(c), EventsOf(c)} <= g.lists.Keys
    requires m.data == g.data - Elements(g.lists[CommandsOf(c)]) - Elements(g.lists[AttributesOf(c)])
                     - Elements(g.lists[EventsOf(c)])
    requires m.next == g.next - Elements(g.lists[CommandsOf(c)]) - Elements(g.lists[AttributesOf(c)])
                     - Elements(g.lists[EventsOf(c)])
    requires m.heads == g.heads[CommandsOf(c) := NULL][EventsOf(c) := NULL]
    ensures Emptied(g, m, c)
  {
    assert StructOk(g, c);
    AllOnList(g, CommandsOf(c));
    AllOnList(g, AttributesOf(c));
    AllOnList(g, EventsOf(c));
  }

  /** The lists that hang off a struct match its type. */
  lemma OnlyOwnSublists(g: Shape, p: Ptr, l: ListId)
    requires TreeOk(g) && p in g.data && l != NodeList && l.parent == p
    ensures l in g.lists ==> l in Sublists(p, g.data[p])
  {
    assert l in g.lists ==> SiblingsOk(g, l);
  }

  /** Freeing the commands leaves the attributes linked, and freeing both leaves the events. */
  lemma LeavesApart(g: Shape, c: Ptr, next1: Links, next2: Links)
    requires TreeOk(g) && c in g.data && g.data[c].ClusterS?
    requires {AttributesOf(c), CommandsOf(c), EventsOf(c)} <= g.lists.Keys && g.heads.Keys == g.lists.Keys
    requires next1 == g.next - Elements(g.lists[CommandsOf(c)])
    requires next2 == g.next - Elements(g.lists[CommandsOf(c)]) - Elements(g.lists[AttributesOf(c)])
    ensures var cs, at, ev := g.lists[CommandsOf(c)], g.lists[AttributesOf(c)], g.lists[EventsOf(c)];
            && Linked(g.next, cs) && g.heads[CommandsOf(c)] == At(cs, 0)
            && Linked(next1, at) && g.heads[AttributesOf(c)] == At(at, 0)
            && Linked(next2, ev) && g.heads[EventsOf(c)] == At(ev, 0)
            && (forall p | p in cs :: p in g.data)
            && (forall p | p in at :: p in g.data && p !in Elements(cs))
            && (forall p | p in ev :: p in g.data && p !in Elements(cs) && p !in Elements(at))
  {
    OwnedBy(g, CommandsOf(c));
    OwnedBy(g, AttributesOf(c));
    var cs, at := g.lists[CommandsOf(c)], g.lists[AttributesOf(c)];
    assert next2 == g.next - (Elements(cs) + Elements(at));
    assert g.next - {} == g.next;
    StillLinked(g, g.next, CommandsOf(c), {});
    StillLinked(g, next1, AttributesOf(c), Elements(cs));
    StillLinked(g, next2, EventsOf(c), Elements(cs) + Elements(at));
  }

  /** The three loops of `cluster::destroy`. Only the command and event heads are reset: the
      attribute head is left dangling until the cluster itself is freed. */
  method FreeLeaves(m: Mem, c: Ptr, ghost b: Book) returns (m': Mem, ghost log: seq<Ptr>)
    requires TreeOk(ShapeOf(m, b)) && c in m.data && m.data[c].ClusterS?
    ensures Emptied(ShapeOf(m, b), m', c)
    ensures log + [c] == ClusterOrder(b.lists, c)
  {
    ghost var g := ShapeOf(m, b);
    assert StructOk(g, c);
    ghost var cs, at, ev := b.lists[CommandsOf(c)], b.lists[AttributesOf(c)], b.lists[EventsOf(c)];
    LeavesApart(g, c, m.next - Elements(cs), m.next - Elements(cs) - Elements(at));
    ghost var log1, log2, log3;
    var data, next;
    data, next, log1 := DeleteList(m.data, m.next, m.heads[CommandsOf(c)], cs);
    data, next, log2 := DeleteList(data, next, m.heads[AttributesOf(c)], at);
    data, next, log3 := DeleteList(data, next, m.heads[EventsOf(c)], ev);
    m' := Mem(data, next, m.heads[CommandsOf(c) := NULL][EventsOf(c) := NULL]);
    ClusterEmptied(g, m', c);
    log := log1 + log2 + log3;
  }

  lemma NodeListAfter(g: Shape, m: Mem, c: Ptr)
    requires TreeOk(g) && c in g.data && g.data[c].ClusterS? && Emptied(g, m, c)
    ensures Linked(m.next, g.lists[NodeList])
    ensures NodeList in m.heads && m.heads[NodeList] == At(g.lists[NodeList], 0)
    ensures forall q | q in g.lists[NodeList] :: q in m.data && q in g.data
  {
    assert ListOk(g, NodeList) && SiblingsOk(g, NodeList);
    forall q | q in g.lists[NodeList] ensures q in m.data { assert !Gone(g, c, q) || q == c; }
    LinkedFrame(g.next, m.next, g.lists[NodeList]);
  }

  /** `cluster::destroy`: it looks its endpoint up by id and unlinks from the very list that
      `endpoint::destroy` is walking. */
  method FreeCluster(m: Mem, c: Ptr, ghost b: Book)
    returns (m': Mem, ghost b': Book, ghost log: seq<Ptr>, ghost k: nat)
    requires TreeOk(ShapeOf(m, b)) && c in m.data && m.data[c].ClusterS?
    ensures TreeOk(ShapeOf(m', b'))
    ensures c in b.owner && b.owner[c] in b.lists && k < |b.lists[b.owner[c]]| && b.lists[b.owner[c]][k] == c
    ensures DropStep(ShapeOf(m, b), ShapeOf(m', b'), b.owner[c], k)
    ensures log == ClusterOrder(b.lists, c)
    ensures forall q :: q in m'.data <==> q in m.data && !Gone(ShapeOf(m, b), c, q)
  {
    ghost var g := ShapeOf(m, b);
    m', log := FreeLeaves(m, c, b);
    NodeListAfter(g, m', c);
    var endpointId := m'.data[c].endpointId;
    var e;
    ghost var j;
    e, j := Find(m'.data, m'.next, m'.heads[NodeList], (d: Struct) => d.id == endpointId, b.lists[NodeList]);
    ParentById(g, c, e);
    OnlyOwnSublists(g, c, ClustersOf(c));
    m', b', k := UnlinkAndFree(m', ClustersOf(e), c, b, g);
    log := log + [c];
  }

  // ----- destroying an endpoint -----

  /** The order in which the clusters `cs` are freed with everything on them. */
  function ClustersOrder(lists: Lists, cs: seq<Ptr>): seq<Ptr> {
    if cs == [] then [] else ClusterOrder(lists, cs[0]) + ClustersOrder(lists, cs[1..])
  }

  lemma {:induction false} ClustersOrderFrame(lists: Lists, lists': Lists, cs: seq<Ptr>)
    requires forall c | c in cs :: ClusterOrder(lists, c) == ClusterOrder(lists', c)
    ensures ClustersOrder(lists, cs) == ClustersOrder(lists', cs)
  {
    if cs != [] {
      assert cs[0] in cs;
      ClustersOrderFrame(lists, lists', cs[1..]);
    }
  }

  /** The list hangs off a cluster of the endpoint at `e`. */
  predicate LeafListUnder(owner: map<Ptr, ListId>, e: Ptr, l: ListId) {
    && (l.AttributesOf? || l.CommandsOf? || l.EventsOf?)
    && l.parent in owner && owner[l.parent] == ClustersOf(e)
  }

  /** The struct at `q` is a cluster of the endpoint at `e`, or is on a list of one. */
  predicate Below(owner: map<Ptr, ListId>, e: Ptr, q: Ptr) {
    q in owner && (owner[q] == ClustersOf(e) || LeafListUnder(owner, e, owner[q]))
  }

  /** From `g0` on, only things below the endpoint at `e` have gone. */
  ghost predicate Shrunk(g0: Shape, g: Shape, e: Ptr) {
    && g.owner == g0.owner
    && (forall q | q in g.data :: q in g0.data && g.data[q] == g0.data[q])
    && (forall q | q in g0.data && !Below(g0.owner, e, q) :: q in g.data)
    && (forall l | l in g.lists :: l in g0.lists && (l != ClustersOf(e) ==> g.lists[l] == g0.lists[l]))
    && (forall l | l in g0.lists && !LeafListUnder(g0.owner, e, l) :: l in g.lists)
  }

  lemma ShrunkDrop(g0: Shape, g: Shape, g': Shape, e: Ptr, k: nat)
    requires Shrunk(g0, g, e) && ClustersOf(e) in g.lists && DropStep(g, g', ClustersOf(e), k)
    requires g.lists[ClustersOf(e)][k] in g.owner && g.owner[g.lists[ClustersOf(e)][k]] == ClustersOf(e)
    requires g.data[g.lists[ClustersOf(e)][k]].ClusterS?
    ensures Shrunk(g0, g', e)
  {
    var c := g.lists[ClustersOf(e)][k];
    forall l | l in g.lists && l !in g'.lists ensures LeafListUnder(g0.owner, e, l) {}
    forall q | q in g.data && q !in g'.data ensures Below(g0.owner, e, q) { assert Gone(g, c, q); }
  }

  /** Once the cluster list is empty, everything below the endpoint is gone. */
  lemma NothingBelow(g: Shape, e: Ptr)
    requires TreeOk(g) && ClustersOf(e) in g.lists && g.lists[ClustersOf(e)] == []
    ensures forall q | q in g.data :: !Below(g.owner, e, q)
    ensures forall l | l in g.lists :: !LeafListUnder(g.owner, e, l)
  {
    forall l | l in g.lists ensures !LeafListUnder(g.owner, e, l) {
      assert SiblingsOk(g, l);
      if l != NodeList { assert StructOk(g, l.parent); }
    }
    forall q | q in g.data ensures !Below(g.owner, e, q) { assert StructOk(g, q); }
  }

  lemma HeadCluster(g: Shape, e: Ptr)
    requires TreeOk(g) && ClustersOf(e) in g.lists
    ensures ClustersOf(e) in g.heads && g.heads[ClustersOf(e)] == At(g.lists[ClustersOf(e)], 0)
    ensures forall c | c in g.lists[ClustersOf(e)] ::
              c in g.data && g.data[c].ClusterS? && c in g.next && c in g.owner && g.owner[c] == ClustersOf(e)
    ensures Linked(g.next, g.lists[ClustersOf(e)])
  {
    assert ListOk(g, ClustersOf(e)) && SiblingsOk(g, ClustersOf(e));
    forall c | c in g.lists[ClustersOf(e)] ensures g.data[c].ClusterS? { assert StructOk(g, c); }
  }

  /** The orders of the other clusters do not change when one goes. */
  lemma OtherOrders(g: Shape, g': Shape, e: Ptr, k: nat)
    requires TreeOk(g) && ClustersOf(e) in g.lists && DropStep(g, g', ClustersOf(e), k)
    ensures forall c | c in Without(g.lists[ClustersOf(e)], k) :: ClusterOrder(g.lists, c) == ClusterOrder(g'.lists, c)
  {
    HeadCluster(g, e);
    WithoutDistinct(g.lists[ClustersOf(e)], k);
    var p := g.lists[ClustersOf(e)][k];
    forall c, l | c != p && l in {CommandsOf(c), AttributesOf(c), EventsOf(c)}
      ensures ListAt(g.lists, l) == ListAt(g'.lists, l)
    {
      assert l !in Sublists(p, g.data[p]);
    }
  }

  /** The cluster loop of `endpoint::destroy`: the next cluster is read before the current one is
      destroyed, and the list head is then overwritten with it. */
  method FreeClusters(m: Mem, e: Ptr, ghost b: Book) returns (m': Mem, ghost b': Book, ghost log: seq<Ptr>)
    requires TreeOk(ShapeOf(m, b)) && ClustersOf(e) in b.lists
    ensures TreeOk(ShapeOf(m', b')) && Shrunk(ShapeOf(m, b), ShapeOf(m', b'), e)
    ensures ClustersOf(e) in b'.lists && b'.lists[ClustersOf(e)] == []
    ensures log == ClustersOrder(b.lists, b.lists[ClustersOf(e)])
    ensures forall q :: q in m'.data <==> q in m.data && !Below(b.owner, e, q)
  {
    m', b', log := m, b, [];
    ghost var l := ClustersOf(e);
    HeadCluster(ShapeOf(m, b), e);
    var c := m.heads[ClustersOf(e)];
    while c != NULL
      invariant TreeOk(ShapeOf(m', b')) && Shrunk(ShapeOf(m, b), ShapeOf(m', b'), e) && l in b'.lists
      invariant c == At(b'.lists[l], 0)
      invariant log + ClustersOrder(b'.lists, b'.lists[l]) == ClustersOrder(b.lists, b.lists[l])
      decreases |b'.lists[l]|
    {
      ghost var freed;
      ghost var rest := ClustersOrder(b'.lists, b'.lists[l]);
      m', b', c, freed := FreeFirst(m', e, c, m, b, b');
      LogGrows(log, freed, rest, ClustersOrder(b'.lists, b'.lists[l]));
      log := log + freed;
    }
    HeadCluster(ShapeOf(m', b'), e);
    NothingBelow(ShapeOf(m', b'), e);
  }

  lemma LogGrows(log: seq<Ptr>, freed: seq<Ptr>, rest: seq<Ptr>, rest': seq<Ptr>)
    requires freed + rest' == rest
    ensures log + rest == (log + freed) + rest'
  {
  }

  method FreeFirst(m: Mem, e: Ptr, c: Ptr, ghost m0: Mem, ghost b0: Book, ghost b: Book)
    returns (m': Mem, ghost b': Book, c': Ptr, ghost freed: seq<Ptr>)
    requires TreeOk(ShapeOf(m, b)) && Shrunk(ShapeOf(m0, b0), ShapeOf(m, b), e) && ClustersOf(e) in b.lists
    requires c == At(b.lists[ClustersOf(e)], 0) && c != NULL
    ensures TreeOk(ShapeOf(m', b')) && Shrunk(ShapeOf(m0, b0), ShapeOf(m', b'), e) && ClustersOf(e) in b'.lists
    ensures c' == At(b'.lists[ClustersOf(e)], 0) && |b'.lists[ClustersOf(e)]| == |b.lists[ClustersOf(e)]| - 1
    ensures freed + ClustersOrder(b'.lists, b'.lists[ClustersOf(e)]) == ClustersOrder(b.lists, b.lists[ClustersOf(e)])
  {
    HeadCluster(ShapeOf(m, b), e);
    ghost var k;
    c' := m.next[c];
    var m1;
    m1, b', freed, k := FreeCluster(m, c, b);
    FirstFreed(ShapeOf(m0, b0), ShapeOf(m, b), ShapeOf(m1, b'), e, c, k);
    m' := Mem(m1.data, m1.next, m1.heads[ClustersOf(e) := c']);
    assert m' == m1;
  }

  lemma FirstFreed(g0: Shape, g: Shape, g': Shape, e: Ptr, c: Ptr, k: nat)
    requires TreeOk(g) && TreeOk(g') && Shrunk(g0, g, e) && ClustersOf(e) in g.lists
    requires DropStep(g, g', ClustersOf(e), k) && g.lists[ClustersOf(e)][k] == c == g.lists[ClustersOf(e)][0]
    ensures Shrunk(g0, g', e) && ClustersOf(e) in g'.lists && ClustersOf(e) in g'.heads && c in g.next
    ensures g.next[c] == At(g'.lists[ClustersOf(e)], 0)
    ensures g'.heads == g'.heads[ClustersOf(e) := g.next[c]]
    ensures |g'.lists[ClustersOf(e)]| == |g.lists[ClustersOf(e)]| - 1
    ensures ClusterOrder(g.lists, c) + ClustersOrder(g'.lists, g'.lists[ClustersOf(e)])
         == ClustersOrder(g.lists, g.lists[ClustersOf(e)])
  {
    FirstNext(g, g', e, c, k);
    HeadCluster(g, e);
    ShrunkDrop(g0, g, g', e, k);
    FirstOrder(g, g', e, c, k);
  }

  /** The link read before the first cluster is freed leads to the first cluster after it. */
  lemma FirstNext(g: Shape, g': Shape, e: Ptr, c: Ptr, k: nat)
    requires TreeOk(g) && ClustersOf(e) in g.lists && DropStep(g, g', ClustersOf(e), k)
    requires g.lists[ClustersOf(e)][k] == c == g.lists[ClustersOf(e)][0]
    ensures k == 0 && ClustersOf(e) in g'.lists && c in g.next
    ensures |g'.lists[ClustersOf(e)]| == |g.lists[ClustersOf(e)]| - 1
    ensures ClustersOf(e) in g'.heads && g.next[c] == At(g'.lists[ClustersOf(e)], 0) == g'.heads[ClustersOf(e)]
  {
    HeadCluster(g, e);
    UnlinkedHead(g.next, g.lists[ClustersOf(e)]);
  }

  /** The order of the whole list is that of its first cluster, then that of the list without it. */
  lemma FirstOrder(g: Shape, g': Shape, e: Ptr, c: Ptr, k: nat)
    requires TreeOk(g) && ClustersOf(e) in g.lists && DropStep(g, g', ClustersOf(e), k)
    requires k == 0 && g.lists[ClustersOf(e)][0] == c
    ensures ClustersOf(e) in g'.lists
    ensures ClusterOrder(g.lists, c) + ClustersOrder(g'.lists, g'.lists[ClustersOf(e)])
         == ClustersOrder(g.lists, g.lists[ClustersOf(e)])
  {
    var s := g.lists[ClustersOf(e)];
    assert Without(s, 0) == s[1..];
    OtherOrders(g, g', e, k);
    ClustersOrderFrame(g.lists, g'.lists, s[1..]);
  }

  function EndpointOrder(lists: Lists, e: Ptr): seq<Ptr> {
    ClustersOrder(lists, ListAt(lists, ClustersOf(e))) + [e]
  }

  /** `g'` is `g` without the endpoint at position `k` and everything below it; all else is the same. */
  ghost predicate EndpointGone(g: Shape, g': Shape, k: nat) {
    && NodeList in g.lists && NodeList in g'.lists && k < |g.lists[NodeList]|
    && g'.owner == g.owner && g'.lists[NodeList] == Without(g.lists[NodeList], k)
    && var e := g.lists[NodeList][k];
    && (forall q :: q in g'.data <==> q in g.data && q != e && !Below(g.owner, e, q))
    && (forall q | q in g'.data :: g'.data[q] == g.data[q])
    && (forall l :: l in g'.lists <==> l in g.lists && l != ClustersOf(e) && !LeafListUnder(g.owner, e, l))
    && (forall l | l in g'.lists && l != NodeList :: g'.lists[l] == g.lists[l])
  }

  lemma EndpointGoneOf(g0: Shape, g: Shape, g': Shape, e: Ptr, k: nat)
    requires TreeOk(g0) && TreeOk(g) && Shrunk(g0, g, e) && ClustersOf(e) in g.lists && g.lists[ClustersOf(e)] == []
    requires NodeList in g.lists && DropStep(g, g', NodeList, k) && g.lists[NodeList][k] == e && g.data[e].EndpointS?
    ensures EndpointGone(g0, g', k)
  {
    NothingBelow(g, e);
    AllOnList(g, ClustersOf(e));
    assert StructOk(g, e);
  }

  lemma EndpointHandle(g: Shape, e: Ptr)
    requires TreeOk(g) && e in g.data && g.data[e].EndpointS?
    ensures NodeList in g.lists && e in g.lists[NodeList] && ClustersOf(e) in g.lists
    ensures e in g.owner && g.owner[e] == NodeList
  {
    assert StructOk(g, e);
  }

  /** Free an endpoint with everything below it. */
  method FreeEndpoint(m: Mem, e: Ptr, ghost b: Book)
    returns (m': Mem, ghost b': Book, ghost log: seq<Ptr>, ghost k: nat)
    requires TreeOk(ShapeOf(m, b)) && e in m.data && m.data[e].EndpointS?
    ensures TreeOk(ShapeOf(m', b')) && EndpointGone(ShapeOf(m, b), ShapeOf(m', b'), k) && b.lists[NodeList][k] == e
    ensures log == EndpointOrder(b.lists, e)
    ensures forall q :: q in m'.data <==> q in m.data && q != e && !Below(b.owner, e, q)
  {
    EndpointHandle(ShapeOf(m, b), e);
    ghost var b1;
    var m1;
    m1, b1, log := FreeClusters(m, e, b);
    EndpointHandle(ShapeOf(m1, b1), e);
    EmptyEmptied(ShapeOf(m1, b1), m1, e);
    m', b', k := UnlinkAndFree(m1, NodeList, e, b1, ShapeOf(m1, b1));
    EndpointGoneOf(ShapeOf(m, b), ShapeOf(m1, b1), ShapeOf(m', b'), e, k);
    log := log + [e];
  }

  /** A struct whose sublists are empty has nothing below it. */
  lemma EmptyEmptied(g: Shape, m: Mem, p: Ptr)
    requires TreeOk(g) && p in g.data && g.data == m.data && g.next == m.next && g.heads == m.heads
    requires forall l | l in Sublists(p, g.data[p]) :: l in g.lists && g.lists[l] == []
    ensures Emptied(g, m, p)
  {
    forall q | q in g.data ensures q == p || !Gone(g, p, q) {
      assert StructOk(g, q);
    }
  }
}
