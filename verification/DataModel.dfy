/** The structs of the data model in memory, and what it means for them to form a node tree. */
module DataModel {
  import opened LinkedLists

  const ENDPOINT_FLAG_DESTROYABLE: bv16 := 0x01
  const ATTRIBUTE_FLAG_MANAGED_INTERNALLY: bv16 := 0x200
  const CLUSTER_FLAG_SERVER: bv16 := 0x40
  const CLUSTER_FLAG_CLIENT: bv16 := 0x80

  /** One C struct without its pointers. An attribute managed internally is allocated as the
      smaller `_attribute_base_t`, which does not know where it belongs. */
  datatype Struct =
    | EndpointS(id: nat, flags: bv16, enabled: bool, parent: nat)
    | ClusterS(id: nat, flags: bv16, endpointId: nat, version: nat)
    | AttributeBaseS(id: nat, flags: bv16)
    | AttributeS(id: nat, flags: bv16, endpointId: nat, clusterId: nat)
    | CommandS(id: nat, flags: bv16)
    | EventS(id: nat)

  /** The lists of the tree: the node's, and those whose head pointer is a field of an endpoint or
      of a cluster. */
  datatype ListId =
    | NodeList
    | ClustersOf(parent: Ptr)
    | AttributesOf(parent: Ptr)
    | CommandsOf(parent: Ptr)
    | EventsOf(parent: Ptr)

  type Lists = map<ListId, seq<Ptr>>

  /** Memory, field by field: payloads, `next` links and list heads. */
  datatype Mem = Mem(data: map<Ptr, Struct>, next: Links, heads: map<ListId, Ptr>)

  /** What the memory is meant to hold: the lists, and the list each address was allocated for. */
  datatype Book = Book(lists: Lists, owner: map<Ptr, ListId>)

  datatype Shape = Shape(
    data: map<Ptr, Struct>, next: Links, heads: map<ListId, Ptr>, lists: Lists, owner: map<Ptr, ListId>)

  function ShapeOf(m: Mem, b: Book): Shape {
    Shape(m.data, m.next, m.heads, b.lists, b.owner)
  }

  /** The struct has the type that elements of list `l` must have. */
  predicate KindOk(l: ListId, d: Struct) {
    match l
    case NodeList => d.EndpointS?
    case ClustersOf(_) => d.ClusterS?
    case AttributesOf(_) =>
      && (d.AttributeBaseS? || d.AttributeS?)
      && (d.AttributeBaseS? <==> d.flags & ATTRIBUTE_FLAG_MANAGED_INTERNALLY != 0)
    case CommandsOf(_) => d.CommandS?
    case EventsOf(_) => d.EventS?
  }

  /** The lists whose heads are fields of the struct at `p`. */
  function Sublists(p: Ptr, d: Struct): set<ListId> {
    if d.EndpointS? then {ClustersOf(p)}
    else if d.ClusterS? then {AttributesOf(p), CommandsOf(p), EventsOf(p)}
    else {}
  }

  /** Two elements that may not be on the same list: equal ids, and for commands a common flag. */
  predicate Clash(a: Struct, b: Struct) {
    a.id == b.id && (a.CommandS? && b.CommandS? ==> a.flags & b.flags != 0)
  }

  ghost predicate ListOk(g: Shape, l: ListId) {
    && l in g.lists && l in g.heads
    && g.heads[l] == At(g.lists[l], 0)
    && Linked(g.next, g.lists[l])
    && forall p | p in g.lists[l] :: p in g.owner && g.owner[p] == l
  }

  /** Siblings can be told apart, and the list hangs off an allocated struct of the right type. */
  ghost predicate SiblingsOk(g: Shape, l: ListId) {
    && l in g.lists
    && (forall p | p in g.lists[l] :: p in g.data)
    && (forall i, j | 0 <= i < j < |g.lists[l]| :: !Clash(g.data[g.lists[l][i]], g.data[g.lists[l][j]]))
    && (l != NodeList ==> l.parent in g.data && l in Sublists(l.parent, g.data[l.parent]))
  }

  /** The ids stored in a struct name the structs above it. */
  ghost predicate BackIdsOk(data: map<Ptr, Struct>, l: ListId, d: Struct) {
    && (d.ClusterS? && l.ClustersOf? ==> l.parent in data && d.endpointId == data[l.parent].id)
    && (d.AttributeS? && l.AttributesOf? ==>
          && l.parent in data && data[l.parent].ClusterS?
          && d.endpointId == data[l.parent].endpointId && d.clusterId == data[l.parent].id)
  }

  /** An allocated struct is on the list it was allocated for, has the right type, and has its sublists. */
  ghost predicate StructOk(g: Shape, p: Ptr) {
    && p in g.data && p in g.next
    && p in g.owner && g.owner[p] in g.lists && p in g.lists[g.owner[p]]
    && KindOk(g.owner[p], g.data[p]) && BackIdsOk(g.data, g.owner[p], g.data[p])
    && Sublists(p, g.data[p]) <= g.lists.Keys
  }

  /** The memory is exactly a node tree: nothing shared, nothing dangling, nothing leaked, ids unique
      among siblings. */
  ghost predicate TreeOk(g: Shape) {
    && NodeList in g.lists && g.heads.Keys == g.lists.Keys && g.next.Keys == g.data.Keys
    && (forall l {:trigger ListOk(g, l)} | l in g.lists :: ListOk(g, l))
    && (forall l {:trigger SiblingsOk(g, l)} | l in g.lists :: SiblingsOk(g, l))
    && (forall p {:trigger StructOk(g, p)} | p in g.data :: StructOk(g, p))
  }

  // ----- inserting -----

  /** The map with every list of `ls` bound to `v`. */
  function AddAll<V>(m: map<ListId, V>, ls: set<ListId>, v: V): (r: map<ListId, V>)
    ensures r.Keys == m.Keys + ls
    ensures forall l | l in ls :: r[l] == v
    ensures forall l | l in m && l !in ls :: r[l] == m[l]
  {
    m + (map l | l in ls :: v)
  }

  /** The lists after appending `n` to list `l`; its own sublists start empty. */
  ghost predicate InsertLists(ls: Lists, ls': Lists, l: ListId, n: Ptr, subs: set<ListId>) {
    && l in ls && ls'.Keys == ls.Keys + subs
    && ls'[l] == ls[l] + [n]
    && (forall k | k in ls && k != l :: ls'[k] == ls[k])
    && (forall k | k in subs :: ls'[k] == [])
  }

  /** `g'` is `g` with a new struct `d` at the end of list `l`. */
  ghost predicate InsertStep(g: Shape, g': Shape, l: ListId, n: Ptr, d: Struct) {
    && n !in g.owner && n !in g.data && g.next.Keys == g.data.Keys && g.heads.Keys == g.lists.Keys
    && InsertLists(g.lists, g'.lists, l, n, Sublists(n, d))
    && g'.data == g.data[n := d]
    && g'.owner == g.owner[n := l]
    && g'.heads.Keys == g'.lists.Keys && g'.next.Keys == g'.data.Keys
    && (forall p | p in g.next && p !in g.lists[l] :: g'.next[p] == g.next[p])
    && (forall k | k in g'.lists && k != l :: g'.heads[k] == if k in g.heads then g.heads[k] else NULL)
    && Linked(g'.next, g.lists[l] + [n]) && g'.heads[l] == At(g.lists[l] + [n], 0)
  }

  /** The new struct may go on list `l`. */
  ghost predicate Fits(g: Shape, l: ListId, d: Struct) {
    && l in g.lists && KindOk(l, d) && BackIdsOk(g.data, l, d)
    && (forall p | p in g.lists[l] :: p in g.data && !Clash(g.data[p], d))
  }

  lemma InsertStepOf(g: Shape, g': Shape, l: ListId, n: Ptr, d: Struct)
    requires n !in g.owner && n !in g.data && g.next.Keys == g.data.Keys && g.heads.Keys == g.lists.Keys
    requires l in g.lists && l !in Sublists(n, d)
    requires forall k | k in Sublists(n, d) :: k !in g.lists
    requires g'.lists == AddAll(g.lists[l := g.lists[l] + [n]], Sublists(n, d), [])
    requires g'.heads == AddAll(g.heads, Sublists(n, d), NULL)[l := At(g.lists[l] + [n], 0)]
    requires g'.data == g.data[n := d] && g'.owner == g.owner[n := l]
    requires Relinked(g.next[n := NULL], g'.next, g.lists[l]) && Linked(g'.next, g.lists[l] + [n])
    ensures InsertStep(g, g', l, n, d)
  {
    InsertListsOf(g.lists, g'.lists, l, n, Sublists(n, d));
    InsertHeadsOf(g.heads, g'.heads, l, Sublists(n, d), At(g.lists[l] + [n], 0));
  }

  lemma InsertListsOf(ls: Lists, ls': Lists, l: ListId, n: Ptr, subs: set<ListId>)
    requires l in ls && l !in subs && (forall k | k in subs :: k !in ls)
    requires ls' == AddAll(ls[l := ls[l] + [n]], subs, [])
    ensures InsertLists(ls, ls', l, n, subs)
  {
  }

  lemma InsertHeadsOf(hs: map<ListId, Ptr>, hs': map<ListId, Ptr>, l: ListId, subs: set<ListId>, head: Ptr)
    requires l in hs && l !in subs && (forall k | k in subs :: k !in hs)
    requires hs' == AddAll(hs, subs, NULL)[l := head]
    ensures hs'.Keys == hs.Keys + subs && hs'[l] == head
    ensures forall k | k in hs' && k != l :: hs'[k] == if k in hs then hs[k] else NULL
  {
  }

  lemma InsertList(g: Shape, g': Shape, l: ListId, n: Ptr, d: Struct, k: ListId)
    requires InsertStep(g, g', l, n, d) && ListOk(g, l) && k in g.lists && ListOk(g, k) && k !in Sublists(n, d)
    ensures ListOk(g', k)
  {
    if k != l {
      forall p | p in g.lists[k] ensures p in g'.next && g'.next[p] == g.next[p] { assert p !in g.lists[l]; }
      LinkedFrame(g.next, g'.next, g.lists[k]);
    }
  }

  lemma InsertSiblings(g: Shape, g': Shape, l: ListId, n: Ptr, d: Struct, k: ListId)
    requires InsertStep(g, g', l, n, d) && Fits(g, l, d)
    requires k in g.lists && SiblingsOk(g, k) && k !in Sublists(n, d)
    ensures SiblingsOk(g', k)
  {
  }

  lemma InsertStruct(g: Shape, g': Shape, l: ListId, n: Ptr, d: Struct, p: Ptr)
    requires InsertStep(g, g', l, n, d) && Fits(g, l, d) && l !in Sublists(n, d)
    requires p == n || (StructOk(g, p) && g.owner[p] !in Sublists(n, d))
    ensures StructOk(g', p)
  {
  }

  lemma FreshSublists(g: Shape, n: Ptr, d: Struct, k: ListId)
    requires SiblingsOk(g, k) && n !in g.data
    ensures k !in Sublists(n, d)
  {
  }

  /** A sublist of a struct hangs off that struct. */
  lemma SublistsOwn(p: Ptr, d: Struct, l: ListId)
    requires l in Sublists(p, d)
    ensures l != NodeList && l.parent == p
  {
  }

  lemma InsertNew(g: Shape, g': Shape, l: ListId, n: Ptr, d: Struct, k: ListId)
    requires InsertStep(g, g', l, n, d) && k in Sublists(n, d) && k != l && k !in g.lists
    ensures ListOk(g', k) && SiblingsOk(g', k)
  {
    SublistsOwn(n, d, k);
  }

  lemma InsertOk(g: Shape, g': Shape, l: ListId, n: Ptr, d: Struct)
    requires TreeOk(g) && InsertStep(g, g', l, n, d) && Fits(g, l, d)
    ensures TreeOk(g')
  {
    forall k | k in g.lists ensures k !in Sublists(n, d) {
      assert SiblingsOk(g, k);
      FreshSublists(g, n, d, k);
    }
    forall k | k in g'.lists ensures ListOk(g', k) && SiblingsOk(g', k) {
      if k in g.lists {
        assert ListOk(g, k) && ListOk(g, l) && SiblingsOk(g, k);
        InsertList(g, g', l, n, d, k);
        InsertSiblings(g, g', l, n, d, k);
      } else {
        InsertNew(g, g', l, n, d, k);
      }
    }
    forall p | p in g'.data ensures StructOk(g', p) {
      assert p != n ==> StructOk(g, p);
      InsertStruct(g, g', l, n, d, p);
    }
  }

  // ----- dropping -----

  /** The structs that go when the one at `p` goes: itself and what is on its sublists. */
  ghost predicate Gone(g: Shape, p: Ptr, q: Ptr)
    requires p in g.data
  {
    q == p || (q in g.owner && g.owner[q] in Sublists(p, g.data[p]))
  }

  /** Exactly the struct at `p` and what is on its sublists have gone. */
  ghost predicate DropData(g: Shape, g': Shape, p: Ptr)
    requires p in g.data
  {
    && (forall q :: q in g'.data <==> q in g.data && !Gone(g, p, q))
    && (forall q | q in g'.data :: g'.data[q] == g.data[q])
    && g'.owner == g.owner && g'.next.Keys == g'.data.Keys
  }

  /** List `l` has lost position `k`, the sublists of the struct there have gone, and no other list has changed. */
  ghost predicate DropLinks(g: Shape, g': Shape, l: ListId, k: nat)
    requires l in g.lists && k < |g.lists[l]| && g.lists[l][k] in g.data && g.heads.Keys == g.lists.Keys
    requires g.next.Keys == g.data.Keys
  {
    var p := g.lists[l][k];
    && g'.lists.Keys == g.lists.Keys - Sublists(p, g.data[p]) && g'.heads.Keys == g'.lists.Keys
    && l in g'.lists && g'.lists[l] == Without(g.lists[l], k)
    && (forall m | m in g'.lists && m != l :: g'.lists[m] == g.lists[m] && g'.heads[m] == g.heads[m])
    && (forall q | q in g'.next && q !in g.lists[l] :: q in g.next && g'.next[q] == g.next[q])
    && Linked(g'.next, Without(g.lists[l], k)) && g'.heads[l] == At(Without(g.lists[l], k), 0)
  }

  /** `g'` is `g` without position `k` of list `l` and everything below it. */
  ghost predicate DropStep(g: Shape, g': Shape, l: ListId, k: nat) {
    && l in g.lists && k < |g.lists[l]| && g.lists[l][k] in g.data
    && g.next.Keys == g.data.Keys && g.heads.Keys == g.lists.Keys
    && DropData(g, g', g.lists[l][k]) && DropLinks(g, g', l, k)
  }

  lemma DropList(g: Shape, g': Shape, l: ListId, k: nat, m: ListId)
    requires DropStep(g, g', l, k) && ListOk(g, l) && ListOk(g, m) && m in g'.lists
    requires forall q | q in g.lists[m] :: q in g.data
    ensures ListOk(g', m)
  {
    if m == l {
      WithoutDistinct(g.lists[l], k);
    } else {
      forall q | q in g.lists[m] ensures q in g'.next && g'.next[q] == g.next[q] {
        assert q !in g.lists[l];
        assert g.lists[l][k] in g.lists[l];
      }
      LinkedFrame(g.next, g'.next, g.lists[m]);
    }
  }

  /** No surviving list hangs off a struct that goes. */
  lemma DropParent(g: Shape, g': Shape, l: ListId, k: nat, m: ListId)
    requires DropStep(g, g', l, k) && SiblingsOk(g, m) && m in g'.lists && m != NodeList
    requires StructOk(g, m.parent)
    requires ClustersOf(g.lists[l][k]) in g.lists ==> g.lists[ClustersOf(g.lists[l][k])] == []
    ensures m.parent in g'.data
  {
    var p := g.lists[l][k];
    SublistsOwn(m.parent, g.data[m.parent], m);
    if Gone(g, p, m.parent) && m.parent != p {
      SublistsOwn(p, g.data[p], g.owner[m.parent]);
    }
  }

  lemma DropSiblings(g: Shape, g': Shape, l: ListId, k: nat, m: ListId)
    requires DropStep(g, g', l, k) && ListOk(g, l) && ListOk(g, m) && SiblingsOk(g, m) && m in g'.lists
    requires m != NodeList ==> m.parent in g'.data
    ensures SiblingsOk(g', m)
  {
    assert g.lists[l][k] in g.lists[l];
    if m == l {
      DropOwnSiblings(g, g', l, k);
    } else {
      forall q | q in g.lists[m] ensures q in g'.data { assert g.owner[q] == m; }
    }
  }

  /** What is left of the list itself. */
  lemma DropOwnSiblings(g: Shape, g': Shape, l: ListId, k: nat)
    requires DropStep(g, g', l, k) && ListOk(g, l) && SiblingsOk(g, l) && l in g'.lists
    requires l != NodeList ==> l.parent in g'.data
    ensures SiblingsOk(g', l)
  {
    var s, s' := g.lists[l], Without(g.lists[l], k);
    assert s[k] in s;
    WithoutDistinct(s, k);
    forall q | q in s' ensures q in g'.data && g'.data[q] == g.data[q] { assert g.owner[q] == l; }
    WithoutClash(g.data, g'.data, s, s', k);
  }

  /** Leaving one out makes no two of the others clash. */
  lemma WithoutClash(data: map<Ptr, Struct>, data': map<Ptr, Struct>, s: seq<Ptr>, s': seq<Ptr>, k: nat)
    requires k < |s| && s' == Without(s, k) && (forall p | p in s :: p in data)
    requires forall p | p in s' :: p in data' && p in data && data'[p] == data[p]
    requires forall i, j | 0 <= i < j < |s| :: !Clash(data[s[i]], data[s[j]])
    ensures forall i, j | 0 <= i < j < |s'| :: !Clash(data'[s'[i]], data'[s'[j]])
  {
    forall i, j | 0 <= i < j < |s'| ensures !Clash(data'[s'[i]], data'[s'[j]]) {
      var x, y := if i < k then i else i + 1, if j < k then j else j + 1;
      assert s'[i] == s[x] && s'[j] == s[y] && s'[i] in s' && s'[j] in s';
      assert !Clash(data[s[x]], data[s[y]]);
    }
  }

  lemma DropStruct(g: Shape, g': Shape, l: ListId, k: nat, q: Ptr)
    requires DropStep(g, g', l, k) && ListOk(g, l) && q in g'.data && StructOk(g, q)
    requires g.owner[q] != NodeList ==> g.owner[q].parent in g'.data
    ensures StructOk(g', q)
  {
    var p := g.lists[l][k];
    WithoutDistinct(g.lists[l], k);
    forall s | s in Sublists(q, g.data[q]) ensures s !in Sublists(p, g.data[p]) {
      SublistsOwn(q, g.data[q], s);
      if s in Sublists(p, g.data[p]) { SublistsOwn(p, g.data[p], s); }
    }
  }

  lemma DropOk(g: Shape, g': Shape, l: ListId, k: nat)
    requires TreeOk(g) && DropStep(g, g', l, k)
    requires ClustersOf(g.lists[l][k]) in g.lists ==> g.lists[ClustersOf(g.lists[l][k])] == []
    ensures TreeOk(g')
  {
    assert ListOk(g, l);
    forall m | m in g'.lists ensures m != NodeList ==> m.parent in g'.data {
      assert SiblingsOk(g, m);
      if m != NodeList {
        assert StructOk(g, m.parent);
        DropParent(g, g', l, k, m);
      }
    }
    forall m | m in g'.lists ensures ListOk(g', m) && SiblingsOk(g', m) {
      assert ListOk(g, m) && SiblingsOk(g, m);
      DropList(g, g', l, k, m);
      DropSiblings(g, g', l, k, m);
    }
    forall q | q in g'.data ensures StructOk(g', q) {
      assert StructOk(g, q);
      assert g.owner[q] in g'.lists;
      DropStruct(g, g', l, k, q);
    }
    DropNodeList(g, g', l, k);
  }

  lemma DropNodeList(g: Shape, g': Shape, l: ListId, k: nat)
    requires DropStep(g, g', l, k) && NodeList in g.lists
    ensures NodeList in g'.lists
  {
    if NodeList in Sublists(g.lists[l][k], g.data[g.lists[l][k]]) {
      SublistsOwn(g.lists[l][k], g.data[g.lists[l][k]], NodeList);
    }
  }

  // ----- changing a struct in place -----

  /** A change that leaves ids and types alone. */
  ghost predicate SameKey(d: Struct, d': Struct) {
    && d'.id == d.id
    && ((d.EndpointS? && d'.EndpointS?) || (d.ClusterS? && d'.ClusterS? && d'.endpointId == d.endpointId))
  }

  lemma UpdateSiblings(g: Shape, p: Ptr, d: Struct, l: ListId)
    requires SiblingsOk(g, l) && p in g.data && SameKey(g.data[p], d)
    ensures SiblingsOk(g.(data := g.data[p := d]), l)
  {
    var s := g.lists[l];
    forall i, j | 0 <= i < j < |s| ensures !Clash(g.data[p := d][s[i]], g.data[p := d][s[j]]) {
      assert !Clash(g.data[s[i]], g.data[s[j]]);
    }
  }

  lemma UpdateStruct(g: Shape, p: Ptr, d: Struct, q: Ptr)
    requires StructOk(g, q) && p in g.data && SameKey(g.data[p], d)
    ensures StructOk(g.(data := g.data[p := d]), q)
  {
  }

  lemma UpdateLists(g: Shape, g': Shape)
    requires TreeOk(g) && g' == g.(data := g'.data)
    ensures forall l {:trigger ListOk(g', l)} | l in g'.lists :: ListOk(g', l)
  {
    forall l | l in g'.lists ensures ListOk(g', l) { assert ListOk(g, l); }
  }

  lemma UpdateOk(g: Shape, g': Shape, p: Ptr, d: Struct)
    requires TreeOk(g) && p in g.data && SameKey(g.data[p], d)
    requires g' == g.(data := g.data[p := d])
    ensures TreeOk(g')
  {
    UpdateLists(g, g');
    forall l | l in g'.lists ensures SiblingsOk(g', l) {
      assert SiblingsOk(g, l);
      UpdateSiblings(g, p, d, l);
    }
    forall q | q in g'.data ensures StructOk(g', q) {
      assert StructOk(g, q);
      UpdateStruct(g, p, d, q);
    }
  }

  /** What a new address can rely on. */
  lemma FreshLists(g: Shape, l: ListId, n: Ptr, d: Struct)
    requires TreeOk(g) && l in g.lists && n !in g.owner && n != NULL
    ensures n !in g.data && n !in g.next && n !in g.lists[l] && l in g.heads
    ensures Linked(g.next[n := NULL], g.lists[l]) && g.heads[l] == At(g.lists[l], 0)
    ensures forall k | k in Sublists(n, d) :: k !in g.lists
    ensures l !in Sublists(n, d)
  {
    assert n in g.data ==> StructOk(g, n);
    assert ListOk(g, l);
    LinkedFrame(g.next, g.next[n := NULL], g.lists[l]);
    forall k | k in g.lists ensures k !in Sublists(n, d) {
      assert SiblingsOk(g, k);
      FreshSublists(g, n, d, k);
    }
  }

  lemma LinkOk(g: Shape, g': Shape, l: ListId, n: Ptr, d: Struct)
    requires TreeOk(g) && Fits(g, l, d) && n !in g.owner && n != NULL
    requires g'.lists == AddAll(g.lists[l := g.lists[l] + [n]], Sublists(n, d), [])
    requires g'.heads == AddAll(g.heads, Sublists(n, d), NULL)[l := At(g.lists[l] + [n], 0)]
    requires g'.data == g.data[n := d] && g'.owner == g.owner[n := l]
    requires Relinked(g.next[n := NULL], g'.next, g.lists[l]) && Linked(g'.next, g.lists[l] + [n])
    ensures TreeOk(g') && InsertLists(g.lists, g'.lists, l, n, Sublists(n, d))
  {
    FreshLists(g, l, n, d);
    InsertStepOf(g, g', l, n, d);
    InsertOk(g, g', l, n, d);
  }
}
