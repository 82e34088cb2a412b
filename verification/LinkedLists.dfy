/** The list template shared by every level of the data model, over an explicit memory.

    Dafny objects cannot be freed, so memory is modelled by finite maps, one per field: the `next`
    links of all allocated structs are a map from addresses to addresses. An address that is not a
    key is not allocated. Following a pointer is a map lookup, which Dafny only accepts when the
    address is provably a key, and freeing removes the key; a verified method therefore never
    touches freed memory and never frees an address twice. */
module LinkedLists {

  /** An address; 0 is the null pointer. */
  type Ptr = nat
  const NULL: Ptr := 0

  /** The `next` field of every allocated struct. */
  type Links = map<Ptr, Ptr>

  /** The address at a position, null past the end. */
  function At(s: seq<Ptr>, k: nat): Ptr {
    if k < |s| then s[k] else NULL
  }

  /** The sequence with position `k` taken out. */
  function Without<T>(s: seq<T>, k: nat): seq<T>
    requires k < |s|
  {
    seq(|s| - 1, i requires 0 <= i < |s| - 1 => if i < k then s[i] else s[i + 1])
  }

  function Elements(s: seq<Ptr>): set<Ptr> {
    set p | p in s
  }

  ghost predicate Distinct<T(!new)>(s: seq<T>) {
    forall i, j | 0 <= i < j < |s| :: s[i] != s[j]
  }

  /** The structs at the addresses `s` are linked in that order: allocated, no cycle, null-terminated. */
  ghost predicate Linked(next: Links, s: seq<Ptr>) {
    && (forall i | 0 <= i < |s| :: s[i] != NULL && s[i] in next)
    && (forall i, j | 0 <= i < j < |s| && j == i + 1 :: next[s[i]] == s[j])
    && (s != [] ==> next[s[|s| - 1]] == NULL)
    && Distinct(s)
  }

  /** Only links of structs on `s` may differ. */
  ghost predicate Relinked(next: Links, next': Links, s: seq<Ptr>) {
    && next'.Keys == next.Keys
    && forall p | p in next && p !in s :: next'[p] == next[p]
  }

  lemma LinkedFrame(next: Links, next': Links, s: seq<Ptr>)
    requires Linked(next, s)
    requires forall p | p in s :: p in next' && next'[p] == next[p]
    ensures Linked(next', s)
  {
  }

  /** The `get` loop of every level: walk the links until a struct matches. */
  method Find<T>(data: map<Ptr, T>, next: Links, head: Ptr, want: T -> bool, ghost s: seq<Ptr>)
    returns (p: Ptr, ghost k: nat)
    requires Linked(next, s) && head == At(s, 0)
    requires forall q | q in s :: q in data
    ensures k <= |s| && p == At(s, k)
    ensures k < |s| ==> want(data[p])
    ensures forall i | 0 <= i < k :: !want(data[s[i]])
    ensures p == NULL ==> forall q | q in s :: !want(data[q])
    ensures p != NULL ==> p in s && want(data[p])
  {
    p, k := head, 0;
    while p != NULL && !want(data[p])
      invariant k <= |s|
      invariant p == At(s, k)
      invariant forall i | 0 <= i < k :: !want(data[s[i]])
      decreases |s| - k
    {
      p := next[p];
      k := k + 1;
    }
  }

  /** `SinglyLinkedList::append`: `prev` is the struct whose link is the slot being filled, null for
      the head slot. */
  method Append(next: Links, head: Ptr, n: Ptr, ghost s: seq<Ptr>) returns (next': Links, head': Ptr)
    requires Linked(next, s) && head == At(s, 0)
    requires n != NULL && n in next && next[n] == NULL && n !in s
    ensures Linked(next', s + [n]) && head' == At(s + [n], 0)
    ensures Relinked(next, next', s)
  {
    var prev, p := NULL, head;
    ghost var k := 0;
    while p != NULL
      invariant k <= |s|
      invariant p == At(s, k)
      invariant prev == if k == 0 then NULL else s[k - 1]
      decreases |s| - k
    {
      prev, p := p, next[p];
      k := k + 1;
    }
    if prev == NULL {
      next', head' := next, n;
    } else {
      next', head' := next[prev := n], head;
    }
  }

  /** The pointer-to-pointer search and relink shared by `SinglyLinkedList::remove`,
      `attribute::destroy` and `endpoint::destroy`. Nothing is freed yet. */
  method Unlink(next: Links, head: Ptr, target: Ptr, ghost s: seq<Ptr>)
    returns (next': Links, head': Ptr, found: bool, ghost k: nat)
    requires Linked(next, s) && head == At(s, 0)
    requires target != NULL
    ensures found <==> target in s
    ensures Relinked(next, next', s)
    ensures !found ==> next' == next && head' == head
    ensures found ==> k < |s| && s[k] == target
    ensures found ==> Linked(next', Without(s, k)) && head' == At(Without(s, k), 0)
  {
    var prev, p := NULL, head;
    k := 0;
    while p != NULL && p != target
      invariant k <= |s|
      invariant p == At(s, k)
      invariant prev == if k == 0 then NULL else s[k - 1]
      invariant forall i | 0 <= i < k :: s[i] != target
      decreases |s| - k
    {
      prev, p := p, next[p];
      k := k + 1;
    }
    found := p != NULL;
    next', head' := next, head;
    if found {
      if prev == NULL {
        head' := next[target];
        UnlinkedHead(next, s);
      } else {
        next' := next[prev := next[target]];
        UnlinkedInner(next, s, k);
      }
    }
  }

  lemma WithoutDistinct<T(!new)>(s: seq<T>, k: nat)
    requires Distinct(s) && k < |s|
    ensures Distinct(Without(s, k))
    ensures forall x :: x in Without(s, k) <==> x in s && x != s[k]
  {
    var s' := Without(s, k);
    forall x | x in s && x != s[k] ensures x in s' {
      var i :| 0 <= i < |s| && s[i] == x;
      assert s'[if i < k then i else i - 1] == x;
    }
  }

  lemma UnlinkedHead(next: Links, s: seq<Ptr>)
    requires Linked(next, s) && s != []
    ensures Linked(next, Without(s, 0)) && next[s[0]] == At(Without(s, 0), 0)
  {
    WithoutDistinct(s, 0);
  }

  lemma UnlinkedInner(next: Links, s: seq<Ptr>, k: nat)
    requires Linked(next, s) && 0 < k < |s|
    ensures Linked(next[s[k - 1] := next[s[k]]], Without(s, k))
  {
    WithoutDistinct(s, k);
  }

  /** `SinglyLinkedList::delete_list`, also the attribute loop of `cluster::destroy`: each link is
      read before its struct is freed. The ghost result lists the addresses in the order of freeing. */
  method DeleteList<T>(data: map<Ptr, T>, next: Links, head: Ptr, ghost s: seq<Ptr>)
    returns (data': map<Ptr, T>, next': Links, ghost freed: seq<Ptr>)
    requires Linked(next, s) && head == At(s, 0)
    requires forall p | p in s :: p in data
    ensures data' == data - Elements(s) && next' == next - Elements(s)
    ensures freed == s
  {
    data', next', freed := data, next, [];
    var p := head;
    ghost var k := 0;
    while p != NULL
      invariant k <= |s|
      invariant p == At(s, k)
      invariant freed == s[..k]
      invariant data' == data - Elements(freed) && next' == next - Elements(freed)
      decreases |s| - k
    {
      assert p !in s[..k];
      var following := next'[p];
      data', next' := Free(data', next', p);
      freed := freed + [p];
      p := following;
      k := k + 1;
    }
  }

  /** `free`: the address must be allocated. */
  method Free<T>(data: map<Ptr, T>, next: Links, p: Ptr) returns (data': map<Ptr, T>, next': Links)
    requires p in data && p in next
    ensures data' == data - {p} && next' == next - {p}
  {
    data', next' := data - {p}, next - {p};
  }
}
