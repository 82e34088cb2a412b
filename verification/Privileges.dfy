/** Access privileges: the tables generated from the cluster XML files, and the lookups over them. */
module Privileges {
  import opened Basics
  import opened HexText

  /** An `access` element; `op` is always present. */
  datatype Access = Access(op: string, privilege: Option<string>, role: Option<string>)

  datatype Tag = ATTRIBUTE | COMMAND | EVENT | OTHER

  datatype Element = Element(tag: Tag, code: string, accesses: seq<Access>)

  datatype Cluster = Cluster(code: string, elements: seq<Element>)

  /** One of the four tables: which elements, which operation, and the privilege that needs no entry. */
  datatype Table = Table(tag: Tag, op: string, default: string)

  /** What an access asks for; there is one table for each. */
  datatype Interaction = ReadAttribute | WriteAttribute | InvokeCommand | ReadEvent

  /** The tables of `get_privileges`. */
  function TableFor(i: Interaction): Table {
    match i
    case ReadAttribute => Table(ATTRIBUTE, "read", "view")
    case WriteAttribute => Table(ATTRIBUTE, "write", "operate")
    case InvokeCommand => Table(COMMAND, "invoke", "operate")
    case ReadEvent => Table(EVENT, "read", "view")
  }

  /** The privileges that the lookups in the provider return when nothing matches. */
  function LookupDefault(i: Interaction): string {
    match i
    case ReadAttribute => "view"
    case WriteAttribute => "operate"
    case InvokeCommand => "operate"
    case ReadEvent => "view"
  }

  // ----- ids -----

  /** An id as the XML files write it: `0x` and hexadecimal digits, or decimal digits. */
  predicate ValidId(id: string) {
    if |id| >= 2 && id[..2] == "0x" then forall c | c in id[2..] :: IsHexDigit(c)
    else id != [] && forall c | c in id :: '0' <= c <= '9'
  }

  function IdNumber(id: string): int {
    if |id| >= 2 && id[..2] == "0x" then NumberIn(16, id[2..]) else NumberIn(10, id)
  }

  /** `format_id`: `0x` and at least eight capital digits. */
  function FormatId(id: string): string
    requires ValidId(id)
  {
    "0x" + UpperAll(ZeroFill(HexPart(id), 8))
  }

  function HexPart(id: string): string
    requires ValidId(id)
  {
    if |id| >= 2 && id[..2] == "0x" then id[2..]
    else
      NumberNonNegative(10, id);
      Hex(NumberIn(10, id))
  }

  /** Formatting keeps the number, in a fixed width unless it needs more. */
  lemma FormatKeepsNumber(id: string)
    requires ValidId(id)
    ensures IdNumber(FormatId(id)) == IdNumber(id) && |FormatId(id)| >= 10
    ensures FormatId(id)[..2] == "0x" && forall c | c in FormatId(id)[2..] :: '0' <= c <= '9' || 'A' <= c <= 'F'
  {
    var h := HexPart(id);
    if !(|id| >= 2 && id[..2] == "0x") {
      NumberNonNegative(10, id);
      HexRoundTrip(NumberIn(10, id));
    }
    ZeroFillKeepsNumber(h, 8);
    UpperKeepsNumber(ZeroFill(h, 8));
    UpperDigits(ZeroFill(h, 8));
    assert FormatId(id)[2..] == UpperAll(ZeroFill(h, 8)) && FormatId(id)[..2] == "0x";
  }

  // ----- reading the XML -----

  /** The four privilege readers: the first access for the operation that names a privilege or a role. */
  function ReadPrivilege(accesses: seq<Access>, op: string, default: string): string {
    if accesses == [] then default
    else if accesses[0].op == op && accesses[0].privilege.Some? then accesses[0].privilege.value
    else if accesses[0].op == op && accesses[0].role.Some? then accesses[0].role.value
    else ReadPrivilege(accesses[1..], op, default)
  }

  /** The access gives the operation a privilege, by privilege or by role. */
  predicate Names(a: Access, op: string) {
    a.op == op && (a.privilege.Some? || a.role.Some?)
  }

  /** The result is the privilege, or else the role, of the first access that names one for the operation. */
  lemma {:induction false} FirstNamed(accesses: seq<Access>, op: string, default: string, k: nat)
    requires k <= |accesses| && (forall i | 0 <= i < k :: !Names(accesses[i], op))
    requires k < |accesses| ==> Names(accesses[k], op)
    ensures ReadPrivilege(accesses, op, default)
         == if k == |accesses| then default
            else if accesses[k].privilege.Some? then accesses[k].privilege.value else accesses[k].role.value
  {
    if k > 0 {
      assert !Names(accesses[0], op);
      FirstNamed(accesses[1..], op, default, k - 1);
    }
  }

  /** What the XML says about an element. */
  function PrivilegeOf(t: Table, e: Element): string {
    ReadPrivilege(e.accesses, t.op, t.default)
  }

  /** A row of a table; the names that only go into comments are left out. */
  datatype Row = Row(cluster: string, id: string, privilege: string)

  predicate ValidElements(es: seq<Element>) {
    forall j | 0 <= j < |es| :: ValidId(es[j].code)
  }

  predicate Valid(clusters: seq<Cluster>) {
    forall i | 0 <= i < |clusters| :: ValidId(clusters[i].code) && ValidElements(clusters[i].elements)
  }

  /** The element gets a row of its own. */
  predicate Listed(t: Table, e: Element) {
    e.tag == t.tag && PrivilegeOf(t, e) != t.default
  }

  function RowFor(t: Table, code: string, e: Element): Row
    requires ValidId(code) && ValidId(e.code)
  {
    Row(FormatId(code), FormatId(e.code), PrivilegeOf(t, e))
  }

  function RowsIn(t: Table, code: string, es: seq<Element>): seq<Row>
    requires ValidId(code) && ValidElements(es)
  {
    if es == [] then []
    else
      var n := |es| - 1;
      RowsIn(t, code, es[..n]) + if Listed(t, es[n]) then [RowFor(t, code, es[n])] else []
  }

  /** The rows of one table, in the order of the XML: the elements whose privilege is not the default. */
  function RowsOf(t: Table, clusters: seq<Cluster>): seq<Row>
    requires Valid(clusters)
  {
    if clusters == [] then []
    else
      var n := |clusters| - 1;
      RowsOf(t, clusters[..n]) + RowsIn(t, clusters[n].code, clusters[n].elements)
  }

  lemma RowsInStep(t: Table, code: string, es: seq<Element>, j: nat)
    requires ValidId(code) && ValidElements(es) && j < |es|
    ensures RowsIn(t, code, es[..j + 1])
         == RowsIn(t, code, es[..j]) + if Listed(t, es[j]) then [RowFor(t, code, es[j])] else []
  {
    assert es[..j + 1][..j] == es[..j];
  }

  lemma RowsOfStep(t: Table, clusters: seq<Cluster>, i: nat)
    requires Valid(clusters) && i < |clusters|
    ensures RowsOf(t, clusters[..i + 1])
         == RowsOf(t, clusters[..i]) + RowsIn(t, clusters[i].code, clusters[i].elements)
  {
    assert clusters[..i + 1][..i] == clusters[..i];
  }

  /** The loops of `get_privileges` for one table. */
  method CollectRows(t: Table, clusters: seq<Cluster>) returns (rows: seq<Row>)
    requires Valid(clusters)
    ensures rows == RowsOf(t, clusters)
  {
    rows := [];
    for i := 0 to |clusters|
      invariant rows == RowsOf(t, clusters[..i])
    {
      var code, es := clusters[i].code, clusters[i].elements;
      ghost var before := rows;
      for j := 0 to |es|
        invariant rows == before + RowsIn(t, code, es[..j])
      {
        RowsInStep(t, code, es, j);
        if Listed(t, es[j]) {
          rows := rows + [RowFor(t, code, es[j])];
        }
      }
      assert es[..|es|] == es;
      RowsOfStep(t, clusters, i);
    }
    assert clusters[..|clusters|] == clusters;
  }

  /** Every row comes from an element that is not at the default. */
  lemma {:induction false} RowInSource(t: Table, code: string, es: seq<Element>, r: Row) returns (j: nat)
    requires ValidId(code) && ValidElements(es) && r in RowsIn(t, code, es)
    ensures j < |es| && Listed(t, es[j]) && r == RowFor(t, code, es[j])
  {
    var n := |es| - 1;
    if r in RowsIn(t, code, es[..n]) { j := RowInSource(t, code, es[..n], r); } else { j := n; }
  }

  lemma {:induction false} RowSource(t: Table, clusters: seq<Cluster>, r: Row) returns (i: nat, j: nat)
    requires Valid(clusters) && r in RowsOf(t, clusters)
    ensures i < |clusters| && j < |clusters[i].elements|
    ensures Listed(t, clusters[i].elements[j]) && r == RowFor(t, clusters[i].code, clusters[i].elements[j])
  {
    var n := |clusters| - 1;
    if r in RowsOf(t, clusters[..n]) {
      i, j := RowSource(t, clusters[..n], r);
    } else {
      i := n;
      j := RowInSource(t, clusters[n].code, clusters[n].elements, r);
    }
  }

  /** Every element that is not at the default has its row. */
  lemma {:induction false} RowInPresent(t: Table, code: string, es: seq<Element>, j: nat)
    requires ValidId(code) && ValidElements(es) && j < |es| && Listed(t, es[j])
    ensures RowFor(t, code, es[j]) in RowsIn(t, code, es)
  {
    if j < |es| - 1 { RowInPresent(t, code, es[..|es| - 1], j); }
  }

  lemma {:induction false} RowPresent(t: Table, clusters: seq<Cluster>, i: nat, j: nat)
    requires Valid(clusters) && i < |clusters| && j < |clusters[i].elements| && Listed(t, clusters[i].elements[j])
    ensures RowFor(t, clusters[i].code, clusters[i].elements[j]) in RowsOf(t, clusters)
  {
    if i < |clusters| - 1 {
      RowPresent(t, clusters[..|clusters| - 1], i, j);
    } else {
      RowInPresent(t, clusters[i].code, clusters[i].elements, j);
    }
  }

  // ----- looking up -----

  /** The lookup in the provider over the three parallel arrays: the first match, or the default. The
      ghost result is the position of the match. */
  method Lookup(clusters: seq<int>, ids: seq<int>, privileges: seq<string>, default: string, cluster: int, id: int)
    returns (p: string, ghost k: nat)
    requires |clusters| == |ids| == |privileges|
    ensures k <= |ids| && forall i | 0 <= i < k :: !(clusters[i] == cluster && ids[i] == id)
    ensures p == if k < |ids| then privileges[k] else default
    ensures k < |ids| ==> clusters[k] == cluster && ids[k] == id
    ensures p in privileges || p == default
    ensures (forall i | 0 <= i < |ids| :: !(clusters[i] == cluster && ids[i] == id)) ==> p == default
  {
    for i := 0 to |ids|
      invariant forall j | 0 <= j < i :: !(clusters[j] == cluster && ids[j] == id)
    {
      if clusters[i] == cluster && ids[i] == id {
        return privileges[i], i;
      }
    }
    return default, |ids|;
  }

  /** The parallel arrays that the compiler makes of a table. */
  function ClusterColumn(rows: seq<Row>): seq<int> {
    seq(|rows|, i requires 0 <= i < |rows| => IdNumber(rows[i].cluster))
  }

  function IdColumn(rows: seq<Row>): seq<int> {
    seq(|rows|, i requires 0 <= i < |rows| => IdNumber(rows[i].id))
  }

  function PrivilegeColumn(rows: seq<Row>): seq<string> {
    seq(|rows|, i requires 0 <= i < |rows| => rows[i].privilege)
  }

  /** The element at position (i, j) has this tag, cluster and element id. */
  ghost predicate At(clusters: seq<Cluster>, tag: Tag, i: nat, j: nat, cluster: int, id: int) {
    && i < |clusters| && j < |clusters[i].elements| && clusters[i].elements[j].tag == tag
    && IdNumber(clusters[i].code) == cluster && IdNumber(clusters[i].elements[j].code) == id
  }

  /** The element at position (i, j) belongs to the table and has this cluster and element id. */
  ghost predicate Matches(t: Table, clusters: seq<Cluster>, i: nat, j: nat, cluster: int, id: int) {
    At(clusters, t.tag, i, j, cluster, id)
  }

  /** No two elements of the table share cluster and element id. */
  ghost predicate UniqueIds(t: Table, clusters: seq<Cluster>) {
    forall i: nat, j: nat, i': nat, j': nat, cluster, id
      {:trigger Matches(t, clusters, i, j, cluster, id), Matches(t, clusters, i', j', cluster, id)} |
      Matches(t, clusters, i, j, cluster, id) && Matches(t, clusters, i', j', cluster, id) :: i == i' && j == j'
  }

  /** The privilege that the XML gives to a cluster and element id: that of the element, or the default
      if there is none. */
  ghost predicate XmlSays(t: Table, clusters: seq<Cluster>, cluster: int, id: int, p: string) {
    && (forall i: nat, j: nat | Matches(t, clusters, i, j, cluster, id) :: p == PrivilegeOf(t, clusters[i].elements[j]))
    && ((forall i: nat, j: nat :: !Matches(t, clusters, i, j, cluster, id)) ==> p == t.default)
  }

  /** The table is a reordering of the collected rows, as `list.sort` leaves it. */
  ghost predicate Reordered(rows: seq<Row>, table: seq<Row>) {
    multiset(table) == multiset(rows)
  }

  /** Access `k` is the first that names a privilege for the operation; past the end if none does. */
  ghost predicate FirstNaming(accesses: seq<Access>, op: string, k: nat) {
    && k <= |accesses| && (forall i | 0 <= i < k :: !Names(accesses[i], op))
    && (k < |accesses| ==> Names(accesses[k], op))
  }

  /** The XML asks for `p`: it is the privilege, or else the role, of the first access for the operation that names
      one, and the default if there is none, or no such element. */
  ghost predicate Asks(
    clusters: seq<Cluster>, tag: Tag, op: string, default: string, cluster: int, id: int, p: string)
  {
    && (forall i: nat, j: nat | At(clusters, tag, i, j, cluster, id) ::
          exists k :: FirstNaming(clusters[i].elements[j].accesses, op, k) &&
                      p == NamedBy(clusters[i].elements[j].accesses, k, default))
    && ((forall i: nat, j: nat :: !At(clusters, tag, i, j, cluster, id)) ==> p == default)
  }

  function NamedBy(accesses: seq<Access>, k: nat, default: string): string {
    if k < |accesses| && accesses[k].privilege.Some? then accesses[k].privilege.value
    else if k < |accesses| && accesses[k].role.Some? then accesses[k].role.value
    else default
  }

  lemma {:induction false} FirstNamingExists(accesses: seq<Access>, op: string) returns (k: nat)
    ensures FirstNaming(accesses, op, k)
  {
    if accesses == [] || Names(accesses[0], op) {
      k := 0;
    } else {
      k := FirstNamingExists(accesses[1..], op);
      k := k + 1;
    }
  }

  lemma SaysAsks(t: Table, clusters: seq<Cluster>, cluster: int, id: int, p: string)
    requires XmlSays(t, clusters, cluster, id, p)
    ensures Asks(clusters, t.tag, t.op, t.default, cluster, id, p)
  {
    forall i: nat, j: nat | At(clusters, t.tag, i, j, cluster, id)
      ensures exists k :: FirstNaming(clusters[i].elements[j].accesses, t.op, k) &&
                          p == NamedBy(clusters[i].elements[j].accesses, k, t.default)
    {
      assert Matches(t, clusters, i, j, cluster, id);
      var accesses := clusters[i].elements[j].accesses;
      var k := FirstNamingExists(accesses, t.op);
      FirstNamed(accesses, t.op, t.default, k);
    }
    if forall i: nat, j: nat :: !At(clusters, t.tag, i, j, cluster, id) {
      assert forall i: nat, j: nat | Matches(t, clusters, i, j, cluster, id) ::
        At(clusters, t.tag, i, j, cluster, id);
    }
  }

  /** A lookup in the generated table, however its rows are ordered, agrees with the XML: the default of the
      lookup is the one that the generator leaves out. */
  method LookupGenerated(i: Interaction, clusters: seq<Cluster>, table: seq<Row>, cluster: int, id: int)
    returns (p: string)
    requires Valid(clusters) && UniqueIds(TableFor(i), clusters) && Reordered(RowsOf(TableFor(i), clusters), table)
    ensures XmlSays(TableFor(i), clusters, cluster, id, p)
    ensures match i
            case ReadAttribute => Asks(clusters, ATTRIBUTE, "read", "view", cluster, id, p)
            case WriteAttribute => Asks(clusters, ATTRIBUTE, "write", "operate", cluster, id, p)
            case InvokeCommand => Asks(clusters, COMMAND, "invoke", "operate", cluster, id, p)
            case ReadEvent => Asks(clusters, EVENT, "read", "view", cluster, id, p)
  {
    ghost var k;
    ghost var t := TableFor(i);
    p, k := Lookup(ClusterColumn(table), IdColumn(table), PrivilegeColumn(table), LookupDefault(i), cluster, id);
    SameRows(RowsOf(t, clusters), table);
    if k < |table| {
      FoundAgrees(t, clusters, table, k, cluster, id);
    } else {
      forall j | 0 <= j < |table|
        ensures !(IdNumber(table[j].cluster) == cluster && IdNumber(table[j].id) == id)
      {
        assert !(ClusterColumn(table)[j] == cluster && IdColumn(table)[j] == id);
      }
      NotFoundAgrees(t, clusters, table, cluster, id);
    }
    SaysAsks(t, clusters, cluster, id, p);
  }

  lemma SameRows(rows: seq<Row>, table: seq<Row>)
    requires Reordered(rows, table)
    ensures forall r :: r in table <==> r in rows
  {
    forall r ensures r in table <==> r in rows {
      assert r in table <==> r in multiset(table);
      assert r in rows <==> r in multiset(rows);
    }
  }

  lemma FoundAgrees(t: Table, clusters: seq<Cluster>, table: seq<Row>, k: nat, cluster: int, id: int)
    requires Valid(clusters) && UniqueIds(t, clusters) && k < |table| && table[k] in RowsOf(t, clusters)
    requires IdNumber(table[k].cluster) == cluster && IdNumber(table[k].id) == id
    ensures XmlSays(t, clusters, cluster, id, table[k].privilege)
  {
    var i, j := RowSource(t, clusters, table[k]);
    FormatKeepsNumber(clusters[i].code);
    FormatKeepsNumber(clusters[i].elements[j].code);
    assert Matches(t, clusters, i, j, cluster, id);
  }

  lemma NotFoundAgrees(t: Table, clusters: seq<Cluster>, table: seq<Row>, cluster: int, id: int)
    requires Valid(clusters) && forall r :: r in table <==> r in RowsOf(t, clusters)
    requires forall k | 0 <= k < |table| :: !(IdNumber(table[k].cluster) == cluster && IdNumber(table[k].id) == id)
    ensures XmlSays(t, clusters, cluster, id, t.default)
  {
    forall i: nat, j: nat | Matches(t, clusters, i, j, cluster, id)
      ensures PrivilegeOf(t, clusters[i].elements[j]) == t.default
    {
      FormatKeepsNumber(clusters[i].code);
      FormatKeepsNumber(clusters[i].elements[j].code);
      if Listed(t, clusters[i].elements[j]) { RowPresent(t, clusters, i, j); }
    }
  }
}
