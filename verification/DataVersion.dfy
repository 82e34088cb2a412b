/** A cluster with its data version: local updates and reports, and the writes that arrive through the
    data model provider. */
module DataVersion {
  import opened Basics
  import opened AttributeValues
  import opened AttributeStore

  /** The version is an unsigned 32-bit counter. */
  const MODULUS: nat := 0x1_0000_0000

  datatype Cluster = Cluster(version: nat, attributes: map<nat, Attr>)

  datatype Status =
    | Success | Failure | UnsupportedAttribute | DataVersionMismatch | DecodeError | BufferError
    | Delegated(ok: bool)

  /** What the cluster's pre-change callbacks answer on the ember path. */
  datatype PreChange = Proceed | Ignore | Deny

  /** A write request, with the answers of everything outside the data model: the decoded value, the
      application's callbacks, the registry and the access interface, and the value that comes out of
      the byte buffer. */
  datatype Write = Write(
    attribute: nat, expected: Option<nat>, decoded: Option<AttrVal>, preUpdate: bool,
    registry: Option<bool>, accessInterface: Option<bool>, bufferOk: bool, preChange: PreChange,
    arrives: AttrVal, cb: Callback)

  function Bump(c: Cluster): Cluster {
    c.(version := (c.version + 1) % MODULUS)
  }

  /** `attribute::set_val` for an attribute of the data model. */
  function SetIn(c: Cluster, id: nat, v: AttrVal, cb: Callback): (Cluster, Err)
    requires id in c.attributes
  {
    if v.kind.base == INVALID then (c, ESP_ERR_INVALID_ARG)
    else if v.kind.base == ARRAY then (c, ESP_ERR_NOT_SUPPORTED)
    else if v.kind != c.attributes[id].kind then (c, ESP_ERR_INVALID_ARG)
    else
      var (a, err) := SetVal(c.attributes[id], v, cb);
      (c.(attributes := c.attributes[id := a]), err)
  }

  /** `update` and `report`: an unchanged value is no error and no new version. */
  function UpdateOrReport(c: Cluster, id: nat, v: AttrVal, cb: Callback): (Cluster, Err) {
    if id !in c.attributes then (c, ESP_ERR_INVALID_ARG)
    else
      var (c', err) := SetIn(c, id, v, cb);
      if err == ESP_OK then (Bump(c'), ESP_OK)
      else if err == ESP_ERR_NOT_FINISHED then (c', ESP_OK)
      else (c', err)
  }

  /** `emberAfWriteAttribute`. */
  function EmberWrite(c: Cluster, w: Write): (Cluster, Status)
    requires w.attribute in c.attributes
  {
    match w.preChange
    case Deny => (c, Failure)
    case Ignore => (c, Success)
    case Proceed =>
      var (a, err) := SetVal(c.attributes[w.attribute], w.arrives, w.cb);
      (c.(attributes := c.attributes[w.attribute := a]),
       if err == ESP_OK || err == ESP_ERR_NOT_FINISHED then Success else Failure)
  }

  /** `provider::WriteAttribute`. */
  function WriteAttribute(c: Cluster, w: Write): (Cluster, Status) {
    if w.attribute !in c.attributes then (c, UnsupportedAttribute)
    else if w.decoded.Some? && !w.preUpdate then (c, Failure)
    else if w.registry.Some? then (c, Delegated(w.registry.value))
    else if w.expected.Some? && c.version != w.expected.value then (c, DataVersionMismatch)
    else if w.accessInterface.Some? then
      (if w.accessInterface.value then Bump(c) else c, Delegated(w.accessInterface.value))
    else if c.attributes[w.attribute].flags.internal then (c, Failure)
    else if w.decoded.None? then (c, DecodeError)
    else if !w.bufferOk then (c, BufferError)
    else
      var (c', status) := EmberWrite(c, w);
      if status != Success then (c', status) else (Bump(c'), Success)
  }

  /** `Update` is `update` and `report`, `Request` a write through the provider, `Fire` the persistence timer. The
      others do not concern the version: `Ember` is `emberAfWriteAttribute` called by cluster code, `Assign` is
      `attribute::set_val`, and `Bound` is `add_bounds`. */
  datatype Event =
    | Update(id: nat, v: AttrVal, cb: Callback)
    | Request(w: Write)
    | Fire(id: nat)
    | Ember(w: Write)
    | Assign(id: nat, v: AttrVal, cb: Callback)
    | Bound(id: nat, min: AttrVal, max: AttrVal)

  function Step(c: Cluster, ev: Event): Cluster {
    match ev
    case Update(id, v, cb) => UpdateOrReport(c, id, v, cb).0
    case Request(w) => WriteAttribute(c, w).0
    case Fire(id) =>
      if id in c.attributes && c.attributes[id].timer then
        c.(attributes := c.attributes[id := TimerFires(c.attributes[id])])
      else c
    case Ember(w) => if w.attribute in c.attributes then EmberWrite(c, w).0 else c
    case Assign(id, v, cb) => if id in c.attributes then SetIn(c, id, v, cb).0 else c
    case Bound(id, min, max) =>
      if id in c.attributes then c.(attributes := c.attributes[id := AddBounds(c.attributes[id], min, max).0]) else c
  }

  /** The event advances the version. */
  predicate Bumps(c: Cluster, ev: Event) {
    match ev
    case Update(id, v, cb) => id in c.attributes && SetIn(c, id, v, cb).1 == ESP_OK
    case Request(w) =>
      && w.registry.None?
      && (WriteAttribute(c, w).1 == Success || WriteAttribute(c, w).1 == Delegated(true))
    case _ => false
  }

  /** The value can be set and is not what is there. */
  predicate Replaces(a: Attr, v: AttrVal, cb: Callback) {
    SetVal(a, v, cb).1 == ESP_OK && Assigned(a, v) != a.val
  }

  /** The bounds are accepted and the value is outside them. */
  predicate Moves(a: Attr, min: AttrVal, max: AttrVal) {
    && !a.flags.internal && a.kind == min.kind && a.kind == max.kind
    && var order := CompareWithBounds(Current(a), Bounds(min.val, max.val));
    order == Below || order == Above
  }

  /** The event changes a value behind the version's back. */
  predicate Slips(c: Cluster, ev: Event) {
    match ev
    case Ember(w) => w.attribute in c.attributes && w.preChange == Proceed &&
      Replaces(c.attributes[w.attribute], w.arrives, w.cb)
    case Assign(id, v, cb) => id in c.attributes && v.kind.base != INVALID && v.kind.base != ARRAY &&
      Replaces(c.attributes[id], v, cb)
    case Bound(id, min, max) => id in c.attributes && Moves(c.attributes[id], min, max)
    case _ => false
  }

  // ----- every answer with its states -----

  /** The attribute takes the value: it is admitted, and already there or neither refused nor too long. */
  predicate Takes(a: Attr, v: AttrVal, cb: Callback) {
    !a.flags.internal && Admissible(a, v) && (Unchanged(a, v) || (cb != Refuses && !Oversized(a, v)))
  }

  lemma TakesIff(a: Attr, v: AttrVal, cb: Callback)
    requires WellFormed(v) && WellFormed(Current(a))
    ensures SetVal(a, v, cb).1 == ESP_OK || SetVal(a, v, cb).1 == ESP_ERR_NOT_FINISHED <==> Takes(a, v, cb)
    ensures SetVal(a, v, cb).1 == ESP_OK <==> Takes(a, v, cb) && !Unchanged(a, v)
    ensures SetVal(a, v, cb).1 != ESP_OK ==> SetVal(a, v, cb).0 == a
  {
    if !a.flags.internal { SetOutcome(a, v, cb); }
  }

  /** The attribute is there, the application lets the write through, and no registered cluster takes it. */
  predicate Reaches(c: Cluster, w: Write) {
    w.attribute in c.attributes && (w.decoded.Some? ==> w.preUpdate) && w.registry.None?
  }

  /** A request that carries a version carries the current one. */
  predicate VersionOk(c: Cluster, w: Write) {
    w.expected.Some? ==> w.expected.value == c.version
  }

  /** The write comes to the ember path of an attribute of the data model. */
  predicate ReachesEmber(c: Cluster, w: Write) {
    Reaches(c, w) && VersionOk(c, w) && w.accessInterface.None? && !c.attributes[w.attribute].flags.internal
  }

  /** The pre-change callbacks ignore the write, or let it proceed and the attribute takes the value. */
  predicate Lands(a: Attr, w: Write) {
    w.preChange == Ignore || (w.preChange == Proceed && Takes(a, w.arrives, w.cb))
  }

  lemma EmberStatus(c: Cluster, w: Write)
    requires w.attribute in c.attributes && WellFormed(w.arrives) && WellFormed(Current(c.attributes[w.attribute]))
    ensures EmberWrite(c, w).1 == if Lands(c.attributes[w.attribute], w) then Success else Failure
    ensures EmberWrite(c, w).1 != Success ==> EmberWrite(c, w).0 == c
  {
    var a := c.attributes[w.attribute];
    TakesIff(a, w.arrives, w.cb);
    assert c.attributes[w.attribute := a] == c.attributes;
  }

  /** The answers of `provider::WriteAttribute`, each with exactly the requests and states that it is given for. */
  lemma WriteStatus(c: Cluster, w: Write)
    requires WellFormed(w.arrives)
    requires w.attribute in c.attributes ==> WellFormed(Current(c.attributes[w.attribute]))
    ensures var status := WriteAttribute(c, w).1;
            && (status == UnsupportedAttribute <==> w.attribute !in c.attributes)
            && (status == DataVersionMismatch <==> Reaches(c, w) && !VersionOk(c, w))
            && (forall ok :: status == Delegated(ok) <==>
                  || (w.attribute in c.attributes && (w.decoded.Some? ==> w.preUpdate) && w.registry == Some(ok))
                  || (Reaches(c, w) && VersionOk(c, w) && w.accessInterface == Some(ok)))
            && (status == DecodeError <==> ReachesEmber(c, w) && w.decoded.None?)
            && (status == BufferError <==> ReachesEmber(c, w) && w.decoded.Some? && !w.bufferOk)
            && (status == Success <==>
                  ReachesEmber(c, w) && w.decoded.Some? && w.bufferOk && Lands(c.attributes[w.attribute], w))
  {
    if w.attribute in c.attributes { EmberStatus(c, w); }
  }

  /** Its effects: a write that succeeds moves the version by one, changes no other attribute, and leaves this one
      meaning what arrived, unless the write was ignored or was an empty string. One that an access interface
      takes moves the version only. Every other write changes nothing. */
  lemma WriteEffect(c: Cluster, w: Write)
    requires WellFormed(w.arrives)
    requires w.attribute in c.attributes ==> WellFormed(Current(c.attributes[w.attribute]))
    ensures var (c', status) := WriteAttribute(c, w);
            if status == Success then
              && w.attribute in c.attributes && c'.version == (c.version + 1) % MODULUS
              && c'.attributes.Keys == c.attributes.Keys
              && (forall id | id in c.attributes && id != w.attribute :: c'.attributes[id] == c.attributes[id])
              && (w.preChange == Ignore ==> c'.attributes == c.attributes)
              && (w.preChange == Proceed && !(IsString(w.arrives.kind.base) && w.arrives.val.s == 0) ==>
                    MeaningOf(Current(c'.attributes[w.attribute])) == MeaningOf(w.arrives))
            else if status == Delegated(true) && w.registry.None? then
              c' == c.(version := (c.version + 1) % MODULUS)
            else c' == c
  {
    if w.attribute in c.attributes {
      EmberStatus(c, w);
      EmberEffect(c, w);
    }
  }

  lemma EmberEffect(c: Cluster, w: Write)
    requires w.attribute in c.attributes && WellFormed(w.arrives) && WellFormed(Current(c.attributes[w.attribute]))
    ensures var (c', status) := EmberWrite(c, w);
            && c'.version == c.version && c'.attributes.Keys == c.attributes.Keys
            && (forall id | id in c.attributes && id != w.attribute :: c'.attributes[id] == c.attributes[id])
            && (w.preChange == Ignore ==> c' == c)
            && (status == Success && w.preChange == Proceed && !(IsString(w.arrives.kind.base) && w.arrives.val.s == 0)
                ==> MeaningOf(Current(c'.attributes[w.attribute])) == MeaningOf(w.arrives))
  {
    var a := c.attributes[w.attribute];
    TakesIff(a, w.arrives, w.cb);
    if SetVal(a, w.arrives, w.cb).1 == ESP_OK { SetThenGet(a, w.arrives, w.cb); }
  }

  /** The value is an array, or the attribute is managed by its cluster and of the type of the value. */
  predicate Elsewhere(a: Attr, v: AttrVal) {
    v.kind.base == ARRAY || (a.flags.internal && v.kind == a.kind)
  }

  /** The answers of `update` and `report`: no error exactly for an attribute that takes the value, a new version
      exactly if the value changes, and no other attribute is touched. */
  lemma UpdateStatus(c: Cluster, id: nat, v: AttrVal, cb: Callback)
    requires WellFormed(v) && (id in c.attributes ==> WellFormed(Current(c.attributes[id])))
    ensures var (c', err) := UpdateOrReport(c, id, v, cb);
            && (err == ESP_OK <==> id in c.attributes && v.kind.base != ARRAY && Takes(c.attributes[id], v, cb))
            && (err == ESP_ERR_NOT_SUPPORTED <==> id in c.attributes && Elsewhere(c.attributes[id], v))
            && (err == ESP_ERR_INVALID_ARG <==>
                  id !in c.attributes || (!Elsewhere(c.attributes[id], v) && !Admissible(c.attributes[id], v)))
            && c'.version == (if err == ESP_OK && !Unchanged(c.attributes[id], v) then (c.version + 1) % MODULUS
                              else c.version)
            && c'.attributes.Keys == c.attributes.Keys
            && (forall i | i in c.attributes && i != id :: c'.attributes[i] == c.attributes[i])
            && (err != ESP_OK ==> c' == c)
  {
    if id in c.attributes {
      TakesIff(c.attributes[id], v, cb);
      assert c.attributes[id := c.attributes[id]] == c.attributes;
    }
  }

  /** An update that reports no error leaves the attribute meaning what was asked for, changed or not. */
  lemma UpdateEstablishes(c: Cluster, id: nat, v: AttrVal, cb: Callback)
    requires id in c.attributes && WellFormed(v) && WellFormed(Current(c.attributes[id]))
    ensures id in UpdateOrReport(c, id, v, cb).0.attributes
    ensures UpdateOrReport(c, id, v, cb).1 == ESP_OK && !(IsString(v.kind.base) && v.val.s == 0) ==>
      MeaningOf(Current(UpdateOrReport(c, id, v, cb).0.attributes[id])) == MeaningOf(v)
  {
    if SetVal(c.attributes[id], v, cb).1 == ESP_OK {
      SetThenGet(c.attributes[id], v, cb);
    } else {
      CompareDecidesMeaning(v, Current(c.attributes[id]));
    }
  }

  /** The values that the attributes hold. */
  function Values(c: Cluster): map<nat, Val> {
    map id | id in c.attributes :: c.attributes[id].val
  }

  lemma SetValues(c: Cluster, id: nat, a: Attr)
    requires id in c.attributes
    ensures Values(c.(attributes := c.attributes[id := a])) == Values(c)[id := a.val]
    ensures Values(c.(attributes := c.attributes[id := a])) == Values(c) <==> a.val == c.attributes[id].val
  {
    var c' := c.(attributes := c.attributes[id := a]);
    assert Values(c')[id] == a.val && Values(c)[id] == c.attributes[id].val;
  }

  lemma SetReplaces(a: Attr, v: AttrVal, cb: Callback)
    ensures SetVal(a, v, cb).0.val != a.val <==> Replaces(a, v, cb)
  {
  }

  lemma BoundMoves(a: Attr, min: AttrVal, max: AttrVal)
    ensures AddBounds(a, min, max).0.val != a.val <==> Moves(a, min, max)
  {
  }

  lemma UpdateBumps(c: Cluster, id: nat, v: AttrVal, cb: Callback)
    ensures var c' := UpdateOrReport(c, id, v, cb).0;
            if id in c.attributes && SetIn(c, id, v, cb).1 == ESP_OK then c'.version == (c.version + 1) % MODULUS
            else c'.version == c.version && Values(c') == Values(c)
  {
    if id in c.attributes { SetValues(c, id, SetVal(c.attributes[id], v, cb).0); }
  }

  lemma EmberKeeps(c: Cluster, w: Write)
    requires w.attribute in c.attributes
    ensures var (c', status) := EmberWrite(c, w);
            && c'.version == c.version && (status != Success ==> Values(c') == Values(c))
            && (Values(c') == Values(c) <==> !Slips(c, Ember(w)))
  {
    SetReplaces(c.attributes[w.attribute], w.arrives, w.cb);
    SetValues(c, w.attribute, SetVal(c.attributes[w.attribute], w.arrives, w.cb).0);
  }

  lemma RequestBumps(c: Cluster, w: Write)
    ensures var (c', status) := WriteAttribute(c, w);
            if w.registry.None? && (status == Success || status == Delegated(true)) then
              c'.version == (c.version + 1) % MODULUS
            else c'.version == c.version && Values(c') == Values(c)
  {
    if w.attribute in c.attributes { EmberKeeps(c, w); }
  }

  lemma AssignKeeps(c: Cluster, id: nat, v: AttrVal, cb: Callback)
    requires id in c.attributes
    ensures var c' := SetIn(c, id, v, cb).0;
            && c'.version == c.version
            && (Values(c') == Values(c) <==> !Slips(c, Assign(id, v, cb)))
  {
    SetReplaces(c.attributes[id], v, cb);
    SetValues(c, id, SetVal(c.attributes[id], v, cb).0);
  }

  lemma BoundKeeps(c: Cluster, id: nat, min: AttrVal, max: AttrVal)
    requires id in c.attributes
    ensures var c' := c.(attributes := c.attributes[id := AddBounds(c.attributes[id], min, max).0]);
            Values(c') == Values(c) <==> !Moves(c.attributes[id], min, max)
  {
    BoundMoves(c.attributes[id], min, max);
    SetValues(c, id, AddBounds(c.attributes[id], min, max).0);
  }

  /** A step advances the version by one or leaves it. If it leaves it, a value changes exactly if it slips. */
  lemma StepBumps(c: Cluster, ev: Event)
    requires c.version < MODULUS
    ensures Step(c, ev).version == if Bumps(c, ev) then (c.version + 1) % MODULUS else c.version
    ensures !Bumps(c, ev) ==> (Values(Step(c, ev)) == Values(c) <==> !Slips(c, ev))
    ensures Slips(c, ev) ==> !Bumps(c, ev)
  {
    match ev
    case Update(id, v, cb) => UpdateBumps(c, id, v, cb);
    case Request(w) => RequestBumps(c, w);
    case Fire(id) => if id in c.attributes { SetValues(c, id, TimerFires(c.attributes[id])); }
    case Ember(w) => if w.attribute in c.attributes { EmberKeeps(c, w); }
    case Assign(id, v, cb) => if id in c.attributes { AssignKeeps(c, id, v, cb); }
    case Bound(id, min, max) => if id in c.attributes { BoundKeeps(c, id, min, max); }
  }

  /** `attribute::set_val` of another number, at the same version. */
  lemma AssignSlips()
    ensures var k := Kind(UINT8, false);
            var a := Attr(k, Flags(false, false, false), None, Num(0), 0, false, None);
            var c := Cluster(7, map[1 := a]);
            var c' := Step(c, Assign(1, AttrVal(k, Num(5)), Accepts));
            c'.version == c.version && Values(c')[1] == Num(5) && Values(c)[1] == Num(0)
  {
  }

  // ----- counting -----

  /** How many flags are set from `i` up to `j`. */
  ghost function Count(flags: seq<bool>, i: nat, j: nat): nat
    requires i <= j <= |flags|
    decreases j
  {
    if i == j then 0 else Count(flags, i, j - 1) + if flags[j - 1] then 1 else 0
  }

  /** A counter modulo 2^32 that moves when the flag is set. */
  ghost predicate Counts(versions: seq<nat>, flags: seq<bool>) {
    && |versions| == |flags| + 1 && (forall k | 0 <= k < |versions| :: versions[k] < MODULUS)
    && forall k, k' | 0 <= k < |flags| && k' == k + 1 ::
         versions[k'] == if flags[k] then (versions[k] + 1) % MODULUS else versions[k]
  }

  lemma AddOne(v: nat, n: nat)
    ensures ((v + n) % MODULUS + 1) % MODULUS == (v + (n + 1)) % MODULUS
  {
  }

  lemma {:induction false} VersionCounts(versions: seq<nat>, flags: seq<bool>, i: nat, j: nat)
    requires Counts(versions, flags) && i <= j <= |flags|
    ensures versions[j] == (versions[i] + Count(flags, i, j)) % MODULUS
    decreases j
  {
    if i < j {
      VersionCounts(versions, flags, i, j - 1);
      AddOne(versions[i], Count(flags, i, j - 1));
    }
  }

  lemma WrapFree(v: nat, n: nat)
    requires v < MODULUS && n < MODULUS && (v + n) % MODULUS == v
    ensures n == 0
  {
  }

  lemma {:induction false} NoneFlagged(flags: seq<bool>, i: nat, j: nat)
    requires i <= j <= |flags| && Count(flags, i, j) == 0
    ensures forall k | i <= k < j :: !flags[k]
    decreases j
  {
    if i < j { NoneFlagged(flags, i, j - 1); }
  }

  lemma {:induction false} CountFrom(flags: seq<bool>, i: nat, j: nat)
    requires i < j <= |flags|
    ensures Count(flags, i, j) == (if flags[i] then 1 else 0) + Count(flags, i + 1, j)
    decreases j
  {
    if i + 1 < j { CountFrom(flags, i, j - 1); }
  }

  // ----- runs -----

  ghost predicate Run(cs: seq<Cluster>, evs: seq<Event>) {
    && |cs| == |evs| + 1 && cs[0].version < MODULUS
    && forall k | 0 <= k < |evs| :: StepAt(cs, evs, k)
  }

  ghost predicate StepAt(cs: seq<Cluster>, evs: seq<Event>, k: nat)
    requires |cs| == |evs| + 1 && k < |evs|
  {
    cs[k + 1] == Step(cs[k], evs[k])
  }

  /** Which steps of a run advance the version. */
  ghost function Moved(cs: seq<Cluster>, evs: seq<Event>): seq<bool>
    requires |cs| == |evs| + 1
  {
    seq(|evs|, k requires 0 <= k < |evs| => Bumps(cs[k], evs[k]))
  }

  ghost function Versions(cs: seq<Cluster>): seq<nat> {
    seq(|cs|, k requires 0 <= k < |cs| => cs[k].version)
  }

  lemma {:induction false} VersionInRange(cs: seq<Cluster>, evs: seq<Event>, k: nat)
    requires Run(cs, evs) && k <= |evs|
    ensures cs[k].version < MODULUS
  {
    if k > 0 {
      VersionInRange(cs, evs, k - 1);
      assert StepAt(cs, evs, k - 1);
      StepBumps(cs[k - 1], evs[k - 1]);
    }
  }

  lemma StepCounts(cs: seq<Cluster>, evs: seq<Event>, k: nat)
    requires Run(cs, evs) && k < |evs|
    ensures cs[k + 1].version == if Bumps(cs[k], evs[k]) then (cs[k].version + 1) % MODULUS else cs[k].version
    ensures !Bumps(cs[k], evs[k]) ==> (Values(cs[k + 1]) == Values(cs[k]) <==> !Slips(cs[k], evs[k]))
  {
    VersionInRange(cs, evs, k);
    assert StepAt(cs, evs, k);
    StepBumps(cs[k], evs[k]);
  }

  lemma RunCounts(cs: seq<Cluster>, evs: seq<Event>)
    requires Run(cs, evs)
    ensures Counts(Versions(cs), Moved(cs, evs))
  {
    forall k: nat | k < |cs| ensures cs[k].version < MODULUS { VersionInRange(cs, evs, k); }
    forall k: nat, k' | k < |evs| && k' == k + 1
      ensures Versions(cs)[k'] == if Moved(cs, evs)[k] then (Versions(cs)[k] + 1) % MODULUS else Versions(cs)[k]
    {
      StepCounts(cs, evs, k);
    }
  }

  /** Two moments with the same version have seen no advance between them, short of 2^32. */
  lemma SameVersionNoBump(cs: seq<Cluster>, evs: seq<Event>, i: nat, j: nat)
    requires Run(cs, evs) && i <= j <= |evs| && Count(Moved(cs, evs), i, j) < MODULUS
    requires cs[i].version == cs[j].version
    ensures forall k | i <= k < j :: !Bumps(cs[k], evs[k])
  {
    RunCounts(cs, evs);
    VersionCounts(Versions(cs), Moved(cs, evs), i, j);
    WrapFree(cs[i].version, Count(Moved(cs, evs), i, j));
    NoneFlagged(Moved(cs, evs), i, j);
    assert forall k | i <= k < j :: Moved(cs, evs)[k] == Bumps(cs[k], evs[k]);
  }

  lemma {:induction false} SameValues(cs: seq<Cluster>, evs: seq<Event>, i: nat, j: nat)
    requires Run(cs, evs) && i <= j <= |evs|
    requires forall k | i <= k < j :: !Bumps(cs[k], evs[k]) && !Slips(cs[k], evs[k])
    ensures Values(cs[j]) == Values(cs[i])
    decreases j
  {
    if i < j {
      SameValues(cs, evs, i, j - 1);
      StepCounts(cs, evs, j - 1);
    }
  }

  /** Between two moments with the same version, short of 2^32 advances, the stored values stay the same all the
      time if and only if no event slips. */
  lemma EqualVersionEqualValues(cs: seq<Cluster>, evs: seq<Event>, i: nat, j: nat)
    requires Run(cs, evs) && i <= j <= |evs| && Count(Moved(cs, evs), i, j) < MODULUS
    requires cs[i].version == cs[j].version
    ensures (forall k | i <= k <= j :: Values(cs[k]) == Values(cs[i])) <==>
            (forall k | i <= k < j :: !Slips(cs[k], evs[k]))
  {
    SameVersionNoBump(cs, evs, i, j);
    if forall k | i <= k < j :: !Slips(cs[k], evs[k]) {
      forall k | i <= k <= j ensures Values(cs[k]) == Values(cs[i]) { SameValues(cs, evs, i, k); }
    } else {
      var k :| i <= k < j && Slips(cs[k], evs[k]);
      StepCounts(cs, evs, k);
      assert Values(cs[k + 1]) != Values(cs[k]);
    }
  }

  /** A write through the data model that succeeded under the expected version `e`. */
  ghost predicate Succeeds(c: Cluster, ev: Event, e: nat) {
    ev.Request? && ev.w.registry.None? && ev.w.expected == Some(e) && Bumps(c, ev)
  }

  lemma SucceedsAtVersion(c: Cluster, ev: Event, e: nat)
    requires Succeeds(c, ev, e)
    ensures c.version == e && Bumps(c, ev)
  {
  }

  lemma MovedOn(versions: seq<nat>, flags: seq<bool>, i: nat, j: nat)
    requires Counts(versions, flags) && i < j <= |flags| && flags[i] && Count(flags, i, j) < MODULUS
    ensures versions[j] != versions[i]
  {
    VersionCounts(versions, flags, i, j);
    CountFrom(flags, i, j);
    if versions[j] == versions[i] { WrapFree(versions[i], Count(flags, i, j)); }
  }

  /** Compare and swap: of all writes that carry the same expected version at most one succeeds. */
  lemma AtMostOneSucceeds(cs: seq<Cluster>, evs: seq<Event>, i: nat, j: nat, e: nat)
    requires Run(cs, evs) && i < j < |evs| && Count(Moved(cs, evs), i, j) < MODULUS
    requires Succeeds(cs[i], evs[i], e)
    ensures !Succeeds(cs[j], evs[j], e)
  {
    SucceedsAtVersion(cs[i], evs[i], e);
    RunCounts(cs, evs);
    MovedOn(Versions(cs), Moved(cs, evs), i, j);
    if Succeeds(cs[j], evs[j], e) { SucceedsAtVersion(cs[j], evs[j], e); }
  }

  // ----- the operations as they are written -----

  /** How far version `v` is past `start`. */
  function Offset(start: nat, v: nat): int
    requires start < MODULUS && v < MODULUS
  {
    if v >= start then v - start else v + MODULUS - start
  }

  /** What a server remembers of its past: where the version started, how often it moved, the values it had at
      each version, and the expected versions under which a write succeeded. */
  datatype Past = Past(start: nat, moves: nat, seen: map<nat, map<nat, Val>>, won: set<nat>)

  /** Short of 2^32 moves, each version was seen once, with one set of values, and won at most once. */
  ghost predicate Remembers(p: Past, c: Cluster) {
    && p.start < MODULUS && c.version < MODULUS
    && (p.moves < MODULUS ==>
      && Offset(p.start, c.version) == p.moves
      && (forall v: nat :: v in p.seen <==> v < MODULUS && Offset(p.start, v) <= p.moves)
      && p.seen[c.version] == Values(c)
      && (forall e | e in p.won :: e < MODULUS && Offset(p.start, e) < p.moves))
  }

  ghost predicate Extends(p: Past, p': Past) {
    && p'.start == p.start && p.moves <= p'.moves && p.won <= p'.won
    && (p'.moves < MODULUS ==> forall v | v in p.seen :: v in p'.seen && p'.seen[v] == p.seen[v])
  }

  /** The past after an event. */
  ghost function Later(p: Past, c: Cluster, ev: Event): Past {
    if !Bumps(c, ev) then p
    else
      var c' := Step(c, ev);
      Past(p.start, p.moves + 1, p.seen[c'.version := Values(c')],
           p.won + if ev.Request? && ev.w.expected.Some? then {ev.w.expected.value} else {})
  }

  lemma OffsetMoves(start: nat, v: nat)
    requires start < MODULUS && v < MODULUS && Offset(start, v) + 1 < MODULUS
    ensures Offset(start, (v + 1) % MODULUS) == Offset(start, v) + 1
    ensures forall u: nat | u < MODULUS && u != (v + 1) % MODULUS :: Offset(start, u) != Offset(start, v) + 1
  {
  }

  lemma PastMoves(p: Past, c: Cluster, c': Cluster, extra: set<nat>)
    requires Remembers(p, c) && c'.version == (c.version + 1) % MODULUS && extra <= {c.version}
    ensures var p' := Past(p.start, p.moves + 1, p.seen[c'.version := Values(c')], p.won + extra);
            Remembers(p', c') && Extends(p, p')
  {
    if p.moves + 1 < MODULUS { OffsetMoves(p.start, c.version); }
  }

  lemma StillRemembers(p: Past, c: Cluster, ev: Event)
    requires Remembers(p, c) && !Slips(c, ev)
    ensures Remembers(Later(p, c, ev), Step(c, ev)) && Extends(p, Later(p, c, ev))
  {
    StepBumps(c, ev);
    if Bumps(c, ev) {
      var extra := if ev.Request? && ev.w.expected.Some? then {ev.w.expected.value} else {};
      if ev.Request? && ev.w.expected.Some? { SucceedsAtVersion(c, ev, ev.w.expected.value); }
      PastMoves(p, c, Step(c, ev), extra);
    }
  }

  /** A success under an expected version is the first one under it. */
  lemma FirstWin(p: Past, c: Cluster, ev: Event, e: nat)
    requires Remembers(p, c) && p.moves < MODULUS && Succeeds(c, ev, e)
    ensures e !in p.won
  {
    SucceedsAtVersion(c, ev, e);
  }

  /** A cluster as the provider and the application change it. */
  class ClusterServer {
    var cluster: Cluster
    ghost var past: Past

    ghost predicate Valid()
      reads this
    {
      Remembers(past, cluster)
    }

    constructor (version: nat, attributes: map<nat, Attr>)
      requires version < MODULUS
      ensures Valid() && cluster == Cluster(version, attributes) && past.won == {} && past.moves == 0
    {
      cluster := Cluster(version, attributes);
      past := Past(version, 0, map[version := Values(Cluster(version, attributes))], {});
    }

    /** `increase_data_version`, with 32 bits. */
    method IncreaseDataVersion()
      requires cluster.version < MODULUS
      modifies this`cluster
      ensures cluster == Bump(old(cluster))
    {
      cluster := cluster.(version := if cluster.version == MODULUS - 1 then 0 else cluster.version + 1);
    }

    /** `update` and `report`: an attribute that reports no error means what was asked for, and a version that
        was seen before still stands for the values it stood for. */
    method UpdateAttribute(id: nat, v: AttrVal, cb: Callback) returns (err: Err)
      requires Valid()
      modifies this
      ensures Valid() && Extends(old(past), past) && past.won == old(past.won)
      ensures (cluster, err) == UpdateOrReport(old(cluster), id, v, cb)
      ensures id !in old(cluster.attributes) ==> err != ESP_OK && cluster == old(cluster)
      ensures (err == ESP_OK && WellFormed(v) && old(WellFormed(Current(cluster.attributes[id]))) &&
               !(IsString(v.kind.base) && v.val.s == 0)) ==>
              id in cluster.attributes && MeaningOf(Current(cluster.attributes[id])) == MeaningOf(v)
    {
      StillRemembers(past, cluster, Update(id, v, cb));
      past := Later(past, cluster, Update(id, v, cb));
      if id !in cluster.attributes || v.kind.base == INVALID {
        return ESP_ERR_INVALID_ARG;
      }
      if WellFormed(v) && WellFormed(Current(cluster.attributes[id])) { UpdateEstablishes(cluster, id, v, cb); }
      if v.kind.base == ARRAY {
        return ESP_ERR_NOT_SUPPORTED;
      }
      if v.kind != cluster.attributes[id].kind {
        return ESP_ERR_INVALID_ARG;
      }
      var (a, e) := SetVal(cluster.attributes[id], v, cb);
      cluster := cluster.(attributes := cluster.attributes[id := a]);
      if e == ESP_OK {
        IncreaseDataVersion();
      }
      err := if e == ESP_ERR_NOT_FINISHED then ESP_OK else e;
    }

    /** `provider::WriteAttribute` as compare and swap: a write under an expected version that succeeds through
        the data model is the first one to do so, short of 2^32 moves. */
    method Handle(w: Write) returns (status: Status)
      requires Valid()
      modifies this
      ensures Valid() && Extends(old(past), past)
      ensures (cluster, status) == WriteAttribute(old(cluster), w)
      ensures var done := w.registry.None? && (status == Success || status == Delegated(true));
              && (done && w.expected.Some? ==>
                   && w.expected.value == old(cluster.version) && w.expected.value in past.won
                   && (old(past.moves) < MODULUS ==> w.expected.value !in old(past.won)))
              && (!done ==> past == old(past) && Values(cluster) == old(Values(cluster)))
    {
      ghost var ev := Request(w);
      StepBumps(cluster, ev);
      StillRemembers(past, cluster, ev);
      if w.expected.Some? && Succeeds(cluster, ev, w.expected.value) {
        SucceedsAtVersion(cluster, ev, w.expected.value);
        if past.moves < MODULUS { FirstWin(past, cluster, ev, w.expected.value); }
      }
      past := Later(past, cluster, ev);
      if w.attribute !in cluster.attributes {
        return UnsupportedAttribute;
      }
      if w.decoded.Some? && !w.preUpdate {
        return Failure;
      }
      if w.registry.Some? {
        return Delegated(w.registry.value);
      }
      if w.expected.Some? && cluster.version != w.expected.value {
        return DataVersionMismatch;
      }
      if w.accessInterface.Some? {
        if w.accessInterface.value {
          IncreaseDataVersion();
        }
        return Delegated(w.accessInterface.value);
      }
      if cluster.attributes[w.attribute].flags.internal {
        return Failure;
      }
      if w.decoded.None? {
        return DecodeError;
      }
      if !w.bufferOk {
        return BufferError;
      }
      status := WriteEmber(w);
      if status == Success {
        IncreaseDataVersion();
      }
    }

    /** `emberAfWriteAttribute`. */
    method WriteEmber(w: Write) returns (status: Status)
      requires w.attribute in cluster.attributes
      modifies this`cluster
      ensures (cluster, status) == EmberWrite(old(cluster), w) && cluster.version == old(cluster.version)
      ensures w.preChange != Proceed ==> cluster == old(cluster)
    {
      if w.preChange == Ignore {
        return Success;
      }
      if w.preChange == Deny {
        return Failure;
      }
      var (a, err) := SetVal(cluster.attributes[w.attribute], w.arrives, w.cb);
      cluster := cluster.(attributes := cluster.attributes[w.attribute := a]);
      return if err == ESP_OK || err == ESP_ERR_NOT_FINISHED then Success else Failure;
    }
  }
}
