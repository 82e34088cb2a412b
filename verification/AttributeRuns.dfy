/** Whole histories of an attribute: sets, deferred writes and reboots in any order. */
module AttributeRuns {
  import opened Basics
  import opened AttributeValues
  import opened AttributeStore

  datatype Op = Set(v: AttrVal, cb: Callback) | Fire | Defer

  function Apply(a: Attr, op: Op): Attr {
    match op
    case Set(v, cb) => SetVal(a, v, cb).0
    case Fire => if a.timer then TimerFires(a) else a
    case Defer => DeferPersistence(a)
  }

  function ApplyAll(a: Attr, ops: seq<Op>): Attr {
    if ops == [] then a else Apply(ApplyAll(a, ops[..|ops| - 1]), ops[|ops| - 1])
  }

  // ----- bounds -----

  ghost predicate ShapeOk(a: Attr, b: Bounds) {
    && IsFixedWidth(a.kind.base) && a.val.Num? && b.min.Num? && b.max.Num? && a.bounds == Some(b) && !a.flags.internal
  }

  lemma ApplyKeepsBounds(a: Attr, b: Bounds, op: Op)
    requires ShapeOk(a, b) && InBounds(Current(a), b)
    ensures ShapeOk(Apply(a, op), b) && InBounds(Current(Apply(a, op)), b)
  {
    if op.Set? && SetVal(a, op.v, op.cb).1 == ESP_OK { ClampInBounds(op.v, b); }
  }

  lemma {:induction false} RunKeepsBounds(a: Attr, b: Bounds, ops: seq<Op>)
    requires ShapeOk(a, b) && InBounds(Current(a), b)
    ensures ShapeOk(ApplyAll(a, ops), b) && InBounds(Current(ApplyAll(a, ops)), b)
  {
    if ops != [] {
      RunKeepsBounds(a, b, ops[..|ops| - 1]);
      ApplyKeepsBounds(ApplyAll(a, ops[..|ops| - 1]), b, ops[|ops| - 1]);
    }
  }

  /** Once ordered bounds are added to an attribute of an integer type, its value is null or within them
      after every sequence of operations. */
  lemma BoundsHoldForever(a: Attr, min: AttrVal, max: AttrVal, ops: seq<Op>)
    requires IsFixedWidth(a.kind.base) && a.val.Num? && min.val.Num? && max.val.Num?
    requires !a.flags.internal && min.kind == a.kind == max.kind
    requires min.val.n <= max.val.n || ValIsNull(Current(a))
    ensures AddBounds(a, min, max).1 == ESP_OK
    ensures InBounds(Current(ApplyAll(AddBounds(a, min, max).0, ops)), Bounds(min.val, max.val))
  {
    ClampInBounds(Current(a), Bounds(min.val, max.val));
    RunKeepsBounds(AddBounds(a, min, max).0, Bounds(min.val, max.val), ops);
  }

  /** The types that bounds can be put on but not compared with. */
  predicate Incomparable(k: Kind) {
    k.base == INTEGER || k == Kind(BOOLEAN, true)
  }

  /** A failing `add_bounds` leaves something behind if and only if the types agree and cannot be compared. */
  lemma FailedBoundsStayIff(a: Attr, min: AttrVal, max: AttrVal)
    requires WellFormed(Current(a)) && WellFormed(min) && WellFormed(max) && a.bounds == None
    ensures AddBounds(a, min, max).1 != ESP_OK && AddBounds(a, min, max).0 != a <==>
      !a.flags.internal && a.kind == min.kind == max.kind && Incomparable(a.kind)
  {
  }

  /** What it leaves behind are the bounds, and they freeze the attribute: after every sequence of operations
      the value is the same, and every further set is refused. */
  lemma {:induction false} FailedBoundsFreeze(
    a: Attr, min: AttrVal, max: AttrVal, ops: seq<Op>, v: AttrVal, cb: Callback)
    requires Incomparable(a.kind) && !a.flags.internal && min.kind == a.kind == max.kind
    ensures AddBounds(a, min, max).1 == ESP_ERR_INVALID_ARG
    ensures var a' := ApplyAll(AddBounds(a, min, max).0, ops);
            && a'.val == a.val && a'.bounds == Some(Bounds(min.val, max.val)) && a'.kind == a.kind && !a'.flags.internal
            && SetVal(a', v, cb).1 == ESP_ERR_INVALID_ARG
  {
    if ops != [] { FailedBoundsFreeze(a, min, max, ops[..|ops| - 1], v, cb); }
  }

  // ----- persistence -----

  /** What the application does at every boot: create with this default, then add these bounds. */
  datatype Config = Config(default: AttrVal, flags: Flags, bounds: Option<Bounds>)

  function Boot(c: Config, stored: Option<Val>): Attr {
    var a := Create(c.default, c.flags, 0, stored);
    if c.bounds.None? then a
    else AddBounds(a, AttrVal(a.kind, c.bounds.value.min), AttrVal(a.kind, c.bounds.value.max)).0
  }

  /** Numeric, non-volatile, not managed elsewhere, and of a type that storage knows. */
  predicate Covered(c: Config) {
    c.flags.nonvolatile && !c.flags.internal && Persistable(c.default.kind)
  }

  /** The value `v` as the bounds leave it. A plain boolean takes no bounds. */
  function Bounded(c: Config, v: Val): Val {
    if c.bounds.None? || c.default.kind == Kind(BOOLEAN, false) then v
    else Clamp(AttrVal(c.default.kind, v), c.bounds.value).val
  }

  /** What a boot makes of the storage entry. */
  function Restored(c: Config, stored: Option<Val>): Val {
    Bounded(c, if stored.Some? then stored.value else c.default.val)
  }

  lemma CreateRestores(c: Config, stored: Option<Val>)
    requires Covered(c)
    ensures var a := Create(c.default, c.flags, 0, stored);
            && a.val == (if stored.Some? then stored.value else c.default.val)
            && (a.stored == stored || a.stored == Some(c.default.val)) && (stored.Some? ==> a.stored == stored)
            && a.kind == c.default.kind && a.flags == c.flags && a.bounds == None && (a.timer ==> a.flags.deferred)
  {
  }

  lemma BootRestores(c: Config, stored: Option<Val>)
    requires Covered(c)
    ensures Boot(c, stored).val == Restored(c, stored) == Restored(c, Boot(c, stored).stored)
  {
    CreateRestores(c, stored);
  }

  /** A boot with ordered bounds gives the value between them that is nearest to the stored one, or to the
      default if nothing is stored. */
  lemma BootNearest(c: Config, stored: Option<Val>)
    requires Covered(c) && WellFormed(c.default) && c.bounds.Some? && Ordered(c.bounds.value)
    requires stored.Some? ==> WellFormed(AttrVal(c.default.kind, stored.value))
    requires IsFixedWidth(c.default.kind.base) || c.default.kind.base == FLOAT
    requires WellFormed(AttrVal(c.default.kind, c.bounds.value.min))
    requires WellFormed(AttrVal(c.default.kind, c.bounds.value.max))
    ensures var before := if stored.Some? then stored.value else c.default.val;
            Nearest(AttrVal(c.default.kind, before), c.bounds.value, Current(Boot(c, stored)))
  {
    CreateRestores(c, stored);
    var k, b := c.default.kind, c.bounds.value;
    BoundsOutcome(Create(c.default, c.flags, 0, stored), AttrVal(k, b.min), AttrVal(k, b.max));
  }

  /** Clamping the values of an integer type twice is clamping them once if and only if the bounds are ordered,
      or the type is nullable and the null value at the end of its range keeps the bounds from clashing. */
  lemma ClampIdempotentIff(k: Kind, b: Bounds)
    requires IsFixedWidth(k.base) && WellFormed(AttrVal(k, b.min)) && WellFormed(AttrVal(k, b.max))
    ensures (forall n | MinOf(k.base) <= n <= MaxOf(k.base) ::
               Clamp(Clamp(AttrVal(k, Num(n)), b), b) == Clamp(AttrVal(k, Num(n)), b))
       <==> || b.min.n <= b.max.n
            || (k.nullable && !IsSigned(k.base) && b.min.n == Sentinel(k.base))
            || (k.nullable && IsSigned(k.base) && b.max.n == Sentinel(k.base) && b.min.n == Sentinel(k.base) + 1)
  {
    WideRange(k.base);
    if b.min.n > b.max.n {
      if k.nullable && IsSigned(k.base) && b.max.n == Sentinel(k.base) {
        var n := Sentinel(k.base) + 1;
        if b.min.n != n { assert Clamp(Clamp(AttrVal(k, Num(n)), b), b) != Clamp(AttrVal(k, Num(n)), b); }
      } else if !(k.nullable && !IsSigned(k.base) && b.min.n == Sentinel(k.base)) {
        var n := b.max.n;
        assert Clamp(Clamp(AttrVal(k, Num(n)), b), b) != Clamp(AttrVal(k, Num(n)), b);
      }
    }
  }

  lemma WideRange(b: Base)
    requires IsFixedWidth(b)
    ensures MinOf(b) + 2 < MaxOf(b)
  {
    assert Span(1) == 256 * Span(0);
    assert Span(2) == 256 * Span(1);
    assert Span(4) == 256 * Span(3) && Span(3) == 256 * Span(2);
    assert Span(8) >= Span(7) >= Span(6) >= Span(5) >= Span(4);
  }

  /** The attribute fits its configuration; without a pending timer memory holds what a boot restores, and with
      one it holds a value that a boot would leave as it is. */
  ghost predicate Synced(c: Config, a: Attr) {
    && a.kind == c.default.kind && !a.flags.internal && a.flags.nonvolatile && (a.timer ==> a.flags.deferred)
    && a.bounds == (if c.default.kind == Kind(BOOLEAN, false) then None else c.bounds)
    && (a.timer ==> Bounded(c, a.val) == a.val)
    && (!a.timer ==> a.val == Restored(c, a.stored))
  }

  /** The default is not waiting to be written when the bounds are added, or they leave it where they put it. */
  predicate Steady(c: Config) {
    || !c.flags.deferred || c.default.val == Zero(c.default.kind)
    || Bounded(c, Bounded(c, c.default.val)) == Bounded(c, c.default.val)
  }

  /** A deferred write is pending after a boot only if the default was set there. */
  lemma BootTimer(c: Config, stored: Option<Val>)
    requires Covered(c)
    ensures Boot(c, stored).timer ==> c.flags.deferred && stored == None
    ensures Boot(c, stored).timer && c.default.val == Zero(c.default.kind) ==>
      Bounded(c, c.default.val) == c.default.val
    ensures c.flags.deferred && c.default.val != Zero(c.default.kind) ==> Boot(c, None).timer
  {
  }

  lemma BootSynced(c: Config, stored: Option<Val>)
    requires Covered(c) && Steady(c)
    ensures Synced(c, Boot(c, stored))
  {
    CreateRestores(c, stored);
    BootRestores(c, stored);
    BootTimer(c, stored);
  }

  lemma ApplySynced(c: Config, a: Attr, op: Op)
    requires Covered(c) && Synced(c, a)
    ensures Synced(c, Apply(a, op))
    ensures Restored(c, Apply(a, op).stored) == Restored(c, a.stored)
         || Restored(c, Apply(a, op).stored) == Apply(a, op).val
  {
  }

  /** An attribute with all the values its memory has held, this one included, over all its boots. */
  datatype Life = Life(a: Attr, past: seq<Val>)

  datatype Event = Do(op: Op) | Reboot

  function Live(c: Config, l: Life, ev: Event): Life {
    var a := if ev.Reboot? then Boot(c, l.a.stored) else Apply(l.a, ev.op);
    Life(a, l.past + [a.val])
  }

  function LiveAll(c: Config, stored: Option<Val>, evs: seq<Event>): Life {
    if evs == [] then Life(Boot(c, stored), [Boot(c, stored).val])
    else Live(c, LiveAll(c, stored, evs[..|evs| - 1]), evs[|evs| - 1])
  }

  ghost predicate LifeOk(c: Config, l: Life) {
    Synced(c, l.a) && l.a.val in l.past && Restored(c, l.a.stored) in l.past
  }

  lemma LiveOk(c: Config, l: Life, ev: Event)
    requires Covered(c) && Steady(c) && LifeOk(c, l)
    ensures LifeOk(c, Live(c, l, ev))
  {
    if ev.Reboot? {
      BootSynced(c, l.a.stored);
      BootRestores(c, l.a.stored);
    } else {
      ApplySynced(c, l.a, ev.op);
    }
  }

  lemma {:induction false} LiveAllOk(c: Config, stored: Option<Val>, evs: seq<Event>)
    requires Covered(c) && Steady(c)
    ensures LifeOk(c, LiveAll(c, stored, evs))
  {
    if evs == [] {
      BootSynced(c, stored);
      BootRestores(c, stored);
    } else {
      LiveAllOk(c, stored, evs[..|evs| - 1]);
      LiveOk(c, LiveAll(c, stored, evs[..|evs| - 1]), evs[|evs| - 1]);
    }
  }

  /** After any history, a reboot restores the value before it if no deferred write is pending, and
      otherwise a value that the attribute had earlier. */
  lemma {:induction false} RebootRestores(c: Config, stored: Option<Val>, evs: seq<Event>)
    requires Covered(c) && Steady(c)
    ensures var l := LiveAll(c, stored, evs);
            && (!l.a.timer ==> Boot(c, l.a.stored).val == l.a.val)
            && Boot(c, l.a.stored).val in l.past
  {
    LiveAllOk(c, stored, evs);
    BootRestores(c, LiveAll(c, stored, evs).a.stored);
  }

  /** Without steadiness, letting the pending write of the default happen stores a value that the next boot
      moves to the other bound: neither the value before it nor one from its past. */
  lemma UnsteadyLoses(c: Config)
    requires Covered(c) && !Steady(c)
    ensures var l := LiveAll(c, None, [Do(Fire)]);
            && !l.a.timer && Boot(c, l.a.stored).val != l.a.val && Boot(c, l.a.stored).val !in l.past
  {
    var fire := Do(Fire);
    assert [fire][..0] == [];
    BootTimer(c, None);
    CreateRestores(c, None);
    BootRestores(c, None);
    var a := Boot(c, None);
    var l := LiveAll(c, None, [fire]);
    assert LiveAll(c, None, []) == Life(a, [a.val]);
    assert l.a == TimerFires(a) && l.past == [a.val] + [a.val];
    assert l.a.stored == Some(a.val);
    BootRestores(c, l.a.stored);
  }

  // ----- exactly when a value is restored -----

  /** A numeric, non-volatile attribute of the data model, of any type. */
  predicate Numeric(c: Config) {
    && c.flags.nonvolatile && !c.flags.internal && WellFormed(c.default) && !c.default.val.Buf?
  }

  /** A set of this value is not refused. */
  predicate Settable(c: Config, v: Val) {
    && WellFormed(AttrVal(c.default.kind, v))
    && (c.bounds.None? || c.default.kind == Kind(BOOLEAN, false) ||
        CompareWithBounds(AttrVal(c.default.kind, v), c.bounds.value) == Within)
  }

  /** The bounds leave nothing to set but the default. */
  ghost predicate OnlyDefault(c: Config) {
    forall v | Settable(c, v) :: v == Bounded(c, c.default.val)
  }

  /** The values that are set are values of their types. */
  ghost predicate Proper(evs: seq<Event>) {
    forall i | 0 <= i < |evs| && evs[i].Do? && evs[i].op.Set? :: WellFormed(evs[i].op.v)
  }

  /** After every history that leaves no timer pending, a reboot restores the value before it. */
  ghost predicate AlwaysRestored(c: Config) {
    forall stored, evs | Proper(evs) && !LiveAll(c, stored, evs).a.timer ::
      Boot(c, LiveAll(c, stored, evs).a.stored).val == LiveAll(c, stored, evs).a.val
  }

  /** After every history a reboot restores the value before it or an earlier one. */
  ghost predicate NeverInvented(c: Config) {
    forall stored, evs | Proper(evs) ::
      Boot(c, LiveAll(c, stored, evs).a.stored).val in LiveAll(c, stored, evs).past
  }

  /** An attribute of a type that storage does not know, as every boot leaves it. */
  ghost predicate Unknown(c: Config, a: Attr) {
    a.kind == c.default.kind && !a.flags.internal && a.flags.nonvolatile && a.bounds == c.bounds
  }

  lemma UnknownBoot(c: Config, stored: Option<Val>)
    requires Numeric(c) && !Persistable(c.default.kind)
    ensures Boot(c, stored).val == Bounded(c, c.default.val) && Unknown(c, Boot(c, stored))
  {
    UnknownCreate(c, stored);
  }

  lemma UnknownCreate(c: Config, stored: Option<Val>)
    requires Numeric(c) && !Persistable(c.default.kind)
    ensures var a := Create(c.default, c.flags, 0, stored);
            a.val == c.default.val && a.kind == c.default.kind && a.flags == c.flags && a.bounds == None
  {
  }

  lemma UnknownSet(c: Config, a: Attr, v: AttrVal, cb: Callback)
    requires Numeric(c) && !Persistable(c.default.kind) && Unknown(c, a) && WellFormed(v)
    ensures Unknown(c, SetVal(a, v, cb).0)
    ensures SetVal(a, v, cb).0.val == a.val || (SetVal(a, v, cb).0.val == v.val && Settable(c, v.val))
  {
  }

  lemma {:induction false} UnknownKeeps(c: Config, stored: Option<Val>, evs: seq<Event>)
    requires Numeric(c) && !Persistable(c.default.kind) && OnlyDefault(c) && Proper(evs)
    ensures Unknown(c, LiveAll(c, stored, evs).a) && LiveAll(c, stored, evs).a.val == Bounded(c, c.default.val)
  {
    if evs == [] {
      UnknownBoot(c, stored);
    } else {
      var front, ev := evs[..|evs| - 1], evs[|evs| - 1];
      UnknownKeeps(c, stored, front);
      var a := LiveAll(c, stored, front).a;
      if ev.Reboot? {
        UnknownBoot(c, a.stored);
      } else if ev.op.Set? {
        UnknownSet(c, a, ev.op.v, ev.op.cb);
      }
    }
  }

  /** Setting another value and letting a deferred write happen loses the value at the next reboot. */
  lemma UnknownLoses(c: Config, v: Val)
    requires Numeric(c) && !Persistable(c.default.kind) && Settable(c, v) && v != Bounded(c, c.default.val)
    ensures !AlwaysRestored(c)
  {
    var write := Do(Set(AttrVal(c.default.kind, v), NotCalled));
    var evs := [write, Do(Fire)];
    UnknownBoot(c, None);
    var a0 := Boot(c, None);
    assert evs[..1] == [write] && [write][..0] == [];
    assert LiveAll(c, None, []).a == a0;
    var a1 := LiveAll(c, None, [write]).a;
    assert a1.val == v;
    var a2 := LiveAll(c, None, evs).a;
    assert a2.val == v && !a2.timer;
    UnknownBoot(c, a2.stored);
    assert Proper(evs);
  }

  lemma {:induction false} FirstValueStays(c: Config, stored: Option<Val>, evs: seq<Event>)
    ensures Boot(c, stored).val in LiveAll(c, stored, evs).past
  {
    if evs != [] { FirstValueStays(c, stored, evs[..|evs| - 1]); }
  }

  lemma KnownRestoredIff(c: Config)
    requires Numeric(c) && Persistable(c.default.kind)
    ensures AlwaysRestored(c) <==> Steady(c)
    ensures NeverInvented(c) <==> Steady(c)
  {
    if Steady(c) {
      forall stored, evs
        ensures var l := LiveAll(c, stored, evs);
                (!l.a.timer ==> Boot(c, l.a.stored).val == l.a.val) && Boot(c, l.a.stored).val in l.past
      {
        RebootRestores(c, stored, evs);
      }
    } else {
      UnsteadyLoses(c);
      assert Proper([Do(Fire)]);
    }
  }

  lemma UnknownRestoredIff(c: Config)
    requires Numeric(c) && !Persistable(c.default.kind)
    ensures AlwaysRestored(c) <==> OnlyDefault(c)
    ensures NeverInvented(c)
  {
    forall stored, evs ensures Boot(c, LiveAll(c, stored, evs).a.stored).val in LiveAll(c, stored, evs).past {
      UnknownBoot(c, stored);
      UnknownBoot(c, LiveAll(c, stored, evs).a.stored);
      FirstValueStays(c, stored, evs);
    }
    if OnlyDefault(c) {
      forall stored, evs | Proper(evs) && !LiveAll(c, stored, evs).a.timer
        ensures Boot(c, LiveAll(c, stored, evs).a.stored).val == LiveAll(c, stored, evs).a.val
      {
        UnknownKeeps(c, stored, evs);
        UnknownBoot(c, LiveAll(c, stored, evs).a.stored);
      }
    } else {
      var v :| Settable(c, v) && v != Bounded(c, c.default.val);
      UnknownLoses(c, v);
    }
  }

  /** A numeric attribute with any bounds, in any order, is always restored if and only if storage knows its type
      and the configuration is steady, or storage does not know its type and the bounds leave nothing to set but
      the default. A boot never invents a value if and only if storage does not know the type or the
      configuration is steady. */
  lemma AlwaysRestoredIff(c: Config)
    requires Numeric(c)
    ensures AlwaysRestored(c) <==> if Persistable(c.default.kind) then Steady(c) else OnlyDefault(c)
    ensures NeverInvented(c) <==> !Persistable(c.default.kind) || Steady(c)
  {
    if Persistable(c.default.kind) { KnownRestoredIff(c); } else { UnknownRestoredIff(c); }
  }

  /** Without bounds it is the type alone that decides. */
  lemma UnboundedRestoredIff(c: Config)
    requires Numeric(c) && c.bounds.None?
    ensures AlwaysRestored(c) <==> c.default.kind.base != ENUM16 && c.default.kind != Kind(BOOLEAN, true)
  {
    AlwaysRestoredIff(c);
    if !Persistable(c.default.kind) {
      var n := if c.default.val == Num(0) then 1 else 0;
      assert Settable(c, Num(n)) && Num(n) != c.default.val;
    }
  }

  /** Bounds in the right order are always steady. */
  lemma OrderedIsSteady(c: Config)
    requires IsFixedWidth(c.default.kind.base) && c.default.val.Num? && c.bounds.Some?
    requires c.bounds.value.min.Num? && c.bounds.value.max.Num? && c.bounds.value.min.n <= c.bounds.value.max.n
    ensures Steady(c)
  {
  }

  /** An 8-bit integer with default 5 and deferred writes, bounds 10 to 0: the value is 10, is stored when the
      timer fires, and is 0 after the next boot. */
  lemma CrossedBoundsLose(flags: Flags)
    requires flags.nonvolatile && !flags.internal && flags.deferred
    ensures var c := Config(AttrVal(Kind(INT8, false), Num(5)), flags, Some(Bounds(Num(10), Num(0))));
            var l := LiveAll(c, None, [Do(Fire)]);
            && !l.a.timer && l.a.val == Num(10) && Boot(c, l.a.stored).val == Num(0)
  {
    var fire := Do(Fire);
    assert [fire][..0] == [];
  }

  /** A 16-bit enumeration with default 0, set to 5: after a reboot it is 0. */
  lemma EnumIsLost(flags: Flags)
    requires flags.nonvolatile && !flags.internal && !flags.deferred
    ensures var k := Kind(ENUM16, false);
            var c := Config(AttrVal(k, Num(0)), flags, None);
            var l := LiveAll(c, None, [Do(Set(AttrVal(k, Num(5)), NotCalled))]);
            && !l.a.timer && l.a.val == Num(5) && Boot(c, l.a.stored).val == Num(0)
  {
    var ev := Do(Set(AttrVal(Kind(ENUM16, false), Num(5)), NotCalled));
    assert [ev][..0] == [];
  }
}
