/** One attribute managed by the data model: its value in memory, its copy in non-volatile storage, its
    bounds and its timer for deferred writes. */
module AttributeStore {
  import opened Basics
  import opened AttributeValues

  datatype Err =
    | ESP_OK | ESP_ERR_INVALID_ARG | ESP_ERR_NOT_SUPPORTED | ESP_ERR_NOT_FINISHED | ESP_ERR_NO_MEM
    | CALLBACK_ERR

  datatype Flags = Flags(internal: bool, nonvolatile: bool, deferred: bool)

  /** The attribute struct, its storage entry and whether its timer runs. `strMax` is the field `a.max`. */
  datatype Attr = Attr(
    kind: Kind, flags: Flags, bounds: Option<Bounds>, val: Val, strMax: nat, timer: bool, stored: Option<Val>)

  /** How the application's pre-update callback answers, if it is called at all. */
  datatype Callback = NotCalled | Accepts | Refuses

  function Current(a: Attr): AttrVal {
    AttrVal(a.kind, a.val)
  }

  // ----- storage -----

  /** The types that `nvs_store_val` and `nvs_get_val` know among the numeric ones: nullable booleans
      and both 16-bit enumerations fall through to the error case. */
  predicate Persistable(k: Kind) {
    && (IsFixedWidth(k.base) || k.base == INTEGER || k.base == FLOAT || k.base == BOOLEAN)
    && k.base != ENUM16 && !(k.base == BOOLEAN && k.nullable)
  }

  /** `store_val_in_nvs`: a string without buffer erases the entry. */
  function StoreVal(a: Attr): Option<Val> {
    if IsString(a.kind.base) || a.kind.base == ARRAY then
      if a.val.Buf? && a.val.b.Some? then Some(a.val) else None
    else if Persistable(a.kind) then Some(a.val)
    else a.stored
  }

  // ----- set and get -----

  /** The bounds let the value in. */
  predicate Admits(a: Attr, v: AttrVal) {
    a.bounds.Some? ==> CompareWithBounds(v, a.bounds.value) == Within
  }

  /** The new content of the attribute. An empty string leaves the old content. */
  function Assigned(a: Attr, v: AttrVal): Val {
    if IsString(v.kind.base) && v.val.Buf? then
      if v.val.s == 0 then a.val
      else if v.val.s == NullLen(v.kind.base) then Buf(None, v.val.s)
      else Buf(if v.val.b.Some? && v.val.s <= |v.val.b.value| then Some(v.val.b.value[..v.val.s]) else None, v.val.s)
    else v.val
  }

  predicate TooLong(a: Attr, v: AttrVal) {
    IsString(v.kind.base) && v.val.Buf? && v.val.s > 0 && v.val.s != NullLen(v.kind.base) && v.val.s > a.strMax
  }

  /** The write to storage at the end of `set_val_internal`, at once or by starting the timer. */
  function Persist(a: Attr): Attr {
    if !a.flags.nonvolatile then a
    else if a.flags.deferred then a.(timer := true)
    else a.(stored := StoreVal(a))
  }

  /** `set_val_internal`. */
  function SetVal(a: Attr, v: AttrVal, cb: Callback): (Attr, Err) {
    if a.flags.internal then (a, ESP_ERR_NOT_SUPPORTED)
    else if a.kind != v.kind then (a, ESP_ERR_INVALID_ARG)
    else if !Admits(a, v) then (a, ESP_ERR_INVALID_ARG)
    else if ValCompare(v, Current(a)) then (a, ESP_ERR_NOT_FINISHED)
    else if cb == Refuses then (a, CALLBACK_ERR)
    else if TooLong(a, v) then (a, ESP_ERR_NO_MEM)
    else (Persist(a.(val := Assigned(a, v))), ESP_OK)
  }

  /** The deferred write, when the timer fires. */
  function TimerFires(a: Attr): Attr {
    a.(timer := false, stored := StoreVal(a))
  }

  /** `add_bounds`: the bounds stay even when the type cannot be compared and the call fails. */
  function AddBounds(a: Attr, min: AttrVal, max: AttrVal): (Attr, Err) {
    if a.flags.internal then (a, ESP_ERR_NOT_SUPPORTED)
    else if IsString(a.kind.base) || a.kind.base == ARRAY || a.kind == Kind(BOOLEAN, false) then
      (a, ESP_ERR_INVALID_ARG)
    else if a.kind != min.kind || a.kind != max.kind then (a, ESP_ERR_INVALID_ARG)
    else
      var b := Bounds(min.val, max.val);
      (a.(bounds := Some(b), val := Clamp(Current(a), b).val),
       if CompareWithBounds(Current(a), b) == WrongType then ESP_ERR_INVALID_ARG else ESP_OK)
  }

  /** The zero that `calloc` leaves in the union. */
  function Zero(k: Kind): Val {
    if IsString(k.base) || k.base == ARRAY then Buf(None, 0)
    else if k.base == FLOAT then Flt(Finite(0.0))
    else Num(0)
  }

  /** `attribute::create`; a numeric value is taken from storage if there is an entry, else from the default. */
  function Create(default: AttrVal, flags: Flags, strMax: nat, stored: Option<Val>): Attr {
    var a := Attr(default.kind, flags, None, Zero(default.kind), strMax, false, stored);
    if flags.nonvolatile && Persistable(default.kind) && stored.Some? then a.(val := stored.value)
    else SetVal(a, default, NotCalled).0
  }

  // ----- what a set does -----

  /** The value may be set at all: the types agree and the bounds let it in. */
  predicate Admissible(a: Attr, v: AttrVal) {
    v.kind == a.kind && Admits(a, v)
  }

  /** The value is already there, as far as the code can tell. */
  predicate Unchanged(a: Attr, v: AttrVal) {
    Comparable(v) && MeaningOf(v) == MeaningOf(Current(a))
  }

  /** A string is null or fits its maximum. */
  predicate Fits(a: Attr) {
    IsString(a.kind.base) && a.val.Buf? ==> a.val.s == NullLen(a.kind.base) || a.val.s <= a.strMax
  }

  /** A string with more bytes than the attribute can hold. */
  predicate Oversized(a: Attr, v: AttrVal) {
    IsString(v.kind.base) && MeaningOf(v).Bytes? && |MeaningOf(v).bytes| > a.strMax
  }

  /** The ways a set can end, each with exactly the states in which it does. */
  lemma SetOutcome(a: Attr, v: AttrVal, cb: Callback)
    requires WellFormed(v) && WellFormed(Current(a)) && !a.flags.internal
    ensures var (a', err) := SetVal(a, v, cb);
            && a'.kind == a.kind && a'.flags == a.flags && a'.bounds == a.bounds && a'.strMax == a.strMax
            && (err != ESP_OK ==> a' == a)
            && (err == ESP_ERR_INVALID_ARG <==> !Admissible(a, v))
            && (err == ESP_ERR_NOT_FINISHED <==> Admissible(a, v) && Unchanged(a, v))
            && (err == CALLBACK_ERR <==> Admissible(a, v) && !Unchanged(a, v) && cb == Refuses)
            && (err == ESP_ERR_NO_MEM <==> Admissible(a, v) && !Unchanged(a, v) && cb != Refuses && Oversized(a, v))
            && (err == ESP_OK <==> Admissible(a, v) && !Unchanged(a, v) && cb != Refuses && !Oversized(a, v))
  {
    CompareDecidesMeaning(v, Current(a));
    if v.val.Buf? { BufferLength(v); }
  }

  /** Strings stay within their maximum, and only a longer one is refused for its length. */
  lemma SetKeepsFit(a: Attr, v: AttrVal, cb: Callback)
    requires WellFormed(v) && WellFormed(Current(a)) && !a.flags.internal
    ensures WellFormed(Current(SetVal(a, v, cb).0)) && (Fits(a) ==> Fits(SetVal(a, v, cb).0))
    ensures SetVal(a, v, cb).1 == ESP_ERR_NO_MEM ==> Oversized(a, v)
  {
    if v.val.Buf? { BufferLength(v); }
  }

  /** After a successful set, `get_val_internal` means what was written, unless that was an empty string. */
  lemma SetThenGet(a: Attr, v: AttrVal, cb: Callback)
    requires WellFormed(v) && WellFormed(Current(a)) && SetVal(a, v, cb).1 == ESP_OK
    ensures MeaningOf(Current(SetVal(a, v, cb).0)) == MeaningOf(v) <==> !(IsString(v.kind.base) && v.val.s == 0)
  {
    if v.val.Buf? { BufferLength(v); }
    if a.val.Buf? { BufferLength(Current(a)); }
    if IsString(v.kind.base) && v.val.s != 0 { AssignedMeans(a, v); }
  }

  lemma AssignedMeans(a: Attr, v: AttrVal)
    requires WellFormed(v) && IsString(v.kind.base) && v.val.s != 0
    ensures MeaningOf(AttrVal(v.kind, Assigned(a, v))) == MeaningOf(v)
  {
    if v.val.s != NullLen(v.kind.base) {
      assert v.val.b.value[..v.val.s][..v.val.s] == v.val.b.value[..v.val.s];
    }
  }

  // ----- what is written to storage -----

  /** Storage after the value `v` was written over the entry `before`: a string or array without buffer has no
      entry, one with a buffer has one that means the same; a number is the entry, unless it is a 16-bit
      enumeration or a nullable boolean, which leave what was there. */
  ghost predicate Written(v: AttrVal, before: Option<Val>, after: Option<Val>) {
    if v.val.Buf? then
      && (after.Some? <==> v.val.b.Some?)
      && (after.Some? ==> MeaningOf(AttrVal(v.kind, after.value)) == MeaningOf(v))
    else if v.kind.base == ENUM16 || v.kind == Kind(BOOLEAN, true) then after == before
    else after == Some(v.val)
  }

  /** A set that changes the value leaves storage alone if the attribute is volatile, only starts the timer if
      it is deferred, and otherwise writes the new value. */
  lemma SetStores(a: Attr, v: AttrVal, cb: Callback)
    requires WellFormed(v) && WellFormed(Current(a)) && SetVal(a, v, cb).1 == ESP_OK
    ensures var a' := SetVal(a, v, cb).0;
            && (a'.timer <==> a.timer || (a.flags.nonvolatile && a.flags.deferred))
            && if a.flags.nonvolatile && !a.flags.deferred then Written(Current(a'), a.stored, a'.stored)
               else a'.stored == a.stored
  {
  }

  /** So for a string, null erases the entry and bytes are stored as they are. */
  lemma StringStored(a: Attr, v: AttrVal, cb: Callback)
    requires WellFormed(v) && WellFormed(Current(a)) && IsString(a.kind.base) && SetVal(a, v, cb).1 == ESP_OK
    requires a.flags.nonvolatile && !a.flags.deferred && v.val.s != 0
    ensures var stored := SetVal(a, v, cb).0.stored;
            match MeaningOf(v)
            case Bytes(_) => stored.Some? && MeaningOf(AttrVal(a.kind, stored.value)) == MeaningOf(v)
            case _ => stored == None
  {
    BufferLength(v);
    SetStores(a, v, cb);
    SetThenGet(a, v, cb);
  }

  /** When the timer fires the value is written and nothing else changes. */
  lemma TimerStores(a: Attr)
    requires WellFormed(Current(a))
    ensures Written(Current(a), a.stored, TimerFires(a).stored)
    ensures TimerFires(a) == a.(timer := false, stored := TimerFires(a).stored)
  {
  }

  /** A new attribute takes a number that storage knows, and then writes nothing. Otherwise it takes the default
      if that fits, and writes it unless it is the zero that is there already. */
  lemma CreateStores(default: AttrVal, flags: Flags, strMax: nat, stored: Option<Val>)
    requires WellFormed(default) && !flags.internal
    ensures var a := Create(default, flags, strMax, stored);
            var blank := Attr(default.kind, flags, None, Zero(default.kind), strMax, false, stored);
            && a.kind == default.kind && a.flags == flags && a.bounds == None && a.strMax == strMax
            && if flags.nonvolatile && stored.Some? && !default.val.Buf? && default.kind.base != ENUM16 &&
                  default.kind != Kind(BOOLEAN, true)
               then a == blank.(val := stored.value)
               else if Unchanged(blank, default) || Oversized(blank, default) then a == blank
               else
                 && MeaningOf(Current(a)) == MeaningOf(default)
                 && (a.timer <==> flags.nonvolatile && flags.deferred)
                 && if flags.nonvolatile && !flags.deferred then Written(Current(a), stored, a.stored)
                    else a.stored == stored
  {
    var blank := Attr(default.kind, flags, None, Zero(default.kind), strMax, false, stored);
    BlankOk(default.kind, default);
    SetOutcome(blank, default, NotCalled);
    if SetVal(blank, default, NotCalled).1 == ESP_OK {
      SetStores(blank, default, NotCalled);
      SetThenGet(blank, default, NotCalled);
    }
  }

  /** What `calloc` leaves is a value of the type and means zero or nothing. */
  lemma BlankOk(k: Kind, v: AttrVal)
    requires WellFormed(v) && v.kind == k
    ensures WellFormed(AttrVal(k, Zero(k)))
    ensures MeaningOf(AttrVal(k, Zero(k))) == match v.val
                                              case Num(_) => Number(0)
                                              case Flt(_) => Fraction(Finite(0.0))
                                              case Buf(_, _) => Bytes([])
    ensures IsString(k.base) && v.val.s == 0 ==> MeaningOf(v) == MeaningOf(AttrVal(k, Zero(k)))
  {
  }

  // ----- what bounds do -----

  /** The bounds are of the type of the attribute, and that is an integer of a fixed width or a float. */
  predicate BoundsAgree(k: Kind, min: AttrVal, max: AttrVal) {
    min.kind == k && max.kind == k && (IsFixedWidth(k.base) || k.base == FLOAT)
  }

  /** `add_bounds` succeeds exactly for the types that can be compared, in agreement. It then keeps the bounds,
      puts the value where they say, and touches neither storage nor timer. */
  lemma BoundsOutcome(a: Attr, min: AttrVal, max: AttrVal)
    requires WellFormed(Current(a)) && WellFormed(min) && WellFormed(max)
    ensures var (a', err) := AddBounds(a, min, max);
            && (err == ESP_ERR_NOT_SUPPORTED <==> a.flags.internal)
            && (err == ESP_OK <==> !a.flags.internal && BoundsAgree(a.kind, min, max))
            && (err == ESP_OK || err == ESP_ERR_NOT_SUPPORTED || err == ESP_ERR_INVALID_ARG)
            && (err != ESP_OK ==> a'.(bounds := a.bounds) == a)
            && (err == ESP_OK ==> a' == a.(bounds := Some(Bounds(min.val, max.val)), val := a'.val))
            && (err == ESP_OK && Ordered(Bounds(min.val, max.val)) ==>
                  Nearest(Current(a), Bounds(min.val, max.val), Current(a')))
  {
    if AddBounds(a, min, max).1 == ESP_OK && Ordered(Bounds(min.val, max.val)) {
      ClampNearest(Current(a), Bounds(min.val, max.val));
    }
  }

  /** `set_deferred_persistence`. */
  function DeferPersistence(a: Attr): Attr {
    if a.flags.internal || !a.flags.nonvolatile then a else a.(flags := a.flags.(deferred := true))
  }

  // ----- the attribute as it is written -----

  /** The bytes of a string value, as far as its length field goes. */
  function Content(v: AttrVal): seq<int>
    requires WellFormed(v) && v.val.Buf? && v.val.s != NullLen(v.kind.base)
  {
    if v.val.s == 0 then [] else v.val.b.value[..v.val.s]
  }

  /** The struct with its string buffer on the heap; all other values are kept in `plain`. */
  class Attribute {
    const kind: Kind
    const strMax: nat
    var flags: Flags
    var bounds: Option<Bounds>
    var plain: Val
    var buf: array?<int>
    var size: nat
    var timer: bool
    var stored: Option<Val>

    /** The buffer of a char string is terminated by a zero. */
    predicate Valid()
      reads this, buf
    {
      && (buf != null ==> IsString(kind.base) && buf.Length == size + (if IsChar(kind.base) then 1 else 0))
      && (buf != null && IsChar(kind.base) ==> buf[size] == 0)
      && (buf == null ==> size == 0 || size == NullLen(kind.base))
    }

    function Value(): Val
      requires Valid()
      reads this, buf
    {
      if IsString(kind.base) then Buf(if buf == null then None else Some(buf[..size]), size) else plain
    }

    function State(): Attr
      requires Valid()
      reads this, buf
    {
      Attr(kind, flags, bounds, Value(), strMax, timer, stored)
    }

    /** `attribute::create`, without loading strings: a number comes from storage if storage has it, and
        otherwise the attribute means its default, if the default fits. */
    constructor (default: AttrVal, flags: Flags, strMax: nat, stored: Option<Val>)
      requires WellFormed(default)
      ensures Valid() && State() == Create(default, flags, strMax, stored)
      ensures flags.nonvolatile && Persistable(default.kind) && stored.Some? ==> State().val == stored.value
      ensures (stored.None? || !flags.nonvolatile) && !flags.internal && !TooLong(State(), default) ==>
        MeaningOf(Current(State())) == MeaningOf(default)
    {
      kind, this.flags, bounds, this.strMax, timer := default.kind, flags, None, strMax, false;
      this.stored, buf, size := stored, null, 0;
      plain := Zero(default.kind);
      new;
      if flags.nonvolatile && Persistable(kind) && stored.Some? {
        plain := stored.value;
      } else {
        ghost var a := State();
        var err := Set(default, NotCalled);
        CreatedMeans(a, default);
      }
    }

    /** `val_compare` of a string with the buffer: lengths first, then `memcmp`. */
    method SameString(v: AttrVal) returns (same: bool)
      requires Valid() && WellFormed(v) && v.kind == kind && IsString(kind.base)
      ensures same == ValCompare(v, Current(State()))
    {
      if v.val.s != size {
        return false;
      }
      if size == NullLen(kind.base) || size == 0 {
        return true;
      }
      for i := 0 to size
        invariant v.val.b.value[..i] == buf[..i]
      {
        if v.val.b.value[i] != buf[i] {
          assert v.val.b.value[..size][i] != buf[..size][i];
          return false;
        }
      }
      return true;
    }

    /** The string branch: a new buffer is allocated, the bytes are copied, and the old buffer is dropped. */
    method Store(v: AttrVal)
      requires Valid() && WellFormed(v) && v.kind == kind && IsString(kind.base)
      requires v.val.s != 0 && v.val.s != NullLen(kind.base)
      modifies this`buf, this`size
      ensures Valid() && fresh(buf) && size == v.val.s && buf[..size] == Content(v)
    {
      var n := v.val.s;
      var copy := new int[n + if IsChar(kind.base) then 1 else 0](_ => 0);
      for i := 0 to n
        invariant copy[..i] == v.val.b.value[..i]
        invariant forall j | n <= j < copy.Length :: copy[j] == 0
      {
        copy[i] := v.val.b.value[i];
      }
      buf, size := copy, n;
    }

    /** The union is overwritten, or the string branch is taken: an empty string leaves the old one. */
    method Assign(v: AttrVal) returns (err: Err)
      requires Valid() && WellFormed(v) && v.kind == kind
      modifies this`plain, this`buf, this`size
      ensures Valid() && err == if old(TooLong(State(), v)) then ESP_ERR_NO_MEM else ESP_OK
      ensures State() == if err == ESP_OK then old(State()).(val := old(Assigned(State(), v))) else old(State())
    {
      err := ESP_OK;
      if !IsString(kind.base) {
        plain := v.val;
      } else if v.val.s == NullLen(kind.base) {
        buf, size := null, v.val.s;
      } else if v.val.s > strMax {
        err := ESP_ERR_NO_MEM;
      } else if v.val.s > 0 {
        Store(v);
      }
    }

    /** The write to storage at the end of `set_val_internal`. */
    method PersistValue()
      requires Valid()
      modifies this`timer, this`stored
      ensures Valid() && State() == Persist(old(State()))
    {
      if flags.nonvolatile {
        if flags.deferred {
          timer := true;
        } else {
          stored := StoreVal(State());
        }
      }
    }

    /** `set_val_internal`. */
    method Set(v: AttrVal, cb: Callback) returns (err: Err)
      requires Valid() && WellFormed(v)
      modifies this
      ensures Valid() && (State(), err) == SetVal(old(State()), v, cb)
      ensures err != ESP_OK ==> State() == old(State())
      ensures err == ESP_OK && !(IsString(v.kind.base) && v.val.s == 0) ==> MeaningOf(Current(State())) == MeaningOf(v)
      ensures !flags.internal && WellFormed(old(Current(State()))) ==>
        (err == ESP_ERR_NOT_FINISHED <==> old(Admissible(State(), v)) && old(Unchanged(State(), v)))
    {
      SetMeans(State(), v, cb);
      if flags.internal {
        return ESP_ERR_NOT_SUPPORTED;
      }
      if kind != v.kind || (bounds.Some? && CompareWithBounds(v, bounds.value) != Within) {
        return ESP_ERR_INVALID_ARG;
      }
      var same;
      if IsString(kind.base) {
        same := SameString(v);
      } else {
        same := ValCompare(v, AttrVal(kind, plain));
      }
      if same {
        return ESP_ERR_NOT_FINISHED;
      }
      if cb == Refuses {
        return CALLBACK_ERR;
      }
      err := Assign(v);
      if err == ESP_OK {
        PersistValue();
      }
    }

    /** `add_bounds`. */
    method Bound(min: AttrVal, max: AttrVal) returns (err: Err)
      requires Valid()
      modifies this
      ensures Valid() && (State(), err) == AddBounds(old(State()), min, max)
      ensures err == ESP_OK && IsFixedWidth(kind.base) && min.val.Num? && max.val.Num? && min.val.n <= max.val.n ==>
        InBounds(Current(State()), Bounds(min.val, max.val))
      ensures err == ESP_OK && WellFormed(old(Current(State()))) && WellFormed(min) && WellFormed(max) &&
              Ordered(Bounds(min.val, max.val)) ==>
        Nearest(old(Current(State())), Bounds(min.val, max.val), Current(State()))
    {
      if WellFormed(Current(State())) && WellFormed(min) && WellFormed(max) { BoundsOutcome(State(), min, max); }
      if flags.internal {
        return ESP_ERR_NOT_SUPPORTED;
      }
      if IsString(kind.base) || kind.base == ARRAY || kind == Kind(BOOLEAN, false) {
        return ESP_ERR_INVALID_ARG;
      }
      if kind != min.kind || kind != max.kind {
        return ESP_ERR_INVALID_ARG;
      }
      bounds := Some(Bounds(min.val, max.val));
      match CompareWithBounds(AttrVal(kind, plain), bounds.value) {
        case Above => plain := max.val;
        case Below => plain := min.val;
        case WrongType => return ESP_ERR_INVALID_ARG;
        case Within =>
      }
      return ESP_OK;
    }

    /** `set_deferred_persistence`. */
    method Defer() returns (err: Err)
      requires Valid()
      modifies this`flags
      ensures Valid() && State() == DeferPersistence(old(State()))
      ensures err == if flags.internal then ESP_ERR_NOT_SUPPORTED
                     else if flags.nonvolatile then ESP_OK else ESP_ERR_INVALID_ARG
      ensures flags == old(flags).(deferred := old(flags.deferred) || err == ESP_OK)
    {
      if flags.internal {
        return ESP_ERR_NOT_SUPPORTED;
      }
      if !flags.nonvolatile {
        return ESP_ERR_INVALID_ARG;
      }
      flags := flags.(deferred := true);
      return ESP_OK;
    }

    /** `deferred_attribute_write`: storage agrees with memory afterwards, if it knows the type. */
    method OnTimer()
      requires Valid() && timer
      modifies this`timer, this`stored
      ensures Valid() && State() == TimerFires(old(State())) && Value() == old(Value())
      ensures Persistable(kind) ==> stored == Some(Value())
    {
      timer := false;
      stored := StoreVal(State());
    }
  }

  lemma CreatedMeans(a: Attr, v: AttrVal)
    requires a.val == Zero(v.kind) && a.kind == v.kind && a.bounds == None && WellFormed(v)
    ensures !a.flags.internal && !TooLong(a, v) ==> MeaningOf(Current(SetVal(a, v, NotCalled).0)) == MeaningOf(v)
  {
    if v.val.Buf? { BufferLength(v); }
    if IsString(v.kind.base) && v.val.s != 0 { AssignedMeans(a, v); }
  }

  /** What a set promises its caller. */
  lemma SetMeans(a: Attr, v: AttrVal, cb: Callback)
    requires WellFormed(v)
    ensures SetVal(a, v, cb).1 != ESP_OK ==> SetVal(a, v, cb).0 == a
    ensures SetVal(a, v, cb).1 == ESP_OK && !(IsString(v.kind.base) && v.val.s == 0) ==>
      MeaningOf(Current(SetVal(a, v, cb).0)) == MeaningOf(v)
    ensures !a.flags.internal && WellFormed(Current(a)) ==>
      (SetVal(a, v, cb).1 == ESP_ERR_NOT_FINISHED <==> Admissible(a, v) && Unchanged(a, v))
  {
    if !a.flags.internal && WellFormed(Current(a)) { SetOutcome(a, v, cb); }
    if IsString(v.kind.base) && v.val.s != 0 { AssignedMeans(a, v); }
  }
}
