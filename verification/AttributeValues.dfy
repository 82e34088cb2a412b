/** Attribute values: their types, when two of them are the same, and how they compare with bounds. */
module AttributeValues {
  import opened Basics

  /** The types without their nullable variants. */
  datatype Base =
    | INVALID | BOOLEAN | INTEGER | FLOAT | ARRAY
    | CHAR_STRING | OCTET_STRING | LONG_CHAR_STRING | LONG_OCTET_STRING
    | INT8 | INT16 | INT32 | INT64 | UINT8 | UINT16 | UINT32 | UINT64
    | ENUM8 | ENUM16 | BITMAP8 | BITMAP16 | BITMAP32

  /** A value type; `nullable` is the bit `ESP_MATTER_VAL_NULLABLE_BASE`. */
  datatype Kind = Kind(base: Base, nullable: bool)

  /** A floating-point number without rounding; the infinities are not modelled. */
  datatype Float = NaN | Finite(r: real)

  /** The value union: a number of the width of its type, a float, or a buffer with its length field.
      A boolean is its storage byte. */
  datatype Val = Num(n: int) | Flt(f: Float) | Buf(b: Option<seq<int>>, s: nat)

  datatype AttrVal = AttrVal(kind: Kind, val: Val)

  predicate IsString(b: Base) {
    b == CHAR_STRING || b == OCTET_STRING || b == LONG_CHAR_STRING || b == LONG_OCTET_STRING
  }

  predicate IsChar(b: Base) {
    b == CHAR_STRING || b == LONG_CHAR_STRING
  }

  predicate IsSigned(b: Base) {
    b == INT8 || b == INT16 || b == INT32 || b == INT64 || b == INTEGER
  }

  /** Integer types of a fixed width, enumerations and bitmaps. */
  predicate IsFixedWidth(b: Base) {
    b == INT8 || b == INT16 || b == INT32 || b == INT64 || b == UINT8 || b == UINT16 || b == UINT32 || b == UINT64
    || b == ENUM8 || b == ENUM16 || b == BITMAP8 || b == BITMAP16 || b == BITMAP32
  }

  /** Width in bytes of the types kept in the union as a number. */
  function Width(b: Base): (w: nat)
    ensures w == 1 || w == 2 || w == 4 || w == 8
  {
    match b
    case INT16 | UINT16 | ENUM16 | BITMAP16 => 2
    case INT32 | UINT32 | BITMAP32 | INTEGER => 4
    case INT64 | UINT64 => 8
    case _ => 1
  }

  /** 256 to the power of `w`. */
  function Span(w: nat): (r: nat)
    ensures r > 0 && (w > 0 ==> r % 2 == 0)
  {
    if w == 0 then 1 else 256 * Span(w - 1)
  }

  function MinOf(b: Base): int {
    if IsSigned(b) then -(Span(Width(b)) / 2) else 0
  }

  function MaxOf(b: Base): int {
    if IsSigned(b) then Span(Width(b)) / 2 - 1 else Span(Width(b)) - 1
  }

  /** The value that stands for null: the smallest signed, the largest unsigned. */
  function Sentinel(b: Base): int {
    if IsSigned(b) then MinOf(b) else MaxOf(b)
  }

  /** The length that stands for a null string. */
  function NullLen(b: Base): nat {
    if b == CHAR_STRING || b == OCTET_STRING then 0xFF else 0xFFFF
  }

  /** The union holds what the type says, and a buffer is as long as its length field claims. */
  predicate WellFormed(v: AttrVal) {
    match v.val
    case Num(n) =>
      && (IsFixedWidth(v.kind.base) || v.kind.base == INTEGER || v.kind.base == BOOLEAN)
      && MinOf(v.kind.base) <= n <= MaxOf(v.kind.base)
    case Flt(_) => v.kind.base == FLOAT
    case Buf(b, s) =>
      && (IsString(v.kind.base) || v.kind.base == ARRAY) && !v.kind.nullable
      && (s != 0 && s != NullLen(v.kind.base) ==> b.Some? && |b.value| >= s)
  }

  /** `val_is_null`. A string is never null to it: its types have no nullable variant. */
  predicate ValIsNull(v: AttrVal) {
    v.kind.nullable && match v.val
                       case Num(n) => n == Sentinel(v.kind.base)
                       case Flt(f) => f == NaN
                       case Buf(_, _) => false
  }

  // ----- meaning -----

  datatype Meaning = Null | Number(n: int) | Fraction(f: Float) | Bytes(bytes: seq<int>)

  /** What a value says. */
  function MeaningOf(v: AttrVal): Meaning {
    if ValIsNull(v) then Null
    else match v.val
         case Num(n) => Number(n)
         case Flt(f) => Fraction(f)
         case Buf(b, s) =>
           if s == NullLen(v.kind.base) then Null
           else Bytes(if b.Some? && s <= |b.value| then b.value[..s] else [])
  }

  /** `val_compare`: integers of unspecified width and arrays are never equal, nor is a NaN. */
  predicate ValCompare(v: AttrVal, w: AttrVal) {
    v.kind == w.kind &&
    if IsString(v.kind.base) then
      v.val.Buf? && w.val.Buf? && v.val.s == w.val.s &&
      (v.val.s == NullLen(v.kind.base) || v.val.s == 0 ||
       (v.val.b.Some? && w.val.b.Some? && v.val.s <= |v.val.b.value| && v.val.s <= |w.val.b.value| &&
        v.val.b.value[..v.val.s] == w.val.b.value[..v.val.s]))
    else if IsFixedWidth(v.kind.base) || v.kind.base == BOOLEAN then
      v.val.Num? && w.val.Num? && v.val.n == w.val.n
    else if v.kind.base == FLOAT then
      v.val.Flt? && w.val.Flt? && v.val.f == w.val.f && v.val.f != NaN
    else
      false
  }

  /** The values on which `val_compare` is an equality test. */
  predicate Comparable(v: AttrVal) {
    WellFormed(v) && v.kind.base != INTEGER && v.kind.base != ARRAY && v.val != Flt(NaN)
  }

  /** `val_compare` decides whether two values of one type mean the same, exactly when they are comparable. */
  lemma CompareDecidesMeaning(v: AttrVal, w: AttrVal)
    requires WellFormed(v) && WellFormed(w)
    ensures ValCompare(v, w) <==> v.kind == w.kind && MeaningOf(v) == MeaningOf(w) && Comparable(v)
  {
    if v.val.Buf? { BufferLength(v); }
    if w.val.Buf? { BufferLength(w); }
  }

  lemma BufferLength(v: AttrVal)
    requires WellFormed(v) && v.val.Buf?
    ensures if v.val.s == NullLen(v.kind.base) then MeaningOf(v) == Null
            else MeaningOf(v).Bytes? && |MeaningOf(v).bytes| == v.val.s
  {
  }

  /** So it is an equivalence on comparable values. */
  lemma CompareEquivalence(u: AttrVal, v: AttrVal, w: AttrVal)
    requires WellFormed(u) && WellFormed(v) && WellFormed(w)
    ensures ValCompare(v, v) <==> Comparable(v)
    ensures ValCompare(u, v) <==> ValCompare(v, u)
    ensures ValCompare(u, v) && ValCompare(v, w) ==> ValCompare(u, w)
  {
    CompareDecidesMeaning(v, v);
    CompareDecidesMeaning(u, v);
    CompareDecidesMeaning(v, u);
    CompareDecidesMeaning(v, w);
    CompareDecidesMeaning(u, w);
  }

  // ----- bounds -----

  datatype Bounds = Bounds(min: Val, max: Val)

  datatype Order = Below | Within | Above | WrongType

  /** `compare_attr_val_with_bounds`. Comparisons with a NaN are false, so a NaN is within. */
  function CompareWithBounds(v: AttrVal, b: Bounds): Order {
    if IsFixedWidth(v.kind.base) && v.val.Num? && b.min.Num? && b.max.Num? then
      if ValIsNull(v) then Within
      else if v.val.n < b.min.n then Below
      else if v.val.n > b.max.n then Above
      else Within
    else if v.kind.base == FLOAT && v.val.Flt? && b.min.Flt? && b.max.Flt? then
      if ValIsNull(v) then Within
      else if v.val.f.Finite? && b.min.f.Finite? && v.val.f.r < b.min.f.r then Below
      else if v.val.f.Finite? && b.max.f.Finite? && v.val.f.r > b.max.f.r then Above
      else Within
    else WrongType
  }

  /** `bound_attribute_val`: the nearer bound if the value is outside. */
  function Clamp(v: AttrVal, b: Bounds): (r: AttrVal)
    ensures r.kind == v.kind
  {
    match CompareWithBounds(v, b)
    case Below => v.(val := b.min)
    case Above => v.(val := b.max)
    case _ => v
  }

  /** Null, or a number between the bounds. */
  predicate InBounds(v: AttrVal, b: Bounds) {
    ValIsNull(v) || (v.val.Num? && b.min.Num? && b.max.Num? && b.min.n <= v.val.n <= b.max.n)
  }

  /** For integer types, being within is being null or between the bounds; and clamping achieves it
      exactly when the bounds are ordered, the value is null, or a bound is itself the null value. */
  lemma ClampInBounds(v: AttrVal, b: Bounds)
    requires IsFixedWidth(v.kind.base) && v.val.Num? && b.min.Num? && b.max.Num?
    ensures CompareWithBounds(v, b) == Within <==> InBounds(v, b)
    ensures InBounds(Clamp(v, b), b) <==>
      b.min.n <= b.max.n || ValIsNull(v) ||
      (v.kind.nullable && (if v.val.n < b.min.n then b.min.n else b.max.n) == Sentinel(v.kind.base))
  {
  }

  function Distance(x: int, y: int): nat {
    if x < y then y - x else x - y
  }

  function RealDistance(x: real, y: real): real {
    if x < y then y - x else x - y
  }

  /** What bounding an integer is for: a null or a value between the bounds stays, and any other becomes the
      value between the bounds that is nearest to it. */
  ghost predicate IsNearest(v: AttrVal, b: Bounds, r: AttrVal) {
    && v.val.Num? && b.min.Num? && b.max.Num? && r.val.Num? && r.kind == v.kind
    && (InBounds(v, b) ==> r == v)
    && (!InBounds(v, b) ==>
      && b.min.n <= r.val.n <= b.max.n
      && forall w | b.min.n <= w <= b.max.n :: Distance(r.val.n, v.val.n) <= Distance(w, v.val.n))
  }

  /** The same for a float. A NaN stays, and as a bound it bounds nothing. */
  predicate RealInBounds(x: real, b: Bounds)
    requires b.min.Flt? && b.max.Flt?
  {
    (b.min.f.Finite? ==> b.min.f.r <= x) && (b.max.f.Finite? ==> x <= b.max.f.r)
  }

  ghost predicate IsNearestReal(v: AttrVal, b: Bounds, r: AttrVal) {
    && v.val.Flt? && b.min.Flt? && b.max.Flt? && r.val.Flt? && r.kind == v.kind
    && (v.val.f.NaN? || RealInBounds(v.val.f.r, b) ==> r == v)
    && (v.val.f.Finite? && !RealInBounds(v.val.f.r, b) ==>
      && r.val.f.Finite? && RealInBounds(r.val.f.r, b)
      && forall w | RealInBounds(w, b) :: RealDistance(r.val.f.r, v.val.f.r) <= RealDistance(w, v.val.f.r))
  }

  /** The bounds leave room for a value. */
  predicate Ordered(b: Bounds) {
    || (b.min.Num? && b.max.Num? && b.min.n <= b.max.n)
    || (b.min.Flt? && b.max.Flt? && (b.min.f.Finite? && b.max.f.Finite? ==> b.min.f.r <= b.max.f.r))
  }

  /** A value as ordered bounds leave it. */
  ghost predicate Nearest(v: AttrVal, b: Bounds, r: AttrVal) {
    if v.kind.base == FLOAT then IsNearestReal(v, b, r) else IsNearest(v, b, r)
  }

  /** Both bounds and the value are of a type that can be bounded. */
  predicate Boundable(v: AttrVal, b: Bounds) {
    || (IsFixedWidth(v.kind.base) && v.val.Num? && b.min.Num? && b.max.Num?)
    || (v.kind.base == FLOAT && v.val.Flt? && b.min.Flt? && b.max.Flt?)
  }

  /** Clamping to ordered bounds gives the nearest value between them. */
  lemma ClampNearest(v: AttrVal, b: Bounds)
    requires Boundable(v, b) && Ordered(b)
    ensures Nearest(v, b, Clamp(v, b))
  {
  }

  /** Bounds in the wrong order leave only a null alone: what is below the minimum becomes the minimum, and
      everything else the maximum. */
  lemma ClampCrossed(v: AttrVal, b: Bounds)
    requires IsFixedWidth(v.kind.base) && Boundable(v, b) && !Ordered(b)
    ensures Clamp(v, b).val == if ValIsNull(v) then v.val else if v.val.n < b.min.n then b.min else b.max
  {
  }

  /** For floats, being within is being NaN or between the bounds. */
  lemma WithinReal(v: AttrVal, b: Bounds)
    requires v.kind.base == FLOAT && Boundable(v, b)
    ensures CompareWithBounds(v, b) == Within <==> v.val.f.NaN? || RealInBounds(v.val.f.r, b)
  {
  }

  lemma SpanIs()
    ensures Span(1) == 0x100 && Span(2) == 0x1_0000 && Span(4) == 0x1_0000_0000
    ensures Span(8) == 0x1_0000_0000_0000_0000
  {
    assert Span(1) == 256 * Span(0) && Span(2) == 256 * Span(1) && Span(3) == 256 * Span(2);
    assert Span(4) == 256 * Span(3) && Span(5) == 256 * Span(4) && Span(6) == 256 * Span(5);
    assert Span(7) == 256 * Span(6) && Span(8) == 256 * Span(7);
  }

  /** The range of each signed type, whose smallest value stands for null. */
  lemma SignedRange(b: Base)
    requires b == INT8 || b == INT16 || b == INT32 || b == INT64
    ensures MaxOf(b) == match b
                        case INT8 => 0x7F
                        case INT16 => 0x7FFF
                        case INT32 => 0x7FFF_FFFF
                        case _ => 0x7FFF_FFFF_FFFF_FFFF
    ensures MinOf(b) == Sentinel(b) == -MaxOf(b) - 1
  {
    SpanIs();
  }

  /** The lengths that stand for a null string: those that the length field of a short or a long string cannot
      otherwise have. */
  lemma NullLengths(b: Base)
    ensures b == CHAR_STRING || b == OCTET_STRING ==> NullLen(b) == MaxOf(UINT8)
    ensures b == LONG_CHAR_STRING || b == LONG_OCTET_STRING ==> NullLen(b) == MaxOf(UINT16)
  {
    SpanIs();
  }

  /** The range of each unsigned type, whose largest value stands for null. */
  lemma UnsignedRange(b: Base)
    requires IsFixedWidth(b) && b != INT8 && b != INT16 && b != INT32 && b != INT64
    ensures MaxOf(b) == Sentinel(b) == match b
                                       case UINT8 | ENUM8 | BITMAP8 => 0xFF
                                       case UINT16 | ENUM16 | BITMAP16 => 0xFFFF
                                       case UINT32 | BITMAP32 => 0xFFFF_FFFF
                                       case _ => 0xFFFF_FFFF_FFFF_FFFF
    ensures MinOf(b) == 0
  {
    SpanIs();
  }
}
