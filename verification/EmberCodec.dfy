/** The ember byte buffers between a decoded write and the attribute: numbers are stored in the byte
    order of the chip, least significant byte first, in two's complement. */
module EmberCodec {
  import opened Basics
  import opened AttributeValues

  datatype Status = Success | ResourceExhausted | InvalidDataType

  /** The ember types that the data model produces for numbers. */
  datatype EmberType =
    | ZCL_NO_DATA | ZCL_BOOLEAN | ZCL_INT8S | ZCL_INT16S | ZCL_INT32S | ZCL_INT64S
    | ZCL_INT8U | ZCL_INT16U | ZCL_INT32U | ZCL_INT64U | ZCL_ENUM8 | ZCL_ENUM16
    | ZCL_BITMAP8 | ZCL_BITMAP16 | ZCL_BITMAP32

  // ----- bytes -----

  function ToBytes(w: nat, n: nat): (bs: seq<int>)
    ensures |bs| == w && forall i | 0 <= i < w :: 0 <= bs[i] < 256
  {
    if w == 0 then [] else [n % 256] + ToBytes(w - 1, n / 256)
  }

  function FromBytes(bs: seq<int>): int {
    if bs == [] then 0 else bs[0] + 256 * FromBytes(bs[1..])
  }

  lemma {:induction false} BytesRoundTrip(w: nat, n: nat)
    requires n < Span(w)
    ensures FromBytes(ToBytes(w, n)) == n
  {
    if w > 0 {
      assert n / 256 < Span(w - 1);
      BytesRoundTrip(w - 1, n / 256);
      assert ToBytes(w, n)[1..] == ToBytes(w - 1, n / 256);
    }
  }

  /** Least significant byte first: byte `i` counts the multiples of 256 to the power of `i`. */
  lemma {:induction false} ByteAt(w: nat, n: nat, i: nat)
    requires i < w
    ensures ToBytes(w, n)[i] == n / Span(i) % 256
  {
    if i > 0 {
      ByteAt(w - 1, n / 256, i - 1);
      DivideTwice(n, Span(i - 1));
    }
  }

  lemma DivideTwice(n: nat, b: nat)
    requires b > 0
    ensures n / 256 / b == n / (256 * b)
  {
    var q, r := n / 256 / b, n / 256 % b;
    assert n / 256 == b * q + r;
    assert (256 * b) * q == 256 * (b * q);
    QuotientIs(n, 256 * b, q, 256 * r + n % 256);
  }

  lemma QuotientIs(n: nat, m: nat, q: nat, r: nat)
    requires m > 0 && n == m * q + r && r < m
    ensures n / m == q
  {
    assert n == m * (n / m) + n % m;
    assert m * (n / m - q) == m * (n / m) - m * q;
    AtLeastOnce(m, n / m - q);
  }

  lemma AtLeastOnce(m: nat, d: int)
    ensures d >= 1 ==> m * d >= m
    ensures d <= -1 ==> m * d <= 0 - m
  {
    if d >= 1 { assert m * d == m * (d - 1) + m; }
    if d <= -1 { assert m * d == m * (d + 1) - m; }
  }

  /** The bit pattern of a number of type `b`, and back. */
  function Pattern(b: Base, n: int): int {
    if n < 0 then n + Span(Width(b)) else n
  }

  function OfPattern(b: Base, u: int): int {
    if IsSigned(b) && u >= Span(Width(b)) / 2 then u - Span(Width(b)) else u
  }

  /** Two's complement loses nothing: every number of the type has its own pattern. */
  lemma PatternRoundTrip(b: Base, n: int)
    requires IsFixedWidth(b) && MinOf(b) <= n <= MaxOf(b)
    ensures 0 <= Pattern(b, n) < Span(Width(b)) && OfPattern(b, Pattern(b, n)) == n
  {
  }

  // ----- filling a buffer -----

  /** The byte a boolean is stored as: null if it is nullable and null, else 0 or 1. */
  function BooleanByte(v: AttrVal): int
    requires v.val.Num?
  {
    if v.kind.nullable && v.val.n == 0xFF then 0xFF else if v.val.n == 0 then 0 else 1
  }

  /** The bytes of a number. A null is the pattern of the null value. */
  function Payload(v: AttrVal): seq<int>
    requires WellFormed(v) && (IsFixedWidth(v.kind.base) || v.kind.base == BOOLEAN)
  {
    if v.kind.base == BOOLEAN then [BooleanByte(v)]
    else
      PatternRoundTrip(v.kind.base, v.val.n);
      ToBytes(Width(v.kind.base), Pattern(v.kind.base, v.val.n))
  }

  /** `BuildEmberBufferFromAttrVal` for numbers: the value is stored at the front of the buffer. */
  method BuildBuffer(v: AttrVal, buf: array<int>) returns (status: Status)
    requires WellFormed(v) && v.val.Num?
    modifies buf
    ensures status == if v.kind.base == INTEGER then InvalidDataType
                      else if buf.Length < Width(v.kind.base) then ResourceExhausted
                      else Success
    ensures status != Success ==> buf[..] == old(buf[..])
    ensures status == Success ==>
      buf[..Width(v.kind.base)] == Payload(v) && buf[Width(v.kind.base)..] == old(buf[Width(v.kind.base)..])
  {
    if v.kind.base == INTEGER {
      return InvalidDataType;
    }
    if buf.Length < Width(v.kind.base) {
      return ResourceExhausted;
    }
    Store(Payload(v), buf);
    assert buf[..Width(v.kind.base)] == Payload(v);
    return Success;
  }

  /** A store through a pointer, byte by byte. */
  method Store(bytes: seq<int>, buf: array<int>)
    requires |bytes| <= buf.Length
    modifies buf
    ensures buf[..|bytes|] == bytes && buf[|bytes|..] == old(buf[|bytes|..])
  {
    for i := 0 to |bytes|
      invariant forall j | 0 <= j < i :: buf[j] == bytes[j]
      invariant forall j | i <= j < buf.Length :: buf[j] == old(buf[j])
    {
      buf[i] := bytes[i];
    }
  }

  // ----- reading a buffer -----

  /** `get_ember_attr_type_from_val_type` for numbers. */
  function TypeOf(k: Kind): EmberType {
    match k.base
    case BOOLEAN => ZCL_BOOLEAN
    case INT8 => ZCL_INT8S
    case INT16 => ZCL_INT16S
    case INT32 => ZCL_INT32S
    case INT64 => ZCL_INT64S
    case UINT8 => ZCL_INT8U
    case UINT16 => ZCL_INT16U
    case UINT32 => ZCL_INT32U
    case UINT64 => ZCL_INT64U
    case ENUM8 => ZCL_ENUM8
    case ENUM16 => ZCL_ENUM16
    case BITMAP8 => ZCL_BITMAP8
    case BITMAP16 => ZCL_BITMAP16
    case BITMAP32 => ZCL_BITMAP32
    case _ => ZCL_NO_DATA
  }

  /** The value type that a buffer of an ember type is read as. */
  function BaseOf(t: EmberType): Base {
    match t
    case ZCL_NO_DATA => INVALID
    case ZCL_BOOLEAN => BOOLEAN
    case ZCL_INT8S => INT8
    case ZCL_INT16S => INT16
    case ZCL_INT32S => INT32
    case ZCL_INT64S => INT64
    case ZCL_INT8U => UINT8
    case ZCL_INT16U => UINT16
    case ZCL_INT32U => UINT32
    case ZCL_INT64U => UINT64
    case ZCL_ENUM8 => ENUM8
    case ZCL_ENUM16 => ENUM16
    case ZCL_BITMAP8 => BITMAP8
    case ZCL_BITMAP16 => BITMAP16
    case ZCL_BITMAP32 => BITMAP32
  }

  /** `get_attr_val_from_raw_data_buffer` for numbers: a boolean is always read as a plain one. */
  function ReadBuffer(bytes: seq<int>, t: EmberType, nullable: bool): Option<AttrVal> {
    var b := BaseOf(t);
    if b == INVALID || |bytes| < Width(b) then None
    else if b == BOOLEAN then Some(AttrVal(Kind(BOOLEAN, false), Num(if bytes[0] == 0 then 0 else 1)))
    else Some(AttrVal(Kind(b, nullable), Num(OfPattern(b, FromBytes(bytes[..Width(b)])))))
  }

  /** A buffer is refused exactly if its type is unknown or it is too short for it. */
  lemma ReadBufferIff(bytes: seq<int>, k: Kind, nullable: bool)
    ensures ReadBuffer(bytes, TypeOf(k), nullable).Some? <==>
      (IsFixedWidth(k.base) || k.base == BOOLEAN) && |bytes| >= Width(k.base)
  {
  }

  // ----- round trip -----

  /** The type mapping forgets nothing but the nullable bit. */
  lemma TypeRoundTrip(k: Kind)
    ensures IsFixedWidth(k.base) || k.base == BOOLEAN ==> BaseOf(TypeOf(k)) == k.base
  {
  }

  lemma PayloadValue(v: AttrVal)
    requires WellFormed(v) && IsFixedWidth(v.kind.base)
    ensures OfPattern(v.kind.base, FromBytes(Payload(v))) == v.val.n
  {
    PatternRoundTrip(v.kind.base, v.val.n);
    BytesRoundTrip(Width(v.kind.base), Pattern(v.kind.base, v.val.n));
  }

  /** Whatever else the buffer holds, reading it back gives the value that was put in, type, null and
      all, exactly when the attribute's nullable flag agrees with the type of the value. */
  lemma NumberRoundTrip(v: AttrVal, bytes: seq<int>, nullable: bool)
    requires WellFormed(v) && IsFixedWidth(v.kind.base)
    requires Width(v.kind.base) <= |bytes| && bytes[..Width(v.kind.base)] == Payload(v)
    ensures ReadBuffer(bytes, TypeOf(v.kind), nullable) == Some(v) <==> nullable == v.kind.nullable
  {
    TypeRoundTrip(v.kind);
    PayloadValue(v);
  }

  /** A boolean comes back exactly when it is not nullable: a nullable one loses its type, and null reads
      as true. */
  lemma BooleanRoundTrip(v: AttrVal, bytes: seq<int>, nullable: bool)
    requires WellFormed(v) && v.kind.base == BOOLEAN && v.val.Num?
    requires v.val.n == 0 || v.val.n == 1 || (v.kind.nullable && v.val.n == 0xFF)
    requires 1 <= |bytes| && bytes[..1] == Payload(v)
    ensures ReadBuffer(bytes, TypeOf(v.kind), nullable) == Some(v) <==> !v.kind.nullable
    ensures Payload(v) == [v.val.n]
    ensures ValIsNull(v) ==> ReadBuffer(bytes, TypeOf(v.kind), nullable) == Some(AttrVal(Kind(BOOLEAN, false), Num(1)))
  {
    assert bytes[0] == bytes[..1][0];
  }

  /** The pipeline preserves meaning: null stays null, and all-ones of a plain type stays a number. */
  lemma {:induction false} WritePreservesMeaning(v: AttrVal, bytes: seq<int>)
    requires WellFormed(v) && IsFixedWidth(v.kind.base)
    requires Width(v.kind.base) <= |bytes| && bytes[..Width(v.kind.base)] == Payload(v)
    ensures ReadBuffer(bytes, TypeOf(v.kind), v.kind.nullable).Some?
    ensures MeaningOf(ReadBuffer(bytes, TypeOf(v.kind), v.kind.nullable).value) == MeaningOf(v)
  {
    NumberRoundTrip(v, bytes, v.kind.nullable);
  }
}
