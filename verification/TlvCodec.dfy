/** Attribute values and TLV elements (Matter Core Specification, Appendix A), element by element. */
module TlvCodec {
  import opened Basics
  import opened AttributeValues

  datatype Element =
    | NullElement | BooleanElement(b: bool) | UnsignedElement(n: int) | SignedElement(n: int)
    | FloatElement(f: Float) | Utf8Element(bytes: seq<int>) | OctetsElement(bytes: seq<int>)

  /** What `strlen` sees of a buffer: the bytes before the first zero. */
  function CString(bytes: seq<int>): (s: seq<int>)
    ensures |s| <= |bytes| && s == bytes[..|s|]
  {
    if bytes == [] || bytes[0] == 0 then [] else [bytes[0]] + CString(bytes[1..])
  }

  predicate IsShort(b: Base) {
    b == CHAR_STRING || b == OCTET_STRING
  }

  // ----- encoding -----

  /** `Encode`. The null test of a nullable boolean looks at the value as a `bool`, which is never null. */
  function Encode(v: AttrVal): Option<Element> {
    match v.val
    case Num(n) =>
      if v.kind.base == BOOLEAN then Some(BooleanElement(n != 0))
      else if !IsFixedWidth(v.kind.base) then None
      else if ValIsNull(v) then Some(NullElement)
      else Some(if IsSigned(v.kind.base) then SignedElement(n) else UnsignedElement(n))
    case Flt(f) =>
      if v.kind.base != FLOAT then None else Some(if ValIsNull(v) then NullElement else FloatElement(f))
    case Buf(b, s) =>
      if !IsString(v.kind.base) then None
      else if b.None? && s == NullLen(v.kind.base) then Some(NullElement)
      else if IsChar(v.kind.base) then Some(Utf8Element(if b.None? then [] else CString(b.value)))
      else Some(OctetsElement(if b.Some? && s <= |b.value| then b.value[..s] else []))
  }

  // ----- decoding -----

  /** A number read from an element: it must be of the right signedness and fit the type. */
  function ReadNumber(b: Base, e: Element): Option<Val> {
    if e.UnsignedElement? && !IsSigned(b) && MinOf(b) <= e.n <= MaxOf(b) then Some(Num(e.n))
    else if e.SignedElement? && IsSigned(b) && MinOf(b) <= e.n <= MaxOf(b) then Some(Num(e.n))
    else None
  }

  function Low16(n: nat): (r: nat)
    ensures n <= 0xFFFF ==> r == n
  {
    n % 0x1_0000
  }

  /** A string read from an element. The length field has 16 bits, and `calloc(0)` gives no buffer. */
  function ReadString(b: Base, bytes: seq<int>): Option<Val> {
    if IsShort(b) && |bytes| > 0xFF then None
    else if !IsChar(b) && bytes == [] then None
    else Some(Buf(Some(bytes), Low16(|bytes|)))
  }

  /** `Decode` into a value of this type. */
  function Decode(k: Kind, e: Element): Option<Val> {
    if k.base == BOOLEAN then
      if k.nullable && e == NullElement then Some(Num(0xFF))
      else if e.BooleanElement? then Some(Num(if e.b then 1 else 0))
      else None
    else if IsFixedWidth(k.base) then
      if k.nullable && e == NullElement then Some(Num(Sentinel(k.base))) else ReadNumber(k.base, e)
    else if k.base == FLOAT then
      if k.nullable && e == NullElement then Some(Flt(NaN))
      else if e.FloatElement? then Some(Flt(e.f))
      else None
    else if IsString(k.base) then
      if e == NullElement then Some(Buf(None, NullLen(k.base)))
      else if IsChar(k.base) && e.Utf8Element? then ReadString(k.base, e.bytes)
      else if !IsChar(k.base) && e.OctetsElement? then ReadString(k.base, e.bytes)
      else None
    else None
  }

  // ----- round trip -----

  /** Encoding and decoding gives a value that means the same. */
  predicate Survives(v: AttrVal) {
    var e := Encode(v);
    && e.Some? && Decode(v.kind, e.value).Some?
    && MeaningOf(AttrVal(v.kind, Decode(v.kind, e.value).value)) == MeaningOf(v)
  }

  /** The values that survive: supported types; no null boolean; a char string is as long as its length
      field says and has no zero inside; an octet string is not empty; a short string is short. */
  predicate Representable(v: AttrVal) {
    match v.val
    case Num(_) => IsFixedWidth(v.kind.base) || (v.kind.base == BOOLEAN && !ValIsNull(v))
    case Flt(_) => true
    case Buf(b, s) =>
      && IsString(v.kind.base) && (IsShort(v.kind.base) ==> s <= 0xFF)
      && (IsChar(v.kind.base) && b.Some? ==> |CString(b.value)| == s)
      && (!IsChar(v.kind.base) ==> s > 0)
  }

  /** The lengths a value can have: 16 bits, and enough memory behind them. A boolean is a `bool` or null. */
  predicate InMemory(v: AttrVal) {
    && WellFormed(v)
    && (v.val.Num? && v.kind.base == BOOLEAN ==> v.val.n == 0 || v.val.n == 1 || ValIsNull(v))
    && (v.val.Buf? ==> v.val.s <= 0xFFFF && (v.val.b.Some? ==> v.val.s <= |v.val.b.value| <= 0xFFFF))
  }

  lemma NumberSurvives(v: AttrVal)
    requires InMemory(v) && !v.val.Buf?
    ensures Survives(v) <==> Representable(v)
  {
  }

  lemma CharsSurvive(v: AttrVal)
    requires InMemory(v) && v.val.Buf? && IsChar(v.kind.base)
    ensures Survives(v) <==> Representable(v)
  {
    if v.val.b.Some? {
      var c := CString(v.val.b.value);
      CharsDecoded(v.kind, c);
      if !IsShort(v.kind.base) || |c| <= 0xFF { CharsMeaning(v, AttrVal(v.kind, Buf(Some(c), |c|)), c); }
    }
  }

  lemma CharsDecoded(k: Kind, c: seq<int>)
    requires IsChar(k.base) && |c| <= 0xFFFF
    ensures Decode(k, Utf8Element(c)) == if IsShort(k.base) && |c| > 0xFF then None else Some(Buf(Some(c), |c|))
  {
  }

  lemma CharsMeaning(v: AttrVal, w: AttrVal, c: seq<int>)
    requires InMemory(v) && v.val.Buf? && IsChar(v.kind.base) && v.val.b.Some? && c == CString(v.val.b.value)
    requires |c| <= 0xFFFF && (IsShort(v.kind.base) ==> |c| <= 0xFF) && w == AttrVal(v.kind, Buf(Some(c), |c|))
    ensures MeaningOf(w) == MeaningOf(v) <==> |c| == v.val.s
  {
    BufferLength(v);
    BufferLength(w);
  }

  lemma OctetsSurvive(v: AttrVal)
    requires InMemory(v) && v.val.Buf? && !IsChar(v.kind.base)
    ensures Survives(v) <==> Representable(v)
  {
    if v.val.b.Some? { assert v.val.b.value[..v.val.s][..v.val.s] == v.val.b.value[..v.val.s]; }
  }

  /** `Decode` undoes `Encode` for exactly the representable values. */
  lemma TlvRoundTrip(v: AttrVal)
    requires InMemory(v)
    ensures Survives(v) <==> Representable(v)
  {
    if !v.val.Buf? {
      NumberSurvives(v);
    } else if IsChar(v.kind.base) {
      CharsSurvive(v);
    } else {
      OctetsSurvive(v);
    }
  }

  // ----- meaning on the wire -----

  /** What an element says by itself. */
  function ElementMeaning(e: Element): Meaning {
    match e
    case NullElement => Null
    case BooleanElement(b) => Number(if b then 1 else 0)
    case UnsignedElement(n) => Number(n)
    case SignedElement(n) => Number(n)
    case FloatElement(f) => Fraction(f)
    case Utf8Element(bytes) => Bytes(bytes)
    case OctetsElement(bytes) => Bytes(bytes)
  }

  /** The element is of the type that the value type calls for. */
  predicate TypeFits(k: Kind, e: Element) {
    match e
    case NullElement => k.nullable || IsString(k.base)
    case BooleanElement(_) => k.base == BOOLEAN
    case UnsignedElement(n) => IsFixedWidth(k.base) && !IsSigned(k.base) && n >= 0
    case SignedElement(_) => IsFixedWidth(k.base) && IsSigned(k.base)
    case FloatElement(_) => k.base == FLOAT
    case Utf8Element(_) => IsChar(k.base)
    case OctetsElement(_) => IsString(k.base) && !IsChar(k.base)
  }

  /** What is written on the wire is of the right type and says what the value means, exactly unless the
      value is a null boolean, a char string that does not agree with its length field, or a buffer whose
      length is the one reserved for null. */
  lemma WireMeaning(v: AttrVal)
    requires InMemory(v) && Encode(v).Some?
    ensures TypeFits(v.kind, Encode(v).value)
    ensures ElementMeaning(Encode(v).value) == MeaningOf(v) <==>
      match v.val
      case Num(_) => v.kind.base != BOOLEAN || !ValIsNull(v)
      case Flt(_) => true
      case Buf(b, s) => b.Some? ==> s != NullLen(v.kind.base) && (IsChar(v.kind.base) ==> |CString(b.value)| == s)
  {
    if v.val.Buf? { BufferLength(v); }
  }

  /** A number, or a string of the length, that the type reserves for null. */
  predicate Reserved(k: Kind, e: Element) {
    match e
    case UnsignedElement(n) => k.nullable && n == Sentinel(k.base)
    case SignedElement(n) => k.nullable && n == Sentinel(k.base)
    case FloatElement(f) => k.nullable && f == NaN
    case Utf8Element(bytes) => |bytes| == NullLen(k.base)
    case OctetsElement(bytes) => |bytes| == NullLen(k.base)
    case _ => false
  }

  lemma ReadStringMeaning(b: Base, bytes: seq<int>)
    requires IsString(b) && ReadString(b, bytes).Some? && |bytes| <= 0xFFFF
    ensures MeaningOf(AttrVal(Kind(b, false), ReadString(b, bytes).value)) == Bytes(bytes) <==> |bytes| != NullLen(b)
    ensures MeaningOf(AttrVal(Kind(b, true), ReadString(b, bytes).value)) == Bytes(bytes) <==> |bytes| != NullLen(b)
  {
    assert bytes[..|bytes|] == bytes;
  }

  /** The elements that a type accepts: of its own sort and size, or null where it has one. */
  predicate Acceptable(k: Kind, e: Element) {
    match e
    case NullElement =>
      IsString(k.base) || (k.nullable && (IsFixedWidth(k.base) || k.base == BOOLEAN || k.base == FLOAT))
    case UnsignedElement(n) => TypeFits(k, e) && n <= MaxOf(k.base)
    case SignedElement(n) => TypeFits(k, e) && MinOf(k.base) <= n <= MaxOf(k.base)
    case Utf8Element(bytes) => TypeFits(k, e) && (k.base == CHAR_STRING ==> |bytes| <= 0xFF)
    case OctetsElement(bytes) => TypeFits(k, e) && bytes != [] && (k.base == OCTET_STRING ==> |bytes| <= 0xFF)
    case _ => TypeFits(k, e)
  }

  /** Exactly the acceptable elements are decoded, and exactly the values of supported types are encoded. */
  lemma CodecAccepts(k: Kind, e: Element, v: AttrVal)
    ensures Decode(k, e).Some? <==> Acceptable(k, e)
    ensures WellFormed(v) ==> (Encode(v).Some? <==> v.kind.base != INTEGER && v.kind.base != ARRAY)
  {
  }

  /** What is read from the wire means what the element says, exactly unless the element is reserved. */
  lemma ReadMeaning(k: Kind, e: Element)
    requires Decode(k, e).Some? && ((e.Utf8Element? || e.OctetsElement?) ==> |e.bytes| <= 0xFFFF)
    ensures MeaningOf(AttrVal(k, Decode(k, e).value)) == ElementMeaning(e) <==> !Reserved(k, e)
  {
    if e.Utf8Element? || e.OctetsElement? { ReadStringMeaning(k.base, e.bytes); }
  }

  // ----- the buffers as they are written -----

  lemma CStringIs(bytes: seq<int>, n: nat)
    requires n <= |bytes| && (forall i | 0 <= i < n :: bytes[i] != 0) && (n < |bytes| ==> bytes[n] == 0)
    ensures CString(bytes) == bytes[..n]
  {
    if n > 0 {
      CStringIs(bytes[1..], n - 1);
      assert bytes[..n] == [bytes[0]] + bytes[1..][..n - 1];
    }
  }

  /** `strlen`: the buffer holds `bytes` and a zero after them, so the loop stays inside it. */
  method StringLength(buf: array<int>) returns (n: nat)
    requires buf.Length > 0 && buf[buf.Length - 1] == 0
    ensures n < buf.Length && buf[..n] == CString(buf[..buf.Length - 1])
  {
    n := 0;
    while buf[n] != 0
      invariant n < buf.Length
      invariant forall i | 0 <= i < n :: buf[i] != 0
      decreases buf.Length - n
    {
      n := n + 1;
    }
    CStringIs(buf[..buf.Length - 1], n);
  }

  /** `attribute_data_decode_buffer` and `attribute_data_encode_buffer`: a value whose string bytes are in a
      heap buffer, with a zero after those of a char string. */
  class DataBuffer {
    const kind: Kind
    var plain: Val
    var buf: array?<int>
    var size: nat

    predicate Valid()
      reads this, buf
    {
      buf != null && IsChar(kind.base) ==> buf.Length > 0 && buf[buf.Length - 1] == 0
    }

    /** The bytes in the buffer without the terminating zero. */
    function Stored(): Option<seq<int>>
      requires Valid()
      reads this, buf
    {
      if buf == null then None else Some(buf[..if IsChar(kind.base) then buf.Length - 1 else buf.Length])
    }

    function Value(): AttrVal
      requires Valid()
      reads this, buf
    {
      AttrVal(kind, if IsString(kind.base) then Buf(Stored(), size) else plain)
    }

    constructor (kind: Kind)
      ensures Valid() && this.kind == kind && (IsString(kind.base) ==> MeaningOf(Value()) == Bytes([]))
    {
      this.kind, plain, buf, size := kind, Num(0), null, 0;
    }

    /** The string branches of `Encode`. */
    method StringElement() returns (e: Element)
      requires Valid() && IsString(kind.base) && InMemory(Value())
      ensures Encode(Value()) == Some(e)
    {
      if buf == null && size == NullLen(kind.base) {
        return NullElement;
      }
      if buf == null {
        return if IsChar(kind.base) then Utf8Element([]) else OctetsElement([]);
      }
      if IsChar(kind.base) {
        var n := StringLength(buf);
        return Utf8Element(buf[..n]);
      }
      assert buf[..buf.Length][..size] == buf[..size];
      return OctetsElement(buf[..size]);
    }

    /** `Encode`: on success one element is appended, of the type that the value calls for, and it decodes to
        the same meaning exactly for the representable values. */
    method WriteTo(written: seq<Element>) returns (ok: bool, written': seq<Element>)
      requires Valid() && InMemory(Value())
      ensures ok <==> Encode(Value()).Some?
      ensures !ok ==> written' == written && !IsString(kind.base)
      ensures ok ==> |written'| == |written| + 1 && written'[..|written|] == written
      ensures ok ==> TypeFits(kind, written'[|written|])
      ensures ok ==> (Representable(Value()) <==>
        Decode(kind, written'[|written|]).Some? &&
        MeaningOf(AttrVal(kind, Decode(kind, written'[|written|]).value)) == MeaningOf(Value()))
    {
      var e;
      if IsString(kind.base) {
        var element := StringElement();
        e := Some(element);
      } else {
        e := Encode(AttrVal(kind, plain));
      }
      if e.None? {
        return false, written;
      }
      TlvRoundTrip(Value());
      WireMeaning(Value());
      return true, written + [e.value];
    }

    /** `Decode`: on success the value means what the element says, exactly unless the element is reserved. */
    method ReadFrom(e: Element) returns (ok: bool)
      requires Valid()
      modifies this
      ensures Valid() && ok == Decode(kind, e).Some?
      ensures ok ==> Value().val == Decode(kind, e).value
      ensures ok && ((e.Utf8Element? || e.OctetsElement?) ==> |e.bytes| <= 0xFFFF) ==>
        (MeaningOf(Value()) == ElementMeaning(e) <==> !Reserved(kind, e))
    {
      if Decode(kind, e).Some? && ((e.Utf8Element? || e.OctetsElement?) ==> |e.bytes| <= 0xFFFF) {
        ReadMeaning(kind, e);
      }
      if !IsString(kind.base) {
        var v := Decode(kind, e);
        if v.Some? {
          plain := v.value;
        }
        return v.Some?;
      }
      if e == NullElement {
        buf, size := null, NullLen(kind.base);
        return true;
      }
      if !(if IsChar(kind.base) then e.Utf8Element? else e.OctetsElement?) {
        return false;
      }
      if IsShort(kind.base) && |e.bytes| > 0xFF {
        return false;
      }
      if !IsChar(kind.base) && e.bytes == [] {
        return false;
      }
      CopyBytes(e.bytes);
      return true;
    }

    /** The allocation, with room for a terminating zero, and the copy out of the reader. */
    method CopyBytes(bytes: seq<int>)
      requires IsString(kind.base)
      modifies this`buf, this`size
      ensures Valid() && fresh(buf) && Value().val == Buf(Some(bytes), Low16(|bytes|))
    {
      var copy := new int[|bytes| + if IsChar(kind.base) then 1 else 0](_ => 0);
      for i := 0 to |bytes|
        invariant copy[..i] == bytes[..i]
        invariant forall j | |bytes| <= j < copy.Length :: copy[j] == 0
      {
        copy[i] := bytes[i];
      }
      assert copy[..|bytes|] == bytes;
      buf, size := copy, Low16(|bytes|);
    }
  }
}
