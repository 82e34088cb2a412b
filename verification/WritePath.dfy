/** The whole way of a client's write: TLV element, decoded value, ember buffer, attribute, and the
    element that a later read sends back. */
module WritePath {
  import opened Basics
  import opened AttributeValues
  import opened AttributeStore
  import opened EmberCodec
  import opened TlvCodec
  import opened DataVersion

  /** What decoding gives is always well formed. */
  lemma DecodedWellFormed(k: Kind, e: Element)
    requires IsFixedWidth(k.base) && Decode(k, e).Some?
    ensures WellFormed(AttrVal(k, Decode(k, e).value))
  {
  }

  /** The element is null, or a number that the type does not reserve for null. */
  predicate Unreserved(k: Kind, e: Element) {
    k.nullable && (e.UnsignedElement? || e.SignedElement?) ==> e.n != Sentinel(k.base)
  }

  /** The value decoded from an element, and that value after its way through the ember buffer. */
  function Decoded(k: Kind, e: Element): AttrVal
    requires IsFixedWidth(k.base) && Decode(k, e).Some?
  {
    AttrVal(k, Decode(k, e).value)
  }

  function Arriving(k: Kind, e: Element): (v: AttrVal)
    requires IsFixedWidth(k.base) && Decode(k, e).Some?
    ensures v == Decoded(k, e)
  {
    DecodedWellFormed(k, e);
    var bytes := Payload(Decoded(k, e));
    NumberRoundTrip(Decoded(k, e), bytes, k.nullable);
    ReadBuffer(bytes, TypeOf(k), k.nullable).value
  }

  /** The provider's request for a write of the element `e` to an attribute of type `k` whose nullable flag
      agrees with its type, on the ember path. */
  function RequestFor(
    id: nat, k: Kind, e: Element, expected: Option<nat>, preUpdate: bool, bufferOk: bool, cb: Callback): Write
    requires IsFixedWidth(k.base) && Decode(k, e).Some?
  {
    Write(id, expected, Some(Decoded(k, e)), preUpdate, None, None, bufferOk, Proceed, Arriving(k, e), cb)
  }

  /** After a successful set of a number, changed or not, the attribute holds that number. */
  lemma HoldsArrived(a: Attr, v: AttrVal, cb: Callback)
    requires IsFixedWidth(a.kind.base) && v.val.Num? && a.val.Num?
    requires SetVal(a, v, cb).1 == ESP_OK || SetVal(a, v, cb).1 == ESP_ERR_NOT_FINISHED
    ensures Current(SetVal(a, v, cb).0) == v
  {
  }

  /** Encoding undoes decoding exactly for the unreserved elements. */
  lemma EncodeDecoded(k: Kind, e: Element)
    requires IsFixedWidth(k.base) && Decode(k, e).Some?
    ensures Encode(AttrVal(k, Decode(k, e).value)) == Some(e) <==> Unreserved(k, e)
  {
  }

  lemma StoresArrived(c: Cluster, w: Write)
    requires w.attribute in c.attributes && w.registry.None? && w.accessInterface.None? && w.preChange == Proceed
    requires IsFixedWidth(c.attributes[w.attribute].kind.base)
    requires c.attributes[w.attribute].val.Num? && w.arrives.val.Num?
    ensures var (c', status) := WriteAttribute(c, w);
            status == DataVersion.Success ==>
              w.attribute in c'.attributes && Current(c'.attributes[w.attribute]) == w.arrives
  {
    var (a, err) := SetVal(c.attributes[w.attribute], w.arrives, w.cb);
    if err == ESP_OK || err == ESP_ERR_NOT_FINISHED { HoldsArrived(c.attributes[w.attribute], w.arrives, w.cb); }
  }

  /** A client reads back the element it wrote, exactly when that element is not a number reserved for null. */
  lemma {:induction false} ClientReadsBack(
    c: Cluster, id: nat, e: Element, expected: Option<nat>, preUpdate: bool, bufferOk: bool, cb: Callback)
    requires id in c.attributes && IsFixedWidth(c.attributes[id].kind.base) && c.attributes[id].val.Num?
    requires Decode(c.attributes[id].kind, e).Some?
    ensures var k := c.attributes[id].kind;
            var (c', status) := WriteAttribute(c, RequestFor(id, k, e, expected, preUpdate, bufferOk, cb));
            status == DataVersion.Success ==>
              id in c'.attributes && (Encode(Current(c'.attributes[id])) == Some(e) <==> Unreserved(k, e))
  {
    var k := c.attributes[id].kind;
    DecodedWellFormed(k, e);
    StoresArrived(c, RequestFor(id, k, e, expected, preUpdate, bufferOk, cb));
    EncodeDecoded(k, e);
  }
}
