/** The bridge as it is written: a fixed array of slots changed in place, and storage written step by
    step. Each method is proved to take exactly the path given by the protocol, write for write. */
module Bridge {
  import opened Basics
  import opened BridgeKeys
  import opened BridgeProtocol
  import opened BridgeBoot

  class Bridge {
    const slots: array<nat>
    const maxEndpoints: nat
    var nvs: Nvs
    var counter: nat
    var endpoints: map<nat, Endpoint>

    /** Every content of storage so far. */
    ghost var writes: seq<Nvs>

    ghost function S(): State
      reads this, slots
    {
      State(nvs, Ram(counter, endpoints, slots[..]))
    }

    /** From `s` with `w` written before, the outcome `o` has been reached. */
    ghost predicate Reached(w: seq<Nvs>, o: Outcome)
      reads this, slots
    {
      S() == o.s && writes == w + o.writes
    }

    /** The endpoints made before start, and `start`; the slots are still those of static memory. From
        consistent storage every content written is consistent, and the live ids are below the counter exactly
        when the firmware makes no more endpoints before start than the stored counter allows for. */
    constructor (n: Nvs, pre: seq<bool>, max: nat, maxEndpoints: nat)
      ensures fresh(slots) && slots.Length == max && this.maxEndpoints == maxEndpoints
      ensures (forall e | e in endpoints :: e < counter) <==> n.counter.None? || |pre| <= n.counter.value
      ensures nvs.counter == Some(counter) && nvs.blobs == n.blobs && (n.counter.Some? ==> nvs == n)
      ensures Consistent(n, |pre|, max) && |pre| <= INVALID_ENDPOINT ==>
        Consistent(nvs, |pre|, max) && AllConsistent(writes, |pre|, max)
      ensures State(nvs, Ram(counter, endpoints, [])) == Start(n, pre).s && writes == Start(n, pre).writes
    {
      slots := new nat[max](_ => 0);
      this.maxEndpoints := maxEndpoints;
      nvs, counter, endpoints, writes := n, 0, map[], [];
      new;
      for i := 0 to |pre|
        modifies this
        invariant counter == i && nvs == n && writes == [] && endpoints == PreEndpoints(pre[..i])
      {
        endpoints := endpoints[counter := Endpoint(INVALID_ENDPOINT, pre[i])];
        counter := counter + 1;
        assert endpoints == PreEndpoints(pre[..i + 1]);
      }
      assert pre[..|pre|] == pre;
      if nvs.counter.Some? {
        counter := nvs.counter.value;
      } else {
        Write(nvs.(counter := Some(counter)));
      }
      assert writes == Start(n, pre).writes;
      assert State(nvs, Ram(counter, endpoints, [])) == Start(n, pre).s;
      StartAboveLive(n, pre);
      if Consistent(n, |pre|, max) && |pre| <= INVALID_ENDPOINT { StartOk(n, pre, max); }
    }

    /** One write to non-volatile storage. */
    method Write(n: Nvs)
      modifies this
      ensures nvs == n && writes == old(writes) + [n] && counter == old(counter) && endpoints == old(endpoints)
    {
      nvs := n;
      writes := writes + [n];
    }

    /** `initialize`. A stored array of the configured length is taken over, a missing one is made and stored.
        One that is too long for the buffer is refused by storage, and one that is too short fills the front. */
    method InitializeSlots() returns (ok: bool)
      requires IDS_KEY in nvs.blobs ==> nvs.blobs[IDS_KEY].Ids?
      modifies this, slots
      ensures ok <==> IDS_KEY in old(nvs.blobs) ==> |old(nvs.blobs)[IDS_KEY].ids| <= slots.Length
      ensures IDS_KEY in old(nvs.blobs) ==> nvs == old(nvs) && writes == old(writes)
      ensures !ok ==> S() == old(S())
      ensures ok && IDS_KEY in old(nvs.blobs) ==>
        var ids := old(nvs.blobs)[IDS_KEY].ids;
        slots[..|ids|] == ids && slots[|ids|..] == old(slots[..])[|ids|..]
      ensures (IDS_KEY in old(nvs.blobs) ==> |old(nvs.blobs)[IDS_KEY].ids| == slots.Length) ==>
        Reached(old(writes), Initialize(old(S()), slots.Length))
    {
      if IDS_KEY in nvs.blobs {
        ok := TakeOver(nvs.blobs[IDS_KEY].ids);
        assert writes == old(writes) + [];
        return;
      }
      for i := 0 to slots.Length
        modifies slots
        invariant forall j | 0 <= j < i :: slots[j] == INVALID_ENDPOINT
      {
        slots[i] := INVALID_ENDPOINT;
      }
      assert slots[..] == Initialize(old(S()), slots.Length).s.ram.ids;
      Write(StoreIds(nvs, slots[..]));
      ok := true;
    }

    /** `nvs_get_blob` into the slots. */
    method TakeOver(ids: seq<nat>) returns (ok: bool)
      modifies slots
      ensures ok <==> |ids| <= slots.Length
      ensures !ok ==> slots[..] == old(slots[..])
      ensures ok ==> slots[..|ids|] == ids && slots[|ids|..] == old(slots[..])[|ids|..]
      ensures |ids| == slots.Length ==> slots[..] == ids
    {
      if |ids| > slots.Length {
        return false;
      }
      for i := 0 to |ids|
        invariant forall j | 0 <= j < i :: slots[j] == ids[j]
        invariant forall j | i <= j < slots.Length :: slots[j] == old(slots[j])
      {
        slots[i] := ids[i];
      }
      return true;
    }

    /** `erase_bridged_device_info`. */
    method EraseDeviceInfo(id: nat)
      modifies this, slots
      ensures Reached(old(writes), EraseInfo(old(S()), id))
    {
      ghost var ids := slots[..];
      for i := 0 to slots.Length
        modifies slots
        invariant forall j | 0 <= j < slots.Length :: slots[j] == if j < i then Cleared(ids, id)[j] else ids[j]
      {
        if slots[i] == id {
          slots[i] := INVALID_ENDPOINT;
        }
      }
      assert slots[..] == Cleared(ids, id);
      Write(StoreIds(nvs, slots[..]));
      Write(EraseKey(nvs, Key(id)));
      assert writes == old(writes) + EraseInfo(old(S()), id).writes;
    }

    /** `remove_device`. */
    method Remove(e: nat, id: nat)
      modifies this, slots
      ensures Reached(old(writes), RemoveDevice(old(S()), e, id))
    {
      EraseDeviceInfo(id);
      endpoints := endpoints - {e};
    }

    /** `endpoint::create` after start. */
    method NewEndpoint(aggregator: bool) returns (id: nat)
      modifies this
      ensures id == old(counter) && Reached(old(writes), CreateEndpoint(old(S()), aggregator))
    {
      id := counter;
      counter := counter + 1;
      Write(nvs.(counter := Some(counter)));
      endpoints := endpoints[id := Endpoint(INVALID_ENDPOINT, aggregator)];
    }

    /** `create_device`. */
    method Create(parent: nat, deviceType: nat, cb: Callback) returns (ok: bool)
      modifies this, slots
      ensures Reached(old(writes), CreateDevice(old(S()), maxEndpoints, parent, deviceType, cb))
      ensures ok == CreateDevice(old(S()), maxEndpoints, parent, deviceType, cb).ok
    {
      if parent !in endpoints || !endpoints[parent].aggregator || |endpoints| >= maxEndpoints {
        return false;
      }
      var id := NewEndpoint(cb.Accepts? && cb.addsAggregator);
      if cb.Rejects? {
        Remove(id, 0);
        return false;
      }
      endpoints := endpoints[id := Endpoint(parent, cb.addsAggregator)];
      ok := Register(Info(parent, id, deviceType));
    }

    /** The part of `create_device` from the record on. */
    method Register(info: Info) returns (ok: bool)
      modifies this, slots
      ensures Reached(old(writes), RegisterDevice(old(S()), info)) && ok == RegisterDevice(old(S()), info).ok
    {
      Write(StoreInfo(nvs, info));
      var k := FindFree();
      if k == slots.Length {
        Remove(info.device, info.device);
        assert writes == old(writes) + RegisterDevice(old(S()), info).writes;
        return false;
      }
      slots[k] := info.device;
      assert slots[..] == old(slots[..])[k := info.device];
      Write(StoreIds(nvs, slots[..]));
      assert writes == old(writes) + RegisterDevice(old(S()), info).writes;
      return true;
    }

    /** The slot search of `create_device`. */
    method FindFree() returns (k: nat)
      ensures k == FirstFree(slots[..])
    {
      k := 0;
      while k < slots.Length && slots[k] != INVALID_ENDPOINT
        invariant k <= slots.Length && forall i | 0 <= i < k :: slots[i] != INVALID_ENDPOINT
      {
        k := k + 1;
      }
    }

    /** `resume_device`. */
    method Resume(id: nat, cb: Callback) returns (ok: bool)
      modifies this, slots
      ensures Reached(old(writes), ResumeDevice(old(S()), id, cb)) && ok == ResumeDevice(old(S()), id, cb).ok
    {
      var info := ReadInfo(nvs, id);
      if info.None? || info.value.parent !in endpoints || !endpoints[info.value.parent].aggregator {
        return false;
      }
      if id in endpoints || id >= counter {
        EraseDeviceInfo(id);
        return false;
      }
      endpoints := endpoints[id := Endpoint(0, cb.Accepts? && cb.addsAggregator)];
      if cb.Rejects? {
        Remove(id, info.value.device);
        return false;
      }
      endpoints := endpoints[id := Endpoint(info.value.parent, cb.addsAggregator)];
      return true;
    }

    /** One round of the loop of `bridge_initialize`; an invalid slot is skipped. */
    method ResumeSlot(id: nat, cb: Callback)
      modifies this, slots
      ensures Reached(old(writes), SlotOutcome(old(S()), id, cb))
    {
      if id != INVALID_ENDPOINT {
        var ok := Resume(id, cb);
      }
    }

    /** The loop of `bridge_initialize`: it walks a copy of the array, since resuming may clear slots. */
    method ResumeSlots(cb: nat -> Callback)
      modifies this, slots
      ensures Reached(old(writes), ResumeAll(old(S()), old(slots[..]), cb))
    {
      var copy := slots[..];
      ghost var s0, w0 := S(), writes;
      var i := 0;
      while i < |copy|
        invariant i <= |copy|
        invariant Continues(ResumeAll(s0, copy, cb), writes, ResumeAll(S(), copy[i..], cb), w0)
      {
        ghost var s, w := S(), writes;
        ResumeSlot(copy[i], cb(copy[i]));
        ResumeAllStep(s, copy, i, cb);
        Continued(ResumeAll(s0, copy, cb), w, ResumeAll(s, copy[i..], cb), writes,
                  ResumeAll(S(), copy[i + 1..], cb), w0, SlotOutcome(s, copy[i], cb(copy[i])).writes);
        i := i + 1;
      }
    }

    /** The reset command: `esp_matter_bridge::factory_reset`, then the node's. */
    method Reset()
      modifies this, slots
      ensures writes == old(writes) + ResetWrites(old(nvs)) && nvs == Nvs(None, map[])
      ensures forall i | 0 <= i < slots.Length :: slots[i] == INVALID_ENDPOINT
    {
      Write(nvs.(blobs := map[]));
      for i := 0 to slots.Length
        modifies slots
        invariant forall j | 0 <= j < i :: slots[j] == INVALID_ENDPOINT
      {
        slots[i] := INVALID_ENDPOINT;
      }
      Write(Nvs(None, map[]));
    }
  }

  /** The outcome of the whole loop is what has been written so far, continued by what is left to do. */
  ghost predicate Continues(whole: Outcome, writes: seq<Nvs>, rest: Outcome, before: seq<Nvs>) {
    rest.s == whole.s && writes + rest.writes == before + whole.writes
  }

  lemma Continued(
    whole: Outcome, w: seq<Nvs>, rest: Outcome, w': seq<Nvs>, rest': Outcome, before: seq<Nvs>, more: seq<Nvs>)
    requires Continues(whole, w, rest, before)
    requires w' == w + more && rest.s == rest'.s && rest.writes == more + rest'.writes
    ensures Continues(whole, w', rest', before)
  {
  }

  lemma ResumeAllStep(s: State, ids: seq<nat>, i: nat, cb: nat -> Callback)
    requires i < |ids|
    ensures var o := SlotOutcome(s, ids[i], cb(ids[i]));
            && ResumeAll(s, ids[i..], cb).s == ResumeAll(o.s, ids[i + 1..], cb).s
            && ResumeAll(s, ids[i..], cb).writes == o.writes + ResumeAll(o.s, ids[i + 1..], cb).writes
  {
    assert ids[i..][1..] == ids[i + 1..];
  }
}
