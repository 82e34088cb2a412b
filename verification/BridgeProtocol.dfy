/** The bridge's persistence protocol. Every operation is given as a function from the state before it
    to its outcome: the state after it and the list of all contents that non-volatile storage took on
    along the way, one per write. A power loss leaves one of those contents behind. */
module BridgeProtocol {
  import opened Basics
  import opened BridgeKeys

  /** `device_persistent_info_t`. */
  datatype Info = Info(parent: nat, device: nat, deviceType: nat)

  datatype Blob = Ids(ids: seq<nat>) | Record(info: Info)

  /** Non-volatile storage: the endpoint-id counter of the node, and the bridge namespace. */
  datatype Nvs = Nvs(counter: Option<nat>, blobs: map<string, Blob>)

  /** A live endpoint as far as the bridge sees it. */
  datatype Endpoint = Endpoint(parent: nat, aggregator: bool)

  /** `min_unused_endpoint_id`, the endpoint list by id, and `bridged_endpoint_id_array`. */
  datatype Ram = Ram(counter: nat, endpoints: map<nat, Endpoint>, ids: seq<nat>)

  datatype State = State(nvs: Nvs, ram: Ram)

  datatype Outcome = Outcome(s: State, writes: seq<Nvs>, ok: bool)

  /** What the device-type callback of the application does with an endpoint. */
  datatype Callback = Rejects | Accepts(addsAggregator: bool)

  /** Do `o`, then more writes. */
  function Then(o: Outcome, s: State, writes: seq<Nvs>, ok: bool): Outcome {
    Outcome(s, o.writes + writes, ok)
  }

  // ----- operations -----

  function StoreIds(n: Nvs, ids: seq<nat>): Nvs {
    n.(blobs := n.blobs[IDS_KEY := Ids(ids)])
  }

  function StoreInfo(n: Nvs, info: Info): Nvs {
    n.(blobs := n.blobs[Key(info.device) := Record(info)])
  }

  function EraseKey(n: Nvs, key: string): Nvs {
    n.(blobs := n.blobs - {key})
  }

  function Cleared(ids: seq<nat>, id: nat): seq<nat> {
    seq(|ids|, i requires 0 <= i < |ids| => if ids[i] == id then INVALID_ENDPOINT else ids[i])
  }

  /** The first free slot, or the length. */
  function FirstFree(ids: seq<nat>): (k: nat)
    ensures k <= |ids| && (forall i | 0 <= i < k :: ids[i] != INVALID_ENDPOINT)
    ensures k < |ids| ==> ids[k] == INVALID_ENDPOINT
  {
    if ids == [] || ids[0] == INVALID_ENDPOINT then 0 else 1 + FirstFree(ids[1..])
  }

  /** `erase_bridged_device_info`: the slot goes before the record. */
  function EraseInfo(s: State, id: nat): Outcome {
    var ids := Cleared(s.ram.ids, id);
    var n1 := StoreIds(s.nvs, ids);
    var n2 := EraseKey(n1, Key(id));
    Outcome(State(n2, s.ram.(ids := ids)), [n1, n2], false)
  }

  /** `remove_device` for the endpoint `e` of a device whose record says `id`. */
  function RemoveDevice(s: State, e: nat, id: nat): Outcome {
    var o := EraseInfo(s, id);
    o.(s := o.s.(ram := o.s.ram.(endpoints := o.s.ram.endpoints - {e})))
  }

  /** `parent_endpoint_is_valid`. */
  predicate ParentValid(r: Ram, parent: nat) {
    parent in r.endpoints && r.endpoints[parent].aggregator
  }

  /** `endpoint::create` after start: the advanced counter is written before the endpoint is linked. */
  function CreateEndpoint(s: State, aggregator: bool): Outcome {
    var n1 := s.nvs.(counter := Some(s.ram.counter + 1));
    var endpoints := s.ram.endpoints[s.ram.counter := Endpoint(INVALID_ENDPOINT, aggregator)];
    Outcome(State(n1, Ram(s.ram.counter + 1, endpoints, s.ram.ids)), [n1], true)
  }

  /** The second half of `create_device`: the record is written before the slot is taken. */
  function RegisterDevice(s: State, info: Info): Outcome {
    var n1 := StoreInfo(s.nvs, info);
    var k := FirstFree(s.ram.ids);
    if k == |s.ram.ids| then
      var r := RemoveDevice(State(n1, s.ram), info.device, info.device);
      Outcome(r.s, [n1] + r.writes, false)
    else
      var ids := s.ram.ids[k := info.device];
      var n2 := StoreIds(n1, ids);
      Outcome(State(n2, s.ram.(ids := ids)), [n1, n2], true)
  }

  /** `create_device`. When the device type is rejected the record id is still the 0 of `calloc`. */
  function CreateDevice(s: State, maxEndpoints: nat, parent: nat, deviceType: nat, cb: Callback): Outcome {
    if !ParentValid(s.ram, parent) || |s.ram.endpoints| >= maxEndpoints then
      Outcome(s, [], false)
    else
      var id := s.ram.counter;
      var o := CreateEndpoint(s, cb.Accepts? && cb.addsAggregator);
      if cb.Rejects? then
        var r := RemoveDevice(o.s, id, 0);
        Then(o, r.s, r.writes, false)
      else
        var ram := o.s.ram.(endpoints := o.s.ram.endpoints[id := Endpoint(parent, cb.addsAggregator)]);
        var r := RegisterDevice(State(o.s.nvs, ram), Info(parent, id, deviceType));
        Then(o, r.s, r.writes, r.ok)
  }

  /** The record of an endpoint, if storage has one. */
  function ReadInfo(n: Nvs, id: nat): Option<Info> {
    if Key(id) in n.blobs && n.blobs[Key(id)].Record? then Some(n.blobs[Key(id)].info) else None
  }

  /** The two checks of `endpoint::resume`. */
  predicate CanResume(r: Ram, id: nat) {
    id !in r.endpoints && id < r.counter
  }

  /** `endpoint::resume` by itself: the parent link is the 0 of `calloc`, and nothing is written. */
  function ResumeEndpoint(s: State, id: nat, aggregator: bool): Outcome {
    if !CanResume(s.ram, id) then Outcome(s, [], false)
    else
      var endpoints := s.ram.endpoints[id := Endpoint(0, aggregator)];
      Outcome(State(s.nvs, s.ram.(endpoints := endpoints)), [], true)
  }

  /** `endpoint::set_parent_endpoint` between two live endpoints. */
  function SetParent(s: State, e: nat, parent: nat): Outcome
    requires e in s.ram.endpoints
  {
    var endpoints := s.ram.endpoints[e := s.ram.endpoints[e].(parent := parent)];
    Outcome(State(s.nvs, s.ram.(endpoints := endpoints)), [], true)
  }

  /** `resume_device`. A missing record or parent erases nothing. */
  function ResumeDevice(s: State, id: nat, cb: Callback): Outcome {
    var info := ReadInfo(s.nvs, id);
    if info.None? || !ParentValid(s.ram, info.value.parent) then
      Outcome(s, [], false)
    else if !CanResume(s.ram, id) then
      EraseInfo(s, id)
    else
      var ram := s.ram.(endpoints := s.ram.endpoints[id := Endpoint(0, cb.Accepts? && cb.addsAggregator)]);
      if cb.Rejects? then
        RemoveDevice(State(s.nvs, ram), id, info.value.device)
      else
        var endpoints := ram.endpoints[id := Endpoint(info.value.parent, cb.addsAggregator)];
        Outcome(State(s.nvs, ram.(endpoints := endpoints)), [], true)
  }

  /** One slot of the loop of `bridge_initialize`. */
  function SlotOutcome(s: State, id: nat, cb: Callback): Outcome {
    if id == INVALID_ENDPOINT then Outcome(s, [], true) else ResumeDevice(s, id, cb)
  }

  /** The loop of `bridge_initialize` over the slots `ids`, a copy of the array. */
  function ResumeAll(s: State, ids: seq<nat>, cb: nat -> Callback): Outcome
    decreases |ids|
  {
    if ids == [] then Outcome(s, [], true)
    else
      var o := SlotOutcome(s, ids[0], cb(ids[0]));
      var r := ResumeAll(o.s, ids[1..], cb);
      Then(o, r.s, r.writes, true)
  }

  /** The endpoints made before start, without parents: ids 0, 1, ... */
  function PreEndpoints(pre: seq<bool>): map<nat, Endpoint> {
    map i | 0 <= i < |pre| :: Endpoint(INVALID_ENDPOINT, pre[i])
  }

  /** `start`: the stored counter is read, or the current one is stored. */
  function Start(n: Nvs, pre: seq<bool>): Outcome {
    var n1 := if n.counter.Some? then n else n.(counter := Some(|pre|));
    Outcome(State(n1, Ram(n1.counter.value, PreEndpoints(pre), [])), if n.counter.Some? then [] else [n1], true)
  }

  /** `initialize`: the stored array is read, or an empty one is stored. */
  function Initialize(s: State, max: nat): Outcome {
    if IDS_KEY in s.nvs.blobs && s.nvs.blobs[IDS_KEY].Ids? then
      Outcome(s.(ram := s.ram.(ids := s.nvs.blobs[IDS_KEY].ids)), [], true)
    else
      var ids := seq(max, _ => INVALID_ENDPOINT);
      var n1 := StoreIds(s.nvs, ids);
      Outcome(State(n1, s.ram.(ids := ids)), [n1], true)
  }

  /** A whole boot up to the end of `bridge_initialize`. */
  function Boot(n: Nvs, pre: seq<bool>, max: nat, cb: nat -> Callback): Outcome {
    var o1 := Start(n, pre);
    var o2 := Initialize(o1.s, max);
    var o3 := ResumeAll(o2.s, o2.s.ram.ids, cb);
    Outcome(o3.s, o1.writes + o2.writes + o3.writes, true)
  }

  /** The reset command: first the bridge namespace, then the node's. The device then restarts. */
  function ResetWrites(n: Nvs): seq<Nvs> {
    [n.(blobs := map[]), Nvs(None, map[])]
  }

  // ----- consistent storage -----

  ghost predicate RecordOk(counter: Option<nat>, p: nat, key: string, b: Blob) {
    && b.Record? && counter.Some? && p <= b.info.device < counter.value
    && b.info.parent < b.info.device && key == Key(b.info.device)
  }

  ghost predicate IdsOk(blobs: map<string, Blob>, ids: seq<nat>, max: nat) {
    && |ids| == max
    && (forall i | 0 <= i < |ids| && ids[i] != INVALID_ENDPOINT :: Key(ids[i]) in blobs)
    && (forall i, j | 0 <= i < j < |ids| && ids[i] != INVALID_ENDPOINT :: ids[i] != ids[j])
  }

  /** Storage from which the node can be restored: every valid slot is distinct and has a record under
      its own key, and every record is for an id below the stored counter and not below `p`, the number
      of endpoints made before start. */
  ghost predicate Consistent(n: Nvs, p: nat, max: nat) {
    && (n.counter.Some? ==> p <= n.counter.value <= INVALID_ENDPOINT)
    && (forall k | k in n.blobs && k != IDS_KEY :: RecordOk(n.counter, p, k, n.blobs[k]))
    && (IDS_KEY in n.blobs ==> n.blobs[IDS_KEY].Ids? && IdsOk(n.blobs, n.blobs[IDS_KEY].ids, max))
  }

  ghost predicate AllConsistent(ns: seq<Nvs>, p: nat, max: nat) {
    forall i | 0 <= i < |ns| :: Consistent(ns[i], p, max)
  }

  /** A running node in step with its storage. */
  ghost predicate Running(s: State, p: nat, max: nat) {
    && Consistent(s.nvs, p, max) && s.nvs.counter == Some(s.ram.counter)
    && IDS_KEY in s.nvs.blobs && s.nvs.blobs[IDS_KEY] == Ids(s.ram.ids)
    && (forall e | e in s.ram.endpoints :: e < s.ram.counter)
    && (forall e | e in s.ram.endpoints :: LinkBelow(s.ram.endpoints[e].parent, s.ram.counter))
  }

  /** A parent link is invalid or was issued. */
  predicate LinkBelow(parent: nat, counter: nat) {
    parent == INVALID_ENDPOINT || parent < counter
  }

  /** A valid slot names a record with its own id. */
  lemma SlotRecord(n: Nvs, ids: seq<nat>, p: nat, max: nat, i: nat)
    requires Consistent(n, p, max) && IDS_KEY in n.blobs && n.blobs[IDS_KEY] == Ids(ids)
    requires i < |ids| && ids[i] != INVALID_ENDPOINT
    ensures Key(ids[i]) in n.blobs && n.blobs[Key(ids[i])].Record? && n.blobs[Key(ids[i])].info.device == ids[i]
    ensures n.counter.Some? && p <= ids[i] < n.counter.value && n.blobs[Key(ids[i])].info.parent < ids[i]
  {
    KeysApart(ids[i], ids[i]);
    var k := Key(ids[i]);
    assert RecordOk(n.counter, p, k, n.blobs[k]);
    KeysApart(ids[i], n.blobs[k].info.device);
  }

  /** An id that the counter has not reached is nowhere in storage. */
  lemma FreshId(n: Nvs, p: nat, max: nat, id: nat)
    requires Consistent(n, p, max) && (n.counter.Some? ==> id < p || id >= n.counter.value)
    ensures Key(id) !in n.blobs
    ensures IDS_KEY in n.blobs && id != INVALID_ENDPOINT ==> id !in n.blobs[IDS_KEY].ids
  {
    KeysApart(id, id);
    if Key(id) in n.blobs {
      assert RecordOk(n.counter, p, Key(id), n.blobs[Key(id)]);
      KeysApart(id, n.blobs[Key(id)].info.device);
    }
    if IDS_KEY in n.blobs && id != INVALID_ENDPOINT && id in n.blobs[IDS_KEY].ids {
      var i :| 0 <= i < |n.blobs[IDS_KEY].ids| && n.blobs[IDS_KEY].ids[i] == id;
      SlotRecord(n, n.blobs[IDS_KEY].ids, p, max, i);
    }
  }

  // ----- every write keeps storage consistent -----

  /** The remaining slots do not need the erased record. */
  lemma ClearedOk(blobs: map<string, Blob>, blobs': map<string, Blob>, ids: seq<nat>, id: nat, max: nat)
    requires IdsOk(blobs, ids, max) && forall k | k in blobs && k != Key(id) :: k in blobs'
    ensures IdsOk(blobs', Cleared(ids, id), max)
  {
    forall i | 0 <= i < |ids| && Cleared(ids, id)[i] != INVALID_ENDPOINT ensures Key(Cleared(ids, id)[i]) in blobs' {
      KeysApart(ids[i], id);
    }
  }

  lemma EraseInfoOk(s: State, id: nat, p: nat, max: nat)
    requires Running(s, p, max)
    ensures AllConsistent(EraseInfo(s, id).writes, p, max) && Running(EraseInfo(s, id).s, p, max)
  {
    KeysApart(id, id);
    var o := EraseInfo(s, id);
    ClearedOk(s.nvs.blobs, o.writes[0].blobs, s.ram.ids, id, max);
    ClearedOk(s.nvs.blobs, o.writes[1].blobs, s.ram.ids, id, max);
  }

  /** The device `id` has neither slot nor record any more; every other slot and record, and both counters, are as
      they were. */
  ghost predicate Forgotten(s: State, s': State, id: nat) {
    && s'.nvs.counter == s.nvs.counter && s'.ram.counter == s.ram.counter && |s'.ram.ids| == |s.ram.ids|
    && (forall i | 0 <= i < |s.ram.ids| ::
          s'.ram.ids[i] == if s.ram.ids[i] == id then INVALID_ENDPOINT else s.ram.ids[i])
    && ReadInfo(s'.nvs, id) == None
    && (forall x: nat | x != id :: ReadInfo(s'.nvs, x) == ReadInfo(s.nvs, x))
    && IDS_KEY in s'.nvs.blobs && s'.nvs.blobs[IDS_KEY] == Ids(s'.ram.ids)
  }

  /** `erase_bridged_device_info` forgets exactly one device and leaves the endpoints alone, and `remove_device`
      drops its endpoint as well. */
  lemma EraseExact(s: State, e: nat, id: nat)
    ensures Forgotten(s, EraseInfo(s, id).s, id) && EraseInfo(s, id).s.ram.endpoints == s.ram.endpoints
    ensures Forgotten(s, RemoveDevice(s, e, id).s, id)
    ensures RemoveDevice(s, e, id).s.ram.endpoints == s.ram.endpoints - {e}
  {
    KeysApart(id, id);
    forall x: nat | x != id ensures ReadInfo(EraseInfo(s, id).s.nvs, x) == ReadInfo(s.nvs, x) { KeysApart(x, id); }
  }

  lemma RemoveDeviceOk(s: State, e: nat, id: nat, p: nat, max: nat)
    requires Running(s, p, max)
    ensures AllConsistent(RemoveDevice(s, e, id).writes, p, max) && Running(RemoveDevice(s, e, id).s, p, max)
  {
    EraseInfoOk(s, id, p, max);
  }

  lemma CreateEndpointOk(s: State, aggregator: bool, p: nat, max: nat)
    requires Running(s, p, max) && s.ram.counter < INVALID_ENDPOINT
    ensures AllConsistent(CreateEndpoint(s, aggregator).writes, p, max)
    ensures Running(CreateEndpoint(s, aggregator).s, p, max)
  {
  }

  /** The record of a created device, for the id below the counter. */
  lemma StoreInfoOk(s: State, info: Info, p: nat, max: nat)
    requires Running(s, p, max) && p <= info.device < s.ram.counter && info.parent < info.device
    ensures Running(s.(nvs := StoreInfo(s.nvs, info)), p, max)
  {
    KeysApart(info.device, info.device);
  }

  /** Taking a free slot for an id that has a record and no slot. */
  lemma StoreSlotOk(s: State, k: nat, id: nat, p: nat, max: nat)
    requires Running(s, p, max) && k < |s.ram.ids| && id !in s.ram.ids && Key(id) in s.nvs.blobs
    ensures Running(State(StoreIds(s.nvs, s.ram.ids[k := id]), s.ram.(ids := s.ram.ids[k := id])), p, max)
  {
    KeysApart(id, id);
    forall i | 0 <= i < |s.ram.ids| && s.ram.ids[i] != INVALID_ENDPOINT ensures Key(s.ram.ids[i]) != IDS_KEY {
      KeysApart(s.ram.ids[i], id);
    }
  }

  lemma CreateDeviceOk(s: State, maxEndpoints: nat, parent: nat, deviceType: nat, cb: Callback, p: nat, max: nat)
    requires Running(s, p, max) && s.ram.counter < INVALID_ENDPOINT
    ensures AllConsistent(CreateDevice(s, maxEndpoints, parent, deviceType, cb).writes, p, max)
    ensures Running(CreateDevice(s, maxEndpoints, parent, deviceType, cb).s, p, max)
  {
    var id := s.ram.counter;
    if ParentValid(s.ram, parent) && |s.ram.endpoints| < maxEndpoints {
      FreshId(s.nvs, p, max, id);
      var o := CreateEndpoint(s, cb.Accepts? && cb.addsAggregator);
      CreateEndpointOk(s, cb.Accepts? && cb.addsAggregator, p, max);
      if cb.Rejects? {
        RemoveDeviceOk(o.s, id, 0, p, max);
      } else {
        var ram := o.s.ram.(endpoints := o.s.ram.endpoints[id := Endpoint(parent, cb.addsAggregator)]);
        RegisterDeviceOk(State(o.s.nvs, ram), Info(parent, id, deviceType), p, max);
      }
    }
  }

  lemma RegisterDeviceOk(s: State, info: Info, p: nat, max: nat)
    requires Running(s, p, max) && p <= info.device < s.ram.counter && info.parent < info.device
    requires info.device !in s.ram.ids
    ensures AllConsistent(RegisterDevice(s, info).writes, p, max) && Running(RegisterDevice(s, info).s, p, max)
  {
    StoreInfoOk(s, info, p, max);
    var s1 := State(StoreInfo(s.nvs, info), s.ram);
    if FirstFree(s.ram.ids) == |s.ram.ids| {
      RemoveDeviceOk(s1, info.device, info.device, p, max);
    } else {
      StoreSlotOk(s1, FirstFree(s.ram.ids), info.device, p, max);
    }
  }

  /** Nothing but the counter may differ. */
  ghost predicate OnlyCounter(s: State, s': State) {
    && s.ram.counter <= s'.ram.counter <= s.ram.counter + 1 && s'.nvs.counter == Some(s'.ram.counter)
    && s'.ram == s.ram.(counter := s'.ram.counter) && s'.nvs.blobs == s.nvs.blobs
  }

  /** Exactly one endpoint, one slot and one record were added. */
  ghost predicate DeviceAdded(s: State, s': State, parent: nat, deviceType: nat, aggregator: bool) {
    var id, k := s.ram.counter, FirstFree(s.ram.ids);
    && k < |s.ram.ids| && s'.ram == Ram(id + 1, s.ram.endpoints[id := Endpoint(parent, aggregator)], s.ram.ids[k := id])
    && id !in s.ram.endpoints && s'.nvs.counter == Some(id + 1)
    && s'.nvs.blobs == s.nvs.blobs[Key(id) := Record(Info(parent, id, deviceType))][IDS_KEY := Ids(s'.ram.ids)]
  }

  lemma RejectedUndone(s: State, p: nat, max: nat)
    requires Running(s, p, max) && s.ram.counter < INVALID_ENDPOINT
    ensures OnlyCounter(s, RemoveDevice(CreateEndpoint(s, false).s, s.ram.counter, 0).s)
  {
    var id := s.ram.counter;
    ZeroNeverStored(s, p, max);
    KeysApart(0, 0);
    assert Cleared(s.ram.ids, 0) == s.ram.ids;
    assert s.nvs.blobs[IDS_KEY := Ids(s.ram.ids)] - {Key(0)} == s.nvs.blobs;
    assert s.ram.endpoints[id := Endpoint(INVALID_ENDPOINT, false)] - {id} == s.ram.endpoints;
  }

  lemma FullUndone(s: State, s1: State, ep: Endpoint, info: Info, p: nat, max: nat)
    requires Running(s, p, max) && s.ram.counter < INVALID_ENDPOINT && info.device == s.ram.counter
    requires s1.ram == Ram(s.ram.counter + 1, s.ram.endpoints[s.ram.counter := ep], s.ram.ids)
    requires s1.nvs == StoreInfo(s.nvs.(counter := Some(s.ram.counter + 1)), info)
    ensures OnlyCounter(s, RemoveDevice(s1, info.device, info.device).s)
  {
    var id := s.ram.counter;
    FreshId(s.nvs, p, max, id);
    KeysApart(id, id);
    assert Cleared(s.ram.ids, id) == s.ram.ids;
    assert s1.nvs.blobs[IDS_KEY := Ids(s.ram.ids)] - {Key(id)} == s.nvs.blobs;
    assert s1.ram.endpoints - {id} == s.ram.endpoints;
  }

  /** `create_device` is all or nothing, on every branch. */
  lemma CreateDeviceAllOrNothing(
    s: State, maxEndpoints: nat, parent: nat, deviceType: nat, cb: Callback, p: nat, max: nat)
    requires Running(s, p, max) && s.ram.counter < INVALID_ENDPOINT
    ensures var o := CreateDevice(s, maxEndpoints, parent, deviceType, cb);
            if o.ok then DeviceAdded(s, o.s, parent, deviceType, cb.Accepts? && cb.addsAggregator)
            else OnlyCounter(s, o.s)
    ensures CreateDevice(s, maxEndpoints, parent, deviceType, cb).ok <==>
      && ParentValid(s.ram, parent) && |s.ram.endpoints| < maxEndpoints
      && cb.Accepts? && INVALID_ENDPOINT in s.ram.ids
  {
    var id := s.ram.counter;
    if ParentValid(s.ram, parent) && |s.ram.endpoints| < maxEndpoints {
      if cb.Rejects? {
        RejectedUndone(s, p, max);
      } else {
        var o := CreateEndpoint(s, cb.addsAggregator);
        var ep, info := Endpoint(parent, cb.addsAggregator), Info(parent, id, deviceType);
        var s2 := State(StoreInfo(o.s.nvs, info), o.s.ram.(endpoints := o.s.ram.endpoints[id := ep]));
        assert s2.ram.endpoints == s.ram.endpoints[id := ep];
        if FirstFree(s.ram.ids) == |s.ram.ids| { FullUndone(s, s2, ep, info, p, max); }
      }
    }
  }

  lemma ZeroNeverStored(s: State, p: nat, max: nat)
    requires Running(s, p, max)
    ensures 0 !in s.ram.ids && Key(0) !in s.nvs.blobs
  {
    KeysApart(0, 0);
    if Key(0) in s.nvs.blobs {
      assert RecordOk(s.nvs.counter, p, Key(0), s.nvs.blobs[Key(0)]);
      KeysApart(0, s.nvs.blobs[Key(0)].info.device);
    }
  }

  /** Removing a device that was just created gives back slots, records and endpoints; the id is spent. */
  lemma RemoveUndoesCreate(s: State, maxEndpoints: nat, parent: nat, deviceType: nat, cb: Callback, p: nat, max: nat)
    requires Running(s, p, max) && s.ram.counter < INVALID_ENDPOINT
    requires CreateDevice(s, maxEndpoints, parent, deviceType, cb).ok
    ensures RemoveDevice(CreateDevice(s, maxEndpoints, parent, deviceType, cb).s, s.ram.counter, s.ram.counter).s
         == State(s.nvs.(counter := Some(s.ram.counter + 1)), s.ram.(counter := s.ram.counter + 1))
  {
    var id := s.ram.counter;
    var o := CreateDevice(s, maxEndpoints, parent, deviceType, cb);
    CreateDeviceAllOrNothing(s, maxEndpoints, parent, deviceType, cb, p, max);
    FreshId(s.nvs, p, max, id);
    KeysApart(id, id);
    assert Cleared(o.s.ram.ids, id) == s.ram.ids;
    assert o.s.nvs.blobs[IDS_KEY := Ids(s.ram.ids)] - {Key(id)} == s.nvs.blobs;
    assert o.s.ram.endpoints - {id} == s.ram.endpoints;
  }
}
