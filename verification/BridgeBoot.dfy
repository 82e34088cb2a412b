/** Booting a bridge: storage stays consistent, and exactly which devices come back. */
module BridgeBoot {
  import opened Basics
  import opened BridgeKeys
  import opened BridgeProtocol

  // ----- boot -----

  lemma StartOk(n: Nvs, pre: seq<bool>, max: nat)
    requires Consistent(n, |pre|, max) && |pre| <= INVALID_ENDPOINT
    ensures AllConsistent(Start(n, pre).writes, |pre|, max) && Consistent(Start(n, pre).s.nvs, |pre|, max)
  {
  }

  lemma InitializeOk(s: State, p: nat, max: nat)
    requires Consistent(s.nvs, p, max) && s.nvs.counter == Some(s.ram.counter)
    requires forall e | e in s.ram.endpoints :: e < s.ram.counter
    requires forall e | e in s.ram.endpoints :: LinkBelow(s.ram.endpoints[e].parent, s.ram.counter)
    ensures AllConsistent(Initialize(s, max).writes, p, max) && Running(Initialize(s, max).s, p, max)
  {
  }

  lemma ResumeDeviceOk(s: State, id: nat, cb: Callback, p: nat, max: nat)
    requires Running(s, p, max)
    ensures AllConsistent(ResumeDevice(s, id, cb).writes, p, max) && Running(ResumeDevice(s, id, cb).s, p, max)
  {
    var info := ReadInfo(s.nvs, id);
    if info.Some? && ParentValid(s.ram, info.value.parent) {
      ReadInfoOk(s.nvs, id, p, max);
      if !CanResume(s.ram, id) {
        EraseInfoOk(s, id, p, max);
      } else if cb.Rejects? {
        var ram := s.ram.(endpoints := s.ram.endpoints[id := Endpoint(0, false)]);
        RemoveDeviceOk(State(s.nvs, ram), id, info.value.device, p, max);
      }
    }
  }

  lemma ReadInfoOk(n: Nvs, id: nat, p: nat, max: nat)
    requires Consistent(n, p, max) && ReadInfo(n, id).Some?
    ensures ReadInfo(n, id).value.device == id && ReadInfo(n, id).value.parent < id
    ensures n.counter.Some? && p <= id < n.counter.value
  {
    KeysApart(id, id);
    assert RecordOk(n.counter, p, Key(id), n.blobs[Key(id)]);
    KeysApart(id, n.blobs[Key(id)].info.device);
  }

  /** The ways `resume_device` can end. Without a record or a valid parent nothing happens. With both, a device that
      cannot be resumed or is rejected is forgotten and no endpoint changes; any other comes back. */
  lemma ResumeOutcome(s: State, id: nat, cb: Callback, p: nat, max: nat)
    requires Running(s, p, max)
    ensures var o, info := ResumeDevice(s, id, cb), ReadInfo(s.nvs, id);
            if info.None? || !ParentValid(s.ram, info.value.parent) then o == Outcome(s, [], false)
            else if !CanResume(s.ram, id) || cb.Rejects? then
              Forgotten(s, o.s, id) && o.s.ram.endpoints == s.ram.endpoints && !o.ok
            else CameBack(s, o.s, id, cb) && o.writes == [] && o.ok
  {
    var info := ReadInfo(s.nvs, id);
    if info.Some? {
      ReadInfoOk(s.nvs, id, p, max);
      EraseExact(s, id, id);
      if CanResume(s.ram, id) {
        var endpoints := s.ram.endpoints[id := Endpoint(0, false)];
        EraseExact(State(s.nvs, s.ram.(endpoints := endpoints)), id, id);
        assert endpoints - {id} == s.ram.endpoints;
      }
    }
  }

  lemma {:induction false} ResumeAllOk(s: State, ids: seq<nat>, cb: nat -> Callback, p: nat, max: nat)
    requires Running(s, p, max)
    ensures AllConsistent(ResumeAll(s, ids, cb).writes, p, max) && Running(ResumeAll(s, ids, cb).s, p, max)
    decreases |ids|
  {
    if ids != [] {
      if ids[0] != INVALID_ENDPOINT { ResumeDeviceOk(s, ids[0], cb(ids[0]), p, max); }
      var o := SlotOutcome(s, ids[0], cb(ids[0]));
      ResumeAllOk(o.s, ids[1..], cb, p, max);
    }
  }

  /** The state in which `initialize` leaves a boot. */
  function Initialized(n: Nvs, pre: seq<bool>, max: nat): State {
    Initialize(Start(n, pre).s, max).s
  }

  lemma InitializedOk(n: Nvs, pre: seq<bool>, max: nat)
    requires Consistent(n, |pre|, max) && |pre| <= INVALID_ENDPOINT
    ensures Running(Initialized(n, pre, max), |pre|, max)
    ensures AllConsistent(Start(n, pre).writes + Initialize(Start(n, pre).s, max).writes, |pre|, max)
  {
    StartOk(n, pre, max);
    InitializeOk(Start(n, pre).s, |pre|, max);
  }

  /** Booting from consistent storage never passes through inconsistent storage. */
  lemma BootOk(n: Nvs, pre: seq<bool>, max: nat, cb: nat -> Callback)
    requires Consistent(n, |pre|, max) && |pre| <= INVALID_ENDPOINT
    ensures AllConsistent(Boot(n, pre, max, cb).writes, |pre|, max) && Running(Boot(n, pre, max, cb).s, |pre|, max)
  {
    InitializedOk(n, pre, max);
    var s := Initialized(n, pre, max);
    ResumeAllOk(s, s.ram.ids, cb, |pre|, max);
  }

  // ----- recovery -----

  /** Both checks of `endpoint::resume` pass for every slot of the loop. */
  ghost predicate ChecksPass(s: State, ids: seq<nat>, cb: nat -> Callback)
    decreases |ids|
  {
    ids != [] ==>
      && (ids[0] != INVALID_ENDPOINT ==> CanResume(s.ram, ids[0]))
      && ChecksPass(SlotOutcome(s, ids[0], cb(ids[0])).s, ids[1..], cb)
  }

  /** The slots still to be resumed are distinct ids below the counter without endpoint. */
  ghost predicate Pending(s: State, ids: seq<nat>) {
    && (forall i | 0 <= i < |ids| && ids[i] != INVALID_ENDPOINT :: CanResume(s.ram, ids[i]))
    && (forall i, j | 0 <= i < j < |ids| && ids[i] != INVALID_ENDPOINT :: ids[i] != ids[j])
  }

  lemma PendingAfter(s: State, ids: seq<nat>, cb: Callback)
    requires Pending(s, ids) && ids != [] && ids[0] != INVALID_ENDPOINT
    ensures Pending(ResumeDevice(s, ids[0], cb).s, ids[1..])
  {
  }

  lemma {:induction false} PendingPasses(s: State, ids: seq<nat>, cb: nat -> Callback)
    requires Pending(s, ids)
    ensures ChecksPass(s, ids, cb)
    decreases |ids|
  {
    if ids != [] {
      if ids[0] != INVALID_ENDPOINT { PendingAfter(s, ids, cb(ids[0])); }
      PendingPasses(SlotOutcome(s, ids[0], cb(ids[0])).s, ids[1..], cb);
    }
  }

  lemma SlotsPending(n: Nvs, pre: seq<bool>, max: nat)
    requires Consistent(n, |pre|, max) && |pre| <= INVALID_ENDPOINT
    ensures Pending(Initialized(n, pre, max), Initialized(n, pre, max).ram.ids)
  {
    InitializedOk(n, pre, max);
    var s := Initialized(n, pre, max);
    forall i | 0 <= i < |s.ram.ids| && s.ram.ids[i] != INVALID_ENDPOINT ensures CanResume(s.ram, s.ram.ids[i]) {
      SlotRecord(s.nvs, s.ram.ids, |pre|, max, i);
      assert s.ram.endpoints == PreEndpoints(pre);
    }
  }

  /** From consistent storage no slot is lost to a failed resume: the checks pass for every one. */
  lemma BootChecksPass(n: Nvs, pre: seq<bool>, max: nat, cb: nat -> Callback)
    requires Consistent(n, |pre|, max) && |pre| <= INVALID_ENDPOINT
    ensures ChecksPass(Initialized(n, pre, max), Initialized(n, pre, max).ram.ids, cb)
  {
    SlotsPending(n, pre, max);
    PendingPasses(Initialized(n, pre, max), Initialized(n, pre, max).ram.ids, cb);
  }

  /** The endpoints after resuming the slots `ids`: each comes back with its recorded parent and as the
      application makes it; nothing else has changed, in memory or storage. */
  ghost predicate Restored(s: State, s': State, ids: seq<nat>, cb: nat -> Callback) {
    && s'.nvs == s.nvs && s'.ram.ids == s.ram.ids && s'.ram.counter == s.ram.counter
    && (forall e :: e in s'.ram.endpoints <==> e in s.ram.endpoints || (e != INVALID_ENDPOINT && e in ids))
    && (forall e | e in s.ram.endpoints :: s'.ram.endpoints[e] == s.ram.endpoints[e])
    && (forall e | e != INVALID_ENDPOINT && e in ids && e !in s.ram.endpoints ::
          && ReadInfo(s.nvs, e).Some? && cb(e).Accepts?
          && s'.ram.endpoints[e] == Endpoint(ReadInfo(s.nvs, e).value.parent, cb(e).addsAggregator))
  }

  /** The parent `p` is an aggregator when slot `i` is resumed: it was one before the loop, or it is an
      accepted device at an earlier slot that is made one. */
  ghost predicate ParentReady(r: Ram, ids: seq<nat>, cb: nat -> Callback, i: nat, p: nat)
    requires i <= |ids|
  {
    || ParentValid(r, p)
    || exists j | 0 <= j < i :: ids[j] == p && p != INVALID_ENDPOINT && cb(p).Accepts? && cb(p).addsAggregator
  }

  /** Slot `i` has a record, its parent is ready, and the application accepts it. */
  ghost predicate SlotReady(s: State, ids: seq<nat>, cb: nat -> Callback, i: nat)
    requires i < |ids|
  {
    && cb(ids[i]).Accepts? && ReadInfo(s.nvs, ids[i]).Some?
    && ParentReady(s.ram, ids, cb, i, ReadInfo(s.nvs, ids[i]).value.parent)
  }

  ghost predicate Ready(s: State, ids: seq<nat>, cb: nat -> Callback) {
    forall i | 0 <= i < |ids| && ids[i] != INVALID_ENDPOINT :: SlotReady(s, ids, cb, i)
  }

  /** The state after a slot that came back. */
  ghost predicate CameBack(s: State, s1: State, id: nat, cb: Callback) {
    && ReadInfo(s.nvs, id).Some? && s1.nvs == s.nvs && s1.ram.ids == s.ram.ids && s1.ram.counter == s.ram.counter
    && cb.Accepts?
    && s1.ram.endpoints == s.ram.endpoints[id := Endpoint(ReadInfo(s.nvs, id).value.parent, cb.addsAggregator)]
  }

  lemma FirstSlot(s: State, ids: seq<nat>, cb: nat -> Callback)
    requires Pending(s, ids) && ids != [] && ids[0] != INVALID_ENDPOINT
    ensures SlotReady(s, ids, cb, 0) ==> CameBack(s, ResumeDevice(s, ids[0], cb(ids[0])).s, ids[0], cb(ids[0]))
    ensures SlotReady(s, ids, cb, 0) ==> ResumeDevice(s, ids[0], cb(ids[0])).writes == []
    ensures !SlotReady(s, ids, cb, 0) ==> ids[0] !in ResumeDevice(s, ids[0], cb(ids[0])).s.ram.endpoints
  {
  }

  /** What is ready stays ready: a parent at the first slot is then an endpoint. */
  lemma ReadyAfter(s: State, s1: State, ids: seq<nat>, cb: nat -> Callback, i: nat)
    requires ids != [] && ids[0] != INVALID_ENDPOINT && CameBack(s, s1, ids[0], cb(ids[0])) && 0 < i < |ids|
    requires ids[0] !in s.ram.endpoints
    ensures SlotReady(s, ids, cb, i) <==> SlotReady(s1, ids[1..], cb, i - 1)
  {
    if ReadInfo(s.nvs, ids[i]).Some? {
      var p := ReadInfo(s.nvs, ids[i]).value.parent;
      ParentReadyAfter(s, s1, ids, cb, i, p);
    }
  }

  lemma ParentReadyAfter(s: State, s1: State, ids: seq<nat>, cb: nat -> Callback, i: nat, p: nat)
    requires ids != [] && ids[0] != INVALID_ENDPOINT && CameBack(s, s1, ids[0], cb(ids[0])) && 0 < i < |ids|
    requires ids[0] !in s.ram.endpoints
    ensures ParentReady(s.ram, ids, cb, i, p) <==> ParentReady(s1.ram, ids[1..], cb, i - 1, p)
  {
    if ParentReady(s.ram, ids, cb, i, p) && !ParentValid(s1.ram, p) {
      var j :| 0 <= j < i && ids[j] == p && p != INVALID_ENDPOINT && cb(p).Accepts? && cb(p).addsAggregator;
      assert ids[1..][j - 1] == p;
    }
    if ParentReady(s1.ram, ids[1..], cb, i - 1, p) && !ParentValid(s.ram, p) {
      if ParentValid(s1.ram, p) {
        assert ids[0] == p;
      } else {
        var j :| 0 <= j < i - 1 && ids[1..][j] == p && p != INVALID_ENDPOINT && cb(p).Accepts? && cb(p).addsAggregator;
        assert ids[j + 1] == p;
      }
    }
  }

  lemma ReadyRest(s: State, s1: State, ids: seq<nat>, cb: nat -> Callback)
    requires ids != [] && ids[0] != INVALID_ENDPOINT && CameBack(s, s1, ids[0], cb(ids[0]))
    requires ids[0] !in s.ram.endpoints
    ensures Ready(s1, ids[1..], cb) <==>
      forall i | 0 < i < |ids| && ids[i] != INVALID_ENDPOINT :: SlotReady(s, ids, cb, i)
  {
    forall i | 0 < i < |ids| ensures SlotReady(s, ids, cb, i) <==> SlotReady(s1, ids[1..], cb, i - 1) {
      ReadyAfter(s, s1, ids, cb, i);
    }
    if Ready(s1, ids[1..], cb) {
      forall i | 0 < i < |ids| && ids[i] != INVALID_ENDPOINT ensures SlotReady(s, ids, cb, i) {
        assert ids[1..][i - 1] == ids[i];
      }
    } else {
      var k :| 0 <= k < |ids[1..]| && ids[1..][k] != INVALID_ENDPOINT && !SlotReady(s1, ids[1..], cb, k);
      assert !SlotReady(s, ids, cb, k + 1) && ids[k + 1] == ids[1..][k];
    }
  }

  /** An invalid slot at the front changes nothing. */
  lemma ReadySkip(s: State, ids: seq<nat>, cb: nat -> Callback)
    requires ids != [] && ids[0] == INVALID_ENDPOINT
    ensures Ready(s, ids, cb) <==> Ready(s, ids[1..], cb)
  {
    forall i | 0 < i < |ids| ensures SlotReady(s, ids, cb, i) <==> SlotReady(s, ids[1..], cb, i - 1) {
      if ReadInfo(s.nvs, ids[i]).Some? {
        var p := ReadInfo(s.nvs, ids[i]).value.parent;
        if j :| 0 <= j < i && ids[j] == p && p != INVALID_ENDPOINT { assert ids[1..][j - 1] == p; }
        if j :| 0 <= j < i - 1 && ids[1..][j] == p { assert ids[j + 1] == p; }
      }
    }
    if !Ready(s, ids[1..], cb) {
      var k :| 0 <= k < |ids[1..]| && ids[1..][k] != INVALID_ENDPOINT && !SlotReady(s, ids[1..], cb, k);
      assert !SlotReady(s, ids, cb, k + 1) && ids[k + 1] == ids[1..][k];
    }
    if Ready(s, ids[1..], cb) {
      forall i | 0 <= i < |ids| && ids[i] != INVALID_ENDPOINT ensures SlotReady(s, ids, cb, i) {
        assert ids[1..][i - 1] == ids[i];
      }
    }
  }

  /** The loop touches no endpoint but those of its slots. */
  lemma {:induction false} NoOthers(s: State, ids: seq<nat>, cb: nat -> Callback, e: nat)
    requires e !in ids
    ensures var r := ResumeAll(s, ids, cb).s.ram;
            && (e in r.endpoints <==> e in s.ram.endpoints)
            && (e in r.endpoints ==> r.endpoints[e] == s.ram.endpoints[e])
    decreases |ids|
  {
    if ids != [] {
      assert ids[0] in ids;
      NoOthers(SlotOutcome(s, ids[0], cb(ids[0])).s, ids[1..], cb, e);
    }
  }

  lemma RestoredOneMore(s: State, s1: State, s': State, ids: seq<nat>, cb: nat -> Callback)
    requires ids != [] && ids[0] != INVALID_ENDPOINT && ids[0] !in s.ram.endpoints
    requires CameBack(s, s1, ids[0], cb(ids[0]))
    requires ids[0] !in ids[1..]
    ensures Restored(s1, s', ids[1..], cb) <==> Restored(s, s', ids, cb)
  {
    assert forall e :: e in ids <==> e == ids[0] || e in ids[1..];
  }

  /** The loop restores every slot if and only if every slot is ready, and then it writes nothing. */
  lemma {:induction false} ResumeAllRestoresIff(s: State, ids: seq<nat>, cb: nat -> Callback)
    requires Pending(s, ids)
    ensures Restored(s, ResumeAll(s, ids, cb).s, ids, cb) <==> Ready(s, ids, cb)
    ensures Ready(s, ids, cb) ==> ResumeAll(s, ids, cb).writes == []
    decreases |ids|
  {
    if ids != [] {
      if ids[0] == INVALID_ENDPOINT {
        ResumeAllRestoresIff(s, ids[1..], cb);
        ReadySkip(s, ids, cb);
        RestoredSkip(s, ResumeAll(s, ids, cb).s, ids, cb);
      } else {
        FirstSlot(s, ids, cb);
        PendingAfter(s, ids, cb(ids[0]));
        var s1 := ResumeDevice(s, ids[0], cb(ids[0])).s;
        assert ids[0] !in ids[1..];
        if SlotReady(s, ids, cb, 0) {
          ResumeAllRestoresIff(s1, ids[1..], cb);
          ReadyRest(s, s1, ids, cb);
          RestoredOneMore(s, s1, ResumeAll(s, ids, cb).s, ids, cb);
        } else {
          NoOthers(s1, ids[1..], cb, ids[0]);
          assert ids[0] in ids;
        }
      }
    }
  }

  lemma RestoredSkip(s: State, s': State, ids: seq<nat>, cb: nat -> Callback)
    requires ids != [] && ids[0] == INVALID_ENDPOINT
    ensures Restored(s, s', ids[1..], cb) <==> Restored(s, s', ids, cb)
  {
    assert forall e :: e in ids <==> e == ids[0] || e in ids[1..];
  }

  /** A boot from consistent storage brings back every stored device, with its recorded parent and without
      losing anything stored, if and only if the application accepts every device and every recorded parent
      is an aggregator made before start or at an earlier slot. */
  lemma BootRestoresIff(n: Nvs, pre: seq<bool>, max: nat, cb: nat -> Callback)
    requires Consistent(n, |pre|, max) && |pre| <= INVALID_ENDPOINT
    ensures var s := Initialized(n, pre, max);
            Restored(s, Boot(n, pre, max, cb).s, s.ram.ids, cb) <==> Ready(s, s.ram.ids, cb)
  {
    SlotsPending(n, pre, max);
    ResumeAllRestoresIff(Initialized(n, pre, max), Initialized(n, pre, max).ram.ids, cb);
  }

  // ----- the fate of each slot -----

  /** The parent `p` is an aggregator when slot `i` is resumed: it was one before the loop, or it comes back at an
      earlier slot as one. */
  ghost predicate ParentUp(s: State, ids: seq<nat>, cb: nat -> Callback, i: nat, p: nat)
    requires i <= |ids|
    decreases i, 0
  {
    ParentValid(s.ram, p) || exists j | 0 <= j < i :: ids[j] == p && Returns(s, ids, cb, j) && cb(p).addsAggregator
  }

  /** The device at slot `i` comes back: it has a record, its parent is up, and the application accepts it. */
  ghost predicate Returns(s: State, ids: seq<nat>, cb: nat -> Callback, i: nat)
    requires i < |ids|
    ensures Returns(s, ids, cb, i) ==> cb(ids[i]).Accepts?
    decreases i, 1
  {
    && ids[i] != INVALID_ENDPOINT && cb(ids[i]).Accepts? && ReadInfo(s.nvs, ids[i]).Some?
    && ParentUp(s, ids, cb, i, ReadInfo(s.nvs, ids[i]).value.parent)
  }

  /** The device at slot `i` is forgotten: its parent is up, and the application rejects it. */
  ghost predicate Erases(s: State, ids: seq<nat>, cb: nat -> Callback, i: nat)
    requires i < |ids|
  {
    && ids[i] != INVALID_ENDPOINT && cb(ids[i]).Rejects? && ReadInfo(s.nvs, ids[i]).Some?
    && ParentUp(s, ids, cb, i, ReadInfo(s.nvs, ids[i]).value.parent)
  }

  /** Slot `i` and its record are gone, or both are as they were. */
  ghost predicate SlotFate(s: State, s': State, i: nat, erased: bool)
    requires i < |s.ram.ids| == |s'.ram.ids|
  {
    var id := s.ram.ids[i];
    if erased then s'.ram.ids[i] == INVALID_ENDPOINT && ReadInfo(s'.nvs, id) == None
    else s'.ram.ids[i] == id && ReadInfo(s'.nvs, id) == ReadInfo(s.nvs, id)
  }

  /** The endpoint `e` came back at one of the first `k` slots. */
  ghost predicate CameUp(s: State, ids: seq<nat>, cb: nat -> Callback, k: nat, e: nat)
    requires k <= |ids|
  {
    exists j | 0 <= j < k :: ids[j] == e && Returns(s, ids, cb, j)
  }

  lemma OneMoreUp(s: State, ids: seq<nat>, cb: nat -> Callback, k: nat, e: nat)
    requires k < |ids|
    ensures CameUp(s, ids, cb, k + 1, e) <==> CameUp(s, ids, cb, k, e) || (e == ids[k] && Returns(s, ids, cb, k))
  {
  }

  /** A device as it comes back. */
  ghost function Revived(s: State, cb: nat -> Callback, id: nat): Endpoint
    requires ReadInfo(s.nvs, id).Some? && cb(id).Accepts?
  {
    Endpoint(ReadInfo(s.nvs, id).value.parent, cb(id).addsAggregator)
  }

  /** Endpoint `e` after the first `k` slots: as before the loop, or come back, or not there. */
  ghost predicate EndpointUp(s: State, r: Ram, ids: seq<nat>, cb: nat -> Callback, k: nat, e: nat)
    requires k <= |ids|
  {
    if e in s.ram.endpoints then e in r.endpoints && r.endpoints[e] == s.ram.endpoints[e]
    else if CameUp(s, ids, cb, k, e) then e in r.endpoints && r.endpoints[e] == Revived(s, cb, e)
    else e !in r.endpoints
  }

  ghost predicate EndpointsUp(s: State, r: Ram, ids: seq<nat>, cb: nat -> Callback, k: nat)
    requires k <= |ids|
  {
    forall e: nat :: EndpointUp(s, r, ids, cb, k, e)
  }

  /** The slots and records after the first `k` slots. */
  ghost predicate SlotsSettled(s: State, s': State, cb: nat -> Callback, k: nat) {
    && |s'.ram.ids| == |s.ram.ids|
    && (forall i | 0 <= i < |s.ram.ids| && s.ram.ids[i] != INVALID_ENDPOINT ::
          SlotFate(s, s', i, i < k && Erases(s, s.ram.ids, cb, i)))
    && (forall x: nat | x !in s.ram.ids :: ReadInfo(s'.nvs, x) == ReadInfo(s.nvs, x))
  }

  /** The state after the first `k` slots. */
  ghost predicate Settled(s: State, s': State, cb: nat -> Callback, k: nat)
    requires k <= |s.ram.ids|
  {
    && Named(s'.nvs) && s'.ram.counter == s.ram.counter
    && EndpointsUp(s, s'.ram, s.ram.ids, cb, k) && SlotsSettled(s, s', cb, k)
  }

  lemma ParentUpIff(s: State, r: Ram, ids: seq<nat>, cb: nat -> Callback, k: nat, p: nat)
    requires k <= |ids| && EndpointUp(s, r, ids, cb, k, p)
    requires forall j | 0 <= j < k && ids[j] != INVALID_ENDPOINT :: ids[j] !in s.ram.endpoints
    ensures ParentValid(r, p) <==> ParentUp(s, ids, cb, k, p)
  {
  }

  lemma {:induction false} ResumeAllAppend(s: State, ids: seq<nat>, id: nat, cb: nat -> Callback)
    ensures ResumeAll(s, ids + [id], cb).s == SlotOutcome(ResumeAll(s, ids, cb).s, id, cb(id)).s
    decreases |ids|
  {
    if ids == [] {
      assert ([] + [id])[1..] == [];
    } else {
      assert (ids + [id])[1..] == ids[1..] + [id];
      ResumeAllAppend(SlotOutcome(s, ids[0], cb(ids[0])).s, ids[1..], id, cb);
    }
  }

  /** The ways one slot of the loop can end, for a device that can be resumed. */
  lemma SlotEnds(s: State, id: nat, cb: Callback)
    requires Named(s.nvs) && id != INVALID_ENDPOINT && CanResume(s.ram, id)
    ensures var s', info := SlotOutcome(s, id, cb).s, ReadInfo(s.nvs, id);
            && Named(s'.nvs)
            && if info.None? || !ParentValid(s.ram, info.value.parent) then s' == s
               else if cb.Rejects? then Forgotten(s, s', id) && s'.ram.endpoints == s.ram.endpoints
               else CameBack(s, s', id, cb)
  {
    SlotLeaves(s, id, cb, id);
    if ReadInfo(s.nvs, id).Some? {
      var endpoints := s.ram.endpoints[id := Endpoint(0, false)];
      EraseExact(State(s.nvs, s.ram.(endpoints := endpoints)), id, id);
      assert endpoints - {id} == s.ram.endpoints;
    }
  }

  // One more slot settled, by each of the ways it can end.

  lemma SlotsSame(s: State, s1: State, s2: State, cb: nat -> Callback, k: nat)
    requires k < |s.ram.ids| && SlotsSettled(s, s1, cb, k) && !Erases(s, s.ram.ids, cb, k)
    requires s2.nvs == s1.nvs && s2.ram.ids == s1.ram.ids
    ensures SlotsSettled(s, s2, cb, k + 1)
  {
    var ids := s.ram.ids;
    forall i | 0 <= i < |ids| && ids[i] != INVALID_ENDPOINT
      ensures SlotFate(s, s2, i, i < k + 1 && Erases(s, ids, cb, i))
    {
      assert SlotFate(s, s1, i, i < k && Erases(s, ids, cb, i));
    }
  }

  lemma SlotsErased(s: State, s1: State, s2: State, cb: nat -> Callback, k: nat)
    requires k < |s.ram.ids| && SlotsSettled(s, s1, cb, k) && Erases(s, s.ram.ids, cb, k)
    requires forall i, j | 0 <= i < j < |s.ram.ids| && s.ram.ids[i] != INVALID_ENDPOINT :: s.ram.ids[i] != s.ram.ids[j]
    requires Forgotten(s1, s2, s.ram.ids[k])
    ensures SlotsSettled(s, s2, cb, k + 1)
  {
    var ids := s.ram.ids;
    forall i | 0 <= i < |ids| && ids[i] != INVALID_ENDPOINT
      ensures SlotFate(s, s2, i, i < k + 1 && Erases(s, ids, cb, i))
    {
      SlotErased(s, s1, s2, i, k, i < k && Erases(s, ids, cb, i));
    }
    assert ids[k] in ids;
  }

  lemma SlotErased(s: State, s1: State, s2: State, i: nat, k: nat, erased: bool)
    requires i < |s.ram.ids| == |s1.ram.ids| && k < |s.ram.ids|
    requires s.ram.ids[i] != INVALID_ENDPOINT && (i != k ==> s.ram.ids[i] != s.ram.ids[k])
    requires SlotFate(s, s1, i, erased) && Forgotten(s1, s2, s.ram.ids[k])
    ensures SlotFate(s, s2, i, erased || i == k)
  {
  }

  lemma EndpointsSame(s: State, r: Ram, r': Ram, ids: seq<nat>, cb: nat -> Callback, k: nat)
    requires k < |ids| && EndpointsUp(s, r, ids, cb, k) && !Returns(s, ids, cb, k) && r'.endpoints == r.endpoints
    ensures EndpointsUp(s, r', ids, cb, k + 1)
  {
    var next := k + 1;
    forall e: nat ensures EndpointUp(s, r', ids, cb, next, e) {
      assert EndpointUp(s, r, ids, cb, k, e);
      OneMoreUp(s, ids, cb, k, e);
    }
  }

  lemma EndpointsUpBack(s: State, r: Ram, r': Ram, ids: seq<nat>, cb: nat -> Callback, k: nat)
    requires k < |ids| && EndpointsUp(s, r, ids, cb, k) && ids[k] !in s.ram.endpoints && Returns(s, ids, cb, k)
    requires r'.endpoints == r.endpoints[ids[k] := Revived(s, cb, ids[k])]
    ensures EndpointsUp(s, r', ids, cb, k + 1)
  {
    var next := k + 1;
    forall e: nat ensures EndpointUp(s, r', ids, cb, next, e) {
      assert EndpointUp(s, r, ids, cb, k, e);
      OneMoreUp(s, ids, cb, k, e);
    }
  }

  lemma SettledStep(s: State, s1: State, cb: nat -> Callback, k: nat)
    requires k < |s.ram.ids| && Settled(s, s1, cb, k) && Pending(s, s.ram.ids)
    ensures Settled(s, SlotOutcome(s1, s.ram.ids[k], cb(s.ram.ids[k])).s, cb, k + 1)
  {
    var ids := s.ram.ids;
    var id := ids[k];
    var s2 := SlotOutcome(s1, id, cb(id)).s;
    if id == INVALID_ENDPOINT {
      SlotsSame(s, s1, s2, cb, k);
      EndpointsSame(s, s1.ram, s2.ram, ids, cb, k);
    } else {
      SlotKept(s, s1, cb, k);
      assert EndpointUp(s, s1.ram, ids, cb, k, id);
      NotYetUp(s, s1.ram, ids, cb, k);
      SlotEnds(s1, id, cb(id));
      if ReadInfo(s.nvs, id).Some? {
        assert EndpointUp(s, s1.ram, ids, cb, k, ReadInfo(s.nvs, id).value.parent);
        ParentUpIff(s, s1.ram, ids, cb, k, ReadInfo(s.nvs, id).value.parent);
      }
      SettledEnd(s, s1, s2, cb, k);
    }
  }

  /** The slots from `k` on are still as they were. */
  lemma SlotKept(s: State, s1: State, cb: nat -> Callback, k: nat)
    requires k < |s.ram.ids| && s.ram.ids[k] != INVALID_ENDPOINT && SlotsSettled(s, s1, cb, k)
    ensures ReadInfo(s1.nvs, s.ram.ids[k]) == ReadInfo(s.nvs, s.ram.ids[k])
  {
    var erased := k < k;
    assert SlotFate(s, s1, k, erased);
  }

  lemma SettledEnd(s: State, s1: State, s2: State, cb: nat -> Callback, k: nat)
    requires k < |s.ram.ids| && Settled(s, s1, cb, k) && Pending(s, s.ram.ids) && Named(s2.nvs)
    requires Returns(s, s.ram.ids, cb, k) ==> CameBack(s1, s2, s.ram.ids[k], cb(s.ram.ids[k]))
    requires Erases(s, s.ram.ids, cb, k) ==>
      Forgotten(s1, s2, s.ram.ids[k]) && s2.ram.endpoints == s1.ram.endpoints
    requires !Returns(s, s.ram.ids, cb, k) && !Erases(s, s.ram.ids, cb, k) ==> s2 == s1
    requires s.ram.ids[k] != INVALID_ENDPOINT
    ensures Settled(s, s2, cb, k + 1)
  {
    if Returns(s, s.ram.ids, cb, k) {
      SlotKept(s, s1, cb, k);
      SlotsSame(s, s1, s2, cb, k);
      EndpointsUpBack(s, s1.ram, s2.ram, s.ram.ids, cb, k);
    } else {
      EndpointsSame(s, s1.ram, s2.ram, s.ram.ids, cb, k);
      if Erases(s, s.ram.ids, cb, k) { SlotsErased(s, s1, s2, cb, k); } else { SlotsSame(s, s1, s2, cb, k); }
    }
  }

  lemma NotYetUp(s: State, r: Ram, ids: seq<nat>, cb: nat -> Callback, k: nat)
    requires k < |ids| && ids[k] != INVALID_ENDPOINT && Pending(s, ids) && EndpointUp(s, r, ids, cb, k, ids[k])
    requires r.counter == s.ram.counter
    ensures CanResume(r, ids[k])
  {
  }

  lemma SettledStart(s: State, cb: nat -> Callback)
    requires Named(s.nvs)
    ensures Settled(s, s, cb, 0)
  {
  }

  lemma {:induction false} SettledAfter(s: State, cb: nat -> Callback, k: nat)
    requires k <= |s.ram.ids| && Pending(s, s.ram.ids) && Named(s.nvs)
    ensures Settled(s, ResumeAll(s, s.ram.ids[..k], cb).s, cb, k)
  {
    if k == 0 {
      SettledStart(s, cb);
    } else {
      SettledAfter(s, cb, k - 1);
      var front := s.ram.ids[..k - 1];
      SettledStep(s, ResumeAll(s, front, cb).s, cb, k - 1);
      ResumeAllAppend(s, front, s.ram.ids[k - 1], cb);
      assert front + [s.ram.ids[k - 1]] == s.ram.ids[..k];
    }
  }

  lemma BootSettled(n: Nvs, pre: seq<bool>, max: nat, cb: nat -> Callback)
    requires Consistent(n, |pre|, max) && |pre| <= INVALID_ENDPOINT
    ensures var s := Initialized(n, pre, max);
            && Pending(s, s.ram.ids) && s.ram.endpoints == PreEndpoints(pre)
            && Settled(s, Boot(n, pre, max, cb).s, cb, |s.ram.ids|)
  {
    var s := Initialized(n, pre, max);
    InitializedOk(n, pre, max);
    SlotsPending(n, pre, max);
    ConsistentNamed(s.nvs, |pre|, max);
    SettledAfter(s, cb, |s.ram.ids|);
    assert s.ram.ids[..|s.ram.ids|] == s.ram.ids;
  }

  /** What a boot from consistent storage makes of each stored device. It is live afterwards, with its recorded
      parent, if and only if it returns; slot and record are erased if and only if its parent is up and the
      application rejects it, and are otherwise as they were. */
  lemma BootFate(n: Nvs, pre: seq<bool>, max: nat, cb: nat -> Callback, i: nat)
    requires Consistent(n, |pre|, max) && |pre| <= INVALID_ENDPOINT
    requires i < |Initialized(n, pre, max).ram.ids| && Initialized(n, pre, max).ram.ids[i] != INVALID_ENDPOINT
    ensures var s, s' := Initialized(n, pre, max), Boot(n, pre, max, cb).s;
            var id := s.ram.ids[i];
            && (id in s'.ram.endpoints <==> Returns(s, s.ram.ids, cb, i))
            && (Returns(s, s.ram.ids, cb, i) ==> s'.ram.endpoints[id] == Revived(s, cb, id))
            && |s'.ram.ids| == |s.ram.ids| && SlotFate(s, s', i, Erases(s, s.ram.ids, cb, i))
  {
    BootSettled(n, pre, max, cb);
    BootFateOf(Initialized(n, pre, max), Boot(n, pre, max, cb).s, cb, i);
  }

  /** No endpoint made before start and no record without a slot changes, and no other endpoint appears. */
  lemma BootKeepsOthers(n: Nvs, pre: seq<bool>, max: nat, cb: nat -> Callback, x: nat)
    requires Consistent(n, |pre|, max) && |pre| <= INVALID_ENDPOINT
    requires x !in Initialized(n, pre, max).ram.ids
    ensures var s' := Boot(n, pre, max, cb).s;
            && (x in s'.ram.endpoints <==> x < |pre|)
            && (x < |pre| ==> s'.ram.endpoints[x] == Endpoint(INVALID_ENDPOINT, pre[x]))
            && ReadInfo(s'.nvs, x) == ReadInfo(n, x)
  {
    BootSettled(n, pre, max, cb);
    InitializedReads(n, pre, max);
    var s := Initialized(n, pre, max);
    assert EndpointUp(s, Boot(n, pre, max, cb).s.ram, s.ram.ids, cb, |s.ram.ids|, x);
  }

  lemma InitializedReads(n: Nvs, pre: seq<bool>, max: nat)
    ensures forall x: nat :: ReadInfo(Initialized(n, pre, max).nvs, x) == ReadInfo(n, x)
  {
    forall x: nat ensures ReadInfo(Initialized(n, pre, max).nvs, x) == ReadInfo(n, x) { KeysApart(x, x); }
  }

  lemma BootFateOf(s: State, s': State, cb: nat -> Callback, i: nat)
    requires Pending(s, s.ram.ids) && Settled(s, s', cb, |s.ram.ids|)
    requires i < |s.ram.ids| && s.ram.ids[i] != INVALID_ENDPOINT
    ensures s.ram.ids[i] in s'.ram.endpoints <==> Returns(s, s.ram.ids, cb, i)
    ensures Returns(s, s.ram.ids, cb, i) ==> s'.ram.endpoints[s.ram.ids[i]] == Revived(s, cb, s.ram.ids[i])
    ensures |s'.ram.ids| == |s.ram.ids| && SlotFate(s, s', i, Erases(s, s.ram.ids, cb, i))
  {
    var ids := s.ram.ids;
    assert SlotFate(s, s', i, i < |ids| && Erases(s, ids, cb, i));
    assert EndpointUp(s, s'.ram, ids, cb, |ids|, ids[i]);
    if CameUp(s, ids, cb, |ids|, ids[i]) {
      var j :| 0 <= j < |ids| && ids[j] == ids[i] && Returns(s, ids, cb, j);
      assert i == j;
    }
  }

  /** Every live endpoint has a parent link that is invalid or leads to a smaller id. */
  ghost predicate LinksDown(m: map<nat, Endpoint>) {
    forall e | e in m :: m[e].parent == INVALID_ENDPOINT || m[e].parent < e
  }

  lemma {:induction false} ResumeAllLinksDown(s: State, ids: seq<nat>, cb: nat -> Callback, p: nat, max: nat)
    requires Running(s, p, max) && LinksDown(s.ram.endpoints)
    ensures LinksDown(ResumeAll(s, ids, cb).s.ram.endpoints)
    decreases |ids|
  {
    if ids != [] {
      if ids[0] != INVALID_ENDPOINT {
        ResumeDeviceOk(s, ids[0], cb(ids[0]), p, max);
        if ReadInfo(s.nvs, ids[0]).Some? { ReadInfoOk(s.nvs, ids[0], p, max); }
      }
      ResumeAllLinksDown(SlotOutcome(s, ids[0], cb(ids[0])).s, ids[1..], cb, p, max);
    }
  }

  /** After a boot every parent is below its child. */
  lemma BootLinksDown(n: Nvs, pre: seq<bool>, max: nat, cb: nat -> Callback)
    requires Consistent(n, |pre|, max) && |pre| <= INVALID_ENDPOINT
    ensures LinksDown(Boot(n, pre, max, cb).s.ram.endpoints)
  {
    InitializedOk(n, pre, max);
    var s := Initialized(n, pre, max);
    assert s.ram.endpoints == PreEndpoints(pre);
    ResumeAllLinksDown(s, s.ram.ids, cb, |pre|, max);
  }

  // ----- another number of endpoints before start -----

  /** Resuming a slot leaves other endpoints alone. */
  lemma {:induction false} PassesPending(s: State, ids: seq<nat>, cb: nat -> Callback)
    requires ChecksPass(s, ids, cb)
    requires forall i, j | 0 <= i < j < |ids| && ids[i] != INVALID_ENDPOINT :: ids[i] != ids[j]
    ensures forall i | 0 <= i < |ids| && ids[i] != INVALID_ENDPOINT :: ids[i] !in s.ram.endpoints
    decreases |ids|
  {
    if ids != [] {
      var s1 := SlotOutcome(s, ids[0], cb(ids[0])).s;
      PassesPending(s1, ids[1..], cb);
      forall i | 0 < i < |ids| && ids[i] != INVALID_ENDPOINT ensures ids[i] !in s.ram.endpoints {
        assert ids[1..][i - 1] == ids[i] && ids[i] != ids[0];
      }
    }
  }

  /** If a firmware makes another number of endpoints before start than the one that filled the storage, the
      checks of `endpoint::resume` still pass for every slot if and only if no stored device has the id of an
      endpoint made before start. */
  lemma OtherFirmwarePassesIff(n: Nvs, p: nat, pre: seq<bool>, max: nat, cb: nat -> Callback)
    requires Consistent(n, p, max) && n.counter.Some? && IDS_KEY in n.blobs
    ensures var s := Initialized(n, pre, max);
            ChecksPass(s, s.ram.ids, cb) <==>
              forall i | 0 <= i < |s.ram.ids| && s.ram.ids[i] != INVALID_ENDPOINT :: s.ram.ids[i] >= |pre|
  {
    var s := Initialized(n, pre, max);
    var ids := s.ram.ids;
    assert s.nvs == n && n.blobs[IDS_KEY] == Ids(ids) && s.ram.endpoints == PreEndpoints(pre);
    forall i | 0 <= i < |ids| && ids[i] != INVALID_ENDPOINT
      ensures CanResume(s.ram, ids[i]) <==> ids[i] >= |pre|
    {
      SlotRecord(n, ids, p, max, i);
    }
    if ChecksPass(s, ids, cb) {
      PassesPending(s, ids, cb);
    } else if forall i | 0 <= i < |ids| && ids[i] != INVALID_ENDPOINT :: ids[i] >= |pre| {
      PendingPasses(s, ids, cb);
    }
  }

  /** Every record says the id under whose key it is. */
  ghost predicate Named(n: Nvs) {
    forall id: nat :: ReadInfo(n, id).Some? ==> ReadInfo(n, id).value.device == id
  }

  lemma EraseLeaves(s: State, id: nat, x: nat)
    requires Named(s.nvs)
    ensures var s' := EraseInfo(s, id).s;
            && Named(s'.nvs) && ReadInfo(s'.nvs, x) == (if x == id then None else ReadInfo(s.nvs, x))
            && (x != INVALID_ENDPOINT && (x == id || x !in s.ram.ids) ==> x !in s'.ram.ids)
  {
    forall y: nat
      ensures ReadInfo(EraseInfo(s, id).s.nvs, y) == if y == id then None else ReadInfo(s.nvs, y)
    {
      KeysApart(id, y);
      KeysApart(y, y);
    }
  }

  /** A slot of the loop leaves an endpoint that is live, and the record of another id. */
  lemma SlotLeaves(s: State, id: nat, cb: Callback, x: nat)
    requires Named(s.nvs)
    ensures var s' := SlotOutcome(s, id, cb).s;
            && Named(s'.nvs)
            && (x in s.ram.endpoints ==> x in s'.ram.endpoints && s'.ram.endpoints[x] == s.ram.endpoints[x])
            && (x != id ==> ReadInfo(s'.nvs, x) == ReadInfo(s.nvs, x))
            && (x != INVALID_ENDPOINT && x !in s.ram.ids ==> x !in s'.ram.ids)
            && (ReadInfo(s.nvs, x).None? ==> ReadInfo(s'.nvs, x).None?)
  {
    EraseLeaves(s, id, x);
  }

  lemma {:induction false} LoopLeaves(s: State, ids: seq<nat>, cb: nat -> Callback, x: nat)
    requires Named(s.nvs) && x != INVALID_ENDPOINT
    ensures var s' := ResumeAll(s, ids, cb).s;
            && (x in s.ram.endpoints ==> x in s'.ram.endpoints && s'.ram.endpoints[x] == s.ram.endpoints[x])
            && (x !in ids ==> ReadInfo(s'.nvs, x) == ReadInfo(s.nvs, x))
            && (x !in s.ram.ids ==> x !in s'.ram.ids)
    decreases |ids|
  {
    if ids != [] {
      SlotLeaves(s, ids[0], cb(ids[0]), x);
      LoopLeaves(SlotOutcome(s, ids[0], cb(ids[0])).s, ids[1..], cb, x);
    }
  }

  /** A stored device whose id and parent are live loses its record and its slot if the parent is an aggregator,
      and keeps its record if not. */
  lemma {:induction false} LoopErasesIff(s: State, ids: seq<nat>, cb: nat -> Callback, i: nat, parent: nat)
    requires Named(s.nvs) && i < |ids| && ids[i] != INVALID_ENDPOINT
    requires forall a, b | 0 <= a < b < |ids| && ids[a] != INVALID_ENDPOINT :: ids[a] != ids[b]
    requires ids[i] in s.ram.endpoints && parent in s.ram.endpoints
    requires ReadInfo(s.nvs, ids[i]).Some? && ReadInfo(s.nvs, ids[i]).value.parent == parent
    ensures var s' := ResumeAll(s, ids, cb).s;
            if s.ram.endpoints[parent].aggregator then ReadInfo(s'.nvs, ids[i]).None? && ids[i] !in s'.ram.ids
            else ReadInfo(s'.nvs, ids[i]) == ReadInfo(s.nvs, ids[i])
    decreases |ids|
  {
    var s1 := SlotOutcome(s, ids[0], cb(ids[0])).s;
    SlotLeaves(s, ids[0], cb(ids[0]), ids[i]);
    if i == 0 {
      EraseLeaves(s, ids[0], ids[0]);
      assert ids[0] !in ids[1..];
      LoopLeaves(s1, ids[1..], cb, ids[0]);
    } else {
      SlotLeaves(s, ids[0], cb(ids[0]), parent);
      assert ids[1..][i - 1] == ids[i] && ids[i] != ids[0];
      LoopErasesIff(s1, ids[1..], cb, i - 1, parent);
    }
  }

  lemma ConsistentNamed(n: Nvs, p: nat, max: nat)
    requires Consistent(n, p, max)
    ensures Named(n)
  {
    forall id: nat | ReadInfo(n, id).Some? ensures ReadInfo(n, id).value.device == id { ReadInfoOk(n, id, p, max); }
  }

  /** A stored device whose id another firmware takes before start is never resumed: the id stays with the
      endpoint made before start, and the record is erased, with its slot, exactly if that firmware makes the
      recorded parent an aggregator. */
  lemma CollidingDeviceLost(n: Nvs, p: nat, pre: seq<bool>, max: nat, cb: nat -> Callback, i: nat)
    requires Consistent(n, p, max) && n.counter.Some? && IDS_KEY in n.blobs && i < |n.blobs[IDS_KEY].ids|
    requires n.blobs[IDS_KEY].ids[i] != INVALID_ENDPOINT && n.blobs[IDS_KEY].ids[i] < |pre|
    ensures var id, s' := n.blobs[IDS_KEY].ids[i], Boot(n, pre, max, cb).s;
            && id in s'.ram.endpoints && s'.ram.endpoints[id] == Endpoint(INVALID_ENDPOINT, pre[id])
            && ReadInfo(n, id).Some? && ReadInfo(n, id).value.parent < id
            && (ReadInfo(s'.nvs, id).None? <==> pre[ReadInfo(n, id).value.parent])
            && (pre[ReadInfo(n, id).value.parent] ==> id !in s'.ram.ids)
  {
    var s := Initialized(n, pre, max);
    var ids := s.ram.ids;
    assert s.nvs == n && n.blobs[IDS_KEY] == Ids(ids) && s.ram.endpoints == PreEndpoints(pre);
    SlotRecord(n, ids, p, max, i);
    ReadInfoOk(n, ids[i], p, max);
    ConsistentNamed(n, p, max);
    LoopLeaves(s, ids, cb, ids[i]);
    LoopErasesIff(s, ids, cb, i, ReadInfo(n, ids[i]).value.parent);
  }

  /** The live ids are below the counter exactly when the firmware does not make more endpoints before
      start than the stored counter allows for. */
  lemma StartAboveLive(n: Nvs, pre: seq<bool>)
    ensures (forall e | e in Start(n, pre).s.ram.endpoints :: e < Start(n, pre).s.ram.counter)
       <==> (n.counter.None? || |pre| <= n.counter.value)
  {
    if n.counter.Some? && n.counter.value < |pre| { assert n.counter.value in Start(n, pre).s.ram.endpoints; }
  }

  // ----- a device that does not come back -----

  /** Two devices under endpoint 0, the second an aggregator; the first is removed, and a third is made under
      the second. It takes the free slot before its parent. */
  function FirstMade(t: nat): State {
    CreateDevice(Initialized(Nvs(None, map[]), [true], 2), 8, 0, t, Accepts(false)).s
  }

  function BothMade(t: nat): State {
    CreateDevice(FirstMade(t), 8, 0, t, Accepts(true)).s
  }

  function FirstRemoved(t: nat): State {
    RemoveDevice(BothMade(t), 1, 1).s
  }

  function ChildMade(t: nat): State {
    CreateDevice(FirstRemoved(t), 8, 2, t, Accepts(false)).s
  }

  /** A running bridge with one endpoint before start and two slots. */
  ghost predicate Stage(s: State, ids: seq<nat>, counter: nat, parent: nat, size: nat) {
    && Running(s, 1, 2) && s.ram.ids == ids && s.ram.counter == counter && ParentValid(s.ram, parent)
    && |s.ram.endpoints| <= size
  }

  /** One more device in the first free slot, as a possible parent of the next. */
  lemma OneMore(s: State, t: nat, aggregator: bool, ids: seq<nat>, k: nat, counter: nat, parent: nat, size: nat)
    requires Stage(s, ids, counter, parent, size) && counter < INVALID_ENDPOINT && size < 8
    requires k < |ids| && FirstFree(ids) == k
    ensures var s' := CreateDevice(s, 8, parent, t, Accepts(aggregator)).s;
            && Stage(s', ids[k := counter], counter + 1, parent, size + 1)
            && (aggregator ==> ParentValid(s'.ram, counter)) && counter in s'.ram.endpoints
            && ReadInfo(s'.nvs, counter) == Some(Info(parent, counter, t))
  {
    assert ids[k] in ids;
    CreateDeviceOk(s, 8, parent, t, Accepts(aggregator), 1, 2);
    CreateDeviceAllOrNothing(s, 8, parent, t, Accepts(aggregator), 1, 2);
    AddedStage(s, CreateDevice(s, 8, parent, t, Accepts(aggregator)).s, t, aggregator, parent);
  }

  lemma AddedStage(s: State, s': State, t: nat, aggregator: bool, parent: nat)
    requires DeviceAdded(s, s', parent, t, aggregator) && parent in s.ram.endpoints && parent != s.ram.counter
    ensures |s'.ram.endpoints| <= |s.ram.endpoints| + 1 && s'.ram.endpoints[parent] == s.ram.endpoints[parent]
    ensures ReadInfo(s'.nvs, s.ram.counter) == Some(Info(parent, s.ram.counter, t))
  {
    KeysApart(s.ram.counter, s.ram.counter);
  }

  lemma FirstMadeIs(t: nat)
    ensures Stage(FirstMade(t), [1, INVALID_ENDPOINT], 2, 0, 2)
  {
    var n: Nvs := Nvs(None, map[]);
    InitializedOk(n, [true], 2);
    var s := Initialized(n, [true], 2);
    assert s.ram.ids == [INVALID_ENDPOINT, INVALID_ENDPOINT];
    assert s.ram.endpoints == map[0 := Endpoint(INVALID_ENDPOINT, true)];
    OneMore(s, t, false, s.ram.ids, 0, 1, 0, 1);
  }

  lemma BothMadeIs(t: nat)
    ensures Stage(BothMade(t), [1, 2], 3, 0, 3) && ParentValid(BothMade(t).ram, 2)
  {
    FirstMadeIs(t);
    var ids: seq<nat> := [1, INVALID_ENDPOINT];
    assert ids[1..] == [INVALID_ENDPOINT] && FirstFree(ids) == 1 + FirstFree(ids[1..]);
    OneMore(FirstMade(t), t, true, ids, 1, 2, 0, 2);
    assert ids[1 := 2] == [1, 2];
  }

  lemma FirstRemovedIs(t: nat)
    ensures Stage(FirstRemoved(t), [INVALID_ENDPOINT, 2], 3, 2, 3)
  {
    BothMadeIs(t);
    RemoveDeviceOk(BothMade(t), 1, 1, 1, 2);
    assert Cleared([1, 2], 1) == [INVALID_ENDPOINT, 2];
    FewerEntries(BothMade(t).ram.endpoints, 1);
  }

  lemma FewerEntries(m: map<nat, Endpoint>, k: nat)
    ensures |m - {k}| <= |m|
  {
    assert (m - {k}).Keys == m.Keys - {k};
    assert |m - {k}| == |(m - {k}).Keys| && |m| == |m.Keys|;
    if k in m { assert m.Keys == (m.Keys - {k}) + {k}; } else { assert m.Keys - {k} == m.Keys; }
  }

  lemma ChildMadeIs(t: nat)
    ensures Stage(ChildMade(t), [3, 2], 4, 2, 4) && 3 in ChildMade(t).ram.endpoints
    ensures ReadInfo(ChildMade(t).nvs, 3) == Some(Info(2, 3, t))
  {
    FirstRemovedIs(t);
    OneMore(FirstRemoved(t), t, false, [INVALID_ENDPOINT, 2], 0, 3, 2, 3);
    var ids: seq<nat> := [INVALID_ENDPOINT, 2];
    assert ids[0 := 3] == [3, 2];
  }

  /** With a child at the slot before its parent, the child is resumed when its parent does not exist yet. */
  lemma LateParent(n: Nvs, t: nat, cb: nat -> Callback)
    requires Consistent(n, 1, 2) && IDS_KEY in n.blobs && n.blobs[IDS_KEY] == Ids([3, 2]) && n.counter.Some?
    requires ReadInfo(n, 3) == Some(Info(2, 3, t)) && cb(2).Accepts?
    ensures var s := Boot(n, [true], 2, cb).s; 3 !in s.ram.endpoints && s.nvs == n
  {
    var s := Initialized(n, [true], 2);
    SlotsPending(n, [true], 2);
    assert s.nvs == n && s.ram.ids == [3, 2];
    assert s.ram.endpoints.Keys == {0} by { assert s.ram.endpoints == PreEndpoints([true]); }
    assert SlotOutcome(s, 3, cb(3)) == Outcome(s, [], false);
    assert [3, 2][1..] == [2] && [2][1..] == [];
    assert CanResume(s.ram, [3, 2][1]);
    NoOthers(s, [2], cb, 3);
    assert ResumeAll(s, [2], cb).s.nvs == n;
  }

  /** A device that does not come back, although the application accepts everything: since nothing is erased,
      it does not come back at any later boot either, and keeps its slot. */
  lemma ChildBeforeParentIsLost(t: nat, cb: nat -> Callback)
    requires forall id :: cb(id).Accepts?
    ensures var s := ChildMade(t);
            && Running(s, 1, 2) && 3 in s.ram.endpoints && 3 in s.ram.ids
            && 3 !in Boot(s.nvs, [true], 2, cb).s.ram.endpoints && Boot(s.nvs, [true], 2, cb).s.nvs == s.nvs
  {
    ChildMadeIs(t);
    LateParent(ChildMade(t).nvs, t, cb);
  }
}
