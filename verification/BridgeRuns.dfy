/** Whole lives of a bridge: boots, operations, resets, and power losses between any two writes. */
module BridgeRuns {
  import opened Basics
  import opened BridgeKeys
  import opened BridgeProtocol
  import opened BridgeBoot
  import opened Parents

  // ----- the order of a reset -----

  /** Erasing the bridge first is safe; erasing the counter first is safe only when no slot is in use
      and no record is left. */
  lemma ResetOrder(n: Nvs, p: nat, max: nat)
    requires Consistent(n, p, max)
    ensures AllConsistent(ResetWrites(n), p, max)
    ensures |ResetWrites(n)| == 2 && ResetWrites(n)[0].blobs == map[] && ResetWrites(n)[0].counter == n.counter
    ensures ResetWrites(n)[1] == Nvs(None, map[])
    ensures Consistent(n.(counter := None), p, max) <==> n.blobs.Keys <= {IDS_KEY}
  {
    if n.blobs.Keys <= {IDS_KEY} {
      if IDS_KEY in n.blobs {
        var ids := n.blobs[IDS_KEY].ids;
        forall i | 0 <= i < |ids| && ids[i] != INVALID_ENDPOINT
          ensures Key(ids[i]) in n.blobs && Key(ids[i]) != IDS_KEY
        {
          KeysApart(ids[i], ids[i]);
        }
      }
    } else {
      var k :| k in n.blobs && k != IDS_KEY;
      assert !RecordOk(None, p, k, n.blobs[k]);
    }
  }

  // ----- runs -----

  /** The calls an application can make at any time, and power coming back. `ResumeOne` is `resume_device`,
      `EraseOne` is `erase_bridged_device_info`, `ResumeBare` is `endpoint::resume` by itself, and
      `SetLink` is `endpoint::set_parent_endpoint`. */
  datatype Event =
    | PowerOn(cb: nat -> Callback)
    | NewDevice(parent: nat, deviceType: nat, callback: Callback)
    | DropDevice(device: nat)
    | NewEndpoint(aggregator: bool)
    | DropEndpoint(endpoint: nat)
    | ResumeOne(device: nat, callback: Callback)
    | EraseOne(device: nat)
    | ResumeBare(endpoint: nat, aggregator: bool)
    | SetLink(endpoint: nat, parent: nat)
    | Reset

  /** A bridge, on or off, with the ids that `endpoint::create` gave out since the last reset. */
  datatype World = World(nvs: Nvs, ram: Option<Ram>, issued: set<nat>)

  /** The fixed facts of a firmware: the endpoints it makes before start, and its limits. */
  datatype Firmware = Firmware(pre: seq<bool>, max: nat, maxEndpoints: nat)

  predicate Enabled(w: World, ev: Event) {
    match ev
    case PowerOn(_) => w.ram.None?
    case NewDevice(_, _, _) => w.ram.Some? && w.ram.value.counter < INVALID_ENDPOINT
    case DropDevice(id) => w.ram.Some? && id in w.ram.value.endpoints
    case NewEndpoint(_) => w.ram.Some? && w.ram.value.counter < INVALID_ENDPOINT
    case DropEndpoint(id) => w.ram.Some? && id in w.ram.value.endpoints
    case SetLink(e, parent) => w.ram.Some? && e in w.ram.value.endpoints && parent in w.ram.value.endpoints
    case _ => w.ram.Some?
  }

  /** What the event does when power stays on. */
  function Outcomes(f: Firmware, w: World, ev: Event): Outcome
    requires Enabled(w, ev)
  {
    match ev
    case PowerOn(cb) => Boot(w.nvs, f.pre, f.max, cb)
    case NewDevice(parent, deviceType, callback) =>
      CreateDevice(State(w.nvs, w.ram.value), f.maxEndpoints, parent, deviceType, callback)
    case DropDevice(id) => RemoveDevice(State(w.nvs, w.ram.value), id, id)
    case NewEndpoint(aggregator) =>
      if |w.ram.value.endpoints| < f.maxEndpoints then CreateEndpoint(State(w.nvs, w.ram.value), aggregator)
      else Outcome(State(w.nvs, w.ram.value), [], false)
    case DropEndpoint(id) =>
      Outcome(State(w.nvs, w.ram.value.(endpoints := w.ram.value.endpoints - {id})), [], true)
    case ResumeOne(id, callback) => ResumeDevice(State(w.nvs, w.ram.value), id, callback)
    case EraseOne(id) => EraseInfo(State(w.nvs, w.ram.value), id)
    case ResumeBare(id, aggregator) => ResumeEndpoint(State(w.nvs, w.ram.value), id, aggregator)
    case SetLink(e, parent) => SetParent(State(w.nvs, w.ram.value), e, parent)
    case Reset => Outcome(State(Nvs(None, map[]), w.ram.value), ResetWrites(w.nvs), true)
  }

  /** The id that the event takes, if storage has already seen its first write. */
  function Issues(f: Firmware, w: World, ev: Event): set<nat>
    requires Enabled(w, ev)
  {
    if (ev.NewDevice? || ev.NewEndpoint?) && Outcomes(f, w, ev).writes != [] then {w.ram.value.counter} else {}
  }

  /** One event, completed, or cut off by a power loss after `k` writes. */
  ghost predicate Step(f: Firmware, w: World, w': World, ev: Event, crash: Option<nat>) {
    && Enabled(w, ev)
    && var o := Outcomes(f, w, ev);
    match crash
    case None =>
      && w'.nvs == o.s.nvs && w'.ram == (if ev.Reset? then None else Some(o.s.ram))
      && w'.issued == if ev.Reset? then {} else w.issued + Issues(f, w, ev)
    case Some(k) =>
      && k <= |o.writes| && w'.nvs == (if k == 0 then w.nvs else o.writes[k - 1]) && w'.ram == None
      && w'.issued == if k == 0 then w.issued else if ev.Reset? then (if k == 2 then {} else w.issued)
                      else w.issued + Issues(f, w, ev)
  }

  ghost predicate Safe(f: Firmware, w: World) {
    && Consistent(w.nvs, |f.pre|, f.max)
    && (w.ram.Some? ==> Running(State(w.nvs, w.ram.value), |f.pre|, f.max))
    && (forall id | id in w.issued :: w.nvs.counter.Some? && |f.pre| <= id < w.nvs.counter.value)
  }

  lemma OutcomesOk(f: Firmware, w: World, ev: Event)
    requires Safe(f, w) && Enabled(w, ev) && |f.pre| <= INVALID_ENDPOINT
    ensures var o := Outcomes(f, w, ev);
            && AllConsistent(o.writes, |f.pre|, f.max) && (!ev.Reset? ==> Running(o.s, |f.pre|, f.max))
            && Consistent(o.s.nvs, |f.pre|, f.max)
  {
    match ev
    case PowerOn(cb) => BootOk(w.nvs, f.pre, f.max, cb);
    case NewDevice(parent, deviceType, callback) =>
      CreateDeviceOk(State(w.nvs, w.ram.value), f.maxEndpoints, parent, deviceType, callback, |f.pre|, f.max);
    case DropDevice(id) => RemoveDeviceOk(State(w.nvs, w.ram.value), id, id, |f.pre|, f.max);
    case NewEndpoint(aggregator) => CreateEndpointOk(State(w.nvs, w.ram.value), aggregator, |f.pre|, f.max);
    case DropEndpoint(id) =>
    case ResumeOne(id, callback) => ResumeDeviceOk(State(w.nvs, w.ram.value), id, callback, |f.pre|, f.max);
    case EraseOne(id) => EraseInfoOk(State(w.nvs, w.ram.value), id, |f.pre|, f.max);
    case ResumeBare(id, aggregator) =>
    case SetLink(e, parent) =>
    case Reset => ResetOrder(w.nvs, |f.pre|, f.max);
  }

  /** Every content of storage in `ns` has this counter. */
  ghost predicate AllCount(ns: seq<Nvs>, counter: Option<nat>) {
    forall i | 0 <= i < |ns| :: ns[i].counter == counter
  }

  lemma {:induction false} ResumeAllCounts(s: State, ids: seq<nat>, cb: nat -> Callback)
    ensures AllCount(ResumeAll(s, ids, cb).writes, s.nvs.counter)
    ensures ResumeAll(s, ids, cb).s.nvs.counter == s.nvs.counter
    decreases |ids|
  {
    if ids != [] {
      var o := SlotOutcome(s, ids[0], cb(ids[0]));
      ResumeAllCounts(o.s, ids[1..], cb);
    }
  }

  /** The counter that an event leaves in storage with its first write. */
  function NextCounter(f: Firmware, w: World, ev: Event): Option<nat>
    requires Enabled(w, ev)
  {
    if ev.PowerOn? && w.nvs.counter.None? then Some(|f.pre|)
    else if Issues(f, w, ev) != {} then Some(w.ram.value.counter + 1)
    else w.nvs.counter
  }

  lemma EventCounts(f: Firmware, w: World, ev: Event)
    requires Enabled(w, ev) && !ev.Reset?
    ensures var o := Outcomes(f, w, ev);
            AllCount(o.writes, NextCounter(f, w, ev)) && o.s.nvs.counter == NextCounter(f, w, ev)
  {
    if ev.PowerOn? {
      var s := Initialized(w.nvs, f.pre, f.max);
      ResumeAllCounts(s, s.ram.ids, ev.cb);
    } else if ev.NewDevice? {
      CreateDeviceCounts(State(w.nvs, w.ram.value), f.maxEndpoints, ev.parent, ev.deviceType, ev.callback);
    }
  }

  lemma CreateDeviceCounts(s: State, maxEndpoints: nat, parent: nat, deviceType: nat, cb: Callback)
    ensures var o := CreateDevice(s, maxEndpoints, parent, deviceType, cb);
            && AllCount(o.writes, Some(s.ram.counter + 1))
            && o.s.nvs.counter == if o.writes == [] then s.nvs.counter else Some(s.ram.counter + 1)
  {
  }

  lemma StepSafe(f: Firmware, w: World, w': World, ev: Event, crash: Option<nat>)
    requires Safe(f, w) && Step(f, w, w', ev, crash) && |f.pre| <= INVALID_ENDPOINT
    ensures Safe(f, w')
  {
    OutcomesOk(f, w, ev);
    if !ev.Reset? { EventCounts(f, w, ev); }
  }

  /** A life of the bridge: `ws[0]` is the device as it leaves the factory. */
  ghost predicate Run(f: Firmware, ws: seq<World>, evs: seq<Event>, crashes: seq<Option<nat>>) {
    && |ws| == |evs| + 1 == |crashes| + 1 && ws[0] == World(Nvs(None, map[]), None, {})
    && forall i | 0 <= i < |evs| :: StepAt(f, ws, evs, crashes, i)
  }

  ghost predicate StepAt(f: Firmware, ws: seq<World>, evs: seq<Event>, crashes: seq<Option<nat>>, i: nat)
    requires |ws| == |evs| + 1 == |crashes| + 1 && i < |evs|
  {
    Step(f, ws[i], ws[i + 1], evs[i], crashes[i])
  }

  /** Crash consistency: at every moment of every life, storage is consistent. */
  lemma {:induction false} RunSafe(f: Firmware, ws: seq<World>, evs: seq<Event>, crashes: seq<Option<nat>>, i: nat)
    requires Run(f, ws, evs, crashes) && i < |ws| && |f.pre| <= INVALID_ENDPOINT
    ensures Safe(f, ws[i])
  {
    if i > 0 {
      RunSafe(f, ws, evs, crashes, i - 1);
      assert StepAt(f, ws, evs, crashes, i - 1);
      StepSafe(f, ws[i - 1], ws[i], evs[i - 1], crashes[i - 1]);
    }
  }

  /** So at any moment of any life a boot would find every slot resumable, and would bring every stored device
      back if and only if every slot is ready. */
  lemma RunRecovers(
    f: Firmware, ws: seq<World>, evs: seq<Event>, crashes: seq<Option<nat>>, i: nat, cb: nat -> Callback)
    requires Run(f, ws, evs, crashes) && i < |ws| && |f.pre| <= INVALID_ENDPOINT
    ensures var s := Initialized(ws[i].nvs, f.pre, f.max);
            && ChecksPass(s, s.ram.ids, cb)
            && (Restored(s, Boot(ws[i].nvs, f.pre, f.max, cb).s, s.ram.ids, cb) <==> Ready(s, s.ram.ids, cb))
  {
    RunSafe(f, ws, evs, crashes, i);
    BootChecksPass(ws[i].nvs, f.pre, f.max, cb);
    BootRestoresIff(ws[i].nvs, f.pre, f.max, cb);
  }

  /** Storage has been erased by a reset at step `i`. */
  ghost predicate ResetDone(evs: seq<Event>, crashes: seq<Option<nat>>, i: nat)
    requires i < |evs| && i < |crashes|
  {
    evs[i].Reset? && (crashes[i] == None || crashes[i] == Some(2))
  }

  /** The id that step `i` takes. */
  ghost predicate TakesId(f: Firmware, ws: seq<World>, evs: seq<Event>, crashes: seq<Option<nat>>, i: nat, id: nat)
    requires |ws| == |evs| + 1 == |crashes| + 1 && i < |evs|
  {
    Enabled(ws[i], evs[i]) && id in Issues(f, ws[i], evs[i]) && crashes[i] != Some(0)
  }

  lemma {:induction false} IssuedKept(
    f: Firmware, ws: seq<World>, evs: seq<Event>, crashes: seq<Option<nat>>, i: nat, j: nat, id: nat)
    requires Run(f, ws, evs, crashes) && i <= j < |ws| && id in ws[i].issued
    requires forall k | i <= k < j :: !ResetDone(evs, crashes, k)
    ensures id in ws[j].issued
  {
    if i < j {
      IssuedKept(f, ws, evs, crashes, i, j - 1, id);
      assert StepAt(f, ws, evs, crashes, j - 1) && !ResetDone(evs, crashes, j - 1);
    }
  }

  /** Endpoint ids are never given out twice, over any number of boots and power losses, short of a reset. */
  lemma NeverReissued(
    f: Firmware, ws: seq<World>, evs: seq<Event>, crashes: seq<Option<nat>>, i: nat, j: nat, id: nat, id': nat)
    requires Run(f, ws, evs, crashes) && |f.pre| <= INVALID_ENDPOINT && i < j < |evs|
    requires TakesId(f, ws, evs, crashes, i, id) && TakesId(f, ws, evs, crashes, j, id')
    requires forall k | i <= k < j :: !ResetDone(evs, crashes, k)
    ensures id != id' && |f.pre| <= id
  {
    RunSafe(f, ws, evs, crashes, i);
    RunSafe(f, ws, evs, crashes, j);
    TakenIsIssued(f, ws, evs, crashes, i, id);
    IssuedKept(f, ws, evs, crashes, i + 1, j, id);
    TakenIsCounter(f, ws[j], evs[j], id');
    TakenIsCounter(f, ws[i], evs[i], id);
  }

  lemma TakenIsIssued(f: Firmware, ws: seq<World>, evs: seq<Event>, crashes: seq<Option<nat>>, i: nat, id: nat)
    requires Run(f, ws, evs, crashes) && i < |evs| && TakesId(f, ws, evs, crashes, i, id)
    ensures id in ws[i + 1].issued
  {
    assert StepAt(f, ws, evs, crashes, i);
  }

  /** The id taken is the stored counter, which no id given out has reached. */
  lemma TakenIsCounter(f: Firmware, w: World, ev: Event, id: nat)
    requires Safe(f, w) && Enabled(w, ev) && id in Issues(f, w, ev)
    ensures w.nvs.counter == Some(id) && |f.pre| <= id && id !in w.issued
  {
  }

  /** What the single calls do when power stays on. An endpoint is made, under the next id and without parent, if
      and only if there is room; destroying one and setting a parent touch nothing else. */
  lemma CallsExact(f: Firmware, w: World, w': World, ev: Event)
    requires Step(f, w, w', ev, None) && w.ram.Some?
    ensures var r := w.ram.value;
            match ev
            case NewEndpoint(aggregator) =>
              if |r.endpoints| < f.maxEndpoints then
                && w'.nvs == w.nvs.(counter := Some(r.counter + 1)) && w'.issued == w.issued + {r.counter}
                && w'.ram == Some(Ram(r.counter + 1,
                                      r.endpoints[r.counter := Endpoint(INVALID_ENDPOINT, aggregator)], r.ids))
              else w' == w
            case DropDevice(id) =>
              && w'.ram.Some? && Forgotten(State(w.nvs, r), State(w'.nvs, w'.ram.value), id)
              && w'.ram.value.endpoints == r.endpoints - {id} && w'.issued == w.issued
            case EraseOne(id) =>
              && w'.ram.Some? && Forgotten(State(w.nvs, r), State(w'.nvs, w'.ram.value), id)
              && w'.ram.value.endpoints == r.endpoints && w'.issued == w.issued
            case DropEndpoint(id) => w' == w.(ram := Some(r.(endpoints := r.endpoints - {id})))
            case SetLink(e, parent) =>
              && w'.ram.Some? && w' == w.(ram := Some(r.(endpoints := w'.ram.value.endpoints)))
              && w'.ram.value.endpoints.Keys == r.endpoints.Keys
              && (forall x | x in r.endpoints && x != e :: w'.ram.value.endpoints[x] == r.endpoints[x])
              && w'.ram.value.endpoints[e] == r.endpoints[e].(parent := parent)
            case ResumeBare(id, aggregator) =>
              if id !in r.endpoints && id < r.counter then
                w' == w.(ram := Some(r.(endpoints := r.endpoints[id := Endpoint(0, aggregator)])))
              else w' == w
            case Reset => w' == World(Nvs(None, map[]), None, {})
            case _ => true
  {
    if ev.DropDevice? || ev.EraseOne? { EraseExact(State(w.nvs, w.ram.value), ev.device, ev.device); }
  }

  // ----- parent walks -----

  /** The parent link that the reporting walk follows. */
  ghost function ParentLink(m: map<nat, Endpoint>): nat -> nat {
    id => if id in m then m[id].parent else INVALID_ENDPOINT
  }

  ghost predicate WalksEnd(w: World) {
    w.ram.Some? ==> Acyclic(ParentLink(w.ram.value.endpoints))
  }

  /** The event points an endpoint at a parent whose walk passes that endpoint. */
  ghost predicate Closes(w: World, ev: Event) {
    w.ram.Some? && var r := w.ram.value;
    match ev
    case SetLink(e, parent) => Passes(ParentLink(r.endpoints), parent, e)
    case ResumeBare(id, _) => CanResume(r, id) && Passes(ParentLink(r.endpoints), 0, id)
    case ResumeOne(id, callback) =>
      && ResumeDevice(State(w.nvs, r), id, callback).ok
      && Passes(ParentLink(r.endpoints), ReadInfo(w.nvs, id).value.parent, id)
    case _ => false
  }

  /** One endpoint more, or one with another parent. */
  lemma LinkPut(m: map<nat, Endpoint>, id: nat, e: Endpoint)
    ensures Changed(ParentLink(m), ParentLink(m[id := e]), id, e.parent)
  {
  }

  lemma PutIff(m: map<nat, Endpoint>, id: nat, e: Endpoint)
    requires Acyclic(ParentLink(m)) && id != INVALID_ENDPOINT
    ensures Acyclic(ParentLink(m[id := e])) <==> !Passes(ParentLink(m), e.parent, id)
  {
    LinkPut(m, id, e);
    AcyclicIff(ParentLink(m), ParentLink(m[id := e]), id, e.parent);
  }

  lemma DropKeeps(m: map<nat, Endpoint>, id: nat)
    requires Acyclic(ParentLink(m)) && id != INVALID_ENDPOINT
    ensures Acyclic(ParentLink(m - {id}))
  {
    assert Changed(ParentLink(m), ParentLink(m - {id}), id, INVALID_ENDPOINT);
    DeadEnd(ParentLink(m), id);
    AcyclicIff(ParentLink(m), ParentLink(m - {id}), id, INVALID_ENDPOINT);
  }

  /** A new id is not passed by any walk: no link has reached it. */
  lemma NewIdNotPassed(s: State, parent: nat, p: nat, max: nat)
    requires Running(s, p, max) && LinkBelow(parent, s.ram.counter)
    ensures !Passes(ParentLink(s.ram.endpoints), parent, s.ram.counter)
  {
    var up := ParentLink(s.ram.endpoints);
    forall n: nat | Stops(up, parent, n) ensures s.ram.counter !in Trail(up, parent, n) {
      TrailBelow(up, parent, n, s.ram.counter);
    }
  }

  lemma NewDeviceKeeps(
    s: State, maxEndpoints: nat, parent: nat, deviceType: nat, cb: Callback, p: nat, max: nat)
    requires Running(s, p, max) && s.ram.counter < INVALID_ENDPOINT && Acyclic(ParentLink(s.ram.endpoints))
    ensures Acyclic(ParentLink(CreateDevice(s, maxEndpoints, parent, deviceType, cb).s.ram.endpoints))
  {
    CreateDeviceAllOrNothing(s, maxEndpoints, parent, deviceType, cb, p, max);
    if CreateDevice(s, maxEndpoints, parent, deviceType, cb).ok {
      NewIdNotPassed(s, parent, p, max);
      PutIff(s.ram.endpoints, s.ram.counter, Endpoint(parent, cb.Accepts? && cb.addsAggregator));
    }
  }

  lemma ResumeOneIff(s: State, id: nat, cb: Callback, p: nat, max: nat)
    requires Running(s, p, max) && Acyclic(ParentLink(s.ram.endpoints))
    ensures Acyclic(ParentLink(ResumeDevice(s, id, cb).s.ram.endpoints)) <==>
      !(ResumeDevice(s, id, cb).ok && Passes(ParentLink(s.ram.endpoints), ReadInfo(s.nvs, id).value.parent, id))
  {
    var o := ResumeDevice(s, id, cb);
    if o.ok {
      var e := Endpoint(ReadInfo(s.nvs, id).value.parent, cb.addsAggregator);
      assert o.s.ram.endpoints == s.ram.endpoints[id := e];
      PutIff(s.ram.endpoints, id, e);
    } else {
      assert o.s.ram.endpoints == s.ram.endpoints;
    }
  }

  /** From walks that end, an event leads to walks that end if and only if it does not close a loop. */
  lemma WalksStepIff(f: Firmware, w: World, w': World, ev: Event)
    requires Safe(f, w) && WalksEnd(w) && Step(f, w, w', ev, None) && |f.pre| <= INVALID_ENDPOINT
    ensures WalksEnd(w') <==> !Closes(w, ev)
  {
    match ev
    case PowerOn(cb) =>
      BootLinksDown(w.nvs, f.pre, f.max, cb);
      DownAcyclic(w'.ram.value.endpoints);
    case NewDevice(parent, deviceType, callback) =>
      NewDeviceKeeps(State(w.nvs, w.ram.value), f.maxEndpoints, parent, deviceType, callback, |f.pre|, f.max);
    case DropDevice(id) => DropKeeps(w.ram.value.endpoints, id);
    case NewEndpoint(aggregator) =>
      NewIdNotPassed(State(w.nvs, w.ram.value), INVALID_ENDPOINT, |f.pre|, f.max);
      PutIff(w.ram.value.endpoints, w.ram.value.counter, Endpoint(INVALID_ENDPOINT, aggregator));
    case DropEndpoint(id) => DropKeeps(w.ram.value.endpoints, id);
    case ResumeOne(id, callback) => ResumeOneIff(State(w.nvs, w.ram.value), id, callback, |f.pre|, f.max);
    case EraseOne(id) =>
    case ResumeBare(id, aggregator) =>
      if CanResume(w.ram.value, id) { PutIff(w.ram.value.endpoints, id, Endpoint(0, aggregator)); }
    case SetLink(e, parent) =>
      PutIff(w.ram.value.endpoints, e, w.ram.value.endpoints[e].(parent := parent));
    case Reset =>
  }

  lemma DownAcyclic(m: map<nat, Endpoint>)
    requires LinksDown(m)
    ensures Acyclic(ParentLink(m))
  {
    DescendingAcyclic(ParentLink(m));
  }

  /** Step `i` runs to its end and closes a loop. */
  ghost predicate ClosesAt(ws: seq<World>, evs: seq<Event>, crashes: seq<Option<nat>>, i: nat)
    requires i < |ws| && i < |evs| && i < |crashes|
  {
    crashes[i] == None && Closes(ws[i], evs[i])
  }

  lemma {:induction false} WalksEndUntil(
    f: Firmware, ws: seq<World>, evs: seq<Event>, crashes: seq<Option<nat>>, i: nat)
    requires Run(f, ws, evs, crashes) && i < |ws| && |f.pre| <= INVALID_ENDPOINT
    requires forall k | 0 <= k < i :: !ClosesAt(ws, evs, crashes, k)
    ensures WalksEnd(ws[i])
  {
    if i > 0 {
      WalksEndUntil(f, ws, evs, crashes, i - 1);
      RunSafe(f, ws, evs, crashes, i - 1);
      assert StepAt(f, ws, evs, crashes, i - 1) && !ClosesAt(ws, evs, crashes, i - 1);
      if crashes[i - 1] == None { WalksStepIff(f, ws[i - 1], ws[i], evs[i - 1]); }
    }
  }

  /** All parent walks end at every moment of a life if and only if no event of it closes a loop. */
  lemma RunWalksEndIff(f: Firmware, ws: seq<World>, evs: seq<Event>, crashes: seq<Option<nat>>)
    requires Run(f, ws, evs, crashes) && |f.pre| <= INVALID_ENDPOINT
    ensures (forall i | 0 <= i < |ws| :: WalksEnd(ws[i])) <==>
            (forall k | 0 <= k < |evs| :: !ClosesAt(ws, evs, crashes, k))
  {
    if forall i | 0 <= i < |ws| :: WalksEnd(ws[i]) {
      forall k | 0 <= k < |evs| ensures !ClosesAt(ws, evs, crashes, k) {
        RunSafe(f, ws, evs, crashes, k);
        assert StepAt(f, ws, evs, crashes, k) && WalksEnd(ws[k]) && WalksEnd(ws[k + 1]);
        if crashes[k] == None { WalksStepIff(f, ws[k], ws[k + 1], evs[k]); }
      }
    } else if forall k | 0 <= k < |evs| :: !ClosesAt(ws, evs, crashes, k) {
      var i :| 0 <= i < |ws| && !WalksEnd(ws[i]);
      WalksEndUntil(f, ws, evs, crashes, i);
    }
  }

  // ----- lives without `set_parent_endpoint` -----

  ghost predicate RootLoops(w: World, ev: Event) {
    w.ram.Some? && ev.ResumeBare? && ev.endpoint == 0 && CanResume(w.ram.value, 0)
  }

  lemma RootCloses(w: World, ev: Event)
    requires WalksEnd(w) && RootLoops(w, ev)
    ensures Closes(w, ev)
  {
    var up := ParentLink(w.ram.value.endpoints);
    assert Terminates(up, 0);
    var n :| Stops(up, 0, n);
    TrailLinks(up, 0, n);
    assert Trail(up, 0, n)[0] == 0;
  }

  lemma DownStep(f: Firmware, w: World, w': World, ev: Event)
    requires Safe(f, w) && Step(f, w, w', ev, None) && |f.pre| <= INVALID_ENDPOINT
    requires w.ram.Some? ==> LinksDown(w.ram.value.endpoints)
    requires !ev.SetLink? && !RootLoops(w, ev)
    ensures w'.ram.Some? ==> LinksDown(w'.ram.value.endpoints)
  {
    match ev
    case PowerOn(cb) => BootLinksDown(w.nvs, f.pre, f.max, cb);
    case NewDevice(parent, deviceType, callback) =>
      CreateDeviceAllOrNothing(
        State(w.nvs, w.ram.value), f.maxEndpoints, parent, deviceType, callback, |f.pre|, f.max);
    case ResumeOne(id, callback) =>
      ResumeDeviceOk(State(w.nvs, w.ram.value), id, callback, |f.pre|, f.max);
      if ReadInfo(w.nvs, id).Some? { ReadInfoOk(w.nvs, id, |f.pre|, f.max); }
    case _ =>
  }

  lemma {:induction false} DownUntil(
    f: Firmware, ws: seq<World>, evs: seq<Event>, crashes: seq<Option<nat>>, i: nat)
    requires Run(f, ws, evs, crashes) && i < |ws| && |f.pre| <= INVALID_ENDPOINT
    requires forall k | 0 <= k < i :: !evs[k].SetLink? && (crashes[k] == None ==> !RootLoops(ws[k], evs[k]))
    ensures ws[i].ram.Some? ==> LinksDown(ws[i].ram.value.endpoints)
  {
    if i > 0 {
      DownUntil(f, ws, evs, crashes, i - 1);
      RunSafe(f, ws, evs, crashes, i - 1);
      assert StepAt(f, ws, evs, crashes, i - 1);
      if crashes[i - 1] == None { DownStep(f, ws[i - 1], ws[i], evs[i - 1]); }
    }
  }

  /** Without `set_parent_endpoint`, the one way to an endless walk is a bare resume of id 0. */
  lemma RootLoopsIff(f: Firmware, ws: seq<World>, evs: seq<Event>, crashes: seq<Option<nat>>)
    requires Run(f, ws, evs, crashes) && |f.pre| <= INVALID_ENDPOINT
    requires forall k | 0 <= k < |evs| :: !evs[k].SetLink?
    ensures (forall i | 0 <= i < |ws| :: WalksEnd(ws[i])) <==>
            (forall k | 0 <= k < |evs| :: crashes[k] == None ==> !RootLoops(ws[k], evs[k]))
  {
    if forall k | 0 <= k < |evs| :: crashes[k] == None ==> !RootLoops(ws[k], evs[k]) {
      forall i | 0 <= i < |ws| ensures WalksEnd(ws[i]) {
        DownUntil(f, ws, evs, crashes, i);
        if ws[i].ram.Some? { DownAcyclic(ws[i].ram.value.endpoints); }
      }
    } else if forall i | 0 <= i < |ws| :: WalksEnd(ws[i]) {
      RunWalksEndIff(f, ws, evs, crashes);
      var k :| 0 <= k < |evs| && crashes[k] == None && RootLoops(ws[k], evs[k]);
      RootCloses(ws[k], evs[k]);
      assert ClosesAt(ws, evs, crashes, k);
    }
  }
}
