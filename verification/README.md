# Verified model of the esp-matter data model

This project models the core of esp-matter, Espressif's SDK for Matter devices, in Dafny, and proves
what the code is meant to guarantee about it:

- **The node tree** (`LinkedLists`, `DataModel`, `TreeSteps`, `Lookup`, `Parents`, `Teardown`,
  `FreeOrder`, `Node`, `EndpointIndex`): endpoints, clusters, attributes, commands and events in linked
  lists. Memory is explicit: a struct that is not allocated is not a key of the memory map, so a
  verified operation follows no freed address and frees nothing twice. The memory is at all times
  exactly a tree, and the tree is a nested finite map: `get` is lookup, `create` is insertion if absent,
  `destroy` removes one entry with what lies below it. Destruction frees every struct exactly once. The
  walks over parent links end exactly when the stated conditions hold.
- **The bridge** (`BridgeKeys`, `BridgeProtocol`, `BridgeBoot`, `BridgeRuns`, `Bridge`, `TreeBridge`): the
  order of the writes to non-volatile storage. Each operation is a function to its final state and to every
  content that storage takes on along the way, so a power loss is a choice of one of these. In every life
  of a bridge, with power lost between any two writes, storage stays consistent, every slot passes the
  checks of `endpoint::resume`, and no endpoint id is given out twice. Which devices a boot brings back
  and which it erases is stated exactly.
- **The attribute store** (`AttributeValues`, `AttributeStore`, `AttributeRuns`): comparing, setting,
  bounding, storing and restoring values, over whole histories with deferred writes and reboots.
- **Writes from clients** (`DataVersion`, `EmberCodec`, `TlvCodec`, `WritePath`): the data version as
  compare and swap, the two codecs, and the whole way of a write from the element to the attribute and
  back.
- **The stack lock** (`StackLock`): any number of threads, any nesting, every interleaving.
- **Access privileges** (`HexText`, `Privileges`): the generated tables and the lookups over them.

Where the source updates something in place there is a class or a method with loops, proved equal to a
specification function; the theorems are about the specification. Where a property one would expect is
false of the code, the code is modelled as it is, and the property is proved to hold exactly under a
stated condition:

- A resumed endpoint has parent link 0, so a resumed endpoint 0 is its own parent and the reporting walk
  never ends (`Teardown.ResumedRootLoops`, `Teardown.CreateKeepsAcyclicIff`, `BridgeRuns.RootLoopsIff`).
- `set_parent_endpoint` looks at no loop, so walks end exactly as long as no event closes one
  (`BridgeRuns.WalksStepIff`, `BridgeRuns.RunWalksEndIff`).
- A bridged device whose parent is itself a bridged device comes back only if its parent is at an earlier
  slot; slots are reused, so it need not be (`BridgeBoot.ChildBeforeParentIsLost`,
  `BridgeBoot.BootRestoresIff`).
- The storage functions know neither nullable booleans nor 16-bit enumerations, so such attributes are not
  restored (`AttributeRuns.EnumIsLost`, `AttributeRuns.UnboundedRestoredIff`, `AttributeRuns.AlwaysRestoredIff`).
- `add_bounds` on an integer of unspecified width or a nullable boolean returns an error but leaves the
  bounds in place, after which every set is refused (`AttributeRuns.FailedBoundsStayIff`,
  `AttributeRuns.FailedBoundsFreeze`).
- With bounds in the wrong order clamping is not idempotent (`AttributeRuns.ClampIdempotentIff`), and a deferred
  attribute can come back from a reboot with a value that it never had (`AttributeRuns.CrossedBoundsLose`,
  `AttributeRuns.UnsteadyLoses`, `AttributeRuns.AlwaysRestoredIff`).
- Cluster code, `attribute::set_val` and `add_bounds` change stored values without moving the data version
  (`DataVersion.AssignSlips`, `DataVersion.EqualVersionEqualValues`).
- A successful set of an empty string stores nothing (`AttributeStore.SetThenGet`).
- A nullable boolean survives neither codec (`EmberCodec.BooleanRoundTrip`, `TlvCodec.TlvRoundTrip`), and
  an empty octet string does not decode, because allocating zero bytes gives no buffer.
- A number that a nullable type reserves for null is read back as null (`WritePath.ClientReadsBack`).
- With a retry interval of zero ticks a finite wait for the stack lock need not end
  (`StackLock.WaitEndsIff`).
- If a firmware makes more endpoints before start than the stored counter allows, live ids are not below
  the counter (`BridgeBoot.StartAboveLive`). If it makes so many that an id of a stored device is taken, the
  device is lost (`BridgeBoot.OtherFirmwarePassesIff`, `BridgeBoot.CollidingDeviceLost`).

`dafny verify dfyconfig.toml` checks the project.

## Model

| member | source | states |
|---|---|---|
| LinkedLists.Find | components/esp_matter/data_model/esp_matter_data_model.cpp:682-695 | the search loop of every level stops at the first struct that satisfies the test, or at null if none does |
| LinkedLists.Append | components/esp_matter/data_model/private/singly_linked_list.h:67-74 | the list ends with the new struct, keeps its order, and no link outside it changes |
| LinkedLists.Unlink | components/esp_matter/data_model/private/singly_linked_list.h:77-85 | the pointer-to-pointer search finds the target exactly when it is on the list, and relinks to the list without it |
| LinkedLists.DeleteList | components/esp_matter/data_model/private/singly_linked_list.h:88-97 | every struct of the list is freed, in order and once; nothing freed is followed |
| DataModel.InsertOk | components/esp_matter/data_model/esp_matter_data_model.cpp:569-632 | appending a struct that does not clash keeps the whole memory a tree: nothing shared, dangling or leaked, ids unique among siblings, commands of one id with disjoint flags, stored ids matching the parents |
| DataModel.DropOk | components/esp_matter/data_model/esp_matter_data_model.cpp:1481-1508 | removing a struct with everything below it keeps the whole memory a tree |
| DataModel.UpdateOk | components/esp_matter/data_model/esp_matter_data_model.cpp:1912-1920 | changing a struct in place without touching ids keeps the tree |
| TreeSteps.LinkNew | components/esp_matter/data_model/esp_matter_data_model.cpp:1454-1478 | allocating and appending a struct gives the tree with that struct at the end of its list and empty sublists |
| TreeSteps.RemoveLeaf | components/esp_matter/data_model/esp_matter_data_model.cpp:666-680 | a leaf is unlinked and freed exactly when it is on the given list; otherwise nothing changes |
| TreeSteps.FreeLeaves | components/esp_matter/data_model/esp_matter_data_model.cpp:1486-1499 | commands, attributes and events of a cluster are freed in that order although the attribute head is left dangling |
| TreeSteps.FreeCluster | components/esp_matter/data_model/esp_matter_data_model.cpp:1481-1508 | a destroyed cluster is found again through its endpoint id, unlinked and freed with all it holds; the rest of the tree is untouched |
| TreeSteps.ParentById | components/esp_matter/data_model/esp_matter_data_model.cpp:1501-1506 | the endpoint found by the id stored in a cluster is the one whose list holds the cluster, so the branch without parent is never taken |
| TreeSteps.FreeClusters | components/esp_matter/data_model/esp_matter_data_model.cpp:1800-1808 | destroying cluster after cluster of the list being walked frees each once and ends with an empty list |
| TreeSteps.FirstNext | components/esp_matter/data_model/esp_matter_data_model.cpp:1801-1807 | the link read before a cluster is destroyed is the head of the list after it |
| TreeSteps.FreeEndpoint | components/esp_matter/data_model/esp_matter_data_model.cpp:1757-1826 | exactly the endpoint and everything below it goes; every other struct and list stays as it was |
| TreeSteps.SameSibling | components/esp_matter/data_model/esp_matter_data_model.cpp:1828-1840 | siblings with one id are one struct |
| Lookup.HandleToPath | components/esp_matter/data_model/esp_matter_data_model.cpp:988-1001 | for every endpoint, cluster, attribute and event, looking up its path gives the same handle |
| Lookup.PathToHandle | components/esp_matter/data_model/esp_matter_data_model.cpp:682-704 | a path that leads to a struct is the path of that struct |
| Lookup.CreatedPaths | components/esp_matter/data_model/esp_matter_data_model.cpp:1442-1479 | create is insertion into a nested finite map: one path is added, every other path leads where it led |
| Lookup.DestroyedPaths | components/esp_matter/data_model/esp_matter_data_model.cpp:666-680 | destroying an attribute, event or cluster removes its path and those below it, and no other |
| Lookup.EndpointDestroyedPaths | components/esp_matter/data_model/esp_matter_data_model.cpp:1757-1826 | destroying an endpoint removes exactly the paths that start with its id |
| Lookup.SurvivorPaths | components/esp_matter/data_model/esp_matter_data_model.cpp:1510-1529 | updates and destructions move no path to another struct |
| Parents.AcyclicIff | components/esp_matter/data_model/esp_matter_data_model.cpp:1912-1920 | pointing one endpoint at a parent keeps every walk finite if and only if the walk from the parent does not pass the endpoint |
| Parents.LoopsForever | components/esp_matter/data_model/esp_matter_data_model.cpp:216-226 | if the parent's walk passes the endpoint, the new walk never ends |
| Parents.TrailLinks | components/esp_matter/data_model/esp_matter_data_model.cpp:216-226 | a walk starts at its first id, each id is the parent of the one before, and the last has no parent |
| Parents.DescendingTrail | components/esp_matter_bridge/esp_matter_bridge.cpp:319-320 | with parents below their children the walk visits strictly decreasing ids, each once |
| Teardown.ReportPartsList | components/esp_matter/data_model/esp_matter_data_model.cpp:216-226 | the reporting loop reports exactly the ancestors in order and then endpoint 0 |
| Teardown.DestroyKeepsAcyclic | components/esp_matter/data_model/esp_matter_data_model.cpp:216-226 | walks stay finite when an endpoint, possibly an ancestor, is destroyed |
| Teardown.CreateKeepsAcyclicIff | components/esp_matter/data_model/esp_matter_data_model.cpp:1741-1745 | walks stay finite after create or resume if and only if the walk from the new parent link does not pass the new id |
| Teardown.ResumedRootLoops | components/esp_matter/data_model/esp_matter_data_model.cpp:1741-1745 | resume leaves the parent link at 0, so a resumed endpoint 0 is its own parent and the walk from it never ends |
| Teardown.DisableAndFree | components/esp_matter/data_model/esp_matter_data_model.cpp:1757-1826 | a destroyed endpoint is reported to its ancestors and freed with everything below it |
| Teardown.FreeAll | components/esp_matter/data_model/esp_matter_data_model.cpp:2115-2128 | the loop of node::destroy leaves nothing allocated and frees in the stated order |
| FreeOrder.ClusterOrderExact | components/esp_matter/data_model/esp_matter_data_model.cpp:1481-1508 | the free order of a cluster repeats no address and lists exactly the cluster and what belongs to it |
| FreeOrder.EndpointOrderExact | components/esp_matter/data_model/esp_matter_data_model.cpp:1757-1826 | the free order of an endpoint repeats no address and lists exactly what lies below it and itself |
| FreeOrder.NodeOrderExact | components/esp_matter/data_model/esp_matter_data_model.cpp:2108-2130 | node::destroy frees every allocated struct exactly once |
| NodeTree.Node.constructor | components/esp_matter/data_model/esp_matter_data_model.cpp:2086-2092 | a new node is an empty valid tree with counter 0 |
| NodeTree.Node.GetEndpoint | components/esp_matter/data_model/esp_matter_data_model.cpp:1828-1846 | get is map lookup: the endpoint at the path, null if there is none |
| NodeTree.Node.GetCluster | components/esp_matter/data_model/esp_matter_data_model.cpp:1510-1529 | get by path is map lookup; a missing endpoint gives null |
| NodeTree.Node.GetAttribute | components/esp_matter/data_model/esp_matter_data_model.cpp:682-704 | get by path is map lookup; a missing cluster gives null |
| NodeTree.Node.GetCommand | components/esp_matter/data_model/esp_matter_data_model.cpp:1301-1313 | the first command with the id and a common flag, null if there is none |
| NodeTree.Node.GetPath | components/esp_matter/data_model/esp_matter_data_model.cpp:988-1001 | the path computed from an attribute handle leads back to that handle, whether stored or searched for |
| NodeTree.FindInTree | components/esp_matter/data_model/esp_matter_data_model.cpp:922-943 | the three nested loops find the path of every attribute that is in the tree |
| NodeTree.Node.CreateEndpoint | components/esp_matter/data_model/esp_matter_data_model.cpp:1683-1716 | null at the limit; otherwise the next id is taken, the counter moves by one and one endpoint is appended, enabled and without parent |
| NodeTree.Node.ResumeEndpoint | components/esp_matter/data_model/esp_matter_data_model.cpp:1718-1755 | succeeds if and only if the id is not on the node and below the counter; the new endpoint is disabled with parent link 0 |
| NodeTree.Node.GainFlags | components/esp_matter/data_model/esp_matter_data_model.cpp:1449-1454 | a cluster that is created again keeps every flag, gains the given ones and no other; id, endpoint and version stay |
| NodeTree.Node.CreateCluster | components/esp_matter/data_model/esp_matter_data_model.cpp:1442-1479 | null without a server or client flag; an existing cluster keeps its flags, gains the given ones and nothing else changes; otherwise one cluster is appended |
| NodeTree.Node.CreateAttribute | components/esp_matter/data_model/esp_matter_data_model.cpp:569-632 | insert if absent, with the given id and flags, as the small struct exactly for attributes managed internally, and otherwise with the ids of its cluster and endpoint |
| NodeTree.Node.CreateEvent | components/esp_matter/data_model/esp_matter_data_model.cpp:1370-1392 | insert if absent |
| NodeTree.Node.CreateCommand | components/esp_matter/data_model/esp_matter_data_model.cpp:1250-1275 | inserts unless a command with the id shares a flag, in which case that command is returned and nothing changes |
| NodeTree.Node.LoadCounter | components/esp_matter/data_model/esp_matter_data_model.cpp:176-210 | loading the stored counter keeps a node whose live ids are the first ones valid if and only if the counter is not below them |
| NodeTree.Node.SetParent | components/esp_matter/data_model/esp_matter_data_model.cpp:1912-1920 | only the parent link of this endpoint changes |
| NodeTree.Node.Disable | components/esp_matter/data_model/esp_matter_data_model.cpp:228-247 | the endpoint is disabled, its ancestors and endpoint 0 are reported, nothing else changes |
| NodeTree.Node.DestroyAttribute | components/esp_matter/data_model/esp_matter_data_model.cpp:666-680 | not found exactly when the handle is not on this cluster; otherwise one struct goes and is freed once |
| NodeTree.Node.DestroyCommand | components/esp_matter/data_model/esp_matter_data_model.cpp:1277-1284 | the command goes and is freed once, nothing else changes |
| NodeTree.Node.DestroyEvent | components/esp_matter/data_model/esp_matter_data_model.cpp:1394-1401 | the event goes and is freed once, nothing else changes |
| NodeTree.Node.DestroyCluster | components/esp_matter/data_model/esp_matter_data_model.cpp:1481-1508 | the cluster goes with all it holds, each struct freed once |
| NodeTree.Node.DestroyEndpoint | components/esp_matter/data_model/esp_matter_data_model.cpp:1757-1826 | fails and changes nothing unless the endpoint is destroyable; otherwise it goes with everything below it, each struct freed once |
| NodeTree.Node.DestroyAll | components/esp_matter/data_model/esp_matter_data_model.cpp:2108-2130 | nothing stays allocated; with NodeOrderExact, everything was freed exactly once |
| EndpointIndex.ServerEndpointIndex | components/esp_matter/data_model_provider/esp_matter_ember_stubs.cpp:782-802 | the position of the endpoint among those holding the cluster, 0xFFFF if it does not hold it |
| EndpointIndex.IndexBijection | components/esp_matter/data_model_provider/esp_matter_ember_stubs.cpp:782-802 | the endpoints holding a cluster are listed once each and in list order, so the index is a bijection onto 0..n-1 that keeps the order |
| EndpointIndex.HoldingExact | components/esp_matter/data_model_provider/esp_matter_ember_stubs.cpp:758-769 | filtering keeps exactly the matching endpoints, none twice |
| EndpointIndex.EndpointAtIndex | components/esp_matter/data_model_provider/esp_matter_ember_stubs.cpp:40-49 | the endpoint at a position, null past the end |
| EndpointIndex.EnabledEndpoints.constructor | components/esp_matter/data_model_provider/esp_matter_ember_stubs.cpp:739-744 | the iterator starts with exactly the enabled endpoints that hold the cluster still to visit, in order |
| EndpointIndex.EnabledEndpoints.EnsureMatchingEndpoint | components/esp_matter/data_model_provider/esp_matter_ember_stubs.cpp:758-769 | skipping to the next match loses no endpoint that is still to be visited |
| EndpointIndex.EnabledEndpoints.Current | components/esp_matter/data_model_provider/esp_matter_ember_stubs.cpp:746-749 | the id of the first endpoint still to visit, the invalid id at the end |
| EndpointIndex.EnabledEndpoints.Advance | components/esp_matter/data_model_provider/esp_matter_ember_stubs.cpp:751-756 | advancing drops exactly the first of the endpoints still to visit |
| EndpointIndex.VisitAll | components/esp_matter/data_model_provider/esp_matter_ember_stubs.cpp:739-769 | a loop over the iterator visits exactly the enabled endpoints holding the cluster, each once and in order |
| HexText.HexRoundTrip | components/esp_matter_bridge/nvs_key_allocator.h:31-34 | hexadecimal printing loses nothing |
| BridgeKeys.KeysApart | components/esp_matter_bridge/nvs_key_allocator.h:27-34 | record keys of different endpoints differ, and none is the key of the id array |
| BridgeProtocol.EraseInfoOk | components/esp_matter_bridge/esp_matter_bridge.cpp:199-226 | erasing a device writes the slots before it erases the record, so storage is consistent after each write |
| BridgeProtocol.EraseExact | components/esp_matter_bridge/esp_matter_bridge.cpp:199-226 | erasing a device frees exactly its slot and erases exactly its record, whatever the state; removing it also drops exactly its endpoint |
| BridgeProtocol.RemoveDeviceOk | components/esp_matter_bridge/esp_matter_bridge.cpp:396-408 | removing a device keeps storage consistent after each write |
| BridgeProtocol.CreateEndpointOk | components/esp_matter/data_model/esp_matter_data_model.cpp:1699-1713 | the advanced counter is stored before the endpoint is linked; storage stays consistent |
| BridgeProtocol.StoreInfoOk | components/esp_matter_bridge/esp_matter_bridge.cpp:325-332 | writing a record before its slot keeps storage consistent |
| BridgeProtocol.StoreSlotOk | components/esp_matter_bridge/esp_matter_bridge.cpp:334-348 | taking a free slot for an id that already has its record keeps storage consistent |
| BridgeProtocol.CreateDeviceOk | components/esp_matter_bridge/esp_matter_bridge.cpp:289-350 | every content of storage during create_device is consistent, on every branch |
| BridgeProtocol.CreateDeviceAllOrNothing | components/esp_matter_bridge/esp_matter_bridge.cpp:289-350 | on every failure branch only the counter has moved; on success exactly one endpoint, one slot and one record were added; success exactly when parent, room, callback and a free slot allow it |
| BridgeProtocol.ZeroNeverStored | components/esp_matter_bridge/esp_matter_bridge.cpp:316-318 | no device has id 0, so removing a device whose record id is still 0 removes nothing else |
| BridgeProtocol.RemoveUndoesCreate | components/esp_matter_bridge/esp_matter_bridge.cpp:396-408 | remove_device after create_device restores endpoints, slots and records; only the id is spent |
| BridgeBoot.ResumeDeviceOk | components/esp_matter_bridge/esp_matter_bridge.cpp:352-394 | resuming keeps storage consistent after each write, on every branch |
| BridgeBoot.ResumeOutcome | components/esp_matter_bridge/esp_matter_bridge.cpp:352-394 | every end of resume_device: nothing happens without record or valid parent; a device that cannot be resumed or is rejected loses exactly its slot and record and no endpoint changes; any other comes back with its recorded parent and nothing is written |
| BridgeBoot.BootOk | components/esp_matter_bridge/esp_matter_console_bridge.cpp:191-230 | a boot from consistent storage passes only through consistent storage and ends in step with it |
| BridgeBoot.BootChecksPass | components/esp_matter/data_model/esp_matter_data_model.cpp:1725-1734 | after a boot from consistent storage both checks of endpoint::resume pass for every slot |
| BridgeBoot.BootRestoresIff | components/esp_matter_bridge/esp_matter_console_bridge.cpp:200-227 | a boot brings back every stored device, with its recorded parent and storage unchanged, if and only if the application accepts every device and every recorded parent is an aggregator made before start or an accepted one at an earlier slot |
| BridgeBoot.BootFate | components/esp_matter_bridge/esp_matter_console_bridge.cpp:199-227 | for each slot of consistent storage: the device is live after the boot, with its recorded parent, if and only if it is accepted and its parent is an aggregator made before start or come back as one at an earlier slot; slot and record are erased if and only if it is rejected with such a parent, and stay otherwise |
| BridgeBoot.BootKeepsOthers | components/esp_matter_bridge/esp_matter_console_bridge.cpp:199-227 | a boot changes no endpoint made before start and no record without a slot, and makes no other endpoint |
| BridgeBoot.ResumeAllRestoresIff | components/esp_matter_bridge/esp_matter_console_bridge.cpp:199-227 | the boot loop restores all its slots if and only if each is accepted and has its parent ready when it is its turn, and then writes nothing |
| BridgeBoot.ChildBeforeParentIsLost | components/esp_matter_bridge/esp_matter_bridge.cpp:361-364 | a bridged device under a bridged aggregator that took the slot before its parent is not resumed at the next boot, nor, since nothing is erased, at any later one, although the application accepts everything |
| BridgeBoot.StartAboveLive | components/esp_matter/esp_matter_core.cpp:399-407 | the live ids are below the counter after start if and only if the firmware makes no more endpoints before start than the stored counter allows |
| BridgeBoot.OtherFirmwarePassesIff | components/esp_matter/data_model/esp_matter_data_model.cpp:1725-1734 | if a firmware makes another number of endpoints before start than the one that filled the storage, both checks of endpoint::resume pass for every slot if and only if no stored id is among those taken before start |
| BridgeBoot.CollidingDeviceLost | components/esp_matter_bridge/esp_matter_bridge.cpp:352-378 | a stored device whose id another firmware takes before start is not resumed, the id stays with the endpoint made before start, and record and slot are erased if and only if that firmware makes the recorded parent an aggregator |
| BridgeRuns.ResetOrder | components/esp_matter_bridge/esp_matter_console_bridge.cpp:74-80 | a reset erases the bridge first and then the counter; that order is safe, and erasing the counter first is safe if and only if no record is left |
| BridgeRuns.CallsExact | components/esp_matter/data_model/esp_matter_data_model.cpp:1683-1755 | in a run an endpoint is made if and only if there is room, under the next id, which is stored; removing and erasing a device forget exactly that device; destroying an endpoint, setting a parent and a bare resume change exactly that endpoint; a reset leaves nothing |
| BridgeRuns.StepSafe | components/esp_matter_bridge/esp_matter_bridge.cpp:199-226 | every event, complete or cut off after any number of writes, keeps the invariant |
| BridgeRuns.RunSafe | components/esp_matter_bridge/esp_matter_bridge.cpp:326-349 | crash consistency: in every run with power loss between any two writes, every valid slot is distinct, has its own record, and is below the stored counter |
| BridgeRuns.RunRecovers | components/esp_matter_bridge/esp_matter_console_bridge.cpp:200-211 | at every moment of every run a boot would find both checks of endpoint::resume passing for every slot, and would restore every device if and only if every slot is ready |
| BridgeRuns.NeverReissued | components/esp_matter/data_model/esp_matter_data_model.cpp:160-210 | over any number of boots, power losses, creates, destroys, resumes and erasures without reset, endpoint::create never gives out an id twice |
| BridgeRuns.WalksStepIff | components/esp_matter/data_model/esp_matter_data_model.cpp:1912-1920 | from a state in which all parent walks end, any event leads to such a state if and only if it does not point an endpoint at a parent whose walk passes that endpoint, by set_parent_endpoint, by a bare resume, or by a recorded parent |
| BridgeRuns.RunWalksEndIff | components/esp_matter/data_model/esp_matter_data_model.cpp:216-226 | over a whole life, with power losses, all parent walks end at every moment if and only if no event closes a loop |
| BridgeRuns.RootLoopsIff | components/esp_matter/data_model/esp_matter_data_model.cpp:1736-1745 | in a life without set_parent_endpoint all walks end at every moment if and only if id 0 is never resumed outside resume_device; parents are then always below their children |
| Bridge.Bridge.constructor | components/esp_matter/esp_matter_core.cpp:399-407 | from consistent storage start writes only consistent storage, records stay, and the live ids are below the counter if and only if the firmware makes no more endpoints before start than the stored counter allows |
| Bridge.Bridge.InitializeSlots | components/esp_matter_bridge/esp_matter_bridge.cpp:410-445 | a stored array of the configured length is taken over write for write as in the protocol, a missing one is stored, one that is too long is refused without change, a shorter one fills the front |
| Bridge.Bridge.EraseDeviceInfo | components/esp_matter_bridge/esp_matter_bridge.cpp:199-226 | the loop over the slots and the two writes take exactly the path of the protocol |
| Bridge.Bridge.Remove | components/esp_matter_bridge/esp_matter_bridge.cpp:396-408 | takes exactly the path of the protocol |
| Bridge.Bridge.NewEndpoint | components/esp_matter/data_model/esp_matter_data_model.cpp:1699-1713 | takes exactly the path of the protocol |
| Bridge.Bridge.Create | components/esp_matter_bridge/esp_matter_bridge.cpp:289-350 | takes exactly the path of the protocol, write for write, on every branch |
| Bridge.Bridge.Register | components/esp_matter_bridge/esp_matter_bridge.cpp:325-349 | record, slot search, slot and array write take exactly the path of the protocol |
| Bridge.Bridge.FindFree | components/esp_matter_bridge/esp_matter_bridge.cpp:336-342 | the loop finds the first free slot |
| Bridge.Bridge.Resume | components/esp_matter_bridge/esp_matter_bridge.cpp:352-394 | takes exactly the path of the protocol on every branch |
| Bridge.Bridge.ResumeSlots | components/esp_matter_bridge/esp_matter_console_bridge.cpp:199-227 | the boot loop over the copied slots takes exactly the path of the protocol |
| Bridge.Bridge.Reset | components/esp_matter_bridge/esp_matter_console_bridge.cpp:74-80 | bridge namespace first, then the node's; all slots end up free |
| TreeBridge.CreateCommutes | components/esp_matter/data_model/esp_matter_data_model.cpp:1683-1716 | creating an endpoint in the tree is creating it in the bridge's map of endpoints |
| TreeBridge.ResumeCommutes | components/esp_matter/data_model/esp_matter_data_model.cpp:1718-1755 | the checks and the effect of endpoint::resume on the tree are those on the bridge's map |
| TreeBridge.SetParentCommutes | components/esp_matter/data_model/esp_matter_data_model.cpp:1912-1920 | setting a parent in the tree is changing that link in the bridge's map |
| TreeBridge.DestroyCommutes | components/esp_matter/data_model/esp_matter_data_model.cpp:1757-1826 | destroying an endpoint in the tree is removing its id from the bridge's map |
| AttributeValues.CompareDecidesMeaning | components/esp_matter/data_model/esp_matter_attribute_utils.cpp:667-730 | val_compare holds if and only if the types agree, the values mean the same, and the type is comparable and not NaN |
| AttributeValues.CompareEquivalence | components/esp_matter/data_model/esp_matter_attribute_utils.cpp:667-730 | val_compare is symmetric and transitive, and reflexive exactly on comparable values |
| AttributeValues.ClampInBounds | components/esp_matter/data_model/esp_matter_data_model.cpp:397-567 | for integer types compare is 0 exactly for null or in-range values, and clamping achieves it exactly when the bounds are ordered, the value is null, or the chosen bound is the null value |
| AttributeValues.ClampNearest | components/esp_matter/data_model/esp_matter_data_model.cpp:552-567 | with ordered bounds a null, a NaN or a value between them stays, and any other number becomes the value between the bounds that is nearest to it, for integers and for floats |
| AttributeValues.ClampCrossed | components/esp_matter/data_model/esp_matter_data_model.cpp:552-567 | with bounds in the wrong order only a null stays; an integer below the minimum becomes the minimum and any other the maximum |
| AttributeValues.WithinReal | components/esp_matter/data_model/esp_matter_data_model.cpp:531-545 | for floats compare is 0 exactly for NaN and for values between the bounds, where a NaN bound bounds nothing |
| AttributeValues.SignedRange | components/esp_matter/data_model/esp_matter_attribute_utils.cpp:523-571 | the range of each signed type; its smallest value stands for null |
| AttributeValues.UnsignedRange | components/esp_matter/data_model/esp_matter_attribute_utils.cpp:523-571 | the range of each unsigned type, enumeration and bitmap; its largest value stands for null |
| AttributeValues.NullLengths | components/esp_matter/data_model/esp_matter_data_model.cpp:774-778 | the length that stands for a null string is the largest of a short or a long length field |
| AttributeStore.SetOutcome | components/esp_matter/data_model/esp_matter_data_model.cpp:738-837 | each result with exactly its states: INVALID_ARG for a type or bounds that refuse the value, NOT_FINISHED for an admissible comparable value that already means the same, the callback error for a refused change, NO_MEM for an accepted string that is too long, OK for everything else; any result but OK changes nothing |
| AttributeStore.SetKeepsFit | components/esp_matter/data_model/esp_matter_data_model.cpp:774-802 | strings stay null or within their maximum, and only a longer one is refused for its length |
| AttributeStore.SetThenGet | components/esp_matter/data_model/esp_matter_data_model.cpp:1018-1028 | after OK a get means what was set, if and only if it was not an empty string |
| AttributeStore.SetStores | components/esp_matter/data_model/esp_matter_data_model.cpp:820-834 | a set that changes the value writes nothing for a volatile attribute, only starts the timer for a deferred one, and otherwise writes the new value; 16-bit enumerations and nullable booleans leave the entry as it was |
| AttributeStore.StringStored | components/esp_matter/data_model/private/esp_matter_nvs.cpp:210-222 | setting a non-volatile string to null erases its entry, and setting bytes stores an entry that means these bytes |
| AttributeStore.TimerStores | components/esp_matter/data_model/esp_matter_data_model.cpp:729-736 | when the timer fires the current value is written and nothing else changes |
| AttributeStore.CreateStores | components/esp_matter/data_model/esp_matter_data_model.cpp:612-626 | a new attribute takes over a stored number of a known type and writes nothing; otherwise it means its default, unless that is too long, and writes it unless it is already there |
| AttributeStore.BoundsOutcome | components/esp_matter/data_model/esp_matter_data_model.cpp:1135-1166 | NOT_SUPPORTED exactly for attributes managed internally, OK exactly for agreeing types that can be compared; after OK only bounds and value have changed, and with ordered bounds the value is the nearest one between them |
| AttributeStore.Attribute.constructor | components/esp_matter/data_model/esp_matter_data_model.cpp:569-632 | a stored number of a known type is taken over; otherwise the attribute means its default unless a string default is too long |
| AttributeStore.Attribute.Set | components/esp_matter/data_model/esp_matter_data_model.cpp:738-837 | an error changes nothing; after OK the attribute means what was set unless that was an empty string; NOT_FINISHED if and only if an admissible value is already there; char buffers stay terminated |
| AttributeStore.Attribute.SameString | components/esp_matter/data_model/esp_matter_attribute_utils.cpp:674-687 | comparing lengths and then bytes is val_compare on strings |
| AttributeStore.Attribute.Store | components/esp_matter/data_model/esp_matter_data_model.cpp:779-802 | the new buffer holds exactly the bytes of the value, followed by a zero for a char string |
| AttributeStore.Attribute.Bound | components/esp_matter/data_model/esp_matter_data_model.cpp:1135-1166 | the state and result of the specification; after OK with ordered bounds the value is the nearest one between them |
| AttributeStore.Attribute.Defer | components/esp_matter/data_model/esp_matter_data_model.cpp:1231-1245 | only a non-volatile attribute of the data model becomes deferred, and no other flag changes |
| AttributeStore.Attribute.OnTimer | components/esp_matter/data_model/esp_matter_data_model.cpp:729-736 | the value stays and storage agrees with it if it knows the type |
| AttributeRuns.BoundsHoldForever | components/esp_matter/data_model/esp_matter_data_model.cpp:1135-1166 | after add_bounds with ordered bounds the value is null or within them after every sequence of operations |
| AttributeRuns.FailedBoundsFreeze | components/esp_matter/data_model/esp_matter_data_model.cpp:1135-1166 | what a failing add_bounds leaves behind freezes the attribute: after every sequence of operations its value is the same and every further set returns INVALID_ARG |
| AttributeRuns.FailedBoundsStayIff | components/esp_matter/data_model/esp_matter_data_model.cpp:1135-1166 | a failing add_bounds changes the attribute if and only if the types agree and are an integer of unspecified width or a nullable boolean |
| AttributeRuns.ClampIdempotentIff | components/esp_matter/data_model/esp_matter_data_model.cpp:552-567 | over all values of an integer type, clamping twice is clamping once if and only if the bounds are ordered or, for a nullable type, the null value at the end of the range keeps them from clashing |
| AttributeRuns.BootRestores | components/esp_matter/data_model/esp_matter_data_model.cpp:612-626 | creating the attribute again and re-adding the bounds gives the clamp of the stored value, or of the default |
| AttributeRuns.BootNearest | components/esp_matter/data_model/esp_matter_data_model.cpp:612-626 | a boot with ordered bounds gives the value between them that is nearest to the stored one, or to the default |
| AttributeRuns.RebootRestores | components/esp_matter/data_model/esp_matter_data_model.cpp:820-834 | unless the default waits to be written and the bounds would move it twice, after any history of sets, deferred writes and reboots a reboot restores the value before it if no timer is pending, and otherwise a value of the same history |
| AttributeRuns.AlwaysRestoredIff | components/esp_matter/data_model/private/esp_matter_nvs.cpp:202-311 | for any bounds, ordered or not: a numeric non-volatile attribute of a type that storage knows is restored after every history without pending timer if and only if it is not deferred, or its default is zero, or the bounds move the default at most once; one of an unknown type if and only if the bounds leave nothing to set but the default. It never comes back with a value that it did not have before under the same condition for known types, and always for unknown ones |
| AttributeRuns.UnsteadyLoses | components/esp_matter/data_model/esp_matter_data_model.cpp:1153-1165 | whenever that condition fails for a known type, firing the timer after creation and rebooting gives a value that the attribute never had |
| AttributeRuns.CrossedBoundsLose | components/esp_matter/data_model/esp_matter_data_model.cpp:1153-1165 | a deferred 8-bit number with default 5 and bounds from 10 to 0 is 10 before the reboot and 0 after it |
| AttributeRuns.OrderedIsSteady | components/esp_matter/data_model/esp_matter_data_model.cpp:552-567 | ordered bounds of an integer type always meet the condition of the restore |
| AttributeRuns.UnboundedRestoredIff | components/esp_matter/data_model/private/esp_matter_nvs.cpp:202-311 | without bounds it is restored after every such history if and only if it is neither a 16-bit enumeration nor a nullable boolean |
| AttributeRuns.EnumIsLost | components/esp_matter/data_model/private/esp_matter_nvs.cpp:297-303 | a 16-bit enumeration with default 0, set to 5, is 0 after a reboot |
| DataVersion.StepBumps | components/esp_matter/data_model_provider/esp_matter_data_model_provider.cpp:874-884 | a step advances the version by exactly one or leaves it; if it leaves it, a stored value changes if and only if the step is an ember write by cluster code, attribute::set_val or add_bounds that replaces a value |
| DataVersion.AssignSlips | components/esp_matter/data_model/esp_matter_data_model.cpp:1120-1133 | attribute::set_val changes a value from 0 to 5 and leaves the version |
| DataVersion.WriteStatus | components/esp_matter/data_model_provider/esp_matter_data_model_provider.cpp:514-613 | every answer to a write with exactly its requests and states: a version mismatch only for a request that carries a version and a different one, success exactly when no check refuses and the pre-change callbacks ignore the write or the attribute takes the value |
| DataVersion.WriteEffect | components/esp_matter/data_model_provider/esp_matter_data_model_provider.cpp:588-613 | a write that succeeds moves the version by one, touches no other attribute and leaves this one meaning what arrived unless it was ignored or an empty string; one taken by an access interface moves the version only; any other changes nothing |
| DataVersion.EmberStatus | components/esp_matter/data_model_provider/esp_matter_ember_stubs.cpp:894-961 | an ember write succeeds exactly if the callbacks ignore it, or let it proceed and the value is admitted and already there or neither refused nor too long; a failing one changes nothing |
| DataVersion.UpdateStatus | components/esp_matter/data_model/esp_matter_attribute_utils.cpp:631-655 | an update or report gives no error exactly for an attribute that takes the value, moves the version exactly if the value changes, touches no other attribute, and changes nothing on error |
| DataVersion.UpdateEstablishes | components/esp_matter/data_model/esp_matter_attribute_utils.cpp:631-655 | an update or report without error leaves the attribute meaning what was asked for, changed or not |
| DataVersion.EqualVersionEqualValues | components/esp_matter/data_model/esp_matter_attribute_utils.cpp:631-655 | in every run, between two moments with the same version, short of 2^32 advances, the stored values are the same throughout if and only if no ember write by cluster code, attribute::set_val or add_bounds replaces a value |
| DataVersion.AtMostOneSucceeds | components/esp_matter/data_model_provider/esp_matter_data_model_provider.cpp:557-613 | of all writes carrying the same expected version at most one succeeds, short of 2^32 advances |
| DataVersion.StillRemembers | components/esp_matter/data_model_provider/esp_matter_data_model_provider.cpp:874-884 | short of 2^32 moves every event that does not replace a value without moving the version keeps each version standing for one set of values and won at most once |
| DataVersion.ClusterServer.IncreaseDataVersion | components/esp_matter/data_model/esp_matter_data_model.cpp:1567-1573 | the 32-bit version moves by one and wraps |
| DataVersion.ClusterServer.UpdateAttribute | components/esp_matter/data_model/esp_matter_attribute_utils.cpp:631-655 | an update without error leaves the attribute meaning what was asked for; a version seen before keeps standing for the values it stood for |
| DataVersion.ClusterServer.Handle | components/esp_matter/data_model_provider/esp_matter_data_model_provider.cpp:514-613 | a write under an expected version that succeeds through the data model met that version and is the first to succeed under it, short of 2^32 moves; a write that does not succeed changes no value and no version |
| DataVersion.ClusterServer.WriteEmber | components/esp_matter/data_model_provider/esp_matter_ember_stubs.cpp:894-961 | an ignored or denied write stores nothing; a write never moves the version by itself |
| EmberCodec.BytesRoundTrip | components/esp_matter/data_model_provider/esp_matter_data_model_provider.cpp:74-272 | bytes in the order of the chip give back the number at every width |
| EmberCodec.ByteAt | components/esp_matter/data_model_provider/esp_matter_data_model_provider.cpp:74-272 | the bytes are in the order of the chip, least significant first |
| EmberCodec.PatternRoundTrip | components/esp_matter/data_model_provider/esp_matter_data_model_provider.cpp:74-272 | two's complement gives every number of a type its own pattern |
| EmberCodec.BuildBuffer | components/esp_matter/data_model_provider/esp_matter_data_model_provider.cpp:74-272 | the value is stored at the front of the buffer and the rest stays; too small a buffer or an unsupported type changes nothing |
| EmberCodec.TypeRoundTrip | components/esp_matter/data_model_provider/esp_matter_ember_stubs.cpp:572-632 | the type mapping forgets nothing but the nullable bit |
| EmberCodec.ReadBufferIff | components/esp_matter/data_model_provider/esp_matter_ember_stubs.cpp:236-570 | a buffer is refused exactly if the type is not numeric or the buffer is shorter than the type |
| EmberCodec.NumberRoundTrip | components/esp_matter/data_model_provider/esp_matter_ember_stubs.cpp:236-570 | the buffer reads back as the same type and value if and only if the nullable flag agrees with the type |
| EmberCodec.BooleanRoundTrip | components/esp_matter/data_model_provider/esp_matter_ember_stubs.cpp:236-246 | a boolean is its byte, and comes back if and only if it is not nullable; null reads as true |
| EmberCodec.WritePreservesMeaning | components/esp_matter/data_model_provider/esp_matter_ember_stubs.cpp:933-936 | null stays null, and the all-ones value of a plain type stays a number |
| TlvCodec.TlvRoundTrip | components/esp_matter/data_model_provider/esp_matter_attr_data_buffer.cpp:10-294 | decoding an encoded value gives the same meaning if and only if it is not a null boolean, a char string agrees with its length field and has no zero inside, an octet string is not empty, and a short string is short |
| TlvCodec.CodecAccepts | components/esp_matter/data_model_provider/esp_matter_attr_data_buffer.cpp:10-294 | exactly the elements of the sort and size of the type, or null where the type has one, are decoded, and exactly the values of supported types are encoded |
| TlvCodec.WireMeaning | components/esp_matter/data_model_provider/esp_matter_attr_data_buffer.cpp:163-294 | the written element has the type that the value type calls for and says what the value means, exactly unless the value is a null boolean, a char string that disagrees with its length field, or a buffer of the reserved length |
| TlvCodec.ReadMeaning | components/esp_matter/data_model_provider/esp_matter_attr_data_buffer.cpp:10-161 | the value read means what the element says, exactly unless the element is a number or a length that the type reserves for null |
| TlvCodec.DataBuffer.WriteTo | components/esp_matter/data_model_provider/esp_matter_attr_data_buffer.cpp:163-294 | succeeds exactly for the values that have an encoding; then one element of the fitting type is appended, and it decodes to the same meaning if and only if the value is representable |
| TlvCodec.DataBuffer.ReadFrom | components/esp_matter/data_model_provider/esp_matter_attr_data_buffer.cpp:10-161 | after success the value means what the element says if and only if the element is not reserved for null, and a char buffer is terminated |
| TlvCodec.StringLength | components/esp_matter/data_model_provider/esp_matter_attr_data_buffer.cpp:273-277 | the length loop stops at the first zero and never leaves a terminated buffer |
| TlvCodec.DataBuffer.CopyBytes | components/esp_matter/data_model_provider/esp_matter_attr_data_buffer.cpp:125-133 | the allocated buffer holds exactly the bytes of the element, followed by a zero for a char string |
| WritePath.ClientReadsBack | components/esp_matter/data_model_provider/esp_matter_data_model_provider.cpp:588-613 | after a successful write of a number a read sends back the same element, if and only if that element is not a number reserved for null |
| StackLock.RunKeepsInv | components/esp_matter/esp_matter_core.h:135-146 | in every interleaving each thread's scopes are failed ones, then at most one that holds the lock, then ones that found it taken |
| StackLock.ScopeOwnsLock | components/esp_matter/esp_matter_core.cpp:142-159 | a scope that did not fail runs while its thread owns the lock |
| StackLock.OneHolder | components/esp_matter/esp_matter_core.h:135-146 | at most one live scope overall has status SUCCESS |
| StackLock.HolderBelowTaken | components/esp_matter/esp_matter_core.cpp:144-146 | every scope that found the lock taken lies above the frame that holds it, on the same thread |
| StackLock.UnlockLeavesNoUser | components/esp_matter/esp_matter_core.h:139-144 | only the owner unlocks, and no live scope then relies on the lock |
| StackLock.LockWithin | components/esp_matter/esp_matter_core.cpp:142-159 | whenever the loop can end it ends, delays at most the given ticks and exactly them on failure, and succeeds at the first try that finds the lock free |
| StackLock.WaitSleeps | components/esp_matter/esp_matter_core.cpp:148-157 | in every interleaving a wait sleeps exactly the retry interval for each failed try, up to the given ticks; it gives up exactly when these are used up, and until then takes the lock at the first try that finds it free |
| StackLock.ForeverNeverFails | components/esp_matter/esp_matter_core.cpp:147-147 | in every interleaving a scope that waits without limit can only end by getting the lock |
| StackLock.Enters | components/esp_matter/esp_matter_core.cpp:142-147 | a constructor entered by the owner returns at once, and one entered by any other thread waits for as long as it was given |
| StackLock.FramesBalance | components/esp_matter/esp_matter_core.h:135-146 | in every interleaving each constructor leaves exactly one scope, whatever its status, and each destructor takes one away |
| StackLock.WaitEndsIff | components/esp_matter/esp_matter_core.cpp:148-156 | a wait for a lock that never becomes free ends if and only if the retry interval is not zero ticks or there is nothing to wait for |
| Privileges.FormatKeepsNumber | components/esp_matter/zap_common/generate_zap_common_files.py:56-62 | format_id keeps the number that the id denotes and gives 0x and at least eight capital digits |
| Privileges.FirstNamed | components/esp_matter/zap_common/generate_zap_common_files.py:168-214 | a reader gives the privilege, or else the role, of the first access that names one for the operation, and the default if none does |
| Privileges.CollectRows | components/esp_matter/zap_common/generate_zap_common_files.py:221-262 | the loops collect one row for each element whose privilege is not the default, in order |
| Privileges.RowSource | components/esp_matter/zap_common/generate_zap_common_files.py:221-262 | every row comes from an element of the XML that is not at the default |
| Privileges.RowPresent | components/esp_matter/zap_common/generate_zap_common_files.py:221-262 | every element that is not at the default has its row |
| Privileges.Lookup | components/esp_matter/data_model_provider/esp_matter_data_model_provider.cpp:375-425 | the first match in the parallel arrays, or the default |
| Privileges.LookupGenerated | components/esp_matter/zap_common/generate_zap_common_files.py:263-299 | with unique ids, the lookup over the generated table, in any order of its rows, gives the privilege, or else the role, of the first access of the element that names one for the operation: read of an attribute or event, by default view, write of an attribute and invoke of a command, by default operate; the default also where there is no such element |

## Left out

- NodeTree.Node.CreateEndpoint: does not model the 16-bit wrap-around of the id counter, because the counter is assumed to stay below 0xFFFF; the same holds for the events of `BridgeRuns`.
- NodeTree.Node.DestroyEndpoint: on a destroyable endpoint may only be called when the parent walk from it ends, because the original does not return otherwise; `Parents.AcyclicIff` says when that is. The same holds for `NodeTree.Node.Disable` and, with all walks, for `NodeTree.Node.DestroyAll`.
- NodeTree.Node.DestroyCommand: expects the handle on the list, as the list template does; so does `NodeTree.Node.DestroyEvent`.
- EndpointIndex.EnabledEndpoints.Advance: is stated for a tree that does not change during the iteration.
- NodeTree.Node.CreateAttribute: leaves out the value, which is modelled by the attribute store.
- NodeTree.Node.DestroyAttribute: leaves out the release of the value and the erasing of its storage entry, because values are not part of the tree.
- NodeTree.Node.Disable: leaves out the shutdown callbacks of the clusters, which are application code.
- AttributeStore.Attribute.constructor: leaves out loading a non-volatile string at creation.
- AttributeRuns.RebootRestores: is stated for one fixed pair of bounds that every boot adds again; `AttributeRuns.AlwaysRestoredIff` shows that its condition is exact.
- DataVersion.ClusterServer.UpdateAttribute: refuses attributes managed internally; the original sends writable ones through the provider to their own cluster code.
- BridgeRuns.RunSafe: assumes that a firmware makes the same number of endpoints before start at every boot; `BridgeBoot.StartAboveLive`, `BridgeBoot.OtherFirmwarePassesIff` and `BridgeBoot.CollidingDeviceLost` say what happens at the first boot of another firmware.
- DataVersion.ClusterServer.Handle: the class has no method for the calls that leave the version alone; `DataVersion.StepBumps` covers them on values.
- StackLock.LockWithin: covers finite waits; waiting forever is the attempt `Forever` of the step system.
- Privileges.LookupGenerated: takes any reordering of the rows for the sorted list, since only the order can differ; the text of the generated header is not modelled.
- EmberCodec.BuildBuffer: covers numbers; floats and strings of the same function are left out, as in `EmberCodec.NumberRoundTrip`.
- EmberCodec.NumberRoundTrip: leaves out floats, whose bit patterns are not modelled, and strings, whose buffer is sized from the value stored before.
- Allocation and writes to non-volatile storage succeed, and a single write happens completely or not at all.
- Migration of values and records from the keys of older versions.
- Destroying an attribute while its timer is pending.
- Enabling an endpoint walks the parents in the same way as disabling it and is not modelled separately.
- Device types other than being an aggregator, which the tree does not hold.
- A boolean is compared by its storage byte, and floating-point numbers are reals and NaN without infinities.
- The `t` field of string values, ownership and release of string buffers, and bounds records.
- Registry clusters, attribute access interfaces and application callbacks are answers given to the model, not code in it.
- The lock with tracking switched off.
- Controllers, commissioning, command dispatch, events, OTA, console parsing and generated clusters: plumbing around code that is not part of this repository.
