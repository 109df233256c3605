# A verified model of the k8s-ipam allocation core

The repository allocates network resources for Kubernetes objects: IP prefixes in a
routing table per network instance, VLAN ids and other integers in id databases, slots
in a hash table, and endpoints for logical interconnects. This project models those
allocators, the lease that serialises their users, the messages they exchange and the
conditions they report, and proves what each promises.

| file | models |
|---|---|
| `Wrappers`, `Powers`, `Sorting` | options and results, powers of two, sorting by a text key |
| `Bits`, `Prefixes` | leading bits; prefix arithmetic; containment is inclusion of address intervals and prefixes are laminar |
| `Claims`, `RoutingTable` | claims with their labels; the routing table (RIB) through the contracts its library states |
| `Expansion`, `Validation` | the routes of a claim; validation by a dry run |
| `Updates`, `Hierarchy`, `Idempotence` | updating and deleting routes with eviction of foreign children; the prefix hierarchy |
| `Runs`, `Reclaims` | the hierarchy over whole runs; when repeating a claim changes nothing |
| `Allocation`, `Applicator`, `Placement` | dynamic allocation, the applicator object, and what dynamic claims do to the hierarchy |
| `Backend`, `IpamStorage` | claim and delete calls, saving and restoring |
| `Lease` | the lease protocol of any number of processes, with stale reads |
| `Wire`, `Messages`, `Codec` | varints and records, the meaning of the messages, the buffer code |
| `HashTable` | the linear probing table |
| `IdDatabase`, `Vlan` | the id database, the VLAN backend and its storage |
| `Endpoints`, `Selector`, `Interconnect` | endpoint inventory, endpoint selection, claims of logical interconnects |
| `Conditions` | the conditioned status |

Objects that the source updates in place are classes, its loops are loops with invariants,
and each such method is proved against a function or predicate about which the lemmas then
speak.

## Conventions and findings

- A claim is *named* when it carries its five owner labels with non-empty values and its
  selector does not override the name labels (`Claims.IPClaim.Named`). Runs are over sets of
  claims in which those under one name have one owner and one kind (`Runs.Coherent`); nothing
  is assumed of the tables in between. `Runs.RunCompatible` shows that each claim then finds
  under its name only what it made itself.
- The order in which the table library lists parents is not visible in the repository;
  `nearestFirst` stands for either direction and every result holds for both. Lookups by
  label may return their matches in any order.
- A claim creates a prefix when its create-prefix field is present, even when it is false;
  the code tests for presence only (pkg/backend/ipam/validator_prefix.go:100).
- A route without a parent needs a network instance as its owner, but its kind is never
  asked for. `Runs.AnyKindAtTop` shows that a network instance puts any accepted kind at the
  top; `Runs.TopIff` shows that only aggregates stand there, in every run over a set of claims,
  if and only if the network instances of the set claim aggregates only.
- A claim without a prefix is served, below full length, from the first matching route that is
  shorter than the request; its kind is never asked for (pkg/backend/ipam/apply_dynamic.go:174-180).
  `Placement.AllocationLegalIff` states exactly when the hierarchy survives, for every kind of
  claim and of route, and `Placement.PoolOutOfNetwork` takes a pool out of a network. A single
  address out of the network of another claim, the ordinary use, is outside the hierarchy as well,
  which knows the host routes of a network under a subnet of the same claim only.
- Repeating an unchanged claim is not always harmless. `Reclaims.PoolReclaimEvicts` is a run of
  four claims in which the last repeats the second, a pool, and deletes the pool that a third
  owner has inside it: updating adds the pool label to routes of pools, adding them does not.
  `Reclaims.NestedPoolsExist` gives such claims. `Reclaims.FirstReclaimIff` states exactly when
  repeating a claim at once changes nothing, for every kind: a pool carries the pool label
  in its own labels; a network of more than two addresses does not put the gateway label on its
  first or last address, and the table lists parents from the nearest one or the subnet has
  none. Claims in between can undo this: an aggregate claimed above a parentless network changes
  the labels of its host routes when parents are listed from the top (`Reclaims.AggregateAbove`).
  What a repetition does to any legal table is `Idempotence.UpdateOutcome`: it deletes a route of
  another owner if and only if that lies inside an own route whose labels change. A second update
  right after the first changes nothing (`Idempotence.UpdateTwice`).
- Restoring a routing table never brings back the routes of a network instance: the instance
  is rebuilt from its name and lists no prefixes (`IpamStorage.SaveAndRestore`).
- Deleting from the hash table leaves no tombstone. `HashTables.FreeingKeepsValid` states
  exactly when the table stays valid and `HashTables.DeleteCanDuplicate` gives an input after
  which a key is stored twice.
- The range search of the id database panics when the lowest free id lies inside the range but
  not at its start, and returns nothing when no id is free beyond the range, whatever it found
  (`IdDatabase.Database.FindFreeRange`). `Vlan.FreshRangeCrashes` says which ranges panic on a
  fresh VLAN table, `Vlan.FreeRangeLost` gives a free range for which nothing is returned, and
  `IdDatabase.RangeDecided` and `Vlan.VlanRangeDecided` give the case in which neither happens.
- An endpoint that an interconnect claimed before is taken again without its node being
  recorded, so node diversity is promised for fresh selections only
  (`Selectors.StickyUnrecorded`, `Selectors.FreshOnNodes`).
- Both sides of an interconnect may select the same endpoint; its second status update then
  carries an old version and fails. `Interconnects.SidesApart` rules this out for sides without
  a common topology and `Interconnects.ClaimSelected` states exactly when the claim step succeeds.
  Sides that differ in their names only always select the same endpoints
  (`Interconnects.EqualSidesClash`). The update that fails has claimed the first copy, and the
  cleanup releases only what was claimed before the attempt
  (controllers/logicalinterconnect-controller/reconciler.go:119-171), so that a later attempt
  succeeds with links from an endpoint to itself; `Interconnects.SelfLink` gives the interconnects.
- The sort in the comparison of conditions need not be stable; `Conditions.SortedEqual` holds
  for every sorted order, and `Conditions.EqualNeedsUnique` shows that without unique types a
  permutation may compare as different.

## Model

| member | source | states |
|---|---|---|
| Prefixes.FirstClearsHostBits | pkg/iputil/iputil.go:56-76 | the first address is the address with its host bits cleared, and the address lies between first and last |
| Prefixes.BoundsStayInFamily | pkg/iputil/iputil.go:66-80 | first and last address of a prefix fit its address family |
| Prefixes.CoversIsInterval | pkg/iputil/iputil.go:56-80 | one prefix contains another exactly when its address interval includes the other's |
| Prefixes.Laminar | pkg/iputil/iputil.go:56-80 | two prefixes share no address exactly when neither contains the other |
| Expansion.NetworkExpansion | pkg/backend/ipam/applicator.go:132-212 | a network prefix of more than two addresses expands to pairwise distinct routes, as a set subnet, first, last and own address, exactly those the subnet map accepts, of which only the own address may carry the gateway label |
| Expansion.PointToPointExpansion | pkg/backend/ipam/applicator.go:132-173 | a two-address network expands to its subnet alone, without gateway label |
| Expansion.RouteLabelsOwned | pkg/backend/ipam/applicator.go:132-212 | every label set written for a claim carries its kind and its owner |
| Expansion.ExpansionLies | pkg/backend/ipam/applicator.go:132-212 | every route of a claim lies in its subnet and is the subnet or a host route |
| Expansion.AddRoutesFrame | pkg/backend/ipam/applicator.go:48-67 | adding routes keeps every existing route with its labels and adds exactly the missing ones |
| Validation.PrefixOwnerIsOwner | pkg/backend/ipam/validator_functions.go:77-93 | the owner check passes exactly for routes that the owner selector selects |
| Validation.FindParent | pkg/backend/ipam/validator_prefix.go:175-183 | the result is a longest of the given routes |
| Validation.ParentVerdict | pkg/backend/ipam/validator_prefix.go:158-172 | the route found among the parents in the dry run is the nearest parent in the real table, in either listing direction |
| Validation.PrefixValidator.Validate | pkg/backend/ipam/validator_prefix.go:71-173 | a claim is accepted exactly when input, taken prefix, first child and nearest parent allow it, a rejection has the reason of the first check that fails, and the table is untouched |
| Hierarchy.NearestParentsLegal | pkg/backend/ipam/validator_functions.go:95-195 | in a legal table every nearest parent is legal for the kind of its child and every parentless route belongs to a network instance |
| Hierarchy.AcceptedParents | pkg/backend/ipam/validator_prefix.go:158-172 | checking the nearest parent constrains all parents of an accepted prefix |
| Hierarchy.NothingBelow | pkg/backend/ipam/validator_prefix.go:145-157 | below an accepted new prefix that is no aggregate there is nothing |
| Hierarchy.FirstChildSuffices | pkg/backend/ipam/validator_prefix.go:145-157 | checking the first child is as strong as checking every child |
| Hierarchy.InsertKeepsLegal | pkg/backend/ipam/applicator.go:48-67 | an accepted new claim keeps the table legal |
| Hierarchy.EvictKeepsLegal | pkg/backend/ipam/applicator.go:69-130 | evicting the foreign routes inside an own route keeps the table legal |
| Hierarchy.UpdateAllKeeps | pkg/backend/ipam/applicator.go:69-130 | an update keeps the table legal, keeps the claim's prefixes and adds none |
| Hierarchy.DeleteKeepsLegal | pkg/backend/ipam/delete_prefix.go:31-78 | deleting a claim keeps the table legal |
| Runs.SourcedCompatible | pkg/backend/ipam/validator_functions.go:77-93 | where every route was made by a claim of a coherent set, what goes under the name of a claim was made by that claim |
| Runs.StepKeepsLegal | pkg/backend/ipam/ipam.go:167-229 | every claim, re-claim or delete of a coherent set keeps the table legal and made by the set |
| Runs.RunCompatible | pkg/backend/ipam/ipam.go:167-229 | at every point of every run each claim finds under its name only routes of its own and of its kind |
| Runs.RunHierarchy | pkg/backend/ipam/validator_prefix.go:71-183 | in every table of every run from empty, each route's nearest parent is legal for its kind and parentless routes belong to network instances |
| Runs.RunTop | pkg/backend/ipam/validator_functions.go:119-126 | if network instances claim aggregates only, every other route of every run has a parent |
| Runs.TopIff | pkg/backend/ipam/validator_functions.go:119-126 | only aggregates stand parentless in every run over a set of claims if and only if the network instances of the set claim aggregates only |
| Runs.AnyKindAtTop | pkg/backend/ipam/validator_functions.go:119-126 | without that condition any accepted kind can stand parentless, as a run of one claim |
| Updates.EvictedListing | pkg/backend/ipam/applicator.go:69-130 | the foreign children met in table order are exactly what eviction removes and reports |
| Updates.UpdatedLabelsOwned | pkg/backend/ipam/applicator.go:214-251 | updated labels keep the kind and the owner of the claim |
| Updates.DeleteOutcome | pkg/backend/ipam/delete_prefix.go:31-78 | deleting a created prefix removes the owner's routes and all inside them, keeps everything else with its labels, and reports each removed foreign route exactly once |
| Updates.NothingOrphaned | pkg/backend/ipam/delete_prefix.go:31-78 | a route that survives a delete keeps exactly its parents |
| Idempotence.UpdateOutcome | pkg/backend/ipam/applicator.go:69-130 | updating a created prefix gives the owner's routes their updated labels, removes a route of another owner if and only if it lies inside an own route whose labels change, keeps what stays with its labels, and reports each removed route exactly once |
| Idempotence.EvictKeepsParents | pkg/backend/ipam/applicator.go:69-130 | eviction never removes a parent of an own host route |
| Idempotence.UpdateTwice | pkg/backend/ipam/applicator.go:69-130 | a second update of the same claim changes no label, deletes no route and reports nothing, whatever the order of either walk |
| Reclaims.UnchangedIff | pkg/backend/ipam/applicator.go:69-130 | an update leaves the table as it is if and only if every route of the claim carries its updated labels; then it reports nothing |
| Reclaims.SettledIff | pkg/backend/ipam/applicator.go:214-251 | the routes of a new claim carry their updated labels exactly under a condition on kind, labels, prefix and listing direction |
| Reclaims.AggregateAbove | pkg/backend/ipam/applicator.go:214-251 | once an aggregate is claimed above a network, repeating the network's claim changes its host routes when parents are listed from the top |
| Reclaims.FirstReclaimIff | pkg/backend/ipam/applicator.go:69-251 | repeating a claim that was just made changes nothing if and only if that condition holds, for every kind; then nothing is reported |
| Reclaims.ReclaimEvicts | pkg/backend/ipam/applicator.go:69-130 | the repetition of a pool without the pool label relabels it, deletes the foreign pool inside it and reports that one |
| Reclaims.PoolReclaimEvicts | pkg/backend/ipam/applicator.go:246-249 | a run of four claims whose last one repeats the second and deletes the route of a third owner |
| Reclaims.NestedPoolsExist | pkg/backend/ipam/applicator.go:246-249 | three prefixes of 10.0.0.0 for which that run exists |
| Allocation.FreeBlockClear | pkg/backend/ipam/apply_dynamic.go:109-135 | every existing route is disjoint from a free block, except the selected route and what contains it |
| Allocation.AllocationFrame | pkg/backend/ipam/apply_dynamic.go:109-135 | a new dynamic claim keeps every existing route and its labels; its routes are new, lie inside the selected route and are disjoint from all others but the selected one and its ancestors |
| Allocation.AllocatedOwn | pkg/backend/ipam/apply_dynamic.go:184-204 | after a new dynamic claim its owner's routes are exactly the added ones |
| Placement.AllocationLegalIff | pkg/backend/ipam/apply_dynamic.go:109-182 | a block taken out of a route keeps the hierarchy legal if and only if the route is an aggregate, and a claim for a network brings its subnet; or both are pools; or a single address goes to the claim of that network |
| Placement.PoolOutOfNetwork | pkg/backend/ipam/apply_dynamic.go:174-180 | the selection serves a pool from a network, after which a legal table is not legal |
| Allocation.AllocateThenDelete | pkg/backend/ipam/apply_dynamic.go:32-135 | a new dynamic claim followed by its delete restores the table, prefixes and labels, in and out of initialization |
| Applicators.Applicator.GetMutatedRoutesWithLabels | pkg/backend/ipam/applicator.go:132-212 | the routes computed step by step are the expansion of the claim |
| Applicators.Applicator.GetGateway | pkg/backend/ipam/applicator.go:253-272 | the address of a route that carries the gateway label of the subnet, and none only without such a route |
| Applicators.Applicator.AddRib | pkg/backend/ipam/applicator.go:48-67 | the table gains the expansion where prefixes are not taken, and the status carries the prefix and, for a network address, the gateway |
| Applicators.Applicator.GetUpdatedLabels | pkg/backend/ipam/applicator.go:214-251 | the labels an update writes and the prefix it derives from the first parent |
| Applicators.Applicator.EvictChildren | pkg/backend/ipam/applicator.go:88-106 | removes exactly the foreign routes inside a prefix and reports them in one list |
| Applicators.Applicator.UpdateRib | pkg/backend/ipam/applicator.go:69-130 | table, prefix and reports after the loop are those of the update walk, and which prefix and gateway the status shows |
| Applicators.Applicator.GetRoutesByOwner | pkg/backend/ipam/apply_dynamic.go:184-204 | returns each route of the owner once; fails exactly when there are too many |
| Applicators.Applicator.ApplyPrefix | pkg/backend/ipam/apply_prefix.go:48-91 | adds, updates, refuses several routes of one owner, or indexes out of range, each exactly under its condition; nothing is reported unless it updates |
| Applicators.Applicator.GetSelectedRouteWithPrefixLength | pkg/backend/ipam/apply_dynamic.go:137-182 | single addresses are served from the first route of their kind, else the first usable aggregate; other requests from the first shorter route |
| Applicators.Applicator.AllocateNew | pkg/backend/ipam/apply_dynamic.go:62-182 | a new claim takes a free prefix out of the route that the selection rule gives among those its selector matches, or changes nothing; it fails for want of a route exactly when the selector matches none, and otherwise where the rule gives none or the one it gives has no room |
| Applicators.Applicator.ApplyDynamic | pkg/backend/ipam/apply_dynamic.go:32-135 | refreshes the owner's routes, or allocates as above, or changes nothing, each failure with its condition |
| Applicators.Applicator.DeleteRoute | pkg/backend/ipam/delete_prefix.go:42-76 | deletes one own route and what is foreign inside it; when the route is gone already only the latter |
| Applicators.Applicator.Delete | pkg/backend/ipam/delete_prefix.go:31-78 | the loop performs the delete walk over the owner's routes; it cannot fail for named claims, and otherwise stops at a route that an eviction has removed |
| Backend.ClaimPrefix | pkg/backend/ipam/ipam.go:167-203 | a claim call is one step of the runs above; the verdict with its reason, the outcome of applying, and the reports, each exactly; an accepted created prefix never indexes out of range |
| Backend.DeleteClaim | pkg/backend/ipam/ipam.go:205-229 | a delete call is one step of the runs above, with the outcome and the reports of a delete |
| IpamStorage.GetData | pkg/backend/ipam/storage_cm.go:84-101 | what is saved is the table |
| IpamStorage.RestoreFromList | pkg/backend/ipam/storage_cm.go:199-292 | a saved route is added exactly when an owner is listed before any owner with a malformed network prefix, and its prefix is not taken |
| IpamStorage.RestoreInstancePrefixes | pkg/backend/ipam/storage_cm.go:173-197 | a saved route is added exactly when the instance lists a prefix of its name |
| IpamStorage.RestorePrefixes | pkg/backend/ipam/storage_cm.go:146-171 | one pass adds exactly the routes of its owner kind whose owners are listed, in any order of the saved data |
| IpamStorage.RestoreData | pkg/backend/ipam/storage_cm.go:103-144 | restoring into an empty table yields exactly the routes owned by listed IPPrefix or IPClaim objects |
| IpamStorage.SaveAndRestore | pkg/backend/ipam/storage_cm.go:84-292 | the whole table comes back if and only if every route has such an owner; routes of network instances never do |
| Leases.RunInv | pkg/lease/lease.go:84-134 | the protocol invariant holds in every state of every interleaving |
| Leases.HolderIsExclusive | pkg/lease/lease.go:84-134 | renew times never decrease along the versions, and another holder appears only in versions committed after the lease has run out |
| Leases.RunExclusive | pkg/lease/lease.go:84-134 | in every run with stale reads, after an identity committed with renew time r it stays the holder while the clock is at most r plus the duration |
| Leases.TakeoverIffReplaceable | pkg/lease/lease.go:84-134 | an undisturbed attempt takes the lease if and only if it is the caller's own or has run out |
| Leases.Caller.GetOrCreate | pkg/lease/lease.go:84-103 | the first read and the create are steps of the protocol |
| Leases.Caller.ReadAndCheck | pkg/lease/lease.go:104-124 | the second read and the expiry check are steps of the protocol |
| Leases.Caller.AcquireLease | pkg/lease/lease.go:84-134 | the call is a sequence of protocol steps, interleaved with anything others do; when it succeeds the caller holds the current version |
| Leases.HolderIdentityInjective | pkg/lease/lease.go:61-66 | objects without dots in kind and namespace have the same identity exactly when they agree up to case |
| Wire.SovIsLength | pkg/proto/resourcepb/resource.pb.go:1263-1265 | the size computed from the bit length is the number of bytes a varint takes |
| Wire.ReadWritten | pkg/proto/resourcepb/resource.pb.go:1062-1072 | every 64-bit value is read back from its varint |
| Wire.ReadNoShorter | pkg/proto/resourcepb/resource.pb.go:2415-2429 | the varint of a value that was read is no longer than the bytes it was read from |
| Wire.SkipMoves | pkg/proto/resourcepb/resource.pb.go:2410-2487 | skipping a field depends on its bytes only |
| Wire.NextRecordMoves | pkg/proto/resourcepb/resource.pb.go:1953-2409 | finding the next field depends on its bytes only |
| Wire.FieldIsNext | pkg/proto/resourcepb/resource.pb.go:1953-2409 | an encoded field is found again with its number and payload |
| Messages.SizeGVKExact | pkg/proto/resourcepb/resource.pb.go:1219-1241 | Size of a GVK is the length of its encoding |
| Messages.SizeNSNExact | pkg/proto/resourcepb/resource.pb.go:1243-1261 | Size of an NSN is the length of its encoding |
| Messages.SizeHeaderExact | pkg/proto/resourcepb/resource.pb.go:1191-1217 | Size of a Header is the length of its encoding |
| Messages.DecodeConcat | pkg/proto/resourcepb/resource.pb.go:1953-2409 | decoding a concatenation is decoding its parts one after the other |
| Messages.DecodeStrangers | pkg/proto/resourcepb/resource.pb.go:1953-2409 | unknown fields are collected unchanged |
| Messages.RoundTripGVK | pkg/proto/resourcepb/resource.pb.go:2148-2294 | an encoded GVK decodes to itself, unknown fields included |
| Messages.RoundTripNSN | pkg/proto/resourcepb/resource.pb.go:2295-2409 | an encoded NSN decodes to itself, unknown fields included |
| Messages.RoundTripHeader | pkg/proto/resourcepb/resource.pb.go:1953-2147 | an encoded Header decodes to itself, including which nested parts are present |
| Messages.StableGVK | pkg/proto/resourcepb/resource.pb.go:2148-2294 | whatever bytes a GVK was decoded from, it encodes to no more of them and decodes again to the same |
| Messages.StableNSN | pkg/proto/resourcepb/resource.pb.go:2295-2409 | the same for NSN |
| Messages.HeaderNoLonger | pkg/proto/resourcepb/resource.pb.go:1191-1217 | a decoded Header, nested parts merged, is encoded in no more bytes than it was decoded from |
| Messages.StableHeader | pkg/proto/resourcepb/resource.pb.go:1953-2147 | the same for Header |
| Codec.EncodeVarint | pkg/proto/resourcepb/resource.pb.go:1062-1072 | the bytes before the offset become the varint and no other byte changes |
| Codec.MarshalGVK | pkg/proto/resourcepb/resource.pb.go:988-1019 | filling backwards writes exactly Size bytes, the encoding, and no other byte changes |
| Codec.MarshalNSN | pkg/proto/resourcepb/resource.pb.go:1036-1060 | the same for NSN |
| Codec.MarshalHeader | pkg/proto/resourcepb/resource.pb.go:913-971 | the same for Header with its nested parts |
| Codec.MarshalFresh | pkg/proto/resourcepb/resource.pb.go:898-906 | a fresh buffer is filled completely and unmarshals to the message |
| Codec.DecodeVarint | pkg/proto/resourcepb/resource.pb.go:2415-2429 | the shifting loop reads the varint, with overflow and end of input as errors |
| Codec.SkipResource | pkg/proto/resourcepb/resource.pb.go:2410-2487 | the loop ends on every input and skips what the specification of skipping says |
| Codec.DecodeGVK | pkg/proto/resourcepb/resource.pb.go:2148-2294 | the loop decodes what the specification decodes, errors included |
| Codec.DecodeNSN | pkg/proto/resourcepb/resource.pb.go:2295-2409 | the same for NSN |
| Codec.DecodeHeader | pkg/proto/resourcepb/resource.pb.go:1953-2147 | the same for Header, nested parts merged into what is there |
| HashTables.ProbeFindsKey | pkg/hash/hash.go:74-93 | the probe for a stored key stops at its slot |
| HashTables.ClaimKeepsSlots | pkg/hash/hash.go:74-93 | inserting keeps keys distinct and probe chains unbroken, and keeps every key in its slot |
| HashTables.ClaimRefines | pkg/hash/hash.go:74-93 | inserting sets one register under one key of the map and nothing else |
| HashTables.RoomUnlessFull | pkg/hash/hash.go:74-93 | a probe can stop exactly when the key is known or the table is not full |
| HashTables.RunRefines | pkg/hash/hash.go:52-93 | over every run of insertions the table stands for the map, and the taken slots count its keys |
| HashTables.RunKeepsIndices | pkg/hash/hash.go:52-93 | the index of a key never changes |
| HashTables.FreeingKeepsValid | pkg/hash/hash.go:100-123 | emptying a slot keeps the table valid if and only if no other key is reached through it |
| HashTables.DeleteCanDuplicate | pkg/hash/hash.go:100-123 | an input for which delete and insert store a key twice |
| HashTables.HashTable.Insert | pkg/hash/hash.go:52-55 | takes the first suitable slot from the hash on and changes only that one |
| HashTables.HashTable.InsertFrom | pkg/hash/hash.go:74-93 | the recursion ends by cyclic distance to a suitable slot |
| HashTables.HashTable.Delete | pkg/hash/hash.go:57-60 | each slot is probed at most once and at most one changes: the first that holds the key |
| HashTables.HashTable.DeleteFrom | pkg/hash/hash.go:100-123 | the recursion behind it |
| HashTables.HashTable.GetClaim | pkg/hash/hash.go:62-72 | counts and lists the taken slots; in a valid table the number of keys of the map |
| IdDatabase.FreeInExact | pkg/db/db.go:163-184 | the free ids are ascending and exactly the complement of the store in the interval |
| IdDatabase.Iterator.Next | pkg/db/iterator.go:17-20 | moves to the next key and says whether there is one |
| IdDatabase.ConsecutiveIff | pkg/db/iterator.go:22-25 | comparing with the key before tells whether the predecessor is free |
| IdDatabase.Database.Set | pkg/db/db.go:63-78 | sets an entry unless its id is guarded |
| IdDatabase.Database.Delete | pkg/db/db.go:126-137 | removes an entry unless its id is guarded |
| IdDatabase.Database.GetAll | pkg/db/db.go:106-117 | lists all entries by ascending id |
| IdDatabase.Database.GetByLabel | pkg/db/db.go:91-104 | lists exactly the matching entries by ascending id |
| IdDatabase.Database.IterateFree | pkg/db/db.go:163-184 | iterates over exactly the free ids, ascending |
| IdDatabase.Database.FindFree | pkg/db/db.go:186-193 | the least free id, and failure exactly when none is free |
| IdDatabase.Database.FindFreeID | pkg/db/db.go:195-205 | any id within the bound, free or not |
| IdDatabase.Database.FindFreeSize | pkg/db/db.go:239-256 | the lowest free ids in the number asked for, and failure exactly when there are fewer or the size check refuses, wrap-around of the interval included |
| IdDatabase.Database.FindFreeRange | pkg/db/db.go:207-237 | bounds checks, panic, failure, the empty answer and the free ids of the range, each with its exact condition |
| IdDatabase.WalkRange | pkg/db/db.go:218-236 | the walk over the free ids behind it |
| IdDatabase.RangeDecided | pkg/db/db.go:207-237 | with the start and some id beyond the range free the search fails exactly when a free id follows a used one |
| IdDatabase.RunFromStart | pkg/db/db.go:207-237 | a found range is an unbroken run from its start, of full size exactly when the whole range is free |
| Vlan.NewTable | pkg/db/vlandb/vlandb.go:9-20 | a fresh table holds exactly the three reserved ids |
| Vlan.OwnedIff | pkg/backend/vlan/applogic.go:137-147 | the owner selector matches exactly the entries that name the same owner in full |
| Vlan.AtMostOne | pkg/backend/vlan/applogic_apply.go:11-32 | under the invariant an owner holds at most one id and no reserved one |
| Vlan.ClaimKeepsInv | pkg/backend/vlan/applogic.go:98-121 | a claim of any of the four kinds keeps the invariant |
| Vlan.ReleaseKeepsInv | pkg/backend/vlan/applogic.go:123-135 | a delete keeps the invariant |
| Vlan.RunKeepsInv | pkg/backend/vlan/applogic.go:98-147 | over every run of claims and deletes the reserved ids keep their entries, all ids stay within bounds and each owner holds at most one |
| Vlan.DynamicTakesFree | pkg/backend/vlan/applogic_apply.go:40-51 | a new dynamic claim takes the least free id and changes no other entry; it changes nothing only when none is free |
| Vlan.Applogic.GetEntriesByOwner | pkg/backend/vlan/applogic.go:137-147 | lists the entries of an owner |
| Vlan.Applogic.ApplyFound | pkg/backend/vlan/applogic_apply.go:11-38 | what an owner with entries is told |
| Vlan.Applogic.ApplyNewDynamic | pkg/backend/vlan/applogic_apply.go:40-51 | takes the least free id or is refused exactly when there is none to take |
| Vlan.Applogic.ApplyNewStatic | pkg/backend/vlan/applogic_apply.go:53-64 | takes the id asked for unless it is reserved or out of bounds |
| Vlan.Applogic.ApplyNewRange | pkg/backend/vlan/applogic_apply.go:66-73 | is reported, refused or crashes, each exactly under its condition |
| Vlan.Applogic.ApplyNewSize | pkg/backend/vlan/applogic_apply.go:75-82 | is reported exactly when enough ids are free and the size check passes |
| Vlan.Applogic.ApplyNew | pkg/backend/vlan/applogic_apply.go:40-82 | what a new claim of each kind does to the table and what it is told, exactly |
| Vlan.VlanRangeDecided | pkg/backend/vlan/applogic_apply.go:66-73 | with the start and some id beyond free, a range claim on any table of a run is refused exactly when a free id follows a used one |
| Vlan.FreshRangeCrashes | pkg/db/db.go:227-229 | on a fresh table exactly the ranges from a reserved low id to at least the first free one panic |
| Vlan.FreeRangeLost | pkg/db/db.go:232-236 | a range that is entirely free and for which the search returns nothing |
| Vlan.Applogic.ApplyHandler | pkg/backend/vlan/applogic.go:98-121 | a claim call does what the runs say, is told exactly what a new or a known owner is told, and under the invariant never reports several ids |
| Vlan.Applogic.DeleteHandler | pkg/backend/vlan/applogic.go:123-135 | frees exactly the ids of the owner; fails exactly when one is reserved, which the invariant rules out |
| Vlan.GetData | pkg/backend/vlan/storage_cm.go:78-95 | what is saved is the table |
| Vlan.RestoreFromList | pkg/backend/vlan/storage_cm.go:149-203 | an entry is set exactly when its owner is listed and its id is not reserved; panics exactly on a match with a VLAN without an id |
| Vlan.RestoreVLANs | pkg/backend/vlan/storage_cm.go:127-147 | one pass sets exactly the entries of its owner kind whose owners are listed, or panics as above |
| Vlan.SaveAndRestore | pkg/backend/vlan/storage_cm.go:78-203 | a restart reproduces the table if and only if the owner of every entry that is not reserved is listed, unless it panics as above |
| Endpoints.GetSelectedObjects | pkg/objects/objects.go:51-72 | the selected objects, none twice, all of them up to equal namespaced names, as a function of the list |
| Endpoints.Inventory.Init | pkg/objects/endpoint/endpoint.go:65-97 | each topology asked for is listed completely |
| Endpoints.Inventory.GetTopologyEndpointsWithSelector | pkg/objects/endpoint/endpoint.go:143-169 | the candidates of a topology sorted by interface, and each error with its exact condition |
| Endpoints.Inventory.GetClaimedEndpoints | pkg/objects/endpoint/endpoint.go:99-119 | exactly the endpoints that reference the resource |
| Endpoints.Inventory.Claim | pkg/objects/endpoint/endpoint.go:121-130 | exactly the given endpoints reference the resource afterwards, or those before the failing update; with stored copies it fails exactly on a server failure or on a second copy of an endpoint that changed |
| Endpoints.Inventory.DeleteClaim | pkg/objects/endpoint/endpoint.go:132-141 | exactly the given endpoints lose their reference, or those before the failing update, which fails as for a claim |
| Selectors.Scan | controllers/logicalinterconnect-controller/selector.go:149-208 | the first eligible candidate, or none |
| Selectors.RunProper | controllers/logicalinterconnect-controller/selector.go:116-213 | whatever a side picks: endpoints of the topologies of their links, none twice, none of another resource |
| Selectors.FreshOnNodes | controllers/logicalinterconnect-controller/selector.go:138-207 | in a fresh selection links of the same slot share a node, and with node diversity even and odd links are on different nodes |
| Selectors.SlotMeaning | controllers/logicalinterconnect-controller/selector.go:136-145 | a slot is the parity of the link with one topology and the topology of the link with several |
| Selectors.StickyUnrecorded | controllers/logicalinterconnect-controller/selector.go:151-159 | a selection that is not fresh can put both links on one node in spite of node diversity |
| Selectors.RunSelected | controllers/logicalinterconnect-controller/selector.go:116-213 | a finished side holds stored endpoints of the right topologies that its selector matches, none twice, none of another resource |
| Selectors.AddedAgrees | controllers/logicalinterconnect-controller/selector.go:75-106 | adding an endpoint keeps endpoints, logical endpoints and links in agreement |
| Selectors.EndpointSelector.AddEndpoint | controllers/logicalinterconnect-controller/selector.go:65-106 | fails exactly for indices out of range, else adds the endpoint to all three parts |
| Selectors.EndpointSelector.PrepareSide | controllers/logicalinterconnect-controller/selector.go:117-129 | the candidates of each topology, listed from the cluster and in the order the inventory gives, and each error with its exact condition |
| Selectors.EndpointSelector.ScanCandidates | controllers/logicalinterconnect-controller/selector.go:147-208 | the branches of the loop take the first eligible candidate |
| Selectors.EndpointSelector.SelectLink | controllers/logicalinterconnect-controller/selector.go:132-212 | one link takes the first eligible candidate, records its node and removes it |
| Selectors.EndpointSelector.SelectLinks | controllers/logicalinterconnect-controller/selector.go:131-212 | one endpoint per link in order, or failure exactly at the first link without a candidate |
| Selectors.EndpointSelector.SelectSide | controllers/logicalinterconnect-controller/selector.go:116-213 | panics exactly when links are asked of a side without topologies |
| Selectors.EndpointSelector.SelectEndpoints | controllers/logicalinterconnect-controller/selector.go:108-216 | a selection that succeeds for two sides is complete and consistent |
| Interconnects.SelectionComplete | controllers/logicalinterconnect-controller/selector.go:75-216 | all slots of all links are filled, and links agree with logical endpoints |
| Interconnects.StaleClaims | controllers/logicalinterconnect-controller/reconciler.go:223-236 | the claims that the selection does not contain |
| Interconnects.ReclaimedExact | controllers/logicalinterconnect-controller/reconciler.go:223-245 | after the claim step exactly the selected endpoints reference the resource, and those of others are untouched |
| Interconnects.ClaimSelected | controllers/logicalinterconnect-controller/reconciler.go:237-245 | the two update loops achieve this; without server failures they succeed exactly when no endpoint new to the resource was selected twice, and failing half way changes no endpoint of another resource |
| Interconnects.PopulateResources | controllers/logicalinterconnect-controller/reconciler.go:180-248 | selection and claim step together: a complete selection that is exactly what the resource claims afterwards, success without server failures when the sides share no topology, and for sides that differ in their names only success just with endpoints claimed before and links from an endpoint to itself |
| Interconnects.SidesApart | controllers/logicalinterconnect-controller/selector.go:116-213 | sides without a common topology never select the same endpoint |
| Interconnects.EqualSidesClash | controllers/logicalinterconnect-controller/selector.go:116-213 | sides that differ in their names only, prepared from one inventory, select the same endpoints, and these can be claimed if and only if the resource claims all of them already |
| Interconnects.SelfLink | controllers/logicalinterconnect-controller/reconciler.go:237-245 | two such sides with one candidate: the first attempt fails having claimed it, the next one links it to itself |
| Selectors.AlikePicks | controllers/logicalinterconnect-controller/selector.go:116-213 | sides that differ in their names only pick the same endpoints from one inventory |
| Interconnects.ReleaseIsReclaim | controllers/logicalinterconnect-controller/reconciler.go:128-134 | dropping all claims is reconciling to an empty selection |
| Interconnects.ReleaseClaims | controllers/logicalinterconnect-controller/reconciler.go:119-134 | deleting a resource leaves no endpoint that references it and none of another resource changed |
| Interconnects.LastSelectionStands | controllers/logicalinterconnect-controller/reconciler.go:223-245 | however reconciliations of several resources follow one another, each claims exactly its last selection |
| Interconnects.SelectionsDisjoint | controllers/logicalinterconnect-controller/reconciler.go:223-245 | the last selections of two resources share no endpoint |
| Conditions.ConditionedStatus.GetCondition | apis/resource/common/v1alpha1/condition.go:103-110 | the first condition of a type, or the default |
| Conditions.ConditionedStatus.SetConditions | apis/resource/common/v1alpha1/condition.go:115-135 | the loops set the supplied conditions one after the other |
| Conditions.ConditionedStatus.Equal | apis/resource/common/v1alpha1/condition.go:139-164 | on unique types equal exactly for permutations ignoring time and observed generation; absent statuses equal only each other |
| Conditions.SortedEqual | apis/resource/common/v1alpha1/condition.go:148-163 | comparing sorted lists decides permutation, for every sorted order |
| Conditions.EqualNeedsUnique | apis/resource/common/v1alpha1/condition.go:154-163 | without unique types a permutation may compare as different |
| Conditions.SetAllLooksUp | apis/resource/common/v1alpha1/condition.go:101-135 | types stay unique, a supplied type has the value supplied last ignoring time, others keep their condition |
| Conditions.SetAllConcat | apis/resource/common/v1alpha1/condition.go:115-135 | several calls act as one |
| Conditions.SetOneNoOp | apis/resource/common/v1alpha1/condition.go:112-135 | setting a condition changes nothing exactly when it is there already, ignoring time |
| Conditions.SetAllNoOp | apis/resource/common/v1alpha1/condition.go:112-135 | supplying what is there changes nothing, times included |
| Conditions.RunsPermuted | apis/resource/common/v1alpha1/condition.go:72-164 | two statuses built from empty are permutations ignoring time exactly when every type was last supplied the same value |

## Left out

- Runs.RunHierarchy: speaks of claims that give their prefix and create it, by named owners; static network addresses claimed without creating a prefix can pass validation through a dummy subnet and are not part of these runs.
- Reclaims.FirstReclaimIff: speaks of repeating at once a claim whose owner has no other route; other routes and claims in between are covered by Reclaims.UnchangedIff and Idempotence.UpdateOutcome, whose condition is on the table.
- Backend.ClaimPrefix: the choice of the runtime, the JSON form of claims and the saving after each call are not modelled.
- Applicators.Applicator.ApplyDynamic: starts from a claim without a prefix in its status; the refresh of a released status prefix depends on library behaviour for an exact match that the repository does not show.
- Allocation.FreeBlockClear: holds for a selected route shorter than the requested length; for equal lengths the library's answer is not visible.
- Allocation.AllocationFrame: holds for a selected route shorter than the requested length, for the same reason.
- Allocation.AllocatedOwn: holds for a selected route shorter than the requested length, for the same reason.
- Allocation.AllocateThenDelete: holds for a selected route shorter than the requested length, for the same reason.
- Placement.AllocationLegalIff: holds for a selected route shorter than the requested length, for the same reason.
- Endpoints.Inventory.GetTopologyEndpointsWithSelector: candidates with the same interface name come in the order of an insertion sort; the source's sort fixes an order of its own, of which only that it depends on the list alone is used.
- Leases.Caller.Others: stands for the rest of the cluster; callers rely on its contract, which allows any sequence of protocol steps.
- Leases.RunExclusive: clocks of different machines are one clock, and renew times are stored in microseconds.
- Messages.RoundTripHeader: encodings stay below 2^63 bytes, the limit of a Go int.
- Codec.DecodeGVK: the partly filled message that a failing decode leaves behind is not modelled.
- Codec.DecodeNSN: the partly filled message that a failing decode leaves behind is not modelled.
- Codec.DecodeHeader: the partly filled message that a failing decode leaves behind is not modelled.
- Codec.DecodeVarint: the disjoint bits of a varint are added instead of combined with or.
- HashTables.HashTable.Insert: asks for a free or matching slot, since without one the source recurses for ever; HashTables.RoomUnlessFull says when there is one.
- HashTables.HashTable.InsertFrom: asks for such a slot ahead of the probe.
- IdDatabase.Database.IterateFree: ids are unsigned integers of some width; signed integer types are not modelled.
- Vlan.ClaimKeepsInv: exclusivity of static ids is not promised, because a static claim may replace the entry of another owner.
- Selectors.FreshOnNodes: nothing is said about nodes of selections that are not fresh, beyond the example that diversity can fail there.
- Interconnects.PopulateResources: an interconnect has two sides, as its schema demands (apis/topo/v1alpha1/logical_interconnect_types.go:35-39); building links and logical endpoints from the result is not modelled.
- Interconnects.LastSelectionStands: each reconciliation is one step, as the endpoint lease intends; updates that fail half way are covered by Interconnects.ClaimSelected only.
- Endpoints.Inventory.Claim: the rule that a status update needs the stored version, and that one which changes nothing keeps it, is that of the Kubernetes API server.
- The text forms of prefixes and the YAML and JSON encodings are not modelled; equal values stand for equal texts.
- Label selectors are conjunctions of equalities, or any predicate on labels for endpoints.
- The messages other than GVK, NSN and Header, the gRPC server and client proxies, the watcher's dispatch to callbacks, the other controllers, finalizers and resource builders are not modelled; they move data or would only add easy members.
- Mutexes around the in-memory stores are not modelled; each operation is one step.
