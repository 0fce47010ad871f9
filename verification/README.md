# Verification model of the VPN control plane

A Dafny model of the stateful algorithms of a WireGuard control plane, with proofs of what they keep over whole runs. Each source component is one or two modules:

| files | component |
|---|---|
| Words, IpPool, PoolRuns | the address allocator: a bitset over host offsets with a redundant counter and a scan hint |
| Text, Ipv4, Base64 | the standard-library text functions that addresses, keys and the saved file go through |
| Device, ManagerSpec, Manager, Loading, Restart, RestartCases, Routes | the WireGuard manager: its maps, the pool, the kernel device and the saved file, and restarts |
| ConfigFile, ConfigEdits | the printer and the parser of the saved file |
| WsHub, HubRuns, HubCalls, HubLimit | the WebSocket hub: the table as a class, and every interleaving of its lock sections |
| Breaker | the circuit breaker and the retry loop |
| Slots, SlotRuns, DeviceLimit | the per-server slot protocol: statements, handlers, and every interleaving of them |
| RateLimit | the three keyed token-bucket tables with idle eviction |
| Mesh, MeshRuns, MeshSteps | mesh provisioning and mesh addresses |
| IntrospectionCache, CacheRuns | the token introspection cache |

Code that changes state in place is a class (`Pool`, `Kernel`, `Manager`, `Hub`, `CircuitBreaker`, `Store`, `Limiter`, `MeshRepo`, `TokenCache`) whose methods are proved equal to functions on plain values; the run theorems are about those functions. Concurrency is modelled as sequences of atomic steps in any order; a step that is not possible when its turn comes is skipped, so a theorem about all sequences covers all interleavings.

## Where code and comments disagree, or a property fails

- `FreeCount` (internal/ippool/pool.go:145) also counts the broadcast offset, so it is the number of free hosts only while network, gateway and broadcast are all assigned (`PoolRuns.FreeCountIff`), and one more than the allocations left unless every offset is assigned (`PoolRuns.FreeCountAgainstAllocations`, `PoolRuns.FreeCountOfFour`).
- On a /32 network the number of usable offsets wraps to 2^32 - 1 and the first `Allocate` hands out base + 2, outside the network; for /1 to /31 it never does (`IpPool.FirstAllocation`).
- `Release` accepts offsets 0 and 1, after which the network or gateway address is handed out (`PoolRuns.HandsOutHostIff` says exactly when).
- `Reserve` accepts the broadcast offset; then one free address can be refused as exhausted (`PoolRuns.FalseExhaustionIff`, `PoolRuns.ReservedBroadcastExhausts`).
- `RemovePeer` leaves the peer's mesh entry behind. A restart forgets it, and `RemoveMeshIP` can then answer differently: `Restart.Forgotten` is the exact condition (`Restart.RestartsAreInvisible`, `RestartCases.ForgottenHappens`).
- Key text is used as the map key, and no caller checks that it is the text the decoded key prints as: internal/control/handler.go:66-72 accepts every text that decodes to 32 bytes, internal/core/handler.go:46-66 every non-empty one. A second text of a key gives it a second entry and address, and a restart renames entries and loses addresses (`RestartCases.TwoTextsOnePeer`, `RestartCases.SpareBitsRun`, `RestartCases.RestartLeaksAddress`). `ManagerSpec.AgreeIff` and `Restart.RestartUnseenIff` say exactly when manager and device stay in agreement and a restart goes unnoticed.
- A device that cannot be read at start is only logged; the manager then starts with an empty pool over a device that may have peers (`Manager.Manager.constructor`). It agrees with that device exactly if there are none (`RestartCases.UnreadIff`); otherwise it hands out the addresses of its peers again and they lose them (`RestartCases.UnreadTakesFirst`; `RestartCases.UnreadHandsOutAgain` for any device).
- The hub does not lower a user's counter when it evicts a slow client, so the user's later connections can be refused although none is open (`HubRuns.CountersAreExact`, `HubRuns.LockedOut`).
- `CanAccept` and the registration are two steps, so k handlers at once can overshoot the limit by k - 1 (`HubRuns.ConnectionLimit`), and do for every limit and every k (`HubLimit.LimitKeptIff`, `HubLimit.RushOvershoots`).
- `Disconnect` and `AdminForceDisconnectPeer` decrement the counter for inactive peers too, so capacity can be exceeded (`Slots.CoveredIff`, `Slots.DisconnectTwiceOverfills`).
- Two teardowns of one active peer that overlap both decrement, so capacity can be exceeded without any inactive peer being disconnected (`SlotRuns.OverlappingDeletesOverfill`). Over all interleavings: a server can be overfilled from a state exactly when `SlotRuns.OverfillIff` says so, and decrements run ahead of the teardowns under way exactly when a counted teardown ends on a row inactive already or gone (`SlotRuns.BehindIff`).
- The devices of a user are counted before one is created, so overlapping Connects exceed the device limit: it holds in all runs exactly if at most one Connect of the user is between count and creation (`DeviceLimit.LimitKeptIff`, `DeviceLimit.RushOvershoots`; `DeviceLimit.DeviceBound` for k of them).
- A half-open breaker lets all probes through until one fails (`Breaker.StaysAllowed`).
- A single failed `ListByUser` makes `ensureAutoMesh` delete the user's own session mesh (`MeshRuns.ListFailure`).
- Subnet choice and mesh creation are separate statements; overlapping choices give two meshes the same subnet and then the same addresses (`MeshSteps.OverlappingChoiceClashes`; `MeshSteps.AddressesSafeIff` is the exact condition).
- An introspection that is waiting while its token is invalidated is cached afterwards (`CacheRuns.OverlappingInvalidateIsLost`; `CacheRuns.InvalidateEffectiveIff` is the exact condition).

## Model

| member | source | states |
|---|---|---|
| `IpPool.Pool.constructor` | internal/ippool/pool.go:28-57 | For every aligned network of prefix length /1 to /31 the new pool holds exactly offsets 0 and 1, and the pool invariant holds: the counter is the number of set bits, no bit is set above the last offset, everything below the hint is assigned |
| `IpPool.NewFitsIff` | internal/ippool/pool.go:40-47 | In the 32-bit arithmetic of New there is a word to mark and offsets 0 and 1 are of the network exactly for prefix lengths /1 to /31 |
| `IpPool.FirstAllocation` | internal/ippool/pool.go:40-79 | New and the first Allocate in 32-bit arithmetic: nothing on /31, else base + 2, which lies outside the network if and only if the prefix length is /32 |
| `IpPool.LastAddressFits` | internal/ippool/pool.go:39-40 | The base plus the number of addresses never exceeds 2^32, so baseIP + maxHost does not wrap around |
| `IpPool.Pool.Scan` | internal/ippool/pool.go:68-86 | The rotating scan from the hint stops at the smallest free offset of the whole pool; resetting to 2 and giving up after a full turn are dead branches |
| `IpPool.Pool.Allocate` | internal/ippool/pool.go:59-87 | Hands out the smallest free offset as address text and marks it, or answers "exhausted" and changes nothing, exactly when the count says so |
| `IpPool.Pool.Release` | internal/ippool/pool.go:89-112 | Frees exactly the named offset; text that is no address, lies outside the network or names a free offset is "not found" and changes nothing |
| `IpPool.Pool.Reserve` | internal/ippool/pool.go:114-132 | Marks exactly the named offset; an assigned one is refused, an outside one is not found, and the pool stays as it was |
| `IpPool.Pool.IsSet` | internal/ippool/pool.go:74-76 | Testing one bit of one word is membership in the abstract set of assigned offsets |
| `IpPool.Pool.Write` | internal/ippool/pool.go:77-104 | Setting or clearing one bit of one word adds or removes exactly that offset |
| `IpPool.OffsetsUpdate` | internal/ippool/pool.go:74-77 | Rewriting one word of the array changes the set of offsets it stands for by exactly one offset |
| `Words.BitSpec` | internal/ippool/pool.go:74-77 | Setting or clearing bit b of a 64-bit word changes bit b and no other |
| `Words.OnesCountsMembers` | internal/ippool/pool.go:152-154 | The population count of a word is the number of offsets the word stands for |
| `IpPool.Pool.AssignedCount` | internal/ippool/pool.go:139-143 | The redundant counter is the number of assigned offsets |
| `IpPool.Pool.FreeCount` | internal/ippool/pool.go:146-159 | The popcount loop over all words gives maxHost + 1 minus the assigned offsets: the broadcast offset is counted as free |
| `IpPool.StripMask` | internal/ippool/pool.go:184-191 | The loop returns what stands before the first slash |
| `IpPool.OffsetRoundTrip` | internal/ippool/pool.go:161-191 | offsetToIP and ipToOffset undo each other for every offset of the network, with or without the mask |
| `IpPool.Pool.GatewayIsOffsetOne` | internal/ippool/pool.go:134-136 | The gateway text names offset 1 of the network, which New reserves |
| `IpPool.OffsetExact` | internal/ippool/pool.go:168-182 | Text is refused exactly when it is no address or lies outside the network, and accepted text is the canonical text of the offset returned |
| `IpPool.FirstFree` | internal/ippool/pool.go:68-86 | The first-fit search: result not assigned, everything below it assigned |
| `IpPool.NextOffsetIsLowest` | internal/ippool/pool.go:63-86 | What allocation returns on a set of offsets is the smallest free one of all, and there is none exactly when the count reaches maxHost |
| `PoolRuns.AllocIsFirstFit` | internal/ippool/pool.go:59-87 | With network and gateway assigned and broadcast free, allocation returns the smallest free host 2..maxHost-1, and none only when every host is assigned |
| `PoolRuns.EveryRunIsFirstFit` | internal/ippool/pool.go:59-132 | After every run of Allocate, Reserve and Release on host offsets allocation is still first-fit on the hosts and never yields network, gateway or broadcast |
| `PoolRuns.HandsOutHostIff` | internal/ippool/pool.go:94-109 | Whatever was released, allocation yields a host exactly as long as offsets 0 and 1 are assigned |
| `PoolRuns.ReleasedNetworkAddressIsHandedOut` | internal/ippool/pool.go:94-109 | The concrete run: releasing .0 makes the next allocation hand out .0 |
| `PoolRuns.FalseExhaustionIff` | internal/ippool/pool.go:63-66 | "Exhausted" is answered although an offset is free exactly when the broadcast offset was reserved and exactly one other offset is free |
| `PoolRuns.ReservedBroadcastExhausts` | internal/ippool/pool.go:114-132 | The concrete run: on a four-address network reserving the broadcast address makes allocation answer "exhausted" with the one host free |
| `PoolRuns.RemainingAllocations` | internal/ippool/pool.go:59-66 | Exactly maxHost - count further allocations succeed, and none when the count is maxHost or more |
| `PoolRuns.FreeCountIff` | internal/ippool/pool.go:145-159 | maxHost + 1 - count is the number of free hosts, as FreeCount promises, if and only if network, gateway and broadcast are assigned |
| `PoolRuns.FreeCountAgainstAllocations` | internal/ippool/pool.go:145-159 | It is one more than the allocations left, except when every offset is assigned, where both are zero |
| `PoolRuns.FreeCountOfFour` | internal/ippool/pool.go:145-159 | The concrete pool of a /30: two free although there is one host; and both zero after allocating the host and reserving the broadcast address |
| `Text.ValueOfDecimal` | internal/ippool/pool.go:161-166 | Decimal text reads back as the number and has no leading zero |
| `Text.DecimalOfValue` | internal/ippool/pool.go:168-173 | Canonical digits print back as themselves |
| `Text.DecimalSample` | internal/wg/manager.go:618 | All ten digits print as themselves |
| `Text.SplitJoin` | internal/wg/manager.go:199 | Splitting joined fields that do not contain the separator gives the fields back |
| `Text.JoinSplit` | internal/wg/manager.go:199 | Joining what splitting returns gives the text back |
| `Text.CutAssignment` | internal/wg/manager.go:215-219 | A printed "key = value" line gives back key and value after splitting at the first "=" and trimming |
| `Ipv4.ParseFormat` | internal/ippool/pool.go:161-173 | Printing an address and parsing the text gives the address back |
| `Ipv4.FormatParse` | internal/ippool/pool.go:168-173 | Text that parses as an address is the text that address prints as |
| `Ipv4.FormatInjective` | internal/ippool/pool.go:161-166 | Different addresses print differently |
| `Ipv4.ParseFormatNet` | internal/wg/manager.go:632 | A masked network prints and parses back with its prefix length |
| `Ipv4.ParseInNet` | internal/wg/manager.go:241 | An address with any prefix length reads as the network it lies in, aligned to its size |
| `Ipv4.ParseHost` | internal/wg/manager.go:419 | An allocated "a.b.c.d/32" parses as that one-address network |
| `Base64.Alphabet` | internal/wg/manager.go:617 | The 64 symbols are those of the standard alphabet, and no other character is accepted |
| `Base64.TestVectors` | internal/wg/manager.go:617 | The encoder gives the standard test vectors |
| `Base64.DecodeEncode` | internal/wg/manager.go:617 | Standard base64 decodes back to the bytes, for any number of bytes |
| `Base64.KeyTextRoundTrip` | internal/wg/manager.go:381 | A 32-byte key is recovered from its text |
| `Base64.SpareBits` | internal/wg/manager.go:407-412 | For every key the four texts that differ in the two spare bits of the last symbol decode to it, and exactly one of them is the text it prints as |
| `Base64.LineBreakAlias` | internal/wg/manager.go:407-412 | For every key its text with a trailing line break decodes to it too |
| `Device.Kernel.Read` | internal/wg/manager.go:375 | Reading the device lists every peer once, with its allowed IPs and interval, in the kernel's own order |
| `Manager.Manager.AddPeer` | internal/wg/manager.go:399-443 | For any key text and any outcome of the device call, the new maps, pool, device and reply are those of the specification step; a device failure gives the address back and changes nothing; after a success the file describes the device if it could be written, and is the old one otherwise |
| `Manager.Manager.Enroll` | internal/wg/manager.go:419-442 | The half of AddPeer after the allocation: the address goes to the device and the map, or back to the pool |
| `Manager.Manager.RemovePeer` | internal/wg/manager.go:445-474 | The specification step for removal, for any key text; the address of the entry with that text returns to the pool, the mesh entry stays; the file as for AddPeer |
| `Manager.Manager.Forget` | internal/wg/manager.go:467-470 | Releasing the address and deleting the map entry keeps pool and map in step |
| `Manager.Manager.UpdatePeer` | internal/wg/manager.go:476-513 | The specification step for a keepalive change; the file as for AddPeer |
| `Manager.Manager.AddMeshIP` | internal/wg/manager.go:661-704 | The specification step that replaces the allowed IPs by pool IP and mesh IP and records the mesh IP; the file as for AddPeer |
| `Manager.Manager.RemoveMeshIP` | internal/wg/manager.go:708-750 | The specification step that leaves the pool IP alone on the peer; without a recorded mesh IP nothing happens, not even to the file |
| `Manager.Manager.PersistConfig` | internal/wg/manager.go:607-649 | The saved file is the printed text of the device as it is now, in the order the device was listed; if the device cannot be read or the file not written, the old file stays |
| `Manager.Manager.constructor` | internal/wg/manager.go:60-82 | On any device: the maps and the pool are what loading some listing of it gives, or empty if it cannot be read; if some manager was consistent with the device, maps, pool and device are in step and every peer comes back under its key's own text |
| `Manager.Manager.LoadExistingPeers` | internal/wg/manager.go:374-395 | The loops over the listed peers and their allowed IPs do to maps and pool what the loading specification says, for any device |
| `Manager.Manager.LoadPeer` | internal/wg/manager.go:380-391 | One listed peer, with any allowed IPs |
| `Manager.Manager.LoadNet` | internal/wg/manager.go:382-390 | One allowed IP goes to meshIPs if it lies in 10.200.0.0/16, else to peerIPs, and its offset to the pool if it lies in the network |
| `Loading.LoadsAgreeing` | internal/wg/manager.go:374-395 | Loading an agreeing device, in whatever order it is listed, gives exactly its peers' address texts, their offsets and the routed mesh entries |
| `Loading.TwoAddressesLeak` | internal/wg/manager.go:382-390 | Loading a device peer with two pool addresses gives one entry and two assigned offsets: one address is lost |
| `RestartCases.RestartLeaksAddress` | internal/wg/manager.go:374-395 | So it is after enrolling one key under two texts |
| `Manager.Call` | internal/wg/manager.go:399-750 | Every public call, with any key text and address text and whatever the file says, keeps maps and pool in step and refines the specification step; a call that changed something leaves a file that describes the device, if it could be written, and any other call leaves the file as it was |
| `Manager.Serve` | internal/wg/manager.go:399-750 | A run of any calls, failed ones included, yields the replies and the state of the specification run and keeps the invariant; the file describes the device at the end if the last call that changed something could write it |
| `Manager.FreshStart` | internal/wg/manager.go:143-176 | The first start, without an interface or a readable file: the generated key, an empty device, maps and pool in step and in agreement with it, and a file that describes it if it could be written |
| `Manager.AllWritten` | internal/wg/manager.go:607-649 | If every write works and the file matched at first, it matches after any run |
| `Manager.RestoreFromConfig` | internal/wg/manager.go:258-289 | The device recreated from file text is what applying the parsed peers to an empty device gives; without a readable private key it is empty and the generated key is used |
| `Manager.ColdStart` | internal/wg/manager.go:181-299 | With the device gone, the file a consistent manager left gives back private key, device, pool and maps, each peer under its key's own text |
| `Manager.RestartBetween` | internal/wg/manager.go:374-395 | For runs that do not spoil the agreement: a run, a restart on the device it left, a further run; reply i is the one without the restart exactly outside the forgotten case, and peers and device are the same; if every write works the file describes the device at the end |
| `Manager.Restarted` | internal/wg/manager.go:60-82 | The restarted manager has maps, pool and device in step again, and its file describes the device if it did before |
| `ManagerSpec.AgreeIff` | internal/wg/manager.go:399-750 | An operation keeps the agreement (one entry and one host offset per device key, under the key's own text; allowed IPs are the pool IP and at most the recorded mesh IP; none on two peers) if and only if it is not a successful AddPeer with another text of its key, a removal of an existing peer through such a text, or a mesh IP outside 10.200.0.0/16 |
| `ManagerSpec.AddPeerAgreesIff` | internal/wg/manager.go:399-443 | A successful AddPeer keeps the agreement if and only if its key text is the one the decoded key prints as |
| `ManagerSpec.ConsistentIff` | internal/wg/manager.go:399-750 | The same without regard to which text names a key: consistency is kept if and only if no key on the device is enrolled again or removed through another text and no address outside the mesh range is routed |
| `ManagerSpec.AddKeeps` | internal/wg/manager.go:399-443 | Enrolling a key that is not on the device, under any text, keeps maps, pool and device consistent |
| `ManagerSpec.RemoveKeeps` | internal/wg/manager.go:445-474 | So does removing a peer under its entry's text, or a key that is not on the device |
| `ManagerSpec.ChangeKeeps` | internal/wg/manager.go:476-750 | So does any update-only change that gives a peer its own address and at most its mesh IP |
| `ManagerSpec.ApplyEffect` | internal/wg/manager.go:426-434 | A peer change gives the peer the new allowed IPs and takes them from all other peers |
| `ManagerSpec.KeyInjective` | internal/wg/manager.go:407-412 | Two canonical key texts of one key are the same text |
| `ManagerSpec.StepHosts` | internal/wg/manager.go:399-750 | Every operation keeps all offsets host offsets, whatever the texts |
| `Routes.AddAnswers` | internal/wg/manager.go:399-443 | AddPeer refuses a known text, an undecodable key, a full pool and a failing device, in this order and without a change; otherwise it answers the lowest free host and records it |
| `Routes.OtherAnswers` | internal/wg/manager.go:445-750 | Which error each other call gives, when it gives none, and that a failed call changes nothing |
| `Routes.AddedPeer` | internal/wg/manager.go:426-434 | Enrolling a new key leaves one device peer more, with the new address alone and the given keepalive; all others are untouched |
| `Routes.RemovedPeer` | internal/wg/manager.go:455-470 | Removal takes exactly that key off the device and exactly that text out of the map |
| `Routes.UpdatedPeer` | internal/wg/manager.go:496-510 | On a consistent manager UpdatePeer sets the keepalive of that peer and changes nothing else |
| `Routes.MeshedPeer` | internal/wg/manager.go:688-704 | On a consistent manager a successful AddMeshIP leaves the peer with exactly its pool address and the mesh address, and nobody else has the mesh address; everything else stays |
| `Routes.UnmeshedPeer` | internal/wg/manager.go:734-750 | On a consistent manager RemoveMeshIP of a recorded entry leaves the peer with its pool address alone and removes the entry; everything else stays |
| `Routes.MeshIsRouted` | internal/wg/manager.go:688-700 | Whatever the state, a successful AddMeshIP routes the address if and only if the key is on the device |
| `Routes.RouteKeptIff` | internal/wg/manager.go:399-750 | Whatever the state, a call leaves a routed mesh IP routed if and only if it does not remove or empty the device peer, replace its allowed IPs under another text, or give the address to another peer |
| `Routes.LosesIff` | internal/wg/manager.go:399-750 | On a consistent manager these calls are the removal of the peer, RemoveMeshIP for it, and AddMeshIP of the same address for another peer |
| `Routes.RoutedThroughoutIff` | internal/wg/manager.go:374-750 | Over whole runs, restarts included, a routed mesh IP stays routed at every point if and only if no call takes it away at its turn |
| `Restart.StepAlike` | internal/wg/manager.go:374-395 | A restarted and a never-restarted manager answer an operation alike if and only if it is not a RemoveMeshIP whose entry the restart forgot and whose removal fails |
| `Restart.RestartsAreInvisible` | internal/wg/manager.go:374-395 | Restarts at any points of a run that does not spoil the agreement leave the same peers, pool contents and device, and the i-th replies are the same if and only if the i-th call is not the forgotten case on the states before it |
| `Restart.RunAgreesIff` | internal/wg/manager.go:399-750 | From an agreeing state a run, with or without restarts, agrees at every point if and only if no call spoils the agreement at its turn |
| `Restart.EmptyAgrees` | internal/wg/manager.go:65-71 | The empty manager on an empty device agrees |
| `Restart.RestartUnseenIff` | internal/wg/manager.go:374-395 | For a consistent manager: every operation is answered after a restart as before, outside the forgotten case, if and only if all its peers are known under their keys' own texts |
| `Restart.ReadBackAgrees` | internal/wg/manager.go:374-395 | A restart of a consistent manager gives one that agrees with the same device |
| `RestartCases.TwoTextsOnePeer` | internal/wg/manager.go:399-474 | Enrolling one key under two texts gives two entries with two addresses on one device peer; removing one takes the peer off the device while the other entry stays and is still served |
| `RestartCases.SpareBitsRun` | internal/control/handler.go:66-72 | The concrete run on 10.8.0.0/24, for every key and its text with a spare bit set, both of which the callers let through |
| `RestartCases.UnreadIff` | internal/wg/manager.go:77-79 | A manager whose device could not be read is consistent with it, and agrees with it, if and only if the device has no peers |
| `RestartCases.AddsInOrder` | internal/wg/manager.go:399-443 | Enrolments of new keys hand out the free offsets in order whatever the device holds, and every other peer loses exactly these addresses on the device |
| `RestartCases.UnreadHandsOutAgain` | internal/wg/manager.go:77-79 | For any device with a peer at pool offset o: after o - 1 enrolments the manager that could not read it has handed out 2, 3, ..., o, and that peer has lost its address |
| `RestartCases.UnreadTakesFirst` | internal/wg/manager.go:77-79 | The concrete case: a device with one peer at the first address; the first enrolment of another key gets that address and the peer keeps none |
| `RestartCases.ForgottenHappens` | internal/wg/manager.go:467-470 | The concrete run: AddPeer, AddMeshIP, RemovePeer, restart, RemoveMeshIP answers "done" where the manager that ran through answers "peer not found" |
| `Restart.ReloadedIsSimilar` | internal/wg/manager.go:374-395 | What a restart reads back agrees with the device and differs only in mesh entries that are not routed |
| `Restart.RemoveForgotten` | internal/wg/manager.go:708-750 | The stale mesh entry case: what each of the two managers answers and keeps |
| `Restart.NothingToRemove` | internal/wg/manager.go:734-743 | For a peer without a recorded mesh IP the change RemoveMeshIP would send leaves the device as it is |
| `Restart.RebuildDevice` | internal/wg/manager.go:269-289 | Applying the listed peers one after the other to an empty device rebuilds the device they were listed from |
| `Restart.FileRestoresDevice` | internal/wg/manager.go:181-299 | The device rebuilt from the saved text is the device the text was saved from, and the private key is found |
| `ConfigFile.RestoreUndoesPersist` | internal/wg/manager.go:199-256 | Parsing the saved text gives back the private key and, in order, exactly the peers whose PublicKey value decodes, each with its allowed IPs and keepalive |
| `ConfigEdits.FileStarts` | internal/wg/manager.go:615-628 | The saved file starts with the interface section: key, port, address and a blank line, and the peer blocks follow |
| `ConfigEdits.BlockIs` | internal/wg/manager.go:628-638 | A peer block is its heading, its key, one line for each allowed IP in order, the keepalive if there is one, and a blank line |
| `ConfigEdits.NoiseIgnored` | internal/wg/manager.go:199-219 | Blank lines, comments, lines without "=" and assignments to other names can stand anywhere in a file without changing what it restores |
| `ConfigEdits.PaddingIgnored` | internal/wg/manager.go:200 | White space around a line, carriage returns included, changes nothing |
| `ConfigEdits.CommaListReads` | internal/wg/manager.go:238-245 | A comma list of networks, with or without white space, adds all of them to the peer in order |
| `ConfigEdits.BadValuesSkipped` | internal/wg/manager.go:220-249 | A keepalive that is no number and a private key of another length than 32 bytes are skipped |
| `ConfigEdits.KeyLengthIff` | internal/wg/manager.go:221-237 | Base64 text is a key if and only if it encodes 32 bytes |
| `ConfigFile.RestoreIntact` | internal/wg/manager.go:199-256 | The saved text as printed gives back the private key and every peer, in order, with allowed IPs and keepalive |
| `ConfigFile.RestoreSpoiled` | internal/wg/manager.go:230-236 | With one PublicKey value made undecodable, exactly that peer is missing from what is restored |
| `ConfigFile.AllSurvive` | internal/wg/manager.go:628-638 | With the key texts as printed, every peer comes back |
| `ConfigFile.SpoiledKeyDropsOne` | internal/wg/manager.go:230-236 | Making one PublicKey value undecodable drops exactly that peer |
| `ConfigFile.ParseBlock` | internal/wg/manager.go:207-251 | One printed peer block adds that peer to the parser state, or nothing if its key is refused |
| `ConfigFile.ParseBlocks` | internal/wg/manager.go:199-256 | Any number of blocks: the surviving peers in order |
| `ConfigFile.ParseHeader` | internal/wg/manager.go:616-620 | The five header lines set the private key and nothing else |
| `ConfigFile.ParseAssignment` | internal/wg/manager.go:214-252 | A printed assignment line is read as that assignment, also with an empty value |
| `ConfigFile.KeyReads` | internal/wg/manager.go:230-237 | A printed key value is accepted as that key |
| `ConfigFile.NetReads` | internal/wg/manager.go:238-245 | A printed AllowedIPs value yields exactly that network |
| `ConfigFile.IntervalReads` | internal/wg/manager.go:246-249 | A printed keepalive yields that number of seconds |
| `ConfigFile.Print` | internal/wg/manager.go:615-638 | The printing loops write exactly the specified text |
| `ConfigFile.PrintPeer` | internal/wg/manager.go:628-638 | One turn of the printing loop appends one block, without a keepalive line for interval 0 |
| `ConfigFile.PrintHeader` | internal/wg/manager.go:616-620 | The header lines |
| `ConfigFile.Scan` | internal/wg/manager.go:194-256 | The scanning loop with its current peer, flushes and skipped peers computes the line-by-line parse |
| `ConfigFile.ReadNets` | internal/wg/manager.go:239-245 | The inner loop appends the parsable networks and skips the others |
| `WsHub.Hub.Register` | internal/control/ws_hub.go:53-57 | The registration section |
| `WsHub.Hub.Unregister` | internal/control/ws_hub.go:60-70 | A client still in the table is removed, its channel closed and its user's counter lowered, the entry dropped at zero; any other client changes nothing |
| `WsHub.Hub.SendAll` | internal/control/ws_hub.go:80-89 | The read-locked loop serves exactly the addressed clients with room and returns exactly the others, never sending on a closed channel |
| `WsHub.Hub.Evict` | internal/control/ws_hub.go:90-98 | A dead list that may be out of date or name a client twice removes and closes exactly its live clients, each once; counters stay |
| `WsHub.Hub.Broadcast` | internal/control/ws_hub.go:136-173 | One uninterrupted broadcast: who is served, who is evicted |
| `HubRuns.EveryRunKeeps` | internal/control/ws_hub.go:50-173 | The invariant of channels, dead lists, streams and counters is kept by every interleaving of event loop, user broadcasts and handlers |
| `HubRuns.NeverPanics` | internal/control/ws_hub.go:50-173 | In every interleaving no channel is closed twice or sent on after it was closed; a registered client is in the table or its channel is closed, never both |
| `HubRuns.StreamsAreExact` | internal/control/ws_hub.go:73-99 | Between broadcasts each live client has received exactly the broadcasts processed since it registered, in order, and no user message meant for others |
| `HubRuns.OnlyTheLoopSends` | internal/control/ws_hub.go:73-99 | Without user broadcasts the whole stream of a live client is the log from its registration on |
| `HubRuns.CountersAreExact` | internal/control/ws_hub.go:53-98 | A user's counter is live clients plus evicted clients, with an entry exactly when positive; it is the live count if and only if none of the user's clients was evicted |
| `HubRuns.ConnectionLimit` | internal/control/ws_hub.go:106-122 | With at most k handlers between check and registration, clients plus those handlers stay within limit + k - 1 in every run, globally and per user |
| `HubRuns.LimitFromStart` | internal/control/ws_hub.go:222-239 | The same from the empty hub; one handler at a time makes the limit exact |
| `HubLimit.LimitKeptIff` | internal/control/ws_hub.go:106-122 | For every limit, of all connections or of one user's under a fixed plan: it holds in all runs with at most k handlers between check and registration if and only if k <= 1 |
| `HubLimit.RushOvershoots` | internal/control/ws_hub.go:222-235 | For every limit >= 1 and every k >= 1 a schedule with at most k such handlers reaches limit + k - 1 connections |
| `HubRuns.TheRaceIsReal` | internal/control/ws_hub.go:222-235 | Two handlers that both pass the check before either registers exceed a limit of one |
| `HubRuns.LockedOut` | internal/control/ws_hub.go:90-98 | A user evicted as often as the plan allows connections is refused in every later run |
| `HubRuns.OneFullChannel` | internal/control/ws_hub.go:90-98 | The concrete run: one full channel, nobody connected, and the user is over a limit of one |
| `HubCalls.UserMessagesAreExact` | internal/control/ws_hub.go:136-173 | In every interleaving, when no call is under way, the messages to named users that a connected client received are those of exactly the calls that named its user while it was connected, each once |
| `HubCalls.EveryRunDelivers` | internal/control/ws_hub.go:136-173 | The invariant behind it: at every point a connected client has every call meant for it, or a caller has still to send to it or to evict it |
| `HubCalls.InCallOrder` | internal/control/ws_hub.go:149-160 | If no two calls send at the same time every client gets their messages in the order of the calls |
| `HubCalls.BroadcastReaches` | internal/control/ws_hub.go:73-173 | One uninterrupted message: every addressed client with room gets it at the end of its stream, every addressed client without room is removed and closed, and nothing else changes |
| `HubCalls.CallReaches` | internal/control/ws_hub.go:136-173 | The same of the fine-grained steps of one call to named users |
| `HubRuns.UninterruptedIsBroadcast` | internal/control/ws_hub.go:136-173 | The fine-grained steps of one call, uninterrupted, give what Hub.Broadcast gives |
| `HubRuns.SendsDeliverAll` | internal/control/ws_hub.go:151-160 | The single sends in any order amount to serving the set of clients with room |
| `HubRuns.SendKeeps` | internal/control/ws_hub.go:82-88 | A single send or failed send keeps the invariant while other loops are sending |
| `HubRuns.RegisterKeeps` | internal/control/ws_hub.go:53-57 | Registration under the write lock keeps it |
| `HubRuns.UnregisterKeeps` | internal/control/ws_hub.go:60-70 | Unregistration keeps it, also of an evicted client |
| `HubRuns.EvictKeeps` | internal/control/ws_hub.go:163-171 | Applying a dead list computed earlier keeps it |
| `Breaker.CircuitBreaker.Allow` | internal/control/core_client.go:177-193 | The three-state machine allows a request exactly when the history has fewer than five failures since the last success or the last of them is more than 30s ago |
| `Breaker.CircuitBreaker.RecordFailure` | internal/control/core_client.go:202-210 | Appends a failure to the history and keeps state and counter tied to it |
| `Breaker.CircuitBreaker.RecordSuccess` | internal/control/core_client.go:195-200 | Appends a success and keeps state and counter tied to the history |
| `Breaker.StaysAllowed` | internal/control/core_client.go:177-193 | Once allowed, every caller stays allowed until the next failure is recorded: half-open adds nothing observable and does not limit probes |
| `Breaker.CoreDoWithRetry` | internal/control/core_client.go:214-255 | The retry loop records, sends and returns what the round-by-round specification says, for all answers, and sends at most three requests |
| `Breaker.CallInTurn` | internal/control/core_client.go:214-255 | Callers one after the other on one breaker send exactly the specified requests; for a host that never answers below 500 these are five requests, a refusal, and then requests more than 30s apart |
| `Breaker.AllowedIff` | internal/control/core_client.go:177-210 | The breaker lets a request through if and only if one of the last five outcomes was a success, there were fewer than five, or the last failure is more than 30 seconds ago |
| `Breaker.CallEnds` | internal/control/core_client.go:214-255 | For all answers: a call fails in its first n rounds, each without a response or with a status of at least 500, one request and one recorded failure each; then the rounds are used up, the breaker refuses, or a status below 500 is returned and a success recorded |
| `Breaker.ResponseIff` | internal/control/core_client.go:233-252 | The caller gets a response with a status if and only if, after failed rounds only, a round that is let through is answered with that status and it is below 500 |
| `Breaker.Backoff` | internal/control/core_client.go:234-248 | The second request comes at least half a second after the first failed, the third at least a second after the second |
| `Breaker.AtMostThree` | internal/control/core_client.go:218 | A call sends no more requests than it has rounds |
| `Breaker.ThreeRounds` | internal/control/core_client.go:214-255 | What a call on an always-failing host sends, records and where it is refused |
| `Breaker.FiveThenRefused` | internal/control/core_client.go:25-31 | From a success on, two failing calls send exactly five requests and then comes the first refusal |
| `Breaker.OneProbe` | internal/control/core_client.go:177-193 | After the fifth failure a call sends one request if the last failure is more than 30s ago, else none |
| `Breaker.ThenSpaced` | internal/control/core_client.go:177-210 | From then on, over any number of calls, consecutive requests are more than 30s apart |
| `Breaker.RequestBound` | internal/control/core_client.go:214-255 | The whole bound for sequential callers: five requests, the first refusal, then more than 30s between requests |
| `Slots.Store.ReserveSlot` | internal/repo/server.go:173-185 | Takes one slot exactly if the server is active and below capacity |
| `Slots.Store.UpdatePeerCount` | internal/repo/server.go:164-169 | Adds to the counter and never lets it go below zero |
| `Slots.Store.Create` | internal/repo/peer.go:22-31 | Inserts the active row exactly if the key is not active on that server already |
| `Slots.Store.Connect` | internal/control/handler.go:347-455 | An active peer of the same user and key is returned if its row and its server can be read; else the first failing check of device limit, slot, core and insert decides the reply; every failure after the reservation leaves the tables as they were, unless giving the slot back fails |
| `Slots.Store.TearDown` | internal/control/handler.go:504-571 | Disconnect decrements for any row found, the other handlers only for an active one; then the row is deactivated or deleted; each statement may fail without stopping the handler |
| `Slots.Store.TearDownAll` | internal/control/jobs.go:183-196 | The ban and cleanup loop does to the tables what tearing down the listed rows one after the other does, whichever statements fail |
| `Slots.LoopTearsDown` | internal/control/jobs.go:183-196 | With deactivations that work the loop deactivates exactly the listed peers and keeps every counter covering its active peers |
| `Slots.ConnectCreatesIff` | internal/control/handler.go:377-455 | A new device is created if and only if the user has fewer than the limit, the server is active with a free slot, the core adds the peer and the key is not active there; which reply says device limit or full |
| `Slots.ConnectTakesOne` | internal/control/handler.go:413-455 | A Connect adds one to its server's counter and its row, and nothing else; one that fails leaves both as they were unless the rollback fails |
| `Slots.DeviceLimitKept` | internal/control/handler.go:377-390 | A Connect running alone never takes its user above the device limit, and leaves other users' devices alone |
| `Slots.TearDownGivesBack` | internal/control/handler.go:524-571 | A teardown lowers its server's counter by one if positive, for an active peer always and for an inactive one only on Disconnect, and deactivates or deletes exactly that row |
| `Slots.LoopGivesBack` | internal/control/jobs.go:183-196 | The ban and cleanup loop on different active peers lowers every counter by the number of its peers, down to zero at most |
| `Slots.CoveredIff` | internal/control/handler.go:524-531 | A teardown running alone keeps "active peers <= current_peers <= max_peers" exactly when it does not lower the counter of a server without slack and leave its active peers as they were: a Disconnect of an inactive peer, or a failing last statement |
| `Slots.ActiveAfterTearDown` | internal/control/handler.go:524-571 | A teardown whose last statement works takes the peer out of its server's active peers; no other server's active peers change |
| `Slots.CoveredAfterConnect` | internal/control/handler.go:413-455 | A Connect running alone keeps it |
| `Slots.DisconnectTwiceOverfills` | internal/control/handler.go:504-531 | The concrete run: two disconnects of one peer and two connects put three active peers on a server for two |
| `SlotRuns.EveryRunAccounts` | internal/control/handler.go:413-531 | In every interleaving: counter + decrements = reservations in flight + active peers + deactivations + decrements at zero + failed rollbacks; decrements + uncounted deactivations = deactivations + teardowns between their two statements + teardowns that ended without a deactivation; the counter stays in 0..max, keys stay unique per server |
| `SlotRuns.CapacityBound` | internal/control/handler.go:413-531 | From empty tables, active peers and reservations in flight exceed max_peers by at most decrements minus deactivations, by exactly how much, and what that difference is made of |
| `SlotRuns.UninterruptedIsTearDown` | internal/control/handler.go:504-571 | The three statements of a teardown with nothing in between do to the tables what the handler running alone does |
| `SlotRuns.UninterruptedIsConnect` | internal/control/handler.go:413-455 | So do the statements of a Connect that passes the device limit |
| `SlotRuns.OverfillIff` | internal/repo/server.go:164-185 | From any state, further reservations can take an active server above max_peers if and only if teardowns under way and teardowns that ended without a deactivation outnumber uncounted deactivations, decrements at zero and failed rollbacks |
| `SlotRuns.OutnumberedBy` | internal/control/handler.go:504-571 | With statements that work, after any interleaving decrements exceed deactivations by exactly the teardowns between their two statements and those that ended on a row inactive already or gone |
| `SlotRuns.BehindIff` | internal/control/handler.go:504-571 | With statements that work, decrements never exceed deactivations by more than the teardowns under way, at every point of a run, if and only if no counted teardown ends on a row inactive already or gone |
| `SlotRuns.OverlappingDeletesOverfill` | internal/control/handler.go:538-571 | The concrete run: two overlapping deletions of one active peer and two connects put three active peers on a server for two |
| `SlotRuns.ExclusiveCapacity` | internal/control/handler.go:524-531 | If each teardown starts on an active peer nobody else is tearing down and ends with the row deactivated, the excess is at most the teardowns between their two statements |
| `SlotRuns.EffectKeeps` | internal/repo/server.go:164-185 | Every single statement keeps the accounts |
| `SlotRuns.ExclusiveStep` | internal/repo/peer.go:210-218 | Every single statement of such a run keeps teardowns apart and on active rows, so none ends without a deactivation |
| `DeviceLimit.LimitKeptIff` | internal/control/handler.go:377-455 | For every user and every device limit: it holds in all interleavings with at most k Connects of the user between count and creation if and only if k <= 1 |
| `DeviceLimit.DeviceBound` | internal/control/handler.go:377-455 | With at most k such Connects, in every interleaving with everything else, devices and these Connects stay within limit + k - 1 |
| `DeviceLimit.RushOvershoots` | internal/control/handler.go:377-455 | For every limit a schedule with at most two such Connects reaches limit + 1 devices |
| `DeviceLimit.NextTotal` | internal/control/handler.go:377-455 | Only a count that passes raises the devices and the Connects that may still create one; creating uses the Connect up |
| `RateLimit.Limiter.Cleanup` | internal/api/refresh_ratelimit.go:68-79 | The deleting loop removes exactly the entries idle for longer than the window |
| `RateLimit.InvisibleIff` | internal/api/ratelimit.go:39-66 | No schedule of requests and cleanups can tell the table from one that never evicts, if and only if burst <= rate x window |
| `RateLimit.SimilarRuns` | internal/api/refresh_ratelimit.go:53-79 | Under that condition both tables answer every schedule alike |
| `RateLimit.EvictionShows` | internal/control/user_ratelimit.go:51-62 | Otherwise spending the burst, waiting for the cleanup and spending it again is answered differently |
| `RateLimit.IdleIsFull` | internal/api/refresh_ratelimit.go:73-75 | An entry idle for longer than the window has a full bucket under that condition |
| `RateLimit.AdmissionBound` | internal/api/refresh_ratelimit.go:53-79 | Any interval of length L of any run admits at most burst + rate x L requests of a key, across evictions |
| `RateLimit.AdmittedBelow` | internal/api/refresh_ratelimit.go:53-65 | Without eviction a key is admitted at most what its bucket holds plus what flows in |
| `RateLimit.AdmittedIffItFits` | internal/api/refresh_ratelimit.go:53-79 | The answers for a key are determined by its request times, across evictions: a request is admitted if and only if with it every interval from an earlier request, or now, up to now admits at most burst + rate x length |
| `RateLimit.RefusalTakesNothing` | internal/api/refresh_ratelimit.go:53-65 | A refused request leaves the key's level as it was, now and at every later time |
| `RateLimit.AdmittedAfterPause` | internal/api/refresh_ratelimit.go:53-79 | A request 1/rate or more after the key's last admitted one is admitted, whatever was refused or evicted in between |
| `RateLimit.BurstIsAdmitted` | internal/api/refresh_ratelimit.go:53-79 | A request with fewer than burst admitted ones before it is admitted |
| `RateLimit.RefreshAdmits` | internal/api/refresh_ratelimit.go:97-99 | A refresh token is redeemed if fewer than 10 redemptions came before, or none within the last 30 s |
| `RateLimit.EntryKeptIff` | internal/api/refresh_ratelimit.go:68-79 | A sweep keeps exactly the entries asked for within the window, admitted or refused |
| `RateLimit.ForgottenAfter` | internal/api/refresh_ratelimit.go:68-79 | The windows of the three tables are 30, 3 and 10 minutes |
| `RateLimit.RefreshBound` | internal/api/refresh_ratelimit.go:97-99 | A refresh token is redeemed at most 10 + L/30s times in any interval of length L |
| `RateLimit.ConfiguredTables` | internal/control/user_ratelimit.go:35-62 | The condition for the two configurable tables, and that the default settings and the refresh table meet it |
| `Mesh.MeshRepo.NextAvailableSubnet` | internal/repo/mesh.go:73-99 | The lowest-numbered 10.200.i.0/24 that no mesh uses |
| `Mesh.FindUnused` | internal/repo/mesh.go:92-98 | The candidate loop returns the lowest unused number |
| `Mesh.LowestIsLowest` | internal/repo/mesh.go:171-182 | The number found is unused and all lower candidates are used; none is found only if all are used |
| `Mesh.MeshRepo.AddMember` | internal/repo/mesh.go:413-447 | One transaction: the next free host of the mesh for a new member, or an error and no change |
| `Mesh.MeshRepo.CreateSession` | internal/repo/mesh.go:208-226 | Inserts the mesh, or returns the owner's existing session mesh and changes nothing |
| `Mesh.MeshRepo.Delete` | internal/repo/mesh.go:386-389 | Removes the mesh and its members |
| `Mesh.MeshRepo.ListByUser` | internal/repo/mesh.go:305-340 | Each mesh the user owns or belongs to, once |
| `Mesh.MeshRepo.EnsureAutoMesh` | internal/control/mesh_handler.go:521-592 | The loop over the listed meshes with its deletions, joins and early returns computes the specified database and reply |
| `Mesh.MeshRepo.Reuse` | internal/control/mesh_handler.go:540-556 | The branch for an existing valid session mesh |
| `Mesh.MeshRepo.Provision` | internal/control/mesh_handler.go:560-591 | The branch that chooses a subnet, creates and joins, and deletes the mesh again if joining fails |
| `Mesh.IsValidCountryCode` | internal/control/mesh_handler.go:388-398 | Two letters A-Z other than XX |
| `MeshRuns.EnsuredHasSession` | internal/control/mesh_handler.go:521-592 | After success the user has exactly one session mesh, it is valid and has the user as a member under the returned address |
| `MeshRuns.ProvisionAnswers` | internal/control/mesh_handler.go:560-591 | Without a session mesh to reuse the call fails only for an unknown country or when no subnet is left, and changes nothing then; otherwise there is a new mesh on the lowest free /24 with the user on its first host, and created = true |
| `MeshRuns.ReuseAnswers` | internal/control/mesh_handler.go:540-556 | A reused session mesh keeps its row except for country and origin when the origin changed and its country is known; created = false; a failed join changes nothing |
| `MeshRuns.EnsuredIs` | internal/control/mesh_handler.go:530-558 | An active session mesh with a valid country is reused, any other is removed before a new one is provisioned |
| `MeshRuns.RepeatReturnsTheSame` | internal/control/mesh_handler.go:532-557 | A repeat call from any origin returns the same mesh and mesh IP with created = false and changes no membership |
| `MeshSteps.SessionKeptIff` | internal/control/mesh_handler.go:521-592 | Any statement of any user keeps a user's session mesh, membership and mesh IP if and only if it does not drop the mesh, take the user out of it, or is the user's own call with a failing listing that gets as far as joining |
| `MeshSteps.SessionLastsIff` | internal/control/mesh_handler.go:521-592 | So over whole runs: the session lasts at every point if and only if no statement is one of these |
| `MeshSteps.RepeatAfterARun` | internal/control/mesh_handler.go:532-557 | A repeat call after any such run of others' and own statements returns the same mesh and mesh IP with created = false |
| `MeshRuns.ListFailure` | internal/control/mesh_handler.go:530-531 | When ListByUser fails the existing session mesh survives exactly if the call stops before joining or the user was not a member and could join; a member's mesh is deleted |
| `MeshRuns.AddAnswers` | internal/repo/mesh.go:413-447 | Joining answers no mesh, full, already a member, in this order and without a change, and otherwise the lowest free host |
| `MeshRuns.LowestFreeHost` | internal/repo/mesh.go:146-183 | AddMember hands out the lowest free host .2 to .254 and is refused as full only if all are taken |
| `MeshRuns.AddressesDistinct` | internal/repo/mesh.go:413-447 | No two memberships share a mesh IP text, within a mesh or across meshes, when every mesh has a subnet of its own |
| `MeshSteps.AddressesSafeIff` | internal/repo/mesh.go:73-99 | Over every interleaving of choosing, creating, joining, leaving and deleting: all mesh addresses are distinct at every point and stay so whoever joins and leaves, if and only if no statement creates a mesh on a subnet that is in use at that moment |
| `MeshSteps.RunPlacedIff` | internal/repo/mesh.go:186-202 | Every mesh has a /24 of its own at every point of a run if and only if there is no such statement |
| `MeshRuns.InsertedIff` | internal/repo/mesh.go:186-202 | Inserting a mesh on a chosen /24 leaves every mesh a subnet of its own if and only if that subnet is unused at that moment |
| `MeshSteps.SharedIsUnsafe` | internal/repo/mesh.go:146-183 | Two meshes on one subnet: members can leave and join so that two memberships get the same address |
| `MeshSteps.AddressesNeverCollide` | internal/control/mesh_handler.go:521-592 | From an empty database addresses are distinct after every run in which each provisioning call is one step |
| `MeshSteps.AdjacentDoesNotClash` | internal/control/mesh_handler.go:565-580 | A subnet chosen by the statement just before is not in use |
| `MeshSteps.OverlappingChoiceClashes` | internal/control/mesh_handler.go:565-586 | When two users choose before either creates, the second creation clashes |
| `MeshSteps.AddressesAreInMesh` | internal/repo/mesh.go:171-182 | Every mesh IP of a database in which meshes have subnets of their own parses and lies in 10.200.0.0/16, as the WireGuard manager expects |
| `MeshRuns.InsertedPlaced` | internal/repo/mesh.go:73-99 | A mesh created on the subnet just chosen has that subnet to itself |
| `MeshRuns.AddedPlaced` | internal/repo/mesh.go:413-447 | A join keeps addresses distinct and inside the subnet |
| `MeshRuns.SubnetReads` | internal/repo/mesh.go:93 | The formatted subnet parses back as that /24, and its hosts are the addresses 10.200.i.h |
| `IntrospectionCache.TokenCache.IntrospectTokenCached` | internal/auth/introspection_cache.go:93-134 | A call with nothing in between serves the answer the history allows and otherwise asks the server and keeps the answer while it may be served; the entries become those of one Ask step; the empty token always asks |
| `IntrospectionCache.TokenCache.Remember` | internal/auth/introspection_cache.go:107-132 | The second half of a call keeps the answer for its TTL, and not at all if none is left |
| `IntrospectionCache.TokenCache.Invalidate` | internal/auth/introspection_cache.go:80-88 | Forgets the token; the empty token changes nothing |
| `IntrospectionCache.TokenCache.Set` | internal/auth/introspection_cache.go:63-76 | Stores the entry and, above 2048 entries, the loop removes exactly the expired ones |
| `IntrospectionCache.CachedAnswerIsBacked` | internal/auth/introspection_cache.go:93-134 | Every cached answer is the server's last answer for that token, at most five minutes old (ten seconds for a failure), not served after exp - 30s, and not invalidated since |
| `IntrospectionCache.ServedUntilExpiry` | internal/auth/introspection_cache.go:50-61 | An answer that may be kept is served until its time is up and not longer |
| `IntrospectionCache.ServedWhile` | internal/auth/introspection_cache.go:50-134 | The server's last answer for a token is served for exactly ten seconds if a failure, and otherwise for exactly five minutes but not later than 30 seconds before exp |
| `IntrospectionCache.StoreIsBounded` | internal/auth/introspection_cache.go:63-76 | After a store the cache has at most 2048 entries or no expired one, and lost none that had not expired |
| `IntrospectionCache.InvalidateForcesFresh` | internal/auth/introspection_cache.go:80-88 | After an invalidation the next call for that token asks the server |
| `IntrospectionCache.SweepIsInvisible` | internal/auth/introspection_cache.go:66-74 | With or without the size sweep every call of every run gets the same answer, for the steps the methods are proved to make |
| `IntrospectionCache.SweepKeeps` | internal/auth/introspection_cache.go:66-74 | The sweep removes nothing that could still be served |
| `IntrospectionCache.StoreKeeps` | internal/auth/introspection_cache.go:129-132 | Storing an answer keeps the cache equal to the history |
| `IntrospectionCache.NotStoredKeeps` | internal/auth/introspection_cache.go:123-127 | Not storing an answer near its exp leaves nothing older to be served |
| `CacheRuns.EveryRunServes` | internal/auth/introspection_cache.go:50-134 | In every interleaving of starting calls, server answers and invalidations the cache serves exactly what the log of these says |
| `CacheRuns.StandingIsServedIff` | internal/auth/introspection_cache.go:93-134 | In every interleaving the answer that stands for a token is served if and only if its ten seconds or five minutes are not over and exp is more than 30 seconds away |
| `CacheRuns.HitIsBacked` | internal/auth/introspection_cache.go:93-134 | In every interleaving a cached answer was given by the server for that token at most five minutes ago (ten seconds for a failure), is not served after exp - 30s, and nothing kept or invalidated it since |
| `CacheRuns.InvalidateEffectiveIff` | internal/auth/introspection_cache.go:80-88 | After any run, nobody is ever served what a call started before an invalidation brought, if and only if no such call stores an answer with positive TTL after it |
| `CacheRuns.OverlappingInvalidateIsLost` | internal/auth/introspection_cache.go:107-132 | The concrete interleaving: a call waits for the server, the token is invalidated, the call's answer is then served |
| `CacheRuns.UninterruptedIsAsk` | internal/auth/introspection_cache.go:93-134 | A call with nothing between its halves is the call the method is proved to make |

## Left out

- IpPool.Pool.constructor: covers prefix lengths /1 to /31; IpPool.NewFitsIff says that exactly these fit. The source panics on a /0 network, which gets no word. On /32 it marks offset 1, which is outside, and IpPool.FirstAllocation is what its first Allocate does; further operations on a /32 pool are left out. The CIDR text is parsed by the caller.
- IpPool.Pool.Release: text of an IPv4-mapped IPv6 address ("::ffff:10.8.0.5"), which net.ParseIP and To4 accept, is no address in this model.
- IpPool.Pool.Reserve: the same holds for the text given to Reserve.
- IpPool.OffsetExact: the same; of dotted-quad text it is exact.
- Ipv4.FormatParse: stated of dotted-quad text; IPv4-mapped text parses in the source and does not print as itself.
- Manager.Manager.AddPeer: the keepalive is the kernel's 16-bit number of seconds.
- Manager.Manager.UpdatePeer: the same.
- Manager.Manager.AddMeshIP: IPv6 text, IPv4-mapped text included, is not an address in this model; the pool network is assumed disjoint from 10.200.0.0/16.
- Manager.RestoreFromConfig: a failing ConfigureDevice or ip command ends the start with an error and no manager, which is not modelled; the generated key is an input, and the file that a restore without a readable key writes is that of Manager.FreshStart.
- Manager.ColdStart: the restored manager matches its file only if the configured port is the one in the file; otherwise the next change that can write the file makes it match (Manager.Call).
- ConfigFile.Scan: IPv6 networks, and white space beyond ASCII, U+0085 and U+00A0, are not modelled; a keepalive too large for a duration is kept as a number.
- HubRuns.ConnectionLimit: the plan limit of a user is fixed during a run; how it is computed from groups is left out.
- WsHub.Hub.SendAll: the 64-entry channel buffers are not modelled; whether a channel has room is decided by the environment at each send. The writer and reader goroutines of a connection are left out.
- Breaker.RequestBound: sequential callers only; the host map and response bodies are left out.
- Slots.Store.Connect: the calls to the core are left out, apart from whether the peer is added; counting the user's devices and finding the server succeed.
- SlotRuns.CapacityBound: max_peers and is_active of servers are fixed; the stats-sync overwrite of current_peers, server edits and cascading deletes are left out, and so is which peers count as stale; a new row id is taken to differ from all rows and from those a teardown still works on.
- RateLimit.Limiter.Allow: looking up the bucket and taking a token are one step also for the per-IP table; floating-point and nanosecond rounding are left out.
- Mesh.MeshRepo.EnsureAutoMesh: database calls other than ListByUser succeed; the country is an input; names, invite codes, member limits, session timestamps and flags are left out, and so is the session cleanup job.
- IntrospectionCache.TokenCache.IntrospectTokenCached: one clock reading per call; SHA-256 keys are taken as injective; the HTTP introspection itself is an input.
- HTTP routing, JSON, authentication, audit logs, ip and iptables calls, statistics, proxy slots and the exit-node code are not part of this model.
