# TransfertApp core, modelled in Dafny

TransfertApp stores files across storage nodes ("slaves"). A coordinator
server does three jobs:

- it discovers the nodes by UDP broadcast;
- it cuts every uploaded file into one partition per node;
- it reassembles the file on download by asking each node for its partitions.

This project models four parts of it:

- the coordinator's bookkeeping, in `coordinator.dfy`, with the pure
  specifications it is proved against in `coordinator_state.dfy`,
  `upload_plan.dfy` and `download_plan.dfy`. It covers the node registry
  `connectedSlaves` and the partition catalog `filePartitions`, updated in
  place by the handlers of the `Server` class.
- the storage node's command handlers over its directory, in `slave.dfy`.
- the discovery beacon, in `broadcast_slaves.dfy`, and the handshake between
  beacon and coordinator, in `discovery.dfy`.
- the configuration file reader, in `network_config.dfy`.

Shared pieces:

- Java's `split`, `trim`, `toUpperCase`, `replace`, `Integer.parseInt` and
  decimal formatting are modelled in `java_strings.dfy`.
- The partition file name `fileName + ".part" + n` is modelled in
  `naming.dfy`.
- Data streams are sequences of written tokens, in `streams.dfy`.

Peers are oracles passed in as parameters:

- the size a node reports;
- what a node answers to RETRIEVE_PARTITION;
- which connection of an upload fails.

The clock is a parameter `now`. A node's disk is a map from file name to
bytes. The configuration file is its sequence of lines.

The model follows the code as written, quirks included:

- Upload gives each pass two connections. So partition k ends up owned by
  node min(k, n-1) (0-based): the second connection of a pass overwrites the
  owner the first one recorded. With more than one node, node 0 keeps no
  partition. Every registry entry carries the address it is registered
  under, so the nodes of an upload have distinct addresses.
- The partition size P is `fileSize / n`, and connection s carries the
  s-th P-byte chunk of the stream. When fileSize ≥ n (so P > 0):
  - With more than one node, the first chunk goes only to node 0. Node 0
    owns no partition, so those bytes are never read back.
  - The last connection carries every byte from (2n-2)·P to the end, so no
    byte is left on the stream.
  - With two nodes, the recorded owner holds everything but the first P
    bytes.

  When fileSize < n, P is 0: every connection forwards nothing, and the
  whole file is left unread on the stream.
- A failed upload leaves the keys it already wrote in the catalog. Nothing
  is rolled back.
- Download collects every key that *contains* `name + ".part"`. Each matched
  key repeats the whole file once.
- Delete finds a file by a key that *starts with* the name, but removes only
  the keys whose prefix *equals* it.
- A listed name or a catalog key that makes `split(...)[k]` or `parseInt`
  throw a RuntimeException ends the handler. Only IOException is caught. The
  model reports this as `crashed`, with the state as far as it got.

## Model

| member | source | states |
|---|---|---|
| Coordinator.Server.constructor | server/Server.java:22-26 | the registry and the catalog start empty and the server is stopped; the registry starts keyed by address |
| Coordinator.Server.StartServer | server/Server.java:78-95 | the server runs once the socket binds; a running server stays running; no map changes |
| Coordinator.Server.StopServer | server/Server.java:678-703 | stopping a running server clears both maps unless closing the socket raises, which leaves them; stopping a stopped one changes nothing; the server is stopped afterwards in every case; a registry keyed by address stays so |
| CoordinatorState.ParseAnnouncement | server/Server.java:144-146 | a datagram is ignored exactly when it does not start with the ready tag; a port read from it is a 32-bit integer |
| Coordinator.Server.HandleAnnouncement | server/Server.java:141-148 | ignored datagrams change nothing; a malformed one ends discovery; a ready one has exactly the effect of updateSlaveInfo with the parsed port; a registry keyed by address stays so |
| CoordinatorState.RegistryStaysKeyed | server/Server.java:159-161 | registering or refreshing a node, and dropping stale ones, keep every entry under its own address |
| Coordinator.Server.UpdateSlaveInfo | server/Server.java:158-206 | the new registry is `Announced` and the new catalog is `Catalogued` over the names read before the first unparsable one; it crashes exactly when such a name exists; a registry keyed by address stays so |
| CoordinatorState.ReadableCount | server/Server.java:176-186 | counts the names before the first one whose catalog entry cannot be built; every earlier one can be |
| CoordinatorState.ListingStep | server/Server.java:176-185 | processing one more listed name rebinds exactly that name's key, or stops at the first unparsable name |
| CoordinatorState.AnnouncedEntryShape | server/Server.java:159-177 | the announcing node's entry is the found or new entry with lastSeen refreshed and the read names appended, including the one that crashed |
| CoordinatorState.AnnouncementEffect | server/Server.java:158-186 | the first announcement's port is kept; later ones only refresh lastSeen; every read name is appended without dedup; other nodes are untouched |
| CoordinatorState.CataloguedEntries | server/Server.java:176-186 | after a listing the catalog keys are the old keys plus the listed names; each listed name maps to its fresh entry; other keys are unchanged |
| CoordinatorState.ReportedPartitionEntry | server/Server.java:180-183 | a reported `f.partK` becomes an entry named after "K" whose only mapping is K to the reporting node |
| Coordinator.Server.CheckSlaveHealth | server/Server.java:208-217 | the registry keeps exactly the fresh nodes; every owner mapping that names a stale node is dropped; a registry keyed by address stays so |
| CoordinatorState.PrunedStep | server/Server.java:210-216 | visiting one more node removes it exactly when `now - lastSeen > timeout` |
| CoordinatorState.DisownedStep | server/Server.java:213-215 | disowning the nodes one at a time, in any order, gives the same catalog as disowning them all at once |
| CoordinatorState.DisownedTwice | server/Server.java:219-224 | two rounds of disowning equal one round over the union of the two node sets |
| CoordinatorState.HealthCheckEffect | server/Server.java:208-224 | an entry at exactly the timeout survives; survivors are unchanged; catalog keys are kept; every remaining owner was an owner before and is not stale |
| Coordinator.Server.HandleSlaveDisconnection | server/Server.java:219-225 | every owner mapping naming the node is dropped; nothing else changes |
| Coordinator.Server.HandleClient | server/Server.java:249-278 | UPLOAD answers SUCCESS only when every connection was made and leaves `Uploaded` for the connections made; DOWNLOAD answers false for no name or no match, crashes exactly on an unreadable match, and otherwise answers `DownloadReply`; LIST_FILES crashes exactly on an unlistable key and otherwise lists each name once, then END_OF_LIST; DELETE_FILE answers ERROR with no change when no key starts with the name, SUCCESS and `AfterDelete` when the catalog is listable, and nothing (with a partial removal) when it is not; other commands get no answer |
| Coordinator.Server.HandleFileUpload | server/Server.java:280-367 | an empty registry writes nothing and fails; otherwise the catalog is `Uploaded` after the connections made, the store orders are `Orders`, and it succeeds exactly when all 2n-1 connections were made |
| Coordinator.Server.AvailableSlaves | server/Server.java:285-291 | the registry's entries, each address once, in the map's own order; in a registry keyed by address the nodes have distinct addresses |
| Coordinator.Server.DistributePartitions | server/Server.java:298-366 | the placement loop makes `Connections(failAt, 2n-1)` connections, sends `Orders` and leaves `Uploaded` in the catalog |
| Coordinator.Server.StorePartition | server/Server.java:305-322 | one connection forwards the next chunk, records its node as owner of its partition and binds the key to the shared entry |
| UploadPlan.PlacementStep | server/Server.java:305-363 | one connection carries the invariant of the placement loop to the next connection |
| UploadPlan.OwnersStep | server/Server.java:319-360 | each connection overwrites the owner of its partition number with its node |
| UploadPlan.KeysStep | server/Server.java:321-362 | each connection adds the key `name.partK` of its partition |
| UploadPlan.ConsumedIsProduct | server/Server.java:314-318 | after s connections, min(s * size, available) bytes of the client stream are consumed |
| UploadPlan.OrdersShape | server/Server.java:305-363 | the s-th store order goes to node (s+1)/2 with partition s/2+1 and the s-th chunk |
| UploadPlan.TwoSendsPerPass | server/Server.java:298-366 | pass i connects to nodes i and i+1 for partition i+1; the last pass makes one connection; there are 2n-1 connections in all |
| UploadPlan.CompleteUploadOwners | server/Server.java:319-362 | after a full upload, partition k is owned by node min(k, n-1), totalParts is n, and the keys are `name.part1..name.partn` |
| UploadPlan.ChunkIsSlice | server/Server.java:314-318 | with enough input, the s-th chunk is exactly bytes s*size up to (s+1)*size |
| UploadPlan.FirstChunkOrphaned | server/Server.java:291-342 | with n ≥ 2 nodes, connection 0 sends the first P bytes as partition 1 to node 0; every later connection and every recorded owner is a later node, so distinct-address node 0 owns nothing |
| UploadPlan.FirstNodeOwnsNothing | server/Server.java:318-340 | with n ≥ 2 nodes of distinct addresses, no recorded owner is node 0 |
| UploadPlan.TailFitsOneChunk | server/Server.java:291-292 | with P = L div n > 0, at most P bytes of L remain past byte (2n-2)·P |
| UploadPlan.LastConnectionCarriesTail | server/Server.java:322-342 | when fileSize ≥ n (P > 0), the last connection sends partition n to node n-1 with every byte from (2n-2)·P to the end; with two nodes that is the `fileSize mod 2` remainder |
| UploadPlan.ShortFileForwardsNothing | server/Server.java:291-342 | when fileSize < n, P is 0 and every connection forwards no byte, so the whole file is left on the stream |
| UploadPlan.TwoNodeUploadLosesHead | server/Server.java:297-342 | with two nodes and a file of at least two bytes, both partitions are owned by node 1, which holds bytes P..end, while bytes 0..P went to node 0 alone |
| UploadPlan.NoRollback | server/Server.java:298-366 | the catalog after c connections holds the old keys plus the keys written so far, all bound to the one shared entry; nothing is removed |
| UploadPlan.UploadKeysReadBack | server/Server.java:321 | every written key splits back into the file name and its partition number |
| UploadPlan.UploadedFileIsListed | server/Server.java:517-532 | after a partial or full upload, LIST_FILES shows the file's name |
| UploadPlan.UploadThenDelete | server/Server.java:567-576 | deleting the uploaded name removes every key the upload wrote |
| Coordinator.Server.CopyPartitionData | server/Server.java:378-389 | forwards exactly the first min(size, available) bytes, in chunks of 1..BUFFER_SIZE bytes |
| Coordinator.Server.HandleFileDownload | server/Server.java:392-492 | a missing name answers false; it crashes exactly when a matched key has no parsable index; it answers false exactly when no key matches; otherwise the reply is `DownloadReply` |
| Coordinator.Server.CollectMatches | server/Server.java:403-411 | the entries of exactly the keys containing `name.part`, and the set of their indices |
| Coordinator.Server.AnswerDownload | server/Server.java:419-491 | true, then -1 and the partial total when the sizes are incomplete or not positive, else the total and the partitions |
| Coordinator.Server.SizePartitions | server/Server.java:423-470 | the sizes and the completeness flag are those of the `Scan` specification, or the scan stalls |
| DownloadPlan.ScanSizes | server/Server.java:429-470 | the scan only adds positive sizes, each reported for its partition by a recorded owner; a complete scan sizes every partition from 1 to the number of parts |
| DownloadPlan.ScanStallsWithoutOwner | server/Server.java:430-444 | when no collected entry has an owner for the next partition, the size loop never ends |
| Coordinator.Server.ForwardPartitions | server/Server.java:484-491 | the bytes forwarded are the delivery of the plan, in chunks of at most BUFFER_SIZE; it stops at the first failed retrieval |
| Coordinator.Server.ForwardEntry | server/Server.java:486-490 | one matched entry forwards partitions 1..m in ascending order from the owners it records |
| DownloadPlan.PlanOrder | server/Server.java:484-491 | the plan is entry by entry, and each entry asks for partitions 1..m in ascending order from its own owners |
| DownloadPlan.PlanLength | server/Server.java:484-491 | the plan makes m retrievals per matched entry: the file repeats once per matched key |
| DownloadPlan.PlanConcat | server/Server.java:484-491 | the plan of two runs of entries is the concatenation of their plans |
| DownloadPlan.EntryStep | server/Server.java:486-490 | one more retrieval appends the partition's bytes, or fails the delivery |
| DownloadPlan.FailureIsFinal | server/Server.java:507-509 | once a retrieval fails, later ones add nothing |
| DownloadPlan.DeliveryFailsIff | server/Server.java:494-515 | the download aborts exactly when some retrieval of the plan is not found |
| Coordinator.Server.RetrievePartitionFromSlave | server/Server.java:494-515 | a found partition forwards the first min(size, available) bytes of its data in chunks; otherwise nothing is written |
| Coordinator.Server.SendFileList | server/Server.java:517-532 | crashes exactly when some key cannot be split; otherwise each distinct prefix once, then END_OF_LIST |
| Coordinator.Server.DeleteFileAndPartitions | server/Server.java:534-579 | no key starting with the name: false and nothing changes; otherwise one DELETE_PARTITION per owner mapping of the found entry, then exactly the keys whose prefix is the name are removed |
| Coordinator.Server.FindFile | server/Server.java:537-545 | finds an entry exactly when some key starts with the name |
| Coordinator.Server.DeleteOrders | server/Server.java:548-564 | one DELETE_PARTITION per owner mapping, to the owner's address on the slave port |
| Coordinator.Server.RemoveFileKeys | server/Server.java:567-576 | removes exactly the keys whose prefix is the name; a key that cannot be split stops the removal part way, and only doomed keys are gone |
| CoordinatorState.DeleteByPrefixRemovesNothing | server/Server.java:537-576 | deleting a proper prefix of a stored name finds it, yet removes none of its keys |
| Naming.PartitionFileName | slave/Slave.java:186 | the partition file name is the file name, ".part" and the decimal index |
| Naming.PartitionFileNameInjective | slave/Slave.java:186 | distinct (file, index) pairs give distinct partition file names |
| Naming.PartitionNameRoundTrip | server/Server.java:180-182 | a partition file name splits back into its file name and index |
| StorageNode.Slave.constructor | slave/Slave.java:26-41 | the file list starts as the names in the directory |
| StorageNode.Slave.ScanAvailableFiles | slave/Slave.java:90-112 | the file list becomes each stored name exactly once; the disk is unchanged |
| StorageNode.Slave.Handle | slave/Slave.java:140-178 | STORE and DELETE change the disk (a failing delete does not) and rescan; other commands change nothing; each command gets its reply; an unknown command gets none |
| StorageNode.Slave.HandlePartitionStorage | slave/Slave.java:180-207 | the partition file is replaced by the first min(size, available) incoming bytes |
| StorageNode.Slave.HandlePartitionRetrieval | slave/Slave.java:209-244 | a missing partition answers false; a present one answers true, its size, then exactly its bytes in chunks |
| StorageNode.Slave.SendAvailableSpace | slave/Slave.java:246-251 | answers the usable space as one long |
| StorageNode.Slave.SendPartitionsList | slave/Slave.java:253-271 | each stored name once, then END_OF_LIST |
| StorageNode.Slave.SendPartitionSize | slave/Slave.java:273-310 | answers `PartitionSizeReply` |
| StorageNode.PartitionSizeReply | slave/Slave.java:273-310 | the actual size of a present, non-empty, readable partition; otherwise -1 |
| StorageNode.Slave.HandlePartitionDeletion | slave/Slave.java:315-333 | removes the named partition if present; absence is no error; a failing delete leaves the disk unchanged |
| StorageNode.RetrieveAfterStore | slave/Slave.java:186-213 | STORE then RETRIEVE or GET_PARTITION_SIZE with the same (file, index) returns what was stored |
| StorageNode.StoreReplaces | slave/Slave.java:191-203 | a second STORE of the same partition replaces the first |
| StorageNode.SizeAfterDelete | slave/Slave.java:315-333 | after DELETE the partition is gone and its size query answers -1 |
| StorageNode.OtherPartitionsUntouched | slave/Slave.java:180-333 | STORE and DELETE touch no other (file, index) |
| Beacon.BroadcastSlaves.constructor | slave/BroadcastSlaves.java:13-21 | the beacon starts running, uninterrupted, with no socket |
| Beacon.BroadcastSlaves.CreateDiscoveryMessage | slave/BroadcastSlaves.java:60-66 | the message is tag, ':', the configured slave port and ':', then the clock in decimal; the constructor's port is not used |
| Beacon.BroadcastSlaves.Run | slave/BroadcastSlaves.java:24-47 | one datagram per successful send until the first interrupted sleep; a failed send does not stop the loop; the socket is closed on exit |
| Beacon.StopIndex | slave/BroadcastSlaves.java:29-41 | the loop runs up to the first pass whose sleep is interrupted |
| Beacon.FailedSendsDoNotStop | slave/BroadcastSlaves.java:35-40 | without an interrupt every pass is made, whatever the sends do |
| Beacon.BroadcastsAnnouncePort | slave/BroadcastSlaves.java:60-66 | every datagram sent announces the configured slave port |
| Beacon.BroadcastSlaves.Shutdown | slave/BroadcastSlaves.java:68-72 | clears running, interrupts, and closes the socket |
| Beacon.BroadcastSlaves.Cleanup | slave/BroadcastSlaves.java:74-78 | closes the socket only when it is open |
| Beacon.CleanupIdempotent | slave/BroadcastSlaves.java:74-78 | a second cleanup changes nothing, and no socket is left open |
| Discovery.DiscoveryRoundTrip | slave/BroadcastSlaves.java:60-66 | the coordinator's parser reads a discovery message back as its port when the tag has no ':' and the port fits in 32 bits |
| Discovery.BeaconAnnouncesConfiguredPort | slave/BroadcastSlaves.java:60-66 | under any loaded configuration, every datagram the beacon sends is read as the configured slave port |
| Configuration.NetworkConfig.constructor | utils/NetworkConfig.java:8-27 | the fields hold the built-in defaults |
| Configuration.NetworkConfig.LoadConfigurations | utils/NetworkConfig.java:33-113 | the fields become `ApplyLines` of the lines; both ports are flagged exactly when outside 1..65535 |
| Configuration.NetworkConfig.Set | utils/NetworkConfig.java:56-97 | the switch changes the one field of the key, parsing integers and guarding the two positive ones |
| Configuration.NetworkConfig.ValidatePort | utils/NetworkConfig.java:131-138 | flags a port at most 0 or above 65535 |
| Configuration.SkippedLineChangesNothing | utils/NetworkConfig.java:38-40 | blank and comment lines change no field |
| Configuration.EmptyValueSkipped | utils/NetworkConfig.java:43-50 | `KEY=` has one piece after its trailing empty one is dropped, so it is skipped |
| Configuration.KeyValueLine | utils/NetworkConfig.java:43-54 | `key=value` sets the upper-cased key to the value |
| Configuration.SecondEqualsDiscardsRest | utils/NetworkConfig.java:44-54 | text after a second '=' is discarded |
| Configuration.IgnoredSettingChangesNothing | utils/NetworkConfig.java:91-97 | an unknown key, or a non-numeric value for an integer key, changes no field |
| Configuration.AtMostOneFieldPerLine | utils/NetworkConfig.java:57-94 | a line changes at most one field |
| Configuration.SettingEffect | utils/NetworkConfig.java:57-94 | the timeout and the tag never change; the guarded fields stay positive; an unguarded integer key takes the parsed value |
| Configuration.GuardedFieldsStayPositive | utils/NetworkConfig.java:70-81 | BUFFER_SIZE and CONNECTION_TIMEOUT never become 0 or negative |
| Configuration.FixedFieldsNeverChange | utils/NetworkConfig.java:57-94 | SLAVE_TIMEOUT and READY_SLAVES_MESSAGE are never changed by the file |
| Configuration.SettingEffectOn | utils/NetworkConfig.java:57-94 | one setting sets an integer key's field to a parsed value the key accepts (positive for the buffer size and the timeout), a text key's field to the value, and otherwise leaves the field |
| Configuration.LastLineWins | utils/NetworkConfig.java:36-98 | for every integer key the last line setting it to an accepted integer decides its value; for the two text keys the last line naming them does; with no such line the field keeps its value |
| Configuration.LoadedSlavePortIsInt32 | utils/NetworkConfig.java:64-66 | the loaded slave port is a 32-bit integer |

## Left out

- Sockets, datagrams, files and the clock are not modelled as I/O:
  - a stream is the sequence of its bytes or tokens;
  - a node's answer is an oracle;
  - the disk is a map;
  - `System.currentTimeMillis` is a parameter.
- Concurrency is left out. Thread per connection, the scheduled health check, `ConcurrentHashMap` and the `AtomicBoolean` flag are not modelled: each handler is one sequential step.
- The Swing interfaces, the launchers and the loggers are left out. `notifyFileListUpdate` and `notifySlaveListUpdate` only refresh the interface.
- The discovery request broadcast and its listener loop are only partly modelled. `broadcastDiscoveryMessage` and the loop of `listenForSlaveResponses` are I/O; one received datagram is modelled by `HandleAnnouncement`. Discovery runs once at start-up; nothing repeats it.
- The GET_SPACE value is left out. It is read at server/Server.java:199 and thrown away, and it comes from the filesystem's usable space, so `availableSpace` stays 0.
- `validateDirectory` and `initializeStorage` create directories. They are left out.
- `Files.walk` is modelled as a flat directory. The directory holds only the partition files.
- The commented-out `selectBestSlaveForPartition` is left out.
- Coordinator.Server.HandleFileUpload, Coordinator.Server.DistributePartitions, Coordinator.Server.CopyPartitionData: the model treats the end of `input` as the end of the client stream. The real `copyPartitionData` (server/Server.java:378-389) blocks in `read` until the client closes the connection. The client sends exactly fileSize bytes and then waits for the reply. So whenever (2n-1)·P exceeds fileSize, the real server stalls at the first short chunk. It continues only after a time-out closes the socket, and by then the client no longer reads SUCCESS. Time-outs are not modelled. An upload failure is modelled only at the opening of a connection, through `failAt`; a stream that breaks in the middle of a copy is not.
- Coordinator.Server.SizePartitions: the size loop of the download can spin forever. It is run with `fuel` passes; when the fuel runs out the outcome is `Stalled`, and `ScanStallsWithoutOwner` shows the loop does spin when a partition has no owner.
- Coordinator.Server.UpdateSlaveInfo: the registry entry is written back once at the end of the step, not shared by reference. Within one sequential step this is the same state.
- Integer widths: only `Integer.parseInt`'s 32-bit range is modelled. The `long` arithmetic of sizes and totals and the `int` partition counter are unbounded here; their overflow is out of reach for realistic files.
- Strings are sequences of characters. `toUpperCase` and `parseInt` handle ASCII letters and digits only, not other Unicode digits or case mappings.
- StorageNode.Slave.HandlePartitionRetrieval: the error for a local file shorter than its reported size is not modelled. The disk map gives the size and the bytes together, so the read cannot come up short.
- Some Java methods are modelled as several methods, so that each proof stays small:
  - `handleFileUpload` is split into `AvailableSlaves`, `DistributePartitions` and `StorePartition`;
  - `handleFileDownload` into `CollectMatches`, `AnswerDownload`, `SizePartitions`, `ForwardPartitions` and `ForwardEntry`;
  - `deleteFileAndPartitions` into `FindFile`, `DeleteOrders` and `RemoveFileKeys`.
