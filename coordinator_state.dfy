/**
 * The coordinator's two tables and what its bookkeeping does to them: the
 * node registry (address to SlaveInfo) and the partition catalog (key
 * `name.partK` to FilePartitionInfo). Entries are values here; the one place
 * where the coordinator shares an entry between keys, the upload, keeps every
 * shared key bound to the same value.
 */
module CoordinatorState {
  import opened Wrappers
  import opened JavaStrings
  import opened Naming

  datatype SlaveInfo = SlaveInfo(address: string, port: int, availableSpace: int, storedPartitions: seq<string>, lastSeen: int)

  datatype FilePartitionInfo = FilePartitionInfo(fileName: string, totalParts: int, partitionToSlave: map<int, string>)

  type Registry = map<string, SlaveInfo>
  type Catalog = map<string, FilePartitionInfo>

  // ---------------------------------------------------------------- discovery replies

  /** A datagram received during discovery: not an announcement, a port, or a parse failure. */
  datatype Announcement = Ignored | Ready(port: int) | Malformed

  /**
   * A reply that starts with READY_SLAVES_MESSAGE carries the node's port as
   * the second ':'-separated field; Malformed where parseInt or the index
   * throws.
   */
  function ParseAnnouncement(response: string, readyMessage: string): (r: Announcement)
    ensures r.Ignored? <==> !StartsWith(response, readyMessage)
    ensures r.Ready? ==> InInt32(r.port)
  {
    if !StartsWith(response, readyMessage) then Ignored
    else
      var pieces := Split(response, ":");
      if |pieces| < 2 then Malformed
      else
        match ParseInt(pieces[1])
        case None => Malformed
        case Some(port) => Ready(port)
  }

  // ---------------------------------------------------------------- registry upsert

  /** The entry of `address` once it has been created if absent and its lastSeen set to `now`. */
  function Seen(registry: Registry, address: string, port: int, now: int): SlaveInfo {
    var slave := if address in registry then registry[address] else SlaveInfo(address, port, 0, [], now);
    slave.(lastSeen := now)
  }

  function Refreshed(registry: Registry, address: string, port: int, now: int): Registry {
    registry[address := Seen(registry, address, port, now)]
  }

  /**
   * The catalog entry a listed name produces: for a name holding ".part",
   * a fresh entry named after the index text whose only mapping is the index
   * to the reporting node; for any other name an empty entry. None where the
   * index cannot be parsed (the coordinator's thread then dies).
   */
  function ListedEntry(name: string, address: string): Option<FilePartitionInfo> {
    if Contains(name, PART_MARKER) then
      var pieces := Split(name, PART_MARKER);
      if |pieces| < 2 then None
      else
        match ParseInt(pieces[1])
        case None => None
        case Some(k) => Some(FilePartitionInfo(pieces[1], 0, map[k := address]))
    else Some(FilePartitionInfo(name, 0, map[]))
  }

  /** How many listed names are processed before the first one whose entry cannot be built. */
  function ReadableCount(names: seq<string>, address: string): (c: nat)
    ensures c <= |names|
    ensures forall i :: 0 <= i < c ==> ListedEntry(names[i], address).Some?
    ensures c < |names| ==> ListedEntry(names[c], address).None?
  {
    if names == [] then 0
    else if ListedEntry(names[0], address).None? then 0
    else 1 + ReadableCount(names[1..], address)
  }

  /** The catalog after `filePartitions.put(name, entry)` for each listed name, in order. */
  function Catalogued(catalog: Catalog, names: seq<string>, address: string): Catalog
    requires forall i :: 0 <= i < |names| ==> ListedEntry(names[i], address).Some?
  {
    if names == [] then catalog
    else
      var name := names[|names| - 1];
      Catalogued(catalog, names[..|names| - 1], address)[name := ListedEntry(name, address).value]
  }

  /**
   * Reading name i of the listing: it is the first unreadable one, or
   * binding it extends the catalog of the names before it.
   */
  lemma ListingStep(catalog: Catalog, names: seq<string>, i: nat, address: string)
    requires i < |names| && i <= ReadableCount(names, address)
    ensures names[..i + 1] == names[..i] + [names[i]]
    ensures ListedEntry(names[i], address).None? ==> i == ReadableCount(names, address)
    ensures ListedEntry(names[i], address).Some? ==>
      i < ReadableCount(names, address)
      && Catalogued(catalog, names[..i + 1], address)
         == Catalogued(catalog, names[..i], address)[names[i] := ListedEntry(names[i], address).value]
  {
    assert names[..i + 1][..i] == names[..i];
  }

  /** The entry an announcement leaves, once `read` names of its listing have been appended. */
  lemma AnnouncedEntryShape(registry: Registry, address: string, port: int, names: seq<string>, now: int, read: nat)
    requires read == (if ReadableCount(names, address) < |names| then ReadableCount(names, address) + 1 else |names|)
    ensures AnnouncedEntry(registry, address, port, names, now)
         == Seen(registry, address, port, now).(storedPartitions := Seen(registry, address, port, now).storedPartitions + names[..read])
  {
  }

  /**
   * Listing binds every reported name to the entry built from that name and
   * the reporting node, and leaves every other key as it was.
   */
  lemma {:induction false} CataloguedEntries(catalog: Catalog, names: seq<string>, address: string)
    requires forall i :: 0 <= i < |names| ==> ListedEntry(names[i], address).Some?
    ensures forall key :: key in Catalogued(catalog, names, address) <==> key in catalog || key in names
    ensures forall key :: key in names ==> Catalogued(catalog, names, address)[key] == ListedEntry(key, address).value
    ensures forall key :: key in catalog && key !in names ==> Catalogued(catalog, names, address)[key] == catalog[key]
  {
    if names != [] {
      var prefix := names[..|names| - 1];
      CataloguedEntries(catalog, prefix, address);
      forall key ensures key in names <==> key in prefix || key == names[|names| - 1] {
        assert names == prefix + [names[|names| - 1]];
      }
    }
  }

  /**
   * The registry after an announcement from `address` whose partition list
   * reads `names`: every name up to and including the first one whose entry
   * cannot be built is appended to storedPartitions.
   */
  function AnnouncedEntry(registry: Registry, address: string, port: int, names: seq<string>, now: int): SlaveInfo {
    var c := ReadableCount(names, address);
    var seen := Seen(registry, address, port, now);
    seen.(storedPartitions := seen.storedPartitions + names[..if c < |names| then c + 1 else c])
  }

  function Announced(registry: Registry, address: string, port: int, names: seq<string>, now: int): Registry {
    registry[address := AnnouncedEntry(registry, address, port, names, now)]
  }

  /**
   * The first announcement's port is kept and later ones only refresh
   * lastSeen; every listed name that was read is appended, duplicates
   * included; no other node's entry changes.
   */
  lemma AnnouncementEffect(registry: Registry, address: string, port: int, names: seq<string>, now: int)
    requires forall i :: 0 <= i < |names| ==> ListedEntry(names[i], address).Some?
    ensures var r := Announced(registry, address, port, names, now);
      r.Keys == registry.Keys + {address}
      && r[address].port == (if address in registry then registry[address].port else port)
      && r[address].lastSeen == now
      && r[address].storedPartitions == (if address in registry then registry[address].storedPartitions else []) + names
      && |r[address].storedPartitions| == (if address in registry then |registry[address].storedPartitions| else 0) + |names|
      && forall a :: a in registry && a != address ==> r[a] == registry[a]
  {
    assert names[..|names|] == names;
  }

  /**
   * A node that reports partition k of a file gets a catalog entry whose only
   * owner is itself and whose file name is the index text.
   */
  lemma ReportedPartitionEntry(fileName: string, k: int, address: string)
    requires !Contains(fileName, PART_MARKER) && InInt32(k)
    ensures ListedEntry(PartitionFileName(fileName, k), address)
         == Some(FilePartitionInfo(IntToString(k), 0, map[k := address]))
  {
    var key := PartitionFileName(fileName, k);
    SplitPartitionFileName(fileName, k);
    ParseIntOfIntToString(k);
    assert OccursAt(key, PART_MARKER, |fileName|);
  }

  // ---------------------------------------------------------------- health check

  /** Silent for strictly longer than the timeout. */
  predicate Stale(slave: SlaveInfo, now: int, timeout: int) {
    now - slave.lastSeen > timeout
  }

  function Survivors(registry: Registry, now: int, timeout: int): Registry {
    map a | a in registry && !Stale(registry[a], now, timeout) :: registry[a]
  }

  function StaleAddresses(registry: Registry, now: int, timeout: int): set<string> {
    set a | a in registry && Stale(registry[a], now, timeout)
  }

  /** Every registry entry carries the address it is registered under. */
  predicate KeyedByAddress(registry: Registry) {
    forall a :: a in registry ==> registry[a].address == a
  }

  /**
   * Registering or refreshing a node, and dropping the stale ones, keep every
   * entry under its own address: a new entry is built from the address it is
   * put under, and a refresh changes only lastSeen and the stored names.
   */
  lemma RegistryStaysKeyed(registry: Registry, address: string, port: int, names: seq<string>, now: int, timeout: int)
    requires KeyedByAddress(registry)
    ensures KeyedByAddress(Announced(registry, address, port, names, now))
    ensures KeyedByAddress(Survivors(registry, now, timeout))
  {
  }

  /** The entry without the partitions owned by `dead` nodes. */
  function DropOwners(info: FilePartitionInfo, dead: set<string>): FilePartitionInfo {
    var owners := info.partitionToSlave;
    info.(partitionToSlave := map k | k in owners && owners[k] !in dead :: owners[k])
  }

  /** Every catalog entry without the partitions owned by `dead` nodes. */
  function Disowned(catalog: Catalog, dead: set<string>): Catalog {
    map key | key in catalog :: DropOwners(catalog[key], dead)
  }

  /** Dropping the owners of no node changes nothing. */
  lemma DisownedNone(catalog: Catalog)
    ensures Disowned(catalog, {}) == catalog
  {
    forall key | key in catalog
      ensures DropOwners(catalog[key], {}) == catalog[key]
    {
      var owners := catalog[key].partitionToSlave;
      assert (map k | k in owners && owners[k] !in {} :: owners[k]) == owners;
    }
  }

  /** Dropping the owners in two rounds is dropping them all at once. */
  lemma DisownedTwice(catalog: Catalog, first: set<string>, second: set<string>)
    ensures Disowned(Disowned(catalog, first), second) == Disowned(catalog, first + second)
  {
    forall key | key in catalog
      ensures DropOwners(DropOwners(catalog[key], first), second) == DropOwners(catalog[key], first + second)
    {
    }
  }

  /** The registry partway through the health check: the nodes still to visit, and the fresh ones already visited. */
  function Pruned(registry: Registry, pending: set<string>, now: int, timeout: int): Registry {
    map a | a in registry && (a in pending || !Stale(registry[a], now, timeout)) :: registry[a]
  }

  /** Visiting one more node removes it exactly when it is stale. */
  lemma PrunedStep(registry: Registry, pending: set<string>, address: string, now: int, timeout: int)
    requires address in pending && address in registry
    ensures Pruned(registry, pending - {address}, now, timeout)
         == if Stale(registry[address], now, timeout) then Pruned(registry, pending, now, timeout) - {address}
            else Pruned(registry, pending, now, timeout)
  {
  }

  /** Visiting one more node disowns its partitions exactly when it is stale. */
  lemma DisownedStep(catalog: Catalog, dead: set<string>, pending: set<string>, address: string)
    requires address in pending
    ensures Disowned(catalog, dead - (pending - {address}))
         == if address in dead then Disowned(Disowned(catalog, dead - pending), {address}) else Disowned(catalog, dead - pending)
  {
    if address in dead {
      DisownedTwice(catalog, dead - pending, {address});
      assert (dead - pending) + {address} == dead - (pending - {address});
    } else {
      assert dead - pending == dead - (pending - {address});
    }
  }

  /**
   * The health check keeps exactly the nodes heard from within the timeout
   * (one heard exactly `timeout` ago stays), keeps every catalog key, and
   * leaves no partition owned by an evicted node.
   */
  lemma HealthCheckEffect(registry: Registry, catalog: Catalog, now: int, timeout: int)
    ensures forall a :: a in Survivors(registry, now, timeout) <==> a in registry && now - registry[a].lastSeen <= timeout
    ensures forall a :: a in Survivors(registry, now, timeout) ==> Survivors(registry, now, timeout)[a] == registry[a]
    ensures Disowned(catalog, StaleAddresses(registry, now, timeout)).Keys == catalog.Keys
    ensures forall key, k :: key in catalog && k in Disowned(catalog, StaleAddresses(registry, now, timeout))[key].partitionToSlave ==>
      var owner := Disowned(catalog, StaleAddresses(registry, now, timeout))[key].partitionToSlave[k];
      owner == catalog[key].partitionToSlave[k] && (owner in registry ==> owner in Survivors(registry, now, timeout))
  {
  }

  // ---------------------------------------------------------------- file list

  /** Some key makes `split("\\.part")[0]` throw. */
  predicate HasUnlistableKey(catalog: Catalog) {
    exists key :: key in catalog && FilePrefix(key).None?
  }

  /** The names LIST_FILES shows: the distinct key prefixes before ".part". */
  function ListedNames(catalog: Catalog): set<string>
    requires !HasUnlistableKey(catalog)
  {
    set key | key in catalog :: FilePrefix(key).value
  }

  // ---------------------------------------------------------------- delete

  /** The keys the delete removes: those whose name before ".part" (or whole name) is the file name. */
  predicate Doomed(key: string, fileName: string) {
    FilePrefix(key) == Some(fileName)
  }

  /** A file is found for deletion when some key merely starts with its name. */
  predicate HasKeyStartingWith(catalog: Catalog, fileName: string) {
    exists key :: key in catalog && StartsWith(key, fileName)
  }

  function AfterDelete(catalog: Catalog, fileName: string): Catalog {
    map key | key in catalog && !Doomed(key, fileName) :: catalog[key]
  }

  /**
   * Found by prefix, removed by exact name: deleting a proper prefix of a
   * stored file's name finds that file's partitions, yet removes none of them.
   */
  lemma DeleteByPrefixRemovesNothing(catalog: Catalog, fileName: string, k: int, prefix: string)
    requires !Contains(fileName, PART_MARKER) && InInt32(k)
    requires PartitionFileName(fileName, k) in catalog
    requires StartsWith(fileName, prefix) && prefix != fileName
    ensures HasKeyStartingWith(catalog, prefix)
    ensures PartitionFileName(fileName, k) in AfterDelete(catalog, prefix)
  {
    var key := PartitionFileName(fileName, k);
    PartitionNameRoundTrip(fileName, k);
    assert key[..|prefix|] == fileName[..|prefix|];
    assert StartsWith(key, prefix);
  }
}
