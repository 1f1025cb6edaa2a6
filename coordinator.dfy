/**
 * The coordinator: the node registry and the partition catalog as two maps
 * that its handlers update in place. Each handler runs as one sequential
 * step; peers are oracles passed in, and the client's stream is a byte
 * sequence that ends where the available bytes end.
 */
module Coordinator {
  import opened Wrappers
  import opened Enumerations
  import opened Streams
  import opened JavaStrings
  import opened Naming
  import opened CoordinatorState
  import opened UploadPlan
  import opened DownloadPlan
  import StorageNode

  /** DELETE_PARTITION as sent: node, port, the file name asked for, partition number. */
  datatype DeleteOrder = DeleteOrder(address: string, port: int, fileName: string, partitionNumber: int)

  /** What a client connection asks for, after its command word. */
  datatype ClientRequest =
    | Upload(fileName: string, fileSize: int, payload: seq<byte>)
    | Download(requested: Option<string>)
    | ListFiles
    | DeleteFile(fileName: string)
    | Other(command: string)

  class Server {
    var running: bool
    /** connectedSlaves: node address to its registry entry. */
    var connectedSlaves: Registry
    /** filePartitions: catalog key to its entry. */
    var filePartitions: Catalog
    /** BUFFER_SIZE, SLAVE_PORT, SLAVE_TIMEOUT and READY_SLAVES_MESSAGE of the loaded configuration. */
    const bufferSize: Positive
    const slavePort: int
    const slaveTimeout: int
    const readyMessage: string

    constructor (bufferSize: Positive, slavePort: int, slaveTimeout: int, readyMessage: string)
      ensures !running && connectedSlaves == map[] && filePartitions == map[]
      ensures KeyedByAddress(connectedSlaves)
      ensures this.bufferSize == bufferSize && this.slavePort == slavePort
      ensures this.slaveTimeout == slaveTimeout && this.readyMessage == readyMessage
    {
      running := false;
      connectedSlaves := map[];
      filePartitions := map[];
      this.bufferSize := bufferSize;
      this.slavePort := slavePort;
      this.slaveTimeout := slaveTimeout;
      this.readyMessage := readyMessage;
    }

    /** `startServer`: does nothing when running; otherwise runs unless the server socket cannot be bound. */
    method StartServer(bindFails: bool)
      modifies this
      ensures running == (old(running) || !bindFails)
      ensures connectedSlaves == old(connectedSlaves) && filePartitions == old(filePartitions)
    {
      if running {
        return;
      }
      if !bindFails {
        running := true;
      }
    }

    /**
     * `stopServer`: a running server stops and forgets every node and every
     * catalog key. When closing the server socket raises (`closeFails`), the
     * exception is logged after `running` was cleared and before the maps are.
     */
    method StopServer(closeFails: bool)
      modifies this
      ensures !running
      ensures old(running) && !closeFails ==> connectedSlaves == map[] && filePartitions == map[]
      ensures !old(running) || closeFails ==> connectedSlaves == old(connectedSlaves) && filePartitions == old(filePartitions)
      ensures old(KeyedByAddress(connectedSlaves)) ==> KeyedByAddress(connectedSlaves)
    {
      if !running {
        return;
      }
      running := false;
      if closeFails {
        return;
      }
      connectedSlaves := map[];
      filePartitions := map[];
    }

    // ---------------------------------------------------------------- discovery

    /**
     * `updateSlaveInfo`: registers or refreshes the node, then reads its
     * LIST_PARTITIONS reply `names`, appending each name to its stored
     * partitions and binding it in the catalog. A name whose index cannot
     * be parsed ends the thread after it was appended; `crashed` says so.
     */
    method UpdateSlaveInfo(address: string, port: int, names: seq<string>, now: int) returns (crashed: bool)
      modifies this
      ensures crashed == (ReadableCount(names, address) < |names|)
      ensures connectedSlaves == Announced(old(connectedSlaves), address, port, names, now)
      ensures filePartitions == Catalogued(old(filePartitions), names[..ReadableCount(names, address)], address)
      ensures running == old(running)
      ensures old(KeyedByAddress(connectedSlaves)) ==> KeyedByAddress(connectedSlaves)
    {
      var slave := if address in connectedSlaves then connectedSlaves[address] else SlaveInfo(address, port, 0, [], now);
      slave := slave.(lastSeen := now);
      assert slave == Seen(connectedSlaves, address, port, now);
      // The registry shares `slave`; its appends are written back when the listing ends.
      var stored := slave.storedPartitions;
      var i := 0;
      crashed := false;
      while i < |names|
        invariant 0 <= i <= ReadableCount(names, address)
        invariant stored == slave.storedPartitions + names[..i]
        invariant filePartitions == Catalogued(old(filePartitions), names[..i], address)
        invariant connectedSlaves == old(connectedSlaves) && running == old(running)
      {
        var name := names[i];
        ListingStep(old(filePartitions), names, i, address);
        stored := stored + [name];
        var entry := ListedEntry(name, address);
        if entry.None? {
          assert stored == slave.storedPartitions + names[..i + 1];
          crashed := true;
          break;
        }
        filePartitions := filePartitions[name := entry.value];
        i := i + 1;
      }
      AnnouncedEntryShape(connectedSlaves, address, port, names, now, if crashed then i + 1 else i);
      slave := slave.(storedPartitions := stored);
      if KeyedByAddress(connectedSlaves) {
        RegistryStaysKeyed(connectedSlaves, address, port, names, now, slaveTimeout);
      }
      connectedSlaves := connectedSlaves[address := slave];
    }

    /**
     * One datagram of the discovery listener: announcements from other
     * senders are ignored, a malformed one ends the listener, and a valid one
     * updates the node's entry.
     */
    method HandleAnnouncement(address: string, response: string, names: seq<string>, now: int) returns (crashed: bool)
      modifies this
      ensures running == old(running)
      ensures old(KeyedByAddress(connectedSlaves)) ==> KeyedByAddress(connectedSlaves)
      ensures match ParseAnnouncement(response, readyMessage)
        case Ignored => !crashed && connectedSlaves == old(connectedSlaves) && filePartitions == old(filePartitions)
        case Malformed => crashed && connectedSlaves == old(connectedSlaves) && filePartitions == old(filePartitions)
        case Ready(port) =>
          crashed == (ReadableCount(names, address) < |names|)
          && connectedSlaves == Announced(old(connectedSlaves), address, port, names, now)
          && filePartitions == Catalogued(old(filePartitions), names[..ReadableCount(names, address)], address)
    {
      match ParseAnnouncement(response, readyMessage)
      case Ignored =>
        crashed := false;
      case Malformed =>
        crashed := true;
      case Ready(port) =>
        crashed := UpdateSlaveInfo(address, port, names, now);
    }

    // ---------------------------------------------------------------- health

    /** `handleSlaveDisconnection`: every catalog entry forgets the partitions owned by `address`. */
    method HandleSlaveDisconnection(address: string)
      modifies this
      ensures filePartitions == Disowned(old(filePartitions), {address})
      ensures connectedSlaves == old(connectedSlaves) && running == old(running)
    {
      var pending := filePartitions.Keys;
      while pending != {}
        invariant pending <= old(filePartitions).Keys
        invariant filePartitions.Keys == old(filePartitions).Keys
        invariant forall key :: key in filePartitions ==>
          filePartitions[key] == if key in pending then old(filePartitions)[key] else DropOwners(old(filePartitions)[key], {address})
        invariant connectedSlaves == old(connectedSlaves) && running == old(running)
        decreases |pending|
      {
        var key :| key in pending;
        filePartitions := filePartitions[key := DropOwners(filePartitions[key], {address})];
        pending := pending - {key};
      }
    }

    /**
     * `checkSlaveHealth`: every node silent for longer than the timeout is
     * disconnected and removed from the registry.
     */
    method CheckSlaveHealth(now: int)
      modifies this
      ensures connectedSlaves == Survivors(old(connectedSlaves), now, slaveTimeout)
      ensures filePartitions == Disowned(old(filePartitions), StaleAddresses(old(connectedSlaves), now, slaveTimeout))
      ensures running == old(running)
      ensures old(KeyedByAddress(connectedSlaves)) ==> KeyedByAddress(connectedSlaves)
    {
      ghost var registry := connectedSlaves;
      ghost var dead := StaleAddresses(registry, now, slaveTimeout);
      DisownedNone(filePartitions);
      assert dead - registry.Keys == {};
      assert Pruned(registry, registry.Keys, now, slaveTimeout) == registry;
      var pending := connectedSlaves.Keys;
      while pending != {}
        invariant pending <= registry.Keys
        invariant connectedSlaves == Pruned(registry, pending, now, slaveTimeout)
        invariant filePartitions == Disowned(old(filePartitions), dead - pending)
        invariant running == old(running)
        decreases |pending|
      {
        var address :| address in pending;
        PrunedStep(registry, pending, address, now, slaveTimeout);
        DisownedStep(old(filePartitions), dead, pending, address);
        if Stale(connectedSlaves[address], now, slaveTimeout) {
          HandleSlaveDisconnection(address);
          connectedSlaves := connectedSlaves - {address};
        }
        pending := pending - {address};
      }
      assert dead - pending == dead;
      assert Pruned(registry, {}, now, slaveTimeout) == Survivors(registry, now, slaveTimeout);
      if KeyedByAddress(registry) {
        RegistryStaysKeyed(registry, "", 0, [], now, slaveTimeout);
      }
    }

    // ---------------------------------------------------------------- upload

    /**
     * `copyPartitionData`: forwards up to `size` bytes of `input` in writes of
     * at most BUFFER_SIZE bytes, stopping silently at the end of the stream.
     */
    method CopyPartitionData(input: seq<byte>, size: int) returns (written: seq<Token>)
      ensures RawChunks(written, bufferSize)
      ensures RawBytes(written) == Prefix(input, size)
    {
      written := [];
      var remaining := size;
      var pos := 0;
      while remaining > 0
        invariant 0 <= pos <= |input| && remaining == size - pos
        invariant pos == 0 || remaining >= 0
        invariant RawChunks(written, bufferSize) && RawBytes(written) == input[..pos]
        decreases remaining
      {
        var read := ReadCount(input, pos, Min(bufferSize, remaining));
        if read == -1 {
          break;
        }
        var chunk := input[pos..pos + read];
        assert (written + [Raw(chunk)])[..|written|] == written;
        assert input[..pos + read] == input[..pos] + chunk;
        written := written + [Raw(chunk)];
        pos := pos + read;
        remaining := remaining - read;
      }
    }

    /**
     * One STORE_PARTITION connection of an upload, the `p.sent`-th: the next
     * chunk of the client stream goes to `slave` as partition `part`, the
     * shared entry records `slave` as that partition's owner, and every key
     * written so far is bound to the updated entry.
     */
    method StorePartition(fileName: string, avail: seq<SlaveInfo>, size: int, input: seq<byte>, before: Catalog,
                          slave: SlaveInfo, part: int, p: Placement) returns (q: Placement)
      requires PlacedUpTo(p, fileName, avail, size, input)
      requires p.sent < SendCount(|avail|) && slave == avail[Target(p.sent)] && part == PartNumber(p.sent)
      modifies this
      ensures PlacedUpTo(q, fileName, avail, size, input) && q.sent == p.sent + 1
      ensures filePartitions == Shared(before, q.written, q.info)
      ensures connectedSlaves == old(connectedSlaves) && running == old(running)
    {
      var data := CopyPartitionData(input[p.consumed..], size);
      var order := StoreOrder(slave.address, slave.port, fileName, part, size, RawBytes(data));
      var info := p.info.(partitionToSlave := p.info.partitionToSlave[part := slave.address]);
      var written := p.written + {PartitionFileName(fileName, part)};
      filePartitions := Shared(before, written, info);
      q := Placement(p.sent + 1, p.consumed + |RawBytes(data)|, info, written, p.orders + [order]);
      PlacementStep(p, q, fileName, avail, size, input);
    }

    /**
     * `new ArrayList<>(connectedSlaves.values())`: the registered nodes in the
     * registry's (unspecified) iteration order, with the addresses they are
     * registered under.
     */
    method AvailableSlaves() returns (addresses: seq<string>, avail: seq<SlaveInfo>)
      ensures Enumerates(addresses, connectedSlaves.Keys) && |avail| == |addresses|
      ensures forall i :: 0 <= i < |avail| ==> addresses[i] in connectedSlaves && avail[i] == connectedSlaves[addresses[i]]
      ensures KeyedByAddress(connectedSlaves) ==> DistinctAddresses(avail)
    {
      addresses := [];
      avail := [];
      var pending := connectedSlaves.Keys;
      while pending != {}
        invariant pending <= connectedSlaves.Keys
        invariant Enumerates(addresses, connectedSlaves.Keys - pending)
        invariant forall i :: 0 <= i < |addresses| ==> addresses[i] in connectedSlaves
        invariant |avail| == |addresses|
        invariant forall i :: 0 <= i < |avail| ==> avail[i] == connectedSlaves[addresses[i]]
        decreases |pending|
      {
        var address :| address in pending;
        addresses := addresses + [address];
        avail := avail + [connectedSlaves[address]];
        pending := pending - {address};
      }
    }

    /**
     * `handleFileUpload`: splits the file over the registered nodes (taken in
     * registry order as `avail`) as described in UploadPlan. Connection
     * `failAt` (counting from 0), if any, fails and ends the upload with no
     * rollback; an empty registry fails before anything is written.
     */
    method HandleFileUpload(fileName: string, fileSize: int, input: seq<byte>, failAt: Option<nat>)
      returns (ok: bool, addresses: seq<string>, avail: seq<SlaveInfo>, orders: seq<StoreOrder>)
      modifies this
      ensures connectedSlaves == old(connectedSlaves) && running == old(running)
      ensures Enumerates(addresses, connectedSlaves.Keys) && |avail| == |addresses|
      ensures forall i :: 0 <= i < |avail| ==> addresses[i] in connectedSlaves && avail[i] == connectedSlaves[addresses[i]]
      ensures KeyedByAddress(connectedSlaves) ==> DistinctAddresses(avail)
      ensures avail == [] ==> !ok && orders == [] && filePartitions == old(filePartitions)
      ensures avail != [] ==>
        var n := |avail|;
        var size := JavaDiv(fileSize, n);
        var c := Connections(failAt, SendCount(n));
        ok == (c == SendCount(n))
        && orders == Orders(fileName, avail, size, input, c)
        && filePartitions == Uploaded(old(filePartitions), fileName, avail, c)
    {
      addresses, avail := AvailableSlaves();
      if |avail| == 0 {
        return false, addresses, avail, [];
      }
      ok, orders := DistributePartitions(fileName, JavaDiv(fileSize, |avail|), input, failAt, avail);
    }

    /**
     * The placement loop of `handleFileUpload`: pass i sends partition i + 1
     * to avail[i] and, unless it is the last pass, again to avail[i + 1].
     */
    method DistributePartitions(fileName: string, size: int, input: seq<byte>, failAt: Option<nat>, avail: seq<SlaveInfo>)
      returns (ok: bool, orders: seq<StoreOrder>)
      requires avail != []
      modifies this
      ensures connectedSlaves == old(connectedSlaves) && running == old(running)
      ensures var c := Connections(failAt, SendCount(|avail|));
        ok == (c == SendCount(|avail|))
        && orders == Orders(fileName, avail, size, input, c)
        && filePartitions == Uploaded(old(filePartitions), fileName, avail, c)
    {
      var n := |avail|;
      ghost var total := SendCount(n);
      var p := Placement(0, 0, FilePartitionInfo(fileName, n, map[]), {}, []);
      // Every key written so far is bound to the one shared `p.info`.
      var before := filePartitions;
      assert Shared(before, p.written, p.info) == before;
      ok := true;
      for i := 0 to n
        invariant PlacedUpTo(p, fileName, avail, size, input)
        invariant p.sent == if i == n then total else 2 * i
        invariant p.sent <= Connections(failAt, total)
        invariant before == old(filePartitions)
        invariant filePartitions == Shared(before, p.written, p.info)
        invariant connectedSlaves == old(connectedSlaves) && running == old(running)
      {
        TwoSendsPerPass(avail, i);
        if failAt == Some(p.sent) {
          ok := false;
          break;
        }
        p := StorePartition(fileName, avail, size, input, before, avail[i], i + 1, p);
        if i + 1 < n {
          if failAt == Some(p.sent) {
            ok := false;
            break;
          }
          p := StorePartition(fileName, avail, size, input, before, avail[i + 1], i + 1, p);
        } else if i + 1 > n && n > 1 {
          assert false;
        }
      }
      assert p.sent == Connections(failAt, total);
      orders := p.orders;
    }

    // ---------------------------------------------------------------- download

    /**
     * `retrievePartitionFromSlave`: forwards the partition the node sends, or
     * fails (an IOException) when the node is unreachable or answers false.
     */
    method RetrievePartitionFromSlave(address: Option<string>, partNum: int, retrieve: RetrieveOracle)
      returns (written: seq<Token>, found: bool)
      ensures match retrieve(address, partNum)
        case Found(size, data) => found && RawChunks(written, bufferSize) && RawBytes(written) == Prefix(data, size)
        case _ => !found && written == []
    {
      match retrieve(address, partNum)
      case Found(size, data) =>
        written := CopyPartitionData(data, size);
        found := true;
      case _ =>
        written := [];
        found := false;
    }

    /**
     * `handleFileDownload`: collects the entries whose key contains
     * `name.part` (in catalog order, as `keys` and `list`), answers false when
     * there are none, else sizes and forwards the partitions as DownloadReply
     * states. A collected key whose index does not parse kills the handler
     * before anything is written; the size loop gets `fuel` passes.
     */
    method HandleFileDownload(fileName: Option<string>, sizeOf: SizeOracle, retrieve: RetrieveOracle, fuel: nat)
      returns (reply: seq<Token>, outcome: DownloadOutcome, keys: seq<string>, list: seq<FilePartitionInfo>)
      ensures fileName.None? ==> reply == [Bool(false)] && outcome == Answered
      ensures fileName.Some? ==> (outcome == Crashed <==> HasUnreadableMatch(filePartitions, fileName.value))
      ensures outcome == Crashed ==> reply == []
      ensures fileName.Some? && outcome != Crashed ==>
        var name := fileName.value;
        Enumerates(keys, MatchedKeys(filePartitions, name))
        && |list| == |keys| && (forall i :: 0 <= i < |keys| ==> keys[i] in filePartitions && list[i] == filePartitions[keys[i]])
        && (reply == [Bool(false)] <==> MatchedKeys(filePartitions, name) == {})
        && (list != [] ==> DownloadReply(list, |PartIndices(filePartitions, name)|, sizeOf, retrieve, fuel, bufferSize, reply, outcome))
    {
      keys := [];
      list := [];
      if fileName.None? {
        return [Bool(false)], Answered, keys, list;
      }
      var crashed, parts;
      crashed, keys, list, parts := CollectMatches(fileName.value);
      if crashed {
        return [], Crashed, keys, list;
      }
      if |list| == 0 {
        return [Bool(false)], Answered, keys, list;
      }
      assert keys[0] in MatchedKeys(filePartitions, fileName.value);
      reply, outcome := AnswerDownload(list, |parts|, sizeOf, retrieve, fuel);
    }

    /** The reply once some key matched: true, the size scan, then the partitions or the partial total. */
    method AnswerDownload(list: seq<FilePartitionInfo>, nParts: int, sizeOf: SizeOracle, retrieve: RetrieveOracle, fuel: nat)
      returns (reply: seq<Token>, outcome: DownloadOutcome)
      requires |list| > 0
      ensures DownloadReply(list, nParts, sizeOf, retrieve, fuel, bufferSize, reply, outcome)
    {
      reply := [Bool(true)];
      var sizes, complete, stalled := SizePartitions(list, nParts, sizeOf, fuel);
      if stalled {
        return reply, Spinning;
      }
      var total := Sum(sizes);
      if !complete || total <= 0 {
        return reply + [Long(-1), Long(total)], Answered;
      }
      reply := reply + [Long(total)];
      var delivered, aborted := ForwardPartitions(list, |sizes|, retrieve);
      assert (reply + delivered)[..2] == reply && (reply + delivered)[2..] == delivered;
      reply := reply + delivered;
      outcome := if aborted then Aborted else Answered;
    }

    /**
     * The collection loop of `handleFileDownload`: the entries whose key
     * contains `name.part`, in catalog order, with the distinct partition
     * indices of their keys; `crashed` at the first collected key whose index
     * does not parse.
     */
    method CollectMatches(name: string) returns (crashed: bool, keys: seq<string>, list: seq<FilePartitionInfo>, parts: set<int>)
      ensures crashed == HasUnreadableMatch(filePartitions, name)
      ensures !crashed ==>
        Enumerates(keys, MatchedKeys(filePartitions, name))
        && |list| == |keys| && (forall i :: 0 <= i < |keys| ==> keys[i] in filePartitions && list[i] == filePartitions[keys[i]])
        && parts == PartIndices(filePartitions, name)
    {
      keys := [];
      list := [];
      parts := {};
      crashed := false;
      var pending := filePartitions.Keys;
      while pending != {}
        invariant pending <= filePartitions.Keys
        invariant Enumerates(keys, MatchedKeys(filePartitions, name) - pending)
        invariant |list| == |keys| && forall i :: 0 <= i < |keys| ==> keys[i] in filePartitions && list[i] == filePartitions[keys[i]]
        invariant forall key :: key in filePartitions && key !in pending && Matches(key, name) ==> PartIndexOf(key).Some?
        invariant parts == set key | key in filePartitions && key !in pending && Matches(key, name) :: PartIndexOf(key).value
        decreases |pending|
      {
        var key :| key in pending;
        if Matches(key, name) {
          var index := PartIndexOf(key);
          if index.None? {
            crashed := true;
            return;
          }
          keys := keys + [key];
          list := list + [filePartitions[key]];
          parts := parts + {index.value};
        }
        pending := pending - {key};
      }
      assert MatchedKeys(filePartitions, name) - pending == MatchedKeys(filePartitions, name);
    }

    /**
     * The size loop of `handleFileDownload`: for partition 1, 2, ... cycle
     * through the entries until one names an owner and ask that node for the
     * size; a failed query or a size up to zero ends the loop incomplete.
     * After `fuel` passes without ending, `stalled`.
     */
    method SizePartitions(list: seq<FilePartitionInfo>, nParts: int, sizeOf: SizeOracle, fuel: nat)
      returns (sizes: seq<int>, complete: bool, stalled: bool)
      requires |list| > 0
      ensures stalled <==> Scan(list, sizeOf, nParts, [], 0, fuel) == Stalled
      ensures !stalled ==> Scan(list, sizeOf, nParts, [], 0, fuel) == Scanned(sizes, complete)
    {
      sizes := [];
      complete := true;
      stalled := false;
      var i := 0;
      var steps := fuel;
      while |sizes| + 1 <= nParts
        invariant Scan(list, sizeOf, nParts, sizes, i, steps) == Scan(list, sizeOf, nParts, [], 0, fuel)
        decreases steps
      {
        if steps == 0 {
          stalled := true;
          return;
        }
        if i >= |list| {
          i := 0;
        }
        var part := |sizes| + 1;
        steps := steps - 1;
        var address := Owner(list[i], part);
        if address.None? {
          i := i + 1;
          continue;
        }
        var answer := sizeOf(address.value, part);
        if answer.None? || answer.value <= 0 {
          complete := false;
          return;
        }
        sizes := sizes + [answer.value];
        i := i + 1;
      }
    }

    /**
     * The retrieval loops of `handleFileDownload`: for every collected entry,
     * partitions 1..m in ascending order, until a retrieval fails.
     */
    method ForwardPartitions(list: seq<FilePartitionInfo>, m: nat, retrieve: RetrieveOracle) returns (written: seq<Token>, aborted: bool)
      ensures RawChunks(written, bufferSize)
      ensures RawBytes(written) == Deliver(Plan(list, m), retrieve).data
      ensures aborted == Deliver(Plan(list, m), retrieve).failed
    {
      written := [];
      aborted := false;
      for e := 0 to |list|
        invariant RawChunks(written, bufferSize)
        invariant Deliver(Plan(list[..e], m), retrieve) == Delivery(RawBytes(written), false)
      {
        var tokens, found := ForwardEntry(list[e], m, retrieve, Plan(list[..e], m));
        RawBytesConcat(written, tokens);
        RawChunksConcat(written, tokens, bufferSize);
        written := written + tokens;
        if !found {
          FailedEarly(list, m, e, m, retrieve);
          return written, true;
        }
        NextEntry(list, m, e);
      }
      assert list[..|list|] == list;
    }

    /** The inner retrieval loop: partitions 1..m of one entry, each from the owner it records. */
    method ForwardEntry(info: FilePartitionInfo, m: nat, retrieve: RetrieveOracle, ghost done: seq<(Option<string>, int)>)
      returns (tokens: seq<Token>, found: bool)
      requires !Deliver(done, retrieve).failed
      ensures RawChunks(tokens, bufferSize)
      ensures Deliver(done + EntryPlan(info, m), retrieve) == Delivery(Deliver(done, retrieve).data + RawBytes(tokens), !found)
    {
      tokens := [];
      found := true;
      assert done + EntryPlan(info, 0) == done;
      for k := 1 to m + 1
        invariant RawChunks(tokens, bufferSize)
        invariant Deliver(done + EntryPlan(info, k - 1), retrieve) == Delivery(Deliver(done, retrieve).data + RawBytes(tokens), false)
      {
        var part, ok := RetrievePartitionFromSlave(Owner(info, k), k, retrieve);
        ghost var forwarded := Deliver(done, retrieve).data + RawBytes(tokens);
        EntryStep(done, info, k, retrieve, forwarded, RawBytes(part), ok);
        ForwardedConcat(Deliver(done, retrieve).data, tokens, part);
        RawChunksConcat(tokens, part, bufferSize);
        tokens := tokens + part;
        if !ok {
          EntryFailed(done, info, k, m, retrieve);
          return tokens, false;
        }
      }
    }

    // ---------------------------------------------------------------- list and delete

    /**
     * `sendFileList`: each distinct name before ".part" (or whole key) once,
     * then END_OF_LIST. A key whose split is empty kills the handler before
     * anything is written.
     */
    method SendFileList() returns (reply: seq<Token>, crashed: bool, listed: seq<string>)
      ensures crashed <==> HasUnlistableKey(filePartitions)
      ensures crashed ==> reply == []
      ensures !crashed ==> Enumerates(listed, ListedNames(filePartitions)) && reply == UtfTokens(listed) + [Utf(StorageNode.END_OF_LIST)]
    {
      var files: set<string> := {};
      var pending := filePartitions.Keys;
      while pending != {}
        invariant pending <= filePartitions.Keys
        invariant forall key :: key in filePartitions && key !in pending ==> FilePrefix(key).Some?
        invariant files == set key | key in filePartitions && key !in pending :: FilePrefix(key).value
        decreases |pending|
      {
        var key :| key in pending;
        var name := key;
        if Contains(key, PART_MARKER) {
          var pieces := Split(key, PART_MARKER);
          if |pieces| == 0 {
            return [], true, [];
          }
          name := pieces[0];
        }
        files := files + {name};
        pending := pending - {key};
      }
      assert files == ListedNames(filePartitions);
      crashed := false;
      listed := [];
      reply := [];
      var rest := files;
      while rest != {}
        invariant rest <= files
        invariant Enumerates(listed, files - rest)
        invariant reply == UtfTokens(listed)
        decreases |rest|
      {
        var name :| name in rest;
        assert (listed + [name])[..|listed|] == listed;
        reply := reply + [Utf(name)];
        listed := listed + [name];
        rest := rest - {name};
      }
      assert files - rest == files;
      reply := reply + [Utf(StorageNode.END_OF_LIST)];
    }

    /**
     * `deleteFileAndPartitions`: finds an entry whose key starts with the
     * name (`foundKey`), orders every owner it records to delete its
     * partition, then removes every key whose name before ".part" (or whole
     * key) is the name. A key whose split is empty kills the handler midway.
     */
    method DeleteFileAndPartitions(fileName: string)
      returns (deleted: bool, crashed: bool, foundKey: string, numbers: seq<int>, orders: seq<DeleteOrder>)
      modifies this
      ensures connectedSlaves == old(connectedSlaves) && running == old(running)
      ensures !HasKeyStartingWith(old(filePartitions), fileName) ==>
        !deleted && !crashed && orders == [] && filePartitions == old(filePartitions)
      ensures HasKeyStartingWith(old(filePartitions), fileName) ==>
        foundKey in old(filePartitions) && StartsWith(foundKey, fileName)
        && Enumerates(numbers, old(filePartitions)[foundKey].partitionToSlave.Keys)
        && |orders| == |numbers|
        && (forall i :: 0 <= i < |numbers| ==>
              numbers[i] in old(filePartitions)[foundKey].partitionToSlave
              && orders[i] == DeleteOrder(old(filePartitions)[foundKey].partitionToSlave[numbers[i]], slavePort, fileName, numbers[i]))
        && (crashed <==> HasUnlistableKey(old(filePartitions)))
        && (!crashed ==> deleted && filePartitions == AfterDelete(old(filePartitions), fileName))
        && (crashed ==>
              !deleted
              && (forall key :: key in filePartitions ==> key in old(filePartitions) && filePartitions[key] == old(filePartitions)[key])
              && (forall key :: key in old(filePartitions) && !Doomed(key, fileName) ==> key in filePartitions))
    {
      deleted, crashed, numbers, orders := false, false, [], [];
      var entry;
      foundKey, entry := FindFile(fileName);
      if entry.None? {
        return;
      }
      numbers, orders := DeleteOrders(entry.value, fileName);
      crashed := RemoveFileKeys(fileName);
      deleted := !crashed;
    }

    /** The first loop of `deleteFileAndPartitions`: an entry whose key starts with the file name, if any. */
    method FindFile(fileName: string) returns (foundKey: string, entry: Option<FilePartitionInfo>)
      ensures entry.None? <==> !HasKeyStartingWith(filePartitions, fileName)
      ensures entry.Some? ==> foundKey in filePartitions && StartsWith(foundKey, fileName) && entry.value == filePartitions[foundKey]
    {
      foundKey, entry := "", None;
      var pending := filePartitions.Keys;
      while pending != {}
        invariant pending <= filePartitions.Keys
        invariant forall key :: key in filePartitions && key !in pending ==> !StartsWith(key, fileName)
        decreases |pending|
      {
        var key :| key in pending;
        if StartsWith(key, fileName) {
          return key, Some(filePartitions[key]);
        }
        pending := pending - {key};
      }
    }

    /** The second loop: one DELETE_PARTITION per partition the entry records, to its owner. */
    method DeleteOrders(info: FilePartitionInfo, fileName: string) returns (numbers: seq<int>, orders: seq<DeleteOrder>)
      ensures Enumerates(numbers, info.partitionToSlave.Keys) && |orders| == |numbers|
      ensures forall i :: 0 <= i < |numbers| ==>
        numbers[i] in info.partitionToSlave
        && orders[i] == DeleteOrder(info.partitionToSlave[numbers[i]], slavePort, fileName, numbers[i])
    {
      numbers, orders := [], [];
      var owners := info.partitionToSlave;
      var entries := owners.Items;
      while entries != {}
        invariant entries <= owners.Items
        invariant Enumerates(numbers, set e | e in owners.Items - entries :: e.0)
        invariant |orders| == |numbers|
        invariant forall i :: 0 <= i < |numbers| ==>
          numbers[i] in owners && orders[i] == DeleteOrder(owners[numbers[i]], slavePort, fileName, numbers[i])
        decreases |entries|
      {
        var entry :| entry in entries;
        var (k, address) := entry;
        orders := orders + [DeleteOrder(address, slavePort, fileName, k)];
        numbers := numbers + [k];
        assert (set e | e in owners.Items - (entries - {entry}) :: e.0) == (set e | e in owners.Items - entries :: e.0) + {k};
        entries := entries - {entry};
      }
      forall k | k in owners
        ensures k in (set e | e in owners.Items :: e.0)
      {
        assert (k, owners[k]) in owners.Items;
      }
      assert (set e | e in owners.Items :: e.0) == owners.Keys;
    }

    /**
     * The removal pass: every key whose name before ".part" (or whole name)
     * is the file name goes; a key whose split is empty throws, leaving the
     * keys visited so far removed.
     */
    method RemoveFileKeys(fileName: string) returns (crashed: bool)
      modifies this
      ensures connectedSlaves == old(connectedSlaves) && running == old(running)
      ensures crashed <==> HasUnlistableKey(old(filePartitions))
      ensures !crashed ==> filePartitions == AfterDelete(old(filePartitions), fileName)
      ensures crashed ==>
        (forall key :: key in filePartitions ==> key in old(filePartitions) && filePartitions[key] == old(filePartitions)[key])
        && (forall key :: key in old(filePartitions) && !Doomed(key, fileName) ==> key in filePartitions)
    {
      crashed := false;
      ghost var before := filePartitions;
      var pending := filePartitions.Keys;
      while pending != {}
        invariant pending <= before.Keys
        invariant filePartitions == map key | key in before && (key in pending || !Doomed(key, fileName)) :: before[key]
        invariant forall key :: key in before && key !in pending ==> FilePrefix(key).Some?
        invariant connectedSlaves == old(connectedSlaves) && running == old(running)
        decreases |pending|
      {
        var key :| key in pending;
        if Contains(key, PART_MARKER) {
          var pieces := Split(key, PART_MARKER);
          if |pieces| == 0 {
            return true;
          }
          if pieces[0] == fileName {
            filePartitions := filePartitions - {key};
          }
        } else if key == fileName {
          filePartitions := filePartitions - {key};
        }
        pending := pending - {key};
      }
    }

    // ---------------------------------------------------------------- client connections

    /**
     * `ClientHandler.run`: UPLOAD answers SUCCESS only once every partition
     * was placed; DOWNLOAD and LIST_FILES answer as above; DELETE_FILE answers
     * SUCCESS when some key started with the name and ERROR otherwise; any
     * other command gets no answer. A failure closes the connection with
     * nothing more written.
     */
    method HandleClient(request: ClientRequest, failAt: Option<nat>, sizeOf: SizeOracle, retrieve: RetrieveOracle, fuel: nat)
      returns (reply: seq<Token>, ghost addresses: seq<string>, ghost avail: seq<SlaveInfo>,
               ghost keys: seq<string>, ghost list: seq<FilePartitionInfo>, ghost outcome: DownloadOutcome, ghost listed: seq<string>)
      modifies this
      ensures connectedSlaves == old(connectedSlaves) && running == old(running)
      ensures request.Upload? ==>
        var n := |old(connectedSlaves)|;
        reply == (if n > 0 && Connections(failAt, SendCount(n)) == SendCount(n) then [Utf("SUCCESS")] else [])
        && Enumerates(addresses, connectedSlaves.Keys) && |addresses| == |avail| == n
        && (forall i :: 0 <= i < n ==> addresses[i] in connectedSlaves && avail[i] == connectedSlaves[addresses[i]])
        && (KeyedByAddress(connectedSlaves) ==> DistinctAddresses(avail))
        && filePartitions == (if n == 0 then old(filePartitions) else Uploaded(old(filePartitions), request.fileName, avail, Connections(failAt, SendCount(n))))
      ensures request.Download? || request.ListFiles? || request.Other? ==> filePartitions == old(filePartitions)
      ensures request.Download? && request.requested.None? ==> reply == [Bool(false)]
      ensures request.Download? && request.requested.Some? ==>
        var name := request.requested.value;
        (outcome == Crashed <==> HasUnreadableMatch(filePartitions, name))
        && (outcome == Crashed ==> reply == [])
        && (outcome != Crashed ==>
              Enumerates(keys, MatchedKeys(filePartitions, name))
              && |list| == |keys| && (forall i :: 0 <= i < |keys| ==> keys[i] in filePartitions && list[i] == filePartitions[keys[i]])
              && (reply == [Bool(false)] <==> MatchedKeys(filePartitions, name) == {})
              && (list != [] ==> DownloadReply(list, |PartIndices(filePartitions, name)|, sizeOf, retrieve, fuel, bufferSize, reply, outcome)))
      ensures request.ListFiles? ==> (reply == [] <==> HasUnlistableKey(filePartitions))
      ensures request.ListFiles? && !HasUnlistableKey(filePartitions) ==>
        Enumerates(listed, ListedNames(filePartitions)) && reply == UtfTokens(listed) + [Utf(StorageNode.END_OF_LIST)]
      ensures request.DeleteFile? && !HasKeyStartingWith(old(filePartitions), request.fileName) ==>
        reply == [Utf("ERROR")] && filePartitions == old(filePartitions)
      ensures request.DeleteFile? && HasKeyStartingWith(old(filePartitions), request.fileName) && !HasUnlistableKey(old(filePartitions)) ==>
        reply == [Utf("SUCCESS")] && filePartitions == AfterDelete(old(filePartitions), request.fileName)
      ensures request.DeleteFile? && HasKeyStartingWith(old(filePartitions), request.fileName) && HasUnlistableKey(old(filePartitions)) ==>
        reply == []
        && (forall key :: key in filePartitions ==> key in old(filePartitions) && filePartitions[key] == old(filePartitions)[key])
        && (forall key :: key in old(filePartitions) && !Doomed(key, request.fileName) ==> key in filePartitions)
      ensures request.Other? ==> reply == []
    {
      addresses, avail, keys, list, outcome, listed := [], [], [], [], Answered, [];
      match request
      case Upload(fileName, fileSize, payload) =>
        var ok, addrs, nodes, orders := HandleFileUpload(fileName, fileSize, payload, failAt);
        addresses, avail := addrs, nodes;
        assert |avail| == |old(connectedSlaves)| by {
          EnumerationSize(addresses, connectedSlaves.Keys);
        }
        reply := if ok then [Utf("SUCCESS")] else [];
      case Download(requested) =>
        reply, outcome, keys, list := HandleFileDownload(requested, sizeOf, retrieve, fuel);
      case ListFiles =>
        var crashed;
        reply, crashed, listed := SendFileList();
        if !crashed {
          assert |reply| > 0;
        }
      case DeleteFile(fileName) =>
        var deleted, crashed, foundKey, numbers, orders := DeleteFileAndPartitions(fileName);
        reply := if crashed then [] else [Utf(if deleted then "SUCCESS" else "ERROR")];
      case Other(_) =>
        reply := [];
    }
  }
}
