/**
 * The storage node. Its data directory is a map from file name to contents;
 * every command names a partition file as `fileName + ".part" + n`, and the
 * list of available files is rebuilt from the directory after each store and
 * delete.
 */
module StorageNode {
  import opened Wrappers
  import opened Enumerations
  import opened Streams
  import opened Naming

  const END_OF_LIST: string := "END_OF_LIST"

  /** One connection: the command read with readUTF and the arguments read after it. */
  datatype Request =
    | StorePartition(fileName: string, partitionNumber: int, partitionSize: int, payload: seq<byte>)
    | RetrievePartition(fileName: string, partitionNumber: int)
    | GetSpace
    | ListPartitions
    | GetPartitionSize(fileName: string, partitionNumber: int)
    | DeletePartition(fileName: string, partitionNumber: int)
    | Unknown(command: string)

  type Disk = map<string, seq<byte>>

  /** The directory after STORE_PARTITION: the partition file replaced by the bytes received. */
  function Stored(disk: Disk, fileName: string, n: int, size: int, payload: seq<byte>): Disk {
    disk[PartitionFileName(fileName, n) := Prefix(payload, size)]
  }

  /** The directory after DELETE_PARTITION. */
  function Deleted(disk: Disk, fileName: string, n: int): Disk {
    disk - {PartitionFileName(fileName, n)}
  }

  /** The contents of a partition file, None when it does not exist. */
  function Lookup(disk: Disk, fileName: string, n: int): Option<seq<byte>> {
    var name := PartitionFileName(fileName, n);
    if name in disk then Some(disk[name]) else None
  }

  /**
   * The reply to GET_PARTITION_SIZE: the size of an existing, non-empty
   * partition, -1 when it is missing, empty, or its size cannot be read.
   */
  function PartitionSizeReply(disk: Disk, fileName: string, n: int, sizeError: bool): (r: int)
    ensures r > 0 <==> Lookup(disk, fileName, n).Some? && |Lookup(disk, fileName, n).value| > 0 && !sizeError
    ensures r > 0 ==> r == |Lookup(disk, fileName, n).value|
    ensures r <= 0 ==> r == -1
  {
    var name := PartitionFileName(fileName, n);
    if name !in disk then -1
    else if sizeError then -1
    else if |disk[name]| <= 0 then -1
    else |disk[name]|
  }

  /**
   * The reply to RETRIEVE_PARTITION: false alone for a missing partition;
   * otherwise true, the size, and then exactly the contents in raw writes of
   * at most `limit` bytes.
   */
  predicate RetrievalReply(reply: seq<Token>, contents: Option<seq<byte>>, limit: int) {
    match contents
    case None => reply == [Bool(false)]
    case Some(data) =>
      |reply| >= 2 && reply[0] == Bool(true) && reply[1] == Long(|data|)
      && RawChunks(reply[2..], limit) && RawBytes(reply[2..]) == data
  }

  /** The reply to LIST_PARTITIONS: each file name once, in some order, then END_OF_LIST. */
  predicate ListingReply(reply: seq<Token>, listed: seq<string>, disk: Disk) {
    Enumerates(listed, disk.Keys) && reply == UtfTokens(listed) + [Utf(END_OF_LIST)]
  }

  /** Storing then retrieving the same (file, partition) gives back the bytes received. */
  lemma RetrieveAfterStore(disk: Disk, fileName: string, n: int, size: int, payload: seq<byte>)
    ensures Lookup(Stored(disk, fileName, n, size, payload), fileName, n) == Some(Prefix(payload, size))
    ensures var got := |Prefix(payload, size)|;
      PartitionSizeReply(Stored(disk, fileName, n, size, payload), fileName, n, false) == if got > 0 then got else -1
  {
  }

  /** Storing replaces: a second store of the same partition leaves no trace of the first. */
  lemma StoreReplaces(disk: Disk, fileName: string, n: int, size1: int, payload1: seq<byte>, size2: int, payload2: seq<byte>)
    ensures Stored(Stored(disk, fileName, n, size1, payload1), fileName, n, size2, payload2)
         == Stored(disk, fileName, n, size2, payload2)
  {
  }

  /** After a delete the partition is absent, and its size is reported as -1. */
  lemma SizeAfterDelete(disk: Disk, fileName: string, n: int, sizeError: bool)
    ensures Lookup(Deleted(disk, fileName, n), fileName, n) == None
    ensures PartitionSizeReply(Deleted(disk, fileName, n), fileName, n, sizeError) == -1
  {
  }

  /** Storing or deleting one partition leaves every other (file, partition) pair as it was. */
  lemma OtherPartitionsUntouched(disk: Disk, fileName: string, n: int, size: int, payload: seq<byte>, other: string, k: int)
    requires other != fileName || k != n
    ensures Lookup(Stored(disk, fileName, n, size, payload), other, k) == Lookup(disk, other, k)
    ensures Lookup(Deleted(disk, fileName, n), other, k) == Lookup(disk, other, k)
  {
    if PartitionFileName(other, k) == PartitionFileName(fileName, n) {
      PartitionFileNameInjective(other, k, fileName, n);
      assert false;
    }
  }

  class Slave {
    var disk: Disk
    var availableFiles: seq<string>
    const bufferSize: Positive

    /** A node over an existing data directory: the file list is scanned at once. */
    constructor (bufferSize: Positive, disk: Disk)
      ensures this.bufferSize == bufferSize && this.disk == disk
      ensures Enumerates(availableFiles, disk.Keys)
    {
      this.bufferSize := bufferSize;
      this.disk := disk;
      availableFiles := [];
      new;
      ScanAvailableFiles();
    }

    /** The list is emptied, then refilled with the distinct names in the directory. */
    method ScanAvailableFiles()
      modifies this
      ensures disk == old(disk)
      ensures Enumerates(availableFiles, disk.Keys)
    {
      availableFiles := [];
      var uniqueFiles: set<string> := {};
      var walk := disk.Keys;
      while walk != {}
        invariant walk <= disk.Keys && uniqueFiles == disk.Keys - walk && disk == old(disk)
        decreases |walk|
      {
        var fileName :| fileName in walk;
        uniqueFiles := uniqueFiles + {fileName};
        walk := walk - {fileName};
      }
      var rest := uniqueFiles;
      while rest != {}
        invariant rest <= uniqueFiles && disk == old(disk)
        invariant Enumerates(availableFiles, uniqueFiles - rest)
        decreases |rest|
      {
        var fileName :| fileName in rest;
        availableFiles := availableFiles + [fileName];
        rest := rest - {fileName};
      }
    }

    /**
     * STORE_PARTITION: the partition file is truncated, then receives up to
     * `partitionSize` bytes in buffer-sized reads; the end of the stream
     * stops the copy silently. Returns the number of bytes consumed.
     */
    method HandlePartitionStorage(fileName: string, partitionNumber: int, partitionSize: int, payload: seq<byte>)
      returns (consumed: nat)
      modifies this
      ensures disk == Stored(old(disk), fileName, partitionNumber, partitionSize, payload)
      ensures availableFiles == old(availableFiles)
      ensures consumed == |Prefix(payload, partitionSize)|
    {
      var name := PartitionFileName(fileName, partitionNumber);
      disk := disk[name := []];
      var remaining := partitionSize;
      var pos := 0;
      while remaining > 0
        invariant 0 <= pos <= |payload| && remaining == partitionSize - pos
        invariant pos == 0 || remaining >= 0
        invariant disk == old(disk)[name := payload[..pos]]
        invariant availableFiles == old(availableFiles)
        decreases remaining
      {
        var bytesRead := ReadCount(payload, pos, Min(bufferSize, remaining));
        if bytesRead == -1 {
          break;
        }
        assert payload[..pos + bytesRead] == payload[..pos] + payload[pos..pos + bytesRead];
        disk := disk[name := disk[name] + payload[pos..pos + bytesRead]];
        pos := pos + bytesRead;
        remaining := remaining - bytesRead;
      }
      consumed := pos;
    }

    /**
     * RETRIEVE_PARTITION: false for a missing partition; otherwise true, the
     * size, then the contents in buffer-sized writes.
     */
    method HandlePartitionRetrieval(fileName: string, partitionNumber: int) returns (reply: seq<Token>)
      ensures RetrievalReply(reply, Lookup(disk, fileName, partitionNumber), bufferSize)
    {
      var name := PartitionFileName(fileName, partitionNumber);
      if name !in disk {
        return [Bool(false)];
      }
      var data := disk[name];
      reply := [Bool(true), Long(|data|)];
      var remaining := |data|;
      var pos := 0;
      while remaining > 0
        invariant 0 <= pos <= |data| && remaining == |data| - pos
        invariant |reply| >= 2 && reply[0] == Bool(true) && reply[1] == Long(|data|)
        invariant RawChunks(reply[2..], bufferSize) && RawBytes(reply[2..]) == data[..pos]
        decreases remaining
      {
        var bytesRead := ReadCount(data, pos, Min(bufferSize, remaining));
        var chunk := data[pos..pos + bytesRead];
        assert (reply + [Raw(chunk)])[2..] == reply[2..] + [Raw(chunk)];
        assert data[..pos + bytesRead] == data[..pos] + chunk;
        reply := reply + [Raw(chunk)];
        pos := pos + bytesRead;
        remaining := remaining - bytesRead;
      }
      assert data[..pos] == data;
    }

    /** GET_SPACE: the usable space of the data directory, a file-system query passed in. */
    method SendAvailableSpace(usableSpace: int) returns (reply: seq<Token>)
      ensures reply == [Long(usableSpace)]
    {
      reply := [Long(usableSpace)];
    }

    /** LIST_PARTITIONS: every file name once, then END_OF_LIST. */
    method SendPartitionsList() returns (reply: seq<Token>, listed: seq<string>)
      ensures ListingReply(reply, listed, disk)
    {
      listed := [];
      reply := [];
      var stream := disk.Keys;
      while stream != {}
        invariant stream <= disk.Keys
        invariant Enumerates(listed, disk.Keys - stream)
        invariant reply == UtfTokens(listed)
        decreases |stream|
      {
        var fileName :| fileName in stream;
        if fileName !in listed {
          reply := reply + [Utf(fileName)];
          listed := listed + [fileName];
        }
        stream := stream - {fileName};
      }
      reply := reply + [Utf(END_OF_LIST)];
    }

    /** GET_PARTITION_SIZE: one long, the size or -1; a missing partition does not end the connection. */
    method SendPartitionSize(fileName: string, partitionNumber: int, sizeError: bool) returns (reply: seq<Token>)
      ensures reply == [Long(PartitionSizeReply(disk, fileName, partitionNumber, sizeError))]
    {
      var name := PartitionFileName(fileName, partitionNumber);
      if name !in disk {
        return [Long(-1)];
      }
      if sizeError {
        reply := [Long(-1)];
      } else if |disk[name]| <= 0 {
        reply := [Long(-1)];
      } else {
        reply := [Long(|disk[name]|)];
      }
    }

    /**
     * DELETE_PARTITION: the partition file is removed if present; absence is
     * not an error. When `Files.delete` raises (`deleteError`) the exception
     * is logged and the file stays.
     */
    method HandlePartitionDeletion(fileName: string, partitionNumber: int, deleteError: bool)
      modifies this
      ensures disk == if deleteError then old(disk) else Deleted(old(disk), fileName, partitionNumber)
      ensures availableFiles == old(availableFiles)
    {
      var name := PartitionFileName(fileName, partitionNumber);
      if name in disk {
        if !deleteError {
          disk := disk - {name};
        }
      }
    }

    /**
     * One connection. STORE and DELETE change the directory and rescan the
     * file list; the other commands change nothing; an unknown command gets
     * no reply.
     */
    method Handle(request: Request, usableSpace: int, sizeError: bool, deleteError: bool) returns (reply: seq<Token>)
      modifies this
      ensures request.StorePartition? ==>
        disk == Stored(old(disk), request.fileName, request.partitionNumber, request.partitionSize, request.payload)
        && Enumerates(availableFiles, disk.Keys) && reply == []
      ensures request.DeletePartition? ==>
        disk == (if deleteError then old(disk) else Deleted(old(disk), request.fileName, request.partitionNumber))
        && Enumerates(availableFiles, disk.Keys) && reply == []
      ensures !request.StorePartition? && !request.DeletePartition? ==>
        disk == old(disk) && availableFiles == old(availableFiles)
      ensures request.RetrievePartition? ==>
        RetrievalReply(reply, Lookup(disk, request.fileName, request.partitionNumber), bufferSize)
      ensures request.GetSpace? ==> reply == [Long(usableSpace)]
      ensures request.ListPartitions? ==> exists listed :: ListingReply(reply, listed, disk)
      ensures request.GetPartitionSize? ==>
        reply == [Long(PartitionSizeReply(disk, request.fileName, request.partitionNumber, sizeError))]
      ensures request.Unknown? ==> reply == []
    {
      match request
      case StorePartition(fileName, n, size, payload) =>
        var _ := HandlePartitionStorage(fileName, n, size, payload);
        ScanAvailableFiles();
        reply := [];
      case RetrievePartition(fileName, n) =>
        reply := HandlePartitionRetrieval(fileName, n);
      case GetSpace =>
        reply := SendAvailableSpace(usableSpace);
      case ListPartitions =>
        var listed;
        reply, listed := SendPartitionsList();
      case GetPartitionSize(fileName, n) =>
        reply := SendPartitionSize(fileName, n, sizeError);
      case DeletePartition(fileName, n) =>
        HandlePartitionDeletion(fileName, n, deleteError);
        ScanAvailableFiles();
        reply := [];
      case Unknown(_) =>
        reply := [];
    }
  }
}
