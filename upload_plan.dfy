/**
 * Where an upload sends its bytes and what it records. With n registered
 * nodes (in registry iteration order `avail`) and partition size P = fileSize
 * div n, pass i of the placement loop sends partition i+1 to avail[i] and, when
 * i+1 < n, sends partition i+1 again, with the next P bytes, to avail[i+1]. A
 * complete upload therefore opens 2n-1 connections, numbered s = 0 .. 2n-2:
 * connection s goes to avail[(s+1)/2] with partition number s/2+1 and the
 * s-th P-byte chunk of the client stream.
 */
module UploadPlan {
  import opened Wrappers
  import opened JavaStrings
  import opened Streams
  import opened Naming
  import opened CoordinatorState

  /** Java's `long / int`: the quotient truncated toward zero. */
  function JavaDiv(a: int, b: int): int
    requires b > 0
  {
    if a >= 0 then a / b else -((-a) / b)
  }

  /** The number of slave connections a complete upload to n nodes opens. */
  function SendCount(n: int): int {
    2 * n - 1
  }

  /** How many of the `total` connections are made when connection `failAt` (counting from 0) fails. */
  function Connections(failAt: Option<nat>, total: nat): nat {
    match failAt
    case None => total
    case Some(f) => Min(f, total)
  }

  /** The registry position that connection s goes to. */
  function Target(s: nat): nat {
    (s + 1) / 2
  }

  /** The partition number that connection s stores. */
  function PartNumber(s: nat): nat {
    s / 2 + 1
  }

  /** Bytes of the client stream consumed by the first s connections: each takes up to `size` more. */
  function Consumed(inputLength: nat, size: int, s: nat): (c: nat)
    ensures c <= inputLength
  {
    if s == 0 || size <= 0 then 0 else Min(Consumed(inputLength, size, s - 1) + size, inputLength)
  }

  /** The first s connections consume s*P bytes, or the whole stream when it is shorter. */
  lemma {:induction false} ConsumedIsProduct(inputLength: nat, size: int, s: nat)
    requires size > 0
    ensures Consumed(inputLength, size, s) == Min(s * size, inputLength)
  {
    if s > 0 {
      ConsumedIsProduct(inputLength, size, s - 1);
      assert s * size == (s - 1) * size + size;
    }
  }

  /** The bytes connection s forwards: the next `size` bytes, or fewer at the end of the stream. */
  function Chunk(input: seq<byte>, size: int, s: nat): seq<byte> {
    Prefix(input[Consumed(|input|, size, s)..], size)
  }

  /** STORE_PARTITION as sent: node, port, file name, partition number, the announced size, the bytes. */
  datatype StoreOrder = StoreOrder(address: string, port: int, fileName: string, partitionNumber: int, partitionSize: int, data: seq<byte>)

  function OrderAt(fileName: string, avail: seq<SlaveInfo>, size: int, input: seq<byte>, s: nat): StoreOrder
    requires Target(s) < |avail|
  {
    var slave := avail[Target(s)];
    StoreOrder(slave.address, slave.port, fileName, PartNumber(s), size, Chunk(input, size, s))
  }

  /** The orders of the first c connections, in the order they are opened. */
  function Orders(fileName: string, avail: seq<SlaveInfo>, size: int, input: seq<byte>, c: nat): (orders: seq<StoreOrder>)
    requires c <= SendCount(|avail|)
    ensures |orders| == c
  {
    if c == 0 then []
    else Orders(fileName, avail, size, input, c - 1) + [OrderAt(fileName, avail, size, input, c - 1)]
  }

  /**
   * The owner recorded for partition k after c connections: the node of the
   * second send of k once that send is made, the node of the first before.
   */
  function OwnerAfter(avail: seq<SlaveInfo>, c: nat, k: int): string
    requires c <= SendCount(|avail|) && 1 <= k <= (c + 1) / 2
  {
    if 2 * k - 1 < c then avail[k].address else avail[k - 1].address
  }

  function Owners(avail: seq<SlaveInfo>, c: nat): map<int, string>
    requires c <= SendCount(|avail|)
  {
    map k | 1 <= k <= (c + 1) / 2 :: OwnerAfter(avail, c, k)
  }

  /** The one entry every key of the upload is bound to after c connections. */
  function UploadEntry(fileName: string, avail: seq<SlaveInfo>, c: nat): FilePartitionInfo
    requires c <= SendCount(|avail|)
  {
    FilePartitionInfo(fileName, |avail|, Owners(avail, c))
  }

  /** The keys written by the first c connections. */
  function UploadKeys(fileName: string, c: nat): set<string> {
    set k | 1 <= k <= (c + 1) / 2 :: PartitionFileName(fileName, k)
  }

  /** The catalog with every key in `keys` bound to the one shared `info`. */
  function Shared(catalog: Catalog, keys: set<string>, info: FilePartitionInfo): Catalog {
    catalog + map key | key in keys :: info
  }

  /** The catalog after c connections: every key written so far bound to the shared entry. */
  function Uploaded(catalog: Catalog, fileName: string, avail: seq<SlaveInfo>, c: nat): Catalog
    requires c <= SendCount(|avail|)
  {
    Shared(catalog, UploadKeys(fileName, c), UploadEntry(fileName, avail, c))
  }

  // ---------------------------------------------------------------- one connection at a time

  /** Connection s records its node as the owner of its partition number and changes no other owner. */
  lemma OwnersStep(avail: seq<SlaveInfo>, s: nat)
    requires s < SendCount(|avail|)
    ensures Owners(avail, s + 1) == Owners(avail, s)[PartNumber(s) := avail[Target(s)].address]
  {
    var before := Owners(avail, s);
    var after := Owners(avail, s + 1);
    forall k | 1 <= k <= (s + 2) / 2
      ensures after[k] == before[PartNumber(s) := avail[Target(s)].address][k]
    {
    }
    assert after.Keys == before[PartNumber(s) := avail[Target(s)].address].Keys;
  }

  /** Connection s writes key `fileName.part<s/2+1>`. */
  lemma KeysStep(fileName: string, s: nat)
    ensures UploadKeys(fileName, s + 1) == UploadKeys(fileName, s) + {PartitionFileName(fileName, PartNumber(s))}
  {
    var k := PartNumber(s);
    assert PartitionFileName(fileName, k) in UploadKeys(fileName, s + 1);
  }

  /** Connection s consumes exactly the bytes it forwards. */
  lemma ConsumedStep(input: seq<byte>, size: int, s: nat)
    ensures Consumed(|input|, size, s) + |Chunk(input, size, s)| == Consumed(|input|, size, s + 1)
  {
  }

  /**
   * The locals of the placement loop: connections made, client bytes
   * consumed, the shared entry, the keys bound to it, the orders sent.
   */
  datatype Placement = Placement(sent: nat, consumed: nat, info: FilePartitionInfo, written: set<string>, orders: seq<StoreOrder>)

  /** The placement loop's locals after its first `p.sent` connections. */
  predicate PlacedUpTo(p: Placement, fileName: string, avail: seq<SlaveInfo>, size: int, input: seq<byte>) {
    p.sent <= SendCount(|avail|)
    && p.consumed == Consumed(|input|, size, p.sent)
    && p.orders == Orders(fileName, avail, size, input, p.sent)
    && p.info == UploadEntry(fileName, avail, p.sent)
    && p.written == UploadKeys(fileName, p.sent)
  }

  /**
   * One more connection carries the loop's locals to the next connection:
   * it forwards the next chunk, records its node as the owner of its
   * partition number, writes that partition's key and sends its order.
   */
  lemma PlacementStep(p: Placement, q: Placement, fileName: string, avail: seq<SlaveInfo>, size: int, input: seq<byte>)
    requires PlacedUpTo(p, fileName, avail, size, input) && p.sent < SendCount(|avail|)
    requires var s := p.sent;
      var slave := avail[Target(s)];
      var chunk := Prefix(input[p.consumed..], size);
      q.sent == s + 1
      && q.consumed == p.consumed + |chunk|
      && q.info == p.info.(partitionToSlave := p.info.partitionToSlave[PartNumber(s) := slave.address])
      && q.written == p.written + {PartitionFileName(fileName, PartNumber(s))}
      && q.orders == p.orders + [StoreOrder(slave.address, slave.port, fileName, PartNumber(s), size, chunk)]
    ensures PlacedUpTo(q, fileName, avail, size, input)
  {
    ConsumedStep(input, size, p.sent);
    OwnersStep(avail, p.sent);
    KeysStep(fileName, p.sent);
  }

  // ---------------------------------------------------------------- the whole placement

  /** The orders, one per connection, as described at the top of this module. */
  lemma {:induction false} OrdersShape(fileName: string, avail: seq<SlaveInfo>, size: int, input: seq<byte>, c: nat)
    requires c <= SendCount(|avail|)
    ensures |Orders(fileName, avail, size, input, c)| == c
    ensures forall s :: 0 <= s < c ==> Orders(fileName, avail, size, input, c)[s] == OrderAt(fileName, avail, size, input, s)
  {
    if c > 0 {
      OrdersShape(fileName, avail, size, input, c - 1);
    }
  }

  /**
   * Pass i < n-1 sends partition i+1 twice, to avail[i] and then avail[i+1],
   * consuming two partition-sized chunks; the last pass sends partition n once.
   */
  lemma TwoSendsPerPass(avail: seq<SlaveInfo>, i: nat)
    requires i < |avail|
    ensures Target(2 * i) == i && PartNumber(2 * i) == i + 1
    ensures i + 1 < |avail| ==> 2 * i + 1 < SendCount(|avail|) && Target(2 * i + 1) == i + 1 && PartNumber(2 * i + 1) == i + 1
    ensures i + 1 == |avail| ==> 2 * i + 1 == SendCount(|avail|)
  {
  }

  /** The owner of partition k once every connection is made: avail[min(k, n-1)]. */
  function FinalOwner(avail: seq<SlaveInfo>, k: int): string
    requires 1 <= k <= |avail|
  {
    avail[Min(k, |avail| - 1)].address
  }

  /**
   * After a complete upload partition k (1..n) is owned by avail[min(k, n-1)]:
   * the second send of each partition overwrites the first, so the first
   * node keeps no partition when n > 1.
   */
  lemma CompleteUploadOwners(fileName: string, avail: seq<SlaveInfo>)
    requires |avail| > 0
    ensures var n := |avail|;
      Owners(avail, SendCount(n)) == (map k | 1 <= k <= n :: FinalOwner(avail, k))
      && UploadEntry(fileName, avail, SendCount(n)).totalParts == n
      && UploadKeys(fileName, SendCount(n)) == (set k | 1 <= k <= n :: PartitionFileName(fileName, k))
  {
    var n := |avail|;
    assert (SendCount(n) + 1) / 2 == n;
  }

  /** With enough input, connection s forwards bytes s*P .. (s+1)*P of the client stream. */
  lemma ChunkIsSlice(input: seq<byte>, size: int, s: nat)
    requires size > 0 && (s + 1) * size <= |input|
    ensures s * size + size <= |input|
    ensures Chunk(input, size, s) == input[s * size..s * size + size]
  {
    assert (s + 1) * size == s * size + size;
    ConsumedIsProduct(|input|, size, s);
  }

  /** No two registry positions hold the same node address. */
  predicate DistinctAddresses(avail: seq<SlaveInfo>) {
    forall i, j :: 0 <= i < j < |avail| ==> avail[i].address != avail[j].address
  }

  /**
   * The first P bytes of the client stream are orphaned when there is more
   * than one node: connection 0 carries them, as partition 1, to avail[0],
   * the only connection to that registry position; every later connection
   * and every recorded owner is a later position, so (addresses being
   * distinct) the node holding those bytes is never asked for them.
   */
  lemma FirstChunkOrphaned(fileName: string, avail: seq<SlaveInfo>, size: int, input: seq<byte>)
    requires |avail| >= 2
    ensures var n := |avail|;
      var orders := Orders(fileName, avail, size, input, SendCount(n));
      |orders| == SendCount(n)
      && orders[0] == StoreOrder(avail[0].address, avail[0].port, fileName, 1, size, Prefix(input, size))
      && (forall s :: 1 <= s < SendCount(n) ==> 1 <= Target(s) < n && orders[s].address == avail[Target(s)].address)
      && (DistinctAddresses(avail) ==>
            (forall s :: 1 <= s < SendCount(n) ==> orders[s].address != avail[0].address)
            && avail[0].address !in Owners(avail, SendCount(n)).Values)
  {
    var n := |avail|;
    var orders := Orders(fileName, avail, size, input, SendCount(n));
    OrdersShape(fileName, avail, size, input, SendCount(n));
    assert input[Consumed(|input|, size, 0)..] == input;
    if DistinctAddresses(avail) {
      FirstNodeOwnsNothing(fileName, avail);
    }
  }

  /** With n ≥ 2 nodes of distinct addresses, no partition's recorded owner is avail[0]. */
  lemma FirstNodeOwnsNothing(fileName: string, avail: seq<SlaveInfo>)
    requires |avail| >= 2 && DistinctAddresses(avail)
    ensures avail[0].address !in Owners(avail, SendCount(|avail|)).Values
  {
    var n := |avail|;
    CompleteUploadOwners(fileName, avail);
    var owners := Owners(avail, SendCount(n));
    forall a | a in owners.Values
      ensures a != avail[0].address
    {
      var k :| k in owners && owners[k] == a;
      assert a == avail[Min(k, n - 1)].address;
    }
  }

  /** Past byte (2n-2)*P, where P = L div n > 0, fewer than P + 1 bytes of L remain. */
  lemma TailFitsOneChunk(length: nat, n: int, size: int)
    requires n >= 2 && size == length / n && size > 0
    ensures length - Min((2 * n - 2) * size, length) <= size
  {
    var r := length % n;
    assert length == n * size + r;
    var d := n - 1;
    assert d * size >= d by {
      assert d * size == d * (size - 1) + d;
      assert d * (size - 1) >= 0;
    }
    assert (2 * n - 2) * size == n * size + (d - 1) * size;
    assert d * size == (d - 1) * size + size;
  }

  /**
   * When the client sends exactly fileSize bytes and P = fileSize div n is
   * positive, the last connection, to avail[n-1] as partition n, carries the
   * whole rest of the stream from byte (2n-2)*P on (nothing when that is past
   * the end): the tail is forwarded, and with two nodes it is the remainder
   * fileSize mod 2.
   */
  lemma LastConnectionCarriesTail(fileName: string, avail: seq<SlaveInfo>, input: seq<byte>)
    requires |avail| >= 2 && JavaDiv(|input|, |avail|) > 0
    ensures var n := |avail|;
      var size := JavaDiv(|input|, n);
      var last := Orders(fileName, avail, size, input, SendCount(n))[SendCount(n) - 1];
      last.address == avail[n - 1].address && last.partitionNumber == n
      && last.data == input[Min((2 * n - 2) * size, |input|)..]
      && (n == 2 ==> 2 * size <= |input| && last.data == input[2 * size..] && |last.data| == |input| % 2)
  {
    var n := |avail|;
    var size := JavaDiv(|input|, n);
    var s := SendCount(n) - 1;
    OrdersShape(fileName, avail, size, input, SendCount(n));
    assert Target(s) == n - 1 && PartNumber(s) == n;
    ConsumedIsProduct(|input|, size, s);
    var m := Min(s * size, |input|);
    assert s * size == (2 * n - 2) * size;
    TailFitsOneChunk(|input|, n, size);
    assert Chunk(input, size, s) == input[m..];
  }

  /** Java's division of a length by a larger count is 0. */
  lemma ShortDivisionIsZero(length: nat, n: int)
    requires length < n
    ensures JavaDiv(length, n) == 0
  {
  }

  /** With partition size 0 every order carries no byte. */
  lemma EmptyOrdersOfSizeZero(fileName: string, avail: seq<SlaveInfo>, input: seq<byte>, c: nat)
    requires c <= SendCount(|avail|)
    ensures forall s :: 0 <= s < c ==> Orders(fileName, avail, 0, input, c)[s].data == [] && Orders(fileName, avail, 0, input, c)[s].partitionSize == 0
  {
    OrdersShape(fileName, avail, 0, input, c);
  }

  /**
   * A file shorter than the number of nodes has partition size 0: every
   * connection forwards no byte, and the whole file is left on the stream.
   */
  lemma ShortFileForwardsNothing(fileName: string, avail: seq<SlaveInfo>, input: seq<byte>)
    requires |input| < |avail|
    ensures JavaDiv(|input|, |avail|) == 0
    ensures var orders := Orders(fileName, avail, JavaDiv(|input|, |avail|), input, SendCount(|avail|));
      forall s :: 0 <= s < |orders| ==> orders[s].data == [] && orders[s].partitionSize == 0
  {
    ShortDivisionIsZero(|input|, |avail|);
    EmptyOrdersOfSizeZero(fileName, avail, input, SendCount(|avail|));
  }

  /**
   * With two nodes the whole effect in one statement: both partitions end up
   * owned by avail[1], which holds bytes P .. 2P (partition 1) and 2P .. end
   * (partition 2), so the recorded owners together hold everything but the
   * first P bytes, which went to avail[0] alone.
   */
  lemma TwoNodeUploadLosesHead(fileName: string, avail: seq<SlaveInfo>, input: seq<byte>)
    requires |avail| == 2 && |input| >= 2
    ensures var size := JavaDiv(|input|, 2);
      var orders := Orders(fileName, avail, size, input, SendCount(2));
      Owners(avail, SendCount(2)) == map[1 := avail[1].address, 2 := avail[1].address]
      && orders[0].address == avail[0].address && orders[0].data == input[..size]
      && orders[1].address == avail[1].address && orders[1].partitionNumber == 1
      && orders[2].address == avail[1].address && orders[2].partitionNumber == 2
      && orders[1].data + orders[2].data == input[size..]
  {
    var size := JavaDiv(|input|, 2);
    var orders := Orders(fileName, avail, size, input, SendCount(2));
    assert size >= 1;
    FirstChunkOrphaned(fileName, avail, size, input);
    LastConnectionCarriesTail(fileName, avail, input);
    CompleteUploadOwners(fileName, avail);
    assert Owners(avail, SendCount(2)) == map[1 := avail[1].address, 2 := avail[1].address];
    ChunkIsSlice(input, size, 1);
    assert orders[1].data == input[size..2 * size];
    assert input[size..] == input[size..2 * size] + input[2 * size..];
  }

  /**
   * Every key an upload records names the uploaded file and one of the
   * partitions written so far, so the file list shows the file and the
   * download parses every index back. File names containing ".part" are
   * excluded: their keys split at the wrong marker.
   */
  lemma UploadKeysReadBack(fileName: string, c: nat)
    requires !Contains(fileName, PART_MARKER) && (c + 1) / 2 <= INT_MAX
    ensures forall key :: key in UploadKeys(fileName, c) ==>
      FilePrefix(key) == Some(fileName)
      && PartIndexOf(key).Some? && 1 <= PartIndexOf(key).value <= (c + 1) / 2
      && key == PartitionFileName(fileName, PartIndexOf(key).value)
  {
    forall key | key in UploadKeys(fileName, c)
      ensures FilePrefix(key) == Some(fileName)
      ensures PartIndexOf(key).Some? && 1 <= PartIndexOf(key).value <= (c + 1) / 2
      ensures key == PartitionFileName(fileName, PartIndexOf(key).value)
    {
      var k :| 1 <= k <= (c + 1) / 2 && key == PartitionFileName(fileName, k);
      PartitionNameRoundTrip(fileName, k);
    }
  }

  /**
   * A failed upload keeps what it recorded: the keys of the partitions sent
   * before the failing connection stay in the catalog, and no other key
   * changes.
   */
  lemma NoRollback(catalog: Catalog, fileName: string, avail: seq<SlaveInfo>, c: nat)
    requires c <= SendCount(|avail|)
    ensures Uploaded(catalog, fileName, avail, c).Keys == catalog.Keys + UploadKeys(fileName, c)
    ensures forall key :: key in UploadKeys(fileName, c) ==> Uploaded(catalog, fileName, avail, c)[key] == UploadEntry(fileName, avail, c)
    ensures forall key :: key in catalog && key !in UploadKeys(fileName, c) ==> Uploaded(catalog, fileName, avail, c)[key] == catalog[key]
    ensures c > 0 ==> PartitionFileName(fileName, 1) in Uploaded(catalog, fileName, avail, c)
  {
    if c > 0 {
      assert PartitionFileName(fileName, 1) in UploadKeys(fileName, c);
    }
  }

  /** After an upload, the file list of a listable catalog shows the file. */
  lemma UploadedFileIsListed(catalog: Catalog, fileName: string, avail: seq<SlaveInfo>, c: nat)
    requires c <= SendCount(|avail|) && 0 < c
    requires !Contains(fileName, PART_MARKER) && (c + 1) / 2 <= INT_MAX
    requires !HasUnlistableKey(catalog)
    ensures !HasUnlistableKey(Uploaded(catalog, fileName, avail, c))
    ensures fileName in ListedNames(Uploaded(catalog, fileName, avail, c))
  {
    var after := Uploaded(catalog, fileName, avail, c);
    UploadKeysReadBack(fileName, c);
    NoRollback(catalog, fileName, avail, c);
    assert PartitionFileName(fileName, 1) in UploadKeys(fileName, c);
  }

  /**
   * Deleting the uploaded file removes every key the upload recorded, for a
   * file name that does not itself contain ".part".
   */
  lemma UploadThenDelete(catalog: Catalog, fileName: string, avail: seq<SlaveInfo>, c: nat)
    requires c <= SendCount(|avail|)
    requires !Contains(fileName, PART_MARKER) && (c + 1) / 2 <= INT_MAX
    ensures forall key :: key in UploadKeys(fileName, c) ==> key !in AfterDelete(Uploaded(catalog, fileName, avail, c), fileName)
  {
    UploadKeysReadBack(fileName, c);
  }
}
