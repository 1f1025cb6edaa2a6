/**
 * What a download asks of the storage nodes and what it forwards. The
 * coordinator collects the catalog entries whose key contains
 * `name + ".part"`, asks for the size of partitions 1, 2, ... in turn by
 * cycling through those entries until one names an owner, and then, for
 * every collected entry, retrieves partitions 1..m in ascending order.
 */
module DownloadPlan {
  import opened Wrappers
  import opened JavaStrings
  import opened Streams
  import opened Naming
  import opened CoordinatorState

  /** A catalog key the download collects for `fileName`. */
  predicate Matches(key: string, fileName: string) {
    Contains(key, fileName + PART_MARKER)
  }

  function MatchedKeys(catalog: Catalog, fileName: string): set<string> {
    set key | key in catalog && Matches(key, fileName)
  }

  /** Some collected key makes `split("\\.part")[1]` or parseInt throw. */
  predicate HasUnreadableMatch(catalog: Catalog, fileName: string) {
    exists key :: key in catalog && Matches(key, fileName) && PartIndexOf(key).None?
  }

  /** The distinct partition indices of the collected keys. */
  function PartIndices(catalog: Catalog, fileName: string): set<int>
    requires !HasUnreadableMatch(catalog, fileName)
  {
    set key | key in catalog && Matches(key, fileName) :: PartIndexOf(key).value
  }

  function Sum(xs: seq<int>): int {
    if xs == [] then 0 else Sum(xs[..|xs| - 1]) + xs[|xs| - 1]
  }

  /** The owner an entry records for partition k, if any. */
  function Owner(info: FilePartitionInfo, k: int): Option<string> {
    if k in info.partitionToSlave then Some(info.partitionToSlave[k]) else None
  }

  // ---------------------------------------------------------------- the size scan

  /**
   * The answer to GET_PARTITION_SIZE from a node: the long it sends, or None
   * when the connection or the read fails.
   */
  type SizeOracle = (string, int) -> Option<int>

  /**
   * The sizes gathered for partitions 1..|sizes| and whether every partition
   * was sized, or Stalled when the scan had not ended after `fuel` passes.
   */
  datatype ScanOutcome = Scanned(sizes: seq<int>, complete: bool) | Stalled

  /**
   * The size loop from pass position `i` with partitions 1..|sizes| already
   * sized. A position past the end wraps to entry 0; an entry without an
   * owner for the current partition is skipped; a failed or non-positive
   * answer ends the loop incomplete.
   */
  function Scan(list: seq<FilePartitionInfo>, sizeOf: SizeOracle, nParts: int, sizes: seq<int>, i: nat, fuel: nat): ScanOutcome
    requires |list| > 0
    decreases fuel
  {
    var part := |sizes| + 1;
    if part > nParts then Scanned(sizes, true)
    else if fuel == 0 then Stalled
    else
      var j := if i >= |list| then 0 else i;
      match Owner(list[j], part)
      case None => Scan(list, sizeOf, nParts, sizes, j + 1, fuel - 1)
      case Some(address) =>
        match sizeOf(address, part)
        case None => Scanned(sizes, false)
        case Some(size) =>
          if size <= 0 then Scanned(sizes, false)
          else Scan(list, sizeOf, nParts, sizes + [size], j + 1, fuel - 1)
  }

  /** Some collected entry names an owner of partition k, which some node then answered with `size`. */
  predicate Reported(list: seq<FilePartitionInfo>, sizeOf: SizeOracle, k: int, size: int) {
    exists j :: 0 <= j < |list| && Owner(list[j], k).Some? && sizeOf(Owner(list[j], k).value, k) == Some(size)
  }

  /**
   * The scan only adds positive sizes, each answered for its partition by an
   * owner recorded in a collected entry; a complete scan has sized every
   * partition 1..nParts.
   */
  lemma {:induction false} ScanSizes(list: seq<FilePartitionInfo>, sizeOf: SizeOracle, nParts: int, sizes: seq<int>, i: nat, fuel: nat)
    requires |list| > 0 && |sizes| <= nParts
    requires forall m :: 0 <= m < |sizes| ==> sizes[m] > 0
    ensures Scan(list, sizeOf, nParts, sizes, i, fuel).Scanned? ==>
      var s := Scan(list, sizeOf, nParts, sizes, i, fuel).sizes;
      |sizes| <= |s| <= nParts && s[..|sizes|] == sizes
      && (forall m :: 0 <= m < |s| ==> s[m] > 0)
      && (forall m :: |sizes| <= m < |s| ==> Reported(list, sizeOf, m + 1, s[m]))
      && (Scan(list, sizeOf, nParts, sizes, i, fuel).complete ==> |s| == nParts)
    decreases fuel
  {
    var part := |sizes| + 1;
    if part <= nParts && fuel > 0 {
      var j := if i >= |list| then 0 else i;
      match Owner(list[j], part)
      case None =>
        ScanSizes(list, sizeOf, nParts, sizes, j + 1, fuel - 1);
      case Some(address) =>
        match sizeOf(address, part)
        case None =>
        case Some(size) =>
          if size > 0 {
            var next := sizes + [size];
            ScanSizes(list, sizeOf, nParts, next, j + 1, fuel - 1);
            var r := Scan(list, sizeOf, nParts, next, j + 1, fuel - 1);
            if r.Scanned? {
              assert r.sizes[..|sizes|] == next[..|sizes|] == sizes;
              assert r.sizes[|sizes|] == size;
              assert Reported(list, sizeOf, part, size);
            }
          }
    }
  }

  /**
   * The loop spins forever when no collected entry records an owner for the
   * partition it is looking for: whatever the fuel, the scan stalls.
   */
  lemma {:induction false} ScanStallsWithoutOwner(list: seq<FilePartitionInfo>, sizeOf: SizeOracle, nParts: int, sizes: seq<int>, i: nat, fuel: nat)
    requires |list| > 0 && |sizes| + 1 <= nParts
    requires forall j :: 0 <= j < |list| ==> Owner(list[j], |sizes| + 1).None?
    ensures Scan(list, sizeOf, nParts, sizes, i, fuel) == Stalled
    decreases fuel
  {
    if fuel > 0 {
      var j := if i >= |list| then 0 else i;
      ScanStallsWithoutOwner(list, sizeOf, nParts, sizes, j + 1, fuel - 1);
    }
  }

  // ---------------------------------------------------------------- the retrieval

  /** A RETRIEVE_PARTITION exchange: the node cannot be reached, answers false, or answers a size and its bytes. */
  datatype Retrieval = Unreachable | NotFound | Found(size: int, data: seq<byte>)

  /**
   * The node's answer for a (possibly missing) owner address and partition;
   * a missing address connects to the local host.
   */
  type RetrieveOracle = (Option<string>, int) -> Retrieval

  /** The retrievals for one entry: partitions 1..m in ascending order. */
  function EntryPlan(info: FilePartitionInfo, m: nat): seq<(Option<string>, int)> {
    if m == 0 then [] else EntryPlan(info, m - 1) + [(Owner(info, m), m)]
  }

  /** The retrievals for all entries, one entry after another. */
  function Plan(list: seq<FilePartitionInfo>, m: nat): seq<(Option<string>, int)> {
    if list == [] then [] else Plan(list[..|list| - 1], m) + EntryPlan(list[|list| - 1], m)
  }

  /** The bytes forwarded to the client and whether a retrieval failed, which ends the download. */
  datatype Delivery = Delivery(data: seq<byte>, failed: bool)

  function Deliver(plan: seq<(Option<string>, int)>, retrieve: RetrieveOracle): Delivery {
    if plan == [] then Delivery([], false)
    else
      var d := Deliver(plan[..|plan| - 1], retrieve);
      var (address, k) := plan[|plan| - 1];
      if d.failed then d
      else
        match retrieve(address, k)
        case Found(size, data) => Delivery(d.data + Prefix(data, size), false)
        case _ => Delivery(d.data, true)
  }

  lemma {:induction false} EntryPlanOrder(info: FilePartitionInfo, m: nat)
    ensures |EntryPlan(info, m)| == m
    ensures forall k :: 1 <= k <= m ==> EntryPlan(info, m)[k - 1] == (Owner(info, k), k)
  {
    if m > 0 {
      EntryPlanOrder(info, m - 1);
    }
  }

  /** Planning two runs of entries is planning each run, one after the other. */
  lemma {:induction false} PlanConcat(front: seq<FilePartitionInfo>, back: seq<FilePartitionInfo>, m: nat)
    ensures Plan(front + back, m) == Plan(front, m) + Plan(back, m)
    decreases |back|
  {
    if back == [] {
      assert front + back == front;
    } else {
      var back', last := back[..|back| - 1], back[|back| - 1];
      var whole := front + back;
      assert whole[..|whole| - 1] == front + back';
      assert whole[|whole| - 1] == last;
      PlanConcat(front, back', m);
      calc {
        Plan(whole, m);
        Plan(front + back', m) + EntryPlan(last, m);
        Plan(front, m) + Plan(back', m) + EntryPlan(last, m);
        Plan(front, m) + Plan(back, m);
      }
    }
  }

  /** The plan holds m retrievals per collected entry. */
  lemma {:induction false} PlanLength(list: seq<FilePartitionInfo>, m: nat)
    ensures |Plan(list, m)| == |list| * m
  {
    if list != [] {
      PlanLength(list[..|list| - 1], m);
      EntryPlanOrder(list[|list| - 1], m);
      assert |list| * m == (|list| - 1) * m + m;
    }
  }

  /**
   * The plan lists partitions 1..m of entry 0, then 1..m of entry 1, and so
   * on: entry i's block, each partition from the owner that entry records,
   * sits between the blocks of the entries before and after it.
   */
  lemma PlanOrder(list: seq<FilePartitionInfo>, m: nat, i: nat)
    requires i < |list|
    ensures Plan(list, m) == Plan(list[..i], m) + EntryPlan(list[i], m) + Plan(list[i + 1..], m)
    ensures |EntryPlan(list[i], m)| == m
    ensures forall k :: 1 <= k <= m ==> EntryPlan(list[i], m)[k - 1] == (Owner(list[i], k), k)
  {
    assert list == list[..i + 1] + list[i + 1..];
    PlanConcat(list[..i + 1], list[i + 1..], m);
    assert list[..i + 1][..i] == list[..i];
    EntryPlanOrder(list[i], m);
  }

  /** Once a retrieval has failed, later ones change nothing: the download has ended. */
  lemma {:induction false} FailureIsFinal(plan: seq<(Option<string>, int)>, more: seq<(Option<string>, int)>, retrieve: RetrieveOracle)
    requires Deliver(plan, retrieve).failed
    ensures Deliver(plan + more, retrieve) == Deliver(plan, retrieve)
    decreases |more|
  {
    if more == [] {
      assert plan + more == plan;
    } else {
      var more' := more[..|more| - 1];
      assert (plan + more)[..|plan + more| - 1] == plan + more';
      FailureIsFinal(plan, more', retrieve);
    }
  }

  /** The download is cut short exactly when some planned retrieval does not find its partition. */
  lemma {:induction false} DeliveryFailsIff(plan: seq<(Option<string>, int)>, retrieve: RetrieveOracle)
    ensures Deliver(plan, retrieve).failed <==> exists p :: 0 <= p < |plan| && !retrieve(plan[p].0, plan[p].1).Found?
  {
    if plan != [] {
      var prefix := plan[..|plan| - 1];
      DeliveryFailsIff(prefix, retrieve);
      if exists p :: 0 <= p < |prefix| && !retrieve(prefix[p].0, prefix[p].1).Found? {
        var p :| 0 <= p < |prefix| && !retrieve(prefix[p].0, prefix[p].1).Found?;
        assert plan[p] == prefix[p];
      }
      if exists p :: 0 <= p < |plan| && !retrieve(plan[p].0, plan[p].1).Found? {
        var p :| 0 <= p < |plan| && !retrieve(plan[p].0, plan[p].1).Found?;
        if p < |prefix| {
          assert plan[p] == prefix[p];
        }
      }
    }
  }

  /** A planned prefix: entries before e, then partitions 1..k of entry e. */
  lemma PlanPrefix(list: seq<FilePartitionInfo>, m: nat, e: nat, k: nat)
    requires e < |list| && k <= m
    ensures Plan(list[..e], m) + EntryPlan(list[e], k) <= Plan(list, m)
  {
    PlanOrder(list, m, e);
    EntryPlanPrefix(list[e], k, m);
  }

  lemma {:induction false} EntryPlanPrefix(info: FilePartitionInfo, k: nat, m: nat)
    requires k <= m
    ensures EntryPlan(info, k) <= EntryPlan(info, m)
    decreases m - k
  {
    if k < m {
      EntryPlanPrefix(info, k, m - 1);
    }
  }

  // ---------------------------------------------------------------- the reply

  /** How a download handler ends: normally, killed by an exception, spinning in the size loop, or cut short by a failed retrieval. */
  datatype DownloadOutcome = Answered | Crashed | Spinning | Aborted

  /**
   * The reply once some key matched: true, then either -1 and the partial
   * total, or the total followed by every planned partition in order until
   * a retrieval fails; nothing after true while the size loop spins.
   */
  predicate DownloadReply(list: seq<FilePartitionInfo>, nParts: int, sizeOf: SizeOracle, retrieve: RetrieveOracle, fuel: nat,
                          limit: int, reply: seq<Token>, outcome: DownloadOutcome)
    requires |list| > 0
  {
    match Scan(list, sizeOf, nParts, [], 0, fuel)
    case Stalled => reply == [Bool(true)] && outcome == Spinning
    case Scanned(sizes, complete) =>
      if !complete || Sum(sizes) <= 0 then
        reply == [Bool(true), Long(-1), Long(Sum(sizes))] && outcome == Answered
      else
        var d := Deliver(Plan(list, |sizes|), retrieve);
        |reply| >= 2 && reply[..2] == [Bool(true), Long(Sum(sizes))]
        && RawChunks(reply[2..], limit) && RawBytes(reply[2..]) == d.data
        && outcome == (if d.failed then Aborted else Answered)
  }

  /** One more retrieval after a run without failure. */
  lemma DeliverSnoc(plan: seq<(Option<string>, int)>, address: Option<string>, k: int, retrieve: RetrieveOracle)
    requires !Deliver(plan, retrieve).failed
    ensures Deliver(plan + [(address, k)], retrieve) ==
      match retrieve(address, k)
      case Found(size, data) => Delivery(Deliver(plan, retrieve).data + Prefix(data, size), false)
      case _ => Delivery(Deliver(plan, retrieve).data, true)
  {
    assert (plan + [(address, k)])[..|plan|] == plan;
  }

  /** A failure within the first k partitions of entry e ends the whole download. */
  lemma FailedEarly(list: seq<FilePartitionInfo>, m: nat, e: nat, k: nat, retrieve: RetrieveOracle)
    requires e < |list| && k <= m
    requires Deliver(Plan(list[..e], m) + EntryPlan(list[e], k), retrieve).failed
    ensures Deliver(Plan(list, m), retrieve) == Deliver(Plan(list[..e], m) + EntryPlan(list[e], k), retrieve)
  {
    var done := Plan(list[..e], m) + EntryPlan(list[e], k);
    var whole := Plan(list, m);
    PlanPrefix(list, m, e, k);
    assert whole == done + whole[|done|..];
    FailureIsFinal(done, whole[|done|..], retrieve);
  }

  /** Retrieving partition k of an entry adds its bytes, or ends the download when it is not found. */
  lemma EntryStep(done: seq<(Option<string>, int)>, info: FilePartitionInfo, k: nat, retrieve: RetrieveOracle,
                  before: seq<byte>, got: seq<byte>, found: bool)
    requires k >= 1 && Deliver(done + EntryPlan(info, k - 1), retrieve) == Delivery(before, false)
    requires match retrieve(Owner(info, k), k)
      case Found(size, data) => found && got == Prefix(data, size)
      case _ => !found && got == []
    ensures Deliver(done + EntryPlan(info, k), retrieve) == Delivery(before + got, !found)
  {
    DeliverSnoc(done + EntryPlan(info, k - 1), Owner(info, k), k, retrieve);
    assert done + EntryPlan(info, k - 1) + [(Owner(info, k), k)] == done + EntryPlan(info, k);
    assert before + [] == before;
  }

  /** A failure within partitions 1..k of an entry's block decides the whole block. */
  lemma EntryFailed(done: seq<(Option<string>, int)>, info: FilePartitionInfo, k: nat, m: nat, retrieve: RetrieveOracle)
    requires k <= m && Deliver(done + EntryPlan(info, k), retrieve).failed
    ensures Deliver(done + EntryPlan(info, m), retrieve) == Deliver(done + EntryPlan(info, k), retrieve)
  {
    var front := done + EntryPlan(info, k);
    var whole := done + EntryPlan(info, m);
    EntryPlanPrefix(info, k, m);
    assert whole == front + whole[|front|..];
    FailureIsFinal(front, whole[|front|..], retrieve);
  }

  /** Finishing entry e's block extends the plan to the first e + 1 entries. */
  lemma NextEntry(list: seq<FilePartitionInfo>, m: nat, e: nat)
    requires e < |list|
    ensures Plan(list[..e], m) + EntryPlan(list[e], m) == Plan(list[..e + 1], m)
  {
    assert list[..e + 1][..e] == list[..e];
    assert list[..e + 1][e] == list[e];
  }
}

