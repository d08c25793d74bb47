/** Partition metadata: the per-partition record assembled from two offset
    lookups (`processTopicPartitionMetadata`), the whole-topic listing that
    zips them (`listPartitions`), its single-partition form (`getPartition`)
    and the partition existence check (`partitionExists`). */
module Partitions {
  import opened Wrappers
  import opened Domain
  import opened CursorCodec

  const LIST_PARTITIONS_FAILED: string := "Error occurred when fetching partitions offsets"
  const GET_PARTITION_FAILED: string := "Error occurred when fetching partition offsets"

  /** An offset-lookup answer: for each partition index it answered for, the
      offsets array the cluster returned (one element was requested). */
  type OffsetResponse = map<int, seq<int>>

  /** The lookup answered for `index` with at least one offset, so reading
      element 0 of its array does not throw. */
  predicate Answered(response: OffsetResponse, index: int) {
    index in response && |response[index]| > 0
  }

  function FirstOffset(response: OffsetResponse, index: int): int
    requires Answered(response, index)
  {
    response[index][0]
  }

  /** `tp` is partition `index` of `topic` with its bounds taken from
      the matching lookup: newest from `latest`, oldest from `earliest`. */
  predicate RecordOf(tp: TopicPartition, topic: string, index: int,
                     latest: OffsetResponse, earliest: OffsetResponse, codec: Codec)
    requires Answered(latest, index) && Answered(earliest, index)
  {
    && tp.topic == topic
    && tp.partitionId == codec.encodePartition(index)
    && tp.newest == codec.encodeOffset(FirstOffset(latest, index))
    && tp.oldest == codec.encodeOffset(FirstOffset(earliest, index))
  }

  /** `processTopicPartitionMetadata`: the record of partition `index`, whose
      newest offset comes from the latest-time lookup and whose oldest offset
      comes from the earliest-time lookup. `None` where reading either answer
      throws. */
  function PartitionRecord(topic: string, index: int,
                           latest: OffsetResponse, earliest: OffsetResponse, codec: Codec)
    : (r: Option<TopicPartition>)
    ensures r.Some? <==> Answered(latest, index) && Answered(earliest, index)
    ensures r.Some? ==> RecordOf(r.value, topic, index, latest, earliest, codec)
  {
    if !Answered(latest, index) || !Answered(earliest, index) then None
    else
      Some(TopicPartition(topic, codec.encodePartition(index),
                          codec.encodeOffset(earliest[index][0]),
                          codec.encodeOffset(latest[index][0])))
  }

  /** Every partition in `indices` was answered by both lookups. */
  predicate AllAnswered(indices: seq<int>, latest: OffsetResponse, earliest: OffsetResponse) {
    forall k :: 0 <= k < |indices| ==> Answered(latest, indices[k]) && Answered(earliest, indices[k])
  }

  /** `indices` lists no partition twice. */
  predicate Distinct(indices: seq<int>) {
    forall j, k :: 0 <= j < k < |indices| ==> indices[j] != indices[k]
  }

  /** The zip of the partition list with the two lookups: one record per
      partition, in partition-list order, or `None` if any record throws. */
  function Assemble(topic: string, indices: seq<int>,
                    latest: OffsetResponse, earliest: OffsetResponse, codec: Codec)
    : (r: Option<seq<TopicPartition>>)
    ensures r.Some? <==> AllAnswered(indices, latest, earliest)
    ensures r.Some? ==> |r.value| == |indices|
    ensures r.Some? ==> forall k :: 0 <= k < |indices| ==>
                          RecordOf(r.value[k], topic, indices[k], latest, earliest, codec)
  {
    if |indices| == 0 then Some([])
    else
      match PartitionRecord(topic, indices[0], latest, earliest, codec)
      case None => None
      case Some(head) =>
        match Assemble(topic, indices[1..], latest, earliest, codec)
        case None => None
        case Some(tail) => Some([head] + tail)
  }

  /** `listPartitions`. `consumerOpened` says whether obtaining the offset
      consumer returned; that call sits before the `try`, so its failure
      escapes unwrapped. `partitions` is the partition list of the topic and
      `latest` / `earliest` the two batched lookups, each `None` when its call
      threw. Building the request maps throws on a repeated partition. Every
      failure inside the `try` becomes one wrapped error: a partial listing is
      never returned. */
  function ListPartitions(topic: string, consumerOpened: bool, partitions: Option<seq<int>>,
                          latest: Option<OffsetResponse>, earliest: Option<OffsetResponse>,
                          codec: Codec)
    : (r: Result<seq<TopicPartition>, RepoError>)
    ensures r.Success? <==> && consumerOpened
                            && partitions.Some? && Distinct(partitions.value)
                            && latest.Some? && earliest.Some?
                            && AllAnswered(partitions.value, latest.value, earliest.value)
    ensures !consumerOpened <==> r == Failure(ClientFailed)
    ensures r.Failure? && consumerOpened ==> r.error == RepositoryFailed(LIST_PARTITIONS_FAILED)
    ensures r.Success? ==> |r.value| == |partitions.value|
    ensures r.Success? ==> forall k :: 0 <= k < |r.value| ==>
                             RecordOf(r.value[k], topic, partitions.value[k],
                                      latest.value, earliest.value, codec)
  {
    if !consumerOpened then Failure(ClientFailed)
    else if partitions.None? || !Distinct(partitions.value) || latest.None? || earliest.None? then
      Failure(RepositoryFailed(LIST_PARTITIONS_FAILED))
    else
      match Assemble(topic, partitions.value, latest.value, earliest.value, codec)
      case None => Failure(RepositoryFailed(LIST_PARTITIONS_FAILED))
      case Some(records) => Success(records)
  }

  /** `getPartition`. `consumerOpened` is as for `ListPartitions`: a failure
      to obtain the consumer escapes unwrapped. `parsed` is the partition id
      read as a number (`None` when parsing threw); the two lookups are for
      that one partition. */
  function GetPartition(topic: string, consumerOpened: bool, parsed: Option<int>,
                        latest: Option<OffsetResponse>, earliest: Option<OffsetResponse>,
                        codec: Codec)
    : (r: Result<TopicPartition, RepoError>)
    ensures r.Success? <==> && consumerOpened
                            && parsed.Some? && latest.Some? && earliest.Some?
                            && Answered(latest.value, parsed.value)
                            && Answered(earliest.value, parsed.value)
    ensures !consumerOpened <==> r == Failure(ClientFailed)
    ensures r.Failure? && consumerOpened ==> r.error == RepositoryFailed(GET_PARTITION_FAILED)
    ensures r.Success? ==> RecordOf(r.value, topic, parsed.value, latest.value, earliest.value, codec)
  {
    if !consumerOpened then Failure(ClientFailed)
    else if parsed.None? || latest.None? || earliest.None? then
      Failure(RepositoryFailed(GET_PARTITION_FAILED))
    else
      match PartitionRecord(topic, parsed.value, latest.value, earliest.value, codec)
      case None => Failure(RepositoryFailed(GET_PARTITION_FAILED))
      case Some(tp) => Success(tp)
  }

  /** A linear scan for a partition index whose broker-side id is exactly
      `partition`. */
  function AnyEncodes(indices: seq<int>, partition: string, codec: Codec): (r: bool)
    ensures r <==> exists k :: 0 <= k < |indices| && codec.encodePartition(indices[k]) == partition
  {
    if |indices| == 0 then false
    else codec.encodePartition(indices[0]) == partition || AnyEncodes(indices[1..], partition, codec)
  }

  /** `partitionExists`. `partitions` is the topic's partition list, `None`
      when the client call threw; there is no `try` around it, so that failure
      escapes unwrapped. Otherwise the answer is the scan. */
  function PartitionExists(partitions: Option<seq<int>>, partition: string, codec: Codec)
    : (r: Result<bool, RepoError>)
    ensures r.Failure? <==> partitions.None?
    ensures r.Failure? ==> r.error == ClientFailed
    ensures r.Success? ==> (r.value <==> exists k :: 0 <= k < |partitions.value|
                                                    && codec.encodePartition(partitions.value[k]) == partition)
  {
    match partitions
    case None => Failure(ClientFailed)
    case Some(indices) => Success(AnyEncodes(indices, partition, codec))
  }

  /** With an injective partition encoding, the id of index `i` exists exactly
      when `i` is one of the topic's partitions. */
  lemma PartitionExistsForIndex(indices: seq<int>, i: int, codec: Codec)
    requires PartitionInjective(codec)
    ensures PartitionExists(Some(indices), codec.encodePartition(i), codec) == Success(i in indices)
  {
    if AnyEncodes(indices, codec.encodePartition(i), codec) {
      var k :| 0 <= k < |indices| && codec.encodePartition(indices[k]) == codec.encodePartition(i);
      assert indices[k] == i;
    }
  }

  /** `partitionExists` and `listPartitions` agree on which ids a topic has. */
  lemma PartitionExistsAgreesWithListing(topic: string, indices: seq<int>,
                                         latest: OffsetResponse, earliest: OffsetResponse,
                                         partition: string, codec: Codec)
    requires ListPartitions(topic, true, Some(indices), Some(latest), Some(earliest), codec).Success?
    ensures var ps := ListPartitions(topic, true, Some(indices), Some(latest), Some(earliest), codec).value;
            PartitionExists(Some(indices), partition, codec)
            == Success(exists k :: 0 <= k < |ps| && ps[k].partitionId == partition)
  {
    var ps := ListPartitions(topic, true, Some(indices), Some(latest), Some(earliest), codec).value;
    if AnyEncodes(indices, partition, codec) {
      var k :| 0 <= k < |indices| && codec.encodePartition(indices[k]) == partition;
      assert ps[k].partitionId == partition;
    }
    if exists k :: 0 <= k < |ps| && ps[k].partitionId == partition {
      var k :| 0 <= k < |ps| && ps[k].partitionId == partition;
      assert codec.encodePartition(indices[k]) == partition;
    }
  }

  /** Decoding a listed record's bounds gives back the lookups' offsets, the
      oldest from the earliest-time lookup and the newest from the latest-time
      one: the two are never swapped. */
  lemma ListedBoundsDecode(topic: string, consumerOpened: bool, partitions: Option<seq<int>>,
                           latest: Option<OffsetResponse>, earliest: Option<OffsetResponse>,
                           codec: Codec, k: int)
    requires OffsetRoundTrip(codec)
    requires ListPartitions(topic, consumerOpened, partitions, latest, earliest, codec).Success?
    requires 0 <= k < |partitions.value|
    ensures var tp := ListPartitions(topic, consumerOpened, partitions, latest, earliest, codec).value[k];
            && codec.decodeOffset(tp.oldest) == Some(FirstOffset(earliest.value, partitions.value[k]))
            && codec.decodeOffset(tp.newest) == Some(FirstOffset(latest.value, partitions.value[k]))
  {
  }

  /** `getPartition` on one of the listed partitions, answered by the same
      lookups, returns exactly that partition's listed record. */
  lemma GetPartitionAgreesWithListing(topic: string, indices: seq<int>,
                                      latest: OffsetResponse, earliest: OffsetResponse,
                                      codec: Codec, k: int)
    requires ListPartitions(topic, true, Some(indices), Some(latest), Some(earliest), codec).Success?
    requires 0 <= k < |indices|
    ensures GetPartition(topic, true, Some(indices[k]), Some(latest), Some(earliest), codec)
            == Success(ListPartitions(topic, true, Some(indices), Some(latest), Some(earliest), codec).value[k])
  {
  }
}
