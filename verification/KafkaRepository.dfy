/** The repository's cursor check as a whole: list the topic's partitions once,
    then validate the batch against that snapshot. */
module KafkaRepository {
  import opened Wrappers
  import opened Domain
  import opened CursorCodec
  import opened Partitions
  import opened CursorValidation

  /** `areCursorsValid(topic, cursors)`. The inputs of the listing step are
      those of `ListPartitions`; a listing failure is the call's failure. */
  function AreCursorsValidForTopic(topic: string, consumerOpened: bool, partitions: Option<seq<int>>,
                                   latest: Option<OffsetResponse>, earliest: Option<OffsetResponse>,
                                   cursors: seq<Cursor>, codec: Codec)
    : (r: Result<bool, RepoError>)
    ensures ListPartitions(topic, consumerOpened, partitions, latest, earliest, codec).Failure? ==>
              r == Failure(ListPartitions(topic, consumerOpened, partitions, latest, earliest, codec).error)
    ensures ListPartitions(topic, consumerOpened, partitions, latest, earliest, codec).Success? ==>
              (r.Failure? <==> exists k :: FaultsAt(ListPartitions(topic, consumerOpened, partitions, latest, earliest, codec).value,
                                                    cursors, codec, k))
    ensures ListPartitions(topic, consumerOpened, partitions, latest, earliest, codec).Success? && r.Failure? ==>
              r.error.MalformedNumber?
    ensures ListPartitions(topic, consumerOpened, partitions, latest, earliest, codec).Success? && r.Failure? ==>
              exists k :: && FaultsAt(ListPartitions(topic, consumerOpened, partitions, latest, earliest, codec).value,
                                      cursors, codec, k)
                          && FaultIs(ListPartitions(topic, consumerOpened, partitions, latest, earliest, codec).value,
                                     cursors[k], codec, r.error)
    ensures r.Success? ==> (r.value <==> AllValid(ListPartitions(topic, consumerOpened, partitions, latest, earliest, codec).value,
                                                  cursors, codec))
  {
    match ListPartitions(topic, consumerOpened, partitions, latest, earliest, codec)
    case Failure(e) => Failure(e)
    case Success(snapshot) => AreCursorsValid(snapshot, cursors, codec)
  }

  /** The cursor names one of the topic's partitions and its offset decodes to
      a value between that partition's earliest-time and latest-time lookup
      answers, both inclusive. */
  ghost predicate WithinLookups(indices: seq<int>, latest: OffsetResponse, earliest: OffsetResponse,
                                c: Cursor, codec: Codec) {
    exists j ::
      && 0 <= j < |indices|
      && Answered(latest, indices[j]) && Answered(earliest, indices[j])
      && codec.encodePartition(indices[j]) == c.partition
      && codec.decodeOffset(c.offset).Some?
      && FirstOffset(earliest, indices[j]) <= codec.decodeOffset(c.offset).value
      && codec.decodeOffset(c.offset).value <= FirstOffset(latest, indices[j])
  }

  /** Snapshots built by `ListPartitions` have decodable bounds. */
  lemma ListingIsWellFormed(topic: string, consumerOpened: bool, partitions: Option<seq<int>>,
                            latest: Option<OffsetResponse>, earliest: Option<OffsetResponse>,
                            codec: Codec)
    requires OffsetRoundTrip(codec)
    requires ListPartitions(topic, consumerOpened, partitions, latest, earliest, codec).Success?
    ensures WellFormed(ListPartitions(topic, consumerOpened, partitions, latest, earliest, codec).value, codec)
  {
    var ps := ListPartitions(topic, consumerOpened, partitions, latest, earliest, codec).value;
    forall k | 0 <= k < |ps| ensures BoundsDecode(ps[k], codec) {
      ListedBoundsDecode(topic, consumerOpened, partitions, latest, earliest, codec, k);
    }
  }

  /** One cursor against a listed snapshot: valid exactly when it is within
      the lookups of the partition it names. */
  lemma CursorValidIffWithinLookups(topic: string, indices: seq<int>,
                                    latest: OffsetResponse, earliest: OffsetResponse,
                                    c: Cursor, codec: Codec)
    requires OffsetRoundTrip(codec) && PartitionInjective(codec)
    requires ListPartitions(topic, true, Some(indices), Some(latest), Some(earliest), codec).Success?
    ensures CursorValid(ListPartitions(topic, true, Some(indices), Some(latest), Some(earliest), codec).value, c, codec)
            <==> WithinLookups(indices, latest, earliest, c, codec)
  {
    var ps := ListPartitions(topic, true, Some(indices), Some(latest), Some(earliest), codec).value;
    if CursorValid(ps, c, codec) {
      var i :| IsFirstMatch(ps, c.partition, i) && InRange(ps[i], c, codec);
      ListedBoundsDecode(topic, true, Some(indices), Some(latest), Some(earliest), codec, i);
      assert codec.encodePartition(indices[i]) == c.partition;
    }
    if WithinLookups(indices, latest, earliest, c, codec) {
      var j :| && 0 <= j < |indices|
               && Answered(latest, indices[j]) && Answered(earliest, indices[j])
               && codec.encodePartition(indices[j]) == c.partition
               && codec.decodeOffset(c.offset).Some?
               && FirstOffset(earliest, indices[j]) <= codec.decodeOffset(c.offset).value
               && codec.decodeOffset(c.offset).value <= FirstOffset(latest, indices[j]);
      assert ps[j].partitionId == c.partition;
      var i := FindFirst(ps, c.partition).value;
      assert codec.encodePartition(indices[i]) == codec.encodePartition(indices[j]);
      assert i == j;
      ListedBoundsDecode(topic, true, Some(indices), Some(latest), Some(earliest), codec, j);
      assert InRange(ps[j], c, codec);
    }
  }

  /** End to end: once the listing succeeds, and given a codec whose offsets
      round-trip and whose partition ids are distinct, `areCursorsValid`
      does not throw, and it accepts the batch exactly when every cursor
      names a partition of the topic and lies within that partition's
      lookup answers. */
  lemma ValidationAgainstLookups(topic: string, indices: seq<int>,
                                 latest: OffsetResponse, earliest: OffsetResponse,
                                 cursors: seq<Cursor>, codec: Codec)
    requires OffsetRoundTrip(codec) && PartitionInjective(codec)
    requires ListPartitions(topic, true, Some(indices), Some(latest), Some(earliest), codec).Success?
    ensures var r := AreCursorsValidForTopic(topic, true, Some(indices), Some(latest), Some(earliest), cursors, codec);
            && r.Success?
            && (r.value <==> forall k :: 0 <= k < |cursors| ==>
                               WithinLookups(indices, latest, earliest, cursors[k], codec))
  {
    var ps := ListPartitions(topic, true, Some(indices), Some(latest), Some(earliest), codec).value;
    ListingIsWellFormed(topic, true, Some(indices), Some(latest), Some(earliest), codec);
    WellFormedNeverFaults(ps, cursors, codec);
    forall k | 0 <= k < |cursors|
      ensures CursorValid(ps, cursors[k], codec) <==> WithinLookups(indices, latest, earliest, cursors[k], codec)
    {
      CursorValidIffWithinLookups(topic, indices, latest, earliest, cursors[k], codec);
    }
  }

  /** The end-to-end statement with the codec assumption stated as a partition
      round-trip rather than as injectivity. */
  lemma ValidationUnderRoundTrip(topic: string, indices: seq<int>,
                                 latest: OffsetResponse, earliest: OffsetResponse,
                                 cursors: seq<Cursor>, codec: Codec)
    requires OffsetRoundTrip(codec) && PartitionRoundTrip(codec)
    requires ListPartitions(topic, true, Some(indices), Some(latest), Some(earliest), codec).Success?
    ensures var r := AreCursorsValidForTopic(topic, true, Some(indices), Some(latest), Some(earliest), cursors, codec);
            && r.Success?
            && (r.value <==> forall k :: 0 <= k < |cursors| ==>
                               WithinLookups(indices, latest, earliest, cursors[k], codec))
  {
    RoundTripMakesPartitionsInjective(codec);
    ValidationAgainstLookups(topic, indices, latest, earliest, cursors, codec);
  }
}
