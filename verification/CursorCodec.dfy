/** The translation between broker-side strings and Kafka-native numbers.
    Its implementation (`KafkaCursor`) is not part of this model: the codec is a
    value of four total functions, and every property of it that a proof needs
    is stated as an explicit assumption below. */
module CursorCodec {
  import opened Wrappers

  /** `encodeOffset` is `toNakadiOffset`, `decodeOffset` is `toKafkaOffset`,
      `encodePartition` is `toNakadiPartition`, `decodePartition` is
      `toKafkaPartition`. A decoder answers `None` where the Java one throws
      `NumberFormatException`. */
  datatype Codec = Codec(
    encodeOffset: int -> string,
    decodeOffset: string -> Option<int>,
    encodePartition: int -> string,
    decodePartition: string -> Option<int>)

  /** Assumption: decoding an encoded offset gives the offset back. It is
      stated for every integer offset, so it idealises a decoder that, like
      `toKafkaOffset`, returns a Java `long`. */
  ghost predicate OffsetRoundTrip(c: Codec) {
    forall o: int :: c.decodeOffset(c.encodeOffset(o)) == Some(o)
  }

  /** Assumption: decoding an encoded partition index gives the index back. */
  ghost predicate PartitionRoundTrip(c: Codec) {
    forall i: int :: c.decodePartition(c.encodePartition(i)) == Some(i)
  }

  /** Distinct partition indices have distinct broker-side ids. */
  ghost predicate PartitionInjective(c: Codec) {
    forall i: int, j: int :: c.encodePartition(i) == c.encodePartition(j) ==> i == j
  }

  /** A partition codec that round-trips never maps two indices to one id. */
  lemma RoundTripMakesPartitionsInjective(c: Codec)
    requires PartitionRoundTrip(c)
    ensures PartitionInjective(c)
  {
    forall i: int, j: int | c.encodePartition(i) == c.encodePartition(j)
      ensures i == j
    {
      assert Some(i) == c.decodePartition(c.encodePartition(i));
      assert Some(j) == c.decodePartition(c.encodePartition(j));
    }
  }
}
