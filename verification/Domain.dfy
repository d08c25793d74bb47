/** The records the repository exchanges with the rest of the broker. */
module Domain {

  /** Java `long`, the width of the topic-config durations. Offsets are unbounded
      integers here: keeping them within a `long` is left to the codec. */
  const LONG_MIN: int := -0x8000_0000_0000_0000
  const LONG_MAX: int := 0x7FFF_FFFF_FFFF_FFFF
  type Long = x: int | LONG_MIN <= x <= LONG_MAX

  /** Java `int`, the width of a partition count and of a replication factor. */
  type Int32 = x: int | -0x8000_0000 <= x <= 0x7FFF_FFFF

  /** A topic as listed under the coordination service's topics path. */
  datatype Topic = Topic(name: string)

  /** A client-supplied position: a broker-side partition id and a broker-side offset. */
  datatype Cursor = Cursor(partition: string, offset: string)

  /** One partition of a topic with its available offsets, both in the broker's
      string encoding: `oldest` is the first retrievable offset, `newest` the
      next write position. */
  datatype TopicPartition = TopicPartition(
    topic: string,
    partitionId: string,
    oldest: string,
    newest: string)

  /** The failures the repository surfaces.
      - `RepositoryFailed`: the `NakadiException` wrapping a coordination or
        cluster failure, with its message;
      - `TopicCreationFailed`: the `TopicCreationException` of `createTopic`;
      - `MalformedNumber`: an unchecked `NumberFormatException` that escapes
        unwrapped, carrying the text that failed to decode;
      - `ClientFailed`: an unchecked failure of the Kafka client that escapes
        unwrapped. */
  datatype RepoError =
    | RepositoryFailed(message: string)
    | TopicCreationFailed(message: string)
    | MalformedNumber(text: string)
    | ClientFailed
}
