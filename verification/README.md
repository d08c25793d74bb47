# Kafka topic repository — decision logic

This project models the pure decision logic of Nakadi's `KafkaRepository`. That class is the
storage layer that sits between the event broker and its Kafka cluster. Every round-trip to
Kafka or ZooKeeper is replaced by an input value: a partition list, an offset-lookup answer,
a listing of topic names, or the cluster's accept/reject answer to a command. `None` stands
for a call that threw.

Modules:

- `Wrappers`: `Option` and `Result`. These stand in for the Java exceptions.
- `Domain`: the records the layer exchanges: `Topic`, `Cursor`, `TopicPartition` and
  `RepoError`. `RepoError` covers the wrapped failures and the unchecked ones that escape
  unwrapped, such as a failed partition list in `partitionExists`. Java `long` and `int` appear as subset types.
- `CursorCodec`: the broker-string ↔ Kafka-number codec (`KafkaCursor`). It is a value of
  four total functions. Its round-trip and injectivity are ghost predicates, and a lemma uses
  them only as explicit `requires` assumptions.
- `Decimal`: `Long.toString`, the text written into the topic configuration, with a parser
  and a round-trip proof.
- `Topics`: `listTopics`, `topicExists`, and the two `createTopic` overloads with their
  `retention.ms` / `segment.ms` configuration map.
- `Partitions`: `processTopicPartitionMetadata`, `listPartitions` (the zip of the partition
  list with the latest-time and earliest-time lookups), `getPartition` and `partitionExists`.
- `CursorValidation`: `areCursorsValid` against a snapshot. The check is a short-circuiting
  `allMatch`, and it uses the first snapshot entry with the cursor's partition id. The
  bounds are inclusive. An offset that does not decode makes the cursor invalid and is not
  an error. A snapshot bound that does not decode throws, because that decode sits outside
  the `try`.
- `KafkaRepository`: listing followed by validation, and the end-to-end theorem that relates
  the verdict to the raw lookup answers.
- `Publishing`: the producer record built by `postEvent`, and the outcome of the call.

Both bounds of the validity check are inclusive. This includes `newest`, which is the
next write position. The model keeps this exactly as the code has it.

Two behaviours of the code are modelled as written:

- Building the request maps in `listPartitions` throws on a repeated partition, so a
  repeated index fails the listing.
- A missing or empty offsets array in a lookup answer fails the whole listing. No partial
  list is returned.

## Model

| member | source | states |
|---|---|---|
| Topics.ListTopics | src/main/java/de/zalando/aruha/nakadi/repository/kafka/KafkaRepository.java:60-70 | a coordination failure becomes the wrapped "Failed to list topics" error; otherwise there is one topic per child, in order, with that child's name |
| Topics.AnyNamed | src/main/java/de/zalando/aruha/nakadi/repository/kafka/KafkaRepository.java:108-111 | the linear scan is true iff some listed topic has exactly the given name |
| Topics.TopicExists | src/main/java/de/zalando/aruha/nakadi/repository/kafka/KafkaRepository.java:107-112 | fails exactly when listing fails; otherwise true iff the name is among the listed children |
| Topics.TopicExistsAgreesWithListing | src/main/java/de/zalando/aruha/nakadi/repository/kafka/KafkaRepository.java:107-112 | when listing succeeds, topicExists answers exactly whether some listed topic carries the name |
| Topics.TopicConfig | src/main/java/de/zalando/aruha/nakadi/repository/kafka/KafkaRepository.java:91-93 | the config has exactly the keys retention.ms and segment.ms, and their values parse back to the retention and rotation arguments |
| Topics.CreateTopic | src/main/java/de/zalando/aruha/nakadi/repository/kafka/KafkaRepository.java:83-98 | succeeds iff the admin session opens and the cluster accepts the command built from the arguments; any failure is TopicCreationFailed; a success carries the given topic, partition count, replica count and a config whose values parse back to the durations |
| Topics.CreateTopicWithDefaults | src/main/java/de/zalando/aruha/nakadi/repository/kafka/KafkaRepository.java:74-80 | succeeds iff the session opens and the cluster accepts the command for the topic with the configured defaults; failures are TopicCreationFailed; a success is an accepted command for that topic with the default partition count, replica factor, retention and rotation |
| Topics.CommandDeterminesArguments | src/main/java/de/zalando/aruha/nakadi/repository/kafka/KafkaRepository.java:91-95 | two successful creations that issued the same command had the same topic, counts and durations |
| Decimal.LongToString | src/main/java/de/zalando/aruha/nakadi/repository/kafka/KafkaRepository.java:92-93 | the text of a long is non-empty and starts with '-' exactly when the long is negative |
| Decimal.LongRoundTrip | src/main/java/de/zalando/aruha/nakadi/repository/kafka/KafkaRepository.java:92-93 | parsing the decimal text of any Java long gives the same long back |
| Decimal.LongToStringInjective | src/main/java/de/zalando/aruha/nakadi/repository/kafka/KafkaRepository.java:92-93 | distinct longs are written as distinct config values |
| Partitions.PartitionRecord | src/main/java/de/zalando/aruha/nakadi/repository/kafka/KafkaRepository.java:219-231 | the record exists iff both lookups answered for the partition; its id is the encoded index, newest comes from the latest-time answer and oldest from the earliest-time answer |
| Partitions.Assemble | src/main/java/de/zalando/aruha/nakadi/repository/kafka/KafkaRepository.java:184-187 | the zip succeeds iff every partition was answered by both lookups; it yields one record per partition, in order, each built from that partition's own answers |
| Partitions.ListPartitions | src/main/java/de/zalando/aruha/nakadi/repository/kafka/KafkaRepository.java:159-195 | a failure to obtain the offset consumer, which comes before the try, escapes unwrapped; otherwise the call succeeds iff the partition list and both lookups arrived, no partition repeats, and every partition was answered; every failure inside the try is the one wrapped error; on success the records follow the partition list |
| Partitions.GetPartition | src/main/java/de/zalando/aruha/nakadi/repository/kafka/KafkaRepository.java:198-217 | a failure to obtain the offset consumer, which comes before the try, escapes unwrapped; otherwise the call succeeds iff the id parsed and both lookups answered for it; the result is that partition's record; failures inside the try are wrapped |
| Partitions.AnyEncodes | src/main/java/de/zalando/aruha/nakadi/repository/kafka/KafkaRepository.java:116-120 | the scan is true iff some index in the list encodes to exactly the given id |
| Partitions.PartitionExists | src/main/java/de/zalando/aruha/nakadi/repository/kafka/KafkaRepository.java:115-121 | a failed partition-list call escapes unwrapped, since there is no try; otherwise the answer is true iff some partition index of the topic encodes to exactly the given id |
| Partitions.PartitionExistsForIndex | src/main/java/de/zalando/aruha/nakadi/repository/kafka/KafkaRepository.java:115-121 | when the encoding is injective, the id of index i exists iff i is one of the topic's partitions |
| Partitions.PartitionExistsAgreesWithListing | src/main/java/de/zalando/aruha/nakadi/repository/kafka/KafkaRepository.java:115-121 | partitionExists accepts exactly the ids that listPartitions reports |
| Partitions.ListedBoundsDecode | src/main/java/de/zalando/aruha/nakadi/repository/kafka/KafkaRepository.java:227-228 | when offsets round-trip, a listed record's oldest decodes to the earliest-time answer and its newest to the latest-time answer, never swapped |
| Partitions.GetPartitionAgreesWithListing | src/main/java/de/zalando/aruha/nakadi/repository/kafka/KafkaRepository.java:209 | getPartition on a listed partition, given the same lookup answers, returns that partition's listed record |
| CursorValidation.FindFirst | src/main/java/de/zalando/aruha/nakadi/repository/kafka/KafkaRepository.java:128-131 | finds the position of the first snapshot entry with the cursor's partition id, or reports that no entry has that id |
| CursorValidation.CheckCursor | src/main/java/de/zalando/aruha/nakadi/repository/kafka/KafkaRepository.java:128-142 | one cursor: throws iff its first matching entry has an undecodable bound, and the error names newest if newest fails to decode, else oldest; otherwise true iff that entry exists and the cursor's offset decodes into the inclusive range |
| CursorValidation.AreCursorsValid | src/main/java/de/zalando/aruha/nakadi/repository/kafka/KafkaRepository.java:126-142 | an empty batch is valid; the answer is true iff every cursor is valid; it throws iff the check reaches a faulting cursor with all earlier cursors valid, and the error names that cursor's undecodable bound |
| CursorValidation.WellFormedNeverFaults | src/main/java/de/zalando/aruha/nakadi/repository/kafka/KafkaRepository.java:133-134 | against a snapshot whose bounds all decode, the check never throws and answers whether every cursor is valid |
| CursorValidation.CheckEncodedOffset | src/main/java/de/zalando/aruha/nakadi/repository/kafka/KafkaRepository.java:133-137 | a cursor at encoded offset o is valid iff oldest <= o <= newest of its first matching entry |
| CursorValidation.RangeIsInclusive | src/main/java/de/zalando/aruha/nakadi/repository/kafka/KafkaRepository.java:137 | cursors at newest and at oldest are accepted; cursors at newest+1 and at oldest-1 are rejected |
| CursorValidation.UndecodableOffsetIsInvalid | src/main/java/de/zalando/aruha/nakadi/repository/kafka/KafkaRepository.java:135-140 | a cursor whose offset fails to decode is invalid (false), not an error |
| CursorValidation.OnlyFirstMatchCounts | src/main/java/de/zalando/aruha/nakadi/repository/kafka/KafkaRepository.java:130-131 | later snapshot entries with the same partition id never affect a cursor's verdict |
| CursorValidation.UnknownPartitionInvalidatesBatch | src/main/java/de/zalando/aruha/nakadi/repository/kafka/KafkaRepository.java:128-142 | one cursor naming an absent partition makes the whole batch invalid, whatever the other cursors are |
| CursorValidation.BatchConcat | src/main/java/de/zalando/aruha/nakadi/repository/kafka/KafkaRepository.java:126-128 | checking a+b checks a, and checks b only if all of a is valid |
| KafkaRepository.AreCursorsValidForTopic | src/main/java/de/zalando/aruha/nakadi/repository/kafka/KafkaRepository.java:124-143 | a listing failure is the call's failure; after a successful listing the call fails iff it reaches a cursor whose matched entry has an undecodable bound, and the failure is the unwrapped number-format error naming that bound; otherwise the answer is true iff every cursor is valid against the listed snapshot |
| KafkaRepository.ListingIsWellFormed | src/main/java/de/zalando/aruha/nakadi/repository/kafka/KafkaRepository.java:227-228 | when offsets round-trip, every listed snapshot has decodable bounds, so the unguarded decode never throws |
| KafkaRepository.CursorValidIffWithinLookups | src/main/java/de/zalando/aruha/nakadi/repository/kafka/KafkaRepository.java:128-137 | a cursor is valid against the listing iff it names a listed partition and its offset lies between that partition's earliest and latest answers |
| KafkaRepository.ValidationAgainstLookups | src/main/java/de/zalando/aruha/nakadi/repository/kafka/KafkaRepository.java:124-143 | end to end: after a successful listing the call never throws, and it accepts iff every cursor is within its partition's lookup answers |
| KafkaRepository.ValidationUnderRoundTrip | src/main/java/de/zalando/aruha/nakadi/repository/kafka/KafkaRepository.java:124-143 | the end-to-end statement when the partition codec round-trips, which makes partition ids distinct |
| Publishing.PostEvent | src/main/java/de/zalando/aruha/nakadi/repository/kafka/KafkaRepository.java:146-156 | a malformed partition id escapes unwrapped; for a decodable id, the call succeeds iff the record for the topic and decoded partition, keyed by the raw id and carrying the payload, is acknowledged; a checked send failure (interruption, failed send, timeout) gives the wrapped send error, and an unchecked failure of send or of the wait escapes unwrapped |
| Publishing.PostToEncodedPartition | src/main/java/de/zalando/aruha/nakadi/repository/kafka/KafkaRepository.java:149-150 | when the partition codec round-trips, posting to the id of partition i targets partition i and succeeds iff the record is acknowledged |

## Left out

- Network I/O and its plumbing are left out. This covers the producer send and its timed
  wait, the ZooKeeper child listing, `ZkUtils` sessions, `AdminUtils.createTopic`,
  `SimpleConsumer` offset requests with their random request tokens, and every `close()`
  in a `finally`. Each is an input value or is absent, because none has logic of its own
  to verify.
- `createEventConsumer` / `NakadiKafkaConsumer` is left out. It is a lazy, stateful
  network consumer, and `NakadiKafkaConsumer` is not part of this model.
- The internals of `KafkaCursor` are left out, because `KafkaCursor` is not part of this
  model. The codec stays abstract, and its round-trip is assumed where a lemma needs it.
  `fromNakadiCursor` is modelled only as decoding the cursor's offset. Any decoding of the
  cursor's partition it may also do is not modelled.
- Offsets are unbounded integers. Keeping them within the width of a Java `long` is the
  codec's job, and the range comparison itself cannot overflow. The offset round-trip
  assumption (`CursorCodec.OffsetRoundTrip`) is stated for every integer, which
  idealises a decoder that returns a `long`.
- The number parse inside `getPartition` is an input (`parsed`). The model does not fix
  the `Integer.parseInt` grammar.
- Two behaviours need a model of the cluster's state, which this layer does not keep: that
  `topicExists` is true after `createTopic`, and that a published event is read back by a
  consumer.
- That `oldest <= newest` holds for every listed partition depends on the cluster's answers.
  It is not a promise of this code. The listing reports the answers unchanged
  (`Partitions.ListedBoundsDecode`).
- Logging in `postEvent` is left out.
