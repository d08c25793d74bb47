/** The record `postEvent` hands to the producer, and the call's outcome. */
module Publishing {
  import opened Wrappers
  import opened Domain
  import opened CursorCodec

  const SEND_FAILED: string := "Failed to send event"

  /** An outbound record: destination topic, numeric partition, routing key
      and payload. */
  datatype ProducerRecord = ProducerRecord(topic: string, partition: int, key: string, value: string)

  /** How sending a record and waiting for it ended:
      - `Acknowledged`: the cluster acknowledged it within the send timeout;
      - `SendFailed`: one of the three checked failures the call catches, namely
        an interruption, a failed send, or the timeout running out;
      - `ClientThrew`: an unchecked exception from `send` or from the wait,
        which no `catch` names. */
  datatype SendOutcome = Acknowledged | SendFailed | ClientThrew

  /** `postEvent`. Decoding the partition id happens before the `try`, so a
      malformed id escapes unwrapped. `send` is the producer's outcome for the
      record. Checked send failures are wrapped and unchecked ones escape
      unwrapped. A success returns the acknowledged record. */
  function PostEvent(topicId: string, partitionId: string, payload: string, codec: Codec,
                     send: ProducerRecord -> SendOutcome)
    : (r: Result<ProducerRecord, RepoError>)
    ensures codec.decodePartition(partitionId).None? <==> r == Failure(MalformedNumber(partitionId))
    ensures r.Success? ==> && send(r.value) == Acknowledged
                           && r.value.topic == topicId
                           && Some(r.value.partition) == codec.decodePartition(partitionId)
                           && r.value.key == partitionId
                           && r.value.value == payload
    ensures codec.decodePartition(partitionId).Some? ==>
              var outcome := send(ProducerRecord(topicId, codec.decodePartition(partitionId).value,
                                                 partitionId, payload));
              && (r.Success? <==> outcome == Acknowledged)
              && (r == Failure(RepositoryFailed(SEND_FAILED)) <==> outcome == SendFailed)
              && (r == Failure(ClientFailed) <==> outcome == ClientThrew)
  {
    match codec.decodePartition(partitionId)
    case None => Failure(MalformedNumber(partitionId))
    case Some(partition) =>
      var record := ProducerRecord(topicId, partition, partitionId, payload);
      match send(record)
      case Acknowledged => Success(record)
      case SendFailed => Failure(RepositoryFailed(SEND_FAILED))
      case ClientThrew => Failure(ClientFailed)
  }

  /** Posting to the id of partition `i` routes the record to partition `i`,
      keyed by that id. */
  lemma PostToEncodedPartition(topicId: string, i: int, payload: string, codec: Codec,
                               send: ProducerRecord -> SendOutcome)
    requires PartitionRoundTrip(codec)
    ensures var r := PostEvent(topicId, codec.encodePartition(i), payload, codec, send);
            && (r.Success? <==> send(ProducerRecord(topicId, i, codec.encodePartition(i), payload)) == Acknowledged)
            && (r.Success? ==> r.value.partition == i && r.value.key == codec.encodePartition(i))
  {
    assert codec.decodePartition(codec.encodePartition(i)) == Some(i);
  }
}
