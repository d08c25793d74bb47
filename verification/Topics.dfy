/** Topic listing, the existence check built on it, and topic creation
    (`listTopics`, `topicExists`, `createTopic` of the Kafka repository). */
module Topics {
  import opened Wrappers
  import opened Domain
  import opened Decimal

  const LIST_TOPICS_FAILED: string := "Failed to list topics"
  const CREATE_TOPIC_FAILED: string := "unable to create topic"
  const RETENTION_KEY: string := "retention.ms"
  const SEGMENT_KEY: string := "segment.ms"

  /** The names of the children of the coordination service's topics path,
      turned into topics in listing order. `children` is `None` when the
      coordination call threw; the failure is wrapped, never passed through raw. */
  function ListTopics(children: Option<seq<string>>): (r: Result<seq<Topic>, RepoError>)
    ensures children.None? <==> r.Failure?
    ensures r.Failure? ==> r.error == RepositoryFailed(LIST_TOPICS_FAILED)
    ensures r.Success? ==> |r.value| == |children.value|
    ensures r.Success? ==> forall k :: 0 <= k < |r.value| ==> r.value[k].name == children.value[k]
  {
    match children
    case None => Failure(RepositoryFailed(LIST_TOPICS_FAILED))
    case Some(names) => Success(seq(|names|, k requires 0 <= k < |names| => Topic(names[k])))
  }

  /** Linear scan: does some listed topic carry exactly the name `name`? */
  function AnyNamed(topics: seq<Topic>, name: string): (r: bool)
    ensures r <==> exists k :: 0 <= k < |topics| && topics[k].name == name
  {
    if |topics| == 0 then false
    else topics[0].name == name || AnyNamed(topics[1..], name)
  }

  /** `topicExists`: fails exactly when listing fails, and otherwise answers
      whether `name` is one of the listed children. */
  function TopicExists(children: Option<seq<string>>, name: string): (r: Result<bool, RepoError>)
    ensures r.Failure? <==> children.None?
    ensures r.Failure? ==> r.error == RepositoryFailed(LIST_TOPICS_FAILED)
    ensures r.Success? ==> (r.value <==> name in children.value)
  {
    match ListTopics(children)
    case Failure(e) => Failure(e)
    case Success(topics) => Success(AnyNamed(topics, name))
  }

  /** `topicExists` agrees with `listTopics`: the name exists exactly when
      one of the listed topics carries it. */
  lemma TopicExistsAgreesWithListing(children: Option<seq<string>>, name: string)
    requires ListTopics(children).Success?
    ensures TopicExists(children, name)
            == Success(exists k :: 0 <= k < |ListTopics(children).value| && ListTopics(children).value[k].name == name)
  {
    var topics := ListTopics(children).value;
    if name in children.value {
      var k :| 0 <= k < |children.value| && children.value[k] == name;
      assert topics[k].name == name;
    }
  }

  /** The per-topic configuration overrides handed to the create command:
      retention and segment rotation, each the decimal text of its duration. */
  function TopicConfig(retentionMs: Long, rotationMs: Long): (config: map<string, string>)
    ensures config.Keys == {RETENTION_KEY, SEGMENT_KEY}
    ensures ParseLong(config[RETENTION_KEY]) == Some(retentionMs as int)
    ensures ParseLong(config[SEGMENT_KEY]) == Some(rotationMs as int)
  {
    LongRoundTrip(retentionMs);
    LongRoundTrip(rotationMs);
    map[RETENTION_KEY := LongToString(retentionMs), SEGMENT_KEY := LongToString(rotationMs)]
  }

  /** The administrative create command sent to the cluster. */
  datatype CreateCommand = CreateCommand(
    topic: string,
    partitions: Int32,
    replicas: Int32,
    config: map<string, string>)

  /** The defaults the one-argument `createTopic` fills in. */
  datatype Settings = Settings(
    defaultPartitionNum: Int32,
    defaultReplicaFactor: Int32,
    defaultRetentionMs: Long,
    defaultRotationMs: Long)

  /** `createTopic`. `session` is the administrative connection string, `None`
      when opening the session threw; `admin` is the cluster's answer to the
      command (`false` when `AdminUtils.createTopic` threw, including for an
      existing topic). No existence check, no retry: every failure becomes
      `TopicCreationFailed`, and a success returns the command the cluster
      accepted. */
  function CreateTopic(topic: string, partitionsNum: Int32, replicaFactor: Int32,
                       retentionMs: Long, rotationMs: Long,
                       session: Option<string>, admin: CreateCommand -> bool)
    : (r: Result<CreateCommand, RepoError>)
    ensures r.Success? <==> session.Some? && admin(CreateCommand(topic, partitionsNum, replicaFactor,
                                                                 TopicConfig(retentionMs, rotationMs)))
    ensures r.Failure? ==> r.error == TopicCreationFailed(CREATE_TOPIC_FAILED)
    ensures r.Success? ==> admin(r.value)
    ensures r.Success? ==> r.value.topic == topic && r.value.partitions == partitionsNum
                           && r.value.replicas == replicaFactor
    ensures r.Success? ==> r.value.config.Keys == {RETENTION_KEY, SEGMENT_KEY}
    ensures r.Success? ==> ParseLong(r.value.config[RETENTION_KEY]) == Some(retentionMs as int)
                           && ParseLong(r.value.config[SEGMENT_KEY]) == Some(rotationMs as int)
  {
    if session.None? then Failure(TopicCreationFailed(CREATE_TOPIC_FAILED))
    else
      var command := CreateCommand(topic, partitionsNum, replicaFactor, TopicConfig(retentionMs, rotationMs));
      if admin(command) then Success(command) else Failure(TopicCreationFailed(CREATE_TOPIC_FAILED))
  }

  /** The one-argument `createTopic`: the full one with the configured defaults. */
  function CreateTopicWithDefaults(settings: Settings, topic: string,
                                   session: Option<string>, admin: CreateCommand -> bool)
    : (r: Result<CreateCommand, RepoError>)
    ensures r.Success? <==> session.Some? && admin(CreateCommand(topic, settings.defaultPartitionNum,
                                                                 settings.defaultReplicaFactor,
                                                                 TopicConfig(settings.defaultRetentionMs,
                                                                             settings.defaultRotationMs)))
    ensures r.Failure? ==> r.error == TopicCreationFailed(CREATE_TOPIC_FAILED)
    ensures r.Success? ==> r.value.topic == topic && admin(r.value)
    ensures r.Success? ==> r.value.partitions == settings.defaultPartitionNum
                           && r.value.replicas == settings.defaultReplicaFactor
    ensures r.Success? ==> r.value.config.Keys == {RETENTION_KEY, SEGMENT_KEY}
    ensures r.Success? ==> ParseLong(r.value.config[RETENTION_KEY]) == Some(settings.defaultRetentionMs as int)
                           && ParseLong(r.value.config[SEGMENT_KEY]) == Some(settings.defaultRotationMs as int)
  {
    CreateTopic(topic, settings.defaultPartitionNum, settings.defaultReplicaFactor,
                settings.defaultRetentionMs, settings.defaultRotationMs, session, admin)
  }

  /** The accepted command determines the call: two successful creations that
      issued the same command had the same topic, counts and durations, the
      durations being read back from the configuration text. */
  lemma CommandDeterminesArguments(
    topic1: string, partitions1: Int32, replicas1: Int32, retention1: Long, rotation1: Long,
    topic2: string, partitions2: Int32, replicas2: Int32, retention2: Long, rotation2: Long,
    session1: Option<string>, session2: Option<string>, admin: CreateCommand -> bool)
    requires CreateTopic(topic1, partitions1, replicas1, retention1, rotation1, session1, admin).Success?
    requires CreateTopic(topic2, partitions2, replicas2, retention2, rotation2, session2, admin).Success?
    requires CreateTopic(topic1, partitions1, replicas1, retention1, rotation1, session1, admin).value
             == CreateTopic(topic2, partitions2, replicas2, retention2, rotation2, session2, admin).value
    ensures topic1 == topic2 && partitions1 == partitions2 && replicas1 == replicas2
    ensures retention1 == retention2 && rotation1 == rotation2
  {
    var c := CreateTopic(topic1, partitions1, replicas1, retention1, rotation1, session1, admin).value;
    assert Some(retention1 as int) == ParseLong(c.config[RETENTION_KEY]) == Some(retention2 as int);
    assert Some(rotation1 as int) == ParseLong(c.config[SEGMENT_KEY]) == Some(rotation2 as int);
  }
}
