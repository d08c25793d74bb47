/** Cursor-batch validation against a partition snapshot (`areCursorsValid`
    after its listing step). */
module CursorValidation {
  import opened Wrappers
  import opened Domain
  import opened CursorCodec

  /** `i` is the position of the first snapshot entry whose id is `id`. */
  predicate IsFirstMatch(snapshot: seq<TopicPartition>, id: string, i: int) {
    && 0 <= i < |snapshot|
    && snapshot[i].partitionId == id
    && forall k :: 0 <= k < i ==> snapshot[k].partitionId != id
  }

  /** No snapshot entry has id `id`. */
  predicate Unknown(snapshot: seq<TopicPartition>, id: string) {
    forall k :: 0 <= k < |snapshot| ==> snapshot[k].partitionId != id
  }

  /** Both bounds of a snapshot entry decode. */
  predicate BoundsDecode(tp: TopicPartition, codec: Codec) {
    codec.decodeOffset(tp.oldest).Some? && codec.decodeOffset(tp.newest).Some?
  }

  /** The cursor's offset decodes and lies in the entry's inclusive range
      `[oldest, newest]`. */
  predicate InRange(tp: TopicPartition, c: Cursor, codec: Codec) {
    && BoundsDecode(tp, codec)
    && codec.decodeOffset(c.offset).Some?
    && codec.decodeOffset(tp.oldest).value <= codec.decodeOffset(c.offset).value
    && codec.decodeOffset(c.offset).value <= codec.decodeOffset(tp.newest).value
  }

  /** A cursor is valid when its partition has a first snapshot entry and it
      is in range of that entry. */
  ghost predicate CursorValid(snapshot: seq<TopicPartition>, c: Cursor, codec: Codec) {
    exists i :: IsFirstMatch(snapshot, c.partition, i) && InRange(snapshot[i], c, codec)
  }

  /** Checking the cursor throws: its first matching entry has a bound that
      does not decode. */
  ghost predicate CursorFaults(snapshot: seq<TopicPartition>, c: Cursor, codec: Codec) {
    exists i :: IsFirstMatch(snapshot, c.partition, i) && !BoundsDecode(snapshot[i], codec)
  }

  /** The error raised when an entry's bounds do not decode: `newest` is
      decoded first, so it is named when it fails, and `oldest` otherwise. */
  function BoundFault(tp: TopicPartition, codec: Codec): RepoError {
    if codec.decodeOffset(tp.newest).None? then MalformedNumber(tp.newest) else MalformedNumber(tp.oldest)
  }

  /** Checking `c` throws `e`: its first matching entry has a bound that does
      not decode, and `e` names that bound. */
  ghost predicate FaultIs(snapshot: seq<TopicPartition>, c: Cursor, codec: Codec, e: RepoError) {
    exists i :: && IsFirstMatch(snapshot, c.partition, i)
                && !BoundsDecode(snapshot[i], codec)
                && e == BoundFault(snapshot[i], codec)
  }

  /** The position of the first snapshot entry with id `id`. */
  function FindFirst(snapshot: seq<TopicPartition>, id: string): (r: Option<nat>)
    ensures r.None? <==> Unknown(snapshot, id)
    ensures r.Some? ==> IsFirstMatch(snapshot, id, r.value)
  {
    if |snapshot| == 0 then None
    else if snapshot[0].partitionId == id then Some(0)
    else
      match FindFirst(snapshot[1..], id)
      case None => None
      case Some(i) => Some(i + 1)
  }

  /** The first match is unique, so the two predicates above are exclusive
      and `IsFirstMatch` pins the position. */
  lemma FirstMatchUnique(snapshot: seq<TopicPartition>, id: string, i: int, j: int)
    requires IsFirstMatch(snapshot, id, i) && IsFirstMatch(snapshot, id, j)
    ensures i == j
  {
  }

  /** The per-cursor check. An unknown partition or an offset that does not
      decode makes the cursor invalid (`false`); a snapshot bound that does
      not decode throws, since its decoding sits outside the `try`. */
  function CheckCursor(snapshot: seq<TopicPartition>, c: Cursor, codec: Codec)
    : (r: Result<bool, RepoError>)
    ensures r.Failure? <==> CursorFaults(snapshot, c, codec)
    ensures r.Failure? ==> r.error.MalformedNumber?
    ensures r.Failure? ==> FaultIs(snapshot, c, codec, r.error)
    ensures r.Success? ==> (r.value <==> CursorValid(snapshot, c, codec))
  {
    match FindFirst(snapshot, c.partition)
    case None => Success(false)
    case Some(i) =>
      var tp := snapshot[i];
      match codec.decodeOffset(tp.newest)
      case None => Failure(MalformedNumber(tp.newest))
      case Some(newest) =>
        match codec.decodeOffset(tp.oldest)
        case None => Failure(MalformedNumber(tp.oldest))
        case Some(oldest) =>
          match codec.decodeOffset(c.offset)
          case None => Success(false)
          case Some(offset) => Success(offset >= oldest && offset <= newest)
  }

  /** Every cursor of the batch is valid. */
  ghost predicate AllValid(snapshot: seq<TopicPartition>, cursors: seq<Cursor>, codec: Codec) {
    forall k :: 0 <= k < |cursors| ==> CursorValid(snapshot, cursors[k], codec)
  }

  /** The check reaches cursor `k` (all before it are valid) and throws there. */
  ghost predicate FaultsAt(snapshot: seq<TopicPartition>, cursors: seq<Cursor>, codec: Codec, k: int) {
    && 0 <= k < |cursors|
    && CursorFaults(snapshot, cursors[k], codec)
    && forall j :: 0 <= j < k ==> CursorValid(snapshot, cursors[j], codec)
  }

  /** `areCursorsValid` on a snapshot: `allMatch` over the cursors in order,
      stopping at the first cursor that is not valid. An empty batch is
      valid; one invalid cursor invalidates the batch; the call throws only
      when it reaches a cursor whose first matching entry has an undecodable
      bound. */
  function AreCursorsValid(snapshot: seq<TopicPartition>, cursors: seq<Cursor>, codec: Codec)
    : (r: Result<bool, RepoError>)
    ensures cursors == [] ==> r == Success(true)
    ensures r.Success? ==> (r.value <==> AllValid(snapshot, cursors, codec))
    ensures r.Failure? <==> exists k :: FaultsAt(snapshot, cursors, codec, k)
    ensures r.Failure? ==> r.error.MalformedNumber?
    ensures r.Failure? ==> exists k :: FaultsAt(snapshot, cursors, codec, k)
                                       && FaultIs(snapshot, cursors[k], codec, r.error)
  {
    if |cursors| == 0 then Success(true)
    else
      match CheckCursor(snapshot, cursors[0], codec)
      case Failure(e) =>
        assert FaultsAt(snapshot, cursors, codec, 0);
        Failure(e)
      case Success(false) => 
        NoFaultAfterInvalid(snapshot, cursors, codec);
        Success(false)
      case Success(true) =>
        var rest := AreCursorsValid(snapshot, cursors[1..], codec);
        ShiftFaults(snapshot, cursors, codec);
        if rest.Failure? then
          ShiftFaultIs(snapshot, cursors, codec, rest.error);
          rest
        else rest
  }

  /** If the first cursor is invalid the check never reaches a later one. */
  lemma NoFaultAfterInvalid(snapshot: seq<TopicPartition>, cursors: seq<Cursor>, codec: Codec)
    requires |cursors| > 0 && !CursorValid(snapshot, cursors[0], codec)
    requires !CursorFaults(snapshot, cursors[0], codec)
    ensures !exists k :: FaultsAt(snapshot, cursors, codec, k)
  {
    forall k | 0 <= k < |cursors| ensures !FaultsAt(snapshot, cursors, codec, k) {
      if k > 0 {
        assert !CursorValid(snapshot, cursors[0], codec);
      }
    }
  }

  /** A fault at position `k` of the tail, behind a valid first cursor, is a
      fault at position `k + 1` of the batch. */
  lemma ShiftFaultAt(snapshot: seq<TopicPartition>, cursors: seq<Cursor>, codec: Codec, k: int)
    requires |cursors| > 0 && CursorValid(snapshot, cursors[0], codec)
    requires FaultsAt(snapshot, cursors[1..], codec, k)
    ensures FaultsAt(snapshot, cursors, codec, k + 1)
  {
    var tail := cursors[1..];
    assert tail[k] == cursors[k + 1];
    forall j | 0 <= j < k + 1 ensures CursorValid(snapshot, cursors[j], codec) {
      if j > 0 { assert cursors[j] == tail[j - 1]; }
    }
  }

  /** A fault of the tail, behind a valid first cursor, is a fault of the
      batch with the same error. */
  lemma ShiftFaultIs(snapshot: seq<TopicPartition>, cursors: seq<Cursor>, codec: Codec, e: RepoError)
    requires |cursors| > 0 && CursorValid(snapshot, cursors[0], codec)
    requires exists k :: FaultsAt(snapshot, cursors[1..], codec, k) && FaultIs(snapshot, cursors[1..][k], codec, e)
    ensures exists k :: FaultsAt(snapshot, cursors, codec, k) && FaultIs(snapshot, cursors[k], codec, e)
  {
    var k :| FaultsAt(snapshot, cursors[1..], codec, k) && FaultIs(snapshot, cursors[1..][k], codec, e);
    ShiftFaultAt(snapshot, cursors, codec, k);
    assert cursors[1..][k] == cursors[k + 1];
  }

  /** Once the first cursor is valid, the batch faults exactly where its tail does. */
  lemma ShiftFaults(snapshot: seq<TopicPartition>, cursors: seq<Cursor>, codec: Codec)
    requires |cursors| > 0 && CursorValid(snapshot, cursors[0], codec)
    requires !CursorFaults(snapshot, cursors[0], codec)
    ensures (exists k :: FaultsAt(snapshot, cursors, codec, k))
            <==> (exists k :: FaultsAt(snapshot, cursors[1..], codec, k))
    ensures AllValid(snapshot, cursors, codec) <==> AllValid(snapshot, cursors[1..], codec)
  {
    var tail := cursors[1..];
    if exists k :: FaultsAt(snapshot, cursors, codec, k) {
      var k :| FaultsAt(snapshot, cursors, codec, k);
      assert k != 0;
      assert FaultsAt(snapshot, tail, codec, k - 1) by {
        forall j | 0 <= j < k - 1 ensures CursorValid(snapshot, tail[j], codec) {
          assert tail[j] == cursors[j + 1];
        }
      }
    }
    if exists k :: FaultsAt(snapshot, tail, codec, k) {
      var k :| FaultsAt(snapshot, tail, codec, k);
      assert FaultsAt(snapshot, cursors, codec, k + 1) by {
        forall j | 0 <= j < k + 1 ensures CursorValid(snapshot, cursors[j], codec) {
          if j > 0 { assert cursors[j] == tail[j - 1]; }
        }
      }
    }
    if AllValid(snapshot, tail, codec) {
      forall j | 0 <= j < |cursors| ensures CursorValid(snapshot, cursors[j], codec) {
        if j > 0 { assert cursors[j] == tail[j - 1]; }
      }
    }
  }

  /** Every entry of the snapshot has decodable bounds. */
  predicate WellFormed(snapshot: seq<TopicPartition>, codec: Codec) {
    forall k :: 0 <= k < |snapshot| ==> BoundsDecode(snapshot[k], codec)
  }

  /** Against a snapshot whose bounds decode, the check never throws: it
      answers whether every cursor is valid. */
  lemma WellFormedNeverFaults(snapshot: seq<TopicPartition>, cursors: seq<Cursor>, codec: Codec)
    requires WellFormed(snapshot, codec)
    ensures AreCursorsValid(snapshot, cursors, codec) == Success(AllValid(snapshot, cursors, codec))
  {
    forall k | 0 <= k < |cursors| ensures !FaultsAt(snapshot, cursors, codec, k) {
      assert !CursorFaults(snapshot, cursors[k], codec);
    }
  }

  /** A cursor positioned at the encoded offset `o` of a partition whose first
      entry has bounds `lo` and `hi` is valid exactly when `lo <= o <= hi`. */
  lemma CheckEncodedOffset(snapshot: seq<TopicPartition>, i: int, o: int, codec: Codec)
    requires OffsetRoundTrip(codec)
    requires 0 <= i < |snapshot| && IsFirstMatch(snapshot, snapshot[i].partitionId, i)
    requires BoundsDecode(snapshot[i], codec)
    ensures var tp := snapshot[i];
            CheckCursor(snapshot, Cursor(tp.partitionId, codec.encodeOffset(o)), codec)
            == Success(codec.decodeOffset(tp.oldest).value <= o <= codec.decodeOffset(tp.newest).value)
  {
    var tp := snapshot[i];
    var c := Cursor(tp.partitionId, codec.encodeOffset(o));
    assert codec.decodeOffset(c.offset) == Some(o);
    FirstMatchUnique(snapshot, tp.partitionId, i, FindFirst(snapshot, tp.partitionId).value);
  }

  /** The range is inclusive at both ends: a cursor at `newest` (the next
      write position) or at `oldest` is valid, one at `newest + 1` or at
      `oldest - 1` is not. */
  lemma RangeIsInclusive(snapshot: seq<TopicPartition>, i: int, codec: Codec)
    requires OffsetRoundTrip(codec)
    requires 0 <= i < |snapshot| && IsFirstMatch(snapshot, snapshot[i].partitionId, i)
    requires BoundsDecode(snapshot[i], codec)
    requires codec.decodeOffset(snapshot[i].oldest).value <= codec.decodeOffset(snapshot[i].newest).value
    ensures var tp := snapshot[i];
            var lo := codec.decodeOffset(tp.oldest).value;
            var hi := codec.decodeOffset(tp.newest).value;
            && CheckCursor(snapshot, Cursor(tp.partitionId, codec.encodeOffset(hi)), codec) == Success(true)
            && CheckCursor(snapshot, Cursor(tp.partitionId, codec.encodeOffset(lo)), codec) == Success(true)
            && CheckCursor(snapshot, Cursor(tp.partitionId, codec.encodeOffset(hi + 1)), codec) == Success(false)
            && CheckCursor(snapshot, Cursor(tp.partitionId, codec.encodeOffset(lo - 1)), codec) == Success(false)
  {
    var tp := snapshot[i];
    var lo := codec.decodeOffset(tp.oldest).value;
    var hi := codec.decodeOffset(tp.newest).value;
    CheckEncodedOffset(snapshot, i, hi, codec);
    CheckEncodedOffset(snapshot, i, lo, codec);
    CheckEncodedOffset(snapshot, i, hi + 1, codec);
    CheckEncodedOffset(snapshot, i, lo - 1, codec);
  }

  /** A cursor whose offset does not decode is invalid, not an error. */
  lemma UndecodableOffsetIsInvalid(snapshot: seq<TopicPartition>, c: Cursor, codec: Codec)
    requires WellFormed(snapshot, codec)
    requires codec.decodeOffset(c.offset).None?
    ensures CheckCursor(snapshot, c, codec) == Success(false)
  {
  }

  /** Only the first entry with the cursor's partition id decides: entries
      after it, even with the same id, are never consulted. */
  lemma OnlyFirstMatchCounts(prefix: seq<TopicPartition>, tp: TopicPartition,
                             suffix: seq<TopicPartition>, c: Cursor, codec: Codec)
    requires c.partition == tp.partitionId
    requires Unknown(prefix, tp.partitionId)
    ensures CheckCursor(prefix + [tp] + suffix, c, codec) == CheckCursor([tp], c, codec)
  {
    var snapshot := prefix + [tp] + suffix;
    assert IsFirstMatch(snapshot, c.partition, |prefix|);
    FirstMatchUnique(snapshot, c.partition, |prefix|, FindFirst(snapshot, c.partition).value);
    assert FindFirst([tp], c.partition) == Some(0);
  }

  /** A cursor naming a partition the snapshot does not have makes the whole
      batch invalid, whatever the other cursors are. */
  lemma UnknownPartitionInvalidatesBatch(snapshot: seq<TopicPartition>, cursors: seq<Cursor>,
                                         k: int, codec: Codec)
    requires WellFormed(snapshot, codec)
    requires 0 <= k < |cursors| && Unknown(snapshot, cursors[k].partition)
    ensures AreCursorsValid(snapshot, cursors, codec) == Success(false)
  {
    WellFormedNeverFaults(snapshot, cursors, codec);
    assert !CursorValid(snapshot, cursors[k], codec);
  }

  /** Checking a concatenated batch checks the first part and, only if all of
      it is valid, the second part. */
  lemma {:induction false} BatchConcat(snapshot: seq<TopicPartition>, a: seq<Cursor>,
                                       b: seq<Cursor>, codec: Codec)
    ensures AreCursorsValid(snapshot, a + b, codec)
            == if AreCursorsValid(snapshot, a, codec) == Success(true)
               then AreCursorsValid(snapshot, b, codec)
               else AreCursorsValid(snapshot, a, codec)
  {
    if |a| == 0 {
      assert a + b == b;
    } else {
      assert (a + b)[0] == a[0];
      assert (a + b)[1..] == a[1..] + b;
      BatchConcat(snapshot, a[1..], b, codec);
    }
  }
}
