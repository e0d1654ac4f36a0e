/**
 * The server's message repository queries, shared by the two stores that implement them the same
 * way (server/src/message.rs `Messages` and server/src/db/memory_db.rs `InnerMemoryDb`): messages
 * live in a vector in insertion order, a message is found by id with `find`, and the next message for
 * a device is the oldest one created strictly after the message the device names.
 *
 * `created_at` (a `chrono::DateTime<Utc>`) is an integer timestamp here.
 */
module Repository {
  import opened Wrappers
  import opened Bytes
  import opened Types
  import opened MinBy

  datatype SenderID = Web | Telegram

  /** `MessageContent`: a text (its UTF-8 bytes) or an image (raw RGB565 bytes). */
  datatype MessageContent = Text(text: seq<byte>) | Image(image: seq<byte>)

  datatype Message = Message(
    id: UpdateID,
    receiverId: DeviceID,
    senderId: SenderID,
    createdAt: int,
    lifetimeSecs: u32,
    content: MessageContent)

  /** `a > b` for `Option<DateTime>` under the derived ordering, where `None` is below every `Some`. */
  predicate OptionGreater(a: Option<int>, b: Option<int>)
  {
    match (a, b)
    case (None, _) => false
    case (Some(_), None) => true
    case (Some(x), Some(y)) => x > y
  }

  /** `get_message`: the first message with this id, as an index. */
  function MessageIndex(msgs: seq<Message>, id: UpdateID): (r: Option<nat>)
    ensures r.None? <==> forall i :: 0 <= i < |msgs| ==> msgs[i].id != id
    ensures r.Some? ==> r.value < |msgs| && msgs[r.value].id == id
    ensures r.Some? ==> forall i :: 0 <= i < r.value ==> msgs[i].id != id
  {
    FirstWhere(msgs, (m: Message) => m.id == id)
  }

  /** `get_message`: the first message with this id, or `None`. */
  function GetMessage(msgs: seq<Message>, id: UpdateID): (r: Option<Message>)
    ensures r.None? <==> forall i :: 0 <= i < |msgs| ==> msgs[i].id != id
    ensures r.Some? ==> r.value.id == id && exists i :: 0 <= i < |msgs| && msgs[i] == r.value
  {
    match MessageIndex(msgs, id)
    case None => None
    case Some(i) => Some(msgs[i])
  }

  /** The creation time of the message `after` names: `after.and_then(get_message).map(created_at)`. */
  function AfterTime(msgs: seq<Message>, after: Option<UpdateID>): (r: Option<int>)
    ensures r.None? <==> after.None? || MessageIndex(msgs, after.value).None?
    ensures r.Some? ==> r.value == msgs[MessageIndex(msgs, after.value).value].createdAt
  {
    match after
    case None => None
    case Some(id) =>
      match MessageIndex(msgs, id)
      case None => None
      case Some(i) => Some(msgs[i].createdAt)
  }

  /** Kept by `get_next_message`: addressed to the device and created after the reference time. */
  predicate Pending(m: Message, receiver: DeviceID, afterTime: Option<int>)
  {
    m.receiverId == receiver && OptionGreater(Some(m.createdAt), afterTime)
  }

  /**
   * `get_next_message(receiver, after)`, as an index: among the messages for `receiver` created
   * strictly after the message `after` names, the one created first, the earliest in the vector on
   * ties. With no reference time every message for the device qualifies.
   */
  function NextMessageIndex(msgs: seq<Message>, receiver: DeviceID, after: Option<UpdateID>): (r: Option<nat>)
    ensures r.None? <==> forall i :: 0 <= i < |msgs| ==> !Pending(msgs[i], receiver, AfterTime(msgs, after))
    ensures r.Some? ==> r.value < |msgs| && msgs[r.value].receiverId == receiver
    ensures r.Some? && AfterTime(msgs, after).Some? ==> msgs[r.value].createdAt > AfterTime(msgs, after).value
    ensures r.Some? ==> forall i :: 0 <= i < |msgs| && Pending(msgs[i], receiver, AfterTime(msgs, after)) ==>
                          msgs[r.value].createdAt <= msgs[i].createdAt
    ensures r.Some? ==> forall i :: 0 <= i < r.value && Pending(msgs[i], receiver, AfterTime(msgs, after)) ==>
                          msgs[r.value].createdAt < msgs[i].createdAt
  {
    var t := AfterTime(msgs, after);
    MinByKey(msgs, (m: Message) => Pending(m, receiver, t), (m: Message) => m.createdAt)
  }

  /** `get_next_message` */
  function GetNextMessage(msgs: seq<Message>, receiver: DeviceID, after: Option<UpdateID>): (r: Option<Message>)
    ensures r.None? <==> NextMessageIndex(msgs, receiver, after).None?
    ensures r.Some? ==> r.value == msgs[NextMessageIndex(msgs, receiver, after).value]
  {
    match NextMessageIndex(msgs, receiver, after)
    case None => None
    case Some(i) => Some(msgs[i])
  }

  /**
   * Without a usable cursor (none given, or an id the store does not hold) the query answers with the
   * device's oldest message, and with nothing exactly when the device has no messages at all.
   */
  lemma NoCursorMeansOldest(msgs: seq<Message>, receiver: DeviceID, after: Option<UpdateID>)
    requires after.None? || MessageIndex(msgs, after.value).None?
    ensures NextMessageIndex(msgs, receiver, after).None? <==> forall i :: 0 <= i < |msgs| ==> msgs[i].receiverId != receiver
    ensures NextMessageIndex(msgs, receiver, after).Some? ==>
              forall i :: 0 <= i < |msgs| && msgs[i].receiverId == receiver ==>
                msgs[NextMessageIndex(msgs, receiver, after).value].createdAt <= msgs[i].createdAt
  {
    assert AfterTime(msgs, after).None?;
  }

  /** `next_id`: the vector's length, cast to `u32` (it wraps past 2^32 messages). */
  function NextId(msgs: seq<Message>): (r: UpdateID)
    ensures |msgs| < U32_LIMIT ==> r.value == |msgs|
  {
    UpdateID(|msgs| % U32_LIMIT)
  }

  /** Every message carries its position in the vector as its id (modulo 2^32). */
  predicate IdsAreIndices(msgs: seq<Message>)
  {
    forall i :: 0 <= i < |msgs| ==> msgs[i].id.value == i % U32_LIMIT
  }

  /** Appending a message stamped with `next_id` keeps ids equal to positions. */
  lemma {:induction false} StampedAppendKeepsIds(msgs: seq<Message>, m: Message)
    requires IdsAreIndices(msgs) && m.id == NextId(msgs)
    ensures IdsAreIndices(msgs + [m])
  {
    assert forall i :: 0 <= i < |msgs| ==> (msgs + [m])[i] == msgs[i];
    assert (msgs + [m])[|msgs|] == m;
  }

  /** With ids equal to positions (and fewer than 2^32 messages), `get_message(i)` is the `i`-th message. */
  lemma {:induction false} LookupByPosition(msgs: seq<Message>, i: nat)
    requires IdsAreIndices(msgs) && |msgs| <= U32_LIMIT && i < |msgs|
    ensures MessageIndex(msgs, UpdateID(i)) == Some(i)
    ensures GetMessage(msgs, UpdateID(i)) == Some(msgs[i])
  {
    FirstWhereIs(msgs, (m: Message) => m.id == UpdateID(i), i);
  }

  /**
   * With ids equal to positions, answering a device's cursor with the message it names moves forward
   * in time: the next answer for the same device was created strictly later.
   */
  lemma NextAfterAnswerIsLater(msgs: seq<Message>, receiver: DeviceID, after: Option<UpdateID>)
    requires IdsAreIndices(msgs) && |msgs| <= U32_LIMIT
    requires NextMessageIndex(msgs, receiver, after).Some?
    ensures var i := NextMessageIndex(msgs, receiver, after).value;
            var j := NextMessageIndex(msgs, receiver, Some(msgs[i].id));
            j.Some? ==> msgs[j.value].createdAt > msgs[i].createdAt
  {
    var i := NextMessageIndex(msgs, receiver, after).value;
    LookupByPosition(msgs, i);
  }
}
