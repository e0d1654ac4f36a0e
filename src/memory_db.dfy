/**
 * The server's in-memory database (server/src/db/memory_db.rs): devices, the message vector,
 * authorized users and pending authorization requests, behind one lock. `MemoryDb::add_message`
 * stamps each new message with `next_id` under that lock, so ids are the messages' positions.
 *
 * The database's message record comes from server/src/db/message.rs, which is not part of this
 * model; it is represented by `Repository.Message`, and `InsertMessage` is that record before it has
 * an id. Loading and storing JSON files is not modelled; the lock is not modelled (every method runs
 * with the lock held).
 */
module MemoryDb {
  import opened Wrappers
  import opened Bytes
  import opened Types
  import opened Repository

  datatype Device = Device(id: DeviceID, name: string)

  /** `RawUser::Telegram { id }` with teloxide's numeric `UserId`. */
  datatype RawUser = Telegram(id: nat)

  /** `User<Authorized>`: only its raw identity is data. */
  datatype User = User(raw: RawUser)

  type Uuid = nat

  datatype AuthRequest = AuthRequest(id: Uuid, userId: nat, userName: string)

  datatype InsertMessage = InsertMessage(
    receiverId: DeviceID,
    senderId: SenderID,
    createdAt: int,
    lifetimeSecs: u32,
    content: MessageContent)

  /** `Message::from_insert`: the inserted fields plus the id the store assigns. */
  function FromInsert(id: UpdateID, m: InsertMessage): (r: Message)
    ensures r.id == id && r.receiverId == m.receiverId && r.createdAt == m.createdAt
    ensures r.senderId == m.senderId && r.lifetimeSecs == m.lifetimeSecs && r.content == m.content
  {
    Message(id, m.receiverId, m.senderId, m.createdAt, m.lifetimeSecs, m.content)
  }

  class InnerMemoryDb {
    var devices: map<DeviceID, Device>
    var messages: seq<Message>
    var authorizedUsers: map<RawUser, User>
    const telegramAdminId: nat
    var telegramAuthRequests: map<Uuid, AuthRequest>

    /** The state a loaded database file describes. */
    constructor (devices: map<DeviceID, Device>, messages: seq<Message>, authorizedUsers: map<RawUser, User>,
                 telegramAdminId: nat, telegramAuthRequests: map<Uuid, AuthRequest>)
      ensures this.devices == devices && this.messages == messages && this.authorizedUsers == authorizedUsers
      ensures this.telegramAdminId == telegramAdminId && this.telegramAuthRequests == telegramAuthRequests
    {
      this.devices := devices;
      this.messages := messages;
      this.authorizedUsers := authorizedUsers;
      this.telegramAdminId := telegramAdminId;
      this.telegramAuthRequests := telegramAuthRequests;
    }

    /** `get_devices`: every registered device once, in the map's (unspecified) order. */
    method GetDevices() returns (r: seq<Device>)
      ensures |r| == |devices|
      ensures forall d :: d in r <==> d in devices.Values
    {
      r := [];
      var left := devices.Keys;
      while left != {}
        invariant left <= devices.Keys
        invariant |r| + |left| == |devices.Keys|
        invariant forall d :: d in r <==> exists k :: k in devices.Keys - left && devices[k] == d
        decreases |left|
      {
        var k :| k in left;
        r := r + [devices[k]];
        left := left - {k};
      }
      assert devices.Keys - left == devices.Keys;
    }

    /** `get_device` */
    function GetDevice(id: DeviceID): (r: Option<Device>)
      reads this
      ensures r.Some? <==> id in devices
      ensures r.Some? ==> r.value == devices[id]
    {
      if id in devices then Some(devices[id]) else None
    }

    /** `add_message`: push at the end; nothing else in the store changes. */
    method AddMessage(m: Message)
      modifies this
      ensures messages == old(messages) + [m]
      ensures devices == old(devices) && authorizedUsers == old(authorizedUsers)
      ensures telegramAuthRequests == old(telegramAuthRequests)
    {
      messages := messages + [m];
    }

    function GetNextMessage(receiver: DeviceID, after: Option<UpdateID>): (r: Option<Message>)
      reads this
      ensures r.None? <==> forall i :: 0 <= i < |messages| ==> !Pending(messages[i], receiver, AfterTime(messages, after))
      ensures r.Some? ==> r.value.receiverId == receiver && Pending(r.value, receiver, AfterTime(messages, after))
      ensures r.Some? ==> r.value == messages[NextMessageIndex(messages, receiver, after).value]
    {
      Repository.GetNextMessage(messages, receiver, after)
    }

    function GetMessage(id: UpdateID): (r: Option<Message>)
      reads this
      ensures r.None? <==> forall i :: 0 <= i < |messages| ==> messages[i].id != id
      ensures r.Some? ==> r.value.id == id && r.value == messages[MessageIndex(messages, id).value]
    {
      Repository.GetMessage(messages, id)
    }

    function NextId(): (r: UpdateID)
      reads this
      ensures |messages| < U32_LIMIT ==> r.value == |messages|
    {
      Repository.NextId(messages)
    }

    /** `is_user_authorized` */
    function IsUserAuthorized(user: RawUser): (r: Option<User>)
      reads this
      ensures r.Some? <==> user in authorizedUsers
      ensures r.Some? ==> r.value == authorizedUsers[user]
    {
      if user in authorizedUsers then Some(authorizedUsers[user]) else None
    }

    /** `add_authorized_user`: keyed by the user's raw identity; a later lookup of it finds the user. */
    method AddAuthorizedUser(user: User)
      modifies this
      ensures authorizedUsers == old(authorizedUsers)[user.raw := user]
      ensures IsUserAuthorized(user.raw) == Some(user)
      ensures forall u :: u != user.raw ==> IsUserAuthorized(u) == old(IsUserAuthorized(u))
      ensures devices == old(devices) && messages == old(messages)
      ensures telegramAuthRequests == old(telegramAuthRequests)
    {
      authorizedUsers := authorizedUsers[user.raw := user];
    }

    function GetTelegramAdminId(): (r: nat)
      reads this
      ensures r == telegramAdminId
    {
      telegramAdminId
    }

    /** `get_auth_request` */
    function GetAuthRequest(id: Uuid): (r: Option<AuthRequest>)
      reads this
      ensures r.Some? <==> id in telegramAuthRequests
      ensures r.Some? ==> r.value == telegramAuthRequests[id]
    {
      if id in telegramAuthRequests then Some(telegramAuthRequests[id]) else None
    }

    /** `add_auth_request`: keyed by the request's own id; a later lookup of that id finds it. */
    method AddAuthRequest(request: AuthRequest)
      modifies this
      ensures telegramAuthRequests == old(telegramAuthRequests)[request.id := request]
      ensures GetAuthRequest(request.id) == Some(request)
      ensures forall id :: id != request.id ==> GetAuthRequest(id) == old(GetAuthRequest(id))
      ensures devices == old(devices) && messages == old(messages) && authorizedUsers == old(authorizedUsers)
    {
      telegramAuthRequests := telegramAuthRequests[request.id := request];
    }
  }

  /** `MemoryDb`: the inner database behind its lock. */
  class MemoryDb {
    const inner: InnerMemoryDb

    constructor (inner: InnerMemoryDb)
      ensures this.inner == inner
    {
      this.inner := inner;
    }

    /**
     * `Db::add_message`: read `next_id`, stamp the message with it, push it, and return the id.
     * A store whose ids are the messages' positions keeps that property.
     */
    method AddMessage(m: InsertMessage) returns (id: UpdateID)
      modifies inner
      ensures id == NextId(old(inner.messages))
      ensures |old(inner.messages)| < U32_LIMIT ==> id.value == |old(inner.messages)|
      ensures inner.messages == old(inner.messages) + [FromInsert(id, m)]
      ensures IdsAreIndices(old(inner.messages)) ==> IdsAreIndices(inner.messages)
      ensures inner.devices == old(inner.devices) && inner.authorizedUsers == old(inner.authorizedUsers)
      ensures inner.telegramAuthRequests == old(inner.telegramAuthRequests)
    {
      id := inner.NextId();
      var message := FromInsert(id, m);
      if IdsAreIndices(inner.messages) {
        StampedAppendKeepsIds(inner.messages, message);
      }
      inner.AddMessage(message);
    }
  }
}
