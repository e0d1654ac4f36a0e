/**
 * The device-facing TCP server of the backend (server/src/handlers/device.rs). Each command is read
 * as `ClientCommand::BUFFER_SIZE` bytes and decoded with `ClientCommand::from_bytes`. A `CheckUpdate`
 * is answered with the header of the device's next message, a `RequestUpdate` with that message's
 * raw bytes. The store is the `Messages` vector of server/src/message.rs; other tasks adding
 * messages while a client is served are not modelled, so each run sees one snapshot.
 */
module DeviceService {
  import opened Wrappers
  import opened Bytes
  import opened Types
  import opened Repository
  import Consts
  import Pico
  import ServerMessage
  import CommandLoop

  /** What one command makes the server write: a `CheckUpdateResult` (in postcard) or payload bytes. */
  datatype SocketWrite = UpdateResult(result: Pico.CheckUpdateResult) | Payload(bytes: seq<byte>)

  /** The bytes `RequestUpdate` writes for a content. */
  function ContentBytes(c: MessageContent): (b: seq<byte>)
    ensures c.Text? ==> b == c.text
    ensures c.Image? ==> b == c.image
  {
    match c
    case Text(text) => text
    case Image(image) => image
  }

  /** The header announcing a stored message: its lifetime, its id and the kind of its content. */
  function Announce(m: Message): (u: Pico.Update)
    ensures u.lifetimeSec == m.lifetimeSecs && u.id == m.id
    ensures u.kind == ServerMessage.KindOf(m.content)
  {
    Pico.Update.Update(m.lifetimeSecs, m.id, ServerMessage.KindOf(m.content))
  }

  /**
   * The body of the `'client` loop for one decoded command: `CheckUpdate` answers with the next
   * message for the device after its cursor, or `NoUpdate`; `RequestUpdate` writes the message's
   * bytes and panics (`expect`) when no message has that id.
   */
  function Reply(msgs: seq<Message>, c: Pico.ClientCommand): (r: Outcome<SocketWrite>)
    ensures c.CheckUpdate? ==> r.Returns? && r.value.UpdateResult?
    ensures c.CheckUpdate? ==>
              (r.value.result.NoUpdate? <==> forall i :: 0 <= i < |msgs| ==> !Pending(msgs[i], c.device, AfterTime(msgs, c.after)))
    ensures c.CheckUpdate? && r.value.result.Update? ==>
              exists i :: 0 <= i < |msgs| && Pending(msgs[i], c.device, AfterTime(msgs, c.after))
                          && r.value.result.update == Announce(msgs[i])
    ensures c.CheckUpdate? && r.value.result.Update? ==>
              r.value.result.update == Announce(msgs[NextMessageIndex(msgs, c.device, c.after).value])
    ensures c.RequestUpdate? ==> (r.Panics? <==> forall i :: 0 <= i < |msgs| ==> msgs[i].id != c.id)
    ensures c.RequestUpdate? && r.Returns? ==>
              exists i :: 0 <= i < |msgs| && msgs[i].id == c.id && r.value == Payload(ContentBytes(msgs[i].content))
    ensures c.RequestUpdate? && r.Returns? ==>
              r.value == Payload(ContentBytes(msgs[MessageIndex(msgs, c.id).value].content))
  {
    match c
    case CheckUpdate(device, after) =>
      (match GetNextMessage(msgs, device, after)
       case Some(m) =>
         var i := NextMessageIndex(msgs, device, after).value;
         assert Pending(msgs[i], device, AfterTime(msgs, after));
         Returns(UpdateResult(Pico.CheckUpdateResult.Update(Announce(m))))
       case None => Returns(UpdateResult(Pico.NoUpdate)))
    case RequestUpdate(id) =>
      match GetMessage(msgs, id)
      case None => Panics("Requested message not found.")
      case Some(m) => Returns(Payload(ContentBytes(m.content)))
  }

  /** Content the store can hold: a text made by `new_text`, or a converted image of exactly one screen. */
  predicate WellFormedContent(c: MessageContent)
  {
    match c
    case Text(text) => ServerMessage.NewText(text).Ok?
    case Image(image) => |image| == Consts.IMAGE_BUFFER_SIZE
  }

  /**
   * Asking for the message a `CheckUpdate` just announced, in a store whose ids are positions and whose
   * contents are well formed, never panics, and the device receives exactly as many bytes as the
   * header announced; the header also passes the device's `check_valid`.
   */
  lemma AnnouncedUpdateIsDelivered(msgs: seq<Message>, device: DeviceID, after: Option<UpdateID>)
    requires IdsAreIndices(msgs) && |msgs| <= U32_LIMIT
    requires forall i :: 0 <= i < |msgs| ==> WellFormedContent(msgs[i].content)
    requires Reply(msgs, Pico.CheckUpdate(device, after)).value.result.Update?
    ensures var u := Reply(msgs, Pico.CheckUpdate(device, after)).value.result.update;
            var p := Reply(msgs, Pico.RequestUpdate(u.id));
            p.Returns? && p.value.Payload? && |p.value.bytes| == Pico.Size(u.kind)
            && Pico.CheckValid(Pico.CheckUpdateResult.Update(u)).Ok?
  {
    var i := NextMessageIndex(msgs, device, after).value;
    LookupByPosition(msgs, i);
    assert msgs[i].id == UpdateID(i);
    var m := msgs[i];
    assert WellFormedContent(m.content);
    if m.content.Text? {
      ServerMessage.NewTextPassesDeviceCheck(m.content.text, m.lifetimeSecs, m.id);
    }
  }

  /** `parse_client_command` after a successful `read_exact`: `ClientCommand::from_bytes`, errors dropped. */
  function ParseCommand(bufferSize: nat, postcard: seq<byte> -> Result<Pico.ClientCommand, string>)
    : seq<byte> -> Option<Pico.ClientCommand>
  {
    (buf: seq<byte>) =>
      if |buf| != bufferSize then None
      else
        match Pico.FromBytes(buf, bufferSize, postcard)
        case Ok(c) => Some(c)
        case Err(_) => None
  }

  /** The reply as a step of the client loop, which keeps no state of its own. */
  function Step(msgs: seq<Message>): ((), Pico.ClientCommand) -> Outcome<((), SocketWrite)>
  {
    (u: (), c: Pico.ClientCommand) =>
      match Reply(msgs, c)
      case Panics(why) => Panics(why)
      case Returns(w) => Returns(((), w))
  }

  /**
   * `run`: the accept loop and the `'client` loop, over the connections accepted in turn. Every
   * command of a session is answered from the store as it stands.
   */
  method Run(store: ServerMessage.Messages, conns: seq<CommandLoop.Connection>, bufferSize: nat,
             postcard: seq<byte> -> Result<Pico.ClientCommand, string>)
      returns (sessions: seq<CommandLoop.Session<SocketWrite>>)
    requires bufferSize > 0
    ensures sessions == CommandLoop.Serve((), conns, bufferSize, ParseCommand(bufferSize, postcard), Step(store.inner))
  {
    sessions := CommandLoop.AcceptLoop((), conns, bufferSize, ParseCommand(bufferSize, postcard), Step(store.inner));
  }

  /**
   * Within one session the `k`-th write answers, from the store, the command decoded from bytes
   * `k * BUFFER_SIZE .. (k + 1) * BUFFER_SIZE` of the stream.
   */
  lemma SessionAnswersEachCommand(msgs: seq<Message>, stream: seq<byte>, bufferSize: nat,
                                  postcard: seq<byte> -> Result<Pico.ClientCommand, string>, k: nat)
    requires bufferSize > 0
    requires k < |CommandLoop.ClientSession((), stream, bufferSize, ParseCommand(bufferSize, postcard), Step(msgs)).written|
    ensures (k + 1) * bufferSize <= |stream|
    ensures var c := Pico.FromBytes(CommandLoop.Chunk(stream, bufferSize, k), bufferSize, postcard);
            c.Ok? && Reply(msgs, c.value)
                     == Returns(CommandLoop.ClientSession((), stream, bufferSize, ParseCommand(bufferSize, postcard), Step(msgs)).written[k])
  {
    var decode := ParseCommand(bufferSize, postcard);
    CommandLoop.SessionReadsWholeCommands((), stream, bufferSize, decode, Step(msgs));
    var s := CommandLoop.ClientSession((), stream, bufferSize, decode, Step(msgs));
    assert CommandLoop.Answered((), stream, bufferSize, decode, Step(msgs), k, s.written[k]);
    assert |CommandLoop.Chunk(stream, bufferSize, k)| == bufferSize;
  }
}
