/**
 * The older device server (server/src/device_handler.rs). It has the same accept and `'client` loops
 * as the current one, but answers `CheckUpdate` with the hand-written fixed-length codec of
 * common/src/lib.rs, unwrapping `UpdateResult::serialize`, which fails for a text kind longer than that
 * crate's `TEXT_BUFFER_SIZE` (70). This file is written against a command and header shape
 * (`CheckUpdate(device_id, after)`, a header field `id`) that it uses itself; the command is modelled
 * with that shape, the header with the codec's `MessageUpdate`, its `uuid` holding the id.
 */
module LegacyDeviceHandler {
  import opened Wrappers
  import opened Bytes
  import opened Types
  import opened Repository
  import Wire
  import Pico
  import ServerMessage
  import CommandLoop
  import DeviceService

  /** `(&message.content).into()`: a text announces its byte length (cast to `u32`). */
  function LegacyKind(c: MessageContent): (k: Wire.MessageUpdateKind)
    ensures c.Image? ==> k == Wire.Image
    ensures c.Text? ==> k.Text? && k.size == |c.text| % U32_LIMIT
  {
    match c
    case Text(text) => Wire.Text(|text| % U32_LIMIT)
    case Image(_) => Wire.Image
  }

  /** The `UpdateResult` built for `CheckUpdate`: the next message's header, or `NoUpdate`. */
  function CheckResult(msgs: seq<Message>, device: DeviceID, after: Option<UpdateID>): (r: Wire.UpdateResult)
    ensures r.NoUpdate? <==> GetNextMessage(msgs, device, after).None?
    ensures r.Update? ==>
              var m := GetNextMessage(msgs, device, after).value;
              r.update == Wire.MessageUpdate(m.lifetimeSecs, m.id.value, LegacyKind(m.content))
  {
    match GetNextMessage(msgs, device, after)
    case Some(m) => Wire.Update(Wire.MessageUpdate(m.lifetimeSecs, m.id.value, LegacyKind(m.content)))
    case None => Wire.NoUpdate
  }

  /**
   * The body of the `'client` loop: `CheckUpdate` writes the serialized result and panics when it
   * cannot be serialized; `RequestUpdate` writes the stored bytes and panics on an unknown id.
   */
  function Reply(msgs: seq<Message>, c: Pico.ClientCommand): (r: Outcome<seq<byte>>)
    ensures c.CheckUpdate? ==>
              (r.Panics? <==> (var m := GetNextMessage(msgs, c.device, c.after);
                               m.Some? && m.value.content.Text? && |m.value.content.text| % U32_LIMIT > Wire.TEXT_BUFFER_SIZE))
    ensures c.CheckUpdate? && r.Returns? ==> |r.value| == Wire.UPDATE_RESULT_LEN
    ensures c.RequestUpdate? ==> (r.Panics? <==> GetMessage(msgs, c.id).None?)
    ensures c.RequestUpdate? && r.Returns? ==> r.value == DeviceService.ContentBytes(GetMessage(msgs, c.id).value.content)
  {
    match c
    case CheckUpdate(device, after) =>
      var result := CheckResult(msgs, device, after);
      if Wire.ValidResult(result) then Returns(Wire.ResultEncoding(result))
      else Panics("called `Option::unwrap()` on a `None` value")
    case RequestUpdate(id) =>
      match GetMessage(msgs, id)
      case None => Panics("Requested message not found.")
      case Some(m) => Returns(DeviceService.ContentBytes(m.content))
  }

  /** What the server writes for `CheckUpdate` is what the device decodes back: the same result. */
  lemma ReplyDecodesToResult(msgs: seq<Message>, device: DeviceID, after: Option<UpdateID>)
    requires Reply(msgs, Pico.CheckUpdate(device, after)).Returns?
    ensures Wire.DeserializeResult(Reply(msgs, Pico.CheckUpdate(device, after)).value)
            == Some(CheckResult(msgs, device, after))
  {
    Wire.ResultRoundTrip(CheckResult(msgs, device, after));
  }

  /** When every stored text fits this codec's 70-byte buffer, `CheckUpdate` never panics. */
  lemma NoPanicWhenTextsFit(msgs: seq<Message>, device: DeviceID, after: Option<UpdateID>)
    requires forall i :: 0 <= i < |msgs| ==> msgs[i].content.Text? ==> |msgs[i].content.text| <= Wire.TEXT_BUFFER_SIZE
    ensures Reply(msgs, Pico.CheckUpdate(device, after)).Returns?
  {
    if GetNextMessage(msgs, device, after).Some? {
      var i := NextMessageIndex(msgs, device, after).value;
      assert msgs[i] == GetNextMessage(msgs, device, after).value;
    }
  }

  /**
   * `new_text` of server/src/message.rs accepts texts up to 136 bytes, so a stored 100-byte text makes
   * this handler panic when it announces it.
   */
  lemma AcceptedTextPanicsHere()
    ensures var text := Zeros(100);
            var msgs := [Message(UpdateID(0), DeviceID(0), Web, 0, 60, Text(text))];
            ServerMessage.NewText(text).Ok? && Reply(msgs, Pico.CheckUpdate(DeviceID(0), None)).Panics?
  {
    var text := Zeros(100);
    var msgs := [Message(UpdateID(0), DeviceID(0), Web, 0, 60, Text(text))];
    assert Pending(msgs[0], DeviceID(0), AfterTime(msgs, None));
  }

  function Step(msgs: seq<Message>): ((), Pico.ClientCommand) -> Outcome<((), seq<byte>)>
  {
    (u: (), c: Pico.ClientCommand) =>
      match Reply(msgs, c)
      case Panics(why) => Panics(why)
      case Returns(w) => Returns(((), w))
  }

  /**
   * `run`: the accept loop and the `'client` loop, reading `SERIALIZED_LEN` bytes per command and
   * decoding them with `ClientCommand::deserialize(..).ok()`.
   */
  method Run(store: ServerMessage.Messages, conns: seq<CommandLoop.Connection>, serializedLen: nat,
             deserialize: seq<byte> -> Result<Pico.ClientCommand, string>)
      returns (sessions: seq<CommandLoop.Session<seq<byte>>>)
    requires serializedLen > 0
    ensures sessions == CommandLoop.Serve((), conns, serializedLen, CommandLoop.DropError(deserialize), Step(store.inner))
  {
    sessions := CommandLoop.AcceptLoop((), conns, serializedLen, CommandLoop.DropError(deserialize), Step(store.inner));
  }
}
