/**
 * The scripted test server (server/src/bin/dummy.rs). It ignores the store: per connection a stage
 * counter starting at 0 picks the answer to each `CheckUpdate` (two texts and two images, then
 * nothing), and `RequestUpdate` is answered from four fixed payloads. The two images are the contents
 * of picture files embedded at build time; they are parameters here, of the size their type fixes.
 */
module Dummy {
  import opened Wrappers
  import opened Bytes
  import opened Types
  import Consts
  import Pico
  import CommandLoop
  import DeviceService

  const LIFETIME_SEC: u32 := 60 * 100

  const TEXT1: string := "Happy Valentine's Day!"
  const TEXT2: string := "Did you drink enough water today?"

  /** The UTF-8 bytes of an ASCII string: one byte per character, holding its code. */
  function AsciiBytes(s: string): (b: seq<byte>)
    requires forall i :: 0 <= i < |s| ==> s[i] as int < 128
    ensures |b| == |s|
    ensures forall i :: 0 <= i < |s| ==> b[i] as int == s[i] as int
  {
    seq(|s|, i requires 0 <= i < |s| => s[i] as int as byte)
  }

  lemma TextLengths()
    ensures |TEXT1| == 22 && |TEXT2| == 33
    ensures forall i :: 0 <= i < |TEXT1| ==> TEXT1[i] as int < 128
    ensures forall i :: 0 <= i < |TEXT2| ==> TEXT2[i] as int < 128
  {
  }

  function Text1Bytes(): (b: seq<byte>)
    ensures |b| == 22
  {
    TextLengths();
    AsciiBytes(TEXT1)
  }

  function Text2Bytes(): (b: seq<byte>)
    ensures |b| == 33
  {
    TextLengths();
    AsciiBytes(TEXT2)
  }

  /** The answer to a `CheckUpdate` at a given stage. */
  function ScriptedResult(stage: nat): (r: Pico.CheckUpdateResult)
    ensures r.Update? <==> stage <= 3
    ensures r.Update? ==> r.update.id == UpdateID(stage) && r.update.lifetimeSec == LIFETIME_SEC
    ensures r.Update? ==> (r.update.kind.Image? <==> stage % 2 == 1)
  {
    match stage
    case 0 => Pico.CheckUpdateResult.Update(Pico.Update.Update(LIFETIME_SEC, UpdateID(0), Pico.Text(|Text1Bytes()|)))
    case 1 => Pico.CheckUpdateResult.Update(Pico.Update.Update(LIFETIME_SEC, UpdateID(1), Pico.Image))
    case 2 => Pico.CheckUpdateResult.Update(Pico.Update.Update(LIFETIME_SEC, UpdateID(2), Pico.Text(|Text2Bytes()|)))
    case 3 => Pico.CheckUpdateResult.Update(Pico.Update.Update(LIFETIME_SEC, UpdateID(3), Pico.Image))
    case _ => Pico.NoUpdate
  }

  /** The bytes written for `RequestUpdate(id)`; an unknown id writes nothing. */
  function ScriptedPayload(id: UpdateID, imo: seq<byte>, bg: seq<byte>): (p: seq<byte>)
    ensures id.value > 3 ==> p == []
  {
    match id.value
    case 0 => Text1Bytes()
    case 1 => imo
    case 2 => Text2Bytes()
    case 3 => bg
    case _ => []
  }

  /**
   * Every update the script announces is delivered in full: asking for its id yields exactly as many
   * bytes as its kind announces, and the header passes the device's `check_valid`.
   */
  lemma AnnouncedPayloadMatches(stage: nat, imo: seq<byte>, bg: seq<byte>)
    requires |imo| == Consts.IMAGE_BUFFER_SIZE && |bg| == Consts.IMAGE_BUFFER_SIZE
    requires stage <= 3
    ensures var u := ScriptedResult(stage).update;
            |ScriptedPayload(u.id, imo, bg)| == Pico.Size(u.kind) > 0
            && Pico.CheckValid(ScriptedResult(stage)).Ok?
  {
  }

  /**
   * One pass of the `while let` body: `CheckUpdate` writes the stage's result and moves to the next
   * stage; `RequestUpdate` writes a payload and keeps the stage. Nothing here panics.
   */
  function Answer(imo: seq<byte>, bg: seq<byte>, stage: nat, c: Pico.ClientCommand): (r: (nat, DeviceService.SocketWrite))
    ensures c.CheckUpdate? ==> r.0 == stage + 1 && r.1.UpdateResult?
    ensures c.RequestUpdate? ==> r.0 == stage && r.1.Payload?
  {
    match c
    case CheckUpdate(_, _) => (stage + 1, DeviceService.UpdateResult(ScriptedResult(stage)))
    case RequestUpdate(id) => (stage, DeviceService.Payload(ScriptedPayload(id, imo, bg)))
  }

  function Step(imo: seq<byte>, bg: seq<byte>): (nat, Pico.ClientCommand) -> Outcome<(nat, DeviceService.SocketWrite)>
  {
    (stage: nat, c: Pico.ClientCommand) => Returns(Answer(imo, bg, stage, c))
  }

  /** How many of the first `k` commands of a stream decode to `CheckUpdate` before the loop stops. */
  function CheckUpdatesBefore(stream: seq<byte>, size: nat, decode: seq<byte> -> Option<Pico.ClientCommand>, k: nat): nat
    requires size > 0
    decreases k
  {
    if k == 0 || |stream| < size then 0
    else
      match decode(stream[..size])
      case None => 0
      case Some(c) => (if c.CheckUpdate? then 1 else 0) + CheckUpdatesBefore(stream[size..], size, decode, k - 1)
  }

  /**
   * The stage in force when the `k`-th command of a connection is answered is the number of
   * `CheckUpdate`s before it, since each connection starts at stage 0.
   */
  lemma {:induction false} StageCountsCheckUpdates(imo: seq<byte>, bg: seq<byte>, stage: nat, stream: seq<byte>, size: nat,
                                                 decode: seq<byte> -> Option<Pico.ClientCommand>, k: nat)
    requires size > 0
    ensures CommandLoop.StateBefore(stage, stream, size, decode, Step(imo, bg), k)
            == stage + CheckUpdatesBefore(stream, size, decode, k)
    decreases k
  {
    if k > 0 && |stream| >= size && decode(stream[..size]).Some? {
      var c := decode(stream[..size]).value;
      var next := Answer(imo, bg, stage, c).0;
      StageCountsCheckUpdates(imo, bg, next, stream[size..], size, decode, k - 1);
    }
  }

  /** `main`: the accept loop and the `while let` command loop, reading `POSTCARD_MAX_SIZE` bytes per command. */
  method Run(imo: seq<byte>, bg: seq<byte>, conns: seq<CommandLoop.Connection>, maxSize: nat,
             postcard: seq<byte> -> Result<Pico.ClientCommand, string>)
      returns (sessions: seq<CommandLoop.Session<DeviceService.SocketWrite>>)
    requires |imo| == Consts.IMAGE_BUFFER_SIZE && |bg| == Consts.IMAGE_BUFFER_SIZE
    requires maxSize > 0
    ensures sessions == CommandLoop.Serve(0, conns, maxSize, CommandLoop.DropError(postcard), Step(imo, bg))
  {
    sessions := CommandLoop.AcceptLoop(0, conns, maxSize, CommandLoop.DropError(postcard), Step(imo, bg));
  }
}
