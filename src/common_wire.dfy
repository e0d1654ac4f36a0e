/**
 * The hand-written fixed-length wire codec of the shared `common` crate (common/src/lib.rs):
 * a one-byte tag, `u32` fields in big-endian order, and a validation step that bounds the
 * length a `Text` kind may announce.
 */
module Wire {
  import opened Wrappers
  import opened Bytes

  // This version of the crate has its own, smaller text buffer.
  const TEXT_BUFFER_SIZE: nat := 70
  const IMAGE_WIDTH: nat := 160
  const IMAGE_HEIGHT: nat := 128
  const IMAGE_BYTES_PER_PIXEL: nat := 2
  const IMAGE_BUFFER_SIZE: nat := IMAGE_HEIGHT * IMAGE_WIDTH * IMAGE_BYTES_PER_PIXEL

  const MESSAGE_UPDATE_KIND_LEN: nat := 5
  const MESSAGE_UPDATE_LEN: nat := 13
  const UPDATE_RESULT_LEN: nat := 14
  const CLIENT_COMMAND_LEN: nat := 5

  datatype MessageUpdateKind = Image | Text(size: u32)

  datatype MessageUpdate = MessageUpdate(lifetimeSec: u32, uuid: u32, kind: MessageUpdateKind)

  datatype UpdateResult = NoUpdate | Update(update: MessageUpdate)

  datatype ClientCommand = CheckUpdate | RequestUpdate(uuid: u32)

  /** `MessageUpdateKind::validate`: `Some(())` is `true`. */
  predicate Validate(k: MessageUpdateKind)
  {
    match k
    case Image => true
    case Text(size) => size <= TEXT_BUFFER_SIZE
  }

  /** `MessageUpdateKind::size`: the number of payload bytes that follow a header of this kind. */
  function Size(k: MessageUpdateKind): nat
  {
    match k
    case Image => IMAGE_BUFFER_SIZE
    case Text(size) => size
  }

  /** A validated kind never announces more bytes than the buffer that will receive them. */
  lemma ValidKindFitsBuffer(k: MessageUpdateKind)
    requires Validate(k)
    ensures k.Image? ==> Size(k) == IMAGE_BUFFER_SIZE == 40960
    ensures k.Text? ==> Size(k) <= TEXT_BUFFER_SIZE
  {
  }

  // ---------------------------------------------------------------- MessageUpdateKind

  /** The five bytes `MessageUpdateKind::serialize` produces for a valid kind. */
  function KindEncoding(k: MessageUpdateKind): (r: seq<byte>)
    requires Validate(k)
    ensures |r| == MESSAGE_UPDATE_KIND_LEN
    ensures r[0] == if k.Image? then 0 else 1
    ensures k.Image? ==> r == Zeros(MESSAGE_UPDATE_KIND_LEN)
    ensures k.Text? ==> FromBE32(r[1..]) == k.size
  {
    match k
    case Image => Zeros(MESSAGE_UPDATE_KIND_LEN)
    case Text(size) =>
      BE32RoundTrip(size);
      assert ([1] + BE32(size))[1..] == BE32(size);
      [1] + BE32(size)
  }

  /** `MessageUpdateKind::serialize`, filling a zeroed output array in place. */
  method SerializeKind(k: MessageUpdateKind) returns (r: Option<seq<byte>>)
    ensures r.Some? <==> Validate(k)
    ensures r.Some? ==> r.value == KindEncoding(k)
  {
    if !Validate(k) {
      return None;
    }
    var output := new byte[MESSAGE_UPDATE_KIND_LEN](_ => 0);
    match k {
      case Image =>
      case Text(size) =>
        output[0] := 1;
        CopyFromSlice(output, 1, BE32(size));
    }
    return Some(output[..]);
  }

  /** `MessageUpdateKind::deserialize` */
  function DeserializeKind(bytes: seq<byte>): Option<MessageUpdateKind>
    requires |bytes| == MESSAGE_UPDATE_KIND_LEN
  {
    match bytes[0]
    case 0 => Some(Image)
    case 1 =>
      var result := Text(FromBE32(bytes[1..]));
      if Validate(result) then Some(result) else None
    case _ => None
  }

  /** Every valid kind survives encoding and decoding. */
  lemma KindRoundTrip(k: MessageUpdateKind)
    requires Validate(k)
    ensures DeserializeKind(KindEncoding(k)) == Some(k)
  {
  }

  /**
   * Decoding accepts tag 0 whatever follows it, and tag 1 exactly when the announced length is
   * within the text buffer; every other tag is refused. What it accepts is valid, and a decoded
   * `Text` re-encodes to the very same bytes.
   */
  lemma KindDecoding(bytes: seq<byte>)
    requires |bytes| == MESSAGE_UPDATE_KIND_LEN
    ensures DeserializeKind(bytes).Some? <==>
              bytes[0] == 0 || (bytes[0] == 1 && FromBE32(bytes[1..]) <= TEXT_BUFFER_SIZE)
    ensures DeserializeKind(bytes).Some? ==>
              var k := DeserializeKind(bytes).value;
              Validate(k) && KindEncoding(k)[0] == bytes[0] && (k.Text? ==> KindEncoding(k) == bytes)
  {
    if bytes[0] == 1 && FromBE32(bytes[1..]) <= TEXT_BUFFER_SIZE {
      BE32Onto(bytes[1..]);
      assert bytes == [1] + bytes[1..];
    }
  }

  // ---------------------------------------------------------------- MessageUpdate

  /** The 13 bytes of a `MessageUpdate` whose kind is valid. */
  function UpdateEncoding(u: MessageUpdate): (r: seq<byte>)
    requires Validate(u.kind)
    ensures |r| == MESSAGE_UPDATE_LEN == 4 + 4 + MESSAGE_UPDATE_KIND_LEN
    ensures FromBE32(r[0..4]) == u.lifetimeSec
    ensures FromBE32(r[4..8]) == u.uuid
    ensures r[8..13] == KindEncoding(u.kind)
  {
    var r := BE32(u.lifetimeSec) + BE32(u.uuid) + KindEncoding(u.kind);
    assert r[0..4] == BE32(u.lifetimeSec) && r[4..8] == BE32(u.uuid) && r[8..13] == KindEncoding(u.kind);
    BE32RoundTrip(u.lifetimeSec);
    BE32RoundTrip(u.uuid);
    r
  }

  /** `MessageUpdate::serialize`: the two numbers, then the kind, or `None` if the kind is invalid. */
  method SerializeUpdate(u: MessageUpdate) returns (r: Option<seq<byte>>)
    ensures r.Some? <==> Validate(u.kind)
    ensures r.Some? ==> r.value == UpdateEncoding(u)
  {
    var output := new byte[MESSAGE_UPDATE_LEN](_ => 0);
    CopyFromSlice(output, 0, BE32(u.lifetimeSec));
    CopyFromSlice(output, 4, BE32(u.uuid));
    var kind := SerializeKind(u.kind);
    if kind.None? {
      return None;
    }
    CopyFromSlice(output, 8, kind.value);
    return Some(output[..]);
  }

  /** `MessageUpdate::deserialize` */
  function DeserializeUpdate(bytes: seq<byte>): Option<MessageUpdate>
    requires |bytes| == MESSAGE_UPDATE_LEN
  {
    var lifetimeSec := FromBE32(bytes[0..4]);
    var uuid := FromBE32(bytes[4..8]);
    match DeserializeKind(bytes[8..13])
    case None => None
    case Some(kind) => Some(MessageUpdate(lifetimeSec, uuid, kind))
  }

  /** Every update with a valid kind survives encoding and decoding. */
  lemma UpdateRoundTrip(u: MessageUpdate)
    requires Validate(u.kind)
    ensures DeserializeUpdate(UpdateEncoding(u)) == Some(u)
  {
    KindRoundTrip(u.kind);
  }

  // ---------------------------------------------------------------- UpdateResult

  predicate ValidResult(res: UpdateResult)
  {
    res.Update? ==> Validate(res.update.kind)
  }

  /** `NoUpdate` is fourteen zero bytes, `Update` is tag 1 and the 13 update bytes. */
  function ResultEncoding(res: UpdateResult): (r: seq<byte>)
    requires ValidResult(res)
    ensures |r| == UPDATE_RESULT_LEN == 1 + MESSAGE_UPDATE_LEN
    ensures res.NoUpdate? ==> r == Zeros(UPDATE_RESULT_LEN)
    ensures res.Update? ==> r[0] == 1 && r[1..] == UpdateEncoding(res.update)
  {
    match res
    case NoUpdate => Zeros(UPDATE_RESULT_LEN)
    case Update(u) =>
      assert ([1] + UpdateEncoding(u))[1..] == UpdateEncoding(u);
      [1] + UpdateEncoding(u)
  }

  /** `UpdateResult::serialize` */
  method SerializeResult(res: UpdateResult) returns (r: Option<seq<byte>>)
    ensures r.Some? <==> ValidResult(res)
    ensures r.Some? ==> r.value == ResultEncoding(res)
  {
    match res {
      case NoUpdate =>
        var output := new byte[UPDATE_RESULT_LEN](_ => 0);
        return Some(output[..]);
      case Update(update) =>
        var output := new byte[UPDATE_RESULT_LEN](_ => 0);
        output[0] := 1;
        var bytes := SerializeUpdate(update);
        if bytes.None? {
          return None;
        }
        CopyFromSlice(output, 1, bytes.value);
        return Some(output[..]);
    }
  }

  /** `UpdateResult::deserialize` */
  function DeserializeResult(bytes: seq<byte>): Option<UpdateResult>
    requires |bytes| == UPDATE_RESULT_LEN
  {
    match bytes[0]
    case 0 => Some(NoUpdate)
    case 1 =>
      (match DeserializeUpdate(bytes[1..14])
       case None => None
       case Some(update) => Some(Update(update)))
    case _ => None
  }

  /** Every valid result survives encoding and decoding. */
  lemma ResultRoundTrip(res: UpdateResult)
    requires ValidResult(res)
    ensures DeserializeResult(ResultEncoding(res)) == Some(res)
  {
    if res.Update? {
      var e := ResultEncoding(res);
      assert e[1..14] == UpdateEncoding(res.update);
      UpdateRoundTrip(res.update);
    }
  }

  /**
   * Tag 0 is `NoUpdate` whatever the other thirteen bytes hold; a tag other than 0 and 1 is refused,
   * and so is tag 1 when its kind tag is unknown or its text length is over the buffer.
   */
  lemma ResultDecoding(bytes: seq<byte>)
    requires |bytes| == UPDATE_RESULT_LEN
    ensures bytes[0] == 0 ==> DeserializeResult(bytes) == Some(NoUpdate)
    ensures DeserializeResult(bytes).Some? <==>
              bytes[0] == 0 ||
              (bytes[0] == 1 && (bytes[9] == 0 || (bytes[9] == 1 && FromBE32(bytes[10..14]) <= TEXT_BUFFER_SIZE)))
  {
    if bytes[0] == 1 {
      var u := bytes[1..14];
      assert u[8..13] == bytes[9..14];
      KindDecoding(u[8..13]);
      assert u[8..13][1..] == bytes[10..14];
    }
  }

  // ---------------------------------------------------------------- ClientCommand

  /** The five bytes of a command; every command has one. */
  function CommandEncoding(c: ClientCommand): (r: seq<byte>)
    ensures |r| == CLIENT_COMMAND_LEN == 1 + 4
    ensures c.CheckUpdate? ==> r == Zeros(CLIENT_COMMAND_LEN)
    ensures c.RequestUpdate? ==> r[0] == 1 && FromBE32(r[1..]) == c.uuid
  {
    match c
    case CheckUpdate => Zeros(CLIENT_COMMAND_LEN)
    case RequestUpdate(uuid) =>
      BE32RoundTrip(uuid);
      assert ([1] + BE32(uuid))[1..] == BE32(uuid);
      [1] + BE32(uuid)
  }

  /** `ClientCommand::serialize`: total, no validation step. */
  method SerializeCommand(c: ClientCommand) returns (r: seq<byte>)
    ensures r == CommandEncoding(c)
  {
    var output := new byte[CLIENT_COMMAND_LEN](_ => 0);
    match c {
      case CheckUpdate =>
      case RequestUpdate(uuid) =>
        output[0] := 1;
        CopyFromSlice(output, 1, BE32(uuid));
    }
    return output[..];
  }

  /** `ClientCommand::deserialize` */
  function DeserializeCommand(bytes: seq<byte>): Option<ClientCommand>
    requires |bytes| == CLIENT_COMMAND_LEN
  {
    match bytes[0]
    case 0 => Some(CheckUpdate)
    case 1 => Some(RequestUpdate(FromBE32(bytes[1..])))
    case _ => None
  }

  /** Every command survives encoding and decoding. */
  lemma CommandRoundTrip(c: ClientCommand)
    ensures DeserializeCommand(CommandEncoding(c)) == Some(c)
  {
  }

  /** Only tags 0 and 1 decode, and a decoded `RequestUpdate` re-encodes to the same bytes. */
  lemma CommandDecoding(bytes: seq<byte>)
    requires |bytes| == CLIENT_COMMAND_LEN
    ensures DeserializeCommand(bytes).Some? <==> bytes[0] == 0 || bytes[0] == 1
    ensures bytes[0] == 1 ==> CommandEncoding(DeserializeCommand(bytes).value) == bytes
  {
    if bytes[0] == 1 {
      BE32Onto(bytes[1..]);
      assert bytes == [1] + bytes[1..];
    }
  }
}
